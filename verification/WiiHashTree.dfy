/**
 The three-level hash tree over the 64 blocks of a Wii group
 (linux/raofflineproxy/rvz_datasource.py). SHA-1 is a parameter: nothing here depends on more
 than its digests being 20 bytes long.
 */
module WiiHashTree {
  import opened Bytes

  type Digest = d: Bytes | |d| == 20 witness Zeros(20)
  type Sha1 = Bytes -> Digest

  const HEADER_SIZE := 0x400
  const DATA_SIZE := 0x7C00
  const BLOCK_COUNT := 64
  const H0_SIZE := 31 * 20
  const TABLE_SIZE := 8 * 20
  const H1_OFFSET := 0x280
  const H1_END := 0x340
  const H2_OFFSET := 0x340

  predicate ValidBlocks(blocks: seq<Bytes>) {
    |blocks| == BLOCK_COUNT && forall b :: 0 <= b < BLOCK_COUNT ==> |blocks[b]| == DATA_SIZE
  }

  function Chunk(block: Bytes, i: nat): Bytes
    requires |block| == DATA_SIZE && i < 31
  {
    block[i * HEADER_SIZE..i * HEADER_SIZE + HEADER_SIZE]
  }

  /** The `i`th digest of the table that starts at `at`. */
  function Entry(header: Bytes, at: nat, i: nat): Bytes
    requires at + 20 * i + 20 <= |header|
  {
    header[at + 20 * i..at + 20 * i + 20]
  }

  /** What a consistent tree is, read off the headers themselves. */
  ghost predicate ConsistentTree(sha1: Sha1, blocks: seq<Bytes>, headers: seq<Bytes>)
    requires ValidBlocks(blocks)
  {
    && |headers| == BLOCK_COUNT
    && (forall b :: 0 <= b < BLOCK_COUNT ==> |headers[b]| == HEADER_SIZE)
    && (forall b, i :: 0 <= b < BLOCK_COUNT && 0 <= i < 31 ==>
          Entry(headers[b], 0, i) == sha1(Chunk(blocks[b], i)))
    && (forall b, j :: 0 <= b < BLOCK_COUNT && 0 <= j < 8 ==>
          Entry(headers[b], H1_OFFSET, j) == sha1(headers[b / 8 * 8 + j][..H0_SIZE]))
    && (forall b, s :: 0 <= b < BLOCK_COUNT && 0 <= s < 8 ==>
          Entry(headers[b], H2_OFFSET, s) == sha1(headers[8 * s][H1_OFFSET..H1_OFFSET + TABLE_SIZE]))
    && (forall b :: 0 <= b < BLOCK_COUNT ==> ZeroPadded(headers[b]))
  }

  ghost predicate ZeroPadded(header: Bytes)
    requires |header| == HEADER_SIZE
  {
    && header[H0_SIZE..H1_OFFSET] == Zeros(20)
    && header[H1_OFFSET + TABLE_SIZE..H2_OFFSET] == Zeros(32)
    && header[H2_OFFSET + TABLE_SIZE..] == Zeros(32)
  }

  // The tree computed bottom up.

  /** The digests one after the other. */
  function Table(entries: seq<Digest>): (t: Bytes)
    ensures |t| == 20 * |entries|
  {
    if entries == [] then [] else Table(entries[..|entries| - 1]) + entries[|entries| - 1]
  }

  lemma {:induction false} TableEntry(entries: seq<Digest>, i: nat)
    requires i < |entries|
    ensures Entry(Table(entries), 0, i) == entries[i]
  {
    var last := |entries| - 1;
    if i < last {
      TableEntry(entries[..last], i);
      assert Entry(Table(entries), 0, i) == Entry(Table(entries[..last]), 0, i);
    }
  }

  /** Digests at every 20 bytes determine a table. */
  lemma {:induction false} TableFromEntries(entries: seq<Digest>, t: Bytes)
    requires |t| == 20 * |entries|
    requires forall i :: 0 <= i < |entries| ==> Entry(t, 0, i) == entries[i]
    ensures t == Table(entries)
  {
    if entries != [] {
      var last := |entries| - 1;
      var front := t[..20 * last];
      forall i | 0 <= i < last
        ensures Entry(front, 0, i) == entries[i]
      {
        assert Entry(front, 0, i) == Entry(t, 0, i);
      }
      TableFromEntries(entries[..last], front);
      assert t == front + Entry(t, 0, last);
    }
  }

  /** The first `n` digests, the rest still zero. */
  function Partial(entries: seq<Digest>, n: nat): (t: Bytes)
    requires n <= |entries|
    ensures |t| == 20 * |entries|
  {
    Table(entries[..n]) + Zeros(20 * (|entries| - n))
  }

  lemma PartialNext(entries: seq<Digest>, n: nat)
    requires n < |entries|
    ensures Splice(Partial(entries, n), 20 * n, entries[n]) == Partial(entries, n + 1)
  {
    assert entries[..n + 1][..n] == entries[..n];
  }

  lemma PartialEnds(entries: seq<Digest>)
    ensures Partial(entries, 0) == Zeros(20 * |entries|)
    ensures Partial(entries, |entries|) == Table(entries)
  {
    assert entries[..|entries|] == entries;
  }

  function H0Entries(sha1: Sha1, block: Bytes): (r: seq<Digest>)
    requires |block| == DATA_SIZE
    ensures |r| == 31
  {
    seq<Digest>(31, (i: nat) requires i < 31 => sha1(Chunk(block, i)))
  }

  function H0(sha1: Sha1, block: Bytes): (t: Bytes)
    requires |block| == DATA_SIZE
    ensures |t| == H0_SIZE
  {
    Table(H0Entries(sha1, block))
  }

  function H1Entries(sha1: Sha1, blocks: seq<Bytes>, s: nat): (r: seq<Digest>)
    requires ValidBlocks(blocks) && s < 8
    ensures |r| == 8
  {
    seq<Digest>(8, (j: nat) requires j < 8 => sha1(H0(sha1, blocks[8 * s + j])))
  }

  function H1(sha1: Sha1, blocks: seq<Bytes>, s: nat): (t: Bytes)
    requires ValidBlocks(blocks) && s < 8
    ensures |t| == TABLE_SIZE
  {
    Table(H1Entries(sha1, blocks, s))
  }

  function H2Entries(sha1: Sha1, blocks: seq<Bytes>): (r: seq<Digest>)
    requires ValidBlocks(blocks)
    ensures |r| == 8
  {
    seq<Digest>(8, (s: nat) requires s < 8 => sha1(H1(sha1, blocks, s)))
  }

  function H2(sha1: Sha1, blocks: seq<Bytes>): (t: Bytes)
    requires ValidBlocks(blocks)
    ensures |t| == TABLE_SIZE
  {
    Table(H2Entries(sha1, blocks))
  }

  function Layout(h0: Bytes, h1: Bytes, h2: Bytes): (h: Bytes)
    requires |h0| == H0_SIZE && |h1| == TABLE_SIZE && |h2| == TABLE_SIZE
    ensures |h| == HEADER_SIZE
  {
    h0 + Zeros(20) + h1 + Zeros(32) + h2 + Zeros(32)
  }

  /** The header of block `b`. */
  function HashHeader(sha1: Sha1, blocks: seq<Bytes>, b: nat): (h: Bytes)
    requires ValidBlocks(blocks) && b < BLOCK_COUNT
    ensures |h| == HEADER_SIZE
  {
    Layout(H0(sha1, blocks[b]), H1(sha1, blocks, b / 8), H2(sha1, blocks))
  }

  function HashHeaders(sha1: Sha1, blocks: seq<Bytes>): (r: seq<Bytes>)
    requires ValidBlocks(blocks)
    ensures |r| == BLOCK_COUNT
    ensures forall b :: 0 <= b < BLOCK_COUNT ==> r[b] == HashHeader(sha1, blocks, b)
  {
    seq(BLOCK_COUNT, (b: nat) requires b < BLOCK_COUNT => HashHeader(sha1, blocks, b))
  }

  lemma LayoutRegions(h0: Bytes, h1: Bytes, h2: Bytes)
    requires |h0| == H0_SIZE && |h1| == TABLE_SIZE && |h2| == TABLE_SIZE
    ensures var h := Layout(h0, h1, h2);
      && ZeroPadded(h)
      && h[..H0_SIZE] == h0
      && h[H1_OFFSET..H1_OFFSET + TABLE_SIZE] == h1
      && h[H2_OFFSET..H2_OFFSET + TABLE_SIZE] == h2
  {
  }

  lemma RegionsLayout(h: Bytes)
    requires |h| == HEADER_SIZE && ZeroPadded(h)
    ensures h == Layout(h[..H0_SIZE], h[H1_OFFSET..H1_OFFSET + TABLE_SIZE], h[H2_OFFSET..H2_OFFSET + TABLE_SIZE])
  {
  }

  lemma WriteH0(h0: Bytes, h1: Bytes, h2: Bytes, at: nat, patch: Bytes)
    requires |h0| == H0_SIZE && |h1| == TABLE_SIZE && |h2| == TABLE_SIZE
    requires at + |patch| <= H0_SIZE
    ensures Splice(Layout(h0, h1, h2), at, patch) == Layout(Splice(h0, at, patch), h1, h2)
  {
  }

  lemma WriteH1(h0: Bytes, h1: Bytes, h2: Bytes, at: nat, patch: Bytes)
    requires |h0| == H0_SIZE && |h1| == TABLE_SIZE && |h2| == TABLE_SIZE
    requires at + |patch| <= TABLE_SIZE
    ensures Splice(Layout(h0, h1, h2), H1_OFFSET + at, patch) == Layout(h0, Splice(h1, at, patch), h2)
  {
  }

  lemma WriteH2(h0: Bytes, h1: Bytes, h2: Bytes, at: nat, patch: Bytes)
    requires |h0| == H0_SIZE && |h1| == TABLE_SIZE && |h2| == TABLE_SIZE
    requires at + |patch| <= TABLE_SIZE
    ensures Splice(Layout(h0, h1, h2), H2_OFFSET + at, patch) == Layout(h0, h1, Splice(h2, at, patch))
  {
  }

  /** The computed headers are consistent, and no others are. */
  lemma ConsistentExactly(sha1: Sha1, blocks: seq<Bytes>, headers: seq<Bytes>)
    requires ValidBlocks(blocks)
    ensures ConsistentTree(sha1, blocks, headers) <==> headers == HashHeaders(sha1, blocks)
  {
    if headers == HashHeaders(sha1, blocks) {
      ComputedIsConsistent(sha1, blocks, headers);
    }
    if ConsistentTree(sha1, blocks, headers) {
      ConsistentIsComputed(sha1, blocks, headers);
    }
  }

  /** Every digest of a header and every byte between them, with the places written out. */
  lemma HeaderDigests(sha1: Sha1, blocks: seq<Bytes>, b: nat, i: nat, j: nat, s: nat)
    requires ValidBlocks(blocks) && b < 64 && i < 31 && j < 8 && s < 8
    ensures var headers := HashHeaders(sha1, blocks);
      && |headers[b]| == 0x400
      && headers[b][20 * i..20 * i + 20] == sha1(blocks[b][0x400 * i..0x400 * i + 0x400])
      && headers[b][0x280 + 20 * j..0x280 + 20 * j + 20] == sha1(headers[b / 8 * 8 + j][..31 * 20])
      && headers[b][0x340 + 20 * s..0x340 + 20 * s + 20] == sha1(headers[8 * s][0x280..0x280 + 8 * 20])
      && headers[b][31 * 20..0x280] == Zeros(20)
      && headers[b][0x280 + 8 * 20..0x340] == Zeros(32)
      && headers[b][0x340 + 8 * 20..] == Zeros(32)
  {
    hide HashHeader, HashHeaders;
    var headers := HashHeaders(sha1, blocks);
    ComputedIsConsistent(sha1, blocks, headers);
    assert Entry(headers[b], 0, i) == sha1(Chunk(blocks[b], i));
    assert Entry(headers[b], H1_OFFSET, j) == sha1(headers[b / 8 * 8 + j][..H0_SIZE]);
    assert Entry(headers[b], H2_OFFSET, s) == sha1(headers[8 * s][H1_OFFSET..H1_OFFSET + TABLE_SIZE]);
    assert ZeroPadded(headers[b]);
  }

  lemma ComputedRegions(sha1: Sha1, blocks: seq<Bytes>, b: nat)
    requires ValidBlocks(blocks) && b < BLOCK_COUNT
    ensures var h := HashHeader(sha1, blocks, b);
      && ZeroPadded(h)
      && h[..H0_SIZE] == H0(sha1, blocks[b])
      && h[H1_OFFSET..H1_OFFSET + TABLE_SIZE] == H1(sha1, blocks, b / 8)
      && h[H2_OFFSET..H2_OFFSET + TABLE_SIZE] == H2(sha1, blocks)
  {
    LayoutRegions(H0(sha1, blocks[b]), H1(sha1, blocks, b / 8), H2(sha1, blocks));
  }

  lemma EntryOfRegion(header: Bytes, from: nat, to: nat, i: nat)
    requires from <= to <= |header| && from + 20 * i + 20 <= to
    ensures Entry(header, from, i) == Entry(header[from..to], 0, i)
  {
    SliceOfSlice(header, from, to, 20 * i, 20 * i + 20);
  }

  lemma ComputedIsConsistent(sha1: Sha1, blocks: seq<Bytes>, headers: seq<Bytes>)
    requires ValidBlocks(blocks)
    requires headers == HashHeaders(sha1, blocks)
    ensures ConsistentTree(sha1, blocks, headers)
  {
    hide HashHeader, Table, Entry, Chunk, ZeroPadded;
    forall b | 0 <= b < BLOCK_COUNT
      ensures ZeroPadded(headers[b])
    {
      ComputedRegions(sha1, blocks, b);
    }
    forall b, i | 0 <= b < BLOCK_COUNT && 0 <= i < 31
      ensures Entry(headers[b], 0, i) == sha1(Chunk(blocks[b], i))
    {
      ComputedRegions(sha1, blocks, b);
      EntryOfRegion(headers[b], 0, H0_SIZE, i);
      TableEntry(H0Entries(sha1, blocks[b]), i);
    }
    forall b, j | 0 <= b < BLOCK_COUNT && 0 <= j < 8
      ensures Entry(headers[b], H1_OFFSET, j) == sha1(headers[b / 8 * 8 + j][..H0_SIZE])
    {
      ComputedRegions(sha1, blocks, b);
      ComputedRegions(sha1, blocks, b / 8 * 8 + j);
      EntryOfRegion(headers[b], H1_OFFSET, H1_OFFSET + TABLE_SIZE, j);
      TableEntry(H1Entries(sha1, blocks, b / 8), j);
    }
    forall b, s | 0 <= b < BLOCK_COUNT && 0 <= s < 8
      ensures Entry(headers[b], H2_OFFSET, s) == sha1(headers[8 * s][H1_OFFSET..H1_OFFSET + TABLE_SIZE])
    {
      ComputedRegions(sha1, blocks, b);
      ComputedRegions(sha1, blocks, 8 * s);
      EntryOfRegion(headers[b], H2_OFFSET, H2_OFFSET + TABLE_SIZE, s);
      TableEntry(H2Entries(sha1, blocks), s);
    }
  }

  lemma TableRegion(header: Bytes, at: nat, entries: seq<Digest>)
    requires at + 20 * |entries| <= |header|
    requires forall i :: 0 <= i < |entries| ==> Entry(header, at, i) == entries[i]
    ensures header[at..at + 20 * |entries|] == Table(entries)
  {
    hide Table, Entry;
    var t := header[at..at + 20 * |entries|];
    forall i | 0 <= i < |entries|
      ensures Entry(t, 0, i) == entries[i]
    {
      EntryOfRegion(header, at, at + 20 * |entries|, i);
    }
    TableFromEntries(entries, t);
  }

  lemma ConsistentH0(sha1: Sha1, blocks: seq<Bytes>, headers: seq<Bytes>, b: nat)
    requires ValidBlocks(blocks) && ConsistentTree(sha1, blocks, headers) && b < BLOCK_COUNT
    ensures headers[b][..H0_SIZE] == H0(sha1, blocks[b])
  {
    hide Table, Entry, Chunk, ZeroPadded;
    TableRegion(headers[b], 0, H0Entries(sha1, blocks[b]));
  }

  lemma ConsistentH1(sha1: Sha1, blocks: seq<Bytes>, headers: seq<Bytes>, b: nat)
    requires ValidBlocks(blocks) && ConsistentTree(sha1, blocks, headers) && b < BLOCK_COUNT
    ensures headers[b][H1_OFFSET..H1_OFFSET + TABLE_SIZE] == H1(sha1, blocks, b / 8)
  {
    hide Table, Entry, Chunk, ZeroPadded, H0;
    var entries := H1Entries(sha1, blocks, b / 8);
    forall j | 0 <= j < 8
      ensures Entry(headers[b], H1_OFFSET, j) == entries[j]
    {
      ConsistentH0(sha1, blocks, headers, b / 8 * 8 + j);
    }
    TableRegion(headers[b], H1_OFFSET, entries);
  }

  lemma ConsistentH2(sha1: Sha1, blocks: seq<Bytes>, headers: seq<Bytes>, b: nat)
    requires ValidBlocks(blocks) && ConsistentTree(sha1, blocks, headers) && b < BLOCK_COUNT
    ensures headers[b][H2_OFFSET..H2_OFFSET + TABLE_SIZE] == H2(sha1, blocks)
  {
    hide Table, Entry, Chunk, ZeroPadded, H1;
    var entries := H2Entries(sha1, blocks);
    forall s | 0 <= s < 8
      ensures Entry(headers[b], H2_OFFSET, s) == entries[s]
    {
      ConsistentH1(sha1, blocks, headers, 8 * s);
    }
    TableRegion(headers[b], H2_OFFSET, entries);
  }

  lemma ConsistentIsComputed(sha1: Sha1, blocks: seq<Bytes>, headers: seq<Bytes>)
    requires ValidBlocks(blocks)
    requires ConsistentTree(sha1, blocks, headers)
    ensures headers == HashHeaders(sha1, blocks)
  {
    hide Entry, Chunk, ZeroPadded, Layout, H0, H1, H2;
    forall b | 0 <= b < BLOCK_COUNT
      ensures headers[b] == HashHeader(sha1, blocks, b)
    {
      ConsistentH0(sha1, blocks, headers, b);
      ConsistentH1(sha1, blocks, headers, b);
      ConsistentH2(sha1, blocks, headers, b);
      RegionsLayout(headers[b]);
    }
  }

  // The source's loops.

  /** `header[at:at + len(patch)] = patch` */
  method WriteAt(header: array<byte>, at: nat, patch: Bytes)
    requires at + |patch| <= header.Length
    modifies header
    ensures header[..] == Splice(old(header[..]), at, patch)
  {
    forall i | 0 <= i < |patch| {
      header[at + i] := patch[i];
    }
  }

  ghost predicate Distinct(headers: seq<array<byte>>) {
    forall i, j :: 0 <= i < j < |headers| ==> headers[i] != headers[j]
  }

  /** A header while the first loop has reached block `reached`. */
  function AfterLeaves(sha1: Sha1, blocks: seq<Bytes>, reached: nat, b: nat): Bytes
    requires ValidBlocks(blocks) && b < BLOCK_COUNT
  {
    Layout(
      if b < reached then H0(sha1, blocks[b]) else Zeros(H0_SIZE),
      if b % 8 == 0 then Partial(H1Entries(sha1, blocks, b / 8), Max(0, Min(8, reached - b))) else Zeros(TABLE_SIZE),
      Zeros(TABLE_SIZE))
  }

  method NewHeaders() returns (headers: seq<array<byte>>)
    ensures |headers| == BLOCK_COUNT && Distinct(headers)
    ensures forall b :: 0 <= b < BLOCK_COUNT ==> fresh(headers[b]) && headers[b][..] == Zeros(HEADER_SIZE)
  {
    headers := [];
    for b := 0 to BLOCK_COUNT
      invariant |headers| == b && Distinct(headers)
      invariant forall i :: 0 <= i < b ==> fresh(headers[i]) && headers[i][..] == Zeros(HEADER_SIZE)
    {
      var header := new byte[HEADER_SIZE](_ => 0);
      headers := headers + [header];
    }
  }

  /** Hashes the 31 chunks of a block into the front of its header. */
  method HashChunks(sha1: Sha1, block: Bytes, header: array<byte>, ghost h1: Bytes, ghost h2: Bytes)
    requires |block| == DATA_SIZE && |h1| == TABLE_SIZE && |h2| == TABLE_SIZE
    requires header[..] == Layout(Zeros(H0_SIZE), h1, h2)
    modifies header
    ensures header[..] == Layout(H0(sha1, block), h1, h2)
  {
    ghost var entries := H0Entries(sha1, block);
    PartialEnds(entries);
    hide Layout, Partial, Splice;
    for i := 0 to 31
      invariant header[..] == Layout(Partial(entries, i), h1, h2)
    {
      var digest := sha1(Chunk(block, i));
      WriteAt(header, 20 * i, digest);
      WriteH0(Partial(entries, i), h1, h2, 20 * i, digest);
      PartialNext(entries, i);
    }
  }

  /** The source's `_build_wii_hash_blocks`. */
  method BuildHashBlocks(sha1: Sha1, blocks: seq<Bytes>) returns (headers: seq<array<byte>>)
    requires ValidBlocks(blocks)
    ensures |headers| == BLOCK_COUNT && Distinct(headers)
    ensures forall b :: 0 <= b < BLOCK_COUNT ==> fresh(headers[b]) && headers[b][..] == HashHeader(sha1, blocks, b)
  {
    headers := NewHeaders();
    StartOfLeaves(sha1, blocks);
    hide Layout, Partial, Splice, AfterLeaves, AfterCopies, HashHeader, Table, H0, H1, H2, H2Entries;
    for b := 0 to BLOCK_COUNT
      invariant |headers| == BLOCK_COUNT && Distinct(headers)
      invariant forall i :: 0 <= i < BLOCK_COUNT ==> fresh(headers[i])
      invariant forall i :: 0 <= i < BLOCK_COUNT ==> headers[i][..] == AfterLeaves(sha1, blocks, b, i)
    {
      AddLeaf(sha1, blocks, headers, b);
    }
    LeavesDone(sha1, blocks);
    var subgroupHashes := CopySubgroups(sha1, blocks, headers);
    TopTable(sha1, blocks);
    WriteTables(sha1, blocks, headers, Table(subgroupHashes));
  }

  /** The second loop. */
  method CopySubgroups(sha1: Sha1, blocks: seq<Bytes>, headers: seq<array<byte>>) returns (subgroupHashes: seq<Digest>)
    requires ValidBlocks(blocks) && |headers| == BLOCK_COUNT && Distinct(headers)
    requires forall i :: 0 <= i < BLOCK_COUNT ==> headers[i][..] == AfterCopies(sha1, blocks, 0, 1, i)
    modifies headers
    ensures forall i :: 0 <= i < BLOCK_COUNT ==> headers[i][..] == AfterCopies(sha1, blocks, 8, 1, i)
    ensures subgroupHashes == H2Entries(sha1, blocks)
  {
    hide AfterCopies, H2Entries;
    subgroupHashes := seq<Digest>(8, _ => ZERO_DIGEST);
    for s := 0 to 8
      invariant forall i :: 0 <= i < BLOCK_COUNT ==> headers[i][..] == AfterCopies(sha1, blocks, s, 1, i)
      invariant |subgroupHashes| == 8 && forall i :: 0 <= i < s ==> subgroupHashes[i] == H2Entries(sha1, blocks)[i]
    {
      var hash := CopySubgroup(sha1, blocks, headers, s);
      subgroupHashes := subgroupHashes[s := hash];
    }
  }

  /** The third loop. */
  method WriteTables(sha1: Sha1, blocks: seq<Bytes>, headers: seq<array<byte>>, h2Source: Bytes)
    requires ValidBlocks(blocks) && |headers| == BLOCK_COUNT && Distinct(headers) && h2Source == H2(sha1, blocks)
    requires forall i :: 0 <= i < BLOCK_COUNT ==> headers[i][..] == AfterCopies(sha1, blocks, 8, 1, i)
    modifies headers
    ensures forall i :: 0 <= i < BLOCK_COUNT ==> headers[i][..] == HashHeader(sha1, blocks, i)
  {
    hide AfterCopies, H2, HashHeader;
    for b := 0 to BLOCK_COUNT
      invariant forall i :: 0 <= i < b ==> headers[i][..] == HashHeader(sha1, blocks, i)
      invariant forall i :: b <= i < BLOCK_COUNT ==> headers[i][..] == AfterCopies(sha1, blocks, 8, 1, i)
    {
      WriteTable(sha1, blocks, h2Source, headers[b], b);
    }
  }

  lemma TopTable(sha1: Sha1, blocks: seq<Bytes>)
    requires ValidBlocks(blocks)
    ensures H2(sha1, blocks) == Table(H2Entries(sha1, blocks))
  {
  }

  const ZERO_DIGEST: Digest := Zeros(20)

  /** A header in the second loop: subgroups below `s` are done, and `copied` blocks of `s` itself. */
  function AfterCopies(sha1: Sha1, blocks: seq<Bytes>, s: nat, copied: nat, b: nat): Bytes
    requires ValidBlocks(blocks) && b < BLOCK_COUNT
  {
    Layout(
      H0(sha1, blocks[b]),
      if b % 8 == 0 || b / 8 < s || (b / 8 == s && b % 8 < copied) then H1(sha1, blocks, b / 8) else Zeros(TABLE_SIZE),
      Zeros(TABLE_SIZE))
  }

  lemma LeavesDone(sha1: Sha1, blocks: seq<Bytes>)
    requires ValidBlocks(blocks)
    ensures forall b :: 0 <= b < BLOCK_COUNT ==>
      AfterLeaves(sha1, blocks, BLOCK_COUNT, b) == AfterCopies(sha1, blocks, 0, 1, b)
  {
    hide Layout, Partial;
    forall b | 0 <= b < BLOCK_COUNT
      ensures AfterLeaves(sha1, blocks, BLOCK_COUNT, b) == AfterCopies(sha1, blocks, 0, 1, b)
    {
      PartialEnds(H1Entries(sha1, blocks, b / 8));
    }
  }

  lemma WriteH1AndPadding(h0: Bytes, h1: Bytes, h2: Bytes, table: Bytes)
    requires |h0| == H0_SIZE && |h1| == TABLE_SIZE && |h2| == TABLE_SIZE && |table| == TABLE_SIZE
    ensures Splice(Layout(h0, h1, h2), H1_OFFSET, table + Zeros(32)) == Layout(h0, table, h2)
  {
  }

  lemma H1AndPadding(h0: Bytes, h1: Bytes, h2: Bytes)
    requires |h0| == H0_SIZE && |h1| == TABLE_SIZE && |h2| == TABLE_SIZE
    ensures Layout(h0, h1, h2)[H1_OFFSET..H1_END] == h1 + Zeros(32)
    ensures Layout(h0, h1, h2)[H1_OFFSET..H1_OFFSET + TABLE_SIZE] == h1
  {
  }

  /** One round of the second loop: the subgroup's table is hashed and copied to its blocks. */
  method CopySubgroup(sha1: Sha1, blocks: seq<Bytes>, headers: seq<array<byte>>, s: nat) returns (hash: Digest)
    requires ValidBlocks(blocks) && |headers| == BLOCK_COUNT && Distinct(headers) && s < 8
    requires forall i :: 0 <= i < BLOCK_COUNT ==> headers[i][..] == AfterCopies(sha1, blocks, s, 1, i)
    modifies headers
    ensures hash == H2Entries(sha1, blocks)[s]
    ensures forall i :: 0 <= i < BLOCK_COUNT ==> headers[i][..] == AfterCopies(sha1, blocks, s + 1, 1, i)
  {
    hide Layout, Splice, H1, H0;
    var source := headers[s * 8];
    ghost var table := H1(sha1, blocks, s);
    H1AndPadding(H0(sha1, blocks[s * 8]), table, Zeros(TABLE_SIZE));
    hash := sha1(source[H1_OFFSET..H1_OFFSET + TABLE_SIZE]);
    for c := 1 to 8
      invariant forall i :: 0 <= i < BLOCK_COUNT ==> headers[i][..] == AfterCopies(sha1, blocks, s, c, i)
    {
      assert source[..] == AfterCopies(sha1, blocks, s, c, s * 8);
      WriteAt(headers[s * 8 + c], H1_OFFSET, source[H1_OFFSET..H1_END]);
      WriteH1AndPadding(H0(sha1, blocks[s * 8 + c]), Zeros(TABLE_SIZE), Zeros(TABLE_SIZE), table);
    }
  }

  /** One round of the third loop: the eight subgroup hashes go into the header. */
  method WriteTable(sha1: Sha1, blocks: seq<Bytes>, h2Source: Bytes, header: array<byte>, b: nat)
    requires ValidBlocks(blocks) && b < BLOCK_COUNT && h2Source == H2(sha1, blocks)
    requires header[..] == AfterCopies(sha1, blocks, 8, 1, b)
    modifies header
    ensures header[..] == HashHeader(sha1, blocks, b)
  {
    hide Layout, Splice, Partial, Table;
    ghost var h0, h1 := H0(sha1, blocks[b]), H1(sha1, blocks, b / 8);
    ghost var entries := H2Entries(sha1, blocks);
    PartialEnds(entries);
    for i := 0 to 8
      invariant header[..] == Layout(h0, h1, Partial(entries, i))
    {
      TableEntry(entries, i);
      var digest := h2Source[i * 20..i * 20 + 20];
      WriteAt(header, H2_OFFSET + i * 20, digest);
      WriteH2(h0, h1, Partial(entries, i), 20 * i, digest);
      PartialNext(entries, i);
    }
  }

  lemma StartOfLeaves(sha1: Sha1, blocks: seq<Bytes>)
    requires ValidBlocks(blocks)
    ensures forall b :: 0 <= b < BLOCK_COUNT ==> AfterLeaves(sha1, blocks, 0, b) == Zeros(HEADER_SIZE)
  {
    forall b | 0 <= b < BLOCK_COUNT
      ensures AfterLeaves(sha1, blocks, 0, b) == Zeros(HEADER_SIZE)
    {
      PartialEnds(H1Entries(sha1, blocks, b / 8));
    }
  }

  /** The first loop changes only block `b` and the first block of its subgroup. */
  lemma OtherLeaves(sha1: Sha1, blocks: seq<Bytes>, b: nat, i: nat)
    requires ValidBlocks(blocks) && b < BLOCK_COUNT && i < BLOCK_COUNT && i != b && i != b / 8 * 8
    ensures AfterLeaves(sha1, blocks, b + 1, i) == AfterLeaves(sha1, blocks, b, i)
  {
    hide Layout, Partial, H0, H1Entries;
  }

  /** The two headers that change, before and after. */
  lemma ChangedLeaves(sha1: Sha1, blocks: seq<Bytes>, b: nat)
    requires ValidBlocks(blocks) && b < BLOCK_COUNT
    ensures var first, entries, zeros := b / 8 * 8, H1Entries(sha1, blocks, b / 8), Zeros(TABLE_SIZE);
      && AfterLeaves(sha1, blocks, b, b) ==
           Layout(Zeros(H0_SIZE), if b % 8 == 0 then Partial(entries, 0) else zeros, zeros)
      && (b % 8 != 0 ==>
            && AfterLeaves(sha1, blocks, b, first) == Layout(H0(sha1, blocks[first]), Partial(entries, b % 8), zeros)
            && AfterLeaves(sha1, blocks, b + 1, b) == Layout(H0(sha1, blocks[b]), zeros, zeros))
      && AfterLeaves(sha1, blocks, b + 1, first) == Layout(H0(sha1, blocks[first]), Partial(entries, b % 8 + 1), zeros)
      && entries[b % 8] == sha1(H0(sha1, blocks[b]))
  {
    hide Layout, Partial, H0;
  }

  /** The hash of a block's table goes into the header of its subgroup's first block. */
  method StoreTableHash(sha1: Sha1, blocks: seq<Bytes>, header: array<byte>, b: nat, h0Table: Bytes)
    requires ValidBlocks(blocks) && b < BLOCK_COUNT && h0Table == H0(sha1, blocks[b])
    requires header[..]
      == Layout(H0(sha1, blocks[b / 8 * 8]), Partial(H1Entries(sha1, blocks, b / 8), b % 8), Zeros(TABLE_SIZE))
    modifies header
    ensures header[..] == AfterLeaves(sha1, blocks, b + 1, b / 8 * 8)
  {
    hide Layout, Partial, Splice, H0, H1Entries, AfterLeaves;
    ChangedLeaves(sha1, blocks, b);
    ghost var entries := H1Entries(sha1, blocks, b / 8);
    WriteAt(header, H1_OFFSET + b % 8 * 20, sha1(h0Table));
    WriteH1(H0(sha1, blocks[b / 8 * 8]), Partial(entries, b % 8), Zeros(TABLE_SIZE), b % 8 * 20, sha1(h0Table));
    PartialNext(entries, b % 8);
  }

  /** One round of the first loop: block `b` gets its chunk table, its subgroup the hash of it. */
  method AddLeaf(sha1: Sha1, blocks: seq<Bytes>, headers: seq<array<byte>>, b: nat)
    requires ValidBlocks(blocks) && |headers| == BLOCK_COUNT && Distinct(headers) && b < BLOCK_COUNT
    requires forall i :: 0 <= i < BLOCK_COUNT ==> headers[i][..] == AfterLeaves(sha1, blocks, b, i)
    modifies headers
    ensures forall i :: 0 <= i < BLOCK_COUNT ==> headers[i][..] == AfterLeaves(sha1, blocks, b + 1, i)
  {
    hide Layout, Partial, Splice, H0, H1Entries, AfterLeaves;
    ghost var first := b / 8 * 8;
    ghost var h1 := if b % 8 == 0 then Partial(H1Entries(sha1, blocks, b / 8), 0) else Zeros(TABLE_SIZE);
    ChangedLeaves(sha1, blocks, b);
    HashChunks(sha1, blocks[b], headers[b], h1, Zeros(TABLE_SIZE));
    LayoutRegions(H0(sha1, blocks[b]), h1, Zeros(TABLE_SIZE));
    StoreTableHash(sha1, blocks, headers[b / 8 * 8], b, headers[b][..H0_SIZE]);
    forall i | 0 <= i < BLOCK_COUNT
      ensures headers[i][..] == AfterLeaves(sha1, blocks, b + 1, i)
    {
      if i != b && i != first {
        OtherLeaves(sha1, blocks, b, i);
      }
    }
  }
}

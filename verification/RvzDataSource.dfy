/**
 The cached random-access reader (linux/raofflineproxy/rvz_datasource.py). Its methods follow the
 source's loops and caches and are proved to return what the cacheless RvzContainer says,
 whatever was read before.
 */
module RvzDataSource {
  import opened Bytes
  import opened RvzPacked
  import opened WiiHashTree
  import opened RvzContainer

  // Containers whose reads have one meaning.

  predicate DisjointRanges(a: int, b: int, x: int, y: int) {
    b <= x || y <= a || b <= a || y <= x
  }

  /** No two raw entries or partitions cover the same byte. */
  predicate RangesDisjoint(c: Container) {
    && (forall i, j :: 0 <= i < j < |c.partitions| ==>
          DisjointRanges(c.partitions[i].RawStart(), c.partitions[i].RawEnd(), c.partitions[j].RawStart(),
            c.partitions[j].RawEnd()))
    && (forall i, j :: 0 <= i < j < |c.raw| ==>
          DisjointRanges(c.raw[i].logicalStart, c.raw[i].logicalEnd, c.raw[j].logicalStart, c.raw[j].logicalEnd))
    && (forall i, j :: 0 <= i < |c.partitions| && 0 <= j < |c.raw| ==>
          DisjointRanges(c.partitions[i].RawStart(), c.partitions[i].RawEnd(), c.raw[j].logicalStart,
            c.raw[j].logicalEnd))
  }

  predicate IsRawUse(c: Container, i: int, k: int, g: int) {
    0 <= i < |c.raw| && 0 <= k < c.raw[i].groupCount && g == c.raw[i].groupIndex + k
  }

  predicate IsPartUse(c: Container, i: int, j: int, k: int, g: int) {
    && 0 <= i < |c.partitions| && 0 <= j < |c.partitions[i].entries|
    && 0 <= k < c.partitions[i].entries[j].groupCount && g == c.partitions[i].entries[j].groupIndex + k
  }

  /** No group serves two raw entries, and none two data entries of partitions. */
  ghost predicate GroupsUnshared(c: Container) {
    && (forall i, k, i', k', g :: IsRawUse(c, i, k, g) && IsRawUse(c, i', k', g) ==> i == i')
    && (forall i, j, k, i', j', k', g :: IsPartUse(c, i, j, k, g) && IsPartUse(c, i', j', k', g) ==> i == i' && j == j')
  }

  ghost predicate Coherent(c: Container) {
    RangesDisjoint(c) && GroupsUnshared(c)
  }

  /** Where ranges are disjoint, only one of them can be found. */
  lemma OnlyPartition(c: Container, i: nat, offset: nat)
    requires RangesDisjoint(c) && i < |c.partitions| && c.partitions[i].Contains(offset)
    ensures FindPartition(c.partitions, offset, 0) == Some(i)
  {
  }

  lemma OnlyRaw(c: Container, i: nat, offset: nat)
    requires RangesDisjoint(c) && i < |c.raw| && InRaw(c.raw[i], offset)
    ensures FindPartition(c.partitions, offset, 0) == None
    ensures FindRaw(c.raw, offset, 0) == Some(i)
  {
  }

  lemma SameGroup(within: nat, k: nat)
    requires within % GROUP_TOTAL + k < GROUP_TOTAL
    ensures (within + k) / GROUP_TOTAL == within / GROUP_TOTAL
    ensures (within + k) % GROUP_TOTAL == within % GROUP_TOTAL + k
  {
  }

  lemma SameChunk(within: nat, k: nat, chunk: nat)
    requires chunk > 0 && within - within / chunk * chunk + k < chunk
    ensures (within + k) / chunk == within / chunk
  {
    var q := within / chunk;
    var r := within + k - q * chunk;
    ChunkIndexInside(within, chunk);
    assert within + k == q * chunk + r;
    DivisionIsUnique(within + k, chunk, q, r);
  }

  lemma MultipleAtLeast(d: int, m: nat)
    requires d >= 1
    ensures d * m >= m
  {
  }

  lemma DivisionIsUnique(x: nat, m: nat, q: int, r: int)
    requires m > 0 && x == q * m + r && 0 <= r < m
    ensures x / m == q
  {
    var d := q - x / m;
    assert x == x / m * m + x % m;
    assert d * m == x % m - r;
    if d >= 1 {
      MultipleAtLeast(d, m);
    } else if d <= -1 {
      MultipleAtLeast(-d, m);
    }
  }

  /** Bytes of one encrypted group are the image's bytes. */
  lemma GroupBytes(c: Container, i: nat, offset: nat, n: nat, group: Bytes)
    requires c.Parsed() && RangesDisjoint(c) && i < |c.partitions| && offset >= DISC_HEADER_SIZE
    requires c.partitions[i].Contains(offset) && offset + n <= c.partitions[i].RawEnd()
    requires var within := offset - c.partitions[i].RawStart();
      && EncryptedGroup(c, c.partitions[i], within / GROUP_TOTAL * GROUP_DATA) == Ok(group)
      && within % GROUP_TOTAL + n <= GROUP_TOTAL
    ensures var at := (offset - c.partitions[i].RawStart()) % GROUP_TOTAL;
      OfImage(c, offset, group[at..at + n])
  {
    hide EncryptedGroup, RangesDisjoint, RawGroup;
    var at := (offset - c.partitions[i].RawStart()) % GROUP_TOTAL;
    var piece := group[at..at + n];
    forall k | 0 <= k < |piece|
      ensures ByteAt(c, offset + k) == Ok(piece[k])
    {
      OnlyPartition(c, i, offset + k);
      SameGroup(offset - c.partitions[i].RawStart(), k);
    }
  }

  /** Bytes of one raw group are the image's bytes. */
  lemma RawGroupBytes(c: Container, i: nat, offset: nat, n: nat, group: Bytes)
    requires c.Parsed() && RangesDisjoint(c) && i < |c.raw| && offset >= DISC_HEADER_SIZE
    requires InRaw(c.raw[i], offset) && offset + n <= c.raw[i].logicalEnd
    requires var within := offset - c.raw[i].logicalStart;
      && within / c.chunkSize < c.raw[i].groupCount
      && within - within / c.chunkSize * c.chunkSize + n <= |group| <= c.chunkSize
      && RawChunk(c, i, within / c.chunkSize) == Ok(group)
    ensures var within := offset - c.raw[i].logicalStart;
      var at := within - within / c.chunkSize * c.chunkSize;
      at >= 0 && OfImage(c, offset, group[at..at + n])
  {
    hide RangesDisjoint, RawChunk, ByteAt;
    var within := offset - c.raw[i].logicalStart;
    var at := within - within / c.chunkSize * c.chunkSize;
    ChunkIndexInside(within, c.chunkSize);
    var piece := group[at..at + n];
    forall b | 0 <= b < |piece|
      ensures ByteAt(c, offset + b) == Ok(piece[b])
    {
      SameChunk(within, b, c.chunkSize);
      RawByteAt(c, i, offset + b, group);
    }
  }

  lemma RawByteAt(c: Container, i: nat, offset: nat, group: Bytes)
    requires c.Parsed() && RangesDisjoint(c) && i < |c.raw| && offset >= DISC_HEADER_SIZE && InRaw(c.raw[i], offset)
    requires var k := (offset - c.raw[i].logicalStart) / c.chunkSize;
      && k < c.raw[i].groupCount && RawChunk(c, i, k) == Ok(group)
      && offset - c.raw[i].logicalStart - k * c.chunkSize < |group|
    ensures var at := offset - c.raw[i].logicalStart - (offset - c.raw[i].logicalStart) / c.chunkSize * c.chunkSize;
      0 <= at < |group| && ByteAt(c, offset) == Ok(group[at])
  {
    hide EncryptedGroup, RangesDisjoint, RawGroup;
    ChunkIndexInside(offset - c.raw[i].logicalStart, c.chunkSize);
    OnlyRaw(c, i, offset);
  }

  // Reading the compressed file.

  /** A read of the underlying file: some nonempty part of what is asked, nothing only at its end. */
  method SourceRead(file: Bytes, offset: nat, size: nat) returns (chunk: Bytes)
    ensures chunk == [] <==> size == 0 || offset >= |file|
    ensures |chunk| <= size && offset + |chunk| <= Max(offset, |file|)
    ensures offset < |file| ==> chunk == file[offset..offset + |chunk|]
  {
    if size == 0 || offset >= |file| {
      return [];
    }
    var count :| 0 < count <= size && offset + count <= |file|;
    chunk := file[offset..offset + count];
  }

  /** `_read_fully`: however short the single reads are. */
  method ReadFully(file: Bytes, offset: nat, size: nat) returns (r: Outcome<Bytes>)
    ensures r == ReadExact(file, offset, size)
  {
    var out: Bytes := [];
    while |out| < size
      invariant |out| <= size
      invariant out != [] ==> offset + |out| <= |file| && out == file[offset..offset + |out|]
    {
      var chunk := SourceRead(file, offset + |out|, size - |out|);
      if chunk == [] {
        return Raised;
      }
      out := out + chunk;
    }
    r := Ok(out);
  }

  lemma {:induction false} RaisedExceptionsStay(data: Bytes, offset: nat, i: nat, n: nat)
    requires i <= n && Exceptions(data, offset, i).Raised?
    ensures Exceptions(data, offset, n).Raised?
  {
    if i < n {
      RaisedExceptionsStay(data, offset, i, n - 1);
    }
  }

  lemma {:induction false} RaisedListsStay(data: Bytes, i: nat, n: nat, count: nat, alignLast: bool)
    requires i <= n && ExceptionLists(data, i, count, alignLast).Raised?
    ensures ExceptionLists(data, n, count, alignLast).Raised?
  {
    hide BeU16, Exceptions, AlignTo4;
    if i < n {
      RaisedListsStay(data, i, n - 1, count, alignLast);
    }
  }

  /** The inner loop of `_parse_exception_lists`. */
  method ParseExceptions(data: Bytes, offset: nat, count: nat) returns (r: Outcome<seq<HashException>>)
    ensures r == Exceptions(data, offset, count)
  {
    hide BeU16, Slice;
    var entries: seq<HashException> := [];
    for i := 0 to count
      invariant Exceptions(data, offset, i) == Ok(entries)
    {
      var at := offset + i * EXCEPTION_SIZE;
      var exceptionOffset := BeU16(data, at);
      if !exceptionOffset.Ok? {
        RaisedExceptionsStay(data, offset, i + 1, count);
        return Raised;
      }
      entries := entries + [HashException(exceptionOffset.value, Slice(data, at + 2, at + EXCEPTION_SIZE))];
    }
    r := Ok(entries);
  }

  /** `_parse_exception_lists` */
  method ParseExceptionLists(data: Bytes, listCount: nat, alignLast: bool) returns (r: Outcome<ParsedLists>)
    ensures r == ExceptionLists(data, listCount, listCount, alignLast)
  {
    hide Exceptions, BeU16;
    var offset := 0;
    var lists: seq<seq<HashException>> := [];
    for index := 0 to listCount
      invariant offset >= 0
      invariant ExceptionLists(data, index, listCount, alignLast) == Ok(ParsedLists(lists, offset))
    {
      var count := BeU16(data, offset);
      if !count.Ok? {
        RaisedListsStay(data, index + 1, listCount, listCount, alignLast);
        return Raised;
      }
      var entries := ParseExceptions(data, offset + 2, count.value);
      if !entries.Ok? {
        RaisedListsStay(data, index + 1, listCount, listCount, alignLast);
        return Raised;
      }
      offset := offset + 2 + count.value * EXCEPTION_SIZE;
      if alignLast && index == listCount - 1 {
        offset := AlignTo4(offset);
      }
      lists := lists + [entries.value];
    }
    r := Ok(ParsedLists(lists, offset));
  }

  // A failure part of the way stays a failure.

  lemma {:induction false} RaisedChunksStay(
      c: Container, p: Partition, e: DataEntry, groupStart: nat, first: nat, i: nat, n: nat)
    requires i <= n && ChunksExceptions(c, p, e, groupStart, first, i).Raised?
    ensures ChunksExceptions(c, p, e, groupStart, first, n).Raised?
  {
    hide ChunkExceptions;
    if i < n {
      RaisedChunksStay(c, p, e, groupStart, first, i, n - 1);
    }
  }

  lemma {:induction false} RaisedCollectionStays(c: Container, p: Partition, groupStart: nat, i: nat, n: nat)
    requires i <= n <= |p.entries| && CollectedExceptions(c, p, groupStart, i).Raised?
    ensures CollectedExceptions(c, p, groupStart, n).Raised?
  {
    hide EntryExceptions;
    if i < n {
      RaisedCollectionStays(c, p, groupStart, i, n - 1);
    }
  }

  lemma {:induction false} FailedBlocksStay(c: Container, p: Partition, groupStart: nat, i: nat, n: nat)
    requires i <= n && !DecryptedBlocks(c, p, groupStart, i).Ok?
    ensures DecryptedBlocks(c, p, groupStart, n) == DecryptedBlocks(c, p, groupStart, i)
  {
    hide DecryptedBlock;
    if i < n {
      FailedBlocksStay(c, p, groupStart, i, n - 1);
    }
  }

  lemma {:induction false} RaisedOverwriteStays(headers: seq<Bytes>, exceptions: seq<HashException>, i: nat, n: nat)
    requires ValidHeaders(headers) && i <= n <= |exceptions|
    requires WithExceptions(headers, exceptions, i).Raised?
    ensures WithExceptions(headers, exceptions, n).Raised?
  {
    if i < n {
      RaisedOverwriteStays(headers, exceptions, i, n - 1);
    }
  }

  ghost function Contents(headers: seq<array<byte>>): (r: seq<Bytes>)
    reads headers
    ensures |r| == |headers| && forall i :: 0 <= i < |headers| ==> r[i] == headers[i][..]
  {
    if headers == [] then [] else Contents(headers[..|headers| - 1]) + [headers[|headers| - 1][..]]
  }

  /** `_apply_wii_hash_exceptions`; true when every exception fits. */
  method ApplyExceptions(headers: seq<array<byte>>, exceptions: seq<HashException>) returns (ok: bool)
    requires Distinct(headers) && ValidHeaders(Contents(headers))
    modifies headers
    ensures ok ==> WithExceptions(old(Contents(headers)), exceptions, |exceptions|) == Ok(Contents(headers))
    ensures !ok ==> WithExceptions(old(Contents(headers)), exceptions, |exceptions|).Raised?
  {
    hide Splice;
    ghost var before := Contents(headers);
    for n := 0 to |exceptions|
      invariant WithExceptions(before, exceptions, n) == Ok(Contents(headers))
    {
      var e := exceptions[n];
      if !ExceptionFits(e) {
        RaisedOverwriteStays(before, exceptions, n + 1, |exceptions|);
        return false;
      }
      ghost var sofar := Contents(headers);
      var b := e.offset / CLUSTER_HEADER;
      WriteAt(headers[b], e.offset % CLUSTER_HEADER, e.hash);
      assert Contents(headers) == sofar[b := Splice(sofar[b], e.offset % CLUSTER_HEADER, e.hash)];
    }
    ok := true;
  }

  /** Encrypts the 64 clusters into one buffer, the data under an IV from its own header. */
  method EncryptGroup(codec: Codec, key: Bytes, headers: seq<array<byte>>, blocks: seq<Bytes>) returns (r: Bytes)
    requires ValidHeaders(Contents(headers)) && ValidBlocks(blocks)
    ensures r == EncryptedBlocks(codec, key, Contents(headers), blocks, GROUP_BLOCKS)
  {
    hide Splice;
    var encrypted := new byte[GROUP_TOTAL](_ => 0);
    ghost var contents := Contents(headers);
    for b := 0 to GROUP_BLOCKS
      invariant encrypted[..b * DISC_SECTOR] == EncryptedBlocks(codec, key, contents, blocks, b)
      invariant Contents(headers) == contents
    {
      var encryptedHeader := codec.aes(key, Zeros(16), headers[b][..]);
      var iv := encryptedHeader[HASH_IV_OFFSET..HASH_IV_OFFSET + 16];
      var encryptedData := codec.aes(key, iv, blocks[b]);
      PutBlock(encrypted, b * DISC_SECTOR, encryptedHeader, encryptedData);
    }
    assert encrypted[..GROUP_BLOCKS * DISC_SECTOR] == encrypted[..];
    r := encrypted[..];
  }

  method PutBlock(encrypted: array<byte>, at: nat, header: Bytes, data: Bytes)
    requires |header| == CLUSTER_HEADER && |data| == CLUSTER_DATA && at + DISC_SECTOR <= encrypted.Length
    modifies encrypted
    ensures encrypted[..at + DISC_SECTOR] == old(encrypted[..at]) + (header + data)
  {
    WriteAt(encrypted, at, header);
    WriteAt(encrypted, at + CLUSTER_HEADER, data);
  }

  class Reader {
    const c: Container
    var rawGroupIndex: int
    var rawGroupData: Option<Bytes>
    var partitionGroupIndex: int
    var partitionGroup: Option<PartitionGroup>
    /** One encrypted-group cache per partition. */
    var groupCaches: seq<map<int, Bytes>>

    ghost predicate RawCacheSound()
      reads `rawGroupIndex, `rawGroupData
    {
      rawGroupData.Some? ==>
        forall i, k :: IsRawUse(c, i, k, rawGroupIndex) ==>
          RawGroup(c, rawGroupIndex, RawChunkSize(c, c.raw[i], k), RawChunkStart(c, c.raw[i], k)) ==
            Ok(rawGroupData.value)
    }

    ghost predicate PartitionCacheSound()
      reads `partitionGroupIndex, `partitionGroup
    {
      partitionGroup.Some? ==>
        forall i, j, k :: IsPartUse(c, i, j, k, partitionGroupIndex) ==>
          ChunkGroup(c, c.partitions[i], c.partitions[i].entries[j], k) == Ok(partitionGroup.value)
    }

    ghost predicate GroupCachesSound()
      reads `groupCaches
      requires |groupCaches| == |c.partitions|
    {
      forall i, start :: 0 <= i < |groupCaches| && start in groupCaches[i] ==>
        start >= 0 && EncryptedGroup(c, c.partitions[i], start) == Ok(groupCaches[i][start])
    }

    ghost predicate Valid()
      reads this
      ensures Valid() ==> c.Parsed() && |groupCaches| == |c.partitions|
    {
      && c.Parsed()
      && |groupCaches| == |c.partitions|
      && (forall i, start :: 0 <= i < |groupCaches| && start in groupCaches[i] ==>
            |groupCaches[i][start]| == GROUP_TOTAL)
      && (Coherent(c) ==> RawCacheSound() && PartitionCacheSound() && GroupCachesSound())
    }

    constructor (c: Container)
      requires c.Parsed()
      ensures this.c == c && Valid()
    {
      this.c := c;
      rawGroupIndex, rawGroupData := -1, None;
      partitionGroupIndex, partitionGroup := -1, None;
      groupCaches := seq(|c.partitions|, _ => map[]);
    }

    /** `_read_group` for chunk `k` of raw entry `i`. */
    method ReadGroup(g: nat, size: nat, start: nat, ghost i: int, ghost k: int) returns (r: Outcome<Bytes>)
      requires Valid()
      requires IsRawUse(c, i, k, g) && size == RawChunkSize(c, c.raw[i], k) && start == RawChunkStart(c, c.raw[i], k)
      modifies this`rawGroupIndex, this`rawGroupData
      ensures Valid()
      ensures !r.Missing? && (r.Ok? ==> |r.value| >= size)
      ensures Coherent(c) ==> r == RawGroup(c, g, size, start)
      // What was read last is kept, and a failure keeps what was there.
      ensures if r.Ok? then rawGroupIndex == g && rawGroupData == Some(r.value)
              else rawGroupIndex == old(rawGroupIndex) && rawGroupData == old(rawGroupData)
    {
      hide RangesDisjoint, EncryptedGroup, ChunkGroup, Decoded;
      if rawGroupIndex == g && rawGroupData.Some? && |rawGroupData.value| >= size {
        return Ok(rawGroupData.value);
      }
      if g >= |c.groups| {
        return Raised;
      }
      var entry := c.groups[g];
      if entry.StoredSize() == 0 {
        rawGroupIndex, rawGroupData := g, Some(Zeros(size));
        return Ok(Zeros(size));
      }
      var encoded := ReadFully(c.file, entry.dataOffset * 4, entry.StoredSize());
      if encoded.Raised? {
        return Raised;
      }
      var data := encoded;
      if entry.UsesCompression() {
        data := Decompress(c, encoded.value, if entry.packedSize > 0 then entry.packedSize else size);
        if data.Raised? {
          return Raised;
        }
      }
      var result;
      if entry.packedSize > 0 {
        result := DecodePacked(data.value, size, start);
        if result.Raised? {
          return Raised;
        }
      } else {
        if |data.value| < size {
          return Raised;
        }
        result := Ok(data.value[..size]);
      }
      rawGroupIndex, rawGroupData := g, Some(result.value);
      return result;
    }

    /** `_read_partition_group` for chunk `k` of data entry `j` of partition `i`. */
    method ReadPartitionGroup(g: nat, size: nat, start: int, listCount: nat, ghost i: int, ghost j: int, ghost k: int)
      returns (r: Outcome<PartitionGroup>)
      requires Valid()
      requires IsPartUse(c, i, j, k, g) && listCount == c.ListCount()
      requires size == ChunkSize(c, c.partitions[i], c.partitions[i].entries[j], k)
      requires start == ChunkStart(c, c.partitions[i], c.partitions[i].entries[j], k)
      modifies this`partitionGroupIndex, this`partitionGroup
      ensures Valid()
      ensures Coherent(c) ==> r == ChunkGroup(c, c.partitions[i], c.partitions[i].entries[j], k)
      ensures if r.Ok? then partitionGroupIndex == g && partitionGroup == Some(r.value)
              else partitionGroupIndex == old(partitionGroupIndex) && partitionGroup == old(partitionGroup)
    {
      hide RangesDisjoint, EncryptedGroup, RawGroup, PartGroup, ChunkSize, ChunkStart;
      if partitionGroupIndex == g && partitionGroup.Some? && |partitionGroup.value.main| >= size {
        return Ok(partitionGroup.value);
      }
      r := DecodePartitionGroup(g, size, start, listCount);
      if r.Ok? {
        partitionGroupIndex, partitionGroup := g, Some(r.value);
      }
    }

    /** The uncached part of `_read_partition_group`. */
    method DecodePartitionGroup(g: nat, size: nat, start: int, listCount: nat) returns (r: Outcome<PartitionGroup>)
      ensures r == PartGroup(c, g, size, start, listCount)
    {
      hide Decoded, ExceptionLists, EmptyLists, PadTo, Slice;
      if g >= |c.groups| {
        return Raised;
      }
      var entry := c.groups[g];
      if entry.StoredSize() == 0 {
        return Ok(PartitionGroup(Zeros(size), EmptyLists(listCount)));
      }
      var encoded := ReadFully(c.file, entry.dataOffset * 4, entry.StoredSize());
      if encoded.Raised? {
        return Raised;
      }
      var usesCompression := entry.UsesCompression();
      var data := if usesCompression then DecompressUnknownSize(c, encoded.value) else encoded;
      if data.Raised? {
        return Raised;
      }
      var parsed := ParseExceptionLists(data.value, listCount, !usesCompression);
      if parsed.Raised? {
        return Raised;
      }
      var packed := Slice(data.value, parsed.value.end, |data.value|);
      var main;
      if entry.packedSize > 0 {
        main := DecodePacked(PadTo(packed, entry.packedSize), size, start);
        if main.Raised? {
          return Raised;
        }
      } else {
        if |packed| < size {
          return Missing;
        }
        main := Ok(packed[..size]);
      }
      r := Ok(PartitionGroup(main.value, parsed.value.lists));
    }

    /** The cluster at `offset` from data entry `j`, which covers it. */
    method ReadEntryBlock(i: nat, j: nat, offset: nat) returns (r: Outcome<Bytes>)
      requires Valid() && i < |c.partitions| && j < |c.partitions[i].entries|
      requires c.partitions[i].EntryOffset(c.partitions[i].entries[j]) <= offset
      modifies this`partitionGroupIndex, this`partitionGroup
      ensures Valid()
      ensures r.Ok? ==> |r.value| == CLUSTER_DATA
      ensures Coherent(c) ==> r == EntryBlock(c, c.partitions[i], c.partitions[i].entries[j], offset)
    {
      hide RangesDisjoint, GroupsUnshared, ChunkGroup, RawGroup, Valid;
      var p, e, chunk := c.partitions[i], c.partitions[i].entries[j], c.WiiChunk();
      if chunk == 0 {
        return Raised;
      }
      var k := (offset - p.EntryOffset(e)) / chunk;
      ChunkIndexInside(offset - p.EntryOffset(e), chunk);
      if k >= e.groupCount {
        return Missing;
      }
      var start, size := ChunkStart(c, p, e, k), ChunkSize(c, p, e, k);
      var group := ReadPartitionGroup(e.groupIndex + k, size, start, c.ListCount(), i, j, k);
      if !group.Ok? {
        return if group.Missing? then Missing else Raised;
      }
      var at := offset - start;
      if at + CLUSTER_DATA > |group.value.main| {
        return Missing;
      }
      r := Ok(group.value.main[at..at + CLUSTER_DATA]);
    }

    /** `_read_wii_partition_decrypted` */
    method ReadDecrypted(i: nat, offset: nat) returns (r: Outcome<Bytes>)
      requires Valid() && i < |c.partitions|
      modifies this`partitionGroupIndex, this`partitionGroup
      ensures Valid()
      ensures r.Ok? ==> |r.value| == CLUSTER_DATA
      ensures Coherent(c) ==> r == DecryptedBlock(c, c.partitions[i], 0, offset)
    {
      hide EntryBlock, Valid, Coherent;
      var p := c.partitions[i];
      for j := 0 to |p.entries|
        invariant Valid()
        invariant DecryptedBlock(c, p, 0, offset) == DecryptedBlock(c, p, j, offset)
      {
        if p.EntryOffset(p.entries[j]) <= offset < p.EntryEnd(p.entries[j]) {
          r := ReadEntryBlock(i, j, offset);
          return;
        }
      }
      r := Missing;
    }
  
    /** `_collect_wii_hash_exceptions` */
    method CollectExceptions(i: nat, groupStart: nat) returns (r: Outcome<seq<HashException>>)
      requires Valid() && i < |c.partitions|
      modifies this`partitionGroupIndex, this`partitionGroup
      ensures Valid()
      ensures !r.Missing?
      ensures Coherent(c) ==> r == CollectedExceptions(c, c.partitions[i], groupStart, |c.partitions[i].entries|)
    {
      hide Valid, Coherent, EntryExceptions;
      var p := c.partitions[i];
      var exceptions: seq<HashException> := [];
      for j := 0 to |p.entries|
        invariant Valid()
        invariant Coherent(c) ==> CollectedExceptions(c, p, groupStart, j) == Ok(exceptions)
      {
        var more := CollectEntryExceptions(i, j, groupStart);
        if more.Raised? {
          if Coherent(c) {
            RaisedCollectionStays(c, p, groupStart, j + 1, |p.entries|);
          }
          return Raised;
        }
        exceptions := exceptions + more.value;
      }
      r := Ok(exceptions);
    }

    /** The source's inner loop over the chunks of one data entry. */
    method CollectEntryExceptions(i: nat, j: nat, groupStart: nat) returns (r: Outcome<seq<HashException>>)
      requires Valid() && i < |c.partitions| && j < |c.partitions[i].entries|
      modifies this`partitionGroupIndex, this`partitionGroup
      ensures Valid()
      ensures !r.Missing?
      ensures Coherent(c) ==> r == EntryExceptions(c, c.partitions[i], c.partitions[i].entries[j], groupStart)
    {
      hide Valid, Coherent, ChunkExceptions, FirstChunk, LastChunk, OverlapStart, OverlapEnd;
      var p := c.partitions[i];
      var e := p.entries[j];
      if OverlapStart(p, e, groupStart) >= OverlapEnd(p, e, groupStart) {
        return Ok([]);
      }
      if c.WiiChunk() == 0 {
        return Raised;
      }
      var first, last := FirstChunk(c, p, e, groupStart), LastChunk(c, p, e, groupStart);
      var count := Max(0, last + 1 - first);
      var exceptions: seq<HashException> := [];
      for n := 0 to count
        invariant Valid()
        invariant Coherent(c) ==> ChunksExceptions(c, p, e, groupStart, first, n) == Ok(exceptions)
      {
        var more := CollectChunkExceptions(i, j, groupStart, first + n);
        if more.Raised? {
          if Coherent(c) {
            RaisedChunksStay(c, p, e, groupStart, first, n + 1, count);
          }
          return Raised;
        }
        exceptions := exceptions + more.value;
      }
      r := Ok(exceptions);
    }

    method CollectChunkExceptions(i: nat, j: nat, groupStart: nat, k: nat) returns (r: Outcome<seq<HashException>>)
      requires Valid() && i < |c.partitions| && j < |c.partitions[i].entries|
      modifies this`partitionGroupIndex, this`partitionGroup
      ensures Valid()
      ensures !r.Missing?
      ensures Coherent(c) ==> r == ChunkExceptions(c, c.partitions[i], c.partitions[i].entries[j], groupStart, k)
    {
      hide Valid, Coherent, ChunkGroup, HeadersBefore, ListIndex, Moved;
      var p := c.partitions[i];
      var e := p.entries[j];
      if k >= e.groupCount {
        return Ok([]);
      }
      var start, size := ChunkStart(c, p, e, k), ChunkSize(c, p, e, k);
      var group := ReadPartitionGroup(e.groupIndex + k, size, start, c.ListCount(), i, j, k);
      if group.Missing? {
        return Ok([]);
      }
      if group.Raised? {
        return Raised;
      }
      var list := ListIndex(c.ListCount(), groupStart, start);
      if !(0 <= list < |group.value.lists|) {
        return Ok([]);
      }
      r := Ok(Moved(group.value.lists[list], HeadersBefore(start)));
    }

    /** The clusters of a group, as `_get_encrypted_wii_group` reads them. */
    method ReadBlocks(i: nat, groupStart: nat) returns (r: Outcome<seq<Bytes>>)
      requires Valid() && i < |c.partitions|
      modifies this`partitionGroupIndex, this`partitionGroup
      ensures Valid()
      ensures r.Ok? ==> ValidBlocks(r.value)
      ensures Coherent(c) ==> r == DecryptedBlocks(c, c.partitions[i], groupStart, GROUP_BLOCKS)
    {
      hide Valid, Coherent, DecryptedBlock;
      var p := c.partitions[i];
      var blocks: seq<Bytes> := [];
      for b := 0 to GROUP_BLOCKS
        invariant Valid()
        invariant |blocks| == b && forall n :: 0 <= n < b ==> |blocks[n]| == CLUSTER_DATA
        invariant Coherent(c) ==> DecryptedBlocks(c, p, groupStart, b) == Ok(blocks)
      {
        var offset := groupStart + b * CLUSTER_DATA;
        var block := Ok(Zeros(CLUSTER_DATA));
        if offset < p.DecryptedSize() {
          block := ReadDecrypted(i, offset);
        }
        if !block.Ok? {
          if Coherent(c) {
            FailedBlocksStay(c, p, groupStart, b + 1, GROUP_BLOCKS);
          }
          return if block.Missing? then Missing else Raised;
        }
        blocks := blocks + [block.value];
      }
      r := Ok(blocks);
    }

    /** The uncached part of `_get_encrypted_wii_group`. */
    method BuildGroup(i: nat, groupStart: nat) returns (r: Outcome<Bytes>)
      requires Valid() && i < |c.partitions|
      modifies this`partitionGroupIndex, this`partitionGroup
      ensures Valid()
      ensures r.Ok? ==> |r.value| == GROUP_TOTAL
      ensures Coherent(c) ==> r == EncryptedGroup(c, c.partitions[i], groupStart)
    {
      hide Coherent, Valid, HashHeaders, HashHeader, DecryptedBlocks, CollectedExceptions, WithExceptions,
        EncryptedBlocks;
      var p := c.partitions[i];
      var blocks := ReadBlocks(i, groupStart);
      if !blocks.Ok? {
        return if blocks.Missing? then Missing else Raised;
      }
      var headers := BuildHashBlocks(c.codec.sha1, blocks.value);
      assert Contents(headers) == HashHeaders(c.codec.sha1, blocks.value);
      var exceptions := CollectExceptions(i, groupStart);
      if exceptions.Raised? {
        return Raised;
      }
      var fits := ApplyExceptions(headers, exceptions.value);
      if !fits {
        return Raised;
      }
      var result := EncryptGroup(c.codec, p.key, headers, blocks.value);
      r := Ok(result);
    }

    /** `_get_encrypted_wii_group` */
    method GetEncryptedGroup(i: nat, groupStart: nat) returns (r: Outcome<Bytes>)
      requires Valid() && i < |c.partitions|
      modifies this`partitionGroupIndex, this`partitionGroup, this`groupCaches
      ensures Valid()
      ensures r.Ok? ==> |r.value| == GROUP_TOTAL
      ensures Coherent(c) ==> r == EncryptedGroup(c, c.partitions[i], groupStart)
      // A group once built is kept, and none is built twice.
      ensures groupCaches
        == if r.Ok? then old(groupCaches)[i := old(groupCaches)[i][groupStart := r.value]] else old(groupCaches)
      ensures groupStart in old(groupCaches)[i] ==>
        r == Ok(old(groupCaches)[i][groupStart]) && partitionGroup == old(partitionGroup)
    {
      hide Coherent, RawCacheSound, PartitionCacheSound, EncryptedGroup;
      if groupStart in groupCaches[i] {
        assert groupCaches[i][groupStart := groupCaches[i][groupStart]] == groupCaches[i];
        return Ok(groupCaches[i][groupStart]);
      }
      r := BuildGroup(i, groupStart);
      if r.Ok? {
        groupCaches := groupCaches[i := groupCaches[i][groupStart := r.value]];
      }
    }
  
    /** `_read_wii_partition_bytes`: at most `maxLength` bytes of the partition. */
    method ReadPartitionBytes(i: nat, offset: nat, maxLength: nat) returns (r: Outcome<Bytes>)
      requires Valid() && i < |c.partitions|
      requires offset >= DISC_HEADER_SIZE && c.partitions[i].Contains(offset)
      modifies this`partitionGroupIndex, this`partitionGroup, this`groupCaches
      ensures Valid()
      ensures !r.Missing? && (r.Ok? ==> |r.value| <= maxLength)
      ensures Coherent(c) ==> r == ReadFrom(c, offset, Min(offset + maxLength, c.partitions[i].RawEnd()))
    {
      hide Valid, ByteAt, EncryptedGroup, RangesDisjoint, GroupsUnshared, ReadFrom, OfImage;
      var p := c.partitions[i];
      var end: nat := Min(offset + maxLength, p.RawEnd());
      var current := offset;
      var out: Bytes := [];
      NothingRead(c, offset, end);
      while current < end
        invariant offset <= current <= end && current == offset + |out|
        invariant Valid()
        invariant Coherent(c) ==> ReadFrom(c, offset, end) == Prepend(out, ReadFrom(c, current, end))
      {
        var within: nat := current - p.RawStart();
        var groupStart := within / GROUP_TOTAL * GROUP_DATA;
        var group := GetEncryptedGroup(i, groupStart);
        if !group.Ok? {
          if Coherent(c) {
            PartitionFailure(c, i, current, end);
          }
          if group.Raised? {
            return Raised;
          }
          break;
        }
        var groupRawStart := p.RawStart() + groupStart / CLUSTER_DATA * DISC_SECTOR;
        GroupArithmetic(within);
        var at := current - groupRawStart;
        var count := Min(|group.value| - at, end - current);
        var piece := group.value[at..at + count];
        if Coherent(c) {
          GroupBytes(c, i, current, count, group.value);
          ReadRun(c, current, end, piece);
          PrependTwice(out, piece, ReadFrom(c, current + count, end));
        }
        out := out + piece;
        current := current + count;
      }
      EndOfRead(c, offset, current, end, out);
      r := Ok(out);
    }

    /** The source's `read`. */
    method Read(offset: int, length: int) returns (r: Outcome<Bytes>)
      requires Valid()
      modifies this
      ensures Valid()
      ensures Coherent(c) ==> r == ReadMeans(c, offset, length)
    {
      hide Valid, ByteAt, RangesDisjoint, GroupsUnshared, ReadFrom, OfImage, RawGroup;
      if offset < 0 || length <= 0 || offset >= c.length {
        return Ok([]);
      }
      var target := Min(length, c.length - offset);
      var end := offset + target;
      var out: Bytes := [];
      var current := offset;
      NothingRead(c, offset, end);
      if current < DISC_HEADER_SIZE {
        var count := Min(target, DISC_HEADER_SIZE - current);
        out := c.discHeader[current..current + count];
        HeaderBytes(c, current, count);
        ReadRun(c, offset, end, out);
        current := current + count;
      }
      while |out| < target
        invariant current == offset + |out| <= end
        invariant current < end ==> current >= DISC_HEADER_SIZE
        invariant Valid()
        invariant Coherent(c) ==> ReadFrom(c, offset, end) == Prepend(out, ReadFrom(c, current, end))
      {
        var partition := FindPartition(c.partitions, current, 0);
        var piece: Bytes;
        if partition.Some? {
          var chunk := ReadPartitionBytes(partition.value, current, target - |out|);
          if Coherent(c) {
            ReadSplits(c, current, Min(end, c.partitions[partition.value].RawEnd()), end);
          }
          if chunk.Raised? {
            return Raised;
          }
          piece := chunk.value;
          if piece == [] {
            break;
          }
        } else {
          var chunk := ReadRawBytes(current, end);
          if chunk.Raised? {
            return Raised;
          }
          if chunk.Missing? {
            break;
          }
          piece := chunk.value;
        }
        PrependTwice(out, piece, ReadFrom(c, current + |piece|, end));
        out := out + piece;
        current := current + |piece|;
      }
      EndOfRead(c, offset, current, end, out);
      r := Ok(out);
    }

    /** The raw-data part of the source's `read` loop; `Missing` is its `break`. */
    method ReadRawBytes(current: nat, end: nat) returns (r: Outcome<Bytes>)
      requires Valid() && DISC_HEADER_SIZE <= current < end
      requires FindPartition(c.partitions, current, 0).None?
      modifies this`rawGroupIndex, this`rawGroupData
      ensures Valid()
      ensures r.Ok? ==> r.value != [] && current + |r.value| <= end
      ensures Coherent(c) && r.Raised? ==> ReadFrom(c, current, end).Raised?
      ensures Coherent(c) && r.Missing? ==> ReadFrom(c, current, end) == Ok([])
      ensures Coherent(c) && r.Ok? ==>
        ReadFrom(c, current, end) == Prepend(r.value, ReadFrom(c, current + |r.value|, end))
    {
      hide Valid, RangesDisjoint, GroupsUnshared, OfImage, RawGroup;
      var found := FindRaw(c.raw, current, 0);
      if found.None? {
        return Missing;
      }
      var i := found.value;
      var e := c.raw[i];
      var within := current - e.logicalStart;
      var k := within / c.chunkSize;
      ChunkIndexInside(within, c.chunkSize);
      if k >= e.groupCount {
        return Missing;
      }
      var start, size := RawChunkStart(c, e, k), RawChunkSize(c, e, k);
      var group := ReadGroup(e.groupIndex + k, size, start, i, k);
      if group.Raised? {
        return Raised;
      }
      var at := current - start;
      var count := Min(size - at, end - current);
      var piece := group.value[at..at + count];
      if Coherent(c) {
        RawGroupBytes(c, i, current, count, group.value);
        ReadRun(c, current, end, piece);
      }
      r := Ok(piece);
    }
  }

  lemma NothingRead(c: Container, offset: nat, end: nat)
    requires c.Parsed() && offset <= end
    ensures ReadFrom(c, offset, end) == Prepend([], ReadFrom(c, offset, end))
  {
    PrependNothing(ReadFrom(c, offset, end));
  }

  lemma HeaderBytes(c: Container, offset: nat, count: nat)
    requires c.Parsed() && offset + count <= DISC_HEADER_SIZE
    ensures OfImage(c, offset, c.discHeader[offset..offset + count])
  {
  }

  /** A loop that ends has read everything or stands before a missing byte. */
  lemma EndOfRead(c: Container, offset: nat, current: nat, end: nat, out: Bytes)
    requires c.Parsed() && offset <= current <= end
    ensures current == end || ReadFrom(c, current, end) == Ok([]) ==> Prepend(out, ReadFrom(c, current, end)) == Ok(out)
  {
    assert out + [] == out;
  }

  /** A group that cannot be had ends a read there. */
  lemma PartitionFailure(c: Container, i: nat, offset: nat, end: nat)
    requires c.Parsed() && RangesDisjoint(c) && i < |c.partitions|
    requires DISC_HEADER_SIZE <= offset < end && c.partitions[i].Contains(offset)
    requires !EncryptedGroup(c, c.partitions[i], (offset - c.partitions[i].RawStart()) / GROUP_TOTAL * GROUP_DATA).Ok?
    ensures ReadFrom(c, offset, end)
      == if EncryptedGroup(c, c.partitions[i], (offset - c.partitions[i].RawStart()) / GROUP_TOTAL * GROUP_DATA).Raised?
         then Raised else Ok([])
  {
    hide EncryptedGroup;
    OnlyPartition(c, i, offset);
  }

  lemma GroupArithmetic(within: nat)
    ensures within / GROUP_TOTAL * GROUP_DATA / CLUSTER_DATA * DISC_SECTOR == within / GROUP_TOTAL * GROUP_TOTAL
    ensures within - within / GROUP_TOTAL * GROUP_TOTAL == within % GROUP_TOTAL
  {
  }
}

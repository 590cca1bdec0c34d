/**
 Which hash exceptions end up in the headers of a Wii group
 (linux/raofflineproxy/rvz_datasource.py): what RvzContainer collects chunk by chunk, said by
 offsets on the partition and by header bytes.
 */
module RvzExceptions {
  import opened Bytes
  import opened RvzContainer

  // Header bytes.

  predicate Overwrites(e: HashException, at: nat) {
    e.offset <= at < e.offset + |e.hash|
  }

  /** An exception that lies in one of the 64 headers. */
  predicate InOneHeader(e: HashException) {
    exists b ::
      0 <= b < 64 && 0x400 * b <= e.offset < 0x400 * (b + 1) && e.offset + |e.hash| <= 0x400 * (b + 1)
  }

  lemma FitsExactly(e: HashException)
    ensures ExceptionFits(e) <==> InOneHeader(e)
  {
    if ExceptionFits(e) {
      var b := e.offset / CLUSTER_HEADER;
      assert 0x400 * b <= e.offset < 0x400 * (b + 1);
    }
  }

  /** Overwriting fails at an exception that lies in none of the headers, and only then. */
  lemma {:induction false} OverwritingFails(headers: seq<Bytes>, exceptions: seq<HashException>, n: nat)
    requires ValidHeaders(headers) && n <= |exceptions|
    ensures WithExceptions(headers, exceptions, n).Ok? <==> forall m :: 0 <= m < n ==> InOneHeader(exceptions[m])
  {
    hide ExceptionFits, InOneHeader;
    if n > 0 {
      OverwritingFails(headers, exceptions, n - 1);
      FitsExactly(exceptions[n - 1]);
    }
  }

  /** Each header byte is that of the last exception over it, or else the byte of the hash tree. */
  lemma {:induction false} LastExceptionWins(headers: seq<Bytes>, exceptions: seq<HashException>, n: nat, at: nat)
    returns (last: Option<nat>)
    requires ValidHeaders(headers) && n <= |exceptions| && at < 64 * 0x400
    requires WithExceptions(headers, exceptions, n).Ok?
    ensures var wanted := WithExceptions(headers, exceptions, n).value[at / 0x400][at % 0x400];
      match last
      case None =>
        && (forall m :: 0 <= m < n ==> !Overwrites(exceptions[m], at))
        && wanted == headers[at / 0x400][at % 0x400]
      case Some(l) =>
        && l < n && Overwrites(exceptions[l], at) && wanted == exceptions[l].hash[at - exceptions[l].offset]
        && forall m :: l < m < n ==> !Overwrites(exceptions[m], at)
  {
    if n == 0 {
      return None;
    }
    last := LastExceptionWins(headers, exceptions, n - 1, at);
    var e := exceptions[n - 1];
    SplicedByte(WithExceptions(headers, exceptions, n - 1).value, e, at);
    if Overwrites(e, at) {
      last := Some(n - 1);
    }
  }

  lemma SplicedByte(headers: seq<Bytes>, e: HashException, at: nat)
    requires ValidHeaders(headers) && ExceptionFits(e) && at < 64 * 0x400
    ensures var b := e.offset / CLUSTER_HEADER;
      headers[b := Splice(headers[b], e.offset % CLUSTER_HEADER, e.hash)][at / 0x400][at % 0x400]
        == if Overwrites(e, at) then e.hash[at - e.offset] else headers[at / 0x400][at % 0x400]
  {
    hide Splice;
    var b := e.offset / CLUSTER_HEADER;
    assert e.offset == 0x400 * b + e.offset % 0x400;
    assert at == 0x400 * (at / 0x400) + at % 0x400;
    assert Overwrites(e, at) <==> at / 0x400 == b && e.offset % 0x400 <= at % 0x400 < e.offset % 0x400 + |e.hash|;
  }

  // Which chunks, which of their lists, and where.

  /** Some byte of the group lies in the entry and in its chunk `k`. */
  ghost predicate Touches(c: Container, p: Partition, e: DataEntry, groupStart: nat, k: nat) {
    exists o ::
      && Inside(o, p.EntryOffset(e), p.EntryEnd(e)) && Inside(o, groupStart, groupStart + 0x1F_0000)
      && Inside(o, ChunkStart(c, p, e, k), ChunkStart(c, p, e, k + 1))
  }

  predicate Inside(o: int, from: int, to: int) {
    from <= o < to
  }

  /** The chunks looked at are those that share a byte with the group. */
  lemma VisitedExactly(c: Container, p: Partition, e: DataEntry, groupStart: nat, k: nat)
    requires c.WiiChunk() > 0
    ensures Touches(c, p, e, groupStart, k) <==>
      && OverlapStart(p, e, groupStart) < OverlapEnd(p, e, groupStart)
      && FirstChunk(c, p, e, groupStart) <= k <= LastChunk(c, p, e, groupStart)
  {
    var start, end := OverlapStart(p, e, groupStart), OverlapEnd(p, e, groupStart);
    var chunk, base := c.WiiChunk(), p.EntryOffset(e);
    if start < end {
      QuotientAtMost(start - base, chunk, k + 1);
      QuotientAtMost(end - base - 1, chunk, k);
      NextChunk(c, p, e, k);
      if FirstChunk(c, p, e, groupStart) <= k <= LastChunk(c, p, e, groupStart) {
        var o := Max(start, ChunkStart(c, p, e, k));
        assert Inside(o, p.EntryOffset(e), p.EntryEnd(e)) && Inside(o, groupStart, groupStart + 0x1F_0000);
        assert Inside(o, ChunkStart(c, p, e, k), ChunkStart(c, p, e, k + 1));
      }
    }
  }

  lemma NextChunk(c: Container, p: Partition, e: DataEntry, k: nat)
    ensures ChunkStart(c, p, e, k) == p.EntryOffset(e) + k * c.WiiChunk()
    ensures ChunkStart(c, p, e, k + 1) == p.EntryOffset(e) + (k + 1) * c.WiiChunk()
    ensures ChunkStart(c, p, e, k + 1) == ChunkStart(c, p, e, k) + c.WiiChunk()
  {
    assert (k + 1) * c.WiiChunk() == k * c.WiiChunk() + c.WiiChunk();
  }

  lemma QuotientAtMost(x: nat, m: nat, n: nat)
    requires m > 0
    ensures n <= x / m <==> n * m <= x
  {
    ChunkIndexInside(x, m);
    ProductAtLeast(n, x / m, m);
    ProductAtLeast(x / m + 1, n, m);
  }

  /** Of several lists the one at whose distance from the chunk's start the group starts. */
  lemma ListOfGroup(listCount: nat, groupStart: nat, chunkStart: int, list: int)
    ensures ListIndex(1, groupStart, chunkStart) == 0
    ensures listCount != 1 ==>
      (ListIndex(listCount, groupStart, chunkStart) == list <==>
        chunkStart + 0x1F_0000 * list <= groupStart < chunkStart + 0x1F_0000 * (list + 1))
  {
  }

  /** In a chunk that starts at cluster `n` of a group, exceptions come behind the headers of `n` clusters. */
  lemma HeadersBeforeCluster(group: int, n: nat, rest: nat)
    requires n < 64 && rest < 0x7C00
    ensures HeadersBefore(0x1F_0000 * group + 0x7C00 * n + rest) == 0x400 * n
  {
    var start := 0x1F_0000 * group + 0x7C00 * n + rest;
    assert start % 0x1F_0000 == 0x7C00 * n + rest;
    assert (0x7C00 * n + rest) / 0x7C00 == n;
  }

  /** What chunk `k` adds: nothing where its group is missing or has no list for this one, else that
      list, each exception further on by the headers before the chunk. */
  lemma ChunkAdds(c: Container, p: Partition, e: DataEntry, groupStart: nat, k: nat, list: int, n: nat)
    requires k < e.groupCount && n < 64
    requires 0x1F_0000 * (ChunkStart(c, p, e, k) / 0x1F_0000) + 0x7C00 * n <= ChunkStart(c, p, e, k)
    requires ChunkStart(c, p, e, k) < 0x1F_0000 * (ChunkStart(c, p, e, k) / 0x1F_0000) + 0x7C00 * (n + 1)
    requires if c.ListCount() == 1 then list == 0
             else ChunkStart(c, p, e, k) + 0x1F_0000 * list <= groupStart
                    < ChunkStart(c, p, e, k) + 0x1F_0000 * (list + 1)
    ensures var added := ChunkExceptions(c, p, e, groupStart, k);
      match ChunkGroup(c, p, e, k)
      case Raised => added.Raised?
      case Missing => added == Ok([])
      case Ok(group) =>
        && added.Ok?
        && if 0 <= list < |group.lists| then
             && |added.value| == |group.lists[list]|
             && forall i :: 0 <= i < |added.value| ==>
                  && added.value[i].offset == group.lists[list][i].offset + 0x400 * n
                  && added.value[i].hash == group.lists[list][i].hash
           else added.value == []
  {
    hide ChunkGroup, ListIndex, HeadersBefore, ChunkStart;
    var start := ChunkStart(c, p, e, k);
    ListOfGroup(c.ListCount(), groupStart, start, list);
    HeadersBeforeCluster(start / 0x1F_0000, n, start - 0x1F_0000 * (start / 0x1F_0000) - 0x7C00 * n);
  }

  /** A chunk beyond the entry's groups adds nothing. */
  lemma NoChunkAddsNothing(c: Container, p: Partition, e: DataEntry, groupStart: nat, k: nat)
    requires e.groupCount <= k
    ensures ChunkExceptions(c, p, e, groupStart, k) == Ok([])
  {
  }

  // The order in which they are collected.

  lemma {:induction false} ChunksSplit(
      c: Container, p: Partition, e: DataEntry, groupStart: nat, first: nat, m: nat, n: nat)
    requires m <= n && ChunksExceptions(c, p, e, groupStart, first, n).Ok?
    ensures ChunksExceptions(c, p, e, groupStart, first, m).Ok?
    ensures ChunksExceptions(c, p, e, groupStart, first + m, n - m).Ok?
    ensures ChunksExceptions(c, p, e, groupStart, first, n).value
      == ChunksExceptions(c, p, e, groupStart, first, m).value
           + ChunksExceptions(c, p, e, groupStart, first + m, n - m).value
    decreases n
  {
    hide ChunkExceptions;
    if m < n {
      ChunksSplit(c, p, e, groupStart, first, m, n - 1);
    }
  }

  /** The exceptions of a chunk among those of a run of chunks. */
  lemma ChunkAmong(c: Container, p: Partition, e: DataEntry, groupStart: nat, first: nat, n: nat, k: nat)
    returns (before: seq<HashException>, after: seq<HashException>)
    requires first <= k < first + n && ChunksExceptions(c, p, e, groupStart, first, n).Ok?
    ensures ChunkExceptions(c, p, e, groupStart, k).Ok?
    ensures ChunksExceptions(c, p, e, groupStart, first, k - first) == Ok(before)
    ensures ChunksExceptions(c, p, e, groupStart, k + 1, first + n - k - 1) == Ok(after)
    ensures ChunksExceptions(c, p, e, groupStart, first, n).value
      == before + ChunkExceptions(c, p, e, groupStart, k).value + after
  {
    hide ChunkExceptions, ChunksExceptions;
    ChunksSplit(c, p, e, groupStart, first, k - first, n);
    ChunksSplit(c, p, e, groupStart, first, k - first + 1, n);
    ChunksSplit(c, p, e, groupStart, first, k - first, k - first + 1);
    ChunksSplit(c, p, e, groupStart, k, 1, first + n - k);
    OneChunk(c, p, e, groupStart, k);
    before := ChunksExceptions(c, p, e, groupStart, first, k - first).value;
    after := ChunksExceptions(c, p, e, groupStart, k + 1, first + n - k - 1).value;
  }

  lemma OneChunk(c: Container, p: Partition, e: DataEntry, groupStart: nat, k: nat)
    ensures ChunksExceptions(c, p, e, groupStart, k, 1) == ChunkExceptions(c, p, e, groupStart, k)
  {
    hide ChunkExceptions;
    var one: nat :| one == 1;
    assert ChunksExceptions(c, p, e, groupStart, k, one - 1) == Ok([]);
    var added := ChunkExceptions(c, p, e, groupStart, k + one - 1);
    if added.Ok? {
      assert [] + added.value == added.value;
    }
    assert ChunksExceptions(c, p, e, groupStart, k, one) == added;
  }

  /** Entry by entry: what one adds comes between what those before and those behind it add. */
  lemma {:induction false} EntryAmong(c: Container, p: Partition, groupStart: nat, j: nat, n: nat)
    returns (before: seq<HashException>, after: seq<HashException>)
    requires j < n <= |p.entries| && CollectedExceptions(c, p, groupStart, n).Ok?
    ensures CollectedExceptions(c, p, groupStart, j) == Ok(before)
    ensures EntryExceptions(c, p, p.entries[j], groupStart).Ok?
    ensures CollectedExceptions(c, p, groupStart, n).value
      == before + EntryExceptions(c, p, p.entries[j], groupStart).value + after
    decreases n
  {
    hide EntryExceptions;
    if j == n - 1 {
      before, after := CollectedExceptions(c, p, groupStart, j).value, [];
    } else {
      before, after := EntryAmong(c, p, groupStart, j, n - 1);
      after := after + EntryExceptions(c, p, p.entries[n - 1], groupStart).value;
    }
  }

  /** An entry adds its chunks' exceptions in the order of the chunks. */
  lemma EntryAdds(c: Container, p: Partition, e: DataEntry, groupStart: nat, k: nat)
    returns (before: seq<HashException>, after: seq<HashException>)
    requires EntryExceptions(c, p, e, groupStart).Ok? && Touches(c, p, e, groupStart, k)
    ensures ChunkExceptions(c, p, e, groupStart, k).Ok?
    ensures EntryExceptions(c, p, e, groupStart).value
      == before + ChunkExceptions(c, p, e, groupStart, k).value + after
    ensures c.WiiChunk() > 0
    ensures var first, last := FirstChunk(c, p, e, groupStart), LastChunk(c, p, e, groupStart);
      && first <= k <= last
      && ChunksExceptions(c, p, e, groupStart, first, k - first) == Ok(before)
      && ChunksExceptions(c, p, e, groupStart, k + 1, last - k) == Ok(after)
  {
    hide ChunksExceptions, ChunkExceptions;
    NextChunk(c, p, e, k);
    VisitedExactly(c, p, e, groupStart, k);
    var first, last := FirstChunk(c, p, e, groupStart), LastChunk(c, p, e, groupStart);
    before, after := ChunkAmong(c, p, e, groupStart, first, last + 1 - first, k);
  }

  /** Nothing else is collected: every exception comes from a chunk that shares a byte with the group. */
  lemma {:induction false} CollectedFrom(c: Container, p: Partition, groupStart: nat, n: nat, i: nat)
    returns (j: nat, k: nat, m: nat)
    requires n <= |p.entries| && CollectedExceptions(c, p, groupStart, n).Ok?
    requires i < |CollectedExceptions(c, p, groupStart, n).value|
    ensures j < n && Touches(c, p, p.entries[j], groupStart, k)
    ensures var added := ChunkExceptions(c, p, p.entries[j], groupStart, k);
      added.Ok? && m < |added.value| && CollectedExceptions(c, p, groupStart, n).value[i] == added.value[m]
  {
    hide EntryExceptions, ChunkExceptions, Touches;
    var before := CollectedExceptions(c, p, groupStart, n - 1).value;
    if i < |before| {
      j, k, m := CollectedFrom(c, p, groupStart, n - 1, i);
    } else {
      j := n - 1;
      k, m := AddedFrom(c, p, p.entries[j], groupStart, i - |before|);
    }
  }

  lemma AddedFrom(c: Container, p: Partition, e: DataEntry, groupStart: nat, i: nat) returns (k: nat, m: nat)
    requires EntryExceptions(c, p, e, groupStart).Ok? && i < |EntryExceptions(c, p, e, groupStart).value|
    ensures Touches(c, p, e, groupStart, k)
    ensures var added := ChunkExceptions(c, p, e, groupStart, k);
      added.Ok? && m < |added.value| && EntryExceptions(c, p, e, groupStart).value[i] == added.value[m]
  {
    hide ChunkExceptions, Touches, FirstChunk, LastChunk;
    var first, last := FirstChunk(c, p, e, groupStart), LastChunk(c, p, e, groupStart);
    k, m := RunFrom(c, p, e, groupStart, first, Max(0, last + 1 - first), i);
    VisitedExactly(c, p, e, groupStart, k);
  }

  lemma {:induction false} RunFrom(
      c: Container, p: Partition, e: DataEntry, groupStart: nat, first: nat, n: nat, i: nat) returns (k: nat, m: nat)
    requires ChunksExceptions(c, p, e, groupStart, first, n).Ok?
    requires i < |ChunksExceptions(c, p, e, groupStart, first, n).value|
    ensures first <= k < first + n
    ensures var added := ChunkExceptions(c, p, e, groupStart, k);
      added.Ok? && m < |added.value| && ChunksExceptions(c, p, e, groupStart, first, n).value[i] == added.value[m]
  {
    hide ChunkExceptions;
    var before := ChunksExceptions(c, p, e, groupStart, first, n - 1).value;
    if i < |before| {
      k, m := RunFrom(c, p, e, groupStart, first, n - 1, i);
    } else {
      k, m := first + n - 1, i - |before|;
    }
  }
}

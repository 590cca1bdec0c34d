/**
 What a writer of the format stores (linux/raofflineproxy/rvz_datasource.py reads it): encoded
 exception lists, stored groups, and the sectors of the disc. Reading gives back what was written.
 */
module RvzFormat {
  import opened Bytes
  import opened RvzPacked
  import opened WiiHashTree
  import opened RvzContainer
  import opened RvzExceptions

  // Exception lists.

  function EncodeU16(u: nat): (r: Bytes)
    requires u < 0x1_0000
    ensures |r| == 2
  {
    [u / 0x100, u % 0x100]
  }

  predicate ValidException(e: HashException) {
    e.offset < 0x1_0000 && |e.hash| == 20
  }

  predicate ValidList(list: seq<HashException>) {
    |list| < 0x1_0000 && forall i :: 0 <= i < |list| ==> ValidException(list[i])
  }

  predicate ValidLists(lists: seq<seq<HashException>>) {
    forall i :: 0 <= i < |lists| ==> ValidList(lists[i])
  }

  function EncodeExceptions(list: seq<HashException>): (r: Bytes)
    requires forall i :: 0 <= i < |list| ==> ValidException(list[i])
    ensures |r| == 22 * |list|
  {
    if list == [] then []
    else
      var last := list[|list| - 1];
      assert ValidException(last);
      EncodeExceptions(list[..|list| - 1]) + (EncodeU16(last.offset) + last.hash)
  }

  /** Each list is its length and its exceptions. */
  function EncodeLists(lists: seq<seq<HashException>>): Bytes
    requires ValidLists(lists)
  {
    if lists == [] then []
    else
      var last := lists[|lists| - 1];
      assert ValidList(last);
      EncodeLists(lists[..|lists| - 1]) + (EncodeU16(|last|) + EncodeExceptions(last))
  }

  lemma U16Reads(data: Bytes, at: nat, u: nat)
    requires u < 0x1_0000 && at + 2 <= |data| && data[at..at + 2] == EncodeU16(u)
    ensures BeU16(data, at) == Ok(u)
  {
    var two := data[at..at + 2];
    assert data[at] == two[0] && data[at + 1] == two[1];
  }

  lemma ExceptionReads(data: Bytes, at: nat, e: HashException)
    requires ValidException(e)
    requires at + 22 <= |data| && data[at..at + 22] == EncodeU16(e.offset) + e.hash
    ensures ExceptionAt(data, at) == Ok(e)
  {
    hide EncodeU16, BeU16;
    var code := data[at..at + 22];
    assert data[at..at + 2] == code[..2];
    assert data[at + 2..at + 22] == code[2..];
    U16Reads(data, at, e.offset);
  }

  lemma OneMoreReads(data: Bytes, offset: nat, front: seq<HashException>, e: HashException)
    requires Exceptions(data, offset, |front|) == Ok(front)
    requires ExceptionAt(data, offset + |front| * EXCEPTION_SIZE) == Ok(e)
    ensures Exceptions(data, offset, |front| + 1) == Ok(front + [e])
  {
    hide ExceptionAt;
  }

  lemma {:induction false} ExceptionsRead(data: Bytes, offset: nat, list: seq<HashException>)
    requires forall i :: 0 <= i < |list| ==> ValidException(list[i])
    requires offset + 22 * |list| <= |data| && data[offset..offset + 22 * |list|] == EncodeExceptions(list)
    ensures Exceptions(data, offset, |list|) == Ok(list)
  {
    hide EncodeU16, ExceptionAt, Exceptions, BeU16, Slice;
    if list != [] {
      var front, last := list[..|list| - 1], list[|list| - 1];
      assert ValidException(last);
      var at := offset + 22 * |front|;
      var code := data[offset..at + 22];
      CodeParts(code, EncodeExceptions(front), EncodeU16(last.offset) + last.hash);
      assert data[offset..at] == code[..22 * |front|];
      assert data[at..at + 22] == code[22 * |front|..];
      ExceptionsRead(data, offset, front);
      ExceptionReads(data, at, last);
      OneMoreReads(data, offset, front, last);
      assert front + [last] == list;
    } else {
      NoneRead(data, offset);
    }
  }

  lemma NoneRead(data: Bytes, offset: nat)
    ensures Exceptions(data, offset, 0) == Ok([])
  {
  }

  lemma CodeParts(code: Bytes, a: Bytes, b: Bytes)
    requires code == a + b
    ensures code[..|a|] == a && code[|a|..] == b
  {
  }

  /** Written lists are read back, and reading goes on behind them, rounded up to a multiple of 4
      behind the last list if asked for. */
  lemma {:induction false} ListsRead(data: Bytes, lists: seq<seq<HashException>>, count: nat, alignLast: bool)
    requires ValidLists(lists) && |EncodeLists(lists)| <= |data|
    requires data[..|EncodeLists(lists)|] == EncodeLists(lists) && |lists| <= count
    ensures var size := |EncodeLists(lists)|;
      ExceptionLists(data, |lists|, count, alignLast)
        == Ok(ParsedLists(lists, if alignLast && 0 < |lists| == count then AlignTo4(size) else size))
  {
    hide EncodeU16, BeU16, Exceptions, AlignTo4, EncodeExceptions, ExceptionLists;
    NoLists(data, count, alignLast);
    if lists != [] {
      var front, last := lists[..|lists| - 1], lists[|lists| - 1];
      assert ValidList(last);
      var at, end := |EncodeLists(front)|, |EncodeLists(lists)|;
      var code := data[..end];
      CodeParts(code, EncodeLists(front), EncodeU16(|last|) + EncodeExceptions(last));
      CodeParts(code[at..], EncodeU16(|last|), EncodeExceptions(last));
      assert data[..at] == code[..at];
      assert data[at..at + 2] == code[at..][..2];
      assert data[at + 2..end] == code[at..][2..];
      ListsRead(data, front, count, alignLast);
      U16Reads(data, at, |last|);
      ExceptionsRead(data, at + 2, last);
      OneMoreList(data, front, last, at, count, alignLast);
      assert front + [last] == lists;
    }
  }

  lemma OneMoreList(
      data: Bytes, front: seq<seq<HashException>>, last: seq<HashException>, at: nat, count: nat, alignLast: bool)
    requires ExceptionLists(data, |front|, count, alignLast) == Ok(ParsedLists(front, at)) && |front| < count
    requires BeU16(data, at) == Ok(|last|) && Exceptions(data, at + 2, |last|) == Ok(last)
    ensures var end := at + 2 + 22 * |last|;
      ExceptionLists(data, |front| + 1, count, alignLast)
        == Ok(ParsedLists(front + [last], if alignLast && |front| + 1 == count then AlignTo4(end) else end))
  {
    hide BeU16, Exceptions, AlignTo4;
  }

  lemma NoLists(data: Bytes, count: nat, alignLast: bool)
    ensures ExceptionLists(data, 0, count, alignLast) == Ok(ParsedLists([], 0))
  {
  }

  // Stored groups.

  /** Group `g` is stored as `stored`, at 4 times the offset its entry names; the upper bit of the size
      says whether it is compressed. */
  predicate StoredAs(c: Container, g: nat, stored: Bytes, compressed: bool, packedSize: nat, offset: nat) {
    && g < |c.groups| && 0 < |stored| < 0x8000_0000
    && c.groups[g] == GroupEntry(offset, |stored| + (if compressed then 0x8000_0000 else 0), packedSize)
    && 4 * offset + |stored| <= |c.file| && c.file[4 * offset..4 * offset + |stored|] == stored
  }

  lemma StoredReads(c: Container, g: nat, stored: Bytes, compressed: bool, packedSize: nat, offset: nat)
    requires StoredAs(c, g, stored, compressed, packedSize, offset)
    ensures var entry := c.groups[g];
      && entry.StoredSize() == |stored| && entry.UsesCompression() == compressed && entry.packedSize == packedSize
      && ReadExact(c.file, entry.dataOffset * 4, entry.StoredSize()) == Ok(stored)
  {
  }

  /** A raw group is what was stored, unpacked and cut to size. The compression of the container is
      none (0) or zstd (5); another makes reading fail. */
  lemma RawGroupReads(
      c: Container, g: nat, size: nat, start: int, stored: Bytes, compressed: bool, packedSize: nat, offset: nat)
    requires StoredAs(c, g, stored, compressed, packedSize, offset)
    ensures var r := RawGroup(c, g, size, start);
      var unzipped := c.codec.zstd(stored, if packedSize > 0 then packedSize else size);
      if compressed && c.compression != 0 && (c.compression != 5 || unzipped.None?) then r.Raised?
      else
        var payload := if compressed && c.compression == 5 then unzipped.value else stored;
        if packedSize > 0 then r == Decoded(payload, size, start)
        else if size <= |payload| then r == Ok(payload[..size])
        else r.Raised?
  {
    StoredReads(c, g, stored, compressed, packedSize, offset);
    hide StoredAs, ReadExact, Decoded;
  }

  /** The bytes of a packed group: as many as its entry says, zero where the file has fewer. */
  predicate IsPackedPart(stream: Bytes, body: Bytes, packedSize: nat) {
    |stream| == packedSize && forall i :: 0 <= i < packedSize ==> stream[i] == if i < |body| then body[i] else 0
  }

  /** Where the group's data starts behind its exception lists: only uncompressed groups are aligned. */
  predicate IsGroupPayload(
      payload: Bytes, lists: seq<seq<HashException>>, padding: Bytes, body: Bytes, compressed: bool)
    requires ValidLists(lists)
  {
    && payload == EncodeLists(lists) + padding + body
    && (if compressed then padding == [] else |padding| < 4 && (|EncodeLists(lists)| + |padding|) % 4 == 0)
  }

  /** A partition group is the lists and the data that were stored. */
  lemma PartGroupReads(
      c: Container, g: nat, size: nat, start: int, stored: Bytes, compressed: bool, packedSize: nat, offset: nat,
      payload: Bytes, lists: seq<seq<HashException>>, padding: Bytes, body: Bytes, stream: Bytes)
    requires StoredAs(c, g, stored, compressed, packedSize, offset)
    requires if !compressed then payload == stored
             else
               var size := c.codec.zstdFrameSize(stored);
               size.Some? && c.codec.zstd(stored, size.value) == Some(payload)
    requires ValidLists(lists) && IsGroupPayload(payload, lists, padding, body, compressed)
    requires IsPackedPart(stream, body, packedSize)
    ensures var r := PartGroup(c, g, size, start, |lists|);
      if packedSize > 0 then
        match Decoded(stream, size, start)
        case Ok(main) => r == Ok(PartitionGroup(main, lists))
        case _ => r.Raised?
      else if size <= |body| then r == Ok(PartitionGroup(body[..size], lists))
      else r.Missing?
  {
    StoredReads(c, g, stored, compressed, packedSize, offset);
    var end := |EncodeLists(lists)|;
    assert payload[..end] == EncodeLists(lists);
    ListsRead(payload, lists, |lists|, !compressed);
    BehindLists(payload, lists, padding, body, compressed);
    PaddedPart(stream, body, packedSize);
    hide StoredAs, ReadExact, Decoded, PadTo, Slice, EncodeLists, ExceptionLists, IsPackedPart, IsGroupPayload;
  }

  lemma BehindLists(payload: Bytes, lists: seq<seq<HashException>>, padding: Bytes, body: Bytes, compressed: bool)
    requires ValidLists(lists) && IsGroupPayload(payload, lists, padding, body, compressed)
    ensures var size := |EncodeLists(lists)|;
      Slice(payload, if compressed then size else AlignTo4(size), |payload|) == body
  {
    var at := |EncodeLists(lists)| + |padding|;
    assert payload == EncodeLists(lists) + padding + body;
    hide EncodeLists;
    assert payload[at..] == body;
    if !compressed {
      assert AlignTo4(at - |padding|) == at;
    }
  }

  lemma PaddedPart(stream: Bytes, body: Bytes, packedSize: nat)
    requires IsPackedPart(stream, body, packedSize)
    ensures PadTo(body, packedSize) == stream
  {
  }

  /** A partition group that cannot be unzipped, or is too short for its lists, makes reading fail. */
  lemma PartGroupFails(
      c: Container, g: nat, size: nat, start: int, stored: Bytes, compressed: bool, packedSize: nat, offset: nat,
      listCount: nat)
    requires StoredAs(c, g, stored, compressed, packedSize, offset)
    ensures var frame := c.codec.zstdFrameSize(stored);
      compressed && (frame.None? || c.codec.zstd(stored, frame.value).None?) ==>
        PartGroup(c, g, size, start, listCount).Raised?
    ensures !compressed && ExceptionLists(stored, listCount, listCount, true).Raised? ==>
      PartGroup(c, g, size, start, listCount).Raised?
  {
    StoredReads(c, g, stored, compressed, packedSize, offset);
    hide StoredAs, ReadExact, Decoded, PadTo, Slice, ExceptionLists;
  }

  /** A group without stored bytes is zero and has no exceptions; a number beyond the table, bytes
      beyond the file or data that cannot be unzipped make reading fail. */
  lemma EmptyOrBrokenGroup(c: Container, g: nat, size: nat, start: int, listCount: nat)
    ensures var raw, part := RawGroup(c, g, size, start), PartGroup(c, g, size, start, listCount);
      if g >= |c.groups| then raw.Raised? && part.Raised?
      else
        var stored := c.groups[g].dataSize % 0x8000_0000;
        if stored == 0 then
          && raw.Ok? && part.Ok? && |part.value.lists| == listCount
          && (forall i :: 0 <= i < size ==> raw.value[i] == 0 && part.value.main[i] == 0)
          && (forall i :: 0 <= i < listCount ==> part.value.lists[i] == [])
        else 4 * c.groups[g].dataOffset + stored > |c.file| ==> raw.Raised? && part.Raised?
  {
    hide Decoded, Decompress, DecompressUnknownSize;
  }

  // Sectors of the disc, for chunks of `m` whole sectors.

  lemma WiiChunkOf(c: Container, m: nat)
    requires c.chunkSize == 0x8000 * m
    ensures c.WiiChunk() == 0x7C00 * m && c.ListCount() == Max(1, m / 64)
  {
    assert 0x8000 * m * 0x7C00 / 0x8000 == 0x7C00 * m;
    assert 0x7C00 * m / 0x1F_0000 == m / 64;
  }

  lemma Scaled(k: nat, m: nat)
    ensures k * (0x7C00 * m) == 0x7C00 * (k * m)
  {
  }

  /** Chunk `k` of a data entry holds its sectors from `k * m` on: `m` of them or as many as are left. */
  lemma ChunkOfSectors(c: Container, p: Partition, e: DataEntry, m: nat, k: nat)
    requires c.chunkSize == 0x8000 * m
    ensures ChunkGroup(c, p, e, k)
      == PartGroup(c, e.groupIndex + k, Max(0, 0x7C00 * Min(m, e.sectorCount - k * m)),
           0x7C00 * (e.firstSector - p.firstSector + k * m), Max(1, m / 64))
  {
    hide PartGroup;
    WiiChunkOf(c, m);
    Scaled(k, m);
  }

  predicate HoldsSector(e: DataEntry, sector: nat) {
    e.firstSector <= sector < e.firstSector + e.sectorCount
  }

  /** The cluster of a sector is the chunk's data at the sector's place in the chunk, and is missing
      beyond the entry's chunks. */
  lemma SectorOfChunk(c: Container, p: Partition, e: DataEntry, m: nat, k: nat, at: nat)
    requires c.chunkSize == 0x8000 * m && at < m
    requires HoldsSector(e, e.firstSector + k * m + at) && p.firstSector <= e.firstSector + k * m + at
    ensures var offset := 0x7C00 * (e.firstSector + k * m + at - p.firstSector);
      && p.EntryOffset(e) <= offset
      && EntryBlock(c, p, e, offset)
           == if k >= e.groupCount then Missing
              else
                match ChunkGroup(c, p, e, k)
                case Missing => Missing
                case Raised => Raised
                case Ok(group) => Ok(Slice(group.main, 0x7C00 * at, 0x7C00 * at + 0x7C00))
  {
    hide ChunkGroup;
    WiiChunkOf(c, m);
    Scaled(k, m);
    var within := 0x7C00 * (k * m + at);
    DivideBack(within, 0x7C00 * m, k, 0x7C00 * at);
    var chunk := ChunkGroup(c, p, e, k);
    if chunk.Ok? {
      assert |chunk.value.main| == 0x7C00 * Min(m, e.sectorCount - k * m);
    }
  }

  /** The same for any chunk size: the cluster lies in the chunk that its first byte is in, and is missing
      if it is not all there. */
  lemma ClusterOfChunk(c: Container, p: Partition, e: DataEntry, k: nat, at: nat)
    requires at < c.WiiChunk()
    ensures EntryBlock(c, p, e, p.EntryOffset(e) + k * c.WiiChunk() + at)
      == if k >= e.groupCount then Missing
         else
           match ChunkGroup(c, p, e, k)
           case Missing => Missing
           case Raised => Raised
           case Ok(group) =>
             if at + 0x7C00 <= |group.main| then Ok(group.main[at..at + 0x7C00]) else Missing
  {
    hide ChunkGroup;
    DivideBack(k * c.WiiChunk() + at, c.WiiChunk(), k, at);
  }

  lemma DivideBack(x: nat, m: nat, q: nat, r: nat)
    requires m > 0 && x == q * m + r && r < m
    ensures x / m == q
  {
    ChunkIndexInside(x, m);
    ProductAtLeast(q + 1, x / m, m);
    ProductAtLeast(x / m + 1, q, m);
  }

  /** The first data entry that holds a sector supplies its cluster; one that none holds is missing. */
  lemma {:induction false} SectorEntry(c: Container, p: Partition, i: nat, j: nat, sector: nat)
    requires i <= j <= |p.entries| && p.firstSector <= sector
    requires forall l :: i <= l < j ==> !HoldsSector(p.entries[l], sector)
    requires j < |p.entries| ==> HoldsSector(p.entries[j], sector)
    ensures var offset := 0x7C00 * (sector - p.firstSector);
      if j == |p.entries| then DecryptedBlock(c, p, i, offset) == Missing
      else
        && p.EntryOffset(p.entries[j]) <= offset
        && DecryptedBlock(c, p, i, offset) == EntryBlock(c, p, p.entries[j], offset)
    decreases j - i
  {
    hide EntryBlock;
    if i < j {
      assert !HoldsSector(p.entries[i], sector);
      SectorEntry(c, p, i + 1, j, sector);
    }
  }

  /** Byte `x` of a partition's sector `b` of its group `g`, 64 sectors a group. */
  lemma SectorByte(c: Container, i: nat, sector: nat, g: nat, b: nat, x: nat)
    requires c.Parsed() && i < |c.partitions| && x < 0x8000 && 0x80 <= 0x8000 * sector + x
    requires FindPartition(c.partitions, 0x8000 * sector + x, 0) == Some(i)
    requires sector == c.partitions[i].firstSector + 64 * g + b && b < 64
    ensures var p := c.partitions[i];
      && sector < p.firstSector + p.totalSectors
      && ByteAt(c, 0x8000 * sector + x)
           == match EncryptedGroup(c, p, 0x1F_0000 * g)
              case Missing => Missing
              case Raised => Raised
              case Ok(group) => Ok(group[0x8000 * b + x])
  {
    hide EncryptedGroup;
    var p := c.partitions[i];
    assert p.Contains(0x8000 * sector + x);
    var within := 0x8000 * sector + x - p.RawStart();
    assert within == 0x20_0000 * g + (0x8000 * b + x);
    assert within / GROUP_TOTAL == g && within % GROUP_TOTAL == 0x8000 * b + x;
  }

  /** Byte `at` of chunk `k` of a raw entry is that of its group, cut at the entry's end. */
  lemma RawByte(c: Container, i: nat, k: nat, at: nat)
    requires c.Parsed() && i < |c.raw| && at < c.chunkSize
    requires var offset := c.raw[i].logicalStart + k * c.chunkSize + at;
      && 0x80 <= offset < c.raw[i].logicalEnd
      && FindPartition(c.partitions, offset, 0) == None && FindRaw(c.raw, offset, 0) == Some(i)
    ensures var e := c.raw[i];
      var start := e.logicalStart + k * c.chunkSize;
      ByteAt(c, start + at)
        == if k >= e.groupCount then Missing
           else
             match RawGroup(c, e.groupIndex + k, Min(c.chunkSize, e.logicalEnd - start), start)
             case Ok(group) => Ok(group[at])
             case _ => Raised
  {
    hide RawGroup;
    DivideBack(k * c.chunkSize + at, c.chunkSize, k, at);
  }

  /** The bytes of a partition are those of its sectors. */
  lemma PartitionHolds(p: Partition, sector: nat, x: nat)
    requires x < 0x8000
    ensures p.Contains(0x8000 * sector + x) <==> p.firstSector <= sector < p.firstSector + p.totalSectors
  {
  }

  /** The first partition that has the byte's sector is found, and otherwise the first raw entry that has
      the byte. */
  lemma FoundExactly(c: Container, sector: nat, x: nat, i: nat)
    requires x < 0x8000
    ensures i < |c.partitions| ==>
      (FindPartition(c.partitions, 0x8000 * sector + x, 0) == Some(i) <==>
        && c.partitions[i].firstSector <= sector < c.partitions[i].firstSector + c.partitions[i].totalSectors
        && forall j :: 0 <= j < i ==>
             !(c.partitions[j].firstSector <= sector < c.partitions[j].firstSector + c.partitions[j].totalSectors))
    ensures i < |c.raw| ==>
      (FindRaw(c.raw, 0x8000 * sector + x, 0) == Some(i) <==>
        && c.raw[i].logicalStart <= 0x8000 * sector + x < c.raw[i].logicalEnd
        && forall j :: 0 <= j < i ==> !(c.raw[j].logicalStart <= 0x8000 * sector + x < c.raw[j].logicalEnd))
  {
    FirstPartition(c.partitions, 0x8000 * sector + x, 0);
    FirstRaw(c.raw, 0x8000 * sector + x, 0);
    forall j | 0 <= j < |c.partitions|
      ensures c.partitions[j].Contains(0x8000 * sector + x) <==>
        c.partitions[j].firstSector <= sector < c.partitions[j].firstSector + c.partitions[j].totalSectors
    {
      PartitionHolds(c.partitions[j], sector, x);
    }
  }

  lemma {:induction false} FirstPartition(partitions: seq<Partition>, offset: nat, from: nat)
    ensures var r := FindPartition(partitions, offset, from);
      r.Some? ==> forall j :: from <= j < r.value ==> !partitions[j].Contains(offset)
    decreases |partitions| - from
  {
    if from < |partitions| {
      FirstPartition(partitions, offset, from + 1);
    }
  }

  lemma {:induction false} FirstRaw(raw: seq<RawEntry>, offset: nat, from: nat)
    ensures var r := FindRaw(raw, offset, from);
      r.Some? ==> forall j :: from <= j < r.value ==> !InRaw(raw[j], offset)
    decreases |raw| - from
  {
    if from < |raw| {
      FirstRaw(raw, offset, from + 1);
    }
  }

  /** The first 0x80 bytes are the disc header. */
  lemma HeaderByte(c: Container, offset: nat)
    requires c.Parsed() && offset < 0x80
    ensures |c.discHeader| == 0x80 && ByteAt(c, offset) == Ok(c.discHeader[offset])
  {
  }

  /** A byte behind the disc header in no partition and no raw range is missing. */
  lemma UncoveredByte(c: Container, offset: nat)
    requires c.Parsed() && 0x80 <= offset && !InPartition(c, offset) && !InRawRange(c, offset)
    ensures ByteAt(c, offset) == Missing
  {
  }

  /** The clusters of a group: those of its sectors, and zero bytes beyond the partition. */
  lemma {:induction false} ClustersOfGroup(c: Container, p: Partition, groupStart: nat, n: nat, b: nat)
    requires DecryptedBlocks(c, p, groupStart, n).Ok? && b < n
    ensures var offset := groupStart + 0x7C00 * b;
      Ok(DecryptedBlocks(c, p, groupStart, n).value[b])
        == if offset >= 0x7C00 * p.totalSectors then Ok(Zeros(0x7C00)) else DecryptedBlock(c, p, 0, offset)
  {
    hide DecryptedBlock;
    if b < n - 1 {
      ClustersOfGroup(c, p, groupStart, n - 1, b);
    }
  }

  /** A sector lies in one partition as a whole. */
  lemma {:induction false} SamePartition(partitions: seq<Partition>, sector: nat, x: nat, from: nat)
    requires x < 0x8000
    ensures FindPartition(partitions, 0x8000 * sector + x, from) == FindPartition(partitions, 0x8000 * sector, from)
    decreases |partitions| - from
  {
    if from < |partitions| {
      SamePartition(partitions, sector, x, from + 1);
    }
  }

  lemma SectorBytes(c: Container, i: nat, sector: nat, g: nat, b: nat, bytes: Bytes)
    requires c.Parsed() && i < |c.partitions| && 0 < sector
    requires FindPartition(c.partitions, 0x8000 * sector, 0) == Some(i)
    requires sector == c.partitions[i].firstSector + 64 * g + b && b < 64
    requires ReadMeans(c, 0x8000 * sector, 0x8000) == Ok(bytes) && |bytes| == 0x8000
    ensures sector < c.partitions[i].firstSector + c.partitions[i].totalSectors
    ensures var group := EncryptedGroup(c, c.partitions[i], 0x1F_0000 * g);
      group.Ok? && bytes == group.value[0x8000 * b..0x8000 * b + 0x8000]
  {
    hide EncryptedGroup, ByteAt, FindPartition, ReadFrom;
    ReadIsOfImage(c, 0x8000 * sector, 0x8000 * sector + Min(0x8000, c.length - 0x8000 * sector));
    assert OfImage(c, 0x8000 * sector, bytes);
    hide ReadMeans, OfImage;
    ImageByte(c, i, sector, g, b, bytes, 0);
    var group := EncryptedGroup(c, c.partitions[i], 0x1F_0000 * g).value;
    forall x | 0 <= x < 0x8000
      ensures bytes[x] == group[0x8000 * b + x]
    {
      ImageByte(c, i, sector, g, b, bytes, x);
    }
    SliceIs(bytes, group, 0x8000 * b);
  }

  lemma ImageByte(c: Container, i: nat, sector: nat, g: nat, b: nat, bytes: Bytes, x: nat)
    requires c.Parsed() && i < |c.partitions| && 0 < sector && x < |bytes| <= 0x8000
    requires FindPartition(c.partitions, 0x8000 * sector, 0) == Some(i) && OfImage(c, 0x8000 * sector, bytes)
    requires sector == c.partitions[i].firstSector + 64 * g + b && b < 64
    ensures sector < c.partitions[i].firstSector + c.partitions[i].totalSectors
    ensures var group := EncryptedGroup(c, c.partitions[i], 0x1F_0000 * g);
      group.Ok? && bytes[x] == group.value[0x8000 * b + x]
  {
    hide EncryptedGroup, ByteAt, FindPartition;
    SamePartition(c.partitions, sector, x, 0);
    SectorByte(c, i, sector, g, b, x);
    assert ByteAt(c, 0x8000 * sector + x) == Ok(bytes[x]);
  }

  lemma SliceIs(bytes: Bytes, group: Bytes, at: nat)
    requires |bytes| == 0x8000 && at + 0x8000 <= |group|
    requires forall x :: 0 <= x < 0x8000 ==> bytes[x] == group[at + x]
    ensures bytes == group[at..at + 0x8000]
  {
  }

  /** How the clusters of a group fail: as the first that cannot be had does. */
  lemma {:induction false} ClustersFail(c: Container, p: Partition, groupStart: nat, n: nat)
    ensures var r := DecryptedBlocks(c, p, groupStart, n);
      && (r.Ok? <==> forall b :: 0 <= b < n ==> ClusterAt(c, p, groupStart, b).Ok?)
      && (r.Missing? ==> exists b ::
            0 <= b < n && ClusterAt(c, p, groupStart, b).Missing?
            && forall a :: 0 <= a < b ==> ClusterAt(c, p, groupStart, a).Ok?)
      && (r.Raised? ==> exists b ::
            0 <= b < n && ClusterAt(c, p, groupStart, b).Raised?
            && forall a :: 0 <= a < b ==> ClusterAt(c, p, groupStart, a).Ok?)
  {
    hide DecryptedBlock;
    if n > 0 {
      ClustersFail(c, p, groupStart, n - 1);
      var last := ClusterAt(c, p, groupStart, n - 1);
      assert last.Ok? || last.Missing? || last.Raised?;
    }
  }

  ghost function ClusterAt(c: Container, p: Partition, groupStart: nat, b: nat): Outcome<Bytes> {
    var offset := groupStart + 0x7C00 * b;
    if offset >= 0x7C00 * p.totalSectors then Ok(Zeros(0x7C00)) else DecryptedBlock(c, p, 0, offset)
  }

  /** How a group fails: it is missing exactly if a cluster is, and otherwise fails with a cluster, with its
      exceptions, or with one of them that lies in no header. */
  lemma GroupFails(c: Container, p: Partition, groupStart: nat)
    ensures var group, blocks := EncryptedGroup(c, p, groupStart), DecryptedBlocks(c, p, groupStart, 64);
      var exceptions := CollectedExceptions(c, p, groupStart, |p.entries|);
      && (group.Missing? <==> blocks.Missing?)
      && (group.Ok? <==>
            && blocks.Ok? && exceptions.Ok?
            && forall i :: 0 <= i < |exceptions.value| ==> InOneHeader(exceptions.value[i]))
  {
    hide DecryptedBlocks, CollectedExceptions, WithExceptions, HashHeader, EncryptedBlocks, InOneHeader;
    var blocks := DecryptedBlocks(c, p, groupStart, 64);
    var exceptions := CollectedExceptions(c, p, groupStart, |p.entries|);
    if blocks.Ok? && exceptions.Ok? {
      OverwritingFails(HashHeaders(c.codec.sha1, blocks.value), exceptions.value, |exceptions.value|);
    }
  }

  /**
   A whole sector of a partition, as read from the disc: its first 0x400 bytes decrypt under a zero
   IV to the header that the hash tree over the group's clusters and the exceptions give it, and the
   rest under the IV at 0x3D0 of the sector itself to the cluster's data.
   */
  lemma SectorDecrypts(
      c: Container, i: nat, sector: nat, g: nat, b: nat, bytes: Bytes, dec: (Bytes, Bytes, Bytes) -> Bytes)
    returns (blocks: seq<Bytes>, exceptions: seq<HashException>, headers: seq<Bytes>)
    requires c.Parsed() && i < |c.partitions| && 0 < sector && Decrypts(dec, c.codec.aes)
    requires FindPartition(c.partitions, 0x8000 * sector, 0) == Some(i)
    requires sector == c.partitions[i].firstSector + 64 * g + b && b < 64
    requires ReadMeans(c, 0x8000 * sector, 0x8000) == Ok(bytes) && |bytes| == 0x8000
    ensures var p := c.partitions[i];
      && |headers| == |blocks| == 64 && MadeOf(c, p, 0x1F_0000 * g, blocks, exceptions, headers)
      && dec(p.key, Zeros(16), bytes[..0x400]) == headers[b]
      && dec(p.key, bytes[0x3D0..0x3E0], bytes[0x400..0x8000]) == blocks[b]
      && DecryptedBlock(c, p, 0, 0x7C00 * (sector - p.firstSector)) == Ok(blocks[b])
  {
    hide EncryptedGroup, ByteAt, FindPartition, ReadMeans, MadeOf, DecryptedBlock, Decrypts;
    SectorBytes(c, i, sector, g, b, bytes);
    blocks, exceptions, headers := GroupSectorDecrypts(c, c.partitions[i], g, b, bytes, dec);
  }

  /** Sector `b` of a partition's group `g`. */
  lemma GroupSectorDecrypts(
      c: Container, p: Partition, g: nat, b: nat, bytes: Bytes, dec: (Bytes, Bytes, Bytes) -> Bytes)
    returns (blocks: seq<Bytes>, exceptions: seq<HashException>, headers: seq<Bytes>)
    requires 64 * g + b < p.totalSectors && b < 64 && Decrypts(dec, c.codec.aes)
    requires var group := EncryptedGroup(c, p, 0x1F_0000 * g);
      group.Ok? && bytes == group.value[0x8000 * b..0x8000 * b + 0x8000]
    ensures |headers| == |blocks| == 64 && |bytes| == 0x8000
    ensures MadeOf(c, p, 0x1F_0000 * g, blocks, exceptions, headers)
    ensures dec(p.key, Zeros(16), bytes[..0x400]) == headers[b]
    ensures dec(p.key, bytes[0x3D0..0x3E0], bytes[0x400..0x8000]) == blocks[b]
    ensures DecryptedBlock(c, p, 0, 0x7C00 * (64 * g + b)) == Ok(blocks[b])
  {
    hide EncryptedGroup, DecryptedBlock, Decrypts;
    var groupStart := 0x1F_0000 * g;
    blocks, exceptions, headers := GroupDecrypts(c, p, groupStart, dec);
    MadeOfBlocks(c, p, groupStart, blocks, exceptions, headers);
    hide MadeOf;
    ClustersOfGroup(c, p, groupStart, 64, b);
  }

  lemma MadeOfBlocks(
      c: Container, p: Partition, groupStart: nat, blocks: seq<Bytes>, exceptions: seq<HashException>,
      headers: seq<Bytes>)
    requires MadeOf(c, p, groupStart, blocks, exceptions, headers)
    ensures DecryptedBlocks(c, p, groupStart, 64) == Ok(blocks)
  {
    hide DecryptedBlocks, CollectedExceptions, WithExceptions, HashHeaders;
  }

}

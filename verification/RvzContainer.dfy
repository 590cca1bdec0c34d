/**
 What an RVZ container says each byte of the disc is, without any cache
 (linux/raofflineproxy/rvz_datasource.py). `ByteAt` is the one fixed image the cached reader in
 RvzDataSource is proved to agree with. SHA-1, AES and zstd are parameters of the container.
 */
module RvzContainer {
  import opened Bytes
  import opened RvzPacked
  import opened WiiHashTree

  const DISC_HEADER_SIZE := 0x80
  const COMPRESSED_BIT := 0x8000_0000
  const DISC_SECTOR := 0x8000
  const CLUSTER_DATA := 0x7C00
  const CLUSTER_HEADER := 0x400
  const GROUP_BLOCKS := 64
  const GROUP_DATA := 0x1F_0000
  const GROUP_TOTAL := 0x20_0000
  const HASH_IV_OFFSET := 0x3D0
  const EXCEPTION_SIZE := 0x16
  const COMPRESSION_NONE := 0
  const COMPRESSION_ZSTD := 5

  /** AES-128-CBC without padding: only its length matters here. */
  type Cipher = f: (Bytes, Bytes, Bytes) -> Bytes | forall k, iv, d :: |f(k, iv, d)| == |d| witness (k, iv, d) => d

  datatype Codec = Codec(
    sha1: Sha1,
    aes: Cipher,
    zstd: (Bytes, nat) -> Option<Bytes>,
    zstdFrameSize: Bytes -> Option<nat>)

  datatype RawEntry = RawEntry(logicalStart: nat, logicalEnd: nat, groupIndex: nat, groupCount: nat)

  datatype GroupEntry = GroupEntry(dataOffset: nat, dataSize: nat, packedSize: nat) {
    function StoredSize(): nat { dataSize % COMPRESSED_BIT }
    predicate UsesCompression() { dataSize / COMPRESSED_BIT % 2 == 1 }
  }

  datatype DataEntry = DataEntry(firstSector: nat, sectorCount: nat, groupIndex: nat, groupCount: nat)

  datatype Partition = Partition(key: Bytes, entries: seq<DataEntry>, firstSector: nat, totalSectors: int) {
    function RawStart(): nat { firstSector * DISC_SECTOR }
    function RawEnd(): int { RawStart() + totalSectors * DISC_SECTOR }
    function DecryptedSize(): int { totalSectors * CLUSTER_DATA }
    predicate Contains(offset: nat) { RawStart() <= offset < RawEnd() }
    function EntryOffset(e: DataEntry): int { (e.firstSector - firstSector) * CLUSTER_DATA }
    function EntryEnd(e: DataEntry): int { EntryOffset(e) + e.sectorCount * CLUSTER_DATA }
  }

  datatype HashException = HashException(offset: nat, hash: Bytes)

  datatype PartitionGroup = PartitionGroup(main: Bytes, lists: seq<seq<HashException>>)

  datatype ParsedLists = ParsedLists(lists: seq<seq<HashException>>, end: nat)

  datatype Container = Container(
    file: Bytes,
    length: nat,
    discHeader: Bytes,
    chunkSize: nat,
    compression: nat,
    raw: seq<RawEntry>,
    groups: seq<GroupEntry>,
    partitions: seq<Partition>,
    codec: Codec)
  {
    /** What parsing has checked. */
    predicate Parsed() {
      |discHeader| == DISC_HEADER_SIZE && chunkSize > 0 && length >= DISC_HEADER_SIZE
    }

    function WiiChunk(): nat { chunkSize * CLUSTER_DATA / DISC_SECTOR }
    function ListCount(): nat { Max(1, WiiChunk() / GROUP_DATA) }
  }

  // Reading and decompressing.

  function ReadExact(file: Bytes, offset: nat, size: nat): Outcome<Bytes> {
    if size == 0 then Ok([])
    else if offset + size <= |file| then Ok(file[offset..offset + size])
    else Raised
  }

  function Decompress(c: Container, encoded: Bytes, expected: nat): (r: Outcome<Bytes>)
    ensures !r.Missing?
  {
    if c.compression == COMPRESSION_NONE then Ok(encoded)
    else if c.compression == COMPRESSION_ZSTD then
      match c.codec.zstd(encoded, expected)
      case Some(data) => Ok(data)
      case None => Raised
    else Raised
  }

  function DecompressUnknownSize(c: Container, encoded: Bytes): (r: Outcome<Bytes>)
    ensures !r.Missing?
  {
    match c.codec.zstdFrameSize(encoded)
    case None => Raised
    case Some(size) =>
      match c.codec.zstd(encoded, size)
      case Some(data) => Ok(data)
      case None => Raised
  }

  // Raw groups.

  ghost function RawGroup(c: Container, g: nat, size: nat, start: int): (r: Outcome<Bytes>)
    ensures !r.Missing?
    ensures r.Ok? ==> |r.value| == size
  {
    if g >= |c.groups| then Raised
    else
      var entry := c.groups[g];
      if entry.StoredSize() == 0 then Ok(Zeros(size))
      else
        match ReadExact(c.file, entry.dataOffset * 4, entry.StoredSize())
        case Ok(encoded) =>
          (match if entry.UsesCompression()
                 then Decompress(c, encoded, if entry.packedSize > 0 then entry.packedSize else size)
                 else Ok(encoded)
           case Ok(data) =>
             if entry.packedSize > 0 then Decoded(data, size, start)
             else if |data| < size then Raised
             else Ok(data[..size])
           case _ => Raised)
        case _ => Raised
  }

  // Partition groups.

  function ExceptionAt(data: Bytes, at: nat): Outcome<HashException> {
    match BeU16(data, at)
    case Ok(offset) => Ok(HashException(offset, Slice(data, at + 2, at + EXCEPTION_SIZE)))
    case _ => Raised
  }

  function Exceptions(data: Bytes, offset: nat, n: nat): (r: Outcome<seq<HashException>>)
    ensures !r.Missing?
  {
    if n == 0 then Ok([])
    else
      match Exceptions(data, offset, n - 1)
      case Ok(before) =>
        (match ExceptionAt(data, offset + (n - 1) * EXCEPTION_SIZE)
         case Ok(e) => Ok(before + [e])
         case _ => Raised)
      case _ => Raised
  }

  function AlignTo4(value: nat): (r: nat)
    ensures r % 4 == 0 && value <= r < value + 4
  {
    (value + 3) / 4 * 4
  }

  /** The first `n` of `count` exception lists and the offset behind them. */
  function ExceptionLists(data: Bytes, n: nat, count: nat, alignLast: bool): (r: Outcome<ParsedLists>)
    ensures !r.Missing?
    ensures r.Ok? ==> |r.value.lists| == n
  {
    if n == 0 then Ok(ParsedLists([], 0))
    else
      match ExceptionLists(data, n - 1, count, alignLast)
      case Ok(ParsedLists(lists, offset)) =>
        (match BeU16(data, offset)
         case Ok(entryCount) =>
           (match Exceptions(data, offset + 2, entryCount)
            case Ok(entries) =>
              var end := offset + 2 + entryCount * EXCEPTION_SIZE;
              Ok(ParsedLists(lists + [entries], if alignLast && n == count then AlignTo4(end) else end))
            case _ => Raised)
         case _ => Raised)
      case _ => Raised
  }

  function EmptyLists(n: nat): (r: seq<seq<HashException>>)
    ensures |r| == n
    ensures forall i :: 0 <= i < n ==> r[i] == []
  {
    if n == 0 then [] else EmptyLists(n - 1) + [[]]
  }

  function PadTo(data: Bytes, size: nat): (r: Bytes)
    ensures |r| == size
  {
    var cut := Slice(data, 0, size);
    cut + Zeros(size - |cut|)
  }

  ghost function PartGroup(c: Container, g: nat, size: nat, start: int, listCount: nat): (r: Outcome<PartitionGroup>)
    ensures r.Ok? ==> |r.value.main| == size
  {
    if g >= |c.groups| then Raised
    else
      var entry := c.groups[g];
      if entry.StoredSize() == 0 then Ok(PartitionGroup(Zeros(size), EmptyLists(listCount)))
      else
        match ReadExact(c.file, entry.dataOffset * 4, entry.StoredSize())
        case Ok(encoded) =>
          (match if entry.UsesCompression() then DecompressUnknownSize(c, encoded) else Ok(encoded)
           case Ok(data) =>
             (match ExceptionLists(data, listCount, listCount, !entry.UsesCompression())
              case Ok(ParsedLists(lists, offset)) =>
                var packed := Slice(data, offset, |data|);
                if entry.packedSize > 0 then
                  match Decoded(PadTo(packed, entry.packedSize), size, start)
                  case Ok(main) => Ok(PartitionGroup(main, lists))
                  case _ => Raised
                else if |packed| < size then Missing
                else Ok(PartitionGroup(packed[..size], lists))
              case _ => Raised)
           case _ => Raised)
        case _ => Raised
  }

  /** Chunk `k` of a partition's data entry: where it starts and how long it is. */
  function ChunkStart(c: Container, p: Partition, e: DataEntry, k: nat): int {
    p.EntryOffset(e) + k * c.WiiChunk()
  }

  /** Chunks that are read start before the entry ends, so nothing is cut off at 0 there. */
  function ChunkSize(c: Container, p: Partition, e: DataEntry, k: nat): nat {
    Max(0, Min(c.WiiChunk(), p.EntryEnd(e) - ChunkStart(c, p, e, k)))
  }

  ghost function ChunkGroup(c: Container, p: Partition, e: DataEntry, k: nat): (r: Outcome<PartitionGroup>)
    ensures r.Ok? ==> |r.value.main| == ChunkSize(c, p, e, k)
  {
    PartGroup(c, e.groupIndex + k, ChunkSize(c, p, e, k), ChunkStart(c, p, e, k), c.ListCount())
  }

  /** The decrypted cluster at `offset`, which `e` covers. */
  ghost function EntryBlock(c: Container, p: Partition, e: DataEntry, offset: int): (r: Outcome<Bytes>)
    requires p.EntryOffset(e) <= offset
    ensures r.Ok? ==> |r.value| == CLUSTER_DATA
  {
    hide ChunkGroup;
    var within, chunk := offset - p.EntryOffset(e), c.WiiChunk();
    if chunk == 0 then Raised
    else
      ChunkIndexInside(within, chunk);
      if within / chunk >= e.groupCount then Missing
      else
        match ChunkGroup(c, p, e, within / chunk)
        case Ok(group) =>
          var at := within - within / chunk * chunk;
          if at + CLUSTER_DATA > |group.main| then Missing else Ok(group.main[at..at + CLUSTER_DATA])
        case Missing => Missing
        case Raised => Raised
  }

  /** The decrypted cluster at `offset`, from the first of the entries from `i` on that covers it. */
  ghost function DecryptedBlock(c: Container, p: Partition, i: nat, offset: int): (r: Outcome<Bytes>)
    ensures r.Ok? ==> |r.value| == CLUSTER_DATA
    decreases |p.entries| - i
  {
    if i >= |p.entries| then Missing
    else
      var e := p.entries[i];
      if p.EntryOffset(e) <= offset < p.EntryEnd(e) then EntryBlock(c, p, e, offset)
      else DecryptedBlock(c, p, i + 1, offset)
  }

  lemma ChunkIndexInside(x: nat, chunk: nat)
    requires chunk > 0
    ensures x / chunk >= 0 && 0 <= x - x / chunk * chunk < chunk
  {
    assert x == x / chunk * chunk + x % chunk;
  }

  // Encrypted groups.

  /** The first `n` clusters of the group at `groupStart`; past the partition they are zero. */
  ghost function DecryptedBlocks(c: Container, p: Partition, groupStart: nat, n: nat): (r: Outcome<seq<Bytes>>)
    ensures r.Ok? ==> |r.value| == n && forall b :: 0 <= b < n ==> |r.value[b]| == CLUSTER_DATA
  {
    if n == 0 then Ok([])
    else
      match DecryptedBlocks(c, p, groupStart, n - 1)
      case Ok(before) =>
        (match GroupBlock(c, p, groupStart + (n - 1) * CLUSTER_DATA)
         case Ok(block) => Ok(before + [block])
         case Missing => Missing
         case Raised => Raised)
      case Missing => Missing
      case Raised => Raised
  }

  ghost function GroupBlock(c: Container, p: Partition, offset: nat): (r: Outcome<Bytes>)
    ensures r.Ok? ==> |r.value| == CLUSTER_DATA
  {
    if offset >= p.DecryptedSize() then Ok(Zeros(CLUSTER_DATA)) else DecryptedBlock(c, p, 0, offset)
  }

  function Moved(list: seq<HashException>, distance: nat): (r: seq<HashException>)
    ensures |r| == |list|
    ensures forall i :: 0 <= i < |list| ==> r[i] == HashException(list[i].offset + distance, list[i].hash)
  {
    seq(|list|, (i: nat) requires i < |list| => HashException(list[i].offset + distance, list[i].hash))
  }

  /** Which of a chunk's lists belongs to the group; rounds down, so it can be negative. */
  function ListIndex(listCount: nat, groupStart: nat, chunkStart: int): int {
    if listCount == 1 then 0 else (groupStart - chunkStart) / GROUP_DATA
  }

  /** Header bytes of the clusters before the chunk within its group. */
  function HeadersBefore(chunkStart: int): nat {
    chunkStart % GROUP_DATA / CLUSTER_DATA * CLUSTER_HEADER
  }

  /** The exceptions chunk `k` has for the group at `groupStart`. */
  ghost function ChunkExceptions(
      c: Container, p: Partition, e: DataEntry, groupStart: nat, k: nat): (r: Outcome<seq<HashException>>)
    ensures !r.Missing?
  {
    if k >= e.groupCount then Ok([])
    else
      match ChunkGroup(c, p, e, k)
      case Missing => Ok([])
      case Raised => Raised
      case Ok(group) =>
        var list := ListIndex(c.ListCount(), groupStart, ChunkStart(c, p, e, k));
        if 0 <= list < |group.lists| then Ok(Moved(group.lists[list], HeadersBefore(ChunkStart(c, p, e, k))))
        else Ok([])
  }

  /** Those of `n` chunks from `first` on. */
  ghost function ChunksExceptions(
      c: Container, p: Partition, e: DataEntry, groupStart: nat, first: nat, n: nat): (r: Outcome<seq<HashException>>)
    ensures !r.Missing?
  {
    if n == 0 then Ok([])
    else
      match ChunksExceptions(c, p, e, groupStart, first, n - 1)
      case Ok(before) =>
        (match ChunkExceptions(c, p, e, groupStart, first + n - 1)
         case Ok(more) => Ok(before + more)
         case _ => Raised)
      case _ => Raised
  }

  function OverlapStart(p: Partition, e: DataEntry, groupStart: nat): int {
    Max(p.EntryOffset(e), groupStart)
  }

  function OverlapEnd(p: Partition, e: DataEntry, groupStart: nat): int {
    Min(p.EntryEnd(e), groupStart + GROUP_DATA)
  }

  function FirstChunk(c: Container, p: Partition, e: DataEntry, groupStart: nat): nat
    requires c.WiiChunk() > 0
  {
    (OverlapStart(p, e, groupStart) - p.EntryOffset(e)) / c.WiiChunk()
  }

  function LastChunk(c: Container, p: Partition, e: DataEntry, groupStart: nat): int
    requires c.WiiChunk() > 0
  {
    (OverlapEnd(p, e, groupStart) - p.EntryOffset(e) - 1) / c.WiiChunk()
  }

  ghost function EntryExceptions(
      c: Container, p: Partition, e: DataEntry, groupStart: nat): (r: Outcome<seq<HashException>>)
    ensures !r.Missing?
  {
    if OverlapStart(p, e, groupStart) >= OverlapEnd(p, e, groupStart) then Ok([])
    else if c.WiiChunk() == 0 then Raised
    else
      var first := FirstChunk(c, p, e, groupStart);
      ChunksExceptions(c, p, e, groupStart, first, Max(0, LastChunk(c, p, e, groupStart) + 1 - first))
  }

  /** The exceptions the first `n` entries of a partition have for the group. */
  ghost function CollectedExceptions(
      c: Container, p: Partition, groupStart: nat, n: nat): (r: Outcome<seq<HashException>>)
    requires n <= |p.entries|
    ensures !r.Missing?
  {
    if n == 0 then Ok([])
    else
      match CollectedExceptions(c, p, groupStart, n - 1)
      case Ok(before) =>
        (match EntryExceptions(c, p, p.entries[n - 1], groupStart)
         case Ok(more) => Ok(before + more)
         case _ => Raised)
      case _ => Raised
  }

  predicate ExceptionFits(e: HashException) {
    e.offset / CLUSTER_HEADER < GROUP_BLOCKS && e.offset % CLUSTER_HEADER + |e.hash| <= CLUSTER_HEADER
  }

  ghost predicate ValidHeaders(headers: seq<Bytes>) {
    |headers| == GROUP_BLOCKS && forall b :: 0 <= b < GROUP_BLOCKS ==> |headers[b]| == CLUSTER_HEADER
  }

  /** The headers with the first `n` exceptions written over them. */
  ghost function WithExceptions(headers: seq<Bytes>, exceptions: seq<HashException>, n: nat): (r: Outcome<seq<Bytes>>)
    requires ValidHeaders(headers) && n <= |exceptions|
    ensures !r.Missing?
    ensures r.Ok? ==> ValidHeaders(r.value)
  {
    if n == 0 then Ok(headers)
    else
      match WithExceptions(headers, exceptions, n - 1)
      case Ok(before) =>
        var e := exceptions[n - 1];
        if !ExceptionFits(e) then Raised
        else
          var b := e.offset / CLUSTER_HEADER;
          Ok(before[b := Splice(before[b], e.offset % CLUSTER_HEADER, e.hash)])
      case _ => Raised
  }

  /** A cluster: the encrypted header, then the data under an IV taken from it. */
  ghost function EncryptedBlock(codec: Codec, key: Bytes, header: Bytes, data: Bytes): (r: Bytes)
    requires |header| == CLUSTER_HEADER && |data| == CLUSTER_DATA
    ensures |r| == DISC_SECTOR
  {
    var encryptedHeader := codec.aes(key, Zeros(16), header);
    encryptedHeader + codec.aes(key, encryptedHeader[HASH_IV_OFFSET..HASH_IV_OFFSET + 16], data)
  }

  ghost function EncryptedBlocks(codec: Codec, key: Bytes, headers: seq<Bytes>, blocks: seq<Bytes>, n: nat): (r: Bytes)
    requires ValidHeaders(headers) && ValidBlocks(blocks) && n <= GROUP_BLOCKS
    ensures |r| == n * DISC_SECTOR
  {
    if n == 0 then []
    else EncryptedBlocks(codec, key, headers, blocks, n - 1) + EncryptedBlock(codec, key, headers[n - 1], blocks[n - 1])
  }

  ghost function EncryptedGroup(c: Container, p: Partition, groupStart: nat): (r: Outcome<Bytes>)
    ensures r.Ok? ==> |r.value| == GROUP_TOTAL
  {
    match DecryptedBlocks(c, p, groupStart, GROUP_BLOCKS)
    case Missing => Missing
    case Raised => Raised
    case Ok(blocks) =>
      match CollectedExceptions(c, p, groupStart, |p.entries|)
      case Ok(exceptions) =>
        (match WithExceptions(HashHeaders(c.codec.sha1, blocks), exceptions, |exceptions|)
         case Ok(headers) => Ok(EncryptedBlocks(c.codec, p.key, headers, blocks, GROUP_BLOCKS))
         case _ => Raised)
      case _ => Raised
  }

  // What decrypting an encrypted group gives.

  ghost predicate Decrypts(dec: (Bytes, Bytes, Bytes) -> Bytes, aes: Cipher) {
    forall key, iv, data :: dec(key, iv, aes(key, iv, data)) == data
  }

  lemma BlockDecrypts(
      codec: Codec, key: Bytes, header: Bytes, data: Bytes, dec: (Bytes, Bytes, Bytes) -> Bytes)
    requires |header| == CLUSTER_HEADER && |data| == CLUSTER_DATA && Decrypts(dec, codec.aes)
    ensures var block := EncryptedBlock(codec, key, header, data);
      && dec(key, Zeros(16), block[..0x400]) == header
      && dec(key, block[0x3D0..0x3E0], block[0x400..0x8000]) == data
  {
    var encryptedHeader := codec.aes(key, Zeros(16), header);
    var block := EncryptedBlock(codec, key, header, data);
    assert block[..0x400] == encryptedHeader;
    assert block[0x3D0..0x3E0] == encryptedHeader[0x3D0..0x3E0];
    assert block[0x400..0x8000] == codec.aes(key, encryptedHeader[0x3D0..0x3E0], data);
  }

  lemma {:induction false} BlockOfGroup(
      codec: Codec, key: Bytes, headers: seq<Bytes>, blocks: seq<Bytes>, n: nat, b: nat)
    requires ValidHeaders(headers) && ValidBlocks(blocks) && b < n <= GROUP_BLOCKS
    ensures EncryptedBlocks(codec, key, headers, blocks, n)[0x8000 * b..0x8000 * b + 0x8000]
      == EncryptedBlock(codec, key, headers[b], blocks[b])
  {
    hide EncryptedBlock;
    if b < n - 1 {
      BlockOfGroup(codec, key, headers, blocks, n - 1, b);
    }
  }

  /** The clusters, exceptions and headers a group is made of. */
  ghost predicate MadeOf(
      c: Container, p: Partition, groupStart: nat, blocks: seq<Bytes>, exceptions: seq<HashException>,
      headers: seq<Bytes>)
  {
    && DecryptedBlocks(c, p, groupStart, 64) == Ok(blocks)
    && CollectedExceptions(c, p, groupStart, |p.entries|) == Ok(exceptions)
    && WithExceptions(HashHeaders(c.codec.sha1, blocks), exceptions, |exceptions|) == Ok(headers)
  }

  /**
   In each of a group's 64 sectors the first 0x400 bytes decrypt under a zero IV to the header the
   hash tree and the exceptions give it, and the rest under the IV found at 0x3D0 of that sector to
   the cluster's data, whatever deciphering undoes the cipher.
   */
  lemma GroupDecrypts(c: Container, p: Partition, groupStart: nat, dec: (Bytes, Bytes, Bytes) -> Bytes)
    returns (blocks: seq<Bytes>, exceptions: seq<HashException>, headers: seq<Bytes>)
    requires Decrypts(dec, c.codec.aes) && EncryptedGroup(c, p, groupStart).Ok?
    ensures MadeOf(c, p, groupStart, blocks, exceptions, headers)
    ensures |blocks| == |headers| == 64
    ensures forall b :: 0 <= b < 64 ==>
      var sector := EncryptedGroup(c, p, groupStart).value[0x8000 * b..0x8000 * b + 0x8000];
      && dec(p.key, Zeros(16), sector[..0x400]) == headers[b]
      && dec(p.key, sector[0x3D0..0x3E0], sector[0x400..0x8000]) == blocks[b]
  {
    hide DecryptedBlocks, CollectedExceptions, WithExceptions, HashHeader, EncryptedBlocks, EncryptedBlock;
    blocks := DecryptedBlocks(c, p, groupStart, 64).value;
    exceptions := CollectedExceptions(c, p, groupStart, |p.entries|).value;
    headers := WithExceptions(HashHeaders(c.codec.sha1, blocks), exceptions, |exceptions|).value;
    hide HashHeaders;
    var group := EncryptedGroup(c, p, groupStart).value;
    forall b | 0 <= b < 64
      ensures var sector := group[0x8000 * b..0x8000 * b + 0x8000];
        && dec(p.key, Zeros(16), sector[..0x400]) == headers[b]
        && dec(p.key, sector[0x3D0..0x3E0], sector[0x400..0x8000]) == blocks[b]
    {
      BlockOfGroup(c.codec, p.key, headers, blocks, 64, b);
      BlockDecrypts(c.codec, p.key, headers[b], blocks[b], dec);
    }
  }

  // The disc.

  function FindPartition(partitions: seq<Partition>, offset: nat, from: nat): (r: Option<nat>)
    ensures r.Some? ==> from <= r.value < |partitions| && partitions[r.value].Contains(offset)
    ensures r.None? ==> forall i :: from <= i < |partitions| ==> !partitions[i].Contains(offset)
    decreases |partitions| - from
  {
    if from >= |partitions| then None
    else if partitions[from].Contains(offset) then Some(from)
    else FindPartition(partitions, offset, from + 1)
  }

  predicate InRaw(e: RawEntry, offset: nat) { e.logicalStart <= offset < e.logicalEnd }

  function FindRaw(raw: seq<RawEntry>, offset: nat, from: nat): (r: Option<nat>)
    ensures r.Some? ==> from <= r.value < |raw| && InRaw(raw[r.value], offset)
    ensures r.None? ==> forall i :: from <= i < |raw| ==> !InRaw(raw[i], offset)
    decreases |raw| - from
  {
    if from >= |raw| then None
    else if InRaw(raw[from], offset) then Some(from)
    else FindRaw(raw, offset, from + 1)
  }

  function RawChunkStart(c: Container, e: RawEntry, k: nat): nat {
    e.logicalStart + k * c.chunkSize
  }

  /** Cut at 0 only for chunks past the entry's end, which are never read. */
  function RawChunkSize(c: Container, e: RawEntry, k: nat): nat {
    Max(0, Min(c.chunkSize, e.logicalEnd - RawChunkStart(c, e, k)))
  }

  ghost function RawChunk(c: Container, i: nat, k: nat): (r: Outcome<Bytes>)
    requires i < |c.raw|
    ensures !r.Missing?
    ensures r.Ok? ==> |r.value| == RawChunkSize(c, c.raw[i], k)
  {
    RawGroup(c, c.raw[i].groupIndex + k, RawChunkSize(c, c.raw[i], k), RawChunkStart(c, c.raw[i], k))
  }

  /** Byte `offset` of the disc; `Missing` where the container holds nothing. */
  ghost function ByteAt(c: Container, offset: nat): Outcome<byte>
    requires c.Parsed()
  {
    if offset < DISC_HEADER_SIZE then Ok(c.discHeader[offset])
    else
      match FindPartition(c.partitions, offset, 0)
      case Some(i) =>
        var p := c.partitions[i];
        var within: nat := offset - p.RawStart();
        (match EncryptedGroup(c, p, within / GROUP_TOTAL * GROUP_DATA)
         case Ok(group) => Ok(group[within % GROUP_TOTAL])
         case Missing => Missing
         case Raised => Raised)
      case None =>
        match FindRaw(c.raw, offset, 0)
        case None => Missing
        case Some(i) =>
          var e := c.raw[i];
          var k := (offset - e.logicalStart) / c.chunkSize;
          if k >= e.groupCount then Missing
          else
            match RawChunk(c, i, k)
            case Ok(group) =>
              ChunkIndexInside(offset - e.logicalStart, c.chunkSize);
              Ok(group[offset - e.logicalStart - k * c.chunkSize])
            case _ => Raised
  }

  /** Bytes `[offset, end)` one at a time, stopping before the first that is missing. */
  ghost function ReadFrom(c: Container, offset: nat, end: nat): (r: Outcome<Bytes>)
    requires c.Parsed() && offset <= end
    ensures !r.Missing?
    decreases end - offset
  {
    if offset == end then Ok([])
    else
      match ByteAt(c, offset)
      case Missing => Ok([])
      case Raised => Raised
      case Ok(b) => Prepend([b], ReadFrom(c, offset + 1, end))
  }

  /** What reading `length` bytes at `offset` means. */
  ghost function ReadMeans(c: Container, offset: int, length: int): Outcome<Bytes>
    requires c.Parsed()
  {
    if offset < 0 || length <= 0 || offset >= c.length then Ok([])
    else ReadFrom(c, offset, offset + Min(length, c.length - offset))
  }

  // What the byte-by-byte reading says about longer runs.

  /** `bytes` are the image's bytes from `offset` on. */
  ghost predicate OfImage(c: Container, offset: nat, bytes: Bytes)
    requires c.Parsed()
  {
    forall k :: 0 <= k < |bytes| ==> ByteAt(c, offset + k) == Ok(bytes[k])
  }

  lemma {:induction false} ReadRun(c: Container, offset: nat, end: nat, bytes: Bytes)
    requires c.Parsed() && offset + |bytes| <= end
    requires OfImage(c, offset, bytes)
    ensures ReadFrom(c, offset, end) == Prepend(bytes, ReadFrom(c, offset + |bytes|, end))
    decreases |bytes|
  {
    hide ByteAt;
    if bytes == [] {
      PrependNothing(ReadFrom(c, offset, end));
    } else {
      var rest := bytes[1..];
      forall k | 0 <= k < |rest|
        ensures ByteAt(c, offset + 1 + k) == Ok(rest[k])
      {
        assert ByteAt(c, offset + (1 + k)) == Ok(bytes[1 + k]);
      }
      assert ByteAt(c, offset + 0) == Ok(bytes[0]);
      ReadRun(c, offset + 1, end, rest);
      PrependTwice([bytes[0]], rest, ReadFrom(c, offset + |bytes|, end));
      assert [bytes[0]] + rest == bytes;
    }
  }

  /** Reading up to `middle` first and then on from where that stopped is reading on to `end`. */
  lemma {:induction false} ReadSplits(c: Container, offset: nat, middle: nat, end: nat)
    requires c.Parsed() && offset <= middle <= end
    ensures var first := ReadFrom(c, offset, middle);
      if first.Ok? then
        && offset + |first.value| <= middle
        && (offset < middle && first.value == [] ==> ReadFrom(c, offset, end) == Ok([]))
        && ReadFrom(c, offset, end) == Prepend(first.value, ReadFrom(c, offset + |first.value|, end))
      else ReadFrom(c, offset, end).Raised?
    decreases middle - offset
  {
    hide ByteAt;
    if offset == middle {
      PrependNothing(ReadFrom(c, offset, end));
    } else if ByteAt(c, offset).Ok? {
      var b := ByteAt(c, offset).value;
      ReadSplits(c, offset + 1, middle, end);
      var rest := ReadFrom(c, offset + 1, middle);
      if rest.Ok? {
        PrependTwice([b], rest.value, ReadFrom(c, offset + 1 + |rest.value|, end));
      }
    } else {
      PrependNothing(ReadFrom(c, offset, end));
    }
  }

  /** A read returns bytes of the image in order, and all of them if none is missing. */
  lemma {:induction false} ReadIsOfImage(c: Container, offset: nat, end: nat)
    requires c.Parsed() && offset <= end
    ensures var r := ReadFrom(c, offset, end);
      && (r.Ok? ==>
            && offset + |r.value| <= end
            && OfImage(c, offset, r.value)
            && (offset + |r.value| < end ==> ByteAt(c, offset + |r.value|).Missing?))
      && (r.Raised? <==>
            exists o ::
              offset <= o < end && ByteAt(c, o).Raised? && forall b :: offset <= b < o ==> ByteAt(c, b).Ok?)
    decreases end - offset
  {
    hide ByteAt;
    var r := ReadFrom(c, offset, end);
    if offset < end && ByteAt(c, offset).Ok? {
      ReadIsOfImage(c, offset + 1, end);
      var rest := ReadFrom(c, offset + 1, end);
      if rest.Ok? {
        assert r.value == [ByteAt(c, offset).value] + rest.value;
        forall k | 0 <= k < |r.value|
          ensures ByteAt(c, offset + k) == Ok(r.value[k])
        {
          if k > 0 {
            assert ByteAt(c, offset + 1 + (k - 1)) == Ok(rest.value[k - 1]);
          }
        }
      } else {
        var o :| offset + 1 <= o < end && ByteAt(c, o).Raised? && forall b :: offset + 1 <= b < o ==> ByteAt(c, b).Ok?;
        assert forall b :: offset <= b < o ==> ByteAt(c, b).Ok?;
      }
    }
  }

  /** Where no byte is missing and none fails, a read gives all there is to give. */
  lemma ReadIsComplete(c: Container, offset: nat, length: nat)
    requires c.Parsed() && 0 < length && offset < c.length
    requires forall o :: offset <= o < offset + Min(length, c.length - offset) ==> ByteAt(c, o).Ok?
    ensures var r := ReadMeans(c, offset, length);
      r.Ok? && |r.value| == Min(length, c.length - offset) && OfImage(c, offset, r.value)
  {
    hide ByteAt;
    ReadIsOfImage(c, offset, offset + Min(length, c.length - offset));
  }

  // Containers that hold the whole disc.

  /** Every byte behind the header lies in a partition or a raw range. */
  predicate Covers(c: Container) {
    forall o: nat :: DISC_HEADER_SIZE <= o < c.length ==> InPartition(c, o) || InRawRange(c, o)
  }

  predicate InPartition(c: Container, o: nat) {
    exists i :: 0 <= i < |c.partitions| && c.partitions[i].Contains(o)
  }

  predicate InRawRange(c: Container, o: nat) {
    exists i :: 0 <= i < |c.raw| && InRaw(c.raw[i], o)
  }

  /** Raw entries have a chunk for each of their bytes, and those and the partitions' groups decode. */
  ghost predicate Decodes(c: Container) {
    && (forall i :: 0 <= i < |c.raw| ==>
          c.raw[i].logicalEnd - c.raw[i].logicalStart <= c.raw[i].groupCount * c.chunkSize)
    && (forall i, k :: 0 <= i < |c.raw| && 0 <= k < c.raw[i].groupCount && ChunkInside(c, c.raw[i], k) ==>
          RawChunk(c, i, k).Ok?)
    && (forall i, g: nat :: 0 <= i < |c.partitions| && GroupInside(c.partitions[i], g) ==>
          EncryptedGroup(c, c.partitions[i], g * GROUP_DATA).Ok?)
  }

  predicate ChunkInside(c: Container, e: RawEntry, k: nat) {
    e.logicalStart + k * c.chunkSize < e.logicalEnd
  }

  predicate GroupInside(p: Partition, g: nat) {
    p.RawStart() + g * GROUP_TOTAL < p.RawEnd()
  }

  lemma ProductAtLeast(a: int, b: int, m: nat)
    ensures a <= b ==> a * m <= b * m
  {
  }

  lemma QuotientBelow(x: nat, m: nat, n: nat)
    requires m > 0 && x < n * m
    ensures x / m < n
  {
    ChunkIndexInside(x, m);
    ProductAtLeast(n, x / m, m);
  }

  lemma CoveredByte(c: Container, o: nat)
    requires c.Parsed() && Covers(c) && Decodes(c) && o < c.length
    ensures ByteAt(c, o).Ok?
  {
    hide EncryptedGroup, RawChunk;
    if o >= DISC_HEADER_SIZE {
      match FindPartition(c.partitions, o, 0) {
        case Some(i) =>
          var within := o - c.partitions[i].RawStart();
          assert GroupInside(c.partitions[i], within / GROUP_TOTAL);
        case None =>
          assert InRawRange(c, o);
          match FindRaw(c.raw, o, 0) {
            case Some(i) =>
              var e := c.raw[i];
              QuotientBelow(o - e.logicalStart, c.chunkSize, e.groupCount);
              ChunkIndexInside(o - e.logicalStart, c.chunkSize);
              assert ChunkInside(c, e, (o - e.logicalStart) / c.chunkSize);
            case None =>
          }
      }
    }
  }

  /** Of a container that covers the disc and decodes, a read gives exactly what was asked for, up to
      the end of the disc. */
  lemma CoveringReadIsComplete(c: Container, offset: nat, length: nat)
    requires c.Parsed() && Covers(c) && Decodes(c) && 0 < length && offset < c.length
    ensures var r := ReadMeans(c, offset, length);
      r.Ok? && |r.value| == Min(length, c.length - offset) && OfImage(c, offset, r.value)
  {
    hide ByteAt, Covers, Decodes, ReadMeans;
    forall o | offset <= o < offset + Min(length, c.length - offset)
      ensures ByteAt(c, o).Ok?
    {
      CoveredByte(c, o);
    }
    ReadIsComplete(c, offset, length);
  }
}

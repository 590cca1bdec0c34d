/**
 RVZ's packed groups (linux/raofflineproxy/rvz_datasource.py): a run of records, each either
 bytes to copy or the seed of a generated run. `Decoded` follows the decoder; `Record` and
 `Encode` say independently what the format is, and the two are proved to agree.
 */
module RvzPacked {
  import opened Bytes
  import opened LaggedFibonacci

  const SEED_SIZE := 68
  const GENERATED_BIT := 0x8000_0000

  datatype Record = Copy(data: Bytes) | Junk(seed: Bytes, size: nat) {
    predicate Valid() {
      match this
      case Copy(data) => |data| < GENERATED_BIT
      case Junk(seed, size) => |seed| == SEED_SIZE && size < GENERATED_BIT
    }

    function Size(): nat {
      match this
      case Copy(data) => |data|
      case Junk(_, size) => size
    }
  }

  predicate AllValid(records: seq<Record>) {
    forall r <- records :: r.Valid()
  }

  function EncodeU32(u: nat): (r: Bytes)
    requires u < WORD_LIMIT
    ensures |r| == 4
  {
    var q1 := u / 0x100;
    var q2 := q1 / 0x100;
    [q2 / 0x100, q2 % 0x100, q1 % 0x100, u % 0x100]
  }

  /** The top bit of the size word marks a generated run. */
  function Encode(record: Record): (r: Bytes)
    requires record.Valid()
  {
    match record
    case Copy(data) => EncodeU32(|data|) + data
    case Junk(seed, size) => EncodeU32(GENERATED_BIT + size) + seed
  }

  function EncodeAll(records: seq<Record>): Bytes
    requires AllValid(records)
  {
    if records == [] then [] else Encode(records[0]) + EncodeAll(records[1..])
  }

  function TotalSize(records: seq<Record>): nat {
    if records == [] then 0 else records[0].Size() + TotalSize(records[1..])
  }

  function SeedWordAt(seed: Bytes, i: nat): word
    requires |seed| == SEED_SIZE && i < SEED_WORDS
  {
    var b0: nat, b1: nat, b2: nat, b3: nat := seed[4 * i], seed[4 * i + 1], seed[4 * i + 2], seed[4 * i + 3];
    b0 * 0x100_0000 + b1 * 0x1_0000 + b2 * 0x100 + b3
  }

  function SeedWordsOf(seed: Bytes): (r: seq<word>)
    requires |seed| == SEED_SIZE
    ensures |r| == SEED_WORDS
  {
    seq<word>(SEED_WORDS, (i: nat) requires i < SEED_WORDS => SeedWordAt(seed, i))
  }

  /** A copy stands for itself; a run is generated at its own place within the group. */
  ghost function ExpandOne(record: Record, position: int): (r: Bytes)
    requires record.Valid()
    ensures |r| == record.Size()
  {
    match record
    case Copy(data) => data
    case Junk(seed, size) => Generated(SeedWordsOf(seed), size, position)
  }

  ghost function Expand(records: seq<Record>, position: int): (r: Bytes)
    requires AllValid(records)
    ensures |r| == TotalSize(records)
  {
    if records == [] then []
    else ExpandOne(records[0], position) + Expand(records[1..], position + records[0].Size())
  }

  /** The records that fill exactly `size` bytes, none of them after the output was full. */
  ghost predicate Fills(records: seq<Record>, size: nat) {
    && TotalSize(records) == size
    && (forall k :: 0 <= k < |records| ==> TotalSize(records[..k]) < size)
  }

  ghost function Prepend(head: Bytes, rest: Outcome<Bytes>): Outcome<Bytes> {
    if rest.Ok? then Ok(head + rest.value) else rest
  }

  /** One complete record at `input` and the position behind it. */
  function ParseRecord(packed: Bytes, input: nat): (r: Outcome<(Record, nat)>)
    requires input <= |packed|
    ensures !r.Missing?
    ensures r.Ok? ==> r.value.0.Valid() && input < r.value.1 <= |packed|
  {
    match BeU32(packed, input)
    case Ok(header) =>
      var size := header % GENERATED_BIT;
      var at := input + 4;
      if header < GENERATED_BIT then
        if at + size > |packed| then Raised else Ok((Copy(packed[at..at + size]), at + size))
      else
        if at + SEED_SIZE > |packed| then Raised else Ok((Junk(packed[at..at + SEED_SIZE], size), at + SEED_SIZE))
    case _ => Raised
  }

  /** The decoder from input position `input` and output position `position` on. */
  ghost function DecodedFrom(
      packed: Bytes, input: nat, position: nat, logicalSize: nat, groupStart: int): (r: Outcome<Bytes>)
    requires input <= |packed| && position <= logicalSize
    ensures !r.Missing?
    ensures r.Ok? ==> |r.value| == logicalSize - position
    decreases |packed| - input
  {
    if position == logicalSize then Ok([])
    else
      match ParseRecord(packed, input)
      case Ok((record, next)) =>
        if position + record.Size() > logicalSize then Raised
        else
          Prepend(ExpandOne(record, groupStart + position),
                  DecodedFrom(packed, next, position + record.Size(), logicalSize, groupStart))
      case _ => Raised
  }

  ghost function Decoded(packed: Bytes, logicalSize: nat, groupStart: int): (r: Outcome<Bytes>)
    ensures !r.Missing?
    ensures r.Ok? ==> |r.value| == logicalSize
  {
    DecodedFrom(packed, 0, 0, logicalSize, groupStart)
  }

  /** The source's `_decode_rvz_packed`. */
  method DecodePacked(packed: Bytes, logicalSize: nat, groupStart: int) returns (r: Outcome<Bytes>)
    ensures r == Decoded(packed, logicalSize, groupStart)
  {
    hide Generated, BeU32, SeedWordsOf, DecodedFrom, Prepend;
    var output := new byte[logicalSize];
    var input, position := 0, 0;
    assert output[..0] == [];
    PrependNothing(DecodedFrom(packed, 0, 0, logicalSize, groupStart));
    ghost var wanted := Decoded(packed, logicalSize, groupStart);
    hide Decoded;
    while input < |packed| && position < logicalSize
      invariant 0 <= input <= |packed| && 0 <= position <= logicalSize
      invariant wanted
        == Prepend(output[..position], DecodedFrom(packed, input, position, logicalSize, groupStart))
      decreases |packed| - input
    {
      DecodedStep(packed, input, position, logicalSize, groupStart);
      var header := BeU32(packed, input);
      if !header.Ok? {
        return Raised;
      }
      ghost var parsed, before := ParseRecord(packed, input), output[..position];
      input := input + 4;
      var size := header.value % GENERATED_BIT;
      var piece: Bytes;
      if header.value < GENERATED_BIT {
        if input + size > |packed| || position + size > logicalSize {
          return Raised;
        }
        piece := packed[input..input + size];
        input := input + size;
        assert parsed == Ok((Copy(piece), input));
      } else {
        if input + SEED_SIZE > |packed| || position + size > logicalSize {
          return Raised;
        }
        var seed := packed[input..input + SEED_SIZE];
        input := input + SEED_SIZE;
        assert parsed == Ok((Junk(seed, size), input));
        piece := GenerateBytes(SeedWordsOf(seed), size, groupStart + position);
      }
      assert piece == ExpandOne(parsed.value.0, groupStart + position) && input == parsed.value.1;
      Append(output, position, piece);
      PrependTwice(before, piece, DecodedFrom(packed, input, position + size, logicalSize, groupStart));
      position := position + size;
    }
    DecodedEnd(packed, input, position, logicalSize, groupStart, output[..position]);
    if position != logicalSize {
      return Raised;
    }
    assert output[..position] == output[..];
    r := Ok(output[..]);
  }

  /** `output[position:position + len(piece)] = piece` */
  method Append(output: array<byte>, position: nat, piece: Bytes)
    requires position + |piece| <= output.Length
    modifies output
    ensures output[..position + |piece|] == old(output[..position]) + piece
  {
    forall i | 0 <= i < |piece| {
      output[position + i] := piece[i];
    }
  }

  lemma DecodedStep(packed: Bytes, input: nat, position: nat, logicalSize: nat, groupStart: int)
    requires input <= |packed| && position < logicalSize
    ensures var parsed := ParseRecord(packed, input);
      DecodedFrom(packed, input, position, logicalSize, groupStart)
        == if parsed.Ok? && position + parsed.value.0.Size() <= logicalSize then
             Prepend(ExpandOne(parsed.value.0, groupStart + position),
                     DecodedFrom(packed, parsed.value.1, position + parsed.value.0.Size(), logicalSize, groupStart))
           else Raised
    ensures forall head :: Prepend(head, Raised) == Raised
  {
  }

  lemma DecodedEnd(packed: Bytes, input: nat, position: nat, logicalSize: nat, groupStart: int, done: Bytes)
    requires input <= |packed| && position <= logicalSize
    requires input == |packed| || position == logicalSize
    ensures Prepend(done, DecodedFrom(packed, input, position, logicalSize, groupStart))
      == if position == logicalSize then Ok(done) else Raised
  {
    assert done + [] == done;
  }

  lemma PrependNothing(rest: Outcome<Bytes>)
    ensures Prepend([], rest) == rest
  {
    if rest.Ok? {
      assert [] + rest.value == rest.value;
    }
  }

  lemma PrependTwice(a: Bytes, b: Bytes, rest: Outcome<Bytes>)
    ensures Prepend(a, Prepend(b, rest)) == Prepend(a + b, rest)
  {
    if rest.Ok? {
      assert a + (b + rest.value) == a + b + rest.value;
    }
  }

  // The format: encoded records decode to their expansion, and nothing else decodes.

  lemma HeaderRoundTrip(packed: Bytes, at: nat, u: nat)
    requires u < WORD_LIMIT
    requires at + 4 <= |packed| && packed[at..at + 4] == EncodeU32(u)
    ensures BeU32(packed, at) == Ok(u)
  {
    var four := packed[at..at + 4];
    assert packed[at] == four[0] && packed[at + 1] == four[1] && packed[at + 2] == four[2] && packed[at + 3] == four[3];
  }

  lemma HeaderIsEncoded(packed: Bytes, at: nat, u: nat)
    requires BeU32(packed, at) == Ok(u)
    ensures u < WORD_LIMIT && at + 4 <= |packed| && packed[at..at + 4] == EncodeU32(u)
  {
    var b0: nat, b1: nat, b2: nat, b3: nat := packed[at], packed[at + 1], packed[at + 2], packed[at + 3];
    assert u == ((b0 * 0x100 + b1) * 0x100 + b2) * 0x100 + b3;
    assert u / 0x100 == (b0 * 0x100 + b1) * 0x100 + b2 && u % 0x100 == b3;
    assert u / 0x100 / 0x100 == b0 * 0x100 + b1 && u / 0x100 % 0x100 == b2;
    assert packed[at..at + 4] == [packed[at], packed[at + 1], packed[at + 2], packed[at + 3]];
  }

  lemma FillsRest(records: seq<Record>, size: nat)
    requires records != [] && Fills(records, size)
    ensures size > 0 && records[0].Size() <= size
    ensures Fills(records[1..], size - records[0].Size())
  {
    assert records[..0] == [];
    forall k | 0 <= k < |records| - 1
      ensures TotalSize(records[1..][..k]) < size - records[0].Size()
    {
      assert records[..k + 1][1..] == records[1..][..k];
    }
  }

  lemma FillsCons(first: Record, rest: seq<Record>, size: nat)
    requires size > 0 && first.Size() <= size && Fills(rest, size - first.Size())
    ensures Fills([first] + rest, size)
  {
    var records := [first] + rest;
    assert records[1..] == rest;
    forall k | 0 <= k < |records|
      ensures TotalSize(records[..k]) < size
    {
      if k > 0 {
        assert records[..k][1..] == rest[..k - 1];
      }
    }
  }

  lemma EncodedParses(packed: Bytes, input: nat, record: Record)
    requires record.Valid() && input + |Encode(record)| <= |packed|
    requires packed[input..input + |Encode(record)|] == Encode(record)
    ensures ParseRecord(packed, input) == Ok((record, input + |Encode(record)|))
  {
    hide EncodeU32, BeU32;
    var code := Encode(record);
    var next := input + |code|;
    assert packed[input..next] == code;
    assert packed[input..input + 4] == code[..4];
    HeaderRoundTrip(packed, input, if record.Copy? then |record.data| else GENERATED_BIT + record.size);
    assert packed[input + 4..next] == code[4..];
  }

  lemma ParsedIsEncoded(packed: Bytes, input: nat, record: Record, next: nat)
    requires input <= |packed| && ParseRecord(packed, input) == Ok((record, next))
    ensures packed[input..next] == Encode(record)
  {
    hide EncodeU32, BeU32;
    HeaderIsEncoded(packed, input, BeU32(packed, input).value);
    assert packed[input..next] == packed[input..input + 4] + packed[input + 4..next];
  }

  /** Whatever follows the records, decoding their encoding gives their expansion. */
  lemma {:induction false} EncodedDecodes(
      records: seq<Record>, packed: Bytes, input: nat, end: nat, position: nat, logicalSize: nat, groupStart: int)
    requires AllValid(records)
    requires input <= end <= |packed| && position <= logicalSize
    requires packed[input..end] == EncodeAll(records)
    requires Fills(records, logicalSize - position)
    ensures DecodedFrom(packed, input, position, logicalSize, groupStart) == Ok(Expand(records, groupStart + position))
    decreases |records|
  {
    hide Generated, ParseRecord, Encode, ExpandOne;
    if records != [] {
      var first, rest := records[0], records[1..];
      FillsRest(records, logicalSize - position);
      var next := input + |Encode(first)|;
      var code := packed[input..end];
      assert code[..|Encode(first)|] == packed[input..next] && code[|Encode(first)|..] == packed[next..end];
      EncodedParses(packed, input, first);
      EncodedDecodes(rest, packed, next, end, position + first.Size(), logicalSize, groupStart);
    }
  }

  /** Every successful decoding is the expansion of encoded records. */
  lemma {:induction false} DecodedIsEncoded(packed: Bytes, input: nat, position: nat, logicalSize: nat, groupStart: int)
    returns (records: seq<Record>, end: nat)
    requires input <= |packed| && position <= logicalSize
    requires DecodedFrom(packed, input, position, logicalSize, groupStart).Ok?
    ensures AllValid(records)
    ensures input <= end <= |packed| && packed[input..end] == EncodeAll(records)
    ensures Fills(records, logicalSize - position)
    ensures DecodedFrom(packed, input, position, logicalSize, groupStart) == Ok(Expand(records, groupStart + position))
    decreases |packed| - input
  {
    hide Generated, ParseRecord, Encode, ExpandOne;
    if position == logicalSize {
      records, end := [], input;
    } else {
      var (first, next) := ParseRecord(packed, input).value;
      ParsedIsEncoded(packed, input, first, next);
      var rest;
      rest, end := DecodedIsEncoded(packed, next, position + first.Size(), logicalSize, groupStart);
      records := [first] + rest;
      FillsCons(first, rest, logicalSize - position);
      assert records[1..] == rest;
      assert packed[input..end] == packed[input..next] + packed[next..end];
    }
  }

  /** The decoder accepts exactly the inputs that start with records filling the group. */
  lemma DecodedExactly(packed: Bytes, logicalSize: nat, groupStart: int, out: Bytes)
    ensures Decoded(packed, logicalSize, groupStart) == Ok(out) <==>
      exists records, end ::
        && AllValid(records) && 0 <= end <= |packed| && packed[..end] == EncodeAll(records)
        && Fills(records, logicalSize) && out == Expand(records, groupStart)
  {
    hide Generated, ParseRecord, Encode, ExpandOne, EncodeAll, Expand, TotalSize;
    if Decoded(packed, logicalSize, groupStart) == Ok(out) {
      var records, end := DecodedIsEncoded(packed, 0, 0, logicalSize, groupStart);
    }
    forall records, end | AllValid(records) && 0 <= end <= |packed| && packed[..end] == EncodeAll(records)
        && Fills(records, logicalSize) && out == Expand(records, groupStart)
      ensures Decoded(packed, logicalSize, groupStart) == Ok(out)
    {
      EncodedDecodes(records, packed, 0, end, 0, logicalSize, groupStart);
    }
  }

  // What the expansion of records is, place by place.

  /** Big-endian: the highest byte comes first. */
  lemma BytesOfU32(four: Bytes, u: word)
    requires |four| == 4
    ensures four == EncodeU32(u) <==>
      four[0] as int * 0x100_0000 + four[1] as int * 0x1_0000 + four[2] as int * 0x100 + four[3] as int == u
  {
    assert four[0..4] == four;
    if BeU32(four, 0) == Ok(u) {
      HeaderIsEncoded(four, 0, u);
    }
    if four == EncodeU32(u) {
      HeaderRoundTrip(four, 0, u);
    }
  }

  /** The words a run is seeded with are the seed's bytes, four by four. */
  lemma SeedWordsEncode(seed: Bytes, i: nat)
    requires |seed| == SEED_SIZE && i < SEED_WORDS
    ensures seed[4 * i..4 * i + 4] == EncodeU32(SeedWordsOf(seed)[i])
  {
    hide EncodeU32;
    BytesOfU32(seed[4 * i..4 * i + 4], SeedWordsOf(seed)[i]);
  }

  lemma {:induction false} TotalSizeJoined(a: seq<Record>, b: seq<Record>)
    ensures TotalSize(a + b) == TotalSize(a) + TotalSize(b)
  {
    if a == [] {
      assert a + b == b;
    } else {
      TotalSizeJoined(a[1..], b);
      assert (a + b)[1..] == a[1..] + b;
    }
  }

  lemma {:induction false} ExpandJoined(a: seq<Record>, b: seq<Record>, position: int)
    requires AllValid(a) && AllValid(b)
    ensures Expand(a + b, position) == Expand(a, position) + Expand(b, position + TotalSize(a))
  {
    hide ExpandOne;
    if a == [] {
      assert a + b == b;
    } else {
      ExpandJoined(a[1..], b, position + a[0].Size());
      assert (a + b)[1..] == a[1..] + b;
    }
  }

  /** Behind the records before it, a copy's bytes stand as they are, and a run's are those
      generated for its place in the group. */
  lemma ExpandAt(before: seq<Record>, record: Record, after: seq<Record>, groupStart: int)
    requires AllValid(before) && record.Valid() && AllValid(after)
    ensures var at := TotalSize(before);
      var records := before + [record] + after;
      && at + record.Size() <= TotalSize(records)
      && Expand(records, groupStart)[at..at + record.Size()]
           == match record
              case Copy(data) => data
              case Junk(seed, size) => Generated(SeedWordsOf(seed), size, groupStart + at)
  {
    hide Generated, SeedWordsOf;
    ExpandJoined(before, [record], groupStart);
    ExpandJoined(before + [record], after, groupStart);
    TotalSizeJoined(before, [record]);
    TotalSizeJoined(before + [record], after);
  }
}

/**
 The lagged Fibonacci generator that fills RVZ's generated ("junk") runs
 (linux/raofflineproxy/rvz_datasource.py).

 The source keeps 521 words and advances them in place. Here the words it will ever
 produce are one infinite sequence, `Word`, and the in-place code is proved to walk along it.
 */
module LaggedFibonacci {
  import opened Bytes

  const STATE_WORDS := 521
  const SEED_WORDS := 17
  const SECTOR_SIZE := 0x8000
  const WARM_UP_WORDS := 4 * STATE_WORDS

  const WORD_LIMIT := 0x1_0000_0000

  type word = x: int | 0 <= x < WORD_LIMIT

  function Pow2(n: nat): (p: nat)
    ensures p > 0
  {
    if n == 0 then 1 else 2 * Pow2(n - 1)
  }

  /** Bitwise exclusive or, lowest bit first. */
  function XorNat(a: nat, b: nat): nat {
    if a == 0 && b == 0 then 0 else 2 * XorNat(a / 2, b / 2) + (a + b) % 2
  }

  lemma {:induction false} XorNatBound(a: nat, b: nat, bits: nat)
    requires a < Pow2(bits) && b < Pow2(bits)
    ensures XorNat(a, b) < Pow2(bits)
    decreases bits
  {
    if bits > 0 {
      XorNatBound(a / 2, b / 2, bits - 1);
    }
  }

  function Xor(a: word, b: word): word {
    assert Pow2(8) == 0x100;
    assert Pow2(16) == 0x1_0000;
    assert Pow2(24) == 0x100_0000;
    assert Pow2(32) == WORD_LIMIT;
    XorNatBound(a, b, 32);
    XorNat(a, b)
  }

  /** Bit `i` of a number, the lowest being bit 0. */
  function Bit(x: nat, i: nat): nat {
    if i == 0 then x % 2 else Bit(x / 2, i - 1)
  }

  /** A number is its bits. */
  lemma {:induction false} SameBits(x: nat, y: nat, bits: nat)
    requires x < Pow2(bits) && y < Pow2(bits)
    requires forall i :: 0 <= i < bits ==> Bit(x, i) == Bit(y, i)
    ensures x == y
  {
    if bits > 0 {
      assert Bit(x, 0) == Bit(y, 0);
      forall i | 0 <= i < bits - 1
        ensures Bit(x / 2, i) == Bit(y / 2, i)
      {
        assert Bit(x, i + 1) == Bit(y, i + 1);
      }
      SameBits(x / 2, y / 2, bits - 1);
    }
  }

  /** Each bit of the exclusive or is the sum of the two bits without carry. */
  lemma {:induction false} XorBit(a: nat, b: nat, i: nat)
    ensures Bit(XorNat(a, b), i) == (Bit(a, i) + Bit(b, i)) % 2
    decreases i
  {
    if i > 0 {
      XorBit(a / 2, b / 2, i - 1);
    }
  }

  /** The bits of a number put together from two parts. */
  lemma {:induction false} JoinedBits(high: nat, low: nat, k: nat, i: nat)
    requires low < Pow2(k)
    ensures Bit(high * Pow2(k) + low, i) == if i < k then Bit(low, i) else Bit(high, i - k)
    decreases k
  {
    if k > 0 {
      var half := Pow2(k - 1);
      Doubled(high, low, half);
      if i > 0 {
        JoinedBits(high, low / 2, k - 1, i - 1);
      }
    }
  }

  lemma Doubled(high: nat, low: nat, half: nat)
    ensures (high * (2 * half) + low) / 2 == high * half + low / 2
    ensures (high * (2 * half) + low) % 2 == low % 2
  {
    assert high * (2 * half) == 2 * (high * half);
  }

  lemma BitsOfParts(x: nat, high: nat, low: nat, k: nat, i: nat)
    requires x == high * Pow2(k) + low && low < Pow2(k)
    ensures i < k ==> Bit(low, i) == Bit(x, i)
    ensures Bit(high, i) == Bit(x, i + k)
  {
    hide Bit, Pow2;
    JoinedBits(high, low, k, i);
    JoinedBits(high, low, k, i + k);
  }

  /** The infinite word sequence that starts with `init`. */
  ghost function Word(init: seq<word>, n: nat): word
    requires |init| == STATE_WORDS
  {
    if n < STATE_WORDS then init[n] else Xor(Word(init, n - STATE_WORDS), Word(init, n - 32))
  }

  /** The 521 words the buffer holds after `k` advances. */
  ghost function Window(init: seq<word>, k: nat): (w: seq<word>)
    requires |init| == STATE_WORDS
    ensures |w| == STATE_WORDS
    ensures forall i :: 0 <= i < STATE_WORDS ==> w[i] == Word(init, STATE_WORDS * k + i)
  {
    seq<word>(STATE_WORDS, (i: nat) => Word(init, STATE_WORDS * k + i))
  }

  lemma WindowZero(init: seq<word>)
    requires |init| == STATE_WORDS
    ensures Window(init, 0) == init
  {
  }

  /** Starting over from any later window continues the same sequence. */
  lemma {:induction false} WindowContinues(init: seq<word>, k: nat, n: nat)
    requires |init| == STATE_WORDS
    ensures Word(Window(init, k), n) == Word(init, STATE_WORDS * k + n)
    decreases n
  {
    if n >= STATE_WORDS {
      WindowContinues(init, k, n - STATE_WORDS);
      WindowContinues(init, k, n - 32);
      assert STATE_WORDS * k + (n - STATE_WORDS) == (STATE_WORDS * k + n) - STATE_WORDS;
    }
  }

  lemma WindowOfWindow(init: seq<word>, k: nat, j: nat)
    requires |init| == STATE_WORDS
    ensures Window(Window(init, k), j) == Window(init, k + j)
  {
    forall i | 0 <= i < STATE_WORDS
      ensures Window(Window(init, k), j)[i] == Window(init, k + j)[i]
    {
      WindowContinues(init, k, STATE_WORDS * j + i);
    }
  }

  /** `((a << 23) & MASK32) ^ (b >> 9) ^ c`. */
  function SeedMix(a: word, b: word, c: word): word {
    Xor(Xor(a * 0x80_0000 % WORD_LIMIT, b / 0x200), c)
  }

  /** The seeding step bit by bit: `a` moves up by 23 and loses its upper bits, `b` moves down by 9. */
  lemma SeedMixBits(a: word, b: word, c: word, i: nat)
    requires i < 32
    ensures Bit(SeedMix(a, b, c), i) == ((if i < 23 then Bit(b, i + 9) else Bit(a, i - 23)) + Bit(c, i)) % 2
  {
    hide Bit, XorNat;
    Powers();
    hide Pow2;
    var up, down := a % 0x200 * 0x80_0000, b / 0x200;
    assert a * 0x80_0000 % WORD_LIMIT == up;
    XorBit(up, down, i);
    XorBit(Xor(up, down), c, i);
    JoinedBits(a % 0x200, 0, 23, i);
    if i < 23 {
      BitsOfParts(b, b / 0x200, b % 0x200, 9, i);
      ZeroBits(i);
    } else {
      BitsOfParts(a, a / 0x200, a % 0x200, 9, i - 23);
      HighBits(down, 23, i);
    }
  }

  lemma Powers()
    ensures Pow2(9) == 0x200 && Pow2(23) == 0x80_0000
  {
    assert Pow2(8) == 0x100;
    assert Pow2(16) == 0x1_0000;
  }

  lemma {:induction false} ZeroBits(i: nat)
    ensures Bit(0, i) == 0
  {
    if i > 0 {
      ZeroBits(i - 1);
    }
  }

  lemma HighBits(x: nat, k: nat, i: nat)
    requires x < Pow2(k) && i >= k
    ensures Bit(x, i) == 0
  {
    JoinedBits(0, x, k, i);
    ZeroBits(i - k);
  }

  /** The seed words followed by the words the seeding loop derives from them. */
  ghost function SeedWord(seed: seq<word>, n: nat): word
    requires |seed| == SEED_WORDS
  {
    if n < SEED_WORDS then seed[n]
    else SeedMix(SeedWord(seed, n - 17), SeedWord(seed, n - 16), SeedWord(seed, n - 1))
  }

  ghost function SeedState(seed: seq<word>): (s: seq<word>)
    requires |seed| == SEED_WORDS
    ensures |s| == STATE_WORDS
    ensures forall i :: 0 <= i < STATE_WORDS ==> s[i] == SeedWord(seed, i)
  {
    seq<word>(STATE_WORDS, (i: nat) => SeedWord(seed, i))
  }

  /** The words of a generated run: four windows are thrown away first. */
  ghost function StreamWord(seed: seq<word>, n: nat): word
    requires |seed| == SEED_WORDS
  {
    Word(SeedState(seed), WARM_UP_WORDS + n)
  }

  /** Byte `i` of a word as the source extracts it; byte 1 is shifted by 18, not 16. */
  function ByteOf(w: word, i: nat): byte
    requires i < 4
  {
    match i
    case 0 => w / 0x1000000 % 0x100
    case 1 => w / 0x40000 % 0x100
    case 2 => w / 0x100 % 0x100
    case _ => w % 0x100
  }

  function WordsFor(byteCount: nat): nat {
    (byteCount + 3) / 4
  }

  /** Whole words are skipped up to the offset within the sector. */
  function WordsSkipped(absoluteOffset: int): nat {
    WordsFor(absoluteOffset % SECTOR_SIZE)
  }

  /** What a generated run of `size` bytes at `absoluteOffset` holds, word by word. */
  ghost function Generated(seed: seq<word>, size: nat, absoluteOffset: int): (r: Bytes)
    requires |seed| == SEED_WORDS
    ensures |r| == size
    ensures forall j :: 0 <= j < size ==>
      r[j] == ByteOf(StreamWord(seed, WordsSkipped(absoluteOffset) + j / 4), j % 4)
  {
    seq<byte>(size, (j: nat) => ByteOf(StreamWord(seed, WordsSkipped(absoluteOffset) + j / 4), j % 4))
  }

  /** The words of a run repeat the lagged sum, in each of the 32 bits, 521 and 32 words back. */
  lemma StreamRecurrence(seed: seq<word>, n: nat)
    requires |seed| == SEED_WORDS
    ensures forall i :: 0 <= i < 32 ==>
      Bit(StreamWord(seed, n + 521), i) == (Bit(StreamWord(seed, n), i) + Bit(StreamWord(seed, n + 489), i)) % 2
  {
    var init := SeedState(seed);
    assert WARM_UP_WORDS + (n + 521) - STATE_WORDS == WARM_UP_WORDS + n;
    assert WARM_UP_WORDS + (n + 521) - 32 == WARM_UP_WORDS + (n + 489);
    WordBits(init, WARM_UP_WORDS + (n + 521));
  }

  lemma WordBits(init: seq<word>, n: nat)
    requires |init| == STATE_WORDS && n >= STATE_WORDS
    ensures forall i :: 0 <= i < 32 ==>
      Bit(Word(init, n), i) == (Bit(Word(init, n - STATE_WORDS), i) + Bit(Word(init, n - 32), i)) % 2
  {
    var u, v := Word(init, n - STATE_WORDS), Word(init, n - 32);
    assert Word(init, n) == XorNat(u, v);
    hide Word, XorNat, Bit;
    forall i | 0 <= i < 32
      ensures Bit(XorNat(u, v), i) == (Bit(u, i) + Bit(v, i)) % 2
    {
      XorBit(u, v, i);
    }
  }

  /** The first words of the buffer: 17 are given, the others follow from those 17, 16 and 1 places
      before; the run starts with the word behind four whole buffers. */
  lemma SeedRecurrence(seed: seq<word>, n: nat)
    requires |seed| == SEED_WORDS
    ensures n < 17 ==> Word(SeedState(seed), n) == seed[n]
    ensures 17 <= n < 521 ==>
      forall i :: 0 <= i < 32 ==>
        var moved := if i < 23 then Bit(Word(SeedState(seed), n - 16), i + 9)
                     else Bit(Word(SeedState(seed), n - 17), i - 23);
        Bit(Word(SeedState(seed), n), i) == (moved + Bit(Word(SeedState(seed), n - 1), i)) % 2
    ensures StreamWord(seed, n) == Word(SeedState(seed), 4 * 521 + n)
  {
    hide Bit, SeedMix;
    if 17 <= n < 521 {
      forall i | 0 <= i < 32
        ensures var moved := if i < 23 then Bit(SeedWord(seed, n - 16), i + 9) else Bit(SeedWord(seed, n - 17), i - 23);
          Bit(SeedWord(seed, n), i) == (moved + Bit(SeedWord(seed, n - 1), i)) % 2
      {
        SeedMixBits(SeedWord(seed, n - 17), SeedWord(seed, n - 16), SeedWord(seed, n - 1), i);
      }
    }
  }

  /**
   The four bytes of every whole word of a run: the first and the lower six bits of the second are
   the word's upper 14 bits, the second repeats the lower two bits of the first in its upper two,
   and the last two are the lower 16 bits. The words are those from the offset within the sector
   on, rounded up.
   */
  lemma GeneratedWords(seed: seq<word>, size: nat, absoluteOffset: int, n: nat)
    returns (b0: byte, b1: byte, b2: byte, b3: byte, w: word)
    requires |seed| == SEED_WORDS && 4 * n + 3 < size
    ensures w == StreamWord(seed, (absoluteOffset % 0x8000 + 3) / 4 + n)
    ensures var out := Generated(seed, size, absoluteOffset);
      out[4 * n] == b0 && out[4 * n + 1] == b1 && out[4 * n + 2] == b2 && out[4 * n + 3] == b3
    ensures b0 * 64 + b1 % 64 == w / 0x4_0000 && b1 / 64 == b0 % 4 && b2 * 0x100 + b3 == w % 0x1_0000
  {
    hide StreamWord, ByteOf, Generated;
    w := StreamWord(seed, (absoluteOffset % 0x8000 + 3) / 4 + n);
    ByteOfRun(seed, size, absoluteOffset, n, 0);
    ByteOfRun(seed, size, absoluteOffset, n, 1);
    ByteOfRun(seed, size, absoluteOffset, n, 2);
    ByteOfRun(seed, size, absoluteOffset, n, 3);
    b0, b1, b2, b3 := ByteOf(w, 0), ByteOf(w, 1), ByteOf(w, 2), ByteOf(w, 3);
    BytesOfWord(w);
  }

  lemma ByteOfRun(seed: seq<word>, size: nat, absoluteOffset: int, n: nat, i: nat)
    requires |seed| == SEED_WORDS && 4 * n + i < size && i < 4
    ensures Generated(seed, size, absoluteOffset)[4 * n + i]
      == ByteOf(StreamWord(seed, (absoluteOffset % 0x8000 + 3) / 4 + n), i)
  {
    hide StreamWord, ByteOf;
    QuarterArithmetic(n, i);
  }

  lemma BytesOfWord(w: word)
    ensures ByteOf(w, 0) * 64 + ByteOf(w, 1) % 64 == w / 0x4_0000
    ensures ByteOf(w, 1) / 64 == ByteOf(w, 0) % 4
    ensures ByteOf(w, 2) * 0x100 + ByteOf(w, 3) == w % 0x1_0000
  {
    UpperBytes(w);
    LowerBytes(w);
  }

  lemma UpperBytes(w: word)
    ensures var top, second := w / 0x100_0000 % 0x100, w / 0x4_0000 % 0x100;
      top * 64 + second % 64 == w / 0x4_0000 && second / 64 == top % 4
  {
    var upper := w / 0x4_0000;
    assert w / 0x100_0000 == upper / 64;
    assert upper / 64 < 0x100;
    assert upper % 0x100 == upper / 64 % 4 * 64 + upper % 64;
  }

  lemma LowerBytes(w: word)
    ensures w / 0x100 % 0x100 * 0x100 + w % 0x100 == w % 0x1_0000
  {
    var lower := w % 0x1_0000;
    assert w / 0x100 % 0x100 == lower / 0x100;
    assert w % 0x100 == lower % 0x100;
  }

  /** A shorter run is the beginning of a longer one, so the bytes of a cut word are those of the whole. */
  lemma GeneratedPrefix(seed: seq<word>, size: nat, longer: nat, absoluteOffset: int)
    requires |seed| == SEED_WORDS && size <= longer
    ensures Generated(seed, size, absoluteOffset) == Generated(seed, longer, absoluteOffset)[..size]
  {
    hide ByteOf, StreamWord;
  }

  /** Bytes by which a run at `o + k` starts later in the stream than one at `o`. */
  function BytesDropped(o: int, k: nat): int {
    4 * (WordsSkipped(o + k) - WordsSkipped(o))
  }

  /**
   Within one sector, a run at `o + k` is the run at `o` without its first bytes, for every
   offset; the number of bytes dropped is `k` exactly when `k` is a multiple of 4.
   */
  lemma GeneratedDrops(seed: seq<word>, size: nat, o: int, k: nat)
    requires |seed| == SEED_WORDS
    requires o % SECTOR_SIZE + k < SECTOR_SIZE
    requires BytesDropped(o, k) <= size
    ensures 0 <= BytesDropped(o, k)
    ensures Generated(seed, size - BytesDropped(o, k), o + k) == Generated(seed, size, o)[BytesDropped(o, k)..]
    ensures BytesDropped(o, k) == k <==> k % 4 == 0
  {
    hide ByteOf, StreamWord, WordsSkipped;
    DropArithmetic(o, k);
    var words := WordsSkipped(o + k) - WordsSkipped(o);
    forall j | 0 <= j < size - 4 * words
      ensures Generated(seed, size - 4 * words, o + k)[j] == Generated(seed, size, o)[4 * words..][j]
    {
      QuarterArithmetic(words, j);
    }
  }

  lemma DropArithmetic(o: int, k: nat)
    requires o % SECTOR_SIZE + k < SECTOR_SIZE
    ensures WordsSkipped(o) <= WordsSkipped(o + k)
    ensures BytesDropped(o, k) == k <==> k % 4 == 0
  {
    assert (o + k) % SECTOR_SIZE == o % SECTOR_SIZE + k;
  }

  lemma QuarterArithmetic(words: nat, j: nat)
    ensures (4 * words + j) / 4 == words + j / 4 && (4 * words + j) % 4 == j % 4
  {
  }

  lemma SeedWordGiven(seed: seq<word>, n: nat)
    requires |seed| == SEED_WORDS && n < SEED_WORDS
    ensures SeedWord(seed, n) == seed[n]
  {
  }

  lemma SeedWordNext(seed: seq<word>, n: nat)
    requires |seed| == SEED_WORDS && n >= SEED_WORDS
    ensures SeedWord(seed, n) == SeedMix(SeedWord(seed, n - 17), SeedWord(seed, n - 16), SeedWord(seed, n - 1))
  {
    hide SeedMix;
  }

  /** Seeds a buffer: 17 given words, then the derived ones. */
  method SeedBuffer(seed: seq<word>) returns (buffer: array<word>)
    requires |seed| == SEED_WORDS
    ensures fresh(buffer) && buffer[..] == SeedState(seed)
  {
    hide SeedMix, SeedWord;
    buffer := new word[STATE_WORDS];
    for index := 0 to |seed|
      invariant forall i :: 0 <= i < index ==> buffer[i] == SeedWord(seed, i)
    {
      SeedWordGiven(seed, index);
      buffer[index] := seed[index];
    }
    for index := 17 to buffer.Length
      invariant forall i :: 0 <= i < index ==> buffer[i] == SeedWord(seed, i)
    {
      SeedWordNext(seed, index);
      buffer[index] := SeedMix(buffer[index - 17], buffer[index - 16], buffer[index - 1]);
    }
  }

  /** Replaces the 521 words by the next 521 words of the sequence, in place. */
  method Advance(buffer: array<word>)
    requires buffer.Length == STATE_WORDS
    modifies buffer
    ensures buffer[..] == Window(old(buffer[..]), 1)
  {
    hide Xor;
    ghost var init := buffer[..];
    for index := 0 to 32
      invariant forall i :: 0 <= i < index ==> buffer[i] == Word(init, STATE_WORDS + i)
      invariant forall i :: index <= i < STATE_WORDS ==> buffer[i] == init[i]
    {
      buffer[index] := Xor(buffer[index], buffer[index + STATE_WORDS - 32]);
    }
    for index := 32 to STATE_WORDS
      invariant forall i :: 0 <= i < index ==> buffer[i] == Word(init, STATE_WORDS + i)
      invariant forall i :: index <= i < STATE_WORDS ==> buffer[i] == init[i]
    {
      buffer[index] := Xor(buffer[index], buffer[index - 32]);
    }
  }

  /**
   Fills `output` with the words from `initialWordIndex` on, advancing the buffer whenever it
   is used up. Afterwards the buffer is a later window and `wordIndex` points just behind the
   last word used, even if only some of its bytes were.
   */
  method WriteBytes(buffer: array<word>, output: array<byte>, initialWordIndex: nat)
    returns (wordIndex: nat, ghost advances: nat)
    requires buffer.Length == STATE_WORDS && initialWordIndex <= STATE_WORDS
    modifies buffer, output
    ensures wordIndex <= STATE_WORDS
    ensures buffer[..] == Window(old(buffer[..]), advances)
    ensures STATE_WORDS * advances + wordIndex == initialWordIndex + WordsFor(output.Length)
    ensures forall j :: 0 <= j < output.Length ==>
      output[j] == ByteOf(Word(old(buffer[..]), initialWordIndex + j / 4), j % 4)
  {
    hide Word, ByteOf;
    ghost var init := buffer[..];
    wordIndex, advances := initialWordIndex, 0;
    WindowZero(init);
    var written := 0;
    while written < output.Length
      invariant 0 <= written <= output.Length
      invariant written % 4 == 0 || written == output.Length
      invariant wordIndex <= STATE_WORDS
      invariant buffer[..] == Window(init, advances)
      invariant STATE_WORDS * advances + wordIndex == initialWordIndex + WordsFor(written)
      invariant forall j :: 0 <= j < written ==> output[j] == ByteOf(Word(init, initialWordIndex + j / 4), j % 4)
    {
      if wordIndex == STATE_WORDS {
        Advance(buffer);
        WindowOfWindow(init, advances, 1);
        wordIndex, advances := 0, advances + 1;
      }
      var value := buffer[wordIndex];
      wordIndex := wordIndex + 1;
      var count := Min(4, output.Length - written);
      forall i | 0 <= i < count {
        output[written + i] := ByteOf(value, i);
      }
      written := written + count;
    }
  }

  /** The source's `_generate_rvz_bytes`: for every offset, not only multiples of 4. */
  method GenerateBytes(seed: seq<word>, size: nat, absoluteOffset: int) returns (r: Bytes)
    requires |seed| == SEED_WORDS
    ensures r == Generated(seed, size, absoluteOffset)
  {
    hide Word, ByteOf;
    var buffer := SeedBuffer(seed);
    ghost var init := SeedState(seed);
    WindowZero(init);
    for k := 0 to 4
      invariant buffer[..] == Window(init, k)
    {
      Advance(buffer);
      WindowOfWindow(init, k, 1);
    }
    var wordIndex := 0;
    ghost var advances := 0;
    WindowZero(Window(init, 4));
    var skip := absoluteOffset % SECTOR_SIZE;
    if skip > 0 {
      var skipped := new byte[skip];
      wordIndex, advances := WriteBytes(buffer, skipped, 0);
      WindowOfWindow(init, 4, advances);
    }
    var output := new byte[size];
    ghost var start := wordIndex;
    var _, _ := WriteBytes(buffer, output, wordIndex);
    forall j | 0 <= j < size
      ensures output[j] == Generated(seed, size, absoluteOffset)[j]
    {
      WindowContinues(init, 4 + advances, start + j / 4);
      assert STATE_WORDS * (4 + advances) + (start + j / 4) == WARM_UP_WORDS + (WordsSkipped(absoluteOffset) + j / 4);
    }
    r := output[..];
  }
}

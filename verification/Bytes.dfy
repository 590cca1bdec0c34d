/** Byte strings and the three ways a reader step can end. */
module Bytes {

  type byte = x: int | 0 <= x < 256

  type Bytes = seq<byte>

  datatype Option<+T> = None | Some(value: T)

  /** `Missing` is a `None`/`False`/empty answer of the source, `Raised` an exception. */
  datatype Outcome<+T> = Ok(value: T) | Missing | Raised

  function Min(a: int, b: int): int {
    if a <= b then a else b
  }

  function Max(a: int, b: int): int {
    if a >= b then a else b
  }

  function Zeros(n: nat): (r: Bytes)
    ensures |r| == n
    ensures forall i :: 0 <= i < n ==> r[i] == 0
  {
    seq(n, _ => 0)
  }

  /** `data[from:to]`: bounds beyond the end are clipped. */
  function Slice(data: Bytes, from: nat, to: nat): (r: Bytes)
    ensures from <= to <= |data| ==> r == data[from..to]
    ensures from >= |data| ==> r == []
    ensures from < |data| < to ==> r == data[from..]
  {
    var hi := Min(to, |data|);
    if from >= hi then [] else data[from..hi]
  }

  /** Overwrites `patch` into `data` from `at` on, leaving the rest and the length alone. */
  function Splice(data: Bytes, at: nat, patch: Bytes): (r: Bytes)
    requires at + |patch| <= |data|
    ensures |r| == |data|
    ensures forall i :: 0 <= i < |data| ==>
      r[i] == if at <= i < at + |patch| then patch[i - at] else data[i]
  {
    data[..at] + patch + data[at + |patch|..]
  }

  /** Big-endian 16-bit read; `Raised` is the struct error of a read past the end. */
  function BeU16(data: Bytes, offset: nat): (r: Outcome<nat>)
    ensures !r.Missing?
    ensures r.Ok? ==> offset + 2 <= |data| && data[offset] == r.value / 0x100 && data[offset + 1] == r.value % 0x100
  {
    if offset + 2 > |data| then Raised
    else
      var hi: nat, lo: nat := data[offset], data[offset + 1];
      Ok(hi * 0x100 + lo)
  }

  /** Big-endian 32-bit read. */
  function BeU32(data: Bytes, offset: nat): Outcome<nat> {
    if offset + 4 > |data| then Raised
    else
      var b0: nat, b1: nat, b2: nat, b3: nat := data[offset], data[offset + 1], data[offset + 2], data[offset + 3];
      Ok(b0 * 0x100_0000 + b1 * 0x1_0000 + b2 * 0x100 + b3)
  }

  lemma SliceOfSlice(data: Bytes, from: nat, to: nat, a: nat, b: nat)
    requires from <= to <= |data| && a <= b <= to - from
    ensures data[from..to][a..b] == data[from + a..from + b]
  {
    var left, right := data[from..to][a..b], data[from + a..from + b];
    assert |left| == |right|;
    assert forall i :: 0 <= i < |left| ==> left[i] == right[i];
  }
}

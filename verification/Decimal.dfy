/** `str(n)` and `int(s)` for natural numbers in ASCII digits. */
module Decimal {

  predicate IsDigit(c: char) {
    '0' <= c <= '9'
  }

  predicate AllDigits(s: string) {
    s != "" && forall i :: 0 <= i < |s| ==> IsDigit(s[i])
  }

  function Digit(n: nat): char
    requires n < 10
  {
    '0' + n as char
  }

  function ToText(n: nat): (s: string)
    ensures AllDigits(s)
  {
    if n < 10 then [Digit(n)] else ToText(n / 10) + [Digit(n % 10)]
  }

  function Number(s: string): nat
    requires AllDigits(s)
  {
    var last := |s| - 1;
    var d := (s[last] - '0') as nat;
    if last == 0 then d else Number(s[..last]) * 10 + d
  }

  lemma {:induction false} NumberOfText(n: nat)
    ensures Number(ToText(n)) == n
  {
    var s := ToText(n);
    if n >= 10 {
      NumberOfText(n / 10);
      assert s[..|s| - 1] == ToText(n / 10);
    }
  }

}

/** Python's `str(n)` for a natural number: its decimal digits, no sign,
    no leading zeros. Used to name the indicator columns `X1, X2, ...`. */
module Decimal {

  function Digit(d: nat): (c: char)
    requires d < 10
    ensures '0' <= c <= '9'
  {
    (48 + d) as char
  }

  function Dec(n: nat): (s: string)
    ensures |s| >= 1
    ensures forall i :: 0 <= i < |s| ==> '0' <= s[i] <= '9'
    ensures |s| == 1 <==> n < 10
  {
    if n < 10 then [Digit(n)] else Dec(n / 10) + [Digit(n % 10)]
  }

  /** Distinct numbers print differently, so `X1..XN` are N distinct names. */
  lemma {:induction false} DecInjective(a: nat, b: nat)
    requires Dec(a) == Dec(b)
    ensures a == b
  {
    if a >= 10 && b >= 10 {
      var da, db := Dec(a), Dec(b);
      assert da[..|da| - 1] == Dec(a / 10);
      assert db[..|db| - 1] == Dec(b / 10);
      DecInjective(a / 10, b / 10);
      assert Digit(a % 10) == da[|da| - 1] == db[|db| - 1] == Digit(b % 10);
    }
  }

  /** A column name with a number appended determines the number. */
  lemma SuffixInjective(name: string, a: nat, b: nat)
    requires name + Dec(a) == name + Dec(b)
    ensures a == b
  {
    assert (name + Dec(a))[|name|..] == Dec(a);
    assert (name + Dec(b))[|name|..] == Dec(b);
    DecInjective(a, b);
  }
}

/** Decimal rendering of a natural number, as Python's `f"{k}"` does it. */
module Decimal {

  function Digit(d: nat): char
    requires d < 10
  {
    ('0' as int + d) as char
  }

  /** The decimal digits of `k`, most significant first, without leading zeros. */
  function DecimalString(k: nat): (s: string)
    ensures |s| >= 1
    ensures forall i :: 0 <= i < |s| ==> '0' <= s[i] <= '9'
    ensures s[0] == '0' ==> k == 0
  {
    if k < 10 then [Digit(k)] else DecimalString(k / 10) + [Digit(k % 10)]
  }

  /** The number a string of decimal digits denotes. */
  function DecimalValue(s: string): int
  {
    if |s| == 0 then 0 else DecimalValue(s[..|s| - 1]) * 10 + (s[|s| - 1] as int - '0' as int)
  }

  /** Reading the rendering back gives the number. */
  lemma {:induction false} DecimalRoundTrip(k: nat)
    ensures DecimalValue(DecimalString(k)) == k
  {
    if k >= 10 {
      var s := DecimalString(k);
      assert s[..|s| - 1] == DecimalString(k / 10);
      DecimalRoundTrip(k / 10);
    }
  }

  /** Distinct numbers have distinct renderings. */
  lemma DecimalStringInjective(a: nat, b: nat)
    ensures DecimalString(a) == DecimalString(b) ==> a == b
  {
    DecimalRoundTrip(a);
    DecimalRoundTrip(b);
  }
}

/**
  Decimal printing as printf's %d does it.
 */
module Decimals {

  function Digit(n: nat): char
    requires n < 10
  {
    '0' + n as char
  }

  function Digits(n: nat): (s: string)
    ensures |s| > 0 && forall i :: 0 <= i < |s| ==> '0' <= s[i] <= '9'
    ensures n > 0 ==> s[0] != '0'
    ensures n == 0 ==> s == "0"
  {
    if n < 10 then [Digit(n)] else Digits(n / 10) + [Digit(n % 10)]
  }

  function Decimal(v: int): string {
    if v < 0 then "-" + Digits(-v) else Digits(v)
  }

  function Pow10(k: nat): (p: nat)
    ensures p > 0
  {
    if k == 0 then 1 else 10 * Pow10(k - 1)
  }

  lemma {:induction false} DigitsLength(n: nat, k: nat)
    requires k > 0 && n < Pow10(k)
    ensures |Digits(n)| <= k
    decreases k
  {
    if n >= 10 {
      assert k > 1;
      DigitsLength(n / 10, k - 1);
    }
  }

  /** Every 32-bit integer prints in at most 11 characters. */
  lemma DecimalLength(v: int)
    requires -0x8000_0000 <= v < 0x8000_0000
    ensures |Decimal(v)| <= 11
  {
    assert Pow10(10) == 10000000000 by {
      assert Pow10(5) == 100000;
      assert Pow10(10) == 100000 * Pow10(5);
    }
    DigitsLength(if v < 0 then -v else v, 10);
  }
}

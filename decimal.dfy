/**
 * Decimal numerals: Python's `int(...)` applied to a run of ASCII digits, and
 * the decimal rendering of a natural number that it inverts.
 */
module Decimal {
  import opened Text

  function Pow10(k: nat): (p: nat)
    ensures p >= 1
  {
    if k == 0 then 1 else 10 * Pow10(k - 1)
  }

  /** The value of one decimal digit. */
  function DigitValue(c: char): (v: nat)
    requires IsDigit(c)
    ensures v < 10
  {
    c as int - '0' as int
  }

  /** The digit that stands for `v`. */
  function DigitChar(v: nat): (c: char)
    requires v < 10
    ensures IsDigit(c) && DigitValue(c) == v
  {
    ('0' as int + v) as char
  }

  /**
   * `int(d)` for a string of ASCII digits: the digits read as a base-10
   * numeral, most significant first. Leading zeros are allowed.
   */
  function DigitsToNat(d: string): (n: nat)
    requires All(d, IsDigit)
    ensures n < Pow10(|d|)
    decreases |d|
  {
    if d == [] then 0
    else
      AllSlice(d, IsDigit, 0, |d| - 1);
      10 * DigitsToNat(d[..|d| - 1]) + DigitValue(d[|d| - 1])
  }

  /** `str(n)`: the shortest decimal numeral for `n`. */
  function NatToDigits(n: nat): (d: string)
    ensures All(d, IsDigit) && |d| >= 1
    ensures d[0] == '0' ==> n == 0
    decreases n
  {
    if n < 10 then [DigitChar(n)]
    else
      var front := NatToDigits(n / 10);
      AllConcat(front, [DigitChar(n % 10)], IsDigit);
      front + [DigitChar(n % 10)]
  }

  /** `int(str(n)) == n`: reading back a rendered number gives the number. */
  lemma {:induction false} DigitsRoundTrip(n: nat)
    ensures DigitsToNat(NatToDigits(n)) == n
    decreases n
  {
    if n >= 10 {
      var d := NatToDigits(n);
      DigitsRoundTrip(n / 10);
      assert d[..|d| - 1] == NatToDigits(n / 10);
    }
  }

  /** A leading zero does not change the value: `int("07") == int("7")`. */
  lemma {:induction false} LeadingZeroIgnored(d: string)
    requires All(d, IsDigit)
    ensures All(['0'] + d, IsDigit)
    ensures DigitsToNat(['0'] + d) == DigitsToNat(d)
    decreases |d|
  {
    AllConcat(['0'], d, IsDigit);
    if d != [] {
      var front := d[..|d| - 1];
      AllSlice(d, IsDigit, 0, |d| - 1);
      LeadingZeroIgnored(front);
      assert (['0'] + d)[..|d|] == ['0'] + front;
    }
  }
}

/** Decimal numerals: printing, reading, leading zeros. */
module Decimal {
  import opened Numbers

  function Digit(n: nat): char
    requires n < 10
  {
    '0' + n as char
  }

  /** `std::to_string` of a natural number. */
  function ToString(n: nat): (s: string)
  {
    if n < 10 then [Digit(n)] else ToString(n / 10) + [Digit(n % 10)]
  }

  predicate IsNumeral(s: string)
  {
    forall i :: 0 <= i < |s| ==> '0' <= s[i] <= '9'
  }

  function NumeralValue(s: string): nat
    requires IsNumeral(s)
  {
    if s == "" then 0 else 10 * NumeralValue(s[..|s| - 1]) + (s[|s| - 1] - '0') as nat
  }

  lemma NumeralSnoc(s: string, d: nat)
    requires IsNumeral(s) && d < 10
    ensures IsNumeral(s + [Digit(d)]) && NumeralValue(s + [Digit(d)]) == 10 * NumeralValue(s) + d
  {
    assert (s + [Digit(d)])[..|s|] == s;
  }

  lemma {:induction false} ToStringValue(n: nat)
    ensures IsNumeral(ToString(n)) && NumeralValue(ToString(n)) == n && |ToString(n)| > 0
    decreases n
  {
    if n < 10 {
      NumeralSnoc("", n);
      assert "" + [Digit(n)] == [Digit(n)];
    } else {
      ToStringValue(n / 10);
      NumeralSnoc(ToString(n / 10), n % 10);
    }
  }

  lemma {:induction false} ToStringLength(n: nat, digits: nat)
    requires digits > 0
    ensures |ToString(n)| <= digits <==> n < Pow(10, digits)
    decreases n
  {
    if n < 10 {
      PowPositive(10, digits - 1);
    } else if digits > 1 {
      ToStringLength(n / 10, digits - 1);
    } else {
      ToStringValue(n / 10);
      assert Pow(10, 1) == 10 * Pow(10, 0);
    }
  }

  lemma {:induction false} LeadingZero(s: string)
    requires IsNumeral(s)
    ensures IsNumeral("0" + s) && NumeralValue("0" + s) == NumeralValue(s)
  {
    var t := "0" + s;
    if s == "" {
      assert t[..0] == "";
    } else {
      LeadingZero(s[..|s| - 1]);
      assert t[..|t| - 1] == "0" + s[..|s| - 1];
    }
  }
}

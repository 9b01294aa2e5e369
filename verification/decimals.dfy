/** Decimal numerals of natural numbers. */
module Decimals {
  predicate IsDigit(c: char) { '0' <= c <= '9' }

  predicate AllDigits(s: string) { forall i :: 0 <= i < |s| ==> IsDigit(s[i]) }

  function DigitsValue(s: string): (n: nat)
    requires AllDigits(s)
  {
    if s == "" then 0 else 10 * DigitsValue(s[..|s| - 1]) + (s[|s| - 1] - '0') as int
  }

  function Decimal(n: nat): (s: string)
    ensures s != "" && AllDigits(s)
    ensures DigitsValue(s) == n
    ensures s[0] == '0' ==> s == "0"
  {
    if n < 10 then ['0' + n as char]
    else
      var s := Decimal(n / 10) + ['0' + (n % 10) as char];
      assert s[..|s| - 1] == Decimal(n / 10);
      s
  }

  /** No spelling of a number is shorter than the printed one. */
  lemma {:induction false} DecimalIsShortest(digits: string)
    requires digits != "" && AllDigits(digits)
    ensures |Decimal(DigitsValue(digits))| <= |digits|
  {
    var n := |digits| - 1;
    if 0 < n {
      DecimalIsShortest(digits[..n]);
      var high, low := DigitsValue(digits[..n]), (digits[n] - '0') as int;
      assert (10 * high + low) / 10 == high;
    } else {
      assert digits[..0] == "";
    }
  }
}

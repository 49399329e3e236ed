/** Decimal numerals: the digit strings `str.isdigit` accepts (ASCII only) and the
    values `int` gives them, plus the rendering `str(n)` of a natural number. */
module Numerals {

  predicate IsDigit(c: char) {
    '0' <= c <= '9'
  }

  function DigitValue(c: char): (d: nat)
    requires IsDigit(c)
    ensures d < 10
  {
    c as int - '0' as int
  }

  function DigitChar(d: nat): (c: char)
    requires d < 10
    ensures IsDigit(c) && DigitValue(c) == d
  {
    ('0' as int + d) as char
  }

  /** Every character is a decimal digit (the empty string qualifies). */
  predicate AllDigits(s: string) {
    forall i :: 0 <= i < |s| ==> IsDigit(s[i])
  }

  /** `s.isdigit()`: non-empty and made only of decimal digits. */
  predicate IsDigitString(s: string) {
    |s| > 0 && AllDigits(s)
  }

  /** `int(s)` for a string of digits; leading zeros are allowed and ignored. */
  function DigitsValue(s: string): nat
    requires AllDigits(s)
  {
    if s == [] then 0 else DigitsValue(s[..|s| - 1]) * 10 + DigitValue(s[|s| - 1])
  }

  /** `str(n)`: the shortest decimal rendering of `n`, which `int` reads back as `n`. */
  function NatToDigits(n: nat): (s: string)
    ensures IsDigitString(s)
    ensures DigitsValue(s) == n
    ensures s[0] != '0' || n == 0
  {
    if n < 10 then [DigitChar(n)]
    else
      var prefix := NatToDigits(n / 10);
      var s := prefix + [DigitChar(n % 10)];
      assert s[..|s| - 1] == prefix;
      s
  }

  /** Reading a digit string back through `str(int(s))` gives `s` again exactly when it has no
      superfluous leading zero. */
  lemma {:induction false} DigitsRoundTrip(s: string)
    requires IsDigitString(s) && (s[0] != '0' || |s| == 1)
    ensures NatToDigits(DigitsValue(s)) == s
    decreases |s|
  {
    var n := DigitsValue(s);
    if |s| == 1 {
      assert s[..0] == [] && DigitsValue(s[..0]) == 0;
      assert n == DigitValue(s[0]);
      assert s == [DigitChar(n)];
    } else {
      var prefix := s[..|s| - 1];
      assert prefix[0] == s[0];
      DigitsRoundTrip(prefix);
      LeadingDigitNonZero(prefix);
      var d := DigitValue(s[|s| - 1]);
      assert n == DigitsValue(prefix) * 10 + d;
      assert n / 10 == DigitsValue(prefix) && n % 10 == d;
      assert DigitChar(d) == s[|s| - 1];
      assert s == prefix + [s[|s| - 1]];
    }
  }

  /** A digit string of two or more characters that does not start with zero is worth at least one. */
  lemma {:induction false} LeadingDigitNonZero(s: string)
    requires IsDigitString(s) && s[0] != '0'
    ensures DigitsValue(s) >= 1
    decreases |s|
  {
    if |s| == 1 {
      assert s[..0] == [];
    } else {
      var prefix := s[..|s| - 1];
      assert prefix[0] == s[0];
      LeadingDigitNonZero(prefix);
    }
  }

  /** A digit string of two or more digits without a leading zero is worth ten or more. */
  lemma {:induction false} LengthBound(s: string)
    requires IsDigitString(s) && |s| >= 2 && s[0] != '0'
    ensures DigitsValue(s) >= 10
  {
    var prefix := s[..|s| - 1];
    assert prefix[0] == s[0];
    LeadingDigitNonZero(prefix);
  }
}

/** The part of Python's `float(text)` that a wait value uses: surrounding ASCII
    whitespace, an optional sign, and a decimal literal with an optional point. */
module Decimal {
  import opened Wrappers
  import opened Numerals

  /** The ASCII whitespace `float` ignores around a number: space, tab, line feed,
      vertical tab, form feed and carriage return. */
  predicate IsBlank(c: char) {
    c == ' ' || 9 <= c as int <= 13
  }

  function TrimStart(s: string): (r: string)
    ensures |r| <= |s| && r == s[|s| - |r|..]
    ensures forall i :: 0 <= i < |s| - |r| ==> IsBlank(s[i])
    ensures r != [] ==> !IsBlank(r[0])
    decreases |s|
  {
    if s != [] && IsBlank(s[0]) then TrimStart(s[1..]) else s
  }

  function TrimEnd(s: string): (r: string)
    ensures |r| <= |s| && r == s[..|r|]
    ensures forall i :: |r| <= i < |s| ==> IsBlank(s[i])
    ensures r != [] ==> !IsBlank(r[|r| - 1])
    decreases |s|
  {
    if s != [] && IsBlank(s[|s| - 1]) then TrimEnd(s[..|s| - 1]) else s
  }

  /** `s.strip()` over the blanks above. */
  function Strip(s: string): string {
    TrimEnd(TrimStart(s))
  }

  /** Index of the first '.', or |s| when there is none. */
  function IndexOfPoint(s: string): (k: nat)
    ensures k <= |s|
    ensures k < |s| ==> s[k] == '.'
    ensures forall i :: 0 <= i < k ==> s[i] != '.'
  {
    if s == [] || s[0] == '.' then 0 else 1 + IndexOfPoint(s[1..])
  }

  function Pow10(n: nat): (p: nat)
    ensures p >= 1
  {
    if n == 0 then 1 else 10 * Pow10(n - 1)
  }

  /** The value of the literal `whole.fraction`. */
  function LiteralValue(whole: string, fraction: string): (v: real)
    requires AllDigits(whole) && AllDigits(fraction)
  {
    DigitsValue(whole) as real + DigitsValue(fraction) as real / Pow10(|fraction|) as real
  }

  /** An unsigned literal: digits, optionally a point followed by more digits, and at
      least one digit in all ("7", "7.", ".5" and "2.25" are numbers, "." is not). */
  function ParseUnsigned(s: string): (r: Option<real>)
  {
    var k := IndexOfPoint(s);
    var whole := s[..k];
    var fraction := if k < |s| then s[k + 1..] else [];
    if AllDigits(whole) && AllDigits(fraction) && |whole| + |fraction| > 0 then
      Some(LiteralValue(whole, fraction))
    else
      None
  }

  /** `float(s)`, or None where it raises ValueError. */
  function ParseNumber(s: string): Option<real> {
    var t := Strip(s);
    if t != [] && (t[0] == '+' || t[0] == '-') then
      match ParseUnsigned(t[1..])
      case None => None
      case Some(v) => Some(if t[0] == '-' then -v else v)
    else
      ParseUnsigned(t)
  }

  /** A number of tenths rendered with one decimal place, as in "2.5" or "0.0". */
  function FormatTenths(tenths: nat): string {
    NatToDigits(tenths / 10) + "." + NatToDigits(tenths % 10)
  }

  lemma StripUnblanked(s: string)
    requires forall i :: 0 <= i < |s| ==> !IsBlank(s[i])
    ensures Strip(s) == s
  {
    if s != [] {
      assert TrimStart(s) == s;
    }
  }

  /** `float(str(n)) == n`. */
  lemma ParseWholeNumber(n: nat)
    ensures ParseNumber(NatToDigits(n)) == Some(n as real)
  {
    var s := NatToDigits(n);
    StripUnblanked(s);
    assert !(s[0] == '+' || s[0] == '-');
    var k := IndexOfPoint(s);
    assert k == |s|;
    assert s[..k] == s;
    assert DigitsValue([]) == 0;
    assert LiteralValue(s, []) == n as real;
  }

  /** A literal with a point reads as its whole part plus its fraction digits scaled down. */
  lemma ParsePointed(whole: string, fraction: string)
    requires AllDigits(whole) && AllDigits(fraction) && |whole| + |fraction| > 0
    ensures ParseUnsigned(whole + "." + fraction) == Some(LiteralValue(whole, fraction))
  {
    var s := whole + "." + fraction;
    assert s[|whole|] == '.';
    forall i | 0 <= i < |whole| ensures s[i] != '.' {
      assert s[i] == whole[i];
    }
    assert IndexOfPoint(s) == |whole|;
    assert s[..|whole|] == whole;
    assert s[|whole| + 1..] == fraction;
  }

  /** Without blanks or a leading sign, `float` reads the literal as it stands. */
  lemma ParseUnsignedOnly(s: string)
    requires forall i :: 0 <= i < |s| ==> !IsBlank(s[i])
    requires s != [] ==> s[0] != '+' && s[0] != '-'
    ensures ParseNumber(s) == ParseUnsigned(s)
  {
    StripUnblanked(s);
  }

  /** Reading back a rendering with one decimal place gives the exact number of tenths. */
  lemma ParseFormattedTenths(tenths: nat)
    ensures ParseNumber(FormatTenths(tenths)) == Some(tenths as real / 10.0)
  {
    var q, r := tenths / 10, tenths % 10;
    var whole, digit := NatToDigits(q), NatToDigits(r);
    var s := whole + "." + digit;
    assert FormatTenths(tenths) == s;
    forall i | 0 <= i < |s| ensures !IsBlank(s[i]) {
      if i < |whole| {
        assert s[i] == whole[i];
      } else if i > |whole| {
        assert s[i] == digit[i - |whole| - 1];
      }
    }
    assert s[0] == whole[0];
    ParseUnsignedOnly(s);
    ParsePointed(whole, digit);
    TenthsValue(q, r);
  }

  lemma TenthsValue(q: nat, r: nat)
    requires r < 10
    ensures LiteralValue(NatToDigits(q), NatToDigits(r)) == (10 * q + r) as real / 10.0
  {
    var digit := NatToDigits(r);
    assert |digit| == 1 by {
      if |digit| > 1 {
        LengthBound(digit);
      }
    }
    assert Pow10(1) == 10;
  }

  /** A character outside the modelled number grammar (digits, point, sign and blanks; the
      exponent, `inf` and `nan` forms are left out), such as a comma or a quote, makes the
      modelled `float` fail. */
  lemma RejectsStrayCharacter(s: string, i: nat)
    requires i < |s|
    requires !IsDigit(s[i]) && s[i] != '.' && s[i] != '+' && s[i] != '-' && !IsBlank(s[i])
    ensures ParseNumber(s).None?
  {
    var t1 := TrimStart(s);
    var t := Strip(s);
    var j1 := i - (|s| - |t1|);
    assert 0 <= j1 < |t1| && t1[j1] == s[i];
    assert j1 < |t| && t[j1] == s[i];
    var signed := t[0] == '+' || t[0] == '-';
    var body := if signed then t[1..] else t;
    var j := if signed then j1 - 1 else j1;
    assert 0 <= j < |body| && body[j] == s[i];
    var k := IndexOfPoint(body);
    if j < k {
      assert body[..k][j] == s[i];
      assert !AllDigits(body[..k]);
    } else {
      assert j != k;
      assert body[k + 1..][j - k - 1] == s[i];
      assert !AllDigits(body[k + 1..]);
    }
  }
}

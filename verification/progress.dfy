/** The progress arithmetic of the wait loop: ticks of a tenth of a second, the percentage
    pushed to the splash screen and the text its label shows. */
module Progress {
  import opened Numerals

  /** `int(wait * 10)` for a positive wait, the number of ticks; a wait of 0 or less gets no
      ticks. It is the whole number of tenths in the wait. */
  function Steps(wait: real): (n: nat)
    ensures wait <= 0.0 ==> n == 0
    ensures wait > 0.0 ==> n as real <= wait * 10.0 < n as real + 1.0
  {
    if wait > 0.0 then (wait * 10.0).Floor else 0
  }

  /** `min(elapsed / total * 100, 100)` with the elapsed time kept as a count of tenths. */
  function PercentOf(tenths: nat, total: real): (p: real)
    requires total > 0.0
    ensures 0.0 <= p <= 100.0
    ensures p == 100.0 <==> tenths as real / 10.0 >= total
  {
    var raw := (tenths as real / 10.0) / total * 100.0;
    if raw < 100.0 then raw else 100.0
  }

  /** More elapsed time never gives a smaller percentage. */
  lemma PercentMonotone(a: nat, b: nat, total: real)
    requires total > 0.0 && a <= b
    ensures PercentOf(a, total) <= PercentOf(b, total)
  {
    var pa, pb := PercentOf(a, total), PercentOf(b, total);
    if pb < 100.0 {
      assert a as real / 10.0 < total;
      PercentBelowFull(a, total);
      PercentBelowFull(b, total);
      UnscaleOrder(pa, pb, total, a as real * 10.0, b as real * 10.0);
    }
  }

  /** Below the clamp the percentage is exactly the share of the total elapsed. */
  lemma PercentBelowFull(tenths: nat, total: real)
    requires total > 0.0 && tenths as real / 10.0 < total
    ensures PercentOf(tenths, total) * total == tenths as real * 10.0
  {
  }

  /** Dividing two ordered quantities by the same positive number keeps their order. */
  lemma UnscaleOrder(x: real, y: real, k: real, u: real, v: real)
    requires k > 0.0 && x * k == u && y * k == v && u <= v
    ensures x <= y
  {
  }

  /** Two entries waiting one second each (a total of two): the first wait ends at 50%, and
      100% is reached only when all twenty tenths have passed. */
  lemma TwoEqualWaits()
    ensures PercentOf(10, 2.0) == 50.0
    ensures forall t: nat :: PercentOf(t, 2.0) == 100.0 <==> t >= 20
  {
  }

  /** `int(x)`: truncation toward zero. */
  function Truncate(x: real): (i: int)
    ensures x >= 0.0 ==> 0 <= i && i as real <= x < i as real + 1.0
    ensures x < 0.0 ==> i <= 0 && i as real - 1.0 < x <= i as real
  {
    if x >= 0.0 then x.Floor else -((-x).Floor)
  }

  /** `str(i)` for any integer. */
  function IntToString(i: int): string {
    if i < 0 then "-" + NatToDigits(-i) else NatToDigits(i)
  }

  /** The label text `f"{int(percent)}%"` of `update_percent`. */
  function PercentLabel(percent: real): string {
    IntToString(Truncate(percent)) + "%"
  }

  /** For a percentage in 0..100 the label is one to three digits naming the whole part,
      which lies in 0..100, followed by '%'. */
  lemma LabelOfPercent(percent: real)
    requires 0.0 <= percent <= 100.0
    ensures var text := PercentLabel(percent);
      && 2 <= |text| <= 4
      && text[|text| - 1] == '%'
      && IsDigitString(text[..|text| - 1])
      && DigitsValue(text[..|text| - 1]) == percent.Floor
      && 0 <= percent.Floor <= 100
  {
    var n := Truncate(percent);
    var digits := NatToDigits(n);
    var text := digits + "%";
    assert text[..|text| - 1] == digits;
    ShortDigits(digits);
  }

  /** A digit string without a superfluous leading zero worth less than 1000 has at most
      three digits. */
  lemma ShortDigits(s: string)
    requires IsDigitString(s) && (s[0] != '0' || |s| == 1) && DigitsValue(s) < 1000
    ensures |s| <= 3
  {
    if |s| > 3 {
      FourDigitsBound(s);
    }
  }

  lemma FourDigitsBound(s: string)
    requires IsDigitString(s) && |s| >= 4 && s[0] != '0'
    ensures DigitsValue(s) >= 1000
  {
    var front := s[..|s| - 1];
    var head := front[..|front| - 1];
    assert head[0] == front[0] == s[0];
    LengthBound(head);
  }
}

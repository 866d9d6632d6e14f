/** Decimal rendering of task indices: Python's `str(i)` on a non-negative
    integer and the zero-padded format `f'{i:03d}'` used to name each task's
    log file and to fill the `%n` placeholder of the command template. */
module Decimal {

  /** Width of the padded index in `f'{i:03d}'`. */
  const Width: nat := 3

  predicate IsDigit(c: char) { '0' <= c <= '9' }

  predicate AllDigits(s: string) { forall k :: 0 <= k < |s| ==> IsDigit(s[k]) }

  /** A decimal numeral as `str` prints it: at least one digit, no leading zero
      unless the numeral is "0" itself. */
  predicate Canonical(s: string) { |s| >= 1 && AllDigits(s) && (|s| > 1 ==> s[0] != '0') }

  function DigitValue(c: char): (d: nat)
    requires IsDigit(c)
    ensures d < 10
  {
    c as int - '0' as int
  }

  function DigitChar(d: nat): (c: char)
    requires d < 10
    ensures IsDigit(c) && DigitValue(c) == d
  {
    ('0' as int + d) as char
  }

  function Pow10(k: nat): (p: nat)
    ensures p >= 1
  {
    if k == 0 then 1 else 10 * Pow10(k - 1)
  }

  lemma {:induction false} Pow10Monotone(a: nat, b: nat)
    requires a <= b
    ensures Pow10(a) <= Pow10(b)
  {
    if a < b {
      Pow10Monotone(a, b - 1);
    }
  }

  /** `str(i)` for a non-negative integer: its canonical decimal numeral, whose
      length is the number of decimal digits of `i`. */
  function NatToDecimal(i: nat): (r: string)
    ensures Canonical(r)
    ensures i < Pow10(|r|)
    ensures |r| > 1 ==> Pow10(|r| - 1) <= i
    decreases i
  {
    if i < 10 then [DigitChar(i)] else NatToDecimal(i / 10) + [DigitChar(i % 10)]
  }

  /** Reads a string of digits back as a number (most significant digit first). */
  function ParseDecimal(s: string): (v: nat)
    requires AllDigits(s)
    ensures v < Pow10(|s|)
  {
    if s == [] then 0 else 10 * ParseDecimal(s[..|s| - 1]) + DigitValue(s[|s| - 1])
  }

  /** The numeral of `i` fits in `k >= 1` characters exactly when `i < 10^k`
      (zero still takes one character). */
  lemma {:induction false} DecimalLength(i: nat, k: nat)
    requires k >= 1
    ensures |NatToDecimal(i)| <= k <==> i < Pow10(k)
  {
    var r := NatToDecimal(i);
    if |r| <= k {
      Pow10Monotone(|r|, k);
    } else {
      Pow10Monotone(k, |r| - 1);
    }
  }

  /** Reading `str(i)` back gives `i`. */
  lemma {:induction false} ParseNatToDecimal(i: nat)
    ensures ParseDecimal(NatToDecimal(i)) == i
    decreases i
  {
    if i >= 10 {
      var r := NatToDecimal(i);
      assert r[..|r| - 1] == NatToDecimal(i / 10);
      ParseNatToDecimal(i / 10);
    }
  }

  /** A numeral with no leading zero has its top digit weighed in full. */
  lemma {:induction false} ParseCanonicalLowerBound(s: string)
    requires Canonical(s) && |s| > 1
    ensures Pow10(|s| - 1) <= ParseDecimal(s)
    decreases |s|
  {
    var init := s[..|s| - 1];
    if |init| > 1 {
      ParseCanonicalLowerBound(init);
    } else {
      assert init == [s[0]];
    }
  }

  lemma DigitCharValue(c: char)
    requires IsDigit(c)
    ensures DigitChar(DigitValue(c)) == c
  {
  }

  /** Every canonical numeral is `str` of the number it denotes, so `NatToDecimal`
      and `ParseDecimal` are inverse bijections between naturals and canonical
      numerals. */
  lemma {:induction false} NatToDecimalParse(s: string)
    requires Canonical(s)
    ensures NatToDecimal(ParseDecimal(s)) == s
    decreases |s|
  {
    var v := ParseDecimal(s);
    if |s| == 1 {
      DigitCharValue(s[0]);
      assert v == DigitValue(s[0]);
    } else {
      var init := s[..|s| - 1];
      ParseCanonicalLowerBound(s);
      Pow10Monotone(1, |s| - 1);
      assert v >= 10;
      assert v / 10 == ParseDecimal(init) && v % 10 == DigitValue(s[|s| - 1]);
      NatToDecimalParse(init);
      DigitCharValue(s[|s| - 1]);
      assert s == init + [s[|s| - 1]];
    }
  }

  function Zeros(k: nat): (z: string)
    ensures |z| == k && AllDigits(z)
  {
    seq(k, _ => '0')
  }

  /** Leading zeros do not change the value of a numeral. */
  lemma {:induction false} ParseLeadingZeros(k: nat, s: string)
    requires AllDigits(s)
    ensures ParseDecimal(Zeros(k) + s) == ParseDecimal(s)
    decreases |s|
  {
    var z := Zeros(k);
    if s == [] {
      ParseZeros(k);
      assert z + s == z;
    } else {
      assert (z + s)[..|z + s| - 1] == z + s[..|s| - 1];
      ParseLeadingZeros(k, s[..|s| - 1]);
    }
  }

  lemma {:induction false} ParseZeros(k: nat)
    ensures ParseDecimal(Zeros(k)) == 0
  {
    if k > 0 {
      assert Zeros(k)[..k - 1] == Zeros(k - 1);
      ParseZeros(k - 1);
    }
  }

  /** `f'{i:03d}'`: the numeral of `i` left-padded with '0' to three characters;
      a numeral already three or more digits long is printed in full. */
  function Pad3(i: nat): (r: string)
    ensures AllDigits(r)
    ensures i < Pow10(Width) ==> |r| == Width
    ensures i >= Pow10(Width) ==> r == NatToDecimal(i) && |r| > Width
  {
    var d := NatToDecimal(i);
    DecimalLength(i, Width);
    if |d| < Width then Zeros(Width - |d|) + d else d
  }

  /** Reading the padded index back gives the index. */
  lemma PadRoundTrip(i: nat)
    ensures ParseDecimal(Pad3(i)) == i
  {
    var d := NatToDecimal(i);
    ParseNatToDecimal(i);
    if |d| < Width {
      ParseLeadingZeros(Width - |d|, d);
    }
  }

  /** Distinct indices never share a padded name. */
  lemma PadInjective(i: nat, j: nat)
    ensures Pad3(i) == Pad3(j) <==> i == j
  {
    if Pad3(i) == Pad3(j) {
      PadRoundTrip(i);
      PadRoundTrip(j);
    }
  }
}

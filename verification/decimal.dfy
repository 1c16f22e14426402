/**
  Decimal text of natural numbers: Python's `str(n)` / f-string `{n}` for
  counts, and the zero-padded fields `strftime` writes.
*/
module Decimal {

  predicate IsDigit(c: char) {
    '0' <= c <= '9'
  }

  predicate AllDigits(s: string) {
    forall k :: 0 <= k < |s| ==> IsDigit(s[k])
  }

  /** The text `str(n)` produces: digits only, no leading zero except for
      zero itself. */
  predicate IsCanonical(s: string) {
    |s| >= 1 && AllDigits(s) && (s[0] == '0' ==> |s| == 1)
  }

  function DigitChar(d: nat): (c: char)
    requires d < 10
    ensures IsDigit(c)
  {
    (48 + d) as char
  }

  function DigitValue(c: char): (d: nat)
    requires IsDigit(c)
    ensures d < 10
  {
    c as int - 48
  }

  /** The number a digit string denotes. */
  function Value(s: string): nat
    requires AllDigits(s)
  {
    if |s| == 0 then 0 else Value(s[..|s| - 1]) * 10 + DigitValue(s[|s| - 1])
  }

  /** `str(n)` for a natural number `n`. */
  function NatToDecimal(n: nat): (r: string)
    ensures IsCanonical(r)
    ensures r[0] == '0' <==> n == 0
    decreases n
  {
    if n < 10 then [DigitChar(n)]
    else
      var r := NatToDecimal(n / 10) + [DigitChar(n % 10)];
      assert r[0] == NatToDecimal(n / 10)[0];
      r
  }

  /** Reading back the decimal text of `n` gives `n`. */
  lemma {:induction false} DecimalRoundTrip(n: nat)
    ensures Value(NatToDecimal(n)) == n
    decreases n
  {
    if n >= 10 {
      var r := NatToDecimal(n);
      assert r[..|r| - 1] == NatToDecimal(n / 10);
      DecimalRoundTrip(n / 10);
    }
  }

  /** A non-empty digit string without a leading zero denotes a positive
      number. */
  lemma {:induction false} ValuePositive(s: string)
    requires |s| >= 1 && AllDigits(s) && s[0] != '0'
    ensures Value(s) >= 1
    decreases |s|
  {
    if |s| > 1 {
      ValuePositive(s[..|s| - 1]);
    }
  }

  /** The other direction: every canonical digit string is the decimal
      text of the number it denotes. */
  lemma {:induction false} CanonicalRoundTrip(s: string)
    requires IsCanonical(s)
    ensures NatToDecimal(Value(s)) == s
    decreases |s|
  {
    if |s| > 1 {
      var t := s[..|s| - 1];
      assert t[0] == s[0];
      ValuePositive(t);
      CanonicalRoundTrip(t);
      var n := Value(s);
      assert n / 10 == Value(t) && n % 10 == DigitValue(s[|s| - 1]);
      assert s == t + [s[|s| - 1]];
    }
  }

  function Pow10(w: nat): (p: nat)
    ensures p >= 1
  {
    if w == 0 then 1 else 10 * Pow10(w - 1)
  }

  /** The `w`-digit, zero-padded text of `n` (`%02d`, `%04d`). */
  function PadDecimal(n: nat, w: nat): (r: string)
    requires n < Pow10(w)
    ensures |r| == w && AllDigits(r)
  {
    if w == 0 then [] else PadDecimal(n / 10, w - 1) + [DigitChar(n % 10)]
  }

  /** Reading back a padded field gives the number. */
  lemma {:induction false} PadRoundTrip(n: nat, w: nat)
    requires n < Pow10(w)
    ensures Value(PadDecimal(n, w)) == n
  {
    if w > 0 {
      var r := PadDecimal(n, w);
      assert r[..|r| - 1] == PadDecimal(n / 10, w - 1);
      PadRoundTrip(n / 10, w - 1);
    }
  }

  /** A string of `w` digits denotes a number below `10^w`. */
  lemma {:induction false} ValueBound(s: string)
    requires AllDigits(s)
    ensures Value(s) < Pow10(|s|)
    decreases |s|
  {
    if |s| > 0 {
      ValueBound(s[..|s| - 1]);
    }
  }

  /** Every digit string of width `w` is the padded text of its value. */
  lemma {:induction false} PadCanonical(s: string)
    requires AllDigits(s)
    ensures Value(s) < Pow10(|s|)
    ensures PadDecimal(Value(s), |s|) == s
    decreases |s|
  {
    ValueBound(s);
    if |s| > 0 {
      var t := s[..|s| - 1];
      PadCanonical(t);
      var n := Value(s);
      assert n / 10 == Value(t) && n % 10 == DigitValue(s[|s| - 1]);
      assert s == t + [s[|s| - 1]];
    }
  }
}

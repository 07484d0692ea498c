/**
 * Finite decimal numbers, standing in for the JavaScript numbers the
 * calculator parses and prints.  A number is `mant / 10^scale`; the
 * canonical form has no trailing zero in its fraction, which is the form
 * the parser produces and the form JavaScript prints.
 */
module Decimal {

  datatype Dec = Dec(mant: int, scale: nat)

  function Pow10(n: nat): (r: nat)
    ensures r >= 1
  {
    if n == 0 then 1 else 10 * Pow10(n - 1)
  }

  lemma {:induction false} Pow10Add(a: nat, b: nat)
    ensures Pow10(a + b) == Pow10(a) * Pow10(b)
    decreases b
  {
    if b > 0 {
      Pow10Add(a, b - 1);
      assert Pow10(a + b) == 10 * Pow10(a + b - 1);
      assert 10 * (Pow10(a) * Pow10(b - 1)) == Pow10(a) * (10 * Pow10(b - 1));
    }
  }

  /** The numeric value of a decimal. */
  function Value(d: Dec): real
  {
    d.mant as real / Pow10(d.scale) as real
  }

  lemma ValueTimesScale(d: Dec)
    ensures Value(d) * Pow10(d.scale) as real == d.mant as real
  {
  }

  /** A decimal is non-negative exactly when its mantissa is. */
  lemma ValueSign(d: Dec)
    ensures Value(d) >= 0.0 <==> d.mant >= 0
  {
    ValueTimesScale(d);
  }

  /** No trailing zero in the fraction: the form JavaScript prints and parseFloat yields. */
  predicate Canonical(d: Dec)
  {
    d.scale == 0 || d.mant % 10 != 0
  }

  /** Every number of the list is in canonical form, as the parser leaves it. */
  predicate AllCanonical(s: seq<Dec>)
  {
    forall i :: 0 <= i < |s| ==> Canonical(s[i])
  }

  lemma ShiftScale(d: Dec)
    requires d.scale > 0 && d.mant % 10 == 0
    ensures Value(Dec(d.mant / 10, d.scale - 1)) == Value(d)
  {
    var q := d.mant / 10;
    var p := Pow10(d.scale - 1);
    assert d.mant == 10 * q;
    assert Pow10(d.scale) == 10 * p;
    assert d.mant as real == 10.0 * q as real;
    assert Pow10(d.scale) as real == 10.0 * p as real;
    assert (10.0 * q as real) / (10.0 * p as real) == q as real / p as real;
  }

  /** Strips trailing fraction zeros without changing the value. */
  function Normalize(d: Dec): (r: Dec)
    ensures Canonical(r)
    ensures Value(r) == Value(d)
    ensures Canonical(d) ==> r == d
    decreases d.scale
  {
    if d.scale > 0 && d.mant % 10 == 0 then
      ShiftScale(d);
      Normalize(Dec(d.mant / 10, d.scale - 1))
    else
      d
  }

  lemma CrossMultiply(a: Dec, b: Dec)
    requires Value(a) == Value(b)
    ensures a.mant * Pow10(b.scale) == b.mant * Pow10(a.scale)
  {
    var pa := Pow10(a.scale) as real;
    var pb := Pow10(b.scale) as real;
    ValueTimesScale(a);
    ValueTimesScale(b);
    calc {
      (a.mant * Pow10(b.scale)) as real;
      a.mant as real * pb;
      Value(a) * pa * pb;
      Value(b) * pb * pa;
      b.mant as real * pa;
      (b.mant * Pow10(a.scale)) as real;
    }
  }

  lemma Cancel(x: int, y: int, p: int)
    requires p > 0 && x * p == y * p
    ensures x == y
  {
  }

  lemma Rotate(x: int, p: int, q: int)
    ensures x * (p * q) == (x * q) * p
  {
  }

  lemma TenDivides(x: int, q: int, y: int)
    requires y == x * (10 * q)
    ensures y % 10 == 0
  {
    assert y == 10 * (x * q);
  }

  /** A canonical decimal with a larger scale than another has a different value. */
  lemma ScalesAgree(a: Dec, b: Dec)
    requires Canonical(b) && Value(a) == Value(b)
    ensures b.scale <= a.scale
  {
    if a.scale < b.scale {
      var k := b.scale - a.scale;
      var pa, pk := Pow10(a.scale), Pow10(k);
      CrossMultiply(a, b);
      Pow10Add(a.scale, k);
      Rotate(a.mant, pa, pk);
      Cancel(a.mant * pk, b.mant, pa);
      TenDivides(a.mant, Pow10(k - 1), b.mant);
    }
  }

  /**
   * Two canonical decimals with the same value are the same decimal, so
   * `==` on the parser's output is JavaScript's `===` on numbers.
   */
  lemma {:induction false} CanonicalUnique(a: Dec, b: Dec)
    requires Canonical(a) && Canonical(b) && Value(a) == Value(b)
    ensures a == b
  {
    ScalesAgree(a, b);
    ScalesAgree(b, a);
    CrossMultiply(a, b);
    Cancel(a.mant, b.mant, Pow10(a.scale));
  }

  // Decimal digit strings

  predicate IsDigit(c: char)
  {
    '0' <= c <= '9'
  }

  predicate AllDigits(s: string)
  {
    forall i :: 0 <= i < |s| ==> IsDigit(s[i])
  }

  function DigitValue(c: char): (n: nat)
    requires IsDigit(c)
    ensures n < 10
  {
    c as int - '0' as int
  }

  function DigitChar(n: nat): (c: char)
    requires n < 10
    ensures IsDigit(c) && DigitValue(c) == n
  {
    ('0' as int + n) as char
  }

  /** The number a string of decimal digits denotes, read left to right. */
  function DigitsValue(s: string): nat
    requires AllDigits(s)
  {
    if s == [] then 0 else DigitsValue(s[..|s| - 1]) * 10 + DigitValue(s[|s| - 1])
  }

  lemma {:induction false} DigitsValueAppend(x: string, y: string)
    requires AllDigits(x) && AllDigits(y)
    ensures AllDigits(x + y)
    ensures DigitsValue(x + y) == DigitsValue(x) * Pow10(|y|) + DigitsValue(y)
    decreases |y|
  {
    if y == [] {
      assert x + y == x;
    } else {
      var y' := y[..|y| - 1];
      assert (x + y)[..|x + y| - 1] == x + y';
      assert (x + y)[|x + y| - 1] == y[|y| - 1];
      DigitsValueAppend(x, y');
      Regroup(DigitsValue(x), Pow10(|y'|), DigitsValue(y'), DigitValue(y[|y| - 1]));
    }
  }

  lemma Regroup(dx: int, p: int, dy: int, last: int)
    ensures (dx * p + dy) * 10 + last == dx * (10 * p) + (dy * 10 + last)
  {
  }

  /** The shortest decimal numeral of `n` (no leading zeros; "0" for zero). */
  function NatDigits(n: nat): (s: string)
    ensures |s| > 0 && AllDigits(s)
    ensures DigitsValue(s) == n
    ensures |s| > 1 ==> s[0] != '0'
    decreases n
  {
    if n < 10 then
      [DigitChar(n)]
    else
      var s := NatDigits(n / 10) + [DigitChar(n % 10)];
      assert s[..|s| - 1] == NatDigits(n / 10);
      s
  }

  /** Exactly `w` digits for `n`, with leading zeros: the fraction of a decimal. */
  function PadDigits(n: nat, w: nat): (s: string)
    requires n < Pow10(w)
    ensures |s| == w && AllDigits(s)
    ensures DigitsValue(s) == n
    decreases w
  {
    if w == 0 then
      []
    else
      var s := PadDigits(n / 10, w - 1) + [DigitChar(n % 10)];
      assert s[..|s| - 1] == PadDigits(n / 10, w - 1);
      s
  }

  /**
   * A numeral built from an optional sign, integer digits and optional
   * fraction digits: the shape both the tokenizer and the printer use.
   */
  function LiteralText(sign: string, intPart: string, frac: string): string
  {
    sign + intPart + FractionText(frac)
  }

  /** The point and fraction digits of a number's text, if it has a fraction. */
  function FractionText(frac: string): string
  {
    if frac == [] then "" else "." + frac
  }

  /**
   * JavaScript's `String(num)` for a number in plain notation: a minus sign
   * when negative, the integer part, and the fraction without trailing zeros.
   */
  function Render(d: Dec): (s: string)
  {
    var c := Normalize(d);
    LiteralText(RenderSign(c), NatDigits(IntPart(c)), FracPart(c))
  }

  /** The sign `Render` writes: a minus for a negative number, nothing otherwise. */
  function RenderSign(c: Dec): string
  {
    if c.mant < 0 then "-" else ""
  }

  /** Absolute value of the mantissa. */
  function Magnitude(d: Dec): nat
  {
    if d.mant < 0 then -d.mant else d.mant
  }

  /** The digits of `|d|` before the decimal point, as a number. */
  function IntPart(d: Dec): nat
  {
    DivBounds(Magnitude(d), Pow10(d.scale));
    Magnitude(d) / Pow10(d.scale)
  }

  /** The `d.scale` digits of `|d|` after the decimal point. */
  function FracPart(d: Dec): (s: string)
    ensures |s| == d.scale && AllDigits(s)
  {
    ModBelow(Magnitude(d), Pow10(d.scale));
    PadDigits(Magnitude(d) % Pow10(d.scale), d.scale)
  }

  lemma ModBelow(a: nat, p: nat)
    requires p > 0
    ensures a % p < p
  {
  }

  lemma DivBounds(a: nat, p: nat)
    requires p > 0
    ensures a / p >= 0
    ensures a == (a / p) * p + a % p
  {
  }
}

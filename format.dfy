/**
 * `formatEquation`, which writes a pinned set's numbers back into its edit
 * box: the first number as JavaScript prints it, every later one with a `+`
 * in front when it is non-negative, all joined by single spaces.  Parsing
 * that text gives the numbers back.
 */
module Format {
  import opened Decimal
  import opened Tokenizer

  /** A later number of the equation: `+${num}` when `num >= 0`, else `${num}`. */
  function SignedText(d: Dec): string
  {
    if Value(d) >= 0.0 then "+" + Render(d) else Render(d)
  }

  /** `numbers.map((num, i) => i === 0 ? num : ...).join(' ')`. */
  function FormatEquation(nums: seq<Dec>): string
  {
    if nums == [] then "" else Render(nums[0]) + FormatTail(nums[1..])
  }

  /** The separators and signed numbers after the first. */
  function FormatTail(nums: seq<Dec>): string
  {
    if nums == [] then "" else " " + SignedText(nums[0]) + FormatTail(nums[1..])
  }

  /** The signed form of every number: a sign, then what `Render` writes after its sign. */
  lemma SignedTextParts(d: Dec)
    ensures var c := Normalize(d);
      SignedText(d) == LiteralText(if c.mant < 0 then "-" else "+", NatDigits(IntPart(c)), FracPart(c))
  {
    var c := Normalize(d);
    ValueSign(c);
    var ip, fp := NatDigits(IntPart(c)), FracPart(c);
    LiteralTextParts(RenderSign(c), ip, fp);
    LiteralTextParts("+", ip, fp);
    if c.mant >= 0 {
      assert Render(d) == ip + FractionText(fp);
    }
  }

  lemma LiteralTextHasNoSeparator(sign: string, ip: string, fp: string)
    requires sign == "" || sign == "+" || sign == "-"
    requires AllDigits(ip) && AllDigits(fp)
    ensures forall i :: 0 <= i < |LiteralText(sign, ip, fp)| ==> !IsSeparator(LiteralText(sign, ip, fp)[i])
  {
    var t := LiteralText(sign, ip, fp);
    LiteralTextParts(sign, ip, fp);
    forall i | 0 <= i < |t|
      ensures !IsSeparator(t[i])
    {
      if i < |sign| {
        assert t[i] == sign[i];
      } else if i < |sign| + |ip| {
        assert t[i] == ip[i - |sign|];
      } else if i == |sign| + |ip| {
        assert t[i] == '.';
      } else {
        assert t[i] == fp[i - |sign| - |ip| - 1];
      }
    }
  }

  lemma SignedTextKept(d: Dec)
    ensures Sanitize(SignedText(d)) == SignedText(d)
    ensures |SignedText(d)| > 0 && IsSign(SignedText(d)[0])
  {
    var c := Normalize(d);
    SignedTextParts(d);
    LiteralTextHasNoSeparator(if c.mant < 0 then "-" else "+", NatDigits(IntPart(c)), FracPart(c));
    SanitizeKeeps(SignedText(d));
  }

  lemma RenderKept(d: Dec)
    ensures Sanitize(Render(d)) == Render(d)
  {
    var c := Normalize(d);
    LiteralTextHasNoSeparator(RenderSign(c), NatDigits(IntPart(c)), FracPart(c));
    SanitizeKeeps(Render(d));
  }

  /** The sanitizer keeps a later number's text and drops the blank before it. */
  lemma SanitizeTail(tail: seq<Dec>)
    requires tail != []
    ensures Sanitize(FormatTail(tail)) == SignedText(tail[0]) + Sanitize(FormatTail(tail[1..]))
  {
    var d := tail[0];
    SanitizeAppend(" " + SignedText(d), FormatTail(tail[1..]));
    SanitizeAppend(" ", SignedText(d));
    assert Sanitize(" ") == [];
    SignedTextKept(d);
  }

  /** A later number's text followed by a sign (or nothing) is matched as exactly that text. */
  lemma MatchesSigned(d: Dec, rest: string)
    requires rest == [] || IsSign(rest[0])
    ensures Matches(SignedText(d) + rest) == [SignedText(d)] + Matches(rest)
  {
    var c := Normalize(d);
    SignedTextParts(d);
    MatchesOfLiteralText(if c.mant < 0 then "-" else "+", NatDigits(IntPart(c)), FracPart(c), rest);
  }

  /** After the first number, the tokenizer finds exactly the signed texts, in order. */
  lemma {:induction false} TailMatches(tail: seq<Dec>)
    ensures var s := Sanitize(FormatTail(tail)); s == [] || IsSign(s[0])
    ensures var ms := Matches(Sanitize(FormatTail(tail)));
      |ms| == |tail| && forall i :: 0 <= i < |tail| ==> ms[i] == SignedText(tail[i])
    decreases |tail|
  {
    if tail != [] {
      var d := tail[0];
      var rest := Sanitize(FormatTail(tail[1..]));
      TailMatches(tail[1..]);
      SanitizeTail(tail);
      SignedTextKept(d);
      MatchesSigned(d, rest);
      var ms := Matches(Sanitize(FormatTail(tail)));
      var later := Matches(rest);
      assert ms == [SignedText(d)] + later;
      forall i | 0 < i < |tail|
        ensures ms[i] == SignedText(tail[i])
      {
        assert ms[i] == later[i - 1] == SignedText(tail[1..][i - 1]);
      }
      assert Sanitize(FormatTail(tail))[0] == SignedText(d)[0];
    }
  }

  /** The full text reaches the tokenizer as the first number's text, then the signed texts. */
  lemma EquationMatches(nums: seq<Dec>)
    ensures var ms := Matches(Sanitize(FormatEquation(nums)));
      |ms| == |nums| && (|nums| > 0 ==> ms[0] == Render(nums[0]))
      && forall i :: 0 < i < |nums| ==> ms[i] == SignedText(nums[i])
  {
    if nums != [] {
      var d := nums[0];
      var rest := Sanitize(FormatTail(nums[1..]));
      TailMatches(nums[1..]);
      SanitizeAppend(Render(d), FormatTail(nums[1..]));
      RenderKept(d);
      var c := Normalize(d);
      MatchesOfLiteralText(RenderSign(c), NatDigits(IntPart(c)), FracPart(c), rest);
      var ms, later := Matches(Sanitize(FormatEquation(nums))), Matches(rest);
      assert Sanitize(FormatEquation(nums)) == Render(d) + rest;
      assert ms == [Render(d)] + later;
      forall i | 0 < i < |nums|
        ensures ms[i] == SignedText(nums[i])
      {
        assert ms[i] == later[i - 1] == SignedText(nums[1..][i - 1]);
      }
    }
  }

  /** The digits of a canonical decimal read back as its magnitude and scale. */
  lemma ParseParts(c: Dec, sign: string)
    requires Canonical(c)
    requires sign == "" || sign == "+" || sign == "-"
    requires (sign == "-") == (c.mant < 0)
    ensures IsLiteral(LiteralText(sign, NatDigits(IntPart(c)), FracPart(c)))
    ensures ParseFloat(LiteralText(sign, NatDigits(IntPart(c)), FracPart(c))) == c
  {
    var ip, fp := NatDigits(IntPart(c)), FracPart(c);
    ParseFloatOfLiteralText(sign, ip, fp);
    DigitsValueAppend(ip, fp);
    DivBounds(Magnitude(c), Pow10(c.scale));
    assert DigitsValue(ip + fp) == Magnitude(c);
    assert SignedValue(sign == "-", Magnitude(c)) == c.mant;
  }

  /** parseFloat(String(num)) is the number itself. */
  lemma ParseRender(d: Dec)
    requires Canonical(d)
    ensures IsLiteral(Render(d)) && ParseFloat(Render(d)) == d
  {
    TextIsLiteral(RenderSign(d), NatDigits(IntPart(d)), FracPart(d));
    ParseParts(d, RenderSign(d));
  }

  /** parseFloat(`+${num}`) (for num >= 0) and parseFloat(`${num}`) give the number back. */
  lemma ParseSignedText(d: Dec)
    requires Canonical(d)
    ensures IsLiteral(SignedText(d)) && ParseFloat(SignedText(d)) == d
  {
    var sign := if d.mant < 0 then "-" else "+";
    SignedTextParts(d);
    TextIsLiteral(sign, NatDigits(IntPart(d)), FracPart(d));
    ParseParts(d, sign);
  }

  /**
   * Round trip of the pinned-set edit box: parsing the formatted numbers
   * gives back the same numbers.
   */
  lemma RoundTrip(nums: seq<Dec>)
    requires AllCanonical(nums)
    ensures ParseEquation(FormatEquation(nums)) == nums
  {
    var ms := Matches(Sanitize(FormatEquation(nums)));
    EquationMatches(nums);
    var parsed := ParseEquation(FormatEquation(nums));
    forall i | 0 <= i < |nums|
      ensures parsed[i] == nums[i]
    {
      if i == 0 {
        ParseRender(nums[0]);
      } else {
        ParseSignedText(nums[i]);
      }
    }
  }
}

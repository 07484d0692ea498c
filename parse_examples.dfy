/**
 * Worked inputs for the number box, each traced through the sanitizer,
 * the scanner and `parseFloat`.
 */
module ParseExamples {
  import opened Decimal
  import opened Tokenizer

  /** With the matches known, the parse is their values in order. */
  lemma ParsedMatches(e: string, ms: seq<string>)
    requires forall i :: 0 <= i < |ms| ==> IsLiteral(ms[i])
    requires Matches(Sanitize(e)) == ms
    ensures |ParseEquation(e)| == |ms|
    ensures forall i :: 0 <= i < |ms| ==> ParseEquation(e)[i] == ParseFloat(ms[i])
  {
  }

  /** With a single match known, the parse is its value. */
  lemma ParsedMatch(e: string, m: string)
    requires IsLiteral(m) && Matches(Sanitize(e)) == [m]
    ensures ParseEquation(e) == [ParseFloat(m)]
  {
    ParsedMatches(e, [m]);
  }

  /** The text of a whole number, with an optional sign, reads as that number. */
  lemma ParseWhole(t: string, sign: string, ip: string, n: nat)
    requires sign == "" || sign == "+" || sign == "-"
    requires |ip| > 0 && AllDigits(ip) && DigitsValue(ip) == n && t == sign + ip
    ensures IsLiteral(t)
    ensures ParseFloat(t) == Normalize(Dec(if sign == "-" then -(n as int) else n, 0))
  {
    ParseFloatOfLiteralText(sign, ip, "");
    assert LiteralText(sign, ip, "") == sign + ip;
    assert ip + "" == ip;
  }

  lemma MatchesOfThousands()
    ensures Matches(Sanitize("1,000")) == ["1000"]
  {
    assert Sanitize("1,000") == "1000";
    assert LiteralText("", "1000", "") == "1000";
    MatchesOfLiteralText("", "1000", "", "");
    assert "1000" + "" == "1000";
  }

  lemma ThousandDigits()
    ensures AllDigits("1000") && DigitsValue("1000") == 1000
  {
    assert "1000"[..3] == "100" && "100"[..2] == "10" && "10"[..1] == "1" && "1"[..0] == "";
  }

  /** A thousands separator is dropped, not read as a break: "1,000" is 1000. */
  lemma ThousandsSeparator()
    ensures ParseEquation("1,000") == [Dec(1000, 0)]
  {
    MatchesOfThousands();
    ThousandDigits();
    ParseWhole("1000", "", "1000", 1000);
    ParsedMatch("1,000", "1000");
  }

  lemma MatchesOfBlank()
    ensures Matches(Sanitize("1 2")) == ["12"]
  {
    assert Sanitize("1 2") == "12";
    assert LiteralText("", "12", "") == "12";
    MatchesOfLiteralText("", "12", "", "");
    assert "12" + "" == "12";
  }

  /** Blanks are removed before scanning, so "1 2" is the single number 12, not 1 and 2. */
  lemma BlankJoinsDigits()
    ensures ParseEquation("1 2") == [Dec(12, 0)]
  {
    MatchesOfBlank();
    assert DigitsValue("12") == 12;
    ParseWhole("12", "", "12", 12);
    ParsedMatch("1 2", "12");
  }

  lemma MatchesOfBarePoint()
    ensures Matches(Sanitize("5.")) == ["5"] && Matches(Sanitize(".5")) == ["5"]
  {
    assert Sanitize("5.") == "5." && Sanitize(".5") == ".5";
    assert UnsignedMatchLen("5.") == 1;
    assert MatchLen("5.") == 1;
    assert Matches("5.") == ["5"] + Matches(".");
    assert MatchLen(".") == 0;
    assert Matches(".") == [];
    assert MatchLen(".5") == 0;
    assert Matches(".5") == Matches("5");
    assert Matches("5") == ["5"];
  }

  /** A point not followed by a digit is skipped: "5." and ".5" both read as 5. */
  lemma BarePoint()
    ensures ParseEquation("5.") == [Dec(5, 0)]
    ensures ParseEquation(".5") == [Dec(5, 0)]
  {
    MatchesOfBarePoint();
    ParseWhole("5", "", "5", 5);
    ParsedMatch("5.", "5");
    ParsedMatch(".5", "5");
  }
}

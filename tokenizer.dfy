/**
 * The calculator's tokenizer, `parseEquation`: delete every whitespace
 * character and comma, then collect, left to right, the matches of the
 * regular expression `[+-]?\d+(\.\d+)?` and convert each with `parseFloat`.
 * It never fails; text without a match gives the empty sequence.
 */
module Tokenizer {
  import opened Decimal

  /** The characters of JavaScript's `\s` class (white space and line terminators). */
  predicate IsSpace(c: char)
  {
    || c == ' ' || c == '\t' || c == '\n' || c == '\U{000B}' || c == '\U{000C}' || c == '\r'
    || c == '\U{00A0}' || c == '\U{1680}' || ('\U{2000}' <= c <= '\U{200A}')
    || c == '\U{2028}' || c == '\U{2029}' || c == '\U{202F}' || c == '\U{205F}'
    || c == '\U{3000}' || c == '\U{FEFF}'
  }

  /** The characters `/[\s,]+/g` deletes. */
  predicate IsSeparator(c: char)
  {
    IsSpace(c) || c == ','
  }

  predicate IsSign(c: char)
  {
    c == '+' || c == '-'
  }

  /** `equation.replace(/[\s,]+/g, '')`. */
  function Sanitize(s: string): (r: string)
    ensures forall i :: 0 <= i < |r| ==> !IsSeparator(r[i])
  {
    if s == [] then []
    else if IsSeparator(s[0]) then Sanitize(s[1..])
    else [s[0]] + Sanitize(s[1..])
  }

  /** Deleting separators distributes over concatenation. */
  lemma {:induction false} SanitizeAppend(a: string, b: string)
    ensures Sanitize(a + b) == Sanitize(a) + Sanitize(b)
    decreases |a|
  {
    if a != [] {
      assert (a + b)[1..] == a[1..] + b;
      SanitizeAppend(a[1..], b);
    } else {
      assert a + b == b;
    }
  }

  /** Text without separators is left as it is. */
  lemma {:induction false} SanitizeKeeps(s: string)
    requires forall i :: 0 <= i < |s| ==> !IsSeparator(s[i])
    ensures Sanitize(s) == s
    decreases |s|
  {
    if s != [] {
      SanitizeKeeps(s[1..]);
    }
  }

  /** Text made only of separators disappears. */
  lemma {:induction false} SanitizeDrops(s: string)
    requires forall i :: 0 <= i < |s| ==> IsSeparator(s[i])
    ensures Sanitize(s) == []
    decreases |s|
  {
    if s != [] {
      SanitizeDrops(s[1..]);
    }
  }

  // The language of the pattern [+-]?\d+(\.\d+)?

  /** `\d+(\.\d+)?`: digits, optionally a point and more digits. */
  predicate IsUnsignedLiteral(t: string)
  {
    || (|t| > 0 && AllDigits(t))
    || (exists k :: 0 < k < |t| - 1 && t[k] == '.' && AllDigits(t[..k]) && AllDigits(t[k + 1..]))
  }

  /** A string the whole pattern `[+-]?\d+(\.\d+)?` matches. */
  predicate IsLiteral(t: string)
  {
    IsUnsignedLiteral(t) || (|t| > 0 && IsSign(t[0]) && IsUnsignedLiteral(t[1..]))
  }

  lemma UnsignedStartsWithDigit(t: string)
    requires IsUnsignedLiteral(t)
    ensures |t| > 0 && IsDigit(t[0])
  {
    if !(|t| > 0 && AllDigits(t)) {
      var k :| 0 < k < |t| - 1 && t[k] == '.' && AllDigits(t[..k]) && AllDigits(t[k + 1..]);
      assert t[..k][0] == t[0];
    }
  }

  // The matcher

  /** Length of the longest run of digits at the start of `s` (what `\d+` consumes). */
  function DigitRun(s: string): (n: nat)
    ensures n <= |s| && AllDigits(s[..n])
    ensures n == |s| || !IsDigit(s[n])
  {
    if s == [] || !IsDigit(s[0]) then 0
    else
      var n := 1 + DigitRun(s[1..]);
      assert s[..n] == [s[0]] + s[1..][..n - 1];
      n
  }

  lemma {:induction false} DigitRunAtLeast(s: string, m: nat)
    requires m <= |s| && AllDigits(s[..m])
    ensures DigitRun(s) >= m
    decreases m
  {
    if m > 0 {
      assert s[0] == s[..m][0];
      assert s[1..][..m - 1] == s[..m][1..];
      DigitRunAtLeast(s[1..], m - 1);
    }
  }

  lemma DigitRunExactly(s: string, m: nat)
    requires m < |s| && AllDigits(s[..m]) && !IsDigit(s[m])
    ensures DigitRun(s) == m
  {
    DigitRunAtLeast(s, m);
  }

  /** What `[+-]?` consumes. */
  function SignLen(s: string): nat
  {
    if |s| > 0 && IsSign(s[0]) then 1 else 0
  }

  /**
   * What `\d+(\.\d+)?` consumes at the start of `v`, or 0 when it does not
   * match there: all digits, then the fraction when a point is followed by
   * at least one digit.
   */
  function UnsignedMatchLen(v: string): (n: nat)
    ensures n <= |v|
  {
    var d := DigitRun(v);
    if d == 0 then 0
    else if d < |v| && v[d] == '.' && DigitRun(v[d + 1..]) > 0 then d + 1 + DigitRun(v[d + 1..])
    else d
  }

  /**
   * Length of the match the regular expression finds when it starts at the
   * first character of `s`, or 0 when it finds none there.  When a sign is
   * not followed by a digit, the engine's retry without the sign fails too,
   * since the sign is not a digit.
   */
  function MatchLen(s: string): (n: nat)
    ensures n <= |s|
  {
    var m := UnsignedMatchLen(s[SignLen(s)..]);
    if m == 0 then 0 else SignLen(s) + m
  }

  lemma UnsignedMatchSound(v: string)
    requires UnsignedMatchLen(v) > 0
    ensures IsUnsignedLiteral(v[..UnsignedMatchLen(v)])
  {
    var d := DigitRun(v);
    var n := UnsignedMatchLen(v);
    var u := v[..n];
    if n != d {
      var w := v[d + 1..];
      var f := DigitRun(w);
      assert u[..d] == v[..d];
      assert u[d + 1..] == w[..f];
      assert u[d] == v[d];
    }
  }

  lemma MatchLenSound(s: string)
    requires MatchLen(s) > 0
    ensures IsLiteral(s[..MatchLen(s)])
  {
    var n := MatchLen(s);
    var v := s[SignLen(s)..];
    UnsignedMatchSound(v);
    assert v[..UnsignedMatchLen(v)] == s[SignLen(s)..n];
    if SignLen(s) == 1 {
      assert s[..n][1..] == s[1..n];
    } else {
      assert s[..n] == s[0..n];
    }
  }

  /** A literal prefix of `s` carries a sign exactly when `s` starts with one. */
  lemma LiteralUnsignedPart(s: string, k: nat)
    requires 0 < k <= |s| && IsLiteral(s[..k])
    ensures SignLen(s) < k && IsUnsignedLiteral(s[SignLen(s)..k])
  {
    var t := s[..k];
    assert t[0] == s[0];
    if SignLen(s) == 1 {
      if IsUnsignedLiteral(t) {
        UnsignedStartsWithDigit(t);
      }
      assert t[1..] == s[1..k];
    } else {
      assert t == s[0..k];
    }
  }

  lemma UnsignedMatchLongest(v: string, k: nat)
    requires 0 < k <= |v| && IsUnsignedLiteral(v[..k])
    ensures k <= UnsignedMatchLen(v)
  {
    var u := v[..k];
    if |u| > 0 && AllDigits(u) {
      DigitRunAtLeast(v, k);
    } else {
      var j :| 0 < j < |u| - 1 && u[j] == '.' && AllDigits(u[..j]) && AllDigits(u[j + 1..]);
      assert v[..j] == u[..j];
      DigitRunExactly(v, j);
      var w := v[j + 1..];
      assert w[..k - j - 1] == u[j + 1..];
      DigitRunAtLeast(w, k - j - 1);
    }
  }

  lemma MatchLenLongest(s: string, k: nat)
    requires 0 < k <= |s| && IsLiteral(s[..k])
    ensures k <= MatchLen(s)
  {
    LiteralUnsignedPart(s, k);
    var v := s[SignLen(s)..];
    assert v[..k - SignLen(s)] == s[SignLen(s)..k];
    UnsignedMatchLongest(v, k - SignLen(s));
  }

  /**
   * MatchLen(s) is the length of the longest prefix of `s` in the pattern's
   * language, and 0 exactly when no prefix is in it.
   */
  lemma MatchLenIsLongestLiteral(s: string)
    ensures MatchLen(s) > 0 ==> IsLiteral(s[..MatchLen(s)])
    ensures forall k :: 0 < k <= |s| && IsLiteral(s[..k]) ==> k <= MatchLen(s)
  {
    if MatchLen(s) > 0 {
      MatchLenSound(s);
    }
    forall k | 0 < k <= |s| && IsLiteral(s[..k])
      ensures k <= MatchLen(s)
    {
      MatchLenLongest(s, k);
    }
  }

  /**
   * `s.match(/([+-]?\d+(\.\d+)?)/g)`, with `null` read as no match: scan
   * left to right, take the match where one starts, skip one character
   * where none does. Each match taken is `MatchLen`'s, the longest literal
   * at its position (`MatchLenIsLongestLiteral`), and scanning resumes
   * right after it (`MatchesOfLiteralText`).
   */
  function Matches(s: string): (ms: seq<string>)
    ensures forall i :: 0 <= i < |ms| ==> IsLiteral(ms[i])
    decreases |s|
  {
    if s == [] then []
    else
      var n := MatchLen(s);
      if n == 0 then Matches(s[1..])
      else
        MatchLenSound(s);
        [s[..n]] + Matches(s[n..])
  }

  /** Text without a digit has no match. */
  lemma {:induction false} MatchesNoDigits(s: string)
    requires forall i :: 0 <= i < |s| ==> !IsDigit(s[i])
    ensures Matches(s) == []
    decreases |s|
  {
    if s != [] {
      var v := s[SignLen(s)..];
      if |v| > 0 {
        assert !IsDigit(v[0]);
      }
      assert MatchLen(s) == 0;
      MatchesNoDigits(s[1..]);
    }
  }

  lemma LiteralTextParts(sign: string, ip: string, fp: string)
    ensures LiteralText(sign, ip, fp) == sign + (ip + FractionText(fp))
  {
  }

  /** A digit run followed by a sign (or nothing) is matched exactly. */
  lemma DigitRunOfText(ip: string, rest: string)
    requires AllDigits(ip)
    requires rest == [] || IsSign(rest[0])
    ensures DigitRun(ip + rest) == |ip|
  {
    var v := ip + rest;
    assert v[..|ip|] == ip;
    if rest == [] {
      DigitRunAtLeast(v, |ip|);
    } else {
      DigitRunExactly(v, |ip|);
    }
  }

  /** Digits, a point, digits, then a sign (or nothing): all of it up to the sign is matched. */
  lemma FractionMatchOfText(ip: string, fp: string, rest: string)
    requires |ip| > 0 && AllDigits(ip) && AllDigits(fp) && fp != []
    requires rest == [] || IsSign(rest[0])
    ensures UnsignedMatchLen(ip + ("." + fp + rest)) == |ip| + 1 + |fp|
  {
    var tail := "." + fp + rest;
    var v := ip + tail;
    assert v[..|ip|] == ip && v[|ip|] == '.';
    DigitRunExactly(v, |ip|);
    assert v[|ip| + 1..] == fp + rest;
    DigitRunOfText(fp, rest);
  }

  /** The unsigned part of a number's text followed by a sign (or nothing) is matched exactly. */
  lemma UnsignedMatchOfText(ip: string, fp: string, rest: string)
    requires |ip| > 0 && AllDigits(ip) && AllDigits(fp)
    requires rest == [] || IsSign(rest[0])
    ensures UnsignedMatchLen(ip + FractionText(fp) + rest) == |ip + FractionText(fp)|
  {
    if fp == [] {
      assert ip + FractionText(fp) + rest == ip + rest;
      DigitRunOfText(ip, rest);
    } else {
      assert ip + FractionText(fp) + rest == ip + ("." + fp + rest);
      FractionMatchOfText(ip, fp, rest);
    }
  }

  /** A number's text followed by a sign (or nothing) is matched as exactly that text. */
  lemma MatchLenOfLiteralText(sign: string, ip: string, fp: string, rest: string)
    requires sign == "" || sign == "+" || sign == "-"
    requires |ip| > 0 && AllDigits(ip) && AllDigits(fp)
    requires rest == [] || IsSign(rest[0])
    ensures MatchLen(LiteralText(sign, ip, fp) + rest) == |LiteralText(sign, ip, fp)|
  {
    var s := LiteralText(sign, ip, fp) + rest;
    LiteralTextParts(sign, ip, fp);
    UnsignedStartsWithDigit(ip);
    assert s == sign + (ip + FractionText(fp) + rest);
    assert SignLen(s) == |sign|;
    assert s[SignLen(s)..] == ip + FractionText(fp) + rest;
    UnsignedMatchOfText(ip, fp, rest);
  }

  /** Such a text is matched, and the scan continues right after it. */
  lemma MatchesOfLiteralText(sign: string, ip: string, fp: string, rest: string)
    requires sign == "" || sign == "+" || sign == "-"
    requires |ip| > 0 && AllDigits(ip) && AllDigits(fp)
    requires rest == [] || IsSign(rest[0])
    ensures Matches(LiteralText(sign, ip, fp) + rest) == [LiteralText(sign, ip, fp)] + Matches(rest)
  {
    var t := LiteralText(sign, ip, fp);
    MatchLenOfLiteralText(sign, ip, fp, rest);
    assert (t + rest)[..|t|] == t;
    assert (t + rest)[|t|..] == rest;
  }

  function SignedValue(negative: bool, magnitude: nat): int
  {
    if negative then -(magnitude as int) else magnitude
  }

  /** The digits after the point that `\.\d+` takes, if it matches right after the digit run. */
  function FractionDigits(u: string): (frac: string)
    ensures AllDigits(frac)
  {
    var n := DigitRun(u);
    var f := if n < |u| && u[n] == '.' then DigitRun(u[n + 1..]) else 0;
    if f > 0 then u[n + 1..][..f] else []
  }

  /**
   * `parseFloat` applied to a match: the sign, the integer digits and the
   * fraction digits give an exact decimal, reduced to canonical form.
   */
  function ParseFloat(t: string): (d: Dec)
    requires IsLiteral(t)
    ensures Canonical(d)
  {
    var negative := |t| > 0 && t[0] == '-';
    var u := t[SignLen(t)..];
    var ip := u[..DigitRun(u)];
    var frac := FractionDigits(u);
    DigitsValueAppend(ip, frac);
    Normalize(Dec(SignedValue(negative, DigitsValue(ip + frac)), |frac|))
  }

  lemma DigitPartsWithoutFraction(ip: string)
    requires |ip| > 0 && AllDigits(ip)
    ensures ip[..DigitRun(ip)] == ip && FractionDigits(ip) == []
  {
    assert ip[..|ip|] == ip;
    DigitRunAtLeast(ip, |ip|);
  }

  lemma DigitPartsWithFraction(ip: string, fp: string)
    requires |ip| > 0 && AllDigits(ip) && AllDigits(fp) && fp != []
    ensures var u := ip + "." + fp; u[..DigitRun(u)] == ip && FractionDigits(u) == fp
  {
    var u := ip + "." + fp;
    assert u[..|ip|] == ip;
    DigitRunExactly(u, |ip|);
    var w := u[|ip| + 1..];
    assert w == fp;
    assert w[..|fp|] == fp;
    DigitRunAtLeast(w, |fp|);
  }

  lemma DigitPartsOfText(ip: string, fp: string)
    requires |ip| > 0 && AllDigits(ip) && AllDigits(fp)
    ensures var u := ip + FractionText(fp); u[..DigitRun(u)] == ip && FractionDigits(u) == fp
  {
    if fp == [] {
      assert ip + FractionText(fp) == ip;
      DigitPartsWithoutFraction(ip);
    } else {
      assert ip + FractionText(fp) == ip + "." + fp;
      DigitPartsWithFraction(ip, fp);
    }
  }

  lemma UnsignedTextIsLiteral(ip: string, fp: string)
    requires |ip| > 0 && AllDigits(ip) && AllDigits(fp)
    ensures IsUnsignedLiteral(ip + FractionText(fp))
  {
    var u := ip + FractionText(fp);
    if fp == [] {
      assert u == ip;
    } else {
      assert u[|ip|] == '.' && u[..|ip|] == ip && u[|ip| + 1..] == fp;
    }
  }

  lemma TextIsLiteral(sign: string, ip: string, fp: string)
    requires sign == "" || sign == "+" || sign == "-"
    requires |ip| > 0 && AllDigits(ip) && AllDigits(fp)
    ensures IsLiteral(LiteralText(sign, ip, fp))
    ensures LiteralText(sign, ip, fp)[SignLen(LiteralText(sign, ip, fp))..] == ip + FractionText(fp)
  {
    var t := LiteralText(sign, ip, fp);
    var u := ip + FractionText(fp);
    LiteralTextParts(sign, ip, fp);
    UnsignedTextIsLiteral(ip, fp);
    UnsignedStartsWithDigit(u);
    if sign == "" {
      assert t == u;
    } else {
      assert t[1..] == u;
    }
  }

  /** Parsing the text of a sign, integer digits and fraction digits. */
  lemma ParseFloatOfLiteralText(sign: string, ip: string, fp: string)
    requires sign == "" || sign == "+" || sign == "-"
    requires |ip| > 0 && AllDigits(ip) && AllDigits(fp)
    ensures IsLiteral(LiteralText(sign, ip, fp))
    ensures AllDigits(ip + fp)
    ensures ParseFloat(LiteralText(sign, ip, fp))
         == Normalize(Dec(SignedValue(sign == "-", DigitsValue(ip + fp)), |fp|))
  {
    TextIsLiteral(sign, ip, fp);
    DigitPartsOfText(ip, fp);
    DigitsValueAppend(ip, fp);
    var t := LiteralText(sign, ip, fp);
    assert (|t| > 0 && t[0] == '-') == (sign == "-");
  }

  /** `parseEquation`: the numbers of the matches of the sanitized text, in order. */
  function ParseEquation(equation: string): (nums: seq<Dec>)
    ensures AllCanonical(nums)
  {
    var ms := Matches(Sanitize(equation));
    seq(|ms|, i requires 0 <= i < |ms| => ParseFloat(ms[i]))
  }

  /** Separators anywhere in the text are ignored: "1 2" reads as "12". */
  lemma SeparatorIgnored(a: string, c: char, b: string)
    requires IsSeparator(c)
    ensures ParseEquation(a + [c] + b) == ParseEquation(a + b)
  {
    SanitizeAppend(a + [c], b);
    SanitizeAppend(a, [c]);
    SanitizeAppend(a, b);
    assert Sanitize([c]) == [] by {
      assert [c][1..] == [];
    }
    assert Sanitize(a + [c] + b) == Sanitize(a + b);
  }

  /** Text without a digit, such as "abc" or only blanks, gives no numbers. */
  lemma ParseNoDigits(equation: string)
    requires forall i :: 0 <= i < |equation| ==> !IsDigit(equation[i])
    ensures ParseEquation(equation) == []
  {
    SanitizeNoDigits(equation);
    MatchesNoDigits(Sanitize(equation));
  }

  lemma {:induction false} SanitizeNoDigits(s: string)
    requires forall i :: 0 <= i < |s| ==> !IsDigit(s[i])
    ensures forall i :: 0 <= i < |Sanitize(s)| ==> !IsDigit(Sanitize(s)[i])
    decreases |s|
  {
    if s != [] {
      SanitizeNoDigits(s[1..]);
    }
  }
}

/**
 * The expression tokenizer and variable helpers
 * (PS3/Formula/Utils/ExpressionUtils.cs).
 *
 * `GetTokens` splits an expression with one regular expression whose
 * alternatives are, in order: "(", ")", an operator symbol, a variable
 * `[a-zA-Z_][a-zA-Z_0-9]*`, a double literal
 * `(\d+\.\d*|\d*\.\d+|\d+)([eE][+-]?\d+)?` and a white-space run.  The
 * split keeps the matched text and the text between matches, and the
 * white-space-only pieces are dropped.  Here the same scan is written out
 * by hand: at each position the first alternative that matches wins, with
 * greedy repetition, and a maximal run of positions where no alternative
 * matches becomes one token of its own.
 */
module ExpressionUtils {
  import opened Wrappers

  // ---------------------------------------------------------------------
  // Character classes

  predicate IsAsciiLetter(c: char) {
    ('a' <= c <= 'z') || ('A' <= c <= 'Z')
  }

  /** `[a-zA-Z_]`: a character that may start a variable. */
  predicate IsWordStart(c: char) {
    IsAsciiLetter(c) || c == '_'
  }

  /** `\d`, restricted to the ASCII digits. */
  predicate IsDigit(c: char) {
    '0' <= c <= '9'
  }

  /** `[a-zA-Z_]|\d`: a character that may continue a variable. */
  predicate IsWordChar(c: char) {
    IsWordStart(c) || IsDigit(c)
  }

  /** `\s`, restricted to the ASCII white-space characters. */
  predicate IsSpace(c: char) {
    c == ' ' || c == '\t' || c == '\n' || c == '\r' || c == '\U{B}' || c == '\U{C}'
  }

  /** One of the four operator symbols. */
  predicate IsOperatorChar(c: char) {
    c == '+' || c == '-' || c == '*' || c == '/'
  }

  predicate IsParenthesis(c: char) {
    c == '(' || c == ')'
  }

  // ---------------------------------------------------------------------
  // Matching at the head of the remaining input

  /** The length of the longest prefix of `s` whose characters all satisfy `p`. */
  function RunLength(s: string, p: char -> bool): (n: nat)
    ensures n <= |s|
    ensures forall k :: 0 <= k < n ==> p(s[k])
    ensures n == |s| || !p(s[n])
  {
    if s == [] || !p(s[0]) then 0 else 1 + RunLength(s[1..], p)
  }

  /** The run at the head of a prefix of `s` is the run of `s`, cut at the prefix's end. */
  lemma RunLengthOfPrefix(s: string, p: char -> bool, m: nat)
    requires m <= |s|
    ensures RunLength(s[..m], p) == if RunLength(s, p) < m then RunLength(s, p) else m
  {
    var n := RunLength(s, p);
    if n < m {
      assert forall k :: 0 <= k <= n ==> s[..m][k] == s[k];
    } else {
      assert forall k :: 0 <= k < m ==> s[..m][k] == s[k];
    }
  }

  /** The run starting at `a` is unchanged by cutting `s` after the run's end. */
  lemma RunLengthOfCutSlice(s: string, p: char -> bool, a: nat, n: nat)
    requires a <= n <= |s| && a + RunLength(s[a..], p) <= n
    ensures RunLength(s[..n][a..], p) == RunLength(s[a..], p)
  {
    assert s[..n][a..] == s[a..][..n - a];
    RunLengthOfPrefix(s[a..], p, n - a);
  }

  /** Whether a double literal can start at the head of `s` (`\d` or `\.\d`). */
  predicate StartsDouble(s: string) {
    |s| > 0 && (IsDigit(s[0]) || (s[0] == '.' && |s| > 1 && IsDigit(s[1])))
  }

  /**
   * The mantissa `\d+\.\d* | \d*\.\d+ | \d+`, alternatives tried in order:
   * the first applies when the digits are followed by a point, the second
   * when there are no leading digits, the third otherwise.
   */
  function MantissaLength(s: string): (n: nat)
    requires StartsDouble(s)
    ensures 0 < n <= |s|
    ensures forall k :: 0 <= k < n ==> IsDigit(s[k]) || s[k] == '.'
  {
    var d := RunLength(s, IsDigit);
    if d > 0 && d < |s| && s[d] == '.' then d + 1 + RunLength(s[d + 1..], IsDigit)
    else if d > 0 then d
    else 1 + RunLength(s[1..], IsDigit)
  }

  /** The optional exponent `[eE][\+-]?\d+`; 0 when it does not match. */
  function ExponentLength(s: string): (n: nat)
    ensures n <= |s|
    ensures n > 0 ==> n >= 2
    ensures forall k :: 0 <= k < n ==> IsDigit(s[k]) || s[k] in "eE+-"
  {
    if |s| >= 2 && (s[0] == 'e' || s[0] == 'E') && IsDigit(s[1]) then
      1 + RunLength(s[1..], IsDigit)
    else if |s| >= 3 && (s[0] == 'e' || s[0] == 'E') && (s[1] == '+' || s[1] == '-') && IsDigit(s[2]) then
      2 + RunLength(s[2..], IsDigit)
    else 0
  }

  /** The length of the double literal at the head of `s`. */
  function DoubleLength(s: string): (n: nat)
    requires StartsDouble(s)
    ensures 0 < n <= |s|
    ensures forall k :: 0 <= k < n ==> IsDoubleChar(s[k])
  {
    var m := MantissaLength(s);
    m + ExponentLength(s[m..])
  }

  /** The characters a double literal is made of. */
  predicate IsDoubleChar(c: char) {
    IsDigit(c) || c in ".eE+-"
  }

  /**
   * The length of the match of the overall pattern at the head of `s`, or
   * 0 when no alternative matches there.
   */
  function MatchLength(s: string): (n: nat)
    ensures n <= |s|
    ensures n == 0 <==> s == [] || (!IsParenthesis(s[0]) && !IsOperatorChar(s[0]) && !IsWordChar(s[0])
                                    && !StartsDouble(s) && !IsSpace(s[0]))
  {
    if s == [] then 0
    else if IsParenthesis(s[0]) || IsOperatorChar(s[0]) then 1
    else if IsWordStart(s[0]) then 1 + RunLength(s[1..], IsWordChar)
    else if StartsDouble(s) then DoubleLength(s)
    else if IsSpace(s[0]) then RunLength(s, IsSpace)
    else 0
  }

  /** The number of leading positions of `s` at which no match starts. */
  function JunkLength(s: string): (n: nat)
    ensures n <= |s|
    ensures forall k :: 0 <= k < n ==> MatchLength(s[k..]) == 0
    ensures n == |s| || MatchLength(s[n..]) > 0
  {
    if s == [] || MatchLength(s) > 0 then 0
    else
      var n := JunkLength(s[1..]);
      assert forall k :: 1 <= k <= n ==> s[k..] == s[1..][k - 1..];
      1 + n
  }

  /**
   * The tokens of an expression, in order, with the white-space runs
   * dropped.
   */
  function GetTokens(s: string): (tokens: seq<string>)
    ensures forall k :: 0 <= k < |tokens| ==> |tokens[k]| > 0
    decreases |s|
  {
    if s == [] then []
    else
      var m := MatchLength(s);
      if m == 0 then
        var j := JunkLength(s);
        [s[..j]] + GetTokens(s[j..])
      else if IsSpace(s[0]) then GetTokens(s[m..])
      else [s[..m]] + GetTokens(s[m..])
  }

  // ---------------------------------------------------------------------
  // Token classes

  /** A whole token of the variable pattern `[a-zA-Z_][a-zA-Z_0-9]*`. */
  predicate IsVariableName(t: string) {
    |t| > 0 && IsWordStart(t[0]) && forall k :: 1 <= k < |t| ==> IsWordChar(t[k])
  }

  /** A run of characters at none of which a match of the pattern can start. */
  predicate IsJunk(t: string) {
    |t| > 0 &&
    forall k :: 0 <= k < |t| ==>
      !IsWordChar(t[k]) && !IsSpace(t[k]) && !IsParenthesis(t[k]) && !IsOperatorChar(t[k])
  }

  /**
   * The whole of `s` matches `IsVariable`'s pattern
   * `[a-zA-Z_](?: [a-zA-Z_]|\d)*`.  That pattern is used without
   * IgnorePatternWhitespace, so the space in the group is literal: after
   * the first character come digits, or a space followed by a letter or
   * `_`.
   */
  predicate VariablePatternMatches(s: string)
    decreases |s|
  {
    if |s| == 0 then false
    else if |s| == 1 then IsWordStart(s[0])
    else if IsDigit(s[|s| - 1]) then VariablePatternMatches(s[..|s| - 1])
    else |s| >= 3 && IsWordStart(s[|s| - 1]) && s[|s| - 2] == ' ' && VariablePatternMatches(s[..|s| - 2])
  }

  /** Every match of the pattern starts with a letter or `_`. */
  lemma {:induction false} PatternMatchStart(s: string)
    requires VariablePatternMatches(s)
    ensures IsWordStart(s[0])
    decreases |s|
  {
    if |s| > 1 {
      var t := if IsDigit(s[|s| - 1]) then s[..|s| - 1] else s[..|s| - 2];
      PatternMatchStart(t);
      assert t[0] == s[0];
    }
  }

  /** The literal space: `a b` matches the pattern as a whole, `ab` does not. */
  lemma LiteralSpaceInPattern()
    ensures VariablePatternMatches("a b")
    ensures !VariablePatternMatches("ab")
  {
    assert "a b"[..1] == "a";
    assert "ab"[..1] == "a";
  }

  /**
   * `IsVariable`: `Regex.IsMatch` is unanchored, so it holds when some
   * substring of the token matches the pattern; since the repetition may
   * be empty, that is exactly when some character is a letter or `_`.
   */
  function IsVariable(token: string): (b: bool)
    ensures b <==> exists k :: 0 <= k < |token| && IsWordStart(token[k])
  {
    var b := exists i, j | 0 <= i < j <= |token| :: VariablePatternMatches(token[i..j]);
    assert b ==> exists k :: 0 <= k < |token| && IsWordStart(token[k]) by {
      if b {
        var i, j :| 0 <= i < j <= |token| && VariablePatternMatches(token[i..j]);
        PatternMatchStart(token[i..j]);
        assert token[i..j][0] == token[i];
      }
    }
    assert (exists k :: 0 <= k < |token| && IsWordStart(token[k])) ==> b by {
      if exists k :: 0 <= k < |token| && IsWordStart(token[k]) {
        var k :| 0 <= k < |token| && IsWordStart(token[k]);
        assert VariablePatternMatches(token[k..k + 1]);
      }
    }
    b
  }

  /** `IsValidVariable`: a variable whose normalized form the validator accepts. */
  function IsValidVariable(token: string, normalizer: string -> string, validator: string -> bool): (b: bool)
    ensures b <==> (exists k :: 0 <= k < |token| && IsWordStart(token[k])) && validator(normalizer(token))
  {
    IsVariable(token) && validator(normalizer(token))
  }

  // ---------------------------------------------------------------------
  // Double literals and their values

  /** 10^n as a real. */
  function Pow10(n: nat): (r: real)
    ensures r >= 1.0
  {
    if n == 0 then 1.0 else 10.0 * Pow10(n - 1)
  }

  function DigitValue(c: char): (v: nat)
    requires IsDigit(c)
    ensures v < 10
  {
    (c as int - '0' as int) as nat
  }

  /** The value of a string of decimal digits, most significant first. */
  function DigitsValue(ds: string): (v: nat)
    requires forall k :: 0 <= k < |ds| ==> IsDigit(ds[k])
  {
    if ds == [] then 0 else DigitsValue(ds[..|ds| - 1]) * 10 + DigitValue(ds[|ds| - 1])
  }

  /** The value of `whole.fraction`. */
  function PointValue(whole: string, fraction: string): real
    requires forall k :: 0 <= k < |whole| ==> IsDigit(whole[k])
    requires forall k :: 0 <= k < |fraction| ==> IsDigit(fraction[k])
  {
    DigitsValue(whole) as real + DigitsValue(fraction) as real / Pow10(|fraction|)
  }

  /** x * 10^e for a possibly negative exponent e. */
  function Scale(x: real, e: int): real {
    if e >= 0 then x * Pow10(e) else x / Pow10(-e)
  }

  /** The exponent `[eE][\+-]?\d+` covering all of `t`, or 0 for an empty `t`. */
  function ParseExponent(t: string): (r: Option<int>)
    ensures r.Some? <==> t == [] || ExponentLength(t) == |t|
  {
    if t == [] then Some(0)
    else if ExponentLength(t) != |t| then None
    else if IsDigit(t[1]) then Some(DigitsValue(t[1..]))
    else if t[1] == '+' then Some(DigitsValue(t[2..]))
    else Some(-(DigitsValue(t[2..]) as int))
  }

  /**
   * `double.TryParse` on the token shapes the tokenizer can produce: the
   * whole token must be a double literal, and its value is exact.
   */
  function ParseDouble(t: string): (r: Option<real>)
    ensures r.Some? <==> StartsDouble(t) && DoubleLength(t) == |t|
  {
    if !StartsDouble(t) then None
    else
      var d := RunLength(t, IsDigit);
      var m := MantissaLength(t);
      var mantissa :=
        if m > d then PointValue(t[..d], t[d + 1..m])
        else DigitsValue(t[..d]) as real;
      match ParseExponent(t[m..])
      case None => None
      case Some(e) => Some(Scale(mantissa, e))
  }

  /** Whether `double.TryParse` accepts the token. */
  predicate IsNumber(t: string) {
    ParseDouble(t).Some?
  }

  // ---------------------------------------------------------------------
  // The match at the head of the input only looks at what it consumes

  lemma MantissaLengthOfPrefix(s: string, n: nat)
    requires StartsDouble(s) && MantissaLength(s) <= n <= |s|
    ensures StartsDouble(s[..n]) && MantissaLength(s[..n]) == MantissaLength(s)
  {
    var d := RunLength(s, IsDigit);
    if d > 0 && d < |s| && s[d] == '.' {
      PointMantissaOfPrefix(s, n);
    } else if d > 0 {
      IntegerMantissaOfPrefix(s, n);
    } else {
      FractionMantissaOfPrefix(s, n);
    }
  }

  /** `\d+\.\d*`, cut after its end. */
  lemma PointMantissaOfPrefix(s: string, n: nat)
    requires StartsDouble(s) && MantissaLength(s) <= n <= |s|
    requires 0 < RunLength(s, IsDigit) < |s| && s[RunLength(s, IsDigit)] == '.'
    ensures StartsDouble(s[..n]) && MantissaLength(s[..n]) == MantissaLength(s)
  {
    var t := s[..n];
    var d := RunLength(s, IsDigit);
    RunLengthOfPrefix(s, IsDigit, n);
    assert t[0] == s[0] && t[d] == s[d];
    RunLengthOfCutSlice(s, IsDigit, d + 1, n);
  }

  /** `\d+` with no point after it, cut after its end. */
  lemma IntegerMantissaOfPrefix(s: string, n: nat)
    requires StartsDouble(s) && MantissaLength(s) <= n <= |s|
    requires 0 < RunLength(s, IsDigit) && !(RunLength(s, IsDigit) < |s| && s[RunLength(s, IsDigit)] == '.')
    ensures StartsDouble(s[..n]) && MantissaLength(s[..n]) == MantissaLength(s)
  {
    var t := s[..n];
    var d := RunLength(s, IsDigit);
    RunLengthOfPrefix(s, IsDigit, n);
    assert t[0] == s[0];
    assert d < |t| ==> t[d] == s[d];
  }

  /** `\.\d+`, cut after its end. */
  lemma FractionMantissaOfPrefix(s: string, n: nat)
    requires StartsDouble(s) && MantissaLength(s) <= n <= |s|
    requires RunLength(s, IsDigit) == 0
    ensures StartsDouble(s[..n]) && MantissaLength(s[..n]) == MantissaLength(s)
  {
    var t := s[..n];
    RunLengthOfPrefix(s, IsDigit, n);
    assert t[0] == s[0] && t[1] == s[1];
    RunLengthOfCutSlice(s, IsDigit, 1, n);
  }

  lemma ExponentLengthOfPrefix(s: string, n: nat)
    requires ExponentLength(s) <= n <= |s|
    ensures ExponentLength(s[..n]) == ExponentLength(s)
  {
    if ExponentLength(s) == 0 {
      NoExponentOfPrefix(s, n);
    } else if IsDigit(s[1]) {
      UnsignedExponentOfPrefix(s, n);
    } else {
      SignedExponentOfPrefix(s, n);
    }
  }

  lemma NoExponentOfPrefix(s: string, n: nat)
    requires ExponentLength(s) == 0 && n <= |s|
    ensures ExponentLength(s[..n]) == 0
  {
    assert forall k :: 0 <= k < n ==> s[..n][k] == s[k];
  }

  lemma UnsignedExponentOfPrefix(s: string, n: nat)
    requires |s| >= 2 && (s[0] == 'e' || s[0] == 'E') && IsDigit(s[1])
    requires ExponentLength(s) <= n <= |s|
    ensures ExponentLength(s[..n]) == ExponentLength(s)
  {
    var t := s[..n];
    assert t[0] == s[0] && t[1] == s[1];
    RunLengthOfCutSlice(s, IsDigit, 1, n);
  }

  lemma SignedExponentOfPrefix(s: string, n: nat)
    requires |s| >= 3 && (s[0] == 'e' || s[0] == 'E') && (s[1] == '+' || s[1] == '-') && IsDigit(s[2])
    requires ExponentLength(s) <= n <= |s|
    ensures ExponentLength(s[..n]) == ExponentLength(s)
  {
    var t := s[..n];
    assert t[0] == s[0] && t[1] == s[1] && t[2] == s[2];
    RunLengthOfCutSlice(s, IsDigit, 2, n);
  }

  /** The double literal at the head of `s`, taken on its own, is a whole double literal. */
  lemma DoubleTokenIsNumber(s: string)
    requires StartsDouble(s)
    ensures IsNumber(s[..DoubleLength(s)])
  {
    var n := DoubleLength(s);
    var m := MantissaLength(s);
    var t := s[..n];
    MantissaLengthOfPrefix(s, n);
    assert t[m..] == s[m..][..n - m];
    ExponentLengthOfPrefix(s[m..], n - m);
  }

  // ---------------------------------------------------------------------
  // Properties of GetTokens

  /** The token classes of the tokenizer's documentation. */
  predicate IsOperatorToken(t: string) {
    t == "+" || t == "-" || t == "*" || t == "/"
  }

  predicate InSomeTokenClass(t: string) {
    t == "(" || t == ")" || IsOperatorToken(t) || IsVariableName(t) || IsNumber(t) || IsJunk(t)
  }

  /** A whole double literal consists of double-literal characters only. */
  lemma NumberCharacters(t: string)
    requires IsNumber(t)
    ensures forall k :: 0 <= k < |t| ==> IsDoubleChar(t[k])
  {
  }

  /** No string belongs to two of the token classes. */
  lemma TokenClassesDisjoint(t: string)
    ensures IsVariableName(t) ==> !IsNumber(t) && !IsJunk(t) && !IsOperatorToken(t) && t != "(" && t != ")"
    ensures IsNumber(t) ==> !IsJunk(t) && !IsOperatorToken(t) && t != "(" && t != ")"
    ensures IsJunk(t) ==> !IsOperatorToken(t) && t != "(" && t != ")"
  {
    if IsNumber(t) {
      NumberCharacters(t);
      assert IsDigit(t[0]) || IsDigit(t[1]);
    }
  }

  /** The head token of `s`: its class and the absence of white space in it. */
  lemma HeadToken(s: string)
    requires s != [] && MatchLength(s) > 0 && !IsSpace(s[0])
    ensures InSomeTokenClass(s[..MatchLength(s)])
    ensures forall k :: 0 <= k < MatchLength(s) ==> !IsSpace(s[k])
  {
    if IsParenthesis(s[0]) || IsOperatorChar(s[0]) {
      assert s[..MatchLength(s)] == [s[0]];
    } else if IsWordStart(s[0]) {
      HeadVariable(s);
    } else {
      assert MatchLength(s) == DoubleLength(s);
      HeadDouble(s);
    }
  }

  lemma HeadVariable(s: string)
    requires s != [] && IsWordStart(s[0]) && !IsParenthesis(s[0]) && !IsOperatorChar(s[0])
    ensures IsVariableName(s[..MatchLength(s)])
    ensures forall k :: 0 <= k < MatchLength(s) ==> !IsSpace(s[k])
  {
    var m := MatchLength(s);
    var t := s[..m];
    assert forall k :: 1 <= k < m ==> t[k] == s[1..][k - 1];
  }

  lemma HeadDouble(s: string)
    requires StartsDouble(s)
    ensures IsNumber(s[..DoubleLength(s)])
    ensures forall k :: 0 <= k < DoubleLength(s) ==> !IsSpace(s[k])
  {
    DoubleTokenIsNumber(s);
    DoubleWithoutSpace(s);
  }

  lemma DoubleWithoutSpace(s: string)
    requires StartsDouble(s)
    ensures forall k :: 0 <= k < DoubleLength(s) ==> !IsSpace(s[k])
  {
    forall k | 0 <= k < DoubleLength(s)
      ensures !IsSpace(s[k])
    {
      assert IsDoubleChar(s[k]);
    }
  }

  /** The junk run at the head of `s` is a junk token. */
  lemma HeadJunk(s: string)
    requires s != [] && MatchLength(s) == 0
    ensures IsJunk(s[..JunkLength(s)])
    ensures forall k :: 0 <= k < JunkLength(s) ==> !IsSpace(s[k])
  {
    var j := JunkLength(s);
    forall k | 0 <= k < j
      ensures !IsWordChar(s[k]) && !IsSpace(s[k]) && !IsParenthesis(s[k]) && !IsOperatorChar(s[k])
    {
      assert MatchLength(s[k..]) == 0;
      assert s[k..][0] == s[k];
    }
  }

  /**
   * Every token is non-empty, free of white space, and belongs to one of
   * the documented classes.
   */
  lemma {:induction false} TokensAreClassified(s: string)
    ensures forall t :: t in GetTokens(s) ==>
      |t| > 0 && InSomeTokenClass(t) && forall k :: 0 <= k < |t| ==> !IsSpace(t[k])
    decreases |s|
  {
    if s != [] {
      var m := MatchLength(s);
      if m == 0 {
        var j := JunkLength(s);
        HeadJunk(s);
        TokensAreClassified(s[j..]);
      } else if IsSpace(s[0]) {
        TokensAreClassified(s[m..]);
      } else {
        HeadToken(s);
        TokensAreClassified(s[m..]);
      }
    }
  }

  /** The characters of `s` that are not white space, in order. */
  function RemoveSpaces(s: string): (r: string)
    ensures |r| <= |s|
    ensures forall k :: 0 <= k < |r| ==> !IsSpace(r[k])
  {
    if s == [] then [] else (if IsSpace(s[0]) then [] else [s[0]]) + RemoveSpaces(s[1..])
  }

  lemma {:induction false} RemoveSpacesAppend(a: string, b: string)
    ensures RemoveSpaces(a + b) == RemoveSpaces(a) + RemoveSpaces(b)
  {
    if a != [] {
      assert (a + b)[1..] == a[1..] + b;
      RemoveSpacesAppend(a[1..], b);
    } else {
      assert a + b == b;
    }
  }

  lemma {:induction false} RemoveSpacesOfSpaceless(a: string)
    requires forall k :: 0 <= k < |a| ==> !IsSpace(a[k])
    ensures RemoveSpaces(a) == a
  {
    if a != [] {
      RemoveSpacesOfSpaceless(a[1..]);
    }
  }

  lemma {:induction false} RemoveSpacesOfSpaces(a: string)
    requires forall k :: 0 <= k < |a| ==> IsSpace(a[k])
    ensures RemoveSpaces(a) == []
  {
    if a != [] {
      RemoveSpacesOfSpaces(a[1..]);
    }
  }

  /** The tokens joined back together. */
  function Concat(tokens: seq<string>): string {
    if tokens == [] then [] else tokens[0] + Concat(tokens[1..])
  }

  /**
   * Nothing but white space is lost: the tokens, joined, give back the
   * expression with its white space removed.
   */
  lemma {:induction false} TokensCoverInput(s: string)
    ensures Concat(GetTokens(s)) == RemoveSpaces(s)
    decreases |s|
  {
    if s != [] {
      var m := MatchLength(s);
      if m == 0 {
        TokensCoverInput(s[JunkLength(s)..]);
        CoverJunk(s);
      } else {
        TokensCoverInput(s[m..]);
        CoverMatch(s);
      }
    }
  }

  /** Junk at the front is kept whole in front of the rest. */
  lemma CoverJunk(s: string)
    requires s != [] && MatchLength(s) == 0
    requires Concat(GetTokens(s[JunkLength(s)..])) == RemoveSpaces(s[JunkLength(s)..])
    ensures Concat(GetTokens(s)) == RemoveSpaces(s)
  {
    HeadJunk(s);
    CoverFront(s, JunkLength(s), GetTokens(s), GetTokens(s[JunkLength(s)..]));
  }

  /** A match at the front is kept whole, or dropped when it is white space. */
  lemma CoverMatch(s: string)
    requires s != [] && MatchLength(s) > 0
    requires Concat(GetTokens(s[MatchLength(s)..])) == RemoveSpaces(s[MatchLength(s)..])
    ensures Concat(GetTokens(s)) == RemoveSpaces(s)
  {
    if IsSpace(s[0]) {
      CoverSpaces(s, MatchLength(s), GetTokens(s), GetTokens(s[MatchLength(s)..]));
    } else {
      HeadToken(s);
      CoverFront(s, MatchLength(s), GetTokens(s), GetTokens(s[MatchLength(s)..]));
    }
  }

  /** A first token without white space, joined to the rest, gives the input without white space. */
  lemma CoverFront(s: string, n: nat, tokens: seq<string>, rest: seq<string>)
    requires 0 < n <= |s| && tokens == [s[..n]] + rest
    requires forall k :: 0 <= k < n ==> !IsSpace(s[k])
    requires Concat(rest) == RemoveSpaces(s[n..])
    ensures Concat(tokens) == RemoveSpaces(s)
  {
    assert s == s[..n] + s[n..];
    RemoveSpacesAppend(s[..n], s[n..]);
    RemoveSpacesOfSpaceless(s[..n]);
    assert tokens[1..] == rest;
  }

  /** A first run of white space contributes nothing. */
  lemma CoverSpaces(s: string, n: nat, tokens: seq<string>, rest: seq<string>)
    requires 0 < n <= |s| && tokens == rest
    requires forall k :: 0 <= k < n ==> IsSpace(s[k])
    requires Concat(rest) == RemoveSpaces(s[n..])
    ensures Concat(tokens) == RemoveSpaces(s)
  {
    assert s == s[..n] + s[n..];
    RemoveSpacesAppend(s[..n], s[n..]);
    RemoveSpacesOfSpaces(s[..n]);
  }

  /**
   * Because `IsVariable` is unanchored, among the tokens the tokenizer can
   * produce it accepts the variables and also every double literal written
   * with an exponent.
   */
  lemma VariableTokens(t: string)
    requires InSomeTokenClass(t)
    ensures IsVariable(t) <==> IsVariableName(t) || (IsNumber(t) && exists k :: 0 <= k < |t| && t[k] in "eE")
  {
    if IsNumber(t) {
      NumberVariable(t);
    } else if IsVariableName(t) {
      assert IsWordStart(t[0]);
    }
  }

  /** A double literal has a letter exactly when it has an exponent marker. */
  lemma NumberVariable(t: string)
    requires IsNumber(t)
    ensures IsVariable(t) <==> exists k :: 0 <= k < |t| && t[k] in "eE"
  {
    NumberCharacters(t);
    assert forall k :: 0 <= k < |t| ==> (IsWordStart(t[k]) <==> t[k] in "eE");
  }

  /** `1e5` is a double literal, a single token, and yet a variable to `IsVariable`. */
  lemma ExponentLiteralIsVariable(s: string)
    requires s == "1e5"
    ensures GetTokens(s) == [s]
    ensures ParseDouble(s) == Some(100000.0)
    ensures IsVariable(s) && !IsVariableName(s)
  {
    assert RunLength(s[1..], IsDigit) == 0;
    assert RunLength(s, IsDigit) == 1;
    assert MantissaLength(s) == 1;
    assert s[1..][1..] == "5";
    assert RunLength("5", IsDigit) == 1;
    assert ExponentLength(s[1..]) == 2;
    assert MatchLength(s) == 3;
    assert s[3..] == [] && s[..3] == s;
    assert GetTokens(s[3..]) == [];
    assert !IsSpace(s[0]) && IsWordStart(s[1]);
    assert DigitsValue("1") == 1;
    assert DigitsValue("5") == 5;
    assert ParseExponent(s[1..]) == Some(5);
    assert Pow10(5) == 100000.0;
  }

  /**
   * The character at `k` is a parenthesis, an operator, or a digit followed
   * by a parenthesis, an operator or the end: a token by itself.
   */
  predicate LoneCharacter(s: string, k: nat)
    requires k < |s|
  {
    IsParenthesis(s[k]) || IsOperatorChar(s[k]) ||
    (IsDigit(s[k]) && (k + 1 == |s| || IsParenthesis(s[k + 1]) || IsOperatorChar(s[k + 1])))
  }

  predicate SingleCharacterTokens(s: string) {
    forall k :: 0 <= k < |s| ==> LoneCharacter(s, k)
  }

  /** Such an expression splits into one token per character. */
  lemma {:induction false} SingleCharacterTokensLex(s: string)
    requires SingleCharacterTokens(s)
    ensures |GetTokens(s)| == |s|
    ensures forall k :: 0 <= k < |s| ==> GetTokens(s)[k] == [s[k]]
    decreases |s|
  {
    if s != [] {
      assert LoneCharacter(s, 0);
      if IsDigit(s[0]) {
        assert RunLength(s, IsDigit) == 1 by {
          if |s| > 1 {
            assert s[1..][0] == s[1];
          }
        }
        assert MantissaLength(s) == 1;
        assert ExponentLength(s[1..]) == 0;
        assert MatchLength(s) == 1;
      }
      assert s[..1] == [s[0]];
      assert SingleCharacterTokens(s[1..]) by {
        forall k | 0 <= k < |s[1..]|
          ensures LoneCharacter(s[1..], k)
        {
          assert LoneCharacter(s, k + 1);
          assert s[1..][k] == s[k + 1];
          if k + 1 < |s[1..]| {
            assert s[1..][k + 1] == s[k + 2];
          }
        }
      }
      SingleCharacterTokensLex(s[1..]);
    }
  }

  // ---------------------------------------------------------------------
  // The value of a double literal

  predicate AllDigits(s: string) {
    forall k :: 0 <= k < |s| ==> IsDigit(s[k])
  }

  /** An optional exponent sign. */
  predicate IsSign(sign: string) {
    sign == "" || sign == "+" || sign == "-"
  }

  /** The value of a signed exponent's digits. */
  function SignedValue(sign: string, x: string): int
    requires AllDigits(x)
  {
    if sign == "-" then -(DigitsValue(x) as int) else DigitsValue(x)
  }

  /** A run of digits ends where the digits do. */
  lemma {:induction false} RunOfDigits(w: string, rest: string)
    requires AllDigits(w) && (rest == [] || !IsDigit(rest[0]))
    ensures RunLength(w + rest, IsDigit) == |w|
    decreases |w|
  {
    if w != [] {
      assert (w + rest)[1..] == w[1..] + rest;
      RunOfDigits(w[1..], rest);
    }
  }

  /** The digit runs on either side of the point of `w.f`. */
  lemma PointRuns(w: string, f: string, rest: string)
    requires AllDigits(w) && AllDigits(f)
    requires rest == [] || !IsDigit(rest[0])
    ensures var t := w + "." + f + rest;
      RunLength(t, IsDigit) == |w| && t[|w|] == '.' && RunLength(t[|w| + 1..], IsDigit) == |f|
  {
    var t := w + "." + f + rest;
    assert t == w + ("." + f + rest);
    RunOfDigits(w, "." + f + rest);
    assert t[|w| + 1..] == f + rest;
    RunOfDigits(f, rest);
  }

  /** The mantissa `w.f`, where `w` or `f` may be empty but not both. */
  lemma PointMantissa(w: string, f: string, rest: string)
    requires AllDigits(w) && AllDigits(f) && (|w| > 0 || |f| > 0)
    requires rest == [] || !IsDigit(rest[0])
    ensures var t := w + "." + f + rest;
      StartsDouble(t) && RunLength(t, IsDigit) == |w| && MantissaLength(t) == |w| + 1 + |f| &&
      t[..|w|] == w && t[|w| + 1..|w| + 1 + |f|] == f && t[|w| + 1 + |f|..] == rest
  {
    var t := w + "." + f + rest;
    PointRuns(w, f, rest);
    assert StartsDouble(t) && MantissaLength(t) == |w| + 1 + |f| by {
      if w == [] {
        assert t[1..] == t[|w| + 1..];
        assert t[1] == f[0];
      } else {
        assert t[0] == w[0];
      }
    }
    assert t[..|w|] == w;
    assert t[|w| + 1..|w| + 1 + |f|] == f;
    assert t[|w| + 1 + |f|..] == rest;
  }

  /** The mantissa `w` with no point. */
  lemma IntegerMantissa(w: string, rest: string)
    requires AllDigits(w) && |w| > 0
    requires rest == [] || (!IsDigit(rest[0]) && rest[0] != '.')
    ensures var t := w + rest;
      StartsDouble(t) && RunLength(t, IsDigit) == |w| && MantissaLength(t) == |w| &&
      t[..|w|] == w && t[|w|..] == rest
  {
    RunOfDigits(w, rest);
    assert (w + rest)[0] == w[0];
  }

  /** The exponent `[eE][+-]?x` is worth the signed value of `x`. */
  lemma ExponentValue(e: char, sign: string, x: string)
    requires (e == 'e' || e == 'E') && IsSign(sign) && AllDigits(x) && |x| > 0
    ensures ParseExponent([e] + sign + x) == Some(SignedValue(sign, x))
  {
    var t := [e] + sign + x;
    if sign == "" {
      assert t[1..] == x;
    } else {
      assert t[1] == sign[0];
      assert t[2..] == x;
    }
    RunOfDigits(x, []);
    assert x + [] == x;
  }

  /** `\d+`: an integer literal is worth its digits. */
  lemma IntegerLiteralValue(w: string)
    requires AllDigits(w) && |w| > 0
    ensures ParseDouble(w) == Some(DigitsValue(w) as real)
  {
    assert w + [] == w;
    IntegerMantissa(w, []);
    IntegerParse(w, w, 0);
    var x := DigitsValue(w) as real;
    assert Scale(x, 0) == x * Pow10(0) == x;
  }

  /** `ParseDouble` of a literal without a point, once its digits are located. */
  lemma IntegerParse(t: string, w: string, e: int)
    requires AllDigits(w) && |w| > 0
    requires StartsDouble(t) && RunLength(t, IsDigit) == |w| && MantissaLength(t) == |w|
    requires t[..|w|] == w && ParseExponent(t[|w|..]) == Some(e)
    ensures ParseDouble(t) == Some(Scale(DigitsValue(w) as real, e))
  {
    var d, m := RunLength(t, IsDigit), MantissaLength(t);
    assert t[..d] == w;
    assert ParseExponent(t[m..]) == Some(e);
  }

  /** `\d+[eE][+-]?\d+`: an integer scaled by its exponent. */
  lemma IntegerExponentLiteralValue(w: string, e: char, sign: string, x: string)
    requires AllDigits(w) && |w| > 0
    requires (e == 'e' || e == 'E') && IsSign(sign) && AllDigits(x) && |x| > 0
    ensures ParseDouble(w + ([e] + sign + x)) == Some(Scale(DigitsValue(w) as real, SignedValue(sign, x)))
  {
    IntegerMantissa(w, [e] + sign + x);
    ExponentValue(e, sign, x);
    IntegerParse(w + ([e] + sign + x), w, SignedValue(sign, x));
  }

  /** `ParseDouble` of a literal with a point, once its parts are located. */
  lemma PointParse(t: string, w: string, f: string, e: int)
    requires AllDigits(w) && AllDigits(f) && (|w| > 0 || |f| > 0)
    requires StartsDouble(t) && RunLength(t, IsDigit) == |w| && MantissaLength(t) == |w| + 1 + |f|
    requires t[..|w|] == w && t[|w| + 1..|w| + 1 + |f|] == f
    requires ParseExponent(t[|w| + 1 + |f|..]) == Some(e)
    ensures ParseDouble(t) == Some(Scale(PointValue(w, f), e))
  {
    var d, m := RunLength(t, IsDigit), MantissaLength(t);
    assert t[..d] == w && t[d + 1..m] == f;
    assert PointValue(t[..d], t[d + 1..m]) == PointValue(w, f);
    assert m > d;
    assert ParseExponent(t[m..]) == Some(e);
  }

  /** `\d+\.\d*` and `\.\d+`: whole digits plus the fraction's digits over a power of ten. */
  lemma PointLiteralValue(w: string, f: string)
    requires AllDigits(w) && AllDigits(f) && (|w| > 0 || |f| > 0)
    ensures ParseDouble(w + "." + f) == Some(PointValue(w, f))
  {
    var t := w + "." + f;
    assert t + [] == t;
    PointMantissa(w, f, []);
    assert t[|w| + 1 + |f|..] == [];
    PointParse(t, w, f, 0);
    assert Scale(PointValue(w, f), 0) == PointValue(w, f) * Pow10(0) == PointValue(w, f);
  }

  /** A point literal with an exponent: the point literal's value scaled by the exponent. */
  lemma PointExponentLiteralValue(w: string, f: string, e: char, sign: string, x: string)
    requires AllDigits(w) && AllDigits(f) && (|w| > 0 || |f| > 0)
    requires (e == 'e' || e == 'E') && IsSign(sign) && AllDigits(x) && |x| > 0
    ensures ParseDouble(w + "." + f + ([e] + sign + x)) == Some(Scale(PointValue(w, f), SignedValue(sign, x)))
  {
    PointMantissa(w, f, [e] + sign + x);
    ExponentValue(e, sign, x);
    PointParse(w + "." + f + ([e] + sign + x), w, f, SignedValue(sign, x));
  }

  // ---------------------------------------------------------------------
  // GetNormalizedVariables

  /** `normalizer(t)` for each token that passes `IsVariable`, in token order. */
  function NormalizedVariableTokens(tokens: seq<string>, normalizer: string -> string): (r: seq<string>)
    ensures forall x :: x in r <==> exists t :: t in tokens && IsVariable(t) && normalizer(t) == x
  {
    if tokens == [] then []
    else
      var rest := NormalizedVariableTokens(tokens[..|tokens| - 1], normalizer);
      var t := tokens[|tokens| - 1];
      assert forall u :: u in tokens <==> u in tokens[..|tokens| - 1] || u == t;
      if IsVariable(t) then rest + [normalizer(t)] else rest
  }

  /** Whether no element of `xs` occurs twice. */
  predicate NoDuplicates(xs: seq<string>) {
    forall i, j :: 0 <= i < j < |xs| ==> xs[i] != xs[j]
  }

  /** The position of the first occurrence of `x` in `xs`. */
  function FirstIndex(xs: seq<string>, x: string): (i: nat)
    requires x in xs
    ensures i < |xs| && xs[i] == x
    ensures forall k :: 0 <= k < i ==> xs[k] != x
  {
    if xs[0] == x then 0 else 1 + FirstIndex(xs[1..], x)
  }

  lemma FirstIndexOfPrefix(xs: seq<string>, n: nat, x: string)
    requires n <= |xs| && x in xs[..n]
    ensures x in xs && FirstIndex(xs, x) == FirstIndex(xs[..n], x)
  {
    var i := FirstIndex(xs[..n], x);
    assert xs[i] == x;
    var j := FirstIndex(xs, x);
    assert j <= i;
    assert xs[..n][j] == xs[j];
  }

  /**
   * The reference for duplicate removal: each element is kept at its first
   * occurrence only, so the survivors appear in the order in which they
   * first occur.
   */
  function Dedup(xs: seq<string>): (r: seq<string>)
    ensures NoDuplicates(r)
    ensures forall x :: x in r <==> x in xs
    ensures forall i, j :: 0 <= i < j < |r| ==> FirstIndex(xs, r[i]) < FirstIndex(xs, r[j])
  {
    if xs == [] then []
    else
      var prefix := xs[..|xs| - 1];
      var x := xs[|xs| - 1];
      var d := Dedup(prefix);
      assert forall y :: y in xs <==> y in prefix || y == x;
      forall y | y in d ensures FirstIndex(xs, y) == FirstIndex(prefix, y) {
        FirstIndexOfPrefix(xs, |xs| - 1, y);
      }
      if x in d then d
      else
        assert x !in prefix;
        assert FirstIndex(xs, x) == |xs| - 1;
        d + [x]
  }

  /**
   * `GetNormalizedVariables`: the normalized variables in order of first
   * occurrence, each once, with duplicates judged after normalization.
   */
  method GetNormalizedVariables(tokens: seq<string>, normalizer: string -> string)
    returns (variables: seq<string>)
    ensures variables == Dedup(NormalizedVariableTokens(tokens, normalizer))
    ensures NoDuplicates(variables)
    ensures forall x :: x in variables <==> exists t :: t in tokens && IsVariable(t) && normalizer(t) == x
  {
    var seenVariables: set<string> := {};
    variables := [];
    for k := 0 to |tokens|
      invariant variables == Dedup(NormalizedVariableTokens(tokens[..k], normalizer))
      invariant seenVariables == set x | x in variables
    {
      var token := tokens[k];
      assert tokens[..k + 1][..k] == tokens[..k];
      if !IsVariable(token) {
        continue;
      }
      var normalizedToken := normalizer(token);
      if normalizedToken in seenVariables {
        continue;
      }
      seenVariables := seenVariables + {normalizedToken};
      variables := variables + [normalizedToken];
    }
    assert tokens[..|tokens|] == tokens;
  }
}

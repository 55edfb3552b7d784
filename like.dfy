/** LIKE and ILIKE: a pattern is read into tokens (`%` any run, `_` one character, a
    backslash makes the next character literal), translated to a regular expression, and the
    whole text must match it. */
module Like {
  import opened Values

  datatype Token = Lit(c: char) | AnyOne | AnyRun

  /** The pattern's tokens; a backslash with nothing after it is an error. */
  function Tokenize(p: string): Result<seq<Token>> {
    if p == [] then Ok([])
    else if p[0] == '\\' then
      if |p| == 1 then Err(InvalidEscapeSequence) else Prepend([Lit(p[1])], Tokenize(p[2..]))
    else if p[0] == '_' then Prepend([AnyOne], Tokenize(p[1..]))
    else if p[0] == '%' then Prepend([AnyRun], Tokenize(p[1..]))
    else Prepend([Lit(p[0])], Tokenize(p[1..]))
  }

  function Prepend(acc: seq<Token>, r: Result<seq<Token>>): Result<seq<Token>> {
    match r
    case Ok(ts) => Ok(acc + ts)
    case Err(e) => Err(e)
  }

  /** The ASCII part of Python's `\w`: letters, digits and `_`. Python also counts non-ASCII
      letters and digits as word characters and leaves them unescaped; escaping them, as
      here, changes the emitted text but not what it matches. */
  predicate IsWordChar(c: char) {
    ('a' <= c <= 'z') || ('A' <= c <= 'Z') || ('0' <= c <= '9') || c == '_'
  }

  /** The regular-expression text emitted for one token: non-word characters are
      backslash-escaped, `_` becomes `.` and `%` becomes `.*`. */
  function TokenRegex(t: Token): string {
    match t
    case AnyOne => "."
    case AnyRun => ".*"
    case Lit(c) => if IsWordChar(c) then [c] else ['\\', c]
  }

  function RegexOf(ts: seq<Token>): string {
    if ts == [] then "" else TokenRegex(ts[0]) + RegexOf(ts[1..])
  }

  /** Reads the emitted regular-expression fragment back into tokens. */
  function DecodeRegex(r: string): seq<Token> {
    if r == [] then []
    else if r[0] == '.' then
      if |r| >= 2 && r[1] == '*' then [AnyRun] + DecodeRegex(r[2..]) else [AnyOne] + DecodeRegex(r[1..])
    else if r[0] == '\\' && |r| >= 2 then [Lit(r[1])] + DecodeRegex(r[2..])
    else [Lit(r[0])] + DecodeRegex(r[1..])
  }

  lemma {:induction false} RegexOfAppend(ts: seq<Token>, t: Token)
    ensures RegexOf(ts + [t]) == RegexOf(ts) + TokenRegex(t)
  {
    if ts != [] {
      assert (ts + [t])[1..] == ts[1..] + [t];
      RegexOfAppend(ts[1..], t);
    }
  }

  /** The translation of `_like_pattern_to_regex`: one pass over the pattern with an
      `escaped` flag. It yields the regular expression of the pattern's tokens, or the
      escape error when the pattern ends in an unpaired backslash. */
  method LikePatternToRegex(pattern: string) returns (r: Result<string>)
    ensures Tokenize(pattern).Err? ==> r == Err(InvalidEscapeSequence)
    ensures Tokenize(pattern).Ok? ==> r == Ok(RegexOf(Tokenize(pattern).value))
  {
    var escaped := false;
    var out := "";
    ghost var acc: seq<Token> := [];
    var i := 0;
    assert pattern[0..] == pattern;
    assert Prepend([], Tokenize(pattern)) == Tokenize(pattern) by { PrependNothing(Tokenize(pattern)); }
    while i < |pattern|
      invariant 0 <= i <= |pattern|
      invariant out == RegexOf(acc)
      invariant escaped ==> i >= 1 && pattern[i - 1] == '\\'
      invariant Tokenize(pattern) == Prepend(acc, Tokenize(pattern[(if escaped then i - 1 else i)..]))
    {
      var ch := pattern[i];
      ghost var t: Token;
      if escaped {
        t := Lit(ch);
        out := out + (if IsWordChar(ch) then [ch] else ['\\', ch]);
        escaped := false;
        assert pattern[i - 1..][2..] == pattern[i + 1..];
      } else if ch == '\\' {
        escaped := true;
      } else if ch == '_' {
        t := AnyOne;
        out := out + ".";
      } else if ch == '%' {
        t := AnyRun;
        out := out + ".*";
      } else {
        t := Lit(ch);
        out := out + (if IsWordChar(ch) then [ch] else ['\\', ch]);
      }
      if !escaped {
        RegexOfAppend(acc, t);
        PrependAssoc(acc, [t], Tokenize(pattern[i + 1..]));
        acc := acc + [t];
      }
      i := i + 1;
    }
    if escaped {
      assert pattern[i - 1..] == ['\\'];
      return Err(InvalidEscapeSequence);
    }
    assert pattern[i..] == [] && acc + [] == acc;
    return Ok(out);
  }

  lemma PrependNothing(r: Result<seq<Token>>)
    ensures Prepend([], r) == r
  {
    if r.Ok? { assert [] + r.value == r.value; }
  }

  lemma PrependAssoc(a: seq<Token>, b: seq<Token>, r: Result<seq<Token>>)
    ensures Prepend(a, Prepend(b, r)) == Prepend(a + b, r)
  {
    if r.Ok? { assert a + (b + r.value) == (a + b) + r.value; }
  }

  /** Python's regular-expression text never puts a bare `*` first, so a `.` followed by the
      next token's text is never read as `.*`. */
  lemma {:induction false} RegexOfNeverStartsWithStar(ts: seq<Token>)
    ensures RegexOf(ts) == [] || RegexOf(ts)[0] != '*'
  {
    if ts != [] {
      assert RegexOf(ts)[0] == TokenRegex(ts[0])[0];
    }
  }

  /** The emitted regular expression determines the token list: distinct patterns with
      distinct meanings never collapse to the same text. */
  lemma {:induction false} DecodeRegexOf(ts: seq<Token>)
    ensures DecodeRegex(RegexOf(ts)) == ts
  {
    if ts != [] {
      var rest := RegexOf(ts[1..]);
      DecodeRegexOf(ts[1..]);
      RegexOfNeverStartsWithStar(ts[1..]);
      var r := RegexOf(ts);
      assert r == TokenRegex(ts[0]) + rest;
      match ts[0]
      case AnyOne =>
        assert r[1..] == rest;
      case AnyRun =>
        assert r[2..] == rest;
      case Lit(c) =>
        if IsWordChar(c) {
          assert r[1..] == rest;
        } else {
          assert r[2..] == rest;
        }
    }
  }

  /** ASCII case folding; Python's IGNORECASE folds more characters than this. */
  function Fold(c: char): char {
    if 'A' <= c <= 'Z' then (c as int + 32) as char else c
  }

  function FoldAll(s: string): (r: string)
    ensures |r| == |s| && forall k :: 0 <= k < |s| ==> r[k] == Fold(s[k])
  {
    if s == [] then [] else [Fold(s[0])] + FoldAll(s[1..])
  }

  predicate CharMatches(c: char, d: char, ignoreCase: bool) {
    if ignoreCase then Fold(c) == Fold(d) else c == d
  }

  /** Whole-text match of a token list. `dotAll` says whether the wildcards may take a
      newline: Python's `.` does not, SQL's `%` and `_` do. */
  predicate MatchesIn(ts: seq<Token>, t: string, ignoreCase: bool, dotAll: bool)
    decreases |ts| + |t|
  {
    if ts == [] then t == []
    else match ts[0]
      case AnyRun =>
        MatchesIn(ts[1..], t, ignoreCase, dotAll)
        || (|t| > 0 && (dotAll || t[0] != '\n') && MatchesIn(ts, t[1..], ignoreCase, dotAll))
      case AnyOne =>
        |t| > 0 && (dotAll || t[0] != '\n') && MatchesIn(ts[1..], t[1..], ignoreCase, dotAll)
      case Lit(c) =>
        |t| > 0 && CharMatches(c, t[0], ignoreCase) && MatchesIn(ts[1..], t[1..], ignoreCase, dotAll)
  }

  /** The matching `re.fullmatch` performs on the emitted regular expression. */
  predicate RegexFullMatch(ts: seq<Token>, t: string, ignoreCase: bool) {
    MatchesIn(ts, t, ignoreCase, false)
  }

  /** LIKE matching as SQL means it: wildcards take any character. */
  predicate Matches(ts: seq<Token>, t: string, ignoreCase: bool) {
    MatchesIn(ts, t, ignoreCase, true)
  }

  /** `text LIKE pattern`. */
  function LikeOperator(text: string, pattern: string): Result<bool> {
    match Tokenize(pattern)
    case Ok(ts) => Ok(Matches(ts, text, false))
    case Err(e) => Err(e)
  }

  /** `text ILIKE pattern`. */
  function ILikeOperator(text: string, pattern: string): Result<bool> {
    match Tokenize(pattern)
    case Ok(ts) => Ok(Matches(ts, text, true))
    case Err(e) => Err(e)
  }

  /** `like_operator` as written: `re.fullmatch` of the emitted expression, whose `.` refuses
      a newline. */
  function LikeOperatorAsWritten(text: string, pattern: string): Result<bool> {
    match Tokenize(pattern)
    case Ok(ts) => Ok(RegexFullMatch(ts, text, false))
    case Err(e) => Err(e)
  }

  /** `ilike_operator` as written, with `re.IGNORECASE`. */
  function ILikeOperatorAsWritten(text: string, pattern: string): Result<bool> {
    match Tokenize(pattern)
    case Ok(ts) => Ok(RegexFullMatch(ts, text, true))
    case Err(e) => Err(e)
  }

  // ---------------------------------------------------------------------------
  // Tokenizing

  /** The only error is a backslash in last position with nothing left to escape. */
  lemma {:induction false} TokenizeErrorIsDanglingEscape(p: string)
    ensures Tokenize(p).Err? ==> Tokenize(p).error == InvalidEscapeSequence && p != [] && p[|p| - 1] == '\\'
  {
    if p != [] {
      if p[0] == '\\' {
        if |p| > 2 {
          TokenizeErrorIsDanglingEscape(p[2..]);
          assert p[2..][|p[2..]| - 1] == p[|p| - 1];
        }
      } else if |p| > 1 {
        TokenizeErrorIsDanglingEscape(p[1..]);
        assert p[1..][|p[1..]| - 1] == p[|p| - 1];
      }
    }
  }

  /** After a well-formed pattern, a backslash and any character add that character as a
      literal, and a lone backslash makes the pattern invalid. */
  lemma {:induction false} TokenizeEscapeAtEnd(p: string, c: char)
    requires Tokenize(p).Ok?
    ensures Tokenize(p + ['\\', c]) == Ok(Tokenize(p).value + [Lit(c)])
    ensures Tokenize(p + ['\\']) == Err(InvalidEscapeSequence)
  {
    if p == [] {
      assert ([] + ['\\', c])[2..] == [];
      assert [Lit(c)] + [] == [] + [Lit(c)];
    } else if p[0] == '\\' {
      assert (p + ['\\', c])[2..] == p[2..] + ['\\', c];
      assert (p + ['\\'])[2..] == p[2..] + ['\\'];
      TokenizeEscapeAtEnd(p[2..], c);
      var ts := Tokenize(p[2..]).value;
      assert [Lit(p[1])] + (ts + [Lit(c)]) == ([Lit(p[1])] + ts) + [Lit(c)];
    } else {
      assert (p + ['\\', c])[1..] == p[1..] + ['\\', c];
      assert (p + ['\\'])[1..] == p[1..] + ['\\'];
      TokenizeEscapeAtEnd(p[1..], c);
      var ts := Tokenize(p[1..]).value;
      forall a: seq<Token> ensures a + (ts + [Lit(c)]) == (a + ts) + [Lit(c)] { }
    }
  }

  /** The token an unescaped pattern character stands for. */
  function TokenOf(c: char): Token {
    if c == '%' then AnyRun else if c == '_' then AnyOne else Lit(c)
  }

  /** After a well-formed pattern, any character but a backslash adds its own token: `%` a run
      of any length, `_` one character, anything else itself. */
  lemma {:induction false} TokenizeCharAtEnd(p: string, c: char)
    requires Tokenize(p).Ok? && c != '\\'
    ensures Tokenize(p + [c]) == Ok(Tokenize(p).value + [TokenOf(c)])
  {
    if p == [] {
      assert ([] + [c])[1..] == [] && ([] + [c])[0] == c;
      assert [TokenOf(c)] + [] == [] + [TokenOf(c)];
    } else if p[0] == '\\' {
      assert (p + [c])[2..] == p[2..] + [c];
      TokenizeCharAtEnd(p[2..], c);
      var ts := Tokenize(p[2..]).value;
      assert [Lit(p[1])] + (ts + [TokenOf(c)]) == ([Lit(p[1])] + ts) + [TokenOf(c)];
    } else {
      assert (p + [c])[1..] == p[1..] + [c];
      TokenizeCharAtEnd(p[1..], c);
      var ts := Tokenize(p[1..]).value;
      forall a: seq<Token> ensures a + (ts + [TokenOf(c)]) == (a + ts) + [TokenOf(c)] { }
    }
  }

  lemma TokenizeWildcards()
    ensures Tokenize("%") == Ok([AnyRun]) && Tokenize("_") == Ok([AnyOne])
  {
    assert "%"[1..] == [] && "%"[0] == '%';
    assert "_"[1..] == [] && "_"[0] == '_';
    assert [AnyRun] + [] == [AnyRun] && [AnyOne] + [] == [AnyOne];
  }

  /** The pattern that escapes every character of `s`. */
  function EscapeAll(s: string): (r: string)
    ensures |r| == 2 * |s|
  {
    if s == [] then [] else ['\\', s[0]] + EscapeAll(s[1..])
  }

  function Lits(s: string): (ts: seq<Token>)
    ensures |ts| == |s| && forall k :: 0 <= k < |s| ==> ts[k] == Lit(s[k])
  {
    if s == [] then [] else [Lit(s[0])] + Lits(s[1..])
  }

  lemma {:induction false} TokenizeEscapeAll(s: string)
    ensures Tokenize(EscapeAll(s)) == Ok(Lits(s))
  {
    if s != [] {
      var p := EscapeAll(s);
      assert p[2..] == EscapeAll(s[1..]);
      TokenizeEscapeAll(s[1..]);
    }
  }

  // ---------------------------------------------------------------------------
  // Matching

  lemma {:induction false} AnyRunMatchesAll(t: string, ignoreCase: bool)
    ensures Matches([AnyRun], t, ignoreCase)
  {
    if t != [] {
      AnyRunMatchesAll(t[1..], ignoreCase);
    }
  }

  /** `%` matches every text, the empty one included. */
  lemma PercentMatchesEverything(t: string)
    ensures LikeOperator(t, "%") == Ok(true)
    ensures ILikeOperator(t, "%") == Ok(true)
  {
    TokenizeWildcards();
    AnyRunMatchesAll(t, false);
    AnyRunMatchesAll(t, true);
  }

  /** `_` matches exactly the texts of one character; as written, not a lone newline. */
  lemma UnderscoreMatchesOneChar(t: string)
    ensures LikeOperator(t, "_") == Ok(|t| == 1)
    ensures LikeOperatorAsWritten(t, "_") == Ok(|t| == 1 && t[0] != '\n')
  {
    TokenizeWildcards();
    assert [AnyOne][1..] == [];
    if |t| > 0 {
      assert MatchesIn([AnyOne], t, false, true) == MatchesIn([], t[1..], false, true);
      assert MatchesIn([AnyOne], t, false, false) == (t[0] != '\n' && MatchesIn([], t[1..], false, false));
    }
  }

  /** As written, `%` alone matches exactly the texts without a newline. */
  lemma {:induction false} AnyRunAsWritten(t: string, ic: bool)
    ensures RegexFullMatch([AnyRun], t, ic) <==> '\n' !in t
  {
    var run: seq<Token> := [AnyRun];
    assert run[0] == AnyRun && run[1..] == [];
    if t == [] {
      assert MatchesIn([], t, ic, false);
    } else {
      AnyRunAsWritten(t[1..], ic);
      assert !MatchesIn([], t, ic, false);
      assert RegexFullMatch(run, t, ic) == (t[0] != '\n' && RegexFullMatch(run, t[1..], ic));
      if '\n' in t && t[0] != '\n' {
        var k :| 0 <= k < |t| && t[k] == '\n';
        assert t[1..][k - 1] == '\n';
      }
      if '\n' in t[1..] {
        var k :| 0 <= k < |t[1..]| && t[1..][k] == '\n';
        assert t[k + 1] == '\n';
      }
    }
  }

  /** A pattern of literals matches exactly its own text: the match covers the whole text. */
  lemma {:induction false} LiteralsMatchExactly(s: string, t: string)
    ensures Matches(Lits(s), t, false) <==> t == s
  {
    if s != [] && t != [] {
      LiteralsMatchExactly(s[1..], t[1..]);
      assert Lits(s)[1..] == Lits(s[1..]);
      if t[1..] == s[1..] && t[0] == s[0] {
        assert t == [t[0]] + t[1..] && s == [s[0]] + s[1..];
      }
    }
  }

  /** Escaping every character of a text gives a pattern that matches that text alone. */
  lemma EscapedPatternMatchesOnlyItself(s: string, t: string)
    ensures LikeOperator(t, EscapeAll(s)) == Ok(t == s)
  {
    TokenizeEscapeAll(s);
    LiteralsMatchExactly(s, t);
  }

  /** Concatenated token lists match exactly the texts that split into a match of each. */
  lemma {:induction false} MatchesConcat(p: seq<Token>, q: seq<Token>, t: string, ic: bool)
    ensures Matches(p + q, t, ic) <==> exists k :: 0 <= k <= |t| && Matches(p, t[..k], ic) && Matches(q, t[k..], ic)
    decreases |p| + |t|
  {
    if p == [] {
      assert p + q == q;
      if Matches(q, t, ic) {
        assert t[..0] == [] && t[0..] == t;
      }
    } else {
      assert (p + q)[0] == p[0] && (p + q)[1..] == p[1..] + q;
      match p[0]
      case AnyRun =>
        ConcatAnyRun(p, q, t, ic);
      case AnyOne =>
        ConcatStep(p, q, t, ic);
      case Lit(c) =>
        ConcatStep(p, q, t, ic);
    }
  }

  /** The step of MatchesConcat for a token that takes exactly one character. */
  lemma {:induction false} ConcatStep(p: seq<Token>, q: seq<Token>, t: string, ic: bool)
    requires p != [] && !p[0].AnyRun?
    ensures Matches(p + q, t, ic) <==> exists k :: 0 <= k <= |t| && Matches(p, t[..k], ic) && Matches(q, t[k..], ic)
    decreases |p| + |t|, 0
  {
    assert (p + q)[0] == p[0] && (p + q)[1..] == p[1..] + q;
    if t == [] {
      assert forall k :: 0 <= k <= |t| ==> t[..k] == [];
    } else {
      var head := p[0];
      var ok0 := match head case Lit(c) => CharMatches(c, t[0], ic) case _ => true;
      assert Matches(p + q, t, ic) <==> ok0 && Matches(p[1..] + q, t[1..], ic);
      MatchesConcat(p[1..], q, t[1..], ic);
      if Matches(p + q, t, ic) {
        var k :| 0 <= k <= |t[1..]| && Matches(p[1..], t[1..][..k], ic) && Matches(q, t[1..][k..], ic);
        assert t[..k + 1][0] == t[0] && t[..k + 1][1..] == t[1..][..k];
        assert t[k + 1..] == t[1..][k..];
        assert Matches(p, t[..k + 1], ic);
      }
      if exists k :: 0 <= k <= |t| && Matches(p, t[..k], ic) && Matches(q, t[k..], ic) {
        var k :| 0 <= k <= |t| && Matches(p, t[..k], ic) && Matches(q, t[k..], ic);
        assert k > 0;
        assert t[..k][0] == t[0] && t[..k][1..] == t[1..][..k - 1];
        assert t[k..] == t[1..][k - 1..];
        assert Matches(p[1..], t[1..][..k - 1], ic) && Matches(q, t[1..][k - 1..], ic);
      }
    }
  }

  /** The step of MatchesConcat for `%`, which may take no character or one more. */
  lemma {:induction false} ConcatAnyRun(p: seq<Token>, q: seq<Token>, t: string, ic: bool)
    requires p != [] && p[0].AnyRun?
    ensures Matches(p + q, t, ic) <==> exists k :: 0 <= k <= |t| && Matches(p, t[..k], ic) && Matches(q, t[k..], ic)
    decreases |p| + |t|, 0
  {
    assert (p + q)[0] == p[0] && (p + q)[1..] == p[1..] + q;
    // p + q takes no character at `%` (rest of p then q), or one and stays on p + q.
    MatchesConcat(p[1..], q, t, ic);
    if t != [] {
      MatchesConcat(p, q, t[1..], ic);
    }
    if Matches(p + q, t, ic) {
      if Matches(p[1..] + q, t, ic) {
        var k :| 0 <= k <= |t| && Matches(p[1..], t[..k], ic) && Matches(q, t[k..], ic);
        assert Matches(p, t[..k], ic);
      } else {
        var k :| 0 <= k <= |t[1..]| && Matches(p, t[1..][..k], ic) && Matches(q, t[1..][k..], ic);
        assert t[..k + 1][1..] == t[1..][..k] && t[k + 1..] == t[1..][k..];
        assert Matches(p, t[..k + 1], ic);
      }
    }
    if exists k :: 0 <= k <= |t| && Matches(p, t[..k], ic) && Matches(q, t[k..], ic) {
      var k :| 0 <= k <= |t| && Matches(p, t[..k], ic) && Matches(q, t[k..], ic);
      if Matches(p[1..], t[..k], ic) {
        assert Matches(p[1..] + q, t, ic);
      } else {
        assert k > 0 && Matches(p, t[..k][1..], ic);
        assert t[..k][1..] == t[1..][..k - 1] && t[k..] == t[1..][k - 1..];
        assert Matches(p + q, t[1..], ic);
      }
    }
  }

  /** With an escaped `%` first, `\%%` matches exactly the texts that start with `%`; as
      written, only those with no newline after the `%`. */
  lemma EscapedPercentThenPercent(t: string)
    ensures LikeOperator(t, "\\%%") == Ok(|t| >= 1 && t[0] == '%')
    ensures LikeOperatorAsWritten(t, "\\%%") == Ok(|t| >= 1 && t[0] == '%' && '\n' !in t[1..])
  {
    assert "\\%%"[2..] == "%" && "%"[1..] == [] && "%"[0] == '%';
    TokenizeWildcards();
    assert Tokenize("\\%%") == Prepend([Lit('%')], Tokenize("%"));
    assert [Lit('%')] + [AnyRun] == [Lit('%'), AnyRun];
    MatchesConcat([Lit('%')], [AnyRun], t, false);
    assert [Lit('%')] + [AnyRun] == [Lit('%'), AnyRun];
    if |t| >= 1 && t[0] == '%' {
      AnyRunMatchesAll(t[1..], false);
      assert Matches([Lit('%')], t[..1], false);
    }
    if |t| >= 1 {
      AnyRunAsWritten(t[1..], false);
      assert [Lit('%'), AnyRun][1..] == [AnyRun];
      assert RegexFullMatch([Lit('%'), AnyRun], t, false)
        == (t[0] == '%' && RegexFullMatch([AnyRun], t[1..], false));
    }
  }

  /** A dangling backslash is rejected the same way by LIKE and ILIKE, whatever the text. */
  lemma DanglingEscapeRejected(p: string, text: string)
    requires Tokenize(p).Ok?
    ensures LikeOperator(text, p + ['\\']) == Err(InvalidEscapeSequence)
    ensures ILikeOperator(text, p + ['\\']) == Err(InvalidEscapeSequence)
  {
    TokenizeEscapeAtEnd(p, 'x');
  }

  // ---------------------------------------------------------------------------
  // ILIKE

  lemma {:induction false} CaseSensitiveImpliesInsensitive(ts: seq<Token>, t: string, dotAll: bool)
    ensures MatchesIn(ts, t, false, dotAll) ==> MatchesIn(ts, t, true, dotAll)
    decreases |ts| + |t|
  {
    if ts != [] && t != [] {
      CaseSensitiveImpliesInsensitive(ts[1..], t[1..], dotAll);
      CaseSensitiveImpliesInsensitive(ts[1..], t, dotAll);
      if ts[0].AnyRun? { CaseSensitiveImpliesInsensitive(ts, t[1..], dotAll); }
    } else if ts != [] && ts[0].AnyRun? {
      CaseSensitiveImpliesInsensitive(ts[1..], t, dotAll);
    }
  }

  lemma {:induction false} FoldingTextKeepsMatch(ts: seq<Token>, t: string, dotAll: bool)
    ensures MatchesIn(ts, FoldAll(t), true, dotAll) == MatchesIn(ts, t, true, dotAll)
    decreases |ts| + |t|
  {
    var f := FoldAll(t);
    if t != [] {
      assert f[1..] == FoldAll(t[1..]);
      assert f[0] == Fold(t[0]);
      assert Fold(Fold(t[0])) == Fold(t[0]);
      assert (f[0] != '\n') == (t[0] != '\n');
      if ts != [] {
        FoldingTextKeepsMatch(ts[1..], t[1..], dotAll);
        FoldingTextKeepsMatch(ts[1..], t, dotAll);
        if ts[0].AnyRun? { FoldingTextKeepsMatch(ts, t[1..], dotAll); }
      }
    } else if ts != [] && ts[0].AnyRun? {
      FoldingTextKeepsMatch(ts[1..], t, dotAll);
    }
  }

  /** Whatever LIKE accepts ILIKE accepts, and ILIKE does not see ASCII letter case. */
  lemma ILikeExtendsLike(text: string, pattern: string)
    ensures LikeOperator(text, pattern).Err? <==> ILikeOperator(text, pattern).Err?
    ensures LikeOperator(text, pattern) == Ok(true) ==> ILikeOperator(text, pattern) == Ok(true)
    ensures ILikeOperator(FoldAll(text), pattern) == ILikeOperator(text, pattern)
  {
    if Tokenize(pattern).Ok? {
      CaseSensitiveImpliesInsensitive(Tokenize(pattern).value, text, true);
      FoldingTextKeepsMatch(Tokenize(pattern).value, text, true);
    }
  }

  // ---------------------------------------------------------------------------
  // The emitted regular expression and newlines

  /** Python's `re.fullmatch` without DOTALL: `.` refuses a newline, so `a%` does not match
      the text "a\nb" although SQL's `%` takes any character. */
  lemma WildcardSkipsNewlineAsWritten()
    ensures Tokenize("a%") == Ok([Lit('a'), AnyRun])
    ensures !RegexFullMatch([Lit('a'), AnyRun], "a\nb", false)
    ensures Matches([Lit('a'), AnyRun], "a\nb", false)
  {
    assert "a%"[1..] == "%" && "%"[1..] == [] && "%"[0] == '%' && "a%"[0] == 'a';
    TokenizeWildcards();
    assert Tokenize("a%") == Prepend([Lit('a')], Tokenize("%"));
    assert [Lit('a')] + [AnyRun] == [Lit('a'), AnyRun];
    assert "a\nb"[1..] == "\nb";
    assert "\nb"[1..] == "b";
    assert "b"[1..] == "";
    assert !MatchesIn([AnyRun], "\nb", false, false);
    assert MatchesIn([AnyRun], "b", false, true) by { AnyRunMatchesAll("b", false); }
  }

  /** On texts without a newline the emitted regular expression and SQL agree. */
  lemma {:induction false} RegexAgreesWithoutNewline(ts: seq<Token>, t: string, ic: bool)
    requires forall k :: 0 <= k < |t| ==> t[k] != '\n'
    ensures RegexFullMatch(ts, t, ic) == Matches(ts, t, ic)
    decreases |ts| + |t|
  {
    if ts != [] && t != [] {
      RegexAgreesWithoutNewline(ts[1..], t[1..], ic);
      RegexAgreesWithoutNewline(ts[1..], t, ic);
      if ts[0].AnyRun? { RegexAgreesWithoutNewline(ts, t[1..], ic); }
    } else if ts != [] && ts[0].AnyRun? {
      RegexAgreesWithoutNewline(ts[1..], t, ic);
    }
  }

  /** The operators as written and as SQL means them raise on the same patterns, and give
      the same answer on every text without a newline. */
  lemma OperatorsAgreeWithoutNewline(text: string, pattern: string)
    ensures LikeOperatorAsWritten(text, pattern).Err? <==> LikeOperator(text, pattern).Err?
    ensures ILikeOperatorAsWritten(text, pattern).Err? <==> ILikeOperator(text, pattern).Err?
    ensures '\n' !in text ==> LikeOperatorAsWritten(text, pattern) == LikeOperator(text, pattern)
    ensures '\n' !in text ==> ILikeOperatorAsWritten(text, pattern) == ILikeOperator(text, pattern)
  {
    if '\n' !in text && Tokenize(pattern).Ok? {
      RegexAgreesWithoutNewline(Tokenize(pattern).value, text, false);
      RegexAgreesWithoutNewline(Tokenize(pattern).value, text, true);
    }
  }
}

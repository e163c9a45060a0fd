/** What the text of a glob pattern means, character by character. */
module GlobText {
  import opened Units
  import opened Chars
  import opened Regex
  import opened Glob

  lemma MatchesCons(t: Token, rest: JsString, pattern: JsString, s: JsString)
    requires pattern != [] && Tokens(pattern) == [t] + Tokens(rest)
    ensures PatternMatches(pattern, s)
       <==> if t.AnyRun? then
              PatternMatches(rest, s) || (s != [] && s[0] != SLASH && PatternMatches(pattern, s[1..]))
            else s != [] && Accepts(t, s[0]) && PatternMatches(rest, s[1..])
  {
    assert ([t] + Tokens(rest))[1..] == Tokens(rest);
  }

  /** The tokens of a pattern whose first token takes `k` characters. */
  lemma TokensSplit(pattern: JsString, rest: JsString, k: nat)
    requires pattern != [] && k == FirstToken(pattern).1 && pattern[k..] == rest
    ensures Tokens(pattern) == [FirstToken(pattern).0] + Tokens(rest)
  {
  }

  lemma MatchesEmpty(s: JsString)
    ensures PatternMatches([], s) <==> s == []
  {
  }

  /** `?` takes one character that is no slash. */
  lemma MatchesQuestion(p: JsString, s: JsString)
    ensures PatternMatches([QUESTION] + p, s) <==> s != [] && s[0] != SLASH && PatternMatches(p, s[1..])
  {
    TokensSplit([QUESTION] + p, p, 1);
    MatchesCons(AnyOne, p, [QUESTION] + p, s);
  }

  /** The first `k` characters hold no slash, and the pattern matches the others. */
  ghost predicate MatchesAfter(p: JsString, s: JsString, k: nat)
    requires k <= |s|
  {
    SLASH !in s[..k] && PatternMatches(p, s[k..])
  }

  lemma AfterNext(p: JsString, s: JsString, k: nat)
    requires k < |s|
    ensures MatchesAfter(p, s, k + 1) <==> s[0] != SLASH && MatchesAfter(p, s[1..], k)
  {
    assert s[..k + 1] == [s[0]] + s[1..][..k];
    assert s[1..][k..] == s[k + 1..];
  }

  /** `*` takes any number of characters that are no slashes. */
  lemma {:induction false} MatchesStar(p: JsString, s: JsString)
    ensures PatternMatches([STAR] + p, s) <==> exists k | 0 <= k <= |s| :: MatchesAfter(p, s, k)
    decreases |s|
  {
    TokensSplit([STAR] + p, p, 1);
    MatchesCons(AnyRun, p, [STAR] + p, s);
    assert s[0..] == s && MatchesAfter(p, s, 0) <==> PatternMatches(p, s);
    if s != [] {
      MatchesStar(p, s[1..]);
      if k :| 0 <= k <= |s[1..]| && MatchesAfter(p, s[1..], k) {
        AfterNext(p, s, k);
      }
      if k :| 0 < k <= |s| && MatchesAfter(p, s, k) {
        AfterNext(p, s, k - 1);
      }
    }
  }

  /** The characters between brackets, without a leading `!`, let `c` through. */
  predicate Lists(body: JsString, c: CodeUnit) {
    InRanges(Items(body), c)
  }

  lemma ListsNothing(c: CodeUnit)
    ensures !Lists([], c)
  {
  }

  lemma InRangesCons(r: Range, rs: seq<Range>, c: CodeUnit)
    ensures InRanges([r] + rs, c) <==> r.lo <= c <= r.hi || InRanges(rs, c)
  {
    var all := [r] + rs;
    if i :| 0 <= i < |rs| && rs[i].lo <= c <= rs[i].hi {
      assert all[i + 1] == rs[i];
    }
    assert all[0] == r;
  }

  /** `a-b` lists the characters from `a` to `b`. */
  lemma ListsRange(a: CodeUnit, b: CodeUnit, rest: JsString, c: CodeUnit)
    ensures Lists([a, MINUS, b] + rest, c) <==> a <= c <= b || Lists(rest, c)
  {
    var body := [a, MINUS, b] + rest;
    assert body[3..] == rest;
    InRangesCons(Range(a, b), Items(rest), c);
  }

  /** Any other character lists itself. */
  lemma ListsSingle(a: CodeUnit, rest: JsString, c: CodeUnit)
    requires !(|rest| >= 2 && rest[0] == MINUS)
    ensures Lists([a] + rest, c) <==> c == a || Lists(rest, c)
  {
    var body := [a] + rest;
    assert body[1..] == rest;
    InRangesCons(Range(a, a), Items(rest), c);
  }

  /** A bracket, up to the first `]`, takes one character: one that it lists, or after `!` one that it does not list. */
  lemma MatchesBracket(body: JsString, p: JsString, s: JsString)
    requires RBRACKET !in body
    ensures PatternMatches([LBRACKET] + body + [RBRACKET] + p, s)
       <==> && s != []
            && (if body != [] && body[0] == BANG then !Lists(body[1..], s[0]) else Lists(body, s[0]))
            && PatternMatches(p, s[1..])
  {
    var pattern := [LBRACKET] + body + [RBRACKET] + p;
    IndexOfFirst(pattern, RBRACKET, 1, |body| + 1);
    assert pattern[1..|body| + 1] == body && pattern[|body| + 2..] == p;
    TokensSplit(pattern, p, |body| + 2);
    MatchesCons(Bracket(body), p, pattern, s);
  }

  lemma IndexOfFirst(pattern: JsString, ch: CodeUnit, from: nat, k: nat)
    requires from <= k < |pattern| && pattern[k] == ch && forall j | from <= j < k :: pattern[j] != ch
    ensures IndexOf(pattern, ch, from) == k
  {
  }

  /** A bracket that is never closed is a character like any other. */
  lemma MatchesOpenBracket(p: JsString, s: JsString)
    requires RBRACKET !in p
    ensures PatternMatches([LBRACKET] + p, s) <==> s != [] && s[0] == LBRACKET && PatternMatches(p, s[1..])
  {
    var pattern := [LBRACKET] + p;
    assert RBRACKET !in pattern;
    TokensSplit(pattern, p, 1);
    MatchesCons(Literal(LBRACKET), p, pattern, s);
  }

  /** A backslash makes the next character, whatever it is, stand for itself. */
  lemma MatchesEscaped(c: CodeUnit, p: JsString, s: JsString)
    ensures PatternMatches([BACKSLASH, c] + p, s) <==> s != [] && s[0] == c && PatternMatches(p, s[1..])
  {
    var pattern := [BACKSLASH, c] + p;
    assert pattern[2..] == p;
    TokensSplit(pattern, p, 2);
    MatchesCons(Escaped(c), p, pattern, s);
  }

  /** Any other character, and a backslash at the end, stands for itself. */
  lemma MatchesPlain(c: CodeUnit, p: JsString, s: JsString)
    requires c != STAR && c != QUESTION && c != LBRACKET && (c == BACKSLASH ==> p == [])
    ensures PatternMatches([c] + p, s) <==> s != [] && s[0] == c && PatternMatches(p, s[1..])
  {
    TokensSplit([c] + p, p, 1);
    MatchesCons(Literal(c), p, [c] + p, s);
  }
}

/** The compiled regular expression means what the glob pattern means, exactly when the pattern escapes no wildcard. */
module GlobToRegex {
  import opened Units
  import opened Chars
  import opened Regex
  import opened Glob

  // ----- Reading back what was emitted -----

  const NOT_SLASH_ATOM: Atom := Class(true, [Range(SLASH, SLASH)])

  function LexemesOf(t: Token): seq<Lexeme> {
    match t
    case AnyRun => [A(NOT_SLASH_ATOM), Q(true)]
    case AnyOne => [A(NOT_SLASH_ATOM)]
    case Bracket(content) => [A(Class(IsNegated(content), Items(Body(content))))]
    case Literal(c) => [A(Char(c))]
    case Escaped(c) => if c == STAR then [Q(true)] else if c == QUESTION then [Q(false)] else [A(Char(c))]
  }

  function AllLexemes(ts: seq<Token>): seq<Lexeme> {
    if ts == [] then [] else LexemesOf(ts[0]) + AllLexemes(ts[1..])
  }

  predicate InOrder(ranges: seq<Range>) {
    forall i | 0 <= i < |ranges| :: ranges[i].lo <= ranges[i].hi
  }

  predicate HasOrderedClass(t: Token) {
    t.Bracket? ==> InOrder(Items(Body(t.content)))
  }

  /** What every token of a pattern satisfies. */
  ghost predicate IsToken(t: Token) {
    match t
    case Bracket(content) => RBRACKET !in content
    case Literal(c) => c != STAR && c != QUESTION
    case _ => true
  }

  lemma {:induction false} TokensAreTokens(pattern: JsString)
    ensures forall t | t in Tokens(pattern) :: IsToken(t)
    decreases |pattern|
  {
    if pattern != [] {
      TokensAreTokens(pattern[FirstToken(pattern).1..]);
    }
  }

  function Prepend(ls: seq<Lexeme>, r: Lexed): Lexed {
    match r
    case Lexed(rest) => Lexed(ls + rest)
    case _ => r
  }

  /** `e` writes each character of `content` plainly or, for a backslash or a caret, after a backslash. */
  ghost predicate Encodes(e: JsString, content: JsString)
    decreases |content|
  {
    if content == [] then e == []
    else
      || (e != [] && e[0] == content[0] && e[0] != BACKSLASH && e[0] != RBRACKET && Encodes(e[1..], content[1..]))
      || (|e| >= 2 && e[0] == BACKSLASH && e[1] == content[0] && (e[1] == BACKSLASH || e[1] == CARET)
          && Encodes(e[2..], content[1..]))
  }

  lemma {:induction false} EscapedEncodes(s: JsString)
    requires RBRACKET !in s
    ensures Encodes(EscapeBackslashes(s), s)
  {
    if s != [] {
      EscapedEncodes(s[1..]);
      var e := EscapeBackslashes(s[1..]);
      if s[0] == BACKSLASH {
        assert ([BACKSLASH, BACKSLASH] + e)[2..] == e;
      } else {
        assert ([s[0]] + e)[1..] == e;
      }
    }
  }

  /** Reading the first atom of an encoded content. */
  lemma ReadEncodedAtom(e: JsString, content: JsString, rest: JsString) returns (e': JsString)
    requires content != [] && Encodes(e, content)
    ensures Encodes(e', content[1..]) && |e'| < |e|
    ensures ReadClassAtom(e + rest) == AtomRead(content[0], e' + rest)
    ensures e[0] != RBRACKET
    ensures content[0] == MINUS ==> e == [MINUS] + e'
    ensures content[0] != MINUS ==> e[0] != MINUS
  {
    if e[0] == content[0] && e[0] != BACKSLASH && e[0] != RBRACKET && Encodes(e[1..], content[1..]) {
      e' := e[1..];
      assert (e + rest)[1..] == e' + rest;
    } else {
      e' := e[2..];
      assert (e + rest)[2..] == e' + rest;
    }
  }

  function Close(ranges: seq<Range>, rest: JsString): ClassRead {
    if InOrder(ranges) then ClassRead(ranges, rest) else BadClassRange
  }

  lemma CloseAdd(range: Range, ranges: seq<Range>, rest: JsString)
    requires range.lo <= range.hi
    ensures AddRange(range, Close(ranges, rest)) == Close([range] + ranges, rest)
  {
    var all := [range] + ranges;
    assert forall i | 0 <= i < |ranges| :: all[i + 1] == ranges[i];
  }

  lemma {:induction false} ReadEncodedClass(e: JsString, content: JsString, rest: JsString)
    requires Encodes(e, content)
    ensures ReadClassRanges(e + ([RBRACKET] + rest)) == Close(Items(content), rest)
    decreases |content|, 1
  {
    var tail := [RBRACKET] + rest;
    if content == [] {
      assert e + tail == tail && tail[1..] == rest;
    } else {
      var e1 := ReadEncodedAtom(e, content, tail);
      var lo := content[0];
      if |content| == 1 {
        assert e1 == [];
        ReadEncodedClass(e1, content[1..], rest);
        CloseAdd(Range(lo, lo), Items(content[1..]), rest);
      } else {
        var e2 := ReadEncodedAtom(e1, content[1..], tail);
        if |content| >= 3 && content[1] == MINUS {
          assert e1 + tail == [MINUS] + (e2 + tail);
          ReadEncodedRange(e + tail, e2, content, rest);
        } else {
          assert (e1 + tail)[0] == e1[0];
          if content[1] == MINUS {
            assert content[1..][1..] == [] && e2 == [];
            assert (e1 + tail)[1] == RBRACKET;
          }
          ReadEncodedClass(e1, content[1..], rest);
          CloseAdd(Range(lo, lo), Items(content[1..]), rest);
        }
      }
    }
  }

  lemma RangeStep(s: JsString, lo: CodeUnit, t: JsString, hi: CodeUnit, u: JsString)
    requires s != [] && s[0] != RBRACKET && ReadClassAtom(s) == AtomRead(lo, t)
    requires |t| >= 2 && t[0] == MINUS && t[1] != RBRACKET && ReadClassAtom(t[1..]) == AtomRead(hi, u)
    ensures ReadClassRanges(s) == if lo > hi then BadClassRange else AddRange(Range(lo, hi), ReadClassRanges(u))
  {
  }

  lemma ReadEncodedRange(s: JsString, e2: JsString, content: JsString, rest: JsString)
    requires |content| >= 3 && content[1] == MINUS && Encodes(e2, content[2..])
    requires s != [] && s[0] != RBRACKET
    requires ReadClassAtom(s) == AtomRead(content[0], [MINUS] + (e2 + ([RBRACKET] + rest)))
    ensures ReadClassRanges(s) == Close(Items(content), rest)
    decreases |content|, 0
  {
    var after := e2 + ([RBRACKET] + rest);
    var u := ReadHighBound(e2, content[2..], rest);
    DashThen(after);
    RangeStep(s, content[0], [MINUS] + after, content[2], u);
    assert content[2..][1..] == content[3..];
    CloseItems(content, rest);
  }

  lemma DashThen(after: JsString)
    ensures ([MINUS] + after)[1..] == after
  {
  }

  /** Reading the bound after a dash, and the class behind it. */
  lemma ReadHighBound(e: JsString, content: JsString, rest: JsString) returns (u: JsString)
    requires content != [] && Encodes(e, content)
    ensures e != [] && e[0] != RBRACKET && ReadClassAtom(e + ([RBRACKET] + rest)) == AtomRead(content[0], u)
    ensures ReadClassRanges(u) == Close(Items(content[1..]), rest)
    decreases |content|, 1
  {
    var e' := ReadEncodedAtom(e, content, [RBRACKET] + rest);
    ReadEncodedClass(e', content[1..], rest);
    u := e' + ([RBRACKET] + rest);
  }

  lemma CloseItems(content: JsString, rest: JsString)
    requires |content| >= 3 && content[1] == MINUS
    ensures Close(Items(content), rest)
         == if content[0] > content[2] then BadClassRange
            else AddRange(Range(content[0], content[2]), Close(Items(content[3..]), rest))
  {
    var range := Range(content[0], content[2]);
    if content[0] <= content[2] {
      CloseAdd(range, Items(content[3..]), rest);
    } else {
      assert Items(content)[0] == range;
    }
  }

  lemma FirstAside(c: CodeUnit, s: JsString)
    ensures ([c] + s)[1..] == s
  {
  }

  lemma EscapeFirst(s: JsString)
    requires s != []
    ensures EscapeBackslashes(s) != [] && EscapeBackslashes(s)[0] == s[0]
    ensures s[0] != BACKSLASH ==> EscapeBackslashes(s)[1..] == EscapeBackslashes(s[1..])
  {
    if s[0] != BACKSLASH {
      FirstAside(s[0], EscapeBackslashes(s[1..]));
    }
  }

  lemma NegatedClassText(content: JsString)
    requires IsNegated(content)
    ensures EmitClass(content) == [LBRACKET, CARET] + EscapeBackslashes(content[1..]) + [RBRACKET]
  {
    var tail := EscapeBackslashes(content[1..]);
    EscapeFirst(content);
    assert [LBRACKET] + ([CARET] + tail) == [LBRACKET, CARET] + tail;
  }

  lemma PlainClassText(content: JsString)
    requires !IsNegated(content)
    ensures EmitClass(content) == [LBRACKET]
                                  + (if content != [] && content[0] == CARET then [BACKSLASH] else [])
                                  + EscapeBackslashes(content) + [RBRACKET]
  {
    var escaped := EscapeBackslashes(content);
    if content != [] {
      EscapeFirst(content);
      assert [LBRACKET] + ([BACKSLASH] + escaped) == [LBRACKET] + [BACKSLASH] + escaped;
    }
    assert [LBRACKET] + [] == [LBRACKET];
  }

  /** The text between the brackets encodes the body of the class, after a caret if the class is negated. */
  lemma ClassText(content: JsString) returns (e: JsString)
    requires RBRACKET !in content
    ensures Encodes(e, Body(content))
    ensures EmitClass(content) == (if IsNegated(content) then [LBRACKET, CARET] else [LBRACKET]) + e + [RBRACKET]
    ensures !IsNegated(content) ==> e == [] || e[0] != CARET
  {
    if IsNegated(content) {
      NegatedClassText(content);
      EscapedEncodes(content[1..]);
      return EscapeBackslashes(content[1..]);
    }
    PlainClassText(content);
    if content != [] && content[0] == CARET {
      e := CaretText(content);
    } else {
      assert [LBRACKET] + [] == [LBRACKET];
      EscapedEncodes(content);
      e := EscapeBackslashes(content);
      if content != [] {
        EscapeFirst(content);
      }
    }
  }

  lemma CaretText(content: JsString) returns (e: JsString)
    requires RBRACKET !in content && content != [] && content[0] == CARET
    ensures e == [BACKSLASH] + EscapeBackslashes(content) && Encodes(e, content)
    ensures [LBRACKET] + [BACKSLASH] + EscapeBackslashes(content) == [LBRACKET] + e
  {
    e := [BACKSLASH] + EscapeBackslashes(content);
    var tail := EscapeBackslashes(content[1..]);
    EscapedEncodes(content[1..]);
    CaretEncodes(tail, content);
    assert EscapeBackslashes(content) == [CARET] + tail;
    AppendAssociates([BACKSLASH], [CARET], tail);
    assert [BACKSLASH] + [CARET] == [BACKSLASH, CARET];
    AppendAssociates([LBRACKET], [BACKSLASH], EscapeBackslashes(content));
  }

  lemma CaretEncodes(e: JsString, content: JsString)
    requires content != [] && content[0] == CARET && Encodes(e, content[1..])
    ensures Encodes([BACKSLASH, CARET] + e, content)
  {
    assert ([BACKSLASH, CARET] + e)[2..] == e;
  }

  lemma LexOpenBracket(s: JsString, negated: bool, inner: JsString)
    requires s == (if negated then [LBRACKET, CARET] else [LBRACKET]) + inner
    requires inner != [] && (!negated ==> inner[0] != CARET)
    ensures Lex(s) == match ReadClassRanges(inner)
                      case ClassRead(ranges, rest) => AddLexeme(A(Class(negated, ranges)), Lex(rest))
                      case BadClassRange => BadRange
                      case OpenClass => NotLexed
  {
    assert s[if negated then 2 else 1..] == inner;
  }

  lemma LexClass(content: JsString, rest: JsString)
    requires RBRACKET !in content && rest != []
    ensures Lex(EmitClass(content) + rest)
         == if InOrder(Items(Body(content))) then Prepend(LexemesOf(Bracket(content)), Lex(rest)) else BadRange
  {
    var e := ClassText(content);
    var open := if IsNegated(content) then [LBRACKET, CARET] else [LBRACKET];
    var inner := e + ([RBRACKET] + rest);
    OpenThen(open, e, rest);
    LexOpenBracket(EmitClass(content) + rest, IsNegated(content), inner);
    ReadEncodedClass(e, Body(content), rest);
  }

  lemma OpenThen(open: JsString, e: JsString, rest: JsString)
    ensures open + e + [RBRACKET] + rest == open + (e + ([RBRACKET] + rest))
  {
  }

  lemma LexToken(t: Token, rest: JsString)
    requires IsToken(t) && rest != []
    ensures Lex(Emit(t) + rest) == if HasOrderedClass(t) then Prepend(LexemesOf(t), Lex(rest)) else BadRange
  {
    match t
    case AnyRun =>
      LexAnyRun(rest);
    case AnyOne =>
      LexNotSlash(rest);
    case Bracket(content) =>
      LexClass(content, rest);
    case Literal(c) =>
      LexChar(c, rest);
    case Escaped(c) =>
      LexChar(c, rest);
  }

  lemma LexAnyRun(rest: JsString)
    requires rest != []
    ensures Lex(NOT_SLASHES + rest) == Prepend(LexemesOf(AnyRun), Lex(rest))
  {
    assert NOT_SLASHES + rest == NOT_SLASH + ([STAR] + rest);
    LexNotSlash([STAR] + rest);
    LexStar(rest);
    AddTwo(A(NOT_SLASH_ATOM), Q(true), Lex(rest));
  }

  lemma AddTwo(a: Lexeme, b: Lexeme, r: Lexed)
    ensures AddLexeme(a, AddLexeme(b, r)) == Prepend([a, b], r)
  {
    if r.Lexed? {
      assert [a] + ([b] + r.lexemes) == [a, b] + r.lexemes;
    }
  }

  lemma LexStar(rest: JsString)
    requires rest != []
    ensures Lex([STAR] + rest) == AddLexeme(Q(true), Lex(rest))
  {
    FirstAside(STAR, rest);
  }

  lemma LexNotSlash(rest: JsString)
    requires rest != []
    ensures Lex(NOT_SLASH + rest) == AddLexeme(A(NOT_SLASH_ATOM), Lex(rest))
  {
    var s := NOT_SLASH + rest;
    assert s[2..] == [SLASH] + ([RBRACKET] + rest);
    assert Encodes([SLASH], [SLASH]) by { assert [SLASH][1..] == []; }
    ReadEncodedClass([SLASH], [SLASH], rest);
    assert Items([SLASH]) == [Range(SLASH, SLASH)] by { assert [SLASH][1..] == []; }
  }

  lemma LexChar(c: CodeUnit, rest: JsString)
    requires rest != []
    ensures Lex(EscapeChar(c) + rest) == Prepend(LexemesOf(Escaped(c)), Lex(rest))
  {
    var s := EscapeChar(c) + rest;
    if NeedsEscape(c) {
      assert s[2..] == rest;
    } else {
      assert s[1..] == rest;
    }
  }

  lemma FirstOrRest(ts: seq<Token>)
    requires ts != []
    ensures (forall t | t in ts :: HasOrderedClass(t))
       <==> HasOrderedClass(ts[0]) && forall t | t in ts[1..] :: HasOrderedClass(t)
    ensures (forall t | t in ts :: IsToken(t)) ==> IsToken(ts[0]) && forall t | t in ts[1..] :: IsToken(t)
  {
    assert forall t :: t in ts <==> t == ts[0] || t in ts[1..];
  }

  lemma {:induction false} LexAll(ts: seq<Token>)
    requires forall t | t in ts :: IsToken(t)
    ensures Lex(EmitAll(ts) + [DOLLAR])
         == if forall t | t in ts :: HasOrderedClass(t) then Lexed(AllLexemes(ts)) else BadRange
  {
    if ts == [] {
      assert EmitAll(ts) + [DOLLAR] == [DOLLAR];
    } else {
      FirstOrRest(ts);
      AppendAssociates(Emit(ts[0]), EmitAll(ts[1..]), [DOLLAR]);
      LexToken(ts[0], EmitAll(ts[1..]) + [DOLLAR]);
      LexAll(ts[1..]);
    }
  }

  predicate OrderedClasses(pattern: JsString) {
    forall t | t in Tokens(pattern) :: HasOrderedClass(t)
  }

  /** The regular expression compiles up to stray quantifiers exactly when the ranges of all classes are in order, and
      its text never leaves the syntax above. */
  lemma ParseCompiled(pattern: JsString)
    ensures Parse(Compile(pattern))
         == if OrderedClasses(pattern) then Group(AllLexemes(Tokens(pattern))) else SyntaxError
    ensures Parse(Compile(pattern)) != Outside
  {
    var ts := Tokens(pattern);
    TokensAreTokens(pattern);
    LexAll(ts);
    ParseAfterCaret(EmitAll(ts) + [DOLLAR]);
    assert Compile(pattern) == [CARET] + (EmitAll(ts) + [DOLLAR]);
    GroupInside(AllLexemes(ts));
  }

  lemma ParseAfterCaret(rest: JsString)
    ensures Parse([CARET] + rest) == match Lex(rest)
      case Lexed(lexemes) => Group(lexemes)
      case BadRange => SyntaxError
      case NotLexed => Outside
  {
    assert ([CARET] + rest)[1..] == rest;
  }

  lemma {:induction false} GroupInside(ls: seq<Lexeme>)
    ensures Group(ls) != Outside
    decreases |ls|
  {
    if ls != [] && ls[0].A? {
      var rest := if |ls| >= 2 && ls[1].Q? then
          (if |ls| >= 3 && ls[2] == Q(false) then ls[3..] else ls[2..]) else ls[1..];
      GroupInside(rest);
    }
  }

  // ----- Patterns that escape no wildcard -----

  predicate IsEscapedWildcard(t: Token) {
    t == Escaped(STAR) || t == Escaped(QUESTION)
  }

  predicate EscapesWildcard(pattern: JsString) {
    exists t | t in Tokens(pattern) :: IsEscapedWildcard(t)
  }

  function TermOf(t: Token): Term {
    match t
    case AnyRun => Term(NOT_SLASH_ATOM, Star)
    case AnyOne => Term(NOT_SLASH_ATOM, One)
    case Bracket(content) => Term(Class(IsNegated(content), Items(Body(content))), One)
    case Literal(c) => Term(Char(c), One)
    case Escaped(c) => Term(Char(c), One)
  }

  function TermsOf(ts: seq<Token>): seq<Term> {
    if ts == [] then [] else [TermOf(ts[0])] + TermsOf(ts[1..])
  }

  lemma {:induction false} GroupPlain(ts: seq<Token>)
    requires forall t | t in ts :: !IsEscapedWildcard(t)
    ensures Group(AllLexemes(ts)) == Parsed(TermsOf(ts))
    ensures AllLexemes(ts) == [] || AllLexemes(ts)[0].A?
  {
    if ts != [] {
      assert ts[0] in ts;
      GroupPlain(ts[1..]);
      var l, rest := LexemesOf(ts[0]), AllLexemes(ts[1..]);
      var ls := l + rest;
      assert ls[|l|..] == rest;
      assert rest != [] ==> ls[|l|] == rest[0];
      if ts[0].AnyRun? {
        assert ls[2..] == rest && ls[1] == Q(true);
      } else {
        assert ls[1..] == rest && ls[0] == A(TermOf(ts[0]).atom);
        assert |ls| >= 2 ==> ls[1].A?;
      }
    }
  }

  lemma AcceptsAsAtom(t: Token, c: CodeUnit)
    ensures InAtom(TermOf(t).atom, c) <==> Accepts(t, c)
  {
    if t.AnyRun? || t.AnyOne? {
      assert InRanges([Range(SLASH, SLASH)], c) <==> c == SLASH by {
        if c == SLASH {
          assert [Range(SLASH, SLASH)][0].lo <= c <= [Range(SLASH, SLASH)][0].hi;
        }
      }
    }
  }

  lemma {:induction false} TermsMeanTokens(ts: seq<Token>, s: JsString)
    ensures Matches(TermsOf(ts), s) <==> GlobMatches(ts, s)
    decreases |s| + |ts|
  {
    if ts != [] {
      assert TermsOf(ts)[1..] == TermsOf(ts[1..]);
      if s != [] {
        AcceptsAsAtom(ts[0], s[0]);
        TermsMeanTokens(ts[1..], s[1..]);
      }
      if ts[0].AnyRun? {
        TermsMeanTokens(ts[1..], s);
        if s != [] {
          TermsMeanTokens(ts, s[1..]);
        }
      }
    }
  }

  /** The regular expression exists and matches exactly the names that the pattern matches. */
  ghost predicate Agrees(pattern: JsString) {
    var r := Parse(Compile(pattern));
    r.Parsed? && forall s :: Matches(r.terms, s) <==> PatternMatches(pattern, s)
  }

  /** Compilation preserves meaning. */
  lemma RegexMeansGlob(pattern: JsString)
    requires OrderedClasses(pattern) && !EscapesWildcard(pattern)
    ensures Agrees(pattern)
  {
    var ts := Tokens(pattern);
    ParseCompiled(pattern);
    GroupPlain(ts);
    forall s
      ensures Matches(TermsOf(ts), s) <==> GlobMatches(ts, s)
    {
      TermsMeanTokens(ts, s);
    }
  }

  // ----- Patterns that escape a wildcard -----

  /** The number of characters that every match has at least. */
  function MinLength(ts: seq<Token>): nat {
    if ts == [] then 0 else (if ts[0].AnyRun? then 0 else 1) + MinLength(ts[1..])
  }

  lemma {:induction false} MatchesAreLong(ts: seq<Token>, s: JsString)
    requires GlobMatches(ts, s)
    ensures |s| >= MinLength(ts)
    decreases |s| + |ts|
  {
    if ts != [] {
      if ts[0].AnyRun? {
        if GlobMatches(ts[1..], s) {
          MatchesAreLong(ts[1..], s);
        } else {
          MatchesAreLong(ts, s[1..]);
        }
      } else {
        MatchesAreLong(ts[1..], s[1..]);
      }
    }
  }

  function EscapedWildcards(ts: seq<Token>): nat {
    if ts == [] then 0 else (if IsEscapedWildcard(ts[0]) then 1 else 0) + EscapedWildcards(ts[1..])
  }

  /** An escaped wildcard is one character of the pattern, but no atom of the regular expression. */
  lemma {:induction false} AtomsOfLexemes(ts: seq<Token>)
    ensures Atoms(AllLexemes(ts)) <= MinLength(ts) + Quantified(AllLexemes(ts)) - EscapedWildcards(ts)
  {
    if ts != [] {
      var l := LexemesOf(ts[0]);
      AtomsOfLexemes(ts[1..]);
      QuantifiedConcat(l, AllLexemes(ts[1..]));
      AtomsOfToken(ts[0]);
    }
  }

  lemma AtomsOfToken(t: Token)
    ensures Atoms(LexemesOf(t)) == if IsEscapedWildcard(t) then 0 else 1
    ensures Quantified(LexemesOf(t)) == if t.AnyRun? then 1 else 0
  {
    var l := LexemesOf(t);
    if |l| == 2 {
      var q := l[1..];
      assert q == [Q(true)] && q[1..] == [];
      assert Atoms(q) == Atoms(q[1..]) == 0 && Quantified(q) == 0;
    } else {
      assert l[1..] == [];
    }
  }

  lemma {:induction false} SomeEscaped(ts: seq<Token>)
    requires exists t | t in ts :: IsEscapedWildcard(t)
    ensures EscapedWildcards(ts) > 0
  {
    if !IsEscapedWildcard(ts[0]) {
      SomeEscaped(ts[1..]);
    }
  }

  // ----- When expression and pattern agree -----

  ghost predicate IsEmptyClass(t: Token) {
    t.Bracket? && forall c :: !InClass(t.content, c)
  }

  /** Some class that lets no character through is not followed by an escaped wildcard. */
  ghost predicate BareEmptyClass(ts: seq<Token>) {
    && ts != []
    && ((IsEmptyClass(ts[0]) && (|ts| == 1 || !IsEscapedWildcard(ts[1]))) || BareEmptyClass(ts[1..]))
  }

  /** Escaped wildcards stand only where a quantifier may: at most `\*\?` or `\?\?` after a token for one character,
      and at most `\?` after `*`. */
  predicate WildcardsFit(ts: seq<Token>, room: nat) {
    if ts == [] then true
    else if ts[0].AnyRun? then WildcardsFit(ts[1..], 1)
    else if !IsEscapedWildcard(ts[0]) then WildcardsFit(ts[1..], 2)
    else if room == 2 then WildcardsFit(ts[1..], 1)
    else room == 1 && ts[0] == Escaped(QUESTION) && WildcardsFit(ts[1..], 0)
  }

  lemma LexemesCons(t: Token, ts: seq<Token>)
    ensures AllLexemes([t] + ts) == LexemesOf(t) + AllLexemes(ts)
    ensures AllLexemes(ts) == [] <==> ts == []
    ensures ts != [] ==> (AllLexemes(ts)[0].Q? <==> IsEscapedWildcard(ts[0]))
  {
    assert ([t] + ts)[1..] == ts;
  }

  lemma {:induction false} FitIffNoStray(ts: seq<Token>, room: nat)
    ensures WildcardsFit(ts, room) <==> NoStray(AllLexemes(ts), room)
  {
    if ts != [] {
      var l, rest := LexemesOf(ts[0]), AllLexemes(ts[1..]);
      var ls := l + rest;
      if ts[0].AnyRun? {
        FitIffNoStray(ts[1..], 1);
        assert ls[1..][1..] == rest && ls[1..][0] == Q(true);
        assert NoStray(ls[1..], 2) <==> NoStray(rest, 1);
      } else {
        assert ls[1..] == rest;
        FitIffNoStray(ts[1..], 2);
        FitIffNoStray(ts[1..], 1);
        FitIffNoStray(ts[1..], 0);
      }
    }
  }

  /** Every token but an empty class lets some character through. */
  lemma FirstAtomInhabited(t: Token)
    requires LexemesOf(t)[0].A?
    ensures IsInhabited(LexemesOf(t)[0].atom) <==> !IsEmptyClass(t)
  {
    var a := LexemesOf(t)[0].atom;
    match t
    case Bracket(content) =>
      if c :| InClass(content, c) {
        assert InAtom(a, c);
      }
      if c :| InAtom(a, c) {
        assert InClass(content, c);
      }
    case Literal(c) => assert InAtom(a, c);
    case Escaped(c) => assert InAtom(a, c);
    case _ =>
      AcceptsAsAtom(AnyOne, 0);
      assert InAtom(a, 0);
  }

  lemma {:induction false} DeadIffBareEmpty(ts: seq<Token>)
    ensures HasDeadAtom(AllLexemes(ts)) <==> BareEmptyClass(ts)
  {
    if ts != [] {
      var t, l, rest := ts[0], LexemesOf(ts[0]), AllLexemes(ts[1..]);
      var ls := l + rest;
      DeadIffBareEmpty(ts[1..]);
      LexemesCons(t, ts[1..]);
      assert rest != [] ==> ls[|l|] == rest[0];
      if l[0].A? {
        FirstAtomInhabited(t);
      }
      if t.AnyRun? {
        assert ls[1..][1..] == rest && ls[1..][0].Q?;
        assert HasDeadAtom(ls[1..]) <==> HasDeadAtom(rest);
      } else {
        assert ls[1..] == rest;
      }
    }
  }

  lemma {:induction false} EmptyClassMatchesNothing(ts: seq<Token>, s: JsString)
    requires BareEmptyClass(ts)
    ensures !GlobMatches(ts, s)
    decreases |s| + |ts|
  {
    if !IsEmptyClass(ts[0]) || BareEmptyClass(ts[1..]) {
      EmptyClassMatchesNothing(ts[1..], s);
      if s != [] {
        EmptyClassMatchesNothing(ts[1..], s[1..]);
        if ts[0].AnyRun? {
          EmptyClassMatchesNothing(ts, s[1..]);
        }
      }
    }
  }

  /** A regular expression with a quantifier made of an escaped wildcard matches a string too short for the pattern,
      unless it matches nothing. */
  lemma EscapedWildcardDisagrees(pattern: JsString)
    requires EscapesWildcard(pattern) && !BareEmptyClass(Tokens(pattern))
    ensures !Agrees(pattern)
  {
    var ts := Tokens(pattern);
    var r := Parse(Compile(pattern));
    ParseCompiled(pattern);
    if r.Parsed? {
      GroupOnes(AllLexemes(ts));
      AtomsOfLexemes(ts);
      SomeEscaped(ts);
      GroupedDead(AllLexemes(ts));
      DeadIffBareEmpty(ts);
      var s := ShortestMatch(r.terms);
      if GlobMatches(ts, s) {
        MatchesAreLong(ts, s);
      }
    }
  }

  /** With an empty class that stays unquantified, both match nothing, if the expression compiles. */
  lemma EmptyClassAgrees(pattern: JsString)
    requires BareEmptyClass(Tokens(pattern)) && Parse(Compile(pattern)).Parsed?
    ensures Agrees(pattern)
  {
    var ts := Tokens(pattern);
    ParseCompiled(pattern);
    GroupedDead(AllLexemes(ts));
    DeadIffBareEmpty(ts);
    forall s
      ensures !Matches(Parse(Compile(pattern)).terms, s) && !GlobMatches(ts, s)
    {
      DeadMatchesNothing(Parse(Compile(pattern)).terms, s);
      EmptyClassMatchesNothing(ts, s);
    }
  }

  /** The regular expression compiles exactly when every range is in order and no escaped wildcard is a stray
      quantifier. */
  lemma CompilesIff(pattern: JsString)
    ensures Parse(Compile(pattern)).Parsed? <==> OrderedClasses(pattern) && WildcardsFit(Tokens(pattern), 0)
  {
    ParseCompiled(pattern);
    GroupsIffNoStray(AllLexemes(Tokens(pattern)));
    FitIffNoStray(Tokens(pattern), 0);
  }

  /** For every pattern, the regular expression agrees with it exactly when it compiles and either neither `\*` nor
      `\?` occurs, or an empty class that no such escape follows keeps both from matching anything. */
  lemma AgreesIff(pattern: JsString)
    ensures Agrees(pattern)
       <==> && OrderedClasses(pattern) && WildcardsFit(Tokens(pattern), 0)
            && (!EscapesWildcard(pattern) || BareEmptyClass(Tokens(pattern)))
  {
    CompilesIff(pattern);
    if Parse(Compile(pattern)).Parsed? {
      if BareEmptyClass(Tokens(pattern)) {
        EmptyClassAgrees(pattern);
      } else if EscapesWildcard(pattern) {
        EscapedWildcardDisagrees(pattern);
      } else {
        RegexMeansGlob(pattern);
      }
    }
  }

  const LOWER_A: CodeUnit := 0x61

  /** The pattern `a\*` compiles to a regular expression that matches `aa`. */
  lemma EscapedStarExample()
    ensures var pattern := [LOWER_A, BACKSLASH, STAR];
            var r := Parse(Compile(pattern));
            && r == Parsed([Term(Char(LOWER_A), Star)])
            && Matches(r.terms, [LOWER_A, LOWER_A]) && !GlobMatches(Tokens(pattern), [LOWER_A, LOWER_A])
  {
    var pattern := [LOWER_A, BACKSLASH, STAR];
    assert pattern[1..] == [BACKSLASH, STAR] && [BACKSLASH, STAR][2..] == [];
    assert Tokens([BACKSLASH, STAR]) == [Escaped(STAR)];
    var ts := Tokens(pattern);
    assert ts == [Literal(LOWER_A), Escaped(STAR)];
    ParseCompiled(pattern);
    assert ts[1..] == [Escaped(STAR)] && ts[1..][1..] == [];
    assert AllLexemes(ts[1..]) == [Q(true)];
    assert AllLexemes(ts) == [A(Char(LOWER_A)), Q(true)];
    assert AllLexemes(ts)[2..] == [];
    var aa: JsString := [LOWER_A, LOWER_A];
    var terms := [Term(Char(LOWER_A), Star)];
    assert aa[1..][1..] == [];
    assert Matches(terms, []);
    assert Matches(terms, aa[1..]);
    assert !GlobMatches(ts[1..], aa[1..]);
  }
}

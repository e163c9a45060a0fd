/** The regular expressions by which the printer of remote commands tells bare arguments and valid names. */
module ExecPatterns {
  import opened Units
  import opened Chars
  import opened Shell
  import opened ExecCommand
  import R = Regex

  const LETTERS: JsString := [0x41, MINUS, 0x5A] + [0x61, MINUS, 0x7A]
  const DIGITS: JsString := [0x30, MINUS, 0x39]
  const UNDERSCORE: CodeUnit := 0x5F

  /** `_./:=@%^,+` */
  const MARKS: JsString := [UNDERSCORE, DOT, SLASH, 0x3A, EQUALS, 0x40, 0x25, CARET, 0x2C, PLUS]

  /** `A-Za-z0-9_./:=@%^,+-`, `A-Za-z_` and `A-Za-z0-9_`. */
  const SAFE: JsString := LETTERS + DIGITS + MARKS + [MINUS]
  const NAME_FIRST: JsString := LETTERS + [UNDERSCORE]
  const NAME_REST: JsString := LETTERS + DIGITS + [UNDERSCORE]

  function InBrackets(body: JsString): JsString {
    [LBRACKET] + body + [RBRACKET]
  }

  /** `^[first][rest]*$`; `[c]+` is `[c][c]*`. */
  function Expression(first: JsString, rest: JsString): JsString {
    [CARET] + InBrackets(first) + InBrackets(rest) + [STAR, DOLLAR]
  }

  // ----- Reading a class -----

  /** The class body is read as the ranges, whatever follows the bracket. */
  ghost predicate ReadsAs(body: JsString, ranges: seq<R.Range>) {
    forall tail :: R.ReadClassRanges(body + ([RBRACKET] + tail)) == R.ClassRead(ranges, tail)
  }

  lemma ReadsNothing()
    ensures ReadsAs([], [])
  {
    forall tail
      ensures R.ReadClassRanges([] + ([RBRACKET] + tail)) == R.ClassRead([], tail)
    {
      assert [] + ([RBRACKET] + tail) == [RBRACKET] + tail;
      assert ([RBRACKET] + tail)[1..] == tail;
    }
  }

  lemma ReadRangeFirst(lo: CodeUnit, hi: CodeUnit, rest: JsString)
    requires lo <= hi && lo != BACKSLASH && lo != RBRACKET && hi != BACKSLASH && hi != RBRACKET
    ensures R.ReadClassRanges([lo, MINUS, hi] + rest) == R.AddRange(R.Range(lo, hi), R.ReadClassRanges(rest))
  {
    var s := [lo, MINUS, hi] + rest;
    var t := s[1..];
    assert t == [MINUS, hi] + rest && t[1..] == [hi] + rest && t[1..][1..] == rest;
    assert R.ReadClassAtom(s) == R.AtomRead(lo, t) && R.ReadClassAtom(t[1..]) == R.AtomRead(hi, rest);
  }

  lemma ReadsRange(lo: CodeUnit, hi: CodeUnit, body: JsString, ranges: seq<R.Range>)
    requires ReadsAs(body, ranges) && lo <= hi
    requires lo != BACKSLASH && lo != RBRACKET && hi != BACKSLASH && hi != RBRACKET
    ensures ReadsAs([lo, MINUS, hi] + body, [R.Range(lo, hi)] + ranges)
  {
    forall tail
      ensures R.ReadClassRanges([lo, MINUS, hi] + body + ([RBRACKET] + tail))
           == R.ClassRead([R.Range(lo, hi)] + ranges, tail)
    {
      AppendAssociates([lo, MINUS, hi], body, [RBRACKET] + tail);
      ReadRangeFirst(lo, hi, body + ([RBRACKET] + tail));
    }
  }

  lemma ReadsSingle(c: CodeUnit, body: JsString, ranges: seq<R.Range>)
    requires ReadsAs(body, ranges) && c != BACKSLASH && c != RBRACKET
    requires |body| <= 1 || body[0] != MINUS
    ensures ReadsAs([c] + body, [R.Range(c, c)] + ranges)
  {
    forall tail
      ensures R.ReadClassRanges([c] + body + ([RBRACKET] + tail)) == R.ClassRead([R.Range(c, c)] + ranges, tail)
    {
      var rest := body + ([RBRACKET] + tail);
      assert [c] + body + ([RBRACKET] + tail) == [c] + rest;
      assert ([c] + rest)[1..] == rest;
      assert |rest| >= 2 && rest[0] == MINUS ==> rest[1] == RBRACKET;
    }
  }

  function SinglesOf(cs: JsString): (ranges: seq<R.Range>) {
    seq(|cs|, i requires 0 <= i < |cs| => R.Range(cs[i], cs[i]))
  }

  lemma {:induction false} ReadsSingles(cs: JsString, body: JsString, ranges: seq<R.Range>)
    requires ReadsAs(body, ranges) && (|body| <= 1 || body[0] != MINUS)
    requires BACKSLASH !in cs && RBRACKET !in cs && MINUS !in cs
    ensures ReadsAs(cs + body, SinglesOf(cs) + ranges)
  {
    if cs == [] {
      assert cs + body == body && SinglesOf(cs) + ranges == ranges;
    } else {
      ReadsSingles(cs[1..], body, ranges);
      ReadsSingle(cs[0], cs[1..] + body, SinglesOf(cs[1..]) + ranges);
      assert cs + body == [cs[0]] + (cs[1..] + body);
      assert SinglesOf(cs) + ranges == [R.Range(cs[0], cs[0])] + (SinglesOf(cs[1..]) + ranges);
    }
  }

  lemma ReadsLetters(body: JsString, ranges: seq<R.Range>)
    requires ReadsAs(body, ranges)
    ensures ReadsAs(LETTERS + body, [R.Range(0x41, 0x5A), R.Range(0x61, 0x7A)] + ranges)
  {
    ReadsRange(0x61, 0x7A, body, ranges);
    ReadsRange(0x41, 0x5A, [0x61, MINUS, 0x7A] + body, [R.Range(0x61, 0x7A)] + ranges);
    assert LETTERS + body == [0x41, MINUS, 0x5A] + ([0x61, MINUS, 0x7A] + body);
    assert [R.Range(0x41, 0x5A), R.Range(0x61, 0x7A)] + ranges
        == [R.Range(0x41, 0x5A)] + ([R.Range(0x61, 0x7A)] + ranges);
  }

  lemma ReadsSafe() returns (ranges: seq<R.Range>)
    ensures ReadsAs(SAFE, ranges) && forall c :: R.InRanges(ranges, c) <==> IsSafeChar(c)
  {
    ReadsNothing();
    ReadsSingle(MINUS, [], []);
    ReadsSingles(MARKS, [MINUS] + [], [R.Range(MINUS, MINUS)] + []);
    var r1 := SinglesOf(MARKS) + [R.Range(MINUS, MINUS)];
    assert ReadsAs(MARKS + [MINUS], r1) by {
      assert [MINUS] + [] == [MINUS] && [R.Range(MINUS, MINUS)] + [] == [R.Range(MINUS, MINUS)];
    }
    ReadsRange(0x30, 0x39, MARKS + [MINUS], r1);
    ReadsLetters(DIGITS + (MARKS + [MINUS]), [R.Range(0x30, 0x39)] + r1);
    ranges := [R.Range(0x41, 0x5A), R.Range(0x61, 0x7A)] + ([R.Range(0x30, 0x39)] + r1);
    assert SAFE == LETTERS + (DIGITS + (MARKS + [MINUS]));
    SafeRanges(r1, ranges);
  }

  lemma SafeRanges(r1: seq<R.Range>, ranges: seq<R.Range>)
    requires r1 == SinglesOf(MARKS) + [R.Range(MINUS, MINUS)]
    requires ranges == [R.Range(0x41, 0x5A), R.Range(0x61, 0x7A)] + ([R.Range(0x30, 0x39)] + r1)
    ensures forall c :: R.InRanges(ranges, c) <==> IsSafeChar(c)
  {
    forall c: CodeUnit
      ensures R.InRanges(ranges, c) <==> IsSafeChar(c)
    {
      InConcat([R.Range(0x41, 0x5A), R.Range(0x61, 0x7A)], [R.Range(0x30, 0x39)] + r1, c);
      InConcat([R.Range(0x30, 0x39)], r1, c);
      InConcat(SinglesOf(MARKS), [R.Range(MINUS, MINUS)], c);
      InTwo(R.Range(0x41, 0x5A), R.Range(0x61, 0x7A), c);
      InOne(R.Range(0x30, 0x39), c);
      InOne(R.Range(MINUS, MINUS), c);
      InSingles(MARKS, c);
      assert c in MARKS <==> IsMark(c);
    }
  }

  predicate IsMark(c: CodeUnit) {
    || c == UNDERSCORE || c == DOT || c == SLASH || c == 0x3A || c == EQUALS || c == 0x40 || c == 0x25 || c == CARET
    || c == 0x2C || c == PLUS
  }

  lemma InOne(r: R.Range, c: CodeUnit)
    ensures R.InRanges([r], c) <==> r.lo <= c <= r.hi
  {
    assert [r][0] == r;
  }

  lemma InTwo(a: R.Range, b: R.Range, c: CodeUnit)
    ensures R.InRanges([a, b], c) <==> a.lo <= c <= a.hi || b.lo <= c <= b.hi
  {
    assert [a, b][0] == a && [a, b][1] == b;
  }

  lemma InSingles(cs: JsString, c: CodeUnit)
    ensures R.InRanges(SinglesOf(cs), c) <==> c in cs
  {
    if i :| 0 <= i < |cs| && cs[i] == c {
      assert SinglesOf(cs)[i] == R.Range(c, c);
    }
  }

  lemma InConcat(a: seq<R.Range>, b: seq<R.Range>, c: CodeUnit)
    ensures R.InRanges(a + b, c) <==> R.InRanges(a, c) || R.InRanges(b, c)
  {
    if i :| 0 <= i < |a| && a[i].lo <= c <= a[i].hi {
      assert (a + b)[i] == a[i];
    }
    if i :| 0 <= i < |b| && b[i].lo <= c <= b[i].hi {
      assert (a + b)[|a| + i] == b[i];
    }
  }

  lemma NameRanges(first: seq<R.Range>, rest: seq<R.Range>)
    requires first == [R.Range(0x41, 0x5A), R.Range(0x61, 0x7A)] + [R.Range(UNDERSCORE, UNDERSCORE)]
    requires rest == [R.Range(0x41, 0x5A), R.Range(0x61, 0x7A)]
                     + ([R.Range(0x30, 0x39)] + [R.Range(UNDERSCORE, UNDERSCORE)])
    ensures forall c :: R.InRanges(first, c) <==> IsLetter(c)
    ensures forall c :: R.InRanges(rest, c) <==> IsLetter(c) || IsDigit(c)
  {
    assert first[2] == rest[3] == R.Range(UNDERSCORE, UNDERSCORE) && rest[2] == R.Range(0x30, 0x39);
    assert first[0] == rest[0] == R.Range(0x41, 0x5A) && first[1] == rest[1] == R.Range(0x61, 0x7A);
  }

  lemma ReadsNames() returns (first: seq<R.Range>, rest: seq<R.Range>)
    ensures ReadsAs(NAME_FIRST, first) && ReadsAs(NAME_REST, rest)
    ensures forall c :: R.InRanges(first, c) <==> IsLetter(c)
    ensures forall c :: R.InRanges(rest, c) <==> IsLetter(c) || IsDigit(c)
  {
    var r: seq<R.Range> := [R.Range(UNDERSCORE, UNDERSCORE)];
    ReadsNothing();
    ReadsSingle(UNDERSCORE, [], []);
    assert [UNDERSCORE] + [] == [UNDERSCORE] && [R.Range(UNDERSCORE, UNDERSCORE)] + [] == r;
    ReadsLetters([UNDERSCORE], r);
    ReadsRange(0x30, 0x39, [UNDERSCORE], r);
    ReadsLetters(DIGITS + [UNDERSCORE], [R.Range(0x30, 0x39)] + r);
    assert NAME_REST == LETTERS + (DIGITS + [UNDERSCORE]);
    first := [R.Range(0x41, 0x5A), R.Range(0x61, 0x7A)] + r;
    rest := [R.Range(0x41, 0x5A), R.Range(0x61, 0x7A)] + ([R.Range(0x30, 0x39)] + r);
    NameRanges(first, rest);
  }

  // ----- Reading and matching the expression -----

  lemma LexClass(body: JsString, ranges: seq<R.Range>, tail: JsString)
    requires ReadsAs(body, ranges) && body != [] && body[0] != CARET
    ensures R.Lex(InBrackets(body) + tail) == R.AddLexeme(R.A(R.Class(false, ranges)), R.Lex(tail))
  {
    var s := InBrackets(body) + tail;
    assert s[0] == LBRACKET && s[1] == body[0] && s != [DOLLAR];
    assert s[1..] == body + ([RBRACKET] + tail);
  }

  lemma LexExpression(first: JsString, rest: JsString, a: R.Atom, b: R.Atom)
    requires a.Class? && !a.negated && ReadsAs(first, a.ranges) && first != [] && first[0] != CARET
    requires b.Class? && !b.negated && ReadsAs(rest, b.ranges) && rest != [] && rest[0] != CARET
    ensures R.Lex(Expression(first, rest)[1..]) == R.Lexed([R.A(a), R.A(b), R.Q(true)])
  {
    var end: JsString := [STAR, DOLLAR];
    assert Expression(first, rest)[1..] == InBrackets(first) + (InBrackets(rest) + end);
    LexClass(first, a.ranges, InBrackets(rest) + end);
    LexClass(rest, b.ranges, end);
    assert end[1..] == [DOLLAR];
    assert R.Lex(end) == R.Lexed([R.Q(true)] + []);
  }

  lemma GroupExpression(a: R.Atom, b: R.Atom)
    ensures R.Group([R.A(a), R.A(b), R.Q(true)]) == R.Parsed([R.Term(a, R.One), R.Term(b, R.Star)])
  {
    var all := [R.A(a), R.A(b), R.Q(true)];
    assert all[1..] == [R.A(b), R.Q(true)] && all[1..][2..] == [];
    assert R.Group(all[1..]) == R.Parsed([R.Term(b, R.Star)]);
  }

  lemma ParseExpression(first: JsString, rest: JsString, r1: seq<R.Range>, r2: seq<R.Range>)
    requires ReadsAs(first, r1) && ReadsAs(rest, r2)
    requires first != [] && rest != [] && first[0] != CARET && rest[0] != CARET
    ensures R.Parse(Expression(first, rest))
         == R.Parsed([R.Term(R.Class(false, r1), R.One), R.Term(R.Class(false, r2), R.Star)])
  {
    LexExpression(first, rest, R.Class(false, r1), R.Class(false, r2));
    GroupExpression(R.Class(false, r1), R.Class(false, r2));
    assert Expression(first, rest)[0] == CARET;
  }

  lemma {:induction false} StarMatches(ranges: seq<R.Range>, s: JsString)
    ensures R.Matches([R.Term(R.Class(false, ranges), R.Star)], s)
       <==> forall i | 0 <= i < |s| :: R.InRanges(ranges, s[i])
  {
    var terms := [R.Term(R.Class(false, ranges), R.Star)];
    assert terms[1..] == [];
    if s != [] {
      StarMatches(ranges, s[1..]);
      assert s == [s[0]] + s[1..];
      assert R.Matches(terms, s) <==> R.InRanges(ranges, s[0]) && R.Matches(terms, s[1..]);
    }
  }

  lemma ExpressionMatches(first: JsString, rest: JsString, r1: seq<R.Range>, r2: seq<R.Range>, s: JsString)
    requires ReadsAs(first, r1) && ReadsAs(rest, r2)
    requires first != [] && rest != [] && first[0] != CARET && rest[0] != CARET
    ensures var p := R.Parse(Expression(first, rest));
            p.Parsed? && (R.Matches(p.terms, s)
                          <==> && s != [] && R.InRanges(r1, s[0])
                               && forall i | 1 <= i < |s| :: R.InRanges(r2, s[i]))
  {
    ParseExpression(first, rest, r1, r2);
    var one, star := R.Term(R.Class(false, r1), R.One), R.Term(R.Class(false, r2), R.Star);
    assert [one, star][1..] == [star];
    if s != [] {
      StarMatches(r2, s[1..]);
      assert forall i | 1 <= i < |s| :: s[i] == s[1..][i - 1];
    }
  }

  lemma {:induction false} EscapedNoShorter(arg: JsString)
    ensures |EscapeQuotes(arg)| >= |arg|
  {
    if arg != [] {
      EscapedNoShorter(arg[1..]);
    }
  }

  /** An argument is printed as it is exactly when `^[A-Za-z0-9_./:=@%^,+-]+$` matches it. */
  lemma BareIffPattern(arg: JsString)
    ensures var p := R.Parse(Expression(SAFE, SAFE));
            p.Parsed? && (R.Matches(p.terms, arg) <==> IsSafe(arg)) && (IsSafe(arg) <==> ShellQuote(arg) == arg)
  {
    EscapedNoShorter(arg);
    var ranges := ReadsSafe();
    ExpressionMatches(SAFE, SAFE, ranges, ranges, arg);
  }

  /** A name is valid exactly when `^[A-Za-z_][A-Za-z0-9_]*$` matches it. */
  lemma NameIsPattern(s: JsString)
    ensures var p := R.Parse(Expression(NAME_FIRST, NAME_REST));
            p.Parsed? && (R.Matches(p.terms, s) <==> IsName(s))
  {
    var first, rest := ReadsNames();
    ExpressionMatches(NAME_FIRST, NAME_REST, first, rest, s);
  }
}

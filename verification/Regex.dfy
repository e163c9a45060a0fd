/** The part of the pattern syntax of section 22.2 of ECMA-262 that the glob compiler uses: characters, escapes,
    character classes and the quantifiers `*` and `?`, between `^` and `$`. Text outside it is reported as such. */
module Regex {
  import opened Units
  import opened Chars

  datatype Range = Range(lo: CodeUnit, hi: CodeUnit)

  datatype Atom = Char(c: CodeUnit) | Class(negated: bool, ranges: seq<Range>)

  datatype Quantifier = One | Star | Optional

  datatype Term = Term(atom: Atom, quantifier: Quantifier)

  datatype Parsed = Parsed(terms: seq<Term>) | SyntaxError | Outside

  /** SyntaxCharacter. */
  predicate IsSyntaxChar(c: CodeUnit) {
    || c == CARET || c == DOLLAR || c == BACKSLASH || c == DOT || c == STAR || c == PLUS || c == QUESTION
    || c == LPAREN || c == RPAREN || c == LBRACKET || c == RBRACKET || c == LBRACE || c == RBRACE || c == PIPE
  }

  // ----- Matching -----

  predicate InRanges(ranges: seq<Range>, c: CodeUnit) {
    exists i | 0 <= i < |ranges| :: ranges[i].lo <= c <= ranges[i].hi
  }

  predicate InAtom(a: Atom, c: CodeUnit) {
    match a
    case Char(d) => c == d
    case Class(negated, ranges) => InRanges(ranges, c) != negated
  }

  /** The terms match the whole of `s`. */
  predicate Matches(terms: seq<Term>, s: JsString)
    decreases |s| + |terms|
  {
    if terms == [] then s == []
    else
      var t, rest := terms[0], terms[1..];
      match t.quantifier
      case One => s != [] && InAtom(t.atom, s[0]) && Matches(rest, s[1..])
      case Optional => Matches(rest, s) || (s != [] && InAtom(t.atom, s[0]) && Matches(rest, s[1..]))
      case Star => Matches(rest, s) || (s != [] && InAtom(t.atom, s[0]) && Matches(terms, s[1..]))
  }

  // ----- Lexing -----

  /** An atom, or one of the quantifiers `*` and `?`. */
  datatype Lexeme = A(atom: Atom) | Q(star: bool)

  datatype Lexed = Lexed(lexemes: seq<Lexeme>) | BadRange | NotLexed

  datatype ClassAtomRead = AtomRead(c: CodeUnit, rest: JsString) | NoAtom

  function ReadClassAtom(s: JsString): (r: ClassAtomRead)
    requires s != []
    ensures r.AtomRead? ==> |r.rest| < |s|
  {
    if s[0] == BACKSLASH then
      if |s| >= 2 && IsSyntaxChar(s[1]) then AtomRead(s[1], s[2..]) else NoAtom
    else AtomRead(s[0], s[1..])
  }

  datatype ClassRead = ClassRead(ranges: seq<Range>, rest: JsString) | BadClassRange | OpenClass

  function AddRange(range: Range, r: ClassRead): ClassRead {
    match r
    case ClassRead(ranges, rest) => ClassRead([range] + ranges, rest)
    case _ => r
  }

  /** ClassRanges up to the closing bracket. A dash between two atoms makes a range; its bounds must be in order. */
  function ReadClassRanges(s: JsString): (r: ClassRead)
    ensures r.ClassRead? ==> |r.rest| < |s|
    decreases |s|
  {
    if s == [] then OpenClass
    else if s[0] == RBRACKET then ClassRead([], s[1..])
    else
      match ReadClassAtom(s)
      case NoAtom => OpenClass
      case AtomRead(lo, t) =>
        if |t| >= 2 && t[0] == MINUS && t[1] != RBRACKET then
          match ReadClassAtom(t[1..])
          case NoAtom => OpenClass
          case AtomRead(hi, u) =>
            if lo > hi then BadClassRange else AddRange(Range(lo, hi), ReadClassRanges(u))
        else AddRange(Range(lo, lo), ReadClassRanges(t))
  }

  function AddLexeme(l: Lexeme, r: Lexed): Lexed {
    match r
    case Lexed(ls) => Lexed([l] + ls)
    case _ => r
  }

  /** The lexemes up to a final `$`. */
  function Lex(s: JsString): Lexed
    decreases |s|
  {
    if s == [] then NotLexed
    else if s == [DOLLAR] then Lexed([])
    else if s[0] == LBRACKET then
      var negated := |s| >= 2 && s[1] == CARET;
      match ReadClassRanges(if negated then s[2..] else s[1..])
      case ClassRead(ranges, rest) => AddLexeme(A(Class(negated, ranges)), Lex(rest))
      case BadClassRange => BadRange
      case OpenClass => NotLexed
    else if s[0] == BACKSLASH then
      if |s| >= 2 && IsSyntaxChar(s[1]) then AddLexeme(A(Char(s[1])), Lex(s[2..])) else NotLexed
    else if s[0] == STAR then AddLexeme(Q(true), Lex(s[1..]))
    else if s[0] == QUESTION then AddLexeme(Q(false), Lex(s[1..]))
    else if IsSyntaxChar(s[0]) then NotLexed
    else AddLexeme(A(Char(s[0])), Lex(s[1..]))
  }

  // ----- Grouping -----

  function AddTerm(t: Term, r: Parsed): Parsed {
    match r
    case Parsed(ts) => Parsed([t] + ts)
    case _ => r
  }

  /** An atom takes the quantifier after it, and a `?` after that quantifier makes it lazy, which leaves the language
      unchanged. A quantifier without an atom is an error. */
  function Group(ls: seq<Lexeme>): Parsed
    decreases |ls|
  {
    if ls == [] then Parsed([])
    else
      match ls[0]
      case Q(_) => SyntaxError
      case A(atom) =>
        if |ls| >= 2 && ls[1].Q? then
          var rest := if |ls| >= 3 && ls[2] == Q(false) then ls[3..] else ls[2..];
          AddTerm(Term(atom, if ls[1].star then Star else Optional), Group(rest))
        else AddTerm(Term(atom, One), Group(ls[1..]))
  }

  /** The pattern written as `text`. */
  function Parse(text: JsString): Parsed {
    if text == [] || text[0] != CARET then Outside
    else
      match Lex(text[1..])
      case Lexed(ls) => Group(ls)
      case BadRange => SyntaxError
      case NotLexed => Outside
  }

  // ----- The shortest match -----

  function Ones(terms: seq<Term>): nat {
    if terms == [] then 0 else (if terms[0].quantifier.One? then 1 else 0) + Ones(terms[1..])
  }

  function Atoms(ls: seq<Lexeme>): nat {
    if ls == [] then 0 else (if ls[0].A? then 1 else 0) + Atoms(ls[1..])
  }

  /** Atoms with a quantifier right after them. */
  function Quantified(ls: seq<Lexeme>): nat {
    if |ls| < 2 then 0 else (if ls[0].A? && ls[1].Q? then 1 else 0) + Quantified(ls[1..])
  }

  /** Quantifiers at the front count for nothing. */
  lemma SkipQuantifier(ls: seq<Lexeme>)
    requires ls != [] && ls[0].Q?
    ensures Atoms(ls) == Atoms(ls[1..]) && Quantified(ls) == Quantified(ls[1..])
  {
  }

  lemma {:induction false} GroupOnes(ls: seq<Lexeme>)
    requires Group(ls).Parsed?
    ensures Ones(Group(ls).terms) + Quantified(ls) == Atoms(ls)
    decreases |ls|
  {
    if ls != [] && ls[0].A? {
      if |ls| >= 2 && ls[1].Q? {
        SkipQuantifier(ls[1..]);
        assert ls[1..][1..] == ls[2..];
        if |ls| >= 3 && ls[2] == Q(false) {
          SkipQuantifier(ls[2..]);
          assert ls[2..][1..] == ls[3..];
          GroupOnes(ls[3..]);
        } else {
          GroupOnes(ls[2..]);
        }
      } else {
        GroupOnes(ls[1..]);
      }
    }
  }

  lemma {:induction false} QuantifiedConcat(a: seq<Lexeme>, b: seq<Lexeme>)
    ensures Quantified(a + b) >= Quantified(a) + Quantified(b)
    ensures Atoms(a + b) == Atoms(a) + Atoms(b)
  {
    if a == [] {
      assert a + b == b;
    } else {
      assert (a + b)[1..] == a[1..] + b;
      QuantifiedConcat(a[1..], b);
    }
  }

  ghost predicate IsInhabited(a: Atom) {
    exists c: CodeUnit :: InAtom(a, c)
  }

  /** A term that must match a character, and cannot, makes the whole expression match nothing. */
  ghost predicate IsDead(t: Term) {
    t.quantifier.One? && !IsInhabited(t.atom)
  }

  ghost predicate AnyDead(terms: seq<Term>) {
    terms != [] && (IsDead(terms[0]) || AnyDead(terms[1..]))
  }

  /** Without dead terms, some string as long as the number of unquantified terms matches. */
  lemma {:induction false} ShortestMatch(terms: seq<Term>) returns (s: JsString)
    requires !AnyDead(terms)
    ensures Matches(terms, s) && |s| == Ones(terms)
  {
    if terms == [] {
      s := [];
    } else {
      var t := ShortestMatch(terms[1..]);
      if terms[0].quantifier.One? {
        assert IsInhabited(terms[0].atom);
        var c :| InAtom(terms[0].atom, c);
        s := [c] + t;
        assert s[1..] == t;
      } else {
        s := t;
      }
    }
  }

  lemma {:induction false} DeadMatchesNothing(terms: seq<Term>, s: JsString)
    requires AnyDead(terms)
    ensures !Matches(terms, s)
    decreases |s| + |terms|
  {
    if IsDead(terms[0]) {
      if s != [] && InAtom(terms[0].atom, s[0]) {
        assert IsInhabited(terms[0].atom);
      }
    } else {
      DeadMatchesNothing(terms[1..], s);
      if s != [] {
        DeadMatchesNothing(terms[1..], s[1..]);
        if terms[0].quantifier.Star? {
          DeadMatchesNothing(terms, s[1..]);
        }
      }
    }
  }

  /** Some atom that no quantifier follows can match nothing. */
  ghost predicate HasDeadAtom(ls: seq<Lexeme>) {
    && ls != []
    && ((ls[0].A? && !IsInhabited(ls[0].atom) && (|ls| == 1 || ls[1].A?)) || HasDeadAtom(ls[1..]))
  }

  lemma {:induction false} GroupedDead(ls: seq<Lexeme>)
    requires Group(ls).Parsed?
    ensures AnyDead(Group(ls).terms) <==> HasDeadAtom(ls)
    decreases |ls|
  {
    if ls != [] {
      if |ls| >= 2 && ls[1].Q? {
        assert HasDeadAtom(ls) <==> HasDeadAtom(ls[1..]);
        assert HasDeadAtom(ls[1..]) <==> HasDeadAtom(ls[2..]) by { assert ls[1..][1..] == ls[2..]; }
        if |ls| >= 3 && ls[2] == Q(false) {
          assert HasDeadAtom(ls[2..]) <==> HasDeadAtom(ls[3..]) by { assert ls[2..][1..] == ls[3..]; }
          GroupedDead(ls[3..]);
          AddedDead(Term(ls[0].atom, if ls[1].star then Star else Optional), Group(ls[3..]).terms);
        } else {
          GroupedDead(ls[2..]);
          AddedDead(Term(ls[0].atom, if ls[1].star then Star else Optional), Group(ls[2..]).terms);
        }
      } else {
        GroupedDead(ls[1..]);
        AddedDead(Term(ls[0].atom, One), Group(ls[1..]).terms);
      }
    }
  }

  lemma AddedDead(t: Term, terms: seq<Term>)
    ensures AnyDead([t] + terms) <==> IsDead(t) || AnyDead(terms)
  {
    assert ([t] + terms)[1..] == terms;
  }

  /** No quantifier stands where none may: `room` is 2 after an atom, 1 after its quantifier, and 0 otherwise. */
  predicate NoStray(ls: seq<Lexeme>, room: nat) {
    if ls == [] then true
    else if ls[0].A? then NoStray(ls[1..], 2)
    else if room == 2 then NoStray(ls[1..], 1)
    else room == 1 && ls[0] == Q(false) && NoStray(ls[1..], 0)
  }

  lemma StrayAtom(ls: seq<Lexeme>, room: nat)
    requires ls != [] && ls[0].A?
    ensures NoStray(ls, room) <==> NoStray(ls[1..], 2)
  {
  }

  lemma StrayQuantifier(ls: seq<Lexeme>)
    requires ls != [] && ls[0].Q?
    ensures NoStray(ls, 2) <==> NoStray(ls[1..], 1)
    ensures ls[0] == Q(false) ==> (NoStray(ls, 1) <==> NoStray(ls[1..], 0))
  {
  }

  lemma StrayElse(ls: seq<Lexeme>)
    ensures (ls == [] || ls[0].A?) ==> (NoStray(ls, 2) <==> NoStray(ls, 0))
    ensures (ls == [] || ls[0] != Q(false)) ==> (NoStray(ls, 1) <==> NoStray(ls, 0))
  {
  }

  lemma {:induction false} GroupsIffNoStray(ls: seq<Lexeme>)
    ensures Group(ls).Parsed? <==> NoStray(ls, 0)
    decreases |ls|
  {
    if ls != [] && ls[0].A? {
      StrayAtom(ls, 0);
      if |ls| >= 2 && ls[1].Q? {
        var rest := ls[2..];
        assert ls[1..][1..] == rest;
        StrayQuantifier(ls[1..]);
        if |ls| >= 3 && ls[2] == Q(false) {
          assert rest[1..] == ls[3..];
          StrayQuantifier(rest);
          GroupsIffNoStray(ls[3..]);
        } else {
          StrayElse(rest);
          GroupsIffNoStray(rest);
        }
      } else {
        StrayElse(ls[1..]);
        GroupsIffNoStray(ls[1..]);
      }
    }
  }
}

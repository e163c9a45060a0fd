/** Glob patterns of one path segment: their meaning, and their compilation to a regular expression. */
module Glob {
  import opened Units
  import opened Chars
  import opened Regex

  // ----- Patterns and their meaning -----

  /** `Bracket` holds the text between the brackets, `Escaped` the character after a backslash. */
  datatype Token = AnyRun | AnyOne | Bracket(content: JsString) | Literal(c: CodeUnit) | Escaped(c: CodeUnit)

  /** `pattern.indexOf(ch, from)`, with the length of the pattern for -1. */
  function IndexOf(pattern: JsString, ch: CodeUnit, from: nat): (k: nat)
    requires from <= |pattern|
    ensures from <= k <= |pattern|
    ensures k < |pattern| ==> pattern[k] == ch
    ensures forall j | from <= j < k :: pattern[j] != ch
    decreases |pattern| - from
  {
    if from == |pattern| || pattern[from] == ch then from else IndexOf(pattern, ch, from + 1)
  }

  /** The first token of a pattern and how many characters it takes. */
  function FirstToken(pattern: JsString): (r: (Token, nat))
    requires pattern != []
    ensures 1 <= r.1 <= |pattern|
  {
    var ch := pattern[0];
    if ch == STAR then (AnyRun, 1)
    else if ch == QUESTION then (AnyOne, 1)
    else if ch == LBRACKET then
      var end := IndexOf(pattern, RBRACKET, 1);
      if end == |pattern| then (Literal(ch), 1) else (Bracket(pattern[1..end]), end + 1)
    else if ch == BACKSLASH && |pattern| > 1 then (Escaped(pattern[1]), 2)
    else (Literal(ch), 1)
  }

  function Tokens(pattern: JsString): seq<Token>
    decreases |pattern|
  {
    if pattern == [] then []
    else
      var (t, k) := FirstToken(pattern);
      [t] + Tokens(pattern[k..])
  }

  /** `a-b` is a range wherever a character stands on either side of the dash. */
  function Items(content: JsString): seq<Range>
    decreases |content|
  {
    if content == [] then []
    else if |content| >= 3 && content[1] == MINUS then [Range(content[0], content[2])] + Items(content[3..])
    else [Range(content[0], content[0])] + Items(content[1..])
  }

  predicate IsNegated(content: JsString) {
    content != [] && content[0] == BANG
  }

  /** Only `!` negates a class. */
  function Body(content: JsString): JsString {
    if IsNegated(content) then content[1..] else content
  }

  predicate InClass(content: JsString, c: CodeUnit) {
    InRanges(Items(Body(content)), c) != IsNegated(content)
  }

  predicate Accepts(t: Token, c: CodeUnit) {
    match t
    case AnyRun => c != SLASH
    case AnyOne => c != SLASH
    case Bracket(content) => InClass(content, c)
    case Literal(d) => c == d
    case Escaped(d) => c == d
  }

  /** The pattern matches the whole of `s`. */
  predicate GlobMatches(ts: seq<Token>, s: JsString)
    decreases |s| + |ts|
  {
    if ts == [] then s == []
    else if ts[0].AnyRun? then
      GlobMatches(ts[1..], s) || (s != [] && s[0] != SLASH && GlobMatches(ts, s[1..]))
    else s != [] && Accepts(ts[0], s[0]) && GlobMatches(ts[1..], s[1..])
  }

  /** The pattern, given as text, matches the whole of `s`. */
  predicate PatternMatches(pattern: JsString, s: JsString) {
    GlobMatches(Tokens(pattern), s)
  }

  // ----- Compilation -----

  /** `[{}()+.\\[\]^$|]`, the characters that `replaceAll` escapes; `*` and `?` are not among them. */
  predicate NeedsEscape(c: CodeUnit) {
    IsSyntaxChar(c) && c != STAR && c != QUESTION
  }

  function EscapeChar(c: CodeUnit): JsString {
    if NeedsEscape(c) then [BACKSLASH, c] else [c]
  }

  function EscapeBackslashes(s: JsString): JsString {
    if s == [] then []
    else (if s[0] == BACKSLASH then [BACKSLASH, BACKSLASH] else [s[0]]) + EscapeBackslashes(s[1..])
  }

  function EmitClass(content: JsString): JsString {
    var charClass := EscapeBackslashes(content);
    var adjusted :=
      if charClass != [] && charClass[0] == BANG then [CARET] + charClass[1..]
      else if charClass != [] && charClass[0] == CARET then [BACKSLASH] + charClass
      else charClass;
    [LBRACKET] + adjusted + [RBRACKET]
  }

  const NOT_SLASH: JsString := [LBRACKET, CARET, SLASH, RBRACKET]
  const NOT_SLASHES: JsString := NOT_SLASH + [STAR]

  function Emit(t: Token): JsString {
    match t
    case AnyRun => NOT_SLASHES
    case AnyOne => NOT_SLASH
    case Bracket(content) => EmitClass(content)
    case Literal(c) => EscapeChar(c)
    case Escaped(c) => EscapeChar(c)
  }

  function EmitAll(ts: seq<Token>): JsString {
    if ts == [] then [] else Emit(ts[0]) + EmitAll(ts[1..])
  }

  /** The source text of the regular expression of `pattern`. */
  function Compile(pattern: JsString): JsString {
    [CARET] + EmitAll(Tokens(pattern)) + [DOLLAR]
  }

  /** The token at position `i`, found without cutting the pattern. */
  function TokenAt(pattern: JsString, i: nat): (r: (Token, nat))
    requires i < |pattern|
    ensures 1 <= r.1 <= |pattern| - i
  {
    var ch := pattern[i];
    if ch == STAR then (AnyRun, 1)
    else if ch == QUESTION then (AnyOne, 1)
    else if ch == LBRACKET then
      var end := IndexOf(pattern, RBRACKET, i + 1);
      if end == |pattern| then (Literal(ch), 1) else (Bracket(pattern[i + 1..end]), end + 1 - i)
    else if ch == BACKSLASH && i + 1 < |pattern| then (Escaped(pattern[i + 1]), 2)
    else (Literal(ch), 1)
  }

  lemma FirstTokenAt(pattern: JsString, i: nat)
    requires i < |pattern|
    ensures TokenAt(pattern, i) == FirstToken(pattern[i..])
  {
    IndexOfShift(pattern, RBRACKET, i, i + 1);
    var end := IndexOf(pattern, RBRACKET, i + 1);
    assert pattern[i..][1..end - i] == pattern[i + 1..end];
  }

  lemma {:induction false} IndexOfShift(pattern: JsString, ch: CodeUnit, i: nat, from: nat)
    requires i <= from <= |pattern|
    ensures IndexOf(pattern, ch, from) == i + IndexOf(pattern[i..], ch, from - i)
    decreases |pattern| - from
  {
    if from < |pattern| && pattern[from] != ch {
      IndexOfShift(pattern, ch, i, from + 1);
    }
  }

  /** The text for the tokens from position `i` on. */
  function EmitFrom(pattern: JsString, i: nat): JsString
    requires i <= |pattern|
  {
    EmitAll(Tokens(pattern[i..]))
  }

  /** Emitting by position is emitting the tokens of the pattern in order. */
  lemma EmitAllAt(pattern: JsString, i: nat, next: nat)
    requires i < |pattern| && next == i + TokenAt(pattern, i).1
    ensures EmitFrom(pattern, i) == Emit(TokenAt(pattern, i).0) + EmitFrom(pattern, next)
  {
    TokensAt(pattern, i, next);
    EmitAllCons(TokenAt(pattern, i).0, Tokens(pattern[next..]));
  }

  lemma EmitAllCons(t: Token, ts: seq<Token>)
    ensures EmitAll([t] + ts) == Emit(t) + EmitAll(ts)
  {
    assert ([t] + ts)[1..] == ts;
  }

  lemma TokensAt(pattern: JsString, i: nat, next: nat)
    requires i < |pattern| && next == i + TokenAt(pattern, i).1
    ensures Tokens(pattern[i..]) == [TokenAt(pattern, i).0] + Tokens(pattern[next..])
  {
    FirstTokenAt(pattern, i);
    assert pattern[i..][next - i..] == pattern[next..];
  }

  /** `regex` is the text for the first `i` characters of the pattern. */
  ghost predicate Emitted(pattern: JsString, i: nat, regex: JsString) {
    i <= |pattern| && [CARET] + EmitFrom(pattern, 0) == regex + EmitFrom(pattern, i)
  }

  ghost predicate IsRound(pattern: JsString, i: nat, piece: JsString, next: nat)
    requires i < |pattern|
  {
    piece == Emit(TokenAt(pattern, i).0) && next == i + TokenAt(pattern, i).1
  }

  lemma EmitNext(pattern: JsString, i: nat, regex: JsString, piece: JsString, next: nat)
    requires i < |pattern| && Emitted(pattern, i, regex) && IsRound(pattern, i, piece, next)
    ensures i < next <= |pattern| && Emitted(pattern, next, regex + piece)
  {
    EmitAllAt(pattern, i, next);
    AppendAssociates(regex, piece, EmitFrom(pattern, next));
  }

  lemma EmitEnd(pattern: JsString, regex: JsString)
    requires Emitted(pattern, |pattern|, regex)
    ensures regex + [DOLLAR] == Compile(pattern)
  {
    assert pattern[0..] == pattern && pattern[|pattern|..] == [];
    assert regex + [] == regex;
  }

  /** `globPatternToRegex`, up to the text handed to `RegExp`. */
  method GlobPatternToRegex(pattern: JsString) returns (regex: JsString)
    ensures regex == Compile(pattern)
  {
    regex := [CARET];
    var i := 0;
    while i < |pattern|
      invariant 0 <= i <= |pattern| && Emitted(pattern, i, regex)
    {
      var piece, next := EmitAt(pattern, i);
      EmitNext(pattern, i, regex, piece, next);
      regex, i := regex + piece, next;
    }
    EmitEnd(pattern, regex);
    regex := regex + [DOLLAR];
  }

  /** The `switch` of the loop: the text appended, and `i` after the increment. */
  method EmitAt(pattern: JsString, start: nat) returns (piece: JsString, i: nat)
    requires start < |pattern|
    ensures IsRound(pattern, start, piece, i)
  {
    i := start;
    var ch := pattern[i];
    if ch == STAR {
      piece := NOT_SLASHES;
    } else if ch == QUESTION {
      piece := NOT_SLASH;
    } else if ch == LBRACKET {
      var end := IndexOf(pattern, RBRACKET, i + 1);
      if end == |pattern| {
        piece := [BACKSLASH, LBRACKET];
      } else {
        piece := EmitClass(pattern[i + 1..end]);
        i := end;
      }
    } else if ch == BACKSLASH {
      if i + 1 < |pattern| {
        var next := pattern[i + 1];
        piece := EscapeChar(next);
        i := i + 1;
      } else {
        piece := [BACKSLASH, BACKSLASH];
      }
    } else {
      piece := EscapeChar(ch);
    }
    i := i + 1;
  }
}

/** Token recognition of the POSIX Shell Command Language (sections 2.2 to 2.4 and 2.9.1), as far as words, quoting, the
    operator `&&`, assignments and reserved words go. Text that would need expansion, or any other operator, is not
    read. */
module Shell {
  import opened Units
  import opened Chars

  const QUOTE: CodeUnit := 0x27
  const DQUOTE: CodeUnit := 0x22
  const SPACE: CodeUnit := 0x20
  const TAB: CodeUnit := 0x09
  const AMPERSAND: CodeUnit := 0x26
  const EQUALS: CodeUnit := 0x3D
  const BACKTICK: CodeUnit := 0x60
  const SEMICOLON: CodeUnit := 0x3B
  const LESS: CodeUnit := 0x3C
  const GREATER: CodeUnit := 0x3E
  const HASH: CodeUnit := 0x23
  const TILDE: CodeUnit := 0x7E

  /** A character of a word, and whether it was quoted. */
  datatype Piece = Piece(c: CodeUnit, quoted: bool)

  type Word = seq<Piece>

  datatype Token = WordToken(word: Word) | AndIf

  function Unquoted(s: JsString): Word {
    seq(|s|, i requires 0 <= i < |s| => Piece(s[i], false))
  }

  function Quoted(s: JsString): Word {
    seq(|s|, i requires 0 <= i < |s| => Piece(s[i], true))
  }

  /** The word after quote removal. */
  function Text(w: Word): JsString {
    seq(|w|, i requires 0 <= i < |w| => w[i].c)
  }

  /** The first `c` of `s`, or the length of `s`. */
  function Find(s: JsString, c: CodeUnit): (k: nat)
    ensures k <= |s|
    ensures k < |s| ==> s[k] == c
    ensures forall j | 0 <= j < k :: s[j] != c
  {
    if s == [] || s[0] == c then 0 else 1 + Find(s[1..], c)
  }

  /** Characters that end a word, start an operator or an expansion, or may be matched against file names, when they are
      not quoted. */
  predicate IsSpecial(c: CodeUnit) {
    || c == PIPE || c == AMPERSAND || c == SEMICOLON || c == LESS || c == GREATER || c == LPAREN || c == RPAREN
    || c == DOLLAR || c == BACKTICK || c == BACKSLASH || c == DQUOTE || c == QUOTE || c == SPACE || c == TAB || c == LF
    || c == STAR || c == QUESTION || c == LBRACKET || c == HASH || c == TILDE
  }

  /** Characters that keep a special meaning between double quotes. */
  predicate IsSpecialInDoubleQuotes(c: CodeUnit) {
    c == DOLLAR || c == BACKTICK || c == BACKSLASH
  }

  function Prefix(cur: Option<Word>): Word {
    match cur case None => [] case Some(w) => w
  }

  /** The token that `cur` makes when it is delimited. */
  function Delimit(cur: Option<Word>): seq<Token> {
    match cur case None => [] case Some(w) => [WordToken(w)]
  }

  function Cons(ts: seq<Token>, r: Option<seq<Token>>): Option<seq<Token>> {
    match r case None => None case Some(us) => Some(ts + us)
  }

  /** The tokens of `s`, where `cur` is the word read so far. */
  function Read(s: JsString, cur: Option<Word>): Option<seq<Token>>
    decreases |s|
  {
    if s == [] then Some(Delimit(cur))
    else if s[0] == QUOTE then
      var rest := s[1..];
      var k := Find(rest, QUOTE);
      if k == |rest| then None else Read(rest[k + 1..], Some(Prefix(cur) + Quoted(rest[..k])))
    else if s[0] == DQUOTE then
      var rest := s[1..];
      var k := Find(rest, DQUOTE);
      if k == |rest| || exists j | 0 <= j < k :: IsSpecialInDoubleQuotes(rest[j]) then None
      else Read(rest[k + 1..], Some(Prefix(cur) + Quoted(rest[..k])))
    else if s[0] == SPACE || s[0] == TAB then Cons(Delimit(cur), Read(s[1..], None))
    else if s[0] == AMPERSAND && |s| >= 2 && s[1] == AMPERSAND then
      Cons(Delimit(cur) + [AndIf], Read(s[2..], None))
    else if IsSpecial(s[0]) then None
    else Read(s[1..], Some(Prefix(cur) + [Piece(s[0], false)]))
  }

  function Tokens(s: JsString): Option<seq<Token>> {
    Read(s, None)
  }

  // ----- Simple commands -----

  predicate IsLetter(c: CodeUnit) {
    0x41 <= c <= 0x5A || 0x61 <= c <= 0x7A || c == 0x5F
  }

  predicate IsDigit(c: CodeUnit) {
    0x30 <= c <= 0x39
  }

  /** Section 3.235 of the Base Definitions: a name. */
  predicate IsName(s: JsString) {
    s != [] && IsLetter(s[0]) && forall i | 0 <= i < |s| :: IsLetter(s[i]) || IsDigit(s[i])
  }

  datatype Assignment = Assignment(name: JsString, value: JsString)

  /** The position of the `=` that makes a word an assignment: the first one, unquoted, after an unquoted name. */
  function AssignmentAt(w: Word): Option<nat> {
    var k := Find(Text(w), EQUALS);
    if k < |w| && !w[k].quoted && IsName(Text(w[..k])) && forall i | 0 <= i < k :: !w[i].quoted then Some(k) else None
  }

  function ToAssignment(w: Word): Assignment
    requires AssignmentAt(w).Some?
  {
    var k := AssignmentAt(w).value;
    Assignment(Text(w[..k]), Text(w[k + 1..]))
  }

  /** The reserved words of section 2.4 that are made of letters: case, do, done, elif, else, esac, fi, for, if, in,
      then, until and while; and `!`, `{` and `}`. */
  predicate IsReservedText(s: JsString) {
    || s == [0x63, 0x61, 0x73, 0x65] || s == [0x64, 0x6F] || s == [0x64, 0x6F, 0x6E, 0x65]
    || s == [0x65, 0x6C, 0x69, 0x66] || s == [0x65, 0x6C, 0x73, 0x65] || s == [0x65, 0x73, 0x61, 0x63]
    || s == [0x66, 0x69] || s == [0x66, 0x6F, 0x72] || s == [0x69, 0x66] || s == [0x69, 0x6E]
    || s == [0x74, 0x68, 0x65, 0x6E] || s == [0x75, 0x6E, 0x74, 0x69, 0x6C] || s == [0x77, 0x68, 0x69, 0x6C, 0x65]
    || s == [BANG] || s == [LBRACE] || s == [RBRACE]
  }

  /** A reserved word is recognized only when none of its characters is quoted. */
  predicate IsReserved(w: Word) {
    w == Unquoted(Text(w)) && IsReservedText(Text(w))
  }

  /** A simple command: assignments, then the command name and its arguments; or a reserved word in command position. */
  datatype Command = SimpleCommand(assignments: seq<Assignment>, words: seq<JsString>) | ReservedWordFirst

  function Texts(ws: seq<Word>): (ts: seq<JsString>) {
    seq(|ws|, i requires 0 <= i < |ws| => Text(ws[i]))
  }

  /** The number of leading words that are assignments. */
  function LeadingAssignments(ws: seq<Word>): (k: nat)
    ensures k <= |ws|
    ensures forall i | 0 <= i < k :: AssignmentAt(ws[i]).Some?
    ensures k < |ws| ==> AssignmentAt(ws[k]).None?
  {
    if ws == [] || AssignmentAt(ws[0]).None? then 0 else 1 + LeadingAssignments(ws[1..])
  }

  function ReadCommand(ws: seq<Word>): Command {
    if ws != [] && IsReserved(ws[0]) then ReservedWordFirst
    else
      var k := LeadingAssignments(ws);
      SimpleCommand(seq(k, i requires 0 <= i < k => ToAssignment(ws[i])), Texts(ws[k..]))
  }
}

/** The printer of remote shell commands, and what a shell reads back from its output. */
module ExecCommand {
  import opened Units
  import opened Chars
  import opened Shell

  // ----- Printing -----

  /** `[A-Za-z0-9_./:=@%^,+-]`. */
  predicate IsSafeChar(c: CodeUnit) {
    || IsLetter(c) || IsDigit(c) || c == DOT || c == SLASH || c == 0x3A || c == EQUALS || c == 0x40 || c == 0x25
    || c == CARET || c == 0x2C || c == PLUS || c == MINUS
  }

  predicate IsSafe(arg: JsString) {
    arg != [] && forall i | 0 <= i < |arg| :: IsSafeChar(arg[i])
  }

  /** `arg.replaceAll("'", "'\"'\"'")`. */
  function EscapeQuotes(arg: JsString): JsString {
    if arg == [] then []
    else (if arg[0] == QUOTE then [QUOTE, DQUOTE, QUOTE, DQUOTE, QUOTE] else [arg[0]]) + EscapeQuotes(arg[1..])
  }

  function ShellQuote(arg: JsString): JsString {
    if arg == [] then [QUOTE, QUOTE]
    else if IsSafe(arg) then arg
    else [QUOTE] + EscapeQuotes(arg) + [QUOTE]
  }

  datatype EnvEntry = EnvEntry(key: JsString, value: JsString)

  function Join(parts: seq<JsString>): JsString {
    if parts == [] then [] else if |parts| == 1 then parts[0] else parts[0] + [SPACE] + Join(parts[1..])
  }

  function QuoteAll(args: seq<JsString>): (q: seq<JsString>) {
    seq(|args|, i requires 0 <= i < |args| => ShellQuote(args[i]))
  }

  function PrintEntry(e: EnvEntry): JsString {
    e.key + [EQUALS] + ShellQuote(e.value)
  }

  function PrintEnv(env: seq<EnvEntry>): (q: seq<JsString>) {
    seq(|env|, i requires 0 <= i < |env| => PrintEntry(env[i]))
  }

  const CD: JsString := [0x63, 0x64]
  const AND_THEN: JsString := [SPACE, AMPERSAND, AMPERSAND, SPACE]

  function PrintWithEnv(args: seq<JsString>, env: seq<EnvEntry>): JsString {
    var command := Join(QuoteAll(args));
    if env == [] then command else Join(PrintEnv(env)) + [SPACE] + command
  }

  /** The command for valid environment names. */
  function Print(args: seq<JsString>, cwd: JsString, env: seq<EnvEntry>): JsString {
    var withEnv := PrintWithEnv(args, env);
    if cwd == [] then withEnv else CD + [SPACE] + ShellQuote(cwd) + AND_THEN + withEnv
  }

  datatype Printed = InvalidName(key: JsString) | Printed(command: JsString)

  predicate ValidNames(env: seq<EnvEntry>) {
    forall i | 0 <= i < |env| :: IsName(env[i].key)
  }

  /** `_buildExecCommand`; an absent environment is an empty one. */
  method BuildExecCommand(args: seq<JsString>, cwd: JsString, env: Option<seq<EnvEntry>>) returns (r: Printed)
    ensures var entries := match env case None => [] case Some(es) => es;
            if ValidNames(entries) then r == Printed(Print(args, cwd, entries))
            else exists i | 0 <= i < |entries| ::
                   r == InvalidName(entries[i].key) && !IsName(entries[i].key) && ValidNames(entries[..i])
  {
    var command := Join(QuoteAll(args));
    if env.Some? {
      var assignments: seq<JsString> := [];
      var i := 0;
      while i < |env.value|
        invariant 0 <= i <= |env.value| && ValidNames(env.value[..i])
        invariant assignments == PrintEnv(env.value[..i])
      {
        var e := env.value[i];
        if !IsName(e.key) {
          return InvalidName(e.key);
        }
        assert env.value[..i + 1] == env.value[..i] + [e];
        assignments := assignments + [e.key + [EQUALS] + ShellQuote(e.value)];
        i := i + 1;
      }
      assert env.value[..i] == env.value;
      if |assignments| > 0 {
        command := Join(assignments) + [SPACE] + command;
      }
    }
    if cwd != [] {
      command := CD + [SPACE] + ShellQuote(cwd) + AND_THEN + command;
    }
    r := Printed(command);
  }

  // ----- Reading back -----

  /** The word that a shell reads from a printed argument. */
  function WordOf(arg: JsString): Word {
    if IsSafe(arg) then Unquoted(arg) else Quoted(arg)
  }

  lemma {:induction false} FindAppend(a: JsString, c: CodeUnit, b: JsString)
    requires c !in a
    ensures Find(a + [c] + b, c) == |a|
  {
    if a == [] {
      assert a + [c] + b == [c] + b;
    } else {
      assert (a + [c] + b)[1..] == a[1..] + [c] + b;
      FindAppend(a[1..], c, b);
    }
  }

  lemma ReadSingleQuotes(a: JsString, rest: JsString, cur: Option<Word>)
    requires QUOTE !in a
    ensures Read([QUOTE] + a + [QUOTE] + rest, cur) == Read(rest, Some(Prefix(cur) + Quoted(a)))
  {
    var s := [QUOTE] + a + [QUOTE] + rest;
    assert s[1..] == a + [QUOTE] + rest;
    FindAppend(a, QUOTE, rest);
    assert s[1..][..|a|] == a && s[1..][|a| + 1..] == rest;
  }

  lemma ReadQuotedQuote(rest: JsString, cur: Option<Word>)
    ensures Read([DQUOTE, QUOTE, DQUOTE] + rest, cur) == Read(rest, Some(Prefix(cur) + Quoted([QUOTE])))
  {
    var s := [DQUOTE, QUOTE, DQUOTE] + rest;
    var a: JsString := [QUOTE];
    assert s[1..] == a + [DQUOTE] + rest;
    FindAppend(a, DQUOTE, rest);
    assert s[1..][..1] == a && s[1..][2..] == rest;
  }

  lemma {:induction false} EscapeConcat(a: JsString, b: JsString)
    ensures EscapeQuotes(a + b) == EscapeQuotes(a) + EscapeQuotes(b)
  {
    if a == [] {
      assert a + b == b;
    } else {
      assert (a + b)[1..] == a[1..] + b;
      EscapeConcat(a[1..], b);
    }
  }

  lemma {:induction false} EscapePlain(a: JsString)
    requires QUOTE !in a
    ensures EscapeQuotes(a) == a
  {
    if a != [] {
      EscapePlain(a[1..]);
      assert a == [a[0]] + a[1..];
    }
  }

  /** The text after the first quote of the argument. */
  function AfterQuote(b: JsString, rest: JsString): JsString {
    [QUOTE] + EscapeQuotes(b) + [QUOTE] + rest
  }

  /** A single-quoted argument is read as one word, its own quotes included. */
  lemma {:induction false} ReadEscaped(arg: JsString, rest: JsString, cur: Option<Word>)
    ensures Read(AfterQuote(arg, rest), cur) == Read(rest, Some(Prefix(cur) + Quoted(arg)))
    decreases |arg|
  {
    var k := Find(arg, QUOTE);
    if k == |arg| {
      EscapePlain(arg);
      ReadSingleQuotes(arg, rest, cur);
    } else {
      ReadOneQuote(arg, k, rest, cur);
      ReadEscaped(arg[k + 1..], rest, Some(Prefix(cur) + Quoted(arg[..k + 1])));
      QuotedSplit(arg, k + 1, Prefix(cur));
    }
  }

  lemma QuotedSplit(arg: JsString, k: nat, w: Word)
    requires k <= |arg|
    ensures w + Quoted(arg[..k]) + Quoted(arg[k..]) == w + Quoted(arg)
  {
  }

  lemma QuotedUpTo(arg: JsString, k: nat, w: Word)
    requires k < |arg| && arg[k] == QUOTE
    ensures w + Quoted(arg[..k]) + Quoted([QUOTE]) == w + Quoted(arg[..k + 1])
  {
  }

  lemma ReadOneQuote(arg: JsString, k: nat, rest: JsString, cur: Option<Word>)
    requires k < |arg| && arg[k] == QUOTE && QUOTE !in arg[..k]
    ensures Read(AfterQuote(arg, rest), cur)
         == Read(AfterQuote(arg[k + 1..], rest), Some(Prefix(cur) + Quoted(arg[..k + 1])))
  {
    var tail := AfterQuote(arg[k + 1..], rest);
    var s := AfterQuote(arg, rest);
    var middle := [DQUOTE, QUOTE, DQUOTE] + tail;
    assert s == [QUOTE] + arg[..k] + [QUOTE] + middle by {
      EscapedText(arg, k, rest);
    }
    assert Read(s, cur) == Read(middle, Some(Prefix(cur) + Quoted(arg[..k]))) by {
      ReadSingleQuotes(arg[..k], middle, cur);
    }
    ReadQuotedQuote(tail, Some(Prefix(cur) + Quoted(arg[..k])));
    QuotedUpTo(arg, k, Prefix(cur));
  }

  lemma EscapedText(arg: JsString, k: nat, rest: JsString)
    requires k < |arg| && arg[k] == QUOTE && QUOTE !in arg[..k]
    ensures AfterQuote(arg, rest)
         == [QUOTE] + arg[..k] + [QUOTE] + ([DQUOTE, QUOTE, DQUOTE] + AfterQuote(arg[k + 1..], rest))
  {
    var b := arg[k..];
    assert arg == arg[..k] + b;
    EscapeConcat(arg[..k], b);
    EscapePlain(arg[..k]);
    assert b[1..] == arg[k + 1..];
  }

  lemma SafeIsPlain(c: CodeUnit)
    requires IsSafeChar(c)
    ensures !IsSpecial(c)
  {
  }

  lemma ReadPlainChar(c: CodeUnit, rest: JsString, cur: Option<Word>)
    requires IsSafeChar(c)
    ensures Read([c] + rest, cur) == Read(rest, Some(Prefix(cur) + Unquoted([c])))
  {
    SafeIsPlain(c);
    assert ([c] + rest)[1..] == rest;
    assert Unquoted([c]) == [Piece(c, false)];
  }

  lemma {:induction false} ReadPlain(s: JsString, rest: JsString, cur: Option<Word>)
    requires s != [] && forall i | 0 <= i < |s| :: IsSafeChar(s[i])
    ensures Read(s + rest, cur) == Read(rest, Some(Prefix(cur) + Unquoted(s)))
  {
    var next := Some(Prefix(cur) + Unquoted([s[0]]));
    ReadPlainChar(s[0], s[1..] + rest, cur);
    HeadAside(s, rest);
    if |s| > 1 {
      ReadPlain(s[1..], rest, next);
      UnquotedSplit(s, Prefix(cur));
    }
  }

  lemma HeadAside(s: JsString, rest: JsString)
    requires s != []
    ensures s + rest == [s[0]] + (s[1..] + rest)
    ensures |s| == 1 ==> s == [s[0]] && s[1..] + rest == rest
  {
  }

  lemma UnquotedSplit(s: JsString, w: Word)
    requires s != []
    ensures w + Unquoted([s[0]]) + Unquoted(s[1..]) == w + Unquoted(s)
  {
  }

  /** What `shellQuote` prints is read back as one word with the argument's text. */
  lemma ReadQuoted(arg: JsString, rest: JsString, cur: Option<Word>)
    ensures Read(ShellQuote(arg) + rest, cur) == Read(rest, Some(Prefix(cur) + WordOf(arg)))
  {
    if arg == [] {
      ReadSingleQuotes([], rest, cur);
      assert [QUOTE] + [] + [QUOTE] + rest == ShellQuote(arg) + rest;
    } else if IsSafe(arg) {
      ReadPlain(arg, rest, cur);
    } else {
      ReadEscaped(arg, rest, cur);
    }
  }

  lemma TextOfWord(arg: JsString)
    ensures Text(WordOf(arg)) == arg
  {
  }

  function WordsOf(args: seq<JsString>): (ws: seq<Word>) {
    seq(|args|, i requires 0 <= i < |args| => WordOf(args[i]))
  }

  /** The word that a shell reads from a printed environment entry. */
  function EnvWord(e: EnvEntry): Word {
    Unquoted(e.key + [EQUALS]) + WordOf(e.value)
  }

  function EnvWords(env: seq<EnvEntry>): (ws: seq<Word>) {
    seq(|env|, i requires 0 <= i < |env| => EnvWord(env[i]))
  }

  function WordTokens(ws: seq<Word>): (ts: seq<Token>) {
    seq(|ws|, i requires 0 <= i < |ws| => WordToken(ws[i]))
  }

  lemma ReadEntry(e: EnvEntry, rest: JsString)
    requires IsName(e.key)
    ensures Read(PrintEntry(e) + rest, None) == Read(rest, Some(EnvWord(e)))
  {
    var name := e.key + [EQUALS];
    assert PrintEntry(e) + rest == name + (ShellQuote(e.value) + rest);
    ReadPlain(name, ShellQuote(e.value) + rest, None);
    ReadQuoted(e.value, rest, Some([] + Unquoted(name)));
    assert [] + Unquoted(name) == Unquoted(name);
  }

  lemma ReadBlank(rest: JsString, w: Word)
    ensures Read([SPACE] + rest, Some(w)) == Cons([WordToken(w)], Read(rest, None))
  {
    assert ([SPACE] + rest)[1..] == rest;
  }

  lemma ConsCons(a: seq<Token>, b: seq<Token>, r: Option<seq<Token>>)
    ensures Cons(a, Cons(b, r)) == Cons(a + b, r)
  {
    if r.Some? {
      assert a + (b + r.value) == (a + b) + r.value;
    }
  }

  /** A printed argument before a blank, and at the end. */
  lemma ReadWord(arg: JsString, rest: JsString)
    ensures Read(ShellQuote(arg) + ([SPACE] + rest), None) == Cons([WordToken(WordOf(arg))], Read(rest, None))
  {
    assert [] + WordOf(arg) == WordOf(arg);
    ReadQuoted(arg, [SPACE] + rest, None);
    ReadBlank(rest, WordOf(arg));
  }

  lemma ReadLastWord(arg: JsString)
    ensures Read(ShellQuote(arg), None) == Some([WordToken(WordOf(arg))])
  {
    assert [] + WordOf(arg) == WordOf(arg);
    ReadQuoted(arg, [], None);
    assert ShellQuote(arg) + [] == ShellQuote(arg);
  }

  lemma ArgTokens(args: seq<JsString>)
    ensures args == [] ==> WordTokens(WordsOf(args)) == []
    ensures args != [] ==>
      WordTokens(WordsOf(args)) == [WordToken(WordOf(args[0]))] + WordTokens(WordsOf(args[1..]))
    ensures |args| == 1 ==> WordTokens(WordsOf(args)) == [WordToken(WordOf(args[0]))]
  {
  }

  lemma JoinArgs(args: seq<JsString>)
    requires |args| > 1
    ensures Join(QuoteAll(args)) == ShellQuote(args[0]) + ([SPACE] + Join(QuoteAll(args[1..])))
  {
    assert QuoteAll(args)[1..] == QuoteAll(args[1..]);
  }

  lemma {:induction false} ReadArgs(args: seq<JsString>)
    ensures Read(Join(QuoteAll(args)), None) == Some(WordTokens(WordsOf(args)))
  {
    ArgTokens(args);
    if |args| == 1 {
      ReadLastWord(args[0]);
    } else if |args| > 1 {
      JoinArgs(args);
      ReadWord(args[0], Join(QuoteAll(args[1..])));
      ReadArgs(args[1..]);
    }
  }

  lemma ReadEntryWord(e: EnvEntry, rest: JsString)
    requires IsName(e.key)
    ensures Read(PrintEntry(e) + ([SPACE] + rest), None) == Cons([WordToken(EnvWord(e))], Read(rest, None))
  {
    ReadEntry(e, [SPACE] + rest);
    ReadBlank(rest, EnvWord(e));
  }

  lemma EnvTokens(env: seq<EnvEntry>)
    requires env != []
    ensures WordTokens(EnvWords(env)) == [WordToken(EnvWord(env[0]))] + WordTokens(EnvWords(env[1..]))
    ensures |env| == 1 ==> WordTokens(EnvWords(env)) == [WordToken(EnvWord(env[0]))]
  {
  }

  lemma JoinEnv(env: seq<EnvEntry>, rest: JsString)
    requires |env| > 1
    ensures Join(PrintEnv(env)) + rest == PrintEntry(env[0]) + ([SPACE] + (Join(PrintEnv(env[1..])) + rest))
  {
    var tail := Join(PrintEnv(env[1..]));
    assert PrintEnv(env)[1..] == PrintEnv(env[1..]);
    AppendAssociates(PrintEntry(env[0]), [SPACE], tail);
    AppendAssociates(PrintEntry(env[0]), [SPACE] + tail, rest);
    AppendAssociates([SPACE], tail, rest);
  }

  lemma {:induction false} ReadEnv(env: seq<EnvEntry>, rest: JsString)
    requires env != [] && ValidNames(env)
    ensures Read(Join(PrintEnv(env)) + ([SPACE] + rest), None) == Cons(WordTokens(EnvWords(env)), Read(rest, None))
  {
    EnvTokens(env);
    if |env| == 1 {
      ReadEntryWord(env[0], rest);
    } else {
      ReadEnv(env[1..], rest);
      JoinEnv(env, [SPACE] + rest);
      ReadEntryWord(env[0], Join(PrintEnv(env[1..])) + ([SPACE] + rest));
      ConsCons([WordToken(EnvWord(env[0]))], WordTokens(EnvWords(env[1..])), Read(rest, None));
    }
  }

  lemma ReadAndIf(rest: JsString)
    ensures Read([AMPERSAND, AMPERSAND] + rest, None) == Cons([AndIf], Read(rest, None))
  {
    assert ([AMPERSAND, AMPERSAND] + rest)[2..] == rest;
    assert [] + [AndIf] == [AndIf];
  }

  lemma ReadLeadingBlank(rest: JsString)
    ensures Read([SPACE] + rest, None) == Read(rest, None)
  {
    assert ([SPACE] + rest)[1..] == rest;
    if Read(rest, None).Some? {
      assert [] + Read(rest, None).value == Read(rest, None).value;
    }
  }

  lemma ReadAndThen(rest: JsString, w: Word)
    ensures Read(AND_THEN + rest, Some(w)) == Cons([WordToken(w), AndIf], Read(rest, None))
  {
    var andRest := [AMPERSAND, AMPERSAND] + ([SPACE] + rest);
    assert AND_THEN + rest == [SPACE] + andRest;
    ReadBlank(andRest, w);
    ReadAndIf([SPACE] + rest);
    ReadLeadingBlank(rest);
    ConsCons([WordToken(w)], [AndIf], Read(rest, None));
    assert [WordToken(w)] + [AndIf] == [WordToken(w), AndIf];
  }

  lemma CdText(dir: JsString, rest: JsString)
    ensures CD + [SPACE] + dir + AND_THEN + rest == CD + ([SPACE] + (dir + (AND_THEN + rest)))
  {
    AppendAssociates(CD, [SPACE], dir);
    AppendAssociates(CD, [SPACE] + dir, AND_THEN);
    AppendAssociates(CD, [SPACE] + dir + AND_THEN, rest);
    AppendAssociates([SPACE], dir, AND_THEN);
    AppendAssociates([SPACE], dir + AND_THEN, rest);
    AppendAssociates(dir, AND_THEN, rest);
  }

  lemma ReadCd(cwd: JsString, rest: JsString)
    ensures Read(CD + [SPACE] + ShellQuote(cwd) + AND_THEN + rest, None)
         == Cons([WordToken(Unquoted(CD)), WordToken(WordOf(cwd)), AndIf], Read(rest, None))
  {
    var afterCwd := AND_THEN + rest;
    var afterCd := ShellQuote(cwd) + afterCwd;
    CdText(ShellQuote(cwd), rest);
    assert Read(CD + ([SPACE] + afterCd), None) == Cons([WordToken(Unquoted(CD))], Read(afterCd, None)) by {
      ReadPlain(CD, [SPACE] + afterCd, None);
      assert [] + Unquoted(CD) == Unquoted(CD);
      ReadBlank(afterCd, Unquoted(CD));
    }
    assert Read(afterCd, None) == Cons([WordToken(WordOf(cwd)), AndIf], Read(rest, None)) by {
      ReadQuoted(cwd, afterCwd, None);
      assert [] + WordOf(cwd) == WordOf(cwd);
      ReadAndThen(rest, WordOf(cwd));
    }
    ConsCons([WordToken(Unquoted(CD))], [WordToken(WordOf(cwd)), AndIf], Read(rest, None));
    assert [WordToken(Unquoted(CD))] + [WordToken(WordOf(cwd)), AndIf]
        == [WordToken(Unquoted(CD)), WordToken(WordOf(cwd)), AndIf];
  }

  function CommandTokens(args: seq<JsString>, env: seq<EnvEntry>): seq<Token> {
    WordTokens(EnvWords(env)) + WordTokens(WordsOf(args))
  }

  function TokensOf(args: seq<JsString>, cwd: JsString, env: seq<EnvEntry>): seq<Token> {
    (if cwd == [] then [] else [WordToken(Unquoted(CD)), WordToken(WordOf(cwd)), AndIf]) + CommandTokens(args, env)
  }

  lemma ReadWithEnv(args: seq<JsString>, env: seq<EnvEntry>)
    requires ValidNames(env)
    ensures Read(PrintWithEnv(args, env), None) == Some(CommandTokens(args, env))
  {
    ReadArgs(args);
    if env == [] {
      assert CommandTokens(args, env) == [] + WordTokens(WordsOf(args)) == WordTokens(WordsOf(args));
    } else {
      var command := Join(QuoteAll(args));
      ReadEnv(env, command);
      AppendAssociates(Join(PrintEnv(env)), [SPACE], command);
    }
  }

  /** A shell reads from the printed command exactly `cd`, the directory and `&&`, the assignments in order, and the
      arguments in order, each as one word. */
  lemma PrintedTokens(args: seq<JsString>, cwd: JsString, env: seq<EnvEntry>)
    requires ValidNames(env)
    ensures Tokens(Print(args, cwd, env)) == Some(TokensOf(args, cwd, env))
  {
    ReadWithEnv(args, env);
    if cwd == [] {
      assert TokensOf(args, cwd, env) == CommandTokens(args, env);
    } else {
      ReadCd(cwd, PrintWithEnv(args, env));
    }
  }
}

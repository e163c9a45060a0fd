/** When the printed command means the command that was asked for. */
module ExecMeaning {
  import opened Units
  import opened Shell
  import opened ExecCommand

  function AssignmentsOf(env: seq<EnvEntry>): (a: seq<Assignment>) {
    seq(|env|, i requires 0 <= i < |env| => Assignment(env[i].key, env[i].value))
  }

  /** The words of the command behind `cd` and `&&`. */
  function CommandWords(args: seq<JsString>, env: seq<EnvEntry>): seq<Word> {
    EnvWords(env) + WordsOf(args)
  }

  /** An argument that is printed bare and reads as NAME=value. */
  predicate LooksLikeAssignment(arg: JsString) {
    IsSafe(arg) && var k := Find(arg, EQUALS); k < |arg| && IsName(arg[..k])
  }

  /** An argument that is printed bare and reads as a reserved word. */
  predicate LooksReserved(arg: JsString) {
    IsSafe(arg) && IsReservedText(arg)
  }

  lemma EnvWordAssigns(e: EnvEntry)
    requires IsName(e.key)
    ensures AssignmentAt(EnvWord(e)) == Some(|e.key|)
    ensures ToAssignment(EnvWord(e)) == Assignment(e.key, e.value)
  {
    EnvWordText(e);
    NameHasNoEquals(e.key);
    FindAppend(e.key, EQUALS, e.value);
    assert forall i | 0 <= i <= |e.key| :: !EnvWord(e)[i].quoted;
  }

  lemma EnvWordText(e: EnvEntry)
    ensures var w, k := EnvWord(e), |e.key|;
            && |w| == |e.key| + 1 + |e.value|
            && Text(w) == e.key + [EQUALS] + e.value
            && Text(w[..k]) == e.key && Text(w[k + 1..]) == e.value
  {
    TextOfWord(e.value);
    assert |WordOf(e.value)| == |e.value|;
  }

  lemma NameHasNoEquals(s: JsString)
    requires IsName(s)
    ensures EQUALS !in s
  {
  }

  lemma WordAssigns(arg: JsString)
    ensures AssignmentAt(WordOf(arg)).Some? <==> LooksLikeAssignment(arg)
  {
    var w, k := WordOf(arg), Find(arg, EQUALS);
    TextOfWord(arg);
    if IsSafe(arg) && k < |arg| {
      assert Text(w[..k]) == arg[..k];
    }
  }

  lemma WordReserved(arg: JsString)
    ensures IsReserved(WordOf(arg)) <==> LooksReserved(arg)
  {
    TextOfWord(arg);
    if !IsSafe(arg) && arg != [] {
      assert WordOf(arg)[0] != Unquoted(arg)[0];
    }
  }

  lemma ReservedHasNoEquals(s: JsString)
    requires IsReservedText(s)
    ensures EQUALS !in s
  {
  }

  lemma EnvWordNotReserved(e: EnvEntry)
    ensures !IsReserved(EnvWord(e))
  {
    var t := Text(EnvWord(e));
    assert t[|e.key|] == EQUALS;
    if IsReservedText(t) {
      ReservedHasNoEquals(t);
    }
  }

  lemma {:induction false} LeadingConcat(a: seq<Word>, b: seq<Word>)
    requires forall i | 0 <= i < |a| :: AssignmentAt(a[i]).Some?
    ensures LeadingAssignments(a + b) == |a| + LeadingAssignments(b)
  {
    if a == [] {
      assert a + b == b;
    } else {
      assert (a + b)[1..] == a[1..] + b;
      LeadingConcat(a[1..], b);
    }
  }

  lemma CommandLeading(args: seq<JsString>, env: seq<EnvEntry>)
    requires ValidNames(env)
    ensures LeadingAssignments(CommandWords(args, env)) == |env| + LeadingAssignments(WordsOf(args))
    ensures args != [] ==> (LeadingAssignments(WordsOf(args)) == 0 <==> !LooksLikeAssignment(args[0]))
  {
    forall i | 0 <= i < |env|
      ensures AssignmentAt(EnvWords(env)[i]).Some?
    {
      EnvWordAssigns(env[i]);
    }
    LeadingConcat(EnvWords(env), WordsOf(args));
    if args != [] {
      WordAssigns(args[0]);
    }
  }

  lemma CommandReserved(args: seq<JsString>, env: seq<EnvEntry>)
    requires args != []
    ensures IsReserved(CommandWords(args, env)[0]) <==> env == [] && LooksReserved(args[0])
  {
    if env == [] {
      WordReserved(args[0]);
    } else {
      EnvWordNotReserved(env[0]);
    }
  }

  lemma TextsOfArgs(args: seq<JsString>)
    ensures Texts(WordsOf(args)) == args
  {
    forall i | 0 <= i < |args|
      ensures Texts(WordsOf(args))[i] == args[i]
    {
      TextOfWord(args[i]);
    }
  }

  lemma PlainCommand(args: seq<JsString>, env: seq<EnvEntry>)
    requires ValidNames(env) && LeadingAssignments(CommandWords(args, env)) == |env|
    requires CommandWords(args, env) == [] || !IsReserved(CommandWords(args, env)[0])
    ensures ReadCommand(CommandWords(args, env)) == SimpleCommand(AssignmentsOf(env), args)
  {
    var ws := CommandWords(args, env);
    assert ws[|env|..] == WordsOf(args);
    TextsOfArgs(args);
    forall i | 0 <= i < |env|
      ensures ToAssignment(ws[i]) == AssignmentsOf(env)[i]
    {
      assert ws[i] == EnvWord(env[i]);
      EnvWordAssigns(env[i]);
    }
    LeadingAre(ws);
    assert seq(|env|, i requires 0 <= i < |env| => ToAssignment(ws[i])) == AssignmentsOf(env);
  }

  lemma LeadingAre(ws: seq<Word>)
    ensures forall i | 0 <= i < LeadingAssignments(ws) :: AssignmentAt(ws[i]).Some?
  {
  }

  /** The shell runs the command with the given assignments, name and arguments exactly when the first argument neither
      looks like an assignment nor, without an environment, like a reserved word. */
  lemma ReadsBackIff(args: seq<JsString>, env: seq<EnvEntry>)
    requires args != [] && ValidNames(env)
    ensures ReadCommand(CommandWords(args, env)) == SimpleCommand(AssignmentsOf(env), args)
       <==> !LooksLikeAssignment(args[0]) && !(env == [] && LooksReserved(args[0]))
  {
    var ws := CommandWords(args, env);
    CommandLeading(args, env);
    CommandReserved(args, env);
    if !LooksLikeAssignment(args[0]) && !(env == [] && LooksReserved(args[0])) {
      PlainCommand(args, env);
    } else if !IsReserved(ws[0]) {
      assert |Texts(ws[LeadingAssignments(ws)..])| < |args|;
    }
  }

  // ----- From the printed text to the command -----

  /** The commands of an and-list: the words between the operators. */
  function AndList(ts: seq<Token>): (l: seq<seq<Word>>)
    ensures l != []
  {
    if ts == [] then [[]]
    else
      var l := AndList(ts[1..]);
      match ts[0]
      case AndIf => [[]] + l
      case WordToken(w) => [[w] + l[0]] + l[1..]
  }

  function ReadEach(l: seq<seq<Word>>): (cs: seq<Command>) {
    seq(|l|, i requires 0 <= i < |l| => ReadCommand(l[i]))
  }

  /** The commands that a shell reads from a text. */
  function ReadText(s: JsString): Option<seq<Command>> {
    match Tokens(s) case None => None case Some(ts) => Some(ReadEach(AndList(ts)))
  }

  lemma {:induction false} AndListOfWords(ws: seq<Word>)
    ensures AndList(WordTokens(ws)) == [ws]
  {
    if ws == [] {
      assert WordTokens(ws) == [];
    } else {
      assert WordTokens(ws)[1..] == WordTokens(ws[1..]);
      AndListOfWords(ws[1..]);
      assert [ws[0]] + ws[1..] == ws;
    }
  }

  lemma AndListWord(w: Word, ts: seq<Token>)
    ensures AndList([WordToken(w)] + ts) == [[w] + AndList(ts)[0]] + AndList(ts)[1..]
  {
    assert ([WordToken(w)] + ts)[1..] == ts;
  }

  lemma AndListAnd(ts: seq<Token>)
    ensures AndList([AndIf] + ts) == [[]] + AndList(ts)
  {
    assert ([AndIf] + ts)[1..] == ts;
  }

  lemma AndListOfCd(cwd: JsString, ws: seq<Word>)
    ensures AndList([WordToken(Unquoted(CD)), WordToken(WordOf(cwd)), AndIf] + WordTokens(ws))
         == [[Unquoted(CD), WordOf(cwd)], ws]
  {
    var t0, t1, rest := WordToken(Unquoted(CD)), WordToken(WordOf(cwd)), WordTokens(ws);
    AndListOfWords(ws);
    AndListAnd(rest);
    assert AndList([AndIf] + rest) == [[], ws];
    AndListWord(WordOf(cwd), [AndIf] + rest);
    assert [WordOf(cwd)] + [] == [WordOf(cwd)] && [[], ws][1..] == [ws];
    assert AndList([t1] + ([AndIf] + rest)) == [[WordOf(cwd)], ws];
    AndListWord(Unquoted(CD), [t1] + ([AndIf] + rest));
    assert [Unquoted(CD)] + [WordOf(cwd)] == [Unquoted(CD), WordOf(cwd)] && [[WordOf(cwd)], ws][1..] == [ws];
    assert [t0, t1, AndIf] + rest == [t0] + ([t1] + ([AndIf] + rest));
  }

  /** `cd` with the directory as its one argument, whatever that is. */
  lemma CdCommand(cwd: JsString)
    ensures ReadCommand([Unquoted(CD), WordOf(cwd)]) == SimpleCommand([], [CD, cwd])
  {
    var w := Unquoted(CD);
    assert Text(w) == CD;
    assert EQUALS !in CD;
    TextOfWord(cwd);
    assert Texts([w, WordOf(cwd)]) == [CD, cwd];
  }

  function CdFirst(cwd: JsString): (cs: seq<Command>) {
    if cwd == [] then [] else [SimpleCommand([], [CD, cwd])]
  }

  lemma ReadPrinted(args: seq<JsString>, cwd: JsString, env: seq<EnvEntry>)
    requires ValidNames(env)
    ensures ReadText(Print(args, cwd, env)) == Some(CdFirst(cwd) + [ReadCommand(CommandWords(args, env))])
  {
    var words := CommandWords(args, env);
    PrintedTokens(args, cwd, env);
    TokensShape(args, cwd, env);
    if cwd == [] {
      AndListOfWords(words);
      assert ReadEach([words]) == [] + [ReadCommand(words)];
    } else {
      AndListOfCd(cwd, words);
      CdCommand(cwd);
      assert ReadEach([[Unquoted(CD), WordOf(cwd)], words]) == [SimpleCommand([], [CD, cwd])] + [ReadCommand(words)];
    }
  }

  lemma SameLast(front: seq<Command>, a: Command, b: Command)
    ensures front + [a] == front + [b] <==> a == b
  {
    if front + [a] == front + [b] {
      assert (front + [a])[|front|] == (front + [b])[|front|];
    }
  }

  /** From the printed text a shell reads the change of directory, if there is one, and then the command asked for,
      exactly when the first argument neither looks like an assignment nor, without an environment, like a reserved
      word. */
  lemma PrintedRunsIff(args: seq<JsString>, cwd: JsString, env: seq<EnvEntry>)
    requires args != [] && ValidNames(env)
    ensures ReadText(Print(args, cwd, env)) == Some(CdFirst(cwd) + [SimpleCommand(AssignmentsOf(env), args)])
       <==> !LooksLikeAssignment(args[0]) && !(env == [] && LooksReserved(args[0]))
  {
    ReadPrinted(args, cwd, env);
    SameLast(CdFirst(cwd), ReadCommand(CommandWords(args, env)), SimpleCommand(AssignmentsOf(env), args));
    ReadsBackIff(args, env);
  }

  const ASSIGNS_B: JsString := [0x41, EQUALS, 0x62]
  const LS: JsString := [0x6C, 0x73]
  const IF_WORD: JsString := [0x69, 0x66]

  lemma AssignmentWords()
    ensures ReadCommand([Unquoted(ASSIGNS_B), Unquoted(LS)]) == SimpleCommand([Assignment([0x41], [0x62])], [LS])
  {
    var w, words := Unquoted(ASSIGNS_B), [Unquoted(ASSIGNS_B), Unquoted(LS)];
    assert Text(w) == ASSIGNS_B && Text(w[..1]) == [0x41] && Text(w[2..]) == [0x62];
    assert Find(ASSIGNS_B, EQUALS) == 1;
    assert AssignmentAt(w) == Some(1);
    assert Text(Unquoted(LS)) == LS && EQUALS !in LS;
    assert words[1..] == [Unquoted(LS)];
    assert LeadingAssignments(words) == 1;
    assert Texts(words[1..]) == [LS];
  }

  /** The arguments `A=b` and `ls` are read as an assignment for the command `ls`. */
  lemma AssignmentExample()
    ensures ReadText(Print([ASSIGNS_B, LS], [], [])) == Some([SimpleCommand([Assignment([0x41], [0x62])], [LS])])
  {
    var words := CommandWords([ASSIGNS_B, LS], []);
    ReadPrinted([ASSIGNS_B, LS], [], []);
    AssignmentWords();
    assert CdFirst([]) + [ReadCommand(words)] == [ReadCommand(words)];
    assert words == [Unquoted(ASSIGNS_B), Unquoted(LS)];
  }

  /** The argument `if` is read as a reserved word. */
  lemma ReservedExample()
    ensures ReadText(Print([IF_WORD], [], [])) == Some([ReservedWordFirst])
  {
    var words := CommandWords([IF_WORD], []);
    ReadPrinted([IF_WORD], [], []);
    assert CdFirst([]) + [ReadCommand(words)] == [ReadCommand(words)];
    assert words == [Unquoted(IF_WORD)];
    assert Text(Unquoted(IF_WORD)) == IF_WORD;
  }

  // ----- Different commands print differently -----

  predicate StartsPlain(args: seq<JsString>) {
    args == [] || !LooksLikeAssignment(args[0])
  }

  lemma PlainLeading(args: seq<JsString>, env: seq<EnvEntry>)
    requires ValidNames(env) && StartsPlain(args)
    ensures LeadingAssignments(CommandWords(args, env)) == |env|
  {
    CommandLeading(args, env);
  }

  /** The directory and the words can be told from the tokens. */
  lemma TokensDetermine(args1: seq<JsString>, cwd1: JsString, env1: seq<EnvEntry>,
                        args2: seq<JsString>, cwd2: JsString, env2: seq<EnvEntry>)
    requires TokensOf(args1, cwd1, env1) == TokensOf(args2, cwd2, env2)
    ensures cwd1 == cwd2 && CommandWords(args1, env1) == CommandWords(args2, env2)
  {
    var t1, t2 := TokensOf(args1, cwd1, env1), TokensOf(args2, cwd2, env2);
    TokensShape(args1, cwd1, env1);
    TokensShape(args2, cwd2, env2);
    if cwd1 != [] && cwd2 != [] {
      assert t1[1] == WordToken(WordOf(cwd1)) && t2[1] == WordToken(WordOf(cwd2));
      TextOfWord(cwd1);
      TextOfWord(cwd2);
      assert t1[3..] == WordTokens(CommandWords(args1, env1));
      assert t2[3..] == WordTokens(CommandWords(args2, env2));
    }
    WordTokensInjective(CommandWords(args1, env1), CommandWords(args2, env2));
  }

  lemma TokensShape(args: seq<JsString>, cwd: JsString, env: seq<EnvEntry>)
    ensures var ts := TokensOf(args, cwd, env);
            var words := WordTokens(CommandWords(args, env));
            && (cwd == [] ==> ts == words && AndIf !in ts)
            && (cwd != [] ==> ts == [WordToken(Unquoted(CD)), WordToken(WordOf(cwd)), AndIf] + words && ts[2] == AndIf)
  {
    var words := WordTokens(CommandWords(args, env));
    assert words == WordTokens(EnvWords(env)) + WordTokens(WordsOf(args));
  }

  lemma WordTokensInjective(a: seq<Word>, b: seq<Word>)
    ensures WordTokens(a) == WordTokens(b) ==> a == b
  {
    if WordTokens(a) == WordTokens(b) {
      assert |a| == |WordTokens(a)| == |b|;
      forall i | 0 <= i < |a|
        ensures a[i] == b[i]
      {
        assert WordTokens(a)[i] == WordTokens(b)[i];
      }
    }
  }

  /** Two commands that print alike are the same command, if neither starts with an argument like NAME=value. */
  lemma PrintInjective(args1: seq<JsString>, cwd1: JsString, env1: seq<EnvEntry>,
                       args2: seq<JsString>, cwd2: JsString, env2: seq<EnvEntry>)
    requires ValidNames(env1) && ValidNames(env2) && StartsPlain(args1) && StartsPlain(args2)
    requires Print(args1, cwd1, env1) == Print(args2, cwd2, env2)
    ensures args1 == args2 && cwd1 == cwd2 && env1 == env2
  {
    PrintedTokens(args1, cwd1, env1);
    PrintedTokens(args2, cwd2, env2);
    TokensDetermine(args1, cwd1, env1, args2, cwd2, env2);
    PlainLeading(args1, env1);
    PlainLeading(args2, env2);
    var ws := CommandWords(args1, env1);
    var n := |env1|;
    assert ws[n..] == WordsOf(args1) && ws[n..] == WordsOf(args2);
    TextsOfArgs(args1);
    TextsOfArgs(args2);
    forall i | 0 <= i < n
      ensures env1[i] == env2[i]
    {
      assert ws[i] == EnvWord(env1[i]) && ws[i] == EnvWord(env2[i]);
      EnvWordAssigns(env1[i]);
      EnvWordAssigns(env2[i]);
    }
  }
}

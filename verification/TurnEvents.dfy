/** Session events, the notifications they turn into, and the wire ids of tool calls. */
module TurnEvents {
  import opened Units

  /** The events of a session. `agentId` is absent or `main` for the main agent; `args` are the stringified arguments of
      a tool call, `plan` and `diff` what its display adds; `output` is the text of a result, absent when there is none
      or the tool hides it. */
  datatype Event =
    | TurnStarted(agentId: Option<JsString>, turnId: nat)
    | StatusUpdated(agentId: Option<JsString>, usage: Option<JsString>)
    | ErrorRaised(agentId: Option<JsString>, isTurnAgentBusy: bool)
    | AssistantDelta(agentId: Option<JsString>, turnId: nat, delta: JsString)
    | ThinkingDelta(agentId: Option<JsString>, turnId: nat, delta: JsString)
    | ToolCallStarted(agentId: Option<JsString>, turnId: nat, toolCallId: JsString, args: JsString,
                      diff: Option<JsString>, plan: Option<JsString>)
    | ToolCallDelta(agentId: Option<JsString>, turnId: nat, toolCallId: JsString, argumentsPart: Option<JsString>)
    | ToolProgress(agentId: Option<JsString>, turnId: nat, toolCallId: JsString, title: Option<JsString>)
    | ToolResult(agentId: Option<JsString>, turnId: nat, toolCallId: JsString,
                 output: Option<JsString>, isError: bool)
    | TurnEnded(agentId: Option<JsString>, turnId: nat, reason: TurnEndReason)
    | OtherEvent(agentId: Option<JsString>, otherTurn: Option<nat>)

  /** `authRequired` and `filtered` tell what the error of a failed turn was. */
  datatype TurnEndReason = Completed | Cancelled | Failed(authRequired: bool, filtered: bool) | Blocked

  datatype StopReason = EndTurn | StopCancelled | Refusal

  /** `turnEndReasonToStopReason`. */
  function StopReasonOf(reason: TurnEndReason): StopReason {
    match reason
    case Completed => EndTurn
    case Cancelled => StopCancelled
    case Failed(_, filtered) => if filtered then Refusal else EndTurn
    case Blocked => Refusal
  }

  const MAIN: JsString := [0x6D, 0x61, 0x69, 0x6E]

  predicate IsFromMainAgent(e: Event) {
    e.agentId.None? || e.agentId.value == MAIN
  }

  /** `'turnId' in event`. */
  function TurnIdOf(e: Event): Option<nat> {
    match e
    case StatusUpdated(_, _) => None
    case ErrorRaised(_, _) => None
    case OtherEvent(_, turn) => turn
    case _ => Some(e.turnId)
  }

  // ----- Wire ids -----

  const COLON: CodeUnit := 0x3A

  /** The decimal form of a number. */
  function Decimal(n: nat): (s: JsString)
    ensures s != []
    ensures forall i | 0 <= i < |s| :: 0x30 <= s[i] <= 0x39
  {
    if n < 10 then [0x30 + n] else Decimal(n / 10) + [0x30 + n % 10]
  }

  /** `acpToolCallId`. */
  function AcpToolCallId(turnId: nat, toolCallId: JsString): JsString {
    Decimal(turnId) + [COLON] + toolCallId
  }

  lemma {:induction false} DecimalInjective(a: nat, b: nat)
    requires Decimal(a) == Decimal(b)
    ensures a == b
  {
    var s, t := Decimal(a), Decimal(b);
    assert s[|s| - 1] == 0x30 + a % 10 && t[|t| - 1] == 0x30 + b % 10;
    if a >= 10 && b >= 10 {
      assert s[..|s| - 1] == Decimal(a / 10) && t[..|t| - 1] == Decimal(b / 10);
      DecimalInjective(a / 10, b / 10);
    } else {
      assert a >= 10 ==> |s| >= 2;
      assert b >= 10 ==> |t| >= 2;
    }
  }

  /** Digits without a superfluous zero in front. */
  predicate IsNumeral(s: JsString) {
    && s != [] && (forall i | 0 <= i < |s| :: 0x30 <= s[i] <= 0x39)
    && (|s| > 1 ==> s[0] != 0x30)
  }

  /** The number that digits stand for. */
  function ValueOf(s: JsString): int {
    if s == [] then 0
    else
      var digit: int := s[|s| - 1];
      ValueOf(s[..|s| - 1]) * 10 + digit - 0x30
  }

  lemma {:induction false} ValueOfNumeral(s: JsString)
    requires IsNumeral(s)
    ensures ValueOf(s) >= 0 && (ValueOf(s) == 0 <==> s == [0x30])
  {
    var front := s[..|s| - 1];
    if front != [] {
      assert front[0] == s[0];
      ValueOfNumeral(front);
    } else {
      assert ValueOf(front) == 0;
    }
  }

  /** The decimal form of a number is the only numeral that stands for it. */
  lemma {:induction false} DecimalIs(n: nat, s: JsString)
    ensures s == Decimal(n) <==> IsNumeral(s) && ValueOf(s) == n
    decreases n
  {
    if n < 10 {
      OneDigit(n, s);
    } else {
      var last: CodeUnit := 0x30 + n % 10;
      DecimalIs(n / 10, Decimal(n / 10));
      if s == Decimal(n) {
        assert s[..|s| - 1] == Decimal(n / 10) && s[0] == Decimal(n / 10)[0];
        assert Decimal(n / 10) != [0x30] by { ValueOfNumeral(Decimal(n / 10)); }
      }
      if IsNumeral(s) && ValueOf(s) == n {
        MoreDigits(n, s);
        DecimalIs(n / 10, s[..|s| - 1]);
        assert s == s[..|s| - 1] + [last];
      }
    }
  }

  lemma OneDigit(n: nat, s: JsString)
    requires n < 10
    ensures s == [0x30 + n] <==> IsNumeral(s) && ValueOf(s) == n
  {
    if s == [0x30 + n] {
      assert s[..0] == [];
    } else if IsNumeral(s) {
      var front := s[..|s| - 1];
      if front != [] {
        assert front[0] == s[0];
        ValueOfNumeral(front);
      } else {
        assert s == [s[0]] && ValueOf(front) == 0;
      }
    }
  }

  lemma MoreDigits(n: nat, s: JsString)
    requires n >= 10 && IsNumeral(s) && ValueOf(s) == n
    ensures IsNumeral(s[..|s| - 1]) && ValueOf(s[..|s| - 1]) == n / 10 && s[|s| - 1] == 0x30 + n % 10
  {
    var front := s[..|s| - 1];
    assert front == [] ==> ValueOf(front) == 0;
    assert front != [] ==> front[0] == s[0];
  }

  /** The wire id is the numeral of the turn, a colon and the raw id; its first colon tells them apart. */
  lemma WireIdReads(turnId: nat, raw: JsString, s: JsString)
    ensures s == AcpToolCallId(turnId, raw)
       <==> exists k | 0 <= k < |s| ::
              && COLON !in s[..k] && s[k] == COLON && s[k + 1..] == raw
              && IsNumeral(s[..k]) && ValueOf(s[..k]) == turnId
  {
    var d := Decimal(turnId);
    DecimalIs(turnId, d);
    if s == AcpToolCallId(turnId, raw) {
      assert s == d + [COLON] + raw;
      SplitsThere(s, d, raw);
    }
    if k :| 0 <= k < |s| && COLON !in s[..k] && s[k] == COLON && s[k + 1..] == raw
            && IsNumeral(s[..k]) && ValueOf(s[..k]) == turnId {
      DecimalIs(turnId, s[..k]);
      JoinsThere(s, k);
    }
  }

  lemma JoinsThere(s: JsString, k: nat)
    requires k < |s| && s[k] == COLON
    ensures s == s[..k] + [COLON] + s[k + 1..]
  {
  }

  lemma SplitsThere(s: JsString, d: JsString, raw: JsString)
    requires s == d + [COLON] + raw
    ensures s[..|d|] == d && s[|d|] == COLON && s[|d| + 1..] == raw
  {
  }

  /** A wire id determines the turn and the raw id: decimal numbers contain no colon. */
  lemma WireIdInjective(t1: nat, r1: JsString, t2: nat, r2: JsString)
    requires AcpToolCallId(t1, r1) == AcpToolCallId(t2, r2)
    ensures t1 == t2 && r1 == r2
  {
    var d1, d2 := Decimal(t1), Decimal(t2);
    var w1, w2 := AcpToolCallId(t1, r1), AcpToolCallId(t2, r2);
    assert w1[|d1|] == COLON && w2[|d2|] == COLON;
    assert forall i | 0 <= i < |d1| :: w1[i] == d1[i];
    assert forall i | 0 <= i < |d2| :: w2[i] == d2[i];
    assert |d1| == |d2|;
    assert d1 == w1[..|d1|] && d2 == w2[..|d2|];
    DecimalInjective(t1, t2);
    assert r1 == w1[|d1| + 1..] && r2 == w2[|d2| + 1..];
  }

  // ----- Notifications -----

  datatype Block = Diff(diff: JsString) | TextBlock(text: JsString)

  /** `CreateCall` is the `tool_call` notification, the others with a wire id are `tool_call_update`s. */
  datatype Update =
    | Usage(usage: JsString)
    | MessageChunk(text: JsString)
    | ThoughtChunk(text: JsString)
    | CreateCall(wireId: JsString, pending: bool, content: seq<Block>)
    | UpdateArgs(wireId: JsString, content: seq<Block>)
    | UpdateTitle(wireId: JsString, title: JsString)
    | UpdateResult(wireId: JsString, failed: bool, content: seq<Block>)
    | Plan(plan: JsString)

  /** The content of a started call: a diff, if there is one, before the arguments. */
  method StartContent(e: Event) returns (content: seq<Block>)
    requires e.ToolCallStarted?
    ensures content == StartBlocks(e)
  {
    content := [TextBlock(e.args)];
    if e.diff.Some? {
      content := [Diff(e.diff.value)] + content;
    }
  }

  function StartBlocks(e: Event): seq<Block>
    requires e.ToolCallStarted?
  {
    (match e.diff case None => [] case Some(d) => [Diff(d)]) + [TextBlock(e.args)]
  }

  /** `toolResultToAcpContent`. */
  function ResultBlocks(output: Option<JsString>): seq<Block> {
    if output.Some? && output.value != [] then [TextBlock(output.value)] else []
  }
}

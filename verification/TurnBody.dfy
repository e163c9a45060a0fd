/** `AcpSession.runTurnBody`: turning the event stream of one prompt into notifications, and settling the prompt. */
module TurnBody {
  import opened Units
  import opened TurnEvents

  datatype Outcome = Resolved(stopReason: StopReason) | RejectedBusy | RejectedAuth | RejectedByKick

  /** What the closure of one prompt and its session hold. */
  datatype State = State(
    settled: bool,
    hasReceivedOwnTurnStarted: bool,
    initialActiveTurnId: Option<nat>,
    currentTurnId: Option<nat>,
    argsByToolCall: map<JsString, JsString>,
    startedToolCalls: set<JsString>,
    subscribed: bool,
    sent: seq<Update>,
    outcome: Option<Outcome>)

  function Start(currentTurnId: Option<nat>): State {
    State(false, false, currentTurnId, currentTurnId, map[], {}, true, [], None)
  }

  // ----- The event handler, as a function -----

  function Settle(s: State, outcome: Outcome): State {
    s.(settled := true, argsByToolCall := map[], startedToolCalls := {}, currentTurnId := None, subscribed := false,
       outcome := Some(outcome))
  }

  /** The bookkeeping before the events are told apart. */
  function Track(s: State, e: Event): State {
    var own := e.TurnStarted? && IsFromMainAgent(e)
               && (s.initialActiveTurnId.None? || e.turnId != s.initialActiveTurnId.value);
    var s1 := if own then s.(hasReceivedOwnTurnStarted := true) else s;
    if TurnIdOf(e).Some? && IsFromMainAgent(e) then s1.(currentTurnId := TurnIdOf(e)) else s1
  }

  /** The update or the creation that a start sends, and the plan of its display. */
  function StartNotes(started: set<JsString>, e: Event): seq<Update>
    requires e.ToolCallStarted?
  {
    var wireId := AcpToolCallId(e.turnId, e.toolCallId);
    [if wireId in started then UpdateArgs(wireId, StartBlocks(e)) else CreateCall(wireId, false, StartBlocks(e))]
    + (match e.plan case None => [] case Some(plan) => [Plan(plan)])
  }

  function StartCall(s: State, e: Event): State
    requires e.ToolCallStarted?
  {
    s.(argsByToolCall := s.argsByToolCall[e.toolCallId := e.args],
       startedToolCalls := s.startedToolCalls + {AcpToolCallId(e.turnId, e.toolCallId)},
       sent := s.sent + StartNotes(s.startedToolCalls, e))
  }

  function Fragment(e: Event): JsString
    requires e.ToolCallDelta?
  {
    match e.argumentsPart case None => [] case Some(text) => text
  }

  /** The accumulated text after a delta: a delta that creates its call starts anew. */
  function DeltaText(args: map<JsString, JsString>, started: set<JsString>, e: Event): JsString
    requires e.ToolCallDelta?
  {
    if AcpToolCallId(e.turnId, e.toolCallId) !in started then Fragment(e)
    else (if e.toolCallId in args then args[e.toolCallId] else []) + Fragment(e)
  }

  function DeltaNote(started: set<JsString>, e: Event, text: JsString): Update
    requires e.ToolCallDelta?
  {
    var wireId := AcpToolCallId(e.turnId, e.toolCallId);
    if wireId in started then UpdateArgs(wireId, [TextBlock(text)]) else CreateCall(wireId, true, [TextBlock(text)])
  }

  function DeltaCall(s: State, e: Event): State
    requires e.ToolCallDelta?
  {
    var text := DeltaText(s.argsByToolCall, s.startedToolCalls, e);
    s.(argsByToolCall := s.argsByToolCall[e.toolCallId := text],
       startedToolCalls := s.startedToolCalls + {AcpToolCallId(e.turnId, e.toolCallId)},
       sent := s.sent + [DeltaNote(s.startedToolCalls, e, text)])
  }

  /** What the other events of the main agent send. */
  function Notes(e: Event): seq<Update> {
    match e
    case StatusUpdated(_, usage) => (match usage case None => [] case Some(u) => [Usage(u)])
    case AssistantDelta(_, _, delta) => [MessageChunk(delta)]
    case ThinkingDelta(_, _, delta) => [ThoughtChunk(delta)]
    case ToolProgress(_, turnId, id, title) =>
      (match title
       case None => []
       case Some(t) => if t == [] then [] else [UpdateTitle(AcpToolCallId(turnId, id), t)])
    case ToolResult(_, turnId, id, output, isError) =>
      [UpdateResult(AcpToolCallId(turnId, id), isError, ResultBlocks(output))]
    case _ => []
  }

  function SettleTurn(s: State, reason: TurnEndReason): State {
    if reason.Failed? && reason.authRequired then Settle(s, RejectedAuth)
    else Settle(s, Resolved(StopReasonOf(reason)))
  }

  /** One event, delivered to the subscriber. */
  function Handle(s0: State, e: Event): State {
    var s := Track(s0, e);
    if !IsFromMainAgent(e) then s
    else
      match e
      case ErrorRaised(_, busy) =>
        if s.settled || !busy || s.hasReceivedOwnTurnStarted then s else Settle(s, RejectedBusy)
      case TurnEnded(_, _, reason) => if s.settled then s else SettleTurn(s, reason)
      case ToolCallStarted(_, _, _, _, _, _) => StartCall(s, e)
      case ToolCallDelta(_, _, _, _) => DeltaCall(s, e)
      case _ => s.(sent := s.sent + Notes(e))
  }

  /** What may happen: an event of the session, or the rejection of the call that started the prompt. */
  datatype Input = Deliver(event: Event) | KickRejected

  function Step(s: State, i: Input): State {
    match i
    case Deliver(e) => if s.subscribed then Handle(s, e) else s
    case KickRejected =>
      if s.settled then s else s.(settled := true, subscribed := false, outcome := Some(RejectedByKick))
  }

  function Run(s: State, inputs: seq<Input>): State {
    if inputs == [] then s else Step(Run(s, inputs[..|inputs| - 1]), inputs[|inputs| - 1])
  }

  // ----- The handler -----

  class PromptTurn {
    var settled: bool
    var hasReceivedOwnTurnStarted: bool
    const initialActiveTurnId: Option<nat>
    var currentTurnId: Option<nat>
    var argsByToolCall: map<JsString, JsString>
    var startedToolCalls: set<JsString>
    var subscribed: bool
    var sent: seq<Update>
    var outcome: Option<Outcome>

    constructor (activeTurnId: Option<nat>)
      ensures View() == Start(activeTurnId)
    {
      settled, hasReceivedOwnTurnStarted, subscribed := false, false, true;
      initialActiveTurnId, currentTurnId := activeTurnId, activeTurnId;
      argsByToolCall, startedToolCalls, sent, outcome := map[], {}, [], None;
    }

    function View(): State
      reads this
    {
      State(settled, hasReceivedOwnTurnStarted, initialActiveTurnId, currentTurnId, argsByToolCall, startedToolCalls,
            subscribed, sent, outcome)
    }

    method SessionUpdate(u: Update)
      modifies this`sent
      ensures sent == old(sent) + [u]
    {
      sent := sent + [u];
    }

    method SettleWith(o: Outcome)
      modifies this
      ensures View() == Settle(old(View()), o)
    {
      settled := true;
      argsByToolCall := map[];
      startedToolCalls := {};
      currentTurnId := None;
      subscribed := false;
      outcome := Some(o);
    }

    /** The `kick().catch` handler. */
    method OnKickRejected()
      modifies this
      ensures View() == Step(old(View()), KickRejected)
    {
      if settled {
        return;
      }
      settled := true;
      subscribed := false;
      outcome := Some(RejectedByKick);
    }

    /** The listener given to `session.onEvent`; the session calls it while it is subscribed. */
    method OnEvent(e: Event)
      requires subscribed
      modifies this
      ensures View() == Step(old(View()), Deliver(e))
    {
      if e.TurnStarted? && IsFromMainAgent(e)
         && (initialActiveTurnId.None? || e.turnId != initialActiveTurnId.value) {
        hasReceivedOwnTurnStarted := true;
      }
      if TurnIdOf(e).Some? && IsFromMainAgent(e) {
        currentTurnId := TurnIdOf(e);
      }
      if e.StatusUpdated? {
        if IsFromMainAgent(e) && e.usage.Some? {
          SessionUpdate(Usage(e.usage.value));
        }
        return;
      }
      if e.ErrorRaised? {
        if settled || !IsFromMainAgent(e) || !e.isTurnAgentBusy || hasReceivedOwnTurnStarted {
          return;
        }
        SettleWith(RejectedBusy);
        return;
      }
      if e.AssistantDelta? {
        if IsFromMainAgent(e) {
          SessionUpdate(MessageChunk(e.delta));
        }
        return;
      }
      if e.ThinkingDelta? {
        if IsFromMainAgent(e) {
          SessionUpdate(ThoughtChunk(e.delta));
        }
        return;
      }
      if e.ToolCallStarted? {
        if IsFromMainAgent(e) {
          OnToolCallStarted(e);
        }
        return;
      }
      if e.ToolCallDelta? {
        if IsFromMainAgent(e) {
          OnToolCallDelta(e);
        }
        return;
      }
      if e.ToolProgress? {
        if IsFromMainAgent(e) && e.title.Some? && e.title.value != [] {
          SessionUpdate(UpdateTitle(AcpToolCallId(e.turnId, e.toolCallId), e.title.value));
        }
        return;
      }
      if e.ToolResult? {
        if IsFromMainAgent(e) {
          SessionUpdate(UpdateResult(AcpToolCallId(e.turnId, e.toolCallId), e.isError, ResultBlocks(e.output)));
        }
        return;
      }
      if e.TurnEnded? {
        if settled || !IsFromMainAgent(e) {
          return;
        }
        if e.reason.Failed? && e.reason.authRequired {
          SettleWith(RejectedAuth);
          return;
        }
        SettleWith(Resolved(StopReasonOf(e.reason)));
      }
    }

    method OnToolCallStarted(e: Event)
      requires e.ToolCallStarted?
      modifies this
      ensures View() == StartCall(old(View()), e)
    {
      argsByToolCall := argsByToolCall[e.toolCallId := e.args];
      var startedWireId := AcpToolCallId(e.turnId, e.toolCallId);
      var content := StartContent(e);
      assert startedWireId in startedToolCalls ==> startedToolCalls + {startedWireId} == startedToolCalls;
      if startedWireId in startedToolCalls {
        SessionUpdate(UpdateArgs(startedWireId, content));
      } else {
        startedToolCalls := startedToolCalls + {startedWireId};
        SessionUpdate(CreateCall(startedWireId, false, content));
      }
      if e.plan.Some? {
        SessionUpdate(Plan(e.plan.value));
      }
    }

    method OnToolCallDelta(e: Event)
      requires e.ToolCallDelta?
      modifies this
      ensures View() == DeltaCall(old(View()), e)
    {
      var deltaWireId := AcpToolCallId(e.turnId, e.toolCallId);
      if deltaWireId !in startedToolCalls {
        var initial := Fragment(e);
        argsByToolCall := argsByToolCall[e.toolCallId := initial];
        startedToolCalls := startedToolCalls + {deltaWireId};
        SessionUpdate(CreateCall(deltaWireId, true, [TextBlock(initial)]));
        return;
      }
      assert startedToolCalls + {deltaWireId} == startedToolCalls;
      var acc := if e.toolCallId in argsByToolCall then argsByToolCall[e.toolCallId] else [];
      acc := acc + Fragment(e);
      argsByToolCall := argsByToolCall[e.toolCallId := acc];
      SessionUpdate(UpdateArgs(deltaWireId, [TextBlock(acc)]));
    }
  }

  // ----- Settling -----

  ghost predicate Consistent(s: State) {
    s.settled == s.outcome.Some? && s.subscribed == !s.settled
  }

  lemma StepConsistent(s: State, i: Input)
    requires Consistent(s)
    ensures Consistent(Step(s, i))
  {
  }

  lemma {:induction false} RunConsistent(s: State, inputs: seq<Input>)
    requires Consistent(s)
    ensures Consistent(Run(s, inputs))
  {
    if inputs != [] {
      RunConsistent(s, inputs[..|inputs| - 1]);
      StepConsistent(Run(s, inputs[..|inputs| - 1]), inputs[|inputs| - 1]);
    }
  }

  /** Once the prompt has settled, nothing that happens later sends anything or changes the outcome. */
  lemma {:induction false} SettledForGood(s: State, inputs: seq<Input>, more: seq<Input>)
    requires Consistent(s) && Run(s, inputs).settled
    ensures Run(s, inputs + more) == Run(s, inputs)
  {
    if more == [] {
      assert inputs + more == inputs;
    } else {
      var front := more[..|more| - 1];
      SettledForGood(s, inputs, front);
      RunConsistent(s, inputs);
      assert (inputs + more)[..|inputs + more| - 1] == inputs + front;
    }
  }

  // ----- Subagents -----

  function WithoutSubagents(inputs: seq<Input>): seq<Input> {
    if inputs == [] then []
    else
      var last := inputs[|inputs| - 1];
      WithoutSubagents(inputs[..|inputs| - 1])
      + (if last.Deliver? && !IsFromMainAgent(last.event) then [] else [last])
  }

  /** Events of subagents change nothing: not the notifications, not the active turn, not the outcome. */
  lemma {:induction false} SubagentsInvisible(s: State, inputs: seq<Input>)
    ensures Run(s, WithoutSubagents(inputs)) == Run(s, inputs)
  {
    if inputs != [] {
      var last := inputs[|inputs| - 1];
      SubagentsInvisible(s, inputs[..|inputs| - 1]);
      var w := WithoutSubagents(inputs[..|inputs| - 1]);
      if last.Deliver? && !IsFromMainAgent(last.event) {
        assert WithoutSubagents(inputs) == w;
      } else {
        assert (w + [last])[..|w + [last]| - 1] == w;
      }
    }
  }

  // ----- Creates -----

  predicate IsToolEvent(i: Input) {
    i.Deliver? && (i.event.ToolCallStarted? || i.event.ToolCallDelta?) && IsFromMainAgent(i.event)
  }

  function WireOf(i: Input): JsString
    requires IsToolEvent(i)
  {
    AcpToolCallId(i.event.turnId, i.event.toolCallId)
  }

  function Creates(sent: seq<Update>, wireId: JsString): nat {
    if sent == [] then 0
    else
      var last := sent[|sent| - 1];
      Creates(sent[..|sent| - 1], wireId) + (if last.CreateCall? && last.wireId == wireId then 1 else 0)
  }

  /** Every update of arguments follows the creation of its call. */
  ghost predicate CreatedFirst(sent: seq<Update>) {
    forall i | 0 <= i < |sent| && sent[i].UpdateArgs? :: Creates(sent[..i], sent[i].wireId) > 0
  }

  /** Some start or delta event of the wire id is among the inputs. */
  ghost predicate Seen(inputs: seq<Input>, wireId: JsString) {
    exists i | 0 <= i < |inputs| :: IsToolEvent(inputs[i]) && WireOf(inputs[i]) == wireId
  }

  lemma SeenStep(inputs: seq<Input>, wireId: JsString)
    requires inputs != []
    ensures var front, last := inputs[..|inputs| - 1], inputs[|inputs| - 1];
            Seen(inputs, wireId) <==> Seen(front, wireId) || (IsToolEvent(last) && WireOf(last) == wireId)
  {
    var front := inputs[..|inputs| - 1];
    if i :| 0 <= i < |front| && IsToolEvent(front[i]) && WireOf(front[i]) == wireId {
      assert IsToolEvent(inputs[i]) && WireOf(inputs[i]) == wireId;
    }
  }

  /** Exactly the wire ids in `started` have been created, once each, and before any update of their arguments. */
  ghost predicate Created(sent: seq<Update>, started: set<JsString>) {
    && (forall w :: Creates(sent, w) == if w in started then 1 else 0)
    && CreatedFirst(sent)
  }

  lemma AppendNote(sent: seq<Update>, started: set<JsString>, u: Update)
    requires Created(sent, started) && !u.CreateCall? && (u.UpdateArgs? ==> u.wireId in started)
    ensures Created(sent + [u], started)
  {
    AppendOrder(sent, u);
    assert (sent + [u])[..|sent|] == sent;
  }

  lemma AppendCreate(sent: seq<Update>, started: set<JsString>, u: Update)
    requires Created(sent, started) && u.CreateCall? && u.wireId !in started
    ensures Created(sent + [u], started + {u.wireId})
  {
    AppendOrder(sent, u);
    assert (sent + [u])[..|sent|] == sent;
  }

  lemma AppendOrder(sent: seq<Update>, u: Update)
    requires CreatedFirst(sent) && (u.UpdateArgs? ==> Creates(sent, u.wireId) > 0)
    ensures CreatedFirst(sent + [u])
  {
    var all := sent + [u];
    assert all[..|sent|] == sent;
    forall i | 0 <= i < |all| && all[i].UpdateArgs?
      ensures Creates(all[..i], all[i].wireId) > 0
    {
      if i < |sent| {
        assert all[..i] == sent[..i];
      }
    }
  }

  lemma StartKeepsCreated(sent: seq<Update>, started: set<JsString>, e: Event)
    requires e.ToolCallStarted? && Created(sent, started)
    ensures Created(sent + StartNotes(started, e), started + {AcpToolCallId(e.turnId, e.toolCallId)})
  {
    var w := AcpToolCallId(e.turnId, e.toolCallId);
    var notes := StartNotes(started, e);
    var u := notes[0];
    if w in started {
      AppendNote(sent, started, u);
      assert started + {w} == started;
    } else {
      AppendCreate(sent, started, u);
    }
    if e.plan.Some? {
      AppendNote(sent + [u], started + {w}, notes[1]);
      assert sent + notes == (sent + [u]) + [notes[1]];
    } else {
      assert sent + notes == sent + [u];
    }
  }

  lemma DeltaKeepsCreated(sent: seq<Update>, started: set<JsString>, e: Event, text: JsString)
    requires e.ToolCallDelta? && Created(sent, started)
    ensures Created(sent + [DeltaNote(started, e, text)], started + {AcpToolCallId(e.turnId, e.toolCallId)})
  {
    var w := AcpToolCallId(e.turnId, e.toolCallId);
    var u := DeltaNote(started, e, text);
    if w in started {
      AppendNote(sent, started, u);
      assert started + {w} == started;
    } else {
      AppendCreate(sent, started, u);
    }
  }

  lemma NotesKeepCreated(sent: seq<Update>, started: set<JsString>, e: Event)
    requires Created(sent, started)
    ensures Created(sent + Notes(e), started)
  {
    var notes := Notes(e);
    if notes == [] {
      assert sent + notes == sent;
    } else {
      AppendNote(sent, started, notes[0]);
      assert notes == [notes[0]];
    }
  }

  // What a step sends while the prompt is open.

  lemma StartSends(s: State, e: Event)
    requires s.subscribed && IsToolEvent(Deliver(e)) && e.ToolCallStarted?
    ensures var t := Step(s, Deliver(e));
            && t.startedToolCalls == s.startedToolCalls + {WireOf(Deliver(e))}
            && t.sent == s.sent + StartNotes(s.startedToolCalls, e)
  {
  }

  lemma DeltaSends(s: State, e: Event)
    requires s.subscribed && IsToolEvent(Deliver(e)) && e.ToolCallDelta?
    ensures var t := Step(s, Deliver(e));
            && t.startedToolCalls == s.startedToolCalls + {WireOf(Deliver(e))}
            && t.sent == s.sent + [DeltaNote(s.startedToolCalls, e,
                                             DeltaText(s.argsByToolCall, s.startedToolCalls, e))]
  {
  }

  lemma OtherSends(s: State, i: Input)
    requires !s.settled && !IsToolEvent(i)
    ensures var t := Step(s, i);
            && (t.sent == s.sent || (i.Deliver? && t.sent == s.sent + Notes(i.event)))
            && (t.settled ==> t.sent == s.sent)
            && (!t.settled ==> t.startedToolCalls == s.startedToolCalls)
  {
  }

  lemma StepKeepsCreated(s: State, i: Input)
    requires Created(s.sent, s.startedToolCalls) && Consistent(s) && !s.settled
    ensures !Step(s, i).settled ==>
      && Created(Step(s, i).sent, Step(s, i).startedToolCalls)
      && Step(s, i).startedToolCalls
         == if IsToolEvent(i) then s.startedToolCalls + {WireOf(i)} else s.startedToolCalls
    ensures Step(s, i).settled ==> Step(s, i).sent == s.sent
  {
    if IsToolEvent(i) {
      var e := i.event;
      if e.ToolCallStarted? {
        StartSends(s, e);
        StartKeepsCreated(s.sent, s.startedToolCalls, e);
      } else {
        DeltaSends(s, e);
        DeltaKeepsCreated(s.sent, s.startedToolCalls, e, DeltaText(s.argsByToolCall, s.startedToolCalls, e));
      }
    } else {
      OtherSends(s, i);
      if i.Deliver? {
        NotesKeepCreated(s.sent, s.startedToolCalls, i.event);
      }
    }
  }

  /** No wire id is ever created twice or updated before it is created; while the prompt is open, exactly the wire ids
      with a start or delta event have been created. */
  lemma {:induction false} CreatedOnce(turn: Option<nat>, inputs: seq<Input>)
    ensures var s := Run(Start(turn), inputs);
            && CreatedFirst(s.sent)
            && (forall w :: Creates(s.sent, w) <= 1)
            && (!s.settled ==>
                Created(s.sent, s.startedToolCalls) && forall w :: w in s.startedToolCalls <==> Seen(inputs, w))
  {
    if inputs != [] {
      var front, last := inputs[..|inputs| - 1], inputs[|inputs| - 1];
      CreatedOnce(turn, front);
      RunConsistent(Start(turn), front);
      var s := Run(Start(turn), front);
      if s.settled {
        assert Step(s, last) == s;
      } else {
        StepKeepsCreated(s, last);
      }
      forall w
        ensures Seen(inputs, w) <==> Seen(front, w) || (IsToolEvent(last) && WireOf(last) == w)
      {
        SeenStep(inputs, w);
      }
    }
  }
}

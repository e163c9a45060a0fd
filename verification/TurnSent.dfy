/** Which notifications a prompt sends: every kind of them, in order, over a whole run. */
module TurnSent {
  import opened Units
  import opened TurnEvents
  import opened TurnBody
  import opened TurnOutcome
  import opened TurnView

  datatype Kind = Usages | Messages | Thoughts | Titles | Results | Plans

  predicate IsOfKind(u: Update, kind: Kind) {
    match kind
    case Usages => u.Usage?
    case Messages => u.MessageChunk?
    case Thoughts => u.ThoughtChunk?
    case Titles => u.UpdateTitle?
    case Results => u.UpdateResult?
    case Plans => u.Plan?
  }

  /** The notifications of one kind, in order. */
  function Picked(sent: seq<Update>, kind: Kind): seq<Update> {
    if sent == [] then []
    else
      var last := sent[|sent| - 1];
      Picked(sent[..|sent| - 1], kind) + (if IsOfKind(last, kind) then [last] else [])
  }

  /** The main agent's event calls for a notification of the kind. */
  predicate CallsFor(i: Input, kind: Kind) {
    && IsMain(i)
    && match kind
       case Usages => i.event.StatusUpdated? && i.event.usage.Some?
       case Messages => i.event.AssistantDelta?
       case Thoughts => i.event.ThinkingDelta?
       case Titles => i.event.ToolProgress? && i.event.title.Some? && i.event.title.value != []
       case Results => i.event.ToolResult?
       case Plans => i.event.ToolCallStarted? && i.event.plan.Some?
  }

  /** An output that is not empty is shown as one text; otherwise there is nothing to show. */
  predicate Presents(content: seq<Block>, output: Option<JsString>) {
    if output == None || output == Some([]) then content == [] else content == [TextBlock(output.value)]
  }

  /** The notification tells what the event says: of a result the call, whether it failed, and the output. */
  ghost predicate Tells(u: Update, i: Input, kind: Kind)
    requires CallsFor(i, kind)
  {
    var e := i.event;
    match kind
    case Usages => u == Usage(e.usage.value)
    case Messages => u == MessageChunk(e.delta)
    case Thoughts => u == ThoughtChunk(e.delta)
    case Titles => u == UpdateTitle(AcpToolCallId(e.turnId, e.toolCallId), e.title.value)
    case Results =>
      && u.UpdateResult? && u.wireId == AcpToolCallId(e.turnId, e.toolCallId) && u.failed == e.isError
      && Presents(u.content, e.output)
    case Plans => u == Plan(e.plan.value)
  }

  function CallsIn(inputs: seq<Input>, kind: Kind): nat -> bool {
    (j: nat) => j < |inputs| && CallsFor(inputs[j], kind)
  }

  /** The notifications `us` are those that the inputs at the positions `at` call for, one each, in order. */
  ghost predicate TellAll(us: seq<Update>, inputs: seq<Input>, kind: Kind, at: seq<nat>) {
    && |us| == |at|
    && forall m | 0 <= m < |at| ::
         at[m] < |inputs| && CallsFor(inputs[at[m]], kind) && Tells(us[m], inputs[at[m]], kind)
  }

  lemma PickedNext(sent: seq<Update>, u: Update, kind: Kind)
    ensures Picked(sent + [u], kind) == Picked(sent, kind) + (if IsOfKind(u, kind) then [u] else [])
  {
    assert (sent + [u])[..|sent|] == sent;
  }

  lemma PickedOne(u: Update, kind: Kind)
    ensures Picked([u], kind) == if IsOfKind(u, kind) then [u] else []
  {
    PickedNext([], u, kind);
    assert [] + [u] == [u];
  }

  lemma {:induction false} PickedConcat(a: seq<Update>, b: seq<Update>, kind: Kind)
    ensures Picked(a + b, kind) == Picked(a, kind) + Picked(b, kind)
  {
    if b == [] {
      assert a + b == a;
    } else {
      var front, u := b[..|b| - 1], b[|b| - 1];
      PickedConcat(a, front, kind);
      SplitLast(a, b, front, u);
      PickedNext(a + front, u, kind);
      PickedNext(front, u, kind);
    }
  }

  /** One notification of the kind, if the input calls for it, and none otherwise. */
  ghost predicate TellsOnce(us: seq<Update>, i: Input, kind: Kind) {
    if CallsFor(i, kind) then |us| == 1 && Tells(us[0], i, kind) else us == []
  }

  lemma NotesTell(e: Event, kind: Kind)
    requires IsFromMainAgent(e) && !e.ToolCallStarted?
    ensures TellsOnce(Picked(Notes(e), kind), Deliver(e), kind)
  {
    if Notes(e) != [] {
      NoteTells(e, Notes(e)[0], kind);
      PickedOne(Notes(e)[0], kind);
      assert Notes(e) == [Notes(e)[0]];
    } else {
      assert !CallsFor(Deliver(e), kind);
    }
  }

  lemma NoteTells(e: Event, u: Update, kind: Kind)
    requires IsFromMainAgent(e) && Notes(e) != [] && u == Notes(e)[0]
    ensures if CallsFor(Deliver(e), kind) then IsOfKind(u, kind) && Tells(u, Deliver(e), kind) else !IsOfKind(u, kind)
  {
  }

  lemma StartTells(started: set<JsString>, e: Event, kind: Kind)
    requires IsFromMainAgent(e) && e.ToolCallStarted?
    ensures TellsOnce(Picked(StartNotes(started, e), kind), Deliver(e), kind)
  {
    var first := StartNotes(started, e)[0];
    PickedOne(first, kind);
    if e.plan.Some? {
      assert StartNotes(started, e) == [first] + [Plan(e.plan.value)];
      PickedNext([first], Plan(e.plan.value), kind);
      assert [] + [Plan(e.plan.value)] == [Plan(e.plan.value)];
    } else {
      assert StartNotes(started, e) == [first];
    }
  }

  lemma AddedTells(started: set<JsString>, args: map<JsString, JsString>, e: Event, kind: Kind)
    ensures TellsOnce(Picked(Added(started, args, e), kind), Deliver(e), kind)
  {
    if IsFromMainAgent(e) {
      if e.ToolCallStarted? {
        StartTells(started, e, kind);
      } else if e.ToolCallDelta? {
        PickedOne(DeltaNote(started, e, DeltaText(args, started, e)), kind);
      } else {
        NotesTell(e, kind);
      }
    }
  }

  lemma TellNext(us: seq<Update>, more: seq<Update>, front: seq<Input>, i: Input, kind: Kind, before: seq<nat>,
                 at: seq<nat>)
    requires TellAll(us, front, kind, before) && TellsOnce(more, i, kind)
    requires at == if CallsFor(i, kind) then before + [|front|] else before
    ensures TellAll(us + more, front + [i], kind, at)
  {
    var inputs := front + [i];
    forall m | 0 <= m < |at|
      ensures at[m] < |inputs| && CallsFor(inputs[at[m]], kind) && Tells((us + more)[m], inputs[at[m]], kind)
    {
      if m < |before| {
        assert inputs[before[m]] == front[before[m]];
      }
    }
  }

  lemma CallsBefore(inputs: seq<Input>, kind: Kind, at: seq<nat>, n: nat)
    requires n <= |inputs| && Enumerates(at, n, CallsIn(inputs, kind))
    ensures Enumerates(at, n, CallsIn(inputs[..n], kind))
  {
    forall j: nat | j < n
      ensures CallsIn(inputs[..n], kind)(j) == CallsIn(inputs, kind)(j)
    {
      assert inputs[..n][j] == inputs[j];
    }
  }

  lemma SentNext(s: State, front: seq<Input>, i: Input, kind: Kind, before: seq<nat>, at: seq<nat>)
    requires Consistent(s) && !s.settled && !Step(s, i).settled && TellAll(Picked(s.sent, kind), front, kind, before)
    requires at == if CallsFor(i, kind) then before + [|front|] else before
    ensures TellAll(Picked(Step(s, i).sent, kind), front + [i], kind, at)
  {
    var added := Added(s.startedToolCalls, s.argsByToolCall, i.event);
    StepAdds(s, i.event);
    PickedConcat(s.sent, added, kind);
    AddedTells(s.startedToolCalls, s.argsByToolCall, i.event, kind);
    TellNext(Picked(s.sent, kind), Picked(added, kind), front, i, kind, before, at);
  }

  /** While the prompt is open, every event of the main agent that calls for a notification has sent it. */
  lemma {:induction false} SentWhileOpen(turn: Option<nat>, inputs: seq<Input>, kind: Kind, at: seq<nat>)
    requires !Run(Start(turn), inputs).settled && Enumerates(at, |inputs|, CallsIn(inputs, kind))
    ensures TellAll(Picked(Run(Start(turn), inputs).sent, kind), inputs, kind, at)
  {
    if inputs == [] {
      RoomBetween(at, -1, 0);
    } else {
      var n := |inputs| - 1;
      var front, i := inputs[..n], inputs[n];
      var s := Run(Start(turn), front);
      assert front + [i] == inputs;
      OpenBefore(turn, inputs);
      RunConsistent(Start(turn), front);
      var before := EnumeratesLast(at, n + 1, CallsIn(inputs, kind));
      CallsBefore(inputs, kind, before, n);
      SentWhileOpen(turn, front, kind, before);
      SentNext(s, front, i, kind, before, at);
    }
  }

  // ----- Up to the settling input -----

  lemma {:induction false} OpenPrefix(active: Option<nat>, inputs: seq<Input>, j: nat)
    requires j <= OpenLength(active, inputs)
    ensures OpenLength(active, inputs[..j]) == j
  {
    if j == |inputs| {
      assert inputs[..j] == inputs;
    } else {
      var n := |inputs| - 1;
      OpenPrefix(active, inputs[..n], j);
      assert inputs[..n][..j] == inputs[..j];
    }
  }

  /** What has been sent in the end has been sent before the settling input. */
  lemma SentBeforeSettling(active: Option<nat>, inputs: seq<Input>)
    ensures var k := OpenLength(active, inputs);
            && !Run(Start(active), inputs[..k]).settled
            && Run(Start(active), inputs).sent == Run(Start(active), inputs[..k]).sent
  {
    var k := OpenLength(active, inputs);
    var front := inputs[..k];
    OpenPrefix(active, inputs, k);
    OutcomeOfRun(active, front);
    if k < |inputs| {
      SettlingSendsNothing(active, front, inputs[k], inputs[k + 1..]);
      assert front + [inputs[k]] + inputs[k + 1..] == inputs;
    } else {
      assert front == inputs;
    }
  }

  lemma SettlingSendsNothing(active: Option<nat>, front: seq<Input>, i: Input, more: seq<Input>)
    requires OpenState(active, front, Run(Start(active), front)) && Settles(active, front, i)
    ensures Run(Start(active), front + [i] + more).sent == Run(Start(active), front).sent
  {
    SettlingStep(active, front, i, Run(Start(active), front));
    assert (front + [i])[..|front|] == front;
    RunConsistent(Start(active), front + [i]);
    SettledForGood(Start(active), front + [i], more);
  }

  /** Over every run: up to the first settling input every result, title, usage, plan and piece of text of the main
      agent has been sent once, in order, and nothing else of its kind is ever sent. */
  lemma SentOfRun(active: Option<nat>, inputs: seq<Input>, kind: Kind, at: seq<nat>)
    requires Enumerates(at, OpenLength(active, inputs), CallsIn(inputs, kind))
    ensures TellAll(Picked(Run(Start(active), inputs).sent, kind), inputs, kind, at)
  {
    var k := OpenLength(active, inputs);
    var front := inputs[..k];
    SentBeforeSettling(active, inputs);
    assert forall j | 0 <= j < k :: front[j] == inputs[j];
    CallsBefore(inputs, kind, at, k);
    SentWhileOpen(active, front, kind, at);
  }

  // ----- What a call has sent -----

  /** A start sends the call with its diff and arguments, as a creation if nothing has been seen of the call, and then
      its plan. */
  lemma StartSent(active: Option<nat>, front: seq<Input>, e: Event)
    requires OpenLength(active, front) == |front| && IsToolEvent(Deliver(e)) && e.ToolCallStarted?
    ensures var before, wireId := Run(Start(active), front).sent, AcpToolCallId(e.turnId, e.toolCallId);
            var content := if e.diff.Some? then [Diff(e.diff.value), TextBlock(e.args)] else [TextBlock(e.args)];
            Run(Start(active), front + [Deliver(e)]).sent
            == before
               + [if Seen(front, wireId) then UpdateArgs(wireId, content) else CreateCall(wireId, false, content)]
               + (if e.plan.Some? then [Plan(e.plan.value)] else [])
  {
    var s := Run(Start(active), front);
    OpenRun(active, front);
    StartSends(s, e);
    StartNotesAre(s.startedToolCalls, e, AcpToolCallId(e.turnId, e.toolCallId));
    assert (front + [Deliver(e)])[..|front|] == front;
  }

  lemma OpenRun(active: Option<nat>, front: seq<Input>)
    requires OpenLength(active, front) == |front|
    ensures var s := Run(Start(active), front);
            s.subscribed && !s.settled && forall w :: w in s.startedToolCalls <==> Seen(front, w)
  {
    OutcomeOfRun(active, front);
    StartedAreSeen(active, front);
  }

  lemma StartNotesAre(started: set<JsString>, e: Event, wireId: JsString)
    requires e.ToolCallStarted? && wireId == AcpToolCallId(e.turnId, e.toolCallId)
    ensures var content := if e.diff.Some? then [Diff(e.diff.value), TextBlock(e.args)] else [TextBlock(e.args)];
            StartNotes(started, e)
            == [if wireId in started then UpdateArgs(wireId, content) else CreateCall(wireId, false, content)]
               + (if e.plan.Some? then [Plan(e.plan.value)] else [])
  {
    assert StartBlocks(e) == if e.diff.Some? then [Diff(e.diff.value), TextBlock(e.args)] else [TextBlock(e.args)];
  }

  /** A delta creates its call as pending, with its fragment, if nothing has been seen of the call; otherwise it sends
      what has accumulated under the raw id, and the fragment. */
  lemma DeltaSent(active: Option<nat>, front: seq<Input>, e: Event)
    requires OpenLength(active, front) == |front| && IsToolEvent(Deliver(e)) && e.ToolCallDelta?
    ensures var before, wireId := Run(Start(active), front).sent, AcpToolCallId(e.turnId, e.toolCallId);
            var fragment := GetOr(e.argumentsPart);
            Run(Start(active), front + [Deliver(e)]).sent
            == before
               + [if Seen(front, wireId) then
                    UpdateArgs(wireId, [TextBlock(GetOr(Accumulated(front, e.toolCallId)) + fragment)])
                  else CreateCall(wireId, true, [TextBlock(fragment)])]
  {
    var s := Run(Start(active), front);
    assert (front + [Deliver(e)])[..|front|] == front;
    OutcomeOfRun(active, front);
    StartedAreSeen(active, front);
    AccumulatorsOfRun(active, front);
    var a := Accumulated(front, e.toolCallId);
    assert if a.Some? then e.toolCallId in s.argsByToolCall && s.argsByToolCall[e.toolCallId] == a.value
           else e.toolCallId !in s.argsByToolCall;
    DeltaSends(s, e);
  }

  // ----- What the client shows of a result -----

  /** Right after a result of the main agent the client shows its output for the call, and nothing else. */
  lemma ResultShown(active: Option<nat>, front: seq<Input>, e: Event)
    requires OpenLength(active, front) == |front| && IsFromMainAgent(e) && e.ToolResult?
    ensures var view := ClientView(Run(Start(active), front + [Deliver(e)]).sent);
            var wireId := AcpToolCallId(e.turnId, e.toolCallId);
            wireId in view && Presents(view[wireId], e.output)
  {
    var inputs, s := front + [Deliver(e)], Run(Start(active), front);
    assert inputs[..|front|] == front;
    OutcomeOfRun(active, front);
    var sent := Run(Start(active), inputs).sent;
    assert sent == s.sent + Notes(e);
    assert sent[..|sent| - 1] == s.sent;
  }
}

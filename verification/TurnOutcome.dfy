/** How a prompt ends, and which text reaches the client before it does. */
module TurnOutcome {
  import opened Units
  import opened TurnEvents
  import opened TurnBody

  predicate IsMain(i: Input) {
    i.Deliver? && IsFromMainAgent(i.event)
  }

  /** A turn other than the one that was active when the prompt came. */
  predicate StartsOwnTurn(active: Option<nat>, i: Input) {
    IsMain(i) && i.event.TurnStarted? && Some(i.event.turnId) != active
  }

  predicate OwnTurnStarted(active: Option<nat>, inputs: seq<Input>) {
    exists i | i in inputs :: StartsOwnTurn(active, i)
  }

  /** The input settles a prompt that has seen `front`: a rejected start, the end of a turn of the main agent, or its
      complaint about another turn while no turn of this prompt has started. */
  predicate Settles(active: Option<nat>, front: seq<Input>, i: Input) {
    || i.KickRejected?
    || (IsMain(i) && i.event.TurnEnded?)
    || (IsMain(i) && i.event.ErrorRaised? && i.event.isTurnAgentBusy && !OwnTurnStarted(active, front))
  }

  function Verdict(i: Input): Outcome
    requires i.KickRejected? || i.event.TurnEnded? || i.event.ErrorRaised?
  {
    match i
    case KickRejected => RejectedByKick
    case Deliver(e) =>
      if e.ErrorRaised? then RejectedBusy
      else if e.reason == Completed then Resolved(EndTurn)
      else if e.reason == Cancelled then Resolved(StopCancelled)
      else if e.reason == Blocked then Resolved(Refusal)
      else if e.reason.authRequired then RejectedAuth
      else Resolved(if e.reason.filtered then Refusal else EndTurn)
  }

  /** How many inputs come before the first one that settles the prompt. */
  function OpenLength(active: Option<nat>, inputs: seq<Input>): (k: nat)
    ensures k <= |inputs|
    ensures k < |inputs| ==> Settles(active, inputs[..k], inputs[k])
  {
    if inputs == [] then 0
    else
      var n := |inputs| - 1;
      var k := OpenLength(active, inputs[..n]);
      assert k < n ==> inputs[..n][..k] == inputs[..k];
      if k < n || Settles(active, inputs[..n], inputs[n]) then k else n + 1
  }

  lemma {:induction false} OpenLengthIsFirst(active: Option<nat>, inputs: seq<Input>, j: nat)
    requires j < OpenLength(active, inputs)
    ensures !Settles(active, inputs[..j], inputs[j])
  {
    var n := |inputs| - 1;
    if j < n {
      var k := OpenLength(active, inputs[..n]);
      OpenLengthIsFirst(active, inputs[..n], j);
      assert inputs[..n][..j] == inputs[..j];
    }
  }

  /** The last turn of the main agent that an event has named. */
  function ActiveTurn(active: Option<nat>, inputs: seq<Input>): Option<nat> {
    if inputs == [] then active
    else
      var last := inputs[|inputs| - 1];
      if IsMain(last) && TurnIdOf(last.event).Some? then TurnIdOf(last.event)
      else ActiveTurn(active, inputs[..|inputs| - 1])
  }

  function TextOf(u: Update, thinking: bool): JsString {
    if u.MessageChunk? && !thinking then u.text else if u.ThoughtChunk? && thinking then u.text else []
  }

  /** The text, or the thinking, that the notifications carry. */
  function SentText(sent: seq<Update>, thinking: bool): JsString {
    if sent == [] then []
    else
      SentText(sent[..|sent| - 1], thinking) + TextOf(sent[|sent| - 1], thinking)
  }

  function DeltaOf(e: Event, thinking: bool): JsString {
    if e.AssistantDelta? && !thinking then e.delta else if e.ThinkingDelta? && thinking then e.delta else []
  }

  /** The text, or the thinking, that the main agent has streamed. */
  function Streamed(inputs: seq<Input>, thinking: bool): JsString {
    if inputs == [] then []
    else
      var i := inputs[|inputs| - 1];
      Streamed(inputs[..|inputs| - 1], thinking)
      + if IsMain(i) then DeltaOf(i.event, thinking) else []
  }

  lemma SentNext(sent: seq<Update>, u: Update, thinking: bool)
    ensures SentText(sent + [u], thinking) == SentText(sent, thinking) + TextOf(u, thinking)
  {
    assert (sent + [u])[..|sent|] == sent;
  }

  lemma SplitLast(a: seq<Update>, b: seq<Update>, front: seq<Update>, u: Update)
    requires b != [] && front == b[..|b| - 1] && u == b[|b| - 1]
    ensures a + b == (a + front) + [u] && b == front + [u]
  {
  }

  lemma {:induction false} SentTextConcat(a: seq<Update>, b: seq<Update>, thinking: bool)
    ensures SentText(a + b, thinking) == SentText(a, thinking) + SentText(b, thinking)
  {
    if b == [] {
      assert a + b == a;
      assert SentText(a, thinking) + [] == SentText(a, thinking);
    } else {
      var front, u := b[..|b| - 1], b[|b| - 1];
      SentTextConcat(a, front, thinking);
      SentNext(a + front, u, thinking);
      SentNext(front, u, thinking);
      SplitLast(a, b, front, u);
      AppendAssociates(SentText(a, thinking), SentText(front, thinking), TextOf(u, thinking));
    }
  }

  lemma SentOne(u: Update, thinking: bool)
    ensures SentText([u], thinking) == TextOf(u, thinking)
  {
    var none: seq<Update> := [];
    assert [u][..0] == none;
    assert SentText(none, thinking) == [];
    assert [] + TextOf(u, thinking) == TextOf(u, thinking);
  }

  /** What one event adds to the notifications of an open prompt. */
  function Added(started: set<JsString>, args: map<JsString, JsString>, e: Event): seq<Update> {
    if !IsFromMainAgent(e) then []
    else if e.ToolCallStarted? then StartNotes(started, e)
    else if e.ToolCallDelta? then [DeltaNote(started, e, DeltaText(args, started, e))]
    else Notes(e)
  }

  lemma StepAdds(s: State, e: Event)
    requires s.subscribed && !s.settled && !Step(s, Deliver(e)).settled
    ensures Step(s, Deliver(e)).sent == s.sent + Added(s.startedToolCalls, s.argsByToolCall, e)
  {
  }

  lemma StartSilent(started: set<JsString>, e: Event, thinking: bool)
    requires e.ToolCallStarted?
    ensures SentText(StartNotes(started, e), thinking) == []
  {
    var notes := StartNotes(started, e);
    SentOne(notes[0], thinking);
    if e.plan.Some? {
      SentOne(notes[1], thinking);
      assert notes == [notes[0]] + [notes[1]];
      SentTextConcat([notes[0]], [notes[1]], thinking);
    } else {
      assert notes == [notes[0]];
    }
  }

  lemma NotesText(e: Event, thinking: bool)
    ensures SentText(Notes(e), thinking) == DeltaOf(e, thinking)
  {
    if Notes(e) != [] {
      SentOne(Notes(e)[0], thinking);
      assert Notes(e) == [Notes(e)[0]];
    }
  }

  lemma AddedText(started: set<JsString>, args: map<JsString, JsString>, e: Event, thinking: bool)
    ensures SentText(Added(started, args, e), thinking) == if IsFromMainAgent(e) then DeltaOf(e, thinking) else []
  {
    if e.ToolCallStarted? {
      StartSilent(started, e, thinking);
    } else if e.ToolCallDelta? {
      SentOne(DeltaNote(started, e, DeltaText(args, started, e)), thinking);
    } else {
      NotesText(e, thinking);
    }
  }

  lemma StreamedNext(front: seq<Input>, i: Input, thinking: bool)
    ensures Streamed(front + [i], thinking)
         == Streamed(front, thinking) + if IsMain(i) then DeltaOf(i.event, thinking) else []
  {
    assert (front + [i])[..|front|] == front;
  }

  ghost predicate TurnsTracked(active: Option<nat>, inputs: seq<Input>, s: State) {
    && Consistent(s) && !s.settled && s.initialActiveTurnId == active
    && s.hasReceivedOwnTurnStarted == OwnTurnStarted(active, inputs)
    && s.currentTurnId == ActiveTurn(active, inputs)
  }

  /** What the state of an open prompt says about its inputs. */
  ghost predicate OpenState(active: Option<nat>, inputs: seq<Input>, s: State) {
    TurnsTracked(active, inputs, s) && forall thinking :: SentText(s.sent, thinking) == Streamed(inputs, thinking)
  }

  lemma OwnTurnNext(active: Option<nat>, front: seq<Input>, i: Input)
    ensures OwnTurnStarted(active, front + [i]) <==> OwnTurnStarted(active, front) || StartsOwnTurn(active, i)
  {
    assert forall x :: x in front + [i] <==> x in front || x == i;
  }

  lemma ActiveTurnNext(active: Option<nat>, front: seq<Input>, i: Input)
    ensures ActiveTurn(active, front + [i])
         == if IsMain(i) && TurnIdOf(i.event).Some? then TurnIdOf(i.event) else ActiveTurn(active, front)
  {
    assert (front + [i])[..|front|] == front;
  }

  lemma TurnsStep(active: Option<nat>, front: seq<Input>, i: Input, s: State)
    requires TurnsTracked(active, front, s) && !Settles(active, front, i)
    ensures TurnsTracked(active, front + [i], Step(s, i))
  {
    OwnTurnNext(active, front, i);
    ActiveTurnNext(active, front, i);
    TrackedStep(active, s, i);
  }

  /** How a step that does not settle the prompt moves the flags. */
  lemma TrackedStep(active: Option<nat>, s: State, i: Input)
    requires Consistent(s) && !s.settled && s.initialActiveTurnId == active && i.Deliver?
    requires !(IsMain(i) && i.event.TurnEnded?)
    requires !(IsMain(i) && i.event.ErrorRaised? && i.event.isTurnAgentBusy && !s.hasReceivedOwnTurnStarted)
    ensures var t := Step(s, i);
            && Consistent(t) && !t.settled && t.initialActiveTurnId == active
            && t.hasReceivedOwnTurnStarted == (s.hasReceivedOwnTurnStarted || StartsOwnTurn(active, i))
            && t.currentTurnId
               == if IsMain(i) && TurnIdOf(i.event).Some? then TurnIdOf(i.event) else s.currentTurnId
  {
  }

  lemma OpenStep(active: Option<nat>, front: seq<Input>, i: Input, s: State)
    requires OpenState(active, front, s) && !Settles(active, front, i)
    ensures OpenState(active, front + [i], Step(s, i))
  {
    TurnsStep(active, front, i, s);
    forall thinking
      ensures SentText(Step(s, i).sent, thinking) == Streamed(front + [i], thinking)
    {
      OpenStepText(front, i.event, s, thinking);
    }
  }

  lemma OpenStepText(front: seq<Input>, e: Event, s: State, thinking: bool)
    requires s.subscribed && !s.settled && SentText(s.sent, thinking) == Streamed(front, thinking)
    requires !Step(s, Deliver(e)).settled
    ensures SentText(Step(s, Deliver(e)).sent, thinking) == Streamed(front + [Deliver(e)], thinking)
  {
    var added := Added(s.startedToolCalls, s.argsByToolCall, e);
    StreamedNext(front, Deliver(e), thinking);
    StepAdds(s, e);
    SentTextConcat(s.sent, added, thinking);
    AddedText(s.startedToolCalls, s.argsByToolCall, e, thinking);
  }

  lemma SettlingStep(active: Option<nat>, front: seq<Input>, i: Input, s: State)
    requires OpenState(active, front, s) && Settles(active, front, i)
    ensures var t := Step(s, i);
            && t.settled && t.outcome == Some(Verdict(i)) && t.sent == s.sent
            && t.currentTurnId == (if i.KickRejected? then s.currentTurnId else None)
  {
  }

  /** The prompt is open with all its inputs, or has settled with the verdict of input `k` and sent nothing since; the
      session then has no active turn, except that a rejected start leaves the one that was active. */
  ghost predicate HasEnded(active: Option<nat>, inputs: seq<Input>, k: nat, s: State) {
    if k >= |inputs| then OpenState(active, inputs, s)
    else
      && Settles(active, inputs[..k], inputs[k])
      && s.settled && Consistent(s) && s.outcome == Some(Verdict(inputs[k]))
      && s.currentTurnId == (if inputs[k].KickRejected? then ActiveTurn(active, inputs[..k]) else None)
      && forall thinking :: SentText(s.sent, thinking) == Streamed(inputs[..k], thinking)
  }

  lemma EndStays(active: Option<nat>, front: seq<Input>, i: Input, k: nat, s: State)
    requires k < |front| && HasEnded(active, front, k, s)
    ensures HasEnded(active, front + [i], k, Step(s, i))
  {
    assert (front + [i])[..k] == front[..k] && (front + [i])[k] == front[k];
    assert Step(s, i) == s;
  }

  lemma EndComes(active: Option<nat>, front: seq<Input>, i: Input, s: State)
    requires OpenState(active, front, s) && Settles(active, front, i)
    ensures HasEnded(active, front + [i], |front|, Step(s, i))
  {
    assert (front + [i])[..|front|] == front;
    SettlingStep(active, front, i, s);
  }

  /** Before the first settling input the prompt is open; from then on it keeps that input's verdict, and what it has
      sent is the text streamed before that input. */
  lemma {:induction false} OutcomeOfRun(active: Option<nat>, inputs: seq<Input>)
    ensures HasEnded(active, inputs, OpenLength(active, inputs), Run(Start(active), inputs))
  {
    if inputs != [] {
      var n := |inputs| - 1;
      var front, i, k := inputs[..n], inputs[n], OpenLength(active, inputs[..n]);
      OutcomeOfRun(active, front);
      var s := Run(Start(active), front);
      assert front + [i] == inputs;
      if k < n {
        EndStays(active, front, i, k, s);
      } else if Settles(active, front, i) {
        EndComes(active, front, i, s);
      } else {
        OpenStep(active, front, i, s);
      }
    }
  }
}

/** What a client shows for the arguments of a tool call, when it applies every notification as a replacement. */
module TurnView {
  import opened Units
  import opened TurnEvents
  import opened TurnBody

  /** The content of each tool call at the client. */
  function ClientView(sent: seq<Update>): map<JsString, seq<Block>> {
    if sent == [] then map[]
    else
      var view := ClientView(sent[..|sent| - 1]);
      match sent[|sent| - 1]
      case CreateCall(wireId, _, content) => view[wireId := content]
      case UpdateArgs(wireId, content) => view[wireId := content]
      case UpdateResult(wireId, _, content) => view[wireId := content]
      case _ => view
  }

  /** The client shows `text` as the arguments of the call: the last block of its content. */
  ghost predicate Shows(sent: seq<Update>, wireId: JsString, text: JsString) {
    var view := ClientView(sent);
    wireId in view && view[wireId] != [] && view[wireId][|view[wireId]| - 1] == TextBlock(text)
  }

  predicate IsToolEventOf(i: Input, raw: JsString) {
    IsToolEvent(i) && i.event.toolCallId == raw
  }

  function GetOr(t: Option<JsString>): JsString {
    match t case None => [] case Some(v) => v
  }

  /** What a call should show: the arguments of its last start, or nothing if it has not started, and the fragments
      that its own deltas have brought since. */
  function Expected(inputs: seq<Input>, turnId: nat, raw: JsString): Option<JsString> {
    if inputs == [] then None
    else
      var before, last := Expected(inputs[..|inputs| - 1], turnId, raw), inputs[|inputs| - 1];
      if !IsToolEventOf(last, raw) || last.event.turnId != turnId then before
      else if last.event.ToolCallStarted? then Some(last.event.args)
      else Some(GetOr(before) + Fragment(last.event))
  }

  /** What the accumulator of a raw id holds. */
  ghost function Accumulated(inputs: seq<Input>, raw: JsString): Option<JsString> {
    if inputs == [] then None
    else
      var front, last := inputs[..|inputs| - 1], inputs[|inputs| - 1];
      if !IsToolEventOf(last, raw) then Accumulated(front, raw)
      else if last.event.ToolCallStarted? then Some(last.event.args)
      else if !Seen(front, WireOf(last)) then Some(Fragment(last.event))
      else Some(GetOr(Accumulated(front, raw)) + Fragment(last.event))
  }

  ghost predicate AccumulatorsMatch(s: State, inputs: seq<Input>) {
    forall raw ::
      var a := Accumulated(inputs, raw);
      if a.Some? then raw in s.argsByToolCall && s.argsByToolCall[raw] == a.value else raw !in s.argsByToolCall
  }

  lemma StartedAreSeen(turn: Option<nat>, inputs: seq<Input>)
    requires !Run(Start(turn), inputs).settled
    ensures forall w :: w in Run(Start(turn), inputs).startedToolCalls <==> Seen(inputs, w)
  {
    CreatedOnce(turn, inputs);
  }

  lemma {:induction false} AccumulatorsOfRun(turn: Option<nat>, inputs: seq<Input>)
    requires !Run(Start(turn), inputs).settled
    ensures AccumulatorsMatch(Run(Start(turn), inputs), inputs)
  {
    if inputs != [] {
      var front, last := inputs[..|inputs| - 1], inputs[|inputs| - 1];
      RunConsistent(Start(turn), front);
      OpenBefore(turn, inputs);
      AccumulatorsOfRun(turn, front);
      StartedAreSeen(turn, front);
      assert front + [last] == inputs;
      AccumulatorsStep(Run(Start(turn), front), front, last, Run(Start(turn), inputs), inputs);
    }
  }

  lemma AccumulatorsStep(s: State, front: seq<Input>, last: Input, t: State, inputs: seq<Input>)
    requires t == Step(s, last) && inputs == front + [last]
    requires Consistent(s) && !s.settled && !t.settled && AccumulatorsMatch(s, front)
    requires forall w :: w in s.startedToolCalls <==> Seen(front, w)
    ensures AccumulatorsMatch(t, inputs)
  {
    assert inputs[..|inputs| - 1] == front;
    var args := t.argsByToolCall;
    assert !IsToolEvent(last) ==> args == s.argsByToolCall;
    forall raw
      ensures var a := Accumulated(inputs, raw); if a.Some? then raw in args && args[raw] == a.value else raw !in args
    {
      var a := Accumulated(front, raw);
      assert if a.Some? then raw in s.argsByToolCall && s.argsByToolCall[raw] == a.value
             else raw !in s.argsByToolCall;
    }
  }

  /** What the client shows after a start or delta event of an open prompt. */
  lemma ShownAfter(turn: Option<nat>, front: seq<Input>, last: Input)
    requires !Run(Start(turn), front).settled && IsToolEvent(last)
    ensures var e := last.event;
            var text := Accumulated(front + [last], e.toolCallId);
            text.Some? && Shows(Run(Start(turn), front + [last]).sent, WireOf(last), text.value)
  {
    var inputs := front + [last];
    var s := Run(Start(turn), front);
    assert inputs[..|inputs| - 1] == front;
    RunConsistent(Start(turn), front);
    ToolEventsKeepOpen(s, last.event);
    AccumulatorsOfRun(turn, inputs);
    SentShows(s, last.event);
  }

  lemma ToolEventsKeepOpen(s: State, e: Event)
    requires IsToolEvent(Deliver(e))
    ensures Step(s, Deliver(e)).settled == s.settled
  {
  }

  lemma ViewOfLast(sent: seq<Update>, u: Update)
    requires (u.CreateCall? || u.UpdateArgs?) && u.content != []
    ensures ClientView(sent + [u]) == ClientView(sent)[u.wireId := u.content]
  {
    assert (sent + [u])[..|sent|] == sent;
  }

  lemma ViewOfPlan(sent: seq<Update>, plan: JsString)
    ensures ClientView(sent + [Plan(plan)]) == ClientView(sent)
  {
    assert (sent + [Plan(plan)])[..|sent|] == sent;
  }

  lemma ViewOfStart(sent: seq<Update>, started: set<JsString>, e: Event)
    requires e.ToolCallStarted?
    ensures ClientView(sent + StartNotes(started, e))
         == ClientView(sent)[AcpToolCallId(e.turnId, e.toolCallId) := StartBlocks(e)]
  {
    var first := StartNotes(started, e)[0];
    ViewOfLast(sent, first);
    if e.plan.Some? {
      ViewOfPlan(sent + [first], e.plan.value);
      assert sent + StartNotes(started, e) == sent + [first] + [Plan(e.plan.value)];
    } else {
      assert sent + StartNotes(started, e) == sent + [first];
    }
  }

  lemma SentShows(s: State, e: Event)
    requires s.subscribed && IsToolEvent(Deliver(e))
    ensures var t := Step(s, Deliver(e));
            e.toolCallId in t.argsByToolCall && Shows(t.sent, WireOf(Deliver(e)), t.argsByToolCall[e.toolCallId])
  {
    if e.ToolCallStarted? {
      ViewOfStart(s.sent, s.startedToolCalls, e);
    } else {
      var text := DeltaText(s.argsByToolCall, s.startedToolCalls, e);
      ViewOfLast(s.sent, DeltaNote(s.startedToolCalls, e, text));
    }
  }

  /** After a start event the client shows the diff of the call, if it has one, and then its arguments, and nothing
      else, even when deltas had created the call. */
  lemma StartedShown(turn: Option<nat>, front: seq<Input>, e: Event)
    requires !Run(Start(turn), front).settled && IsToolEvent(Deliver(e)) && e.ToolCallStarted?
    ensures var view := ClientView(Run(Start(turn), front + [Deliver(e)]).sent);
            && AcpToolCallId(e.turnId, e.toolCallId) in view
            && view[AcpToolCallId(e.turnId, e.toolCallId)]
               == if e.diff.Some? then [Diff(e.diff.value), TextBlock(e.args)] else [TextBlock(e.args)]
  {
    var inputs := front + [Deliver(e)];
    var s := Run(Start(turn), front);
    assert inputs[..|inputs| - 1] == front;
    RunConsistent(Start(turn), front);
    StartSends(s, e);
    ViewOfStart(s.sent, s.startedToolCalls, e);
  }

  /** The text shown is the expected one exactly when the event starts or creates the call, or the accumulator of the
      raw id holds what this call should have shown before. */
  lemma ShownIsExpectedIff(turn: Option<nat>, front: seq<Input>, last: Input)
    requires !Run(Start(turn), front).settled && IsToolEvent(last)
    ensures var e := last.event;
            var expected := Expected(front + [last], e.turnId, e.toolCallId);
            && expected.Some?
            && (Shows(Run(Start(turn), front + [last]).sent, WireOf(last), expected.value)
                <==> || e.ToolCallStarted?
                     || !Seen(front, WireOf(last))
                     || GetOr(Accumulated(front, e.toolCallId)) == GetOr(Expected(front, e.turnId, e.toolCallId)))
  {
    var e := last.event;
    ShownAfter(turn, front, last);
    NextTexts(front, last);
    var inputs := front + [last];
    OneTextShown(Run(Start(turn), inputs).sent, WireOf(last), Accumulated(inputs, e.toolCallId).value,
                 Expected(inputs, e.turnId, e.toolCallId).value);
    if e.ToolCallDelta? && Seen(front, WireOf(last)) {
      SameSuffix(GetOr(Accumulated(front, e.toolCallId)), GetOr(Expected(front, e.turnId, e.toolCallId)), Fragment(e));
    }
  }

  /** A call shows one text. */
  lemma OneTextShown(sent: seq<Update>, wireId: JsString, a: JsString, b: JsString)
    requires Shows(sent, wireId, a)
    ensures Shows(sent, wireId, b) <==> a == b
  {
  }

  /** What the accumulator holds, and what should be shown, after a start or delta. */
  lemma NextTexts(front: seq<Input>, last: Input)
    requires IsToolEvent(last)
    ensures var e := last.event;
            var a, x := Accumulated(front + [last], e.toolCallId), Expected(front + [last], e.turnId, e.toolCallId);
            if e.ToolCallStarted? then a == x == Some(e.args)
            else if !Seen(front, WireOf(last)) then a == x == Some(Fragment(e))
            else
              && a == Some(GetOr(Accumulated(front, e.toolCallId)) + Fragment(e))
              && x == Some(GetOr(Expected(front, e.turnId, e.toolCallId)) + Fragment(e))
  {
    var e := last.event;
    assert (front + [last])[..|front + [last]| - 1] == front;
    if e.ToolCallDelta? && !Seen(front, WireOf(last)) {
      UnseenExpectsNothing(front, e.turnId, e.toolCallId);
      assert [] + Fragment(e) == Fragment(e);
    }
  }

  lemma SameSuffix(a: JsString, b: JsString, c: JsString)
    ensures a + c == b + c <==> a == b
  {
    if a + c == b + c {
      assert |a| == |b|;
      assert a == (a + c)[..|a|] && b == (b + c)[..|a|];
    }
  }

  lemma {:induction false} UnseenExpectsNothing(inputs: seq<Input>, turnId: nat, raw: JsString)
    requires !Seen(inputs, AcpToolCallId(turnId, raw))
    ensures Expected(inputs, turnId, raw) == None
  {
    if inputs != [] {
      SeenStep(inputs, AcpToolCallId(turnId, raw));
      UnseenExpectsNothing(inputs[..|inputs| - 1], turnId, raw);
    }
  }

  // ----- When every event shows the right text -----

  /** The turn of the last start or delta event with the raw id. */
  function LastTurn(inputs: seq<Input>, raw: JsString): Option<nat> {
    if inputs == [] then None
    else
      var last := inputs[|inputs| - 1];
      if IsToolEventOf(last, raw) then Some(last.event.turnId) else LastTurn(inputs[..|inputs| - 1], raw)
  }

  /** No delta continues a call after an event with the same raw id in another turn. */
  ghost predicate Orderly(inputs: seq<Input>) {
    forall i | 0 <= i < |inputs| && IsToolEvent(inputs[i]) && inputs[i].event.ToolCallDelta?
               && Seen(inputs[..i], WireOf(inputs[i])) ::
      LastTurn(inputs[..i], inputs[i].event.toolCallId) == Some(inputs[i].event.turnId)
  }

  lemma {:induction false} OrderlyAccumulates(inputs: seq<Input>, turnId: nat, raw: JsString)
    requires Orderly(inputs) && LastTurn(inputs, raw) == Some(turnId)
    ensures Accumulated(inputs, raw) == Expected(inputs, turnId, raw)
  {
    var front, last := inputs[..|inputs| - 1], inputs[|inputs| - 1];
    OrderlyFront(inputs);
    if !IsToolEventOf(last, raw) {
      OrderlyAccumulates(front, turnId, raw);
    } else if last.event.ToolCallDelta? {
      if Seen(front, WireOf(last)) {
        assert inputs[..|inputs| - 1] == front;
        OrderlyAccumulates(front, turnId, raw);
      } else {
        UnseenExpectsNothing(front, turnId, raw);
        assert [] + Fragment(last.event) == Fragment(last.event);
      }
    }
  }

  lemma OrderlyFront(inputs: seq<Input>)
    requires inputs != [] && Orderly(inputs)
    ensures Orderly(inputs[..|inputs| - 1])
  {
    var front := inputs[..|inputs| - 1];
    forall i | 0 <= i < |front|
      ensures front[i] == inputs[i] && front[..i] == inputs[..i]
    {
    }
  }

  /** The same raw id may come back in later turns: if the inputs are orderly, the client shows after every start or
      delta event exactly what that call should show. */
  lemma ShownAsExpected(turn: Option<nat>, front: seq<Input>, last: Input)
    requires !Run(Start(turn), front).settled && IsToolEvent(last) && Orderly(front + [last])
    ensures var expected := Expected(front + [last], last.event.turnId, last.event.toolCallId);
            expected.Some? && Shows(Run(Start(turn), front + [last]).sent, WireOf(last), expected.value)
  {
    var inputs := front + [last];
    ShownAfter(turn, front, last);
    OrderlyAccumulates(inputs, last.event.turnId, last.event.toolCallId);
  }

  /** The turns of the main agent's start and delta events never go back. */
  ghost predicate TurnsAdvance(inputs: seq<Input>) {
    forall i, j | 0 <= i < j < |inputs| && IsToolEvent(inputs[i]) && IsToolEvent(inputs[j]) ::
      inputs[i].event.turnId <= inputs[j].event.turnId
  }

  lemma SeenAt(front: seq<Input>, i: Input) returns (j: nat)
    requires IsToolEvent(i) && Seen(front, WireOf(i))
    ensures j < |front| && IsToolEventOf(front[j], i.event.toolCallId) && front[j].event.turnId == i.event.turnId
  {
    j :| 0 <= j < |front| && IsToolEvent(front[j]) && WireOf(front[j]) == WireOf(i);
    WireIdInjective(front[j].event.turnId, front[j].event.toolCallId, i.event.turnId, i.event.toolCallId);
  }

  lemma AdvancingAt(inputs: seq<Input>, i: nat)
    requires TurnsAdvance(inputs) && i < |inputs| && IsToolEvent(inputs[i]) && Seen(inputs[..i], WireOf(inputs[i]))
    ensures LastTurn(inputs[..i], inputs[i].event.toolCallId) == Some(inputs[i].event.turnId)
  {
    var front := inputs[..i];
    var j := SeenAt(front, inputs[i]);
    var k := LastTurnAt(front, inputs[i].event.toolCallId, j);
    assert front[j] == inputs[j] && front[k] == inputs[k];
    assert j < k ==> inputs[j].event.turnId <= inputs[k].event.turnId;
  }

  lemma AdvancingIsOrderly(inputs: seq<Input>)
    requires TurnsAdvance(inputs)
    ensures Orderly(inputs)
  {
    forall i | 0 <= i < |inputs| && IsToolEvent(inputs[i]) && inputs[i].event.ToolCallDelta?
               && Seen(inputs[..i], WireOf(inputs[i]))
      ensures LastTurn(inputs[..i], inputs[i].event.toolCallId) == Some(inputs[i].event.turnId)
    {
      AdvancingAt(inputs, i);
    }
  }

  /** Where the last event with a raw id stands. */
  lemma {:induction false} LastTurnAt(inputs: seq<Input>, raw: JsString, j: nat) returns (k: nat)
    requires j < |inputs| && IsToolEventOf(inputs[j], raw)
    ensures j <= k < |inputs| && IsToolEventOf(inputs[k], raw)
    ensures LastTurn(inputs, raw) == Some(inputs[k].event.turnId)
  {
    var n := |inputs| - 1;
    if IsToolEventOf(inputs[n], raw) {
      k := n;
    } else {
      k := LastTurnAt(inputs[..n], raw, j);
    }
  }

  // ----- Exactly when every event shows the right text -----

  /** After input `k`, the client shows what the call of that input should show. */
  ghost predicate ShownAt(turn: Option<nat>, inputs: seq<Input>, k: nat)
    requires k < |inputs| && IsToolEvent(inputs[k])
  {
    var e, upTo := inputs[k].event, inputs[..k] + [inputs[k]];
    Shows(Run(Start(turn), upTo).sent, WireOf(inputs[k]), GetOr(Expected(upTo, e.turnId, e.toolCallId)))
  }

  /** If the input is a delta of a call that has begun, then the call that last used its raw id, maybe in another turn,
      should show the same text as the delta's own call. */
  ghost predicate ContinuesAlike(front: seq<Input>, last: Input) {
    IsToolEvent(last) && last.event.ToolCallDelta? && Seen(front, WireOf(last)) ==>
      var raw := last.event.toolCallId;
      var latest := LastTurn(front, raw);
      latest.Some? && GetOr(Expected(front, latest.value, raw)) == GetOr(Expected(front, last.event.turnId, raw))
  }

  ghost predicate ShownThroughout(turn: Option<nat>, inputs: seq<Input>) {
    forall k | 0 <= k < |inputs| && IsToolEvent(inputs[k]) :: ShownAt(turn, inputs, k)
  }

  ghost predicate ContinuedAlike(inputs: seq<Input>) {
    forall k | 0 <= k < |inputs| :: ContinuesAlike(inputs[..k], inputs[k])
  }

  /** Every accumulator holds what the last call of its raw id should show. */
  ghost predicate Tracks(inputs: seq<Input>) {
    forall raw :: LastTurn(inputs, raw).Some? ==>
      GetOr(Accumulated(inputs, raw)) == GetOr(Expected(inputs, LastTurn(inputs, raw).value, raw))
  }

  lemma {:induction false} SeenHasLastTurn(inputs: seq<Input>, turnId: nat, raw: JsString)
    requires Seen(inputs, AcpToolCallId(turnId, raw))
    ensures LastTurn(inputs, raw).Some?
  {
    var front, last := inputs[..|inputs| - 1], inputs[|inputs| - 1];
    SeenStep(inputs, AcpToolCallId(turnId, raw));
    if IsToolEvent(last) && WireOf(last) == AcpToolCallId(turnId, raw) {
      WireIdInjective(last.event.turnId, last.event.toolCallId, turnId, raw);
    } else {
      SeenHasLastTurn(front, turnId, raw);
    }
  }

  /** While the accumulators track, the next event shows the right text exactly when it continues alike, and then they
      go on tracking. */
  lemma TracksNext(turn: Option<nat>, front: seq<Input>, last: Input)
    requires !Run(Start(turn), front).settled && Tracks(front)
    ensures IsToolEvent(last) ==>
      (Shows(Run(Start(turn), front + [last]).sent, WireOf(last),
             GetOr(Expected(front + [last], last.event.turnId, last.event.toolCallId)))
       <==> ContinuesAlike(front, last))
    ensures ContinuesAlike(front, last) ==> Tracks(front + [last])
  {
    assert (front + [last])[..|front + [last]| - 1] == front;
    if IsToolEvent(last) {
      var e := last.event;
      ShownIsExpectedIff(turn, front, last);
      if Seen(front, WireOf(last)) {
        SeenHasLastTurn(front, e.turnId, e.toolCallId);
      }
      if ContinuesAlike(front, last) {
        TracksAfter(front, last);
      }
    }
  }

  lemma TracksAfter(front: seq<Input>, last: Input)
    requires IsToolEvent(last) && Tracks(front) && ContinuesAlike(front, last)
    ensures Tracks(front + [last])
  {
    var inputs, e := front + [last], last.event;
    assert inputs[..|inputs| - 1] == front;
    if !Seen(front, WireOf(last)) {
      UnseenExpectsNothing(front, e.turnId, e.toolCallId);
    }
    forall raw | LastTurn(inputs, raw).Some?
      ensures GetOr(Accumulated(inputs, raw)) == GetOr(Expected(inputs, LastTurn(inputs, raw).value, raw))
    {
      if raw == e.toolCallId && !e.ToolCallStarted? && !Seen(front, WireOf(last)) {
        assert [] + Fragment(e) == Fragment(e);
      }
    }
  }

  lemma SameBefore(turn: Option<nat>, front: seq<Input>, last: Input, k: nat)
    requires k < |front|
    ensures (front + [last])[..k] == front[..k] && (front + [last])[k] == front[k]
    ensures IsToolEvent(front[k]) ==> (ShownAt(turn, front + [last], k) <==> ShownAt(turn, front, k))
  {
  }

  lemma ThroughoutNext(turn: Option<nat>, front: seq<Input>, last: Input)
    ensures ShownThroughout(turn, front + [last])
       <==> ShownThroughout(turn, front) && (IsToolEvent(last) ==> ShownAt(turn, front + [last], |front|))
  {
    forall k | 0 <= k < |front|
      ensures (front + [last])[k] == front[k]
      ensures IsToolEvent(front[k]) ==> (ShownAt(turn, front + [last], k) <==> ShownAt(turn, front, k))
    {
      SameBefore(turn, front, last, k);
    }
  }

  lemma AlikeNext(front: seq<Input>, last: Input)
    ensures ContinuedAlike(front + [last]) <==> ContinuedAlike(front) && ContinuesAlike(front, last)
  {
    var inputs := front + [last];
    assert inputs[..|front|] == front;
    assert forall k | 0 <= k < |front| :: inputs[..k] == front[..k] && inputs[k] == front[k];
  }

  lemma {:induction false} ShownWhileTracking(turn: Option<nat>, inputs: seq<Input>)
    requires !Run(Start(turn), inputs).settled
    ensures ShownThroughout(turn, inputs) <==> ContinuedAlike(inputs)
    ensures ContinuedAlike(inputs) ==> Tracks(inputs)
  {
    if inputs != [] {
      var front, last := inputs[..|inputs| - 1], inputs[|inputs| - 1];
      OpenBefore(turn, inputs);
      ShownWhileTracking(turn, front);
      assert front + [last] == inputs && inputs[..|front|] == front;
      ThroughoutNext(turn, front, last);
      AlikeNext(front, last);
      if ContinuedAlike(front) {
        TracksNext(turn, front, last);
      }
    }
  }

  lemma OpenBefore(turn: Option<nat>, inputs: seq<Input>)
    requires inputs != [] && !Run(Start(turn), inputs).settled
    ensures !Run(Start(turn), inputs[..|inputs| - 1]).settled
  {
    RunConsistent(Start(turn), inputs[..|inputs| - 1]);
  }

  /** While the prompt is open, the client has shown after every start and delta event what the call should show,
      exactly when every delta that continues a call found the last call of its raw id with the text of its own call. */
  lemma ShownThroughoutIff(turn: Option<nat>, inputs: seq<Input>)
    requires !Run(Start(turn), inputs).settled
    ensures ShownThroughout(turn, inputs) <==> ContinuedAlike(inputs)
  {
    ShownWhileTracking(turn, inputs);
  }

  // ----- Turns that go back -----

  const ID: JsString := [0x58]

  function Delta(turnId: nat, c: CodeUnit): Input {
    Deliver(ToolCallDelta(None, turnId, ID, Some([c])))
  }

  lemma ExampleTexts(front: seq<Input>, last: Input)
    requires front == [Delta(1, 0x61), Delta(2, 0x62)] && last == Delta(1, 0x63)
    ensures Expected(front + [last], 1, ID) == Some([0x61, 0x63])
    ensures Accumulated(front + [last], ID) == Some([0x62, 0x63])
  {
    var none: seq<Input> := [];
    var a := none + [front[0]];
    assert a + [front[1]] == front;
    if WireOf(front[0]) == WireOf(front[1]) {
      WireIdInjective(1, ID, 2, ID);
    }
    SeenStep(a, WireOf(front[1]));
    SeenStep(front, WireOf(last));
    SeenStep(a, WireOf(last));
    assert a[..0] == none && front[..1] == a;
    assert !Seen(a, WireOf(front[1])) && Seen(front, WireOf(last));
    NextTexts(none, front[0]);
    NextTexts(a, front[1]);
    NextTexts(front, last);
    ExpectedSkips(a, front[1], 1, ID);
    assert [0x61] + [0x63] == [0x61, 0x63] && [0x62] + [0x63] == [0x62, 0x63];
  }

  lemma ExpectedSkips(front: seq<Input>, last: Input, turnId: nat, raw: JsString)
    requires !IsToolEventOf(last, raw) || last.event.turnId != turnId
    ensures Expected(front + [last], turnId, raw) == Expected(front, turnId, raw)
  {
    assert (front + [last])[..|front|] == front;
  }

  /** When turns do go back, the client shows text of the other turn: `bc` where `ac` is expected. */
  lemma TurnsBackExample()
    ensures var front := [Delta(1, 0x61), Delta(2, 0x62)];
            var last := Delta(1, 0x63);
            && !Run(Start(None), front).settled
            && Expected(front + [last], 1, ID) == Some([0x61, 0x63])
            && Shows(Run(Start(None), front + [last]).sent, WireOf(last), [0x62, 0x63])
  {
    var front, last := [Delta(1, 0x61), Delta(2, 0x62)], Delta(1, 0x63);
    ExampleTexts(front, last);
    assert front[..1] == [front[0]] && [front[0]][..0] == [];
    ToolEventsKeepOpen(Start(None), front[0].event);
    ToolEventsKeepOpen(Run(Start(None), [front[0]]), front[1].event);
    ShownAfter(None, front, last);
  }
}

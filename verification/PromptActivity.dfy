/** The `promptActive` flag of a v2 session, driven by prompts, turn events, the outcome of the adapter and
    cancellation, and the announcements that a turn is over. */
module PromptActivity {
  import opened Units

  /** What made the session active, and whose a turn is: prompt `p`, or a turn that started without a prompt. */
  datatype Owner = OfPrompt(p: nat) | OfTurn(t: nat)

  /** `since` is the number of prompts accepted before the cancellation arrived, or before the turn started. */
  datatype Cause =
    | ByTurnEnd(of: Owner, since: nat)
    | ByResolution(p: nat)
    | ByRejection(p: nat)
    | ByCancel(since: nat)
    | ByFailedMessage(p: nat)

  /** The activity of `owner` was ended. Every end is announced, except that of a prompt whose message failed: there the
      handler throws instead. */
  datatype End = End(cause: Cause, owner: Owner)

  /** Prompts are numbered from 1 in the order in which they are accepted. `notifying` are those whose message is being
      sent, `running` those the adapter has not settled, `awaiting` those whose turn may still start; `turns` are the
      turns that have started and not ended, and `cancels` the cancellations that wait for the adapter, both with the
      number of prompts accepted when they began. */
  datatype State = State(
    promptActive: bool,
    owner: Owner,
    accepted: nat,
    notifying: set<nat>,
    running: set<nat>,
    awaiting: set<nat>,
    turns: map<Owner, nat>,
    cancels: multiset<nat>,
    ends: seq<End>,
    activations: nat)

  const START := State(false, OfTurn(0), 0, {}, {}, {}, map[], multiset{}, [], 0)

  /** `NoTurn` says that the adapter will start no turn for the prompt any more. */
  datatype Action =
    | Prompt
    | MessageSent(p: nat)
    | MessageFailed(p: nat)
    | TurnStarted(of: Owner)
    | TurnEnded(of: Owner)
    | NoTurn(p: nat)
    | Resolved(p: nat)
    | Rejected(p: nat)
    | CancelArrives
    | CancelResumes(since: nat)

  function Activate(s: State, owner: Owner): State {
    if s.promptActive then s else s.(promptActive := true, owner := owner, activations := s.activations + 1)
  }

  /** `if (!promptActive) return; promptActive = false;` and what follows. */
  function Finish(s: State, cause: Cause): State {
    if s.promptActive then s.(promptActive := false, ends := s.ends + [End(cause, s.owner)]) else s
  }

  /** The turn of a prompt starts once, after the adapter has got the prompt, and maybe after it has settled it. */
  predicate CanStart(s: State, of: Owner) {
    of !in s.turns && (of.OfPrompt? ==> of.p in s.awaiting)
  }

  function StartTurn(s: State, of: Owner): State {
    var awaiting := if of.OfPrompt? then s.awaiting - {of.p} else s.awaiting;
    Activate(s.(turns := s.turns[of := s.accepted], awaiting := awaiting), of)
  }

  function AcceptPrompt(s: State): State {
    var p := s.accepted + 1;
    Activate(s.(accepted := p, notifying := s.notifying + {p}), OfPrompt(p))
  }

  function Step(s: State, a: Action): State {
    match a
    case Prompt => if s.promptActive then s else AcceptPrompt(s)
    case MessageSent(p) =>
      if p in s.notifying then
        s.(notifying := s.notifying - {p}, running := s.running + {p}, awaiting := s.awaiting + {p})
      else s
    case MessageFailed(p) =>
      if p in s.notifying then Finish(s.(notifying := s.notifying - {p}), ByFailedMessage(p)) else s
    case TurnStarted(of) => if CanStart(s, of) then StartTurn(s, of) else s
    case TurnEnded(of) =>
      if of in s.turns then Finish(s.(turns := s.turns - {of}), ByTurnEnd(of, s.turns[of])) else s
    case NoTurn(p) => s.(awaiting := s.awaiting - {p})
    case Resolved(p) =>
      if p in s.running then Finish(s.(running := s.running - {p}), ByResolution(p)) else s
    case Rejected(p) =>
      if p in s.running then Finish(s.(running := s.running - {p}), ByRejection(p)) else s
    case CancelArrives => s.(cancels := s.cancels + multiset{s.accepted})
    case CancelResumes(since) =>
      if since in s.cancels then Finish(s.(cancels := s.cancels - multiset{since}), ByCancel(since)) else s
  }

  function Run(actions: seq<Action>): State {
    if actions == [] then START else Step(Run(actions[..|actions| - 1]), actions[|actions| - 1])
  }

  /** Only `promptActive` steers the handlers; the other fields record what the ends are about. */
  class V2Session {
    var promptActive: bool
    var ends: seq<End>
    var owner: Owner
    var accepted: nat
    ghost var notifying: set<nat>
    ghost var running: set<nat>
    ghost var awaiting: set<nat>
    ghost var turns: map<Owner, nat>
    ghost var cancels: multiset<nat>
    ghost var activations: nat

    constructor ()
      ensures View() == START
    {
      promptActive, ends, owner, accepted := false, [], OfTurn(0), 0;
      notifying, running, awaiting, turns, cancels, activations := {}, {}, {}, map[], multiset{}, 0;
    }

    ghost function View(): State
      reads this
    {
      State(promptActive, owner, accepted, notifying, running, awaiting, turns, cancels, ends, activations)
    }

    /** The prompt handler up to its notification; refused while the session is active. */
    method OnPrompt() returns (ok: bool)
      modifies this
      ensures ok == !old(promptActive)
      ensures View() == Step(old(View()), Prompt)
    {
      if promptActive {
        return false;
      }
      promptActive := true;
      accepted, activations := accepted + 1, activations + 1;
      owner, notifying := OfPrompt(accepted), notifying + {accepted};
      return true;
    }

    /** The message of prompt `p` could not be sent; the flag goes off, whoever set it. */
    method OnMessageFailed(p: nat)
      requires p in notifying
      modifies this
      ensures View() == Step(old(View()), MessageFailed(p))
    {
      notifying := notifying - {p};
      if promptActive {
        ends := ends + [End(ByFailedMessage(p), owner)];
      }
      promptActive := false;
    }

    /** The handler does not look at whose turn it is. */
    method OnTurnStarted(of: Owner)
      requires CanStart(View(), of)
      modifies this
      ensures View() == Step(old(View()), TurnStarted(of))
    {
      if !promptActive {
        owner, activations := of, activations + 1;
      }
      turns, awaiting := turns[of := accepted], if of.OfPrompt? then awaiting - {of.p} else awaiting;
      promptActive := true;
    }

    method OnTurnEnded(of: Owner, since: nat)
      requires of in turns && turns[of] == since
      modifies this
      ensures View() == Step(old(View()), TurnEnded(of))
    {
      turns := turns - {of};
      if promptActive {
        promptActive := false;
        ends := ends + [End(ByTurnEnd(of, since), owner)];
      }
    }

    method OnPromptResolved(p: nat)
      requires p in running
      modifies this
      ensures View() == Step(old(View()), Resolved(p))
    {
      running := running - {p};
      if !promptActive {
        return;
      }
      promptActive := false;
      ends := ends + [End(ByResolution(p), owner)];
    }

    method OnPromptRejected(p: nat)
      requires p in running
      modifies this
      ensures View() == Step(old(View()), Rejected(p))
    {
      running := running - {p};
      if !promptActive {
        return;
      }
      promptActive := false;
      ends := ends + [End(ByRejection(p), owner)];
    }

    /** The cancel handler up to its `await`; `since` is what its continuation is about. */
    method OnCancelArrived() returns (since: nat)
      modifies this`cancels
      ensures since == accepted && View() == Step(old(View()), CancelArrives)
    {
      since := accepted;
      cancels := cancels + multiset{since};
    }

    /** The cancel handler after the adapter has cancelled. */
    method OnCancelResumed(since: nat)
      requires since in cancels
      modifies this
      ensures View() == Step(old(View()), CancelResumes(since))
    {
      cancels := cancels - multiset{since};
      if promptActive {
        promptActive := false;
        ends := ends + [End(ByCancel(since), owner)];
      }
    }
  }

  /** Every end turns the flag off, and a step makes at most one. */
  lemma EndsFlip(s: State, a: Action)
    requires Step(s, a).ends != s.ends
    ensures s.promptActive && !Step(s, a).promptActive && |Step(s, a).ends| == |s.ends| + 1
  {
  }

  ghost predicate Balanced(s: State) {
    s.activations == |s.ends| + (if s.promptActive then 1 else 0)
  }

  lemma StepBalances(s: State, a: Action)
    requires Balanced(s)
    ensures Balanced(Step(s, a))
  {
  }

  /** Every activation has ended once, or is still going on: over any run the flag is never announced off twice without
      having been turned on between. */
  lemma {:induction false} ActivationsBalance(actions: seq<Action>)
    ensures Balanced(Run(actions))
  {
    if actions != [] {
      ActivationsBalance(actions[..|actions| - 1]);
      StepBalances(Run(actions[..|actions| - 1]), actions[|actions| - 1]);
    }
  }

  // ----- When the flag is on -----

  predicate TurnsOn(s: State, a: Action) {
    a.Prompt? || (a.TurnStarted? && CanStart(s, a.of))
  }

  predicate TurnsOff(s: State, a: Action) {
    match a
    case TurnEnded(of) => of in s.turns
    case MessageFailed(p) => p in s.notifying
    case Resolved(p) => p in s.running
    case Rejected(p) => p in s.running
    case CancelResumes(since) => since in s.cancels
    case _ => false
  }

  /** Action `i` turns the flag on, and no later one turns it off. */
  ghost predicate OnSince(actions: seq<Action>, i: nat) {
    && i < |actions| && TurnsOn(Run(actions[..i]), actions[i])
    && forall j | i < j < |actions| :: !TurnsOff(Run(actions[..j]), actions[j])
  }

  lemma OnSinceNext(front: seq<Action>, a: Action, i: nat)
    requires i < |front|
    ensures OnSince(front + [a], i) <==> OnSince(front, i) && !TurnsOff(Run(front), a)
  {
    var actions := front + [a];
    assert actions[..|front|] == front;
    forall j | 0 <= j < |front|
      ensures actions[..j] == front[..j] && actions[j] == front[j]
    {
    }
  }

  lemma OnSinceLast(front: seq<Action>, a: Action)
    ensures OnSince(front + [a], |front|) <==> TurnsOn(Run(front), a)
  {
    assert (front + [a])[..|front|] == front;
  }

  lemma FlagNext(s: State, a: Action)
    ensures Step(s, a).promptActive <==> TurnsOn(s, a) || (s.promptActive && !TurnsOff(s, a))
  {
  }

  /** The flag is on exactly when some action has turned it on and none has turned it off since. */
  lemma {:induction false} FlagIsOnSince(actions: seq<Action>)
    ensures Run(actions).promptActive <==> exists i :: OnSince(actions, i)
  {
    if actions != [] {
      var front, a := actions[..|actions| - 1], actions[|actions| - 1];
      assert front + [a] == actions;
      FlagIsOnSince(front);
      FlagNext(Run(front), a);
      OnSinceLast(front, a);
      forall i: nat | i < |front|
        ensures OnSince(front + [a], i) <==> OnSince(front, i) && !TurnsOff(Run(front), a)
      {
        OnSinceNext(front, a, i);
      }
    }
  }

  // ----- Which actions end an activity -----

  /** The cause names what the action is. */
  predicate Names(cause: Cause, a: Action) {
    match cause
    case ByTurnEnd(of, _) => a == TurnEnded(of)
    case ByResolution(p) => a == Resolved(p)
    case ByRejection(p) => a == Rejected(p)
    case ByCancel(since) => a == CancelResumes(since)
    case ByFailedMessage(p) => a == MessageFailed(p)
  }

  /** Action `j` finds the flag on and turns it off. */
  function EndsIn(actions: seq<Action>): nat -> bool {
    (j: nat) => j < |actions| && Run(actions[..j]).promptActive && TurnsOff(Run(actions[..j]), actions[j])
  }

  /** The ends are those that the actions at the positions `at` make, one each, of the activity that was going on. */
  ghost predicate MadeAt(ends: seq<End>, actions: seq<Action>, at: seq<nat>) {
    && |ends| == |at|
    && forall i | 0 <= i < |at| ::
         && at[i] < |actions| && Names(ends[i].cause, actions[at[i]])
         && ends[i].owner == Run(actions[..at[i]]).owner
  }

  lemma StepEnds(s: State, a: Action)
    ensures var t := Step(s, a);
            if s.promptActive && TurnsOff(s, a) then
              && |t.ends| == |s.ends| + 1 && t.ends[..|s.ends|] == s.ends
              && t.ends[|s.ends|].owner == s.owner && Names(t.ends[|s.ends|].cause, a)
            else t.ends == s.ends
  {
  }

  lemma EndsBefore(actions: seq<Action>, at: seq<nat>, n: nat)
    requires n <= |actions| && Enumerates(at, n, EndsIn(actions))
    ensures Enumerates(at, n, EndsIn(actions[..n]))
  {
    forall j: nat | j < n
      ensures EndsIn(actions[..n])(j) == EndsIn(actions)(j)
    {
      assert actions[..n][..j] == actions[..j];
    }
  }

  lemma MadeEarlier(ends: seq<End>, front: seq<Action>, actions: seq<Action>, at: seq<nat>)
    requires MadeAt(ends, front, at) && front <= actions
    ensures MadeAt(ends, actions, at)
  {
    forall i | 0 <= i < |at|
      ensures actions[..at[i]] == front[..at[i]] && actions[at[i]] == front[at[i]]
    {
    }
  }

  /** Over every run: the activity is ended by exactly the actions that find the flag on and turn it off, once each and
      in order, and every end is recorded with the right cause. */
  lemma {:induction false} EndsOfRun(actions: seq<Action>, at: seq<nat>)
    requires Enumerates(at, |actions|, EndsIn(actions))
    ensures MadeAt(Run(actions).ends, actions, at)
  {
    if actions == [] {
      RoomBetween(at, -1, 0);
    } else {
      var n := |actions| - 1;
      var front := EnumeratesLast(at, n + 1, EndsIn(actions));
      EndsBefore(actions, front, n);
      EndsOfRun(actions[..n], front);
      MadeNext(actions, n, Run(actions[..n]), Run(actions), front, at);
    }
  }

  lemma MadeNext(actions: seq<Action>, n: nat, s: State, t: State, front: seq<nat>, at: seq<nat>)
    requires n == |actions| - 1 && s == Run(actions[..n]) && t == Step(s, actions[n])
    requires MadeAt(s.ends, actions[..n], front)
    requires at == if s.promptActive && TurnsOff(s, actions[n]) then front + [n] else front
    ensures MadeAt(t.ends, actions, at)
  {
    MadeEarlier(s.ends, actions[..n], actions, front);
    StepEnds(s, actions[n]);
    if s.promptActive && TurnsOff(s, actions[n]) {
      MadeOneMore(s.ends, t.ends, actions, n, front);
    }
  }

  lemma MadeOneMore(ends: seq<End>, more: seq<End>, actions: seq<Action>, n: nat, front: seq<nat>)
    requires MadeAt(ends, actions, front) && n < |actions| && |more| == |ends| + 1 && more[..|ends|] == ends
    requires Names(more[|ends|].cause, actions[n]) && more[|ends|].owner == Run(actions[..n]).owner
    ensures MadeAt(more, actions, front + [n])
  {
    assert forall i | 0 <= i < |ends| :: more[i] == more[..|ends|][i];
  }

  // ----- Whose activity is ended -----

  /** The prompt that a cause belongs to: its own, or else the last one accepted before the cause began. */
  function Origin(cause: Cause): nat {
    match cause
    case ByTurnEnd(of, since) => if of.OfPrompt? then of.p else since
    case ByResolution(p) => p
    case ByRejection(p) => p
    case ByCancel(since) => since
    case ByFailedMessage(p) => p
  }

  /** The activity of a prompt is ended only by what belongs to that prompt: never by the outcome or the turn of
      another, nor by a cancellation or a turn from before the prompt was accepted. */
  ghost predicate Attributed(ends: seq<End>) {
    forall i | 0 <= i < |ends| && ends[i].owner.OfPrompt? :: Origin(ends[i].cause) == ends[i].owner.p
  }

  /** Nothing that has begun is still under way. */
  predicate Quiet(s: State) {
    s.notifying == {} && s.running == {} && s.awaiting == {} && s.turns == map[] && s.cancels == multiset{}
  }

  /** The number of a turn's prompt, or of the last one accepted before the turn started. */
  function TurnOrigin(turns: map<Owner, nat>, of: Owner): nat
    requires of in turns
  {
    if of.OfPrompt? then of.p else turns[of]
  }

  /** Everything under way, and the activity, belongs to the last prompt accepted. */
  ghost predicate AllOfLast(s: State) {
    PromptsOfLast(s) && TurnsOfLast(s) && forall c | c in s.cancels :: c == s.accepted
  }

  lemma QuietIsAllOfLast(s: State)
    requires Quiet(s) && !s.promptActive
    ensures AllOfLast(AcceptPrompt(s))
  {
  }

  lemma StepAttributes(s: State, a: Action)
    requires Attributed(s.ends) && AllOfLast(s)
    requires a.Prompt? && !s.promptActive ==> Quiet(s)
    ensures Attributed(Step(s, a).ends) && AllOfLast(Step(s, a))
  {
    if a.Prompt? && !s.promptActive {
      QuietIsAllOfLast(s);
    } else {
      EndAttributes(s, a);
      StepStaysOfLast(s, a);
    }
  }

  lemma EndAttributes(s: State, a: Action)
    requires Attributed(s.ends) && AllOfLast(s)
    ensures Attributed(Step(s, a).ends)
  {
    if Step(s, a).ends != s.ends {
      var ends := Step(s, a).ends;
      StepEnds(s, a);
      EndHasOrigin(s, a);
      assert forall i | 0 <= i < |s.ends| :: ends[i] == ends[..|s.ends|][i];
    }
  }

  lemma EndHasOrigin(s: State, a: Action)
    requires AllOfLast(s) && Step(s, a).ends != s.ends
    ensures var end := Step(s, a).ends[|s.ends|];
            Origin(end.cause) == s.accepted && (end.owner.OfPrompt? ==> end.owner.p == s.accepted)
  {
  }

  ghost predicate PromptsOfLast(s: State) {
    && (forall p | p in s.notifying || p in s.running || p in s.awaiting :: p == s.accepted)
    && (s.promptActive && s.owner.OfPrompt? ==> s.owner.p == s.accepted)
  }

  ghost predicate TurnsOfLast(s: State) {
    forall of | of in s.turns :: TurnOrigin(s.turns, of) == s.accepted
  }

  lemma PromptsStay(s: State, a: Action)
    requires PromptsOfLast(s) && (a.Prompt? ==> s.promptActive)
    ensures PromptsOfLast(Step(s, a)) && Step(s, a).accepted == s.accepted
  {
  }

  lemma TurnsStay(s: State, a: Action)
    requires PromptsOfLast(s) && TurnsOfLast(s) && (a.Prompt? ==> s.promptActive)
    ensures TurnsOfLast(Step(s, a))
  {
    var t := Step(s, a);
    forall of | of in t.turns
      ensures TurnOrigin(t.turns, of) == s.accepted && t.accepted == s.accepted
    {
      assert of in s.turns ==> TurnOrigin(s.turns, of) == s.accepted;
    }
  }

  lemma StepStaysOfLast(s: State, a: Action)
    requires AllOfLast(s) && (a.Prompt? ==> s.promptActive)
    ensures AllOfLast(Step(s, a))
  {
    PromptsStay(s, a);
    TurnsStay(s, a);
    CancelsStay(s, a);
  }

  lemma CancelsStay(s: State, a: Action)
    requires (forall c | c in s.cancels :: c == s.accepted) && (a.Prompt? ==> s.promptActive)
    ensures forall c | c in Step(s, a).cancels :: c == Step(s, a).accepted
  {
    forall c | c in Step(s, a).cancels
      ensures c == Step(s, a).accepted
    {
      assert c == s.accepted || c in s.cancels;
    }
  }

  /** Prompts come one at a time: none while anything is under way. */
  ghost predicate OneAtATime(actions: seq<Action>) {
    forall i | 0 <= i < |actions| && actions[i].Prompt? ::
      !Run(actions[..i]).promptActive ==> Quiet(Run(actions[..i]))
  }

  lemma OneAtATimeFront(actions: seq<Action>)
    requires OneAtATime(actions) && actions != []
    ensures OneAtATime(actions[..|actions| - 1])
  {
    var front := actions[..|actions| - 1];
    assert forall i | 0 <= i < |front| :: front[..i] == actions[..i];
  }

  lemma {:induction false} OneAtATimeAttributes(actions: seq<Action>)
    requires OneAtATime(actions)
    ensures Attributed(Run(actions).ends) && AllOfLast(Run(actions))
  {
    if actions != [] {
      var n := |actions| - 1;
      OneAtATimeFront(actions);
      OneAtATimeAttributes(actions[..n]);
      StepAttributes(Run(actions[..n]), actions[n]);
    }
  }

  lemma RunSnoc(actions: seq<Action>, a: Action)
    ensures Run(actions + [a]) == Step(Run(actions), a)
  {
    assert (actions + [a])[..|actions|] == actions;
  }

  // ----- When a prompt may be accepted -----

  /** What can happen after the prompt until the next one is tried. */
  ghost predicate NoPrompt(more: seq<Action>) {
    forall i | 0 <= i < |more| :: !more[i].Prompt?
  }

  lemma {:induction false} LaterAttributes(actions: seq<Action>, more: seq<Action>)
    requires Attributed(Run(actions).ends) && AllOfLast(Run(actions)) && NoPrompt(more)
    ensures Attributed(Run(actions + more).ends) && AllOfLast(Run(actions + more))
  {
    if more == [] {
      assert actions + more == actions;
    } else {
      var n := |more| - 1;
      LaterAttributes(actions, more[..n]);
      RunMore(actions, more, n);
      StepAttributes(Run(actions + more[..n]), more[n]);
    }
  }

  lemma RunMore(actions: seq<Action>, more: seq<Action>, n: nat)
    requires n == |more| - 1
    ensures Run(actions + more) == Step(Run(actions + more[..n]), more[n])
  {
    assert actions + more == (actions + more[..n]) + [more[n]];
    RunSnoc(actions + more[..n], more[n]);
  }

  /** No number is larger than that of the last prompt accepted. */
  ghost predicate Bounded(s: State) {
    && (forall p | p in s.notifying || p in s.running || p in s.awaiting :: p <= s.accepted)
    && (forall of | of in s.turns :: TurnOrigin(s.turns, of) <= s.accepted)
    && (forall c | c in s.cancels :: c <= s.accepted)
  }

  lemma StepBounded(s: State, a: Action)
    requires Bounded(s)
    ensures Bounded(Step(s, a))
  {
    var t := Step(s, a);
    forall of | of in t.turns
      ensures TurnOrigin(t.turns, of) <= t.accepted
    {
      assert of in s.turns ==> TurnOrigin(s.turns, of) <= s.accepted;
    }
  }

  lemma {:induction false} RunBounded(actions: seq<Action>)
    ensures Bounded(Run(actions))
  {
    if actions != [] {
      RunBounded(actions[..|actions| - 1]);
      StepBounded(Run(actions[..|actions| - 1]), actions[|actions| - 1]);
    }
  }

  /** The action ends the activity, with a cause of the given origin. */
  ghost predicate EndsBy(s: State, a: Action, origin: nat) {
    && !a.Prompt?
    && exists cause :: Step(s, a).ends == s.ends + [End(cause, s.owner)] && Origin(cause) == origin
  }

  lemma TurnEnds(s: State, of: Owner)
    requires s.promptActive && of in s.turns
    ensures EndsBy(s, TurnEnded(of), TurnOrigin(s.turns, of))
  {
    assert Step(s, TurnEnded(of)).ends == s.ends + [End(ByTurnEnd(of, s.turns[of]), s.owner)];
  }

  lemma CancelEnds(s: State, since: nat)
    requires s.promptActive && since in s.cancels
    ensures EndsBy(s, CancelResumes(since), since)
  {
    assert Step(s, CancelResumes(since)).ends == s.ends + [End(ByCancel(since), s.owner)];
  }

  lemma ResolutionEnds(s: State, p: nat)
    requires s.promptActive && p in s.running
    ensures EndsBy(s, Resolved(p), p)
  {
    assert Step(s, Resolved(p)).ends == s.ends + [End(ByResolution(p), s.owner)];
  }

  /** The two actions end the activity, with a cause of the given origin. */
  ghost predicate EndsNext(s: State, a: Action, b: Action, origin: nat) {
    var t := Step(s, a);
    !a.Prompt? && t.ends == s.ends && t.owner == s.owner && EndsBy(t, b, origin)
  }

  /** Something is under way besides the message of the last prompt accepted. */
  ghost predicate EarlierUnderWay(s: State) {
    || s.turns != map[] || s.cancels != multiset{} || s.running != {} || s.awaiting != {}
    || exists p | p in s.notifying :: p != s.accepted
  }

  /** What is under way can end the activity. */
  lemma UnderWayEnds(s: State, accepted: nat) returns (a: Action, b: Action, origin: nat)
    requires s.promptActive && s.accepted == accepted + 1 && EarlierUnderWay(s)
    requires forall p | p in s.running || p in s.awaiting || (p in s.notifying && p != s.accepted) :: p <= accepted
    requires forall of | of in s.turns :: TurnOrigin(s.turns, of) <= accepted
    requires forall c | c in s.cancels :: c <= accepted
    ensures origin <= accepted && EndsNext(s, a, b, origin)
  {
    if of :| of in s.turns {
      a, b, origin := CancelArrives, TurnEnded(of), TurnOrigin(s.turns, of);
      TurnEnds(Step(s, a), of);
    } else if c :| c in s.cancels {
      a, b, origin := CancelArrives, CancelResumes(c), c;
      CancelEnds(Step(s, a), c);
    } else if p :| p in s.running {
      a, b, origin := CancelArrives, Resolved(p), p;
      ResolutionEnds(Step(s, a), p);
    } else if p :| p in s.awaiting {
      a, b, origin := TurnStarted(OfPrompt(p)), TurnEnded(OfPrompt(p)), p;
      TurnEnds(Step(s, a), OfPrompt(p));
    } else {
      var p :| p in s.notifying && p != s.accepted;
      a, b, origin := MessageSent(p), Resolved(p), p;
      ResolutionEnds(Step(s, a), p);
    }
  }

  lemma RunTwo(actions: seq<Action>, a: Action, b: Action)
    ensures Run(actions + [a, b]) == Step(Step(Run(actions), a), b)
  {
    RunSnoc(actions, a);
    RunSnoc(actions + [a], b);
    assert actions + [a, b] == actions + [a] + [b];
  }

  /** An idle session accepts a prompt whose activity will not be ended by anything else than what belongs to it,
      whatever happens until the next prompt, exactly when nothing from before is under way: no message, no unsettled
      prompt, no turn, none that may still start, and no cancellation. */
  lemma SafeToAcceptIff(actions: seq<Action>)
    requires !Run(actions).promptActive && Attributed(Run(actions).ends)
    ensures (forall more | NoPrompt(more) :: Attributed(Run(actions + [Prompt] + more).ends)) <==> Quiet(Run(actions))
  {
    var s, accepted := Run(actions), actions + [Prompt];
    RunSnoc(actions, Prompt);
    if Quiet(s) {
      QuietIsAllOfLast(s);
      forall more | NoPrompt(more)
        ensures Attributed(Run(accepted + more).ends)
      {
        LaterAttributes(accepted, more);
      }
    } else {
      RunBounded(actions);
      var t := Run(accepted);
      var a, b, origin := UnderWayEnds(t, s.accepted);
      RunTwo(accepted, a, b);
      assert NoPrompt([a, b]);
      assert Run(accepted + [a, b]).ends[|t.ends|].owner == OfPrompt(s.accepted + 1);
    }
  }

  // ----- Ends that reach the wrong prompt -----

  /** A first prompt that is cancelled before the adapter settles it. */
  const CANCELLED: seq<Action> := [] + [Prompt] + [MessageSent(1)] + [CancelArrives] + [CancelResumes(1)]

  lemma CancelledFirst()
    ensures Run(CANCELLED)
         == State(false, OfPrompt(1), 1, {}, {1}, {1}, map[], multiset{}, [End(ByCancel(1), OfPrompt(1))], 1)
  {
    RunSnoc([], Prompt);
    RunSnoc([] + [Prompt], MessageSent(1));
    RunSnoc([] + [Prompt] + [MessageSent(1)], CancelArrives);
    RunSnoc([] + [Prompt] + [MessageSent(1)] + [CancelArrives], CancelResumes(1));
  }

  /** When the next prompt starts before the adapter settles a cancelled one, the outcome of the cancelled one is
      announced as the end of the next. */
  lemma StaleOutcomeExample()
    ensures var s := Run(CANCELLED + [Prompt] + [MessageSent(2)] + [Resolved(1)]);
            && s.ends == [End(ByCancel(1), OfPrompt(1)), End(ByResolution(1), OfPrompt(2))]
            && 2 in s.running && !s.promptActive
  {
    CancelledFirst();
    RunSnoc(CANCELLED, Prompt);
    RunSnoc(CANCELLED + [Prompt], MessageSent(2));
    RunSnoc(CANCELLED + [Prompt] + [MessageSent(2)], Resolved(1));
  }

  /** The turn of a cancelled prompt ends after the next prompt has started, and is announced as its end. */
  lemma StaleTurnExample()
    ensures var s := Run(CANCELLED + [TurnStarted(OfPrompt(1))] + [CancelArrives] + [CancelResumes(1)] + [Prompt]
                         + [TurnEnded(OfPrompt(1))]);
            && |s.ends| == 3 && s.ends[2] == End(ByTurnEnd(OfPrompt(1), 1), OfPrompt(2))
            && 2 in s.notifying && !s.promptActive
  {
    var a1 := CANCELLED + [TurnStarted(OfPrompt(1))];
    var a2 := a1 + [CancelArrives] + [CancelResumes(1)];
    CancelledFirst();
    RunSnoc(CANCELLED, TurnStarted(OfPrompt(1)));
    RunSnoc(a1, CancelArrives);
    RunSnoc(a1 + [CancelArrives], CancelResumes(1));
    RunSnoc(a2, Prompt);
    RunSnoc(a2 + [Prompt], TurnEnded(OfPrompt(1)));
  }

  /** A first prompt whose turn has started. */
  const STARTED: seq<Action> := [] + [Prompt] + [MessageSent(1)] + [TurnStarted(OfPrompt(1))]

  /** A first prompt is cancelled; its turn ends and the adapter settles it before the cancel handler goes on. The next
      prompt starts, and the cancellation of the first is announced as its end. */
  lemma StaleCancelExample()
    ensures var s := Run(STARTED + [CancelArrives] + [TurnEnded(OfPrompt(1))] + [Resolved(1)] + [Prompt]
                         + [CancelResumes(1)]);
            && s.ends == [End(ByTurnEnd(OfPrompt(1), 1), OfPrompt(1)), End(ByCancel(1), OfPrompt(2))]
            && 2 in s.notifying && !s.promptActive
  {
    var a2 := STARTED + [CancelArrives] + [TurnEnded(OfPrompt(1))] + [Resolved(1)];
    EndedFirst();
    RunSnoc(a2, Prompt);
    RunSnoc(a2 + [Prompt], CancelResumes(1));
  }

  lemma EndedFirst()
    ensures Run(STARTED + [CancelArrives] + [TurnEnded(OfPrompt(1))] + [Resolved(1)])
         == State(false, OfPrompt(1), 1, {}, {}, {}, map[], multiset{1},
                  [End(ByTurnEnd(OfPrompt(1), 1), OfPrompt(1))], 1)
  {
    StartedFirst();
    RunSnoc(STARTED, CancelArrives);
    RunSnoc(STARTED + [CancelArrives], TurnEnded(OfPrompt(1)));
    RunSnoc(STARTED + [CancelArrives] + [TurnEnded(OfPrompt(1))], Resolved(1));
  }

  lemma StartedFirst()
    ensures Run(STARTED)
         == State(true, OfPrompt(1), 1, {}, {1}, {}, map[OfPrompt(1) := 1], multiset{}, [], 1)
  {
    RunSnoc([], Prompt);
    RunSnoc([] + [Prompt], MessageSent(1));
    RunSnoc([] + [Prompt] + [MessageSent(1)], TurnStarted(OfPrompt(1)));
  }
}

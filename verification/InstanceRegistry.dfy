/** One registration of the server instance registry: heartbeats, updates and the release of the instance file, as the
    atomic steps between two awaits. */
module InstanceRegistry {
  import opened Units

  /** A write that has passed its check: its rename has not happened yet, has happened, or never will. */
  datatype Write = Writing(port: nat) | Renamed | Failed

  /** How far `release` has come: not called, waiting for writes, woken by the last of them, at the unlink, finished. */
  datatype Release = NotCalled | Waiting | Woken | Unlinking | Finished(unlinked: bool)

  /** `file` is the port in the instance file, if that exists; `drainCallback` says that `onWritesDrained` is set. */
  datatype State = State(
    port: nat,
    released: bool,
    timerActive: bool,
    inflightWrites: int,
    drainCallback: bool,
    writes: map<nat, Write>,
    release: Release,
    file: Option<nat>)

  /** After `register` has returned. */
  function Registered(port: nat): State {
    State(port, false, true, 0, false, map[], NotCalled, Some(port))
  }

  /** `id` names a write; every new write gets an unused one. */
  datatype Action =
    | Heartbeat(id: nat)
    | Update(id: nat, port: Option<nat>)
    | Rename(id: nat)
    | FailWrite(id: nat)
    | EndWrite(id: nat)
    | CallRelease
    | ResumeRelease
    | Unlink
    | FailUnlink

  // ----- The steps, as functions -----

  /** The synchronous part of `write`, up to the first file operation. */
  function BeginWrite(s: State, id: nat): State {
    if s.released || id in s.writes then s
    else s.(inflightWrites := s.inflightWrites + 1, writes := s.writes[id := Writing(s.port)])
  }

  /** The `finally` of `write`. */
  function Finally(s: State, id: nat): State {
    var n := s.inflightWrites - 1;
    s.(inflightWrites := n, writes := s.writes - {id},
       release := if n == 0 && s.drainCallback && s.release.Waiting? then Woken else s.release)
  }

  function CallReleaseStep(s: State): State {
    if s.released then s
    else if s.inflightWrites > 0 then
      s.(released := true, timerActive := false, drainCallback := true, release := Waiting)
    else s.(released := true, timerActive := false, release := Unlinking)
  }

  function Step(s: State, a: Action): State {
    match a
    case Heartbeat(id) => if s.timerActive then BeginWrite(s, id) else s
    case Update(id, port) =>
      if s.released then s
      else BeginWrite(if port.Some? then s.(port := port.value) else s, id)
    case Rename(id) =>
      if id in s.writes && s.writes[id].Writing? then
        s.(file := Some(s.writes[id].port), writes := s.writes[id := Renamed])
      else s
    case FailWrite(id) =>
      if id in s.writes && s.writes[id].Writing? then s.(writes := s.writes[id := Failed]) else s
    case EndWrite(id) => if id in s.writes && !s.writes[id].Writing? then Finally(s, id) else s
    case CallRelease => CallReleaseStep(s)
    case ResumeRelease => if s.release.Woken? then s.(release := Unlinking) else s
    case Unlink => if s.release.Unlinking? then s.(file := None, release := Finished(true)) else s
    case FailUnlink => if s.release.Unlinking? then s.(release := Finished(false)) else s
  }

  function Run(s: State, actions: seq<Action>): State {
    if actions == [] then s else Step(Run(s, actions[..|actions| - 1]), actions[|actions| - 1])
  }

  // ----- The registration -----

  class Registration {
    var port: nat
    var released: bool
    var timerActive: bool
    var inflightWrites: int
    var drainCallback: bool
    ghost var writes: map<nat, Write>
    ghost var release: Release
    ghost var file: Option<nat>

    constructor (port: nat)
      ensures View() == Registered(port)
    {
      this.port, released, timerActive, inflightWrites, drainCallback := port, false, true, 0, false;
      writes, release, file := map[], NotCalled, Some(port);
    }

    ghost function View(): State
      reads this
    {
      State(port, released, timerActive, inflightWrites, drainCallback, writes, release, file)
    }

    method StartWrite(ghost id: nat)
      requires id !in writes
      modifies this
      ensures View() == BeginWrite(old(View()), id)
    {
      if released {
        return;
      }
      inflightWrites := inflightWrites + 1;
      writes := writes[id := Writing(port)];
    }

    method HeartbeatTick(ghost id: nat)
      requires id !in writes && timerActive
      modifies this
      ensures View() == Step(old(View()), Heartbeat(id))
    {
      StartWrite(id);
    }

    method UpdatePort(patch: Option<nat>, ghost id: nat)
      requires id !in writes
      modifies this
      ensures View() == Step(old(View()), Update(id, patch))
    {
      if released {
        return;
      }
      if patch.Some? {
        port := patch.value;
      }
      StartWrite(id);
    }

    /** The `finally` of a write whose file operations have ended, one way or the other. */
    method FinishWrite(ghost id: nat)
      requires id in writes && !writes[id].Writing?
      modifies this
      ensures View() == Step(old(View()), EndWrite(id))
    {
      inflightWrites := inflightWrites - 1;
      writes := writes - {id};
      if inflightWrites == 0 && drainCallback {
        release := if release.Waiting? then Woken else release;
      }
    }

    /** `release`, up to its first await; `mustWait` tells whether it waits for writes. */
    method ReleaseFile() returns (mustWait: bool)
      modifies this
      ensures View() == Step(old(View()), CallRelease)
      ensures mustWait == (!old(released) && old(inflightWrites) > 0)
    {
      mustWait := false;
      if released {
        return;
      }
      released := true;
      timerActive := false;
      if inflightWrites > 0 {
        drainCallback := true;
        release := Waiting;
        return true;
      }
      release := Unlinking;
    }
  }

  // ----- What every step keeps -----

  ghost predicate Invariant(s: State) {
    && s.inflightWrites == |s.writes|
    && s.timerActive == !s.released
    && (s.release.NotCalled? <==> !s.released)
    && (s.release.Waiting? ==> s.drainCallback && s.inflightWrites > 0)
    && (s.release.Woken? || s.release.Unlinking? || s.release.Finished? ==> s.inflightWrites == 0)
    && (s.release == Finished(true) ==> s.file.None?)
  }

  lemma WriteCount(writes: map<nat, Write>, id: nat, w: Write)
    ensures |writes[id := w]| == |writes| + (if id in writes then 0 else 1)
    ensures id in writes ==> |writes - {id}| == |writes| - 1
  {
    assert writes[id := w].Keys == writes.Keys + {id};
    assert (writes - {id}).Keys == writes.Keys - {id};
    assert |writes[id := w].Keys| == |writes.Keys| + (if id in writes then 0 else 1);
    if id in writes {
      assert |(writes - {id}).Keys| == |writes.Keys| - 1;
    }
  }

  lemma BeginKeepsInvariant(s: State, id: nat)
    requires Invariant(s)
    ensures Invariant(BeginWrite(s, id))
  {
    WriteCount(s.writes, id, Writing(s.port));
  }

  lemma FinallyKeepsInvariant(s: State, id: nat)
    requires Invariant(s) && id in s.writes
    ensures Invariant(Finally(s, id))
  {
    WriteCount(s.writes, id, Failed);
  }

  lemma StepKeepsInvariant(s: State, a: Action)
    requires Invariant(s)
    ensures Invariant(Step(s, a))
  {
    match a
    case Heartbeat(id) =>
      BeginKeepsInvariant(s, id);
    case Update(id, port) =>
      BeginKeepsInvariant(if port.Some? then s.(port := port.value) else s, id);
    case Rename(id) =>
      WriteCount(s.writes, id, Renamed);
    case FailWrite(id) =>
      WriteCount(s.writes, id, Failed);
    case EndWrite(id) =>
      if id in s.writes {
        FinallyKeepsInvariant(s, id);
      }
    case _ =>
  }

  lemma {:induction false} RunKeepsInvariant(port: nat, actions: seq<Action>)
    ensures Invariant(Run(Registered(port), actions))
  {
    if actions != [] {
      RunKeepsInvariant(port, actions[..|actions| - 1]);
      StepKeepsInvariant(Run(Registered(port), actions[..|actions| - 1]), actions[|actions| - 1]);
    }
  }

  /** The file is unlinked only when the registration is released and no write is under way. */
  lemma UnlinkOnlyWhenDrained(port: nat, actions: seq<Action>, a: Action)
    requires var s := Run(Registered(port), actions); s.file.Some? && Step(s, a).file.None?
    ensures var s := Run(Registered(port), actions);
            a == Unlink && s.released && s.inflightWrites == 0 && s.writes == map[]
  {
    RunKeepsInvariant(port, actions);
    var s := Run(Registered(port), actions);
    assert s.writes.Keys == {} by {
      assert |s.writes| == |s.writes.Keys|;
    }
  }

  /** Once `release` has unlinked the file, no step of any later run creates it again. */
  lemma {:induction false} UnlinkedForGood(port: nat, actions: seq<Action>, more: seq<Action>)
    requires Run(Registered(port), actions).release == Finished(true)
    ensures var t := Run(Registered(port), actions + more); t.release == Finished(true) && t.file.None?
  {
    RunKeepsInvariant(port, actions + more);
    if more == [] {
      assert actions + more == actions;
    } else {
      var front := more[..|more| - 1];
      UnlinkedForGood(port, actions, front);
      RunKeepsInvariant(port, actions + front);
      assert (actions + more)[..|actions + more| - 1] == actions + front;
      NoWriteAfterRelease(Run(Registered(port), actions + front), more[|more| - 1]);
    }
  }

  lemma NoWriteAfterRelease(s: State, a: Action)
    requires Invariant(s) && s.release == Finished(true)
    ensures Step(s, a).release == Finished(true)
  {
    assert |s.writes| == 0;
  }

  // ----- The drain is never missed -----

  /** A waiting release has a write to wait for, and the end of the last write wakes it. */
  lemma DrainWakes(port: nat, actions: seq<Action>, id: nat)
    requires var s := Run(Registered(port), actions);
             s.release.Waiting? && id in s.writes && !s.writes[id].Writing?
    ensures var s := Run(Registered(port), actions);
            Step(s, EndWrite(id)).release == if s.inflightWrites == 1 then Woken else Waiting
  {
    RunKeepsInvariant(port, actions);
  }

  function WritingIds(writes: map<nat, Write>): set<nat> {
    set id | id in writes && writes[id].Writing?
  }

  /** Two steps for a write whose rename is ahead, one for a write that only has to end. */
  function WorkLeft(writes: map<nat, Write>): nat {
    |writes| + |WritingIds(writes)|
  }

  lemma RenameWorks(writes: map<nat, Write>, id: nat, w: Write)
    requires id in writes && writes[id].Writing? && !w.Writing?
    ensures WorkLeft(writes[id := w]) == WorkLeft(writes) - 1
  {
    WriteCount(writes, id, w);
    assert WritingIds(writes[id := w]) == WritingIds(writes) - {id};
  }

  lemma EndWorks(writes: map<nat, Write>, id: nat)
    requires id in writes && !writes[id].Writing?
    ensures WorkLeft(writes - {id}) == WorkLeft(writes) - 1
  {
    WriteCount(writes, id, Failed);
    assert WritingIds(writes - {id}) == WritingIds(writes);
  }

  function StageLeft(r: Release): nat {
    match r
    case NotCalled => 4
    case Waiting => 3
    case Woken => 2
    case Unlinking => 1
    case Finished(_) => 0
  }

  /** The steps a called release still needs. */
  function StepsLeft(s: State): nat {
    WorkLeft(s.writes) + StageLeft(s.release)
  }

  /** After `release` is called, every step either changes nothing or brings the release closer to its end. */
  lemma ReleaseProgresses(s: State, a: Action)
    requires Invariant(s) && s.released
    ensures Step(s, a) == s || StepsLeft(Step(s, a)) < StepsLeft(s)
  {
    match a
    case Rename(id) =>
      if id in s.writes && s.writes[id].Writing? {
        RenameWorks(s.writes, id, Renamed);
      }
    case FailWrite(id) =>
      if id in s.writes && s.writes[id].Writing? {
        RenameWorks(s.writes, id, Failed);
      }
    case EndWrite(id) =>
      if id in s.writes && !s.writes[id].Writing? {
        EndWorks(s.writes, id);
      }
    case _ =>
  }

  /** A called release that has not finished always has a step that brings it closer: it is never stuck. */
  lemma ReleaseNeverStuck(s: State)
    requires Invariant(s) && s.released && !s.release.Finished?
    ensures exists a :: Step(s, a) != s && StepsLeft(Step(s, a)) < StepsLeft(s)
  {
    var a;
    if s.release.Waiting? {
      assert |s.writes| > 0;
      var id :| id in s.writes;
      a := if s.writes[id].Writing? then Rename(id) else EndWrite(id);
      if s.writes[id].Writing? {
        assert Step(s, a).writes[id] == Renamed;
      } else {
        assert id !in Step(s, a).writes;
      }
    } else if s.release.Woken? {
      a := ResumeRelease;
    } else {
      a := Unlink;
    }
    ReleaseProgresses(s, a);
  }
}

/** Which port the instance file holds. */
module InstancePort {
  import opened Units
  import opened InstanceRegistry

  function After(port: nat, actions: seq<Action>): State {
    Run(Registered(port), actions)
  }

  lemma AfterNext(port: nat, front: seq<Action>, a: Action)
    ensures After(port, front + [a]) == Step(After(port, front), a)
  {
    assert (front + [a])[..|front|] == front;
  }

  // ----- The port of the registration -----

  /** Action `j` is an update with a port, and comes before the release. */
  predicate SetsPort(actions: seq<Action>, j: nat) {
    && j < |actions| && actions[j].Update? && actions[j].port.Some?
    && CallRelease !in actions[..j]
  }

  ghost predicate SetsLast(actions: seq<Action>, j: nat) {
    SetsPort(actions, j) && forall i | j < i < |actions| :: !SetsPort(actions, i)
  }

  lemma {:induction false} ReleasedIff(port: nat, actions: seq<Action>)
    ensures After(port, actions).released <==> CallRelease in actions
  {
    if actions != [] {
      var front, a := actions[..|actions| - 1], actions[|actions| - 1];
      ReleasedIff(port, front);
      AfterNext(port, front, a);
      assert actions == front + [a];
    }
  }

  lemma SetsInFront(front: seq<Action>, a: Action, j: nat)
    requires j < |front|
    ensures SetsPort(front + [a], j) <==> SetsPort(front, j)
  {
    assert (front + [a])[..j] == front[..j];
  }

  lemma PortNext(port: nat, front: seq<Action>, a: Action)
    ensures After(port, front + [a]).port
         == if SetsPort(front + [a], |front|) then a.port.value else After(port, front).port
  {
    ReleasedIff(port, front);
    AfterNext(port, front, a);
    assert (front + [a])[..|front|] == front;
  }

  /** The port is that of the last update that names one and comes before the release, or the registered one. */
  lemma {:induction false} PortOfRun(port: nat, actions: seq<Action>)
    ensures if exists j: nat :: SetsPort(actions, j) then
              exists j: nat :: SetsLast(actions, j) && After(port, actions).port == actions[j].port.value
            else After(port, actions).port == port
  {
    if actions != [] {
      var front, a := actions[..|actions| - 1], actions[|actions| - 1];
      assert front + [a] == actions;
      PortOfRun(port, front);
      PortNext(port, front, a);
      forall j: nat | j < |front|
        ensures SetsPort(actions, j) <==> SetsPort(front, j)
      {
        SetsInFront(front, a, j);
      }
      if SetsPort(actions, |front|) {
        assert SetsLast(actions, |front|);
      } else if exists j: nat :: SetsPort(front, j) {
        var j: nat :| SetsLast(front, j) && After(port, front).port == front[j].port.value;
        assert SetsLast(actions, j);
      }
    }
  }

  // ----- The port in the file -----

  /** Action `r` renames the file of a write over the instance file. */
  predicate RenamesAt(port: nat, actions: seq<Action>, r: nat) {
    && r < |actions| && actions[r].Rename?
    && var s := After(port, actions[..r]);
       actions[r].id in s.writes && s.writes[actions[r].id].Writing?
  }

  /** The write `id` has begun with action `b` and has been under way since, up to action `n`. */
  ghost predicate UnderWay(port: nat, actions: seq<Action>, b: nat, n: nat, id: nat) {
    && b < n <= |actions| && id !in After(port, actions[..b]).writes
    && forall j | b < j <= n :: id in After(port, actions[..j]).writes
  }

  /** The write carries the port that the registration had when it began. */
  ghost predicate Carries(port: nat, actions: seq<Action>, n: nat, id: nat, written: nat) {
    exists b :: UnderWay(port, actions, b, n, id) && After(port, actions[..b + 1]).port == written
  }

  /** Every write that has not been renamed carries the port of its beginning. */
  ghost predicate WritesCarry(port: nat, actions: seq<Action>, n: nat)
    requires n <= |actions|
  {
    var writes := After(port, actions[..n]).writes;
    forall id | id in writes && writes[id].Writing? :: Carries(port, actions, n, id, writes[id].port)
  }

  lemma CarriesOn(port: nat, actions: seq<Action>, n: nat, id: nat, written: nat)
    requires n < |actions| && Carries(port, actions, n, id, written)
    requires id in After(port, actions[..n + 1]).writes
    ensures Carries(port, actions, n + 1, id, written)
  {
    var b :| UnderWay(port, actions, b, n, id) && After(port, actions[..b + 1]).port == written;
    assert UnderWay(port, actions, b, n + 1, id);
  }

  lemma BeginCarries(port: nat, actions: seq<Action>, n: nat, id: nat)
    requires n < |actions| && id !in After(port, actions[..n]).writes && id in After(port, actions[..n + 1]).writes
    ensures Carries(port, actions, n + 1, id, After(port, actions[..n + 1]).port)
  {
    assert UnderWay(port, actions, n, n + 1, id);
  }

  /** How a step changes a write. */
  lemma WriteNext(s: State, a: Action, id: nat)
    requires var t := Step(s, a); id in t.writes && t.writes[id].Writing?
    ensures var t := Step(s, a);
            if id in s.writes then s.writes[id] == t.writes[id] else t.writes[id].port == t.port
  {
  }

  lemma {:induction false} AllWritesCarry(port: nat, actions: seq<Action>, n: nat)
    requires n <= |actions|
    ensures WritesCarry(port, actions, n)
  {
    if n > 0 {
      AllWritesCarry(port, actions, n - 1);
      assert actions[..n] == actions[..n - 1] + [actions[n - 1]];
      AfterNext(port, actions[..n - 1], actions[n - 1]);
      var s, t := After(port, actions[..n - 1]), After(port, actions[..n]);
      forall id | id in t.writes && t.writes[id].Writing?
        ensures Carries(port, actions, n, id, t.writes[id].port)
      {
        WriteNext(s, actions[n - 1], id);
        if id in s.writes {
          CarriesOn(port, actions, n - 1, id, t.writes[id].port);
        } else {
          BeginCarries(port, actions, n - 1, id);
        }
      }
    }
  }

  /** Action `r` is the last of the first `n` that renames, and its write has carried `written`. */
  ghost predicate RenamedLast(port: nat, actions: seq<Action>, n: nat, r: nat, written: nat) {
    && r < n <= |actions| && RenamesAt(port, actions, r)
    && (forall j | r < j < n :: !RenamesAt(port, actions, j))
    && Carries(port, actions, r, actions[r].id, written)
  }

  /** The file, as long as it exists, holds the port that the registration had when the write renamed last began, or the
      registered one. */
  ghost predicate FileIsRenamed(port: nat, actions: seq<Action>, n: nat)
    requires n <= |actions|
  {
    var file := After(port, actions[..n]).file;
    file.Some? ==>
      if exists r | 0 <= r < n :: RenamesAt(port, actions, r) then
        exists r :: RenamedLast(port, actions, n, r, file.value)
      else file.value == port
  }

  lemma FileNext(s: State, a: Action)
    ensures var t := Step(s, a);
            t.file == if a.Rename? && a.id in s.writes && s.writes[a.id].Writing? then Some(s.writes[a.id].port)
                      else if a.Unlink? && s.release.Unlinking? then None
                      else s.file
  {
  }

  lemma {:induction false} FileOfRun(port: nat, actions: seq<Action>, n: nat)
    requires n <= |actions|
    ensures FileIsRenamed(port, actions, n)
  {
    if n > 0 {
      var a := actions[n - 1];
      FileOfRun(port, actions, n - 1);
      AllWritesCarry(port, actions, n - 1);
      assert actions[..n] == actions[..n - 1] + [a];
      AfterNext(port, actions[..n - 1], a);
      FileNext(After(port, actions[..n - 1]), a);
      var file := After(port, actions[..n]).file;
      if RenamesAt(port, actions, n - 1) {
        assert RenamedLast(port, actions, n, n - 1, file.value);
      } else if file.Some? && exists r | 0 <= r < n - 1 :: RenamesAt(port, actions, r) {
        var r :| RenamedLast(port, actions, n - 1, r, file.value);
        assert RenamedLast(port, actions, n, r, file.value);
      }
    }
  }

  // ----- When the file holds the port of the registration -----

  /** Registration, writes and file agree on the port `p`, except that the write `id` may still have to bring it to the
      file. */
  ghost predicate Settling(s: State, p: nat, id: nat) {
    && Invariant(s) && s.port == p
    && (forall w | w in s.writes && s.writes[w].Writing? :: s.writes[w].port == p)
    && (s.file == Some(p) || (id in s.writes && s.writes[id].Writing?) || s.release == Finished(true))
  }

  ghost predicate Agreed(s: State, p: nat) {
    && Invariant(s) && s.port == p
    && (forall w | w in s.writes && s.writes[w].Writing? :: s.writes[w].port == p)
    && (s.file == Some(p) || s.release == Finished(true))
  }

  lemma SettlingNext(s: State, a: Action, p: nat, id: nat)
    requires Settling(s, p, id) && !a.Update? && a != FailWrite(id)
    ensures Settling(Step(s, a), p, id)
    ensures a == Rename(id) ==> Agreed(Step(s, a), p)
  {
    StepKeepsInvariant(s, a);
    assert s.release.Unlinking? ==> |s.writes| == 0;
  }

  lemma AgreedNext(s: State, a: Action, p: nat)
    requires Agreed(s, p) && !a.Update?
    ensures Agreed(Step(s, a), p)
  {
    StepKeepsInvariant(s, a);
  }

  ghost predicate NoUpdates(actions: seq<Action>) {
    forall i | 0 <= i < |actions| :: !actions[i].Update?
  }

  lemma {:induction false} SettlingRun(port: nat, front: seq<Action>, during: seq<Action>, p: nat, id: nat)
    requires Settling(After(port, front), p, id) && NoUpdates(during) && FailWrite(id) !in during
    ensures Settling(After(port, front + during), p, id)
  {
    if during == [] {
      assert front + during == front;
    } else {
      var n := |during| - 1;
      SettlingRun(port, front, during[..n], p, id);
      assert front + during == front + during[..n] + [during[n]];
      AfterNext(port, front + during[..n], during[n]);
      SettlingNext(After(port, front + during[..n]), during[n], p, id);
    }
  }

  lemma {:induction false} AgreedRun(port: nat, front: seq<Action>, later: seq<Action>, p: nat)
    requires Agreed(After(port, front), p) && NoUpdates(later)
    ensures Agreed(After(port, front + later), p)
  {
    if later == [] {
      assert front + later == front;
    } else {
      var n := |later| - 1;
      AgreedRun(port, front, later[..n], p);
      assert front + later == front + later[..n] + [later[n]];
      AfterNext(port, front + later[..n], later[n]);
      AgreedNext(After(port, front + later[..n]), later[n], p);
    }
  }

  /** An update that begins with no write under way, and whose write is renamed, brings its port to the file, and there
      it stays until the next update or the end of the release, whatever heartbeats, failures and ends of writes come in
      between. */
  lemma UpdateReachesFile(port: nat, before: seq<Action>, id: nat, patch: Option<nat>, during: seq<Action>,
                          later: seq<Action>)
    requires var s := After(port, before); !s.released && s.writes == map[]
    requires NoUpdates(during) && NoUpdates(later) && FailWrite(id) !in during
    ensures var t := After(port, before + [Update(id, patch)] + during + [Rename(id)] + later);
            && t.port == (if patch.Some? then patch.value else After(port, before).port)
            && (t.file == Some(t.port) || t.release == Finished(true))
  {
    var p := if patch.Some? then patch.value else After(port, before).port;
    var begun := before + [Update(id, patch)];
    RunKeepsInvariant(port, before);
    RunKeepsInvariant(port, begun);
    AfterNext(port, before, Update(id, patch));
    SettlingRun(port, begun, during, p, id);
    AfterNext(port, begun + during, Rename(id));
    SettlingNext(After(port, begun + during), Rename(id), p, id);
    AgreedRun(port, begun + during + [Rename(id)], later, p);
  }

  /** Without an update the file holds the registered port until it is unlinked. */
  lemma NoUpdateKeepsFile(port: nat, actions: seq<Action>)
    requires NoUpdates(actions)
    ensures var t := After(port, actions); t.file == Some(port) || t.release == Finished(true)
  {
    assert [] + actions == actions;
    AgreedRun(port, [], actions, port);
  }

  /** When writes race, the file can be left with an old port: a heartbeat begins before an update and is renamed after
      it. */
  lemma StaleFileExample()
    ensures var t := After(1, [] + [Heartbeat(0)] + [Update(1, Some(2))] + [Rename(1)] + [Rename(0)] + [EndWrite(0)]
                              + [EndWrite(1)]);
            t.port == 2 && t.file == Some(1) && !t.released && t.inflightWrites == 0
  {
    RacingWrites();
    var a1 := [] + [Heartbeat(0)] + [Update(1, Some(2))] + [Rename(1)];
    AfterNext(1, a1, Rename(0));
    AfterNext(1, a1 + [Rename(0)], EndWrite(0));
    AfterNext(1, a1 + [Rename(0)] + [EndWrite(0)], EndWrite(1));
  }

  lemma RacingWrites()
    ensures After(1, [] + [Heartbeat(0)] + [Update(1, Some(2))] + [Rename(1)])
         == State(2, false, true, 2, false, map[0 := Writing(1), 1 := Renamed], NotCalled, Some(2))
  {
    AfterNext(1, [], Heartbeat(0));
    AfterNext(1, [] + [Heartbeat(0)], Update(1, Some(2)));
    AfterNext(1, [] + [Heartbeat(0)] + [Update(1, Some(2))], Rename(1));
  }
}

/** Hook chains whose handlers let their calls of `next` overlap. */
module HookSchedule {
  import opened Units
  import opened Hooks

  /** A call of `next` that has been made and not been taken up: it goes to entry `index`, or to the terminal
      function. */
  datatype Call<C> = Call(index: nat, ctx: C, trace: Trace)

  datatype Pool<C> = Pool(waiting: seq<Call<C>>, received: seq<C>)

  function CallsOf<C>(index: nat, ctx: C, nexts: seq<Next<C>>): seq<Call<C>> {
    if nexts == [] then []
    else [Call(index, Current(nexts[0].override, ctx), nexts[0].trace)] + CallsOf(index, ctx, nexts[1..])
  }

  /** Call `k` is taken up: it reaches the terminal function, or its handler makes its own calls of `next`, none of
      which has to wait for another. */
  function TakeUp<C>(entries: seq<Entry<C>>, s: Pool<C>, k: nat): Pool<C> {
    if k >= |s.waiting| then s
    else
      var call, others := s.waiting[k], RemoveAt(s.waiting, k);
      if call.index >= |entries| then Pool(others, s.received + [call.ctx])
      else
        var nexts := NextsOf(entries[call.index], call.ctx, call.trace);
        Pool(others + CallsOf(call.index + 1, call.ctx, nexts), s.received)
  }

  /** The pool after the calls have been taken up in the order of `schedule`. */
  function Scheduled<C>(entries: seq<Entry<C>>, s: Pool<C>, schedule: seq<nat>): Pool<C>
    decreases |schedule|
  {
    if schedule == [] then s else Scheduled(entries, TakeUp(entries, s, schedule[0]), schedule[1..])
  }

  ghost function Times<C>(s: seq<C>, c: C): nat {
    multiset(s)[c]
  }

  lemma TimesConcat<C>(a: seq<C>, b: seq<C>, c: C)
    ensures Times(a + b, c) == Times(a, c) + Times(b, c)
  {
  }

  /** How often a waiting call will hand `c` to the terminal function. */
  ghost function Due<C>(entries: seq<Entry<C>>, call: Call<C>, c: C): nat {
    if call.index < |entries| then Times(RunFrom(entries, call.index, call.ctx, call.trace), c)
    else Times([call.ctx], c)
  }

  ghost function Owed<C>(entries: seq<Entry<C>>, waiting: seq<Call<C>>, c: C): nat {
    if waiting == [] then 0 else Due(entries, waiting[0], c) + Owed(entries, waiting[1..], c)
  }

  lemma {:induction false} OwedConcat<C>(entries: seq<Entry<C>>, a: seq<Call<C>>, b: seq<Call<C>>, c: C)
    ensures Owed(entries, a + b, c) == Owed(entries, a, c) + Owed(entries, b, c)
  {
    if a == [] {
      assert a + b == b;
    } else {
      OwedConcat(entries, a[1..], b, c);
      assert (a + b)[1..] == a[1..] + b;
    }
  }

  lemma OwedWithout<C>(entries: seq<Entry<C>>, waiting: seq<Call<C>>, k: nat, c: C)
    requires k < |waiting|
    ensures Owed(entries, waiting, c) == Owed(entries, RemoveAt(waiting, k), c) + Due(entries, waiting[k], c)
  {
    var a, b := waiting[..k], waiting[k..];
    assert waiting == a + b && b[1..] == waiting[k + 1..];
    OwedConcat(entries, a, b, c);
    OwedConcat(entries, a, b[1..], c);
  }

  lemma {:induction false} OwedByCalls<C>(entries: seq<Entry<C>>, i: nat, ctx: C, nexts: seq<Next<C>>, c: C)
    requires i <= |entries|
    ensures Owed(entries, CallsOf(i, ctx, nexts), c) == Times(Dispatch(entries, i, ctx, nexts), c)
    decreases |nexts|
  {
    if nexts != [] {
      var first, rest := Call(i, Current(nexts[0].override, ctx), nexts[0].trace), CallsOf(i, ctx, nexts[1..]);
      OwedByCalls(entries, i, ctx, nexts[1..], c);
      assert ([first] + rest)[1..] == rest;
      TimesConcat(RunFrom(entries, i, first.ctx, first.trace), Dispatch(entries, i, ctx, nexts[1..]), c);
    }
  }

  lemma TakeUpOwes<C>(entries: seq<Entry<C>>, s: Pool<C>, k: nat, c: C)
    ensures var t := TakeUp(entries, s, k);
            Times(t.received, c) + Owed(entries, t.waiting, c) == Times(s.received, c) + Owed(entries, s.waiting, c)
  {
    if k < |s.waiting| {
      var call, others := s.waiting[k], RemoveAt(s.waiting, k);
      OwedWithout(entries, s.waiting, k, c);
      if call.index < |entries| {
        var nexts := NextsOf(entries[call.index], call.ctx, call.trace);
        OwedByCalls(entries, call.index + 1, call.ctx, nexts, c);
        OwedConcat(entries, others, CallsOf(call.index + 1, call.ctx, nexts), c);
      } else {
        TimesConcat(s.received, [call.ctx], c);
      }
    }
  }

  lemma {:induction false} ScheduleOwes<C>(entries: seq<Entry<C>>, s: Pool<C>, schedule: seq<nat>, c: C)
    ensures var t := Scheduled(entries, s, schedule);
            Times(t.received, c) + Owed(entries, t.waiting, c) == Times(s.received, c) + Owed(entries, s.waiting, c)
    decreases |schedule|
  {
    if schedule != [] {
      TakeUpOwes(entries, s, schedule[0], c);
      ScheduleOwes(entries, TakeUp(entries, s, schedule[0]), schedule[1..], c);
    }
  }

  /** In whatever order the calls of `next` are taken up, whether handlers wait for them or let them overlap: when none
      is left, the terminal function has received each context as often as in the run one after the other. */
  lemma AnyScheduleReceives<C>(entries: seq<Entry<C>>, ctx: C, schedule: seq<nat>, c: C)
    requires Scheduled(entries, Pool([Call(0, ctx, [])], []), schedule).waiting == []
    ensures Times(Scheduled(entries, Pool([Call(0, ctx, [])], []), schedule).received, c)
         == Times(RunFrom(entries, 0, ctx, []), c)
  {
    var start := Call(0, ctx, []);
    ScheduleOwes(entries, Pool([start], []), schedule, c);
    assert [start][1..] == [];
    assert Owed(entries, [start], c) == Due(entries, start, c);
    if entries == [] {
      assert RunFrom(entries, 0, ctx, []) == [ctx];
    }
  }

  // ----- Every run ends when nothing is left to take up -----

  /** How many calls a waiting call leads to, itself included. */
  ghost function Work<C>(entries: seq<Entry<C>>, index: nat, ctx: C, trace: Trace): (w: nat)
    ensures w >= 1
    decreases |entries| - index, 1, 0
  {
    if index >= |entries| then 1 else 1 + WorkOf(entries, index + 1, ctx, NextsOf(entries[index], ctx, trace))
  }

  ghost function WorkOf<C>(entries: seq<Entry<C>>, index: nat, ctx: C, nexts: seq<Next<C>>): nat
    decreases |entries| - index, 2, |nexts|
  {
    if nexts == [] then 0
    else Work(entries, index, Current(nexts[0].override, ctx), nexts[0].trace) + WorkOf(entries, index, ctx, nexts[1..])
  }

  ghost function WorkLeft<C>(entries: seq<Entry<C>>, waiting: seq<Call<C>>): nat {
    if waiting == [] then 0
    else
      var call := waiting[0];
      Work(entries, call.index, call.ctx, call.trace) + WorkLeft(entries, waiting[1..])
  }

  lemma {:induction false} WorkConcat<C>(entries: seq<Entry<C>>, a: seq<Call<C>>, b: seq<Call<C>>)
    ensures WorkLeft(entries, a + b) == WorkLeft(entries, a) + WorkLeft(entries, b)
  {
    if a == [] {
      assert a + b == b;
    } else {
      WorkConcat(entries, a[1..], b);
      assert (a + b)[1..] == a[1..] + b;
    }
  }

  lemma {:induction false} WorkByCalls<C>(entries: seq<Entry<C>>, i: nat, ctx: C, nexts: seq<Next<C>>)
    ensures WorkLeft(entries, CallsOf(i, ctx, nexts)) == WorkOf(entries, i, ctx, nexts)
    decreases |nexts|
  {
    if nexts != [] {
      var first, rest := Call(i, Current(nexts[0].override, ctx), nexts[0].trace), CallsOf(i, ctx, nexts[1..]);
      WorkByCalls(entries, i, ctx, nexts[1..]);
      assert ([first] + rest)[1..] == rest;
    }
  }

  /** Taking up a call always brings the run one step nearer to its end. */
  lemma TakeUpWorks<C>(entries: seq<Entry<C>>, s: Pool<C>, k: nat)
    requires k < |s.waiting|
    ensures WorkLeft(entries, TakeUp(entries, s, k).waiting) == WorkLeft(entries, s.waiting) - 1
  {
    var call, others := s.waiting[k], RemoveAt(s.waiting, k);
    WorkWithout(entries, s.waiting, k);
    if call.index < |entries| {
      var nexts := NextsOf(entries[call.index], call.ctx, call.trace);
      WorkByCalls(entries, call.index + 1, call.ctx, nexts);
      WorkConcat(entries, others, CallsOf(call.index + 1, call.ctx, nexts));
    }
  }

  lemma WorkWithout<C>(entries: seq<Entry<C>>, waiting: seq<Call<C>>, k: nat)
    requires k < |waiting|
    ensures WorkLeft(entries, waiting)
         == WorkLeft(entries, RemoveAt(waiting, k)) + Work(entries, waiting[k].index, waiting[k].ctx, waiting[k].trace)
  {
    var a, b := waiting[..k], waiting[k..];
    assert waiting == a + b && b[1..] == waiting[k + 1..];
    WorkConcat(entries, a, b);
    WorkConcat(entries, a, b[1..]);
  }
}

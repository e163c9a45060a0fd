/** Ordered hook slots: registration with positions, disposal by identity, and the run of a chain whose handlers may
    call `next` any number of times. */
module Hooks {
  import opened Units

  /** Which invocation of a handler in one run: the numbers of the calls of `next` that have led to it. */
  type Trace = seq<nat>

  /** `token` is the identity of the entry object; `calls` are the overrides a handler passes to `next`, in order. They
      may depend on its context and on everything else that happens in the run, as the trace tells every invocation from
      all others. */
  datatype Entry<!C> = Entry(token: nat, id: JsString, calls: (C, Trace) -> seq<Option<C>>)

  datatype Position = AtEnd | Before(target: JsString) | After(target: JsString) | BothGiven

  datatype RegisterResult = Registered(token: nat) | BeforeAndAfter | TargetMissing

  // ----- The list of entries -----

  /** The index of the entry with the given id, or the length. */
  function IndexOfId<C>(entries: seq<Entry<C>>, id: JsString): (k: nat)
    ensures k <= |entries|
    ensures k < |entries| ==> entries[k].id == id
    ensures forall i | 0 <= i < k :: entries[i].id != id
  {
    if entries == [] || entries[0].id == id then 0 else 1 + IndexOfId(entries[1..], id)
  }

  function IndexOfToken<C>(entries: seq<Entry<C>>, token: nat): (k: nat)
    ensures k <= |entries|
    ensures k < |entries| ==> entries[k].token == token
    ensures forall i | 0 <= i < k :: entries[i].token != token
  {
    if entries == [] || entries[0].token == token then 0 else 1 + IndexOfToken(entries[1..], token)
  }

  /** `splice(k, 1)`; nothing when there is no element `k`. */
  function RemoveAt<T>(s: seq<T>, k: nat): seq<T> {
    if k < |s| then s[..k] + s[k + 1..] else s
  }

  /** `splice(k, 0, x)`. */
  function Insert<T>(s: seq<T>, k: nat, x: T): seq<T>
    requires k <= |s|
  {
    s[..k] + [x] + s[k..]
  }

  /** The entries after the disposable of a registration has been called. */
  function WithoutToken<C>(entries: seq<Entry<C>>, token: nat): seq<Entry<C>> {
    RemoveAt(entries, IndexOfToken(entries, token))
  }

  ghost predicate UniqueIds<C(!new)>(entries: seq<Entry<C>>) {
    forall i, j | 0 <= i < j < |entries| :: entries[i].id != entries[j].id
  }

  ghost predicate UniqueTokens<C(!new)>(entries: seq<Entry<C>>, next: nat) {
    && (forall i | 0 <= i < |entries| :: entries[i].token < next)
    && (forall i, j | 0 <= i < j < |entries| :: entries[i].token != entries[j].token)
  }

  ghost predicate ValidEntries<C(!new)>(entries: seq<Entry<C>>, next: nat) {
    UniqueIds(entries) && UniqueTokens(entries, next)
  }

  lemma RemoveKeepsValid<C(!new)>(entries: seq<Entry<C>>, k: nat, next: nat)
    requires ValidEntries(entries, next) && k <= |entries|
    ensures ValidEntries(RemoveAt(entries, k), next)
  {
    if k < |entries| {
      var s := RemoveAt(entries, k);
      forall i, j | 0 <= i < j < |s|
        ensures s[i].id != s[j].id && s[i].token != s[j].token
      {
        assert s[i] == entries[if i < k then i else i + 1];
        assert s[j] == entries[if j < k then j else j + 1];
      }
    }
  }

  ghost predicate Lacks<C(!new)>(entries: seq<Entry<C>>, id: JsString) {
    forall i | 0 <= i < |entries| :: entries[i].id != id
  }

  lemma InsertKeepsValid<C(!new)>(entries: seq<Entry<C>>, k: nat, e: Entry<C>)
    requires ValidEntries(entries, e.token) && k <= |entries| && Lacks(entries, e.id)
    ensures ValidEntries(Insert(entries, k, e), e.token + 1)
  {
    var s := Insert(entries, k, e);
    assert forall i | 0 <= i < |s| :: s[i] == if i < k then entries[i] else if i == k then e else entries[i - 1];
  }

  lemma InsertAtEnd<T>(s: seq<T>, x: T)
    ensures Insert(s, |s|, x) == s + [x]
  {
  }

  /** The entries after `delete`. */
  function Rest<C>(entries: seq<Entry<C>>, id: JsString): seq<Entry<C>> {
    RemoveAt(entries, IndexOfId(entries, id))
  }

  lemma RestFacts<C(!new)>(entries: seq<Entry<C>>, id: JsString, next: nat)
    requires ValidEntries(entries, next)
    ensures ValidEntries(Rest(entries, id), next) && Lacks(Rest(entries, id), id)
  {
    var k := IndexOfId(entries, id);
    RemoveKeepsValid(entries, k, next);
    assert forall i | 0 <= i < |Rest(entries, id)| :: Rest(entries, id)[i] == entries[if i < k then i else i + 1];
  }

  /** Where a new entry goes among the others, unless its target is missing. */
  function PlaceIn<C>(rest: seq<Entry<C>>, at: Position): (p: Option<nat>)
    ensures p.Some? ==> p.value <= |rest|
  {
    match at
    case AtEnd => Some(|rest|)
    case Before(t) => if IndexOfId(rest, t) == |rest| then None else Some(IndexOfId(rest, t))
    case After(t) => if IndexOfId(rest, t) == |rest| then None else Some(IndexOfId(rest, t) + 1)
    case BothGiven => None
  }

  /** The list and the result when the earlier entry of the id is gone. */
  function Placed<C>(rest: seq<Entry<C>>, e: Entry<C>, at: Position): (seq<Entry<C>>, RegisterResult) {
    match PlaceIn(rest, at)
    case None => (rest, TargetMissing)
    case Some(p) => (Insert(rest, p, e), Registered(e.token))
  }

  /** The list after a registration. */
  function RegisterIn<C>(entries: seq<Entry<C>>, e: Entry<C>, at: Position): (seq<Entry<C>>, RegisterResult) {
    if at.BothGiven? then (entries, BeforeAndAfter) else Placed(Rest(entries, e.id), e, at)
  }

  /** A registration keeps the ids and the identities of the entries pairwise distinct. */
  lemma RegisterKeepsValid<C(!new)>(entries: seq<Entry<C>>, e: Entry<C>, at: Position)
    requires ValidEntries(entries, e.token)
    ensures ValidEntries(RegisterIn(entries, e, at).0, e.token + 1)
  {
    ValidLater(entries, e.token);
    if !at.BothGiven? {
      RestFacts(entries, e.id, e.token);
      PlacedKeepsValid(Rest(entries, e.id), e, at, PlaceIn(Rest(entries, e.id), at));
    }
  }

  lemma ValidLater<C(!new)>(entries: seq<Entry<C>>, next: nat)
    requires ValidEntries(entries, next)
    ensures ValidEntries(entries, next + 1)
  {
  }

  lemma PlacedKeepsValid<C(!new)>(rest: seq<Entry<C>>, e: Entry<C>, at: Position, p: Option<nat>)
    requires ValidEntries(rest, e.token) && Lacks(rest, e.id) && p == PlaceIn(rest, at)
    ensures ValidEntries(Placed(rest, e, at).0, e.token + 1)
  {
    if p.Some? {
      InsertKeepsValid(rest, p.value, e);
    } else {
      ValidLater(rest, e.token);
    }
  }

  // ----- Running a chain -----

  function Current<C>(override: Option<C>, ctx: C): C {
    match override case None => ctx case Some(c) => c
  }

  /** A call of `next`: its override, and the trace of the invocation it leads to. */
  datatype Next<C> = Next(override: Option<C>, trace: Trace)

  function NextsOf<C>(e: Entry<C>, ctx: C, trace: Trace): (nexts: seq<Next<C>>) {
    var calls := e.calls(ctx, trace);
    seq(|calls|, k requires 0 <= k < |calls| => Next(calls[k], trace + [k]))
  }

  /** The contexts that the terminal function receives, in order, when entry `i` of the snapshot gets `ctx`. */
  function RunFrom<C>(entries: seq<Entry<C>>, i: nat, ctx: C, trace: Trace): seq<C>
    requires i <= |entries|
    decreases |entries| - i, 1, 0
  {
    if i == |entries| then [ctx] else Dispatch(entries, i + 1, ctx, NextsOf(entries[i], ctx, trace))
  }

  function Dispatch<C>(entries: seq<Entry<C>>, i: nat, ctx: C, nexts: seq<Next<C>>): seq<C>
    requires i <= |entries|
    decreases |entries| - i, 2, |nexts|
  {
    if nexts == [] then []
    else RunFrom(entries, i, Current(nexts[0].override, ctx), nexts[0].trace) + Dispatch(entries, i, ctx, nexts[1..])
  }

  /** What a handler may do to the slot it runs from. */
  datatype Change<!C> =
    | Add(id: JsString, calls: (C, Trace) -> seq<Option<C>>, at: Position)
    | Drop(id: JsString)
    | Undo(token: nat)

  /** The entries and the next identity after a change. */
  function ChangedBy<C>(entries: seq<Entry<C>>, next: nat, change: Change<C>): (seq<Entry<C>>, nat) {
    match change
    case Add(id, calls, at) =>
      (RegisterIn(entries, Entry(next, id, calls), at).0, if at.BothGiven? then next else next + 1)
    case Drop(id) => (Rest(entries, id), next)
    case Undo(token) => (WithoutToken(entries, token), next)
  }

  function AllChanged<C>(entries: seq<Entry<C>>, next: nat, changes: seq<Change<C>>): (seq<Entry<C>>, nat) {
    if changes == [] then (entries, next)
    else
      var (before, n) := AllChanged(entries, next, changes[..|changes| - 1]);
      ChangedBy(before, n, changes[|changes| - 1])
  }

  lemma ChangedNext<C>(entries: seq<Entry<C>>, next: nat, changes: seq<Change<C>>, i: nat)
    requires i < |changes|
    ensures var (before, n) := AllChanged(entries, next, changes[..i]);
            AllChanged(entries, next, changes[..i + 1]) == ChangedBy(before, n, changes[i])
  {
    assert changes[..i + 1][..i] == changes[..i];
  }

  lemma {:induction false} AllChangedConcat<C>(entries: seq<Entry<C>>, next: nat, a: seq<Change<C>>,
                                               b: seq<Change<C>>)
    ensures var (before, n) := AllChanged(entries, next, a);
            AllChanged(entries, next, a + b) == AllChanged(before, n, b)
  {
    if b == [] {
      assert a + b == a;
    } else {
      var front := b[..|b| - 1];
      AllChangedConcat(entries, next, a, front);
      assert (a + b)[..|a + b| - 1] == a + front;
    }
  }

  /** What an invocation of a handler does to the slot, given its context and how often it has called `next`. */
  type Acts<!C> = (C, Trace, nat) -> seq<Change<C>>

  /** What entry `i` of the snapshot and the handlers it reaches do to the slot, in order. */
  ghost function ActsFrom<C>(entries: seq<Entry<C>>, i: nat, ctx: C, trace: Trace, acts: Acts<C>): seq<Change<C>>
    requires i <= |entries|
    decreases |entries| - i, 1, 0
  {
    if i == |entries| then [] else ActsAfter(entries, i + 1, ctx, trace, NextsOf(entries[i], ctx, trace), 0, acts)
  }

  /** What happens to the slot from call `k` of `next` on; the invocation acts before every call and after the last. */
  ghost function ActsAfter<C>(entries: seq<Entry<C>>, i: nat, ctx: C, trace: Trace, nexts: seq<Next<C>>, k: nat,
                              acts: Acts<C>): seq<Change<C>>
    requires i <= |entries| && k <= |nexts|
    decreases |entries| - i, 2, |nexts| - k
  {
    if k == |nexts| then acts(ctx, trace, k)
    else
      acts(ctx, trace, k) + ActsFrom(entries, i, Current(nexts[k].override, ctx), nexts[k].trace, acts)
      + ActsAfter(entries, i, ctx, trace, nexts, k + 1, acts)
  }

  class OrderedHookSlot<C(!new)> {
    var entries: seq<Entry<C>>
    var nextToken: nat

    ghost predicate Valid()
      reads this
    {
      ValidEntries(entries, nextToken)
    }

    constructor ()
      ensures Valid() && entries == []
    {
      entries, nextToken := [], 0;
    }

    method Delete(id: JsString) returns (deleted: bool)
      requires Valid()
      modifies this`entries
      ensures Valid()
      ensures deleted == (IndexOfId(old(entries), id) < |old(entries)|)
      ensures entries == Rest(old(entries), id)
    {
      var index := IndexOfId(entries, id);
      RemoveKeepsValid(entries, index, nextToken);
      if index == |entries| {
        return false;
      }
      entries := entries[..index] + entries[index + 1..];
      return true;
    }

    method Register(id: JsString, calls: (C, Trace) -> seq<Option<C>>, at: Position) returns (r: RegisterResult)
      requires Valid()
      modifies this
      ensures Valid()
      ensures entries == RegisterIn(old(entries), Entry(old(nextToken), id, calls), at).0
      ensures r == RegisterIn(old(entries), Entry(old(nextToken), id, calls), at).1
      ensures nextToken == if at.BothGiven? then old(nextToken) else old(nextToken) + 1
    {
      if at.BothGiven? {
        return BeforeAndAfter;
      }
      var entry := Entry(nextToken, id, calls);
      RegisterKeepsValid(entries, entry, at);
      var deleted := Delete(id);
      nextToken := nextToken + 1;
      r := Place(entry, at);
    }

    /** The end of `register`, once the earlier entry of the id is gone. */
    method Place(entry: Entry<C>, at: Position) returns (r: RegisterResult)
      requires !at.BothGiven?
      modifies this`entries
      ensures (entries, r) == Placed(old(entries), entry, at)
    {
      if at.AtEnd? {
        InsertAtEnd(entries, entry);
        entries := entries + [entry];
        return Registered(entry.token);
      }
      var targetIndex := IndexOfId(entries, at.target);
      if targetIndex == |entries| {
        return TargetMissing;
      }
      var insertAt := if at.Before? then targetIndex else targetIndex + 1;
      entries := Insert(entries, insertAt, entry);
      return Registered(entry.token);
    }

    /** The disposable of a registration. */
    method Dispose(token: nat)
      requires Valid()
      modifies this`entries
      ensures Valid()
      ensures entries == WithoutToken(old(entries), token)
    {
      var index := IndexOfToken(entries, token);
      RemoveKeepsValid(entries, index, nextToken);
      if index < |entries| {
        entries := entries[..index] + entries[index + 1..];
      }
    }

    method Perform(changes: seq<Change<C>>)
      requires Valid()
      modifies this
      ensures Valid()
      ensures (entries, nextToken) == AllChanged(old(entries), old(nextToken), changes)
    {
      var i := 0;
      while i < |changes|
        invariant 0 <= i <= |changes| && Valid()
        invariant (entries, nextToken) == AllChanged(old(entries), old(nextToken), changes[..i])
      {
        ChangedNext(old(entries), old(nextToken), changes, i);
        PerformOne(changes[i]);
        i := i + 1;
      }
      assert changes[..i] == changes;
    }

    method PerformOne(change: Change<C>)
      requires Valid()
      modifies this
      ensures Valid()
      ensures (entries, nextToken) == ChangedBy(old(entries), old(nextToken), change)
    {
      match change {
        case Add(id, calls, at) => var _ := Register(id, calls, at);
        case Drop(id) => var _ := Delete(id);
        case Undo(token) => Dispose(token);
      }
    }

    /** `run`. The contexts that the terminal function receives depend on the entries at the start only, whatever the
        handlers do to the slot meanwhile. */
    method Run(context: C, acts: Acts<C>) returns (received: seq<C>)
      requires Valid()
      modifies this
      ensures Valid()
      ensures received == RunFrom(old(entries), 0, context, [])
      ensures (entries, nextToken)
           == AllChanged(old(entries), old(nextToken), ActsFrom(old(entries), 0, context, [], acts))
    {
      var snapshot := entries;
      received := DispatchAt(snapshot, 0, context, Next(None, []), acts);
    }

    /** The closure that `dispatch` returns, called with an override. */
    method DispatchAt(snapshot: seq<Entry<C>>, index: nat, ctx: C, next: Next<C>, acts: Acts<C>)
      returns (received: seq<C>)
      requires Valid() && index <= |snapshot|
      modifies this
      ensures Valid()
      ensures received == RunFrom(snapshot, index, Current(next.override, ctx), next.trace)
      ensures (entries, nextToken)
           == AllChanged(old(entries), old(nextToken),
                         ActsFrom(snapshot, index, Current(next.override, ctx), next.trace, acts))
      decreases |snapshot| - index
    {
      var current := Current(next.override, ctx);
      if index == |snapshot| {
        return [current];
      }
      var nexts := NextsOf(snapshot[index], current, next.trace);
      received := [];
      ghost var done := [];
      var k := 0;
      while k < |nexts|
        invariant 0 <= k <= |nexts| && Valid()
        invariant Dispatched(snapshot, index + 1, current, nexts, k, received)
        invariant (entries, nextToken) == AllChanged(old(entries), old(nextToken), done)
        invariant Acted(snapshot, index, current, next.trace, acts, k, done)
      {
        Perform(acts(current, next.trace, k));
        var below := DispatchAt(snapshot, index + 1, current, nexts[k], acts);
        DispatchNext(snapshot, index + 1, current, nexts, k, received);
        done := ActNext(snapshot, index, current, next.trace, acts, k, old(entries), old(nextToken), done);
        received := received + below;
        k := k + 1;
      }
      Perform(acts(current, next.trace, k));
      AllChangedConcat(old(entries), old(nextToken), done, acts(current, next.trace, k));
      assert received + [] == received;
    }
  }

  /** `done` is what has happened to the slot until call `k` of `next`. */
  ghost predicate Acted<C>(entries: seq<Entry<C>>, i: nat, ctx: C, trace: Trace, acts: Acts<C>, k: nat,
                           done: seq<Change<C>>)
    requires i < |entries|
  {
    var nexts := NextsOf(entries[i], ctx, trace);
    && k <= |nexts|
    && done + ActsAfter(entries, i + 1, ctx, trace, nexts, k, acts) == ActsFrom(entries, i, ctx, trace, acts)
  }

  lemma ActNext<C>(entries: seq<Entry<C>>, i: nat, ctx: C, trace: Trace, acts: Acts<C>, k: nat,
                   start: seq<Entry<C>>, token: nat, done: seq<Change<C>>)
    returns (more: seq<Change<C>>)
    requires i < |entries| && k < |NextsOf(entries[i], ctx, trace)| && Acted(entries, i, ctx, trace, acts, k, done)
    ensures Acted(entries, i, ctx, trace, acts, k + 1, more)
    ensures var next := NextsOf(entries[i], ctx, trace)[k];
            var (s0, n0) := AllChanged(start, token, done);
            var (s1, n1) := AllChanged(s0, n0, acts(ctx, trace, k));
            AllChanged(start, token, more)
            == AllChanged(s1, n1, ActsFrom(entries, i + 1, Current(next.override, ctx), next.trace, acts))
  {
    var nexts := NextsOf(entries[i], ctx, trace);
    var own := acts(ctx, trace, k);
    var below := ActsFrom(entries, i + 1, Current(nexts[k].override, ctx), nexts[k].trace, acts);
    var later := ActsAfter(entries, i + 1, ctx, trace, nexts, k + 1, acts);
    more := done + own + below;
    assert done + (own + below + later) == more + later;
    AllChangedConcat(start, token, done + own, below);
    AllChangedConcat(start, token, done, own);
  }

  /** `received` is what the first `k` calls of `next` have led to. */
  ghost predicate Dispatched<C>(entries: seq<Entry<C>>, i: nat, ctx: C, nexts: seq<Next<C>>, k: nat, received: seq<C>)
    requires i <= |entries|
  {
    k <= |nexts| && received + Dispatch(entries, i, ctx, nexts[k..]) == Dispatch(entries, i, ctx, nexts)
  }

  lemma DispatchNext<C>(entries: seq<Entry<C>>, i: nat, ctx: C, nexts: seq<Next<C>>, k: nat, received: seq<C>)
    requires i <= |entries| && k < |nexts| && Dispatched(entries, i, ctx, nexts, k, received)
    ensures Dispatched(entries, i, ctx, nexts, k + 1,
                       received + RunFrom(entries, i, Current(nexts[k].override, ctx), nexts[k].trace))
  {
    assert nexts[k..][1..] == nexts[k + 1..];
    var below := RunFrom(entries, i, Current(nexts[k].override, ctx), nexts[k].trace);
    assert received + (below + Dispatch(entries, i, ctx, nexts[k + 1..]))
        == received + below + Dispatch(entries, i, ctx, nexts[k + 1..]);
  }

  ghost predicate Has<C(!new)>(entries: seq<Entry<C>>, id: JsString) {
    IndexOfId(entries, id) < |entries|
  }

  lemma IndexIs<C(!new)>(entries: seq<Entry<C>>, id: JsString, i: nat)
    requires UniqueIds(entries) && i < |entries| && entries[i].id == id
    ensures IndexOfId(entries, id) == i
  {
  }

  lemma RemoveMoves<T>(s: seq<T>, k: nat, i: nat)
    requires k < |s| && i < |s| && i != k
    ensures var j := if i < k then i else i - 1;
            j < |RemoveAt(s, k)| && RemoveAt(s, k)[j] == s[i]
  {
  }

  lemma InsertMoves<T>(s: seq<T>, k: nat, x: T, i: nat)
    requires k <= |s| && i < |s|
    ensures var j := if i < k then i else i + 1;
            j < |Insert(s, k, x)| && Insert(s, k, x)[j] == s[i]
  {
  }

  lemma IndexAfterRemove<C(!new)>(entries: seq<Entry<C>>, k: nat, next: nat, id: JsString)
    requires ValidEntries(entries, next) && Has(entries, id) && k <= |entries|
    requires k < |entries| ==> entries[k].id != id
    ensures var i := IndexOfId(entries, id);
            IndexOfId(RemoveAt(entries, k), id) == if i < k then i else i - 1
  {
    if k < |entries| {
      var i := IndexOfId(entries, id);
      RemoveKeepsValid(entries, k, next);
      RemoveMoves(entries, k, i);
      IndexIs(RemoveAt(entries, k), id, if i < k then i else i - 1);
    }
  }

  lemma IndexAfterInsert<C(!new)>(entries: seq<Entry<C>>, k: nat, e: Entry<C>, id: JsString)
    requires ValidEntries(entries, e.token) && Has(entries, id) && k <= |entries|
    requires Lacks(entries, e.id)
    ensures var i := IndexOfId(entries, id);
            IndexOfId(Insert(entries, k, e), id) == if i < k then i else i + 1
  {
    var i := IndexOfId(entries, id);
    InsertKeepsValid(entries, k, e);
    InsertMoves(entries, k, e, i);
    IndexIs(Insert(entries, k, e), id, if i < k then i else i + 1);
  }

  lemma IndexInRest<C(!new)>(entries: seq<Entry<C>>, e: Entry<C>, x: JsString)
    requires ValidEntries(entries, e.token) && x != e.id && Has(entries, x)
    ensures var k, i := IndexOfId(entries, e.id), IndexOfId(entries, x);
            && i != k
            && IndexOfId(Rest(entries, e.id), x) == (if i < k then i else i - 1)
            && Has(Rest(entries, e.id), x)
  {
    IndexAfterRemove(entries, IndexOfId(entries, e.id), e.token, x);
  }

  /** Other entries stay registered, in the same relative order. */
  lemma OthersKeepOrder<C(!new)>(entries: seq<Entry<C>>, e: Entry<C>, at: Position, x: JsString, y: JsString)
    requires ValidEntries(entries, e.token) && !at.BothGiven?
    requires x != e.id && y != e.id && Has(entries, x) && Has(entries, y)
    ensures var after := RegisterIn(entries, e, at).0;
            && Has(after, x) && Has(after, y)
            && (IndexOfId(after, x) < IndexOfId(after, y) <==> IndexOfId(entries, x) < IndexOfId(entries, y))
  {
    var rest := Rest(entries, e.id);
    RestFacts(entries, e.id, e.token);
    IndexInRest(entries, e, x);
    IndexInRest(entries, e, y);
    var p := PlaceIn(rest, at);
    if p.Some? {
      IndexAfterInsert(rest, p.value, e, x);
      IndexAfterInsert(rest, p.value, e, y);
    }
  }

  /** A registered entry stands last, or next to its target on the side asked for. */
  lemma RegisteredPlace<C(!new)>(entries: seq<Entry<C>>, e: Entry<C>, at: Position)
    requires ValidEntries(entries, e.token) && RegisterIn(entries, e, at).1.Registered?
    ensures var after := RegisterIn(entries, e, at).0;
            var k := IndexOfId(after, e.id);
            && k < |after| && after[k] == e
            && (at.AtEnd? ==> k == |after| - 1)
            && (at.Before? ==> k + 1 < |after| && after[k + 1].id == at.target)
            && (at.After? ==> k > 0 && after[k - 1].id == at.target)
  {
    var rest := Rest(entries, e.id);
    RestFacts(entries, e.id, e.token);
    PlacedNext(rest, e, at, PlaceIn(rest, at).value, Insert(rest, PlaceIn(rest, at).value, e));
  }

  lemma PlacedNext<C(!new)>(rest: seq<Entry<C>>, e: Entry<C>, at: Position, p: nat, after: seq<Entry<C>>)
    requires ValidEntries(rest, e.token) && Lacks(rest, e.id)
    requires PlaceIn(rest, at) == Some(p) && after == Insert(rest, p, e)
    ensures IndexOfId(after, e.id) == p && after[p] == e
    ensures at.AtEnd? ==> p == |after| - 1
    ensures at.Before? ==> p + 1 < |after| && after[p + 1].id == at.target
    ensures at.After? ==> p > 0 && after[p - 1].id == at.target
  {
    InsertKeepsValid(rest, p, e);
    IndexIs(after, e.id, p);
  }

  /** A registration that finds no target has already dropped the earlier entry of its id, if there was one. */
  lemma MissingTargetDrops<C(!new)>(entries: seq<Entry<C>>, e: Entry<C>, at: Position)
    requires ValidEntries(entries, e.token) && RegisterIn(entries, e, at).1.TargetMissing?
    ensures RegisterIn(entries, e, at).0 == entries <==> !Has(entries, e.id)
    ensures !Has(RegisterIn(entries, e, at).0, e.id)
  {
    RestFacts(entries, e.id, e.token);
  }

  /** A target is missing when it is not registered, or is the very id that is being registered. */
  lemma TargetMissingIff<C(!new)>(entries: seq<Entry<C>>, e: Entry<C>, at: Position)
    requires ValidEntries(entries, e.token)
    ensures RegisterIn(entries, e, at).1.TargetMissing?
       <==> (at.Before? || at.After?) && (at.target == e.id || !Has(entries, at.target))
  {
    RestFacts(entries, e.id, e.token);
    if at.Before? || at.After? {
      if at.target != e.id && Has(entries, at.target) {
        IndexInRest(entries, e, at.target);
      } else if at.target != e.id {
        RestLacks(entries, e.id, at.target);
      }
    }
  }

  lemma RestLacks<C(!new)>(entries: seq<Entry<C>>, id: JsString, x: JsString)
    requires !Has(entries, x)
    ensures !Has(Rest(entries, id), x)
  {
    LacksIffNotHas(entries, x);
    LacksIffNotHas(Rest(entries, id), x);
    assert forall i | 0 <= i < |Rest(entries, id)| :: Rest(entries, id)[i] in entries;
  }

  lemma LacksIffNotHas<C(!new)>(entries: seq<Entry<C>>, x: JsString)
    ensures Has(entries, x) <==> !Lacks(entries, x)
  {
  }

  const HOOK_A: JsString := [0x61]
  const HOOK_Z: JsString := [0x7A]

  /** Registering `a` again before a hook `z` that is not there throws, and leaves the slot without any `a`. */
  lemma MissingTargetExample<C(!new)>(calls: (C, Trace) -> seq<Option<C>>)
    ensures RegisterIn([Entry(0, HOOK_A, calls)], Entry(1, HOOK_A, calls), Before(HOOK_Z)) == ([], TargetMissing)
  {
    var old1 := [Entry(0, HOOK_A, calls)];
    assert IndexOfId(old1, HOOK_A) == 0;
    assert Rest(old1, HOOK_A) == [];
  }

  /** An entry is in the list after a registration exactly when it was there under another id, or is the new one. */
  lemma RegisterContents<C(!new)>(entries: seq<Entry<C>>, e: Entry<C>, at: Position, x: Entry<C>)
    requires ValidEntries(entries, e.token)
    ensures var (after, r) := RegisterIn(entries, e, at);
            if at.BothGiven? then after == entries && r == BeforeAndAfter
            else x in after <==> (x in entries && x.id != e.id) || (x == e && r == Registered(e.token))
  {
    if !at.BothGiven? {
      DeleteContents(entries, e.id, e.token, x);
      var p := PlaceIn(Rest(entries, e.id), at);
      if p.Some? {
        InsertContents(Rest(entries, e.id), p.value, e, x);
      }
    }
  }

  lemma InsertContents<T>(s: seq<T>, k: nat, e: T, x: T)
    requires k <= |s|
    ensures x in Insert(s, k, e) <==> x in s || x == e
  {
    assert s == s[..k] + s[k..];
  }

  lemma DeleteContents<C(!new)>(entries: seq<Entry<C>>, id: JsString, next: nat, x: Entry<C>)
    requires ValidEntries(entries, next)
    ensures x in Rest(entries, id) <==> x in entries && x.id != id
  {
    RemoveContents(entries, IndexOfId(entries, id), next, x);
  }

  lemma DisposeContents<C(!new)>(entries: seq<Entry<C>>, token: nat, next: nat, x: Entry<C>)
    requires ValidEntries(entries, next)
    ensures x in WithoutToken(entries, token) <==> x in entries && x.token != token
  {
    RemoveContents(entries, IndexOfToken(entries, token), next, x);
  }

  lemma RemoveContents<C(!new)>(entries: seq<Entry<C>>, k: nat, next: nat, x: Entry<C>)
    requires ValidEntries(entries, next) && k <= |entries|
    ensures x in RemoveAt(entries, k) <==> x in entries && (k < |entries| ==> x != entries[k])
    ensures x in entries && k < |entries| && x != entries[k] ==> x.id != entries[k].id && x.token != entries[k].token
  {
    if k < |entries| {
      assert entries == entries[..k] + [entries[k]] + entries[k + 1..];
    }
  }

  /** What the entries are after any change. */
  lemma ChangeContents<C(!new)>(entries: seq<Entry<C>>, next: nat, change: Change<C>, x: Entry<C>)
    requires ValidEntries(entries, next)
    ensures var after := ChangedBy(entries, next, change).0;
            match change
            case Add(id, calls, at) =>
              if at.BothGiven? then after == entries
              else
                var missing := (at.Before? || at.After?) && (at.target == id || !Has(entries, at.target));
                x in after <==> (x in entries && x.id != id) || (x == Entry(next, id, calls) && !missing)
            case Drop(id) => x in after <==> x in entries && x.id != id
            case Undo(token) => x in after <==> x in entries && x.token != token
  {
    match change
    case Add(id, calls, at) =>
      RegisterContents(entries, Entry(next, id, calls), at, x);
      TargetMissingIff(entries, Entry(next, id, calls), at);
    case Drop(id) => DeleteContents(entries, id, next, x);
    case Undo(token) => DisposeContents(entries, token, next, x);
  }

  /** Calling the disposable of a registration undoes it, up to the earlier entry of its id. */
  lemma DisposeUndoes<C(!new)>(entries: seq<Entry<C>>, e: Entry<C>, at: Position)
    requires ValidEntries(entries, e.token) && RegisterIn(entries, e, at).1.Registered?
    ensures WithoutToken(RegisterIn(entries, e, at).0, e.token) == Rest(entries, e.id)
    ensures Lacks(entries, e.id) ==> Rest(entries, e.id) == entries
  {
    var rest := Rest(entries, e.id);
    RestFacts(entries, e.id, e.token);
    InsertRemoves(rest, PlaceIn(rest, at).value, e);
  }

  lemma InsertRemoves<C(!new)>(rest: seq<Entry<C>>, k: nat, e: Entry<C>)
    requires k <= |rest| && LacksToken(rest, e.token)
    ensures WithoutToken(Insert(rest, k, e), e.token) == rest
  {
    var s := Insert(rest, k, e);
    assert s[k] == e && forall i | 0 <= i < k :: s[i] == rest[i];
    var j := IndexOfToken(s, e.token);
    assert j == k;
    assert s[..k] == rest[..k] && s[k + 1..] == rest[k..];
  }

  ghost predicate LacksToken<C(!new)>(entries: seq<Entry<C>>, token: nat) {
    forall i | 0 <= i < |entries| :: entries[i].token != token
  }

  lemma RestLacksToken<C(!new)>(entries: seq<Entry<C>>, k: nat, next: nat)
    requires ValidEntries(entries, next) && k < |entries|
    ensures LacksToken(Rest(entries, entries[k].id), entries[k].token)
  {
    var rest := Rest(entries, entries[k].id);
    IndexIs(entries, entries[k].id, k);
    assert forall i | 0 <= i < |rest| :: rest[i] == entries[if i < k then i else i + 1];
  }

  lemma InsertLacksToken<C(!new)>(rest: seq<Entry<C>>, p: nat, e: Entry<C>, token: nat)
    requires p <= |rest| && LacksToken(rest, token) && e.token != token
    ensures LacksToken(Insert(rest, p, e), token)
  {
  }

  /** A registration replaces the earlier one of its id, so that disposing the earlier one changes nothing. */
  lemma SupersededIsGone<C(!new)>(entries: seq<Entry<C>>, e: Entry<C>, at: Position, k: nat)
    requires ValidEntries(entries, e.token) && !at.BothGiven? && k < |entries| && entries[k].id == e.id
    ensures var after := RegisterIn(entries, e, at).0;
            && LacksToken(after, entries[k].token)
            && WithoutToken(after, entries[k].token) == after
  {
    var rest := Rest(entries, e.id);
    RestLacksToken(entries, k, e.token);
    var p := PlaceIn(rest, at);
    if p.Some? {
      InsertLacksToken(rest, p.value, e, entries[k].token);
    }
  }

  lemma RemoveLacksToken<C(!new)>(entries: seq<Entry<C>>, k: nat, token: nat)
    requires LacksToken(entries, token)
    ensures LacksToken(RemoveAt(entries, k), token)
  {
    assert forall i | 0 <= i < |RemoveAt(entries, k)| :: RemoveAt(entries, k)[i] in entries;
  }

  /** No change brings an identity back that has been given out before. */
  lemma ChangeLacksToken<C(!new)>(entries: seq<Entry<C>>, next: nat, change: Change<C>, token: nat)
    requires ValidEntries(entries, next) && LacksToken(entries, token) && token < next
    ensures var (after, n) := ChangedBy(entries, next, change);
            ValidEntries(after, n) && LacksToken(after, token) && token < n
  {
    match change
    case Add(id, calls, at) =>
      var e := Entry(next, id, calls);
      RegisterKeepsValid(entries, e, at);
      if !at.BothGiven? {
        var rest := Rest(entries, id);
        RemoveLacksToken(entries, IndexOfId(entries, id), token);
        if PlaceIn(rest, at).Some? {
          InsertLacksToken(rest, PlaceIn(rest, at).value, e, token);
        }
      }
    case Drop(id) =>
      RestFacts(entries, id, next);
      RemoveLacksToken(entries, IndexOfId(entries, id), token);
    case Undo(t) =>
      RemoveKeepsValid(entries, IndexOfToken(entries, t), next);
      RemoveLacksToken(entries, IndexOfToken(entries, t), token);
  }

  lemma {:induction false} ChangesLackToken<C(!new)>(entries: seq<Entry<C>>, next: nat, changes: seq<Change<C>>,
                                                     token: nat)
    requires ValidEntries(entries, next) && LacksToken(entries, token) && token < next
    ensures var (after, n) := AllChanged(entries, next, changes);
            ValidEntries(after, n) && LacksToken(after, token) && token < n
  {
    if changes != [] {
      var front := changes[..|changes| - 1];
      ChangesLackToken(entries, next, front, token);
      var (before, n) := AllChanged(entries, next, front);
      ChangeLacksToken(before, n, changes[|changes| - 1], token);
    }
  }

  /** Once a registration has been superseded, disposing it changes nothing, whatever is registered, deleted or disposed
      in between. */
  lemma SupersededForGood<C(!new)>(entries: seq<Entry<C>>, e: Entry<C>, at: Position, k: nat, changes: seq<Change<C>>)
    requires ValidEntries(entries, e.token) && !at.BothGiven? && k < |entries| && entries[k].id == e.id
    ensures var after := AllChanged(RegisterIn(entries, e, at).0, e.token + 1, changes).0;
            WithoutToken(after, entries[k].token) == after
  {
    var first := RegisterIn(entries, e, at).0;
    SupersededIsGone(entries, e, at, k);
    RegisterKeepsValid(entries, e, at);
    ChangesLackToken(first, e.token + 1, changes, entries[k].token);
    NothingToRemove(AllChanged(first, e.token + 1, changes).0, entries[k].token);
  }

  lemma NothingToRemove<C(!new)>(entries: seq<Entry<C>>, token: nat)
    requires LacksToken(entries, token)
    ensures WithoutToken(entries, token) == entries
  {
  }

  // ----- What a chain runs -----

  // ----- What a run amounts to -----

  /** What the calls of `next` lead to, one after the other: each runs the rest of the chain with the override that the
      handler passes, or with the handler's own context. */
  ghost function Branches<C>(entries: seq<Entry<C>>, i: nat, ctx: C, trace: Trace): (b: seq<seq<C>>)
    requires i < |entries|
    ensures |b| == |entries[i].calls(ctx, trace)|
  {
    var calls := entries[i].calls(ctx, trace);
    seq(|calls|, k requires 0 <= k < |calls| =>
      RunFrom(entries, i + 1, if calls[k].Some? then calls[k].value else ctx, trace + [k]))
  }

  /** A run is that of the calls that its first handler makes, in order; with no handler left, the terminal function
      gets the context. */
  lemma RunOfCalls<C>(entries: seq<Entry<C>>, i: nat, ctx: C, trace: Trace)
    requires i <= |entries|
    ensures RunFrom(entries, i, ctx, trace)
         == if i == |entries| then [ctx] else Flatten(Branches(entries, i, ctx, trace))
  {
    if i < |entries| {
      var nexts, b := NextsOf(entries[i], ctx, trace), Branches(entries, i, ctx, trace);
      forall k | 0 <= k < |nexts|
        ensures b[k] == RunFrom(entries, i + 1, Current(nexts[k].override, ctx), nexts[k].trace)
      {
      }
      DispatchFlattens(entries, i + 1, ctx, nexts, b);
    }
  }

  lemma {:induction false} DispatchFlattens<C>(entries: seq<Entry<C>>, i: nat, ctx: C, nexts: seq<Next<C>>,
                                               b: seq<seq<C>>)
    requires i <= |entries| && |b| == |nexts|
    requires forall k | 0 <= k < |nexts| ::
               b[k] == RunFrom(entries, i, Current(nexts[k].override, ctx), nexts[k].trace)
    ensures Dispatch(entries, i, ctx, nexts) == Flatten(b)
    decreases |nexts|
  {
    if nexts != [] {
      DispatchFlattens(entries, i, ctx, nexts[1..], b[1..]);
    }
  }

  /** What an invocation and the handlers behind it do to the slot before and in each of its calls of `next`. */
  ghost function ActBranches<C>(entries: seq<Entry<C>>, i: nat, ctx: C, trace: Trace, acts: Acts<C>)
    : (b: seq<seq<Change<C>>>)
    requires i < |entries|
    ensures |b| == |entries[i].calls(ctx, trace)|
  {
    var calls := entries[i].calls(ctx, trace);
    seq(|calls|, k requires 0 <= k < |calls| =>
      acts(ctx, trace, k)
      + ActsFrom(entries, i + 1, if calls[k].Some? then calls[k].value else ctx, trace + [k], acts))
  }

  /** The slot is changed by the first handler before, between and after its calls of `next`, and in them by the
      handlers behind it. */
  lemma ActsOfCalls<C>(entries: seq<Entry<C>>, i: nat, ctx: C, trace: Trace, acts: Acts<C>)
    requires i <= |entries|
    ensures ActsFrom(entries, i, ctx, trace, acts)
         == if i == |entries| then []
            else Flatten(ActBranches(entries, i, ctx, trace, acts))
                 + acts(ctx, trace, |entries[i].calls(ctx, trace)|)
  {
    if i < |entries| {
      var nexts, b := NextsOf(entries[i], ctx, trace), ActBranches(entries, i, ctx, trace, acts);
      forall k | 0 <= k < |nexts|
        ensures b[k] == acts(ctx, trace, k)
                        + ActsFrom(entries, i + 1, Current(nexts[k].override, ctx), nexts[k].trace, acts)
      {
      }
      ActsFlatten(entries, i + 1, ctx, trace, nexts, 0, acts, b);
      assert b[0..] == b;
    }
  }

  lemma {:induction false} ActsFlatten<C>(entries: seq<Entry<C>>, i: nat, ctx: C, trace: Trace, nexts: seq<Next<C>>,
                                          k: nat, acts: Acts<C>, b: seq<seq<Change<C>>>)
    requires i <= |entries| && |b| == |nexts| && k <= |nexts|
    requires forall j | 0 <= j < |nexts| ::
               b[j] == acts(ctx, trace, j)
                       + ActsFrom(entries, i, Current(nexts[j].override, ctx), nexts[j].trace, acts)
    ensures ActsAfter(entries, i, ctx, trace, nexts, k, acts) == Flatten(b[k..]) + acts(ctx, trace, |nexts|)
    decreases |nexts| - k
  {
    if k < |nexts| {
      ActsFlatten(entries, i, ctx, trace, nexts, k + 1, acts, b);
      assert b[k..][1..] == b[k + 1..];
      assert b[k] + (Flatten(b[k + 1..]) + acts(ctx, trace, |nexts|))
          == b[k] + Flatten(b[k + 1..]) + acts(ctx, trace, |nexts|);
    }
  }

  function Product(counts: seq<nat>): nat {
    if counts == [] then 1 else counts[0] * Product(counts[1..])
  }

  /** When the number of calls of every handler is always the same, the terminal function runs as often as the product
      of these numbers. */
  lemma {:induction false} TerminalCount<C(!new)>(entries: seq<Entry<C>>, i: nat, ctx: C, trace: Trace,
                                                  counts: seq<nat>)
    requires i <= |entries| && |counts| == |entries| - i
    requires forall k, c, t | i <= k < |entries| :: |entries[k].calls(c, t)| == counts[k - i]
    ensures |RunFrom(entries, i, ctx, trace)| == Product(counts)
    decreases |entries| - i, 1, 0
  {
    if i < |entries| {
      DispatchCount(entries, i + 1, ctx, NextsOf(entries[i], ctx, trace), counts[1..]);
    }
  }

  lemma {:induction false} DispatchCount<C(!new)>(entries: seq<Entry<C>>, i: nat, ctx: C, nexts: seq<Next<C>>,
                                                  counts: seq<nat>)
    requires i <= |entries| && |counts| == |entries| - i
    requires forall k, c, t | i <= k < |entries| :: |entries[k].calls(c, t)| == counts[k - i]
    ensures |Dispatch(entries, i, ctx, nexts)| == |nexts| * Product(counts)
    decreases |entries| - i, 2, |nexts|
  {
    if nexts != [] {
      TerminalCount(entries, i, Current(nexts[0].override, ctx), nexts[0].trace, counts);
      DispatchCount(entries, i, ctx, nexts[1..], counts);
      assert |nexts| * Product(counts) == Product(counts) + (|nexts| - 1) * Product(counts);
    }
  }

  /** A call of `next` on a path: its number among the calls of its handler, and the override it passes. */
  datatype Hop<C> = Hop(number: nat, override: Option<C>)

  /** A path through the chain: the call of `next` that is followed at each entry, as the handlers make it. */
  ghost predicate IsPath<C>(entries: seq<Entry<C>>, i: nat, ctx: C, trace: Trace, path: seq<Hop<C>>)
    requires i <= |entries|
    decreases |entries| - i
  {
    if i == |entries| then path == []
    else
      var calls := entries[i].calls(ctx, trace);
      && path != [] && path[0].number < |calls| && path[0].override == calls[path[0].number]
      && IsPath(entries, i + 1, if path[0].override.Some? then path[0].override.value else ctx,
                trace + [path[0].number], path[1..])
  }

  /** The last override given on a path, or the context the run started with. */
  function LastOverride<C>(path: seq<Hop<C>>, ctx: C): C {
    if path == [] then ctx
    else if path[|path| - 1].override.Some? then path[|path| - 1].override.value
    else LastOverride(path[..|path| - 1], ctx)
  }

  lemma {:induction false} LastOverrideHead<C>(path: seq<Hop<C>>, ctx: C)
    requires path != []
    ensures LastOverride(path, ctx)
         == LastOverride(path[1..], if path[0].override.Some? then path[0].override.value else ctx)
  {
    var n := |path| - 1;
    if n > 0 && path[n].override.None? {
      LastOverrideHead(path[..n], ctx);
      assert path[..n][1..] == path[1..][..n - 1];
    }
  }

  /** Some path ends with `t` as its last override. */
  ghost predicate Reaches<C(!new)>(entries: seq<Entry<C>>, i: nat, ctx: C, trace: Trace, t: C)
    requires i <= |entries|
  {
    exists path :: IsPath(entries, i, ctx, trace, path) && LastOverride(path, ctx) == t
  }

  lemma EndReaches<C(!new)>(entries: seq<Entry<C>>, ctx: C, trace: Trace, t: C)
    ensures Reaches(entries, |entries|, ctx, trace, t) <==> t == ctx
  {
    var end: seq<Hop<C>> := [];
    assert IsPath(entries, |entries|, ctx, trace, end) && LastOverride(end, ctx) == ctx;
    if path :| IsPath(entries, |entries|, ctx, trace, path) && LastOverride(path, ctx) == t {
      assert path == end;
    }
  }

  /** Some path through the call `next` ends with `t` as its last override. */
  ghost predicate LeadsTo<C(!new)>(entries: seq<Entry<C>>, i: nat, ctx: C, next: Next<C>, t: C)
    requires i <= |entries|
  {
    Reaches(entries, i, Current(next.override, ctx), next.trace, t)
  }

  lemma ReachesThrough<C(!new)>(entries: seq<Entry<C>>, i: nat, ctx: C, trace: Trace, t: C)
    requires i < |entries|
    ensures Reaches(entries, i, ctx, trace, t)
       <==> exists next | next in NextsOf(entries[i], ctx, trace) :: LeadsTo(entries, i + 1, ctx, next, t)
  {
    var nexts := NextsOf(entries[i], ctx, trace);
    if path: seq<Hop<C>> :| IsPath(entries, i, ctx, trace, path) && LastOverride(path, ctx) == t {
      LastOverrideHead(path, ctx);
      var next := nexts[path[0].number];
      assert next in NextsOf(entries[i], ctx, trace) && LeadsTo(entries, i + 1, ctx, next, t);
    }
    if next :| next in nexts && LeadsTo(entries, i + 1, ctx, next, t) {
      var k :| 0 <= k < |nexts| && nexts[k] == next;
      ReachesByCall(entries, i, ctx, trace, k, t);
    }
  }

  lemma ReachesByCall<C(!new)>(entries: seq<Entry<C>>, i: nat, ctx: C, trace: Trace, k: nat, t: C)
    requires i < |entries| && k < |NextsOf(entries[i], ctx, trace)|
    requires LeadsTo(entries, i + 1, ctx, NextsOf(entries[i], ctx, trace)[k], t)
    ensures Reaches(entries, i, ctx, trace, t)
  {
    var override := entries[i].calls(ctx, trace)[k];
    var c := if override.Some? then override.value else ctx;
    var path :| IsPath(entries, i + 1, c, trace + [k], path) && LastOverride(path, c) == t;
    var full := [Hop(k, override)] + path;
    assert full[1..] == path && full[0] == Hop(k, override);
    LastOverrideHead(full, ctx);
    assert IsPath(entries, i, ctx, trace, full);
  }

  /** The terminal function receives a context exactly when some path ends with it as the last override. */
  lemma {:induction false} TerminalContexts<C(!new)>(entries: seq<Entry<C>>, i: nat, ctx: C, trace: Trace, t: C)
    requires i <= |entries|
    ensures t in RunFrom(entries, i, ctx, trace) <==> Reaches(entries, i, ctx, trace, t)
    decreases |entries| - i, 1, 0
  {
    if i == |entries| {
      EndReaches(entries, ctx, trace, t);
    } else {
      DispatchContexts(entries, i + 1, ctx, NextsOf(entries[i], ctx, trace), t);
      ReachesThrough(entries, i, ctx, trace, t);
    }
  }

  lemma {:induction false} DispatchContexts<C(!new)>(entries: seq<Entry<C>>, i: nat, ctx: C, nexts: seq<Next<C>>, t: C)
    requires i <= |entries|
    ensures t in Dispatch(entries, i, ctx, nexts) <==> exists next | next in nexts :: LeadsTo(entries, i, ctx, next, t)
    decreases |entries| - i, 2, |nexts|
  {
    if nexts != [] {
      TerminalContexts(entries, i, Current(nexts[0].override, ctx), nexts[0].trace, t);
      assert LeadsTo(entries, i, ctx, nexts[0], t)
        <==> t in RunFrom(entries, i, Current(nexts[0].override, ctx), nexts[0].trace);
      DispatchContexts(entries, i, ctx, nexts[1..], t);
      assert forall n :: n in nexts <==> n == nexts[0] || n in nexts[1..];
    }
  }
}

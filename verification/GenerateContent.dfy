/** Which streamed parts make up one content part of the assembled message. */
module GenerateContent {
  import opened Units
  import opened Generate
  import opened GenerateMessage

  /** The delta at position `j` is appended to a stored call, past the pending part. */
  predicate IsRouted(parts: seq<Part>, j: nat)
    requires j < |parts|
  {
    parts[j].ToolCallPart? && Owner(parts, j).Some? && Owner(parts, j) != OpenHeader(parts, j)
  }

  /** The last part before position `n` that is no routed delta. */
  function LastUnrouted(parts: seq<Part>, n: nat): (u: Option<nat>)
    requires n <= |parts|
    ensures u.Some? ==> u.value < n && !IsRouted(parts, u.value)
    ensures forall i | (if u.Some? then u.value + 1 else 0) <= i < n :: IsRouted(parts, i)
  {
    if n == 0 then None else if IsRouted(parts, n - 1) then LastUnrouted(parts, n - 1) else Some(n - 1)
  }

  /** Text continues text, and thinking continues thinking that has no signature; only routed deltas may lie between. */
  predicate Continues(parts: seq<Part>, j: nat)
    requires j < |parts|
  {
    var u := LastUnrouted(parts, j);
    && u.Some?
    && (|| (parts[u.value].Text? && parts[j].Text?)
        || (parts[u.value].Think? && parts[u.value].encrypted.None? && parts[j].Think?))
  }

  /** The part at position `j` begins a content part. */
  predicate Starts(parts: seq<Part>, j: nat)
    requires j < |parts|
  {
    parts[j].IsContent() && !Continues(parts, j)
  }

  function StartsIn(parts: seq<Part>): nat -> bool {
    (j: nat) => j < |parts| && Starts(parts, j)
  }

  /** The positions before `n` where a content part begins. */
  function StartsOf(parts: seq<Part>, n: nat): seq<nat> {
    Positions(n, StartsIn(parts))
  }

  predicate SameKind(a: Part, b: Part) {
    a.Text? == b.Text? && a.Think? == b.Think? && a.Media? == b.Media?
  }

  /** `part` is made of the parts from `a` to `b`. */
  ghost predicate MadeOf(parts: seq<Part>, a: nat, b: nat, part: Part) {
    a < b <= |parts| && SameKind(part, parts[a]) && Atoms(part) == AllAtoms(parts[a..b])
  }

  /** The content parts but the last are made of the parts from their own beginning to the next. */
  ghost predicate EarlierGroups(parts: seq<Part>, starts: seq<nat>, content: seq<Part>) {
    && |content| == |starts|
    && forall k | 0 <= k < |starts| - 1 :: MadeOf(parts, starts[k], starts[k + 1], content[k])
  }

  /** The content parts are made of the groups of parts that begin at `starts`; the last one reaches to `n`. */
  ghost predicate Grouped(parts: seq<Part>, n: nat, starts: seq<nat>, content: seq<Part>) {
    && EarlierGroups(parts, starts, content)
    && (starts != [] ==> MadeOf(parts, starts[|starts| - 1], n, content[|starts| - 1]))
  }

  lemma MadeOfMore(parts: seq<Part>, a: nat, n: nat, part: Part, more: Part)
    requires MadeOf(parts, a, n, part) && n < |parts| && Extended(part, more, parts[n])
    ensures MadeOf(parts, a, n + 1, more)
  {
    assert parts[a..n + 1] == parts[a..n] + [parts[n]];
    AllAtomsAppend(parts[a..n], parts[n]);
  }

  lemma MadeOfOne(parts: seq<Part>, n: nat)
    requires n < |parts|
    ensures MadeOf(parts, n, n + 1, parts[n])
  {
    var none: seq<Part> := [];
    assert parts[n..n + 1] == none + [parts[n]];
    AllAtomsAppend(none, parts[n]);
    assert Atoms(parts[n]) == [] + Atoms(parts[n]);
  }

  /** `more` has the atoms of `part` and of the streamed part. */
  ghost predicate Extended(part: Part, more: Part, streamed: Part) {
    SameKind(more, part) && Atoms(more) == Atoms(part) + Atoms(streamed)
  }

  /** At most the last content part is extended. */
  ghost predicate LastGrows(content: seq<Part>, grown: seq<Part>, streamed: Part) {
    && |grown| == |content|
    && (forall k | 0 <= k < |content| - 1 :: grown[k] == content[k])
    && (content != [] ==> Extended(content[|content| - 1], grown[|content| - 1], streamed))
  }

  lemma GroupGrows(parts: seq<Part>, n: nat, starts: seq<nat>, content: seq<Part>, grown: seq<Part>)
    requires n < |parts| && Grouped(parts, n, starts, content) && LastGrows(content, grown, parts[n])
    ensures Grouped(parts, n + 1, starts, grown)
  {
    EarlierKept(parts, starts, content, grown);
    if starts != [] {
      var m := |starts| - 1;
      MadeOfMore(parts, starts[m], n, content[m], grown[m]);
    }
  }

  lemma EarlierKept(parts: seq<Part>, starts: seq<nat>, content: seq<Part>, grown: seq<Part>)
    requires EarlierGroups(parts, starts, content) && |grown| == |content|
    requires forall k | 0 <= k < |content| - 1 :: grown[k] == content[k]
    ensures EarlierGroups(parts, starts, grown)
  {
  }

  lemma GroupStarts(parts: seq<Part>, n: nat, starts: seq<nat>, content: seq<Part>)
    requires n < |parts| && Grouped(parts, n, starts, content)
    ensures Grouped(parts, n + 1, starts + [n], content + [parts[n]])
  {
    MadeOfOne(parts, n);
    EarlierClosed(parts, n, starts, content, parts[n]);
  }

  lemma EarlierClosed(parts: seq<Part>, n: nat, starts: seq<nat>, content: seq<Part>, part: Part)
    requires Grouped(parts, n, starts, content)
    ensures EarlierGroups(parts, starts + [n], content + [part])
  {
    var more, grown := starts + [n], content + [part];
    forall k | 0 <= k < |more| - 1
      ensures MadeOf(parts, more[k], more[k + 1], grown[k])
    {
      assert k < |starts| - 1 ==> MadeOf(parts, starts[k], starts[k + 1], content[k]);
    }
  }

  // ----- The loop -----

  /** The content so far together with a pending content part. */
  function HeldContent(s: State): seq<Part> {
    if s.pending.Some? && s.pending.value.IsContent() then s.content + [s.pending.value] else s.content
  }

  /** The pending part is of the kind of the last unrouted part. */
  ghost predicate PendingIsLast(parts: seq<Part>, n: nat, s: State)
    requires n <= |parts|
  {
    var u := LastUnrouted(parts, n);
    && (s.pending.Some? <==> u.Some?)
    && (u.Some? ==> SameKind(s.pending.value, parts[u.value]))
    && (u.Some? && parts[u.value].Think? ==> s.pending.value.encrypted == parts[u.value].encrypted)
  }

  lemma RoutedInRun(parts: seq<Part>, n: nat)
    requires n < |parts|
    ensures IsRouted(parts, n) <==> RouteTo(Run(parts, n), parts[n]).Some?
  {
    RunInvariant(parts, n);
    if parts[n].ToolCallPart? {
      OwnerIsTarget(parts, n, Run(parts, n));
    }
  }

  lemma PendingNext(parts: seq<Part>, n: nat, s: State)
    requires n < |parts| && PendingIsLast(parts, n, s) && (IsRouted(parts, n) <==> RouteTo(s, parts[n]).Some?)
    ensures PendingIsLast(parts, n + 1, Step(s, parts[n]))
  {
  }

  /** What a step does to the content held. */
  lemma HeldNext(parts: seq<Part>, n: nat, s: State)
    requires n < |parts| && PendingIsLast(parts, n, s) && (IsRouted(parts, n) <==> RouteTo(s, parts[n]).Some?)
    ensures var held, next := HeldContent(s), HeldContent(Step(s, parts[n]));
            if Starts(parts, n) then next == held + [parts[n]]
            else LastGrows(held, next, parts[n])
  {
    if Continues(parts, n) {
      MergeKeepsAtoms(s.pending.value, parts[n]);
    } else if !Starts(parts, n) {
      assert Atoms(parts[n]) == [];
      assert HeldContent(Step(s, parts[n])) == HeldContent(s);
    }
  }

  lemma GroupedNext(parts: seq<Part>, n: nat, s: State)
    requires n < |parts| && PendingIsLast(parts, n, s) && (IsRouted(parts, n) <==> RouteTo(s, parts[n]).Some?)
    requires Grouped(parts, n, StartsOf(parts, n), HeldContent(s))
    ensures Grouped(parts, n + 1, StartsOf(parts, n + 1), HeldContent(Step(s, parts[n])))
  {
    var held, next := HeldContent(s), HeldContent(Step(s, parts[n]));
    HeldNext(parts, n, s);
    if Starts(parts, n) {
      GroupStarts(parts, n, StartsOf(parts, n), held);
    } else {
      GroupGrows(parts, n, StartsOf(parts, n), held, next);
    }
  }

  ghost predicate HoldsGroups(parts: seq<Part>, n: nat, s: State)
    requires n <= |parts|
  {
    PendingIsLast(parts, n, s) && Grouped(parts, n, StartsOf(parts, n), HeldContent(s))
  }

  lemma GroupsNext(parts: seq<Part>, n: nat, next: nat, s: State, t: State)
    requires next == n + 1 <= |parts| && HoldsGroups(parts, n, s) && t == Step(s, parts[n])
    requires IsRouted(parts, n) <==> RouteTo(s, parts[n]).Some?
    ensures HoldsGroups(parts, next, t)
  {
    PendingNext(parts, n, s);
    GroupedNext(parts, n, s);
  }

  lemma {:induction false} RunGroups(parts: seq<Part>, n: nat)
    requires n <= |parts|
    ensures HoldsGroups(parts, n, Run(parts, n))
  {
    if n == 0 {
      NoGroups(parts);
    } else {
      RunGroups(parts, n - 1);
      GroupsAfter(parts, n - 1, n);
    }
  }

  lemma GroupsAfter(parts: seq<Part>, n: nat, next: nat)
    requires next == n + 1 <= |parts| && HoldsGroups(parts, n, Run(parts, n))
    ensures HoldsGroups(parts, next, Run(parts, next))
  {
    RoutedInRun(parts, n);
    RunNext(parts, next);
    GroupsNext(parts, n, next, Run(parts, n), Run(parts, next));
  }

  lemma NoGroups(parts: seq<Part>)
    ensures HoldsGroups(parts, 0, Run(parts, 0))
  {
  }

  lemma RunNext(parts: seq<Part>, n: nat)
    requires 0 < n <= |parts|
    ensures Run(parts, n) == Step(Run(parts, n - 1), parts[n - 1])
  {
  }

  /** Every stream: the message has one content part for each streamed part that does not continue the one before, made
      of that part and those that continue it. */
  lemma ContentParts(parts: seq<Part>)
    ensures Grouped(parts, |parts|, StartsOf(parts, |parts|), Assemble(parts).content)
  {
    RunGroups(parts, |parts|);
    assert Assemble(parts).content == HeldContent(Run(parts, |parts|));
  }
}

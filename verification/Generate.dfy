/** `generate`: assembling one assistant message from a stream of parts in which the argument deltas of several tool
    calls may interleave. */
module Generate {
  import opened Units

  /** `index` and `_streamIndex`: a number or a string. */
  datatype StreamIndex = Number(n: int) | Id(s: JsString)

  /** `Media` stands for the content parts that never merge. */
  datatype Part =
    | Text(text: JsString)
    | Think(think: JsString, encrypted: Option<JsString>)
    | Media(payload: JsString)
    | ToolCall(id: JsString, name: JsString, arguments: Option<JsString>, extras: Option<JsString>,
               streamIndex: Option<StreamIndex>)
    | ToolCallPart(argumentsPart: Option<JsString>, index: Option<StreamIndex>)
  {
    predicate IsContent() { Text? || Think? || Media? }
  }

  datatype StoredCall = StoredCall(id: JsString, name: JsString, arguments: Option<JsString>, extras: Option<JsString>)

  function Stored(call: Part, arguments: Option<JsString>): StoredCall
    requires call.ToolCall?
  {
    StoredCall(call.id, call.name, arguments, call.extras)
  }

  /** `null` fragments add nothing; the first fragment replaces `null` arguments. */
  function AppendArguments(arguments: Option<JsString>, fragment: Option<JsString>): Option<JsString> {
    match fragment
    case None => arguments
    case Some(b) => match arguments case None => fragment case Some(a) => Some(a + b)
  }

  /** `mergeInPlace`: the merged target, or none when it refuses. */
  function Merge(target: Part, source: Part): Option<Part> {
    match (target, source)
    case (Text(a), Text(b)) => Some(Text(a + b))
    case (Think(a, None), Think(b, encrypted)) => Some(Think(a + b, encrypted))
    case (ToolCall(_, _, arguments, _, _), ToolCallPart(fragment, _)) =>
      Some(target.(arguments := AppendArguments(arguments, fragment)))
    case _ => None
  }

  // ----- The loop, as a function -----

  datatype State = State(content: seq<Part>, calls: seq<StoredCall>, pending: Option<Part>,
                         indexMap: map<StreamIndex, nat>)

  const START := State([], [], None, map[])

  predicate IsPendingToolCallAtIndex(pending: Option<Part>, index: StreamIndex) {
    pending.Some? && pending.value.ToolCall? && pending.value.streamIndex == Some(index)
  }

  /** The call that an indexed delta is routed to, past the pending part. */
  function RouteTo(s: State, part: Part): Option<nat> {
    if part.ToolCallPart? && part.index.Some? && !IsPendingToolCallAtIndex(s.pending, part.index.value)
       && part.index.value in s.indexMap
    then Some(s.indexMap[part.index.value])
    else None
  }

  /** `flushPart`. */
  function Flush(s: State): State {
    match s.pending
    case None => s
    case Some(part) =>
      if part.IsContent() then s.(content := s.content + [part], pending := None)
      else if part.ToolCall? then
        s.(calls := s.calls + [Stored(part, part.arguments)], pending := None,
           indexMap := if part.streamIndex.Some? then s.indexMap[part.streamIndex.value := |s.calls|] else s.indexMap)
      else s.(pending := None)
  }

  /** `message.toolCalls[at]` with a fragment appended; nothing when there is no such call. */
  function AppendTo(calls: seq<StoredCall>, at: nat, fragment: Option<JsString>): seq<StoredCall> {
    if at < |calls| then calls[at := calls[at].(arguments := AppendArguments(calls[at].arguments, fragment))]
    else calls
  }

  function Step(s: State, part: Part): State {
    var to := RouteTo(s, part);
    if to.Some? then s.(calls := AppendTo(s.calls, to.value, part.argumentsPart))
    else if s.pending.None? then s.(pending := Some(part))
    else
      var merged := Merge(s.pending.value, part);
      if merged.Some? then s.(pending := merged) else Flush(s).(pending := Some(part))
  }

  function Run(parts: seq<Part>, n: nat): State
    requires n <= |parts|
  {
    if n == 0 then START else Step(Run(parts, n - 1), parts[n - 1])
  }

  // ----- What the message must contain -----

  /** The number of tool-call headers among the first `n` parts. */
  function Headers(parts: seq<Part>, n: nat): (k: nat)
    requires n <= |parts|
    ensures k <= n
  {
    if n == 0 then 0 else Headers(parts, n - 1) + (if parts[n - 1].ToolCall? then 1 else 0)
  }

  /** The most recent header with the given index before position `n`. */
  function LatestHeader(parts: seq<Part>, n: nat, index: StreamIndex): (h: Option<nat>)
    requires n <= |parts|
    ensures h.Some? ==> h.value < n && parts[h.value].ToolCall? && parts[h.value].streamIndex == Some(index)
    ensures forall i | (if h.Some? then h.value + 1 else 0) <= i < n ::
              !(parts[i].ToolCall? && parts[i].streamIndex == Some(index))
  {
    if n == 0 then None
    else if parts[n - 1].ToolCall? && parts[n - 1].streamIndex == Some(index) then Some(n - 1)
    else LatestHeader(parts, n - 1, index)
  }

  /** The header before position `n` that only argument deltas follow. */
  function OpenHeader(parts: seq<Part>, n: nat): (h: Option<nat>)
    requires n <= |parts|
    ensures h.Some? ==> h.value < n && parts[h.value].ToolCall?
    ensures h.Some? ==> forall i | h.value < i < n :: parts[i].ToolCallPart?
  {
    if n == 0 then None
    else if parts[n - 1].ToolCall? then Some(n - 1)
    else if parts[n - 1].ToolCallPart? then OpenHeader(parts, n - 1)
    else None
  }

  /** The header that the delta at position `j` belongs to: the most recent one with the delta's index, or else the one
      still open. A delta with neither belongs to no call. */
  function Owner(parts: seq<Part>, j: nat): (h: Option<nat>)
    requires j < |parts| && parts[j].ToolCallPart?
  {
    var index := parts[j].index;
    if index.Some? && LatestHeader(parts, j, index.value).Some? then LatestHeader(parts, j, index.value)
    else OpenHeader(parts, j)
  }

  /** The arguments of the header at `h` followed, in order of arrival, by the deltas before position `n` it owns. */
  function ArgumentsOf(parts: seq<Part>, h: nat, n: nat): Option<JsString>
    requires h < n <= |parts| && parts[h].ToolCall?
    decreases n
  {
    if n == h + 1 then parts[h].arguments
    else
      var before := ArgumentsOf(parts, h, n - 1);
      if parts[n - 1].ToolCallPart? && Owner(parts, n - 1) == Some(h) then
        AppendArguments(before, parts[n - 1].argumentsPart)
      else before
  }

  /** How far the headers have been stored: all of them, or those before the open one. */
  function StoredUpTo(parts: seq<Part>, n: nat): (k: nat)
    requires n <= |parts|
    ensures k <= n
  {
    var open := OpenHeader(parts, n);
    if open.Some? then open.value else n
  }

  /** The stored calls are those of the headers before position `k`, with the arguments that arrived before `n`. */
  ghost predicate CallsAssembled(parts: seq<Part>, k: nat, n: nat, calls: seq<StoredCall>)
    requires k <= n <= |parts|
  {
    && |calls| == Headers(parts, k)
    && forall h | 0 <= h < k && parts[h].ToolCall? ::
         Headers(parts, h) < |calls| && calls[Headers(parts, h)] == Stored(parts[h], ArgumentsOf(parts, h, n))
  }

  /** The index map points at the most recent call of each index among the headers before position `k`. */
  ghost predicate IndexMapCurrent(parts: seq<Part>, k: nat, indexMap: map<StreamIndex, nat>)
    requires k <= |parts|
  {
    forall index ::
      var h := LatestHeader(parts, k, index);
      if h.Some? then index in indexMap && indexMap[index] == Headers(parts, h.value) else index !in indexMap
  }

  ghost predicate PendingOpen(parts: seq<Part>, n: nat, s: State)
    requires n <= |parts|
  {
    var open := OpenHeader(parts, n);
    if open.Some? then
      s.pending == Some(parts[open.value].(arguments := ArgumentsOf(parts, open.value, n)))
    else s.pending.Some? ==> !s.pending.value.ToolCall?
  }

  ghost predicate Invariant(parts: seq<Part>, n: nat, s: State)
    requires n <= |parts|
  {
    && CallsAssembled(parts, StoredUpTo(parts, n), n, s.calls)
    && IndexMapCurrent(parts, StoredUpTo(parts, n), s.indexMap)
    && PendingOpen(parts, n, s)
  }

  lemma {:induction false} HeadersMonotone(parts: seq<Part>, a: nat, b: nat)
    requires a <= b <= |parts|
    ensures Headers(parts, a) <= Headers(parts, b)
    ensures a < b && parts[a].ToolCall? ==> Headers(parts, a) < Headers(parts, b)
    ensures (forall i | a <= i < b :: !parts[i].ToolCall?) ==> Headers(parts, a) == Headers(parts, b)
    decreases b
  {
    if a < b {
      HeadersMonotone(parts, a, b - 1);
    }
  }

  lemma {:induction false} LatestExtends(parts: seq<Part>, a: nat, b: nat, index: StreamIndex)
    requires a <= b <= |parts|
    requires forall i | a <= i < b :: !(parts[i].ToolCall? && parts[i].streamIndex == Some(index))
    ensures LatestHeader(parts, a, index) == LatestHeader(parts, b, index)
    decreases b
  {
    if a < b {
      LatestExtends(parts, a, b - 1, index);
    }
  }

  /** Flushing stores the open call, so that all headers are stored. */
  lemma FlushStoresAll(parts: seq<Part>, n: nat, s: State)
    requires n <= |parts| && Invariant(parts, n, s)
    ensures CallsAssembled(parts, n, n, Flush(s).calls) && IndexMapCurrent(parts, n, Flush(s).indexMap)
  {
    var open := OpenHeader(parts, n);
    if open.Some? {
      var p := open.value;
      HeadersMonotone(parts, p + 1, n);
      StoreOpenCall(parts, n, s, p);
      StoreOpenIndex(parts, n, s.indexMap, p);
    }
  }

  lemma StoreOpenCall(parts: seq<Part>, n: nat, s: State, p: nat)
    requires n <= |parts| && Invariant(parts, n, s) && OpenHeader(parts, n) == Some(p)
    ensures CallsAssembled(parts, n, n, Flush(s).calls)
  {
    HeadersMonotone(parts, p + 1, n);
    forall h | 0 <= h < p && parts[h].ToolCall?
      ensures Headers(parts, h) < Headers(parts, p)
    {
      HeadersMonotone(parts, h, p);
    }
  }

  lemma LatestBehind(parts: seq<Part>, p: nat, n: nat, index: StreamIndex)
    requires p < n <= |parts| && parts[p].ToolCall? && forall i | p < i < n :: parts[i].ToolCallPart?
    ensures LatestHeader(parts, n, index)
         == if parts[p].streamIndex == Some(index) then Some(p) else LatestHeader(parts, p, index)
  {
    LatestExtends(parts, p + 1, n, index);
  }

  lemma StoreOpenIndex(parts: seq<Part>, n: nat, indexMap: map<StreamIndex, nat>, p: nat)
    requires p < n <= |parts| && parts[p].ToolCall? && forall i | p < i < n :: parts[i].ToolCallPart?
    requires IndexMapCurrent(parts, p, indexMap)
    ensures var index := parts[p].streamIndex;
            IndexMapCurrent(parts, n, if index.Some? then indexMap[index.value := Headers(parts, p)] else indexMap)
  {
    forall index
      ensures LatestHeader(parts, n, index)
           == if parts[p].streamIndex == Some(index) then Some(p) else LatestHeader(parts, p, index)
    {
      LatestBehind(parts, p, n, index);
    }
  }

  /** A part that is no delta leaves the arguments of every header alone. */
  lemma CallsKept(parts: seq<Part>, k: nat, n: nat, calls: seq<StoredCall>)
    requires k <= n < |parts| && CallsAssembled(parts, k, n, calls) && !parts[n].ToolCallPart?
    ensures CallsAssembled(parts, k, n + 1, calls)
  {
  }

  lemma StepHeader(parts: seq<Part>, n: nat, s: State)
    requires n < |parts| && Invariant(parts, n, s) && parts[n].ToolCall?
    ensures Invariant(parts, n + 1, Step(s, parts[n]))
  {
    FlushStoresAll(parts, n, s);
    CallsKept(parts, n, n, Flush(s).calls);
  }

  /** Parts that are no headers leave the most recent headers as they are. */
  lemma IndexesKept(parts: seq<Part>, a: nat, b: nat, indexMap: map<StreamIndex, nat>)
    requires a <= b <= |parts| && IndexMapCurrent(parts, a, indexMap)
    requires forall i | a <= i < b :: !parts[i].ToolCall?
    ensures IndexMapCurrent(parts, b, indexMap)
  {
    forall index
      ensures LatestHeader(parts, a, index) == LatestHeader(parts, b, index)
    {
      LatestExtends(parts, a, b, index);
    }
  }

  lemma ContentFlushes(s: State, part: Part)
    requires part.IsContent()
    ensures Step(s, part).calls == Flush(s).calls && Step(s, part).indexMap == Flush(s).indexMap
    ensures Step(s, part).pending.Some? && Step(s, part).pending.value.IsContent()
  {
  }

  lemma StepContent(parts: seq<Part>, n: nat, s: State)
    requires n < |parts| && Invariant(parts, n, s) && parts[n].IsContent()
    ensures Invariant(parts, n + 1, Step(s, parts[n]))
  {
    FlushStoresAll(parts, n, s);
    ContentFlushes(s, parts[n]);
    CallsKept(parts, n, n, Flush(s).calls);
    IndexesKept(parts, n, n + 1, Flush(s).indexMap);
  }

  /** The owner of a delta is where the loop sends it. */
  lemma OwnerIsTarget(parts: seq<Part>, n: nat, s: State)
    requires n < |parts| && Invariant(parts, n, s) && parts[n].ToolCallPart?
    ensures var to := RouteTo(s, parts[n]);
            if to.Some? then
              var h := Owner(parts, n);
              h.Some? && h.value < StoredUpTo(parts, n) && parts[h.value].ToolCall?
              && to.value == Headers(parts, h.value)
            else Owner(parts, n) == OpenHeader(parts, n)
  {
    var index := parts[n].index;
    if index.Some? {
      PendingIsOpen(parts, n, s, index.value);
      if IsPendingToolCallAtIndex(s.pending, index.value) {
        LatestIs(parts, n, index.value, OpenHeader(parts, n).value);
      } else {
        LatestIsStored(parts, n, s, index.value, StoredUpTo(parts, n));
      }
    }
  }

  /** The pending part is a call of the given index exactly when the open header has that index. */
  lemma PendingIsOpen(parts: seq<Part>, n: nat, s: State, index: StreamIndex)
    requires n <= |parts| && PendingOpen(parts, n, s)
    ensures var open := OpenHeader(parts, n);
            IsPendingToolCallAtIndex(s.pending, index)
            <==> open.Some? && parts[open.value].streamIndex == Some(index)
  {
  }

  lemma LatestIsStored(parts: seq<Part>, n: nat, s: State, index: StreamIndex, k: nat)
    requires n <= |parts| && k == StoredUpTo(parts, n) && IndexMapCurrent(parts, k, s.indexMap)
    requires var open := OpenHeader(parts, n); open.Some? ==> parts[open.value].streamIndex != Some(index)
    ensures var h := LatestHeader(parts, n, index);
            if h.Some? then h.value < k && index in s.indexMap && s.indexMap[index] == Headers(parts, h.value)
            else index !in s.indexMap
  {
    LatestExtends(parts, k, n, index);
  }

  lemma LatestIs(parts: seq<Part>, n: nat, index: StreamIndex, h: nat)
    requires h < n <= |parts| && parts[h].ToolCall? && parts[h].streamIndex == Some(index)
    requires forall i | h < i < n :: !parts[i].ToolCall?
    ensures LatestHeader(parts, n, index) == Some(h)
  {
  }

  lemma StepDelta(parts: seq<Part>, n: nat, s: State)
    requires n < |parts| && Invariant(parts, n, s) && parts[n].ToolCallPart?
    ensures Invariant(parts, n + 1, Step(s, parts[n]))
  {
    DeltaIndexes(parts, n, s);
    if RouteTo(s, parts[n]).Some? {
      RoutedDelta(parts, n, s);
    } else {
      UnroutedDelta(parts, n, s);
    }
  }

  lemma UnroutedDelta(parts: seq<Part>, n: nat, s: State)
    requires n < |parts| && Invariant(parts, n, s) && parts[n].ToolCallPart? && RouteTo(s, parts[n]).None?
    ensures var t := Step(s, parts[n]);
            CallsAssembled(parts, StoredUpTo(parts, n + 1), n + 1, t.calls) && PendingOpen(parts, n + 1, t)
  {
    OwnerIsTarget(parts, n, s);
    var k, t := StoredUpTo(parts, n), Step(s, parts[n]);
    assert t.calls == s.calls;
    forall h | 0 <= h < k && parts[h].ToolCall?
      ensures ArgumentsOf(parts, h, n + 1) == ArgumentsOf(parts, h, n)
    {
    }
    HeadersMonotone(parts, n, n + 1);
  }

  lemma DeltaKeepsMap(s: State, part: Part)
    requires part.ToolCallPart?
    ensures Step(s, part).indexMap == s.indexMap
  {
  }

  lemma DeltaIndexes(parts: seq<Part>, n: nat, s: State)
    requires n < |parts| && Invariant(parts, n, s) && parts[n].ToolCallPart?
    ensures IndexMapCurrent(parts, StoredUpTo(parts, n + 1), Step(s, parts[n]).indexMap)
  {
    DeltaKeepsMap(s, parts[n]);
    IndexesKept(parts, StoredUpTo(parts, n), StoredUpTo(parts, n + 1), s.indexMap);
  }

  lemma RoutedDelta(parts: seq<Part>, n: nat, s: State)
    requires n < |parts| && Invariant(parts, n, s) && parts[n].ToolCallPart? && RouteTo(s, parts[n]).Some?
    ensures var t := Step(s, parts[n]);
            CallsAssembled(parts, StoredUpTo(parts, n + 1), n + 1, t.calls) && PendingOpen(parts, n + 1, t)
  {
    OwnerIsTarget(parts, n, s);
    RoutedCalls(parts, n, s);
  }

  lemma OtherHeaders(parts: seq<Part>, o: nat, h: nat)
    requires o < |parts| && h < |parts| && h != o && parts[h].ToolCall? && parts[o].ToolCall?
    ensures Headers(parts, h) != Headers(parts, o)
  {
    if h < o {
      HeadersMonotone(parts, h, o);
    } else {
      HeadersMonotone(parts, o, h);
    }
  }

  /** A delta reaches the arguments of its owner and of no other header. */
  lemma DeltaReaches(parts: seq<Part>, n: nat, h: nat)
    requires h < n < |parts| && parts[h].ToolCall? && parts[n].ToolCallPart?
    ensures ArgumentsOf(parts, h, n + 1)
         == if Owner(parts, n) == Some(h) then AppendArguments(ArgumentsOf(parts, h, n), parts[n].argumentsPart)
            else ArgumentsOf(parts, h, n)
  {
  }

  lemma Reassembled(parts: seq<Part>, k: nat, n: nat, o: nat, calls: seq<StoredCall>)
    requires o < k <= n < |parts| && CallsAssembled(parts, k, n, calls)
    requires parts[n].ToolCallPart? && Owner(parts, n) == Some(o) && parts[o].ToolCall?
    ensures CallsAssembled(parts, k, n + 1, AppendTo(calls, Headers(parts, o), parts[n].argumentsPart))
  {
    var appended := AppendTo(calls, Headers(parts, o), parts[n].argumentsPart);
    forall h | 0 <= h < k && parts[h].ToolCall?
      ensures Headers(parts, h) < |appended|
      ensures appended[Headers(parts, h)] == Stored(parts[h], ArgumentsOf(parts, h, n + 1))
    {
      DeltaReaches(parts, n, h);
      if h != o {
        OtherHeaders(parts, o, h);
      }
    }
  }

  lemma DeltaStoresNothing(parts: seq<Part>, n: nat, calls: seq<StoredCall>)
    requires n < |parts| && parts[n].ToolCallPart? && CallsAssembled(parts, StoredUpTo(parts, n), n + 1, calls)
    ensures CallsAssembled(parts, StoredUpTo(parts, n + 1), n + 1, calls)
  {
    assert Headers(parts, n + 1) == Headers(parts, n);
  }

  lemma RoutedCalls(parts: seq<Part>, n: nat, s: State)
    requires n < |parts| && Invariant(parts, n, s) && parts[n].ToolCallPart? && RouteTo(s, parts[n]).Some?
    ensures CallsAssembled(parts, StoredUpTo(parts, n + 1), n + 1, Step(s, parts[n]).calls)
  {
    OwnerIsTarget(parts, n, s);
    var o := Owner(parts, n).value;
    Reassembled(parts, StoredUpTo(parts, n), n, o, s.calls);
    DeltaStoresNothing(parts, n, AppendTo(s.calls, Headers(parts, o), parts[n].argumentsPart));
  }

  lemma StepInvariant(parts: seq<Part>, k: nat, n: nat, s: State, t: State)
    requires n == k + 1 <= |parts| && Invariant(parts, k, s) && t == Step(s, parts[k])
    ensures Invariant(parts, n, t)
  {
    if parts[k].ToolCall? {
      StepHeader(parts, k, s);
    } else if parts[k].ToolCallPart? {
      StepDelta(parts, k, s);
    } else {
      StepContent(parts, k, s);
    }
  }

  lemma {:induction false} RunInvariant(parts: seq<Part>, n: nat)
    requires n <= |parts|
    ensures Invariant(parts, n, Run(parts, n))
  {
    if n > 0 {
      RunInvariant(parts, n - 1);
      StepInvariant(parts, n - 1, n, Run(parts, n - 1), Run(parts, n));
    }
  }

  /** The state after the stream has ended and the last pending part is flushed. */
  function Assemble(parts: seq<Part>): State {
    Flush(Run(parts, |parts|))
  }

  lemma CallsAreAssembled(parts: seq<Part>)
    ensures CallsAssembled(parts, |parts|, |parts|, Assemble(parts).calls)
    ensures forall index | index in Assemble(parts).indexMap ::
              Assemble(parts).indexMap[index] < |Assemble(parts).calls|
  {
    var n := |parts|;
    RunInvariant(parts, n);
    FlushStoresAll(parts, n, Run(parts, n));
    forall index | index in Assemble(parts).indexMap
      ensures Assemble(parts).indexMap[index] < |Assemble(parts).calls|
    {
      HeadersMonotone(parts, LatestHeader(parts, n, index).value, n);
    }
  }

  // ----- The arguments as text -----

  /** `null` counts as no text. */
  function TextOrEmpty(t: Option<JsString>): JsString {
    if t.Some? then t.value else []
  }

  /** Position `j` holds a delta of the header at `h`. */
  predicate OwnedBy(parts: seq<Part>, h: nat, j: nat)
    requires j < |parts|
  {
    parts[j].ToolCallPart? && Owner(parts, j) == Some(h)
  }

  /** Position `j` holds a delta of the header at `h`, behind it. */
  function DeltasOf(parts: seq<Part>, h: nat): nat -> bool {
    (j: nat) => h < j < |parts| && OwnedBy(parts, h, j)
  }

  ghost predicate AreDeltas(parts: seq<Part>, at: seq<nat>) {
    forall i | 0 <= i < |at| :: at[i] < |parts| && parts[at[i]].ToolCallPart?
  }

  ghost function FragmentTexts(parts: seq<Part>, at: seq<nat>): (t: seq<JsString>)
    requires AreDeltas(parts, at)
    ensures |t| == |at|
  {
    seq(|at|, i requires 0 <= i < |at| => TextOrEmpty(parts[at[i]].argumentsPart))
  }

  /** `r` is the header's text followed by the fragments at `at`, and absent exactly when none of these has text. */
  ghost predicate IsTextOf(parts: seq<Part>, h: nat, at: seq<nat>, r: Option<JsString>)
    requires h < |parts| && parts[h].ToolCall? && AreDeltas(parts, at)
  {
    && TextOrEmpty(r) == TextOrEmpty(parts[h].arguments) + Flatten(FragmentTexts(parts, at))
    && (r.None? <==> parts[h].arguments.None? && forall i | 0 <= i < |at| :: parts[at[i]].argumentsPart.None?)
  }

  /** The text of a call's arguments is its header's text followed by the texts of its deltas, in order of arrival;
      there are no arguments exactly when none of these has text. */
  lemma ArgumentsText(parts: seq<Part>, h: nat, n: nat, at: seq<nat>)
    requires h < n <= |parts| && parts[h].ToolCall? && Enumerates(at, n, DeltasOf(parts, h))
    ensures AreDeltas(parts, at) && IsTextOf(parts, h, at, ArgumentsOf(parts, h, n))
  {
    EnumeratesIff(at, n, DeltasOf(parts, h));
    ArgumentsAt(parts, h, n, at);
  }

  lemma {:induction false} ArgumentsAt(parts: seq<Part>, h: nat, n: nat, at: seq<nat>)
    requires h < n <= |parts| && parts[h].ToolCall? && at == Positions(n, DeltasOf(parts, h))
    ensures AreDeltas(parts, at) && IsTextOf(parts, h, at, ArgumentsOf(parts, h, n))
    decreases n
  {
    if n == h + 1 {
      NoDeltasYet(parts, h, n);
    } else {
      var front := Positions(n - 1, DeltasOf(parts, h));
      ArgumentsAt(parts, h, n - 1, front);
      ArgumentsNext(parts, h, n, n - 1, front, at);
    }
  }

  lemma {:induction false} NoDeltasYet(parts: seq<Part>, h: nat, n: nat)
    requires h < |parts| && n <= h + 1
    ensures Positions(n, DeltasOf(parts, h)) == []
  {
    if n > 0 {
      NoDeltasYet(parts, h, n - 1);
    }
  }

  lemma ArgumentsNext(parts: seq<Part>, h: nat, n: nat, m: nat, front: seq<nat>, at: seq<nat>)
    requires h < m < n == m + 1 <= |parts| && parts[h].ToolCall?
    requires AreDeltas(parts, front) && IsTextOf(parts, h, front, ArgumentsOf(parts, h, m))
    requires at == if DeltasOf(parts, h)(m) then front + [m] else front
    ensures AreDeltas(parts, at) && IsTextOf(parts, h, at, ArgumentsOf(parts, h, n))
  {
    DeltaReachesOwner(parts, h, n);
    if OwnedBy(parts, h, m) {
      TextNext(parts, h, front, m, at, ArgumentsOf(parts, h, m), ArgumentsOf(parts, h, n));
    }
  }

  /** `r` has the fragment appended. */
  predicate Extends(before: Option<JsString>, fragment: Option<JsString>, r: Option<JsString>) {
    && TextOrEmpty(r) == TextOrEmpty(before) + TextOrEmpty(fragment)
    && (r.None? <==> before.None? && fragment.None?)
  }

  lemma DeltaReachesOwner(parts: seq<Part>, h: nat, n: nat)
    requires h < n - 1 < |parts| && parts[h].ToolCall?
    ensures var before, r := ArgumentsOf(parts, h, n - 1), ArgumentsOf(parts, h, n);
            if OwnedBy(parts, h, n - 1) then Extends(before, parts[n - 1].argumentsPart, r) else r == before
  {
  }

  lemma TextNext(parts: seq<Part>, h: nat, front: seq<nat>, j: nat, at: seq<nat>, before: Option<JsString>,
                 r: Option<JsString>)
    requires h < |parts| && parts[h].ToolCall? && AreDeltas(parts, front) && j < |parts| && parts[j].ToolCallPart?
    requires IsTextOf(parts, h, front, before) && Extends(before, parts[j].argumentsPart, r)
    requires at == front + [j]
    ensures AreDeltas(parts, at) && IsTextOf(parts, h, at, r)
  {
    assert forall i | 0 <= i < |front| :: at[i] == front[i];
    assert at[|front|] == j;
    FlattenNext(parts, front, j, at);
    AppendAssociates(TextOrEmpty(parts[h].arguments), Flatten(FragmentTexts(parts, front)),
                     TextOrEmpty(parts[j].argumentsPart));
  }

  lemma FlattenNext(parts: seq<Part>, front: seq<nat>, j: nat, at: seq<nat>)
    requires AreDeltas(parts, front) && j < |parts| && parts[j].ToolCallPart? && at == front + [j]
    requires AreDeltas(parts, at)
    ensures Flatten(FragmentTexts(parts, at))
         == Flatten(FragmentTexts(parts, front)) + TextOrEmpty(parts[j].argumentsPart)
  {
    var last := TextOrEmpty(parts[j].argumentsPart);
    assert at[|front|] == j;
    assert FragmentTexts(parts, at) == FragmentTexts(parts, front) + [last];
    FlattenAppend(FragmentTexts(parts, front), last);
  }

  function HeadersOf(parts: seq<Part>): nat -> bool {
    (j: nat) => j < |parts| && parts[j].ToolCall?
  }

  lemma {:induction false} HeadersAre(parts: seq<Part>, at: seq<nat>, n: nat)
    requires n <= |parts| && Enumerates(at, n, HeadersOf(parts))
    ensures Headers(parts, n) == |at|
    decreases n
  {
    if n == 0 {
      RoomBetween(at, -1, 0);
    } else {
      var front := EnumeratesLast(at, n, HeadersOf(parts));
      HeadersAre(parts, front, n - 1);
    }
  }

  /** Every stream: there is one stored call for each header, in order, with the header's id, name and extras; its
      arguments are the header's own text followed by the texts of exactly the deltas it owns, in order of arrival. */
  lemma CallsOfStream(parts: seq<Part>, heads: seq<nat>, k: nat, at: seq<nat>)
    requires Enumerates(heads, |parts|, HeadersOf(parts))
    ensures |Assemble(parts).calls| == |heads|
    ensures k < |heads| && Enumerates(at, |parts|, DeltasOf(parts, heads[k])) ==>
      var header, call := parts[heads[k]], Assemble(parts).calls[k];
      && call.id == header.id && call.name == header.name && call.extras == header.extras
      && IsTextOf(parts, heads[k], at, call.arguments)
  {
    CallsAreAssembled(parts);
    HeadersAre(parts, heads, |parts|);
    if k < |heads| && Enumerates(at, |parts|, DeltasOf(parts, heads[k])) {
      EnumeratesBefore(heads, |parts|, HeadersOf(parts), k);
      HeadersAre(parts, heads[..k], heads[k]);
      ArgumentsText(parts, heads[k], |parts|, at);
    }
  }

  /** When every delta is indexed and follows a header of its index, its owner is the most recent such header. */
  lemma IndexedOwner(parts: seq<Part>, j: nat)
    requires j < |parts| && parts[j].ToolCallPart? && parts[j].index.Some?
    requires exists h | 0 <= h < j :: parts[h].ToolCall? && parts[h].streamIndex == parts[j].index
    ensures Owner(parts, j) == LatestHeader(parts, j, parts[j].index.value)
    ensures Owner(parts, j).Some?
  {
  }

  /** The most recent header of any index before position `n`. */
  function LastHeader(parts: seq<Part>, n: nat): (h: Option<nat>)
    requires n <= |parts|
    ensures h.Some? ==> h.value < n && parts[h.value].ToolCall?
    ensures forall i | (if h.Some? then h.value + 1 else 0) <= i < n :: !parts[i].ToolCall?
  {
    if n == 0 then None else if parts[n - 1].ToolCall? then Some(n - 1) else LastHeader(parts, n - 1)
  }

  lemma {:induction false} OpenIsLast(parts: seq<Part>, n: nat)
    requires n <= |parts|
    ensures OpenHeader(parts, n)
         == if LastHeader(parts, n).Some? && forall i | LastHeader(parts, n).value < i < n :: parts[i].ToolCallPart?
            then LastHeader(parts, n) else None
    decreases n
  {
    if n > 0 {
      OpenIsLast(parts, n - 1);
    }
  }

  /** A delta without an index, or with the index of no earlier tool call, goes to the most recent tool call exactly
      when only deltas have come since, or there has been no tool call at all; otherwise it belongs to none. */
  lemma UnindexedOwnerIff(parts: seq<Part>, j: nat)
    requires j < |parts| && parts[j].ToolCallPart?
    requires parts[j].index.Some? ==>
               forall i | 0 <= i < j && parts[i].ToolCall? :: parts[i].streamIndex != parts[j].index
    ensures var last := LastHeader(parts, j);
            && (Owner(parts, j) == last <==> last.None? || forall i | last.value < i < j :: parts[i].ToolCallPart?)
            && (Owner(parts, j) != last ==> Owner(parts, j).None?)
  {
    OpenIsLast(parts, j);
  }

  /** A tool call, a piece of text, and a delta without an index: the delta is lost. */
  lemma UnindexedExample(id: JsString, name: JsString, text: JsString, fragment: JsString)
    ensures var parts := [ToolCall(id, name, None, None, None), Text(text), ToolCallPart(Some(fragment), None)];
            && LastHeader(parts, 2) == Some(0) && Owner(parts, 2) == None
            && Assemble(parts).calls == [StoredCall(id, name, None, None)]
  {
    var parts := [ToolCall(id, name, None, None, None), Text(text), ToolCallPart(Some(fragment), None)];
    CallsAreAssembled(parts);
    assert ArgumentsOf(parts, 0, 1) == None && ArgumentsOf(parts, 0, 2) == None && ArgumentsOf(parts, 0, 3) == None;
    assert Headers(parts, 1) == 1 && Headers(parts, 2) == 1 && Headers(parts, 3) == 1;
  }
}

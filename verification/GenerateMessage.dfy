/** The content of an assembled message, and when `generate` rejects a response as empty. */
module GenerateMessage {
  import opened Units
  import opened Generate

  // ----- Nothing is lost from the content -----

  /** The smallest pieces of content: characters, signatures and whole media parts. */
  datatype Atom = TextUnit(c: CodeUnit) | ThinkUnit(c: CodeUnit) | Signature(s: JsString) | Whole(payload: JsString)

  function TextAtoms(text: JsString): (a: seq<Atom>) {
    seq(|text|, i requires 0 <= i < |text| => TextUnit(text[i]))
  }

  function ThinkAtoms(text: JsString): (a: seq<Atom>) {
    seq(|text|, i requires 0 <= i < |text| => ThinkUnit(text[i]))
  }

  function Atoms(part: Part): seq<Atom> {
    match part
    case Text(text) => TextAtoms(text)
    case Think(think, encrypted) =>
      ThinkAtoms(think) + (match encrypted case None => [] case Some(s) => [Signature(s)])
    case Media(payload) => [Whole(payload)]
    case _ => []
  }

  function AllAtoms(parts: seq<Part>): seq<Atom> {
    if parts == [] then [] else AllAtoms(parts[..|parts| - 1]) + Atoms(parts[|parts| - 1])
  }

  function PendingAtoms(s: State): seq<Atom> {
    if s.pending.Some? then Atoms(s.pending.value) else []
  }

  lemma AllAtomsAppend(parts: seq<Part>, part: Part)
    ensures AllAtoms(parts + [part]) == AllAtoms(parts) + Atoms(part)
  {
    assert (parts + [part])[..|parts|] == parts;
  }

  lemma MergeKeepsAtoms(target: Part, source: Part)
    requires Merge(target, source).Some?
    ensures Atoms(Merge(target, source).value) == Atoms(target) + Atoms(source)
  {
  }

  lemma FlushKeepsAtoms(s: State)
    ensures AllAtoms(Flush(s).content) == AllAtoms(s.content) + PendingAtoms(s)
  {
    if s.pending.Some? && s.pending.value.IsContent() {
      AllAtomsAppend(s.content, s.pending.value);
    }
  }

  lemma StepKeepsAtoms(s: State, part: Part)
    ensures var t := Step(s, part);
            AllAtoms(t.content) + PendingAtoms(t) == AllAtoms(s.content) + PendingAtoms(s) + Atoms(part)
  {
    var t := Step(s, part);
    if RouteTo(s, part).Some? {
      assert t.content == s.content && t.pending == s.pending && Atoms(part) == [];
    } else if s.pending.None? {
      assert PendingAtoms(s) == [];
    } else if Merge(s.pending.value, part).Some? {
      MergeKeepsAtoms(s.pending.value, part);
      assert PendingAtoms(t) == PendingAtoms(s) + Atoms(part);
    } else {
      FlushKeepsAtoms(s);
      assert AllAtoms(t.content) == AllAtoms(s.content) + PendingAtoms(s);
    }
  }

  /** Content and pending part hold the atoms of the parts. */
  ghost predicate HoldsAtoms(s: State, parts: seq<Part>) {
    AllAtoms(s.content) + PendingAtoms(s) == AllAtoms(parts)
  }

  lemma HoldsNext(s: State, front: seq<Part>, part: Part, t: State, parts: seq<Part>)
    requires HoldsAtoms(s, front) && t == Step(s, part) && parts == front + [part]
    ensures HoldsAtoms(t, parts)
  {
    StepKeepsAtoms(s, part);
    AllAtomsAppend(front, part);
  }

  lemma {:induction false} RunKeepsAtoms(parts: seq<Part>, n: nat)
    requires n <= |parts|
    ensures HoldsAtoms(Run(parts, n), parts[..n])
  {
    if n > 0 {
      RunKeepsAtoms(parts, n - 1);
      assert parts[..n] == parts[..n - 1] + [parts[n - 1]];
      HoldsNext(Run(parts, n - 1), parts[..n - 1], parts[n - 1], Run(parts, n), parts[..n]);
    }
  }

  /** Every stream: merging and routing neither lose, repeat nor reorder any piece of content. */
  lemma ContentOfStream(parts: seq<Part>)
    ensures AllAtoms(Assemble(parts).content) == AllAtoms(parts)
  {
    RunKeepsAtoms(parts, |parts|);
    FlushKeepsAtoms(Run(parts, |parts|));
    assert parts[..|parts|] == parts;
  }

  function TextOf(atoms: seq<Atom>): JsString {
    if atoms == [] then []
    else TextOf(atoms[..|atoms| - 1]) + (if atoms[|atoms| - 1].TextUnit? then [atoms[|atoms| - 1].c] else [])
  }

  /** `extractText` without a separator. */
  function ExtractText(parts: seq<Part>): JsString {
    if parts == [] then []
    else
      var last := parts[|parts| - 1];
      ExtractText(parts[..|parts| - 1]) + (if last.Text? then last.text else [])
  }

  lemma {:induction false} TextOfConcat(a: seq<Atom>, b: seq<Atom>)
    ensures TextOf(a + b) == TextOf(a) + TextOf(b)
  {
    if b == [] {
      assert a + b == a;
    } else {
      assert (a + b)[..|a + b| - 1] == a + b[..|b| - 1];
      TextOfConcat(a, b[..|b| - 1]);
    }
  }

  lemma {:induction false} TextOfText(text: JsString)
    ensures TextOf(TextAtoms(text)) == text && TextOf(ThinkAtoms(text)) == []
  {
    if text != [] {
      var front := text[..|text| - 1];
      TextOfText(front);
      assert TextAtoms(text)[..|text| - 1] == TextAtoms(front);
      assert ThinkAtoms(text)[..|text| - 1] == ThinkAtoms(front);
      assert text == front + [text[|text| - 1]];
    }
  }

  lemma TextOfAtoms(part: Part)
    ensures TextOf(Atoms(part)) == if part.Text? then part.text else []
  {
    match part
    case Text(text) =>
      TextOfText(text);
    case Think(think, encrypted) =>
      TextOfText(think);
      match encrypted {
        case None =>
          assert Atoms(part) == ThinkAtoms(think);
        case Some(s) =>
          TextOfConcat(ThinkAtoms(think), [Signature(s)]);
          assert [Signature(s)][..0] == [];
      }
    case Media(payload) =>
      assert [Whole(payload)][..0] == [];
    case _ =>
  }

  lemma {:induction false} TextOfParts(parts: seq<Part>)
    ensures TextOf(AllAtoms(parts)) == ExtractText(parts)
  {
    if parts != [] {
      TextOfParts(parts[..|parts| - 1]);
      TextOfConcat(AllAtoms(parts[..|parts| - 1]), Atoms(parts[|parts| - 1]));
      TextOfAtoms(parts[|parts| - 1]);
    }
  }

  /** The text of the message is the streamed text. */
  lemma TextOfStream(parts: seq<Part>)
    ensures ExtractText(Assemble(parts).content) == ExtractText(parts)
  {
    ContentOfStream(parts);
    TextOfParts(parts);
    TextOfParts(Assemble(parts).content);
  }

  // ----- Empty responses -----

  /** The characters that `trim` removes: WhiteSpace and LineTerminator of ECMA-262. */
  predicate IsSpace(c: CodeUnit) {
    || 9 <= c <= 13 || c == 0x20 || c == 0xA0 || c == 0x1680 || 0x2000 <= c <= 0x200A
    || c == 0x2028 || c == 0x2029 || c == 0x202F || c == 0x205F || c == 0x3000 || c == 0xFEFF
  }

  /** `text.trim().length > 0`. */
  predicate IsVisible(text: JsString) {
    exists i | 0 <= i < |text| :: !IsSpace(text[i])
  }

  predicate HasContent(parts: seq<Part>) {
    exists p | p in parts :: p.IsContent()
  }

  predicate HasThink(parts: seq<Part>) {
    exists p | p in parts :: p.Think?
  }

  predicate HasVisibleText(parts: seq<Part>) {
    exists p | p in parts :: p.Text? && IsVisible(p.text)
  }

  predicate HasCall(parts: seq<Part>) {
    exists p | p in parts :: p.ToolCall?
  }

  /** The content so far together with the pending part. */
  function Held(s: State): seq<Part> {
    if s.pending.Some? then s.content + [s.pending.value] else s.content
  }

  lemma HeldMembers(s: State)
    ensures forall p :: p in Held(s) <==> p in s.content || (s.pending.Some? && p == s.pending.value)
    ensures HasContent(Held(s)) <==> HasContent(s.content) || (s.pending.Some? && s.pending.value.IsContent())
    ensures HasThink(Held(s)) <==> HasThink(s.content) || (s.pending.Some? && s.pending.value.Think?)
  {
    assert s.pending.Some? ==> s.pending.value in Held(s);
    assert forall p | p in s.content :: p in Held(s);
  }

  lemma HasAppended(content: seq<Part>, part: Part)
    ensures HasContent(content + [part]) <==> HasContent(content) || part.IsContent()
    ensures HasThink(content + [part]) <==> HasThink(content) || part.Think?
  {
    HeldMembers(State(content, [], Some(part), map[]));
  }

  lemma StepKeepsKinds(s: State, part: Part)
    requires forall p | p in s.content :: p.IsContent()
    ensures var t := Step(s, part);
            && (forall p | p in t.content :: p.IsContent())
            && (HasContent(Held(t)) <==> HasContent(Held(s)) || part.IsContent())
            && (HasThink(Held(t)) <==> HasThink(Held(s)) || part.Think?)
  {
    var t := Step(s, part);
    HeldMembers(s);
    HeldMembers(t);
    if s.pending.Some? {
      HasAppended(s.content, s.pending.value);
    }
  }

  /** The kinds of content held are those of the parts. */
  ghost predicate HoldsKinds(s: State, parts: seq<Part>) {
    && (forall p | p in s.content :: p.IsContent())
    && (HasContent(Held(s)) <==> HasContent(parts))
    && (HasThink(Held(s)) <==> HasThink(parts))
  }

  lemma KindsNext(s: State, front: seq<Part>, part: Part, t: State, parts: seq<Part>)
    requires HoldsKinds(s, front) && t == Step(s, part) && parts == front + [part]
    ensures HoldsKinds(t, parts)
  {
    StepKeepsKinds(s, part);
    HasAppended(front, part);
  }

  lemma {:induction false} RunKeepsKinds(parts: seq<Part>, n: nat)
    requires n <= |parts|
    ensures HoldsKinds(Run(parts, n), parts[..n])
  {
    if n > 0 {
      RunKeepsKinds(parts, n - 1);
      assert parts[..n] == parts[..n - 1] + [parts[n - 1]];
      KindsNext(Run(parts, n - 1), parts[..n - 1], parts[n - 1], Run(parts, n), parts[..n]);
    }
  }

  lemma KindsOfStream(parts: seq<Part>)
    ensures var content := Assemble(parts).content;
            && (content == [] <==> !HasContent(parts))
            && (HasThink(content) <==> HasThink(parts))
  {
    var s := Run(parts, |parts|);
    RunKeepsKinds(parts, |parts|);
    HeldMembers(s);
    assert parts[..|parts|] == parts;
    var content := Assemble(parts).content;
    assert forall p | p in content :: p in Held(s);
    assert forall p | p in Held(s) && p.IsContent() :: p in content;
    assert content != [] ==> content[0] in Held(s) && content[0].IsContent();
  }

  lemma {:induction false} VisibleExtract(parts: seq<Part>)
    ensures IsVisible(ExtractText(parts)) <==> HasVisibleText(parts)
  {
    if parts != [] {
      var front, last := parts[..|parts| - 1], parts[|parts| - 1];
      VisibleExtract(front);
      VisibleConcat(ExtractText(front), if last.Text? then last.text else []);
      assert forall p :: p in parts <==> p in front || p == last;
    }
  }

  lemma VisibleConcat(a: JsString, b: JsString)
    ensures IsVisible(a + b) <==> IsVisible(a) || IsVisible(b)
  {
    var s := a + b;
    if i :| 0 <= i < |a| && !IsSpace(a[i]) {
      assert !IsSpace(s[i]);
    }
    if i :| 0 <= i < |b| && !IsSpace(b[i]) {
      assert !IsSpace(s[|a| + i]);
    }
  }

  lemma {:induction false} CallsExist(parts: seq<Part>, n: nat)
    requires n <= |parts|
    ensures Headers(parts, n) > 0 <==> HasCall(parts[..n])
  {
    if n > 0 {
      CallsExist(parts, n - 1);
      assert parts[..n] == parts[..n - 1] + [parts[n - 1]];
    }
  }

  datatype Response = EmptyResponse | ThinkingOnly | Message(content: seq<Part>, toolCalls: seq<StoredCall>)

  /** What the stream must yield: an error when it holds no content and no call, or nothing but thinking and blank text
      (and possibly media); the assembled message otherwise. */
  ghost predicate IsResponse(parts: seq<Part>, r: Response) {
    if !HasContent(parts) && !HasCall(parts) then r == EmptyResponse
    else if HasThink(parts) && !HasVisibleText(parts) && !HasCall(parts) then r == ThinkingOnly
    else r == Message(Assemble(parts).content, Assemble(parts).calls)
  }

  /** The tests on the assembled message see what was streamed. */
  lemma TestsSeeStream(parts: seq<Part>)
    ensures var s := Assemble(parts);
            && (s.content == [] <==> !HasContent(parts))
            && (HasThink(s.content) <==> HasThink(parts))
            && (HasVisibleText(s.content) <==> HasVisibleText(parts))
            && (s.calls == [] <==> !HasCall(parts))
  {
    KindsOfStream(parts);
    TextOfStream(parts);
    VisibleExtract(parts);
    VisibleExtract(Assemble(parts).content);
    CallsAreAssembled(parts);
    CallsExist(parts, |parts|);
    assert parts[..|parts|] == parts;
  }

  /** `generate`, from the first streamed part to the message. */
  method GenerateResponse(parts: seq<Part>) returns (r: Response)
    ensures IsResponse(parts, r)
  {
    var content: seq<Part>, toolCalls: seq<StoredCall> := [], [];
    var pendingPart: Option<Part> := None;
    var toolCallIndexMap: map<StreamIndex, nat> := map[];
    var i := 0;
    while i < |parts|
      invariant 0 <= i <= |parts|
      invariant State(content, toolCalls, pendingPart, toolCallIndexMap) == Run(parts, i)
    {
      var part := parts[i];
      i := i + 1;
      if part.ToolCallPart? && part.index.Some? && !IsPendingToolCallAtIndex(pendingPart, part.index.value) {
        if part.index.value in toolCallIndexMap {
          var arrayIdx := toolCallIndexMap[part.index.value];
          if arrayIdx < |toolCalls| && part.argumentsPart.Some? {
            var target := toolCalls[arrayIdx];
            var extended :=
              if target.arguments.None? then part.argumentsPart.value
              else target.arguments.value + part.argumentsPart.value;
            toolCalls := toolCalls[arrayIdx := target.(arguments := Some(extended))];
          }
          continue;
        }
      }
      if pendingPart.None? {
        pendingPart := Some(part);
      } else {
        var merged := Merge(pendingPart.value, part);
        if merged.Some? {
          pendingPart := merged;
        } else {
          content, toolCalls, toolCallIndexMap := FlushPart(content, toolCalls, toolCallIndexMap, pendingPart.value);
          pendingPart := Some(part);
        }
      }
    }
    if pendingPart.Some? {
      content, toolCalls, toolCallIndexMap := FlushPart(content, toolCalls, toolCallIndexMap, pendingPart.value);
    }
    TestsSeeStream(parts);
    if |content| == 0 && |toolCalls| == 0 {
      return EmptyResponse;
    }
    var hasThink, hasText, hasToolCalls := HasThink(content), HasVisibleText(content), |toolCalls| > 0;
    if hasThink && !hasText && !hasToolCalls {
      return ThinkingOnly;
    }
    r := Message(content, toolCalls);
  }

  /** `flushPart`. */
  method FlushPart(content: seq<Part>, toolCalls: seq<StoredCall>, toolCallIndexMap: map<StreamIndex, nat>, part: Part)
    returns (content': seq<Part>, toolCalls': seq<StoredCall>, map': map<StreamIndex, nat>)
    ensures State(content', toolCalls', None, map') == Flush(State(content, toolCalls, Some(part), toolCallIndexMap))
  {
    content', toolCalls', map' := content, toolCalls, toolCallIndexMap;
    if part.IsContent() {
      content' := content + [part];
      return;
    }
    if part.ToolCall? {
      var stored := StoredCall(part.id, part.name, part.arguments, part.extras);
      var ordinal := |toolCalls|;
      toolCalls' := toolCalls + [stored];
      if part.streamIndex.Some? {
        map' := toolCallIndexMap[part.streamIndex.value := ordinal];
      }
    }
  }
}

/** The hand-written `ignore` decoder for UTF-16LE, against section 2 of RFC 2781. */
module Utf16 {
  import opened Units

  predicate IsLead(u: CodeUnit) { 0xD800 <= u <= 0xDBFF }

  predicate IsTrail(u: CodeUnit) { 0xDC00 <= u <= 0xDFFF }

  // ----- What the decoder must keep -----

  /** Unit `i` is no surrogate, or one half of a surrogate pair. */
  predicate IsKept(u: JsString, i: nat)
    requires i < |u|
  {
    if IsLead(u[i]) then i + 1 < |u| && IsTrail(u[i + 1])
    else if IsTrail(u[i]) then i > 0 && IsLead(u[i - 1])
    else true
  }

  function KeptFrom(u: JsString, i: nat): JsString
    requires i <= |u|
    decreases |u| - i
  {
    if i == |u| then [] else (if IsKept(u, i) then [u[i]] else []) + KeptFrom(u, i + 1)
  }

  /** A string without unpaired surrogates. */
  ghost predicate IsUtf16(u: JsString) {
    forall i | 0 <= i < |u| :: IsKept(u, i)
  }

  lemma {:induction false} KeptOfUtf16(u: JsString, i: nat)
    requires i <= |u| && IsUtf16(u)
    ensures KeptFrom(u, i) == u[i..]
    decreases |u| - i
  {
    if i < |u| {
      KeptOfUtf16(u, i + 1);
    }
  }

  lemma {:induction false} KeptIsSubsequence(u: JsString, i: nat)
    requires i <= |u|
    ensures IsSubsequence(KeptFrom(u, i), u[i..])
    decreases |u| - i
  {
    if i < |u| {
      KeptIsSubsequence(u, i + 1);
      assert u[i..][1..] == u[i + 1..];
      if IsKept(u, i) {
        SubsequenceSharedPrefix([u[i]], KeptFrom(u, i + 1), u[i + 1..]);
        assert [u[i]] + u[i + 1..] == u[i..];
      } else {
        assert KeptFrom(u, i) == KeptFrom(u, i + 1);
        SubsequenceDrop(KeptFrom(u, i), u[i..], 1);
      }
    }
  }

  /** Unit `i` is kept in the first part exactly when it is in the whole, and likewise in the second. */
  lemma KeptApart(a: JsString, b: JsString, i: nat)
    requires a != [] && b != [] ==> !(IsLead(a[|a| - 1]) && IsTrail(b[0]))
    ensures i < |a| ==> IsKept(a + b, i) == IsKept(a, i)
    ensures i < |b| ==> IsKept(a + b, |a| + i) == IsKept(b, i)
  {
    var u := a + b;
    assert i < |a| - 1 ==> u[i + 1] == a[i + 1];
    assert 0 < i < |b| ==> u[|a| + i - 1] == b[i - 1];
    assert i < |b| - 1 ==> u[|a| + i + 1] == b[i + 1];
  }

  lemma {:induction false} KeptBehind(a: JsString, b: JsString, u: JsString, i: nat)
    requires u == a + b && i <= |b| && (a != [] && b != [] ==> !(IsLead(a[|a| - 1]) && IsTrail(b[0])))
    ensures KeptFrom(u, |a| + i) == KeptFrom(b, i)
    decreases |b| - i
  {
    if i < |b| {
      KeptApart(a, b, i);
      KeptBehind(a, b, u, i + 1);
      KeptOne(u, |a| + i, |a| + i + 1);
      KeptOne(b, i, i + 1);
    }
  }

  lemma KeptOne(u: JsString, i: nat, next: nat)
    requires i < |u| && next == i + 1
    ensures KeptFrom(u, i) == (if IsKept(u, i) then [u[i]] else []) + KeptFrom(u, next)
  {
  }

  /** Decoding splits anywhere but inside a surrogate pair. */
  lemma {:induction false} KeptConcat(a: JsString, b: JsString, i: nat)
    requires i <= |a| && (a != [] && b != [] ==> !(IsLead(a[|a| - 1]) && IsTrail(b[0])))
    ensures KeptFrom(a + b, i) == KeptFrom(a, i) + KeptFrom(b, 0)
    decreases |a| - i
  {
    if i < |a| {
      KeptApart(a, b, i);
      KeptConcat(a, b, i + 1);
    } else {
      KeptBehind(a, b, a + b, 0);
    }
  }

  /** A single unit is kept exactly when it is no surrogate. */
  lemma KeptUnit(c: CodeUnit)
    ensures KeptFrom([c], 0) == if 0xD800 <= c <= 0xDFFF then [] else [c]
  {
    assert KeptFrom([c], 1) == [];
  }

  /** Encoding scalar values leaves no surrogate unpaired. */
  lemma {:induction false} EncodedIsUtf16(text: seq<Scalar>)
    ensures IsUtf16(ToJs(text))
    ensures text != [] ==> !IsTrail(ToJs(text)[0])
  {
    if text != [] {
      var c, rest := FromCodePoint(text[0]), ToJs(text[1..]);
      EncodedIsUtf16(text[1..]);
      var u := c + rest;
      forall i | 0 <= i < |u|
        ensures IsKept(u, i)
      {
        if i >= |c| {
          assert u[i] == rest[i - |c|] && IsKept(rest, i - |c|);
        }
      }
    }
  }

  // ----- Bytes -----

  /** `first | (second << 8)` for two bytes. */
  function UnitOf(first: int, second: int): int {
    first + second * 0x100
  }

  /** The code units of `data`, low byte first; an odd last byte belongs to no unit. */
  function UnitsLe(data: seq<Byte>): JsString {
    if |data| < 2 then [] else [UnitOf(data[0], data[1])] + UnitsLe(data[2..])
  }

  function EncodeLe(u: JsString): seq<Byte> {
    if u == [] then [] else [u[0] % 0x100, u[0] / 0x100] + EncodeLe(u[1..])
  }

  lemma {:induction false} UnitsOfEncoded(u: JsString)
    ensures UnitsLe(EncodeLe(u)) == u
  {
    if u != [] {
      UnitsOfEncoded(u[1..]);
      assert EncodeLe(u)[2..] == EncodeLe(u[1..]);
      assert u == [u[0]] + u[1..];
    }
  }

  lemma {:induction false} UnitsAt(data: seq<Byte>, k: nat)
    requires 2 * k <= |data|
    ensures k <= |UnitsLe(data)|
    ensures UnitsLe(data)[k..] == UnitsLe(data[2 * k..])
    ensures |UnitsLe(data)| == |data| / 2
    decreases |data|
  {
    if |data| >= 2 {
      UnitsAt(data[2..], if k == 0 then 0 else k - 1);
      if k > 0 {
        assert data[2..][2 * (k - 1)..] == data[2 * k..];
      } else {
        assert data[0..] == data;
      }
    } else {
      assert k == 0 && data[0..] == data;
    }
  }

  lemma UnitAt(data: seq<Byte>, k: nat)
    requires 2 * k + 1 < |data|
    ensures k < |UnitsLe(data)| == |data| / 2
    ensures UnitsLe(data)[k] == UnitOf(data[2 * k], data[2 * k + 1])
  {
    UnitsAt(data, k);
    assert UnitsLe(data)[k..][0] == UnitsLe(data)[k];
  }

  // ----- The decoder -----

  function UnitOffset(u: int, base: int): int {
    u - base
  }

  /** The scalar value of a surrogate pair. */
  function PairValue(lead: int, trail: int): int {
    0x10000 + UnitOffset(lead, 0xD800) * 0x400 + UnitOffset(trail, 0xDC00)
  }

  lemma PairIsScalar(lead: CodeUnit, trail: CodeUnit)
    requires IsLead(lead) && IsTrail(trail)
    ensures IsScalar(PairValue(lead, trail)) && FromCodePoint(PairValue(lead, trail)) == [lead, trail]
  {
    var (h: int, l: int) := (UnitOffset(lead, 0xD800), UnitOffset(trail, 0xDC00));
    assert (h * 0x400 + l) / 0x400 == h && (h * 0x400 + l) % 0x400 == l;
  }

  lemma KeptPair(u: JsString, k: nat)
    requires k + 1 < |u| && IsLead(u[k]) && IsTrail(u[k + 1])
    ensures KeptFrom(u, k) == [u[k], u[k + 1]] + KeptFrom(u, k + 2)
  {
    assert KeptFrom(u, k + 1) == [u[k + 1]] + KeptFrom(u, k + 2);
  }

  /** What the loop has written so far and what is still to be decoded; the loop never stands inside a pair. */
  ghost predicate Progress(u: JsString, k: nat, output: JsString) {
    && k <= |u|
    && output + KeptFrom(u, k) == KeptFrom(u, 0)
    && (0 < k < |u| ==> !(IsLead(u[k - 1]) && IsTrail(u[k])))
  }

  lemma PassPair(u: JsString, k: nat, output: JsString)
    requires k + 1 < |u| && IsLead(u[k]) && IsTrail(u[k + 1]) && Progress(u, k, output)
    ensures var v := PairValue(u[k], u[k + 1]); IsScalar(v) && Progress(u, k + 2, output + FromCodePoint(v))
  {
    KeptPair(u, k);
    PairIsScalar(u[k], u[k + 1]);
    AppendAssociates(output, [u[k], u[k + 1]], KeptFrom(u, k + 2));
  }

  lemma PassUnit(u: JsString, k: nat, output: JsString)
    requires k < |u| && Progress(u, k, output)
    requires !(IsLead(u[k]) && k + 1 < |u| && IsTrail(u[k + 1]))
    ensures Progress(u, k + 1, if IsLead(u[k]) || IsTrail(u[k]) then output else output + [u[k]])
  {
    KeptOne(u, k, k + 1);
    AppendAssociates(output, [u[k]], KeptFrom(u, k + 1));
  }

  /** `decodeUtf16LeIgnore`. */
  method DecodeUtf16LeIgnore(data: seq<Byte>) returns (output: JsString)
    ensures output == KeptFrom(UnitsLe(data), 0)
  {
    output := [];
    var i := 0;
    ghost var u, k := UnitsLe(data), 0;
    UnitsAt(data, 0);
    while i + 1 < |data|
      invariant i == 2 * k && i <= |data| <= 2 * |u| + 1
      invariant Progress(u, k, output)
    {
      var first, second := data[i], data[i + 1];
      UnitAt(data, k);
      var codeUnit := UnitOf(first, second);
      if 0xD800 <= codeUnit <= 0xDBFF {
        if i + 3 < |data| {
          UnitAt(data, k + 1);
          var low := UnitOf(data[i + 2], data[i + 3]);
          if 0xDC00 <= low <= 0xDFFF {
            var codePoint := PairValue(codeUnit, low);
            PassPair(u, k, output);
            output := output + FromCodePoint(codePoint);
            i, k := i + 4, k + 2;
            continue;
          }
        }
        PassUnit(u, k, output);
        i, k := i + 2, k + 1;
        continue;
      }
      PassUnit(u, k, output);
      if 0xDC00 <= codeUnit <= 0xDFFF {
        i, k := i + 2, k + 1;
        continue;
      }
      output := output + FromCodePoint(codeUnit);
      i, k := i + 2, k + 1;
    }
  }

  /** Decoding undoes encoding, for every sequence of scalar values. */
  lemma DecodeInvertsEncode(text: seq<Scalar>)
    ensures KeptFrom(UnitsLe(EncodeLe(ToJs(text))), 0) == ToJs(text)
  {
    var u := ToJs(text);
    UnitsOfEncoded(u);
    EncodedIsUtf16(text);
    KeptOfUtf16(u, 0);
  }

  lemma {:induction false} KeptIsText(u: JsString, i: nat)
    requires i <= |u|
    requires 0 < i < |u| ==> !(IsLead(u[i - 1]) && IsTrail(u[i]))
    ensures exists text :: KeptFrom(u, i) == ToJs(text)
    decreases |u| - i
  {
    if i == |u| {
      assert KeptFrom(u, i) == ToJs([]);
    } else if IsLead(u[i]) && IsKept(u, i) {
      KeptPair(u, i);
      KeptIsText(u, i + 2);
      var text :| KeptFrom(u, i + 2) == ToJs(text);
      PairIsScalar(u[i], u[i + 1]);
      var v: Scalar := PairValue(u[i], u[i + 1]);
      assert KeptFrom(u, i) == ToJs([v] + text);
    } else {
      KeptIsText(u, i + 1);
      var text :| KeptFrom(u, i + 1) == ToJs(text);
      if IsKept(u, i) {
        var v: Scalar := u[i];
        assert KeptFrom(u, i) == ToJs([v] + text);
      }
    }
  }

  /** Whatever the bytes, the decoded string has no unpaired surrogate, so decoding its encoding changes nothing. */
  lemma DecodeIdempotent(data: seq<Byte>)
    ensures var s := KeptFrom(UnitsLe(data), 0);
            IsUtf16(s) && KeptFrom(UnitsLe(EncodeLe(s)), 0) == s
  {
    KeptIsText(UnitsLe(data), 0);
    var text :| KeptFrom(UnitsLe(data), 0) == ToJs(text);
    EncodedIsUtf16(text);
    DecodeInvertsEncode(text);
  }
}

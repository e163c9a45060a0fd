/** The hand-written `ignore` decoder for UTF-8, against RFC 3629: the grammar of well-formed text (section 4) and the
    encoding of one scalar value (section 3). */
module Utf8 {
  import opened Units

  // ----- RFC 3629 -----

  predicate IsTail(b: Byte) { 0x80 <= b <= 0xBF }

  /** The rules UTF8-1 to UTF8-4 of section 4: `c` is one character. */
  predicate IsChar(c: seq<Byte>) {
    match |c|
    case 1 => c[0] <= 0x7F
    case 2 => 0xC2 <= c[0] <= 0xDF && IsTail(c[1])
    case 3 =>
      && (|| (c[0] == 0xE0 && 0xA0 <= c[1] <= 0xBF)
          || (0xE1 <= c[0] <= 0xEC && IsTail(c[1]))
          || (c[0] == 0xED && 0x80 <= c[1] <= 0x9F)
          || (0xEE <= c[0] <= 0xEF && IsTail(c[1])))
      && IsTail(c[2])
    case 4 =>
      && (|| (c[0] == 0xF0 && 0x90 <= c[1] <= 0xBF)
          || (0xF1 <= c[0] <= 0xF3 && IsTail(c[1]))
          || (c[0] == 0xF4 && 0x80 <= c[1] <= 0x8F))
      && IsTail(c[2]) && IsTail(c[3])
    case _ => false
  }

  /** The rule UTF8-octets of section 4: a sequence of characters. */
  ghost predicate WellFormed(s: seq<Byte>)
    decreases |s|
  {
    s == [] || exists k | 1 <= k <= |s| :: IsChar(s[..k]) && WellFormed(s[k..])
  }

  /** Section 3: the octets of one character number. */
  function Encode(v: Scalar): seq<Byte> {
    if v <= 0x7F then [v]
    else
      var (v1: int, d0: int) := (v / 0x40, v % 0x40);
      if v1 < 0x20 then [0xC0 + v1, 0x80 + d0]
      else
        var (v2: int, d1: int) := (v1 / 0x40, v1 % 0x40);
        if v2 < 0x10 then [0xE0 + v2, 0x80 + d1, 0x80 + d0]
        else [0xF0 + v2 / 0x40, 0x80 + v2 % 0x40, 0x80 + d1, 0x80 + d0]
  }

  function EncodeAll(text: seq<Scalar>): seq<Byte> {
    if text == [] then [] else Encode(text[0]) + EncodeAll(text[1..])
  }

  /** A tail octet adds six bits. */
  function Append(bits: int, tail: Byte): (v: int)
    requires IsTail(tail)
    ensures v / 0x40 == bits && v % 0x40 == tail - 0x80
  {
    bits * 0x40 + (tail - 0x80)
  }

  /** The scalar value whose octets are `c`. */
  function ScalarOf(c: seq<Byte>): (v: Scalar)
    requires IsChar(c)
    ensures Encode(v) == c
  {
    match |c|
    case 1 => c[0]
    case 2 => Append(c[0] - 0xC0, c[1])
    case 3 => Append(Append(c[0] - 0xE0, c[1]), c[2])
    case _ => Append(Append(Append(c[0] - 0xF0, c[1]), c[2]), c[3])
  }

  lemma EncodeIsChar(v: Scalar)
    ensures IsChar(Encode(v)) && ScalarOf(Encode(v)) == v
  {
    var (v1: int, v2: int) := (v / 0x40, v / 0x40 / 0x40);
    if v > 0x7F {
      if v1 < 0x20 {
        assert IsChar(Encode(v));
      } else if v2 < 0x10 {
        assert IsChar(Encode(v));
      } else {
        assert IsChar(Encode(v));
      }
    }
  }

  // ----- Dropping what is not a character -----

  /** The length of the character that begins `s`, or 0 when none does. */
  function CharLength(s: seq<Byte>): (k: nat)
    ensures k <= |s| && k <= 4
    ensures k > 0 ==> IsChar(s[..k])
    ensures k == 0 ==> forall j | 0 <= j <= |s| :: !IsChar(s[..j])
  {
    if |s| >= 1 && IsChar(s[..1]) then 1
    else if |s| >= 2 && IsChar(s[..2]) then 2
    else if |s| >= 3 && IsChar(s[..3]) then 3
    else if |s| >= 4 && IsChar(s[..4]) then 4
    else 0
  }

  /** No character is a proper prefix of another. */
  lemma CharLengthUnique(s: seq<Byte>, k: nat)
    requires k <= |s| && IsChar(s[..k])
    ensures CharLength(s) == k
  {
    var j := CharLength(s);
    assert s[..j][0] == s[0] == s[..k][0];
  }

  /** The characters of `s`, read from the left, skipping one byte wherever no character begins. */
  function Ignore(s: seq<Byte>): seq<Scalar>
    decreases |s|
  {
    if s == [] then []
    else
      var k := CharLength(s);
      if k == 0 then Ignore(s[1..]) else [ScalarOf(s[..k])] + Ignore(s[k..])
  }

  /** Decoding undoes encoding. */
  lemma {:induction false} IgnoreInvertsEncode(text: seq<Scalar>)
    ensures Ignore(EncodeAll(text)) == text
  {
    if text != [] {
      IgnoreInvertsEncode(text[1..]);
      IgnoreEncoded(text[0], EncodeAll(text[1..]));
    }
  }

  lemma IgnoreEncoded(v: Scalar, rest: seq<Byte>)
    ensures Ignore(Encode(v) + rest) == [v] + Ignore(rest)
  {
    var c := Encode(v);
    var s := c + rest;
    EncodeIsChar(v);
    assert s[..|c|] == c && s[|c|..] == rest;
    IgnoreChar(s, |c|);
  }

  lemma {:induction false} EncodeAllWellFormed(text: seq<Scalar>)
    ensures WellFormed(EncodeAll(text))
  {
    if text != [] {
      var c, rest := Encode(text[0]), EncodeAll(text[1..]);
      EncodeIsChar(text[0]);
      assert (c + rest)[..|c|] == c && (c + rest)[|c|..] == rest;
      EncodeAllWellFormed(text[1..]);
    }
  }

  /** A well-formed string begins with a character that decoding keeps. */
  lemma WellFormedFirst(s: seq<Byte>) returns (v: Scalar, rest: seq<Byte>)
    requires WellFormed(s) && s != []
    ensures s == Encode(v) + rest && |rest| < |s| && WellFormed(rest)
    ensures Ignore(s) == [v] + Ignore(rest)
  {
    var k :| 1 <= k <= |s| && IsChar(s[..k]) && WellFormed(s[k..]);
    IgnoreChar(s, k);
    SplitAt(s, k);
    v, rest := ScalarOf(s[..k]), s[k..];
  }

  lemma SplitAt<T>(s: seq<T>, k: nat)
    requires k <= |s|
    ensures s == s[..k] + s[k..]
  {
  }

  lemma IgnoreChar(s: seq<Byte>, k: nat)
    requires 1 <= k <= |s| && IsChar(s[..k])
    ensures Ignore(s) == [ScalarOf(s[..k])] + Ignore(s[k..])
  {
    CharLengthUnique(s, k);
  }

  lemma EncodeAllCons(v: Scalar, text: seq<Scalar>)
    ensures EncodeAll([v] + text) == Encode(v) + EncodeAll(text)
  {
    assert ([v] + text)[1..] == text;
  }

  lemma {:induction false} WellFormedSurvives(s: seq<Byte>)
    requires WellFormed(s)
    ensures EncodeAll(Ignore(s)) == s
    decreases |s|
  {
    if s != [] {
      var v, rest := WellFormedFirst(s);
      WellFormedSurvives(rest);
      EncodeAllCons(v, Ignore(rest));
    }
  }

  /** A byte string is well-formed exactly when decoding it drops nothing. */
  lemma WellFormedIffLossless(s: seq<Byte>)
    ensures WellFormed(s) <==> EncodeAll(Ignore(s)) == s
  {
    EncodeAllWellFormed(Ignore(s));
    if WellFormed(s) {
      WellFormedSurvives(s);
    }
  }

  /** What decoding keeps is part of the input, in the input's order. */
  lemma {:induction false} IgnoreKeepsSubsequence(s: seq<Byte>)
    ensures IsSubsequence(EncodeAll(Ignore(s)), s)
    decreases |s|
  {
    if s != [] {
      var k := CharLength(s);
      if k == 0 {
        IgnoreKeepsSubsequence(s[1..]);
        SubsequenceDrop(EncodeAll(Ignore(s)), s, 1);
      } else {
        IgnoreKeepsSubsequence(s[k..]);
        SubsequenceSharedPrefix(s[..k], EncodeAll(Ignore(s[k..])), s[k..]);
        assert s == s[..k] + s[k..];
      }
    }
  }

  /** Decoding twice is decoding once. */
  lemma IgnoreIdempotent(s: seq<Byte>)
    ensures Ignore(EncodeAll(Ignore(s))) == Ignore(s)
  {
    IgnoreInvertsEncode(Ignore(s));
  }

  /** The character at the front of `s`, if one begins there, and how far the decoder goes. */
  function First(s: seq<Byte>): seq<Scalar> {
    var k := CharLength(s); if k == 0 then [] else [ScalarOf(s[..k])]
  }

  function Advance(s: seq<Byte>): (d: nat)
    requires s != []
    ensures 1 <= d <= |s|
  {
    var k := CharLength(s); if k == 0 then 1 else k
  }

  lemma IgnoreUnfold(s: seq<Byte>)
    requires s != []
    ensures Ignore(s) == First(s) + Ignore(s[Advance(s)..])
  {
  }

  /** No character goes on past a byte that is no tail octet, so decoding splits before it, whatever stands on either
      side. */
  lemma {:induction false} IgnoreSplits(a: seq<Byte>, b: seq<Byte>)
    requires b == [] || !IsTail(b[0])
    ensures Ignore(a + b) == Ignore(a) + Ignore(b)
    decreases |a|
  {
    if a == [] {
      assert a + b == b;
    } else {
      var d := Advance(a);
      UnfoldBefore(a, b);
      IgnoreSplits(a[d..], b);
      IgnoreUnfold(a);
      JoinAssociates(First(a), Ignore(a[d..]), Ignore(b));
    }
  }

  lemma JoinAssociates<T>(a: seq<T>, b: seq<T>, c: seq<T>)
    ensures (a + b) + c == a + (b + c)
  {
  }

  lemma UnfoldBefore(a: seq<Byte>, b: seq<Byte>)
    requires a != [] && (b == [] || !IsTail(b[0]))
    ensures Ignore(a + b) == First(a) + Ignore(a[Advance(a)..] + b)
  {
    var s := a + b;
    FirstBefore(a, b, s);
    DropOfConcat(a, b, Advance(a));
    IgnoreUnfold(s);
  }

  lemma DropOfConcat<T>(a: seq<T>, b: seq<T>, d: nat)
    requires d <= |a|
    ensures (a + b)[d..] == a[d..] + b
  {
  }

  lemma FirstBefore(a: seq<Byte>, b: seq<Byte>, s: seq<Byte>)
    requires a != [] && (b == [] || !IsTail(b[0])) && s == a + b
    ensures First(s) == First(a) && Advance(s) == Advance(a)
  {
    CharLengthBefore(a, b);
    var k := CharLength(a);
    assert s[..k] == a[..k];
  }

  lemma CharHasTails(c: seq<Byte>, i: nat)
    requires IsChar(c) && 0 < i < |c|
    ensures IsTail(c[i])
  {
  }

  lemma CharLengthBefore(a: seq<Byte>, b: seq<Byte>)
    requires a != [] && (b == [] || !IsTail(b[0]))
    ensures CharLength(a + b) == CharLength(a)
  {
    var s := a + b;
    var k, j := CharLength(s), CharLength(a);
    if k > |a| {
      CharHasTails(s[..k], |a|);
      assert false;
    }
    assert s[..k] == a[..k] && s[..j] == a[..j];
    if k > 0 {
      CharLengthUnique(a, k);
    }
  }

  predicate AllTails(s: seq<Byte>) {
    forall i | 0 <= i < |s| :: IsTail(s[i])
  }

  lemma {:induction false} TailsVanish(s: seq<Byte>)
    requires AllTails(s)
    ensures Ignore(s) == []
    decreases |s|
  {
    if s != [] {
      assert CharLength(s) == 0;
      TailsVanish(s[1..]);
    }
  }

  /** Between two such places, a byte and the tail octets behind it decode to the character they begin with, if there is
      one, and to nothing else. */
  lemma IgnoreBlock(b: Byte, tails: seq<Byte>)
    requires AllTails(tails)
    ensures var s := [b] + tails;
            && (forall k: nat | k <= |s| && IsChar(s[..k]) :: Ignore(s) == [ScalarOf(s[..k])])
            && ((forall k: nat | k <= |s| :: !IsChar(s[..k])) ==> Ignore(s) == [])
  {
    var s := [b] + tails;
    var d := Advance(s);
    IgnoreUnfold(s);
    assert s[d..] == tails[d - 1..];
    TailsVanish(tails[d - 1..]);
    forall k: nat | k <= |s| && IsChar(s[..k])
      ensures CharLength(s) == k
    {
      CharLengthUnique(s, k);
    }
  }

  /** An ASCII byte is never part of a longer character, so decoding splits around it. */
  lemma IgnoreSplitsAtAscii(a: seq<Byte>, m: Byte, b: seq<Byte>)
    requires m <= 0x7F
    ensures Ignore(a + [m] + b) == Ignore(a) + [m] + Ignore(b)
  {
    assert a + [m] + b == a + ([m] + b);
    IgnoreSplits(a, [m] + b);
    AsciiFirst(m, b);
  }

  lemma AsciiFirst(m: Byte, b: seq<Byte>)
    requires m <= 0x7F
    ensures Ignore([m] + b) == [m] + Ignore(b)
  {
    var s := [m] + b;
    assert s[..1] == [m] && s[1..] == b;
    CharLengthUnique(s, 1);
  }

  lemma {:induction false} IgnoreKeepsAscii(s: seq<Byte>, m: Byte)
    requires m <= 0x7F
    ensures m in Ignore(s) <==> m in s
    decreases |s|
  {
    if i :| 0 <= i < |s| && s[i] == m {
      assert s == s[..i] + [m] + s[i + 1..];
      IgnoreSplitsAtAscii(s[..i], m, s[i + 1..]);
    } else if s != [] {
      var k := CharLength(s);
      if k == 0 {
        IgnoreKeepsAscii(s[1..], m);
      } else {
        assert s[..k][0] == s[0] != m;
        IgnoreKeepsAscii(s[k..], m);
      }
    }
  }

  // ----- The decoder -----

  /** The text of `data` as a JavaScript string. */
  function DecodeText(data: seq<Byte>): JsString {
    ToJs(Ignore(data))
  }

  /** `data[i]`, with -1 for the `undefined` of an index past the end: it fails every test below as `undefined` does. */
  function At(data: seq<Byte>, i: nat): int {
    if i < |data| then data[i] else -1
  }

  predicate IsUtf8Continuation(byte: int) { 0x80 <= byte <= 0xBF }

  /** How many bytes the tests of the decoder take for a character, given the next four bytes. */
  function Taken(b0: int, b1: int, b2: int, b3: int): nat {
    if b0 <= 0x7F then 1
    else if 0xC2 <= b0 <= 0xDF then if IsUtf8Continuation(b1) then 2 else 0
    else if 0xE0 <= b0 <= 0xEF then if ValidSecond3(b0, b1) && IsUtf8Continuation(b2) then 3 else 0
    else if 0xF0 <= b0 <= 0xF4 then
      if ValidSecond4(b0, b1) && IsUtf8Continuation(b2) && IsUtf8Continuation(b3) then 4 else 0
    else 0
  }

  predicate ValidSecond3(b0: int, b1: int) {
    || (b0 == 0xE0 && 0xA0 <= b1 <= 0xBF)
    || (0xE1 <= b0 <= 0xEC && IsUtf8Continuation(b1))
    || (b0 == 0xED && 0x80 <= b1 <= 0x9F)
    || (0xEE <= b0 <= 0xEF && IsUtf8Continuation(b1))
  }

  predicate ValidSecond4(b0: int, b1: int) {
    || (b0 == 0xF0 && 0x90 <= b1 <= 0xBF)
    || (0xF1 <= b0 <= 0xF3 && IsUtf8Continuation(b1))
    || (b0 == 0xF4 && 0x80 <= b1 <= 0x8F)
  }

  // The numbers the decoder assembles with masks and shifts: for a byte, `& 0x1f` is `% 0x20` and so on, and `<<`
  // followed by `|` with fewer bits is a multiplication followed by a sum.

  function Assemble2(b0: int, b1: int): int {
    b0 % 0x20 * 0x40 + b1 % 0x40
  }

  function Assemble3(b0: int, b1: int, b2: int): int {
    b0 % 0x10 * 0x1000 + b1 % 0x40 * 0x40 + b2 % 0x40
  }

  function Assemble4(b0: int, b1: int, b2: int, b3: int): int {
    b0 % 8 * 0x40000 + b1 % 0x40 * 0x1000 + b2 % 0x40 * 0x40 + b3 % 0x40
  }

  function Assembled(k: nat, b0: int, b1: int, b2: int, b3: int): int {
    match k
    case 1 => b0
    case 2 => Assemble2(b0, b1)
    case 3 => Assemble3(b0, b1, b2)
    case _ => Assemble4(b0, b1, b2, b3)
  }

  /** How many bytes the tests take at position `i`, and the number assembled from them. */
  function TakenAt(data: seq<Byte>, i: nat): nat
    requires i < |data|
  {
    Taken(data[i], At(data, i + 1), At(data, i + 2), At(data, i + 3))
  }

  function AssembledAt(data: seq<Byte>, i: nat): int
    requires i < |data|
  {
    Assembled(TakenAt(data, i), data[i], At(data, i + 1), At(data, i + 2), At(data, i + 3))
  }

  lemma TakenIsCharLength(s: seq<Byte>)
    requires s != []
    ensures Taken(s[0], At(s, 1), At(s, 2), At(s, 3)) == CharLength(s)
  {
    var k, j := Taken(s[0], At(s, 1), At(s, 2), At(s, 3)), CharLength(s);
    if k > 0 {
      CharLengthUnique(s, k);
    } else if j > 0 {
      var c := s[..j];
      assert c[0] == s[0] && forall n | 1 <= n < j :: c[n] == At(s, n);
    }
  }

  lemma TakenAtIsCharLength(data: seq<Byte>, i: nat)
    requires i < |data|
    ensures TakenAt(data, i) == CharLength(data[i..])
  {
    TakenIsCharLength(data[i..]);
  }

  lemma MaskedTail(b: Byte)
    requires IsTail(b)
    ensures b % 0x40 == b - 0x80
  {
  }

  lemma AssembledIsScalar(c: seq<Byte>)
    requires IsChar(c)
    ensures Assembled(|c|, c[0], At(c, 1), At(c, 2), At(c, 3)) == ScalarOf(c)
  {
    if |c| > 1 {
      MaskedTail(c[1]);
    }
    if |c| > 2 {
      MaskedTail(c[2]);
    }
    if |c| > 3 {
      MaskedTail(c[3]);
    }
    if |c| == 2 {
      assert c[0] % 0x20 == c[0] - 0xC0;
    } else if |c| == 3 {
      assert c[0] % 0x10 == c[0] - 0xE0;
    } else if |c| == 4 {
      assert c[0] % 8 == c[0] - 0xF0;
    }
  }

  lemma AssembledAtIsScalar(data: seq<Byte>, i: nat)
    requires i < |data| && CharLength(data[i..]) > 0
    ensures AssembledAt(data, i) == ScalarOf(data[i..][..CharLength(data[i..])])
  {
    var k := CharLength(data[i..]);
    var c := data[i..][..k];
    TakenAtIsCharLength(data, i);
    AssembledIsScalar(c);
    assert forall n | 0 <= n < k :: c[n] == data[i + n];
  }

  lemma DecodeTextStep(s: seq<Byte>)
    requires s != []
    ensures var k := CharLength(s);
            DecodeText(s) == if k == 0 then DecodeText(s[1..])
                             else FromCodePoint(ScalarOf(s[..k])) + DecodeText(s[k..])
  {
    IgnoreUnfold(s);
    var k := CharLength(s);
    if k == 0 {
      assert Ignore(s) == Ignore(s[1..]);
    } else {
      var v := ScalarOf(s[..k]);
      assert Ignore(s)[0] == v && Ignore(s)[1..] == Ignore(s[k..]);
    }
  }

  /** What the loop has written so far and what is still to be decoded make up the text. */
  ghost predicate Progress(data: seq<Byte>, i: nat, output: JsString) {
    i <= |data| && output + DecodeText(data[i..]) == DecodeText(data)
  }

  /** One character is read, or one byte is skipped that begins none. */
  ghost predicate Reads(data: seq<Byte>, i: nat, text: JsString, next: nat)
    requires i < |data|
  {
    var k := CharLength(data[i..]);
    if k == 0 then text == [] && next == i + 1
    else text == FromCodePoint(ScalarOf(data[i..][..k])) && next == i + k
  }

  lemma ProgressStep(data: seq<Byte>, i: nat, output: JsString, text: JsString, next: nat)
    requires i < |data| && Progress(data, i, output) && Reads(data, i, text, next)
    ensures i < next && Progress(data, next, output + text)
  {
    var s := data[i..];
    assert s[next - i..] == data[next..];
    DecodeTextStep(s);
    AppendAssociates(output, text, DecodeText(data[next..]));
    assert DecodeText(data[i..]) == text + DecodeText(data[next..]);
  }

  /** What one round of the decoder's loop appends, and where the next one begins. */
  ghost predicate IsRound(data: seq<Byte>, i: nat, text: JsString, next: nat)
    requires i < |data|
  {
    var k, v := TakenAt(data, i), AssembledAt(data, i);
    if k == 0 then text == [] && next == i + 1 else IsScalar(v) && text == FromCodePoint(v) && next == i + k
  }

  lemma AssembledInRange(data: seq<Byte>, i: nat)
    requires i < |data| && TakenAt(data, i) > 0
    ensures IsScalar(AssembledAt(data, i))
  {
    TakenAtIsCharLength(data, i);
    AssembledAtIsScalar(data, i);
  }

  /** A round reads one character, or skips one byte that begins none. */
  lemma ReadAt(data: seq<Byte>, i: nat, output: JsString, text: JsString, next: nat)
    requires i < |data| && Progress(data, i, output) && IsRound(data, i, text, next)
    ensures i < next && Progress(data, next, output + text)
  {
    RoundIs(data, i, text, next);
    ProgressStep(data, i, output, text, next);
  }

  lemma RoundIs(data: seq<Byte>, i: nat, text: JsString, next: nat)
    requires i < |data| && IsRound(data, i, text, next)
    ensures Reads(data, i, text, next)
  {
    TakenAtIsCharLength(data, i);
    if TakenAt(data, i) > 0 {
      AssembledAtIsScalar(data, i);
    }
  }

  /** `decodeUtf8Ignore`. */
  method DecodeUtf8Ignore(data: seq<Byte>) returns (output: JsString)
    ensures output == DecodeText(data)
  {
    output := [];
    assert data[0..] == data && [] + DecodeText(data) == DecodeText(data);
    var i := 0;
    while i < |data|
      invariant Progress(data, i, output)
    {
      var text, next := DecodeAt(data, i);
      ReadAt(data, i, output, text, next);
      output, i := output + text, next;
    }
    assert data[i..] == [] && output + [] == output;
  }

  /** The body of the loop: the text appended, and where the next round begins. */
  method DecodeAt(data: seq<Byte>, start: nat) returns (text: JsString, i: nat)
    requires start < |data|
    ensures IsRound(data, start, text, i)
  {
    if TakenAt(data, start) > 0 {
      AssembledInRange(data, start);
    }
    i := start;
    var b0 := data[i];
    if b0 <= 0x7F {
      return FromCodePoint(b0), i + 1;
    }
    if 0xC2 <= b0 <= 0xDF {
      var b1 := At(data, i + 1);
      if b1 != -1 && IsUtf8Continuation(b1) {
        return FromCodePoint(Assemble2(b0, b1)), i + 2;
      }
      return [], i + 1;
    }
    if 0xE0 <= b0 <= 0xEF {
      var b1, b2 := At(data, i + 1), At(data, i + 2);
      var validSecond := b1 != -1 && ValidSecond3(b0, b1);
      if validSecond && b2 != -1 && IsUtf8Continuation(b2) {
        return FromCodePoint(Assemble3(b0, b1, b2)), i + 3;
      }
      return [], i + 1;
    }
    if 0xF0 <= b0 <= 0xF4 {
      var b1, b2, b3 := At(data, i + 1), At(data, i + 2), At(data, i + 3);
      var validSecond := b1 != -1 && ValidSecond4(b0, b1);
      if validSecond && b2 != -1 && b3 != -1 && IsUtf8Continuation(b2) && IsUtf8Continuation(b3) {
        return FromCodePoint(Assemble4(b0, b1, b2, b3)), i + 4;
      }
      return [], i + 1;
    }
    return [], i + 1;
  }
}

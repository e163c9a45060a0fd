/** Lines: a text cut after each line feed. Bytes and JavaScript strings are cut alike, and decoding bytes that are not
    well-formed changes the list of lines only at an unterminated last line. */
module Lines {
  import opened Units
  import opened Utf8

  /** The length of the first line of `s`, its terminator included. */
  function LineLength<T(==)>(s: seq<T>, nl: T): (k: nat)
    requires s != []
    ensures 0 < k <= |s|
    ensures forall i | 0 <= i < k - 1 :: s[i] != nl
    ensures k < |s| ==> s[k - 1] == nl
  {
    if s[0] == nl || |s| == 1 then 1 else 1 + LineLength(s[1..], nl)
  }

  function CutLines<T(==)>(s: seq<T>, nl: T): seq<seq<T>> {
    if s == [] then []
    else
      var k := LineLength(s, nl);
      [s[..k]] + CutLines(s[k..], nl)
  }

  /** A line: not empty, and with no terminator before its end. */
  ghost predicate IsLine<T>(line: seq<T>, nl: T) {
    line != [] && forall i | 0 <= i < |line| - 1 :: line[i] != nl
  }

  predicate IsTerminated<T(==)>(line: seq<T>, nl: T) {
    line != [] && line[|line| - 1] == nl
  }

  /** Lines of one text: only the last may lack its terminator. */
  ghost predicate AreLines<T>(lines: seq<seq<T>>, nl: T) {
    && (forall i | 0 <= i < |lines| :: IsLine(lines[i], nl))
    && (forall i | 0 <= i < |lines| - 1 :: IsTerminated(lines[i], nl))
  }

  lemma LinesCons<T>(line: seq<T>, lines: seq<seq<T>>, nl: T)
    requires IsLine(line, nl) && AreLines(lines, nl) && (lines == [] || IsTerminated(line, nl))
    ensures AreLines([line] + lines, nl)
  {
    var all := [line] + lines;
    assert forall i | 0 < i < |all| :: all[i] == lines[i - 1];
  }

  /** The first line and the rest of a text. */
  lemma CutStep<T>(s: seq<T>, nl: T) returns (line: seq<T>, rest: seq<T>)
    requires s != []
    ensures s == line + rest && |rest| < |s| && IsLine(line, nl) && (rest != [] ==> IsTerminated(line, nl))
    ensures CutLines(s, nl) == [line] + CutLines(rest, nl)
  {
    var k := LineLength(s, nl);
    line, rest := s[..k], s[k..];
  }

  lemma FlattenCons<T>(line: seq<T>, lines: seq<seq<T>>)
    ensures Flatten([line] + lines) == line + Flatten(lines)
  {
    assert ([line] + lines)[1..] == lines;
  }

  lemma {:induction false} CutLinesAreLines<T>(s: seq<T>, nl: T)
    ensures Flatten(CutLines(s, nl)) == s && AreLines(CutLines(s, nl), nl)
    decreases |s|
  {
    if s != [] {
      var line, rest := CutStep(s, nl);
      CutLinesAreLines(rest, nl);
      LinesCons(line, CutLines(rest, nl), nl);
      FlattenCons(line, CutLines(rest, nl));
    }
  }

  lemma {:induction false} LineLengthUnique<T>(s: seq<T>, nl: T, k: nat)
    requires 0 < k <= |s|
    requires forall i | 0 <= i < k - 1 :: s[i] != nl
    requires k == |s| || s[k - 1] == nl
    ensures LineLength(s, nl) == k
    decreases k
  {
    if k > 1 {
      LineLengthUnique(s[1..], nl, k - 1);
    }
  }

  /** A line that is terminated, or that ends the text, is cut off the front. */
  lemma CutFirst<T>(line: seq<T>, rest: seq<T>, nl: T)
    requires IsLine(line, nl) && (IsTerminated(line, nl) || rest == [])
    ensures CutLines(line + rest, nl) == [line] + CutLines(rest, nl)
  {
    var s := line + rest;
    LineLengthUnique(s, nl, |line|);
    assert s[..|line|] == line && s[|line|..] == rest;
  }

  /** The cut is the only division of a text into lines. */
  lemma {:induction false} CutLinesUnique<T>(lines: seq<seq<T>>, nl: T)
    requires AreLines(lines, nl)
    ensures CutLines(Flatten(lines), nl) == lines
  {
    if lines != [] {
      var rest := lines[1..];
      assert forall i | 0 <= i < |rest| :: rest[i] == lines[i + 1];
      CutLinesUnique(rest, nl);
      assert |lines| == 1 ==> Flatten(rest) == [];
      CutFirst(lines[0], Flatten(rest), nl);
    }
  }

  lemma LinesAppend<T>(a: seq<seq<T>>, b: seq<seq<T>>, nl: T)
    requires AreLines(a, nl) && AreLines(b, nl) && (a == [] || IsTerminated(a[|a| - 1], nl))
    ensures AreLines(a + b, nl)
  {
    var all := a + b;
    assert forall i | 0 <= i < |all| :: all[i] == if i < |a| then a[i] else b[i - |a|];
  }

  lemma {:induction false} LastLineTerminated<T>(s: seq<T>, nl: T)
    requires s != []
    ensures var lines := CutLines(s, nl);
            lines != [] && (IsTerminated(lines[|lines| - 1], nl) <==> IsTerminated(s, nl))
    decreases |s|
  {
    var line, rest := CutStep(s, nl);
    if rest != [] {
      LastLineTerminated(rest, nl);
      LastOfCons(line, CutLines(rest, nl));
    } else {
      assert s == line;
    }
  }

  lemma LastOfCons<T>(x: T, xs: seq<T>)
    requires xs != []
    ensures ([x] + xs)[|[x] + xs| - 1] == xs[|xs| - 1]
  {
  }

  /** Cutting distributes over a split right after a terminator. */
  lemma CutConcat<T>(a: seq<T>, b: seq<T>, nl: T)
    requires a == [] || IsTerminated(a, nl)
    ensures CutLines(a + b, nl) == CutLines(a, nl) + CutLines(b, nl)
  {
    var la, lb := CutLines(a, nl), CutLines(b, nl);
    CutLinesAreLines(a, nl);
    CutLinesAreLines(b, nl);
    if a != [] {
      LastLineTerminated(a, nl);
    }
    LinesAppend(la, lb, nl);
    FlattenConcat(la, lb);
    CutLinesUnique(la + lb, nl);
  }

  function Count<T(==)>(s: seq<T>, x: T): nat {
    if s == [] then 0 else Count(s[..|s| - 1], x) + (if s[|s| - 1] == x then 1 else 0)
  }

  lemma {:induction false} CountConcat<T>(a: seq<T>, b: seq<T>, x: T)
    ensures Count(a + b, x) == Count(a, x) + Count(b, x)
  {
    if b == [] {
      assert a + b == a;
    } else {
      assert (a + b)[..|a + b| - 1] == a + b[..|b| - 1];
      CountConcat(a, b[..|b| - 1], x);
    }
  }

  lemma {:induction false} CountAbsent<T>(s: seq<T>, x: T)
    requires x !in s
    ensures Count(s, x) == 0
  {
    if s != [] {
      CountAbsent(s[..|s| - 1], x);
    }
  }

  /** There are as many lines as terminators, and one more when the last line is unterminated. */
  lemma {:induction false} LineCount<T>(s: seq<T>, nl: T)
    ensures |CutLines(s, nl)| == Count(s, nl) + (if s != [] && !IsTerminated(s, nl) then 1 else 0)
    decreases |s|
  {
    if s != [] {
      var line, rest := CutStep(s, nl);
      LineCount(rest, nl);
      CountConcat(line, rest, nl);
      CountLine(line, nl);
      assert rest != [] ==> (IsTerminated(s, nl) <==> IsTerminated(rest, nl));
    }
  }

  lemma CountLine<T>(line: seq<T>, nl: T)
    requires IsLine(line, nl)
    ensures Count(line, nl) == if IsTerminated(line, nl) then 1 else 0
  {
    CountAbsent(line[..|line| - 1], nl);
  }

  // ----- Decoding lines -----

  function ByteLines(s: seq<Byte>): seq<seq<Byte>> {
    CutLines<Byte>(s, LF)
  }

  function TextLines(text: JsString): seq<JsString> {
    CutLines<CodeUnit>(text, LF)
  }

  function DecodeEach(lines: seq<seq<Byte>>): seq<JsString> {
    if lines == [] then [] else [DecodeText(lines[0])] + DecodeEach(lines[1..])
  }

  lemma {:induction false} DecodeEachConcat(a: seq<seq<Byte>>, b: seq<seq<Byte>>)
    ensures DecodeEach(a + b) == DecodeEach(a) + DecodeEach(b)
  {
    if a == [] {
      assert a + b == b;
    } else {
      assert (a + b)[1..] == a[1..] + b;
      DecodeEachConcat(a[1..], b);
    }
  }

  lemma {:induction false} DecodeEachAt(lines: seq<seq<Byte>>)
    ensures |DecodeEach(lines)| == |lines|
    ensures forall i | 0 <= i < |lines| :: DecodeEach(lines)[i] == DecodeText(lines[i])
  {
    if lines != [] {
      DecodeEachAt(lines[1..]);
    }
  }

  /** Decoding splits after a line feed, and a decoded text has a line feed where the bytes have one. */
  lemma DecodeSplits(a: seq<Byte>, b: seq<Byte>)
    requires IsTerminated<Byte>(a, LF)
    ensures DecodeText(a + b) == DecodeText(a[..|a| - 1]) + [LF] + DecodeText(b)
  {
    var m := a[..|a| - 1];
    assert a + b == m + [LF] + b;
    IgnoreSplitsAtAscii(m, LF, b);
    ToJsConcat(Ignore(m) + [LF], Ignore(b));
    ToJsConcat(Ignore(m), [LF]);
    assert ToJs([LF]) == [LF];
  }

  /** Decoding distributes over a split right after a line feed. */
  lemma DecodeConcat(a: seq<Byte>, b: seq<Byte>)
    requires IsTerminated<Byte>(a, LF) || b == []
    ensures DecodeText(a + b) == DecodeText(a) + DecodeText(b)
  {
    assert a + [] == a;
    if b == [] {
      assert DecodeText(b) == [];
    } else {
      var d := DecodeText(a[..|a| - 1]) + [LF];
      assert DecodeText(a + b) == d + DecodeText(b) by { DecodeSplits(a, b); }
      assert DecodeText(a) == d by { DecodeSplits(a, []); }
    }
  }

  lemma DecodeKeepsLf(s: seq<Byte>)
    ensures LF in DecodeText(s) <==> LF in s
  {
    IgnoreKeepsAscii(s, LF);
    ToJsKeepsLf(Ignore(s));
  }

  lemma DecodeTerminatedLine(line: seq<Byte>)
    requires IsLine<Byte>(line, LF) && IsTerminated<Byte>(line, LF)
    ensures IsLine<CodeUnit>(DecodeText(line), LF) && IsTerminated<CodeUnit>(DecodeText(line), LF)
  {
    DecodeSplits(line, []);
    assert line + [] == line;
    var m := line[..|line| - 1];
    DecodeKeepsLf(m);
    var d := DecodeText(line);
    assert d == DecodeText(m) + [LF];
    assert d[..|d| - 1] == DecodeText(m);
  }

  /** The bytes of a last line that has no terminator and decodes to nothing. */
  predicate VanishingLine(line: seq<Byte>) {
    !IsTerminated<Byte>(line, LF) && DecodeText(line) == []
  }

  predicate LastLineVanishes(lines: seq<seq<Byte>>) {
    lines != [] && VanishingLine(lines[|lines| - 1])
  }

  /** The decoded lines without a last line that decodes to nothing. */
  function VisibleLines(lines: seq<seq<Byte>>): seq<JsString> {
    if LastLineVanishes(lines) then DecodeEach(lines[..|lines| - 1]) else DecodeEach(lines)
  }

  /** Cutting the decoded text gives the decoded lines of bytes, except that a vanishing last line is no line at all. */
  lemma {:induction false} CutDecoded(s: seq<Byte>)
    ensures TextLines(DecodeText(s)) == VisibleLines(ByteLines(s))
    decreases |s|
  {
    if s != [] {
      var k := LineLength<Byte>(s, LF);
      var line, rest := s[..k], s[k..];
      assert s == line + rest;
      assert ByteLines(s) == [line] + ByteLines(rest);
      if IsTerminated<Byte>(line, LF) {
        CutDecoded(rest);
        CutDecodedFirst(line, rest);
        VisibleCons(line, ByteLines(rest));
      } else {
        assert s == line && ByteLines(rest) == [];
        assert ByteLines(s) == [line];
        UnterminatedLine(line);
      }
    }
  }

  lemma CutDecodedFirst(line: seq<Byte>, rest: seq<Byte>)
    requires IsLine<Byte>(line, LF) && IsTerminated<Byte>(line, LF)
    ensures TextLines(DecodeText(line + rest)) == [DecodeText(line)] + TextLines(DecodeText(rest))
  {
    var d, r := DecodeText(line), DecodeText(rest);
    DecodeTerminatedLine(line);
    DecodeConcat(line, rest);
    CutFirst<CodeUnit>(d, r, LF);
  }

  lemma VisibleCons(line: seq<Byte>, lines: seq<seq<Byte>>)
    requires IsTerminated<Byte>(line, LF)
    ensures VisibleLines([line] + lines) == [DecodeText(line)] + VisibleLines(lines)
  {
    var all := [line] + lines;
    if lines != [] {
      assert all[..|all| - 1] == [line] + lines[..|lines| - 1];
    }
    DecodeEachConcat([line], lines);
    DecodeEachConcat([line], if lines == [] then [] else lines[..|lines| - 1]);
    assert DecodeEach([line]) == [DecodeText(line)];
  }

  lemma UnterminatedLine(line: seq<Byte>)
    requires IsLine<Byte>(line, LF) && !IsTerminated<Byte>(line, LF)
    ensures TextLines(DecodeText(line)) == VisibleLines([line])
  {
    var d := DecodeText(line);
    assert LF !in line;
    DecodeKeepsLf(line);
    assert [line][..0] == [];
    if d != [] {
      CutFirst<CodeUnit>(d, [], LF);
      assert d + [] == d;
      assert DecodeEach([line]) == [d];
    }
  }

  /** The two lists of lines are equal exactly when the last line does not vanish. */
  lemma DecodedLinesAgree(s: seq<Byte>)
    ensures TextLines(DecodeText(s)) == DecodeEach(ByteLines(s)) <==> !LastLineVanishes(ByteLines(s))
  {
    CutDecoded(s);
    var lines := ByteLines(s);
    DecodeEachAt(lines);
    if lines != [] {
      DecodeEachAt(lines[..|lines| - 1]);
    }
  }

  /** A file that is one stray tail octet is one line of bytes, decoded to nothing, and a text without lines. */
  lemma VanishingExample()
    ensures DecodeEach(ByteLines([0x80])) == [[]] && TextLines(DecodeText([0x80])) == []
  {
    var s: seq<Byte> := [0x80];
    CutFirst<Byte>(s, [], LF);
    assert s + [] == s;
    assert ByteLines(s) == [s];
    StrayOctet();
    assert DecodeEach([s]) == [DecodeText(s)] + DecodeEach([]);
  }

  lemma StrayOctet()
    ensures DecodeText([0x80]) == []
  {
    var s: seq<Byte> := [0x80];
    assert s[1..] == [];
    assert CharLength(s) == 0;
    assert Ignore(s) == [];
  }

  /** No byte of a well-formed text is dropped, so no line of it vanishes. */
  lemma WellFormedLinesVisible(s: seq<Byte>)
    requires WellFormed(s)
    ensures !LastLineVanishes(ByteLines(s))
  {
    var lines := ByteLines(s);
    if LastLineVanishes(lines) {
      CutLinesAreLines<Byte>(s, LF);
      var n := |lines| - 1;
      var head, last := Flatten(lines[..n]), lines[n];
      assert lines == lines[..n] + [last];
      FlattenAppend(lines[..n], last);
      assert s == head + last;
      TerminatedFlatten(lines[..n]);
      DropsLast(head, last);
    }
  }

  lemma {:induction false} TerminatedFlatten(lines: seq<seq<Byte>>)
    requires forall i | 0 <= i < |lines| :: IsTerminated<Byte>(lines[i], LF)
    ensures lines == [] || IsTerminated<Byte>(Flatten(lines), LF)
  {
    if |lines| > 1 {
      TerminatedFlatten(lines[1..]);
    } else if |lines| == 1 {
      assert Flatten(lines) == lines[0];
    }
  }

  /** A text whose last line decodes to nothing loses that line's bytes. */
  lemma DropsLast(head: seq<Byte>, last: seq<Byte>)
    requires head == [] || IsTerminated<Byte>(head, LF)
    requires last != [] && DecodeText(last) == []
    ensures !WellFormed(head + last)
  {
    var s := head + last;
    WellFormedIffLossless(s);
    DropsSuffix(head, last);
    EncodedNoLonger(head);
  }

  lemma DropsSuffix(head: seq<Byte>, last: seq<Byte>)
    requires head == [] || IsTerminated<Byte>(head, LF)
    requires DecodeText(last) == []
    ensures Ignore(head + last) == Ignore(head)
  {
    VanishesToNothing(last);
    if head == [] {
      assert head + last == last;
    } else {
      var m, none: seq<Byte> := head[..|head| - 1], [];
      assert head == m + [LF];
      assert head + none == head;
      IgnoreSplitsAtAscii(m, LF, last);
      IgnoreSplitsAtAscii(m, LF, none);
    }
  }

  lemma VanishesToNothing(last: seq<Byte>)
    requires DecodeText(last) == []
    ensures Ignore(last) == []
  {
  }

  lemma {:induction false} EncodedNoLonger(s: seq<Byte>)
    ensures |EncodeAll(Ignore(s))| <= |s|
  {
    IgnoreKeepsSubsequence(s);
    SubsequenceNoLonger(EncodeAll(Ignore(s)), s);
  }

  lemma {:induction false} SubsequenceNoLonger<T>(a: seq<T>, b: seq<T>)
    requires IsSubsequence(a, b)
    ensures |a| <= |b|
  {
    if a != [] {
      if IsSubsequence(a, b[1..]) {
        SubsequenceNoLonger(a, b[1..]);
      } else {
        SubsequenceNoLonger(a[1..], b[1..]);
      }
    }
  }
}

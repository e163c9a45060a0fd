/** Reading lines in `strict` mode: each line is decoded on its own by a decoder that fails on bytes that are not
    well-formed and strips a leading byte order mark unless told not to. */
module StrictLines {
  import opened Units
  import opened Utf8
  import opened Lines
  import opened LineReader

  /** U+FEFF at the beginning. */
  predicate HasBom(s: seq<Byte>) {
    |s| >= 3 && s[0] == 0xEF && s[1] == 0xBB && s[2] == 0xBF
  }

  /** `new TextDecoder('utf-8', { fatal: true, ignoreBOM }).decode`, which throws or returns the text. */
  ghost function StrictText(p: Piece): Option<JsString> {
    if !WellFormed(p.bytes) then None
    else Some(DecodeText(if !p.ignoreBom && HasBom(p.bytes) then p.bytes[3..] else p.bytes))
  }

  /** The joined texts of all pieces, unless some piece fails. */
  ghost function StrictAll(ps: seq<Piece>): Option<JsString> {
    if ps == [] then Some([])
    else
      var first, rest := StrictText(ps[0]), StrictAll(ps[1..]);
      if first.Some? && rest.Some? then Some(first.value + rest.value) else None
  }

  function Behind(lines: seq<seq<Byte>>): (ps: seq<Piece>) {
    seq(|lines|, i requires 0 <= i < |lines| => Piece(lines[i], true))
  }

  lemma StrictCons(p: Piece, ps: seq<Piece>)
    ensures StrictAll([p] + ps)
         == var first, rest := StrictText(p), StrictAll(ps);
            if first.Some? && rest.Some? then Some(first.value + rest.value) else None
  {
    assert ([p] + ps)[1..] == ps;
  }

  lemma PiecesCons(line: seq<Byte>, lines: seq<seq<Byte>>)
    ensures Pieces([line] + lines) == [Piece(line, false)] + Behind(lines)
    ensures Behind([line] + lines) == [Piece(line, true)] + Behind(lines)
  {
  }

  lemma {:induction false} EncodeAllConcat(a: seq<Scalar>, b: seq<Scalar>)
    ensures EncodeAll(a + b) == EncodeAll(a) + EncodeAll(b)
  {
    if a == [] {
      assert a + b == b;
    } else {
      assert (a + b)[1..] == a[1..] + b;
      EncodeAllConcat(a[1..], b);
    }
  }

  /** A line feed is a character of its own, so that bytes are well-formed exactly when they are before and after it. */
  lemma WellFormedSplits(a: seq<Byte>, b: seq<Byte>)
    requires IsTerminated<Byte>(a, LF) || b == []
    ensures WellFormed(a + b) <==> WellFormed(a) && WellFormed(b)
  {
    if b == [] {
      assert a + b == a;
    } else {
      IgnoreSplitsAfterLf(a, b);
      EncodeAllConcat(Ignore(a), Ignore(b));
      WellFormedIffLossless(a);
      WellFormedIffLossless(b);
      WellFormedIffLossless(a + b);
      EncodedNoLonger(a);
      EncodedNoLonger(b);
      EqualHalves(EncodeAll(Ignore(a)), a, EncodeAll(Ignore(b)), b);
    }
  }

  lemma IgnoreSplitsAfterLf(a: seq<Byte>, b: seq<Byte>)
    requires IsTerminated<Byte>(a, LF)
    ensures Ignore(a + b) == Ignore(a) + Ignore(b)
  {
    var m, none: seq<Byte> := a[..|a| - 1], [];
    assert a == m + [LF] && a + none == a;
    IgnoreSplitsAtAscii(m, LF, b);
    IgnoreSplitsAtAscii(m, LF, none);
  }

  lemma EqualHalves(x: seq<Byte>, a: seq<Byte>, y: seq<Byte>, b: seq<Byte>)
    requires |x| <= |a| && |y| <= |b|
    ensures x + y == a + b <==> x == a && y == b
  {
    if x + y == a + b {
      assert x == (x + y)[..|x|] && a == (a + b)[..|a|];
      assert y == (x + y)[|x|..] && b == (a + b)[|a|..];
    }
  }

  /** The pieces behind the first line decode as the bytes behind it do. */
  lemma {:induction false} BehindAgrees(s: seq<Byte>)
    ensures StrictAll(Behind(ByteLines(s))) == StrictText(Piece(s, true))
    decreases |s|
  {
    if s == [] {
      assert DecodeText(s) == [];
    } else {
      var line, rest := CutStep<Byte>(s, LF);
      BehindAgrees(rest);
      LineThenRest(line, rest);
      PiecesCons(line, ByteLines(rest));
      StrictCons(Piece(line, true), Behind(ByteLines(rest)));
    }
  }

  lemma LineThenRest(line: seq<Byte>, rest: seq<Byte>)
    requires IsLine<Byte>(line, LF) && (rest != [] ==> IsTerminated<Byte>(line, LF))
    ensures WellFormed(line + rest) <==> WellFormed(line) && WellFormed(rest)
    ensures DecodeText(line + rest) == DecodeText(line) + DecodeText(rest)
  {
    WellFormedSplits(line, rest);
    DecodeConcat(line, rest);
  }

  /** A byte order mark lies within the first line. */
  lemma BomInFirstLine(line: seq<Byte>, rest: seq<Byte>)
    requires IsLine<Byte>(line, LF) && (rest != [] ==> IsTerminated<Byte>(line, LF))
    ensures HasBom(line + rest) <==> HasBom(line)
    ensures HasBom(line) ==> (line + rest)[3..] == line[3..] + rest
    ensures HasBom(line) && rest != [] ==> IsTerminated<Byte>(line[3..], LF)
  {
    var s := line + rest;
    assert rest != [] ==> s[|line| - 1] == LF;
    assert forall i | 0 <= i < |line| :: s[i] == line[i];
  }

  lemma FirstAgrees(line: seq<Byte>, rest: seq<Byte>)
    requires IsLine<Byte>(line, LF) && (rest != [] ==> IsTerminated<Byte>(line, LF))
    ensures var first, others, all :=
              StrictText(Piece(line, false)), StrictText(Piece(rest, true)), StrictText(Piece(line + rest, false));
            all == if first.Some? && others.Some? then Some(first.value + others.value) else None
  {
    LineThenRest(line, rest);
    BomInFirstLine(line, rest);
    if HasBom(line) {
      DecodeConcat(line[3..], rest);
    }
  }

  /** Reading a whole file line by line fails exactly when its bytes are not well-formed, and otherwise yields the text
      of the file, without a byte order mark at its beginning and with every later one. */
  lemma StrictAgrees(file: seq<Byte>)
    ensures StrictAll(Slice(Pieces(ByteLines(file)), 1, Unlimited)) == StrictText(Piece(file, false))
  {
    assert Slice(Pieces(ByteLines(file)), 1, Unlimited) == Pieces(ByteLines(file));
    WholeAgrees(file);
  }

  lemma WholeAgrees(file: seq<Byte>)
    ensures StrictAll(Pieces(ByteLines(file))) == StrictText(Piece(file, false))
  {
    if file == [] {
      assert DecodeText(file) == [];
    } else {
      var line, rest := CutStep<Byte>(file, LF);
      BehindAgrees(rest);
      FirstAgrees(line, rest);
      PiecesCons(line, ByteLines(rest));
      StrictCons(Piece(line, false), Behind(ByteLines(rest)));
    }
  }
}

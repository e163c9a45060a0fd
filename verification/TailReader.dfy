/** The last lines of a file, found by scanning blocks backwards from the end, and the lines of a text. */
module TailReader {
  import opened Units
  import opened Utf8
  import opened Lines
  import opened LineReader

  /** `text.codePointAt(i)`. */
  function CodePointAt(text: JsString, i: nat): int
    requires i < |text|
  {
    var first: int := text[i];
    var second: int := if i + 1 < |text| then text[i + 1] else 0;
    if 0xD800 <= first <= 0xDBFF && 0xDC00 <= second <= 0xDFFF then
      0x10000 + (first - 0xD800) * 0x400 + (second - 0xDC00)
    else first
  }

  lemma LfCodePoint(text: JsString, i: nat)
    requires i < |text|
    ensures CodePointAt(text, i) == LF <==> text[i] == LF
  {
  }

  /** `lines` are the lines of `text` before `start`. */
  ghost predicate CutSoFar(text: JsString, lines: seq<JsString>, start: nat) {
    start <= |text| && lines + TextLines(text[start..]) == TextLines(text)
  }

  lemma CutNext(text: JsString, lines: seq<JsString>, start: nat, end: nat)
    requires start < end <= |text| && CutSoFar(text, lines, start)
    requires forall j | start <= j < end - 1 :: text[j] != LF
    requires text[end - 1] == LF || end == |text|
    ensures CutSoFar(text, lines + [text[start..end]], end)
  {
    var line, rest := text[start..end], text[end..];
    assert text[start..] == line + rest;
    CutFirst<CodeUnit>(line, rest, LF);
    AppendOne(lines, line, TextLines(rest));
  }

  lemma AppendOne(a: seq<JsString>, x: JsString, b: seq<JsString>)
    ensures a + ([x] + b) == (a + [x]) + b
  {
  }

  lemma CutAll(text: JsString, lines: seq<JsString>)
    requires CutSoFar(text, lines, |text|)
    ensures lines == TextLines(text)
  {
    assert text[|text|..] == [];
    assert lines + [] == lines;
  }

  /** The scan stands at `i`, inside the line that begins at `start`. */
  ghost predicate InLine(text: JsString, lines: seq<JsString>, start: nat, i: nat) {
    start <= i <= |text| && CutSoFar(text, lines, start) && forall j | start <= j < i :: text[j] != LF
  }

  lemma InLineNext(text: JsString, lines: seq<JsString>, start: nat, i: nat)
    requires i < |text| && InLine(text, lines, start, i) && text[i] != LF
    ensures InLine(text, lines, start, i + 1)
  {
  }

  lemma LineEnds(text: JsString, lines: seq<JsString>, start: nat, i: nat)
    requires i < |text| && InLine(text, lines, start, i) && text[i] == LF
    ensures InLine(text, lines + [text[start..i + 1]], i + 1, i + 1)
  {
    CutNext(text, lines, start, i + 1);
  }

  lemma TextEnds(text: JsString, lines: seq<JsString>, start: nat)
    requires InLine(text, lines, start, |text|)
    ensures (if start < |text| then lines + [text[start..]] else lines) == TextLines(text)
  {
    if start < |text| {
      CutNext(text, lines, start, |text|);
      assert text[start..|text|] == text[start..];
      CutAll(text, lines + [text[start..]]);
    } else {
      CutAll(text, lines);
    }
  }

  method SplitLinesKeepingTerminator(text: JsString) returns (lines: seq<JsString>)
    ensures lines == TextLines(text)
  {
    lines := [];
    if |text| == 0 {
      return;
    }
    var start, i := 0, 0;
    assert text[0..] == text;
    while i < |text|
      invariant 0 <= start <= i <= |text|
      invariant InLine(text, lines, start, i)
    {
      LfCodePoint(text, i);
      if CodePointAt(text, i) == LF {
        LineEnds(text, lines, start, i);
        lines := lines + [text[start..i + 1]];
        start := i + 1;
      } else {
        InLineNext(text, lines, start, i);
      }
      i := i + 1;
    }
    TextEnds(text, lines, start);
    if start < |text| {
      lines := lines + [text[start..]];
    }
  }

  /** Reading has come to the end of the range or of the file. */
  lemma RangeRead(file: seq<Byte>, start: nat, length: nat, offset: nat)
    requires offset <= length && (offset == length || start + offset >= |file|)
    requires start + offset <= |file| || offset == 0
    ensures TakeUpTo(DropUpTo(file, start), length) == if offset > 0 then file[start..start + offset] else []
  {
  }

  /** `readRange`: reads of at most `burst(offset)` bytes, at least one byte each, until the range or the file ends. */
  method ReadRange(file: seq<Byte>, start: nat, length: nat, burst: nat -> nat) returns (data: seq<Byte>)
    requires forall offset :: burst(offset) > 0
    ensures data == TakeUpTo(DropUpTo(file, start), length)
    ensures start + length == |file| ==> data == file[start..]
  {
    var buffer := new Byte[length](_ => 0);
    var offset := 0;
    while offset < length
      invariant 0 <= offset <= length
      invariant start + offset <= |file| || offset == 0
      invariant forall k | 0 <= k < offset :: buffer[k] == file[start + k]
    {
      var bytesRead := Min(Min(burst(offset), length - offset), Max(0, |file| - (start + offset)));
      if bytesRead == 0 {
        break;
      }
      forall k | 0 <= k < bytesRead {
        buffer[offset + k] := file[start + offset + k];
      }
      offset := offset + bytesRead;
    }
    RangeRead(file, start, length, offset);
    assert buffer[..buffer.Length] == buffer[..];
    assert offset > 0 ==> buffer[..offset] == file[start..start + offset];
    data := if offset == length then buffer[..] else buffer[..offset];
  }

  function LastLines<T>(lines: seq<T>, n: int): seq<T> {
    DropUpTo(lines, |lines| - n)
  }

  /** Where the last `n` lines of a file begin: at a line start with `n` lines after it, or at 0 if there are no
      more. */
  ghost predicate IsTailStart(file: seq<Byte>, n: nat, start: nat) {
    && start <= |file|
    && (start == 0 || file[start - 1] == LF)
    && var k := |ByteLines(file[start..])|;
       if start == 0 then k <= n else k == n
  }

  lemma TailStartCutsLines(file: seq<Byte>, n: nat, start: nat)
    requires IsTailStart(file, n, start)
    ensures ByteLines(file[start..]) == LastLines(ByteLines(file), n)
  {
    var a, b := file[..start], file[start..];
    assert file == a + b;
    if start == 0 {
      assert b == file;
    } else {
      CutConcat<Byte>(a, b, LF);
    }
  }

  /** The number of line feeds that must lie behind the start of the tail, the one before it included. */
  function LfNeeded(file: seq<Byte>, n: nat): nat {
    if IsTerminated<Byte>(file, LF) then n + 1 else n
  }

  lemma FoundEnough(file: seq<Byte>, n: nat, start: nat)
    requires n > 0 && 0 < start <= |file| && file[start - 1] == LF
    requires Count<Byte>(file[start..], LF) + 1 == LfNeeded(file, n)
    ensures IsTailStart(file, n, start)
  {
    LineCount<Byte>(file[start..], LF);
  }

  lemma FoundAll(file: seq<Byte>, n: nat)
    requires Count<Byte>(file, LF) < LfNeeded(file, n)
    ensures IsTailStart(file, n, 0)
  {
    LineCount<Byte>(file, LF);
    assert file[0..] == file;
  }

  lemma CountStep(file: seq<Byte>, i: nat)
    requires i < |file|
    ensures Count<Byte>(file[i..], LF) == Count<Byte>(file[i + 1..], LF) + (if file[i] == LF then 1 else 0)
  {
    assert file[i..] == [file[i]] + file[i + 1..];
    CountConcat<Byte>([file[i]], file[i + 1..], LF);
    assert [file[i]][..0] == [];
  }

  /** The scan from the end: after the bytes from `pos` on, `found` line feeds of `need`, or the start is known. */
  ghost predicate Scanned(file: seq<Byte>, pos: nat, found: nat, need: nat, start: nat) {
    && pos <= |file|
    && found <= need
    && if found < need then found == Count<Byte>(file[pos..], LF)
       else 0 < start <= |file| && file[start - 1] == LF && Count<Byte>(file[start..], LF) + 1 == need
  }

  /** The backward scan of `readTailLines` over full blocks of `blockSize` bytes. */
  method FindTailStart(file: seq<Byte>, tailCount: nat, blockSize: nat) returns (startOffset: nat)
    requires tailCount > 0 && blockSize > 0
    ensures IsTailStart(file, tailCount, startOffset)
  {
    var pos: nat, foundLf, needLf, sawTailBlock := |file|, 0, tailCount, false;
    assert file[|file|..] == [];
    startOffset := 0;
    while pos > 0 && foundLf < needLf
      invariant Scanned(file, pos, foundLf, needLf, startOffset)
      invariant sawTailBlock || (pos == |file| && foundLf == 0)
      invariant needLf == if sawTailBlock then LfNeeded(file, tailCount) else tailCount
      decreases pos
    {
      var readSize := Min(blockSize, pos);
      pos := pos - readSize;
      var buf := file[pos..pos + readSize];
      if !sawTailBlock {
        sawTailBlock := true;
        var endsWithNewline := buf[readSize - 1] == LF;
        needLf := if endsWithNewline then tailCount + 1 else tailCount;
      }
      var i := readSize - 1;
      while i >= 0
        invariant -1 <= i < readSize
        invariant Scanned(file, pos + i + 1, foundLf, needLf, startOffset) && foundLf < needLf
      {
        CountStep(file, pos + i);
        if buf[i] != LF {
          i := i - 1;
          continue;
        }
        foundLf := foundLf + 1;
        if foundLf == needLf {
          startOffset := pos + i + 1;
          break;
        }
        i := i - 1;
      }
    }
    if foundLf < needLf {
      startOffset := 0;
      assert file[0..] == file;
      FoundAll(file, tailCount);
    } else {
      FoundEnough(file, tailCount, startOffset);
    }
  }

  /** `readTailLines` with the `ignore` decoder. */
  method ReadTailLines(file: seq<Byte>, tailCount: int, blockSize: nat, burst: nat -> nat)
    returns (lines: seq<JsString>)
    requires blockSize > 0 && forall offset :: burst(offset) > 0
    ensures lines == if tailCount <= 0 then [] else VisibleLines(LastLines(ByteLines(file), tailCount))
  {
    if tailCount <= 0 {
      return [];
    }
    if |file| == 0 {
      return [];
    }
    var startOffset := FindTailStart(file, tailCount, blockSize);
    var data := ReadRange(file, startOffset, |file| - startOffset, burst);
    TailStartCutsLines(file, tailCount, startOffset);
    CutDecoded(data);
    var text := DecodeUtf8Ignore(data);
    lines := SplitLinesKeepingTerminator(text);
  }

  /** The tail is the end of the list of all lines, unless a vanishing last line uses up one of the lines asked for. */
  lemma TailAgrees(file: seq<Byte>, n: int)
    requires n > 0
    ensures VisibleLines(LastLines(ByteLines(file), n)) == LastLines(TextLines(DecodeText(file)), n)
       <==> !LastLineVanishes(ByteLines(file)) || n >= |ByteLines(file)|
  {
    CutDecoded(file);
    LastOfVisible(ByteLines(file), n);
  }

  lemma LastOfVisible(lines: seq<seq<Byte>>, n: int)
    requires n > 0
    ensures VisibleLines(LastLines(lines, n)) == LastLines(VisibleLines(lines), n)
       <==> !LastLineVanishes(lines) || n >= |lines|
  {
    var tail := LastLines(lines, n);
    VisibleLength(lines);
    VisibleLength(tail);
    if n >= |lines| {
      assert tail == lines;
    } else {
      assert tail[|tail| - 1] == lines[|lines| - 1];
      if !LastLineVanishes(lines) {
        DecodeEachAt(lines);
        DecodeEachAt(tail);
      }
    }
  }

  /** Of a line feed and a stray tail octet, the last line is nothing, although the decoded text has one line. */
  lemma TailExample()
    ensures var file: seq<Byte> := [LF, 0x80];
            && VisibleLines(LastLines(ByteLines(file), 1)) == []
            && LastLines(TextLines(DecodeText(file)), 1) == [[LF]]
  {
    var file, first, last: seq<Byte> := [LF, 0x80], [LF], [0x80];
    assert first + last == file && last + [] == last;
    CutFirst<Byte>(first, last, LF);
    CutFirst<Byte>(last, [], LF);
    assert ByteLines(last) == [last];
    assert ByteLines(file) == [first, last];
    StrayOctet();
    assert LastLines([first, last], 1) == [last];
    CutDecoded(file);
    DecodeLf();
    assert [first, last][..1] == [first];
    assert DecodeEach([first]) == [DecodeText(first)] + DecodeEach([]);
  }

  lemma DecodeLf()
    ensures DecodeText([LF]) == [LF]
  {
    var s: seq<Byte> := [LF];
    AsciiFirst(LF, []);
    assert s + [] == s && Ignore(s) == [LF] + Ignore([]);
    assert ToJs([LF]) == FromCodePoint(LF) + ToJs([LF][1..]);
  }

  lemma VisibleLength(lines: seq<seq<Byte>>)
    ensures |VisibleLines(lines)| == if LastLineVanishes(lines) then |lines| - 1 else |lines|
  {
    DecodeEachAt(lines);
    if lines != [] {
      DecodeEachAt(lines[..|lines| - 1]);
    }
  }

  /** On well-formed text the tail is the last lines of the text. */
  lemma TailOfWellFormed(file: seq<Byte>, n: int)
    requires WellFormed(file) && n > 0
    ensures VisibleLines(LastLines(ByteLines(file), n)) == LastLines(TextLines(DecodeText(file)), n)
  {
    WellFormedLinesVisible(file);
    TailAgrees(file, n);
  }

  function BytesOf(pieces: seq<Piece>): (lines: seq<seq<Byte>>) {
    seq(|pieces|, i requires 0 <= i < |pieces| => pieces[i].bytes)
  }

  /** On well-formed text the lines that `readLineRange` decodes are the same range of the lines of the text. */
  lemma RangeOfWellFormed(file: seq<Byte>, startLine: int, limit: Limit)
    requires WellFormed(file)
    ensures DecodeEach(BytesOf(Slice(Pieces(ByteLines(file)), startLine, limit)))
         == Slice(TextLines(DecodeText(file)), startLine, limit)
  {
    WellFormedLinesVisible(file);
    CutDecoded(file);
    DecodeRange(ByteLines(file), startLine, limit);
  }

  lemma DecodeRange(lines: seq<seq<Byte>>, startLine: int, limit: Limit)
    ensures DecodeEach(BytesOf(Slice(Pieces(lines), startLine, limit))) == Slice(DecodeEach(lines), startLine, limit)
  {
    BytesOfSlice(lines, startLine, limit);
    DecodeEachAt(lines);
    DecodeEachAt(Slice(lines, startLine, limit));
  }

  lemma BytesOfSlice(lines: seq<seq<Byte>>, startLine: int, limit: Limit)
    ensures BytesOf(Slice(Pieces(lines), startLine, limit)) == Slice(lines, startLine, limit)
  {
  }

  /** Decoding line by line loses nothing that decoding the whole file keeps. */
  lemma {:induction false} DecodedLinesJoin(file: seq<Byte>)
    ensures Flatten(DecodeEach(ByteLines(file))) == DecodeText(file)
    decreases |file|
  {
    if file != [] {
      var k := LineLength<Byte>(file, LF);
      var line, rest := file[..k], file[k..];
      assert file == line + rest;
      DecodedLinesJoin(rest);
      assert ByteLines(file) == [line] + ByteLines(rest);
      DecodeConcat(line, rest);
    }
  }
}

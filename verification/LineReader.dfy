/** The line readers of the local file system: reading a file chunk by chunk, a range of its lines, and its last lines
    by scanning blocks from the end. A file is its bytes; a read takes the next non-empty chunk. */
module LineReader {
  import opened Units
  import opened Utf8
  import opened Lines

  // ----- Reading forwards -----

  /** A line handed to the text decoder; a byte order mark may be stripped unless `ignoreBom` is set. */
  datatype Piece = Piece(bytes: seq<Byte>, ignoreBom: bool)

  datatype Limit = Unlimited | AtMost(n: int)

  function Pieces(lines: seq<seq<Byte>>): (ps: seq<Piece>) {
    seq(|lines|, i requires 0 <= i < |lines| => Piece(lines[i], i != 0))
  }

  function Min(a: int, b: int): int { if a < b then a else b }

  function Max(a: int, b: int): int { if a < b then b else a }

  function DropUpTo<T>(xs: seq<T>, n: int): seq<T> {
    xs[Max(0, Min(n, |xs|))..]
  }

  function TakeUpTo<T>(xs: seq<T>, n: int): seq<T> {
    xs[..Max(0, Min(n, |xs|))]
  }

  /** The lines from number `startLine`, counted from 1, and at most `limit` of them; a limit below 1 acts as 1. */
  function Slice<T>(xs: seq<T>, startLine: int, limit: Limit): seq<T> {
    var rest := DropUpTo(xs, startLine - 1);
    match limit
    case Unlimited => rest
    case AtMost(n) => TakeUpTo(rest, Max(1, n))
  }

  /** The slice begins with line number `startLine`, or with the first line if that is smaller; line `k` of it is line
      `startLine + k`; and it is as long as the lines and the limit allow. */
  lemma SliceIs<T>(xs: seq<T>, startLine: int, limit: Limit)
    ensures var s, first := Slice(xs, startLine, limit), if startLine < 1 then 1 else startLine;
            && (forall k | 0 <= k < |s| :: first - 1 + k < |xs| && s[k] == xs[first - 1 + k])
            && (|s| == 0 <==> first > |xs|)
            && (first + |s| <= |xs| ==> limit.AtMost? && |s| >= limit.n)
            && (limit.AtMost? ==> |s| <= 1 || |s| <= limit.n)
  {
  }

  /** A limit below 1 still lets one line through, if there is one to start with. */
  lemma LimitBelowOne<T>(xs: seq<T>, startLine: int, n: int)
    requires n < 1
    ensures |Slice(xs, startLine, AtMost(n))| == if Max(0, startLine - 1) < |xs| then 1 else 0
    ensures Slice(xs, startLine, AtMost(n)) == Slice(xs, startLine, AtMost(1))
  {
  }

  ghost predicate CompleteLines(seen: seq<seq<Byte>>) {
    forall i | 0 <= i < |seen| :: IsLine<Byte>(seen[i], LF) && IsTerminated<Byte>(seen[i], LF)
  }

  /** `seen` are the complete lines read so far, `p` the beginning of a line, `rest` the unread bytes. */
  ghost predicate Reading(file: seq<Byte>, seen: seq<seq<Byte>>, p: seq<Byte>, rest: seq<Byte>) {
    && file == Flatten(seen) + p + rest
    && CompleteLines(seen)
    && LF !in p
  }

  lemma EndLine(file: seq<Byte>, seen: seq<seq<Byte>>, p: seq<Byte>, piece: seq<Byte>, rest: seq<Byte>)
    requires Reading(file, seen, p, piece + rest)
    requires IsLine<Byte>(piece, LF) && IsTerminated<Byte>(piece, LF)
    ensures Reading(file, seen + [p + piece], [], rest)
  {
    FlattenAppend(seen, p + piece);
  }

  lemma KeepTail(file: seq<Byte>, seen: seq<seq<Byte>>, p: seq<Byte>, tail: seq<Byte>, rest: seq<Byte>)
    requires Reading(file, seen, p, tail + rest) && LF !in tail
    ensures Reading(file, seen, p + tail, rest)
  {
  }

  /** The lines already read are the first lines of the file. */
  lemma SeenAreFirst(file: seq<Byte>, seen: seq<seq<Byte>>, rest: seq<Byte>)
    requires Reading(file, seen, [], rest)
    ensures ByteLines(file) == seen + ByteLines(rest)
  {
    var front := Flatten(seen);
    assert AreLines<Byte>(seen, LF);
    assert CutLines<Byte>(front, LF) == seen by { CutLinesUnique<Byte>(seen, LF); }
    assert front == [] || IsTerminated<Byte>(front, LF) by { TerminatedFlatten(seen); }
    assert file == front + rest;
    CutConcat<Byte>(front, rest, LF);
  }

  lemma StopReading(file: seq<Byte>, seen: seq<seq<Byte>>, p: seq<Byte>)
    requires Reading(file, seen, p, [])
    ensures ByteLines(file) == if p == [] then seen else seen + [p]
  {
    assert Reading(file, seen, [], p);
    SeenAreFirst(file, seen, p);
    if p != [] {
      CutFirst<Byte>(p, [], LF);
      assert p + [] == p;
    }
  }

  /** What has been yielded after the lines `seen`. */
  ghost predicate Yielded(seen: seq<seq<Byte>>, startLine: int, limit: Limit, out: seq<Piece>) {
    && out == DropUpTo(Pieces(seen), startLine - 1)
    && (limit.AtMost? ==> |out| < Max(1, limit.n))
  }

  lemma YieldNext(seen: seq<seq<Byte>>, line: seq<Byte>, startLine: int, limit: Limit, out: seq<Piece>)
    requires Yielded(seen, startLine, limit, out)
    ensures DropUpTo(Pieces(seen + [line]), startLine - 1)
         == if |seen| + 1 >= startLine then out + [Piece(line, |seen| != 0)] else out
  {
    assert Pieces(seen + [line]) == Pieces(seen) + [Piece(line, |seen| != 0)];
  }

  lemma YieldLast(seen: seq<seq<Byte>>, more: seq<seq<Byte>>, startLine: int, n: int, out: seq<Piece>)
    requires out == DropUpTo(Pieces(seen), startLine - 1) && |out| == Max(1, n)
    ensures out == Slice(Pieces(seen + more), startLine, AtMost(n))
  {
    assert Pieces(seen) == Pieces(seen + more)[..|seen|];
  }

  lemma YieldAll(seen: seq<seq<Byte>>, startLine: int, limit: Limit, out: seq<Piece>)
    requires out == DropUpTo(Pieces(seen), startLine - 1)
    requires limit.AtMost? ==> |out| <= Max(1, limit.n)
    ensures out == Slice(Pieces(seen), startLine, limit)
  {
  }

  /** A line starts at offset 0 exactly when no line precedes it. */
  lemma OffsetOfLine(seen: seq<seq<Byte>>)
    requires CompleteLines(seen)
    ensures |Flatten(seen)| == 0 <==> |seen| == 0
  {
  }

  /** The variables of the reader; `position` is the offset of the first byte not yet put into a line or `pending`. */
  datatype Cursor = Cursor(pending: seq<seq<Byte>>, pendingOffset: int, position: int, lineNo: int, out: seq<Piece>)

  ghost predicate Invariant(file: seq<Byte>, seen: seq<seq<Byte>>, cur: Cursor, rest: seq<Byte>, startLine: int,
                            limit: Limit)
  {
    var p := Flatten(cur.pending);
    && Reading(file, seen, p, rest)
    && (cur.pending == [] <==> p == [])
    && cur.position == |Flatten(seen)| + |p|
    && (cur.pending != [] ==> cur.pendingOffset == |Flatten(seen)|)
    && cur.lineNo == |seen| + 1
    && Yielded(seen, startLine, limit, cur.out)
  }

  function CompletedLine(pending: seq<seq<Byte>>, piece: seq<Byte>): seq<Byte> {
    if |pending| == 0 then piece else Flatten(pending + [piece])
  }

  function Emit(out: seq<Piece>, lineNo: int, startLine: int, line: seq<Byte>, offset: int): seq<Piece> {
    if lineNo >= startLine then out + [Piece(line, offset != 0)] else out
  }

  lemma CompletedIs(pending: seq<seq<Byte>>, piece: seq<Byte>)
    ensures CompletedLine(pending, piece) == Flatten(pending) + piece
  {
    FlattenAppend(pending, piece);
  }

  /** A line feed completes the line that `pending` begins. */
  lemma TakeLine(file: seq<Byte>, seen: seq<seq<Byte>>, cur: Cursor, piece: seq<Byte>, rest: seq<Byte>, startLine: int,
                 limit: Limit)
    requires Invariant(file, seen, cur, piece + rest, startLine, limit)
    requires IsLine<Byte>(piece, LF) && IsTerminated<Byte>(piece, LF)
    ensures var line := CompletedLine(cur.pending, piece);
            var offset := if |cur.pending| == 0 then cur.position else cur.pendingOffset;
            var out := Emit(cur.out, cur.lineNo, startLine, line, offset);
            if cur.lineNo >= startLine && limit.AtMost? && |out| >= limit.n then
              out == Slice(Pieces(ByteLines(file)), startLine, limit)
            else
              Invariant(file, seen + [line], Cursor([], cur.pendingOffset, cur.position + |piece|, cur.lineNo + 1, out),
                        rest, startLine, limit)
  {
    var p := Flatten(cur.pending);
    var line := p + piece;
    CompletedIs(cur.pending, piece);
    EndLine(file, seen, p, piece, rest);
    OffsetOfLine(seen);
    FlattenAppend(seen, line);
    YieldNext(seen, line, startLine, limit, cur.out);
    SeenAreFirst(file, seen + [line], rest);
    var out := DropUpTo(Pieces(seen + [line]), startLine - 1);
    if cur.lineNo >= startLine && limit.AtMost? && |out| >= limit.n {
      YieldLast(seen + [line], ByteLines(rest), startLine, limit.n, out);
    }
  }

  /** The end of a chunk is kept for the line that the next chunk continues. */
  lemma KeepPending(file: seq<Byte>, seen: seq<seq<Byte>>, cur: Cursor, tail: seq<Byte>, rest: seq<Byte>,
                    startLine: int, limit: Limit)
    requires Invariant(file, seen, cur, tail + rest, startLine, limit) && LF !in tail && tail != []
    ensures var offset := if |cur.pending| == 0 then cur.position else cur.pendingOffset;
            Invariant(file, seen, Cursor(cur.pending + [tail], offset, cur.position + |tail|, cur.lineNo, cur.out),
                      rest, startLine, limit)
  {
    KeepTail(file, seen, Flatten(cur.pending), tail, rest);
    FlattenAppend(cur.pending, tail);
  }

  /** At the end of the file `pending` holds the last line, if that is unterminated. */
  lemma Finish(file: seq<Byte>, seen: seq<seq<Byte>>, cur: Cursor, startLine: int, limit: Limit)
    requires Invariant(file, seen, cur, [], startLine, limit)
    ensures var out := if |cur.pending| > 0 then
                         Emit(cur.out, cur.lineNo, startLine, Flatten(cur.pending), cur.pendingOffset)
                       else cur.out;
            out == Slice(Pieces(ByteLines(file)), startLine, limit)
  {
    var line := Flatten(cur.pending);
    StopReading(file, seen, line);
    OffsetOfLine(seen);
    YieldNext(seen, line, startLine, limit, cur.out);
    var all := if line == [] then seen else seen + [line];
    YieldAll(all, startLine, limit, DropUpTo(Pieces(all), startLine - 1));
  }

  lemma NextPiece(chunk: seq<Byte>, lineStart: nat, i: nat, later: seq<Byte>)
    requires lineStart <= i < |chunk| && chunk[i] == LF && forall j | lineStart <= j < i :: chunk[j] != LF
    ensures var piece := chunk[lineStart..i + 1];
            && IsLine<Byte>(piece, LF) && IsTerminated<Byte>(piece, LF)
            && chunk[lineStart..] + later == piece + (chunk[i + 1..] + later)
  {
  }

  /** The body of the loop at a line feed; `done` tells that the limit is reached. */
  method CompleteLine(ghost file: seq<Byte>, ghost seen0: seq<seq<Byte>>, cur: Cursor, piece: seq<Byte>,
                      ghost rest: seq<Byte>, startLine: int, limit: Limit)
    returns (ghost seen: seq<seq<Byte>>, next: Cursor, done: bool)
    requires Invariant(file, seen0, cur, piece + rest, startLine, limit)
    requires IsLine<Byte>(piece, LF) && IsTerminated<Byte>(piece, LF)
    ensures done ==> next.out == Slice(Pieces(ByteLines(file)), startLine, limit)
    ensures !done ==> Invariant(file, seen, next, rest, startLine, limit)
  {
    TakeLine(file, seen0, cur, piece, rest, startLine, limit);
    var lineOffset := if |cur.pending| == 0 then cur.position else cur.pendingOffset;
    var line := CompletedLine(cur.pending, piece);
    seen, done := seen0 + [line], false;
    var out := cur.out;
    if cur.lineNo >= startLine {
      out := out + [Piece(line, lineOffset != 0)];
      done := limit.AtMost? && |out| >= limit.n;
    }
    next := Cursor([], cur.pendingOffset, cur.position + |piece|, cur.lineNo + 1, out);
  }

  /** The lines that one chunk completes. */
  method ReadChunk(ghost file: seq<Byte>, ghost seen0: seq<seq<Byte>>, cur: Cursor, chunk: seq<Byte>,
                   ghost later: seq<Byte>, startLine: int, limit: Limit)
    returns (ghost seen: seq<seq<Byte>>, next: Cursor, done: bool)
    requires Invariant(file, seen0, cur, chunk + later, startLine, limit)
    ensures done ==> next.out == Slice(Pieces(ByteLines(file)), startLine, limit)
    ensures !done ==> Invariant(file, seen, next, later, startLine, limit)
  {
    seen, next, done := seen0, cur, false;
    var lineStart, i := 0, 0;
    assert chunk[0..] == chunk;
    while i < |chunk|
      invariant 0 <= lineStart <= i <= |chunk|
      invariant forall j | lineStart <= j < i :: chunk[j] != LF
      invariant Invariant(file, seen, next, chunk[lineStart..] + later, startLine, limit)
    {
      if chunk[i] == LF {
        var piece := chunk[lineStart..i + 1];
        NextPiece(chunk, lineStart, i, later);
        seen, next, done := CompleteLine(file, seen, next, piece, chunk[i + 1..] + later, startLine, limit);
        if done {
          return;
        }
        lineStart := i + 1;
      }
      i := i + 1;
    }
    if lineStart < |chunk| {
      next := KeepRest(file, seen, next, chunk[lineStart..], later, startLine, limit);
    } else {
      assert chunk[lineStart..] + later == later;
    }
  }

  method KeepRest(ghost file: seq<Byte>, ghost seen: seq<seq<Byte>>, cur: Cursor, tail: seq<Byte>,
                  ghost later: seq<Byte>, startLine: int, limit: Limit)
    returns (next: Cursor)
    requires Invariant(file, seen, cur, tail + later, startLine, limit) && LF !in tail && tail != []
    ensures Invariant(file, seen, next, later, startLine, limit)
  {
    KeepPending(file, seen, cur, tail, later, startLine, limit);
    var pendingOffset := if |cur.pending| == 0 then cur.position else cur.pendingOffset;
    next := Cursor(cur.pending + [tail], pendingOffset, cur.position + |tail|, cur.lineNo, cur.out);
  }

  /** `_readUtf8Lines`; the length of `out` is the source's count of yielded lines. */
  method ReadUtf8Lines(chunks: seq<seq<Byte>>, startLine: int, limit: Limit) returns (out: seq<Piece>)
    requires forall c | c in chunks :: c != []
    ensures out == Slice(Pieces(ByteLines(Flatten(chunks))), startLine, limit)
  {
    ghost var file := Flatten(chunks);
    ghost var seen: seq<seq<Byte>> := [];
    var cur := Cursor([], 0, 0, 1, []);
    var c := 0;
    while c < |chunks|
      invariant 0 <= c <= |chunks|
      invariant Invariant(file, seen, cur, Flatten(chunks[c..]), startLine, limit)
    {
      assert chunks[c..][1..] == chunks[c + 1..];
      var done;
      seen, cur, done := ReadChunk(file, seen, cur, chunks[c], Flatten(chunks[c + 1..]), startLine, limit);
      if done {
        return cur.out;
      }
      c := c + 1;
    }
    Finish(file, seen, cur, startLine, limit);
    out := cur.out;
    if |cur.pending| > 0 {
      var line := Flatten(cur.pending);
      if cur.lineNo >= startLine {
        out := out + [Piece(line, cur.pendingOffset != 0)];
      }
    }
  }
}

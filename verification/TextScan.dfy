/** `scanTextFile`: validity, number of lines and kinds of line endings of a file, in one pass over its chunks. */
module TextScan {
  import opened Units
  import opened Utf8
  import opened Utf8Validation
  import opened Lines

  // ----- Line endings of a whole file -----

  ghost predicate HasCrLf(b: seq<Byte>) {
    exists i | 0 <= i < |b| - 1 :: b[i] == CR && b[i + 1] == LF
  }

  /** A line feed that does not follow a carriage return. */
  ghost predicate HasLf(b: seq<Byte>) {
    exists i | 0 <= i < |b| :: PlainLfAt(b, i)
  }

  predicate PlainLfAt(b: seq<Byte>, i: nat)
    requires i < |b|
  {
    b[i] == LF && (i == 0 || b[i - 1] != CR)
  }

  /** A carriage return that no line feed follows. */
  ghost predicate HasLoneCr(b: seq<Byte>) {
    exists i | 0 <= i < |b| :: b[i] == CR && (i + 1 == |b| || b[i + 1] != LF)
  }

  /** A carriage return that another byte than a line feed follows. */
  ghost predicate HasSettledLoneCr(b: seq<Byte>) {
    exists i | 0 <= i < |b| - 1 :: b[i] == CR && b[i + 1] != LF
  }

  predicate EndsWithCr(b: seq<Byte>) {
    b != [] && b[|b| - 1] == CR
  }

  lemma CrLfStep(b: seq<Byte>, x: Byte)
    ensures HasCrLf(b + [x]) <==> HasCrLf(b) || (EndsWithCr(b) && x == LF)
  {
    var s := b + [x];
    if i :| 0 <= i < |b| - 1 && b[i] == CR && b[i + 1] == LF {
      assert s[i] == CR && s[i + 1] == LF;
    }
    if EndsWithCr(b) && x == LF {
      assert s[|b| - 1] == CR && s[|b|] == LF;
    }
  }

  lemma LfStep(b: seq<Byte>, x: Byte)
    ensures HasLf(b + [x]) <==> HasLf(b) || (!EndsWithCr(b) && x == LF)
  {
    var s := b + [x];
    if i :| 0 <= i < |b| && PlainLfAt(b, i) {
      assert PlainLfAt(s, i);
    }
    if i :| 0 <= i < |s| && PlainLfAt(s, i) && i < |b| {
      assert PlainLfAt(b, i);
    }
    if !EndsWithCr(b) && x == LF {
      assert PlainLfAt(s, |b|);
    }
  }

  lemma SettledLoneCrStep(b: seq<Byte>, x: Byte)
    ensures HasSettledLoneCr(b + [x]) <==> HasSettledLoneCr(b) || (EndsWithCr(b) && x != LF)
  {
    var s := b + [x];
    if i :| 0 <= i < |b| - 1 && b[i] == CR && b[i + 1] != LF {
      assert s[i] == CR && s[i + 1] != LF;
    }
    if EndsWithCr(b) && x != LF {
      assert s[|b| - 1] == CR && s[|b|] != LF;
    }
  }

  lemma LoneCrAtEnd(b: seq<Byte>)
    ensures HasLoneCr(b) <==> HasSettledLoneCr(b) || EndsWithCr(b)
  {
  }

  class LineEndingFlags {
    var hasCrLf: bool
    var hasLf: bool
    var hasLoneCr: bool

    constructor ()
      ensures Describes([])
    {
      hasCrLf, hasLf, hasLoneCr := false, false, false;
    }

    /** The flags after the bytes `b`, while a final carriage return is still undecided. */
    ghost predicate Describes(b: seq<Byte>)
      reads this
    {
      hasCrLf == HasCrLf(b) && hasLf == HasLf(b) && hasLoneCr == HasSettledLoneCr(b)
    }
  }

  /** `updateLineEndingFlagsFromBytes`; `before` are the bytes of the earlier chunks. */
  method UpdateLineEndingFlags(flags: LineEndingFlags, chunk: seq<Byte>, prevWasCr: bool, ghost before: seq<Byte>)
    returns (wasCr: bool)
    requires flags.Describes(before) && prevWasCr == EndsWithCr(before)
    modifies flags
    ensures flags.Describes(before + chunk) && wasCr == EndsWithCr(before + chunk)
  {
    wasCr := prevWasCr;
    var i := 0;
    ghost var b := before;
    assert before + chunk[..0] == before;
    while i < |chunk|
      invariant 0 <= i <= |chunk| && b == before + chunk[..i]
      invariant flags.Describes(b) && wasCr == EndsWithCr(b)
    {
      var byte := chunk[i];
      CrLfStep(b, byte);
      LfStep(b, byte);
      SettledLoneCrStep(b, byte);
      if byte == CR {
        if wasCr {
          flags.hasLoneCr := true;
        }
        wasCr := true;
      } else if byte == LF {
        if wasCr {
          flags.hasCrLf := true;
        } else {
          flags.hasLf := true;
        }
        wasCr := false;
      } else {
        if wasCr {
          flags.hasLoneCr := true;
        }
        wasCr := false;
      }
      i := i + 1;
      b := b + [byte];
    }
    assert before + chunk[..i] == before + chunk;
  }

  /** `InvalidUtf8` stands for the exception of the validator. */
  datatype TextFileScan =
    | InvalidUtf8
    | Scanned(totalLines: nat, endsWithNewline: bool, hasNul: bool, hasCrLf: bool, hasLf: bool, hasLoneCr: bool)

  /** The local variables of the scan. */
  datatype Totals = Totals(lines: nat, bytes: nat, endsWithNewline: bool, hasNul: bool, prevWasCr: bool)

  /** The variables after the bytes `b`. */
  ghost predicate Counted(b: seq<Byte>, t: Totals) {
    && t.lines == Count<Byte>(b, LF)
    && t.bytes == |b|
    && t.endsWithNewline == IsTerminated<Byte>(b, LF)
    && t.hasNul == (0 in b)
    && t.prevWasCr == EndsWithCr(b)
  }

  method CountChunk(chunk: seq<Byte>, hasNul0: bool, totalLines0: nat) returns (hasNul: bool, totalLines: nat)
    ensures hasNul == (hasNul0 || 0 in chunk)
    ensures totalLines == totalLines0 + Count<Byte>(chunk, LF)
  {
    hasNul, totalLines := hasNul0, totalLines0;
    var i := 0;
    while i < |chunk|
      invariant 0 <= i <= |chunk|
      invariant hasNul == (hasNul0 || 0 in chunk[..i])
      invariant totalLines == totalLines0 + Count<Byte>(chunk[..i], LF)
    {
      var byte := chunk[i];
      assert chunk[..i + 1] == chunk[..i] + [byte];
      assert chunk[..i + 1][..i] == chunk[..i];
      if byte == 0 {
        hasNul := true;
      }
      if byte == LF {
        totalLines := totalLines + 1;
      }
      i := i + 1;
    }
    assert chunk[..i] == chunk;
  }

  lemma CountedAppend(b: seq<Byte>, chunk: seq<Byte>)
    requires chunk != []
    ensures Count<Byte>(b + chunk, LF) == Count<Byte>(b, LF) + Count<Byte>(chunk, LF)
    ensures IsTerminated<Byte>(b + chunk, LF) <==> chunk[|chunk| - 1] == LF
    ensures 0 in b + chunk <==> 0 in b || 0 in chunk
  {
    CountConcat<Byte>(b, chunk, LF);
  }

  /** The file begins with the bytes `b` of the first `c` chunks. */
  ghost predicate ReadSoFar(chunks: seq<seq<Byte>>, c: nat, b: seq<Byte>) {
    c <= |chunks| && b + Flatten(chunks[c..]) == Flatten(chunks)
  }

  lemma ReadNext(chunks: seq<seq<Byte>>, c: nat, b: seq<Byte>)
    requires c < |chunks| && ReadSoFar(chunks, c, b)
    ensures ReadSoFar(chunks, c + 1, b + chunks[c])
    ensures !Viable(b + chunks[c]) ==> !WellFormed(Flatten(chunks))
  {
    assert chunks[c..][1..] == chunks[c + 1..];
    assert (b + chunks[c]) + Flatten(chunks[c + 1..]) == Flatten(chunks);
  }

  lemma ReadAllChunks(chunks: seq<seq<Byte>>, b: seq<Byte>)
    requires ReadSoFar(chunks, |chunks|, b)
    ensures b == Flatten(chunks)
  {
    assert Flatten(chunks[|chunks|..]) == [];
  }

  /** What the scan does with one chunk. */
  method ScanChunk(validator: Utf8Validator, flags: LineEndingFlags, t: Totals, chunk: seq<Byte>, ghost b: seq<Byte>)
    returns (ok: bool, r: Totals)
    requires chunk != []
    requires validator.Valid() && validator.seen == b && flags.Describes(b) && Counted(b, t)
    modifies validator, flags
    ensures ok <==> Viable(b + chunk)
    ensures ok ==>
      && validator.Valid() && validator.seen == b + chunk && flags.Describes(b + chunk) && Counted(b + chunk, r)
  {
    ok := validator.Write(chunk);
    if !ok {
      return false, t;
    }
    CountedAppend(b, chunk);
    var hasNul, lines := CountChunk(chunk, t.hasNul, t.lines);
    var prevWasCr := UpdateLineEndingFlags(flags, chunk, t.prevWasCr, b);
    r := Totals(lines, t.bytes + |chunk|, chunk[|chunk| - 1] == LF, hasNul, prevWasCr);
  }

  /** What a scan must report about the bytes `file`. */
  ghost predicate Reports(r: TextFileScan, file: seq<Byte>) {
    && (r.InvalidUtf8? <==> !WellFormed(file))
    && (r.Scanned? ==>
        && r.totalLines == |ByteLines(file)|
        && r.endsWithNewline == IsTerminated<Byte>(file, LF)
        && r.hasNul == (0 in file)
        && r.hasCrLf == HasCrLf(file) && r.hasLf == HasLf(file) && r.hasLoneCr == HasLoneCr(file))
  }

  /** `scanTextFile`. */
  method ScanTextFile(chunks: seq<seq<Byte>>) returns (r: TextFileScan)
    requires forall c | c in chunks :: c != []
    ensures Reports(r, Flatten(chunks))
  {
    var flags := new LineEndingFlags();
    var validator := new Utf8Validator();
    var t := Totals(0, 0, false, false, false);
    ghost var b: seq<Byte> := [];
    var c := 0;
    while c < |chunks|
      invariant 0 <= c <= |chunks| && ReadSoFar(chunks, c, b)
      invariant validator.Valid() && validator.seen == b && flags.Describes(b) && Counted(b, t)
    {
      var chunk := chunks[c];
      assert chunk in chunks;
      ReadNext(chunks, c, b);
      var ok;
      ok, t := ScanChunk(validator, flags, t, chunk, b);
      if !ok {
        return InvalidUtf8;
      }
      b := b + chunk;
      c := c + 1;
    }
    ReadAllChunks(chunks, b);
    r := FinishScan(validator, flags, t, b);
  }

  /** The end of the scan decides a final carriage return, a final character and a final unterminated line. */
  method FinishScan(validator: Utf8Validator, flags: LineEndingFlags, t: Totals, ghost b: seq<Byte>)
    returns (r: TextFileScan)
    requires validator.Valid() && validator.seen == b && flags.Describes(b) && Counted(b, t)
    modifies flags
    ensures Reports(r, b)
  {
    LoneCrAtEnd(b);
    LineCount<Byte>(b, LF);
    if t.prevWasCr {
      flags.hasLoneCr := true;
    }
    var ok := validator.End();
    if !ok {
      return InvalidUtf8;
    }
    var totalLines := if t.bytes > 0 && !t.endsWithNewline then t.lines + 1 else t.lines;
    r := Scanned(totalLines, t.endsWithNewline, t.hasNul, flags.hasCrLf, flags.hasLf, flags.hasLoneCr);
  }

  /** The lines a scan counts are those of the decoded text, whatever the chunks. */
  lemma ScanCountsTextLines(file: seq<Byte>)
    requires WellFormed(file)
    ensures |ByteLines(file)| == |TextLines(DecodeText(file))|
  {
    WellFormedLinesVisible(file);
    CutDecoded(file);
    DecodeEachAt(ByteLines(file));
  }
}

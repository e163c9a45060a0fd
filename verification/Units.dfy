/** The values that cross module boundaries: bytes, Unicode scalar values, and JavaScript strings as sequences of
    UTF-16 code units. */
module Units {
  datatype Option<T> = None | Some(value: T)

  type Byte = b: int | 0 <= b < 0x100

  /** A Unicode scalar value: a code point that is not a surrogate. */
  type Scalar = v: int | 0 <= v <= 0x10FFFF && !(0xD800 <= v <= 0xDFFF)

  predicate IsScalar(v: int) {
    0 <= v <= 0x10FFFF && !(0xD800 <= v <= 0xDFFF)
  }

  type CodeUnit = u: int | 0 <= u < 0x10000

  type JsString = seq<CodeUnit>

  const LF := 0x0A
  const CR := 0x0D

  /** `String.fromCodePoint`: section 2.1 of RFC 2781. */
  function FromCodePoint(v: Scalar): JsString {
    if v < 0x10000 then [v]
    else [0xD800 + (v - 0x10000) / 0x400, 0xDC00 + (v - 0x10000) % 0x400]
  }

  /** The JavaScript string that holds `text`. */
  function ToJs(text: seq<Scalar>): JsString {
    if text == [] then [] else FromCodePoint(text[0]) + ToJs(text[1..])
  }

  lemma {:induction false} ToJsConcat(a: seq<Scalar>, b: seq<Scalar>)
    ensures ToJs(a + b) == ToJs(a) + ToJs(b)
  {
    if a == [] {
      assert a + b == b;
    } else {
      assert (a + b)[1..] == a[1..] + b;
      ToJsConcat(a[1..], b);
    }
  }

  /** A line feed is neither half of a surrogate pair. */
  lemma {:induction false} ToJsKeepsLf(text: seq<Scalar>)
    ensures LF in ToJs(text) <==> LF in text
  {
    if text != [] {
      ToJsKeepsLf(text[1..]);
      assert LF in FromCodePoint(text[0]) <==> text[0] == LF;
      assert LF in text <==> text[0] == LF || LF in text[1..];
    }
  }

  lemma AppendAssociates(a: JsString, b: JsString, c: JsString)
    ensures (a + b) + c == a + (b + c)
  {
  }

  function Flatten<T>(parts: seq<seq<T>>): (s: seq<T>)
    ensures parts == [] ==> s == []
  {
    if parts == [] then [] else parts[0] + Flatten(parts[1..])
  }

  lemma {:induction false} FlattenConcat<T>(a: seq<seq<T>>, b: seq<seq<T>>)
    ensures Flatten(a + b) == Flatten(a) + Flatten(b)
  {
    if a == [] {
      assert a + b == b;
    } else {
      assert (a + b)[1..] == a[1..] + b;
      FlattenConcat(a[1..], b);
    }
  }

  lemma FlattenAppend<T>(a: seq<seq<T>>, last: seq<T>)
    ensures Flatten(a + [last]) == Flatten(a) + last
  {
    FlattenConcat(a, [last]);
    assert Flatten([last]) == last + Flatten<T>([]);
  }

  // ----- Positions -----

  ghost predicate Increasing(at: seq<nat>) {
    forall i, j | 0 <= i < j < |at| :: at[i] < at[j]
  }

  /** `at` are the numbers below `n` of which `p` holds, in order. */
  ghost predicate Enumerates(at: seq<nat>, n: nat, p: nat -> bool) {
    && Increasing(at)
    && (forall i | 0 <= i < |at| :: at[i] < n && p(at[i]))
    && (forall j: nat | j < n && p(j) :: j in at)
  }

  function Positions(n: nat, p: nat -> bool): seq<nat> {
    if n == 0 then [] else if p(n - 1) then Positions(n - 1, p) + [n - 1] else Positions(n - 1, p)
  }

  /** The positions below `n` are what enumerates the numbers below `n` of which `p` holds, and nothing else does. */
  lemma {:induction false} PositionsEnumerate(n: nat, p: nat -> bool)
    ensures Enumerates(Positions(n, p), n, p)
  {
    if n > 0 {
      PositionsEnumerate(n - 1, p);
    }
  }

  lemma EnumeratesIff(at: seq<nat>, n: nat, p: nat -> bool)
    ensures Enumerates(at, n, p) <==> at == Positions(n, p)
  {
    PositionsEnumerate(n, p);
    if Enumerates(at, n, p) {
      EnumeratesOnce(at, Positions(n, p), n, p);
    }
  }

  lemma LastIsLargest(at: seq<nat>, x: nat)
    requires Increasing(at) && x in at && forall i | 0 <= i < |at| :: at[i] <= x
    ensures at[|at| - 1] == x && at == at[..|at| - 1] + [x]
  {
    var i :| 0 <= i < |at| && at[i] == x;
    assert at[i] <= at[|at| - 1];
  }

  lemma OrderedAlike(at: seq<nat>, i: nat, k: nat)
    requires Increasing(at) && i < |at| && k < |at| && at[i] < at[k]
    ensures i < k
  {
  }

  lemma RoomBetween(at: seq<nat>, low: int, high: int)
    requires forall i | 0 <= i < |at| :: low < at[i] < high
    ensures at != [] ==> low + 1 < high
  {
    if at != [] {
      assert low < at[0] < high;
    }
  }

  lemma EnumeratesLast(at: seq<nat>, n: nat, p: nat -> bool) returns (front: seq<nat>)
    requires n > 0 && Enumerates(at, n, p)
    ensures Enumerates(front, n - 1, p) && at == if p(n - 1) then front + [n - 1] else front
  {
    front := at;
    if p(n - 1) {
      LastIsLargest(at, n - 1);
      front := at[..|at| - 1];
      forall i | 0 <= i < |front|
        ensures front[i] < n - 1 && p(front[i])
      {
        assert front[i] == at[i] < at[|at| - 1];
      }
    }
  }

  /** Only one sequence enumerates. */
  lemma {:induction false} EnumeratesOnce(a: seq<nat>, b: seq<nat>, n: nat, p: nat -> bool)
    requires Enumerates(a, n, p) && Enumerates(b, n, p)
    ensures a == b
    decreases n
  {
    if n == 0 {
      RoomBetween(a, -1, 0);
      RoomBetween(b, -1, 0);
    } else {
      var x := EnumeratesLast(a, n, p);
      var y := EnumeratesLast(b, n, p);
      EnumeratesOnce(x, y, n - 1, p);
    }
  }

  /** The positions before one of them. */
  lemma EnumeratesBefore(at: seq<nat>, n: nat, p: nat -> bool, k: nat)
    requires Enumerates(at, n, p) && k < |at|
    ensures Enumerates(at[..k], at[k], p)
  {
    var front := at[..k];
    forall j: nat | j < at[k] && p(j)
      ensures j in front
    {
      var i :| 0 <= i < |at| && at[i] == j;
      OrderedAlike(at, i, k);
      assert front[i] == j;
    }
  }

  /** `a` can be obtained from `b` by deleting elements. */
  ghost predicate IsSubsequence<T>(a: seq<T>, b: seq<T>) {
    if a == [] then true
    else b != [] && (IsSubsequence(a, b[1..]) || (a[0] == b[0] && IsSubsequence(a[1..], b[1..])))
  }

  lemma {:induction false} SubsequenceDrop<T>(a: seq<T>, b: seq<T>, k: nat)
    requires k <= |b| && IsSubsequence(a, b[k..])
    ensures IsSubsequence(a, b)
  {
    if k > 0 {
      assert b[1..][k - 1..] == b[k..];
      SubsequenceDrop(a, b[1..], k - 1);
    }
  }

  lemma {:induction false} SubsequenceSharedPrefix<T>(p: seq<T>, a: seq<T>, b: seq<T>)
    requires IsSubsequence(a, b)
    ensures IsSubsequence(p + a, p + b)
  {
    if p == [] {
      assert p + a == a && p + b == b;
    } else {
      assert (p + a)[1..] == p[1..] + a && (p + b)[1..] == p[1..] + b;
      SubsequenceSharedPrefix(p[1..], a, b);
    }
  }
}

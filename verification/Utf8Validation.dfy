/** The streaming UTF-8 validator of the text scanner, a table-driven automaton fed one chunk at a time, against the
    grammar of section 4 of RFC 3629. */
module Utf8Validation {
  import opened Units
  import opened Utf8

  /** The closure variables of the validator; `lower` and `upper` bound the next tail octet. */
  datatype State = State(needed: int, lower: int, upper: int)

  const START := State(0, 0x80, 0xBF)

  datatype Verdict = Fail | Go(state: State)

  /** What one byte does to the closure variables. */
  function Step(q: State, byte: Byte): Verdict {
    if q.needed == 0 then
      if byte <= 0x7F then Go(q)
      else if 0xC2 <= byte <= 0xDF then Go(q.(needed := 1))
      else if byte == 0xE0 then Go(q.(needed := 2, lower := 0xA0))
      else if 0xE1 <= byte <= 0xEC then Go(q.(needed := 2))
      else if byte == 0xED then Go(q.(needed := 2, upper := 0x9F))
      else if 0xEE <= byte <= 0xEF then Go(q.(needed := 2))
      else if byte == 0xF0 then Go(q.(needed := 3, lower := 0x90))
      else if 0xF1 <= byte <= 0xF3 then Go(q.(needed := 3))
      else if byte == 0xF4 then Go(q.(needed := 3, upper := 0x8F))
      else Fail
    else if byte < q.lower || byte > q.upper then Fail
    else Go(State(q.needed - 1, 0x80, 0xBF))
  }

  function Run(q: State, s: seq<Byte>): Verdict
    decreases |s|
  {
    if s == [] then Go(q)
    else
      match Step(q, s[0])
      case Fail => Fail
      case Go(r) => Run(r, s[1..])
  }

  lemma {:induction false} RunConcat(q: State, a: seq<Byte>, b: seq<Byte>)
    ensures Run(q, a + b) == match Run(q, a) case Fail => Fail case Go(r) => Run(r, b)
    decreases |a|
  {
    if a == [] {
      assert a + b == b;
    } else {
      assert (a + b)[1..] == a[1..] + b;
      if Step(q, a[0]).Go? {
        RunConcat(Step(q, a[0]).state, a[1..], b);
      }
    }
  }

  /** States the automaton reaches: inside a character, bounds of the next octet that leave some octet possible. */
  predicate Reachable(q: State) {
    || q == START
    || (1 <= q.needed <= 3 && 0x80 <= q.lower <= q.upper <= 0xBF)
  }

  lemma {:induction false} RunReachable(q: State, s: seq<Byte>)
    requires Reachable(q)
    ensures Run(q, s).Go? ==> Reachable(Run(q, s).state)
    decreases |s|
  {
    if s != [] && Step(q, s[0]).Go? {
      RunReachable(Step(q, s[0]).state, s[1..]);
    }
  }

  /** `s` begins with the octets that state `q` is still waiting for. */
  predicate Completes(q: State, s: seq<Byte>)
    requires Reachable(q)
  {
    && q.needed <= |s|
    && (q.needed > 0 ==> q.lower <= s[0] <= q.upper)
    && forall i | 1 <= i < q.needed :: IsTail(s[i])
  }

  lemma {:induction false} RunInsideChar(q: State, s: seq<Byte>)
    requires Reachable(q)
    ensures Completes(q, s) ==> Run(q, s) == Run(START, s[q.needed..])
    ensures !Completes(q, s) && Run(q, s).Go? ==> Run(q, s).state.needed > 0
    decreases q.needed
  {
    if q.needed > 0 && s != [] && Step(q, s[0]).Go? {
      var r, t := Step(q, s[0]).state, s[1..];
      RunInsideChar(r, t);
      CompletesTail(q, s);
      assert Completes(q, s) ==> t[r.needed..] == s[q.needed..];
    }
  }

  lemma CompletesTail(q: State, s: seq<Byte>)
    requires Reachable(q) && q.needed > 0 && s != [] && q.lower <= s[0] <= q.upper
    ensures Completes(q, s) <==> Completes(State(q.needed - 1, 0x80, 0xBF), s[1..])
  {
    var t := s[1..];
    assert forall i | 1 <= i < q.needed && i < |s| :: s[i] == t[i - 1];
    if Completes(State(q.needed - 1, 0x80, 0xBF), t) {
      assert forall i | 1 <= i < q.needed :: s[i] == t[i - 1] && IsTail(t[i - 1]);
    }
  }

  /** The table and the grammar agree on what one character is. */
  lemma TableMatchesGrammar(s: seq<Byte>)
    requires s != []
    ensures match Step(START, s[0])
            case Fail => CharLength(s) == 0
            case Go(q) => Reachable(q) && CharLength(s) == if Completes(q, s[1..]) then q.needed + 1 else 0
  {
    TakenIsCharLength(s);
    var t := s[1..];
    assert forall i | 1 <= i < |s| :: At(s, i) == t[i - 1];
  }

  lemma {:induction false} AcceptsIffWellFormed(s: seq<Byte>)
    ensures Run(START, s) == Go(START) <==> WellFormed(s)
    decreases |s|
  {
    if s != [] {
      var k := CharLength(s);
      TableMatchesGrammar(s);
      if Step(START, s[0]).Go? {
        var q := Step(START, s[0]).state;
        RunInsideChar(q, s[1..]);
        assert k > 0 ==> s[1..][q.needed..] == s[k..];
      }
      if k > 0 {
        AcceptsIffWellFormed(s[k..]);
        WellFormedHead(s);
      }
    }
  }

  lemma WellFormedHead(s: seq<Byte>)
    requires CharLength(s) > 0
    ensures WellFormed(s) <==> WellFormed(s[CharLength(s)..])
  {
    if WellFormed(s) {
      var k :| 1 <= k <= |s| && IsChar(s[..k]) && WellFormed(s[k..]);
      CharLengthUnique(s, k);
    }
  }

  /** Some continuation of `s` is well-formed. */
  ghost predicate Viable(s: seq<Byte>) {
    exists rest :: WellFormed(s + rest)
  }

  lemma RunsIffViable(s: seq<Byte>)
    ensures Run(START, s).Go? <==> Viable(s)
  {
    if Run(START, s).Go? {
      RunReachable(START, s);
      var q := Run(START, s).state;
      var rest: seq<Byte> := if q.needed == 0 then [] else [q.lower] + [0x80, 0x80, 0x80][..q.needed - 1];
      RunInsideChar(q, rest);
      assert rest[q.needed..] == [];
      RunConcat(START, s, rest);
      AcceptsIffWellFormed(s + rest);
    }
    if Viable(s) {
      var rest :| WellFormed(s + rest);
      AcceptsIffWellFormed(s + rest);
      RunConcat(START, s, rest);
    }
  }

  /** `createUtf8Validator`; a result of `false` stands for the exception. */
  class Utf8Validator {
    var needed: int
    var lower: int
    var upper: int
    ghost var seen: seq<Byte>  // everything written so far

    ghost predicate Valid()
      reads this
    {
      Run(START, seen) == Go(State(needed, lower, upper))
    }

    constructor ()
      ensures Valid() && seen == []
    {
      needed, lower, upper := 0, 0x80, 0xBF;
      seen := [];
    }

    /** Fails on the first write after which no continuation can make the bytes well-formed, and on no other. */
    method Write(chunk: seq<Byte>) returns (ok: bool)
      requires Valid()
      modifies this
      ensures ok <==> Viable(old(seen) + chunk)
      ensures ok ==> Valid() && seen == old(seen) + chunk
    {
      ghost var before := seen;
      RunConcat(START, before, chunk);
      RunsIffViable(before + chunk);
      ghost var q0 := State(needed, lower, upper);
      var i := 0;
      while i < |chunk|
        invariant 0 <= i <= |chunk| && seen == before
        invariant Run(q0, chunk) == Run(State(needed, lower, upper), chunk[i..])
      {
        var byte := chunk[i];
        assert chunk[i..][1..] == chunk[i + 1..];
        if needed == 0 {
          if byte <= 0x7F {
            i := i + 1;
            continue;
          }
          if 0xC2 <= byte <= 0xDF {
            needed := 1;
          } else if byte == 0xE0 {
            needed := 2;
            lower := 0xA0;
          } else if 0xE1 <= byte <= 0xEC {
            needed := 2;
          } else if byte == 0xED {
            needed := 2;
            upper := 0x9F;
          } else if 0xEE <= byte <= 0xEF {
            needed := 2;
          } else if byte == 0xF0 {
            needed := 3;
            lower := 0x90;
          } else if 0xF1 <= byte <= 0xF3 {
            needed := 3;
          } else if byte == 0xF4 {
            needed := 3;
            upper := 0x8F;
          } else {
            return false;
          }
        } else {
          if byte < lower || byte > upper {
            return false;
          }
          lower := 0x80;
          upper := 0xBF;
          needed := needed - 1;
        }
        i := i + 1;
      }
      seen := before + chunk;
      return true;
    }

    method End() returns (ok: bool)
      requires Valid()
      ensures ok <==> WellFormed(seen)
    {
      AcceptsIffWellFormed(seen);
      RunReachable(START, seen);
      return needed == 0;
    }
  }
}

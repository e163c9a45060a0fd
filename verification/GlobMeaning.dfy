/** Which paths the glob walk yields, on any directory graph, and how often. */
module GlobMeaning {
  import opened Units
  import opened GlobWalk

  // ----- The meaning of a pattern -----

  /** Following `names` from directory `id` through directories that may be entered leads to `d`, with the keys `v`
      visited on the way. */
  ghost predicate Descends(fs: Fs, id: NodeId, names: Path, visited: set<Key>, d: NodeId, v: set<Key>)
    decreases |names|
  {
    if names == [] then d == id && v == visited
    else
      exists e | e in Listing(fs, id) ::
        && e.name == names[0] && IsDir(fs, e) && MayEnter(fs, e, visited)
        && Descends(fs, e.target.value, names[1..], Visit(fs, e, visited), d, v)
  }

  ghost predicate HasName(fs: Fs, id: NodeId, name: Name) {
    exists e | e in Listing(fs, id) :: e.name == name
  }

  ghost predicate HasFile(fs: Fs, id: NodeId, name: Name) {
    exists e | e in Listing(fs, id) :: e.name == name && IsFile(fs, e)
  }

  ghost predicate EndsAtDir(fs: Fs, id: NodeId, names: Path, visited: set<Key>) {
    exists d, v :: Descends(fs, id, names, visited, d, v)
  }

  ghost predicate EndsAtFile(fs: Fs, id: NodeId, dirs: Path, name: Name, visited: set<Key>) {
    exists d, v :: Descends(fs, id, dirs, visited, d, v) && HasFile(fs, d, name)
  }

  ghost predicate EndsAt(fs: Fs, id: NodeId, names: Path, visited: set<Key>) {
    || EndsAtDir(fs, id, names, visited)
    || (names != [] && EndsAtFile(fs, id, names[..|names| - 1], names[|names| - 1], visited))
  }

  /** The names match the parts of the pattern: a plain part takes one name, `**` any number of them; every part but
      the last takes directories only; a last `**` ends at a directory or at a file. */
  ghost predicate Hit(fs: Fs, test: Test, id: NodeId, parts: seq<JsString>, names: Path, visited: set<Key>)
    decreases |parts|
  {
    if parts == [] then false
    else if parts[0] != STAR_STAR then
      && names != [] && test(parts[0], names[0])
      && if |parts| == 1 then |names| == 1 && HasName(fs, id, names[0])
         else exists d, v :: Descends(fs, id, names[..1], visited, d, v) && Hit(fs, test, d, parts[1..], names[1..], v)
    else if |parts| == 1 then EndsAt(fs, id, names, visited)
    else
      exists k, d, v ::
        0 <= k <= |names| && Descends(fs, id, names[..k], visited, d, v) && Hit(fs, test, d, parts[1..], names[k..], v)
  }

  /** The first `k` names lead through directories to one where the rest of the pattern matches the other names. */
  ghost predicate SplitsAt(fs: Fs, test: Test, id: NodeId, rest: seq<JsString>, names: Path, visited: set<Key>, k: nat)
    requires k <= |names|
  {
    exists d, v :: Descends(fs, id, names[..k], visited, d, v) && Hit(fs, test, d, rest, names[k..], v)
  }

  lemma HitSplits(fs: Fs, test: Test, id: NodeId, parts: seq<JsString>, names: Path, visited: set<Key>)
    requires |parts| > 1 && parts[0] == STAR_STAR
    ensures Hit(fs, test, id, parts, names, visited)
       <==> exists k | 0 <= k <= |names| :: SplitsAt(fs, test, id, parts[1..], names, visited, k)
  {
    if Hit(fs, test, id, parts, names, visited) {
      var k, d, v :| 0 <= k <= |names| && Descends(fs, id, names[..k], visited, d, v)
                     && Hit(fs, test, d, parts[1..], names[k..], v);
      assert SplitsAt(fs, test, id, parts[1..], names, visited, k);
    }
    if k :| 0 <= k <= |names| && SplitsAt(fs, test, id, parts[1..], names, visited, k) {
      var d, v :| Descends(fs, id, names[..k], visited, d, v) && Hit(fs, test, d, parts[1..], names[k..], v);
    }
  }

  // ----- One directory at a time -----

  /** The names match through the entry `e`. */
  ghost predicate HitThrough(fs: Fs, test: Test, e: Entry, parts: seq<JsString>, names: Path, visited: set<Key>)
    requires parts != []
  {
    && names != [] && e.name == names[0]
    && if parts[0] == STAR_STAR then
         if IsDir(fs, e) then
           MayEnter(fs, e, visited) && Hit(fs, test, e.target.value, parts, names[1..], Visit(fs, e, visited))
         else IsFile(fs, e) && |parts| == 1 && |names| == 1
       else
         && test(parts[0], e.name)
         && if |parts| == 1 then |names| == 1
            else IsDir(fs, e) && MayEnter(fs, e, visited)
                 && Hit(fs, test, e.target.value, parts[1..], names[1..], Visit(fs, e, visited))
  }

  ghost predicate HitsBelow(fs: Fs, test: Test, id: NodeId, parts: seq<JsString>, names: Path, visited: set<Key>)
    requires parts != []
  {
    exists e | e in Listing(fs, id) :: HitThrough(fs, test, e, parts, names, visited)
  }

  /** `**` takes no name. */
  ghost predicate HitsHere(fs: Fs, test: Test, id: NodeId, parts: seq<JsString>, names: Path, visited: set<Key>)
    requires parts != []
  {
    parts[0] == STAR_STAR && if |parts| == 1 then names == [] else Hit(fs, test, id, parts[1..], names, visited)
  }

  lemma SplitAtZero(fs: Fs, test: Test, id: NodeId, rest: seq<JsString>, names: Path, visited: set<Key>)
    ensures SplitsAt(fs, test, id, rest, names, visited, 0) <==> Hit(fs, test, id, rest, names, visited)
  {
    assert names[..0] == [] && names[0..] == names;
    if Hit(fs, test, id, rest, names, visited) {
      assert Descends(fs, id, names[..0], visited, id, visited);
    }
  }

  /** The first name is the directory `e`, and the names after it split after `k` more. */
  ghost predicate SplitsThrough(fs: Fs, test: Test, e: Entry, rest: seq<JsString>, names: Path, visited: set<Key>,
                                k: nat)
  {
    && k < |names| && e.name == names[0] && IsDir(fs, e) && MayEnter(fs, e, visited)
    && SplitsAt(fs, test, e.target.value, rest, names[1..], Visit(fs, e, visited), k)
  }

  /** Splitting after the first name and entering its directory are the same. */
  lemma SplitAtNext(fs: Fs, test: Test, id: NodeId, rest: seq<JsString>, names: Path, visited: set<Key>, k: nat)
    requires k < |names|
    ensures SplitsAt(fs, test, id, rest, names, visited, k + 1)
       <==> exists e | e in Listing(fs, id) :: SplitsThrough(fs, test, e, rest, names, visited, k)
  {
    var head := names[..k + 1];
    assert head[1..] == names[1..][..k] && names[1..][k..] == names[k + 1..];
    if SplitsAt(fs, test, id, rest, names, visited, k + 1) {
      var d, v :| Descends(fs, id, head, visited, d, v) && Hit(fs, test, d, rest, names[k + 1..], v);
      var e :| e in Listing(fs, id) && e.name == head[0] && IsDir(fs, e) && MayEnter(fs, e, visited)
               && Descends(fs, e.target.value, head[1..], Visit(fs, e, visited), d, v);
      assert SplitsThrough(fs, test, e, rest, names, visited, k);
    }
    if e :| e in Listing(fs, id) && SplitsThrough(fs, test, e, rest, names, visited, k) {
      var d, v :| Descends(fs, e.target.value, names[1..][..k], Visit(fs, e, visited), d, v)
                  && Hit(fs, test, d, rest, names[1..][k..], v);
      assert Descends(fs, id, head, visited, d, v);
    }
  }

  lemma EndsAtNext(fs: Fs, id: NodeId, names: Path, visited: set<Key>)
    ensures EndsAt(fs, id, names, visited) <==>
      || names == []
      || (|names| == 1 && HasFile(fs, id, names[0]))
      || exists e | e in Listing(fs, id) ::
           && e.name == names[0] && IsDir(fs, e) && MayEnter(fs, e, visited)
           && EndsAt(fs, e.target.value, names[1..], Visit(fs, e, visited))
  {
    if names == [] {
      assert Descends(fs, id, names, visited, id, visited);
    } else {
      if EndsAt(fs, id, names, visited) {
        EndsAtNextForward(fs, id, names, visited);
      }
      if || (|names| == 1 && HasFile(fs, id, names[0]))
         || exists e | e in Listing(fs, id) ::
              && e.name == names[0] && IsDir(fs, e) && MayEnter(fs, e, visited)
              && EndsAt(fs, e.target.value, names[1..], Visit(fs, e, visited)) {
        EndsAtNextBackward(fs, id, names, visited);
      }
    }
  }

  lemma EndsAtNextForward(fs: Fs, id: NodeId, names: Path, visited: set<Key>)
    requires names != [] && EndsAt(fs, id, names, visited)
    ensures
      || (|names| == 1 && HasFile(fs, id, names[0]))
      || exists e | e in Listing(fs, id) ::
           && e.name == names[0] && IsDir(fs, e) && MayEnter(fs, e, visited)
           && EndsAt(fs, e.target.value, names[1..], Visit(fs, e, visited))
  {
    if d, v :| Descends(fs, id, names, visited, d, v) {
      var e :| e in Listing(fs, id) && e.name == names[0] && IsDir(fs, e) && MayEnter(fs, e, visited)
               && Descends(fs, e.target.value, names[1..], Visit(fs, e, visited), d, v);
      assert EndsAt(fs, e.target.value, names[1..], Visit(fs, e, visited));
    } else {
      var m := |names| - 1;
      var d, v :| Descends(fs, id, names[..m], visited, d, v) && HasFile(fs, d, names[m]);
      if m > 0 {
        var e :| e in Listing(fs, id) && e.name == names[..m][0] && IsDir(fs, e) && MayEnter(fs, e, visited)
                 && Descends(fs, e.target.value, names[..m][1..], Visit(fs, e, visited), d, v);
        assert names[..m][1..] == names[1..][..m - 1];
        assert EndsAtFile(fs, e.target.value, names[1..][..m - 1], names[1..][m - 1], Visit(fs, e, visited));
        assert EndsAt(fs, e.target.value, names[1..], Visit(fs, e, visited));
      }
    }
  }

  lemma EndsAtNextBackward(fs: Fs, id: NodeId, names: Path, visited: set<Key>)
    requires names != []
    requires
      || (|names| == 1 && HasFile(fs, id, names[0]))
      || exists e | e in Listing(fs, id) ::
           && e.name == names[0] && IsDir(fs, e) && MayEnter(fs, e, visited)
           && EndsAt(fs, e.target.value, names[1..], Visit(fs, e, visited))
    ensures EndsAt(fs, id, names, visited)
  {
    if |names| == 1 && HasFile(fs, id, names[0]) {
      assert names[..0] == [];
      assert Descends(fs, id, names[..0], visited, id, visited);
      assert EndsAtFile(fs, id, names[..0], names[0], visited);
    } else {
      var e :| e in Listing(fs, id) && e.name == names[0] && IsDir(fs, e) && MayEnter(fs, e, visited)
               && EndsAt(fs, e.target.value, names[1..], Visit(fs, e, visited));
      var below, inside := names[1..], Visit(fs, e, visited);
      if d, v :| Descends(fs, e.target.value, below, inside, d, v) {
        assert Descends(fs, id, names, visited, d, v);
        assert EndsAtDir(fs, id, names, visited);
      } else {
        var m := |names| - 1;
        var d, v :| Descends(fs, e.target.value, below[..m - 1], inside, d, v) && HasFile(fs, d, below[m - 1]);
        assert names[..m][1..] == below[..m - 1];
        assert Descends(fs, id, names[..m], visited, d, v);
        assert EndsAtFile(fs, id, names[..m], names[m], visited);
      }
    }
  }

  /** Matching looks at the directory itself and at its entries. */
  lemma HitByEntry(fs: Fs, test: Test, id: NodeId, parts: seq<JsString>, names: Path, visited: set<Key>)
    requires parts != []
    ensures Hit(fs, test, id, parts, names, visited)
       <==> HitsHere(fs, test, id, parts, names, visited) || HitsBelow(fs, test, id, parts, names, visited)
  {
    if parts[0] != STAR_STAR {
      HitPlain(fs, test, id, parts, names, visited);
    } else if |parts| == 1 {
      HitLastStar(fs, test, id, parts, names, visited);
    } else {
      HitStar(fs, test, id, parts, names, visited);
    }
  }

  lemma HitPlain(fs: Fs, test: Test, id: NodeId, parts: seq<JsString>, names: Path, visited: set<Key>)
    requires parts != [] && parts[0] != STAR_STAR
    ensures Hit(fs, test, id, parts, names, visited) <==> HitsBelow(fs, test, id, parts, names, visited)
  {
    if names != [] && |parts| > 1 {
      assert Hit(fs, test, id, parts, names, visited)
        <==> test(parts[0], names[0]) && SplitsAt(fs, test, id, parts[1..], names, visited, 1);
      SplitAtNext(fs, test, id, parts[1..], names, visited, 0);
      forall e | e in Listing(fs, id)
        ensures HitThrough(fs, test, e, parts, names, visited)
           <==> test(parts[0], names[0]) && SplitsThrough(fs, test, e, parts[1..], names, visited, 0)
      {
        if IsDir(fs, e) {
          SplitAtZero(fs, test, e.target.value, parts[1..], names[1..], Visit(fs, e, visited));
        }
      }
    }
  }

  lemma HitLastStar(fs: Fs, test: Test, id: NodeId, parts: seq<JsString>, names: Path, visited: set<Key>)
    requires parts == [STAR_STAR]
    ensures Hit(fs, test, id, parts, names, visited)
       <==> HitsHere(fs, test, id, parts, names, visited) || HitsBelow(fs, test, id, parts, names, visited)
  {
    EndsAtNext(fs, id, names, visited);
    if |names| == 1 && HasFile(fs, id, names[0]) {
      var e :| e in Listing(fs, id) && e.name == names[0] && IsFile(fs, e);
      assert HitThrough(fs, test, e, parts, names, visited);
    }
    if names != [] && exists e | e in Listing(fs, id) ::
           && e.name == names[0] && IsDir(fs, e) && MayEnter(fs, e, visited)
           && EndsAt(fs, e.target.value, names[1..], Visit(fs, e, visited)) {
      var e :| e in Listing(fs, id) && e.name == names[0] && IsDir(fs, e) && MayEnter(fs, e, visited)
               && EndsAt(fs, e.target.value, names[1..], Visit(fs, e, visited));
      assert HitThrough(fs, test, e, parts, names, visited);
    }
  }

  lemma HitThroughStar(fs: Fs, test: Test, e: Entry, parts: seq<JsString>, names: Path, visited: set<Key>)
    requires |parts| > 1 && parts[0] == STAR_STAR
    ensures HitThrough(fs, test, e, parts, names, visited)
       <==> exists k | 0 <= k < |names| :: SplitsThrough(fs, test, e, parts[1..], names, visited, k)
  {
    if names != [] && IsDir(fs, e) {
      HitSplits(fs, test, e.target.value, parts, names[1..], Visit(fs, e, visited));
      if HitThrough(fs, test, e, parts, names, visited) {
        var k :| 0 <= k <= |names[1..]|
                 && SplitsAt(fs, test, e.target.value, parts[1..], names[1..], Visit(fs, e, visited), k);
        assert SplitsThrough(fs, test, e, parts[1..], names, visited, k);
      }
      if k :| 0 <= k < |names| && SplitsThrough(fs, test, e, parts[1..], names, visited, k) {
        assert SplitsAt(fs, test, e.target.value, parts[1..], names[1..], Visit(fs, e, visited), k);
      }
    }
  }

  lemma HitStar(fs: Fs, test: Test, id: NodeId, parts: seq<JsString>, names: Path, visited: set<Key>)
    requires |parts| > 1 && parts[0] == STAR_STAR
    ensures Hit(fs, test, id, parts, names, visited)
       <==> HitsHere(fs, test, id, parts, names, visited) || HitsBelow(fs, test, id, parts, names, visited)
  {
    HitSplits(fs, test, id, parts, names, visited);
    SplitAtZero(fs, test, id, parts[1..], names, visited);
    if k :| 0 < k <= |names| && SplitsAt(fs, test, id, parts[1..], names, visited, k) {
      SplitAtNext(fs, test, id, parts[1..], names, visited, k - 1);
      var e :| e in Listing(fs, id) && SplitsThrough(fs, test, e, parts[1..], names, visited, k - 1);
      HitThroughStar(fs, test, e, parts, names, visited);
    }
    if e :| e in Listing(fs, id) && HitThrough(fs, test, e, parts, names, visited) {
      HitThroughStar(fs, test, e, parts, names, visited);
      var k :| 0 <= k < |names| && SplitsThrough(fs, test, e, parts[1..], names, visited, k);
      SplitAtNext(fs, test, id, parts[1..], names, visited, k);
    }
  }

  // ----- The walk yields the matching paths -----

  /** `p` continues `base` with names that satisfy the pattern from directory `id`. */
  ghost predicate Continues(fs: Fs, test: Test, id: NodeId, base: Path, parts: seq<JsString>, visited: set<Key>,
                            p: Path)
  {
    base <= p && Hit(fs, test, id, parts, p[|base|..], visited)
  }

  ghost predicate ContinuesBelow(fs: Fs, test: Test, id: NodeId, base: Path, parts: seq<JsString>, visited: set<Key>,
                                 i: nat, p: Path)
    requires parts != []
  {
    && base <= p
    && exists j | i <= j < |Listing(fs, id)| ::
         HitThrough(fs, test, Listing(fs, id)[j], parts, p[|base|..], visited)
  }

  lemma {:induction false} WalkYields(fs: Fs, test: Test, id: NodeId, base: Path, parts: seq<JsString>,
                                      visited: set<Key>, rank: NodeId -> nat, p: Path)
    requires Ranked(fs, rank)
    ensures p in Walk(fs, test, id, base, parts, visited, rank)
       <==> Continues(fs, test, id, base, parts, visited, p)
    decreases DirKeys(fs) - visited, rank(id), |parts|, 1, 0
  {
    if parts != [] {
      EntriesYield(fs, test, id, base, parts, visited, 0, rank, p);
      if parts[0] == STAR_STAR && |parts| > 1 {
        WalkYields(fs, test, id, base, parts[1..], visited, rank, p);
      }
      if base <= p {
        HitByEntry(fs, test, id, parts, p[|base|..], visited);
        assert p == base <==> p[|base|..] == [];
      }
    }
  }

  lemma {:induction false} EntriesYield(fs: Fs, test: Test, id: NodeId, base: Path, parts: seq<JsString>,
                                        visited: set<Key>, i: nat, rank: NodeId -> nat, p: Path)
    requires Ranked(fs, rank) && parts != [] && i <= |Listing(fs, id)|
    ensures p in WalkEntries(fs, test, id, base, parts, visited, i, rank)
       <==> ContinuesBelow(fs, test, id, base, parts, visited, i, p)
    decreases DirKeys(fs) - visited, rank(id), |parts|, 0, |Listing(fs, id)| - i
  {
    if i < |Listing(fs, id)| {
      var e := Listing(fs, id)[i];
      EntriesYield(fs, test, id, base, parts, visited, i + 1, rank, p);
      BelowNext(fs, test, id, base, parts, visited, i, p);
      if IsDir(fs, e) && MayEnter(fs, e, visited) {
        var inside := Visit(fs, e, visited);
        if parts[0] == STAR_STAR {
          WalkYields(fs, test, e.target.value, base + [e.name], parts, inside, rank, p);
        } else {
          WalkYields(fs, test, e.target.value, base + [e.name], parts[1..], inside, rank, p);
        }
      }
      NextName(base, e.name, p);
    }
  }

  lemma BelowNext(fs: Fs, test: Test, id: NodeId, base: Path, parts: seq<JsString>, visited: set<Key>, i: nat, p: Path)
    requires parts != [] && i < |Listing(fs, id)|
    ensures ContinuesBelow(fs, test, id, base, parts, visited, i, p)
       <==> || ContinuesBelow(fs, test, id, base, parts, visited, i + 1, p)
            || (base <= p && HitThrough(fs, test, Listing(fs, id)[i], parts, p[|base|..], visited))
  {
  }

  lemma NextName(base: Path, name: Name, p: Path)
    ensures base + [name] <= p <==> base <= p && p != base && p[|base|] == name
    ensures base + [name] <= p ==> p[|base|..][1..] == p[|base + [name]|..]
    ensures p == base + [name] <==> base + [name] <= p && |p[|base|..]| == 1
  {
    if base <= p && p != base && p[|base|] == name {
      assert p[..|base|] == base;
    }
  }

  // ----- The order of the paths -----

  /** The two paths go through the same entry, or the first one through an earlier entry. */
  ghost predicate InOrder(entries: seq<Entry>, base: Path, i: nat, p: Path, q: Path) {
    exists j, k | i <= j <= k < |entries| :: base + [entries[j].name] <= p && base + [entries[k].name] <= q
  }

  /** The paths come in the order of the listing. */
  lemma {:induction false} EntriesInOrder(fs: Fs, test: Test, id: NodeId, base: Path, parts: seq<JsString>,
                                          visited: set<Key>, i: nat, rank: NodeId -> nat, w: seq<Path>)
    requires Ranked(fs, rank) && parts != [] && i <= |Listing(fs, id)|
    requires w == WalkEntries(fs, test, id, base, parts, visited, i, rank)
    ensures forall a, b | 0 <= a < b < |w| :: InOrder(Listing(fs, id), base, i, w[a], w[b])
    decreases |Listing(fs, id)| - i
  {
    if i < |Listing(fs, id)| {
      var later := WalkEntries(fs, test, id, base, parts, visited, i + 1, rank);
      EntriesInOrder(fs, test, id, base, parts, visited, i + 1, rank, later);
      ThroughFirst(fs, test, id, base, parts, visited, i, rank);
      forall p | p in later
        ensures exists k | i < k < |Listing(fs, id)| :: base + [Listing(fs, id)[k].name] <= p
      {
        var k := ThroughSome(fs, test, id, base, parts, visited, i + 1, rank, p);
      }
      OrderedBefore(Listing(fs, id), base, i, w, later, |w| - |later|);
    }
  }

  lemma OrderedBefore(entries: seq<Entry>, base: Path, i: nat, w: seq<Path>, later: seq<Path>, n: nat)
    requires i < |entries| && n <= |w| && w[n..] == later
    requires forall a | 0 <= a < n :: base + [entries[i].name] <= w[a]
    requires forall p | p in later :: exists k | i < k < |entries| :: base + [entries[k].name] <= p
    requires forall a, b | 0 <= a < b < |later| :: InOrder(entries, base, i + 1, later[a], later[b])
    ensures forall a, b | 0 <= a < b < |w| :: InOrder(entries, base, i, w[a], w[b])
  {
    forall a, b | 0 <= a < b < |w|
      ensures InOrder(entries, base, i, w[a], w[b])
    {
      if a >= n {
        assert w[a] == later[a - n] && w[b] == later[b - n];
        assert InOrder(entries, base, i + 1, later[a - n], later[b - n]);
      } else if b >= n {
        assert w[b] == later[b - n] && later[b - n] in later;
      }
    }
  }

  lemma ThroughSome(fs: Fs, test: Test, id: NodeId, base: Path, parts: seq<JsString>, visited: set<Key>, i: nat,
                    rank: NodeId -> nat, p: Path)
    returns (k: nat)
    requires Ranked(fs, rank) && parts != [] && i <= |Listing(fs, id)|
    requires p in WalkEntries(fs, test, id, base, parts, visited, i, rank)
    ensures i <= k < |Listing(fs, id)| && base + [Listing(fs, id)[k].name] <= p
  {
    EntriesYield(fs, test, id, base, parts, visited, i, rank, p);
    k :| i <= k < |Listing(fs, id)| && HitThrough(fs, test, Listing(fs, id)[k], parts, p[|base|..], visited);
    NextName(base, Listing(fs, id)[k].name, p);
  }

  /** What entry `i` contributes comes first, and goes through it. */
  lemma ThroughFirst(fs: Fs, test: Test, id: NodeId, base: Path, parts: seq<JsString>, visited: set<Key>, i: nat,
                     rank: NodeId -> nat)
    requires Ranked(fs, rank) && parts != [] && i < |Listing(fs, id)|
    ensures var w, later := WalkEntries(fs, test, id, base, parts, visited, i, rank),
                            WalkEntries(fs, test, id, base, parts, visited, i + 1, rank);
            var n := |w| - |later|;
            && n >= 0 && w[n..] == later
            && forall a | 0 <= a < n :: base + [Listing(fs, id)[i].name] <= w[a]
  {
    var e := Listing(fs, id)[i];
    var full := base + [e.name];
    var w, later := WalkEntries(fs, test, id, base, parts, visited, i, rank),
                    WalkEntries(fs, test, id, base, parts, visited, i + 1, rank);
    if IsDir(fs, e) && MayEnter(fs, e, visited)
       && (parts[0] == STAR_STAR || (test(parts[0], e.name) && |parts| > 1)) {
      var inside, rest := Visit(fs, e, visited), if parts[0] == STAR_STAR then parts else parts[1..];
      var found := Walk(fs, test, e.target.value, full, rest, inside, rank);
      assert w == found + later;
      forall a | 0 <= a < |found|
        ensures full <= w[a]
      {
        assert w[a] in found;
        WalkYields(fs, test, e.target.value, full, rest, inside, rank, w[a]);
      }
    } else {
      assert w == later || w == [full] + later;
    }
  }

  /** The path goes on behind `base` with a name that the directory lists. */
  ghost predicate GoesOn(fs: Fs, id: NodeId, base: Path, p: Path) {
    |p| > |base| && HasName(fs, id, p[|base|])
  }

  /** With `**` in front, what is found where it takes no directory comes first. */
  lemma HereFirst(fs: Fs, test: Test, id: NodeId, base: Path, parts: seq<JsString>, visited: set<Key>,
                  rank: NodeId -> nat)
    requires Ranked(fs, rank) && parts != [] && parts[0] == STAR_STAR
    ensures var w := Walk(fs, test, id, base, parts, visited, rank);
            var here := if |parts| == 1 then [base] else Walk(fs, test, id, base, parts[1..], visited, rank);
            here <= w && forall a | |here| <= a < |w| :: GoesOn(fs, id, base, w[a])
  {
    var here := if |parts| == 1 then [base] else Walk(fs, test, id, base, parts[1..], visited, rank);
    var below := WalkEntries(fs, test, id, base, parts, visited, 0, rank);
    BelowNamed(fs, test, id, base, parts, visited, rank, below);
    GoOnBehind(fs, id, base, here, below);
  }

  lemma GoOnBehind(fs: Fs, id: NodeId, base: Path, here: seq<Path>, below: seq<Path>)
    requires forall m | 0 <= m < |below| :: GoesOn(fs, id, base, below[m])
    ensures here <= here + below
    ensures forall a | |here| <= a < |here + below| :: GoesOn(fs, id, base, (here + below)[a])
  {
  }

  lemma BelowNamed(fs: Fs, test: Test, id: NodeId, base: Path, parts: seq<JsString>, visited: set<Key>,
                   rank: NodeId -> nat, below: seq<Path>)
    requires Ranked(fs, rank) && parts != [] && below == WalkEntries(fs, test, id, base, parts, visited, 0, rank)
    ensures forall m | 0 <= m < |below| :: GoesOn(fs, id, base, below[m])
  {
    forall m | 0 <= m < |below|
      ensures GoesOn(fs, id, base, below[m])
    {
      var k := ThroughSome(fs, test, id, base, parts, visited, 0, rank, below[m]);
      assert Listing(fs, id)[k] in Listing(fs, id) && below[m][|base|] == Listing(fs, id)[k].name;
    }
  }

  // ----- The cycle check -----

  /** The directories entered by following `names` from `id`. */
  ghost predicate Route(fs: Fs, id: NodeId, names: Path, ids: seq<NodeId>)
    decreases |names|
  {
    if names == [] then ids == []
    else
      && ids != []
      && (exists e | e in Listing(fs, id) :: e.name == names[0] && IsDir(fs, e) && e.target.value == ids[0])
      && Route(fs, ids[0], names[1..], ids[1..])
  }

  function KeysOf(fs: Fs, ids: seq<NodeId>): set<Key> {
    set i | 0 <= i < |ids| && ids[i] in fs && fs[ids[i]].Dir? && fs[ids[i]].ino != 0 ::
      Key(fs[ids[i]].dev, fs[ids[i]].ino)
  }

  /** Directories entered on one descent have pairwise different keys, none of them visited before. */
  ghost predicate KeysDiffer(fs: Fs, ids: seq<NodeId>, visited: set<Key>) {
    && (forall i | 0 <= i < |ids| :: ids[i] in fs && fs[ids[i]].Dir?)
    && (forall i | 0 <= i < |ids| && fs[ids[i]].ino != 0 :: CycleKey(fs[ids[i]]).value !in visited)
    && (forall i, j | 0 <= i < j < |ids| && fs[ids[i]].ino != 0 ::
          CycleKey(fs[ids[i]]) != CycleKey(fs[ids[j]]))
  }

  /** The set of visited keys is the set of the keys on the current descent, and no descent enters a directory twice. */
  lemma {:induction false} DescentVisits(fs: Fs, id: NodeId, names: Path, visited: set<Key>, d: NodeId, v: set<Key>)
    ensures Descends(fs, id, names, visited, d, v)
       <==> exists ids :: && Route(fs, id, names, ids) && KeysDiffer(fs, ids, visited)
                          && d == (if ids == [] then id else ids[|ids| - 1]) && v == visited + KeysOf(fs, ids)
    decreases |names|
  {
    if Descends(fs, id, names, visited, d, v) {
      var ids := RouteOf(fs, id, names, visited, d, v);
    }
    if ids :| Route(fs, id, names, ids) && KeysDiffer(fs, ids, visited)
              && d == (if ids == [] then id else ids[|ids| - 1]) && v == visited + KeysOf(fs, ids) {
      RouteDescends(fs, id, names, visited, ids);
    }
  }

  lemma {:induction false} RouteOf(fs: Fs, id: NodeId, names: Path, visited: set<Key>, d: NodeId, v: set<Key>)
    returns (ids: seq<NodeId>)
    requires Descends(fs, id, names, visited, d, v)
    ensures Route(fs, id, names, ids) && KeysDiffer(fs, ids, visited)
    ensures d == (if ids == [] then id else ids[|ids| - 1]) && v == visited + KeysOf(fs, ids)
    decreases |names|
  {
    if names == [] {
      ids := [];
    } else {
      var e :| e in Listing(fs, id) && e.name == names[0] && IsDir(fs, e) && MayEnter(fs, e, visited)
               && Descends(fs, e.target.value, names[1..], Visit(fs, e, visited), d, v);
      var t := RouteOf(fs, e.target.value, names[1..], Visit(fs, e, visited), d, v);
      ids := [e.target.value] + t;
      KeysCons(fs, e.target.value, t, visited);
    }
  }

  lemma {:induction false} RouteDescends(fs: Fs, id: NodeId, names: Path, visited: set<Key>, ids: seq<NodeId>)
    requires Route(fs, id, names, ids) && KeysDiffer(fs, ids, visited)
    ensures Descends(fs, id, names, visited, if ids == [] then id else ids[|ids| - 1], visited + KeysOf(fs, ids))
    decreases |names|
  {
    if names == [] {
      assert KeysOf(fs, ids) == {};
    } else {
      var e :| e in Listing(fs, id) && e.name == names[0] && IsDir(fs, e) && e.target.value == ids[0];
      var t := ids[1..];
      assert ids == [ids[0]] + t;
      KeysCons(fs, ids[0], t, visited);
      RouteDescends(fs, ids[0], names[1..], Visit(fs, e, visited), t);
    }
  }

  lemma KeysCons(fs: Fs, id: NodeId, t: seq<NodeId>, visited: set<Key>)
    requires id in fs && fs[id].Dir?
    ensures var key := CycleKey(fs[id]);
            var inside := if key.None? then visited else visited + {key.value};
            && visited + KeysOf(fs, [id] + t) == inside + KeysOf(fs, t)
            && (KeysDiffer(fs, [id] + t, visited)
                <==> (key.None? || key.value !in visited) && KeysDiffer(fs, t, inside))
  {
    var ids := [id] + t;
    assert forall i | 0 <= i < |t| :: ids[i + 1] == t[i];
    assert ids[0] == id;
  }

  /** From the base directory, whose own key counts as visited: a descent is possible exactly when all directories on
      it, the base included, have different keys. */
  lemma DescentsFromBase(fs: Fs, root: NodeId, names: Path, d: NodeId, v: set<Key>)
    requires root in fs && fs[root].Dir?
    ensures Descends(fs, root, names, RootKeys(fs, root), d, v)
       <==> exists ids :: && Route(fs, root, names, ids) && KeysDiffer(fs, [root] + ids, {})
                          && d == (if ids == [] then root else ids[|ids| - 1]) && v == KeysOf(fs, [root] + ids)
  {
    var visited := RootKeys(fs, root);
    DescentVisits(fs, root, names, visited, d, v);
    forall ids
      ensures KeysDiffer(fs, [root] + ids, {}) <==> KeysDiffer(fs, ids, visited)
      ensures KeysOf(fs, [root] + ids) == visited + KeysOf(fs, ids)
    {
      KeysCons(fs, root, ids, {});
      assert {} + KeysOf(fs, [root] + ids) == KeysOf(fs, [root] + ids);
    }
  }

  /** On a tree every route may be taken, so the patterns mean the same without a cycle check. */
  lemma {:induction false} TreeRoutesDiffer(fs: Fs, id: NodeId, names: Path, ids: seq<NodeId>, visited: set<Key>,
                                            rank: NodeId -> nat)
    requires Acyclic(fs, rank) && DistinctKeys(fs) && VisitedAbove(fs, id, visited, rank)
    requires Route(fs, id, names, ids)
    ensures KeysDiffer(fs, ids, visited)
    decreases |names|
  {
    if names != [] {
      var e :| e in Listing(fs, id) && e.name == names[0] && IsDir(fs, e) && e.target.value == ids[0];
      EnterBelow(fs, id, e, visited, rank);
      TreeRoutesDiffer(fs, ids[0], names[1..], ids[1..], Visit(fs, e, visited), rank);
      assert ids == [ids[0]] + ids[1..];
      KeysCons(fs, ids[0], ids[1..], visited);
    }
  }
}

/** When the local search, which asks `stat`, and the SSH search, which believes the listing, agree. */
module GlobAgree {
  import opened Units
  import opened Chars
  import opened GlobWalk
  import opened GlobMeaning
  import opened GlobOnce

  // ----- What the SSH walk yields -----

  lemma {:induction false} SshBelow(fs: Fs, test: Test, id: Option<NodeId>, base: Path, parts: seq<JsString>,
                                    down: NodeId -> nat, p: Path)
    requires ListedDown(fs, down) && p in SshWalk(fs, test, id, base, parts, down)
    ensures base <= p
    decreases SshRank(id, down), |parts|, 2, 0
  {
    if parts[0] == STAR_STAR && |parts| > 1 && p in SshWalk(fs, test, id, base, parts[1..], down) {
      SshBelow(fs, test, id, base, parts[1..], down, p);
    } else if p in SshWalkEntries(fs, test, id, base, parts, 0, down) {
      var e := SshFrom(fs, test, id, base, parts, 0, down, p);
      SshEntryBelow(fs, test, id, e, base, parts, down, p);
    }
  }

  lemma {:induction false} SshFrom(fs: Fs, test: Test, id: Option<NodeId>, base: Path, parts: seq<JsString>, i: nat,
                                   down: NodeId -> nat, p: Path)
    returns (e: Entry)
    requires ListedDown(fs, down) && parts != [] && i <= |SshListing(fs, id)|
    requires p in SshWalkEntries(fs, test, id, base, parts, i, down)
    ensures e in SshListing(fs, id) && p in SshEntry(fs, test, id, e, base, parts, down)
    decreases SshRank(id, down), |parts|, 1, |SshListing(fs, id)| - i
  {
    e := SshListing(fs, id)[i];
    if p !in SshEntry(fs, test, id, e, base, parts, down) {
      e := SshFrom(fs, test, id, base, parts, i + 1, down, p);
    }
  }

  lemma {:induction false} SshInto(fs: Fs, test: Test, id: Option<NodeId>, base: Path, parts: seq<JsString>, i: nat,
                                   down: NodeId -> nat, p: Path, j: nat)
    requires ListedDown(fs, down) && parts != [] && i <= j < |SshListing(fs, id)|
    requires p in SshEntry(fs, test, id, SshListing(fs, id)[j], base, parts, down)
    ensures p in SshWalkEntries(fs, test, id, base, parts, i, down)
    decreases j - i
  {
    if i < j {
      SshInto(fs, test, id, base, parts, i + 1, down, p, j);
    }
  }

  lemma {:induction false} SshEntryBelow(fs: Fs, test: Test, id: Option<NodeId>, e: Entry, base: Path,
                                         parts: seq<JsString>, down: NodeId -> nat, p: Path)
    requires ListedDown(fs, down) && parts != [] && e in SshListing(fs, id)
    requires p in SshEntry(fs, test, id, e, base, parts, down)
    ensures base + [e.name] <= p
    decreases SshRank(id, down), |parts|, 0, 0
  {
    var full := base + [e.name];
    if e.listedAsDir && (parts[0] == STAR_STAR || |parts| > 1) {
      var rest := if parts[0] == STAR_STAR then parts else parts[1..];
      SshBelow(fs, test, e.target, full, rest, down, p);
    }
  }

  // ----- Going through one entry -----

  /** A path through the entry is found exactly when it is found in what the entry contributes. */
  lemma SshThrough(fs: Fs, test: Test, id: NodeId, e: Entry, base: Path, parts: seq<JsString>, down: NodeId -> nat,
                   p: Path)
    requires ListedDown(fs, down) && UniqueNames(fs) && e in Listing(fs, id) && base + [e.name] <= p
    requires parts != [] && (parts[0] == STAR_STAR ==> |parts| == 1)
    ensures p in SshWalk(fs, test, Some(id), base, parts, down)
       <==> p in SshEntry(fs, test, Some(id), e, base, parts, down)
  {
    if p in SshWalkEntries(fs, test, Some(id), base, parts, 0, down) {
      var x := SshFrom(fs, test, Some(id), base, parts, 0, down, p);
      SshEntryBelow(fs, test, Some(id), x, base, parts, down, p);
      assert x.name == p[|base|] == e.name;
      SameName(fs, id, x, e);
    }
    if p in SshEntry(fs, test, Some(id), e, base, parts, down) {
      var j :| 0 <= j < |Listing(fs, id)| && Listing(fs, id)[j] == e;
      SshInto(fs, test, Some(id), base, parts, 0, down, p, j);
    }
  }

  lemma SameName(fs: Fs, id: NodeId, x: Entry, e: Entry)
    requires UniqueNames(fs) && x in Listing(fs, id) && e in Listing(fs, id) && x.name == e.name
    ensures x == e
  {
    var i :| 0 <= i < |Listing(fs, id)| && Listing(fs, id)[i] == x;
    var j :| 0 <= j < |Listing(fs, id)| && Listing(fs, id)[j] == e;
  }

  lemma LocalThrough(fs: Fs, test: Test, id: NodeId, e: Entry, base: Path, parts: seq<JsString>, visited: set<Key>,
                     rank: NodeId -> nat, p: Path)
    requires Ranked(fs, rank) && UniqueNames(fs) && e in Listing(fs, id) && base + [e.name] <= p
    requires parts != [] && (parts[0] == STAR_STAR ==> |parts| == 1)
    ensures p in Walk(fs, test, id, base, parts, visited, rank)
       <==> HitThrough(fs, test, e, parts, p[|base|..], visited)
  {
    var names := p[|base|..];
    WalkYields(fs, test, id, base, parts, visited, rank, p);
    HitByEntry(fs, test, id, parts, names, visited);
    assert base <= p && names[0] == e.name;
    if x :| x in Listing(fs, id) && HitThrough(fs, test, x, parts, names, visited) {
      SameName(fs, id, x, e);
    }
  }

  // ----- Where the listing does not tell the truth, the walks differ -----

  const ANY: JsString := [STAR]

  /** `*` accepts every name listed. */
  ghost predicate StarAccepts(fs: Fs, test: Test) {
    forall id, e | e in Listing(fs, id) :: test(ANY, e.name)
  }

  /** Exactly one of the walks yields the path. */
  ghost predicate Differ(fs: Fs, test: Test, id: NodeId, base: Path, parts: seq<JsString>, visited: set<Key>,
                         rank: NodeId -> nat, down: NodeId -> nat, p: Path)
    requires Ranked(fs, rank) && ListedDown(fs, down)
  {
    (p in Walk(fs, test, id, base, parts, visited, rank))
    != (p in SshWalk(fs, test, Some(id), base, parts, down))
  }

  /** The pattern `**` for an entry that only SSH yields, and any name followed by `**` for one whose kind the walks see
      differently. */
  lemma DifferHere(fs: Fs, test: Test, id: NodeId, base: Path, e: Entry, visited: set<Key>, rank: NodeId -> nat,
                   down: NodeId -> nat)
    returns (parts: seq<JsString>)
    requires Ranked(fs, rank) && ListedDown(fs, down) && UniqueNames(fs) && StarAccepts(fs, test)
    requires e in Listing(fs, id) && !IsFaithful(fs, e)
    ensures parts != [] && Differ(fs, test, id, base, parts, visited, rank, down, base + [e.name])
  {
    var p := base + [e.name];
    var names := p[|base|..];
    assert names == [e.name] && names[1..] == [];
    if !e.listedAsDir && !(IsDir(fs, e) && MayEnter(fs, e, visited)) {
      parts := [STAR_STAR];
    } else {
      parts := [ANY, STAR_STAR];
      assert parts[1..] == [STAR_STAR];
      if IsDir(fs, e) && MayEnter(fs, e, visited) {
        var inside := Visit(fs, e, visited);
        assert Descends(fs, e.target.value, [], inside, e.target.value, inside);
        assert EndsAtDir(fs, e.target.value, [], inside);
      }
    }
    LocalThrough(fs, test, id, e, base, parts, visited, rank, p);
    SshThrough(fs, test, id, e, base, parts, down, p);
  }

  lemma {:induction false} DifferBelow(fs: Fs, test: Test, id: NodeId, base: Path, names: Path, d: NodeId,
                                       e: Entry, visited: set<Key>, rank: NodeId -> nat, down: NodeId -> nat)
    returns (parts: seq<JsString>, p: Path)
    requires Ranked(fs, rank) && ListedDown(fs, down) && DistinctKeys(fs) && UniqueNames(fs)
    requires StarAccepts(fs, test) && VisitedAbove(fs, id, visited, down)
    requires ListedPath(fs, id, names, d) && e in Listing(fs, d) && !IsFaithful(fs, e)
    ensures parts != [] && base <= p && Differ(fs, test, id, base, parts, visited, rank, down, p)
    decreases |names|
  {
    if names == [] {
      parts := DifferHere(fs, test, id, base, e, visited, rank, down);
      p := base + [e.name];
    } else {
      var x :| x in Listing(fs, id) && x.name == names[0] && x.listedAsDir && x.target.Some?
               && ListedPath(fs, x.target.value, names[1..], d);
      if !IsFaithful(fs, x) {
        parts := DifferHere(fs, test, id, base, x, visited, rank, down);
        p := base + [x.name];
      } else {
        EnterBelow(fs, id, x, visited, down);
        var full, inside := base + [x.name], Visit(fs, x, visited);
        var rest;
        rest, p := DifferBelow(fs, test, x.target.value, full, names[1..], d, e, inside, rank, down);
        parts := [ANY] + rest;
        DifferAbove(fs, test, id, base, x, rest, visited, rank, down, p);
      }
    }
  }

  lemma DifferAbove(fs: Fs, test: Test, id: NodeId, base: Path, x: Entry, rest: seq<JsString>,
                    visited: set<Key>, rank: NodeId -> nat, down: NodeId -> nat, p: Path)
    requires Ranked(fs, rank) && ListedDown(fs, down) && UniqueNames(fs) && StarAccepts(fs, test)
    requires x in Listing(fs, id) && x.listedAsDir && IsDir(fs, x) && MayEnter(fs, x, visited)
    requires rest != [] && base + [x.name] <= p
    requires Differ(fs, test, x.target.value, base + [x.name], rest, Visit(fs, x, visited), rank, down, p)
    ensures Differ(fs, test, id, base, [ANY] + rest, visited, rank, down, p)
  {
    var parts, full, inside := [ANY] + rest, base + [x.name], Visit(fs, x, visited);
    assert parts[1..] == rest;
    WalkYields(fs, test, x.target.value, full, rest, inside, rank, p);
    LocalThrough(fs, test, id, x, base, parts, visited, rank, p);
    SshThrough(fs, test, id, x, base, parts, down, p);
    assert p[|base|..][1..] == p[|full|..];
  }

  /** Both searches yield the same paths in the same order, for every pattern. */
  ghost predicate SearchesAgree(fs: Fs, test: Test, root: NodeId, rank: NodeId -> nat, down: NodeId -> nat)
    requires Ranked(fs, rank) && ListedDown(fs, down)
  {
    forall parts :: Glob(fs, test, root, parts, rank) == SshWalk(fs, test, Some(root), [], parts, down)
  }

  /** The searches agree exactly when no entry below the base is a link to a directory, dangles, or is listed as
      something else than `stat` finds. */
  lemma AgreeIff(fs: Fs, test: Test, root: NodeId, rank: NodeId -> nat, down: NodeId -> nat)
    requires Ranked(fs, rank) && ListedDown(fs, down) && DistinctKeys(fs) && UniqueNames(fs) && StarAccepts(fs, test)
    ensures SearchesAgree(fs, test, root, rank, down) <==> FaithfulBelow(fs, root)
  {
    if FaithfulBelow(fs, root) {
      forall parts
        ensures Glob(fs, test, root, parts, rank) == SshWalk(fs, test, Some(root), [], parts, down)
      {
        CycleCheckPrunesNothing(fs, test, root, parts, rank, down);
      }
    } else {
      var names, d, e :| ListedPath(fs, root, names, d) && e in Listing(fs, d) && !IsFaithful(fs, e);
      RootAbove(fs, root, down);
      var parts, p := DifferBelow(fs, test, root, [], names, d, e, RootKeys(fs, root), rank, down);
      assert Glob(fs, test, root, parts, rank) != SshWalk(fs, test, Some(root), [], parts, down);
    }
  }

  /** A directory that holds nothing but a dangling link. */
  const DANGLING: Fs := map[1 := Dir(0, 1, true, [Entry([0x78], false, None)])]

  /** Of such a directory and the pattern `**`, only SSH yields the link. */
  lemma DanglingLinkExample(test: Test, rank: NodeId -> nat, down: NodeId -> nat)
    requires Ranked(DANGLING, rank) && ListedDown(DANGLING, down)
    ensures Glob(DANGLING, test, 1, [STAR_STAR], rank) == [[]]
    ensures SshWalk(DANGLING, test, Some(1), [], [STAR_STAR], down) == [[], [[0x78]]]
  {
    var e := Entry([0x78], false, None);
    assert Listing(DANGLING, 1) == [e];
    var keys := RootKeys(DANGLING, 1);
    assert WalkEntries(DANGLING, test, 1, [], [STAR_STAR], keys, 1, rank) == [];
    assert WalkEntries(DANGLING, test, 1, [], [STAR_STAR], keys, 0, rank) == [];
    assert SshWalkEntries(DANGLING, test, Some(1), [], [STAR_STAR], 1, down) == [];
    assert [] + [[0x78]] == [[0x78]];
    assert SshWalkEntries(DANGLING, test, Some(1), [], [STAR_STAR], 0, down) == [[[0x78]]];
  }
}

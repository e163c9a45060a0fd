/** The whole search on a tree: the compiled tests and the walk together find exactly the paths that match. */
module GlobSearch {
  import opened Units
  import opened Chars
  import opened Regex
  import G = Glob
  import opened GlobToRegex
  import opened GlobWalk
  import opened GlobMeaning
  import opened GlobOnce
  import opened GlobAgree

  /** `regex.test(name)` for the regular expression of a part. */
  predicate RegexTest(part: JsString, name: Name) {
    var r := Parse(G.Compile(part));
    r.Parsed? && Matches(r.terms, name)
  }

  predicate GlobTest(part: JsString, name: Name) {
    G.PatternMatches(part, name)
  }

  /** Following `names` from directory `id` leads to directory `d`. */
  ghost predicate Leads(fs: Fs, id: NodeId, names: Path, d: NodeId)
    decreases |names|
  {
    if names == [] then d == id
    else
      exists e | e in Listing(fs, id) ::
        e.name == names[0] && IsDir(fs, e) && Leads(fs, e.target.value, names[1..], d)
  }

  ghost predicate LeadsToFile(fs: Fs, id: NodeId, dirs: Path, name: Name) {
    exists d :: Leads(fs, id, dirs, d) && HasFile(fs, d, name)
  }

  /** `names` leads from `id` to a directory or to a file. */
  ghost predicate Exists(fs: Fs, id: NodeId, names: Path) {
    || (exists d :: Leads(fs, id, names, d))
    || (names != [] && LeadsToFile(fs, id, names[..|names| - 1], names[|names| - 1]))
  }

  /** The components of a path match the parts of a pattern: `**` stands for any number of components, every other part
      for one, and all but the last component are directories. */
  ghost predicate PathMatches(fs: Fs, test: Test, id: NodeId, parts: seq<JsString>, names: Path)
    decreases |parts|, 0
  {
    if parts == [] then false
    else if parts[0] == STAR_STAR then
      if |parts| == 1 then Exists(fs, id, names)
      else exists k | 0 <= k <= |names| :: MatchesBehind(fs, test, id, parts[1..], names, k)
    else
      && names != [] && test(parts[0], names[0])
      && if |parts| == 1 then |names| == 1 && HasName(fs, id, names[0])
         else MatchesBehind(fs, test, id, parts[1..], names, 1)
  }

  /** The first `k` names lead to a directory from where the others match. */
  ghost predicate MatchesBehind(fs: Fs, test: Test, id: NodeId, parts: seq<JsString>, names: Path, k: nat)
    requires k <= |names|
    decreases |parts|, 1
  {
    exists d :: Leads(fs, id, names[..k], d) && PathMatches(fs, test, d, parts, names[k..])
  }

  ghost predicate IsTree(fs: Fs, rank: NodeId -> nat) {
    Acyclic(fs, rank) && DistinctKeys(fs)
  }

  lemma {:induction false} DescentBelow(fs: Fs, id: NodeId, names: Path, visited: set<Key>, d: NodeId, v: set<Key>,
                                        rank: NodeId -> nat)
    requires IsTree(fs, rank) && VisitedAbove(fs, id, visited, rank)
    requires Descends(fs, id, names, visited, d, v)
    ensures Leads(fs, id, names, d) && VisitedAbove(fs, d, v, rank)
    decreases |names|
  {
    if names != [] {
      var e :| e in Listing(fs, id) && e.name == names[0] && IsDir(fs, e) && MayEnter(fs, e, visited)
               && Descends(fs, e.target.value, names[1..], Visit(fs, e, visited), d, v);
      EnterBelow(fs, id, e, visited, rank);
      DescentBelow(fs, e.target.value, names[1..], Visit(fs, e, visited), d, v, rank);
    }
  }

  lemma {:induction false} LeadsDescends(fs: Fs, id: NodeId, names: Path, visited: set<Key>, d: NodeId,
                                         rank: NodeId -> nat)
    returns (v: set<Key>)
    requires IsTree(fs, rank) && VisitedAbove(fs, id, visited, rank) && Leads(fs, id, names, d)
    ensures Descends(fs, id, names, visited, d, v) && VisitedAbove(fs, d, v, rank)
    decreases |names|
  {
    if names == [] {
      v := visited;
    } else {
      var e :| e in Listing(fs, id) && e.name == names[0] && IsDir(fs, e)
               && Leads(fs, e.target.value, names[1..], d);
      EnterBelow(fs, id, e, visited, rank);
      v := LeadsDescends(fs, e.target.value, names[1..], Visit(fs, e, visited), d, rank);
    }
  }

  lemma ExistsIffEndsAt(fs: Fs, id: NodeId, names: Path, visited: set<Key>, rank: NodeId -> nat)
    requires IsTree(fs, rank) && VisitedAbove(fs, id, visited, rank)
    ensures EndsAt(fs, id, names, visited) <==> Exists(fs, id, names)
  {
    forall ns, d, v | Descends(fs, id, ns, visited, d, v)
      ensures Leads(fs, id, ns, d)
    {
      DescentBelow(fs, id, ns, visited, d, v, rank);
    }
    forall ns, d | Leads(fs, id, ns, d)
      ensures exists v :: Descends(fs, id, ns, visited, d, v)
    {
      var v := LeadsDescends(fs, id, ns, visited, d, rank);
    }
  }

  /** Two tests that say the same about the parts of the pattern. */
  ghost predicate SameTests(t1: Test, t2: Test, parts: seq<JsString>) {
    forall part, name | part in parts && part != STAR_STAR :: t1(part, name) == t2(part, name)
  }

  /** One part of the pattern: the names before the rest descend in the walk as they lead on the tree. */
  lemma RestMatches(fs: Fs, t1: Test, t2: Test, id: NodeId, rest: seq<JsString>, names: Path, k: nat,
                    visited: set<Key>, rank: NodeId -> nat)
    requires IsTree(fs, rank) && VisitedAbove(fs, id, visited, rank) && SameTests(t1, t2, rest) && k <= |names|
    ensures SplitsAt(fs, t1, id, rest, names, visited, k) <==> MatchesBehind(fs, t2, id, rest, names, k)
    decreases |rest|, 1
  {
    if d, v :| Descends(fs, id, names[..k], visited, d, v) && Hit(fs, t1, d, rest, names[k..], v) {
      DescentBelow(fs, id, names[..k], visited, d, v, rank);
      HitIffPathMatches(fs, t1, t2, d, rest, names[k..], v, rank);
    }
    if d :| Leads(fs, id, names[..k], d) && PathMatches(fs, t2, d, rest, names[k..]) {
      var v := LeadsDescends(fs, id, names[..k], visited, d, rank);
      HitIffPathMatches(fs, t1, t2, d, rest, names[k..], v, rank);
    }
  }

  /** On a tree the cycle check does not show, and only what the test says about the pattern's own parts matters. */
  lemma {:induction false} HitIffPathMatches(fs: Fs, t1: Test, t2: Test, id: NodeId, parts: seq<JsString>, names: Path,
                                             visited: set<Key>, rank: NodeId -> nat)
    requires IsTree(fs, rank) && VisitedAbove(fs, id, visited, rank) && SameTests(t1, t2, parts)
    ensures Hit(fs, t1, id, parts, names, visited) <==> PathMatches(fs, t2, id, parts, names)
    decreases |parts|, 0
  {
    if parts == [STAR_STAR] {
      ExistsIffEndsAt(fs, id, names, visited, rank);
    } else if |parts| > 1 && parts[0] == STAR_STAR {
      HitSplits(fs, t1, id, parts, names, visited);
      forall k | 0 <= k <= |names|
        ensures SplitsAt(fs, t1, id, parts[1..], names, visited, k)
           <==> MatchesBehind(fs, t2, id, parts[1..], names, k)
      {
        RestMatches(fs, t1, t2, id, parts[1..], names, k, visited, rank);
      }
    } else if |parts| > 1 && names != [] {
      RestMatches(fs, t1, t2, id, parts[1..], names, 1, visited, rank);
      assert Hit(fs, t1, id, parts, names, visited)
        <==> t1(parts[0], names[0]) && SplitsAt(fs, t1, id, parts[1..], names, visited, 1);
    }
  }

  /** Every part but `**` compiles to an expression that means the part. */
  predicate PlainSegments(parts: seq<JsString>) {
    forall part | part in parts && part != STAR_STAR :: OrderedClasses(part) && !EscapesWildcard(part)
  }

  /** On a tree, for parts whose ranges are in order and that escape no wildcard, the search finds exactly the paths
      whose components match the pattern. */
  lemma SearchFinds(fs: Fs, root: NodeId, parts: seq<JsString>, rank: NodeId -> nat, p: Path)
    requires IsTree(fs, rank) && PlainSegments(parts)
    ensures p in GlobWalk.Glob(fs, RegexTest, root, parts, rank) <==> PathMatches(fs, GlobTest, root, parts, p)
  {
    forall part, name | part in parts && part != STAR_STAR
      ensures RegexTest(part, name) == GlobTest(part, name)
    {
      RegexMeansGlob(part);
    }
    WalkYields(fs, RegexTest, root, [], parts, RootKeys(fs, root), rank, p);
    assert p[0..] == p;
    RootAbove(fs, root, rank);
    HitIffPathMatches(fs, RegexTest, GlobTest, root, parts, p, RootKeys(fs, root), rank);
  }

  /** So does the SSH search, where no entry is a link to a directory and none dangles. */
  lemma SshSearchFinds(fs: Fs, root: NodeId, parts: seq<JsString>, rank: NodeId -> nat, down: NodeId -> nat, p: Path)
    requires IsTree(fs, rank) && ListedDown(fs, down) && FaithfulBelow(fs, root) && PlainSegments(parts)
    ensures p in SshWalk(fs, RegexTest, Some(root), [], parts, down) <==> PathMatches(fs, GlobTest, root, parts, p)
  {
    CycleCheckPrunesNothing(fs, RegexTest, root, parts, rank, down);
    SearchFinds(fs, root, parts, rank, p);
  }

  /** The expression of `*` matches every text without a slash. */
  lemma StarMatches(name: Name)
    requires SLASH !in name
    ensures RegexTest(ANY, name)
  {
    assert ANY[1..] == [];
    assert G.FirstToken(ANY) == (G.AnyRun, 1);
    assert G.Tokens(ANY) == [G.AnyRun] + G.Tokens([]) == [G.AnyRun];
    RegexMeansGlob(ANY);
    AnyRunMatches(name);
  }

  lemma {:induction false} AnyRunMatches(name: Name)
    requires SLASH !in name
    ensures G.GlobMatches([G.AnyRun], name)
  {
    if name != [] {
      AnyRunMatches(name[1..]);
    }
  }

  /** With the compiled tests, where directories list file names, each once: both searches yield the same for every
      pattern exactly when no entry below the base is a link to a directory, dangles, or is listed as something else
      than `stat` finds. */
  lemma SearchesAgreeIff(fs: Fs, root: NodeId, rank: NodeId -> nat, down: NodeId -> nat)
    requires Ranked(fs, rank) && ListedDown(fs, down) && DistinctKeys(fs) && ProperNames(fs)
    ensures (forall parts :: GlobWalk.Glob(fs, RegexTest, root, parts, rank)
                          == SshWalk(fs, RegexTest, Some(root), [], parts, down))
       <==> FaithfulBelow(fs, root)
  {
    forall id, e | e in Listing(fs, id)
      ensures RegexTest(ANY, e.name)
    {
      StarMatches(e.name);
    }
    AgreeIff(fs, RegexTest, root, rank, down);
    assert SearchesAgree(fs, RegexTest, root, rank, down) <==> FaithfulBelow(fs, root);
  }

  /** Each match is found once, if the pattern has at most one `**` and every directory lists a name once. */
  lemma SearchFindsOnce(fs: Fs, root: NodeId, parts: seq<JsString>, rank: NodeId -> nat, p: Path)
    requires IsTree(fs, rank) && UniqueNames(fs) && StarStars(parts) <= 1 && PlainSegments(parts)
    ensures multiset(GlobWalk.Glob(fs, RegexTest, root, parts, rank))[p]
         == if PathMatches(fs, GlobTest, root, parts, p) then 1 else 0
  {
    var found := GlobWalk.Glob(fs, RegexTest, root, parts, rank);
    SearchFinds(fs, root, parts, rank, p);
    WalkOnce(fs, RegexTest, root, [], parts, RootKeys(fs, root), rank);
    CountOnce(found, p);
  }

  lemma CountOnce(s: seq<Path>, p: Path)
    requires NoDuplicates(s)
    ensures multiset(s)[p] == if p in s then 1 else 0
  {
    if i :| 0 <= i < |s| && s[i] == p {
      assert s == s[..i] + [p] + s[i + 1..];
      assert p !in s[..i] && p !in s[i + 1..];
    }
  }
}

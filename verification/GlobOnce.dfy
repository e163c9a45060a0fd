/** How often the glob walk yields a path: once if the pattern has at most one `**`. */
module GlobOnce {
  import opened Units
  import opened Chars
  import opened GlobWalk
  import opened GlobMeaning

  predicate NoDuplicates<T(==)>(s: seq<T>) {
    forall i, j | 0 <= i < j < |s| :: s[i] != s[j]
  }

  lemma NoDuplicatesConcat<T>(a: seq<T>, b: seq<T>)
    requires NoDuplicates(a) && NoDuplicates(b)
    requires forall x | x in a :: x !in b
    ensures NoDuplicates(a + b)
  {
    var s := a + b;
    forall i, j | 0 <= i < j < |s|
      ensures s[i] != s[j]
    {
      if i < |a| <= j {
        assert s[i] in a && s[j] in b;
      }
    }
  }

  /** `readdir` lists a name once. */
  ghost predicate UniqueNames(fs: Fs) {
    forall id, i, j | 0 <= i < j < |Listing(fs, id)| :: Listing(fs, id)[i].name != Listing(fs, id)[j].name
  }

  function StarStars(parts: seq<JsString>): (n: nat)
    ensures n <= |parts|
  {
    if parts == [] then 0 else (if parts[0] == STAR_STAR then 1 else 0) + StarStars(parts[1..])
  }

  /** A pattern with at most one `**` takes at least as many names as it has other parts, and without `**` no more. */
  lemma {:induction false} NamesTaken(fs: Fs, test: Test, id: NodeId, parts: seq<JsString>, names: Path,
                                      visited: set<Key>)
    requires StarStars(parts) <= 1 && Hit(fs, test, id, parts, names, visited)
    ensures |names| + StarStars(parts) >= |parts|
    ensures StarStars(parts) == 0 ==> |names| == |parts|
    decreases |parts|
  {
    if |parts| > 1 {
      if parts[0] != STAR_STAR {
        var d, v :| Descends(fs, id, names[..1], visited, d, v) && Hit(fs, test, d, parts[1..], names[1..], v);
        NamesTaken(fs, test, d, parts[1..], names[1..], v);
      } else {
        var k, d, v :| 0 <= k <= |names| && Descends(fs, id, names[..k], visited, d, v)
                       && Hit(fs, test, d, parts[1..], names[k..], v);
        NamesTaken(fs, test, d, parts[1..], names[k..], v);
      }
    }
  }

  /** The paths found through entry `i` have its name next; those found later have another. */
  lemma EntriesApart(fs: Fs, test: Test, id: NodeId, base: Path, parts: seq<JsString>, visited: set<Key>, i: nat,
                     rank: NodeId -> nat, p: Path)
    requires Ranked(fs, rank) && UniqueNames(fs) && parts != [] && i < |Listing(fs, id)|
    requires p in WalkEntries(fs, test, id, base, parts, visited, i + 1, rank)
    ensures !(base + [Listing(fs, id)[i].name] <= p)
  {
    EntriesYield(fs, test, id, base, parts, visited, i + 1, rank, p);
    NextName(base, Listing(fs, id)[i].name, p);
  }

  lemma {:induction false} WalkOnce(fs: Fs, test: Test, id: NodeId, base: Path, parts: seq<JsString>,
                                    visited: set<Key>, rank: NodeId -> nat)
    requires Ranked(fs, rank) && UniqueNames(fs) && StarStars(parts) <= 1
    ensures NoDuplicates(Walk(fs, test, id, base, parts, visited, rank))
    decreases DirKeys(fs) - visited, rank(id), |parts|, 1, 0
  {
    if parts != [] {
      EntriesOnce(fs, test, id, base, parts, visited, 0, rank);
      if parts[0] == STAR_STAR {
        var here := if |parts| > 1 then Walk(fs, test, id, base, parts[1..], visited, rank) else [base];
        if |parts| > 1 {
          WalkOnce(fs, test, id, base, parts[1..], visited, rank);
        }
        forall p | p in here
          ensures p !in WalkEntries(fs, test, id, base, parts, visited, 0, rank)
        {
          HereIsShorter(fs, test, id, base, parts, visited, rank, p);
        }
        NoDuplicatesConcat(here, WalkEntries(fs, test, id, base, parts, visited, 0, rank));
      }
    }
  }

  /** What `**` finds in the directory itself has fewer names than what it finds further down. */
  lemma HereIsShorter(fs: Fs, test: Test, id: NodeId, base: Path, parts: seq<JsString>, visited: set<Key>,
                      rank: NodeId -> nat, p: Path)
    requires Ranked(fs, rank) && parts != [] && parts[0] == STAR_STAR && StarStars(parts) == 1
    requires p in if |parts| > 1 then Walk(fs, test, id, base, parts[1..], visited, rank) else [base]
    ensures p !in WalkEntries(fs, test, id, base, parts, visited, 0, rank)
  {
    EntriesYield(fs, test, id, base, parts, visited, 0, rank, p);
    if |parts| > 1 {
      WalkYields(fs, test, id, base, parts[1..], visited, rank, p);
      NamesTaken(fs, test, id, parts[1..], p[|base|..], visited);
    }
    if p in WalkEntries(fs, test, id, base, parts, visited, 0, rank) {
      var names := p[|base|..];
      var j :| 0 <= j < |Listing(fs, id)| && HitThrough(fs, test, Listing(fs, id)[j], parts, names, visited);
      var e := Listing(fs, id)[j];
      if IsDir(fs, e) {
        NamesTaken(fs, test, e.target.value, parts, names[1..], Visit(fs, e, visited));
      }
    }
  }

  lemma {:induction false} EntriesOnce(fs: Fs, test: Test, id: NodeId, base: Path, parts: seq<JsString>,
                                       visited: set<Key>, i: nat, rank: NodeId -> nat)
    requires Ranked(fs, rank) && UniqueNames(fs) && StarStars(parts) <= 1 && parts != [] && i <= |Listing(fs, id)|
    ensures NoDuplicates(WalkEntries(fs, test, id, base, parts, visited, i, rank))
    decreases DirKeys(fs) - visited, rank(id), |parts|, 0, |Listing(fs, id)| - i
  {
    if i < |Listing(fs, id)| {
      var e := Listing(fs, id)[i];
      var fullPath := base + [e.name];
      var later := WalkEntries(fs, test, id, base, parts, visited, i + 1, rank);
      EntriesOnce(fs, test, id, base, parts, visited, i + 1, rank);
      forall p | p in later
        ensures !(fullPath <= p)
      {
        EntriesApart(fs, test, id, base, parts, visited, i, rank, p);
      }
      if IsDir(fs, e) && MayEnter(fs, e, visited) {
        var inside := Visit(fs, e, visited);
        var below := if parts[0] == STAR_STAR then parts else parts[1..];
        WalkOnce(fs, test, e.target.value, fullPath, below, inside, rank);
        var found := Walk(fs, test, e.target.value, fullPath, below, inside, rank);
        forall p | p in found
          ensures p !in later
        {
          WalkYields(fs, test, e.target.value, fullPath, below, inside, rank, p);
        }
        NoDuplicatesConcat(found, later);
      }
      NoDuplicatesConcat([fullPath], later);
    }
  }

  // ----- Parts that accept no name -----

  /** A name that a directory may list. */
  predicate IsFileName(name: Name) {
    name != [] && SLASH !in name && 0 !in name && name != [DOT] && name != [DOT, DOT]
  }

  ghost predicate ProperNames(fs: Fs) {
    UniqueNames(fs) && forall id, e | e in Listing(fs, id) :: IsFileName(e.name)
  }

  ghost predicate Acceptable(test: Test, part: JsString) {
    exists name :: IsFileName(name) && test(part, name)
  }

  /** Every part that is not `**` accepts some file name. */
  ghost predicate AllAcceptable(test: Test, parts: seq<JsString>) {
    forall i | 0 <= i < |parts| && parts[i] != STAR_STAR :: Acceptable(test, parts[i])
  }

  lemma AcceptableRest(test: Test, parts: seq<JsString>, k: nat)
    requires k <= |parts| && AllAcceptable(test, parts)
    ensures AllAcceptable(test, parts[k..]) && AllAcceptable(test, parts[..k])
  {
    assert forall i | 0 <= i < |parts| - k :: parts[k..][i] == parts[i + k];
  }

  /** Only names of entries are tried. */
  lemma HitIsProper(fs: Fs, id: NodeId, names: Path, visited: set<Key>, d: NodeId, v: set<Key>)
    requires ProperNames(fs) && names != []
    requires HasName(fs, id, names[0]) || Descends(fs, id, names[..1], visited, d, v)
    ensures IsFileName(names[0])
  {
  }

  lemma AcceptableCons(test: Test, parts: seq<JsString>)
    requires parts != [] && (parts[0] == STAR_STAR || Acceptable(test, parts[0])) && AllAcceptable(test, parts[1..])
    ensures AllAcceptable(test, parts)
  {
    assert forall i | 1 <= i < |parts| :: parts[i] == parts[1..][i - 1];
  }

  lemma HitFirstPart(fs: Fs, test: Test, id: NodeId, parts: seq<JsString>, names: Path, visited: set<Key>)
    requires ProperNames(fs) && Hit(fs, test, id, parts, names, visited)
    ensures parts != [] && (parts[0] == STAR_STAR || Acceptable(test, parts[0]))
  {
    if parts[0] != STAR_STAR {
      if |parts| == 1 {
        HitIsProper(fs, id, names, visited, id, visited);
      } else {
        var d, v :| Descends(fs, id, names[..1], visited, d, v) && Hit(fs, test, d, parts[1..], names[1..], v);
        HitIsProper(fs, id, names, visited, d, v);
      }
    }
  }

  lemma HitOtherParts(fs: Fs, test: Test, id: NodeId, parts: seq<JsString>, names: Path, visited: set<Key>)
    returns (d: NodeId, rest: Path, v: set<Key>)
    requires |parts| > 1 && Hit(fs, test, id, parts, names, visited)
    ensures Hit(fs, test, d, parts[1..], rest, v)
  {
    if parts[0] == STAR_STAR {
      var k;
      k, d, v :| 0 <= k <= |names| && Descends(fs, id, names[..k], visited, d, v)
                 && Hit(fs, test, d, parts[1..], names[k..], v);
      rest := names[k..];
    } else {
      d, v :| Descends(fs, id, names[..1], visited, d, v) && Hit(fs, test, d, parts[1..], names[1..], v);
      rest := names[1..];
    }
  }

  lemma {:induction false} HitAccepts(fs: Fs, test: Test, id: NodeId, parts: seq<JsString>, names: Path,
                                      visited: set<Key>)
    requires ProperNames(fs) && Hit(fs, test, id, parts, names, visited)
    ensures AllAcceptable(test, parts)
    decreases |parts|
  {
    HitFirstPart(fs, test, id, parts, names, visited);
    if |parts| > 1 {
      var d, rest, v := HitOtherParts(fs, test, id, parts, names, visited);
      HitAccepts(fs, test, d, parts[1..], rest, v);
    }
    AcceptableCons(test, parts);
  }

  /** A pattern with a part that accepts no file name yields nothing. */
  lemma UnacceptableFindsNothing(fs: Fs, test: Test, root: NodeId, parts: seq<JsString>, rank: NodeId -> nat)
    requires Ranked(fs, rank) && ProperNames(fs) && !AllAcceptable(test, parts)
    ensures Glob(fs, test, root, parts, rank) == []
  {
    var found := Glob(fs, test, root, parts, rank);
    if found != [] {
      WalkYields(fs, test, root, [], parts, RootKeys(fs, root), rank, found[0]);
      HitAccepts(fs, test, root, parts, found[0][0..], RootKeys(fs, root));
    }
  }

  // ----- A chain of directories -----

  predicate OnChain(id: NodeId, names: Path) { 1 <= id <= |names| + 1 }

  /** Directories numbered from 1, each but the last with one entry, which leads to the next. */
  function Chain(names: Path): Fs {
    map id: NodeId | id <= |names| + 1 && OnChain(id, names) ::
      Dir(0, id, true, if id <= |names| then [Entry(names[id - 1], true, Some(id + 1))] else [])
  }

  function NoRank(id: NodeId): nat { 0 }

  /** The keys visited by a walk that has come down to directory `id` of a chain. */
  ghost predicate VisitedTo(id: NodeId, visited: set<Key>) {
    forall k | k in visited :: k.dev == 0 && k.ino <= id
  }

  lemma ChainRanked(names: Path)
    requires AreFileNames(names)
    ensures Ranked(Chain(names), NoRank) && ProperNames(Chain(names))
  {
  }

  /** From the directory at position `from`, which is number `from + 1`, to the next. */
  lemma ChainStep(names: Path, from: nat, visited: set<Key>)
    requires from < |names| && VisitedTo(from + 1, visited)
    ensures var fs, e := Chain(names), Entry(names[from], true, Some(from + 2));
            && Listing(fs, from + 1) == [e] && IsDir(fs, e) && MayEnter(fs, e, visited)
            && Visit(fs, e, visited) == visited + {Key(0, from + 2)}
            && VisitedTo(from + 2, Visit(fs, e, visited))
  {
  }

  lemma {:induction false} ChainDescends(names: Path, from: nat, end: nat, visited: set<Key>) returns (v: set<Key>)
    requires from <= end <= |names| && VisitedTo(from + 1, visited)
    ensures Descends(Chain(names), from + 1, names[from..][..end - from], visited, end + 1, v)
    ensures VisitedTo(end + 1, v)
    decreases end - from
  {
    if from == end {
      v := visited;
    } else {
      ChainStep(names, from, visited);
      var fs, e := Chain(names), Entry(names[from], true, Some(from + 2));
      v := ChainDescends(names, from + 1, end, Visit(fs, e, visited));
      assert names[from..][..end - from][1..] == names[from + 1..][..end - from - 1];
      assert e in Listing(fs, from + 1);
    }
  }

  // ----- What is found in a chain -----

  /** Some file name that the part accepts. */
  ghost function Pick(test: Test, part: JsString): (name: Name)
    requires Acceptable(test, part)
    ensures IsFileName(name) && test(part, name)
  {
    var name :| IsFileName(name) && test(part, name);
    name
  }

  /** One accepted name for every part that is not `**`. */
  ghost function Example(test: Test, parts: seq<JsString>): Path
    requires AllAcceptable(test, parts)
  {
    if parts == [] then []
    else
      AcceptableRest(test, parts, 1);
      if parts[0] == STAR_STAR then Example(test, parts[1..])
      else [Pick(test, parts[0])] + Example(test, parts[1..])
  }

  ghost predicate AreFileNames(names: Path) {
    forall name | name in names :: IsFileName(name)
  }

  lemma FileNamesConcat(a: Path, b: Path)
    requires AreFileNames(a) && AreFileNames(b)
    ensures AreFileNames(a + b)
  {
  }

  lemma {:induction false} ExampleProper(test: Test, parts: seq<JsString>)
    requires AllAcceptable(test, parts)
    ensures AreFileNames(Example(test, parts))
  {
    if parts != [] {
      AcceptableRest(test, parts, 1);
      ExampleProper(test, parts[1..]);
      if parts[0] != STAR_STAR {
        FileNamesConcat([Pick(test, parts[0])], Example(test, parts[1..]));
      }
    }
  }

  /** The pattern matches the rest of the chain from position `from` on. */
  ghost predicate HitsRest(names: Path, from: nat, test: Test, parts: seq<JsString>, visited: set<Key>)
    requires from <= |names|
  {
    Hit(Chain(names), test, from + 1, parts, names[from..], visited)
  }

  /** It does so whatever the walk has visited on its way down. */
  ghost predicate AlwaysHits(names: Path, from: nat, test: Test, parts: seq<JsString>) {
    from <= |names| && forall v | VisitedTo(from + 1, v) :: HitsRest(names, from, test, parts, v)
  }

  /** A plain part takes the next name of the chain. */
  lemma TakesOne(names: Path, from: nat, test: Test, parts: seq<JsString>)
    requires |parts| > 1 && parts[0] != STAR_STAR && from < |names| && test(parts[0], names[from])
    requires AlwaysHits(names, from + 1, test, parts[1..])
    ensures AlwaysHits(names, from, test, parts)
  {
    forall visited | VisitedTo(from + 1, visited)
      ensures HitsRest(names, from, test, parts, visited)
    {
      var v := ChainDescends(names, from, from + 1, visited);
      assert HitsRest(names, from + 1, test, parts[1..], v);
      assert names[from..][1..] == names[from + 1..];
    }
  }

  lemma TakesLast(names: Path, from: nat, test: Test, parts: seq<JsString>)
    requires |parts| == 1 && parts[0] != STAR_STAR && from + 1 == |names| && test(parts[0], names[from])
    ensures AlwaysHits(names, from, test, parts)
  {
    ChainStep(names, from, {});
    assert Entry(names[from], true, Some(from + 2)) in Listing(Chain(names), from + 1);
  }

  lemma StarEnds(names: Path, from: nat, test: Test, parts: seq<JsString>)
    requires |parts| == 1 && parts[0] == STAR_STAR && from <= |names|
    ensures AlwaysHits(names, from, test, parts)
  {
    forall visited | VisitedTo(from + 1, visited)
      ensures HitsRest(names, from, test, parts, visited)
    {
      var v := ChainDescends(names, from, |names|, visited);
      assert names[from..][..|names| - from] == names[from..];
      assert EndsAtDir(Chain(names), from + 1, names[from..], visited);
    }
  }

  /** `**` takes the names up to position `end`, where the rest of the pattern matches. */
  lemma StarFollows(names: Path, from: nat, test: Test, parts: seq<JsString>, end: nat)
    requires |parts| > 1 && parts[0] == STAR_STAR && from <= end && AlwaysHits(names, end, test, parts[1..])
    ensures AlwaysHits(names, from, test, parts)
  {
    var suffix, k := names[from..], end - from;
    forall visited | VisitedTo(from + 1, visited)
      ensures HitsRest(names, from, test, parts, visited)
    {
      var v := ChainDescends(names, from, end, visited);
      assert HitsRest(names, end, test, parts[1..], v);
      assert suffix[k..] == names[end..];
      assert SplitsAt(Chain(names), test, from + 1, parts[1..], suffix, visited, k);
      HitSplits(Chain(names), test, from + 1, parts, suffix, visited);
    }
  }

  lemma {:induction false} ExampleHits(names: Path, from: nat, test: Test, parts: seq<JsString>)
    requires parts != [] && AllAcceptable(test, parts) && from <= |names| && names[from..] == Example(test, parts)
    ensures AlwaysHits(names, from, test, parts)
    decreases |parts|
  {
    AcceptableRest(test, parts, 1);
    if parts[0] == STAR_STAR {
      StarTakes(names, from, test, parts, from);
    } else {
      assert names[from] == names[from..][0] == Example(test, parts)[0];
      assert names[from + 1..] == names[from..][1..] == Example(test, parts[1..]);
      if |parts| == 1 {
        NothingBehind(names, from + 1, test, parts);
        TakesLast(names, from, test, parts);
      } else {
        ExampleHits(names, from + 1, test, parts[1..]);
        TakesOne(names, from, test, parts);
      }
    }
  }

  /** `**` takes the names up to position `end`, where the example of the rest follows. */
  lemma {:induction false} StarTakes(names: Path, from: nat, test: Test, parts: seq<JsString>, end: nat)
    requires parts != [] && parts[0] == STAR_STAR && AllAcceptable(test, parts[1..])
    requires from <= end <= |names| && names[end..] == Example(test, parts[1..])
    ensures AlwaysHits(names, from, test, parts)
    decreases |parts|, 1
  {
    if |parts| == 1 {
      StarEnds(names, from, test, parts);
    } else {
      ExampleHits(names, end, test, parts[1..]);
      StarFollows(names, from, test, parts, end);
    }
  }

  lemma NothingBehind(names: Path, end: nat, test: Test, parts: seq<JsString>)
    requires |parts| == 1 && AllAcceptable(test, parts[1..]) && end <= |names|
    requires names[end..] == Example(test, parts[1..])
    ensures end == |names|
  {
    assert parts[1..] == [];
  }

  /** Each part accepts its name, from position `from` on. */
  ghost predicate TakenBy(test: Test, block: seq<JsString>, names: Path, from: nat) {
    from + |block| <= |names| && forall i | 0 <= i < |block| :: test(block[i], names[from + i])
  }

  lemma TakenByNext(test: Test, parts: seq<JsString>, m: nat, names: Path, from: nat)
    requires 0 < m <= |parts| && TakenBy(test, parts[..m], names, from)
    ensures test(parts[0], names[from]) && TakenBy(test, parts[1..][..m - 1], names, from + 1)
  {
    var block, rest := parts[..m], parts[1..][..m - 1];
    assert block[0] == parts[0];
    assert forall i | 0 <= i < m - 1 :: rest[i] == block[i + 1];
  }

  /** Parts before a `**` take their own names, and that `**` the names behind them up to position `end`. */
  lemma {:induction false} BlockHits(names: Path, from: nat, test: Test, parts: seq<JsString>, m: nat, end: nat)
    requires m < |parts| && parts[m] == STAR_STAR && AllAcceptable(test, parts)
    requires forall i | 0 <= i < m :: parts[i] != STAR_STAR
    requires from + m <= end <= |names| && TakenBy(test, parts[..m], names, from)
    requires AllAcceptable(test, parts[m + 1..]) && names[end..] == Example(test, parts[m + 1..])
    ensures AlwaysHits(names, from, test, parts)
    decreases m
  {
    if m == 0 {
      StarTakes(names, from, test, parts, end);
    } else {
      AcceptableRest(test, parts, 1);
      assert parts[1..][m..] == parts[m + 1..];
      TakenByNext(test, parts, m, names, from);
      BlockHits(names, from + 1, test, parts[1..], m - 1, end);
      TakesOne(names, from, test, parts);
    }
  }

  // ----- Two `**` find a path twice -----

  /** The number of parts before the first `**`. */
  function BlockLength(parts: seq<JsString>): (m: nat)
    ensures m <= |parts|
    ensures forall i | 0 <= i < m :: parts[i] != STAR_STAR
    ensures m < |parts| ==> parts[m] == STAR_STAR
  {
    if parts == [] || parts[0] == STAR_STAR then 0 else 1 + BlockLength(parts[1..])
  }

  lemma {:induction false} BlockEnds(parts: seq<JsString>)
    requires StarStars(parts) > 0
    ensures BlockLength(parts) < |parts|
  {
    if parts[0] != STAR_STAR {
      BlockEnds(parts[1..]);
    }
  }

  const SOME_NAME: Name := [0x61]

  lemma {:induction false} ExampleOfBlock(test: Test, parts: seq<JsString>)
    requires AllAcceptable(test, parts) && forall i | 0 <= i < |parts| :: parts[i] != STAR_STAR
    ensures |Example(test, parts)| == |parts|
    ensures forall i | 0 <= i < |parts| :: test(parts[i], Example(test, parts)[i])
  {
    if parts != [] {
      AcceptableRest(test, parts, 1);
      ExampleOfBlock(test, parts[1..]);
      assert forall i | 1 <= i < |parts| :: parts[i] == parts[1..][i - 1];
    }
  }

  /** Names for the parts between the first two `**` twice, or any one name if there are none, and then names for the
      parts behind. */
  ghost function Doubled(test: Test, parts: seq<JsString>): Path
    requires AllAcceptable(test, parts) && StarStars(parts) >= 2
  {
    AcceptableRest(test, parts, 1);
    if parts[0] != STAR_STAR then [Pick(test, parts[0])] + Doubled(test, parts[1..])
    else
      BlockEnds(parts[1..]);
      var m := BlockLength(parts[1..]);
      AcceptableRest(test, parts[1..], m);
      AcceptableRest(test, parts[1..], m + 1);
      var between := Example(test, parts[1..][..m]);
      between + (if m == 0 then [SOME_NAME] else between) + Example(test, parts[1..][m + 1..])
  }

  lemma {:induction false} DoubledProper(test: Test, parts: seq<JsString>)
    requires AllAcceptable(test, parts) && StarStars(parts) >= 2
    ensures AreFileNames(Doubled(test, parts))
  {
    AcceptableRest(test, parts, 1);
    if parts[0] != STAR_STAR {
      DoubledProper(test, parts[1..]);
      FileNamesConcat([Pick(test, parts[0])], Doubled(test, parts[1..]));
    } else {
      var rest := parts[1..];
      var m := BlockLength(rest);
      BlockEnds(rest);
      AcceptableRest(test, rest, m);
      AcceptableRest(test, rest, m + 1);
      var between := Example(test, rest[..m]);
      var extra := if m == 0 then [SOME_NAME] else between;
      DoubledIs(test, parts, rest, m, extra);
      ExampleProper(test, rest[..m]);
      ExampleProper(test, rest[m + 1..]);
      FileNamesConcat(between, extra);
      FileNamesConcat(between + extra, Example(test, rest[m + 1..]));
    }
  }

  lemma BothDuplicate(a: seq<Path>, b: seq<Path>, p: Path)
    requires p in a && p in b
    ensures !NoDuplicates(a + b)
  {
    var i :| 0 <= i < |a| && a[i] == p;
    var j :| 0 <= j < |b| && b[j] == p;
    assert (a + b)[i] == (a + b)[|a| + j];
  }

  /** At the first `**`: the path is found by the rest of the pattern here, and one directory further down. */
  lemma TwiceAtStar(names: Path, from: nat, base: Path, test: Test, parts: seq<JsString>, visited: set<Key>)
    requires Ranked(Chain(names), NoRank) && |parts| > 1 && parts[0] == STAR_STAR
    requires from < |names| && VisitedTo(from + 1, visited)
    requires AlwaysHits(names, from, test, parts[1..]) && AlwaysHits(names, from + 1, test, parts)
    ensures !NoDuplicates(Walk(Chain(names), test, from + 1, base, parts, visited, NoRank))
  {
    var fs, id, suffix, p := Chain(names), from + 1, names[from..], base + names[from..];
    ChainStep(names, from, visited);
    assert HitsRest(names, from, test, parts[1..], visited);
    assert HitsRest(names, from + 1, test, parts, visited + {Key(0, from + 2)});
    assert p[|base|..] == suffix && suffix[1..] == names[from + 1..];
    WalkYields(fs, test, id, base, parts[1..], visited, NoRank, p);
    EntriesYield(fs, test, id, base, parts, visited, 0, NoRank, p);
    assert HitThrough(fs, test, Listing(fs, id)[0], parts, suffix, visited);
    BothDuplicate(Walk(fs, test, id, base, parts[1..], visited, NoRank),
                  WalkEntries(fs, test, id, base, parts, visited, 0, NoRank), p);
  }

  /** How often the names between the first two `**` stand after the first copy: a stretch of at least one name. */
  function Extra(parts: seq<JsString>): (n: nat)
    ensures n >= 1
  {
    if BlockLength(parts) == 0 then 1 else BlockLength(parts)
  }

  /** Where the names behind the second `**` begin. */
  function Behind(from: nat, rest: seq<JsString>): (end: nat)
    ensures end > from
  {
    from + BlockLength(rest) + Extra(rest)
  }

  /** The names from `from` on are a doubled example of the pattern with `**` before `rest`: they fit the parts before
      the next `**` at `from` and once more at `again`, and from `end` on they are those of the parts left. */
  ghost predicate IsDoubled(names: Path, from: nat, again: nat, end: nat, test: Test, rest: seq<JsString>) {
    var m := BlockLength(rest);
    && from < again <= again + m <= end <= |names| && from + m <= end
    && m < |rest| && AllAcceptable(test, rest) && AllAcceptable(test, rest[m + 1..])
    && TakenBy(test, rest[..m], names, from) && TakenBy(test, rest[..m], names, again)
    && names[end..] == Example(test, rest[m + 1..])
  }

  lemma SliceOfThree(names: Path, from: nat, a: Path, b: Path, c: Path)
    requires from <= |names| && names[from..] == a + b + c
    ensures from + |a| + |b| + |c| == |names| && names[from..from + |a|] == a
    ensures names[from + |a|..from + |a| + |b|] == b && names[from + |a| + |b|..] == c
  {
    var s := names[from..];
    assert names[from..from + |a|] == s[..|a|];
    assert names[from + |a|..from + |a| + |b|] == s[|a|..|a| + |b|];
    assert names[from + |a| + |b|..] == s[|a| + |b|..];
  }

  lemma TakenInside(test: Test, block: seq<JsString>, values: Path, names: Path, from: nat)
    requires |values| == |block| && forall i | 0 <= i < |block| :: test(block[i], values[i])
    requires from + |values| <= |names| && names[from..from + |values|] == values
    ensures TakenBy(test, block, names, from)
  {
    forall i | 0 <= i < |block|
      ensures test(block[i], names[from + i])
    {
      assert names[from + i] == values[i];
    }
  }

  lemma DoubledIs(test: Test, parts: seq<JsString>, rest: seq<JsString>, m: nat, extra: Path)
    requires AllAcceptable(test, parts) && StarStars(parts) >= 2 && parts[0] == STAR_STAR
    requires rest == parts[1..] && m == BlockLength(rest) < |rest|
    requires AllAcceptable(test, rest[..m]) && AllAcceptable(test, rest[m + 1..])
    requires extra == if m == 0 then [SOME_NAME] else Example(test, rest[..m])
    ensures Doubled(test, parts) == Example(test, rest[..m]) + extra + Example(test, rest[m + 1..])
  {
  }

  lemma DoubledShape(names: Path, from: nat, test: Test, parts: seq<JsString>)
    requires AllAcceptable(test, parts) && StarStars(parts) >= 2 && parts[0] == STAR_STAR
    requires from <= |names| && names[from..] == Doubled(test, parts)
    ensures var again := from + Extra(parts[1..]);
            IsDoubled(names, from, again, Behind(from, parts[1..]), test, parts[1..])
  {
    var rest := parts[1..];
    var m := BlockLength(rest);
    BlockEnds(rest);
    AcceptableRest(test, parts, 1);
    AcceptableRest(test, rest, m);
    AcceptableRest(test, rest, m + 1);
    var extra := if m == 0 then [SOME_NAME] else Example(test, rest[..m]);
    DoubledIs(test, parts, rest, m, extra);
    PlacedDoubled(names, from, test, rest[..m], rest[m + 1..], extra);
  }

  lemma PlacedDoubled(names: Path, from: nat, test: Test, block: seq<JsString>, tail: seq<JsString>, extra: Path)
    requires AllAcceptable(test, block) && AllAcceptable(test, tail) && from <= |names|
    requires forall i | 0 <= i < |block| :: block[i] != STAR_STAR
    requires extra == if block == [] then [SOME_NAME] else Example(test, block)
    requires names[from..] == Example(test, block) + extra + Example(test, tail)
    ensures TakenBy(test, block, names, from) && TakenBy(test, block, names, from + |extra|)
    ensures |extra| == if block == [] then 1 else |block|
    ensures from + |block| + |extra| <= |names| && names[from + |block| + |extra|..] == Example(test, tail)
  {
    var between := Example(test, block);
    ExampleOfBlock(test, block);
    SliceOfThree(names, from, between, extra, Example(test, tail));
    TakenInside(test, block, between, names, from);
    if block != [] {
      assert |extra| == |between|;
      TakenInside(test, block, between, names, from + |extra|);
    }
  }

  /** The rest of the pattern matches here, and the whole of it one directory further down. */
  lemma StarHere(names: Path, from: nat, again: nat, end: nat, test: Test, rest: seq<JsString>)
    requires IsDoubled(names, from, again, end, test, rest)
    ensures AlwaysHits(names, from, test, rest) && AlwaysHits(names, again, test, rest)
  {
    BlockHits(names, from, test, rest, BlockLength(rest), end);
    BlockHits(names, again, test, rest, BlockLength(rest), end);
  }

  lemma FoundBothWays(names: Path, from: nat, test: Test, parts: seq<JsString>)
    requires AllAcceptable(test, parts) && StarStars(parts) >= 2 && parts[0] == STAR_STAR
    requires from <= |names| && names[from..] == Doubled(test, parts)
    ensures |parts| > 1 && from < |names|
    ensures AlwaysHits(names, from, test, parts[1..]) && AlwaysHits(names, from + 1, test, parts)
  {
    var again := from + Extra(parts[1..]);
    DoubledShape(names, from, test, parts);
    StarHere(names, from, again, Behind(from, parts[1..]), test, parts[1..]);
    StarFollows(names, from + 1, test, parts, again);
  }

  /** A plain part hands on what the rest of the pattern finds one directory further down. */
  lemma FoundBehind(names: Path, from: nat, base: Path, test: Test, parts: seq<JsString>, visited: set<Key>)
    requires Ranked(Chain(names), NoRank) && |parts| > 1 && parts[0] != STAR_STAR
    requires from < |names| && VisitedTo(from + 1, visited) && test(parts[0], names[from])
    ensures Walk(Chain(names), test, from + 1, base, parts, visited, NoRank)
         == Walk(Chain(names), test, from + 2, base + [names[from]], parts[1..], visited + {Key(0, from + 2)}, NoRank)
  {
    var fs := Chain(names);
    ChainStep(names, from, visited);
    assert WalkEntries(fs, test, from + 1, base, parts, visited, 1, NoRank) == [];
  }

  lemma {:induction false} FoundTwiceInChain(names: Path, from: nat, base: Path, test: Test, parts: seq<JsString>,
                                             visited: set<Key>)
    requires Ranked(Chain(names), NoRank) && AllAcceptable(test, parts) && StarStars(parts) >= 2
    requires from <= |names| && VisitedTo(from + 1, visited) && names[from..] == Doubled(test, parts)
    ensures !NoDuplicates(Walk(Chain(names), test, from + 1, base, parts, visited, NoRank))
    decreases |parts|
  {
    AcceptableRest(test, parts, 1);
    if parts[0] == STAR_STAR {
      FoundBothWays(names, from, test, parts);
      TwiceAtStar(names, from, base, test, parts, visited);
    } else {
      assert names[from] == names[from..][0] == Pick(test, parts[0]);
      assert names[from + 1..] == names[from..][1..] == Doubled(test, parts[1..]);
      ChainStep(names, from, visited);
      FoundTwiceInChain(names, from + 1, base + [names[from]], test, parts[1..], visited + {Key(0, from + 2)});
      FoundBehind(names, from, base, test, parts, visited);
    }
  }

  /** The pattern with two `**` and nothing else finds the one subdirectory of a directory twice. */
  lemma TwoStarsExample(test: Test)
    ensures Ranked(Chain([SOME_NAME]), NoRank)
    ensures !NoDuplicates(Glob(Chain([SOME_NAME]), test, 1, [STAR_STAR, STAR_STAR], NoRank))
  {
    var names: Path := [SOME_NAME];
    var parts, none: seq<JsString> := [STAR_STAR, STAR_STAR], [];
    ChainRanked(names);
    assert parts[1..] == [STAR_STAR] && parts[1..][1..] == none && parts[1..][..0] == none;
    assert StarStars(parts[1..]) == 1;
    DoubledIs(test, parts, parts[1..], 0, [SOME_NAME]);
    assert Doubled(test, parts) == names;
    assert names[0..] == names;
    FoundTwiceInChain(names, 0, [], test, parts, {Key(0, 1)});
    assert Glob(Chain(names), test, 1, parts, NoRank) == Walk(Chain(names), test, 1, [], parts, {Key(0, 1)}, NoRank);
  }

  /** On every file system, the search yields no path twice. */
  ghost predicate YieldsOnce(test: Test, parts: seq<JsString>) {
    forall fs, root, rank | Ranked(fs, rank) && ProperNames(fs) :: NoDuplicates(Glob(fs, test, root, parts, rank))
  }

  /** A pattern yields each match exactly once on every file system exactly when it has at most one `**`, or a part that
      accepts no file name, so that it has no match anywhere. */
  lemma OnceIff(test: Test, parts: seq<JsString>)
    ensures YieldsOnce(test, parts) <==> StarStars(parts) <= 1 || !AllAcceptable(test, parts)
  {
    if StarStars(parts) <= 1 || !AllAcceptable(test, parts) {
      forall fs, root, rank | Ranked(fs, rank) && ProperNames(fs)
        ensures NoDuplicates(Glob(fs, test, root, parts, rank))
      {
        if StarStars(parts) <= 1 {
          WalkOnce(fs, test, root, [], parts, RootKeys(fs, root), rank);
        } else {
          UnacceptableFindsNothing(fs, test, root, parts, rank);
        }
      }
    } else {
      var names := Doubled(test, parts);
      DoubledProper(test, parts);
      ChainRanked(names);
      assert names[0..] == names;
      FoundTwiceInChain(names, 0, [], test, parts, {Key(0, 1)});
      assert Glob(Chain(names), test, 1, parts, NoRank)
          == Walk(Chain(names), test, 1, [], parts, {Key(0, 1)}, NoRank);
    }
  }
}

/** What the SSH search yields on any file system: what the local search yields on the file system that the listings
    alone describe. */
module GlobListed {
  import opened Units
  import opened GlobWalk
  import opened GlobMeaning

  /** Every entry not listed as a directory, and every entry listed as one that cannot be read. */
  const A_FILE: NodeId := 0
  const NO_DIR: NodeId := 1

  /** A directory of the file system in the one that the listings describe. */
  function ListedId(fs: Fs, id: Option<NodeId>): NodeId {
    if id.Some? && id.value in fs && fs[id.value].Dir? then id.value + 2 else NO_DIR
  }

  function ListedEntry(fs: Fs, e: Entry): Entry {
    Entry(e.name, e.listedAsDir, Some(if e.listedAsDir then ListedId(fs, e.target) else A_FILE))
  }

  function ListedEntries(fs: Fs, entries: seq<Entry>): (l: seq<Entry>)
    ensures |l| == |entries|
  {
    seq(|entries|, i requires 0 <= i < |entries| => ListedEntry(fs, entries[i]))
  }

  predicate IsDirId(fs: Fs, n: NodeId) {
    n >= 2 && n - 2 in fs && fs[n - 2].Dir?
  }

  function ListedNode(fs: Fs, n: NodeId): Node
    requires n < 2 || IsDirId(fs, n)
  {
    if n == A_FILE then File
    else if n == NO_DIR then Dir(0, 0, false, [])
    else Dir(0, 0, fs[n - 2].readable, ListedEntries(fs, fs[n - 2].entries))
  }

  function ListedIds(fs: Fs): (ids: set<NodeId>)
    ensures forall n :: n in ids <==> n < 2 || IsDirId(fs, n)
  {
    var dirs := set id: NodeId | id in fs && fs[id].Dir? :: id + 2;
    assert forall n | IsDirId(fs, n) :: n == (n - 2) + 2 && n in dirs;
    dirs + {A_FILE, NO_DIR}
  }

  /** Links and dangling entries are files, and no directory has an inode number, so that there is no cycle check. */
  function AsListed(fs: Fs): Fs {
    map n | n in ListedIds(fs) :: ListedNode(fs, n)
  }

  function RankListed(down: NodeId -> nat): NodeId -> nat {
    (id: NodeId) => if id < 2 then 0 else down(id - 2) + 1
  }

  lemma ListedAt(fs: Fs, n: NodeId)
    ensures n in AsListed(fs) <==> n < 2 || IsDirId(fs, n)
    ensures n in AsListed(fs) ==> AsListed(fs)[n] == ListedNode(fs, n)
  {
  }

  lemma ListedListing(fs: Fs, id: Option<NodeId>)
    ensures Listing(AsListed(fs), ListedId(fs, id)) == ListedEntries(fs, SshListing(fs, id))
  {
    ListedAt(fs, ListedId(fs, id));
  }

  lemma ListedKinds(fs: Fs, e: Entry)
    ensures var x, listed := ListedEntry(fs, e), AsListed(fs);
            && IsDir(listed, x) == e.listedAsDir && IsFile(listed, x) == !e.listedAsDir
            && (e.listedAsDir ==> CycleKey(listed[x.target.value]).None?)
  {
    ListedAt(fs, ListedEntry(fs, e).target.value);
  }

  lemma ListedRanked(fs: Fs, down: NodeId -> nat)
    requires ListedDown(fs, down)
    ensures Ranked(AsListed(fs), RankListed(down))
  {
    var listed := AsListed(fs);
    forall n, x | x in Listing(listed, n) && IsDir(listed, x) && listed[x.target.value].ino == 0
      ensures RankListed(down)(x.target.value) < RankListed(down)(n)
    {
      ListedAt(fs, n);
      RanksBelow(fs, n, x, down);
    }
  }

  lemma RanksBelow(fs: Fs, n: NodeId, x: Entry, down: NodeId -> nat)
    requires ListedDown(fs, down) && IsDirId(fs, n) && x in ListedEntries(fs, Listing(fs, n - 2)) && x.listedAsDir
    ensures RankListed(down)(x.target.value) < RankListed(down)(n)
  {
    var entries := Listing(fs, n - 2);
    var i :| 0 <= i < |entries| && x == ListedEntry(fs, entries[i]);
    assert entries[i] in entries;
  }

  lemma {:induction false} SshWalksListed(fs: Fs, test: Test, id: Option<NodeId>, base: Path, parts: seq<JsString>,
                                          visited: set<Key>, down: NodeId -> nat)
    requires ListedDown(fs, down) && Ranked(AsListed(fs), RankListed(down))
    ensures SshWalk(fs, test, id, base, parts, down)
         == Walk(AsListed(fs), test, ListedId(fs, id), base, parts, visited, RankListed(down))
    decreases SshRank(id, down), |parts|, 1, 0
  {
    if parts != [] {
      if parts[0] == STAR_STAR && |parts| > 1 {
        SshWalksListed(fs, test, id, base, parts[1..], visited, down);
      }
      ListedListing(fs, id);
      SshEntriesListed(fs, test, id, base, parts, visited, 0, down);
    }
  }

  lemma {:induction false} SshEntriesListed(fs: Fs, test: Test, id: Option<NodeId>, base: Path, parts: seq<JsString>,
                                            visited: set<Key>, i: nat, down: NodeId -> nat)
    requires ListedDown(fs, down) && Ranked(AsListed(fs), RankListed(down)) && parts != []
    requires Listing(AsListed(fs), ListedId(fs, id)) == ListedEntries(fs, SshListing(fs, id))
    requires i <= |SshListing(fs, id)|
    ensures SshWalkEntries(fs, test, id, base, parts, i, down)
         == WalkEntries(AsListed(fs), test, ListedId(fs, id), base, parts, visited, i, RankListed(down))
    decreases SshRank(id, down), |parts|, 0, |SshListing(fs, id)| - i
  {
    if i < |SshListing(fs, id)| {
      var e := SshListing(fs, id)[i];
      assert Listing(AsListed(fs), ListedId(fs, id))[i] == ListedEntry(fs, e);
      ListedKinds(fs, e);
      if e.listedAsDir {
        assert e in SshListing(fs, id);
        var full, rest := base + [e.name], if parts[0] == STAR_STAR then parts else parts[1..];
        SshWalksListed(fs, test, e.target, full, rest, visited, down);
      }
      SshEntriesListed(fs, test, id, base, parts, visited, i + 1, down);
    }
  }

  /** The SSH search yields a path exactly when its names match the pattern through entries listed as directories, where
      a last `**` and a last plain part take every other entry as well. */
  lemma SshYields(fs: Fs, test: Test, root: NodeId, parts: seq<JsString>, down: NodeId -> nat, p: Path)
    requires ListedDown(fs, down)
    ensures p in SshWalk(fs, test, Some(root), [], parts, down)
       <==> Hit(AsListed(fs), test, ListedId(fs, Some(root)), parts, p, {})
  {
    ListedRanked(fs, down);
    SshWalksListed(fs, test, Some(root), [], parts, {}, down);
    WalkYields(AsListed(fs), test, ListedId(fs, Some(root)), [], parts, {}, RankListed(down), p);
    assert p[0..] == p;
  }
}

/** The recursive glob walk over a directory graph, with its cycle check (local) and without it (SSH). */
module GlobWalk {
  import opened Units
  import opened Chars

  // ----- File systems -----

  type Name = JsString

  type Path = seq<Name>

  type NodeId = nat

  /** `listedAsDir` is what the listing itself says of the entry, without following links; `target` is the node that the
      path of the entry leads to, following links, and none when `stat` fails. */
  datatype Entry = Entry(name: Name, listedAsDir: bool, target: Option<NodeId>)

  datatype Node = File | Dir(dev: nat, ino: nat, readable: bool, entries: seq<Entry>)

  type Fs = map<NodeId, Node>

  datatype Key = Key(dev: nat, ino: nat)

  /** `cycleKey`. */
  function CycleKey(n: Node): Option<Key>
    requires n.Dir?
  {
    if n.ino == 0 then None else Some(Key(n.dev, n.ino))
  }

  /** What `readdir` lists; nothing where it fails. */
  function Listing(fs: Fs, id: NodeId): seq<Entry> {
    if id in fs && fs[id].Dir? && fs[id].readable then fs[id].entries else []
  }

  predicate IsDir(fs: Fs, e: Entry) {
    e.target.Some? && e.target.value in fs && fs[e.target.value].Dir?
  }

  predicate IsFile(fs: Fs, e: Entry) {
    e.target.Some? && e.target.value in fs && fs[e.target.value].File?
  }

  predicate MayEnter(fs: Fs, e: Entry, visited: set<Key>)
    requires IsDir(fs, e)
  {
    var key := CycleKey(fs[e.target.value]);
    key.None? || key.value !in visited
  }

  function Visit(fs: Fs, e: Entry, visited: set<Key>): set<Key>
    requires IsDir(fs, e)
  {
    var key := CycleKey(fs[e.target.value]);
    if key.None? then visited else visited + {key.value}
  }

  function DirKeys(fs: Fs): set<Key> {
    set id | id in fs && fs[id].Dir? && fs[id].ino != 0 :: Key(fs[id].dev, fs[id].ino)
  }

  /** Directories without an inode number lie on no cycle of their own: descending into one lowers the rank. */
  ghost predicate Ranked(fs: Fs, rank: NodeId -> nat) {
    forall id, e | e in Listing(fs, id) && IsDir(fs, e) && fs[e.target.value].ino == 0 ::
      rank(e.target.value) < rank(id)
  }

  // ----- The walks -----

  const STAR_STAR: JsString := [STAR, STAR]

  /** The test of a name against the regular expression of one part of the pattern. */
  type Test = (JsString, Name) -> bool

  /** `LocalKaos._globWalk`: the paths it yields, in order. */
  function Walk(fs: Fs, test: Test, id: NodeId, base: Path, parts: seq<JsString>, visited: set<Key>,
                ghost rank: NodeId -> nat): seq<Path>
    requires Ranked(fs, rank)
    decreases DirKeys(fs) - visited, rank(id), |parts|, 1, 0
  {
    if parts == [] then []
    else if parts[0] == STAR_STAR then
      (if |parts| > 1 then Walk(fs, test, id, base, parts[1..], visited, rank) else [base])
      + WalkEntries(fs, test, id, base, parts, visited, 0, rank)
    else WalkEntries(fs, test, id, base, parts, visited, 0, rank)
  }

  function WalkEntries(fs: Fs, test: Test, id: NodeId, base: Path, parts: seq<JsString>, visited: set<Key>, i: nat,
                       ghost rank: NodeId -> nat): seq<Path>
    requires Ranked(fs, rank) && parts != [] && i <= |Listing(fs, id)|
    decreases DirKeys(fs) - visited, rank(id), |parts|, 0, |Listing(fs, id)| - i
  {
    if i == |Listing(fs, id)| then []
    else
      var e := Listing(fs, id)[i];
      var fullPath := base + [e.name];
      var found :=
        if parts[0] == STAR_STAR then
          if IsDir(fs, e) then
            if MayEnter(fs, e, visited) then
              Walk(fs, test, e.target.value, fullPath, parts, Visit(fs, e, visited), rank)
            else []
          else if IsFile(fs, e) && |parts| == 1 then [fullPath]
          else []
        else if !test(parts[0], e.name) then []
        else if |parts| == 1 then [fullPath]
        else if IsDir(fs, e) && MayEnter(fs, e, visited) then
          Walk(fs, test, e.target.value, fullPath, parts[1..], Visit(fs, e, visited), rank)
        else [];
      found + WalkEntries(fs, test, id, base, parts, visited, i + 1, rank)
  }

  /** The key of the base directory. */
  function RootKeys(fs: Fs, root: NodeId): set<Key> {
    if root in fs && fs[root].Dir? && CycleKey(fs[root]).Some? then {CycleKey(fs[root]).value} else {}
  }

  /** `LocalKaos.glob`: the walk starts with the base directory visited. */
  function Glob(fs: Fs, test: Test, root: NodeId, parts: seq<JsString>, ghost rank: NodeId -> nat): seq<Path>
    requires Ranked(fs, rank)
  {
    Walk(fs, test, root, [], parts, RootKeys(fs, root), rank)
  }

  /** No directory contains itself, at any depth. */
  ghost predicate Acyclic(fs: Fs, rank: NodeId -> nat) {
    forall id, e | e in Listing(fs, id) && IsDir(fs, e) :: rank(e.target.value) < rank(id)
  }

  /** Entries listed as directories are no links, so that following them always goes down. */
  ghost predicate ListedDown(fs: Fs, rank: NodeId -> nat) {
    forall id, e | e in Listing(fs, id) && e.listedAsDir && e.target.Some? :: rank(e.target.value) < rank(id)
  }

  function SshListing(fs: Fs, id: Option<NodeId>): seq<Entry> {
    if id.Some? then Listing(fs, id.value) else []
  }

  ghost function SshRank(id: Option<NodeId>, rank: NodeId -> nat): nat {
    if id.Some? then rank(id.value) + 1 else 0
  }

  /** `SSHKaos._globWalk`: it never calls `stat`, and takes the kind of an entry from the listing. */
  function SshWalk(fs: Fs, test: Test, id: Option<NodeId>, base: Path, parts: seq<JsString>, ghost rank: NodeId -> nat)
    : seq<Path>
    requires ListedDown(fs, rank)
    decreases SshRank(id, rank), |parts|, 2, 0
  {
    if parts == [] then []
    else if parts[0] == STAR_STAR then
      (if |parts| > 1 then SshWalk(fs, test, id, base, parts[1..], rank) else [base])
      + SshWalkEntries(fs, test, id, base, parts, 0, rank)
    else SshWalkEntries(fs, test, id, base, parts, 0, rank)
  }

  function SshWalkEntries(fs: Fs, test: Test, id: Option<NodeId>, base: Path, parts: seq<JsString>, i: nat,
                          ghost rank: NodeId -> nat): seq<Path>
    requires ListedDown(fs, rank) && parts != [] && i <= |SshListing(fs, id)|
    decreases SshRank(id, rank), |parts|, 1, |SshListing(fs, id)| - i
  {
    if i == |SshListing(fs, id)| then []
    else
      SshEntry(fs, test, id, SshListing(fs, id)[i], base, parts, rank)
      + SshWalkEntries(fs, test, id, base, parts, i + 1, rank)
  }

  /** The body of the loop. */
  function SshEntry(fs: Fs, test: Test, ghost id: Option<NodeId>, e: Entry, base: Path, parts: seq<JsString>,
                    ghost rank: NodeId -> nat): seq<Path>
    requires ListedDown(fs, rank) && parts != [] && e in SshListing(fs, id)
    decreases SshRank(id, rank), |parts|, 0, 0
  {
    var fullPath := base + [e.name];
    if parts[0] == STAR_STAR then
      if e.listedAsDir then SshWalk(fs, test, e.target, fullPath, parts, rank)
      else if |parts| == 1 then [fullPath]
      else []
    else if !test(parts[0], e.name) then []
    else if |parts| == 1 then [fullPath]
    else if e.listedAsDir then SshWalk(fs, test, e.target, fullPath, parts[1..], rank)
    else []
  }

  // ----- Where the listing tells the truth, both walks agree -----

  /** Different directories have different keys. */
  ghost predicate DistinctKeys(fs: Fs) {
    forall a, b | a in fs && b in fs && fs[a].Dir? && fs[b].Dir? && fs[a].ino != 0
                  && CycleKey(fs[a]) == CycleKey(fs[b]) :: a == b
  }

  /** Every visited key belongs to the directory `id` or to one above it. */
  ghost predicate VisitedAbove(fs: Fs, id: NodeId, visited: set<Key>, rank: NodeId -> nat) {
    forall d | d in fs && fs[d].Dir? && CycleKey(fs[d]).Some? && CycleKey(fs[d]).value in visited ::
      rank(d) >= rank(id)
  }

  lemma EnterBelow(fs: Fs, id: NodeId, e: Entry, visited: set<Key>, rank: NodeId -> nat)
    requires DistinctKeys(fs) && VisitedAbove(fs, id, visited, rank)
    requires IsDir(fs, e) && rank(e.target.value) < rank(id)
    ensures MayEnter(fs, e, visited) && VisitedAbove(fs, e.target.value, Visit(fs, e, visited), rank)
  {
  }

  /** `stat` succeeds, and finds a directory exactly where the listing names one: the entry is no link to a directory,
      and no dangling link. */
  predicate IsFaithful(fs: Fs, e: Entry) {
    (IsDir(fs, e) || IsFile(fs, e)) && e.listedAsDir == IsDir(fs, e)
  }

  /** Following entries listed as directories from `id` by `names` leads to `d`. */
  ghost predicate ListedPath(fs: Fs, id: NodeId, names: Path, d: NodeId)
    decreases |names|
  {
    if names == [] then d == id
    else
      exists e | e in Listing(fs, id) ::
        && e.name == names[0] && e.listedAsDir && e.target.Some?
        && ListedPath(fs, e.target.value, names[1..], d)
  }

  /** All entries below `id` are faithful. */
  ghost predicate FaithfulBelow(fs: Fs, id: NodeId) {
    forall names, d, e | ListedPath(fs, id, names, d) && e in Listing(fs, d) :: IsFaithful(fs, e)
  }

  lemma FaithfulEntry(fs: Fs, id: NodeId, e: Entry)
    requires FaithfulBelow(fs, id) && e in Listing(fs, id)
    ensures IsFaithful(fs, e)
    ensures e.listedAsDir ==> FaithfulBelow(fs, e.target.value)
  {
    assert ListedPath(fs, id, [], id);
    if e.listedAsDir {
      forall names, d, x | ListedPath(fs, e.target.value, names, d) && x in Listing(fs, d)
        ensures IsFaithful(fs, x)
      {
        assert ([e.name] + names)[1..] == names;
        assert ListedPath(fs, id, [e.name] + names, d);
      }
    }
  }

  lemma {:induction false} WalksAgree(fs: Fs, test: Test, id: NodeId, base: Path, parts: seq<JsString>,
                                      visited: set<Key>, rank: NodeId -> nat, down: NodeId -> nat)
    requires Ranked(fs, rank) && ListedDown(fs, down) && DistinctKeys(fs)
    requires VisitedAbove(fs, id, visited, down) && FaithfulBelow(fs, id)
    ensures Walk(fs, test, id, base, parts, visited, rank) == SshWalk(fs, test, Some(id), base, parts, down)
    decreases down(id), |parts|, 1, 0
  {
    if parts != [] {
      if parts[0] == STAR_STAR && |parts| > 1 {
        WalksAgree(fs, test, id, base, parts[1..], visited, rank, down);
      }
      EntriesAgree(fs, test, id, base, parts, visited, 0, rank, down);
    }
  }

  lemma {:induction false} EntriesAgree(fs: Fs, test: Test, id: NodeId, base: Path, parts: seq<JsString>,
                                        visited: set<Key>, i: nat, rank: NodeId -> nat, down: NodeId -> nat)
    requires Ranked(fs, rank) && ListedDown(fs, down) && DistinctKeys(fs)
    requires VisitedAbove(fs, id, visited, down) && FaithfulBelow(fs, id)
    requires parts != [] && i <= |Listing(fs, id)|
    ensures WalkEntries(fs, test, id, base, parts, visited, i, rank)
         == SshWalkEntries(fs, test, Some(id), base, parts, i, down)
    decreases down(id), |parts|, 0, |Listing(fs, id)| - i
  {
    if i < |Listing(fs, id)| {
      var e := Listing(fs, id)[i];
      FaithfulEntry(fs, id, e);
      if IsDir(fs, e) {
        EnterBelow(fs, id, e, visited, down);
        var inside := Visit(fs, e, visited);
        if parts[0] == STAR_STAR {
          WalksAgree(fs, test, e.target.value, base + [e.name], parts, inside, rank, down);
        } else {
          WalksAgree(fs, test, e.target.value, base + [e.name], parts[1..], inside, rank, down);
        }
      }
      EntriesAgree(fs, test, id, base, parts, visited, i + 1, rank, down);
    }
  }

  lemma RootAbove(fs: Fs, root: NodeId, rank: NodeId -> nat)
    requires DistinctKeys(fs)
    ensures VisitedAbove(fs, root, RootKeys(fs, root), rank)
  {
  }

  /** Where no entry is a link to a directory and none dangles, the cycle check prunes nothing: the local search yields
      what the SSH search yields, in the same order. */
  lemma CycleCheckPrunesNothing(fs: Fs, test: Test, root: NodeId, parts: seq<JsString>, rank: NodeId -> nat,
                                down: NodeId -> nat)
    requires Ranked(fs, rank) && ListedDown(fs, down) && DistinctKeys(fs) && FaithfulBelow(fs, root)
    ensures Glob(fs, test, root, parts, rank) == SshWalk(fs, test, Some(root), [], parts, down)
  {
    RootAbove(fs, root, down);
    WalksAgree(fs, test, root, [], parts, RootKeys(fs, root), rank, down);
  }
}

/** The install tree on disk, with files that several directories can share (raisin_ota/install_tree.py, and the
    extraction in raisin_ota/client.py).

    A staged tree starts as a hardlink clone of the live one: its directory has the same file nodes in it, and a
    write through one name is seen through every other.  Every method here works by single changes of the file
    system, which are logged; after each of them the directories hold what the same changes make of directories
    that hold values. */
module SharedTrees {
  import opened Wrappers
  import opened InstallTree
  import opened InstallWrites
  import opened InstallRuns
  import opened VersionOrder
  import C = InstallCrashes
  import T = InstallTransaction

  class FileNode {
    var content: Content

    constructor (content: Content)
      ensures this.content == content
    {
      this.content := content;
    }
  }

  type Directory = map<Path, FileNode>

  datatype Entry = Nothing | LeadsTo(target: Version) | Folder(directory: Directory)

  function Contents(dir: Directory): Tree
    reads dir.Values
  {
    map p | p in dir :: dir[p].content
  }

  /** None of the nodes has other content now. */
  twostate predicate Unwritten(nodes: set<FileNode>)
    reads nodes
  {
    forall n :: n in nodes ==> n.content == old(n.content)
  }

  twostate lemma ContentsKept(dir: Directory)
    requires Unwritten(dir.Values)
    ensures Contents(dir) == old(Contents(dir))
  {
    forall p | p in dir
      ensures dir[p].content == old(dir[p].content)
    {
      assert dir[p] in dir.Values;
    }
  }

  /** What is not at or below a path of the directory. */
  function Cleared(tree: Directory, dir: Path): Directory {
    map p | p in tree && !(dir <= p) :: tree[p]
  }

  /** Whatever is called a staging marker is an empty file. */
  ghost predicate MarkersEmpty(d: Disk) {
    && (forall v :: v in d.versions ==> MarkerEmpty(d.versions[v]))
    && (d.link.RealDirectory? ==> MarkerEmpty(d.link.tree))
  }

  ghost predicate MarkerEmpty(tree: Tree) {
    MARKER in tree ==> tree[MARKER] == EMPTY
  }

  // ---------------------------------------------------------------------------------------------
  // The specification, in the steps the methods take

  lemma StagedTree(d0: Disk, r: T.Request)
    ensures var v := Staging(d0, r.version);
            v in Stage(d0, r.version).versions && Stage(d0, r.version).versions[v] == LiveTree(d0)[MARKER := EMPTY]
  {
  }

  lemma StagedAs(d0: Disk, r: T.Request, tree: Tree)
    ensures Edited(Stage(d0, r.version), Staging(d0, r.version), tree) == T.WithStaged(d0, r, tree)
  {
  }

  lemma RestagedAs(d0: Disk, r: T.Request, a: Tree, b: Tree)
    ensures var d, v := T.WithStaged(d0, r, a), Staging(d0, r.version);
            v in d.versions && d.versions[v] == a && Edited(d, v, b) == T.WithStaged(d0, r, b)
  {
  }

  lemma FourParts(a: seq<Write>, b: seq<Write>, c: seq<Write>, d: seq<Write>)
    ensures a + b + c + d == a + (b + (c + d))
  {
  }

  lemma FiveParts(a: seq<Write>, b: seq<Write>, c: seq<Write>, d: seq<Write>, e: seq<Write>)
    ensures a + (b + ((c + d) + e)) == a + (b + c) + (d + e)
  {
  }

  /** What is removed is what is not kept. */
  lemma PrunedAway(d: Disk, keep: int, gone: set<Version>)
    requires Less(d, gone) == Prune(d, keep) && gone <= d.versions.Keys
    ensures gone == d.versions.Keys - Kept(d, keep)
  {
    assert forall v :: v in Prune(d, keep).versions <==> v in d.versions && v in Kept(d, keep);
    assert forall v :: v in Less(d, gone).versions <==> v in d.versions && v !in gone;
  }

  lemma BothRemovals(a: seq<Removal>, b: seq<Removal>)
    requires Different(a) && Different(b) && Victims(a) !! Victims(b)
    ensures Different(a + b) && Victims(a + b) == Victims(a) + Victims(b)
    ensures PruneWrites(a + b) == PruneWrites(a) + PruneWrites(b)
  {
    PruneWritesConcat(a, b);
    forall i, j | 0 <= i < |a| && 0 <= j < |b|
      ensures a[i].v != b[j].v
    {
      assert a[i] in a && b[j] in b;
    }
    assert forall g: Removal :: g in a + b <==> g in a || g in b;
  }

  /** The disk and the names when all packages have been tried. */
  ghost function FetchedDisk(d0: Disk, r: T.Request): (Disk, set<string>) {
    (T.WithStaged(d0, r, T.Fetched(d0, r).0), T.Fetched(d0, r).1)
  }

  ghost predicate Gathered(d0: Disk, r: T.Request, clone: seq<Path>, clears: seq<seq<Path>>) {
    && Covers(clone, LiveTree(d0).Keys)
    && C.FetchOrders(LiveTree(d0)[MARKER := EMPTY], r.packages, r.filter, r.slot, clears)
  }

  ghost function GatherWrites(d0: Disk, r: T.Request, clone: seq<Path>, clears: seq<seq<Path>>): seq<Write>
    requires |clears| == |r.packages|
  {
    StageWrites(d0, r.version, clone)
    + C.FetchWrites(Staging(d0, r.version), r.packages, r.filter, r.slot, clears)
  }

  ghost function AfterCommit(d: Disk, r: T.Request): Disk {
    Commit(d, r.version, Some(r.session)).1
  }

  /** What follows a commit. */
  ghost function Concluding(d: Disk, r: T.Request, requested: set<string>): (T.Outcome, Disk) {
    if T.Broken(LiveTree(d), requested, r.slot) != {} then (T.Unhealthy, Rollback(d))
    else (T.Installed({}), Prune(d, r.keep))
  }

  ghost function ConclusionWrites(d: Disk, r: T.Request, requested: set<string>, removals: seq<Removal>): seq<Write> {
    if T.Broken(LiveTree(d), requested, r.slot) != {} then RollbackWrites(d) else PruneWrites(removals)
  }

  /** The commit, and what follows it. */
  ghost function Switching(d: Disk, r: T.Request, requested: set<string>): (T.Outcome, Disk) {
    if Resolve(d, r.version).None? then (T.NotCommitted, Discard(d, r.version))
    else Concluding(AfterCommit(d, r), r, requested)
  }

  ghost function SwitchWrites(d: Disk, r: T.Request, requested: set<string>, discard: seq<Path>,
                              removals: seq<Removal>): seq<Write>
  {
    match Resolve(d, r.version)
    case None => DiscardWrites(d, r.version, discard)
    case Some(target) =>
      CommitWrites(d, target, Some(r.session)) + ConclusionWrites(AfterCommit(d, r), r, requested, removals)
  }

  /** The staged tree is rid of what is not listed; the commit, and what follows it. */
  ghost function Completing(d0: Disk, r: T.Request): (T.Outcome, Disk) {
    var (outcome, d') := Switching(T.WithStaged(d0, r, T.Finished(d0, r)), r, T.Requested(r.packages, r.filter));
    (if outcome.Installed? then T.Installed(T.Fetched(d0, r).1) else outcome, d')
  }

  ghost function CompleteWrites(d0: Disk, r: T.Request, drops: seq<Path>, discard: seq<Path>, removals: seq<Removal>)
    : seq<Write>
  {
    (if r.filter == {} then Removes(Staging(d0, r.version), drops) else [])
    + SwitchWrites(T.WithStaged(d0, r, T.Finished(d0, r)), r, T.Requested(r.packages, r.filter), discard, removals)
  }

  /** The names and the directories that go at the end are the right ones. */
  ghost predicate Closed(d0: Disk, r: T.Request, drops: seq<Path>, removals: seq<Removal>) {
    && (r.filter == {} ==>
          Covers(drops, C.DroppedNames(T.Fetched(d0, r).0, T.Requested(r.packages, r.filter), r.slot)))
    && (Completing(d0, r).0.Installed? ==>
          Prunes(AfterCommit(T.WithStaged(d0, r, T.Finished(d0, r)), r), r.keep, removals))
  }

  lemma CommitParts(before: seq<Write>, d: Disk, target: Version, attempt: Option<string>)
    ensures before + [RemoveName(target, MARKER), Point(target)]
            + (if MovesPrevious(d, target, attempt) then WritesPrevious(Current(d)) else [])
            + WritesSession(attempt) ==
            before + CommitWrites(d, target, attempt)
  {
  }

  lemma RollbackParts(before: seq<Write>, d: Disk)
    ensures before + RollbackWrites(d) ==
            if Previous(d).None? then before
            else before + [Point(Previous(d).value)] + WritesPrevious(Predecessor(d, Previous(d).value))
  {
  }

  lemma CloneParts(before: seq<Write>, d: Disk, v: Version, order: seq<Path>)
    ensures before + CloneWrites(d, v, order) ==
            if Current(d).Some? then before + [MakeDir(v)] + Links(v, Current(d).value, order)
            else before + [MakeDir(v)]
  {
  }

  lemma NothingRemoved(d: Disk, before: seq<Write>)
    ensures Victims([]) == {} && Less(d, Victims([])) == d && before + PruneWrites([]) == before
  {
    LessNothing(d);
  }

  lemma AllPending(d: Disk, safe: set<Version>, order: seq<Version>)
    ensures AbandonedIn(d, safe) - d.versions.Keys == {} && order[0..] == order
    ensures [] + Surviving(order, AbandonedIn(d, safe)) == Surviving(order, AbandonedIn(d, safe))
  {
  }

  lemma NothingPending(gone: set<Version>, order: seq<Version>, committed: seq<Version>, pending: set<Version>)
    requires Pending(order[|order|..], pending)
    ensures gone - pending == gone && committed + Surviving(order[|order|..], gone) == committed
  {
    assert pending == {};
  }

  /** The write sequence of an install is that of its parts. */
  lemma IncompleteSteps(before: seq<Write>, d: Disk, r: T.Request, o: C.Orders)
    requires Gathered(Ensure(d), r, o.clone, o.clears) && !C.AllFetched(Ensure(d), r)
    ensures C.Orderly(d, r, o)
    ensures before + C.InstallSteps(d, r, o) ==
            before + (EnsureWrites(d) + GatherWrites(Ensure(d), r, o.clone, o.clears))
            + DiscardWrites(FetchedDisk(Ensure(d), r).0, r.version, o.discard)
  {
    var d0 := Ensure(d);
    var gather, closing := GatherWrites(d0, r, o.clone, o.clears), C.ClosingWrites(d0, r, o);
    GatherIsStaged(d0, r, o);
    FourParts(before, EnsureWrites(d), gather, closing);
    WritesAssociative(before, EnsureWrites(d), gather);
  }

  /** Staging is over when the packages have been fetched and, if all of them were, what is not listed is gone. */
  lemma GatherIsStaged(d0: Disk, r: T.Request, o: C.Orders)
    requires |o.clears| == |r.packages|
    ensures C.StagedWrites(d0, r, o) ==
            GatherWrites(d0, r, o.clone, o.clears)
            + (if C.Tidies(d0, r) then Removes(Staging(d0, r.version), o.drops) else [])
  {
  }

  lemma ClosingIsSwitch(d0: Disk, r: T.Request, o: C.Orders)
    requires C.AllFetched(d0, r)
    ensures C.ClosingWrites(d0, r, o) ==
            SwitchWrites(T.WithStaged(d0, r, T.Finished(d0, r)), r, T.Requested(r.packages, r.filter), o.discard,
                         o.removals)
  {
    T.StagedTakesNewest(d0, r, T.Finished(d0, r));
  }

  lemma CompletingIsInstall(d: Disk, r: T.Request)
    requires C.AllFetched(Ensure(d), r)
    ensures Completing(Ensure(d), r) == T.Install(d, r)
  {
  }

  lemma ClosedIsOrderly(d: Disk, r: T.Request, o: C.Orders)
    requires Gathered(Ensure(d), r, o.clone, o.clears) && C.AllFetched(Ensure(d), r)
    requires Closed(Ensure(d), r, o.drops, o.removals)
    ensures C.Orderly(d, r, o)
  {
    C.OutcomeOfCheck(d, r);
    CompletingIsInstall(d, r);
  }

  lemma CompleteSteps(before: seq<Write>, d: Disk, r: T.Request, o: C.Orders)
    requires Gathered(Ensure(d), r, o.clone, o.clears) && C.AllFetched(Ensure(d), r)
    requires Closed(Ensure(d), r, o.drops, o.removals)
    ensures C.Orderly(d, r, o) && Completing(Ensure(d), r) == T.Install(d, r)
    ensures before + C.InstallSteps(d, r, o) ==
            before + (EnsureWrites(d) + GatherWrites(Ensure(d), r, o.clone, o.clears))
            + CompleteWrites(Ensure(d), r, o.drops, o.discard, o.removals)
  {
    var d0 := Ensure(d);
    var gather, closing := GatherWrites(d0, r, o.clone, o.clears), C.ClosingWrites(d0, r, o);
    var tidy := if r.filter == {} then Removes(Staging(d0, r.version), o.drops) else [];
    ClosedIsOrderly(d, r, o);
    CompletingIsInstall(d, r);
    GatherIsStaged(d0, r, o);
    ClosingIsSwitch(d0, r, o);
    FiveParts(before, EnsureWrites(d), gather, tidy, closing);
  }

  class Release {
    var versions: map<Version, Directory>
    var link: Entry
    var previous: Option<Version>
    var session: Option<string>

    /** What the disk holds, sharing forgotten; what it held at first; and every change since. */
    ghost var disk: Disk
    ghost const start: Disk
    ghost var log: seq<Write>

    ghost function Nodes(): set<FileNode>
      reads this
    {
      (set v, n | v in versions && n in versions[v].Values :: n)
      + if link.Folder? then link.directory.Values else {}
    }

    ghost function LinkState(): Link
      reads this, Nodes()
    {
      match link
      case Nothing => NoLink
      case LeadsTo(v) => LinkTo(v)
      case Folder(dir) => RealDirectory(Contents(dir))
    }

    ghost function Trees(): map<Version, Tree>
      reads this, Nodes()
    {
      map v | v in versions :: Contents(versions[v])
    }

    ghost function State(): Disk
      reads this, Nodes()
    {
      Disk(Trees(), LinkState(), previous, session)
    }

    ghost predicate Valid()
      reads this, Nodes()
      ensures Valid() ==> disk == State() && disk.versions.Keys == versions.Keys
    {
      disk == State() && disk == ApplyAll(start, log) && MarkersEmpty(disk) && DistinctGens(disk)
    }

    constructor ()
      ensures Valid() && disk == start == Disk(map[], NoLink, None, None) && log == []
    {
      versions, link, previous, session := map[], Nothing, None, None;
      start, disk, log := Disk(map[], NoLink, None, None), Disk(map[], NoLink, None, None), [];
    }

    // -------------------------------------------------------------------------------------------
    // Looking

    function CurrentDir(): (v: Option<Version>)
      reads this, Nodes()
      ensures Valid() ==> v == Current(disk)
    {
      if link.LeadsTo? && link.target in versions then Some(link.target) else None
    }

    function PreviousDir(): (v: Option<Version>)
      reads this, Nodes()
      ensures Valid() ==> v == Previous(disk)
    {
      if previous.Some? && previous.value in versions then previous else None
    }

    function LiveDir(): Directory
      reads this
    {
      if link.LeadsTo? && link.target in versions then versions[link.target] else map[]
    }

    lemma LiveDirHoldsLiveTree()
      ensures LiveDir().Values <= Nodes() && Contents(LiveDir()) == LiveTree(State())
    {
    }

    lemma HoldsTree(v: Version)
      requires Valid() && v in versions
      ensures versions[v].Keys == disk.versions[v].Keys && Contents(versions[v]) == disk.versions[v]
    {
    }

    // -------------------------------------------------------------------------------------------
    // Keeping the log

    ghost method Record(w: Write)
      requires State() == Apply(disk, w) && disk == ApplyAll(start, log)
      requires MarkersEmpty(Apply(disk, w)) && DistinctGens(Apply(disk, w))
      modifies `disk, `log
      ensures Valid() && disk == Apply(old(disk), w) && log == old(log) + [w]
    {
      ApplyAllConcat(start, log, [w]);
      ApplyOne(disk, w);
      disk, log := Apply(disk, w), log + [w];
    }

    /** What the log says happened is what happened. */
    twostate lemma Replayed(ws: seq<Write>)
      requires old(Valid()) && Valid() && log == old(log) + ws
      ensures disk == ApplyAll(old(disk), ws)
    {
      ApplyAllConcat(start, old(log), ws);
    }

    // -------------------------------------------------------------------------------------------
    // Single changes inside a directory

    twostate lemma OtherDirectory(v: Version)
      requires v in old(versions) && Unwritten(old(Nodes()))
      ensures Contents(old(versions[v])) == old(Contents(versions[v]))
    {
      assert forall n :: n in old(versions[v].Values) ==> n in old(Nodes());
      ContentsKept(old(versions[v]));
    }

    twostate lemma LinkKept()
      requires unchanged(`link) && Unwritten(old(Nodes()))
      ensures LinkState() == old(LinkState())
    {
      if link.Folder? {
        ContentsKept(link.directory);
      }
    }

    /** Replacing one directory replaces one tree, if no node's content changes. */
    twostate lemma OneDirectory(v: Version, new dir: Directory)
      requires old(Valid()) && versions == old(versions)[v := dir]
      requires unchanged(`link, `previous, `session) && Unwritten(old(Nodes()))
      ensures State() == Edited(old(disk), v, Contents(dir))
    {
      LinkKept();
      forall m | m in old(versions)
        ensures Contents(old(versions[m])) == old(Trees())[m]
      {
        OtherDirectory(m);
      }
      assert Trees() == old(Trees())[v := Contents(dir)];
    }

    method MakeDirectory(v: Version)
      requires Valid() && forall m :: m in versions ==> m.gen < v.gen
      modifies `versions, `disk, `log
      ensures Valid() && log == old(log) + [MakeDir(v)] && disk == Apply(old(disk), MakeDir(v))
      ensures versions == old(versions)[v := map[]]
    {
      versions := versions[v := map[]];
      OneDirectory(v, versions[v]);
      assert Contents(versions[v]) == map[];
      Record(MakeDir(v));
    }

    /** A hardlink: the same node under a name in another directory. */
    method Link(v: Version, from: Version, p: Path)
      requires Valid() && v in versions && from in versions && p in versions[from]
      modifies `versions, `disk, `log
      ensures Valid() && log == old(log) + [LinkFile(v, from, p)]
      ensures versions == old(versions)[v := old(versions[v])[p := old(versions[from])[p]]]
    {
      HoldsTree(from);
      HoldsTree(v);
      versions := versions[v := versions[v][p := versions[from][p]]];
      assert Contents(versions[v]) == old(disk).versions[v][p := old(disk).versions[from][p]];
      OneDirectory(v, versions[v]);
      Record(LinkFile(v, from, p));
    }

    method Remove(v: Version, p: Path)
      requires Valid() && v in versions
      modifies `versions, `disk, `log
      ensures Valid() && log == old(log) + [RemoveName(v, p)] && disk == Apply(old(disk), RemoveName(v, p))
      ensures versions == old(versions)[v := old(versions[v]) - {p}]
    {
      HoldsTree(v);
      versions := versions[v := versions[v] - {p}];
      assert Contents(versions[v]) == old(disk).versions[v] - {p};
      OneDirectory(v, versions[v]);
      Record(RemoveName(v, p));
    }

    method RemoveDirectory(v: Version)
      requires Valid()
      modifies `versions, `disk, `log
      ensures Valid() && log == old(log) + [RemoveDir(v)] && disk == Apply(old(disk), RemoveDir(v))
      ensures versions == old(versions) - {v}
    {
      versions := versions - {v};
      LinkKept();
      assert Trees() == old(Trees()) - {v};
      Record(RemoveDir(v));
    }

    /** The node of this name has no other name anywhere. */
    ghost predicate OnlyName(v: Version, p: Path)
      reads this
      requires v in versions && p in versions[v]
    {
      && (forall q :: q in versions[v] && q != p ==> versions[v][q] != versions[v][p])
      && (forall m :: m in versions && m != v ==> versions[v][p] !in versions[m].Values)
      && (link.Folder? ==> versions[v][p] !in link.directory.Values)
    }

    method PutNew(v: Version, p: Path, content: Content)
      requires Valid() && v in versions && p !in versions[v] && (p == MARKER ==> content == EMPTY)
      modifies `versions, `disk, `log
      ensures Valid() && log == old(log) + [PutFile(v, p, content)] && disk == Apply(old(disk), PutFile(v, p, content))
      ensures v in versions && p in versions[v] && versions[v][p].content == content && fresh(versions[v][p])
      ensures versions == old(versions)[v := old(versions[v])[p := versions[v][p]]]
    {
      HoldsTree(v);
      var node := new FileNode(content);
      versions := versions[v := versions[v][p := node]];
      assert Contents(versions[v]) == old(disk).versions[v][p := content];
      OneDirectory(v, versions[v]);
      Record(PutFile(v, p, content));
    }

    /** A write of what is there already. */
    method PutSame(v: Version, p: Path, content: Content)
      requires Valid() && v in versions && p in versions[v] && versions[v][p].content == content
      modifies `disk, `log, versions[v][p]
      ensures Valid() && log == old(log) + [PutFile(v, p, content)] && disk == Apply(old(disk), PutFile(v, p, content))
      ensures versions[v][p].content == content
    {
      HoldsTree(v);
      versions[v][p].content := content;
      assert Unwritten(Nodes());
      assert versions == versions[v := versions[v]];
      assert old(disk).versions[v][p := content] == old(disk).versions[v];
      ContentsKept(versions[v]);
      OneDirectory(v, versions[v]);
      Record(PutFile(v, p, content));
    }

    method PutInPlace(v: Version, p: Path, content: Content)
      requires Valid() && v in versions && p in versions[v] && OnlyName(v, p) && (p == MARKER ==> content == EMPTY)
      modifies `disk, `log, versions[v][p]
      ensures Valid() && log == old(log) + [PutFile(v, p, content)] && disk == Apply(old(disk), PutFile(v, p, content))
      ensures versions[v][p].content == content
    {
      versions[v][p].content := content;
      WrittenInPlace(v, p, content);
      Record(PutFile(v, p, content));
    }

    /** Writing a new name makes a node.  Writing a name that is there writes the node it has, so what the node's
        other names show must not change: it is the only name, or the node has that content already. */
    method Put(v: Version, p: Path, content: Content)
      requires Valid() && v in versions && (p == MARKER ==> content == EMPTY)
      requires p in versions[v] ==> OnlyName(v, p) || versions[v][p].content == content
      modifies `versions, `disk, `log, if p in versions[v] then {versions[v][p]} else {}
      ensures Valid() && log == old(log) + [PutFile(v, p, content)] && disk == Apply(old(disk), PutFile(v, p, content))
      ensures v in versions && p in versions[v] && versions[v][p].content == content
      ensures versions == old(versions)[v := old(versions[v])[p := versions[v][p]]]
      ensures if p in old(versions[v]) then versions[v][p] == old(versions[v][p]) else fresh(versions[v][p])
    {
      if p !in versions[v] {
        PutNew(v, p, content);
      } else {
        assert versions[v][p := versions[v][p]] == versions[v] && versions[v := versions[v]] == versions;
        if versions[v][p].content == content {
          PutSame(v, p, content);
        } else {
          PutInPlace(v, p, content);
        }
      }
    }

    /** A write to a node with one name changes what is seen under that name only. */
    twostate lemma WrittenInPlace(v: Version, new p: Path, new content: Content)
      requires old(Valid()) && unchanged(`versions, `link, `previous, `session)
      requires v in versions && p in versions[v] && OnlyName(v, p) && versions[v][p].content == content
      requires Unwritten(old(Nodes()) - {versions[v][p]})
      ensures State() == Apply(old(disk), PutFile(v, p, content))
    {
      WrittenElsewhere(v, p);
      forall q | q in versions[v] && q != p
        ensures versions[v][q].content == old(versions[v][q].content)
      {
        assert versions[v][q] in versions[v].Values && versions[v][q] in old(Nodes());
      }
      assert Contents(versions[v]) == old(Contents(versions[v]))[p := content];
      assert Trees() == old(Trees())[v := Contents(versions[v])];
    }

    twostate lemma WrittenElsewhere(v: Version, new p: Path)
      requires unchanged(`versions, `link) && v in versions && p in versions[v] && OnlyName(v, p)
      requires Unwritten(old(Nodes()) - {versions[v][p]})
      ensures forall m :: m in versions && m != v ==> Contents(versions[m]) == old(Contents(versions[m]))
      ensures LinkState() == old(LinkState())
    {
      forall m | m in versions && m != v
        ensures Contents(versions[m]) == old(Contents(versions[m]))
      {
        assert forall n :: n in versions[m].Values ==> n in old(Nodes());
        ContentsKept(versions[m]);
      }
      if link.Folder? {
        ContentsKept(link.directory);
      }
    }

    // -------------------------------------------------------------------------------------------
    // Single changes outside the directories

    method PointAt(v: Version)
      requires Valid()
      modifies `link, `disk, `log
      ensures Valid() && log == old(log) + [Point(v)] && disk == Apply(old(disk), Point(v))
      ensures !old(link.Folder?) ==> Nodes() == old(Nodes())
    {
      link := LeadsTo(v);
      assert Trees() == old(Trees());
      Record(Point(v));
    }

    method UnlinkLive()
      requires Valid()
      modifies `link, `disk, `log
      ensures Valid() && log == old(log) + [Unlink] && disk == Apply(old(disk), Unlink)
      ensures !old(link.Folder?) ==> Nodes() == old(Nodes())
    {
      link := Nothing;
      assert Trees() == old(Trees());
      Record(Unlink);
    }

    twostate lemma AdoptedNodes(v: Version)
      requires old(link.Folder?) && v !in old(versions)
      requires versions == old(versions)[v := old(link.directory)] && link == Nothing
      ensures Nodes() == old(Nodes())
    {
      forall n | n in old(Nodes())
        ensures n in Nodes()
      {
        if n in old(link.directory.Values) {
          assert n in versions[v].Values;
        } else {
          var m :| m in old(versions) && n in old(versions[m].Values);
          assert n in versions[m].Values;
        }
      }
    }

    twostate lemma AdoptedTrees(v: Version)
      requires old(link.Folder?) && versions == old(versions)[v := old(link.directory)] && Unwritten(old(Nodes()))
      ensures Trees() == old(Trees())[v := old(Contents(link.directory))]
    {
      ContentsKept(old(link.directory));
      forall m | m in old(versions)
        ensures Contents(old(versions[m])) == old(Trees())[m]
      {
        OtherDirectory(m);
      }
    }

    /** The directory in the link's place is renamed. */
    method AdoptAs(v: Version)
      requires Valid() && link.Folder? && forall m :: m in versions ==> m.gen < v.gen
      modifies `versions, `link, `disk, `log
      ensures Valid() && log == old(log) + [Adopt(v)] && disk == Apply(old(disk), Adopt(v))
      ensures Nodes() == old(Nodes()) && !link.Folder?
    {
      versions, link := versions[v := link.directory], Nothing;
      AdoptedNodes(v);
      AdoptedTrees(v);
      Record(Adopt(v));
    }

    method StorePrevious(target: Option<Version>)
      requires Valid()
      modifies `previous, `disk, `log
      ensures Valid() && log == old(log) + [SetPrevious(target)] && disk == Apply(old(disk), SetPrevious(target))
    {
      previous := target;
      assert Trees() == old(Trees());
      Record(SetPrevious(target));
    }

    method StoreSession(s: Option<string>)
      requires Valid()
      modifies `session, `disk, `log
      ensures Valid() && log == old(log) + [SetSession(s)] && disk == Apply(old(disk), SetSession(s))
    {
      session := s;
      assert Trees() == old(Trees());
      Record(SetSession(s));
    }

    // -------------------------------------------------------------------------------------------
    // Staging

    ghost function Picked(dir: Directory, names: set<Path>): Directory {
      map p | p in dir && p in names :: dir[p]
    }

    lemma PickedEnds(dir: Directory)
      ensures Picked(dir, {}) == map[] && Picked(dir, dir.Keys) == dir
    {
    }

    /** These files of one directory are what another one has. */
    ghost predicate Cloned(from: Version, to: Version, dirs: map<Version, Directory>, before: seq<Write>,
                           names: set<Path>, order: seq<Path>)
      reads this, Nodes()
    {
      && Valid() && from in dirs && to in dirs && from != to && names <= dirs[from].Keys
      && versions == dirs[to := Picked(dirs[from], names)]
      && log == before + Links(to, from, order) && Covers(order, names)
    }

    method CloneNext(from: Version, to: Version, p: Path, ghost dirs: map<Version, Directory>, ghost before: seq<Write>,
                     ghost names: set<Path>, ghost order: seq<Path>)
      requires Cloned(from, to, dirs, before, names, order) && p in dirs[from]
      modifies `versions, `disk, `log
      ensures Cloned(from, to, dirs, before, names + {p}, order + [p])
    {
      Link(to, from, p);
      NextLink(to, from, order, p);
      WritesAssociative(before, Links(to, from, order), [LinkFile(to, from, p)]);
      ghost var src := dirs[from];
      assert Picked(src, names)[p := src[p]] == Picked(src, names + {p});
    }

    method CloneNames(from: Version, to: Version, names: set<Path>) returns (ghost order: seq<Path>)
      requires Cloned(from, to, versions, log, {}, []) && names <= versions[from].Keys
      modifies `versions, `disk, `log
      ensures Cloned(from, to, old(versions), old(log), names, order)
    {
      var todo := names;
      order := [];
      ghost var done := {};
      while todo != {}
        invariant done + todo == names && Cloned(from, to, old(versions), old(log), done, order)
        decreases |todo|
      {
        var p :| p in todo;
        CloneNext(from, to, p, old(versions), old(log), done, order);
        todo, done, order := todo - {p}, done + {p}, order + [p];
      }
      assert done == names;
    }

    /** The clone links every file of the other tree. */
    method CloneTree(from: Version, to: Version) returns (ghost order: seq<Path>)
      requires Valid() && from in versions && to in versions && from != to && versions[to] == map[]
      modifies `versions, `disk, `log
      ensures Valid() && log == old(log) + Links(to, from, order) && Covers(order, old(versions[from]).Keys)
      ensures versions == old(versions)[to := old(versions[from])]
    {
      PickedEnds(versions[from]);
      assert versions == versions[to := map[]];
      order := CloneNames(from, to, versions[from].Keys);
    }

    /** A directory for the new version, seeded from the live one. */
    method Seed(v: Version) returns (ghost order: seq<Path>)
      requires Valid() && forall m :: m in versions ==> m.gen < v.gen
      modifies `versions, `disk, `log
      ensures Valid() && log == old(log) + CloneWrites(old(disk), v, order)
      ensures Covers(order, LiveTree(old(disk)).Keys)
      ensures versions == old(versions)[v := old(LiveDir())]
    {
      var live := CurrentDir();
      if live.Some? {
        HoldsTree(live.value);
      }
      MakeDirectory(v);
      order := [];
      if live.Some? {
        order := CloneTree(live.value, v);
      }
      CloneParts(old(log), old(disk), v, order);
    }

    /** A marker that came with the clone is empty already, so marking changes no node. */
    method Mark(v: Version)
      requires Valid() && v in versions
      modifies `versions, `disk, `log, versions[v].Values
      ensures Valid() && log == old(log) + [PutFile(v, MARKER, EMPTY)] && Unwritten(old(versions[v].Values))
      ensures v in versions && MARKER in versions[v]
      ensures versions == old(versions)[v := old(versions[v])[MARKER := versions[v][MARKER]]]
    {
      HoldsTree(v);
      if MARKER in versions[v] {
        assert MarkerEmpty(disk.versions[v]) && Contents(versions[v])[MARKER] == versions[v][MARKER].content;
        assert versions[v][MARKER] in versions[v].Values;
      }
      Put(v, MARKER, EMPTY);
    }

    /** The new directory is linked from the live one and marked, without a change to any node. */
    method StageAs(v: Version) returns (ghost order: seq<Path>)
      requires Valid() && v == Staging(disk, v.name)
      modifies `versions, `disk, `log, Nodes()
      ensures Valid() && disk == Stage(old(disk), v.name)
      ensures log == old(log) + StageWrites(old(disk), v.name, order) && Covers(order, LiveTree(old(disk)).Keys)
      ensures Unwritten(old(Nodes()))
      ensures v in versions && MARKER in versions[v] && versions[v] == old(LiveDir())[MARKER := versions[v][MARKER]]
    {
      order := Seed(v);
      Mark(v);
      WritesAssociative(old(log), CloneWrites(old(disk), v, order), [PutFile(v, MARKER, EMPTY)]);
      StageResult(old(disk), v.name, order);
      Replayed(StageWrites(old(disk), v.name, order));
    }

    /** `stage_version`.  Every file but the marker is the live tree's own node. */
    method StageVersion(version: string) returns (v: Version, ghost order: seq<Path>)
      requires Valid()
      modifies `versions, `disk, `log, Nodes()
      ensures Valid() && v == Staging(old(disk), version) && disk == Stage(old(disk), version)
      ensures log == old(log) + StageWrites(old(disk), version, order) && Covers(order, LiveTree(old(disk)).Keys)
      ensures Unwritten(old(Nodes()))
      ensures v in versions && MARKER in versions[v] && versions[v] == old(LiveDir())[MARKER := versions[v][MARKER]]
    {
      var gen := NextGen(versions.Keys, disk);
      v := Version(gen, version);
      order := StageAs(v);
    }

    // -------------------------------------------------------------------------------------------
    // Packages

    /** These names of the directory are gone, and no node is. */
    ghost predicate CutDown(v: Version, dirs: map<Version, Directory>, before: seq<Write>, names: set<Path>,
                            order: seq<Path>)
      reads this, Nodes()
    {
      && Valid() && v in dirs && versions == dirs[v := dirs[v] - names]
      && log == before + Removes(v, order) && Covers(order, names)
    }

    method RemoveNext(v: Version, p: Path, ghost dirs: map<Version, Directory>, ghost before: seq<Write>,
                      ghost names: set<Path>, ghost order: seq<Path>)
      requires CutDown(v, dirs, before, names, order)
      modifies `versions, `disk, `log
      ensures CutDown(v, dirs, before, names + {p}, order + [p])
    {
      Remove(v, p);
      NextRemove(v, order, p);
      WritesAssociative(before, Removes(v, order), [RemoveName(v, p)]);
      assert dirs[v] - names - {p} == dirs[v] - (names + {p});
    }

    method RemoveNames(v: Version, names: set<Path>) returns (ghost order: seq<Path>)
      requires Valid() && v in versions
      modifies `versions, `disk, `log
      ensures CutDown(v, old(versions), old(log), names, order)
    {
      var todo := names;
      order := [];
      ghost var done := {};
      assert versions[v] - {} == versions[v] && versions == versions[v := versions[v]];
      while todo != {}
        invariant done + todo == names && CutDown(v, old(versions), old(log), done, order)
        decreases |todo|
      {
        var p :| p in todo;
        RemoveNext(v, p, old(versions), old(log), done, order);
        todo, done, order := todo - {p}, done + {p}, order + [p];
      }
      assert done == names;
    }

    /** Every file below `dir` is a node in `own` with no second name anywhere. */
    ghost predicate OwnsBelow(v: Version, dir: Path, own: set<FileNode>)
      reads this
    {
      v in versions && forall p :: p in versions[v] && dir <= p ==> versions[v][p] in own && OnlyName(v, p)
    }

    /** A file of its own under one more name, or the file it has under that name already. */
    twostate lemma StillOwned(new v: Version, new dir: Path, new p: Path, own: set<FileNode>)
      requires old(OwnsBelow(v, dir, own)) && unchanged(`link) && v in versions && p in versions[v]
      requires versions == old(versions)[v := old(versions[v])[p := versions[v][p]]]
      requires if p in old(versions[v]) then dir <= p && versions[v][p] == old(versions[v][p])
               else fresh(versions[v][p])
      ensures OwnsBelow(v, dir, own + {versions[v][p]})
    {
    }

    /** If the name is taken, the node is the extraction's own. */
    method PutBelow(v: Version, dir: Path, p: Path, content: Content, ghost own: set<FileNode>)
      returns (ghost own': set<FileNode>)
      requires Valid() && OwnsBelow(v, dir, own) && dir <= p && |dir| > 1
      modifies `versions, `disk, `log, own
      ensures Valid() && OwnsBelow(v, dir, own') && fresh(own' - own)
      ensures log == old(log) + [PutFile(v, p, content)]
    {
      Put(v, p, content);
      StillOwned(v, dir, p, own);
      own' := own + {versions[v][p]};
    }

    /** One file of a package. */
    method WriteBelow(v: Version, dir: Path, p: Path, content: Content, ghost own: set<FileNode>)
      returns (ghost own': set<FileNode>)
      requires Valid() && OwnsBelow(v, dir, own) && dir <= p && |dir| > 1
      modifies `versions, `disk, `log, own
      ensures Valid() && OwnsBelow(v, dir, own') && fresh(own' - own)
      ensures log == old(log) + Puts(v, p, content)
    {
      own' := own;
      if !content.Subdirectory? {
        own' := PutBelow(v, dir, p, EMPTY, own');
      }
      own' := PutBelow(v, dir, p, content, own');
    }

    /** What comes out of the package's archive. */
    method ExtractAll(v: Version, dir: Path, files: seq<(Path, Content)>, ghost own: set<FileNode>)
      returns (ghost own': set<FileNode>)
      requires Valid() && OwnsBelow(v, dir, own) && |dir| > 1
      modifies `versions, `disk, `log, own
      ensures Valid() && OwnsBelow(v, dir, own') && fresh(own' - own)
      ensures log == old(log) + C.Unpacks(v, dir, files)
    {
      own' := own;
      for i := 0 to |files|
        invariant Valid() && OwnsBelow(v, dir, own') && fresh(own' - own)
        invariant log == old(log) + C.Unpacks(v, dir, files[..i])
      {
        C.NextUnpack(v, dir, files, i);
        own' := WriteBelow(v, dir, dir + files[i].0, files[i].1, own');
        WritesAssociative(old(log), C.Unpacks(v, dir, files[..i]), Puts(v, dir + files[i].0, files[i].1));
      }
      assert files[..|files|] == files;
    }

    /** What is at or below a path goes. */
    method RemoveBelow(v: Version, dir: Path) returns (ghost order: seq<Path>)
      requires Valid() && v in versions
      modifies `versions, `disk, `log
      ensures Valid() && log == old(log) + Removes(v, order)
      ensures versions == old(versions)[v := Cleared(old(versions[v]), dir)]
      ensures Covers(order, C.Below(old(disk).versions[v], dir))
    {
      HoldsTree(v);
      var names := set p | p in versions[v] && dir <= p;
      order := RemoveNames(v, names);
      assert versions[v] == Cleared(old(versions[v]), dir);
    }

    /** The package's files and, behind a complete set, its metadata, when nothing is below its directory. */
    method Fill(v: Version, dir: Path, pkg: T.Package)
      requires Valid() && OwnsBelow(v, dir, {}) && |dir| > 1
      modifies `versions, `disk, `log
      ensures Valid() && log == old(log) + (C.Unpacks(v, dir, pkg.files) + C.Recorded(v, dir, pkg))
    {
      ghost var own := ExtractAll(v, dir, pkg.files, {});
      if pkg.whole && pkg.metadataLands {
        own := WriteBelow(v, dir, dir + [T.METADATA_FILE], Metadata(T.ARCHIVE), own);
      }
      WritesAssociative(old(log), C.Unpacks(v, dir, pkg.files), C.Recorded(v, dir, pkg));
    }

    /** The extraction of a package: its directory is cleared before anything is written into it, so whatever it
        writes to is its own, and no node that was there before changes. */
    method Extract(v: Version, dir: Path, pkg: T.Package) returns (ghost order: seq<Path>)
      requires Valid() && v in versions && |dir| > 1
      modifies `versions, `disk, `log
      ensures Valid() && disk == Edited(old(disk), v, T.Extract(old(disk).versions[v], dir, pkg))
      ensures log == old(log) + C.ExtractWrites(v, dir, pkg, order)
      ensures Covers(order, C.Below(old(disk).versions[v], dir))
    {
      order := RemoveBelow(v, dir);
      Fill(v, dir, pkg);
      WritesAssociative(old(log), Removes(v, order), C.Unpacks(v, dir, pkg.files) + C.Recorded(v, dir, pkg));
      C.ExtractResult(old(disk), v, dir, pkg, order);
      Replayed(C.ExtractWrites(v, dir, pkg, order));
    }

    /** Why directories are cleared first: a write to a file that is still linked would change the live tree's
        file. */
    method WriteWithoutClearing(version: string, p: Path, content: Content) returns (v: Version)
      requires Valid() && p in LiveDir() && p != MARKER
      modifies `versions, `disk, `log, Nodes()
      ensures old(LiveDir())[p].content == content
    {
      LiveDirHoldsLiveTree();
      ghost var order;
      v, order := StageVersion(version);
      assert versions[v][p] == old(LiveDir())[p];
      assert old(LiveDir())[p] in old(LiveDir()).Values;
      versions[v][p].content := content;
    }

    /** The entries of a directory that are directories themselves. */
    function Folders(tree: Directory): (names: set<string>)
      ensures forall n :: n in names <==> exists p :: p in tree && |p| > 1 && p[0] == n
    {
      set p | p in tree && |p| > 1 :: p[0]
    }

    /** The directory without the files of some packages. */
    ghost function Remaining(tree: Directory, gone: set<string>, slot: T.Slot): Directory {
      map p | p in tree && !(p != [] && p[0] in gone && T.PackageDir(p[0], slot) <= p) :: tree[p]
    }

    ghost predicate Unlisted(contents: Tree, name: string, keep: set<string>, slot: T.Slot) {
      name !in keep && T.FromArchive(contents, name, slot)
    }

    ghost function UnlistedIn(contents: Tree, names: set<string>, keep: set<string>, slot: T.Slot): set<string> {
      set n | n in names && Unlisted(contents, n, keep, slot)
    }

    lemma RemainingWithoutOne(tree: Directory, gone: set<string>, name: string, slot: T.Slot)
      ensures Cleared(Remaining(tree, gone, slot), T.PackageDir(name, slot)) == Remaining(tree, gone + {name}, slot)
    {
      forall p | p in tree
        ensures T.PackageDir(name, slot) <= p <==> p != [] && p[0] == name && T.PackageDir(p[0], slot) <= p
      {
        T.FirstComponent(name, slot, p);
      }
    }

    /** Whether an archive brought a package can be read off as long as the package is there. */
    lemma OriginRemains(tree: Directory, gone: set<string>, name: string, slot: T.Slot)
      requires name !in gone
      ensures var q := T.PackageDir(name, slot) + [T.METADATA_FILE];
              var left := Remaining(tree, gone, slot);
              T.FromArchive(Contents(tree), name, slot) <==> q in left && left[q].content == Metadata(T.ARCHIVE)
    {
      T.FirstComponent(name, slot, T.PackageDir(name, slot) + [T.METADATA_FILE]);
    }

    /** The unlisted packages among these entries are gone. */
    ghost predicate DroppedSoFar(v: Version, tree: Directory, before: seq<Write>, done: set<string>, keep: set<string>,
                                 slot: T.Slot, order: seq<Path>)
      reads this, Nodes(), tree.Values
    {
      && Valid() && v in versions && versions[v].Keys <= tree.Keys
      && versions[v] == Remaining(tree, UnlistedIn(Contents(tree), done, keep, slot), slot)
      && log == before + Removes(v, order) && Covers(order, tree.Keys - versions[v].Keys)
    }

    method DropPackage(v: Version, name: string, slot: T.Slot, ghost tree: Directory, ghost gone: set<string>,
                       ghost before: seq<Write>, ghost order: seq<Path>) returns (ghost order': seq<Path>)
      requires Valid() && v in versions && versions[v] == Remaining(tree, gone, slot) && versions[v].Keys <= tree.Keys
      requires log == before + Removes(v, order) && Covers(order, tree.Keys - versions[v].Keys)
      modifies `versions, `disk, `log
      ensures Valid() && v in versions && versions[v] == Remaining(tree, gone + {name}, slot)
      ensures versions[v].Keys <= tree.Keys
      ensures log == before + Removes(v, order') && Covers(order', tree.Keys - versions[v].Keys)
    {
      HoldsTree(v);
      RemainingWithoutOne(tree, gone, name, slot);
      ghost var more := RemoveBelow(v, T.PackageDir(name, slot));
      RemovesConcat(v, order, more);
      WritesAssociative(before, Removes(v, order), Removes(v, more));
      order' := order + more;
    }

    /** One more entry of the staged directory. */
    method DropNext(v: Version, name: string, keep: set<string>, slot: T.Slot, ghost tree: Directory,
                    ghost before: seq<Write>, ghost done: set<string>, ghost order: seq<Path>)
      returns (ghost order': seq<Path>)
      requires DroppedSoFar(v, tree, before, done, keep, slot, order) && name !in done
      modifies `versions, `disk, `log
      ensures DroppedSoFar(v, tree, before, done + {name}, keep, slot, order')
    {
      var q := T.PackageDir(name, slot) + [T.METADATA_FILE];
      ghost var gone := UnlistedIn(Contents(tree), done, keep, slot);
      ghost var gone' := UnlistedIn(Contents(tree), done + {name}, keep, slot);
      OriginRemains(tree, gone, name, slot);
      order' := order;
      if name !in keep && q in versions[v] && versions[v][q].content == Metadata(T.ARCHIVE) {
        assert gone' == gone + {name};
        order' := DropPackage(v, name, slot, tree, gone, before, order);
      } else {
        assert gone' == gone;
      }
    }

    method DropEach(v: Version, names: set<string>, keep: set<string>, slot: T.Slot) returns (ghost order: seq<Path>)
      requires Valid() && v in versions
      modifies `versions, `disk, `log
      ensures DroppedSoFar(v, old(versions[v]), old(log), names, keep, slot, order)
    {
      ghost var tree, done := versions[v], {};
      assert Remaining(tree, UnlistedIn(Contents(tree), done, keep, slot), slot) == tree;
      var todo := names;
      order := [];
      while todo != {}
        invariant done !! todo && done + todo == names && DroppedSoFar(v, tree, old(log), done, keep, slot, order)
        decreases |todo|
      {
        var name :| name in todo;
        order := DropNext(v, name, keep, slot, tree, old(log), done, order);
        todo, done := todo - {name}, done + {name};
      }
      assert done == names;
    }

    lemma AllDropped(tree: Directory, keep: set<string>, slot: T.Slot)
      ensures tree.Keys - Remaining(tree, UnlistedIn(Contents(tree), Folders(tree), keep, slot), slot).Keys ==
              C.DroppedNames(Contents(tree), keep, slot)
    {
      var gone := UnlistedIn(Contents(tree), Folders(tree), keep, slot);
      forall p | p in tree
        ensures T.Dropped(Contents(tree), keep, slot, p) <==> p != [] && p[0] in gone && T.PackageDir(p[0], slot) <= p
      {
        if T.Dropped(Contents(tree), keep, slot, p) {
          assert |p| > 1;
        }
      }
    }

    /** `_prune_packages_the_archive_dropped`. */
    method DropPackages(v: Version, keep: set<string>, slot: T.Slot) returns (ghost order: seq<Path>)
      requires Valid() && v in versions
      modifies `versions, `disk, `log
      ensures Valid() && disk == Edited(old(disk), v, T.DropUnlisted(old(disk).versions[v], keep, slot))
      ensures log == old(log) + Removes(v, order)
      ensures Covers(order, C.DroppedNames(old(disk).versions[v], keep, slot))
    {
      HoldsTree(v);
      AllDropped(versions[v], keep, slot);
      order := DropEach(v, Folders(versions[v]), keep, slot);
      C.DropResult(old(disk), v, keep, slot, order);
      Replayed(Removes(v, order));
    }

    // -------------------------------------------------------------------------------------------
    // The whole tree

    /** `_resolve_version_dir`: the last match, oldest first. */
    method ResolveDir(version: string) returns (found: Option<Version>)
      requires Valid()
      ensures Valid() && found == Resolve(disk, version)
    {
      var order := OldestFirst(versions.Keys);
      found := None;
      for i := 0 to |order|
        invariant found.Some? ==> found.value.name == version && found.value in order[..i]
        invariant forall j :: 0 <= j < i && order[j].name == version ==> found.Some? && order[j].gen <= found.value.gen
      {
        if order[i].name == version {
          found := Some(order[i]);
        }
      }
      ResolvedIs(disk, version, found);
    }

    method NewestDir() returns (v: Option<Version>)
      requires Valid()
      ensures Valid() && v == if disk.versions.Keys == {} then None else Some(Newest(disk.versions.Keys))
    {
      if versions.Keys == {} {
        v := None;
      } else {
        var newest := NewestOf(versions.Keys);
        NewestIsUnique(disk, versions.Keys, newest);
        v := Some(newest);
      }
    }

    /** The pointer file is emptied, then written. */
    method WritePrevious(target: Option<Version>)
      requires Valid()
      modifies `previous, `disk, `log
      ensures Valid() && log == old(log) + WritesPrevious(target)
    {
      StorePrevious(None);
      if target.Some? {
        StorePrevious(target);
      }
    }

    method WriteSession(s: Option<string>)
      requires Valid()
      modifies `session, `disk, `log
      ensures Valid() && log == old(log) + WritesSession(s)
    {
      StoreSession(None);
      if s.Some? && s.value != "" {
        StoreSession(s);
      }
    }

    method TakeMarkerAndPoint(target: Version)
      requires Valid() && target in versions
      modifies `versions, `link, `disk, `log
      ensures Valid() && log == old(log) + [RemoveName(target, MARKER), Point(target)]
    {
      Remove(target, MARKER);
      PointAt(target);
    }

    method MovePrevious(moves: bool, outgoing: Option<Version>)
      requires Valid()
      modifies `previous, `disk, `log
      ensures Valid() && log == old(log) + if moves then WritesPrevious(outgoing) else []
    {
      if moves {
        WritePrevious(outgoing);
      }
    }

    /** The marker, the link, the rollback pointer, the session. */
    method SwitchTo(target: Version, attempt: Option<string>)
      requires Valid() && target in versions
      modifies this
      ensures Valid() && log == old(log) + CommitWrites(old(disk), target, attempt)
    {
      var outgoing := CurrentDir();
      var ownWork := attempt.Some? && attempt.value != "" && attempt == session;
      var moves := outgoing.Some? && outgoing.value != target && !ownWork;
      TakeMarkerAndPoint(target);
      MovePrevious(moves, outgoing);
      WriteSession(attempt);
      CommitParts(old(log), old(disk), target, attempt);
    }

    /** `commit_version`. */
    method CommitVersion(version: string, attempt: Option<string>) returns (live: Option<Version>)
      requires Valid()
      modifies this
      ensures Valid() && (live, disk) == Commit(old(disk), version, attempt)
      ensures log == old(log) + if live.Some? then CommitWrites(old(disk), live.value, attempt) else []
    {
      live := ResolveDir(version);
      if live.Some? {
        SwitchTo(live.value, attempt);
        Replayed(CommitWrites(old(disk), live.value, attempt));
      }
    }

    /** `rollback`. */
    method RollBack() returns (restored: Option<Version>)
      requires Valid()
      modifies `link, `previous, `disk, `log
      ensures Valid() && restored == Previous(old(disk)) && disk == Rollback(old(disk))
      ensures log == old(log) + RollbackWrites(old(disk))
    {
      restored := PreviousDir();
      if restored.Some? {
        var older := BeforeIt(versions.Keys, disk, restored.value);
        PointAt(restored.value);
        WritePrevious(older);
      }
      RollbackParts(old(log), old(disk));
      Replayed(RollbackWrites(old(disk)));
    }

    /** A directory and what is in it. */
    method RemoveAll(v: Version) returns (ghost order: seq<Path>)
      requires Valid() && v in versions
      modifies `versions, `disk, `log
      ensures Valid() && log == old(log) + RemoveTree(v, order)
      ensures disk == old(disk).(versions := old(disk).versions - {v})
    {
      order := RemoveNames(v, versions[v].Keys);
      RemoveDirectory(v);
      RemoveTreeResult(old(disk), v, order);
      Replayed(RemoveTree(v, order));
    }

    /** `discard_staging`. */
    method DiscardStaging(version: string) returns (ghost order: seq<Path>)
      requires Valid()
      modifies `versions, `disk, `log
      ensures Valid() && disk == Discard(old(disk), version)
      ensures log == old(log) + DiscardWrites(old(disk), version, order)
    {
      order := [];
      var target := ResolveDir(version);
      if target.Some? && CurrentDir() != target {
        order := RemoveAll(target.value);
      }
    }

    /** `ensure_tree`, for links of this module's making. */
    method EnsureTree()
      requires Valid()
      modifies `versions, `link, `disk, `log
      ensures Valid() && disk == Ensure(old(disk)) && log == old(log) + EnsureWrites(old(disk))
      ensures Nodes() == old(Nodes())
    {
      var newest := NewestDir();
      if link.Folder? {
        MigrateLegacyTree();
      } else if CurrentDir().None? {
        if newest.Some? {
          PointAt(newest.value);
        } else if link.LeadsTo? {
          UnlinkLive();
        }
      }
      Replayed(EnsureWrites(old(disk)));
    }

    /** `migrate_legacy_tree`: the directory is renamed, and its place taken by a link. */
    method MigrateLegacyTree()
      requires Valid() && link.Folder?
      modifies `versions, `link, `disk, `log
      ensures Valid() && log == old(log) + EnsureWrites(old(disk)) && Nodes() == old(Nodes())
    {
      var gen := NextGen(versions.Keys, disk);
      AdoptAs(Version(gen, LEGACY));
      PointAt(Version(gen, LEGACY));
    }

    function IsStaging(v: Version): (b: bool)
      requires Valid() && v in versions
      reads this, Nodes()
      ensures b == Staged(disk, v)
    {
      MARKER in versions[v]
    }

    /** These directories are gone, and nothing else has changed. */
    ghost predicate Removed(d: Disk, before: seq<Write>, removals: seq<Removal>)
      reads this, Nodes()
    {
      Valid() && disk == Less(d, Victims(removals)) && log == before + PruneWrites(removals) && Different(removals)
    }

    method RemoveOne(v: Version, ghost d: Disk, ghost before: seq<Write>, ghost removals: seq<Removal>)
      returns (ghost removals': seq<Removal>)
      requires Removed(d, before, removals) && v in versions
      modifies `versions, `disk, `log
      ensures Removed(d, before, removals') && Victims(removals') == Victims(removals) + {v}
    {
      LessOne(d, Victims(removals), v);
      ghost var names := RemoveAll(v);
      NextRemoval(removals, Removal(v, names));
      WritesAssociative(before, PruneWrites(removals), RemoveTree(v, names));
      removals' := removals + [Removal(v, names)];
    }

    /** One directory, when those in `pending` have yet to be looked at. */
    method RemoveIfAbandoned(v: Version, safe: set<Version>, ghost d: Disk, ghost before: seq<Write>,
                             ghost pending: set<Version>, ghost removals: seq<Removal>)
      returns (removed: bool, ghost removals': seq<Removal>)
      requires Removed(d, before, removals) && Victims(removals) == AbandonedIn(d, safe) - pending
      requires v in pending && pending <= d.versions.Keys
      modifies `versions, `disk, `log
      ensures removed == (v in AbandonedIn(d, safe))
      ensures Removed(d, before, removals') && Victims(removals') == AbandonedIn(d, safe) - (pending - {v})
    {
      removed, removals' := IsStaging(v) && v !in safe, removals;
      if removed {
        removals' := RemoveOne(v, d, before, removals);
        assert AbandonedIn(d, safe) - (pending - {v}) == AbandonedIn(d, safe) - pending + {v};
      } else {
        assert AbandonedIn(d, safe) - (pending - {v}) == AbandonedIn(d, safe) - pending;
      }
    }

    /** The directories not in `rest` have been looked at: they are gone, or collected oldest first. */
    ghost predicate Sifted(d: Disk, before: seq<Write>, safe: set<Version>, rest: seq<Version>, pending: set<Version>,
                           committed: seq<Version>, all: seq<Version>, removals: seq<Removal>)
      reads this, Nodes()
    {
      && Removed(d, before, removals) && Victims(removals) == AbandonedIn(d, safe) - pending
      && pending <= d.versions.Keys && Pending(rest, pending)
      && committed + Surviving(rest, AbandonedIn(d, safe)) == all
    }

    method SiftNext(order: seq<Version>, i: nat, safe: set<Version>, committed: seq<Version>, ghost d: Disk,
                    ghost before: seq<Write>, ghost pending: set<Version>, ghost all: seq<Version>,
                    ghost removals: seq<Removal>)
      returns (committed': seq<Version>, ghost pending': set<Version>, ghost removals': seq<Removal>)
      requires i < |order| && Sifted(d, before, safe, order[i..], pending, committed, all, removals)
      modifies `versions, `disk, `log
      ensures Sifted(d, before, safe, order[i + 1..], pending', committed', all, removals')
    {
      NextPending(order, i, pending);
      NextSurviving(committed, order, i, AbandonedIn(d, safe));
      var removed;
      removed, removals' := RemoveIfAbandoned(order[i], safe, d, before, pending, removals);
      pending' := pending - {order[i]};
      committed' := if removed then committed else committed + [order[i]];
    }

    /** The abandoned stagings go; what is left is collected, oldest first. */
    method RemoveAbandoned(order: seq<Version>, safe: set<Version>)
      returns (committed: seq<Version>, ghost removals: seq<Removal>)
      requires Valid() && Pending(order, disk.versions.Keys)
      modifies `versions, `disk, `log
      ensures committed == Surviving(order, AbandonedIn(old(disk), safe))
      ensures Removed(old(disk), old(log), removals) && Victims(removals) == AbandonedIn(old(disk), safe)
    {
      committed, removals := [], [];
      ghost var pending, all := disk.versions.Keys, Surviving(order, AbandonedIn(disk, safe));
      NothingRemoved(disk, log);
      AllPending(disk, safe, order);
      for i := 0 to |order|
        invariant Sifted(old(disk), old(log), safe, order[i..], pending, committed, all, removals)
      {
        committed, pending, removals :=
          SiftNext(order, i, safe, committed, old(disk), old(log), pending, all, removals);
      }
      NothingPending(AbandonedIn(old(disk), safe), order, committed, pending);
    }

    method RemoveSome(dirs: seq<Version>, safe: set<Version>) returns (ghost removals: seq<Removal>)
      requires Valid() && Ordered(dirs) && forall v :: v in dirs ==> v in versions
      modifies `versions, `disk, `log
      ensures Removed(old(disk), old(log), removals)
      ensures forall v :: v in Victims(removals) <==> v in dirs && v !in safe
    {
      removals := [];
      NothingRemoved(disk, log);
      for i := 0 to |dirs|
        invariant Removed(old(disk), old(log), removals)
        invariant forall v :: v in Victims(removals) <==> v in dirs[..i] && v !in safe
      {
        if dirs[i] !in safe {
          removals := RemoveOne(dirs[i], old(disk), old(log), removals);
        }
      }
    }

    /** All but the last `keep` go, unless they are safe. */
    method RemoveSurplus(committed: seq<Version>, keep: int, safe: set<Version>, ghost d: Disk)
      returns (ghost removals: seq<Removal>)
      requires Valid() && DistinctGens(d) && safe == Protected(d) && disk == Less(d, AbandonedIn(d, safe))
      requires Pending(committed, d.versions.Keys - AbandonedIn(d, safe))
      modifies `versions, `disk, `log
      ensures Removed(old(disk), old(log), removals) && disk == Prune(d, keep)
      ensures Victims(removals) <= d.versions.Keys - AbandonedIn(d, safe)
      ensures AbandonedIn(d, safe) + Victims(removals) == d.versions.Keys - Kept(d, keep)
    {
      var k := if keep < 1 then 1 else keep;
      var n := if k < |committed| then |committed| - k else 0;
      removals := RemoveSome(committed[..n], safe);
      LessTwice(d, AbandonedIn(d, safe), Victims(removals));
      PrunedIs(d, keep, committed, Victims(removals));
      PrunedAway(d, keep, AbandonedIn(d, safe) + Victims(removals));
    }

    function ProtectedDirs(): (safe: set<Version>)
      requires Valid()
      reads this, Nodes()
      ensures safe == Protected(disk)
    {
      (if CurrentDir().Some? then {CurrentDir().value} else {})
      + (if PreviousDir().Some? then {PreviousDir().value} else {})
    }

    /** `prune_versions`. */
    method PruneVersions(keep: int) returns (ghost removals: seq<Removal>)
      requires Valid()
      modifies `versions, `disk, `log
      ensures Valid() && disk == Prune(old(disk), keep)
      ensures log == old(log) + PruneWrites(removals) && Prunes(old(disk), keep, removals)
    {
      var order := OldestFirst(versions.Keys);
      var safe := ProtectedDirs();
      SurvivingPend(order, disk.versions.Keys, AbandonedIn(disk, safe));
      var committed;
      ghost var first;
      committed, first := RemoveAbandoned(order, safe);
      ghost var second := RemoveSurplus(committed, keep, safe, old(disk));
      removals := first + second;
      BothRemovals(first, second);
      WritesAssociative(old(log), PruneWrites(first), PruneWrites(second));
    }

    // -------------------------------------------------------------------------------------------
    // The transaction

    /** One package of the download loop. */
    method FetchOne(v: Version, pkg: T.Package, filter: set<string>, slot: T.Slot, results: set<string>)
      returns (results': set<string>, ghost order: seq<Path>)
      requires Valid() && v in versions
      modifies `versions, `disk, `log
      ensures Valid() && v in disk.versions && disk == Edited(old(disk), v, disk.versions[v])
      ensures (disk.versions[v], results') == C.ExtractedNext(old(disk).versions[v], results, pkg, filter, slot)
      ensures log == old(log) + C.WritesNext(v, pkg, filter, slot, order)
      ensures T.Wanted(pkg, filter) && pkg.delivered ==>
                Covers(order, C.Below(old(disk).versions[v], T.PackageDir(pkg.name, slot)))
    {
      results', order := results, [];
      if T.Wanted(pkg, filter) && pkg.delivered {
        order := Extract(v, T.PackageDir(pkg.name, slot), pkg);
        if pkg.whole {
          results' := results + {pkg.name};
        }
      } else {
        assert disk.versions[v := disk.versions[v]] == disk.versions;
      }
    }

    /** What the download loop has done when these packages have been tried. */
    ghost predicate FetchedSoFar(d: Disk, before: seq<Write>, v: Version, done: seq<T.Package>, filter: set<string>,
                                 slot: T.Slot, results: set<string>, orders: seq<seq<Path>>)
      reads this, Nodes()
    {
      && Valid() && v in d.versions && v in disk.versions && disk == Edited(d, v, disk.versions[v])
      && (disk.versions[v], results) == T.FetchAll(d.versions[v], {}, done, filter, slot)
      && C.FetchOrders(d.versions[v], done, filter, slot, orders)
      && log == before + C.FetchWrites(v, done, filter, slot, orders)
    }

    method FetchNext(v: Version, pkg: T.Package, filter: set<string>, slot: T.Slot, results: set<string>,
                     ghost d: Disk, ghost before: seq<Write>, ghost done: seq<T.Package>, ghost orders: seq<seq<Path>>)
      returns (results': set<string>, ghost orders': seq<seq<Path>>)
      requires FetchedSoFar(d, before, v, done, filter, slot, results, orders)
      modifies `versions, `disk, `log
      ensures FetchedSoFar(d, before, v, done + [pkg], filter, slot, results', orders')
    {
      ghost var order;
      results', order := FetchOne(v, pkg, filter, slot, results);
      C.FetchAllOneMore(d.versions[v], {}, done, pkg, filter, slot);
      C.FetchOrdersOneMore(d.versions[v], {}, done, pkg, filter, slot, orders, order);
      C.FetchWritesOneMore(v, done, pkg, filter, slot, orders, order);
      WritesAssociative(before, C.FetchWrites(v, done, filter, slot, orders),
                        C.WritesNext(v, pkg, filter, slot, order));
      orders' := orders + [order];
    }

    /** The download loop. */
    method FetchPackages(v: Version, packages: seq<T.Package>, filter: set<string>, slot: T.Slot)
      returns (results: set<string>, ghost orders: seq<seq<Path>>)
      requires Valid() && v in versions
      modifies `versions, `disk, `log
      ensures FetchedSoFar(old(disk), old(log), v, packages, filter, slot, results, orders)
    {
      results, orders := {}, [];
      assert disk.versions[v := disk.versions[v]] == disk.versions;
      for i := 0 to |packages|
        invariant FetchedSoFar(old(disk), old(log), v, packages[..i], filter, slot, results, orders)
      {
        assert packages[..i + 1] == packages[..i] + [packages[i]];
        results, orders := FetchNext(v, packages[i], filter, slot, results, old(disk), old(log), packages[..i], orders);
      }
      assert packages[..|packages|] == packages;
    }

    function IsUsable(name: string, slot: T.Slot): (b: bool)
      requires Valid()
      reads this, Nodes()
      ensures b == T.Usable(LiveTree(disk), name, slot)
    {
      LiveDirHoldsLiveTree();
      assert forall p :: p in LiveDir() <==> p in LiveTree(disk);
      exists p :: p in LiveDir() && T.PackageDir(name, slot) <= p
    }

    /** `_unusable_packages`, through the live link. */
    function UnusablePackages(requested: set<string>, slot: T.Slot): (broken: set<string>)
      requires Valid()
      reads this, Nodes()
      ensures broken == T.Broken(LiveTree(disk), requested, slot)
    {
      set n | n in requested && !IsUsable(n, slot)
    }

    /** From the repair of the link to the end of the download loop. */
    method StageAndFetch(r: T.Request)
      returns (v: Version, results: set<string>, ghost clone: seq<Path>, ghost clears: seq<seq<Path>>)
      requires Valid()
      modifies `versions, `link, `disk, `log, Nodes()
      ensures Valid() && v in versions && v == Staging(Ensure(old(disk)), r.version)
      ensures (disk, results) == FetchedDisk(Ensure(old(disk)), r)
      ensures Gathered(Ensure(old(disk)), r, clone, clears)
      ensures log == old(log) + (EnsureWrites(old(disk)) + GatherWrites(Ensure(old(disk)), r, clone, clears))
      ensures Unwritten(old(Nodes()))
    {
      EnsureTree();
      ghost var d0 := disk;
      v, clone := StageVersion(r.version);
      StagedTree(d0, r);
      results, clears := FetchPackages(v, r.packages, r.filter, r.slot);
      StagedAs(d0, r, disk.versions[v]);
      FourParts(old(log), EnsureWrites(old(disk)), StageWrites(d0, r.version, clone),
                C.FetchWrites(v, r.packages, r.filter, r.slot, clears));
    }

    /** What follows a commit: the check, and a rollback or the pruning. */
    method Conclude(r: T.Request, requested: set<string>) returns (outcome: T.Outcome, ghost removals: seq<Removal>)
      requires Valid()
      modifies this
      ensures Valid() && (outcome, disk) == Concluding(old(disk), r, requested)
      ensures log == old(log) + ConclusionWrites(old(disk), r, requested, removals)
      ensures outcome.Installed? ==> Prunes(old(disk), r.keep, removals)
    {
      removals := [];
      var unusable := UnusablePackages(requested, r.slot);
      if unusable != {} {
        var restored := RollBack();
        return T.Unhealthy, removals;
      }
      removals := PruneVersions(r.keep);
      return T.Installed({}), removals;
    }

    method Switch(r: T.Request, requested: set<string>)
      returns (outcome: T.Outcome, ghost discard: seq<Path>, ghost removals: seq<Removal>)
      requires Valid()
      modifies this
      ensures Valid() && (outcome, disk) == Switching(old(disk), r, requested)
      ensures log == old(log) + SwitchWrites(old(disk), r, requested, discard, removals)
      ensures outcome.Installed? ==> Prunes(AfterCommit(old(disk), r), r.keep, removals)
    {
      discard, removals := [], [];
      var live := CommitVersion(r.version, Some(r.session));
      if live.None? {
        discard := DiscardStaging(r.version);
        return T.NotCommitted, discard, removals;
      }
      ghost var d1 := disk;
      outcome, removals := Conclude(r, requested);
      WritesAssociative(old(log), CommitWrites(old(disk), live.value, Some(r.session)),
                        ConclusionWrites(d1, r, requested, removals));
    }

    /** The staged tree is rid of packages that are not listed. */
    method Tidy(r: T.Request, v: Version, requested: set<string>, ghost d0: Disk) returns (ghost drops: seq<Path>)
      requires Valid() && v in versions && v == Staging(d0, r.version) && requested == T.Requested(r.packages, r.filter)
      requires disk == T.WithStaged(d0, r, T.Fetched(d0, r).0)
      modifies `versions, `disk, `log
      ensures Valid() && disk == T.WithStaged(d0, r, T.Finished(d0, r))
      ensures log == old(log) + if r.filter == {} then Removes(v, drops) else []
      ensures r.filter == {} ==> Covers(drops, C.DroppedNames(T.Fetched(d0, r).0, requested, r.slot))
    {
      drops := [];
      ghost var fetched := T.Fetched(d0, r).0;
      RestagedAs(d0, r, fetched, T.DropUnlisted(fetched, requested, r.slot));
      if r.filter == {} {
        drops := DropPackages(v, requested, r.slot);
      }
    }

    /** The end of an install whose packages have all arrived. */
    method Complete(r: T.Request, v: Version, requested: set<string>, results: set<string>, ghost d0: Disk)
      returns (outcome: T.Outcome, ghost drops: seq<Path>, ghost discard: seq<Path>, ghost removals: seq<Removal>)
      requires Valid() && v in versions && v == Staging(d0, r.version) && requested == T.Requested(r.packages, r.filter)
      requires (disk, results) == FetchedDisk(d0, r)
      modifies this
      ensures Valid() && (outcome, disk) == Completing(d0, r)
      ensures Closed(d0, r, drops, removals)
      ensures log == old(log) + CompleteWrites(d0, r, drops, discard, removals)
    {
      drops := Tidy(r, v, requested, d0);
      ghost var tidied := disk;
      outcome, discard, removals := Switch(r, requested);
      if outcome.Installed? {
        outcome := T.Installed(results);
      }
      WritesAssociative(old(log), if r.filter == {} then Removes(v, drops) else [],
                        SwitchWrites(tidied, r, requested, discard, removals));
    }

    /** `download_all_from_archive`, from the manifest on. */
    method DownloadAll(r: T.Request) returns (outcome: T.Outcome, ghost o: C.Orders)
      requires Valid()
      modifies this, Nodes()
      ensures Valid() && (outcome, disk) == T.Install(old(disk), r)
      ensures C.Orderly(old(disk), r, o) && log == old(log) + C.InstallSteps(old(disk), r, o)
      ensures Unwritten(old(Nodes()))
    {
      var v, results;
      ghost var clone, clears, drops, discard, removals;
      v, results, clone, clears := StageAndFetch(r);
      var requested := T.Requested(r.packages, r.filter);
      if !(requested <= results) {
        discard := DiscardStaging(r.version);
        o := C.Orders(clone, clears, [], discard, []);
        IncompleteSteps(old(log), old(disk), r, o);
        return T.Incomplete, o;
      }
      outcome, drops, discard, removals := Complete(r, v, requested, results, Ensure(old(disk)));
      o := C.Orders(clone, clears, drops, discard, removals);
      CompleteSteps(old(log), old(disk), r, o);
    }
  }
}

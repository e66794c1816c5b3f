/** Installing all packages of an archive as one transaction (`download_all_from_archive`,
    `_extract_and_read_deps`, `_prune_packages_the_archive_dropped` and `_unusable_packages` in
    raisin_ota/client.py). */
module InstallTransaction {
  import opened Wrappers
  import opened InstallTree
  import opened InstallRuns

  const METADATA_FILE := "ota-install.json"
  const ARCHIVE := "archive"

  /** Operating system, its version, architecture and build type: where a package's files lie below its name. */
  type Slot = s: seq<string> | |s| == 4 witness ["", "", "", ""]

  function PackageDir(name: string, slot: Slot): (dir: Path)
    ensures |dir| == 5
  {
    [name] + slot
  }

  /** What became of one package of the archive: whether it has an id, whether its download succeeded, the files
      that came out of it and whether that was all of them, and whether its metadata could be written. */
  datatype Package = Package(name: string, hasId: bool, delivered: bool, files: seq<(Path, Content)>, whole: bool,
                             metadataLands: bool)

  // ---------------------------------------------------------------------------------------------
  // Inside the staged tree

  function Without(tree: Tree, dir: Path): Tree {
    map p | p in tree && !(dir <= p) :: tree[p]
  }

  function Unpacked(tree: Tree, dir: Path, files: seq<(Path, Content)>): Tree
    decreases |files|
  {
    if files == [] then tree else Unpacked(tree[dir + files[0].0 := files[0].1], dir, files[1..])
  }

  /** The package's directory is cleared, its files are written, and behind a complete set the metadata. */
  function Extract(tree: Tree, dir: Path, pkg: Package): Tree {
    var unpacked := Unpacked(Without(tree, dir), dir, pkg.files);
    if pkg.whole && pkg.metadataLands then unpacked[dir + [METADATA_FILE] := Metadata(ARCHIVE)] else unpacked
  }

  /** A package the loop does not skip.  An empty filter is no filter. */
  predicate Wanted(pkg: Package, filter: set<string>) {
    pkg.name != "" && (filter != {} ==> pkg.name in filter) && pkg.hasId
  }

  /** The download loop: the staged tree, and the names that were installed. */
  function FetchAll(tree: Tree, results: set<string>, packages: seq<Package>, filter: set<string>, slot: Slot)
    : (Tree, set<string>)
    decreases |packages|
  {
    if packages == [] then
      (tree, results)
    else
      var pkg := packages[0];
      if Wanted(pkg, filter) && pkg.delivered then
        FetchAll(Extract(tree, PackageDir(pkg.name, slot), pkg), if pkg.whole then results + {pkg.name} else results,
                 packages[1..], filter, slot)
      else
        FetchAll(tree, results, packages[1..], filter, slot)
  }

  function Requested(packages: seq<Package>, filter: set<string>): set<string> {
    if filter != {} then filter else (set pkg | pkg in packages :: pkg.name) - {""}
  }

  predicate FromArchive(tree: Tree, name: string, slot: Slot) {
    var p := PackageDir(name, slot) + [METADATA_FILE];
    p in tree && tree[p] == Metadata(ARCHIVE)
  }

  /** The file belongs to an archive's package that the new archive does not name. */
  predicate Dropped(tree: Tree, keep: set<string>, slot: Slot, p: Path) {
    p != [] && PackageDir(p[0], slot) <= p && p[0] !in keep && FromArchive(tree, p[0], slot)
  }

  function DropUnlisted(tree: Tree, keep: set<string>, slot: Slot): Tree {
    map p | p in tree && !Dropped(tree, keep, slot, p) :: tree[p]
  }

  predicate Usable(tree: Tree, name: string, slot: Slot) {
    exists p :: p in tree && PackageDir(name, slot) <= p
  }

  function Broken(tree: Tree, requested: set<string>, slot: Slot): set<string> {
    set n | n in requested && !Usable(tree, n, slot)
  }

  // ---------------------------------------------------------------------------------------------
  // The transaction

  datatype Outcome = Incomplete | NotCommitted | Unhealthy | Installed(results: set<string>)

  /** What the caller gets. */
  function Returned(o: Outcome): set<string> {
    if o.Installed? then o.results else {}
  }

  datatype Request = Request(version: string, session: string, packages: seq<Package>, filter: set<string>, slot: Slot,
                             keep: int)

  /** The staged tree when all packages have been tried. */
  ghost function Fetched(d0: Disk, r: Request): (Tree, set<string>) {
    FetchAll(LiveTree(d0)[MARKER := EMPTY], {}, r.packages, r.filter, r.slot)
  }

  /** The staged tree right before the commit. */
  ghost function Finished(d0: Disk, r: Request): Tree {
    var tree := Fetched(d0, r).0;
    if r.filter == {} then DropUnlisted(tree, Requested(r.packages, r.filter), r.slot) else tree
  }

  ghost function WithStaged(d0: Disk, r: Request, tree: Tree): Disk {
    d0.(versions := d0.versions[Staging(d0, r.version) := tree])
  }

  ghost function Install(d: Disk, r: Request): (Outcome, Disk) {
    var d0 := Ensure(d);
    var requested := Requested(r.packages, r.filter);
    if !(requested <= Fetched(d0, r).1) then
      (Incomplete, Discard(WithStaged(d0, r, Fetched(d0, r).0), r.version))
    else
      var staged := WithStaged(d0, r, Finished(d0, r));
      var (live, d1) := Commit(staged, r.version, Some(r.session));
      if live.None? then (NotCommitted, Discard(d1, r.version))
      else if Broken(LiveTree(d1), requested, r.slot) != {} then (Unhealthy, Rollback(d1))
      else (Installed(Fetched(d0, r).1), Prune(d1, r.keep))
  }

  // ---------------------------------------------------------------------------------------------
  // All or nothing

  lemma StagedTakesNewest(d0: Disk, r: Request, tree: Tree)
    ensures var v := Staging(d0, r.version);
            && v !in d0.versions
            && Resolve(WithStaged(d0, r, tree), r.version) == Some(v)
            && OnlyTouches(d0, WithStaged(d0, r, tree), {v})
            && (DistinctGens(d0) ==> DistinctGens(WithStaged(d0, r, tree)))
  {
    AddedIsResolved(d0, r.version, tree);
  }

  /** An install whose archive does not arrive whole leaves the disk as the repair at its start left it. */
  lemma IncompleteChangesNothing(d: Disk, r: Request)
    requires Install(d, r).0 == Incomplete
    ensures Install(d, r).1 == Ensure(d)
  {
    EnsureHeals(d);
    DiscardOfStaged(Ensure(d), r, Fetched(Ensure(d), r).0);
  }

  lemma DiscardOfStaged(d0: Disk, r: Request, tree: Tree)
    requires Healthy(d0) || d0.link == NoLink
    ensures Discard(WithStaged(d0, r, tree), r.version) == d0
  {
    StagedTakesNewest(d0, r, tree);
    var v := Staging(d0, r.version);
    assert d0.versions[v := tree] - {v} == d0.versions;
  }

  /** The commit itself cannot fail. */
  lemma CommitSucceeds(d: Disk, r: Request)
    ensures Install(d, r).0 != NotCommitted
  {
    StagedTakesNewest(Ensure(d), r, Finished(Ensure(d), r));
  }

  /** The disk right after the commit. */
  ghost function Switched(d0: Disk, r: Request): Disk {
    Commit(WithStaged(d0, r, Finished(d0, r)), r.version, Some(r.session)).1
  }

  lemma CommitOfStaged(d0: Disk, r: Request, tree: Tree)
    requires Healthy(d0) || d0.link == NoLink
    ensures var v, session := Staging(d0, r.version), Some(r.session);
            ApplyAll(WithStaged(d0, r, tree), CommitWrites(WithStaged(d0, r, tree), v, session)) ==
              Disk(d0.versions[v := tree - {MARKER}], LinkTo(v),
                   if Current(d0).Some? && !OwnWork(d0, session) then Current(d0) else d0.previous, ReadBack(session))
  {
    var v, staged := Staging(d0, r.version), WithStaged(d0, r, tree);
    assert v !in d0.versions;
    CommitResult(staged, v, Some(r.session));
    assert Current(staged) == Current(d0);
    assert staged.versions[v := tree - {MARKER}] == d0.versions[v := tree - {MARKER}];
  }

  lemma SwitchedResult(d0: Disk, r: Request)
    requires Healthy(d0) || (d0.link == NoLink && d0.versions == map[])
    ensures var v := Staging(d0, r.version);
            var d1 := Switched(d0, r);
            && Commit(WithStaged(d0, r, Finished(d0, r)), r.version, Some(r.session)).0 == Some(v)
            && d1.link == LinkTo(v) && Current(d1) == Some(v)
            && d1.versions == d0.versions[v := Finished(d0, r) - {MARKER}]
            && LiveTree(d1) == Finished(d0, r) - {MARKER}
            && d1.session == ReadBack(Some(r.session))
            && d1.previous == if Current(d0).Some? && !OwnWork(d0, Some(r.session)) then Current(d0) else d0.previous
  {
    StagedTakesNewest(d0, r, Finished(d0, r));
    CommitOfStaged(d0, r, Finished(d0, r));
  }

  lemma PruneKeepsLive(d: Disk, keep: int)
    requires Current(d).Some?
    ensures Prune(d, keep).link == d.link && Current(Prune(d, keep)) == Current(d)
    ensures LiveTree(Prune(d, keep)) == LiveTree(d)
    ensures forall v :: v in Prune(d, keep).versions ==> v in d.versions && Prune(d, keep).versions[v] == d.versions[v]
  {
    assert Current(d).value in Protected(d);
  }

  lemma InstalledMeansSwitched(d: Disk, r: Request)
    requires Install(d, r).0.Installed?
    ensures var d0 := Ensure(d);
            && Install(d, r).1 == Prune(Switched(d0, r), r.keep)
            && Requested(r.packages, r.filter) <= Install(d, r).0.results == Fetched(d0, r).1
            && Broken(LiveTree(Switched(d0, r)), Requested(r.packages, r.filter), r.slot) == {}
  {
  }

  /** A non-empty result means that the link points at the tree that was staged, that every requested package is
      in it, and that nothing else was changed or lost but by pruning. */
  lemma ResultMeansLive(d: Disk, r: Request)
    requires Returned(Install(d, r).0) != {}
    ensures var d0, d' := Ensure(d), Install(d, r).1;
            var v := Staging(d0, r.version);
            && v !in d0.versions && d'.link == LinkTo(v) && Current(d') == Some(v)
            && LiveTree(d') == Finished(d0, r) - {MARKER}
            && Requested(r.packages, r.filter) <= Returned(Install(d, r).0)
            && (forall n :: n in Requested(r.packages, r.filter) ==> Usable(LiveTree(d'), n, r.slot))
            && (forall m :: m in d'.versions && m != v ==> m in d0.versions && d'.versions[m] == d0.versions[m])
  {
    var d0 := Ensure(d);
    EnsureHeals(d);
    InstalledMeansSwitched(d, r);
    SwitchedResult(d0, r);
    StagedTakesNewest(d0, r, map[]);
    PruneKeepsLive(Switched(d0, r), r.keep);
    forall n | n in Requested(r.packages, r.filter)
      ensures Usable(LiveTree(Switched(d0, r)), n, r.slot)
    {
      assert n !in Broken(LiveTree(Switched(d0, r)), Requested(r.packages, r.filter), r.slot);
    }
  }

  /** A tree that fails the check after the switch is taken back: under a session that has not committed before
      the tree that was live at the start is live again, as it was. */
  lemma UnhealthyIsTakenBack(d: Disk, r: Request)
    requires Install(d, r).0 == Unhealthy && Current(Ensure(d)).Some? && !OwnWork(Ensure(d), Some(r.session))
    ensures var d0, d' := Ensure(d), Install(d, r).1;
            && Current(d') == Current(d0) && LiveTree(d') == LiveTree(d0)
            && (forall v :: v in d0.versions ==> v in d'.versions && d'.versions[v] == d0.versions[v])
  {
    var d0 := Ensure(d);
    EnsureHeals(d);
    SwitchedResult(d0, r);
    StagedTakesNewest(d0, r, Finished(d0, r));
    RollbackResult(Switched(d0, r));
  }

  // ---------------------------------------------------------------------------------------------
  // One install after the other

  /** Between installs: nothing is staged, and there is no version yet, or the link leads to one and the rollback
      pointer, if there is one, to an older one. */
  ghost predicate AtRest(d: Disk) {
    && DistinctGens(d) && NothingStaged(d)
    && if d.versions == map[] then d.link == NoLink && d.previous == None else Targets(d)
  }

  lemma RepairAtRest(d: Disk)
    requires AtRest(d)
    ensures Ensure(d) == d && (Healthy(d) || (d.link == NoLink && d.versions == map[]))
  {
    EnsureHeals(d);
  }

  lemma SwitchedAtRest(d: Disk, r: Request)
    requires AtRest(d)
    ensures RunInv(Switched(d, r)) && NothingStaged(Switched(d, r))
  {
    RepairAtRest(d);
    SwitchedResult(d, r);
    StagedTakesNewest(d, r, Finished(d, r) - {MARKER});
    var v, d' := Staging(d, r.version), Switched(d, r);
    assert d'.versions == WithStaged(d, r, Finished(d, r) - {MARKER}).versions;
    forall m | m in d'.versions
      ensures !Staged(d', m)
    {
      assert m != v ==> m in d.versions && !Staged(d, m);
    }
  }

  lemma RollbackAtRest(d: Disk)
    requires RunInv(d) && NothingStaged(d)
    ensures AtRest(Rollback(d))
  {
    RollbackKeeps(d);
    RollbackResult(d);
    assert forall v :: Staged(Rollback(d), v) ==> Staged(d, v);
  }

  lemma PruneAtRest(d: Disk, keep: int)
    requires RunInv(d) && NothingStaged(d)
    ensures AtRest(Prune(d, keep))
  {
    PruneKeeps(d, keep);
    assert d.link.target in Prune(d, keep).versions;
    assert forall v :: Staged(Prune(d, keep), v) ==> Staged(d, v);
  }

  /** An install, however it ends, leaves the disk ready for the next one. */
  lemma InstallKeepsRest(d: Disk, r: Request)
    requires AtRest(d)
    ensures AtRest(Install(d, r).1)
  {
    RepairAtRest(d);
    CommitSucceeds(d, r);
    SwitchedAtRest(d, r);
    if Install(d, r).0 == Incomplete {
      IncompleteChangesNothing(d, r);
    } else if Install(d, r).0 == Unhealthy {
      RollbackAtRest(Switched(d, r));
    } else {
      PruneAtRest(Switched(d, r), r.keep);
    }
  }

  ghost function Installs(d: Disk, rs: seq<Request>): Disk
    decreases |rs|
  {
    if rs == [] then d else Installs(Install(d, rs[0]).1, rs[1..])
  }

  lemma {:induction false} InstallsKeepRest(d: Disk, rs: seq<Request>)
    requires AtRest(d)
    ensures AtRest(Installs(d, rs))
    decreases |rs|
  {
    if rs != [] {
      InstallKeepsRest(d, rs[0]);
      InstallsKeepRest(Install(d, rs[0]).1, rs[1..]);
    }
  }

  /** So after any number of installs on an empty disk there is nothing yet, or a live tree that is not a staged
      one, with a rollback target that is older. */
  lemma InstallsFromNothing(rs: seq<Request>)
    ensures var d := Installs(Disk(map[], NoLink, None, None), rs);
            && NothingStaged(d)
            && (d.versions != map[] ==>
                  && RunInv(d) && Current(d).Some?
                  && (Previous(d).Some? ==> Previous(d).value.gen < Current(d).value.gen))
  {
    InstallsKeepRest(Disk(map[], NoLink, None, None), rs);
  }

  // ---------------------------------------------------------------------------------------------
  // What an unfiltered install leaves in the tree

  /** Two trees agree about a path: both lack it, or both have the same file there. */
  predicate Agree(a: Tree, b: Tree, p: Path) {
    (p in a <==> p in b) && (p in a ==> a[p] == b[p])
  }

  /** What a package puts into an empty tree. */
  function Alone(pkg: Package, slot: Slot): Tree {
    Extract(map[], PackageDir(pkg.name, slot), pkg)
  }

  lemma {:induction false} UnpackedAgree(a: Tree, b: Tree, dir: Path, files: seq<(Path, Content)>, p: Path)
    requires Agree(a, b, p)
    ensures Agree(Unpacked(a, dir, files), Unpacked(b, dir, files), p)
    decreases |files|
  {
    if files != [] {
      var (path, content) := files[0];
      UnpackedAgree(a[dir + path := content], b[dir + path := content], dir, files[1..], p);
    }
  }

  lemma {:induction false} UnpackedElsewhere(a: Tree, dir: Path, files: seq<(Path, Content)>, p: Path)
    requires !(dir <= p)
    ensures Agree(Unpacked(a, dir, files), a, p)
    decreases |files|
  {
    if files != [] {
      UnpackedElsewhere(a[dir + files[0].0 := files[0].1], dir, files[1..], p);
    }
  }

  /** An extraction decides everything in its directory, and nothing elsewhere. */
  lemma ExtractIsLocal(tree: Tree, pkg: Package, slot: Slot, p: Path)
    ensures var dir := PackageDir(pkg.name, slot);
            Agree(Extract(tree, dir, pkg), if dir <= p then Alone(pkg, slot) else tree, p)
  {
    var dir := PackageDir(pkg.name, slot);
    if dir <= p {
      UnpackedAgree(Without(tree, dir), Without(map[], dir), dir, pkg.files, p);
    } else {
      UnpackedElsewhere(Without(tree, dir), dir, pkg.files, p);
      assert p != dir + [METADATA_FILE];
    }
  }

  ghost predicate DistinctNames(packages: seq<Package>) {
    forall i, j :: 0 <= i < j < |packages| && packages[i].name != "" ==> packages[i].name != packages[j].name
  }

  /** The package that gets to write below a directory name. */
  ghost predicate Writes(packages: seq<Package>, filter: set<string>, slot: Slot, i: nat, p: Path) {
    && i < |packages| && Wanted(packages[i], filter) && packages[i].delivered
    && PackageDir(packages[i].name, slot) <= p
  }

  lemma FirstComponent(name: string, slot: Slot, p: Path)
    ensures PackageDir(name, slot) <= p ==> p != [] && p[0] == name
  {
  }

  lemma WritesShift(packages: seq<Package>, filter: set<string>, slot: Slot, i: nat, p: Path)
    requires packages != []
    ensures Writes(packages[1..], filter, slot, i, p) <==> Writes(packages, filter, slot, i + 1, p)
  {
  }

  /** With distinct names only one package writes to a path. */
  lemma OnlyWriter(packages: seq<Package>, filter: set<string>, slot: Slot, i: nat, j: nat, p: Path)
    requires DistinctNames(packages) && Writes(packages, filter, slot, i, p) && i != j
    ensures !Writes(packages, filter, slot, j, p)
  {
    FirstComponent(packages[i].name, slot, p);
    if j < |packages| {
      FirstComponent(packages[j].name, slot, p);
    }
  }

  lemma {:induction false} FetchedElsewhere(tree: Tree, results: set<string>, packages: seq<Package>,
                                            filter: set<string>, slot: Slot, p: Path)
    requires forall i: nat :: !Writes(packages, filter, slot, i, p)
    ensures Agree(FetchAll(tree, results, packages, filter, slot).0, tree, p)
    decreases |packages|
  {
    if packages != [] {
      var pkg := packages[0];
      forall i: nat
        ensures !Writes(packages[1..], filter, slot, i, p)
      {
        WritesShift(packages, filter, slot, i, p);
      }
      assert !Writes(packages, filter, slot, 0, p);
      if Wanted(pkg, filter) && pkg.delivered {
        ExtractIsLocal(tree, pkg, slot, p);
        FetchedElsewhere(Extract(tree, PackageDir(pkg.name, slot), pkg),
                         if pkg.whole then results + {pkg.name} else results, packages[1..], filter, slot, p);
      } else {
        FetchedElsewhere(tree, results, packages[1..], filter, slot, p);
      }
    }
  }

  /** A package's directory holds what the last package that writes there puts there alone. */
  lemma {:induction false} FetchedThere(tree: Tree, results: set<string>, packages: seq<Package>, filter: set<string>,
                                        slot: Slot, i: nat, p: Path)
    requires Writes(packages, filter, slot, i, p) && forall j: nat :: j > i ==> !Writes(packages, filter, slot, j, p)
    ensures Agree(FetchAll(tree, results, packages, filter, slot).0, Alone(packages[i], slot), p)
    decreases |packages|
  {
    var pkg := packages[0];
    var rest := packages[1..];
    var next := if Wanted(pkg, filter) && pkg.delivered then Extract(tree, PackageDir(pkg.name, slot), pkg) else tree;
    var results' := if Wanted(pkg, filter) && pkg.delivered && pkg.whole then results + {pkg.name} else results;
    if i == 0 {
      ExtractIsLocal(tree, pkg, slot, p);
      forall j: nat
        ensures !Writes(rest, filter, slot, j, p)
      {
        WritesShift(packages, filter, slot, j, p);
      }
      FetchedElsewhere(next, results', rest, filter, slot, p);
    } else {
      forall j: nat
        ensures Writes(rest, filter, slot, j, p) <==> Writes(packages, filter, slot, j + 1, p)
      {
        WritesShift(packages, filter, slot, j, p);
      }
      assert Writes(rest, filter, slot, i - 1, p);
      FetchedThere(next, results', rest, filter, slot, i - 1, p);
    }
  }

  /** What is in the results was wanted, delivered and whole. */
  lemma {:induction false} ResultsWereInstalled(tree: Tree, results: set<string>, packages: seq<Package>,
                                                filter: set<string>, slot: Slot, n: string)
    requires n in FetchAll(tree, results, packages, filter, slot).1 && n !in results
    ensures exists i :: 0 <= i < |packages| && packages[i].name == n && Wanted(packages[i], filter) &&
                        packages[i].delivered && packages[i].whole
    decreases |packages|
  {
    var pkg := packages[0];
    if Wanted(pkg, filter) && pkg.delivered && pkg.whole && pkg.name == n {
    } else {
      var next := if Wanted(pkg, filter) && pkg.delivered then Extract(tree, PackageDir(pkg.name, slot), pkg) else tree;
      var results' := if Wanted(pkg, filter) && pkg.delivered && pkg.whole then results + {pkg.name} else results;
      ResultsWereInstalled(next, results', packages[1..], filter, slot, n);
      var i :| 0 <= i < |packages[1..]| && packages[1..][i].name == n && Wanted(packages[1..][i], filter) &&
               packages[1..][i].delivered && packages[1..][i].whole;
      assert packages[i + 1] == packages[1..][i];
    }
  }

  /** The path lies in the directory of a package the archive names. */
  predicate Listed(packages: seq<Package>, slot: Slot, i: nat, p: Path) {
    i < |packages| && packages[i].name != "" && PackageDir(packages[i].name, slot) <= p
  }

  /** A requested package that is in the results is the one package of that name, and it was installed. */
  lemma ListedWasInstalled(d0: Disk, r: Request, i: nat, p: Path)
    requires r.filter == {} && DistinctNames(r.packages) && Listed(r.packages, r.slot, i, p)
    requires Requested(r.packages, r.filter) <= Fetched(d0, r).1
    ensures Writes(r.packages, r.filter, r.slot, i, p) && r.packages[i].whole
  {
    var n := r.packages[i].name;
    assert r.packages[i] in r.packages;
    assert n in Requested(r.packages, r.filter);
    ResultsWereInstalled(LiveTree(d0)[MARKER := EMPTY], {}, r.packages, r.filter, r.slot, n);
    var j :| 0 <= j < |r.packages| && r.packages[j].name == n && Wanted(r.packages[j], r.filter) &&
             r.packages[j].delivered && r.packages[j].whole;
    assert i == j;
  }

  lemma UnlistedIsKept(d0: Disk, r: Request, p: Path)
    requires forall i: nat :: !Listed(r.packages, r.slot, i, p)
    requires p != MARKER
    ensures Agree(Fetched(d0, r).0, LiveTree(d0), p)
  {
    forall i: nat
      ensures !Writes(r.packages, r.filter, r.slot, i, p)
    {
      assert !Listed(r.packages, r.slot, i, p);
    }
    FetchedElsewhere(LiveTree(d0)[MARKER := EMPTY], {}, r.packages, r.filter, r.slot, p);
  }

  /** Whether an unlisted package came from an archive is not changed by the download loop. */
  lemma OriginIsKept(d0: Disk, r: Request, n: string)
    requires r.filter == {} && n !in Requested(r.packages, r.filter)
    ensures FromArchive(Fetched(d0, r).0, n, r.slot) <==> FromArchive(LiveTree(d0), n, r.slot)
  {
    var q := PackageDir(n, r.slot) + [METADATA_FILE];
    forall i: nat
      ensures !Listed(r.packages, r.slot, i, q)
    {
      if i < |r.packages| {
        assert r.packages[i] in r.packages;
        assert q[0] == n;
      }
    }
    UnlistedIsKept(d0, r, q);
  }

  lemma ListedContents(d0: Disk, r: Request, i: nat, p: Path)
    requires r.filter == {} && DistinctNames(r.packages) && Listed(r.packages, r.slot, i, p)
    requires Requested(r.packages, r.filter) <= Fetched(d0, r).1
    ensures Agree(Finished(d0, r) - {MARKER}, Alone(r.packages[i], r.slot), p)
  {
    ListedWasInstalled(d0, r, i, p);
    forall j: nat | j > i
      ensures !Writes(r.packages, r.filter, r.slot, j, p)
    {
      OnlyWriter(r.packages, r.filter, r.slot, i, j, p);
    }
    FetchedThere(LiveTree(d0)[MARKER := EMPTY], {}, r.packages, r.filter, r.slot, i, p);
    FirstComponent(r.packages[i].name, r.slot, p);
    assert r.packages[i] in r.packages;
  }

  lemma UnlistedContents(d0: Disk, r: Request, p: Path)
    requires r.filter == {} && forall i: nat :: !Listed(r.packages, r.slot, i, p)
    ensures var live, finished := LiveTree(d0), Finished(d0, r) - {MARKER};
            if p == MARKER || Dropped(live, Requested(r.packages, r.filter), r.slot, p) then p !in finished
            else Agree(finished, live, p)
  {
    if p != MARKER {
      UnlistedIsKept(d0, r, p);
      if p != [] && p[0] !in Requested(r.packages, r.filter) {
        OriginIsKept(d0, r, p[0]);
      }
    }
  }

  lemma InstalledIsFinished(d: Disk, r: Request)
    requires Install(d, r).0.Installed?
    ensures LiveTree(Install(d, r).1) == Finished(Ensure(d), r) - {MARKER}
    ensures Requested(r.packages, r.filter) <= Fetched(Ensure(d), r).1
  {
    EnsureHeals(d);
    InstalledMeansSwitched(d, r);
    SwitchedResult(Ensure(d), r);
    PruneKeepsLive(Switched(Ensure(d), r), r.keep);
  }

  /** After a successful unfiltered install, path by path: what a listed package holds is what that package
      brought; what belongs to an archive's package that is not listed is gone; everything else, be it installed
      by hand, for another platform or of another build type, is as it was in the tree that was live before. */
  lemma InstalledContents(d: Disk, r: Request, p: Path)
    requires Install(d, r).0.Installed? && r.filter == {} && DistinctNames(r.packages)
    ensures var live, new' := LiveTree(Ensure(d)), LiveTree(Install(d, r).1);
            var requested := Requested(r.packages, r.filter);
            && (forall i: nat :: Listed(r.packages, r.slot, i, p) ==> Agree(new', Alone(r.packages[i], r.slot), p))
            && ((forall i: nat :: !Listed(r.packages, r.slot, i, p)) ==>
                  if p == MARKER || Dropped(live, requested, r.slot, p) then p !in new' else Agree(new', live, p))
  {
    var d0 := Ensure(d);
    InstalledIsFinished(d, r);
    forall i: nat | Listed(r.packages, r.slot, i, p)
      ensures Agree(LiveTree(Install(d, r).1), Alone(r.packages[i], r.slot), p)
    {
      ListedContents(d0, r, i, p);
    }
    if forall i: nat :: !Listed(r.packages, r.slot, i, p) {
      UnlistedContents(d0, r, p);
    }
  }

  /** So no package of an archive that the new archive does not list is left for this platform and build. */
  lemma NothingUnlistedRemains(d: Disk, r: Request, n: string)
    requires Install(d, r).0.Installed? && r.filter == {} && DistinctNames(r.packages)
    requires n !in Requested(r.packages, r.filter)
    ensures !FromArchive(LiveTree(Install(d, r).1), n, r.slot)
  {
    var q := PackageDir(n, r.slot) + [METADATA_FILE];
    InstalledContents(d, r, q);
    forall i: nat
      ensures !Listed(r.packages, r.slot, i, q)
    {
      if i < |r.packages| {
        assert r.packages[i] in r.packages;
        assert q[0] == n;
      }
    }
    assert PackageDir(q[0], r.slot) == PackageDir(n, r.slot) <= q;
  }

  // The same by what the live tree records about its packages.

  /** Nothing that begins with a name outside the archive is in the directory of a package it lists. */
  lemma NotListed(r: Request, n: string, p: Path)
    requires r.filter == {} && n !in Requested(r.packages, r.filter) && p != [] && p[0] == n
    ensures forall i: nat :: !Listed(r.packages, r.slot, i, p)
  {
    forall i: nat
      ensures !Listed(r.packages, r.slot, i, p)
    {
      if i < |r.packages| {
        assert r.packages[i] in r.packages;
      }
    }
  }

  /** What a name outside the archive holds after an unfiltered install: without the metadata of an archive, which is
      how a package installed by hand looks, everything it held; with it, nothing for this platform and build, and
      everything it held for others. */
  lemma UnlistedPackages(d: Disk, r: Request, n: string, p: Path)
    requires Install(d, r).0.Installed? && r.filter == {} && n !in Requested(r.packages, r.filter)
    requires p != [] && p[0] == n && p != MARKER
    ensures var live, new' := LiveTree(Ensure(d)), LiveTree(Install(d, r).1);
            var record := [n] + r.slot + ["ota-install.json"];
            if record in live && live[record] == Metadata("archive") && [n] + r.slot <= p then p !in new'
            else Agree(new', live, p)
  {
    InstalledIsFinished(d, r);
    NotListed(r, n, p);
    UnlistedContents(Ensure(d), r, p);
  }

  /** What is in no package's directory stays, whatever its name. */
  lemma OutsidePackages(d: Disk, r: Request, p: Path)
    requires Install(d, r).0.Installed? && p != MARKER && (p == [] || !([p[0]] + r.slot <= p))
    ensures Agree(LiveTree(Install(d, r).1), LiveTree(Ensure(d)), p)
  {
    InstalledIsFinished(d, r);
    forall i: nat
      ensures !Listed(r.packages, r.slot, i, p)
    {
      if i < |r.packages| {
        FirstComponent(r.packages[i].name, r.slot, p);
      }
    }
    UnlistedIsKept(Ensure(d), r, p);
  }

  /** A filtered install removes nothing: what the filter does not name is as it was, and what it names holds what
      the last package delivered under that name brings. */
  lemma FilteredContents(d: Disk, r: Request, p: Path)
    requires Install(d, r).0.Installed? && r.filter != {} && p != MARKER
    ensures var live, new' := LiveTree(Ensure(d)), LiveTree(Install(d, r).1);
            && (p == [] || p[0] !in r.filter ==> Agree(new', live, p))
            && (forall i: nat :: LastWriter(r, i, p) ==> Agree(new', Alone(r.packages[i], r.slot), p))
  {
    InstalledIsFinished(d, r);
    var tree := LiveTree(Ensure(d))[MARKER := EMPTY];
    if p == [] || p[0] !in r.filter {
      FetchedElsewhere(tree, {}, r.packages, r.filter, r.slot, p);
    }
    forall i: nat | LastWriter(r, i, p)
      ensures Agree(LiveTree(Install(d, r).1), Alone(r.packages[i], r.slot), p)
    {
      FetchedThere(tree, {}, r.packages, r.filter, r.slot, i, p);
    }
  }

  ghost predicate LastWriter(r: Request, i: nat, p: Path) {
    && Writes(r.packages, r.filter, r.slot, i, p)
    && forall j: nat :: j > i ==> !Writes(r.packages, r.filter, r.slot, j, p)
  }

  /** File number `j` is the last of its name. */
  ghost predicate LastOfItsName(files: seq<(Path, Content)>, j: nat) {
    j < |files| && forall k :: j < k < |files| ==> files[k].0 != files[j].0
  }

  lemma {:induction false} UnpackedThere(tree: Tree, dir: Path, files: seq<(Path, Content)>, j: nat)
    requires LastOfItsName(files, j)
    ensures var p := dir + files[j].0;
            p in Unpacked(tree, dir, files) && Unpacked(tree, dir, files)[p] == files[j].1
    decreases |files|
  {
    var next := tree[dir + files[0].0 := files[0].1];
    if j == 0 {
      var p := dir + files[0].0;
      forall k | 0 <= k < |files[1..]|
        ensures dir + files[1..][k].0 != p
      {
        assert (dir + files[1..][k].0)[|dir|..] == files[k + 1].0 && p[|dir|..] == files[0].0;
      }
      UnpackedNotNamed(next, dir, files[1..], p);
    } else {
      UnpackedThere(next, dir, files[1..], j - 1);
    }
  }

  lemma {:induction false} UnpackedNotNamed(tree: Tree, dir: Path, files: seq<(Path, Content)>, p: Path)
    requires forall k :: 0 <= k < |files| ==> dir + files[k].0 != p
    ensures Agree(Unpacked(tree, dir, files), tree, p)
    decreases |files|
  {
    if files != [] {
      UnpackedNotNamed(tree[dir + files[0].0 := files[0].1], dir, files[1..], p);
    }
  }

  /** What a package brings: the record that it came from an archive, if all of it came out and the record could be
      written; of the files of one name the last; and nothing else. */
  lemma BroughtExactly(pkg: Package, slot: Slot, p: Path)
    ensures var dir, tree := [pkg.name] + slot, Alone(pkg, slot);
            var recorded := pkg.whole && pkg.metadataLands && p == dir + ["ota-install.json"];
            && (recorded ==> p in tree && tree[p] == Metadata("archive"))
            && (!recorded ==>
                  && (forall j: nat :: LastOfItsName(pkg.files, j) && p == dir + pkg.files[j].0 ==>
                                         p in tree && tree[p] == pkg.files[j].1)
                  && ((forall j :: 0 <= j < |pkg.files| ==> p != dir + pkg.files[j].0) ==> p !in tree))
  {
    var dir := PackageDir(pkg.name, slot);
    assert Without(map[], dir) == map[];
    forall j: nat | LastOfItsName(pkg.files, j)
      ensures var q := dir + pkg.files[j].0;
              q in Unpacked(map[], dir, pkg.files) && Unpacked(map[], dir, pkg.files)[q] == pkg.files[j].1
    {
      UnpackedThere(map[], dir, pkg.files, j);
    }
    if forall j :: 0 <= j < |pkg.files| ==> p != dir + pkg.files[j].0 {
      UnpackedNotNamed(map[], dir, pkg.files, p);
    }
  }

  lemma InstalledIsHealthy(d: Disk, r: Request)
    requires Install(d, r).0.Installed?
    ensures Ensure(Install(d, r).1) == Install(d, r).1
  {
    EnsureHeals(d);
    InstalledMeansSwitched(d, r);
    SwitchedResult(Ensure(d), r);
    PruneKeepsLive(Switched(Ensure(d), r), r.keep);
  }

  /** A package that one archive brought, and recorded, is gone with the next archive that does not list it. */
  lemma NextArchiveDrops(d: Disk, first: Request, second: Request, i: nat, p: Path)
    requires Install(d, first).0.Installed? && first.filter == {} && DistinctNames(first.packages)
    requires i < |first.packages| && first.packages[i].name != "" && first.packages[i].metadataLands
    requires var d1 := Install(d, first).1;
             Install(d1, second).0.Installed? && second.filter == {} && second.slot == first.slot
    requires first.packages[i].name !in Requested(second.packages, second.filter)
    requires PackageDir(first.packages[i].name, first.slot) <= p
    ensures p !in LiveTree(Install(Install(d, first).1, second).1)
  {
    var pkg, d1 := first.packages[i], Install(d, first).1;
    var record := PackageDir(pkg.name, first.slot) + [METADATA_FILE];
    InstalledIsHealthy(d, first);
    InstalledContents(d, first, record);
    assert Listed(first.packages, first.slot, i, record);
    InstalledIsFinished(d, first);
    ListedWasInstalled(Ensure(d), first, i, record);
    BroughtExactly(pkg, first.slot, record);
    UnlistedPackages(d1, second, pkg.name, p);
  }

  // ---------------------------------------------------------------------------------------------
  // When an unfiltered install succeeds

  /** The package can be had whole, and leaves something in its directory. */
  predicate Complete(pkg: Package) {
    pkg.hasId && pkg.delivered && pkg.whole && (pkg.files != [] || pkg.metadataLands)
  }

  lemma {:induction false} FetchedResultsGrow(tree: Tree, results: set<string>, packages: seq<Package>,
                                              filter: set<string>, slot: Slot)
    ensures results <= FetchAll(tree, results, packages, filter, slot).1
    decreases |packages|
  {
    if packages != [] {
      var pkg := packages[0];
      if Wanted(pkg, filter) && pkg.delivered {
        FetchedResultsGrow(Extract(tree, PackageDir(pkg.name, slot), pkg),
                           if pkg.whole then results + {pkg.name} else results, packages[1..], filter, slot);
      } else {
        FetchedResultsGrow(tree, results, packages[1..], filter, slot);
      }
    }
  }

  /** What was wanted, delivered and whole is in the results. */
  lemma {:induction false} InstalledAreResults(tree: Tree, results: set<string>, packages: seq<Package>,
                                               filter: set<string>, slot: Slot, i: nat)
    requires i < |packages| && Wanted(packages[i], filter) && packages[i].delivered && packages[i].whole
    ensures packages[i].name in FetchAll(tree, results, packages, filter, slot).1
    decreases |packages|
  {
    var pkg := packages[0];
    var next := if Wanted(pkg, filter) && pkg.delivered then Extract(tree, PackageDir(pkg.name, slot), pkg) else tree;
    var results' := if Wanted(pkg, filter) && pkg.delivered && pkg.whole then results + {pkg.name} else results;
    if i == 0 {
      FetchedResultsGrow(next, results', packages[1..], filter, slot);
    } else {
      InstalledAreResults(next, results', packages[1..], filter, slot, i - 1);
    }
  }

  lemma {:induction false} UnpackedGrows(tree: Tree, dir: Path, files: seq<(Path, Content)>, p: Path)
    requires p in tree
    ensures p in Unpacked(tree, dir, files)
    decreases |files|
  {
    if files != [] {
      UnpackedGrows(tree[dir + files[0].0 := files[0].1], dir, files[1..], p);
    }
  }

  lemma FirstFileUnpacked(tree: Tree, dir: Path, files: seq<(Path, Content)>)
    requires files != []
    ensures dir + files[0].0 in Unpacked(tree, dir, files)
  {
    UnpackedGrows(tree[dir + files[0].0 := files[0].1], dir, files[1..], dir + files[0].0);
  }

  lemma AloneIsUsable(pkg: Package, slot: Slot)
    requires pkg.whole
    ensures Usable(Alone(pkg, slot), pkg.name, slot) <==> pkg.files != [] || pkg.metadataLands
  {
    var dir := PackageDir(pkg.name, slot);
    if pkg.files != [] {
      FirstFileUnpacked(Without(map[], dir), dir, pkg.files);
      assert dir <= dir + pkg.files[0].0 && dir + pkg.files[0].0 in Alone(pkg, slot);
    } else if pkg.metadataLands {
      assert dir <= dir + [METADATA_FILE] && dir + [METADATA_FILE] in Alone(pkg, slot);
    } else {
      assert Alone(pkg, slot) == map[];
    }
  }

  /** The completeness check passes exactly when every named package was delivered whole. */
  lemma NothingMissingExactly(d0: Disk, r: Request)
    requires r.filter == {} && DistinctNames(r.packages)
    ensures Requested(r.packages, r.filter) <= Fetched(d0, r).1 <==>
            forall i :: 0 <= i < |r.packages| && r.packages[i].name != "" ==>
                          r.packages[i].hasId && r.packages[i].delivered && r.packages[i].whole
  {
    var tree: Tree, none: set<string> := LiveTree(d0)[MARKER := EMPTY], {};
    if Requested(r.packages, r.filter) <= Fetched(d0, r).1 {
      forall i | 0 <= i < |r.packages| && r.packages[i].name != ""
        ensures r.packages[i].hasId && r.packages[i].delivered && r.packages[i].whole
      {
        var dir := PackageDir(r.packages[i].name, r.slot);
        assert Listed(r.packages, r.slot, i, dir);
        ListedWasInstalled(d0, r, i, dir);
      }
    }
    if forall i :: 0 <= i < |r.packages| && r.packages[i].name != "" ==>
                     r.packages[i].hasId && r.packages[i].delivered && r.packages[i].whole {
      forall n | n in Requested(r.packages, r.filter)
        ensures n in Fetched(d0, r).1
      {
        var pkg :| pkg in r.packages && pkg.name == n;
        var i :| 0 <= i < |r.packages| && r.packages[i] == pkg;
        InstalledAreResults(tree, none, r.packages, r.filter, r.slot, i);
      }
    }
  }

  /** In the finished tree a listed package is usable exactly when it brought anything. */
  lemma UsableExactly(d0: Disk, r: Request, i: nat)
    requires r.filter == {} && DistinctNames(r.packages) && i < |r.packages| && r.packages[i].name != ""
    requires Requested(r.packages, r.filter) <= Fetched(d0, r).1
    ensures Usable(Finished(d0, r) - {MARKER}, r.packages[i].name, r.slot) <==>
            r.packages[i].files != [] || r.packages[i].metadataLands
  {
    var pkg, live := r.packages[i], Finished(d0, r) - {MARKER};
    var dir := PackageDir(pkg.name, r.slot);
    ListedWasInstalled(d0, r, i, dir);
    AloneIsUsable(pkg, r.slot);
    forall p | dir <= p
      ensures p in live <==> p in Alone(pkg, r.slot)
    {
      ListedContents(d0, r, i, p);
    }
  }

  lemma NothingBrokenExactly(d0: Disk, r: Request)
    requires r.filter == {} && DistinctNames(r.packages) && Requested(r.packages, r.filter) <= Fetched(d0, r).1
    ensures Broken(Finished(d0, r) - {MARKER}, Requested(r.packages, r.filter), r.slot) == {} <==>
            forall i :: 0 <= i < |r.packages| && r.packages[i].name != "" ==>
                          r.packages[i].files != [] || r.packages[i].metadataLands
  {
    var live, requested := Finished(d0, r) - {MARKER}, Requested(r.packages, r.filter);
    forall i | 0 <= i < |r.packages| && r.packages[i].name != ""
      ensures r.packages[i].name in requested
      ensures r.packages[i].name !in Broken(live, requested, r.slot) <==>
              r.packages[i].files != [] || r.packages[i].metadataLands
    {
      assert r.packages[i] in r.packages;
      UsableExactly(d0, r, i);
    }
    forall n | n in requested
      ensures exists i :: 0 <= i < |r.packages| && r.packages[i].name == n != ""
    {
      var pkg :| pkg in r.packages && pkg.name == n;
    }
  }

  /** The commit having succeeded, the outcome is what the check of the finished tree says. */
  lemma CheckDecides(d: Disk, r: Request)
    requires Requested(r.packages, r.filter) <= Fetched(Ensure(d), r).1
    ensures Install(d, r).0.Installed? <==>
            Broken(Finished(Ensure(d), r) - {MARKER}, Requested(r.packages, r.filter), r.slot) == {}
  {
    EnsureHeals(d);
    SwitchedResult(Ensure(d), r);
  }

  /** An unfiltered install of distinctly named packages succeeds if and only if every one of them can be had
      whole and leaves something in its directory. */
  lemma InstallsExactlyWhenComplete(d: Disk, r: Request)
    requires r.filter == {} && DistinctNames(r.packages)
    ensures Install(d, r).0.Installed? <==>
            forall i :: 0 <= i < |r.packages| && r.packages[i].name != "" ==> Complete(r.packages[i])
  {
    NothingMissingExactly(Ensure(d), r);
    if Requested(r.packages, r.filter) <= Fetched(Ensure(d), r).1 {
      CheckDecides(d, r);
      NothingBrokenExactly(Ensure(d), r);
    }
  }

  // ---------------------------------------------------------------------------------------------
  // What the completeness check means

  function NamesOf(packages: seq<Package>): seq<string> {
    seq(|packages|, i requires 0 <= i < |packages| => packages[i].name)
  }

  /** The name is one the loop does not skip. */
  predicate Selected(name: string, filter: set<string>) {
    name != "" && (filter != {} ==> name in filter)
  }

  /** Every requested name is in the list, and every package of a requested name arrived whole. */
  predicate Arrived(packages: seq<Package>, filter: set<string>) {
    && (forall n :: n in Requested(packages, filter) ==> n != "" && n in NamesOf(packages))
    && (forall i :: 0 <= i < |packages| && Selected(packages[i].name, filter) ==>
          packages[i].hasId && packages[i].delivered && packages[i].whole)
  }

  predicate CheckPasses(tree: Tree, packages: seq<Package>, filter: set<string>, slot: Slot) {
    Requested(packages, filter) <= FetchAll(tree, {}, packages, filter, slot).1
  }

  ghost predicate DistinctSelected(names: seq<string>, filter: set<string>) {
    forall i, j :: 0 <= i < j < |names| && Selected(names[i], filter) ==> names[i] != names[j]
  }

  /** A name is asked for that the list does not have, or that is empty. */
  predicate AsksForMore(names: seq<string>, filter: set<string>) {
    exists n :: n in filter && (n == "" || n !in names)
  }

  lemma RequestedNames(packages: seq<Package>, filter: set<string>, n: string)
    ensures filter == {} ==> (n in Requested(packages, filter) <==> n != "" && n in NamesOf(packages))
    ensures filter != {} ==> (n in Requested(packages, filter) <==> n in filter)
  {
    if n in NamesOf(packages) {
      var i :| 0 <= i < |packages| && NamesOf(packages)[i] == n;
      assert packages[i] in packages;
    }
    if filter == {} && n in Requested(packages, filter) {
      var pkg :| pkg in packages && pkg.name == n;
      var i :| 0 <= i < |packages| && packages[i] == pkg;
      assert NamesOf(packages)[i] == n;
    }
  }

  /** What arrived whole passes the check. */
  lemma ArrivedPasses(tree: Tree, packages: seq<Package>, filter: set<string>, slot: Slot)
    requires Arrived(packages, filter)
    ensures CheckPasses(tree, packages, filter, slot)
  {
    forall n | n in Requested(packages, filter)
      ensures n in FetchAll(tree, {}, packages, filter, slot).1
    {
      RequestedNames(packages, filter, n);
      var i :| 0 <= i < |packages| && NamesOf(packages)[i] == n;
      InstalledAreResults(tree, {}, packages, filter, slot, i);
    }
  }

  /** With distinct names only that passes. */
  lemma PassedArrived(tree: Tree, packages: seq<Package>, filter: set<string>, slot: Slot)
    requires DistinctSelected(NamesOf(packages), filter) && CheckPasses(tree, packages, filter, slot)
    ensures Arrived(packages, filter)
  {
    forall n | n in Requested(packages, filter)
      ensures n != "" && n in NamesOf(packages)
    {
      ResultsWereInstalled(tree, {}, packages, filter, slot, n);
      var i :| 0 <= i < |packages| && packages[i].name == n && Wanted(packages[i], filter) &&
               packages[i].delivered && packages[i].whole;
      assert NamesOf(packages)[i] == n;
    }
    forall i | 0 <= i < |packages| && Selected(packages[i].name, filter)
      ensures packages[i].hasId && packages[i].delivered && packages[i].whole
    {
      var n := packages[i].name;
      assert NamesOf(packages)[i] == n;
      RequestedNames(packages, filter, n);
      ResultsWereInstalled(tree, {}, packages, filter, slot, n);
      var j :| 0 <= j < |packages| && packages[j].name == n && Wanted(packages[j], filter) &&
               packages[j].delivered && packages[j].whole;
      assert NamesOf(packages)[j] == n;
      assert i == j;
    }
  }

  /** A list of packages with these names, all of which arrive whole but number `bad`. */
  function AllBut(names: seq<string>, bad: nat): (packages: seq<Package>)
    ensures |packages| == |names| && NamesOf(packages) == names
  {
    seq(|names|, i requires 0 <= i < |names| => Package(names[i], true, true, [], i != bad, true))
  }

  lemma FailureHidden(tree: Tree, names: seq<string>, filter: set<string>, slot: Slot, i: nat, j: nat)
    requires i < j < |names| && Selected(names[i], filter) && names[i] == names[j] && !AsksForMore(names, filter)
    ensures var packages := AllBut(names, j);
            CheckPasses(tree, packages, filter, slot) && !Arrived(packages, filter)
  {
    var packages := AllBut(names, j);
    assert NamesOf(packages) == names && packages[i].name == names[i];
    assert packages[j].name == names[j] && !packages[j].whole;
    forall n | n in Requested(packages, filter)
      ensures n in FetchAll(tree, {}, packages, filter, slot).1
    {
      RequestedNames(packages, filter, n);
      assert n != "" && n in names;
      var k :| 0 <= k < |names| && names[k] == n;
      InstalledAreResults(tree, {}, packages, filter, slot, if k == j then i else k);
    }
  }

  /** For a list of names and a filter the completeness check means, whatever becomes of the packages, that
      everything asked for arrived whole, if and only if the names asked for are distinct (or the filter names
      something that is not in the list, when the check never passes). */
  lemma CheckMeansArrivedExactly(tree: Tree, names: seq<string>, filter: set<string>, slot: Slot)
    ensures (forall packages :: NamesOf(packages) == names ==>
               (CheckPasses(tree, packages, filter, slot) <==> Arrived(packages, filter)))
            <==> DistinctSelected(names, filter) || AsksForMore(names, filter)
  {
    if DistinctSelected(names, filter) || AsksForMore(names, filter) {
      forall packages | NamesOf(packages) == names
        ensures CheckPasses(tree, packages, filter, slot) <==> Arrived(packages, filter)
      {
        if Arrived(packages, filter) {
          ArrivedPasses(tree, packages, filter, slot);
        }
        if CheckPasses(tree, packages, filter, slot) {
          NothingMoreAsked(tree, packages, filter, slot);
          PassedArrived(tree, packages, filter, slot);
        }
      }
    } else {
      var i, j :| 0 <= i < j < |names| && Selected(names[i], filter) && names[i] == names[j];
      FailureHidden(tree, names, filter, slot, i, j);
      assert NamesOf(AllBut(names, j)) == names;
    }
  }

  lemma NothingMoreAsked(tree: Tree, packages: seq<Package>, filter: set<string>, slot: Slot)
    requires CheckPasses(tree, packages, filter, slot)
    ensures !AsksForMore(NamesOf(packages), filter)
  {
    forall n | n in filter
      ensures n != "" && n in NamesOf(packages)
    {
      RequestedNames(packages, filter, n);
      ResultsWereInstalled(tree, {}, packages, filter, slot, n);
      var i :| 0 <= i < |packages| && packages[i].name == n && Wanted(packages[i], filter);
      assert NamesOf(packages)[i] == n;
    }
  }
}

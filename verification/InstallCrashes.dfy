/** An install write by write, and what an interruption at any point of it leaves (`download_all_from_archive` and
    `_extract_and_read_deps` in raisin_ota/client.py, over raisin_ota/install_tree.py). */
module InstallCrashes {
  import opened Wrappers
  import opened InstallTree
  import opened InstallWrites
  import opened InstallRuns
  import opened InstallTransaction

  // ---------------------------------------------------------------------------------------------
  // Packages

  function Unpacks(v: Version, dir: Path, files: seq<(Path, Content)>): (ws: seq<Write>)
    ensures AllInside({v}, ws)
    decreases |files|
  {
    if files == [] then [] else Puts(v, dir + files[0].0, files[0].1) + Unpacks(v, dir, files[1..])
  }

  function Recorded(v: Version, dir: Path, pkg: Package): (ws: seq<Write>)
    ensures AllInside({v}, ws)
  {
    if pkg.whole && pkg.metadataLands then Puts(v, dir + [METADATA_FILE], Metadata(ARCHIVE)) else []
  }

  /** The names below the package's directory are removed, its files are written, then the metadata. */
  function ExtractWrites(v: Version, dir: Path, pkg: Package, order: seq<Path>): (ws: seq<Write>)
    ensures AllInside({v}, ws)
  {
    Removes(v, order) + (Unpacks(v, dir, pkg.files) + Recorded(v, dir, pkg))
  }

  function Below(tree: Tree, dir: Path): set<Path> {
    set p | p in tree && dir <= p
  }

  lemma {:induction false} UnpacksResult(d: Disk, v: Version, dir: Path, files: seq<(Path, Content)>)
    requires v in d.versions
    ensures ApplyAll(d, Unpacks(v, dir, files)) == Edited(d, v, Unpacked(d.versions[v], dir, files))
    decreases |files|
  {
    if files == [] {
      assert d.versions[v := d.versions[v]] == d.versions;
    } else {
      var d1 := Edited(d, v, d.versions[v][dir + files[0].0 := files[0].1]);
      ApplyAllConcat(d, Puts(v, dir + files[0].0, files[0].1), Unpacks(v, dir, files[1..]));
      PutsResult(d, v, dir + files[0].0, files[0].1);
      UnpacksResult(d1, v, dir, files[1..]);
    }
  }

  lemma RecordedResult(d: Disk, v: Version, dir: Path, pkg: Package)
    requires v in d.versions
    ensures ApplyAll(d, Recorded(v, dir, pkg)) ==
            if pkg.whole && pkg.metadataLands then
              Edited(d, v, d.versions[v][dir + [METADATA_FILE] := Metadata(ARCHIVE)])
            else d
  {
    PutsResult(d, v, dir + [METADATA_FILE], Metadata(ARCHIVE));
  }

  lemma FilledResult(d: Disk, v: Version, dir: Path, pkg: Package)
    requires v in d.versions
    ensures var unpacked := Unpacked(d.versions[v], dir, pkg.files);
            ApplyAll(d, Unpacks(v, dir, pkg.files) + Recorded(v, dir, pkg)) ==
            Edited(d, v, if pkg.whole && pkg.metadataLands then unpacked[dir + [METADATA_FILE] := Metadata(ARCHIVE)]
                         else unpacked)
  {
    ApplyAllConcat(d, Unpacks(v, dir, pkg.files), Recorded(v, dir, pkg));
    UnpacksResult(d, v, dir, pkg.files);
    RecordedResult(Edited(d, v, Unpacked(d.versions[v], dir, pkg.files)), v, dir, pkg);
  }

  lemma ClearedResult(d: Disk, v: Version, dir: Path, order: seq<Path>)
    requires v in d.versions && Covers(order, Below(d.versions[v], dir))
    ensures ApplyAll(d, Removes(v, order)) == Edited(d, v, Without(d.versions[v], dir))
  {
    RemovesResult(d, v, order);
    assert d.versions[v] - NamesIn(order) == Without(d.versions[v], dir);
  }

  lemma ExtractResult(d: Disk, v: Version, dir: Path, pkg: Package, order: seq<Path>)
    requires v in d.versions && Covers(order, Below(d.versions[v], dir))
    ensures ApplyAll(d, ExtractWrites(v, dir, pkg, order)) == Edited(d, v, Extract(d.versions[v], dir, pkg))
  {
    ApplyAllConcat(d, Removes(v, order), Unpacks(v, dir, pkg.files) + Recorded(v, dir, pkg));
    ClearedResult(d, v, dir, order);
    FilledResult(Edited(d, v, Without(d.versions[v], dir)), v, dir, pkg);
  }

  /** One order of removal for every package, used if the package is extracted. */
  function FetchWrites(v: Version, packages: seq<Package>, filter: set<string>, slot: Slot, orders: seq<seq<Path>>)
    : (ws: seq<Write>)
    requires |orders| == |packages|
    ensures AllInside({v}, ws)
    decreases |packages|
  {
    if packages == [] then []
    else if Wanted(packages[0], filter) && packages[0].delivered then
      ExtractWrites(v, PackageDir(packages[0].name, slot), packages[0], orders[0])
      + FetchWrites(v, packages[1..], filter, slot, orders[1..])
    else FetchWrites(v, packages[1..], filter, slot, orders[1..])
  }

  ghost predicate FetchOrders(tree: Tree, packages: seq<Package>, filter: set<string>, slot: Slot,
                              orders: seq<seq<Path>>)
    decreases |packages|
  {
    && |orders| == |packages|
    && (packages != [] ==>
          if Wanted(packages[0], filter) && packages[0].delivered then
            var dir := PackageDir(packages[0].name, slot);
            Covers(orders[0], Below(tree, dir))
            && FetchOrders(Extract(tree, dir, packages[0]), packages[1..], filter, slot, orders[1..])
          else FetchOrders(tree, packages[1..], filter, slot, orders[1..]))
  }

  lemma {:induction false} FetchResult(d: Disk, v: Version, results: set<string>, packages: seq<Package>,
                                       filter: set<string>, slot: Slot, orders: seq<seq<Path>>)
    requires v in d.versions && FetchOrders(d.versions[v], packages, filter, slot, orders)
    ensures ApplyAll(d, FetchWrites(v, packages, filter, slot, orders)) ==
            Edited(d, v, FetchAll(d.versions[v], results, packages, filter, slot).0)
    decreases |packages|
  {
    if packages == [] {
      assert d.versions[v := d.versions[v]] == d.versions;
    } else {
      var pkg, rest := packages[0], FetchWrites(v, packages[1..], filter, slot, orders[1..]);
      if Wanted(pkg, filter) && pkg.delivered {
        var dir := PackageDir(pkg.name, slot);
        ApplyAllConcat(d, ExtractWrites(v, dir, pkg, orders[0]), rest);
        ExtractResult(d, v, dir, pkg, orders[0]);
        FetchResult(Edited(d, v, Extract(d.versions[v], dir, pkg)), v,
                    if pkg.whole then results + {pkg.name} else results, packages[1..], filter, slot, orders[1..]);
      } else {
        FetchResult(d, v, results, packages[1..], filter, slot, orders[1..]);
      }
    }
  }

  // The same package by package.

  lemma {:induction false} UnpacksConcat(v: Version, dir: Path, a: seq<(Path, Content)>, b: seq<(Path, Content)>)
    ensures Unpacks(v, dir, a + b) == Unpacks(v, dir, a) + Unpacks(v, dir, b)
    decreases |a|
  {
    if a == [] {
      assert a + b == b;
    } else {
      assert (a + b)[0] == a[0] && (a + b)[1..] == a[1..] + b;
      UnpacksConcat(v, dir, a[1..], b);
      WritesAssociative(Puts(v, dir + a[0].0, a[0].1), Unpacks(v, dir, a[1..]), Unpacks(v, dir, b));
    }
  }

  lemma NextUnpack(v: Version, dir: Path, files: seq<(Path, Content)>, i: nat)
    requires i < |files|
    ensures Unpacks(v, dir, files[..i + 1]) == Unpacks(v, dir, files[..i]) + Puts(v, dir + files[i].0, files[i].1)
  {
    assert files[..i + 1] == files[..i] + [files[i]];
    UnpacksConcat(v, dir, files[..i], [files[i]]);
    assert [files[i]][1..] == [];
    assert Puts(v, dir + files[i].0, files[i].1) + [] == Puts(v, dir + files[i].0, files[i].1);
  }

  function ExtractedNext(tree: Tree, results: set<string>, pkg: Package, filter: set<string>, slot: Slot)
    : (Tree, set<string>)
  {
    if Wanted(pkg, filter) && pkg.delivered then
      (Extract(tree, PackageDir(pkg.name, slot), pkg), if pkg.whole then results + {pkg.name} else results)
    else (tree, results)
  }

  lemma {:induction false} FetchAllOneMore(tree: Tree, results: set<string>, packages: seq<Package>, pkg: Package,
                                           filter: set<string>, slot: Slot)
    ensures var (t, rs) := FetchAll(tree, results, packages, filter, slot);
            FetchAll(tree, results, packages + [pkg], filter, slot) == ExtractedNext(t, rs, pkg, filter, slot)
    decreases |packages|
  {
    var more := packages + [pkg];
    if packages == [] {
      assert more == [pkg] && more[1..] == [];
    } else {
      assert more[0] == packages[0] && more[1..] == packages[1..] + [pkg];
      var (t, rs) := ExtractedNext(tree, results, packages[0], filter, slot);
      FetchAllOneMore(t, rs, packages[1..], pkg, filter, slot);
    }
  }

  function WritesNext(v: Version, pkg: Package, filter: set<string>, slot: Slot, order: seq<Path>): seq<Write> {
    if Wanted(pkg, filter) && pkg.delivered then ExtractWrites(v, PackageDir(pkg.name, slot), pkg, order) else []
  }

  lemma {:induction false} FetchWritesOneMore(v: Version, packages: seq<Package>, pkg: Package, filter: set<string>,
                                              slot: Slot, orders: seq<seq<Path>>, order: seq<Path>)
    requires |orders| == |packages|
    ensures FetchWrites(v, packages + [pkg], filter, slot, orders + [order]) ==
            FetchWrites(v, packages, filter, slot, orders) + WritesNext(v, pkg, filter, slot, order)
    decreases |packages|
  {
    var more, moreOrders := packages + [pkg], orders + [order];
    if packages == [] {
      assert more == [pkg] && more[1..] == [] && moreOrders == [order] && moreOrders[1..] == [];
    } else {
      assert more[0] == packages[0] && more[1..] == packages[1..] + [pkg];
      assert moreOrders[0] == orders[0] && moreOrders[1..] == orders[1..] + [order];
      FetchWritesOneMore(v, packages[1..], pkg, filter, slot, orders[1..], order);
      WritesAssociative(WritesNext(v, packages[0], filter, slot, orders[0]),
                        FetchWrites(v, packages[1..], filter, slot, orders[1..]),
                        WritesNext(v, pkg, filter, slot, order));
    }
  }

  lemma {:induction false} FetchOrdersOneMore(tree: Tree, results: set<string>, packages: seq<Package>, pkg: Package,
                                              filter: set<string>, slot: Slot, orders: seq<seq<Path>>, order: seq<Path>)
    requires FetchOrders(tree, packages, filter, slot, orders)
    requires Wanted(pkg, filter) && pkg.delivered ==>
               Covers(order, Below(FetchAll(tree, results, packages, filter, slot).0, PackageDir(pkg.name, slot)))
    ensures FetchOrders(tree, packages + [pkg], filter, slot, orders + [order])
    decreases |packages|
  {
    var more, moreOrders := packages + [pkg], orders + [order];
    if packages == [] {
      assert more == [pkg] && more[1..] == [] && moreOrders == [order] && moreOrders[1..] == [];
    } else {
      assert more[0] == packages[0] && more[1..] == packages[1..] + [pkg];
      assert moreOrders[0] == orders[0] && moreOrders[1..] == orders[1..] + [order];
      var (t, rs) := ExtractedNext(tree, results, packages[0], filter, slot);
      FetchOrdersOneMore(t, rs, packages[1..], pkg, filter, slot, orders[1..], order);
    }
  }

  function DroppedNames(tree: Tree, keep: set<string>, slot: Slot): set<Path> {
    set p | p in tree && Dropped(tree, keep, slot, p)
  }

  lemma DropResult(d: Disk, v: Version, keep: set<string>, slot: Slot, order: seq<Path>)
    requires v in d.versions && Covers(order, DroppedNames(d.versions[v], keep, slot))
    ensures ApplyAll(d, Removes(v, order)) == Edited(d, v, DropUnlisted(d.versions[v], keep, slot))
  {
    RemovesResult(d, v, order);
    assert d.versions[v] - NamesIn(order) == DropUnlisted(d.versions[v], keep, slot);
  }

  // ---------------------------------------------------------------------------------------------
  // The whole install

  /** The orders in which the file system lists names: of the live tree, of each package's old directory, of what
      is dropped, of a staging that is discarded, and of what is pruned. */
  datatype Orders = Orders(clone: seq<Path>, clears: seq<seq<Path>>, drops: seq<Path>, discard: seq<Path>,
                           removals: seq<Removal>)

  ghost predicate AllFetched(d0: Disk, r: Request) {
    Requested(r.packages, r.filter) <= Fetched(d0, r).1
  }

  ghost predicate Tidies(d0: Disk, r: Request) {
    AllFetched(d0, r) && r.filter == {}
  }

  ghost predicate HealthyAfter(d0: Disk, r: Request) {
    Broken(LiveTree(Switched(d0, r)), Requested(r.packages, r.filter), r.slot) == {}
  }

  ghost predicate Orderly(d: Disk, r: Request, o: Orders) {
    var d0 := Ensure(d);
    && Covers(o.clone, LiveTree(d0).Keys)
    && FetchOrders(LiveTree(d0)[MARKER := EMPTY], r.packages, r.filter, r.slot, o.clears)
    && (Tidies(d0, r) ==>
          Covers(o.drops, DroppedNames(Fetched(d0, r).0, Requested(r.packages, r.filter), r.slot)))
    && (AllFetched(d0, r) && HealthyAfter(d0, r) ==> Prunes(Switched(d0, r), r.keep, o.removals))
  }

  /** Everything inside the staged directory, up to the commit or the discard. */
  ghost function StagedWrites(d0: Disk, r: Request, o: Orders): (ws: seq<Write>)
    requires |o.clears| == |r.packages|
    ensures AllInside({Staging(d0, r.version)}, ws)
  {
    var v := Staging(d0, r.version);
    StageWrites(d0, r.version, o.clone)
    + (FetchWrites(v, r.packages, r.filter, r.slot, o.clears)
       + if Tidies(d0, r) then Removes(v, o.drops) else [])
  }

  /** The staged tree when they are done. */
  ghost function Prepared(d0: Disk, r: Request): Disk {
    WithStaged(d0, r, if AllFetched(d0, r) then Finished(d0, r) else Fetched(d0, r).0)
  }

  /** What follows a commit. */
  ghost function ConcludingWrites(d0: Disk, r: Request, o: Orders): seq<Write> {
    if HealthyAfter(d0, r) then PruneWrites(o.removals) else RollbackWrites(Switched(d0, r))
  }

  ghost function ClosingWrites(d0: Disk, r: Request, o: Orders): seq<Write> {
    if !AllFetched(d0, r) then DiscardWrites(Prepared(d0, r), r.version, o.discard)
    else CommitWrites(Prepared(d0, r), Staging(d0, r.version), Some(r.session)) + ConcludingWrites(d0, r, o)
  }

  /** The repair, the staged tree, and the discard or the commit and what follows it. */
  ghost function InstallSteps(d: Disk, r: Request, o: Orders): seq<Write>
    requires |o.clears| == |r.packages|
  {
    EnsureWrites(d) + (StagedWrites(Ensure(d), r, o) + ClosingWrites(Ensure(d), r, o))
  }

  // Whatever the disk holds, there are such orders.

  lemma {:induction false} NamesHaveAnOrder(names: set<Path>) returns (order: seq<Path>)
    ensures Covers(order, names)
    decreases |names|
  {
    order := [];
    if names != {} {
      var p :| p in names;
      var rest := NamesHaveAnOrder(names - {p});
      order := [p] + rest;
    }
  }

  lemma {:induction false} VersionsHaveAnOrder(vs: set<Version>) returns (removals: seq<Removal>)
    ensures Victims(removals) == vs && Different(removals)
    decreases |vs|
  {
    removals := [];
    if vs != {} {
      var v :| v in vs;
      var rest := VersionsHaveAnOrder(vs - {v});
      NextRemoval(rest, Removal(v, []));
      removals := rest + [Removal(v, [])];
    }
  }

  lemma {:induction false} PackagesHaveOrders(tree: Tree, results: set<string>, packages: seq<Package>,
                                              filter: set<string>, slot: Slot) returns (orders: seq<seq<Path>>)
    ensures FetchOrders(tree, packages, filter, slot, orders)
    decreases |packages|
  {
    orders := [];
    if packages != [] {
      var order := NamesHaveAnOrder(Below(tree, PackageDir(packages[0].name, slot)));
      var (t, rs) := ExtractedNext(tree, results, packages[0], filter, slot);
      var rest := PackagesHaveOrders(t, rs, packages[1..], filter, slot);
      orders := [order] + rest;
      assert orders[0] == order && orders[1..] == rest;
    }
  }

  lemma InstallsHaveOrders(d: Disk, r: Request) returns (o: Orders)
    ensures Orderly(d, r, o)
  {
    var d0 := Ensure(d);
    var clone := NamesHaveAnOrder(LiveTree(d0).Keys);
    var clears := PackagesHaveOrders(LiveTree(d0)[MARKER := EMPTY], {}, r.packages, r.filter, r.slot);
    var drops := NamesHaveAnOrder(DroppedNames(Fetched(d0, r).0, Requested(r.packages, r.filter), r.slot));
    var after := Switched(d0, r);
    var removals := VersionsHaveAnOrder(after.versions.Keys - Kept(after, r.keep));
    o := Orders(clone, clears, drops, [], removals);
  }

  lemma FetchedResult(d0: Disk, r: Request, clears: seq<seq<Path>>)
    requires FetchOrders(LiveTree(d0)[MARKER := EMPTY], r.packages, r.filter, r.slot, clears)
    ensures ApplyAll(Stage(d0, r.version), FetchWrites(Staging(d0, r.version), r.packages, r.filter, r.slot, clears)) ==
            WithStaged(d0, r, Fetched(d0, r).0)
  {
    FetchResult(Stage(d0, r.version), Staging(d0, r.version), {}, r.packages, r.filter, r.slot, clears);
  }

  lemma TidiedResult(d0: Disk, r: Request, drops: seq<Path>)
    requires Tidies(d0, r) ==>
               Covers(drops, DroppedNames(Fetched(d0, r).0, Requested(r.packages, r.filter), r.slot))
    ensures ApplyAll(WithStaged(d0, r, Fetched(d0, r).0),
                     if Tidies(d0, r) then Removes(Staging(d0, r.version), drops) else []) ==
            Prepared(d0, r)
  {
    if Tidies(d0, r) {
      DropResult(WithStaged(d0, r, Fetched(d0, r).0), Staging(d0, r.version), Requested(r.packages, r.filter), r.slot,
                 drops);
    }
  }

  lemma StagedWritesResult(d0: Disk, r: Request, o: Orders)
    requires Covers(o.clone, LiveTree(d0).Keys)
    requires FetchOrders(LiveTree(d0)[MARKER := EMPTY], r.packages, r.filter, r.slot, o.clears)
    requires Tidies(d0, r) ==>
               Covers(o.drops, DroppedNames(Fetched(d0, r).0, Requested(r.packages, r.filter), r.slot))
    ensures ApplyAll(d0, StagedWrites(d0, r, o)) == Prepared(d0, r)
  {
    var v := Staging(d0, r.version);
    var fetch := FetchWrites(v, r.packages, r.filter, r.slot, o.clears);
    var tidy := if Tidies(d0, r) then Removes(v, o.drops) else [];
    StageResult(d0, r.version, o.clone);
    FetchedResult(d0, r, o.clears);
    TidiedResult(d0, r, o.drops);
    ApplyAllConcat(d0, StageWrites(d0, r.version, o.clone), fetch + tidy);
    ApplyAllConcat(Stage(d0, r.version), fetch, tidy);
  }

  lemma ClosingResult(d: Disk, r: Request, o: Orders)
    requires Orderly(d, r, o)
    ensures ApplyAll(Prepared(Ensure(d), r), ClosingWrites(Ensure(d), r, o)) == Install(d, r).1
  {
    var d0 := Ensure(d);
    if !AllFetched(d0, r) {
      DiscardResult(Prepared(d0, r), r.version, o.discard);
    } else {
      StagedTakesNewest(d0, r, Finished(d0, r));
      ApplyAllConcat(Prepared(d0, r), CommitWrites(Prepared(d0, r), Staging(d0, r.version), Some(r.session)),
                     ConcludingWrites(d0, r, o));
      if HealthyAfter(d0, r) {
        PruneCarriedOut(Switched(d0, r), r.keep, o.removals);
      }
    }
  }

  /** The writes carry out the install. */
  lemma InstallCarriedOut(d: Disk, r: Request, o: Orders)
    requires Orderly(d, r, o)
    ensures ApplyAll(d, InstallSteps(d, r, o)) == Install(d, r).1
  {
    var d0 := Ensure(d);
    ApplyAllConcat(d, EnsureWrites(d), StagedWrites(d0, r, o) + ClosingWrites(d0, r, o));
    ApplyAllConcat(d0, StagedWrites(d0, r, o), ClosingWrites(d0, r, o));
    StagedWritesResult(d0, r, o);
    ClosingResult(d, r, o);
  }

  // ---------------------------------------------------------------------------------------------
  // Interrupted

  /** The link leads where it led, the two small files and every earlier version are as they were. */
  ghost predicate Untouched(d0: Disk, d': Disk) {
    && d'.link == d0.link && d'.previous == d0.previous && d'.session == d0.session
    && (forall m :: m in d0.versions ==> m in d'.versions && d'.versions[m] == d0.versions[m])
  }

  /** Until the commit nothing but the staged directory has changed. */
  lemma InterruptedStaging(d0: Disk, r: Request, o: Orders, k: nat)
    requires |o.clears| == |r.packages| && k <= |StagedWrites(d0, r, o)|
    ensures Untouched(d0, ApplyAll(d0, StagedWrites(d0, r, o)[..k]))
  {
    InterruptedInside(d0, StagedWrites(d0, r, o), {Staging(d0, r.version)}, k);
    StagedTakesNewest(d0, r, map[]);
  }

  lemma PreparedIsUntouched(d0: Disk, r: Request)
    ensures Untouched(d0, Prepared(d0, r)) && Staging(d0, r.version) in Prepared(d0, r).versions
    ensures Staging(d0, r.version) !in d0.versions
    ensures Resolve(Prepared(d0, r), r.version) == Some(Staging(d0, r.version))
  {
    StagedTakesNewest(d0, r, Prepared(d0, r).versions[Staging(d0, r.version)]);
  }

  /** What an interruption in the closing part can find: after the repair, whether an earlier version is left as it
      was unless it is pruned, and which tree is live. */
  ghost predicate Intact(d: Disk, r: Request, d': Disk) {
    var d0 := Ensure(d);
    forall m :: m in d0.versions && (Install(d, r).0.Installed? ==> m in Kept(Switched(d0, r), r.keep)) ==>
                  m in d'.versions && d'.versions[m] == d0.versions[m]
  }

  /** The tree that was live at the start, or nothing if there was none. */
  ghost predicate OldLive(d0: Disk, d': Disk) {
    Current(d') == Current(d0) && LiveTree(d') == LiveTree(d0)
  }

  /** The finished tree. */
  ghost predicate NewLive(d0: Disk, r: Request, d': Disk) {
    Current(d') == Some(Staging(d0, r.version)) && LiveTree(d') == Finished(d0, r) - {MARKER}
  }

  /** The version before the one at the start, which is where a session that committed last is rolled back to. */
  ghost predicate OlderLive(d0: Disk, r: Request, d': Disk) {
    OwnWork(d0, Some(r.session)) && Current(d') == Previous(d0) && Current(d').Some?
    && LiveTree(d') == d0.versions[Current(d').value]
  }

  ghost predicate Started(d0: Disk) {
    Healthy(d0) || (d0.link == NoLink && d0.versions == map[])
  }

  lemma UntouchedIsOldLive(d0: Disk, d': Disk)
    requires Started(d0) && Untouched(d0, d')
    ensures OldLive(d0, d') && (Healthy(d0) ==> Healthy(d'))
  {
  }

  lemma InterruptedDiscard(d0: Disk, r: Request, o: Orders, k: nat)
    requires Started(d0) && !AllFetched(d0, r) && k <= |ClosingWrites(d0, r, o)|
    ensures Untouched(d0, ApplyAll(Prepared(d0, r), ClosingWrites(d0, r, o)[..k]))
  {
    PreparedIsUntouched(d0, r);
    InterruptedInside(Prepared(d0, r), ClosingWrites(d0, r, o), Discarded(Prepared(d0, r), r.version), k);
  }

  /** In the middle of the commit the old tree is live, or the finished one. */
  lemma InterruptedCommit(d0: Disk, r: Request, k: nat)
    requires Started(d0) && AllFetched(d0, r)
    requires k <= |CommitWrites(Prepared(d0, r), Staging(d0, r.version), Some(r.session))|
    ensures var d' := ApplyAll(Prepared(d0, r),
                               CommitWrites(Prepared(d0, r), Staging(d0, r.version), Some(r.session))[..k]);
            && (forall m :: m in d0.versions ==> m in d'.versions && d'.versions[m] == d0.versions[m])
            && (k < 2 ==> Untouched(d0, d'))
            && (k >= 2 ==> NewLive(d0, r, d') && Healthy(d'))
  {
    PreparedIsUntouched(d0, r);
    CommitUpTo(Prepared(d0, r), Staging(d0, r.version), Some(r.session), k);
  }

  lemma SwitchedFacts(d0: Disk, r: Request)
    requires Started(d0) && AllFetched(d0, r)
    ensures NewLive(d0, r, Switched(d0, r)) && Healthy(Switched(d0, r))
    ensures Staging(d0, r.version) !in d0.versions
    ensures forall m :: m in d0.versions ==>
                        m in Switched(d0, r).versions && Switched(d0, r).versions[m] == d0.versions[m]
    ensures Switched(d0, r).versions.Keys == d0.versions.Keys + {Staging(d0, r.version)}
    ensures Switched(d0, r).previous ==
            if Current(d0).Some? && !OwnWork(d0, Some(r.session)) then Current(d0) else d0.previous
  {
    PreparedIsUntouched(d0, r);
    SwitchedResult(d0, r);
  }

  /** Pruning never touches the live tree. */
  lemma InterruptedPruning(d0: Disk, r: Request, removals: seq<Removal>, k: nat)
    requires Started(d0) && AllFetched(d0, r) && Prunes(Switched(d0, r), r.keep, removals)
    requires k <= |PruneWrites(removals)|
    ensures var d' := ApplyAll(Switched(d0, r), PruneWrites(removals)[..k]);
            && NewLive(d0, r, d') && Healthy(d')
            && forall m :: m in d0.versions && m in Kept(Switched(d0, r), r.keep) ==>
                             m in d'.versions && d'.versions[m] == d0.versions[m]
  {
    SwitchedFacts(d0, r);
    InterruptedInside(Switched(d0, r), PruneWrites(removals), Victims(removals), k);
    assert Current(Switched(d0, r)).value in Kept(Switched(d0, r), r.keep);
  }

  lemma InterruptedRollback(d0: Disk, r: Request, k: nat)
    requires Started(d0) && AllFetched(d0, r) && k <= |RollbackWrites(Switched(d0, r))|
    ensures var d' := ApplyAll(Switched(d0, r), RollbackWrites(Switched(d0, r))[..k]);
            && (forall m :: m in d0.versions ==> m in d'.versions && d'.versions[m] == d0.versions[m])
            && (OldLive(d0, d') || NewLive(d0, r, d') || OlderLive(d0, r, d')) && Healthy(d')
  {
    SwitchedFacts(d0, r);
    RollbackUpTo(Switched(d0, r), k);
  }

  /** Which trees may be live, and what must be there, after the repair. */
  ghost predicate Consistent(d: Disk, r: Request, d': Disk) {
    var d0 := Ensure(d);
    && Intact(d, r, d') && (Healthy(d0) ==> Healthy(d'))
    && (OldLive(d0, d') || NewLive(d0, r, d') || (Install(d, r).0 == Unhealthy && OlderLive(d0, r, d')))
  }

  lemma UntouchedIsConsistent(d: Disk, r: Request, d': Disk)
    requires Started(Ensure(d)) && Untouched(Ensure(d), d')
    ensures Consistent(d, r, d')
  {
    UntouchedIsOldLive(Ensure(d), d');
  }

  /** How an install with everything fetched ends. */
  lemma OutcomeOfCheck(d: Disk, r: Request)
    requires AllFetched(Ensure(d), r)
    ensures Install(d, r).0.Installed? <==> HealthyAfter(Ensure(d), r)
    ensures Install(d, r).0 == Unhealthy <==> !HealthyAfter(Ensure(d), r)
  {
    CommitSucceeds(d, r);
  }

  lemma InterruptedConcluding(d: Disk, r: Request, o: Orders, k: nat)
    requires Orderly(d, r, o) && Started(Ensure(d)) && AllFetched(Ensure(d), r)
    requires k <= |ConcludingWrites(Ensure(d), r, o)|
    ensures Consistent(d, r, ApplyAll(Switched(Ensure(d), r), ConcludingWrites(Ensure(d), r, o)[..k]))
  {
    OutcomeOfCheck(d, r);
    if HealthyAfter(Ensure(d), r) {
      InterruptedPruning(Ensure(d), r, o.removals, k);
    } else {
      InterruptedRollback(Ensure(d), r, k);
    }
  }

  lemma CommitIsSwitch(d0: Disk, r: Request)
    requires AllFetched(d0, r)
    ensures ApplyAll(Prepared(d0, r), CommitWrites(Prepared(d0, r), Staging(d0, r.version), Some(r.session))) ==
            Switched(d0, r)
  {
    PreparedIsUntouched(d0, r);
  }

  lemma InterruptedCommitting(d: Disk, r: Request, k: nat)
    requires Started(Ensure(d)) && AllFetched(Ensure(d), r)
    requires k <= |CommitWrites(Prepared(Ensure(d), r), Staging(Ensure(d), r.version), Some(r.session))|
    ensures var d0 := Ensure(d);
            Consistent(d, r, ApplyAll(Prepared(d0, r),
                                      CommitWrites(Prepared(d0, r), Staging(d0, r.version), Some(r.session))[..k]))
  {
    InterruptedCommit(Ensure(d), r, k);
    if k < 2 {
      UntouchedIsOldLive(Ensure(d), ApplyAll(Prepared(Ensure(d), r),
        CommitWrites(Prepared(Ensure(d), r), Staging(Ensure(d), r.version), Some(r.session))[..k]));
    }
  }

  lemma InterruptedClosing(d: Disk, r: Request, o: Orders, k: nat)
    requires Orderly(d, r, o) && Started(Ensure(d)) && k <= |ClosingWrites(Ensure(d), r, o)|
    ensures Consistent(d, r, ApplyAll(Prepared(Ensure(d), r), ClosingWrites(Ensure(d), r, o)[..k]))
  {
    var d0 := Ensure(d);
    if !AllFetched(d0, r) {
      InterruptedDiscard(d0, r, o, k);
      UntouchedIsConsistent(d, r, ApplyAll(Prepared(d0, r), ClosingWrites(d0, r, o)[..k]));
    } else {
      var commit := CommitWrites(Prepared(d0, r), Staging(d0, r.version), Some(r.session));
      PrefixOfConcat(Prepared(d0, r), commit, ConcludingWrites(d0, r, o), k);
      CommitIsSwitch(d0, r);
      if k <= |commit| {
        InterruptedCommitting(d, r, k);
      } else {
        InterruptedConcluding(d, r, o, k - |commit|);
      }
    }
  }

  /** Where an install stands after `j` writes from the repair on. */
  lemma InterruptedAfterRepair(d: Disk, r: Request, o: Orders, j: nat)
    requires Orderly(d, r, o) && Started(Ensure(d))
    requires j <= |StagedWrites(Ensure(d), r, o)| + |ClosingWrites(Ensure(d), r, o)|
    ensures var d0 := Ensure(d);
            var d' := ApplyAll(d0, (StagedWrites(d0, r, o) + ClosingWrites(d0, r, o))[..j]);
            Consistent(d, r, d') && (j <= |StagedWrites(d0, r, o)| ==> Untouched(d0, d'))
  {
    var d0, s, c := Ensure(d), StagedWrites(Ensure(d), r, o), ClosingWrites(Ensure(d), r, o);
    PrefixOfConcat(d0, s, c, j);
    StagedWritesResult(d0, r, o);
    if j <= |s| {
      InterruptedStaging(d0, r, o, j);
      UntouchedIsConsistent(d, r, ApplyAll(d0, s[..j]));
    } else {
      InterruptedClosing(d, r, o, j - |s|);
    }
  }

  /** An install interrupted after any number of its writes.  In the repair at its start it has done just those of
      the repair.  From then to the commit nothing but the staged directory has changed: not the link, the rollback
      pointer, the session or any earlier version.  At every later point every version is as it was but those that
      are pruned, and live is the tree that was, or the finished one, or, if a session that committed last is being
      rolled back, the one before.  The link is on a directory throughout if it was when the install began. */
  lemma InterruptedInstall(d: Disk, r: Request, o: Orders, k: nat)
    requires Orderly(d, r, o) && k <= |InstallSteps(d, r, o)|
    ensures var d0, d' := Ensure(d), ApplyAll(d, InstallSteps(d, r, o)[..k]);
            var repaired := |EnsureWrites(d)|;
            && (k <= repaired ==> d' == ApplyAll(d, EnsureWrites(d)[..k]))
            && (repaired <= k <= repaired + |StagedWrites(d0, r, o)| ==> Untouched(d0, d'))
            && (repaired <= k ==> Consistent(d, r, d'))
            && (Healthy(d) ==> Healthy(d'))
  {
    var d0, e, rest := Ensure(d), EnsureWrites(d), StagedWrites(Ensure(d), r, o) + ClosingWrites(Ensure(d), r, o);
    EnsureHeals(d);
    PrefixOfConcat(d, e, rest, k);
    if k >= |e| {
      assert e[..|e|] == e && rest[..0] == [];
      InterruptedAfterRepair(d, r, o, k - |e|);
    }
  }
}

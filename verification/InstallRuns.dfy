/** What holds of the install tree over runs of its operations, and at the points where a crash can interrupt
    them (raisin_ota/install_tree.py). */
module InstallRuns {
  import opened Wrappers
  import opened InstallTree
  import opened InstallWrites

  /** The live link is one of this module's and leads to a directory. */
  predicate Healthy(d: Disk) {
    d.link.LinkTo? && d.link.target in d.versions
  }

  // ---------------------------------------------------------------------------------------------
  // Writes one by one

  ghost predicate HealthyThroughout(d: Disk, ws: seq<Write>)
    decreases |ws|
  {
    Healthy(d) && (ws == [] || HealthyThroughout(Apply(d, ws[0]), ws[1..]))
  }

  lemma {:induction false} HealthyAt(d: Disk, ws: seq<Write>, k: nat)
    requires HealthyThroughout(d, ws) && k <= |ws|
    ensures Healthy(ApplyAll(d, ws[..k]))
    decreases k
  {
    if k > 0 {
      HealthyAt(Apply(d, ws[0]), ws[1..], k - 1);
      assert ws[..k][1..] == ws[1..][..k - 1];
    }
  }

  /** A write that points the link only to what is there. */
  predicate KeepsHealth(d: Disk, w: Write) {
    match w
    case Point(v) => v in d.versions
    case Unlink => false
    case Adopt(_) => false
    case MakeDir(_) => false
    case RemoveDir(_) => false
    case _ => true
  }

  lemma {:induction false} SafeWrites(d: Disk, ws: seq<Write>)
    requires Healthy(d) && forall w :: w in ws ==> KeepsHealth(d, w)
    ensures HealthyThroughout(d, ws)
    decreases |ws|
  {
    if ws != [] {
      assert ws[0] in ws;
      var d1 := Apply(d, ws[0]);
      assert d1.versions.Keys == d.versions.Keys;
      forall w | w in ws[1..]
        ensures KeepsHealth(d1, w)
      {
        assert w in ws && KeepsHealth(d, w);
      }
      SafeWrites(d1, ws[1..]);
    }
  }

  /** At every point where a commit or a rollback can be interrupted the link leads to a directory. */
  lemma CommitKeepsLink(d: Disk, target: Version, session: Option<string>, k: nat)
    requires Healthy(d) && target in d.versions && k <= |CommitWrites(d, target, session)|
    ensures Healthy(ApplyAll(d, CommitWrites(d, target, session)[..k]))
  {
    SafeWrites(d, CommitWrites(d, target, session));
    HealthyAt(d, CommitWrites(d, target, session), k);
  }

  lemma RollbackKeepsLink(d: Disk, k: nat)
    requires Healthy(d) && k <= |RollbackWrites(d)|
    ensures Healthy(ApplyAll(d, RollbackWrites(d)[..k]))
  {
    SafeWrites(d, RollbackWrites(d));
    HealthyAt(d, RollbackWrites(d), k);
  }

  // ---------------------------------------------------------------------------------------------
  // What commit and rollback leave

  lemma ApplyPrevious(d: Disk, p: Option<Version>)
    ensures ApplyAll(d, WritesPrevious(p)) == d.(previous := p)
  {
    ApplyOne(d, SetPrevious(None));
    ApplyTwo(d, SetPrevious(None), SetPrevious(p));
  }

  /** What a session file is read back as. */
  function ReadBack(session: Option<string>): Option<string> {
    if session == Some("") then None else session
  }

  lemma ApplySession(d: Disk, s: Option<string>)
    ensures ApplyAll(d, WritesSession(s)) == d.(session := ReadBack(s))
  {
    ApplyOne(d, SetSession(None));
    ApplyTwo(d, SetSession(None), SetSession(s));
  }

  lemma CommitResult(d: Disk, target: Version, session: Option<string>)
    requires target in d.versions
    ensures ApplyAll(d, CommitWrites(d, target, session)) ==
            Disk(d.versions[target := d.versions[target] - {MARKER}], LinkTo(target),
                 if MovesPrevious(d, target, session) then Current(d) else d.previous, ReadBack(session))
  {
    var w1 := [RemoveName(target, MARKER), Point(target)];
    var w2 := if MovesPrevious(d, target, session) then WritesPrevious(Current(d)) else [];
    var w3 := WritesSession(session);
    ApplyAllConcat(d, w1 + w2, w3);
    ApplyAllConcat(d, w1, w2);
    ApplyTwo(d, RemoveName(target, MARKER), Point(target));
    var d1 := ApplyAll(d, w1);
    ApplyPrevious(d1, Current(d));
    ApplySession(ApplyAll(d1, w2), session);
  }

  lemma RollbackResult(d: Disk)
    ensures Rollback(d) ==
            if Previous(d).None? then d
            else d.(link := LinkTo(Previous(d).value), previous := Predecessor(d, Previous(d).value))
  {
    if Previous(d).Some? {
      var p := Previous(d).value;
      var ws := RollbackWrites(d);
      assert ws[1..] == WritesPrevious(Predecessor(d, p));
      ApplyPrevious(Apply(d, Point(p)), Predecessor(d, p));
    }
  }

  // The same by what is on the disk.

  /** The version is the newest directory of its name. */
  ghost predicate NewestNamed(d: Disk, v: Version) {
    v in d.versions && forall m :: m in d.versions && m.name == v.name ==> m.gen <= v.gen
  }

  /** A commit fails if and only if no directory has the version's name.  Otherwise the newest one goes live without its
      marker; the rollback pointer goes to what the link led to, unless that was nothing, the same directory, or the
      work of the session that commits; an empty session is none. */
  lemma CommitExactly(d: Disk, version: string, session: Option<string>)
    ensures var (live, d') := Commit(d, version, session);
            && (live == None <==> forall v :: v in d.versions ==> v.name != version)
            && (live == None ==> d' == d)
            && (live.Some? ==>
                  && live.value.name == version && NewestNamed(d, live.value)
                  && d'.link == LinkTo(live.value)
                  && d'.versions == d.versions[live.value := d.versions[live.value] - {[".staging"]}]
                  && d'.session == (if session == Some("") then None else session)
                  && d'.previous ==
                     if && d.link.LinkTo? && d.link.target in d.versions && d.link.target != live.value
                        && !(session.Some? && session.value != "" && d.session == session)
                     then Some(d.link.target)
                     else d.previous)
  {
    if Resolve(d, version).Some? {
      var target := Resolve(d, version).value;
      assert target in Named(d, version);
      CommitResult(d, target, session);
      assert forall m :: m in d.versions && m.name == version ==> m in Named(d, version);
    } else if v :| v in d.versions && v.name == version {
      assert v in Named(d, version);
    }
  }

  /** The version is the newest of those older than another one. */
  ghost predicate JustBelow(d: Disk, v: Version, below: Version) {
    below in d.versions && below.gen < v.gen && forall m :: m in d.versions && m.gen < v.gen ==> m.gen <= below.gen
  }

  /** A rollback goes to the directory the rollback pointer names, if it is there, and leaves that pointer on the newest
      of the directories older than that one, or on none if there are none. */
  lemma RollbackExactly(d: Disk)
    ensures var d' := Rollback(d);
            if d.previous == None || d.previous.value !in d.versions then d' == d
            else
              var v := d.previous.value;
              && d'.link == LinkTo(v) && d'.versions == d.versions && d'.session == d.session
              && (d'.previous == None <==> forall m :: m in d.versions ==> v.gen <= m.gen)
              && (d'.previous.Some? ==> JustBelow(d, v, d'.previous.value))
  {
    RollbackResult(d);
    if Previous(d).Some? {
      var v := Previous(d).value;
      assert forall m :: m in Older(d, v) <==> m in d.versions && m.gen < v.gen;
      if Older(d, v) != {} {
        var m :| m in Older(d, v);
      }
    }
  }

  ghost predicate NewestOfAll(d: Disk, v: Version) {
    v in d.versions && forall m :: m in d.versions ==> m.gen <= v.gen
  }

  /** A repair leaves a link to an existing directory alone; it makes a directory in the link's place the newest version
      and links it; otherwise it links the newest version, or removes a link if there is no version. */
  lemma EnsureExactly(d: Disk)
    ensures var d' := Ensure(d);
            && d'.previous == d.previous && d'.session == d.session
            && match d.link
               case RealDirectory(tree) =>
                 && d'.link.LinkTo? && d'.link.target !in d.versions && NewestOfAll(d', d'.link.target)
                 && d'.link.target.name == "legacy" && d'.versions == d.versions[d'.link.target := tree]
               case LinkTo(target) =>
                 if target in d.versions then d' == d
                 else if d.versions == map[] then d' == d.(link := NoLink)
                 else d' == d.(link := d'.link) && d'.link.LinkTo? && NewestOfAll(d, d'.link.target)
               case NoLink =>
                 if d.versions == map[] then d' == d
                 else d' == d.(link := d'.link) && d'.link.LinkTo? && NewestOfAll(d, d'.link.target)
  {
    var v := Version(NextGeneration(d), LEGACY);
    ApplyTwo(d, Adopt(v), Point(v));
    ApplyOne(d, Unlink);
    assert d.versions == map[] <==> d.versions.Keys == {};
    if d.versions.Keys != {} {
      ApplyOne(d, Point(Newest(d.versions.Keys)));
    }
  }

  /** A staging adds one directory: newer than all, of the version's name, with what the link leads to and the
      marker. */
  lemma StageExactly(d: Disk, version: string, v: Version)
    requires v in Stage(d, version).versions && v !in d.versions
    ensures v.name == version && forall m :: m in d.versions ==> m.gen < v.gen
    ensures Stage(d, version) == d.(versions := d.versions[v := Stage(d, version).versions[v]])
    ensures forall p :: p != [".staging"] ==>
              (p in Stage(d, version).versions[v] <==>
                 d.link.LinkTo? && d.link.target in d.versions && p in d.versions[d.link.target])
    ensures forall p :: p != [".staging"] && p in Stage(d, version).versions[v] ==>
              Stage(d, version).versions[v][p] == d.versions[d.link.target][p]
    ensures [".staging"] in Stage(d, version).versions[v] && Stage(d, version).versions[v][[".staging"]] == Bytes("")
  {
  }

  /** A discard removes the newest directory of the version's name, unless it is the one the link leads to, and nothing
      else. */
  lemma DiscardExactly(d: Disk, version: string)
    requires DistinctGens(d)
    ensures var d' := Discard(d, version);
            && d' == d.(versions := d'.versions)
            && (forall v :: v in d'.versions ==> v in d.versions && d'.versions[v] == d.versions[v])
            && (forall v :: v in d.versions ==>
                  (v !in d'.versions <==> v.name == version && NewestNamed(d, v) && d.link != LinkTo(v)))
  {
    assert forall m :: m in Named(d, version) <==> m in d.versions && m.name == version;
    forall v | v in d.versions && v.name == version && NewestNamed(d, v)
      ensures Resolve(d, version) == Some(v)
    {
      NewestIsUnique(d, Named(d, version), v);
    }
  }

  // ---------------------------------------------------------------------------------------------
  // Staging and committing what was staged

  /** The directory a staging makes, whatever is in it, was not there, is newer than every other, and is what its
      version resolves to, even if that version is on disk already. */
  lemma AddedIsResolved(d: Disk, version: string, tree: Tree)
    ensures var v := Staging(d, version);
            var d' := d.(versions := d.versions[v := tree]);
            && v !in d.versions
            && Resolve(d', version) == Some(v)
            && OnlyTouches(d, d', {v})
            && (DistinctGens(d) ==> DistinctGens(d'))
  {
    var v := Staging(d, version);
    var d' := d.(versions := d.versions[v := tree]);
    assert v in Named(d', version);
    assert forall m :: m in Named(d', version) && m != v ==> m.gen < v.gen;
  }

  lemma StagedIsResolved(d: Disk, version: string)
    ensures Staging(d, version) !in d.versions
    ensures Resolve(Stage(d, version), version) == Some(Staging(d, version))
    ensures OnlyTouches(d, Stage(d, version), {Staging(d, version)})
    ensures DistinctGens(d) ==> DistinctGens(Stage(d, version))
  {
    AddedIsResolved(d, version, LiveTree(d)[MARKER := EMPTY]);
  }

  /** So committing a version just staged makes that directory live, without its marker and otherwise as the
      staging left it. */
  lemma CommitTakesStaged(d: Disk, version: string, session: Option<string>)
    ensures var v := Staging(d, version);
            var (live, d') := Commit(Stage(d, version), version, session);
            && live == Some(v) && Current(d') == Some(v)
            && d'.versions[v] == LiveTree(d) - {MARKER}
            && (forall m :: m in d.versions ==> m in d'.versions && d'.versions[m] == d.versions[m])
  {
    StagedIsResolved(d, version);
    CommitResult(Stage(d, version), Staging(d, version), session);
  }

  // ---------------------------------------------------------------------------------------------
  // Repair

  /** After the repair the link is healthy, or there is nothing it could lead to. */
  lemma EnsureHeals(d: Disk)
    ensures Healthy(Ensure(d)) || (Ensure(d).link == NoLink && Ensure(d).versions == map[])
    ensures d.versions.Keys <= Ensure(d).versions.Keys
    ensures forall v :: v in d.versions ==> Ensure(d).versions[v] == d.versions[v]
    ensures Healthy(d) ==> Ensure(d) == d
    ensures d.link.RealDirectory? ==> LiveTree(Ensure(d)) == d.link.tree
  {
    var v := Version(NextGeneration(d), LEGACY);
    ApplyTwo(d, Adopt(v), Point(v));
    ApplyOne(d, Unlink);
    if d.versions.Keys != {} {
      ApplyOne(d, Point(Newest(d.versions.Keys)));
    }
  }

  /** A crash in the middle of a repair leaves something the next repair heals, with every tree still there. */
  lemma InterruptedEnsureHeals(d: Disk, k: nat)
    requires k <= |EnsureWrites(d)|
    ensures var d' := ApplyAll(d, EnsureWrites(d)[..k]);
            && (Healthy(Ensure(d')) || (Ensure(d').link == NoLink && Ensure(d').versions == map[]))
            && (forall v :: v in d.versions ==> v in d'.versions && d'.versions[v] == d.versions[v])
            && (d.link.RealDirectory? && k > 0 ==> exists v :: v in d'.versions && d'.versions[v] == d.link.tree)
  {
    var ws := EnsureWrites(d);
    var d' := ApplyAll(d, ws[..k]);
    EnsureHeals(d');
    EnsureHeals(d);
    if k == |ws| {
      assert ws[..k] == ws;
      ApplyTwo(d, Adopt(Version(NextGeneration(d), LEGACY)), Point(Version(NextGeneration(d), LEGACY)));
    } else if k == 1 {
      assert ws[..1] == [ws[0]];
      ApplyOne(d, ws[0]);
      assert Version(NextGeneration(d), LEGACY) in d'.versions;
    }
  }

  // ---------------------------------------------------------------------------------------------
  // Runs that commit only what they staged

  /** `OpEdit` is anything done inside a staged directory. */
  datatype Op =
    | OpStage(version: string)
    | OpEdit(v: Version, tree: Tree)
    | OpCommit(version: string, session: Option<string>)
    | OpRollback
    | OpDiscard(version: string)
    | OpPrune(keep: int)

  ghost function Do(d: Disk, op: Op): Disk {
    match op
    case OpStage(version) => Stage(d, version)
    case OpEdit(v, tree) => d.(versions := d.versions[v := tree])
    case OpCommit(version, session) => Commit(d, version, session).1
    case OpRollback => Rollback(d)
    case OpDiscard(version) => Discard(d, version)
    case OpPrune(keep) => Prune(d, keep)
  }

  /** The version resolves to a directory that was staged and not committed. */
  ghost predicate Fresh(d: Disk, version: string) {
    Resolve(d, version).Some? && Staged(d, Resolve(d, version).value)
  }

  /** Nothing is staged while an abandoned staging lies around; only fresh stagings are edited, committed or
      discarded. */
  ghost predicate Allowed(d: Disk, op: Op) {
    match op
    case OpStage(_) => NothingStaged(d)
    case OpEdit(v, tree) => Staged(d, v) && MARKER in tree
    case OpCommit(version, _) => Fresh(d, version)
    case OpDiscard(version) => Fresh(d, version)
    case OpRollback => true
    case OpPrune(_) => true
  }

  /** Only the newest directory may be staged. */
  ghost predicate StagedIsNewest(d: Disk) {
    forall v :: Staged(d, v) ==> IsNewest(v, d.versions.Keys)
  }

  /** The link leads to a committed directory, and the rollback pointer, if there is one, to an older one. */
  predicate Targets(d: Disk) {
    && Healthy(d) && !Staged(d, d.link.target)
    && (d.previous.Some? ==>
          && d.previous.value in d.versions && !Staged(d, d.previous.value)
          && d.previous.value.gen < d.link.target.gen)
  }

  ghost predicate NothingStaged(d: Disk) {
    forall v :: v in d.versions ==> !Staged(d, v)
  }

  /** What holds at every step boundary. */
  ghost predicate RunInv(d: Disk) {
    DistinctGens(d) && StagedIsNewest(d) && Targets(d)
  }

  lemma StageKeeps(d: Disk, version: string)
    requires RunInv(d) && Allowed(d, OpStage(version))
    ensures RunInv(Stage(d, version))
  {
    StagedIsResolved(d, version);
    var d' := Stage(d, version);
    forall v | Staged(d', v)
      ensures IsNewest(v, d'.versions.Keys)
    {
      assert v in d.versions ==> !Staged(d, v);
    }
  }

  /** What is fresh is the newest directory, and neither live nor the rollback target. */
  lemma FreshIsNewest(d: Disk, version: string)
    requires RunInv(d) && Fresh(d, version)
    ensures var v := Resolve(d, version).value;
            && v in d.versions && IsNewest(v, d.versions.Keys)
            && v != d.link.target && d.previous != Some(v) && d.link.target.gen < v.gen
  {
  }

  lemma CommitKeeps(d: Disk, version: string, session: Option<string>)
    requires RunInv(d) && Fresh(d, version)
    ensures RunInv(Commit(d, version, session).1)
    ensures Current(Commit(d, version, session).1) == Resolve(d, version) != Current(d)
  {
    var target := Resolve(d, version).value;
    FreshIsNewest(d, version);
    CommitResult(d, target, session);
    var d' := Commit(d, version, session).1;
    assert d'.versions.Keys == d.versions.Keys;
    assert DistinctGens(d');
    forall v | Staged(d', v)
      ensures IsNewest(v, d'.versions.Keys)
    {
      assert Staged(d, v);
    }
  }

  lemma RollbackKeeps(d: Disk)
    requires RunInv(d)
    ensures RunInv(Rollback(d))
  {
    RollbackResult(d);
    var d' := Rollback(d);
    if Previous(d).Some? {
      var p := Previous(d).value;
      if Predecessor(d, p).Some? {
        var q := Predecessor(d, p).value;
        assert q in Older(d, p);
        assert q in d.versions && q.gen < p.gen;
        assert Staged(d, q) ==> IsNewest(q, d.versions.Keys);
      }
      forall v | Staged(d', v)
        ensures IsNewest(v, d'.versions.Keys)
      {
        assert Staged(d, v);
      }
    }
  }

  lemma DiscardKeeps(d: Disk, version: string)
    requires RunInv(d) && Fresh(d, version)
    ensures RunInv(Discard(d, version))
    ensures Discard(d, version) == d.(versions := d.versions - {Resolve(d, version).value})
  {
    FreshIsNewest(d, version);
    var d' := Discard(d, version);
    forall v | Staged(d', v)
      ensures IsNewest(v, d'.versions.Keys)
    {
      assert Staged(d, v);
    }
  }

  lemma PruneKeeps(d: Disk, keep: int)
    requires RunInv(d)
    ensures RunInv(Prune(d, keep))
  {
    var d' := Prune(d, keep);
    assert d'.versions.Keys <= d.versions.Keys;
    forall v | Staged(d', v)
      ensures IsNewest(v, d'.versions.Keys)
    {
      assert Staged(d, v);
    }
  }

  lemma EditKeeps(d: Disk, v: Version, tree: Tree)
    requires RunInv(d) && Allowed(d, OpEdit(v, tree))
    ensures RunInv(Do(d, OpEdit(v, tree)))
  {
    var d' := Do(d, OpEdit(v, tree));
    assert d'.versions.Keys == d.versions.Keys;
    forall m | Staged(d', m)
      ensures IsNewest(m, d'.versions.Keys)
    {
      assert Staged(d, m);
    }
  }

  /** Every allowed operation keeps the rollback target older than the live tree, and the rest. */
  lemma OpKeepsRunInv(d: Disk, op: Op)
    requires RunInv(d) && Allowed(d, op)
    ensures RunInv(Do(d, op))
  {
    match op
    case OpStage(version) => StageKeeps(d, version);
    case OpEdit(v, tree) => EditKeeps(d, v, tree);
    case OpCommit(version, session) => CommitKeeps(d, version, session);
    case OpRollback => RollbackKeeps(d);
    case OpDiscard(version) => DiscardKeeps(d, version);
    case OpPrune(keep) => PruneKeeps(d, keep);
  }

  ghost function DoAll(d: Disk, ops: seq<Op>): Disk
    decreases |ops|
  {
    if ops == [] then d else DoAll(Do(d, ops[0]), ops[1..])
  }

  ghost predicate AllAllowed(d: Disk, ops: seq<Op>)
    decreases |ops|
  {
    ops == [] || (Allowed(d, ops[0]) && AllAllowed(Do(d, ops[0]), ops[1..]))
  }

  lemma {:induction false} RunsKeepTargetOlder(d: Disk, ops: seq<Op>)
    requires RunInv(d) && AllAllowed(d, ops)
    ensures var d' := DoAll(d, ops);
            && RunInv(d') && Current(d').Some? && !Staged(d', Current(d').value)
            && (Previous(d').Some? ==> Previous(d').value.gen < Current(d').value.gen)
    decreases |ops|
  {
    if ops != [] {
      OpKeepsRunInv(d, ops[0]);
      RunsKeepTargetOlder(Do(d, ops[0]), ops[1..]);
    }
  }

  // ---------------------------------------------------------------------------------------------
  // Crashes inside the operations

  /** The directories an operation makes, writes into or removes, file by file. */
  ghost function Touched(d: Disk, op: Op): set<Version> {
    match op
    case OpStage(version) => {Staging(d, version)}
    case OpEdit(v, _) => {v}
    case OpDiscard(version) => if Resolve(d, version).Some? then {Resolve(d, version).value} else {}
    case OpPrune(keep) => d.versions.Keys - Kept(d, keep)
    case _ => {}
  }

  predicate OnlyDirectories(op: Op) {
    op.OpStage? || op.OpEdit? || op.OpDiscard? || op.OpPrune?
  }

  /** Writes, one change of the file system each, that carry out an operation. */
  ghost predicate CarriesOut(d: Disk, op: Op, ws: seq<Write>) {
    match op
    case OpStage(version) => exists order :: Covers(order, LiveTree(d).Keys) && ws == StageWrites(d, version, order)
    case OpEdit(v, tree) => AllInside({v}, ws) && ApplyAll(d, ws) == Edited(d, v, tree)
    case OpCommit(version, session) =>
      Resolve(d, version).Some? && ws == CommitWrites(d, Resolve(d, version).value, session)
    case OpRollback => ws == RollbackWrites(d)
    case OpDiscard(version) => exists order :: ws == DiscardWrites(d, version, order)
    case OpPrune(keep) => exists removals :: Prunes(d, keep, removals) && ws == PruneWrites(removals)
  }

  /** They do what the operation does. */
  lemma WritesCarryOut(d: Disk, op: Op, ws: seq<Write>)
    requires CarriesOut(d, op, ws)
    ensures ApplyAll(d, ws) == Do(d, op)
  {
    match op
    case OpStage(version) =>
      var order :| Covers(order, LiveTree(d).Keys) && ws == StageWrites(d, version, order);
      StageResult(d, version, order);
    case OpDiscard(version) =>
      var order :| ws == DiscardWrites(d, version, order);
      DiscardResult(d, version, order);
    case OpPrune(keep) =>
      var removals :| Prunes(d, keep, removals) && ws == PruneWrites(removals);
      PruneCarriedOut(d, keep, removals);
    case _ =>
  }

  lemma WritesStayInside(d: Disk, op: Op, ws: seq<Write>)
    requires CarriesOut(d, op, ws) && OnlyDirectories(op)
    ensures AllInside(Touched(d, op), ws)
  {
    match op
    case OpPrune(keep) =>
      var removals :| Prunes(d, keep, removals) && ws == PruneWrites(removals);
    case _ =>
  }

  /** Interrupted after any number of its writes, an operation that works on directories has left the live tree
      and the rollback target alone. */
  lemma InterruptedInDirectories(d: Disk, op: Op, ws: seq<Write>, k: nat)
    requires RunInv(d) && Allowed(d, op) && OnlyDirectories(op) && CarriesOut(d, op, ws) && k <= |ws|
    ensures OnlyTouches(d, ApplyAll(d, ws[..k]), Touched(d, op))
    ensures StandsAs(d, ApplyAll(d, ws[..k]))
  {
    WritesStayInside(d, op, ws);
    InterruptedInside(d, ws, Touched(d, op), k);
    UntouchedStands(d, op, ApplyAll(d, ws[..k]));
  }

  /** Live tree and rollback target are the same, with the same contents. */
  predicate StandsAs(d: Disk, d': Disk) {
    && Healthy(d') && Current(d') == Current(d) && LiveTree(d') == LiveTree(d)
    && (Previous(d).Some? ==>
          Previous(d') == Previous(d) && d'.versions[Previous(d).value] == d.versions[Previous(d).value])
  }

  lemma UntouchedStands(d: Disk, op: Op, d': Disk)
    requires RunInv(d) && Allowed(d, op) && OnlyDirectories(op) && OnlyTouches(d, d', Touched(d, op))
    ensures StandsAs(d, d')
  {
    StagedIsResolved(d, if op.OpStage? then op.version else "");
  }

  /** After `k` writes of a commit: the marker goes first, and with the second write the directory is live. */
  lemma CommitUpTo(d: Disk, target: Version, session: Option<string>, k: nat)
    requires target in d.versions && k <= |CommitWrites(d, target, session)|
    ensures var d' := ApplyAll(d, CommitWrites(d, target, session)[..k]);
            && d'.versions == (if k == 0 then d.versions else d.versions[target := d.versions[target] - {MARKER}])
            && d'.link == (if k < 2 then d.link else LinkTo(target))
            && (k < 2 ==> d'.previous == d.previous && d'.session == d.session)
  {
    var head := [RemoveName(target, MARKER), Point(target)];
    var tail := CommitWrites(d, target, session)[2..];
    assert CommitWrites(d, target, session) == head + tail;
    PrefixOfConcat(d, head, tail, k);
    ApplyTwo(d, head[0], head[1]);
    if k >= 2 {
      AsideKeeps(ApplyAll(d, head), tail[..k - 2]);
      assert head[..2] == head;
      assert tail[..0] == [];
    } else if k == 1 {
      assert head[..1] == [head[0]];
      ApplyOne(d, head[0]);
    }
  }

  lemma RollbackUpTo(d: Disk, k: nat)
    requires k <= |RollbackWrites(d)|
    ensures var d' := ApplyAll(d, RollbackWrites(d)[..k]);
            && d'.versions == d.versions
            && d'.link == (if k == 0 then d.link else LinkTo(Previous(d).value))
  {
    var ws := RollbackWrites(d);
    if k > 0 {
      var tail := ws[1..];
      assert ws == [ws[0]] + tail;
      PrefixOfConcat(d, [ws[0]], tail, k);
      ApplyOne(d, ws[0]);
      if k == 1 {
        assert [ws[0]][..1] == [ws[0]];
      } else {
        AsideKeeps(Apply(d, ws[0]), tail[..k - 1]);
      }
    }
  }

  /** Interrupted after any number of its writes, any operation has left the link on a directory, and live is the
      tree that was, or the one the finished operation makes live, each with the contents it has then. */
  lemma InterruptedAnywhere(d: Disk, op: Op, ws: seq<Write>, k: nat)
    requires RunInv(d) && Allowed(d, op) && CarriesOut(d, op, ws) && k <= |ws|
    ensures var d' := ApplyAll(d, ws[..k]);
            && Healthy(d')
            && (|| (Current(d') == Current(d) && LiveTree(d') == LiveTree(d))
                || (Current(d') == Current(Do(d, op)) && LiveTree(d') == LiveTree(Do(d, op))))
  {
    match op
    case OpCommit(version, session) =>
      FreshIsNewest(d, version);
      CommitUpTo(d, Resolve(d, version).value, session, k);
      CommitResult(d, Resolve(d, version).value, session);
    case OpRollback =>
      RollbackUpTo(d, k);
      RollbackResult(d);
    case _ =>
      InterruptedInDirectories(d, op, ws, k);
  }

  /** Carried out, an operation on directories touches no more than them. */
  lemma DirectoriesOnly(d: Disk, op: Op)
    requires RunInv(d) && Allowed(d, op) && OnlyDirectories(op)
    ensures OnlyTouches(d, Do(d, op), Touched(d, op))
  {
  }

  // ---------------------------------------------------------------------------------------------
  // Successive rollbacks

  ghost function Rollbacks(d: Disk, n: nat): Disk
    decreases n
  {
    if n == 0 then d else Rollbacks(Rollback(d), n - 1)
  }

  /** Each rollback goes to a strictly older tree, without changing any. */
  lemma RollbackDescends(d: Disk)
    requires RunInv(d) && Previous(d).Some?
    ensures Current(Rollback(d)) == Previous(d)
    ensures Current(Rollback(d)).value.gen < Current(d).value.gen
    ensures Rollback(d).versions == d.versions
  {
    RollbackResult(d);
  }

  /** Rollback number `i`, counted from 0, goes to an older tree. */
  ghost predicate Descends(d: Disk, i: nat) {
    && Current(Rollbacks(d, i)).Some? && Current(Rollbacks(d, i + 1)).Some?
    && Current(Rollbacks(d, i + 1)).value.gen < Current(Rollbacks(d, i)).value.gen
  }

  /** ... so one after the other they end with nothing left to restore. */
  lemma {:induction false} RollbacksEnd(d: Disk) returns (n: nat)
    requires RunInv(d)
    ensures n <= d.link.target.gen && Previous(Rollbacks(d, n)) == None
    ensures forall i :: 0 <= i < n ==> Descends(d, i)
    decreases d.link.target.gen
  {
    n := 0;
    if Previous(d).Some? {
      RollbackDescends(d);
      RollbackKeeps(d);
      var m := RollbacksEnd(Rollback(d));
      n := m + 1;
      assert Rollbacks(d, 1) == Rollbacks(Rollback(d), 0);
      forall i | 0 <= i < n
        ensures Descends(d, i)
      {
        if i > 0 {
          assert Descends(Rollback(d), i - 1);
        }
      }
    }
  }

  // ---------------------------------------------------------------------------------------------
  // An attempt that commits more than once

  /** The operations of one attempt: every commit under its session, and no rollback. */
  predicate OfAttempt(op: Op, session: string) {
    match op
    case OpCommit(_, s) => s == Some(session)
    case OpRollback => false
    case _ => true
  }

  predicate Commits(ops: seq<Op>) {
    ops != [] && (ops[0].OpCommit? || Commits(ops[1..]))
  }

  /** Where an attempt that replaces `live` can be: not having committed, or with `live` as rollback target. */
  ghost predicate InAttempt(d: Disk, live: Version, tree: Tree, session: string, committed: bool) {
    && live in d.versions && d.versions[live] == tree
    && if committed then d.previous == Some(live) && d.session == Some(session) && Current(d) != Some(live)
       else Current(d) == Some(live) && d.session != Some(session)
  }

  /** An operation that leaves the pointers and the session alone, and the protected trees. */
  lemma AttemptElsewhere(d: Disk, op: Op, live: Version, tree: Tree, session: string, committed: bool)
    requires RunInv(d) && Allowed(d, op) && OnlyDirectories(op)
    requires InAttempt(d, live, tree, session, committed)
    ensures InAttempt(Do(d, op), live, tree, session, committed)
  {
    DirectoriesOnly(d, op);
    UntouchedStands(d, op, Do(d, op));
  }

  lemma AttemptCommit(d: Disk, version: string, live: Version, tree: Tree, session: string, committed: bool)
    requires RunInv(d) && Fresh(d, version) && session != ""
    requires InAttempt(d, live, tree, session, committed)
    ensures InAttempt(Commit(d, version, Some(session)).1, live, tree, session, true)
  {
    FreshIsNewest(d, version);
    CommitKeeps(d, version, Some(session));
    CommitResult(d, Resolve(d, version).value, Some(session));
  }

  lemma AttemptStep(d: Disk, op: Op, live: Version, tree: Tree, session: string, committed: bool)
    requires RunInv(d) && Allowed(d, op) && OfAttempt(op, session) && session != ""
    requires InAttempt(d, live, tree, session, committed)
    ensures InAttempt(Do(d, op), live, tree, session, committed || op.OpCommit?)
  {
    if op.OpCommit? {
      AttemptCommit(d, op.version, live, tree, session, committed);
    } else {
      AttemptElsewhere(d, op, live, tree, session, committed);
    }
  }

  lemma {:induction false} AttemptRun(d: Disk, ops: seq<Op>, live: Version, tree: Tree, session: string,
                                      committed: bool)
    requires RunInv(d) && AllAllowed(d, ops) && session != "" && forall op :: op in ops ==> OfAttempt(op, session)
    requires InAttempt(d, live, tree, session, committed)
    ensures RunInv(DoAll(d, ops))
    ensures InAttempt(DoAll(d, ops), live, tree, session, committed || Commits(ops))
    decreases |ops|
  {
    if ops != [] {
      assert ops[0] in ops;
      OpKeepsRunInv(d, ops[0]);
      AttemptStep(d, ops[0], live, tree, session, committed);
      AttemptRun(Do(d, ops[0]), ops[1..], live, tree, session, committed || ops[0].OpCommit?);
    }
  }

  /** However many times an attempt commits, a rollback afterwards restores the tree that was live before the
      attempt, as it was. */
  lemma RollbackRestoresPreAttempt(d: Disk, ops: seq<Op>, session: string)
    requires RunInv(d) && AllAllowed(d, ops) && session != "" && d.session != Some(session)
    requires (forall op :: op in ops ==> OfAttempt(op, session)) && Commits(ops)
    ensures var d' := DoAll(d, ops);
            && Previous(d') == Current(d) != Current(d')
            && Current(Rollback(d')) == Current(d) && LiveTree(Rollback(d')) == LiveTree(d)
  {
    AttemptRun(d, ops, d.link.target, LiveTree(d), session, false);
    RollbackResult(DoAll(d, ops));
  }

  // ---------------------------------------------------------------------------------------------
  // Where the limits are

  /** A commit can be undone exactly when it is not by the attempt that committed last.  So an attempt that
      commits, is rolled back and commits again has lost the tree it started from as its rollback target. */
  lemma UndoneExactlyWithoutOwnWork(d: Disk, version: string, session: Option<string>)
    requires RunInv(d) && Fresh(d, version)
    ensures Current(Rollback(Commit(d, version, session).1)) == Current(d) <==> !OwnWork(d, session)
  {
    var d' := Commit(d, version, session).1;
    FreshIsNewest(d, version);
    CommitKeeps(d, version, session);
    CommitResult(d, Resolve(d, version).value, session);
    RollbackResult(d');
    assert d'.versions.Keys == d.versions.Keys;
  }

  /** Nothing is left of a staging but the fresh one once that is committed. */
  lemma CommitLeavesNothingStaged(d: Disk, version: string, session: Option<string>)
    requires RunInv(d) && Fresh(d, version)
    ensures NothingStaged(Commit(d, version, session).1)
  {
    var target := Resolve(d, version).value;
    CommitResult(d, target, session);
    var d' := Commit(d, version, session).1;
    forall v | v in d'.versions
      ensures !Staged(d', v)
    {
      assert Staged(d, v) ==> v == target;
    }
  }

  /** After a commit and a rollback another version can be staged. */
  lemma RestagedIsFresh(d: Disk, first: string, second: string, session: string)
    requires RunInv(d) && Fresh(d, first) && session != "" && d.session != Some(session)
    ensures var d1 := Rollback(Commit(d, first, Some(session)).1);
            var d2 := Stage(d1, second);
            && Current(d1) == Current(d) && d1.session == Some(session)
            && RunInv(d2) && Fresh(d2, second) && Current(d2) == Current(d) && d2.session == Some(session)
  {
    var committed := Commit(d, first, Some(session)).1;
    UndoneExactlyWithoutOwnWork(d, first, Some(session));
    CommitKeeps(d, first, Some(session));
    CommitLeavesNothingStaged(d, first, Some(session));
    CommitResult(d, Resolve(d, first).value, Some(session));
    RollbackKeeps(committed);
    RollbackResult(committed);
    var d1 := Rollback(committed);
    assert d1.versions == committed.versions;
    StageKeeps(d1, second);
    StagedIsResolved(d1, second);
  }

  /** When an attempt has committed and was rolled back, and another version is staged and committed, a rollback
      restores the tree the attempt started from exactly if the second commit is not by the same session. */
  lemma RecommitForgetsTheStart(d: Disk, first: string, second: string, session: string, again: Option<string>)
    requires RunInv(d) && Fresh(d, first) && session != "" && d.session != Some(session)
    ensures var d2 := Stage(Rollback(Commit(d, first, Some(session)).1), second);
            && RunInv(d2) && Fresh(d2, second)
            && (Current(Rollback(Commit(d2, second, again).1)) == Current(d) <==> again != Some(session))
  {
    RestagedIsFresh(d, first, second, session);
    var d2 := Stage(Rollback(Commit(d, first, Some(session)).1), second);
    UndoneExactlyWithoutOwnWork(d2, second, again);
  }

  /** The next rollback goes to a staged tree exactly when the one below the restored version is an abandoned
      staging ... */
  lemma NextRollbackTakesAStagingExactly(d: Disk, below: Version)
    requires Previous(d).Some? && Predecessor(d, Previous(d).value) == Some(below)
    ensures var d' := Rollback(Rollback(d));
            Current(d') == Some(below) && (Staged(d', Current(d').value) <==> Staged(d, below))
  {
    RollbackResult(d);
    assert below in Older(d, Previous(d).value);
    RollbackResult(Rollback(d));
  }

  /** ... as it can be: when a staging is interrupted, and two more versions are staged and committed by different
      sessions, the interrupted one goes live with the second rollback. */
  lemma AbandonedStagingGoesLive(d: Disk, lost: string, second: string, third: string, s: string, t: string)
    requires DistinctGens(d) && s != "" && t != "" && s != t && d.session != Some(s) && Current(d).Some?
    ensures var d1 := Stage(d, lost);
            var d2 := Commit(Stage(d1, second), second, Some(s)).1;
            var d3 := Commit(Stage(d2, third), third, Some(t)).1;
            var d' := Rollback(Rollback(d3));
            Current(d') == Some(Staging(d, lost)) && Staged(d', Staging(d, lost))
  {
    StagedIsResolved(d, lost);
    NewestGoesLive(Stage(d, lost), Staging(d, lost), second, third, s, t);
  }

  lemma NewestGoesLive(d: Disk, newest: Version, second: string, third: string, s: string, t: string)
    requires DistinctGens(d) && s != "" && t != "" && s != t && d.session != Some(s) && Current(d).Some?
    requires IsNewest(newest, d.versions.Keys) && Staged(d, newest)
    ensures var d2 := Commit(Stage(d, second), second, Some(s)).1;
            var d3 := Commit(Stage(d2, third), third, Some(t)).1;
            var d' := Rollback(Rollback(d3));
            Current(d') == Some(newest) && Staged(d', newest)
  {
    var d2 := StagedAndCommitted(d, second, s);
    var d3 := StagedAndCommitted(d2, third, t);
    var v := Staging(d, second);
    assert Previous(d3) == Some(v);
    PredecessorOfNewest(d, d2, d3, v, newest);
    NextRollbackTakesAStagingExactly(d3, newest);
  }

  lemma StagedAndCommitted(d: Disk, version: string, session: string) returns (d': Disk)
    requires DistinctGens(d) && session != "" && d.session != Some(session) && Current(d).Some?
    ensures d' == Commit(Stage(d, version), version, Some(session)).1
    ensures var v := Staging(d, version);
            && DistinctGens(d') && d'.session == Some(session) && d'.previous == Current(d) && Current(d') == Some(v)
            && v !in d.versions && d'.versions.Keys == d.versions.Keys + {v} && IsNewest(v, d'.versions.Keys)
            && (forall m :: m in d.versions ==> d'.versions[m] == d.versions[m])
  {
    StagedIsResolved(d, version);
    CommitResult(Stage(d, version), Staging(d, version), Some(session));
    d' := Commit(Stage(d, version), version, Some(session)).1;
  }

  /** Below a version added on top of others, the newest of those stays the predecessor. */
  lemma PredecessorOfNewest(d: Disk, d2: Disk, d3: Disk, v: Version, newest: Version)
    requires DistinctGens(d3) && IsNewest(newest, d.versions.Keys) && v !in d.versions
    requires d2.versions.Keys == d.versions.Keys + {v} && IsNewest(v, d2.versions.Keys)
    requires d2.versions.Keys <= d3.versions.Keys
    requires forall m :: m in d3.versions && m !in d2.versions ==> v.gen <= m.gen
    ensures Predecessor(d3, v) == Some(newest)
  {
    assert forall m :: m in d2.versions && m != v ==> m in d3.versions && m.gen != v.gen;
    assert Older(d3, v) == d.versions.Keys;
    NewestIsUnique(d3, Older(d3, v), newest);
  }

  /** ... and a repair of a lost link goes to one exactly when the newest directory is one. */
  lemma RepairTakesAStagingExactly(d: Disk)
    requires Current(d).None? && !d.link.RealDirectory? && d.versions.Keys != {}
    ensures Current(Ensure(d)).Some?
    ensures Staged(Ensure(d), Current(Ensure(d)).value) <==> Staged(d, Newest(d.versions.Keys))
  {
    ApplyOne(d, Point(Newest(d.versions.Keys)));
  }

  // ---------------------------------------------------------------------------------------------
  // Pruning

  ghost predicate IsOldest(v: Version, s: set<Version>) {
    v in s && forall m :: m in s ==> v.gen <= m.gen
  }

  lemma {:induction false} OldestExists(s: set<Version>)
    requires s != {}
    ensures exists v :: IsOldest(v, s)
    decreases |s|
  {
    var v :| v in s;
    assert forall m :: m in s ==> m == v || m in s - {v};
    if s - {v} == {} {
      assert IsOldest(v, s);
    } else {
      OldestExists(s - {v});
      var w :| IsOldest(w, s - {v});
      assert IsOldest(if v.gen < w.gen then v else w, s);
    }
  }

  lemma SubsetSize(a: set<Version>, b: set<Version>)
    requires a <= b
    ensures |a| <= |b|
  {
    assert b == a + (b - a);
  }

  /** The newest `keep` are at most `keep`. */
  lemma TopSize(d: Disk, s: set<Version>, keep: nat)
    requires DistinctGens(d) && s <= d.versions.Keys
    ensures |Top(s, keep)| <= keep
  {
    var top := Top(s, keep);
    if top != {} {
      OldestExists(top);
      var v :| IsOldest(v, top);
      assert top - {v} <= NewerIn(s, v);
      SubsetSize(top - {v}, NewerIn(s, v));
      assert |top - {v}| == |top| - 1;
    }
  }

  /** Nothing links or points to a directory that has the marker. */
  predicate Abandoned(d: Disk, v: Version) {
    v in d.versions && [".staging"] in d.versions[v] && d.link != LinkTo(v) && d.previous != Some(v)
  }

  function NewerFinished(d: Disk, v: Version): set<Version> {
    set m | m in d.versions.Keys && !Abandoned(d, m) && m.gen > v.gen
  }

  /** Pruning removes every abandoned staging, and of the others each that has at least `keep` newer ones, and at
      least one, unless the link or the rollback pointer names it. */
  lemma PruneExactly(d: Disk, keep: int, v: Version)
    requires v in d.versions
    ensures v !in Prune(d, keep).versions <==>
            && d.link != LinkTo(v) && d.previous != Some(v)
            && (Abandoned(d, v) || (|NewerFinished(d, v)| >= 1 && |NewerFinished(d, v)| >= keep))
  {
    forall m | m in d.versions
      ensures m in Committed(d) <==> !Abandoned(d, m)
    {
    }
    assert NewerIn(Committed(d), v) == NewerFinished(d, v);
  }

  /** The newest of a set is among its newest `keep`. */
  lemma NewestIsOnTop(s: set<Version>, v: Version, keep: nat)
    requires IsNewest(v, s) && keep > 0
    ensures v in Top(s, keep)
  {
    assert NewerIn(s, v) == {};
  }

  /** The newest committed tree survives every pruning, with what it holds. */
  lemma NewestCommittedSurvives(d: Disk, keep: int, v: Version)
    requires IsNewest(v, Committed(d))
    ensures v in Prune(d, keep).versions && Prune(d, keep).versions[v] == d.versions[v]
  {
    NewestIsOnTop(Committed(d), v, AtLeastOne(keep));
  }

  lemma PruneSize(d: Disk, keep: int)
    requires DistinctGens(d)
    ensures |Prune(d, keep).versions| <= AtLeastOne(keep) + 2
  {
    var kept := Prune(d, keep).versions.Keys;
    var top := Top(Committed(d), AtLeastOne(keep));
    TopSize(d, Committed(d), AtLeastOne(keep));
    assert kept <= Protected(d) + top;
    SubsetSize(kept, Protected(d) + top);
    assert |Protected(d)| <= 2;
    assert |Protected(d) + top| <= |Protected(d)| + |top|;
    assert |Prune(d, keep).versions| == |kept|;
  }

  /** Pruning keeps the live tree, the rollback target and the newest committed trees, as they are; it leaves no
      unprotected staging, and at most two directories more than it was asked to keep. */
  lemma PruneResult(d: Disk, keep: int)
    requires DistinctGens(d)
    ensures var d' := Prune(d, keep);
            && Current(d') == Current(d) && Previous(d') == Previous(d)
            && (forall v :: v in d'.versions ==> v in d.versions && d'.versions[v] == d.versions[v])
            && (forall v :: v in d'.versions <==>
                  v in Protected(d) || (v in Committed(d) && |NewerIn(Committed(d), v)| < AtLeastOne(keep)))
            && (forall v :: v in d'.versions && Staged(d', v) ==> v in Protected(d))
            && |d'.versions| <= AtLeastOne(keep) + 2
  {
    PruneSize(d, keep);
  }
}

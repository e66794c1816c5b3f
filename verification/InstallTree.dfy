/** The versioned install tree (raisin_ota/install_tree.py): version directories, the live link, the rollback
    pointer and the session that last committed.

    Directories are told apart by generation and version; that their names keep the two apart is the subject of
    module VersionNames.  A directory is what its files hold, path by path; whether two directories share the
    storage of a file is the subject of module SharedTrees. */
module InstallTree {
  import opened Wrappers

  datatype Version = Version(gen: nat, name: string)

  type Path = seq<string>

  /** What a tree has at a path: install metadata naming where the package came from, any other file, or a directory
      that came out of an archive as an entry of its own.  Other directories follow from what is in them. */
  datatype Content = Bytes(text: string) | Metadata(source: string) | Subdirectory

  type Tree = map<Path, Content>

  datatype Link = NoLink | LinkTo(target: Version) | RealDirectory(tree: Tree)

  datatype Disk = Disk(versions: map<Version, Tree>, link: Link, previous: Option<Version>, session: Option<string>)

  const MARKER: Path := [".staging"]
  const EMPTY := Bytes("")
  const LEGACY := "legacy"

  // ---------------------------------------------------------------------------------------------
  // Looking at the disk

  /** The live version; a link to something that is not there counts as nothing. */
  function Current(d: Disk): Option<Version> {
    if d.link.LinkTo? && d.link.target in d.versions then Some(d.link.target) else None
  }

  /** The version a rollback would restore. */
  function Previous(d: Disk): Option<Version> {
    if d.previous.Some? && d.previous.value in d.versions then d.previous else None
  }

  predicate Staged(d: Disk, v: Version) {
    v in d.versions && MARKER in d.versions[v]
  }

  ghost predicate IsNewest(v: Version, s: set<Version>) {
    v in s && forall m :: m in s ==> m.gen <= v.gen
  }

  lemma {:induction false} NewestExists(s: set<Version>)
    requires s != {}
    ensures exists v :: IsNewest(v, s)
    decreases |s|
  {
    var v :| v in s;
    if s - {v} == {} {
      assert forall m :: m in s ==> m == v || m in s - {v};
      assert IsNewest(v, s);
    } else {
      NewestExists(s - {v});
      var w :| IsNewest(w, s - {v});
      assert forall m :: m in s ==> m == v || m in s - {v};
      assert IsNewest(if v.gen < w.gen then w else v, s);
    }
  }

  ghost function Newest(s: set<Version>): (v: Version)
    requires s != {}
    ensures IsNewest(v, s)
  {
    NewestExists(s);
    var v :| IsNewest(v, s);
    v
  }

  ghost function NextGeneration(d: Disk): (gen: nat)
    ensures forall v :: v in d.versions ==> v.gen < gen
  {
    if d.versions.Keys == {} then 1 else Newest(d.versions.Keys).gen + 1
  }

  function Named(d: Disk, version: string): set<Version> {
    set v | v in d.versions.Keys && v.name == version
  }

  /** The newest directory of a version. */
  ghost function Resolve(d: Disk, version: string): Option<Version> {
    if Named(d, version) == {} then None else Some(Newest(Named(d, version)))
  }

  function Older(d: Disk, v: Version): set<Version> {
    set m | m in d.versions.Keys && m.gen < v.gen
  }

  /** No two directories have the same generation. */
  ghost predicate DistinctGens(d: Disk) {
    forall a, b :: a in d.versions && b in d.versions && a.gen == b.gen ==> a == b
  }

  lemma NewestIsUnique(d: Disk, s: set<Version>, v: Version)
    requires DistinctGens(d) && s <= d.versions.Keys && IsNewest(v, s)
    ensures Newest(s) == v
  {
  }

  // ---------------------------------------------------------------------------------------------
  // Single changes of the file system: inside the version directories, and outside them

  datatype Write =
    | MakeDir(v: Version)
    | LinkFile(v: Version, from: Version, p: Path)
    | PutFile(v: Version, p: Path, content: Content)
    | RemoveName(v: Version, p: Path)
    | RemoveDir(v: Version)
    | Point(v: Version)
    | Unlink
    | Adopt(v: Version)
    | SetPrevious(target: Option<Version>)
    | SetSession(s: Option<string>)

  /** A disk with one directory exchanged. */
  function Edited(d: Disk, v: Version, tree: Tree): Disk {
    d.(versions := d.versions[v := tree])
  }

  function Apply(d: Disk, w: Write): Disk {
    match w
    case MakeDir(v) => Edited(d, v, map[])
    case LinkFile(v, from, p) =>
      if v in d.versions && from in d.versions && p in d.versions[from] then
        Edited(d, v, d.versions[v][p := d.versions[from][p]])
      else d
    case PutFile(v, p, content) => if v in d.versions then Edited(d, v, d.versions[v][p := content]) else d
    case RemoveName(v, p) => if v in d.versions then Edited(d, v, d.versions[v] - {p}) else d
    case RemoveDir(v) => d.(versions := d.versions - {v})
    case Point(v) => d.(link := LinkTo(v))
    case Unlink => d.(link := NoLink)
    case Adopt(v) =>
      if d.link.RealDirectory? then d.(versions := d.versions[v := d.link.tree], link := NoLink) else d
    case SetPrevious(p) => d.(previous := p)
    case SetSession(s) => d.(session := s)
  }

  function ApplyAll(d: Disk, ws: seq<Write>): Disk
    decreases |ws|
  {
    if ws == [] then d else ApplyAll(Apply(d, ws[0]), ws[1..])
  }

  /** A file is emptied before its new content is written. */
  function WritesPrevious(p: Option<Version>): seq<Write> {
    if p.None? then [SetPrevious(None)] else [SetPrevious(None), SetPrevious(p)]
  }

  function WritesSession(s: Option<string>): seq<Write> {
    if s.None? || s.value == "" then [SetSession(None)] else [SetSession(None), SetSession(s)]
  }

  // ---------------------------------------------------------------------------------------------
  // Commit, rollback, repair

  /** The attempt that commits is the one that committed last. */
  predicate OwnWork(d: Disk, session: Option<string>) {
    session.Some? && session.value != "" && session == d.session
  }

  predicate MovesPrevious(d: Disk, target: Version, session: Option<string>) {
    Current(d).Some? && Current(d).value != target && !OwnWork(d, session)
  }

  function CommitWrites(d: Disk, target: Version, session: Option<string>): seq<Write> {
    [RemoveName(target, MARKER), Point(target)]
    + (if MovesPrevious(d, target, session) then WritesPrevious(Current(d)) else [])
    + WritesSession(session)
  }

  /** `commit_version`: the directory that is live now, and the disk. */
  ghost function Commit(d: Disk, version: string, session: Option<string>): (Option<Version>, Disk) {
    match Resolve(d, version)
    case None => (None, d)
    case Some(target) => (Some(target), ApplyAll(d, CommitWrites(d, target, session)))
  }

  /** The version before another one. */
  ghost function Predecessor(d: Disk, v: Version): Option<Version> {
    if Older(d, v) == {} then None else Some(Newest(Older(d, v)))
  }

  ghost function RollbackWrites(d: Disk): seq<Write> {
    if Previous(d).None? then [] else [Point(Previous(d).value)] + WritesPrevious(Predecessor(d, Previous(d).value))
  }

  ghost function Rollback(d: Disk): Disk {
    ApplyAll(d, RollbackWrites(d))
  }

  /** `ensure_tree`, with `migrate_legacy_tree` for a directory in the link's place. */
  ghost function EnsureWrites(d: Disk): seq<Write> {
    match d.link
    case LinkTo(_) =>
      if Current(d).Some? then []
      else if d.versions.Keys != {} then [Point(Newest(d.versions.Keys))]
      else [Unlink]
    case RealDirectory(_) =>
      var v := Version(NextGeneration(d), LEGACY);
      [Adopt(v), Point(v)]
    case NoLink =>
      if d.versions.Keys != {} then [Point(Newest(d.versions.Keys))] else []
  }

  ghost function Ensure(d: Disk): Disk {
    ApplyAll(d, EnsureWrites(d))
  }

  // ---------------------------------------------------------------------------------------------
  // What happens inside one version directory

  function LiveTree(d: Disk): Tree {
    if Current(d).Some? then d.versions[Current(d).value] else map[]
  }

  /** The directory a staging of `version` makes. */
  ghost function Staging(d: Disk, version: string): Version {
    Version(NextGeneration(d), version)
  }

  /** `stage_version`: a clone of the live tree, marked. */
  ghost function Stage(d: Disk, version: string): Disk {
    d.(versions := d.versions[Staging(d, version) := LiveTree(d)[MARKER := EMPTY]])
  }

  ghost function Discard(d: Disk, version: string): Disk {
    match Resolve(d, version)
    case None => d
    case Some(target) => if Current(d) == Some(target) then d else d.(versions := d.versions - {target})
  }

  /** Nothing but the directories in `vs` differs. */
  ghost predicate OnlyTouches(d: Disk, d': Disk, vs: set<Version>) {
    && d'.link == d.link && d'.previous == d.previous && d'.session == d.session
    && (forall v :: v !in vs ==> (v in d'.versions <==> v in d.versions))
    && (forall v :: v !in vs && v in d.versions ==> d'.versions[v] == d.versions[v])
  }

  // ---------------------------------------------------------------------------------------------
  // Pruning

  function Protected(d: Disk): set<Version> {
    (if Current(d).Some? then {Current(d).value} else {}) + (if Previous(d).Some? then {Previous(d).value} else {})
  }

  /** Everything but the abandoned stagings. */
  function Committed(d: Disk): set<Version> {
    set v | v in d.versions.Keys && (!Staged(d, v) || v in Protected(d))
  }

  function NewerIn(s: set<Version>, v: Version): set<Version> {
    set m | m in s && m.gen > v.gen
  }

  function AtLeastOne(keep: int): nat {
    if keep < 1 then 1 else keep
  }

  /** The newest `keep` of a set. */
  function Top(s: set<Version>, keep: nat): set<Version> {
    set v | v in s && |NewerIn(s, v)| < keep
  }

  function Kept(d: Disk, keep: int): set<Version> {
    Protected(d) + Top(Committed(d), AtLeastOne(keep))
  }

  /** `prune_versions`. */
  function Prune(d: Disk, keep: int): Disk {
    d.(versions := map v | v in d.versions && v in Kept(d, keep) :: d.versions[v])
  }
}

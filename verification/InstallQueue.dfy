/** The work queue of `_install` (commands/install.py).

    The queue keeps no record of what it has already looked at: a package wanted by two others is looked at
    twice, and what it depends on is queued twice.  It still ends whenever declared dependencies have no
    cycle, after at most as many rounds as there are paths through the declarations. */
module InstallQueue {
  import opened Wrappers

  /** An entry of the queue, as far as its text could be read. */
  datatype Target =
    | Unreadable
    | BadVersion(package: string)
    | Wanted(package: string, constraint: string)

  /** The three places a package can come from. */
  datatype Source = Precompiled | LocalSource | Server

  /** What is found in one of them: a version and the dependencies its release file declares. */
  datatype Release = Release(version: string, dependencies: seq<Target>)

  datatype Answer = Delivered(release: Release) | NotThere | Failed

  /** What one round sees of the package it is about: a suitable precompiled release, a suitable local one, whether
      there is a local source directory at all, and what the server would say. */
  datatype Look = Look(precompiled: Option<Release>, local: Option<Release>, localPresent: bool, server: Answer)

  datatype Outcome = Resolved(source: Source, release: Release) | Skipped | Unresolved

  /** The order in which the places are tried. */
  function Resolve(t: Target, look: Look): Outcome {
    match t
    case Unreadable => Skipped
    case BadVersion(_) => Unresolved
    case Wanted(_, _) =>
      if look.precompiled.Some? then Resolved(Precompiled, look.precompiled.value)
      else if look.local.Some? then Resolved(LocalSource, look.local.value)
      else if look.localPresent then Skipped
      else match look.server
        case Delivered(release) => Resolved(Server, release)
        case NotThere => Unresolved
        case Failed => Unresolved
  }

  /** What is installed is taken before local source, and local source before the server, which is not asked as long as
      there is a source directory; only a bad version, or nothing anywhere, leaves a package unresolved. */
  lemma SourcePriority(t: Target, look: Look, source: Source, release: Release)
    ensures Resolve(t, look) == Resolved(source, release) <==>
            && t.Wanted?
            && match source
               case Precompiled => look.precompiled == Some(release)
               case LocalSource => look.precompiled == None && look.local == Some(release)
               case Server =>
                 && look.precompiled == None && look.local == None && !look.localPresent
                 && look.server == Delivered(release)
    ensures Resolve(t, look) == Unresolved <==>
            || t.BadVersion?
            || (&& t.Wanted? && look.precompiled == None && look.local == None && !look.localPresent
                && (look.server == NotThere || look.server == Failed))
  {
  }

  /** The releases of a package that there are anywhere. */
  type Declarations = string -> seq<Release>

  /** What is seen in round number `i` of the package of `t` is one of its releases.  Which one may change from
      round to round. */
  ghost predicate Offers(declared: Declarations, looks: (nat, Target) -> Look) {
    forall i: nat, t: Target :: t.Wanted? && Resolve(t, looks(i, t)).Resolved? ==>
                     Resolve(t, looks(i, t)).release in declared(t.package)
  }

  ghost predicate Layered(declared: Declarations, rank: string -> nat) {
    forall p: string, release: Release, t: Target ::
      release in declared(p) && t in release.dependencies && t.Wanted? ==> rank(t.package) < rank(p)
  }

  // The number of paths that start at a target, counted by the widest of its releases.

  ghost function Paths(declared: Declarations, rank: string -> nat, t: Target): (n: nat)
    requires Layered(declared, rank)
    ensures n >= 1
    decreases if t.Wanted? then rank(t.package) + 1 else 0, 3, 0
  {
    if t.Wanted? then 1 + Widest(declared, rank, t.package, declared(t.package)) else 1
  }

  ghost function Widest(declared: Declarations, rank: string -> nat, p: string, releases: seq<Release>): nat
    requires Layered(declared, rank) && forall release :: release in releases ==> release in declared(p)
    decreases rank(p) + 1, 2, |releases|
  {
    if releases == [] then 0
    else
      assert releases[0] in declared(p);
      Max(PathsOfAll(declared, rank, p, releases[0], releases[0].dependencies),
          Widest(declared, rank, p, releases[1..]))
  }

  ghost function PathsOfAll(declared: Declarations, rank: string -> nat, p: string, release: Release, ts: seq<Target>)
    : nat
    requires Layered(declared, rank) && release in declared(p)
    requires forall t :: t in ts ==> t in release.dependencies
    decreases rank(p) + 1, 1, |ts|
  {
    if ts == [] then 0
    else
      assert ts[0] in release.dependencies;
      Paths(declared, rank, ts[0]) + PathsOfAll(declared, rank, p, release, ts[1..])
  }

  function Max(a: nat, b: nat): nat {
    if a < b then b else a
  }

  /** The paths that start at the entries of a queue. */
  ghost function QueuePaths(declared: Declarations, rank: string -> nat, queue: seq<Target>): nat
    requires Layered(declared, rank)
    decreases |queue|
  {
    if queue == [] then 0 else Paths(declared, rank, queue[0]) + QueuePaths(declared, rank, queue[1..])
  }

  lemma {:induction false} QueuePathsAppend(declared: Declarations, rank: string -> nat, a: seq<Target>, b: seq<Target>)
    requires Layered(declared, rank)
    ensures QueuePaths(declared, rank, a + b) == QueuePaths(declared, rank, a) + QueuePaths(declared, rank, b)
    decreases |a|
  {
    if a == [] {
      assert a + b == b;
    } else {
      assert (a + b)[1..] == a[1..] + b;
      QueuePathsAppend(declared, rank, a[1..], b);
    }
  }

  lemma {:induction false} PathsOfAllIsQueuePaths(declared: Declarations, rank: string -> nat, p: string,
                                                  release: Release, ts: seq<Target>)
    requires Layered(declared, rank) && release in declared(p) && forall t :: t in ts ==> t in release.dependencies
    ensures PathsOfAll(declared, rank, p, release, ts) == QueuePaths(declared, rank, ts)
    decreases |ts|
  {
    if ts != [] {
      PathsOfAllIsQueuePaths(declared, rank, p, release, ts[1..]);
    }
  }

  lemma {:induction false} NoneIsWider(declared: Declarations, rank: string -> nat, p: string, releases: seq<Release>,
                                       release: Release)
    requires Layered(declared, rank) && (forall other :: other in releases ==> other in declared(p))
    requires release in releases
    ensures QueuePaths(declared, rank, release.dependencies) <= Widest(declared, rank, p, releases)
    decreases |releases|
  {
    if releases[0] == release {
      PathsOfAllIsQueuePaths(declared, rank, p, release, release.dependencies);
    } else {
      NoneIsWider(declared, rank, p, releases[1..], release);
    }
  }

  /** A round strictly lowers the number of paths left, whatever it finds. */
  lemma RoundLowersPaths(declared: Declarations, rank: string -> nat, queue: seq<Target>, release: Release)
    requires Layered(declared, rank) && queue != []
    ensures QueuePaths(declared, rank, queue[1..]) < QueuePaths(declared, rank, queue)
    ensures queue[0].Wanted? && release in declared(queue[0].package) ==>
              QueuePaths(declared, rank, queue[1..] + release.dependencies) < QueuePaths(declared, rank, queue)
  {
    if queue[0].Wanted? && release in declared(queue[0].package) {
      QueuePathsAppend(declared, rank, queue[1..], release.dependencies);
      NoneIsWider(declared, rank, queue[0].package, declared(queue[0].package), release);
    }
  }

  /** What an outcome puts into the queue. */
  function Adds(outcome: Outcome): seq<Target> {
    if outcome.Resolved? then outcome.release.dependencies else []
  }

  /** What the outcomes put into the queue, in their order. */
  function Queued(found: seq<Outcome>): seq<Target>
    decreases |found|
  {
    if found == [] then [] else Queued(found[..|found| - 1]) + Adds(found[|found| - 1])
  }

  /** First in, first out: what was looked at and what is queued are what was queued ever, in its order. */
  lemma QueuedNext(processed: seq<Target>, queue: seq<Target>, wanted: seq<Target>, found: seq<Outcome>,
                   outcome: Outcome)
    requires queue != [] && processed + queue == wanted + Queued(found)
    ensures (processed + [queue[0]]) + (queue[1..] + Adds(outcome)) == wanted + Queued(found + [outcome])
  {
    assert (found + [outcome])[..|found|] == found;
    assert queue == [queue[0]] + queue[1..];
    assert (processed + [queue[0]]) + (queue[1..] + Adds(outcome)) == (processed + queue) + Adds(outcome);
    assert (wanted + Queued(found)) + Adds(outcome) == wanted + (Queued(found) + Adds(outcome));
  }

  lemma {:induction false} QueuedHolds(found: seq<Outcome>, i: nat)
    requires i < |found| && found[i].Resolved?
    ensures forall t :: t in found[i].release.dependencies ==> t in Queued(found)
    decreases |found|
  {
    if i < |found| - 1 {
      QueuedHolds(found[..|found| - 1], i);
    }
  }

  /** The loop.  `looks` says what each round sees; `processed` lists the entries in the order they were
      looked at, `found` what became of them. */
  method Install(wanted: seq<Target>, ghost declared: Declarations, ghost rank: string -> nat,
                 looks: (nat, Target) -> Look)
    returns (ok: bool, processed: seq<Target>, found: seq<Outcome>)
    requires Layered(declared, rank) && Offers(declared, looks)
    ensures |found| == |processed| <= QueuePaths(declared, rank, wanted)
    ensures forall i :: 0 <= i < |found| ==> found[i] == Resolve(processed[i], looks(i, processed[i]))
    ensures ok <==> Unresolved !in found
    ensures processed == wanted + Queued(found)
    ensures forall t :: t in wanted ==> t in processed
    ensures forall i :: 0 <= i < |found| && found[i].Resolved? ==>
              forall t :: t in found[i].release.dependencies ==> t in processed
  {
    var queue := wanted;
    ok, processed, found := true, [], [];
    while queue != []
      invariant |found| == |processed|
      invariant |processed| + QueuePaths(declared, rank, queue) <= QueuePaths(declared, rank, wanted)
      invariant forall i :: 0 <= i < |found| ==> found[i] == Resolve(processed[i], looks(i, processed[i]))
      invariant ok <==> Unresolved !in found
      invariant processed + queue == wanted + Queued(found)
      decreases QueuePaths(declared, rank, queue)
    {
      var target := queue[0];
      var outcome := Resolve(target, looks(|processed|, target));
      RoundLowersPaths(declared, rank, queue, if outcome.Resolved? then outcome.release else Release("", []));
      QueuedNext(processed, queue, wanted, found, outcome);
      ghost var next := queue[1..] + Adds(outcome);
      queue := queue[1..];
      processed, found := processed + [target], found + [outcome];
      match outcome {
        case Resolved(_, release) => queue := queue + release.dependencies;
        case Skipped =>
        case Unresolved => ok := false;
      }
      assert queue == next;
    }
    assert processed + queue == processed;
    forall i | 0 <= i < |found| && found[i].Resolved?
      ensures forall t :: t in found[i].release.dependencies ==> t in processed
    {
      QueuedHolds(found, i);
    }
  }

  /** One round on values, and any number of them. */
  function Round(queue: seq<Target>, i: nat, looks: (nat, Target) -> Look): seq<Target> {
    if queue == [] then
      []
    else
      var outcome := Resolve(queue[0], looks(i, queue[0]));
      queue[1..] + Adds(outcome)
  }

  function Rounds(wanted: seq<Target>, looks: (nat, Target) -> Look, n: nat): seq<Target> {
    if n == 0 then wanted else Round(Rounds(wanted, looks, n - 1), n - 1, looks)
  }

  /** The condition cannot be dropped: once the queue holds one of a group of packages that are always found
      and each declare another of the group, no number of rounds empties it. */
  lemma {:induction false} CycleNeverDrains(wanted: seq<Target>, looks: (nat, Target) -> Look, group: set<Target>,
                                            n: nat)
    requires exists t :: t in wanted && t in group
    requires forall t, i :: t in group ==>
               var outcome := Resolve(t, looks(i, t));
               && outcome.Resolved?
               && exists d :: d in outcome.release.dependencies && d in group
    ensures exists t :: t in Rounds(wanted, looks, n) && t in group
  {
    if n > 0 {
      CycleNeverDrains(wanted, looks, group, n - 1);
      var queue := Rounds(wanted, looks, n - 1);
      var t :| t in queue && t in group;
      var next := Round(queue, n - 1, looks);
      if queue[0] == t {
        var outcome := Resolve(t, looks(n - 1, t));
        var d :| d in outcome.release.dependencies && d in group;
        assert d in next;
      } else {
        assert t in queue[1..];
        assert t in next;
      }
    }
  }
}

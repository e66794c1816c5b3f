/** The directory of buffered events as one process works on it (`_buffered_events`, `_append_install_event`,
    `_trim_install_events` and `flush_install_events` in raisin_ota/client.py): the order of a listing, what a
    trim keeps, and how many rounds a flush takes. */
module EventBuffer {
  import opened Journal

  /** What a name holds: an event, or something that cannot be read as one. */
  datatype Content = Readable(event: Event) | Unreadable

  type Directory = map<Path, Content>

  predicate EarlierOrSame(a: Path, b: Path) {
    a == b || Earlier(a, b)
  }

  ghost predicate Ascending(found: seq<Found>) {
    forall i, j :: 0 <= i < j < |found| ==> Earlier(found[i].path, found[j].path)
  }

  /** Exactly the readable events of a directory, oldest first. */
  ghost predicate Lists(dir: Directory, found: seq<Found>) {
    && Ascending(found)
    && forall f :: f in found <==> f.path in dir && dir[f.path] == Readable(f.event)
  }

  /** A set of names has an earliest one. */
  lemma {:induction false} EarliestExists(paths: set<Path>)
    requires paths != {}
    ensures exists p :: p in paths && forall q :: q in paths ==> EarlierOrSame(p, q)
    decreases |paths|
  {
    var p :| p in paths;
    if paths - {p} != {} {
      EarliestExists(paths - {p});
      var q :| q in paths - {p} && forall r :: r in paths - {p} ==> EarlierOrSame(q, r);
      var first := if Earlier(p, q) then p else q;
      forall r | r in paths
        ensures EarlierOrSame(first, r)
      {
        if r != p {
          assert r in paths - {p};
        }
      }
    } else {
      forall q | q in paths
        ensures q == p
      {
        assert q != p ==> q in paths - {p};
      }
    }
  }

  function PathsOf(found: seq<Found>): set<Path> {
    set f: Found | f in found :: f.path
  }

  lemma {:induction false} ListingExists(dir: Directory)
    ensures exists found :: Lists(dir, found)
    decreases |dir|
  {
    if dir == map[] {
      assert Lists(dir, []);
    } else {
      EarliestExists(dir.Keys);
      var p :| p in dir && forall q :: q in dir.Keys ==> EarlierOrSame(p, q);
      ListingExists(dir - {p});
      var rest :| Lists(dir - {p}, rest);
      var found := if dir[p].Readable? then [Found(p, dir[p].event)] + rest else rest;
      assert Lists(dir, found);
    }
  }

  /** The buffered events of a directory, oldest first. */
  ghost function Listing(dir: Directory): (found: seq<Found>)
    ensures Lists(dir, found)
  {
    ListingExists(dir);
    var found :| Lists(dir, found);
    found
  }

  /** There is only one such list: names order the events, and a file holds one. */
  lemma {:induction false} ListingIsUnique(dir: Directory, a: seq<Found>, b: seq<Found>)
    requires Lists(dir, a) && Lists(dir, b)
    ensures a == b
    decreases |a|
  {
    if b != [] {
      assert b[0] in b && b[0] in a;
    }
    if a != [] {
      assert a[0] in a && a[0] in b;
      var i :| 0 <= i < |b| && b[i] == a[0];
      var j :| 0 <= j < |a| && a[j] == b[0];
      assert a[0] == b[0];
      WithoutFirst(dir, a);
      WithoutFirst(dir, b);
      ListingIsUnique(dir - {a[0].path}, a[1..], b[1..]);
    }
  }

  lemma WithoutFirst(dir: Directory, found: seq<Found>)
    requires Lists(dir, found) && found != []
    ensures Lists(dir - {found[0].path}, found[1..])
  {
    forall f: Found
      ensures f in found[1..] <==>
              f.path in dir - {found[0].path} && (dir - {found[0].path})[f.path] == Readable(f.event)
    {
      if f in found[1..] {
        assert f in found;
      }
      if f in found && f != found[0] {
        assert f in found[1..];
      }
    }
  }

  lemma {:induction false} WithoutOldest(dir: Directory, found: seq<Found>, k: nat)
    requires Lists(dir, found) && k <= |found|
    ensures Lists(dir - PathsOf(found[..k]), found[k..])
    decreases k
  {
    if k > 0 {
      WithoutFirst(dir, found);
      WithoutOldest(dir - {found[0].path}, found[1..], k - 1);
      assert found[1..][..k - 1] == found[1..k] && found[1..][k - 1..] == found[k..];
      assert found[..k] == [found[0]] + found[1..k];
      assert PathsOf(found[..k]) == {found[0].path} + PathsOf(found[1..k]);
      assert (dir - {found[0].path}) - PathsOf(found[1..k]) == dir - PathsOf(found[..k]);
    }
  }

  /** Without its oldest events a directory lists the others. */
  lemma ListingWithoutOldest(dir: Directory, k: nat)
    requires k <= |Listing(dir)|
    ensures Listing(dir - PathsOf(Listing(dir)[..k])) == Listing(dir)[k..]
  {
    var all := Listing(dir);
    WithoutOldest(dir, all, k);
    ListingIsUnique(dir - PathsOf(all[..k]), Listing(dir - PathsOf(all[..k])), all[k..]);
  }

  lemma PathsOfNext(found: seq<Found>, i: nat)
    requires i < |found|
    ensures PathsOf(found[..i + 1]) == PathsOf(found[..i]) + {found[i].path}
  {
    assert found[..i + 1] == found[..i] + [found[i]];
  }

  // ---------------------------------------------------------------------------------------------
  // The server's answers

  datatype Reply = Throttled | Unauthorized | Unreachable | Other | Acks(ids: set<Id>)

  datatype Reason = Sent | NothingToSend | NoCredential | StoppedBy(reply: Reply) | NothingAcknowledged

  /** The ids acknowledged in the first `n` rounds. */
  function AckedBy(replies: nat -> Reply, n: nat): set<Id> {
    if n == 0 then {} else AckedBy(replies, n - 1) + if replies(n - 1).Acks? then replies(n - 1).ids else {}
  }

  lemma {:induction false} AckedByExactly(replies: nat -> Reply, n: nat, id: Id)
    ensures id in AckedBy(replies, n) <==> exists i: nat :: i < n && replies(i).Acks? && id in replies(i).ids
  {
    if n > 0 {
      AckedByExactly(replies, n - 1, id);
      assert id in AckedBy(replies, n) <==>
             id in AckedBy(replies, n - 1) || (replies(n - 1).Acks? && id in replies(n - 1).ids);
    }
  }

  /** Round number `i` acknowledges an event that no earlier one did. */
  ghost predicate Acknowledges(listed: seq<Found>, replies: nat -> Reply, i: nat) {
    replies(i).Acks? && exists f :: f in listed && f.event.id !in AckedBy(replies, i) && f.event.id in replies(i).ids
  }

  ghost predicate AllAcked(listed: seq<Found>, replies: nat -> Reply, i: nat) {
    forall f :: f in listed ==> f.event.id in AckedBy(replies, i)
  }

  /** The server acknowledges something in every round in which something is left. */
  ghost predicate Cooperates(listed: seq<Found>, replies: nat -> Reply) {
    forall i: nat :: AllAcked(listed, replies, i) || Acknowledges(listed, replies, i)
  }

  ghost predicate Proceeded(listed: seq<Found>, replies: nat -> Reply, n: nat) {
    forall i: nat :: i < n ==> Acknowledges(listed, replies, i) && !AllAcked(listed, replies, i)
  }

  /** Why a flush of these events ended after so many rounds: all are acknowledged; or the last reply was not one of
      acknowledgements, and that is the reason; or it acknowledged nothing that was left.  Every round before the
      last acknowledged something, and so did the last if it left nothing. */
  ghost predicate EndsFor(listed: seq<Found>, replies: nat -> Reply, rounds: nat, reason: Reason) {
    && (rounds > 0 ==> Proceeded(listed, replies, rounds - 1) && !AllAcked(listed, replies, rounds - 1))
    && match reason
       case Sent => AllAcked(listed, replies, rounds) && (rounds > 0 ==> Acknowledges(listed, replies, rounds - 1))
       case StoppedBy(reply) => rounds > 0 && reply == replies(rounds - 1) && !reply.Acks?
       case NothingAcknowledged =>
         rounds > 0 && replies(rounds - 1).Acks? && !Acknowledges(listed, replies, rounds - 1)
       case _ => false
  }

  /** Against a server that cooperates a flush sends everything. */
  lemma CooperationDrains(listed: seq<Found>, replies: nat -> Reply, rounds: nat, reason: Reason)
    requires EndsFor(listed, replies, rounds, reason) && Cooperates(listed, replies)
    ensures reason == Sent && AllAcked(listed, replies, rounds)
  {
    if rounds > 0 {
      assert AllAcked(listed, replies, rounds - 1) || Acknowledges(listed, replies, rounds - 1);
    }
  }

  lemma {:induction false} LeftNoFewer(found: seq<Found>, ids: set<Id>)
    ensures |Left(found, ids)| == |found| <==> forall f :: f in found ==> f.event.id !in ids
  {
    if found != [] {
      LeftNoFewer(found[1..], ids);
      LeftOver(found[1..], ids);
      assert found[0] in found && forall f :: f in found[1..] ==> f in found;
    }
  }

  /** A round leaves as much as there was exactly if it acknowledged nothing of it. */
  lemma RoundAcknowledges(listed: seq<Found>, replies: nat -> Reply, i: nat)
    requires replies(i).Acks?
    ensures |Left(listed, AckedBy(replies, i + 1))| == |Left(listed, AckedBy(replies, i))| <==>
            !Acknowledges(listed, replies, i)
  {
    var before, ids := Left(listed, AckedBy(replies, i)), replies(i).ids;
    LeftTwice(listed, AckedBy(replies, i), ids);
    LeftNoFewer(before, ids);
    LeftOver(listed, AckedBy(replies, i));
    assert AckedBy(replies, i + 1) == AckedBy(replies, i) + ids;
  }

  /** What round number `n` means for the flush. */
  lemma AfterRound(listed: seq<Found>, replies: nat -> Reply, n: nat)
    requires Proceeded(listed, replies, n) && Left(listed, AckedBy(replies, n)) != []
    ensures !replies(n).Acks? ==> EndsFor(listed, replies, n + 1, StoppedBy(replies(n)))
    ensures replies(n).Acks? ==>
              if |Left(listed, AckedBy(replies, n + 1))| == |Left(listed, AckedBy(replies, n))| then
                EndsFor(listed, replies, n + 1, NothingAcknowledged)
              else
                Proceeded(listed, replies, n + 1)
  {
    var left := Left(listed, AckedBy(replies, n));
    LeftOver(listed, AckedBy(replies, n));
    assert left[0] in left;
    assert !AllAcked(listed, replies, n);
    if replies(n).Acks? {
      RoundAcknowledges(listed, replies, n);
    }
  }

  lemma NothingLeft(listed: seq<Found>, replies: nat -> Reply, n: nat)
    requires Proceeded(listed, replies, n) && Left(listed, AckedBy(replies, n)) == []
    ensures EndsFor(listed, replies, n, Sent)
  {
    LeftOver(listed, AckedBy(replies, n));
    assert AllAcked(listed, replies, n);
  }

  /** What other processes recorded during the first `n` rounds. */
  function Arrived(arrivals: nat -> Directory, n: nat): Directory {
    if n == 0 then map[] else Arrived(arrivals, n - 1) + arrivals(n - 1)
  }

  lemma {:induction false} ArrivedExactly(arrivals: nat -> Directory, n: nat, p: Path)
    ensures p in Arrived(arrivals, n) <==> exists i: nat :: i < n && p in arrivals(i)
  {
    if n > 0 {
      ArrivedExactly(arrivals, n - 1, p);
      assert p in Arrived(arrivals, n) <==> p in Arrived(arrivals, n - 1) || p in arrivals(n - 1);
    }
  }

  /** The files of the acknowledged ones among some events. */
  function PathsAcked(found: seq<Found>, ids: set<Id>): set<Path> {
    set f: Found | f in found && f.event.id in ids :: f.path
  }

  lemma {:induction false} LeftTwice(found: seq<Found>, a: set<Id>, b: set<Id>)
    ensures Left(Left(found, a), b) == Left(found, a + b)
  {
    if found != [] {
      LeftTwice(found[1..], a, b);
      if found[0].event.id in a {
        assert Left(found, a) == Left(found[1..], a) && Left(found, a + b) == Left(found[1..], a + b);
      } else {
        assert Left(found, a)[1..] == Left(found[1..], a);
      }
    }
  }

  lemma {:induction false} LeftNothingAcked(found: seq<Found>)
    ensures Left(found, {}) == found
  {
    if found != [] {
      LeftNothingAcked(found[1..]);
    }
  }

  /** Forgetting round by round forgets what was acknowledged in any round. */
  lemma PathsAckedTwice(found: seq<Found>, a: set<Id>, b: set<Id>)
    ensures PathsAcked(found, a) + PathsAcked(Left(found, a), b) == PathsAcked(found, a + b)
  {
    LeftOver(found, a);
  }

  /** What arrives while a round waits is not among what the flush forgets. */
  lemma ArrivalsStay(base: Directory, before: Directory, arrived: Directory, gone: set<Path>)
    requires arrived.Keys !! gone
    ensures ((base + before) - gone) + arrived == (base + (before + arrived)) - gone
  {
  }

  /** What a trim leaves of a directory. */
  ghost function Trimmed(dir: Directory): Directory {
    var all := Listing(dir);
    var dropped := if |dir| > MAX_BUFFERED && |all| > MAX_BUFFERED then |all| - MAX_BUFFERED else 0;
    dir - PathsOf(all[..dropped])
  }

  lemma SubsetSize(a: set<Path>, b: set<Path>)
    requires a <= b
    ensures |a| <= |b|
  {
    assert b == a + (b - a);
  }

  lemma ListedFiles(dir: Directory)
    ensures |Listing(dir)| <= |dir|
  {
    AsManyNames(Listing(dir));
    assert PathsOf(Listing(dir)) == set f | f in Listing(dir) :: f.path;
    SubsetSize(PathsOf(Listing(dir)), dir.Keys);
    assert |dir| == |dir.Keys|;
  }

  /** A trim leaves as many events as there were, or the ceiling if that is less ... */
  lemma TrimLeaves(dir: Directory)
    ensures |Listing(Trimmed(dir))| == if |Listing(dir)| < 1000 then |Listing(dir)| else 1000
  {
    var all := Listing(dir);
    ListedFiles(dir);
    ListingWithoutOldest(dir, if |dir| > MAX_BUFFERED && |all| > MAX_BUFFERED then |all| - MAX_BUFFERED else 0);
  }

  /** ... and whatever cannot be read. */
  lemma TrimKeepsUnreadable(dir: Directory, p: Path)
    requires p in dir && dir[p].Unreadable?
    ensures p in Trimmed(dir)
  {
    forall f | f in Listing(dir)
      ensures f.path != p
    {
      assert dir[f.path] == Readable(f.event);
    }
  }

  /** An event that is dropped is no younger than one that stays. */
  lemma TrimDropsByAge(dir: Directory, p: Path, q: Path)
    requires p in dir && p !in Trimmed(dir)
    requires q in Trimmed(dir) && dir[q].Readable?
    ensures p.time <= q.time
  {
    var all := Listing(dir);
    var dropped := if |dir| > MAX_BUFFERED && |all| > MAX_BUFFERED then |all| - MAX_BUFFERED else 0;
    var f :| f in all[..dropped] && f.path == p;
    var i :| 0 <= i < dropped && all[i] == f;
    assert forall k :: 0 <= k < dropped ==> all[k] in all[..dropped];
    assert Found(q, dir[q].event) in all;
    var j :| 0 <= j < |all| && all[j] == Found(q, dir[q].event);
  }

  /** There are files, and none can be read as an event. */
  ghost predicate OnlyUnreadable(dir: Directory) {
    dir != map[] && forall p :: p in dir ==> dir[p].Unreadable?
  }

  lemma ListsNothingExactly(dir: Directory)
    ensures Listing(dir) == [] <==> forall p :: p in dir ==> dir[p].Unreadable?
  {
    var all := Listing(dir);
    forall p | p in dir && dir[p].Readable?
      ensures all != []
    {
      assert Found(p, dir[p].event) in all;
    }
    if all != [] {
      assert all[0] in all;
    }
  }

  /** A directory with one unreadable file lists no event. */
  lemma UnreadableIsNotListed(p: Path)
    ensures Listing(map[p := Unreadable]) == [] && OnlyUnreadable(map[p := Unreadable])
  {
    var dir: Directory := map[p := Unreadable];
    assert p in dir;
    ListsNothingExactly(dir);
  }

  /** An event that is later than all the others is not dropped by the trim that follows its recording. */
  lemma NewestSurvives(dir: Directory, p: Path, e: Event)
    requires forall q :: q in dir ==> Earlier(q, p)
    ensures p in Trimmed(dir[p := Readable(e)])
  {
    var dir' := dir[p := Readable(e)];
    var all := Listing(dir');
    var mine := Found(p, e);
    assert mine in all;
    var i :| 0 <= i < |all| && all[i] == mine;
    if i < |all| - 1 {
      assert all[i + 1] in all;
      assert Earlier(p, all[i + 1].path);
    }
    var dropped := if |dir'| > MAX_BUFFERED && |all| > MAX_BUFFERED then |all| - MAX_BUFFERED else 0;
    forall f: Found | f in all[..dropped]
      ensures f.path != p
    {
      var j :| 0 <= j < dropped && all[j] == f;
    }
  }

  class EventBuffer {
    var files: Directory

    constructor (dir: Directory)
      ensures files == dir
    {
      files := dir;
    }

    /** The directory read in the order of its names. */
    method BufferedEvents() returns (found: seq<Found>)
      ensures found == Listing(files)
    {
      found := [];
      var rest := files.Keys;
      while rest != {}
        invariant rest <= files.Keys && Ascending(found)
        invariant forall f, q :: f in found && q in rest ==> Earlier(f.path, q)
        invariant forall f :: f in found <==> f.path in files && f.path !in rest && files[f.path] == Readable(f.event)
        decreases |rest|
      {
        EarliestExists(rest);
        var p :| p in rest && forall q :: q in rest ==> EarlierOrSame(p, q);
        rest := rest - {p};
        if files[p].Readable? {
          found := found + [Found(p, files[p].event)];
        }
      }
      ListingIsUnique(files, found, Listing(files));
    }

    method Drop(p: Path)
      modifies this
      ensures files == old(files) - {p}
    {
      files := files - {p};
    }

    method DropFirst(buffered: seq<Found>, n: nat)
      requires n <= |buffered|
      modifies this
      ensures files == old(files) - PathsOf(buffered[..n])
    {
      for i := 0 to n
        invariant files == old(files) - PathsOf(buffered[..i])
      {
        PathsOfNext(buffered, i);
        Drop(buffered[i].path);
      }
    }

    /** Drops the oldest events beyond the ceiling: what stays is the newest ones, and everything unreadable. */
    method TrimInstallEvents()
      modifies this
      ensures files == Trimmed(old(files))
      ensures var all := Listing(old(files));
              var dropped := if |old(files)| > MAX_BUFFERED && |all| > MAX_BUFFERED then |all| - MAX_BUFFERED else 0;
              Listing(files) == all[dropped..]
    {
      ListingWithoutOldest(files, 0);
      if |files| <= MAX_BUFFERED {
        assert files - PathsOf(Listing(files)[..0]) == files;
        return;
      }
      var buffered := BufferedEvents();
      var dropped := |buffered| - MAX_BUFFERED;
      if dropped <= 0 {
        assert files - PathsOf(buffered[..0]) == files;
        return;
      }
      ListingWithoutOldest(files, dropped);
      DropFirst(buffered, dropped);
    }

    /** Writes one more event, unless that fails, and trims. */
    method AppendInstallEvent(time: nat, event: Event, written: bool) returns (ok: bool)
      modifies this
      ensures ok == written
      ensures files == if ok then Trimmed(old(files)[Path(time, event.id) := Readable(event)]) else old(files)
    {
      if !written {
        return false;
      }
      files := files[Path(time, event.id) := Readable(event)];
      TrimInstallEvents();
      ok := true;
    }

    /** Unlinks what was acknowledged, one name at a time. */
    method ForgetAcked(found: seq<Found>, ids: set<Id>)
      modifies this
      ensures files == old(files) - PathsAcked(found, ids)
    {
      for i := 0 to |found|
        invariant files == old(files) - PathsAcked(found[..i], ids)
      {
        assert found[..i + 1] == found[..i] + [found[i]];
        assert PathsAcked(found[..i + 1], ids) ==
               PathsAcked(found[..i], ids) + if found[i].event.id in ids then {found[i].path} else {};
        if found[i].event.id in ids {
          Drop(found[i].path);
        }
      }
      assert found[..|found|] == found;
    }

    /** The files after some rounds of a flush: everything there was and everything that arrived, without what
        was listed at the start and acknowledged since. */
    ghost predicate After(base: Directory, arrived: Directory, snapshot: seq<Found>, acked: set<Id>)
      reads this
    {
      files == (base + arrived) - PathsAcked(snapshot, acked)
    }

    /** One exchange with the server: others record meanwhile; what is acknowledged is forgotten. */
    method Exchange(remaining: seq<Found>, reply: Reply, arrived: Directory,
                    ghost base: Directory, ghost before: Directory, ghost snapshot: seq<Found>, ghost acked: set<Id>)
      returns (left: seq<Found>)
      requires After(base, before, snapshot, acked) && remaining == Left(snapshot, acked)
      requires arrived.Keys !! PathsOf(snapshot)
      modifies this
      ensures var acked' := acked + if reply.Acks? then reply.ids else {};
              && After(base, before + arrived, snapshot, acked')
              && left == Left(snapshot, acked')
      ensures |left| <= |remaining| && (!reply.Acks? ==> left == remaining)
    {
      ArrivalsStay(base, before, arrived, PathsAcked(snapshot, acked));
      files := files + arrived;
      left := remaining;
      assert acked + {} == acked;
      if reply.Acks? {
        ForgetAcked(remaining, reply.ids);
        PathsAckedTwice(snapshot, acked, reply.ids);
        LeftTwice(snapshot, acked, reply.ids);
        LeftOver(remaining, reply.ids);
        left := Left(remaining, reply.ids);
      }
    }

    ghost predicate AfterRounds(base: Directory, replies: nat -> Reply, arrivals: nat -> Directory, n: nat)
      reads this
    {
      After(base, Arrived(arrivals, n), Listing(base), AckedBy(replies, n))
    }

    /** Round number `n`. */
    method FlushRound(remaining: seq<Found>, n: nat, replies: nat -> Reply, arrivals: nat -> Directory,
                      ghost base: Directory)
      returns (left: seq<Found>)
      requires AfterRounds(base, replies, arrivals, n) && remaining == Left(Listing(base), AckedBy(replies, n))
      requires remaining != [] && Proceeded(Listing(base), replies, n) && arrivals(n).Keys !! base.Keys
      modifies this
      ensures AfterRounds(base, replies, arrivals, n + 1)
      ensures left == Left(Listing(base), AckedBy(replies, n + 1)) && |left| <= |remaining|
      ensures if !replies(n).Acks? then EndsFor(Listing(base), replies, n + 1, StoppedBy(replies(n)))
              else if |left| == |remaining| then EndsFor(Listing(base), replies, n + 1, NothingAcknowledged)
              else Proceeded(Listing(base), replies, n + 1)
    {
      AfterRound(Listing(base), replies, n);
      ghost var snapshot := Listing(base);
      assert PathsOf(snapshot) <= base.Keys;
      left := Exchange(remaining, replies(n), arrivals(n), base, Arrived(arrivals, n), snapshot, AckedBy(replies, n));
    }

    /** Sends batch after batch until nothing is left, the server does not answer with acknowledgements, or it
        acknowledges nothing of what is left. */
    method FlushRounds(listed: seq<Found>, replies: nat -> Reply, arrivals: nat -> Directory, ghost base: Directory)
      returns (reason: Reason, rounds: nat)
      requires files == base && listed == Listing(base) && forall i :: arrivals(i).Keys !! base.Keys
      modifies this
      ensures rounds <= |listed| && AfterRounds(base, replies, arrivals, rounds)
      ensures EndsFor(listed, replies, rounds, reason)
    {
      LeftNothingAcked(listed);
      assert PathsAcked(listed, {}) == {};
      rounds := 0;
      var remaining := listed;
      while remaining != []
        invariant remaining == Left(listed, AckedBy(replies, rounds)) && rounds + |remaining| <= |listed|
        invariant AfterRounds(base, replies, arrivals, rounds) && Proceeded(listed, replies, rounds)
        decreases |remaining|
      {
        var reply := replies(rounds);
        var left := FlushRound(remaining, rounds, replies, arrivals, base);
        if !reply.Acks? {
          return StoppedBy(reply), rounds + 1;
        }
        if |left| == |remaining| {
          return NothingAcknowledged, rounds + 1;
        }
        remaining, rounds := left, rounds + 1;
      }
      NothingLeft(listed, replies, rounds);
      reason := Sent;
    }

    lemma SentIsGone(listed: seq<Found>, replies: nat -> Reply, rounds: nat, reason: Reason,
                     arrivals: nat -> Directory, base: Directory)
      requires listed == Listing(base) && AfterRounds(base, replies, arrivals, rounds)
      requires EndsFor(listed, replies, rounds, reason)
      ensures reason == Sent ==> forall f :: f in listed ==> f.path !in files
    {
    }

    /** `flush_install_events`.  `arrivals` is what other processes record while each round waits for its reply.
        Whatever the server acknowledges, there are at most as many rounds as there were events, and what goes is
        exactly what was listed at the start and acknowledged since. */
    method FlushInstallEvents(credential: bool, replies: nat -> Reply, arrivals: nat -> Directory)
      returns (reason: Reason, drained: bool, owed: nat, rounds: nat)
      requires forall i :: arrivals(i).Keys !! files.Keys
      modifies this
      ensures rounds <= |Listing(old(files))| && AfterRounds(old(files), replies, arrivals, rounds)
      ensures reason == NothingToSend <==> Listing(old(files)) == []
      ensures reason == NoCredential <==> Listing(old(files)) != [] && !credential
      ensures reason == NothingToSend ==> rounds == 0 && drained && owed == 0
      ensures reason == NoCredential ==> rounds == 0 && !drained && owed == |Listing(old(files))|
      ensures reason != NothingToSend && reason != NoCredential ==> owed == |files| && (drained <==> owed == 0)
      ensures reason != NothingToSend && reason != NoCredential ==>
                EndsFor(Listing(old(files)), replies, rounds, reason)
      ensures reason == Sent ==> forall f :: f in Listing(old(files)) ==>
                                   f.event.id in AckedBy(replies, rounds) && f.path !in files
      ensures Listing(old(files)) != [] && credential && Cooperates(Listing(old(files)), replies) ==> reason == Sent
      ensures (drained <==> files == map[]) <==> !OnlyUnreadable(old(files))
    {
      ghost var base := files;
      ListsNothingExactly(files);
      var listed := BufferedEvents();
      if listed == [] {
        assert PathsAcked(listed, {}) == {};
        return NothingToSend, true, 0, 0;
      }
      if !credential {
        assert PathsAcked(listed, {}) == {};
        return NoCredential, false, |listed|, 0;
      }
      reason, rounds := FlushRounds(listed, replies, arrivals, base);
      if Cooperates(listed, replies) {
        CooperationDrains(listed, replies, rounds, reason);
      }
      SentIsGone(listed, replies, rounds, reason, arrivals, base);
      owed := |files|;
      drained := owed == 0;
    }
  }
}

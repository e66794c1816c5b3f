/** The install-event journal as several processes share it (`record_install_event`, `_claim_install_event`,
    `_append_install_event`, `_trim_install_events` and `flush_install_events` in raisin_ota/client.py).

    Every event is a file of its own, named for its time and its id.  Processes create, rename and unlink names
    and nothing else, so each step here is one such change, one listing, or one exchange with the server; a
    process may stop for good between any two of its steps. */
module Journal {
  import opened Wrappers

  type Id = nat
  type Pid = nat
  type Session = nat

  datatype EventType = StartedEvent | SucceededEvent | FailedEvent | RolledBackEvent | OtherEvent

  datatype Event = Event(id: Id, session: Session, eventType: EventType)

  /** Names sort by time, then by id. */
  datatype Path = Path(time: nat, id: Id)

  /** What a session may say once. */
  datatype Marker = StartedMarker | TerminalMarker

  datatype Claim = Claim(session: Session, marker: Marker)

  function MarkerOf(t: EventType): Option<Marker> {
    match t
    case StartedEvent => Some(StartedMarker)
    case SucceededEvent => Some(TerminalMarker)
    case FailedEvent => Some(TerminalMarker)
    case RolledBackEvent => Some(TerminalMarker)
    case OtherEvent => None
  }

  function ClaimOf(e: Event): Option<Claim> {
    match MarkerOf(e.eventType)
    case None => None
    case Some(m) => Some(Claim(e.session, m))
  }

  /** A buffered event and its file. */
  datatype Found = Found(path: Path, event: Event)

  /** Where a process is. */
  datatype Proc =
    | Idle
    | Writing(event: Event)                            // its claim, if it needs one, is taken
    | GivingBack(claim: Claim)                         // the write failed
    | Trimming(todo: seq<Path>)                        // dropping the oldest
    | Sending(remaining: seq<Found>)                   // a batch is about to go out
    | Forgetting(remaining: seq<Found>, acked: set<Id>)  // what the server acknowledged is being unlinked

  /** The shared disk, the server, the processes, and what happened so far. */
  datatype State = State(
    files: map<Path, Event>,
    markers: set<Claim>,
    stored: set<Id>,
    procs: map<Pid, Proc>,
    recorded: map<Path, Event>,     // every event ever written
    acked: set<Id>,                 // every id ever acknowledged
    dropped: set<Path>,             // every file unlinked by a trim
    retired: set<Session>)          // every session whose directory was removed

  const MAX_BUFFERED: nat := 1000
  const BATCH_LIMIT: nat := 100

  predicate Init(s: State) {
    && s.files == map[] && s.markers == {} && s.stored == {} && s.recorded == map[]
    && s.acked == {} && s.dropped == {} && s.retired == {}
    && forall p :: p in s.procs ==> s.procs[p] == Idle
  }

  function With(s: State, p: Pid, proc: Proc): State {
    s.(procs := s.procs[p := proc])
  }

  // ---------------------------------------------------------------------------------------------
  // Recording

  /** The event is free to be written: it needs no claim, or creates the claim's name, which was free.  Its id is
      new. */
  ghost predicate Begin(s: State, s': State, p: Pid, e: Event) {
    && p in s.procs && s.procs[p] == Idle
    && (forall q :: q in s.recorded ==> q.id != e.id)
    && (forall q :: q in s.procs && s.procs[q].Writing? ==> s.procs[q].event.id != e.id)
    && match ClaimOf(e)
       case None => s' == With(s, p, Writing(e))
       case Some(c) => c !in s.markers && s' == With(s, p, Writing(e)).(markers := s.markers + {c})
  }

  /** The claim's name is created, but the process is told it was not (a fallback that could not write). */
  ghost predicate ClaimLost(s: State, s': State, c: Claim) {
    s' == s.(markers := s.markers + {c})
  }

  /** The rename that puts the whole event in place. */
  ghost predicate Record(s: State, s': State, p: Pid, time: nat) {
    && p in s.procs && s.procs[p].Writing?
    && var e := s.procs[p].event;
       s' == With(s, p, Idle).(files := s.files[Path(time, e.id) := e], recorded := s.recorded[Path(time, e.id) := e])
  }

  /** The write fails; a claim has to be given back. */
  ghost predicate WriteFails(s: State, s': State, p: Pid) {
    && p in s.procs && s.procs[p].Writing?
    && s' == With(s, p, match ClaimOf(s.procs[p].event)
                        case None => Idle
                        case Some(c) => GivingBack(c))
  }

  ghost predicate GiveBack(s: State, s': State, p: Pid) {
    && p in s.procs && s.procs[p].GivingBack?
    && s' == With(s, p, Idle).(markers := s.markers - {s.procs[p].claim})
  }

  // ---------------------------------------------------------------------------------------------
  // Trimming and flushing

  /** A listing read file by file: some of the files there are, in the order of their names. */
  ghost predicate Reads(s: State, found: seq<Found>) {
    && (forall i :: 0 <= i < |found| ==> found[i].path in s.files && s.files[found[i].path] == found[i].event)
    && forall i, j :: 0 <= i < j < |found| ==> Earlier(found[i].path, found[j].path)
  }

  predicate Earlier(a: Path, b: Path) {
    a.time < b.time || (a.time == b.time && a.id < b.id)
  }

  function Paths(found: seq<Found>): seq<Path> {
    seq(|found|, i requires 0 <= i < |found| => found[i].path)
  }

  /** More than the ceiling: the oldest are to go. */
  ghost predicate StartTrim(s: State, s': State, p: Pid, found: seq<Found>) {
    && p in s.procs && s.procs[p] == Idle && Reads(s, found)
    && |found| > MAX_BUFFERED
    && s' == With(s, p, Trimming(Paths(found[..|found| - MAX_BUFFERED])))
  }

  ghost predicate TrimOne(s: State, s': State, p: Pid) {
    && p in s.procs && s.procs[p].Trimming?
    && var todo := s.procs[p].todo;
       if todo == [] then s' == With(s, p, Idle)
       else s' == With(s, p, Trimming(todo[1..])).(files := s.files - {todo[0]}, dropped := s.dropped + {todo[0]})
  }

  ghost predicate StartFlush(s: State, s': State, p: Pid, found: seq<Found>) {
    && p in s.procs && s.procs[p] == Idle && Reads(s, found)
    && found != [] && s' == With(s, p, Sending(found))
  }

  function Ids(found: seq<Found>): set<Id> {
    set f | f in found :: f.event.id
  }

  function Batch(found: seq<Found>): seq<Found> {
    if |found| <= BATCH_LIMIT then found else found[..BATCH_LIMIT]
  }

  /** A batch goes out: the server keeps any part of it, and answers with ids, of which those it knows from this
      journal are among what it has kept; or nothing usable comes back and the flush ends. */
  ghost predicate Post(s: State, s': State, p: Pid, kept: set<Id>, acks: Option<set<Id>>) {
    && p in s.procs && s.procs[p].Sending?
    && var remaining := s.procs[p].remaining;
       && kept <= Ids(Batch(remaining))
       && match acks
          case None => s' == With(s, p, Idle).(stored := s.stored + kept)
          case Some(ids) =>
            && (forall q :: q in s.recorded && q.id in ids ==> q.id in s.stored + kept)
            && s' == With(s, p, Forgetting(remaining, ids)).(stored := s.stored + kept, acked := s.acked + ids)
  }

  function Left(found: seq<Found>, ids: set<Id>): seq<Found> {
    if found == [] then [] else (if found[0].event.id in ids then [] else [found[0]]) + Left(found[1..], ids)
  }

  /** One acknowledged event is forgotten; when none is left the next round starts, or the flush ends. */
  ghost predicate Forget(s: State, s': State, p: Pid, f: Found) {
    && p in s.procs && s.procs[p].Forgetting?
    && f in s.procs[p].remaining && f.event.id in s.procs[p].acked
    && s' == s.(files := s.files - {f.path})
  }

  ghost predicate EndRound(s: State, s': State, p: Pid) {
    && p in s.procs && s.procs[p].Forgetting?
    && var left := Left(s.procs[p].remaining, s.procs[p].acked);
       s' == With(s, p, if left == [] || |left| == |s.procs[p].remaining| then Idle else Sending(left))
  }

  // ---------------------------------------------------------------------------------------------
  // Stopping and retiring

  ghost predicate Crash(s: State, s': State, p: Pid) {
    p in s.procs && s' == With(s, p, Idle)
  }

  ghost predicate Retire(s: State, s': State, session: Session) {
    s' == s.(markers := (set c | c in s.markers && c.session != session), retired := s.retired + {session})
  }

  datatype Step =
    | BeginStep(p: Pid, event: Event)
    | ClaimLostStep(claim: Claim)
    | RecordStep(p: Pid, time: nat)
    | WriteFailsStep(p: Pid)
    | GiveBackStep(p: Pid)
    | StartTrimStep(p: Pid, found: seq<Found>)
    | TrimOneStep(p: Pid)
    | StartFlushStep(p: Pid, found: seq<Found>)
    | PostStep(p: Pid, kept: set<Id>, acks: Option<set<Id>>)
    | ForgetStep(p: Pid, f: Found)
    | EndRoundStep(p: Pid)
    | CrashStep(p: Pid)
    | RetireStep(session: Session)

  ghost predicate Next(s: State, s': State, step: Step) {
    match step
    case BeginStep(p, e) => Begin(s, s', p, e)
    case ClaimLostStep(c) => ClaimLost(s, s', c)
    case RecordStep(p, time) => Record(s, s', p, time)
    case WriteFailsStep(p) => WriteFails(s, s', p)
    case GiveBackStep(p) => GiveBack(s, s', p)
    case StartTrimStep(p, found) => StartTrim(s, s', p, found)
    case TrimOneStep(p) => TrimOne(s, s', p)
    case StartFlushStep(p, found) => StartFlush(s, s', p, found)
    case PostStep(p, kept, acks) => Post(s, s', p, kept, acks)
    case ForgetStep(p, f) => Forget(s, s', p, f)
    case EndRoundStep(p) => EndRound(s, s', p)
    case CrashStep(p) => Crash(s, s', p)
    case RetireStep(session) => Retire(s, s', session)
  }

  /** A run: states, and the steps between them. */
  ghost predicate Run(states: seq<State>, steps: seq<Step>) {
    && |states| == |steps| + 1 && Init(states[0])
    && forall i :: 0 <= i < |steps| ==> Next(states[i], states[i + 1], steps[i])
  }

  // ---------------------------------------------------------------------------------------------
  // Invariants

  /** What is on disk was recorded there. */
  ghost predicate OnDiskInv(s: State) {
    forall q :: q in s.files ==> q in s.recorded && s.files[q] == s.recorded[q]
  }

  /** A name carries its event's id, and no two names carry the same one. */
  ghost predicate IdsInv(s: State) {
    && (forall q :: q in s.recorded ==> s.recorded[q].id == q.id)
    && (forall q, r :: q in s.recorded && r in s.recorded && q.id == r.id ==> q == r)
  }

  predicate WritesId(s: State, p: Pid, id: Id) {
    p in s.procs && s.procs[p].Writing? && s.procs[p].event.id == id
  }

  /** An id that is about to be written is new, and only one process is about to write it. */
  ghost predicate FreshInv(s: State) {
    && (forall p, q :: q in s.recorded ==> !WritesId(s, p, q.id))
    && (forall p, p', id :: WritesId(s, p, id) && WritesId(s, p', id) ==> p == p')
  }

  ghost predicate KnownTo(s: State, found: seq<Found>) {
    forall f :: f in found ==> f.path in s.recorded && s.recorded[f.path] == f.event
  }

  /** What a process is about to unlink was recorded; what it is about to forget is on the server. */
  ghost predicate ProcInv(s: State, proc: Proc) {
    match proc
    case Idle => true
    case Writing(_) => true
    case GivingBack(_) => true
    case Trimming(todo) => forall q :: q in todo ==> q in s.recorded
    case Sending(remaining) => KnownTo(s, remaining)
    case Forgetting(remaining, ids) =>
      && KnownTo(s, remaining)
      && forall f :: f in remaining && f.event.id in ids ==> Safe(s, f.event.id)
  }

  ghost predicate ProcsInv(s: State) {
    forall p :: p in s.procs ==> ProcInv(s, s.procs[p])
  }

  /** The server has it and said so. */
  predicate Safe(s: State, id: Id) {
    id in s.acked && id in s.stored
  }

  /** Every event ever recorded is on disk, acknowledged, or dropped at the ceiling. */
  ghost predicate Conserved(s: State) {
    forall q :: q in s.recorded ==> q in s.files || Safe(s, q.id) || q in s.dropped
  }

  predicate Holds(proc: Proc, c: Claim) {
    || (proc.Writing? && ClaimOf(proc.event) == Some(c))
    || (proc.GivingBack? && proc.claim == c)
  }

  ghost predicate Held(s: State, p: Pid, c: Claim) {
    p in s.procs && Holds(s.procs[p], c) && c.session !in s.retired
  }

  ghost predicate Said(s: State, q: Path, c: Claim) {
    q in s.recorded && ClaimOf(s.recorded[q]) == Some(c) && c.session !in s.retired
  }

  // While its session is not retired, a claim that is held or was used exists by name, and it is held or used
  // by one event only.

  ghost predicate NamedInv(s: State) {
    && (forall q, c :: Said(s, q, c) ==> c in s.markers)
    && (forall p, c :: Held(s, p, c) ==> c in s.markers)
  }

  ghost predicate SaidOnceInv(s: State) {
    forall q, r, c :: Said(s, q, c) && Said(s, r, c) ==> q == r
  }

  ghost predicate HeldUnsaidInv(s: State) {
    forall p, q, c :: Held(s, p, c) ==> !Said(s, q, c)
  }

  ghost predicate HeldOnceInv(s: State) {
    forall p, p', c :: Held(s, p, c) && Held(s, p', c) ==> p == p'
  }

  ghost predicate OnceInv(s: State) {
    NamedInv(s) && SaidOnceInv(s) && HeldUnsaidInv(s) && HeldOnceInv(s)
  }

  ghost predicate Inv(s: State) {
    OnDiskInv(s) && IdsInv(s) && FreshInv(s) && ProcsInv(s) && Conserved(s) && OnceInv(s)
  }

  // ---------------------------------------------------------------------------------------------
  // Every step keeps them

  lemma {:induction false} LeftOver(found: seq<Found>, ids: set<Id>)
    ensures |Left(found, ids)| <= |found|
    ensures forall f :: f in Left(found, ids) <==> f in found && f.event.id !in ids
  {
    if found != [] {
      LeftOver(found[1..], ids);
    }
  }

  lemma OnDiskKept(s: State, s': State, step: Step)
    requires OnDiskInv(s) && Next(s, s', step)
    ensures OnDiskInv(s')
  {
  }

  lemma IdsKept(s: State, s': State, step: Step)
    requires IdsInv(s) && FreshInv(s) && Next(s, s', step)
    ensures IdsInv(s')
  {
    if step.RecordStep? {
      assert WritesId(s, step.p, s.procs[step.p].event.id);
    }
  }

  lemma FreshKept(s: State, s': State, step: Step)
    requires FreshInv(s) && Next(s, s', step)
    ensures FreshInv(s')
  {
    forall p, id | WritesId(s', p, id)
      ensures WritesId(s, p, id) || (step.BeginStep? && step.p == p && step.event.id == id)
    {
    }
    if step.RecordStep? {
      assert WritesId(s, step.p, s.procs[step.p].event.id);
    }
  }

  ghost predicate Grows(s: State, s': State) {
    && (forall q :: q in s.recorded ==> q in s'.recorded && s'.recorded[q] == s.recorded[q])
    && s.acked <= s'.acked && s.stored <= s'.stored
  }

  lemma HistoryGrows(s: State, s': State, step: Step)
    requires FreshInv(s) && Next(s, s', step)
    ensures Grows(s, s')
  {
    if step.RecordStep? {
      assert WritesId(s, step.p, s.procs[step.p].event.id);
    }
  }

  lemma ProcInvGrows(s: State, s': State, proc: Proc)
    requires Grows(s, s') && ProcInv(s, proc)
    ensures ProcInv(s', proc)
  {
  }

  lemma ProcsKept(s: State, s': State, step: Step)
    requires OnDiskInv(s) && IdsInv(s) && FreshInv(s) && ProcsInv(s) && Next(s, s', step)
    ensures ProcsInv(s')
  {
    HistoryGrows(s, s', step);
    if step.EndRoundStep? {
      LeftOver(s.procs[step.p].remaining, s.procs[step.p].acked);
    }
    forall p | p in s'.procs
      ensures ProcInv(s', s'.procs[p])
    {
      if p in s.procs {
        ProcInvGrows(s, s', s.procs[p]);
      }
    }
  }

  lemma ConservedKept(s: State, s': State, step: Step)
    requires IdsInv(s) && ProcsInv(s) && Conserved(s) && Next(s, s', step)
    ensures Conserved(s')
  {
  }

  /** The claim the acting process gives back, or records an event under. */
  function ActorClaim(s: State, step: Step): Option<Claim> {
    match step
    case GiveBackStep(p) => if p in s.procs && s.procs[p].GivingBack? then Some(s.procs[p].claim) else None
    case RecordStep(p, _) => if p in s.procs && s.procs[p].Writing? then ClaimOf(s.procs[p].event) else None
    case _ => None
  }

  ghost predicate ActorHolds(s: State, step: Step) {
    var c := ActorClaim(s, step);
    c.Some? && c.value.session !in s.retired ==> Held(s, step.p, c.value)
  }

  lemma ActorsHold(s: State, step: Step)
    ensures ActorHolds(s, step)
  {
  }

  /** A claim held after a step was held before it, or just taken. */
  lemma HeldBefore(s: State, s': State, step: Step, p: Pid, c: Claim)
    requires Next(s, s', step) && Held(s', p, c)
    ensures Held(s, p, c) || (step.BeginStep? && step.p == p && c !in s.markers && c in s'.markers)
  {
  }

  lemma SaidBefore(s: State, s': State, step: Step, q: Path, c: Claim)
    requires Next(s, s', step) && Said(s', q, c)
    ensures Said(s, q, c) || (step.RecordStep? && Held(s, step.p, c) && q == Path(step.time, s.procs[step.p].event.id))
  {
  }

  lemma NamedKept(s: State, s': State, step: Step)
    requires OnceInv(s) && Next(s, s', step)
    ensures NamedInv(s')
  {
    ActorsHold(s, step);
    forall p, c | Held(s', p, c)
      ensures c in s'.markers
    {
      HeldBefore(s, s', step, p, c);
    }
    forall q, c | Said(s', q, c)
      ensures c in s'.markers
    {
      SaidBefore(s, s', step, q, c);
    }
  }

  lemma SaidOnceKept(s: State, s': State, step: Step)
    requires OnceInv(s) && Next(s, s', step)
    ensures SaidOnceInv(s')
  {
    forall q, r, c | Said(s', q, c) && Said(s', r, c)
      ensures q == r
    {
      SaidBefore(s, s', step, q, c);
      SaidBefore(s, s', step, r, c);
    }
  }

  lemma HeldUnsaidKept(s: State, s': State, step: Step)
    requires OnceInv(s) && Next(s, s', step)
    ensures HeldUnsaidInv(s')
  {
    forall p, q, c | Held(s', p, c)
      ensures !Said(s', q, c)
    {
      HeldBefore(s, s', step, p, c);
      if Said(s', q, c) {
        SaidBefore(s, s', step, q, c);
      }
    }
  }

  lemma HeldOnceKept(s: State, s': State, step: Step)
    requires OnceInv(s) && Next(s, s', step)
    ensures HeldOnceInv(s')
  {
    forall p, p', c | Held(s', p, c) && Held(s', p', c)
      ensures p == p'
    {
      HeldBefore(s, s', step, p, c);
      HeldBefore(s, s', step, p', c);
    }
  }

  lemma InvKept(s: State, s': State, step: Step)
    requires Inv(s) && Next(s, s', step)
    ensures Inv(s')
  {
    OnDiskKept(s, s', step);
    IdsKept(s, s', step);
    FreshKept(s, s', step);
    ProcsKept(s, s', step);
    ConservedKept(s, s', step);
    NamedKept(s, s', step);
    SaidOnceKept(s, s', step);
    HeldUnsaidKept(s, s', step);
    HeldOnceKept(s, s', step);
  }

  lemma {:induction false} InvThroughout(states: seq<State>, steps: seq<Step>, i: nat)
    requires Run(states, steps) && i <= |steps|
    ensures Inv(states[i])
  {
    if i > 0 {
      InvThroughout(states, steps, i - 1);
      InvKept(states[i - 1], states[i], steps[i - 1]);
    }
  }

  // ---------------------------------------------------------------------------------------------
  // What holds in every run

  /** Every event ever recorded is on disk, acknowledged by the server, or dropped at the ceiling. */
  lemma EventsAreConserved(states: seq<State>, steps: seq<Step>, i: nat, q: Path)
    requires Run(states, steps) && i <= |steps| && q in states[i].recorded
    ensures var s := states[i];
            || (q in s.files && s.files[q] == s.recorded[q])
            || (q.id in s.acked && q.id in s.stored)
            || (q in s.dropped && OverCeiling(s, q))
  {
    InvThroughout(states, steps, i);
    DroppedOnlyAtTheCeiling(states, steps, i);
  }

  // What is dropped is dropped at the ceiling.

  /** As many events as the buffer may hold were recorded under later names. */
  ghost predicate OverCeiling(s: State, q: Path) {
    exists later :: |later| == MAX_BUFFERED && RecordedAfter(s, q, later)
  }

  ghost predicate RecordedAfter(s: State, q: Path, later: set<Path>) {
    forall r :: r in later ==> r in s.recorded && Earlier(q, r)
  }

  /** That holds of what was dropped, and of what a process is about to drop. */
  ghost predicate CeilingInv(s: State) {
    && (forall q :: q in s.dropped ==> OverCeiling(s, q))
    && (forall p, q :: p in s.procs && s.procs[p].Trimming? && q in s.procs[p].todo ==> OverCeiling(s, q))
  }

  lemma {:induction false} AsManyNames(found: seq<Found>)
    requires forall i, j :: 0 <= i < j < |found| ==> Earlier(found[i].path, found[j].path)
    ensures |set f | f in found :: f.path| == |found|
    decreases |found|
  {
    if found != [] {
      var rest := found[1..];
      AsManyNames(rest);
      assert forall f :: f in rest ==> Earlier(found[0].path, f.path);
      assert (set f | f in found :: f.path) == (set f | f in rest :: f.path) + {found[0].path};
    }
  }

  /** In a listing that exceeds the ceiling, everything but the newest is over it. */
  lemma ListedOverCeiling(s: State, found: seq<Found>, i: nat)
    requires OnDiskInv(s) && Reads(s, found) && i + MAX_BUFFERED < |found|
    ensures OverCeiling(s, found[i].path)
  {
    var newest := found[|found| - MAX_BUFFERED..];
    AsManyNames(newest);
    var later := set f | f in newest :: f.path;
    forall r | r in later
      ensures r in s.recorded && Earlier(found[i].path, r)
    {
      var j :| 0 <= j < |newest| && newest[j].path == r;
      assert found[|found| - MAX_BUFFERED + j] == newest[j];
    }
    assert RecordedAfter(s, found[i].path, later);
  }

  lemma OverCeilingGrows(s: State, s': State, q: Path)
    requires Grows(s, s') && OverCeiling(s, q)
    ensures OverCeiling(s', q)
  {
    var later :| |later| == MAX_BUFFERED && RecordedAfter(s, q, later);
    assert RecordedAfter(s', q, later);
  }

  lemma TrimStarts(s: State, s': State, p: Pid, found: seq<Found>, q: Path)
    requires OnDiskInv(s) && StartTrim(s, s', p, found) && q in s'.procs[p].todo
    ensures OverCeiling(s, q)
  {
    var todo := s'.procs[p].todo;
    var i :| 0 <= i < |todo| && todo[i] == q;
    ListedOverCeiling(s, found, i);
  }

  lemma CeilingKept(s: State, s': State, step: Step)
    requires OnDiskInv(s) && FreshInv(s) && CeilingInv(s) && Next(s, s', step)
    ensures CeilingInv(s')
  {
    HistoryGrows(s, s', step);
    forall q | q in s'.dropped
      ensures OverCeiling(s', q)
    {
      OverCeilingGrows(s, s', q);
    }
    forall p, q | p in s'.procs && s'.procs[p].Trimming? && q in s'.procs[p].todo
      ensures OverCeiling(s', q)
    {
      if step.StartTrimStep? && step.p == p {
        TrimStarts(s, s', p, step.found, q);
      }
      OverCeilingGrows(s, s', q);
    }
  }

  /** Whenever an event has been dropped, or is about to be, as many later ones as the buffer may hold had been
      recorded. */
  lemma {:induction false} DroppedOnlyAtTheCeiling(states: seq<State>, steps: seq<Step>, i: nat)
    requires Run(states, steps) && i <= |steps|
    ensures CeilingInv(states[i])
  {
    if i > 0 {
      InvThroughout(states, steps, i - 1);
      DroppedOnlyAtTheCeiling(states, steps, i - 1);
      CeilingKept(states[i - 1], states[i], steps[i - 1]);
    }
  }

  /** A session whose directory is still there has at most one `started` and at most one terminal event. */
  lemma SaidAtMostOnce(states: seq<State>, steps: seq<Step>, i: nat, q: Path, r: Path)
    requires Run(states, steps) && i <= |steps|
    requires q in states[i].recorded && r in states[i].recorded
    requires states[i].recorded[q].session == states[i].recorded[r].session
    requires states[i].recorded[q].session !in states[i].retired
    requires MarkerOf(states[i].recorded[q].eventType).Some?
    requires MarkerOf(states[i].recorded[q].eventType) == MarkerOf(states[i].recorded[r].eventType)
    ensures q == r
  {
    InvThroughout(states, steps, i);
    var c := ClaimOf(states[i].recorded[q]).value;
    assert Said(states[i], q, c) && Said(states[i], r, c);
  }

  // The same by the kinds of events.

  const ENDINGS := {SucceededEvent, FailedEvent, RolledBackEvent}

  /** A session that is not retired ends once, whichever way. */
  lemma EndsAtMostOnce(states: seq<State>, steps: seq<Step>, i: nat, q: Path, r: Path)
    requires Run(states, steps) && i <= |steps|
    requires q in states[i].recorded && r in states[i].recorded
    requires states[i].recorded[q].session == states[i].recorded[r].session
    requires states[i].recorded[q].session !in states[i].retired
    requires states[i].recorded[q].eventType in ENDINGS && states[i].recorded[r].eventType in ENDINGS
    ensures q == r
  {
    SaidAtMostOnce(states, steps, i, q, r);
  }

  /** ... and starts once. */
  lemma StartsAtMostOnce(states: seq<State>, steps: seq<Step>, i: nat, q: Path, r: Path)
    requires Run(states, steps) && i <= |steps|
    requires q in states[i].recorded && r in states[i].recorded
    requires states[i].recorded[q].session == states[i].recorded[r].session
    requires states[i].recorded[q].session !in states[i].retired
    requires states[i].recorded[q].eventType == states[i].recorded[r].eventType == StartedEvent
    ensures q == r
  {
    SaidAtMostOnce(states, steps, i, q, r);
  }

  /** One process records two events, one after the other. */
  ghost predicate RecordsTwo(states: seq<State>, steps: seq<Step>, first: Event, second: Event) {
    && Run(states, steps) && |steps| == 4
    && steps == [BeginStep(0, first), RecordStep(0, 0), BeginStep(0, second), RecordStep(0, 1)]
    && states[4].retired == {}
    && Path(0, first.id) in states[4].recorded && states[4].recorded[Path(0, first.id)] == first
    && Path(1, second.id) in states[4].recorded && states[4].recorded[Path(1, second.id)] == second
  }

  /** What may be said twice, and only that: there is a run that records two events of one kind for a session one
      after the other exactly if that kind neither starts nor ends the session. */
  lemma RepeatableExactly(t: EventType, session: Session, id: Id, id': Id)
    requires id != id'
    ensures (exists states, steps :: RecordsTwo(states, steps, Event(id, session, t), Event(id', session, t))) <==>
            t != StartedEvent && t !in ENDINGS
  {
    var first, second := Event(id, session, t), Event(id', session, t);
    if t == OtherEvent {
      var states, steps := TwoOthers(first, second);
      assert RecordsTwo(states, steps, first, second);
    }
    forall states, steps | RecordsTwo(states, steps, first, second)
      ensures t != StartedEvent && t !in ENDINGS
    {
      if t == StartedEvent {
        StartsAtMostOnce(states, steps, 4, Path(0, id), Path(1, id'));
      }
      if t in ENDINGS {
        EndsAtMostOnce(states, steps, 4, Path(0, id), Path(1, id'));
      }
    }
  }

  lemma TwoOthers(first: Event, second: Event) returns (states: seq<State>, steps: seq<Step>)
    requires first.eventType == second.eventType == OtherEvent && first.id != second.id
    ensures RecordsTwo(states, steps, first, second)
  {
    var q, r := Path(0, first.id), Path(1, second.id);
    var s0 := Empty();
    var s1 := With(s0, 0, Writing(first));
    var s2 := With(s1, 0, Idle).(files := map[q := first], recorded := map[q := first]);
    var s3 := With(s2, 0, Writing(second));
    var s4 := With(s3, 0, Idle).(files := s3.files[r := second], recorded := s3.recorded[r := second]);
    states := [s0, s1, s2, s3, s4];
    steps := [BeginStep(0, first), RecordStep(0, 0), BeginStep(0, second), RecordStep(0, 1)];
    assert s1.files[q := first] == map[q := first] && s1.recorded[q := first] == map[q := first];
    assert Begin(s0, s1, 0, first) && Record(s1, s2, 0, 0);
    assert Begin(s2, s3, 0, second) && Record(s3, s4, 0, 1);
  }

  // What the steps make possible.

  /** "At most once" is for sessions that are not retired: a retired one can start twice. */
  lemma RetiredSessionsRepeat(session: Session, id: Id, id': Id) returns (states: seq<State>, steps: seq<Step>)
    requires id != id'
    ensures Run(states, steps) && |steps| == 5
    ensures var s, first, second := states[5], Event(id, session, StartedEvent), Event(id', session, StartedEvent);
            && Path(0, id) in s.recorded && s.recorded[Path(0, id)] == first
            && Path(1, id') in s.recorded && s.recorded[Path(1, id')] == second
  {
    var first, second := Event(id, session, StartedEvent), Event(id', session, StartedEvent);
    var c := Claim(session, StartedMarker);
    var s0 := Empty();
    var s1 := With(s0, 0, Writing(first)).(markers := {c});
    var s2 := With(s1, 0, Idle).(files := map[Path(0, id) := first], recorded := map[Path(0, id) := first]);
    var s3 := s2.(markers := {}, retired := {session});
    var s4 := With(s3, 0, Writing(second)).(markers := {c});
    var s5 := With(s4, 0, Idle).(files := s4.files[Path(1, id') := second],
                                 recorded := s4.recorded[Path(1, id') := second]);
    states := [s0, s1, s2, s3, s4, s5];
    steps := [BeginStep(0, first), RecordStep(0, 0), RetireStep(session), BeginStep(0, second), RecordStep(0, 1)];
    assert s0.markers + {c} == {c} && s3.markers + {c} == {c};
    assert s1.files[Path(0, id) := first] == s2.files && s1.recorded[Path(0, id) := first] == s2.recorded;
    assert (set m | m in s2.markers && m.session != session) == {};
    assert s2.retired + {session} == {session};
    assert Begin(s0, s1, 0, first) && Record(s1, s2, 0, 0) && Retire(s2, s3, session);
    assert Begin(s3, s4, 0, second) && Record(s4, s5, 0, 1);
  }

  /** A write that fails leaves nothing behind once its claim, if it took one, is given back: it can be repeated. */
  lemma FailedWriteLeavesNothing(s: State, s1: State, s2: State, s3: State, p: Pid, e: Event)
    requires Begin(s, s1, p, e) && WriteFails(s1, s2, p)
    requires if e.eventType == OtherEvent then s3 == s2 else GiveBack(s2, s3, p)
    ensures s3 == s
  {
    assert s.procs[p := Writing(e)][p := Idle] == s.procs;
    if e.eventType != OtherEvent {
      var c := ClaimOf(e).value;
      assert s.markers + {c} - {c} == s.markers;
      assert s.procs[p := Writing(e)][p := GivingBack(c)][p := Idle] == s.procs;
    }
  }

  /** An idle process that reads more than the ceiling can drop all but the newest, and is idle again. */
  lemma {:induction false} TrimRunsToTheEnd(s: State, p: Pid) returns (s': State, states: seq<State>)
    requires p in s.procs && s.procs[p].Trimming?
    ensures |states| == |s.procs[p].todo| + 2 && states[0] == s && states[|states| - 1] == s'
    ensures forall i :: 0 <= i < |states| - 1 ==> Next(states[i], states[i + 1], TrimOneStep(p))
    ensures p in s'.procs && s'.procs[p] == Idle
    ensures s'.files == s.files - (set q | q in s.procs[p].todo)
    decreases |s.procs[p].todo|
  {
    var todo := s.procs[p].todo;
    if todo == [] {
      s' := With(s, p, Idle);
      states := [s, s'];
      assert TrimOne(s, s', p);
    } else {
      var s1 := With(s, p, Trimming(todo[1..])).(files := s.files - {todo[0]}, dropped := s.dropped + {todo[0]});
      assert TrimOne(s, s1, p);
      var rest;
      s', rest := TrimRunsToTheEnd(s1, p);
      states := [s] + rest;
      assert todo == [todo[0]] + todo[1..];
      assert (set q | q in todo) == {todo[0]} + (set q | q in todo[1..]);
    }
  }

  lemma TrimIsPossible(s: State, p: Pid, found: seq<Found>) returns (s': State)
    requires p in s.procs && s.procs[p] == Idle && Reads(s, found) && |found| > MAX_BUFFERED
    ensures Next(s, s', StartTrimStep(p, found)) && s'.procs[p].Trimming?
    ensures forall q :: q in s'.procs[p].todo <==> exists i :: 0 <= i < |found| - MAX_BUFFERED && found[i].path == q
  {
    var oldest := found[..|found| - MAX_BUFFERED];
    s' := With(s, p, Trimming(Paths(oldest)));
    forall q
      ensures q in Paths(oldest) <==> exists i :: 0 <= i < |found| - MAX_BUFFERED && found[i].path == q
    {
      if i :| 0 <= i < |found| - MAX_BUFFERED && found[i].path == q {
        assert Paths(oldest)[i] == q;
      }
    }
  }

  // One event on its way: recorded, sent, stored, acknowledged, forgotten.

  function Empty(): State {
    State(map[], {}, {}, map[0 := Idle], map[], {}, {}, {})
  }

  function Buffered(e: Event): State {
    Empty().(files := map[Path(0, e.id) := e], recorded := map[Path(0, e.id) := e])
  }

  function Delivered(e: Event): State {
    Empty().(recorded := map[Path(0, e.id) := e], stored := {e.id}, acked := {e.id})
  }

  lemma OneIsRecorded(e: Event)
    requires e.eventType == OtherEvent
    ensures Begin(Empty(), With(Empty(), 0, Writing(e)), 0, e)
    ensures Record(With(Empty(), 0, Writing(e)), Buffered(e), 0, 0)
  {
    assert map[0 := Writing(e)][0 := Idle] == map[0 := Idle];
    var none: map<Path, Event> := map[];
    assert none[Path(0, e.id) := e] == map[Path(0, e.id) := e];
  }

  lemma OneIsPosted(e: Event, found: seq<Found>)
    requires found == [Found(Path(0, e.id), e)]
    ensures StartFlush(Buffered(e), With(Buffered(e), 0, Sending(found)), 0, found)
    ensures Post(With(Buffered(e), 0, Sending(found)),
                 With(Buffered(e), 0, Forgetting(found, {e.id})).(stored := {e.id}, acked := {e.id}),
                 0, {e.id}, Some({e.id}))
  {
    assert found[0] in found;
    assert map[0 := Sending(found)][0 := Forgetting(found, {e.id})] == map[0 := Forgetting(found, {e.id})];
  }

  lemma OneIsForgotten(e: Event, found: seq<Found>)
    requires found == [Found(Path(0, e.id), e)]
    ensures var s := With(Buffered(e), 0, Forgetting(found, {e.id})).(stored := {e.id}, acked := {e.id});
            && Forget(s, s.(files := map[]), 0, found[0])
            && EndRound(s.(files := map[]), Delivered(e), 0)
  {
    LeftOver(found, {e.id});
    assert Left(found, {e.id}) == [];
    assert map[Path(0, e.id) := e] - {Path(0, e.id)} == map[];
    assert map[0 := Forgetting(found, {e.id})][0 := Idle] == map[0 := Idle];
  }

  lemma OneEventIsDelivered(e: Event) returns (states: seq<State>, steps: seq<Step>)
    requires e.eventType == OtherEvent
    ensures Run(states, steps) && |steps| == 6 && steps[0] == BeginStep(0, e) && states[6] == Delivered(e)
  {
    var found := [Found(Path(0, e.id), e)];
    var s4 := With(Buffered(e), 0, Forgetting(found, {e.id})).(stored := {e.id}, acked := {e.id});
    states := [Empty(), With(Empty(), 0, Writing(e)), Buffered(e), With(Buffered(e), 0, Sending(found)), s4,
               s4.(files := map[]), Delivered(e)];
    steps := [BeginStep(0, e), RecordStep(0, 0), StartFlushStep(0, found), PostStep(0, {e.id}, Some({e.id})),
              ForgetStep(0, found[0]), EndRoundStep(0)];
    OneIsRecorded(e);
    OneIsPosted(e, found);
    OneIsForgotten(e, found);
  }

  /** The files a process is in the middle of dropping or forgetting. */
  function Pending(proc: Proc): set<Path> {
    match proc
    case Trimming(todo) => set q | q in todo
    case Sending(remaining) => set f | f in remaining :: f.path
    case Forgetting(remaining, _) => set f | f in remaining :: f.path
    case _ => {}
  }

  predicate By(step: Step, p: Pid) {
    !step.ClaimLostStep? && !step.RetireStep? && step.p == p
  }

  predicate ReadsDirectory(step: Step) {
    step.StartTrimStep? || step.StartFlushStep?
  }

  /** A step only unlinks what its process read in a listing. */
  lemma UnlinksOnlyPending(s: State, s': State, step: Step, p: Pid, q: Path)
    requires Next(s, s', step) && By(step, p) && p in s.procs && q in s.files && q !in Pending(s.procs[p])
    ensures q in s'.files
  {
  }

  /** Only a new listing adds to what a process may unlink. */
  lemma PendingShrinks(s: State, s': State, step: Step, p: Pid)
    requires Next(s, s', step) && !(By(step, p) && ReadsDirectory(step)) && p in s.procs
    ensures p in s'.procs && Pending(s'.procs[p]) <= Pending(s.procs[p])
  {
    if step.EndRoundStep? {
      LeftOver(s.procs[step.p].remaining, s.procs[step.p].acked);
    }
  }

  /** What was just recorded is in nobody's listing. */
  lemma NewEventIsNotPending(s: State, s': State, step: Step, p: Pid, q: Path)
    requires Inv(s) && Next(s, s', step) && step.RecordStep?
    requires q in s'.recorded && q !in s.recorded && p in s.procs
    ensures p in s'.procs && q !in Pending(s'.procs[p])
  {
    assert ProcInv(s, s.procs[p]);
  }

  lemma {:induction false} StaysOffTheList(states: seq<State>, steps: seq<Step>, i: nat, j: nat, p: Pid, q: Path)
    requires Run(states, steps) && i < j <= |steps| && steps[i].RecordStep? && p in states[i].procs
    requires q in states[i + 1].recorded && q !in states[i].recorded
    requires forall k :: i < k < j ==> !(By(steps[k], p) && ReadsDirectory(steps[k]))
    ensures p in states[j].procs && q !in Pending(states[j].procs[p])
    decreases j
  {
    if j == i + 1 {
      InvThroughout(states, steps, i);
      NewEventIsNotPending(states[i], states[i + 1], steps[i], p, q);
    } else {
      StaysOffTheList(states, steps, i, j - 1, p, q);
      PendingShrinks(states[j - 1], states[j], steps[j - 1], p);
    }
  }

  /** A flush (or a trim) that was under way when an event was recorded never unlinks that event: as long as
      the process makes no new listing, its steps leave the event on disk. */
  lemma LaterEventsAreSpared(states: seq<State>, steps: seq<Step>, i: nat, j: nat, p: Pid, q: Path)
    requires Run(states, steps) && i < j < |steps| && steps[i].RecordStep? && p in states[i].procs
    requires q in states[i + 1].recorded && q !in states[i].recorded
    requires forall k :: i < k <= j ==> !(By(steps[k], p) && ReadsDirectory(steps[k]))
    requires By(steps[j], p) && q in states[j].files
    ensures q in states[j + 1].files
  {
    StaysOffTheList(states, steps, i, j, p, q);
    UnlinksOnlyPending(states[j], states[j + 1], steps[j], p, q);
  }
}

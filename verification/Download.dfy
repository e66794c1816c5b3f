/** Resumable downloads (`_attempt_download`, `_download_to_path` and the part-file helpers in
    raisin_ota/client.py).

    A download grows in a partial file beside the target; a side file names the digest of the object the
    partial belongs to.  A later attempt asks for the rest with a Range (section 14.2 of RFC 9110) that only
    counts while the object is still that one, an If-Range (section 13.1.5). */
module Download {
  import opened Wrappers

  type Byte = b: int | 0 <= b < 256
  type Hash = string
  type Digest = seq<Byte> -> Hash

  datatype Side = Missing | Unreadable | Names(hash: Hash)

  /** The three files of one download. */
  datatype Disk = Disk(part: Option<seq<Byte>>, side: Side, final: Option<seq<Byte>>)

  /** One change of the file system; a crash falls between two of them. */
  datatype Write =
    | UnlinkPart
    | UnlinkSide
    | BlankSide
    | NameSide(hash: Hash)
    | TruncatePart
    | AppendPart(chunk: seq<Byte>)
    | RenamePart

  function Contents(d: Disk): seq<Byte> {
    if d.part.Some? then d.part.value else []
  }

  function Apply(d: Disk, w: Write): Disk {
    match w
    case UnlinkPart => d.(part := None)
    case UnlinkSide => d.(side := Missing)
    case BlankSide => d.(side := Unreadable)
    case NameSide(h) => d.(side := Names(h))
    case TruncatePart => d.(part := Some([]))
    case AppendPart(chunk) => d.(part := Some(Contents(d) + chunk))
    case RenamePart => Disk(None, d.side, Some(Contents(d)))
  }

  function ApplyAll(d: Disk, ws: seq<Write>): Disk
    decreases |ws|
  {
    if ws == [] then d else ApplyAll(Apply(d, ws[0]), ws[1..])
  }

  lemma {:induction false} ApplyAllConcat(d: Disk, a: seq<Write>, b: seq<Write>)
    ensures ApplyAll(d, a + b) == ApplyAll(ApplyAll(d, a), b)
    decreases |a|
  {
    if a == [] {
      assert a + b == b;
    } else {
      assert (a + b)[1..] == a[1..] + b;
      ApplyAllConcat(Apply(d, a[0]), a[1..], b);
    }
  }

  // ---------------------------------------------------------------------------------------------
  // What the network does

  datatype Failure = Timeout | Connection | Http(status: nat) | DiskFull | HashMismatch | OtherFailure

  /** An answer: its status, the start its Content-Range names, the digest and the length it announces, whether
      that length is more than the disk can take, the body as it arrives, and what cut it short. */
  datatype Response =
    | Raised(failure: Failure)
    | Answer(status: nat, rangeStart: Option<nat>, expected: Option<Hash>, announced: Option<nat>, noRoom: bool,
             chunks: seq<seq<Byte>>, cut: Option<Failure>)

  /** What one attempt meets: whether the partial is too old to resume, the first answer, and the answer to the
      request that follows a 416. */
  datatype Exchange = Exchange(tooOld: bool, first: Response, second: Response)

  datatype Outcome = Done | Failed(failure: Failure)

  function Joined(chunks: seq<seq<Byte>>): seq<Byte> {
    if chunks == [] then [] else chunks[0] + Joined(chunks[1..])
  }

  lemma {:induction false} JoinedAppend(a: seq<seq<Byte>>, b: seq<seq<Byte>>)
    ensures Joined(a + b) == Joined(a) + Joined(b)
    decreases |a|
  {
    if a == [] {
      assert a + b == b;
    } else {
      assert (a + b)[1..] == a[1..] + b;
      JoinedAppend(a[1..], b);
      assert a[0] + (Joined(a[1..]) + Joined(b)) == (a[0] + Joined(a[1..])) + Joined(b);
    }
  }

  // ---------------------------------------------------------------------------------------------
  // One attempt: the writes it makes, in order, and how it ends

  const DISCARD := [UnlinkPart, UnlinkSide]

  function Known(d: Disk): Option<Hash> {
    if d.side.Names? then Some(d.side.hash) else None
  }

  /** A partial without a recorded digest, or one nobody came back for in time, is given up first. */
  predicate GivesUp(d: Disk, tooOld: bool) {
    |Contents(d)| > 0 && (Known(d).None? || tooOld)
  }

  /** The offset the request resumes from; 0 asks for the whole blob. */
  function Existing(d: Disk, tooOld: bool): nat {
    if GivesUp(d, tooOld) then 0 else |Contents(d)|
  }

  function Preparation(d: Disk, tooOld: bool): seq<Write> {
    if GivesUp(d, tooOld) then DISCARD else []
  }

  function Appends(chunks: seq<seq<Byte>>): (ws: seq<Write>)
    ensures |ws| == |chunks|
  {
    if chunks == [] then [] else [AppendPart(chunks[0])] + Appends(chunks[1..])
  }

  function Recording(expected: Option<Hash>): seq<Write> {
    if expected.Some? then [BlankSide, NameSide(expected.value)] else []
  }

  predicate Resumes(existing: nat, r: Response) {
    r.Answer? && existing > 0 && r.status == 206
  }

  predicate Refused(r: Response) {
    r.Answer? && 400 <= r.status < 600
  }

  predicate WrongStart(existing: nat, r: Response)
    requires r.Answer?
  {
    Resumes(existing, r) && r.rangeStart.Some? && r.rangeStart.value != existing
  }

  /** The writes up to the end of the body. */
  function BodyWrites(existing: nat, r: Response): seq<Write>
    requires r.Answer?
  {
    (if existing > 0 && !Resumes(existing, r) then DISCARD else []) + Recording(r.expected)
    + (if Resumes(existing, r) then [] else [TruncatePart]) + Appends(r.chunks)
  }

  /** The bytes the running digest has been fed: the re-read prefix, then every chunk. */
  function Fed(d: Disk, existing: nat, r: Response): seq<Byte>
    requires r.Answer?
  {
    (if Resumes(existing, r) then Contents(d) else []) + Joined(r.chunks)
  }

  predicate TooShort(r: Response)
    requires r.Answer?
  {
    r.announced.Some? && |Joined(r.chunks)| < r.announced.value
  }

  /** What an answer makes of the disk the request was sent from. */
  function Answered(sha: Digest, d: Disk, existing: nat, r: Response): (seq<Write>, Outcome) {
    if r.Raised? then ([], Failed(r.failure))
    else if Refused(r) then ([], Failed(Http(r.status)))
    else if WrongStart(existing, r) then (DISCARD, Failed(Connection))
    else if r.announced.Some? && r.noRoom then
      (if existing > 0 && !Resumes(existing, r) then DISCARD else [], Failed(DiskFull))
    else
      var body := BodyWrites(existing, r);
      if r.cut.Some? then (body, Failed(r.cut.value))
      else if TooShort(r) then (body, Failed(Connection))
      else if r.expected.Some? && sha(Fed(d, existing, r)) != r.expected.value then
        (body + DISCARD, Failed(HashMismatch))
      else (body + ([RenamePart] + DISCARD), Done)
  }

  /** A 416 (section 15.5.17 of RFC 9110) answers a Range that should not have been sent: start over. */
  predicate StartsOver(d: Disk, e: Exchange) {
    e.first.Answer? && e.first.status == 416 && Existing(d, e.tooOld) > 0
  }

  function Attempt(sha: Digest, d: Disk, e: Exchange): (seq<Write>, Outcome) {
    var before := Preparation(d, e.tooOld);
    var d0 := ApplyAll(d, before);
    if StartsOver(d, e) then
      var before' := before + DISCARD;
      var (ws, outcome) := Answered(sha, ApplyAll(d, before'), 0, e.second);
      (before' + ws, outcome)
    else
      var (ws, outcome) := Answered(sha, d0, Existing(d, e.tooOld), e.first);
      (before + ws, outcome)
  }

  /** The answer that decided how the attempt ended. */
  function Deciding(d: Disk, e: Exchange): Response {
    if StartsOver(d, e) then e.second else e.first
  }

  // ---------------------------------------------------------------------------------------------
  // The final path, whatever the server sends

  lemma {:induction false} AppendsResult(d: Disk, chunks: seq<seq<Byte>>)
    requires d.part.Some?
    ensures ApplyAll(d, Appends(chunks)) == d.(part := Some(Contents(d) + Joined(chunks)))
    decreases |chunks|
  {
    if chunks == [] {
      assert Contents(d) + [] == Contents(d);
    } else {
      AppendsResult(Apply(d, AppendPart(chunks[0])), chunks[1..]);
      assert (Contents(d) + chunks[0]) + Joined(chunks[1..]) == Contents(d) + (chunks[0] + Joined(chunks[1..]));
      assert ([AppendPart(chunks[0])] + Appends(chunks[1..]))[1..] == Appends(chunks[1..]);
    }
  }

  lemma ApplyDiscard(d: Disk)
    ensures ApplyAll(d, DISCARD) == Disk(None, Missing, d.final)
  {
    assert DISCARD[1..] == [UnlinkSide] && [UnlinkSide][1..] == [];
    assert ApplyAll(d, DISCARD) == ApplyAll(Apply(d, UnlinkPart), [UnlinkSide]);
  }

  lemma ApplyRecording(d: Disk, expected: Option<Hash>)
    ensures ApplyAll(d, Recording(expected)) == if expected.Some? then d.(side := Names(expected.value)) else d
  {
    if expected.Some? {
      var name := NameSide(expected.value);
      assert Recording(expected)[1..] == [name] && [name][1..] == [];
      assert ApplyAll(d, Recording(expected)) == ApplyAll(Apply(d, BlankSide), [name]);
    }
  }

  lemma ApplyOne(d: Disk, w: Write)
    ensures ApplyAll(d, [w]) == Apply(d, w)
  {
    assert [w][1..] == [];
  }

  function SideAfter(d: Disk, existing: nat, r: Response): Side
    requires r.Answer?
  {
    if r.expected.Some? then Names(r.expected.value)
    else if existing > 0 && !Resumes(existing, r) then Missing
    else d.side
  }

  /** After the body the partial holds exactly what the digest was fed. */
  lemma BodyResult(d: Disk, existing: nat, r: Response)
    requires r.Answer? && existing == |Contents(d)|
    ensures ApplyAll(d, BodyWrites(existing, r)) ==
            Disk(Some(Fed(d, existing, r)), SideAfter(d, existing, r), d.final)
  {
    var resumes := Resumes(existing, r);
    var w1 := if existing > 0 && !resumes then DISCARD else [];
    var w2 := Recording(r.expected);
    var w3 := if resumes then [] else [TruncatePart];
    var w4 := Appends(r.chunks);
    ApplyAllConcat(d, w1 + w2 + w3, w4);
    ApplyAllConcat(d, w1 + w2, w3);
    ApplyAllConcat(d, w1, w2);
    ApplyDiscard(d);
    var d1 := ApplyAll(d, w1);
    ApplyRecording(d1, r.expected);
    var d2 := ApplyAll(d1, w2);
    ApplyOne(d2, TruncatePart);
    var d3 := ApplyAll(d2, w3);
    assert resumes ==> d1 == d;
    assert d3.part.Some? && Contents(d3) == if resumes then Contents(d) else [];
    AppendsResult(d3, r.chunks);
  }

  lemma {:induction false} AppendsNoRename(chunks: seq<seq<Byte>>)
    ensures RenamePart !in Appends(chunks)
  {
    if chunks != [] {
      AppendsNoRename(chunks[1..]);
    }
  }

  lemma BodyNoRename(existing: nat, r: Response)
    requires r.Answer?
    ensures RenamePart !in BodyWrites(existing, r)
  {
    AppendsNoRename(r.chunks);
  }

  lemma {:induction false} NoRenameKeepsFinal(d: Disk, ws: seq<Write>)
    requires RenamePart !in ws
    ensures ApplyAll(d, ws).final == d.final
    decreases |ws|
  {
    if ws != [] {
      assert ws[0] in ws;
      NoRenameKeepsFinal(Apply(d, ws[0]), ws[1..]);
    }
  }

  /** The content passed every check the answer allowed. */
  predicate Verified(sha: Digest, r: Response, x: seq<Byte>) {
    && r.Answer? && !Refused(r) && r.cut.None? && !TooShort(r)
    && (r.expected.Some? ==> sha(x) == r.expected.value)
  }

  /** The writes of an answer rename at most once, as the first of the last three, and only a content that
      passed every check. */
  lemma AnsweredShape(sha: Digest, d: Disk, existing: nat, r: Response)
    requires existing == |Contents(d)|
    ensures var (ws, outcome) := Answered(sha, d, existing, r);
            && (outcome != Done ==> RenamePart !in ws)
            && (outcome == Done ==>
                  && r.Answer? && ws == BodyWrites(existing, r) + ([RenamePart] + DISCARD)
                  && Verified(sha, r, Fed(d, existing, r)))
  {
    if r.Answer? {
      BodyNoRename(existing, r);
    }
  }

  /** The state of the disk when the request goes out. */
  function Asked(d: Disk, e: Exchange): Disk {
    var d0 := ApplyAll(d, Preparation(d, e.tooOld));
    if StartsOver(d, e) then ApplyAll(d0, DISCARD) else d0
  }

  function AskedFor(d: Disk, e: Exchange): nat {
    if StartsOver(d, e) then 0 else Existing(d, e.tooOld)
  }

  function BeforeAsking(d: Disk, e: Exchange): seq<Write> {
    Preparation(d, e.tooOld) + if StartsOver(d, e) then DISCARD else []
  }

  lemma AttemptParts(sha: Digest, d: Disk, e: Exchange)
    ensures ApplyAll(d, BeforeAsking(d, e)) == Asked(d, e)
    ensures AskedFor(d, e) == |Contents(Asked(d, e))|
    ensures AskedFor(d, e) > 0 ==> Asked(d, e) == d && Known(d).Some?
    ensures var (ws, outcome) := Answered(sha, Asked(d, e), AskedFor(d, e), Deciding(d, e));
            Attempt(sha, d, e) == (BeforeAsking(d, e) + ws, outcome)
  {
    var before := Preparation(d, e.tooOld);
    ApplyDiscard(d);
    ApplyAllConcat(d, before, DISCARD);
    ApplyDiscard(ApplyAll(d, before));
    assert before + [] == before;
  }

  /** What a successful attempt leaves: the content at the final path, and nothing else. */
  lemma SuccessResult(sha: Digest, d: Disk, e: Exchange)
    requires Attempt(sha, d, e).1 == Done
    ensures var x := Fed(Asked(d, e), AskedFor(d, e), Deciding(d, e));
            && ApplyAll(d, Attempt(sha, d, e).0) == Disk(None, Missing, Some(x))
            && Verified(sha, Deciding(d, e), x)
  {
    AttemptParts(sha, d, e);
    var d0, existing, r := Asked(d, e), AskedFor(d, e), Deciding(d, e);
    AnsweredShape(sha, d0, existing, r);
    var body := BodyWrites(existing, r);
    ApplyAllConcat(d, BeforeAsking(d, e), body + ([RenamePart] + DISCARD));
    ApplyAllConcat(d0, body, [RenamePart] + DISCARD);
    BodyResult(d0, existing, r);
    var d1 := ApplyAll(d0, body);
    ApplyAllConcat(d1, [RenamePart], DISCARD);
    ApplyOne(d1, RenamePart);
    ApplyDiscard(Apply(d1, RenamePart));
  }

  // ---------------------------------------------------------------------------------------------
  // When an attempt succeeds

  /** The bytes an attempt goes on from: a partial with a recorded digest that is not too old. */
  function GoesOnFrom(d: Disk, tooOld: bool): seq<Byte> {
    if d.part.Some? && d.side.Names? && !tooOld then d.part.value else []
  }

  /** What is there when the whole body has arrived: the prefix counts only for a 206. */
  function Whole(prefix: seq<Byte>, r: Response): seq<Byte>
    requires r.Answer?
  {
    (if r.status == 206 then prefix else []) + Joined(r.chunks)
  }

  /** The body is the right one and arrives whole: no error status, the start that was asked for, room on the disk,
      no cut, at least as many bytes as announced, and the announced digest. */
  predicate Suffices(sha: Digest, prefix: seq<Byte>, r: Response) {
    && r.Answer? && !(400 <= r.status < 600)
    && (prefix != [] && r.status == 206 && r.rangeStart.Some? ==> r.rangeStart.value == |prefix|)
    && (r.announced.Some? ==> !r.noRoom && |Joined(r.chunks)| >= r.announced.value)
    && r.cut.None?
    && (r.expected.Some? ==> sha(Whole(prefix, r)) == r.expected.value)
  }

  predicate SentBack(prefix: seq<Byte>, r: Response) {
    r.Answer? && r.status == 416 && prefix != []
  }

  lemma AnswerDone(sha: Digest, d: Disk, existing: nat, r: Response)
    requires existing == |Contents(d)|
    ensures Answered(sha, d, existing, r).1 == Done <==> Suffices(sha, Contents(d), r)
    ensures r.Answer? ==> Fed(d, existing, r) == Whole(Contents(d), r)
  {
    if r.Answer? {
      assert existing == 0 ==> Contents(d) == [];
    }
  }

  lemma GoesOn(d: Disk, e: Exchange)
    ensures StartsOver(d, e) <==> SentBack(GoesOnFrom(d, e.tooOld), e.first)
    ensures Contents(Asked(d, e)) == if StartsOver(d, e) then [] else GoesOnFrom(d, e.tooOld)
    ensures Asked(d, e).final == d.final
  {
    ApplyDiscard(d);
    ApplyDiscard(ApplyAll(d, Preparation(d, e.tooOld)));
  }

  /** An attempt succeeds if and only if the answer suffices, the second one where the first sends back a Range; and
      then what is at the final path is the prefix with the body. */
  lemma DoneExactly(sha: Digest, d: Disk, e: Exchange)
    ensures var prefix := GoesOnFrom(d, e.tooOld);
            && (Attempt(sha, d, e).1 == Done <==>
                  if SentBack(prefix, e.first) then Suffices(sha, [], e.second) else Suffices(sha, prefix, e.first))
            && (Attempt(sha, d, e).1 == Done ==>
                  ApplyAll(d, Attempt(sha, d, e).0).final ==
                  Some(if SentBack(prefix, e.first) then Whole([], e.second) else Whole(prefix, e.first)))
  {
    AttemptParts(sha, d, e);
    GoesOn(d, e);
    AnswerDone(sha, Asked(d, e), AskedFor(d, e), Deciding(d, e));
    if Attempt(sha, d, e).1 == Done {
      SuccessResult(sha, d, e);
    }
  }

  // What a failed attempt leaves.

  function Left(sha: Digest, d: Disk, e: Exchange): Disk {
    ApplyAll(d, Attempt(sha, d, e).0)
  }

  /** A partial the attempt does not go on from is gone before it asks. */
  function Given(d: Disk, tooOld: bool): Disk {
    if d.part.Some? && d.part.value != [] && GoesOnFrom(d, tooOld) == [] then Disk(None, Missing, d.final) else d
  }

  lemma AskedIsGiven(d: Disk, e: Exchange)
    requires !SentBack(GoesOnFrom(d, e.tooOld), e.first)
    ensures Asked(d, e) == Given(d, e.tooOld) && !StartsOver(d, e)
  {
    GoesOn(d, e);
    ApplyDiscard(d);
  }

  /** No answer, or a refusal: what was there stays, and the failure is the one that was met. */
  lemma RefusalLeaves(sha: Digest, d: Disk, e: Exchange)
    requires !SentBack(GoesOnFrom(d, e.tooOld), e.first)
    ensures e.first.Raised? ==> Attempt(sha, d, e).1 == Failed(e.first.failure)
    ensures e.first.Answer? && 400 <= e.first.status < 600 ==> Attempt(sha, d, e).1 == Failed(Http(e.first.status))
    ensures e.first.Raised? || 400 <= e.first.status < 600 ==> Left(sha, d, e) == Given(d, e.tooOld)
  {
    AttemptParts(sha, d, e);
    AskedIsGiven(d, e);
    assert BeforeAsking(d, e) + [] == BeforeAsking(d, e);
  }

  /** The start is not the one asked for: the partial goes. */
  lemma WrongStartLeaves(sha: Digest, d: Disk, e: Exchange)
    requires e.first.Answer? && e.first.status == 206 && GoesOnFrom(d, e.tooOld) != []
    requires e.first.rangeStart.Some? && e.first.rangeStart.value != |GoesOnFrom(d, e.tooOld)|
    ensures Attempt(sha, d, e).1 == Failed(Connection) && Left(sha, d, e) == Disk(None, Missing, d.final)
  {
    AttemptParts(sha, d, e);
    AskedIsGiven(d, e);
    ApplyAllConcat(d, BeforeAsking(d, e), DISCARD);
    ApplyDiscard(Asked(d, e));
  }

  predicate Accepted(prefix: seq<Byte>, r: Response) {
    && r.Answer? && !(400 <= r.status < 600)
    && (prefix != [] && r.status == 206 && r.rangeStart.Some? ==> r.rangeStart.value == |prefix|)
  }

  /** The announced length does not fit on the disk: nothing is received, and a partial that a whole body would
      replace goes. */
  lemma NoRoomLeaves(sha: Digest, d: Disk, e: Exchange)
    requires Accepted(GoesOnFrom(d, e.tooOld), e.first) && e.first.announced.Some? && e.first.noRoom
    ensures Attempt(sha, d, e).1 == Failed(DiskFull)
    ensures Left(sha, d, e) ==
            if GoesOnFrom(d, e.tooOld) != [] && e.first.status != 206 then Disk(None, Missing, d.final)
            else Given(d, e.tooOld)
  {
    AttemptParts(sha, d, e);
    AskedIsGiven(d, e);
    ApplyAllConcat(d, BeforeAsking(d, e), DISCARD);
    ApplyDiscard(Asked(d, e));
    assert BeforeAsking(d, e) + [] == BeforeAsking(d, e);
  }

  /** The body breaks off, with an exception or without one: what arrived stays, behind the prefix of a 206, under the
      announced digest if there is one. */
  lemma ShortBodyLeaves(sha: Digest, d: Disk, e: Exchange)
    requires Accepted(GoesOnFrom(d, e.tooOld), e.first) && (e.first.announced.Some? ==> !e.first.noRoom)
    requires e.first.cut.Some? || (e.first.announced.Some? && |Joined(e.first.chunks)| < e.first.announced.value)
    ensures Attempt(sha, d, e).1 == Failed(if e.first.cut.Some? then e.first.cut.value else Connection)
    ensures var d' := Left(sha, d, e);
            && d'.part == Some(Whole(GoesOnFrom(d, e.tooOld), e.first)) && d'.final == d.final
            && d'.side == if e.first.expected.Some? then Names(e.first.expected.value)
                          else if GoesOnFrom(d, e.tooOld) != [] && e.first.status != 206 then Missing
                          else Given(d, e.tooOld).side
  {
    AttemptParts(sha, d, e);
    AskedIsGiven(d, e);
    GoesOn(d, e);
    var d0, existing := Asked(d, e), AskedFor(d, e);
    AnswerDone(sha, d0, existing, e.first);
    BodyResult(d0, existing, e.first);
    ApplyAllConcat(d, BeforeAsking(d, e), BodyWrites(existing, e.first));
  }

  /** The whole body has another digest than announced: nothing of it stays. */
  lemma MismatchLeaves(sha: Digest, d: Disk, e: Exchange)
    requires Accepted(GoesOnFrom(d, e.tooOld), e.first) && e.first.cut.None?
    requires e.first.announced.Some? ==> !e.first.noRoom && |Joined(e.first.chunks)| >= e.first.announced.value
    requires e.first.expected.Some? && sha(Whole(GoesOnFrom(d, e.tooOld), e.first)) != e.first.expected.value
    ensures Attempt(sha, d, e).1 == Failed(HashMismatch) && Left(sha, d, e) == Disk(None, Missing, d.final)
  {
    AttemptParts(sha, d, e);
    AskedIsGiven(d, e);
    GoesOn(d, e);
    var d0, existing := Asked(d, e), AskedFor(d, e);
    AnswerDone(sha, d0, existing, e.first);
    BodyResult(d0, existing, e.first);
    ApplyAllConcat(d, BeforeAsking(d, e), BodyWrites(existing, e.first) + DISCARD);
    ApplyAllConcat(d0, BodyWrites(existing, e.first), DISCARD);
    ApplyDiscard(ApplyAll(d0, BodyWrites(existing, e.first)));
  }

  // A download in pieces.

  /** Answer number `i` of a server whose object is the pieces one after the other: it announces the digest, sends
      piece `i` behind those that arrived, and is cut off unless it is the last. */
  ghost predicate SendsPiece(sha: Digest, pieces: seq<seq<Byte>>, i: nat, e: Exchange)
    requires i < |pieces|
  {
    var sent, r := Joined(pieces[..i]), e.first;
    && (i > 0 ==> !e.tooOld)
    && r.Answer? && !(400 <= r.status < 600) && (sent != [] ==> r.status == 206)
    && (r.rangeStart.Some? ==> r.rangeStart.value == |sent|)
    && r.expected == Some(sha(Joined(pieces)))
    && Joined(r.chunks) == pieces[i] && (r.cut.None? <==> i == |pieces| - 1)
    && (r.announced.Some? ==> !r.noRoom && (r.cut.None? ==> |pieces[i]| >= r.announced.value))
  }

  ghost predicate SendsPieces(sha: Digest, pieces: seq<seq<Byte>>, exchanges: nat -> Exchange) {
    forall i: nat :: i < |pieces| ==> SendsPiece(sha, pieces, i, exchanges(i))
  }

  function AfterAttempts(sha: Digest, d: Disk, exchanges: nat -> Exchange, n: nat): Disk
    decreases n
  {
    if n == 0 then d else Left(sha, AfterAttempts(sha, d, exchanges, n - 1), exchanges(n - 1))
  }

  lemma JoinedNext(pieces: seq<seq<Byte>>, i: nat)
    requires i < |pieces|
    ensures Joined(pieces[..i + 1]) == Joined(pieces[..i]) + pieces[i]
  {
    assert pieces[..i + 1] == pieces[..i] + [pieces[i]];
    JoinedAppend(pieces[..i], [pieces[i]]);
    var one: seq<seq<Byte>> := [pieces[i]];
    assert one[1..] == [] && Joined(one) == pieces[i] + [] == pieces[i];
  }

  lemma PieceArrives(sha: Digest, d: Disk, pieces: seq<seq<Byte>>, i: nat, e: Exchange)
    requires i < |pieces| && SendsPiece(sha, pieces, i, e) && GoesOnFrom(d, e.tooOld) == Joined(pieces[..i])
    ensures e.first.Answer? && Whole(GoesOnFrom(d, e.tooOld), e.first) == Joined(pieces[..i + 1])
    ensures !SentBack(GoesOnFrom(d, e.tooOld), e.first)
    ensures i + 1 < |pieces| ==>
              && Accepted(GoesOnFrom(d, e.tooOld), e.first) && (e.first.announced.Some? ==> !e.first.noRoom)
              && e.first.cut.Some? && e.first.expected.Some?
    ensures i + 1 == |pieces| ==> Suffices(sha, GoesOnFrom(d, e.tooOld), e.first)
  {
    var sent := Joined(pieces[..i]);
    JoinedNext(pieces, i);
    assert sent == [] ==> sent + pieces[i] == pieces[i];
    assert pieces[..|pieces|] == pieces;
  }

  /** What has arrived is not sent again: each attempt goes on where the one before was cut off. */
  lemma {:induction false} PartialGrows(sha: Digest, d: Disk, pieces: seq<seq<Byte>>, exchanges: nat -> Exchange,
                                        i: nat)
    requires SendsPieces(sha, pieces, exchanges) && i < |pieces| && GoesOnFrom(d, exchanges(0).tooOld) == []
    ensures GoesOnFrom(AfterAttempts(sha, d, exchanges, i), exchanges(i).tooOld) == Joined(pieces[..i])
    ensures i > 0 ==> Attempt(sha, AfterAttempts(sha, d, exchanges, i - 1), exchanges(i - 1)).1.Failed?
    decreases i
  {
    if i > 0 {
      var before, e := AfterAttempts(sha, d, exchanges, i - 1), exchanges(i - 1);
      PartialGrows(sha, d, pieces, exchanges, i - 1);
      assert SendsPiece(sha, pieces, i - 1, e);
      PieceArrives(sha, before, pieces, i - 1, e);
      ShortBodyLeaves(sha, before, e);
      assert SendsPiece(sha, pieces, i, exchanges(i));
    }
  }

  /** So a download that is cut off any number of times ends with the whole object. */
  lemma PiecesMakeTheObject(sha: Digest, d: Disk, pieces: seq<seq<Byte>>, exchanges: nat -> Exchange)
    requires SendsPieces(sha, pieces, exchanges) && pieces != [] && GoesOnFrom(d, exchanges(0).tooOld) == []
    ensures var last := AfterAttempts(sha, d, exchanges, |pieces| - 1);
            && Attempt(sha, last, exchanges(|pieces| - 1)).1 == Done
            && AfterAttempts(sha, d, exchanges, |pieces|).final == Some(Joined(pieces))
    ensures forall i: nat :: i + 1 < |pieces| ==>
              Attempt(sha, AfterAttempts(sha, d, exchanges, i), exchanges(i)).1.Failed?
  {
    var n := |pieces| - 1;
    var last, e := AfterAttempts(sha, d, exchanges, n), exchanges(n);
    PartialGrows(sha, d, pieces, exchanges, n);
    assert SendsPiece(sha, pieces, n, e);
    PieceArrives(sha, last, pieces, n, e);
    assert pieces[..n + 1] == pieces;
    DoneExactly(sha, last, e);
    forall i: nat | i + 1 < |pieces|
      ensures Attempt(sha, AfterAttempts(sha, d, exchanges, i), exchanges(i)).1.Failed?
    {
      PartialGrows(sha, d, pieces, exchanges, i + 1);
    }
  }

  lemma {:induction false} PrefixBeforeRename(d: Disk, a: seq<Write>, b: seq<Write>, k: nat)
    requires RenamePart !in a && k <= |a| + 1 + |b|
    requires RenamePart !in b
    ensures var ws := a + ([RenamePart] + b);
            ApplyAll(d, ws[..k]).final == if k <= |a| then d.final else Some(Contents(ApplyAll(d, a)))
  {
    var ws := a + ([RenamePart] + b);
    if k <= |a| {
      assert ws[..k] == a[..k];
      NoRenameKeepsFinal(d, a[..k]);
    } else {
      var j := k - |a| - 1;
      assert ws[..k] == a + ([RenamePart] + b[..j]);
      ApplyAllConcat(d, a, [RenamePart] + b[..j]);
      ApplyAllConcat(ApplyAll(d, a), [RenamePart], b[..j]);
      ApplyOne(ApplyAll(d, a), RenamePart);
      NoRenameKeepsFinal(Apply(ApplyAll(d, a), RenamePart), b[..j]);
    }
  }

  /** The writes of an attempt before its rename. */
  function BeforeRename(d: Disk, e: Exchange): seq<Write>
    requires Deciding(d, e).Answer?
  {
    BeforeAsking(d, e) + BodyWrites(AskedFor(d, e), Deciding(d, e))
  }

  lemma BeforeRenameNoRename(d: Disk, e: Exchange)
    requires Deciding(d, e).Answer?
    ensures RenamePart !in BeforeRename(d, e)
  {
    BodyNoRename(AskedFor(d, e), Deciding(d, e));
    assert RenamePart !in BeforeAsking(d, e);
  }

  lemma ConcatAssociative(a: seq<Write>, b: seq<Write>, c: seq<Write>)
    ensures a + (b + c) == (a + b) + c
  {
  }

  lemma SuccessShape(sha: Digest, d: Disk, e: Exchange)
    requires Attempt(sha, d, e).1 == Done
    ensures Deciding(d, e).Answer?
    ensures Attempt(sha, d, e).0 == BeforeRename(d, e) + ([RenamePart] + DISCARD)
    ensures RenamePart !in BeforeRename(d, e)
    ensures Contents(ApplyAll(d, BeforeRename(d, e))) == Fed(Asked(d, e), AskedFor(d, e), Deciding(d, e))
  {
    AttemptParts(sha, d, e);
    var d0, existing, r := Asked(d, e), AskedFor(d, e), Deciding(d, e);
    AnsweredShape(sha, d0, existing, r);
    var before, body := BeforeAsking(d, e), BodyWrites(existing, r);
    BeforeRenameNoRename(d, e);
    ConcatAssociative(before, body, [RenamePart] + DISCARD);
    ApplyAllConcat(d, before, body);
    BodyResult(d0, existing, r);
  }

  lemma SucceedingAttemptFinal(sha: Digest, d: Disk, e: Exchange, k: nat)
    requires Attempt(sha, d, e).1 == Done && k <= |Attempt(sha, d, e).0|
    ensures var final := ApplyAll(d, Attempt(sha, d, e).0[..k]).final;
            final == d.final || final == Some(Fed(Asked(d, e), AskedFor(d, e), Deciding(d, e)))
  {
    SuccessShape(sha, d, e);
    PrefixBeforeRename(d, BeforeRename(d, e), DISCARD, k);
  }

  lemma FailingAttemptFinal(sha: Digest, d: Disk, e: Exchange, k: nat)
    requires Attempt(sha, d, e).1 != Done && k <= |Attempt(sha, d, e).0|
    ensures ApplyAll(d, Attempt(sha, d, e).0[..k]).final == d.final
  {
    AttemptParts(sha, d, e);
    AnsweredShape(sha, Asked(d, e), AskedFor(d, e), Deciding(d, e));
    var ws := Attempt(sha, d, e).0;
    assert RenamePart !in ws;
    assert RenamePart !in ws[..k];
    NoRenameKeepsFinal(d, ws[..k]);
  }

  /** At every point where an attempt can be interrupted, the final path holds what it held before or a content
      that passed every check: the installer never sees a part of an archive. */
  lemma FinalIsOldOrVerified(sha: Digest, d: Disk, e: Exchange, k: nat)
    requires k <= |Attempt(sha, d, e).0|
    ensures var final := ApplyAll(d, Attempt(sha, d, e).0[..k]).final;
            || final == d.final
            || (Attempt(sha, d, e).1 == Done && final.Some? && Verified(sha, Deciding(d, e), final.value))
  {
    if Attempt(sha, d, e).1 == Done {
      SucceedingAttemptFinal(sha, d, e, k);
      SuccessResult(sha, d, e);
    } else {
      FailingAttemptFinal(sha, d, e, k);
    }
  }

  // ---------------------------------------------------------------------------------------------
  // The partial file, against a server that obeys If-Range

  ghost predicate CollisionFree(sha: Digest) {
    forall a, b :: sha(a) == sha(b) ==> a == b
  }

  /** A partial whose digest is recorded is the beginning of the object with that digest. */
  ghost predicate Sound(sha: Digest, d: Disk) {
    Contents(d) != [] && d.side.Names? ==> exists o :: sha(o) == d.side.hash && Contents(d) <= o
  }

  /** The answer of a server whose object is `blob` to a request for the bytes from `existing` on under the
      condition that the object still has the digest `known`: it may keep silent about the digest. */
  ghost predicate Obeys(sha: Digest, blob: seq<Byte>, existing: nat, known: Option<Hash>, r: Response) {
    r.Answer? && !Refused(r) ==>
      && (r.expected.Some? ==> r.expected.value == sha(blob))
      && (if r.status == 206 then
            && existing > 0 && known == Some(sha(blob)) && existing <= |blob|
            && Joined(r.chunks) <= blob[existing..]
          else
            Joined(r.chunks) <= blob)
  }

  predicate Announces(r: Response) {
    r.Answer? && !Refused(r) ==> r.expected.Some?
  }

  /** ... and this one does not. */
  ghost predicate Honest(sha: Digest, blob: seq<Byte>, existing: nat, known: Option<Hash>, r: Response) {
    Obeys(sha, blob, existing, known, r) && Announces(r)
  }

  /** The objects the server had when it answered the one request and the other. */
  ghost predicate ObeyingExchange(sha: Digest, first: seq<Byte>, second: seq<Byte>, d: Disk, e: Exchange) {
    && Obeys(sha, first, Existing(d, e.tooOld), Known(d), e.first)
    && Obeys(sha, second, 0, None, e.second)
  }

  ghost predicate HonestExchange(sha: Digest, first: seq<Byte>, second: seq<Byte>, d: Disk, e: Exchange) {
    && Honest(sha, first, Existing(d, e.tooOld), Known(d), e.first)
    && Honest(sha, second, 0, None, e.second)
  }

  /** A side file that names a digest, but no bytes it could belong to. */
  predicate Orphan(d: Disk) {
    Contents(d) == [] && d.side.Names?
  }

  ghost predicate SoundThroughout(sha: Digest, d: Disk, ws: seq<Write>)
    decreases |ws|
  {
    Sound(sha, d) && (ws == [] || SoundThroughout(sha, Apply(d, ws[0]), ws[1..]))
  }

  lemma {:induction false} SoundAt(sha: Digest, d: Disk, ws: seq<Write>, k: nat)
    requires SoundThroughout(sha, d, ws) && k <= |ws|
    ensures Sound(sha, ApplyAll(d, ws[..k]))
    decreases k
  {
    if k > 0 {
      SoundAt(sha, Apply(d, ws[0]), ws[1..], k - 1);
      assert ws[..k][1..] == ws[1..][..k - 1];
    }
  }

  lemma {:induction false} SoundConcat(sha: Digest, d: Disk, a: seq<Write>, b: seq<Write>)
    requires SoundThroughout(sha, d, a) && SoundThroughout(sha, ApplyAll(d, a), b)
    ensures SoundThroughout(sha, d, a + b)
    decreases |a|
  {
    if a == [] {
      assert a + b == b;
    } else {
      assert (a + b)[1..] == a[1..] + b;
      SoundConcat(sha, Apply(d, a[0]), a[1..], b);
    }
  }

  lemma SoundDiscard(sha: Digest, d: Disk)
    requires Sound(sha, d)
    ensures SoundThroughout(sha, d, DISCARD)
  {
    assert DISCARD[1..] == [UnlinkSide] && [UnlinkSide][1..] == [];
    var d1 := Apply(d, UnlinkPart);
    assert SoundThroughout(sha, Apply(d1, UnlinkSide), []);
    assert SoundThroughout(sha, d1, [UnlinkSide]);
  }

  /** Recording a digest is safe over an empty partial, and over the beginning of the object it names. */
  lemma SoundRecording(sha: Digest, d: Disk, blob: seq<Byte>)
    requires Sound(sha, d) && Contents(d) <= blob
    ensures SoundThroughout(sha, d, Recording(Some(sha(blob))))
  {
    var name := NameSide(sha(blob));
    var ws := Recording(Some(sha(blob)));
    assert ws[1..] == [name] && [name][1..] == [];
    var d1 := Apply(d, BlankSide);
    var d2 := Apply(d1, name);
    assert Sound(sha, d2);
    assert SoundThroughout(sha, d2, []);
    assert SoundThroughout(sha, d1, [name]);
  }

  lemma {:induction false} SoundAppends(sha: Digest, d: Disk, blob: seq<Byte>, chunks: seq<seq<Byte>>)
    requires d.part.Some? && d.side == Names(sha(blob))
    requires Contents(d) + Joined(chunks) <= blob
    ensures SoundThroughout(sha, d, Appends(chunks))
    decreases |chunks|
  {
    assert Contents(d) <= blob;
    if chunks != [] {
      var d1 := Apply(d, AppendPart(chunks[0]));
      assert Contents(d1) + Joined(chunks[1..]) == Contents(d) + Joined(chunks);
      SoundAppends(sha, d1, blob, chunks[1..]);
      assert Appends(chunks)[1..] == Appends(chunks[1..]);
    }
  }

  /** The body of an honest answer never leaves a partial under a digest it does not belong to. */
  lemma SoundBody(sha: Digest, d: Disk, blob: seq<Byte>, existing: nat, r: Response)
    requires CollisionFree(sha) && Sound(sha, d) && existing == |Contents(d)|
    requires r.Answer? && !Refused(r) && Honest(sha, blob, existing, Known(d), r)
    ensures SoundThroughout(sha, d, BodyWrites(existing, r))
    ensures Fed(d, existing, r) <= blob
  {
    var resumes := Resumes(existing, r);
    var w1 := if existing > 0 && !resumes then DISCARD else [];
    var w2 := Recording(r.expected);
    var w3 := if resumes then [] else [TruncatePart];
    var w4 := Appends(r.chunks);
    if resumes {
      var o :| sha(o) == d.side.hash && Contents(d) <= o;
      assert o == blob;
    }
    SoundDiscard(sha, d);
    ApplyDiscard(d);
    var d1 := ApplyAll(d, w1);
    assert Contents(d1) <= blob;
    SoundRecording(sha, d1, blob);
    ApplyRecording(d1, r.expected);
    var d2 := ApplyAll(d1, w2);
    ApplyOne(d2, TruncatePart);
    var d3 := ApplyAll(d2, w3);
    SoundTruncate(sha, d2, w3);
    SoundAppends(sha, d3, blob, r.chunks);
    SoundConcat(sha, d, w1, w2);
    ApplyAllConcat(d, w1, w2);
    SoundConcat(sha, d, w1 + w2, w3);
    ApplyAllConcat(d, w1 + w2, w3);
    SoundConcat(sha, d, w1 + w2 + w3, w4);
  }

  lemma {:induction false} SoundUnnamed(sha: Digest, d: Disk, ws: seq<Write>)
    requires !d.side.Names? && forall w :: w in ws ==> w.TruncatePart? || w.AppendPart?
    ensures SoundThroughout(sha, d, ws)
    decreases |ws|
  {
    if ws != [] {
      assert ws[0] in ws;
      SoundUnnamed(sha, Apply(d, ws[0]), ws[1..]);
    }
  }

  lemma {:induction false} AppendsAppend(chunks: seq<seq<Byte>>)
    ensures forall w :: w in Appends(chunks) ==> w.AppendPart?
    decreases |chunks|
  {
    if chunks != [] {
      AppendsAppend(chunks[1..]);
    }
  }

  lemma SilentResumption(sha: Digest, d: Disk, blob: seq<Byte>, existing: nat, r: Response)
    requires Sound(sha, d) && !Orphan(d) && existing == |Contents(d)| && Resumes(existing, r) && r.expected.None?
    requires r.Answer? && !Refused(r) && Obeys(sha, blob, existing, Known(d), r) && CollisionFree(sha)
    ensures SoundThroughout(sha, d, BodyWrites(existing, r))
  {
    AppendsAppend(r.chunks);
    var o :| sha(o) == d.side.hash && Contents(d) <= o;
    assert o == blob;
    SoundAppends(sha, d, blob, r.chunks);
    assert BodyWrites(existing, r) == Appends(r.chunks);
  }

  lemma SilentRestart(sha: Digest, d: Disk, existing: nat, r: Response)
    requires Sound(sha, d) && !Orphan(d) && existing == |Contents(d)| && !Resumes(existing, r)
    requires r.Answer? && !Refused(r) && r.expected.None?
    ensures SoundThroughout(sha, d, BodyWrites(existing, r))
  {
    AppendsAppend(r.chunks);
    var w1 := if existing > 0 then DISCARD else [];
    var w2 := [TruncatePart] + Appends(r.chunks);
    SoundDiscard(sha, d);
    ApplyDiscard(d);
    SoundUnnamed(sha, ApplyAll(d, w1), w2);
    SoundConcat(sha, d, w1, w2);
    assert BodyWrites(existing, r) == w1 + w2;
  }

  /** Neither does the body of a silent one, unless it finds an orphaned side file. */
  lemma SilentBody(sha: Digest, d: Disk, blob: seq<Byte>, existing: nat, r: Response)
    requires Sound(sha, d) && !Orphan(d) && existing == |Contents(d)|
    requires r.Answer? && !Refused(r) && Obeys(sha, blob, existing, Known(d), r) && r.expected.None?
    requires CollisionFree(sha)
    ensures SoundThroughout(sha, d, BodyWrites(existing, r))
  {
    if Resumes(existing, r) {
      SilentResumption(sha, d, blob, existing, r);
    } else {
      SilentRestart(sha, d, existing, r);
    }
  }

  lemma SoundTruncate(sha: Digest, d: Disk, ws: seq<Write>)
    requires Sound(sha, d) && (ws == [] || ws == [TruncatePart])
    ensures SoundThroughout(sha, d, ws)
  {
    if ws != [] {
      assert ws[1..] == [];
      assert SoundThroughout(sha, Apply(d, TruncatePart), []);
    }
  }

  lemma SoundRename(sha: Digest, d: Disk)
    requires Sound(sha, d)
    ensures SoundThroughout(sha, d, [RenamePart] + DISCARD)
  {
    var d1 := Apply(d, RenamePart);
    assert Sound(sha, d1);
    SoundDiscard(sha, d1);
    assert ([RenamePart] + DISCARD)[1..] == DISCARD;
  }

  lemma {:induction false} SoundAtTheEnd(sha: Digest, d: Disk, ws: seq<Write>)
    requires SoundThroughout(sha, d, ws)
    ensures Sound(sha, ApplyAll(d, ws))
  {
    SoundAt(sha, d, ws, |ws|);
    assert ws[..|ws|] == ws;
  }

  lemma SoundAnswered(sha: Digest, d: Disk, blob: seq<Byte>, existing: nat, r: Response)
    requires CollisionFree(sha) && Sound(sha, d) && existing == |Contents(d)|
    requires Obeys(sha, blob, existing, Known(d), r) && (Orphan(d) ==> Announces(r))
    ensures SoundThroughout(sha, d, Answered(sha, d, existing, r).0)
  {
    SoundDiscard(sha, d);
    if r.Answer? && !Refused(r) {
      if r.expected.Some? {
        SoundBody(sha, d, blob, existing, r);
      } else {
        SilentBody(sha, d, blob, existing, r);
      }
      var body := BodyWrites(existing, r);
      SoundAtTheEnd(sha, d, body);
      SoundDiscard(sha, ApplyAll(d, body));
      SoundConcat(sha, d, body, DISCARD);
      SoundRename(sha, ApplyAll(d, body));
      SoundConcat(sha, d, body, [RenamePart] + DISCARD);
    }
  }

  lemma SoundBeforeAsking(sha: Digest, d: Disk, e: Exchange)
    requires Sound(sha, d)
    ensures SoundThroughout(sha, d, BeforeAsking(d, e)) && Sound(sha, Asked(d, e))
  {
    var before := Preparation(d, e.tooOld);
    SoundDiscard(sha, d);
    SoundAtTheEnd(sha, d, before);
    SoundDiscard(sha, ApplyAll(d, before));
    SoundConcat(sha, d, before, DISCARD);
    assert before + [] == before;
    SoundAtTheEnd(sha, d, BeforeAsking(d, e));
    AttemptParts(sha, d, e);
  }

  /** The object the deciding answer was about. */
  function Blob(first: seq<Byte>, second: seq<Byte>, d: Disk, e: Exchange): seq<Byte> {
    if StartsOver(d, e) then second else first
  }

  lemma DecidingObeys(sha: Digest, first: seq<Byte>, second: seq<Byte>, d: Disk, e: Exchange)
    requires ObeyingExchange(sha, first, second, d, e)
    ensures Obeys(sha, Blob(first, second, d, e), AskedFor(d, e), Known(Asked(d, e)), Deciding(d, e))
  {
    AttemptParts(sha, d, e);
  }

  lemma AskedOrphan(d: Disk, e: Exchange)
    ensures Orphan(Asked(d, e)) ==> Orphan(d)
  {
    ApplyDiscard(d);
    ApplyDiscard(ApplyAll(d, Preparation(d, e.tooOld)));
  }

  lemma AttemptThroughout(sha: Digest, first: seq<Byte>, second: seq<Byte>, d: Disk, e: Exchange)
    requires CollisionFree(sha) && Sound(sha, d) && ObeyingExchange(sha, first, second, d, e)
    requires Orphan(d) ==> Announces(Deciding(d, e))
    ensures SoundThroughout(sha, d, Attempt(sha, d, e).0)
  {
    AttemptParts(sha, d, e);
    AskedOrphan(d, e);
    SoundBeforeAsking(sha, d, e);
    DecidingObeys(sha, first, second, d, e);
    var d0, existing, r := Asked(d, e), AskedFor(d, e), Deciding(d, e);
    SoundAnswered(sha, d0, Blob(first, second, d, e), existing, r);
    SoundConcat(sha, d, BeforeAsking(d, e), Answered(sha, d0, existing, r).0);
  }

  /** Against a server that obeys If-Range the partial is sound at every point where the attempt can be
      interrupted, if the answer announces the digest or there is no orphaned side file. */
  lemma AttemptIsSound(sha: Digest, first: seq<Byte>, second: seq<Byte>, d: Disk, e: Exchange, k: nat)
    requires CollisionFree(sha) && Sound(sha, d) && ObeyingExchange(sha, first, second, d, e)
    requires Orphan(d) ==> Announces(Deciding(d, e))
    requires k <= |Attempt(sha, d, e).0|
    ensures Sound(sha, ApplyAll(d, Attempt(sha, d, e).0[..k]))
  {
    AttemptThroughout(sha, first, second, d, e);
    SoundAt(sha, d, Attempt(sha, d, e).0, k);
  }

  /** Whatever a server that obeys If-Range answers, the partial stays sound at every point of the attempt. */
  ghost predicate SafeFrom(sha: Digest, d: Disk) {
    forall first, second, e ::
      ObeyingExchange(sha, first, second, d, e) ==> SoundThroughout(sha, d, Attempt(sha, d, e).0)
  }

  /** Some bytes that are not the beginning of an object. */
  function NotThere(o: seq<Byte>): (x: seq<Byte>)
    ensures |x| == 1 && !(x <= o)
  {
    if o == [] || o[0] != 0 then [0] else [1]
  }

  /** A silent answer that is cut off puts the bytes of another object under an orphaned side file. */
  lemma OrphanIsAdopted(sha: Digest, d: Disk, x: seq<Byte>)
    requires Orphan(d) && |x| == 1 && (forall o :: sha(o) == d.side.hash ==> !(x <= o))
    ensures !SafeFrom(sha, d)
  {
    var lost := Raised(Connection);
    var begun := Answer(200, None, None, None, false, [x], Some(Connection));
    var e := Exchange(false, begun, lost);
    assert [x][1..] == [] && Joined([x]) == x + [] == x;
    assert ObeyingExchange(sha, x, x, d, e);
    var ws := Attempt(sha, d, e).0;
    assert ws == BodyWrites(0, begun);
    BodyOfOneChunk(d, 0, begun, x);
    var d' := ApplyAll(d, ws);
    assert [] + x == x;
    assert !Sound(sha, d');
    if SoundThroughout(sha, d, ws) {
      SoundAtTheEnd(sha, d, ws);
    }
  }

  /** So without announced digests resuming is safe exactly when no side file is orphaned. */
  lemma SafeExactlyWithoutOrphan(sha: Digest, d: Disk)
    requires CollisionFree(sha) && Sound(sha, d)
    ensures SafeFrom(sha, d) <==> !Orphan(d)
  {
    if Orphan(d) {
      if o :| sha(o) == d.side.hash {
        OrphanIsAdopted(sha, d, NotThere(o));
      } else {
        OrphanIsAdopted(sha, d, [0]);
      }
    } else {
      forall first, second, e | ObeyingExchange(sha, first, second, d, e)
        ensures SoundThroughout(sha, d, Attempt(sha, d, e).0)
      {
        AttemptThroughout(sha, first, second, d, e);
      }
    }
  }

  /** An honest server's success delivers its whole object, however many attempts the partial grew over. */
  lemma SuccessDeliversTheObject(sha: Digest, first: seq<Byte>, second: seq<Byte>, d: Disk, e: Exchange)
    requires CollisionFree(sha) && HonestExchange(sha, first, second, d, e) && Attempt(sha, d, e).1 == Done
    ensures ApplyAll(d, Attempt(sha, d, e).0) == Disk(None, Missing, Some(Blob(first, second, d, e)))
  {
    SuccessResult(sha, d, e);
    DecidingObeys(sha, first, second, d, e);
  }

  // ---------------------------------------------------------------------------------------------
  // Any number of attempts

  /** One attempt of a run: what it met, the objects the server had, and after how many writes it was
      interrupted, if it was. */
  datatype Try = Try(exchange: Exchange, first: seq<Byte>, second: seq<Byte>, stop: Option<nat>)

  function AfterTry(sha: Digest, d: Disk, t: Try): Disk {
    var ws := Attempt(sha, d, t.exchange).0;
    if t.stop.Some? && t.stop.value <= |ws| then ApplyAll(d, ws[..t.stop.value]) else ApplyAll(d, ws)
  }

  function AfterTries(sha: Digest, d: Disk, ts: seq<Try>): Disk
    decreases |ts|
  {
    if ts == [] then d else AfterTries(sha, AfterTry(sha, d, ts[0]), ts[1..])
  }

  /** The server obeys If-Range, and announces the digest of what it sends to a disk with an orphaned side file. */
  ghost predicate Guarded(sha: Digest, d: Disk, t: Try) {
    && ObeyingExchange(sha, t.first, t.second, d, t.exchange)
    && (Orphan(d) ==> Announces(Deciding(d, t.exchange)))
  }

  ghost predicate GuardedThroughout(sha: Digest, d: Disk, ts: seq<Try>)
    decreases |ts|
  {
    ts == [] || (Guarded(sha, d, ts[0]) && GuardedThroughout(sha, AfterTry(sha, d, ts[0]), ts[1..]))
  }

  /** Over any such sequence of attempts, truncated bodies, crashes and changes of the object, resuming never
      splices two objects. */
  lemma {:induction false} RunsNeverSplice(sha: Digest, d: Disk, ts: seq<Try>)
    requires CollisionFree(sha) && Sound(sha, d) && GuardedThroughout(sha, d, ts)
    ensures Sound(sha, AfterTries(sha, d, ts))
    decreases |ts|
  {
    if ts != [] {
      var ws := Attempt(sha, d, ts[0].exchange).0;
      var k := if ts[0].stop.Some? && ts[0].stop.value <= |ws| then ts[0].stop.value else |ws|;
      AttemptIsSound(sha, ts[0].first, ts[0].second, d, ts[0].exchange, k);
      assert ws[..|ws|] == ws;
      RunsNeverSplice(sha, AfterTry(sha, d, ts[0]), ts[1..]);
    }
  }

  /** Every attempt is met by a server that announces its digest and obeys If-Range. */
  ghost predicate HonestThroughout(sha: Digest, d: Disk, ts: seq<Try>)
    decreases |ts|
  {
    ts == [] ||
    (&& HonestExchange(sha, ts[0].first, ts[0].second, d, ts[0].exchange)
     && HonestThroughout(sha, AfterTry(sha, d, ts[0]), ts[1..]))
  }

  /** A server that always announces its digest need not know about side files. */
  lemma {:induction false} HonestRunsAreGuarded(sha: Digest, d: Disk, ts: seq<Try>)
    requires HonestThroughout(sha, d, ts)
    ensures GuardedThroughout(sha, d, ts)
    decreases |ts|
  {
    if ts != [] {
      HonestRunsAreGuarded(sha, AfterTry(sha, d, ts[0]), ts[1..]);
    }
  }

  /** After any such run the next attempt may be met by a silent server exactly when no side file is orphaned. */
  lemma RunsStaySafeExactlyWithoutOrphan(sha: Digest, d: Disk, ts: seq<Try>)
    requires CollisionFree(sha) && Sound(sha, d) && GuardedThroughout(sha, d, ts)
    ensures SafeFrom(sha, AfterTries(sha, d, ts)) <==> !Orphan(AfterTries(sha, d, ts))
  {
    RunsNeverSplice(sha, d, ts);
    SafeExactlyWithoutOrphan(sha, AfterTries(sha, d, ts));
  }

  lemma BodyOfOneChunk(d: Disk, existing: nat, r: Response, chunk: seq<Byte>)
    requires r.Answer? && existing == |Contents(d)| && r.chunks == [chunk]
    ensures ApplyAll(d, BodyWrites(existing, r)) ==
            Disk(Some((if Resumes(existing, r) then Contents(d) else []) + chunk), SideAfter(d, existing, r), d.final)
  {
    BodyResult(d, existing, r);
    assert [chunk][1..] == [] && Joined([chunk]) == chunk + [] == chunk;
  }

  /** Announcing the digest cannot be left out.  A crash between the two unlinks of a discard leaves a side file
      without a partial; an answer without a digest then grows a partial under it, and a later one completes it
      with the end of the object the side file names. */
  lemma UnannouncedDigestCanSplice(sha: Digest, past: seq<Byte>, started: seq<Byte>, other: seq<Byte>)
    returns (ts: seq<Try>)
    requires 0 < |started| <= |past| && other != [] && other <= past
    ensures |ts| == 3
    ensures forall t :: t in ts && t.exchange.first.Answer? ==> t.exchange.first.expected.None?
    ensures var d := Disk(Some(other), Names(sha(past)), None);
            && Sound(sha, d)
            && AfterTries(sha, d, ts).final == Some(started + past[|started|..])
  {
    var d := Disk(Some(other), Names(sha(past)), None);
    var lost := Raised(Connection);
    var t1 := Try(Exchange(true, lost, lost), past, past, Some(1));
    var d1 := Disk(None, Names(sha(past)), None);
    assert AfterTry(sha, d, t1) == d1 by {
      assert Attempt(sha, d, t1.exchange).0[..1] == [UnlinkPart];
      ApplyOne(d, UnlinkPart);
    }
    var begun := Answer(200, None, None, None, false, [started], Some(Connection));
    var t2 := Try(Exchange(false, begun, lost), started, started, None);
    var d2 := Disk(Some(started), Names(sha(past)), None);
    assert AfterTry(sha, d1, t2) == d2 by {
      BodyOfOneChunk(d1, 0, begun, started);
      assert [] + started == started;
      assert Attempt(sha, d1, t2.exchange).0 == BodyWrites(0, begun);
    }
    var rest := Answer(206, Some(|started|), None, None, false, [past[|started|..]], None);
    var t3 := Try(Exchange(false, rest, lost), past, past, None);
    assert Attempt(sha, d2, t3.exchange).1 == Done;
    SuccessResult(sha, d2, t3.exchange);
    assert [past[|started|..]][1..] == [] && Joined([past[|started|..]]) == past[|started|..] + [] == past[|started|..];
    ts := [t1, t2, t3];
    assert ts[1..] == [t2, t3] && [t2, t3][1..] == [t3] && [t3][1..] == [];
    assert AfterTries(sha, d, ts) == AfterTries(sha, d1, [t2, t3]);
    assert AfterTries(sha, d1, [t2, t3]) == AfterTries(sha, d2, [t3]) == AfterTry(sha, d2, t3);
  }

  // ---------------------------------------------------------------------------------------------
  // Bounded retry

  datatype Code = NetworkError | TimeoutError | HashError | DiskFullError | ServerError | UnknownError

  const MAX_DOWNLOAD_ATTEMPTS: nat := 4

  function Classify(f: Failure): Code {
    match f
    case HashMismatch => HashError
    case Timeout => TimeoutError
    case Connection => NetworkError
    case Http(status) => if 500 <= status < 600 then ServerError else UnknownError
    case DiskFull => DiskFullError
    case OtherFailure => UnknownError
  }

  predicate Retryable(c: Code) {
    c == NetworkError || c == TimeoutError || c == ServerError || c == HashError
  }

  /** The disk before each attempt, and how each attempt ends. */
  datatype Run = Run(state: nat -> Disk, outcome: nat -> Outcome)

  function Ended(sha: Digest, d: Disk, e: Exchange): Outcome {
    Attempt(sha, d, e).1
  }

  ghost predicate Proceeds(sha: Digest, exchanges: nat -> Exchange, run: Run, n: nat) {
    && run.state(n + 1) == Left(sha, run.state(n), exchanges(n))
    && run.outcome(n) == Ended(sha, run.state(n), exchanges(n))
  }

  /** The run of these exchanges, as long as attempts are made. */
  ghost predicate Follows(sha: Digest, exchanges: nat -> Exchange, run: Run) {
    forall n: nat :: Proceeds(sha, exchanges, run, n)
  }

  /** From every disk there is a run ... */
  lemma RunExists(sha: Digest, d: Disk, exchanges: nat -> Exchange) returns (run: Run)
    ensures Follows(sha, exchanges, run) && run.state(0) == d
  {
    run := Run((n: nat) => AfterAttempts(sha, d, exchanges, n),
               (n: nat) => Ended(sha, AfterAttempts(sha, d, exchanges, n), exchanges(n)));
    forall n: nat
      ensures Proceeds(sha, exchanges, run, n)
    {
    }
  }

  /** ... and only one. */
  lemma {:induction false} RunIsUnique(sha: Digest, d: Disk, exchanges: nat -> Exchange, run: Run, n: nat)
    requires Follows(sha, exchanges, run) && run.state(0) == d
    ensures run.state(n) == AfterAttempts(sha, d, exchanges, n)
    ensures run.outcome(n) == Ended(sha, AfterAttempts(sha, d, exchanges, n), exchanges(n))
    decreases n
  {
    assert Proceeds(sha, exchanges, run, n);
    if n > 0 {
      RunIsUnique(sha, d, exchanges, run, n - 1);
      assert Proceeds(sha, exchanges, run, n - 1);
    }
  }

  /** The attempt failed, but not for good. */
  predicate WorthRetrying(o: Outcome) {
    o.Failed? && Retryable(Classify(o.failure))
  }

  /** Another attempt is made after a timeout, a broken connection, a wrong digest or a server error, and after
      nothing else. */
  lemma RetriedExactly(o: Outcome)
    ensures WorthRetrying(o) <==>
            && o.Failed?
            && (|| o.failure == Timeout || o.failure == Connection || o.failure == HashMismatch
                || (o.failure.Http? && 500 <= o.failure.status < 600))
  {
  }

  /** What a code says about the failure. */
  lemma CodesTellFailures(f: Failure)
    ensures Classify(f) == TimeoutError <==> f == Timeout
    ensures Classify(f) == NetworkError <==> f == Connection
    ensures Classify(f) == HashError <==> f == HashMismatch
    ensures Classify(f) == DiskFullError <==> f == DiskFull
    ensures Classify(f) == ServerError <==> f.Http? && 500 <= f.status < 600
  {
  }

  /** The attempt left at the final path a file that has whatever digest was announced, and no part. */
  predicate Delivered(sha: Digest, before: Disk, e: Exchange, after: Disk) {
    after.final.Some? && after.part == None && Verified(sha, Deciding(before, e), after.final.value)
  }

  // ---------------------------------------------------------------------------------------------
  // The writes, grouped as the code makes them

  /** The writes behind a complete body. */
  function Conclusion(sha: Digest, r: Response, fed: seq<Byte>): seq<Write>
    requires r.Answer?
  {
    if r.expected.Some? && sha(fed) != r.expected.value then DISCARD else [RenamePart] + DISCARD
  }

  /** The writes of the body, after the partial was kept or given up. */
  function BodyRest(resumes: bool, r: Response): seq<Write>
    requires r.Answer?
  {
    Recording(r.expected) + (if resumes then [] else [TruncatePart]) + Appends(r.chunks)
  }

  lemma BodySplit(existing: nat, r: Response)
    requires r.Answer?
    ensures BodyWrites(existing, r) ==
            (if existing > 0 && !Resumes(existing, r) then DISCARD else []) + BodyRest(Resumes(existing, r), r)
  {
  }

  /** Starting over is an attempt from an empty disk, met by the second answer. */
  lemma StartingOver(sha: Digest, d: Disk, e: Exchange)
    requires StartsOver(d, e)
    ensures var again := Attempt(sha, Disk(None, Missing, d.final), e.(first := e.second));
            Attempt(sha, d, e) == (DISCARD + again.0, again.1)
    ensures forall e' :: !StartsOver(Disk(None, Missing, d.final), e')
  {
    ApplyDiscard(d);
    var empty := Disk(None, Missing, d.final);
    var answered := Answered(sha, empty, 0, e.second);
    assert Preparation(d, e.tooOld) == [];
    assert Preparation(empty, e.tooOld) == [];
    assert [] + answered.0 == answered.0 && [] + DISCARD == DISCARD;
  }

  lemma NotStartingOver(sha: Digest, d: Disk, e: Exchange)
    requires !StartsOver(d, e)
    ensures var d0 := if GivesUp(d, e.tooOld) then Disk(None, Missing, d.final) else d;
            var answered := Answered(sha, d0, |Contents(d0)|, e.first);
            Attempt(sha, d, e) == (Preparation(d, e.tooOld) + answered.0, answered.1)
  {
    ApplyDiscard(d);
  }

  // ---------------------------------------------------------------------------------------------
  // The attempt as it runs

  class Downloader {
    var part: Option<seq<Byte>>
    var side: Side
    var final: Option<seq<Byte>>
    ghost var start: Disk
    ghost var log: seq<Write>

    function State(): Disk
      reads this
    {
      Disk(part, side, final)
    }

    /** Every change went through the log. */
    ghost predicate Valid()
      reads this
    {
      State() == ApplyAll(start, log)
    }

    constructor (d: Disk)
      ensures Valid() && State() == d && log == []
    {
      part, side, final := d.part, d.side, d.final;
      start, log := d, [];
    }

    method Do(w: Write)
      requires Valid()
      modifies this
      ensures Valid() && log == old(log) + [w] && start == old(start)
      ensures State() == Apply(old(State()), w)
    {
      var contents := if part.Some? then part.value else [];
      match w {
        case UnlinkPart => part := None;
        case UnlinkSide => side := Missing;
        case BlankSide => side := Unreadable;
        case NameSide(h) => side := Names(h);
        case TruncatePart => part := Some([]);
        case AppendPart(chunk) => part := Some(contents + chunk);
        case RenamePart => part, final := None, Some(contents);
      }
      ApplyAllConcat(start, log, [w]);
      ApplyOne(ApplyAll(start, log), w);
      log := log + [w];
    }

    method Discard()
      requires Valid()
      modifies this
      ensures Valid() && log == old(log) + DISCARD && start == old(start)
      ensures State() == Disk(None, Missing, old(final))
    {
      Do(UnlinkPart);
      Do(UnlinkSide);
    }

    method WriteState(expected: Option<Hash>)
      requires Valid()
      modifies this
      ensures Valid() && log == old(log) + Recording(expected) && start == old(start)
      ensures part == old(part)
    {
      if expected.Some? {
        Do(BlankSide);
        Do(NameSide(expected.value));
      }
    }

    /** What the digest of the partial's first bytes has been fed, read in blocks. */
    method DigestOfPrefix(length: nat) returns (fed: seq<Byte>)
      requires length <= |Contents(State())|
      ensures fed == Contents(State())[..length]
    {
      fed := [];
      var contents := if part.Some? then part.value else [];
      var remaining := length;
      while remaining > 0
        invariant 0 <= remaining <= length <= |contents| && fed == contents[..length - remaining]
      {
        var size := if remaining < 8192 then remaining else 8192;
        var from := length - remaining;
        var chunk := contents[from..from + size];
        fed := fed + chunk;
        remaining := remaining - size;
      }
    }

    /** The body: every chunk is fed to the digest and appended to the partial. */
    method ReceiveChunks(chunks: seq<seq<Byte>>, prefix: seq<Byte>) returns (fed: seq<Byte>, received: nat)
      requires Valid()
      modifies this
      ensures Valid() && log == old(log) + Appends(chunks) && start == old(start)
      ensures fed == prefix + Joined(chunks) && received == |Joined(chunks)|
    {
      fed, received := prefix, 0;
      for i := 0 to |chunks|
        invariant Valid() && start == old(start)
        invariant log + Appends(chunks[i..]) == old(log) + Appends(chunks)
        invariant fed + Joined(chunks[i..]) == prefix + Joined(chunks)
        invariant received + |Joined(chunks[i..])| == |Joined(chunks)|
      {
        assert chunks[i..][1..] == chunks[i + 1..];
        assert (log + [AppendPart(chunks[i])]) + Appends(chunks[i + 1..]) == log + Appends(chunks[i..]);
        assert (fed + chunks[i]) + Joined(chunks[i + 1..]) == fed + Joined(chunks[i..]);
        fed := fed + chunks[i];
        received := received + |chunks[i]|;
        Do(AppendPart(chunks[i]));
      }
      assert chunks[|chunks|..] == [];
    }

    method ReceiveBody(resumes: bool, r: Response) returns (fed: seq<Byte>, received: nat)
      requires Valid() && r.Answer?
      modifies this
      ensures Valid() && start == old(start) && log == old(log) + BodyRest(resumes, r)
      ensures fed == (if resumes then Contents(old(State())) else []) + Joined(r.chunks)
      ensures received == |Joined(r.chunks)|
    {
      ghost var contents := Contents(State());
      WriteState(r.expected);
      var prefix: seq<Byte> := [];
      if resumes {
        prefix := DigestOfPrefix(|Contents(State())|);
        assert prefix == contents;
      } else {
        Do(TruncatePart);
      }
      assert log == old(log) + (Recording(r.expected) + if resumes then [] else [TruncatePart]);
      fed, received := ReceiveChunks(r.chunks, prefix);
      ConcatAssociative(old(log), Recording(r.expected) + (if resumes then [] else [TruncatePart]), Appends(r.chunks));
    }

    /** From the answer to the end of the attempt. */
    method Receive(sha: Digest, existing: nat, r: Response) returns (outcome: Outcome)
      requires Valid() && existing == |Contents(State())|
      modifies this
      ensures Valid() && start == old(start)
      ensures log == old(log) + Answered(sha, old(State()), existing, r).0
      ensures outcome == Answered(sha, old(State()), existing, r).1
    {
      if r.Raised? {
        return Failed(r.failure);
      }
      if Refused(r) {
        return Failed(Http(r.status));
      }
      var resumeFrom := existing;
      ghost var given: seq<Write> := [];
      if resumeFrom > 0 && r.status != 206 {
        Discard();
        resumeFrom, given := 0, DISCARD;
      }
      if resumeFrom > 0 && r.rangeStart.Some? && r.rangeStart.value != resumeFrom {
        Discard();
        return Failed(Connection);
      }
      if r.announced.Some? && r.noRoom {
        return Failed(DiskFull);
      }
      var fed, received := ReceiveBody(resumeFrom > 0, r);
      BodySplit(existing, r);
      ConcatAssociative(old(log), given, BodyRest(resumeFrom > 0, r));
      assert log == old(log) + BodyWrites(existing, r) && fed == Fed(old(State()), existing, r);
      if r.cut.Some? {
        return Failed(r.cut.value);
      }
      if r.announced.Some? && received < r.announced.value {
        return Failed(Connection);
      }
      outcome := Conclude(sha, r, fed);
      ConcatAssociative(old(log), BodyWrites(existing, r), Conclusion(sha, r, fed));
    }

    /** The digest check and the rename. */
    method Conclude(sha: Digest, r: Response, fed: seq<Byte>) returns (outcome: Outcome)
      requires Valid() && r.Answer?
      modifies this
      ensures Valid() && start == old(start) && log == old(log) + Conclusion(sha, r, fed)
      ensures outcome == if r.expected.Some? && sha(fed) != r.expected.value then Failed(HashMismatch) else Done
    {
      if r.expected.Some? && sha(fed) != r.expected.value {
        Discard();
        return Failed(HashMismatch);
      }
      Do(RenamePart);
      Discard();
      ConcatAssociative(old(log), [RenamePart], DISCARD);
      outcome := Done;
    }

    /** Gives up a partial that cannot be resumed, and returns the offset to resume from. */
    method Prepare(tooOld: bool) returns (existing: nat)
      requires Valid()
      modifies this
      ensures Valid() && start == old(start)
      ensures log == old(log) + Preparation(old(State()), tooOld)
      ensures existing == Existing(old(State()), tooOld) == |Contents(State())|
      ensures State() == if GivesUp(old(State()), tooOld) then Disk(None, Missing, old(final)) else old(State())
    {
      var known := Known(State());
      existing := |Contents(State())|;
      if existing > 0 && known.None? {
        Discard();
        existing := 0;
      }
      if existing > 0 && tooOld {
        Discard();
        existing := 0;
      }
    }

    /** One attempt. */
    method AttemptDownload(sha: Digest, e: Exchange) returns (outcome: Outcome)
      requires Valid()
      modifies this
      ensures Valid() && start == old(start)
      ensures log == old(log) + Attempt(sha, old(State()), e).0
      ensures outcome == Attempt(sha, old(State()), e).1
      decreases |Contents(State())|
    {
      if StartsOver(State(), e) {
        StartingOver(sha, State(), e);
      } else {
        NotStartingOver(sha, State(), e);
      }
      var existing := Prepare(e.tooOld);
      if e.first.Answer? && e.first.status == 416 && existing > 0 {
        Discard();
        ghost var empty := State();
        outcome := AttemptDownload(sha, e.(first := e.second));
        ConcatAssociative(old(log), DISCARD, Attempt(sha, empty, e.(first := e.second)).0);
      } else {
        ghost var asked := State();
        outcome := Receive(sha, existing, e.first);
        ConcatAssociative(old(log), Preparation(old(State()), e.tooOld), Answered(sha, asked, existing, e.first).0);
      }
    }

    /** Attempts until one succeeds, one fails for good, or the last allowed one fails. */
    method DownloadToPath(sha: Digest, exchanges: nat -> Exchange, ghost run: Run,
                          maxAttempts: nat := MAX_DOWNLOAD_ATTEMPTS)
      returns (ok: bool, code: Option<Code>, used: nat)
      requires Valid() && Follows(sha, exchanges, run) && State() == run.state(0)
      modifies this
      ensures Valid() && used <= maxAttempts && State() == run.state(used)
      ensures forall i :: 0 <= i < used - 1 ==> WorthRetrying(run.outcome(i))
      ensures used == 0 <==> maxAttempts == 0
      ensures ok <==> used > 0 && run.outcome(used - 1) == Done
      ensures ok ==> code == None && Delivered(sha, run.state(used - 1), exchanges(used - 1), State())
      ensures !ok && used > 0 ==> var o := run.outcome(used - 1);
                                  && o.Failed? && code == Some(Classify(o.failure))
                                  && (used < maxAttempts ==> !WorthRetrying(o))
      ensures !ok && used == 0 ==> code == Some(UnknownError)
    {
      ok, code, used := false, Some(UnknownError), 0;
      while used < maxAttempts
        invariant Valid() && used <= maxAttempts && State() == run.state(used)
        invariant forall i :: 0 <= i < used ==> WorthRetrying(run.outcome(i))
        invariant !ok && (used < maxAttempts || maxAttempts == 0)
        invariant used == 0 ==> code == Some(UnknownError)
      {
        var outcome := NextAttempt(sha, exchanges, used, run);
        used := used + 1;
        if outcome.Done? {
          return true, None, used;
        }
        var c := Classify(outcome.failure);
        code := Some(c);
        if !Retryable(c) || used == maxAttempts {
          return false, code, used;
        }
      }
    }

    method NextAttempt(sha: Digest, exchanges: nat -> Exchange, n: nat, ghost run: Run) returns (outcome: Outcome)
      requires Valid() && Follows(sha, exchanges, run) && State() == run.state(n)
      modifies this
      ensures Valid() && State() == run.state(n + 1) && outcome == run.outcome(n)
      ensures outcome.Done? ==> Delivered(sha, run.state(n), exchanges(n), State())
    {
      ghost var before := State();
      assert Proceeds(sha, exchanges, run, n);
      outcome := AttemptOnce(sha, exchanges(n));
      if outcome.Done? {
        SuccessResult(sha, before, exchanges(n));
      }
    }

    /** One attempt, told by what it makes of the disk. */
    method AttemptOnce(sha: Digest, e: Exchange) returns (outcome: Outcome)
      requires Valid()
      modifies this
      ensures Valid() && State() == ApplyAll(old(State()), Attempt(sha, old(State()), e).0)
      ensures outcome == Attempt(sha, old(State()), e).1
    {
      outcome := AttemptDownload(sha, e);
      ApplyAllConcat(start, old(log), Attempt(sha, old(State()), e).0);
    }
  }
}

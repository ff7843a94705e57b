/**
 * Concrete runs of the artifact spool: those in which the code loses an artifact although no
 * process dies, and the one in which it uploads an artifact twice.
 */
module ArtifactRuns {
  import opened Common
  import opened Spool
  import opened ArtifactUpload
  import opened ArtifactSync
  import opened ArtifactLoss

  const FIRST := Artifact("first", "blob", None)
  const SECOND := Artifact("second", "blob", None)

  /** Two one-byte lines, the records of two emits of the same bytes. */
  function TwoEmits(line: seq<byte>): Option<Artifact> {
    if line == [1] then Some(FIRST) else if line == [2] then Some(SECOND) else None
  }

  lemma OneLine()
    ensures Lines(TwoEmits, [1, 10], 0) == [Line(FIRST, 0)]
    ensures Lines(TwoEmits, [1, 10], 2) == []
  {
    var buf: seq<byte> := [1, 10];
    assert LineStop(buf, 0) == 1 && LineText(buf, 0) == [1];
    assert Lines(TwoEmits, buf, 0) == [Line(FIRST, 0)] + Lines(TwoEmits, buf, 2);
  }

  lemma TwoLines()
    ensures Lines(TwoEmits, [1, 10, 2, 10], 0) == [Line(FIRST, 0), Line(SECOND, 2)]
    ensures Lines(TwoEmits, [1, 10, 2, 10], 2) == [Line(SECOND, 2)]
    ensures Lines(TwoEmits, [1, 10, 2, 10], 4) == []
  {
    var buf: seq<byte> := [1, 10, 2, 10];
    assert LineStop(buf, 0) == 1 && LineStop(buf, 2) == 3;
    assert LineText(buf, 0) == [1] && LineText(buf, 2) == [2];
    assert Lines(TwoEmits, buf, 2) == [Line(SECOND, 2)] + Lines(TwoEmits, buf, 4);
    assert Lines(TwoEmits, buf, 0) == [Line(FIRST, 0)] + Lines(TwoEmits, buf, 2);
  }

  ghost predicate Leads(s: State, steps: seq<Step>, end: State) {
    RunAllowed(TwoEmits, s, steps) && Run(TwoEmits, s, steps) == end
  }

  ghost predicate Goes(s: State, step: Step, next: State) {
    Allowed(TwoEmits, s, step) && Apply(TwoEmits, s, step) == next
  }

  lemma {:induction false} FirstStep(s: State, step: Step, next: State, rest: seq<Step>, end: State)
    requires Goes(s, step, next) && Leads(next, rest, end)
    ensures Leads(s, [step] + rest, end)
  {
    assert ([step] + rest)[1..] == rest;
  }

  /** A run of three steps through given states. */
  lemma {:induction false} ThreeSteps(s: State, a: Step, s1: State, b: Step, s2: State, c: Step, end: State)
    requires Goes(s, a, s1) && Goes(s1, b, s2) && Goes(s2, c, end)
    ensures Leads(s, [a, b, c], end)
  {
    FirstStep(s2, c, end, [], end);
    FirstStep(s1, b, s2, [c], end);
    FirstStep(s, a, s1, [b, c], end);
    assert [c] + [] == [c] && [b] + [c] == [b, c] && [a] + [b, c] == [a, b, c];
  }

  /** A run of five steps through given states. */
  lemma {:induction false} FiveSteps(s: State, a: Step, s1: State, b: Step, s2: State, c: Step, s3: State, d: Step, s4: State,
                                     e: Step, end: State)
    requires Goes(s, a, s1) && Goes(s1, b, s2) && Goes(s2, c, s3) && Goes(s3, d, s4) && Goes(s4, e, end)
    ensures Leads(s, [a, b, c, d, e], end)
  {
    ThreeSteps(s2, c, s3, d, s4, e, end);
    FirstStep(s1, b, s2, [c, d, e], end);
    FirstStep(s, a, s1, [b, c, d, e], end);
    assert [b] + [c, d, e] == [b, c, d, e] && [a] + [b, c, d, e] == [a, b, c, d, e];
  }

  const AllGood: string -> Response := (id: string) => Accepted
  const OneFails: string -> Response := (id: string) => if id == "first" then NetworkError else Accepted
  const KeyExpired: string -> Response := (id: string) => Refused(401)

  const BOTH := {"first", "second"}

  // ----- losing an artifact -----

  const ONE := Disk([1, 10], 0, {}, {"blob"}, [], {})
  const ONE_CHUNK := Chunk([Line(FIRST, 0)], 0, 2)
  const ONE_PASS := Pass(2, false, {"first"}, {"blob"}, {}, {}, ["first"], {}, {})

  /** The first artifact is uploaded, and its sync goes on to its clean-up. */
  const UPLOADED := State(ONE.(sent := ["first"]), Passed(ONE_CHUNK, ONE_PASS))

  /** The second artifact's record is on the spool, its blob is gone, nothing else went wrong. */
  const SECOND_LOST := State(Disk([1, 10, 2, 10], 2, {}, {}, ["first"], {}), Idle)

  lemma FirstUploads()
    ensures Leads(EMPTY, [Park("blob"), Append([1]), Plan(true, true), Upload(Env(0, {}, BOTH, AllGood))], UPLOADED)
  {
    OneLine();
    var env := Env(0, {}, BOTH, AllGood);
    var steps := [Park("blob"), Append([1]), Plan(true, true), Upload(env)];
    var s1 := State(EMPTY.disk.(blobs := {"blob"}), Idle);
    var s2, s3 := State(ONE, Idle), State(ONE, Planned(ONE_CHUNK));
    assert Whole(TwoEmits, []) == [];
    assert PassOver([Line(FIRST, 0)], env, 2) == ONE_PASS;
    assert Apply(TwoEmits, s3, Upload(env)) == UPLOADED;
    ThreeSteps(s1, steps[1], s2, steps[2], s3, steps[3], UPLOADED);
    FirstStep(EMPTY, steps[0], s1, [steps[1], steps[2], steps[3]], UPLOADED);
    assert [steps[0]] + [steps[1], steps[2], steps[3]] == steps;
  }

  lemma OldWatermarkKeepsNothing()
    ensures Kept([Line(FIRST, 0)], ONE_PASS) == {}
    ensures Removable(ONE_PASS, {}) == {"blob"}
  {}

  lemma NoIdsKept(d: Disk)
    requires d.uploadedIds == {}
    ensures Goes(State(d, Cleaning(ONE_CHUNK, ONE_PASS, {})), WriteIds(true), State(d, Writing(ONE_CHUNK, ONE_PASS)))
  {
    OldWatermarkKeepsNothing();
  }

  /** The clean-up reads the spool, an emit of the same bytes finds the blob and appends its record
      with the blob on disk, and only then the clean-up unlinks it. */
  lemma LateEmitLosesItsBlob()
    ensures Leads(UPLOADED, [ReadLate(true), Append([2]), Unlink("blob", true), WriteIds(true), Commit(true)], SECOND_LOST)
  {
    OneLine();
    OldWatermarkKeepsNothing();
    var steps := [ReadLate(true), Append([2]), Unlink("blob", true), WriteIds(true), Commit(true)];
    var d := UPLOADED.disk;
    var s1 := State(d, Cleaning(ONE_CHUNK, ONE_PASS, {"blob"}));
    var s2 := State(d.(spool := [1, 10, 2, 10]), s1.phase);
    var s3 := State(s2.disk.(blobs := {}), Cleaning(ONE_CHUNK, ONE_PASS, {}));
    var s4 := State(s3.disk, Writing(ONE_CHUNK, ONE_PASS));
    assert LateShas(TwoEmits, [1, 10], ONE_CHUNK) == {};
    assert [1, 10] + [2] + [10] == [1, 10, 2, 10];
    NoIdsKept(s3.disk);
    FiveSteps(UPLOADED, steps[0], s1, steps[1], s2, steps[2], s3, steps[3], s4, steps[4], SECOND_LOST);
  }

  /** The same end when the late read fails: an emit that came before it is not seen. */
  lemma UnreadLateLosesItsBlob()
    ensures Leads(UPLOADED, [Append([2]), ReadLate(false), Unlink("blob", true), WriteIds(true), Commit(true)], SECOND_LOST)
  {
    OldWatermarkKeepsNothing();
    var steps := [Append([2]), ReadLate(false), Unlink("blob", true), WriteIds(true), Commit(true)];
    var s1 := State(UPLOADED.disk.(spool := [1, 10, 2, 10]), UPLOADED.phase);
    var s2 := State(s1.disk, Cleaning(ONE_CHUNK, ONE_PASS, {"blob"}));
    var s3 := State(s2.disk.(blobs := {}), Cleaning(ONE_CHUNK, ONE_PASS, {}));
    var s4 := State(s3.disk, Writing(ONE_CHUNK, ONE_PASS));
    assert [1, 10] + [2] + [10] == [1, 10, 2, 10];
    NoIdsKept(s3.disk);
    FiveSteps(UPLOADED, steps[0], s1, steps[1], s2, steps[2], s3, steps[3], s4, steps[4], SECOND_LOST);
  }

  /** The same end when an emit saw the blob, did not park it again, and appends after the unlink. */
  lemma OvertakenEmitLosesItsBlob()
    ensures Leads(UPLOADED, [ReadLate(true), Unlink("blob", true), Append([2]), WriteIds(true), Commit(true)], SECOND_LOST)
  {
    OneLine();
    OldWatermarkKeepsNothing();
    var steps := [ReadLate(true), Unlink("blob", true), Append([2]), WriteIds(true), Commit(true)];
    var s1 := State(UPLOADED.disk, Cleaning(ONE_CHUNK, ONE_PASS, {"blob"}));
    var s2 := State(s1.disk.(blobs := {}), Cleaning(ONE_CHUNK, ONE_PASS, {}));
    var s3 := State(s2.disk.(spool := [1, 10, 2, 10]), s2.phase);
    var s4 := State(s3.disk, Writing(ONE_CHUNK, ONE_PASS));
    assert LateShas(TwoEmits, [1, 10], ONE_CHUNK) == {};
    assert [1, 10] + [2] + [10] == [1, 10, 2, 10];
    NoIdsKept(s3.disk);
    FiveSteps(UPLOADED, steps[0], s1, steps[1], s2, steps[2], s3, steps[3], s4, steps[4], SECOND_LOST);
  }

  /** In that state the second artifact waits without its blob, and no run of syncs uploads it
      unless the same bytes are parked again. */
  lemma SecondIsLostForGood(steps: seq<Step>)
    requires RunAllowed(TwoEmits, SECOND_LOST, steps) && RunWithout(TwoEmits, SECOND_LOST, steps, "blob")
    ensures "second" !in Run(TwoEmits, SECOND_LOST, steps).disk.sent
  {
    TwoLines();
    var d := SECOND_LOST.disk;
    var lines := [Line(FIRST, 0), Line(SECOND, 2)];
    assert Boundary(d.spool, 2) && Boundary(d.spool, 4);
    assert lines[0] in lines && lines[1] in lines && Whole(TwoEmits, d.spool) == lines;
    assert DiskFits(d, lines) by {
      assert forall id :: Done(d, id) ==> id == "first";
      assert OnRecord("first", lines);
    }
    BlobGoneIsNeverSent(TwoEmits, SECOND_LOST, steps, Line(SECOND, 2));
  }

  const UNREAD := Env(0, {}, {}, AllGood)
  const UNREAD_PASS := Pass(2, false, {}, {}, {}, {}, [], {}, {"first"})

  lemma UnreadPasses()
    ensures Apply(TwoEmits, State(ONE, Planned(ONE_CHUNK)), Upload(UNREAD)) == State(ONE, Passed(ONE_CHUNK, UNREAD_PASS))
  {
    assert PassOver(ONE_CHUNK.window, UNREAD, 2) == UNREAD_PASS;
    assert ONE.sent + [] == ONE.sent && ONE.dropped + {} == ONE.dropped;
  }

  lemma UnreadCleansNothing()
    ensures Doomed(TwoEmits, ONE.spool, ONE_CHUNK, UNREAD_PASS, true) == {}
    ensures Kept(ONE_CHUNK.window, UNREAD_PASS) == {}
  {}

  /** A blob that is on disk but fails to read once: its record is dropped, the watermark passes it,
      and the sync succeeds. */
  lemma UnreadBlobIsLost()
    ensures Leads(State(ONE, Idle), [Plan(true, true), Upload(UNREAD), ReadLate(true), WriteIds(true), Commit(true)],
                  State(ONE.(watermark := 2), Idle))
    ensures var d := ONE.(watermark := 2);
            Waiting(d, Whole(TwoEmits, d.spool), Line(FIRST, 0)) && Line(FIRST, 0).offset < d.watermark && "blob" in d.blobs
  {
    OneLine();
    UnreadPasses();
    UnreadCleansNothing();
    var steps := [Plan(true, true), Upload(UNREAD), ReadLate(true), WriteIds(true), Commit(true)];
    var s0, s1, s2 := State(ONE, Idle), State(ONE, Planned(ONE_CHUNK)), State(ONE, Passed(ONE_CHUNK, UNREAD_PASS));
    var s3, s4 := State(ONE, Cleaning(ONE_CHUNK, UNREAD_PASS, {})), State(ONE, Writing(ONE_CHUNK, UNREAD_PASS));
    assert Apply(TwoEmits, s0, steps[0]) == s1;
    assert Apply(TwoEmits, s2, steps[2]) == s3 && Apply(TwoEmits, s3, steps[3]) == s4;
    FiveSteps(s0, steps[0], s1, steps[1], s2, steps[2], s3, steps[3], s4, steps[4], State(ONE.(watermark := 2), Idle));
  }

  /** Two emits of the same bytes: the one that parked the blob fails to append and takes the blob
      back, after the other has recorded it. */
  lemma UndoneParkIsLost()
    ensures Leads(EMPTY, [Park("blob"), Append([1]), Undo("blob")], State(ONE.(blobs := {}), Idle))
    ensures Waiting(ONE.(blobs := {}), Whole(TwoEmits, ONE.spool), Line(FIRST, 0)) && Lost(ONE.(blobs := {}), Line(FIRST, 0))
  {
    OneLine();
    var steps := [Park("blob"), Append([1]), Undo("blob")];
    assert Whole(TwoEmits, []) == [];
    ThreeSteps(EMPTY, steps[0], State(EMPTY.disk.(blobs := {"blob"}), Idle), steps[1], State(ONE, Idle),
               steps[2], State(ONE.(blobs := {}), Idle));
  }

  // ----- moving the watermark back -----

  const SENT_ONE := ONE.(watermark := 2, sent := ["first"])
  const FAILING := Env(0, {}, BOTH, OneFails)
  const HELD_PASS := Pass(0, false, {}, {}, {}, {"blob"}, [], {}, {})

  lemma FirstIsHeld()
    ensures Apply(TwoEmits, State(SENT_ONE, Planned(ONE_CHUNK)), Upload(FAILING)) == State(SENT_ONE, Passed(ONE_CHUNK, HELD_PASS))
    ensures Doomed(TwoEmits, SENT_ONE.spool, ONE_CHUNK, HELD_PASS, true) == {}
    ensures Kept(ONE_CHUNK.window, HELD_PASS) == {}
  {
    assert PassOver(ONE_CHUNK.window, FAILING, 2) == HELD_PASS;
    assert SENT_ONE.sent + [] == SENT_ONE.sent && SENT_ONE.dropped + {} == SENT_ONE.dropped;
  }

  /** The record below the watermark was uploaded and its blob is still there. The watermark fails to
      read, the spool reads, the upload fails: the sync writes 0. */
  lemma ReadableSpoolGoesBack()
    ensures Leads(State(SENT_ONE, Idle), [Plan(false, true), Upload(FAILING), ReadLate(true), WriteIds(true), Commit(true)],
                  State(SENT_ONE.(watermark := 0), Idle))
  {
    OneLine();
    FirstIsHeld();
    var steps := [Plan(false, true), Upload(FAILING), ReadLate(true), WriteIds(true), Commit(true)];
    var s0, s1, s2 := State(SENT_ONE, Idle), State(SENT_ONE, Planned(ONE_CHUNK)), State(SENT_ONE, Passed(ONE_CHUNK, HELD_PASS));
    var s3, s4 := State(SENT_ONE, Cleaning(ONE_CHUNK, HELD_PASS, {})), State(SENT_ONE, Writing(ONE_CHUNK, HELD_PASS));
    assert Apply(TwoEmits, s0, steps[0]) == s1;
    assert Apply(TwoEmits, s2, steps[2]) == s3 && Apply(TwoEmits, s3, steps[3]) == s4;
    FiveSteps(s0, steps[0], s1, steps[1], s2, steps[2], s3, steps[3], s4, steps[4], State(SENT_ONE.(watermark := 0), Idle));
  }

  // ----- uploading an artifact twice -----

  const TWO_CHUNK := Chunk([Line(FIRST, 0), Line(SECOND, 2)], 0, 4)

  /** Both records at or above 0, with the given ids remembered and sent. */
  function TwoPending(uploaded: set<string>, sent: seq<string>): State {
    State(Disk([1, 10, 2, 10], 0, uploaded, {"blob"}, sent, {}), Idle)
  }

  function SyncOf(uploaded: set<string>, answer: string -> Response): seq<Step> {
    [Plan(true, true), Upload(Env(0, uploaded, BOTH, answer)), ReadLate(true), WriteIds(true), Commit(true)]
  }

  lemma TwoLinePass(env: Env)
    ensures PassOver(TWO_CHUNK.window, env, 4)
         == Handle(Handle(Pass(4, false, {}, {}, {}, {}, [], {}, {}), Line(FIRST, 0), env), Line(SECOND, 2), env)
  {
    var one := [Line(FIRST, 0)];
    assert one[..0] == [] && TWO_CHUNK.window[..1] == one;
    assert PassOver(one, env, 4) == Handle(PassOver([], env, 4), one[0], env);
    assert PassOver(TWO_CHUNK.window, env, 4) == Handle(PassOver(one, env, 4), TWO_CHUNK.window[1], env);
  }

  /** A whole sync that holds the watermark and the blob, with every read and write working. */
  lemma HeldSync(uploaded: set<string>, sent: seq<string>, answer: string -> Response, p: Pass)
    requires p == PassOver(TWO_CHUNK.window, Env(0, uploaded, BOTH, answer), 4)
    requires p.offset == 0 && p.heldShas == {"blob"} && p.uploadedShas + p.deadShas <= {"blob"} && p.dropped == {}
    ensures Leads(TwoPending(uploaded, sent), SyncOf(uploaded, answer), TwoPending(Kept(TWO_CHUNK.window, p), sent + p.sent))
  {
    TwoLines();
    var start, d := TwoPending(uploaded, sent), TwoPending(uploaded, sent).disk.(sent := sent + p.sent);
    var s1, s2 := State(start.disk, Planned(TWO_CHUNK)), State(d, Passed(TWO_CHUNK, p));
    var s3 := State(d, Cleaning(TWO_CHUNK, p, {}));
    var s4 := State(d.(uploadedIds := Kept(TWO_CHUNK.window, p)), Writing(TWO_CHUNK, p));
    var end := TwoPending(Kept(TWO_CHUNK.window, p), sent + p.sent);
    assert Removable(p, LateShas(TwoEmits, d.spool, TWO_CHUNK)) == {};
    assert start.disk.dropped + p.dropped == {};
    var steps := SyncOf(uploaded, answer);
    FiveSteps(start, steps[0], s1, steps[1], s2, steps[2], s3, steps[3], s4, steps[4], end);
  }

  lemma FirstFails()
    ensures Leads(TwoPending({}, []), SyncOf({}, OneFails), TwoPending({"second"}, ["second"]))
  {
    TwoLinePass(Env(0, {}, BOTH, OneFails));
    var p := Pass(0, false, {"second"}, {"blob"}, {}, {"blob"}, ["second"], {}, {});
    assert PassOver(TWO_CHUNK.window, Env(0, {}, BOTH, OneFails), 4) == p;
    assert Kept(TWO_CHUNK.window, p) == {"second"};
    HeldSync({}, [], OneFails, p);
  }

  lemma KeyExpires()
    ensures Leads(TwoPending({"second"}, ["second"]), SyncOf({"second"}, KeyExpired), TwoPending({}, ["second"]))
  {
    TwoLinePass(Env(0, {"second"}, BOTH, KeyExpired));
    var p := Pass(0, true, {}, {}, {}, {"blob"}, [], {}, {});
    assert PassOver(TWO_CHUNK.window, Env(0, {"second"}, BOTH, KeyExpired), 4) == p;
    assert Kept(TWO_CHUNK.window, p) == {};
    assert ["second"] + [] == ["second"];
    HeldSync({"second"}, ["second"], KeyExpired, p);
  }

  /** The first upload fails and the second succeeds; the key expires; the key works again: the
      second artifact is accepted by the server twice although every read and write worked. */
  lemma ExpiredKeyUploadsTwice()
    ensures var failed := Run(TwoEmits, TwoPending({}, []), SyncOf({}, OneFails));
            var expired := Run(TwoEmits, failed, SyncOf({"second"}, KeyExpired));
            Run(TwoEmits, expired, [Plan(true, true), Upload(Env(0, {}, BOTH, AllGood))]).disk.sent
            == ["second", "first", "second"]
  {
    FirstFails();
    KeyExpires();
    TwoLines();
    var env := Env(0, {}, BOTH, AllGood);
    TwoLinePass(env);
    assert PassOver(TWO_CHUNK.window, env, 4).sent == ["first", "second"];
    var expired, planned := TwoPending({}, ["second"]), State(TwoPending({}, ["second"]).disk, Planned(TWO_CHUNK));
    var end := Apply(TwoEmits, planned, Upload(env));
    FirstStep(planned, Upload(env), end, [], end);
    FirstStep(expired, Plan(true, true), planned, [Upload(env)], end);
    assert [Upload(env)] + [] == [Upload(env)];
    assert [Plan(true, true)] + [Upload(env)] == [Plan(true, true), Upload(env)];
  }
}

/**
 * One pass over the spooled artifacts of a sync: each pending record is skipped, uploaded, held
 * for the next sync, or dropped, and the pass works out which blobs may go, which uploaded ids to
 * remember and how far the watermark may move.
 */
module ArtifactUpload {
  import opened Common
  import opened Spool

  const ARTIFACT_RETRY_MAX_AGE_MS := 14 * 24 * 60 * 60 * 1000

  /** The fields of a spool record that decide its fate. `emittedMs` is None when its time does
      not parse. */
  datatype Artifact = Artifact(id: string, sha: string, emittedMs: Option<int>)

  type ArtifactLine = Line<Artifact>

  /** The server's answer to one upload. */
  datatype Response = Accepted | Refused(status: int) | NetworkError

  /** What a pass runs against: the clock, the ids it read as uploaded before, the ids of the
      records whose blob it managed to read, and the answer each upload would get. A blob that is
      gone and one that fails to read look the same to it. */
  datatype Env = Env(nowMs: int, previouslyUploaded: set<string>, found: set<string>, answer: string -> Response)

  /** The pass's running state. `sent`, `dropped` and `missing` record what it did. */
  datatype Pass = Pass(offset: nat, unauthorized: bool, uploadedIds: set<string>,
                       uploadedShas: set<string>, deadShas: set<string>, heldShas: set<string>,
                       sent: seq<string>, dropped: set<string>, missing: set<string>)

  predicate PermanentlyRefused(r: Response) {
    r.Refused? && 400 <= r.status < 500 && r.status != 408 && r.status != 429
  }

  predicate TooOld(a: Artifact, nowMs: int) {
    a.emittedMs.Some? && nowMs - a.emittedMs.value > ARTIFACT_RETRY_MAX_AGE_MS
  }

  function Hold(p: Pass, l: ArtifactLine): Pass {
    p.(heldShas := p.heldShas + {l.record.sha}, offset := Min(p.offset, l.offset))
  }

  function Remember(p: Pass, a: Artifact): Pass {
    p.(uploadedIds := p.uploadedIds + {a.id}, uploadedShas := p.uploadedShas + {a.sha})
  }

  /** One record. After a 401 every later record is held, also one that is remembered as uploaded. */
  function Handle(p: Pass, l: ArtifactLine, env: Env): Pass {
    var a := l.record;
    if p.unauthorized then Hold(p, l)
    else if a.id in env.previouslyUploaded then Remember(p, a)
    else if a.id !in env.found then p.(missing := p.missing + {a.id})
    else
      var answer := env.answer(a.id);
      if answer.Accepted? then Remember(p, a).(sent := p.sent + [a.id])
      else if answer == Refused(401) then Hold(p, l).(unauthorized := true)
      else if PermanentlyRefused(answer) || TooOld(a, env.nowMs) then
        p.(deadShas := p.deadShas + {a.sha}, dropped := p.dropped + {a.id})
      else Hold(p, l)
  }

  function PassOver(lines: seq<ArtifactLine>, env: Env, fullyConsumed: nat): Pass {
    if lines == [] then Pass(fullyConsumed, false, {}, {}, {}, {}, [], {}, {})
    else Handle(PassOver(lines[..|lines| - 1], env, fullyConsumed), lines[|lines| - 1], env)
  }

  /** Ids of records that uploaded and stay at or above the watermark being kept. */
  function Kept(lines: seq<ArtifactLine>, p: Pass): set<string> {
    set l | l in lines && l.offset >= p.offset && l.record.id in p.uploadedIds :: l.record.id
  }

  function Shas(lines: seq<ArtifactLine>): set<string> {
    set l | l in lines :: l.record.sha
  }

  /** Blobs the clean-up deletes: uploaded or dead, and needed neither by a held record nor by one
      appended since the plan. */
  function Removable(p: Pass, late: set<string>): set<string> {
    (p.uploadedShas + p.deadShas) - p.heldShas - late
  }

  /** The upload loop. */
  method UploadAll(lines: seq<ArtifactLine>, env: Env, fullyConsumed: nat) returns (p: Pass)
    ensures p == PassOver(lines, env, fullyConsumed)
  {
    var offset: nat, unauthorized := fullyConsumed, false;
    var uploadedIds: set<string>, uploadedShas: set<string> := {}, {};
    var deadShas: set<string>, heldShas: set<string> := {}, {};
    var sent: seq<string>, dropped: set<string>, missing: set<string> := [], {}, {};
    for i := 0 to |lines|
      invariant Pass(offset, unauthorized, uploadedIds, uploadedShas, deadShas, heldShas, sent, dropped, missing)
             == PassOver(lines[..i], env, fullyConsumed)
    {
      var l := lines[i];
      var a := l.record;
      assert lines[..i + 1][..i] == lines[..i];
      if unauthorized {
        heldShas, offset := heldShas + {a.sha}, Min(offset, l.offset);
        continue;
      }
      if a.id in env.previouslyUploaded {
        uploadedIds, uploadedShas := uploadedIds + {a.id}, uploadedShas + {a.sha};
        continue;
      }
      if a.id !in env.found {
        missing := missing + {a.id};
        continue;
      }
      var answer := env.answer(a.id);
      if answer.Accepted? {
        uploadedIds, uploadedShas, sent := uploadedIds + {a.id}, uploadedShas + {a.sha}, sent + [a.id];
        continue;
      }
      if answer == Refused(401) {
        unauthorized, heldShas, offset := true, heldShas + {a.sha}, Min(offset, l.offset);
        continue;
      }
      if PermanentlyRefused(answer) || TooOld(a, env.nowMs) {
        deadShas, dropped := deadShas + {a.sha}, dropped + {a.id};
        continue;
      }
      heldShas, offset := heldShas + {a.sha}, Min(offset, l.offset);
    }
    assert lines[..|lines|] == lines;
    p := Pass(offset, unauthorized, uploadedIds, uploadedShas, deadShas, heldShas, sent, dropped, missing);
  }

  // ----- what a pass guarantees -----

  ghost predicate DistinctIds(lines: seq<ArtifactLine>) {
    forall i, j :: 0 <= i < j < |lines| ==> lines[i].record.id != lines[j].record.id
  }

  ghost predicate HeldBack(p: Pass, l: ArtifactLine) {
    l.record.sha in p.heldShas && p.offset <= l.offset
  }

  lemma DistinctTake(lines: seq<ArtifactLine>)
    requires DistinctIds(lines) && lines != []
    ensures DistinctIds(lines[..|lines| - 1])
    ensures forall l :: l in lines[..|lines| - 1] ==> l.record.id != lines[|lines| - 1].record.id
    ensures forall l :: l in lines <==> l in lines[..|lines| - 1] || l == lines[|lines| - 1]
  {
    var n := |lines| - 1;
    assert lines == lines[..n] + [lines[n]];
  }

  /** What a pass may have done with one of its records. */
  ghost predicate Fated(p: Pass, l: ArtifactLine, env: Env) {
    || l.record.id in p.sent
    || l.record.id in p.dropped
    || (l.record.id in env.previouslyUploaded && l.record.id in p.uploadedIds)
    || (l.record.id in p.missing && l.record.id !in env.found)
    || HeldBack(p, l)
  }

  lemma FateStep(p: Pass, l: ArtifactLine, env: Env)
    ensures Fated(Handle(p, l, env), l, env)
    ensures forall m :: Fated(p, m, env) ==> Fated(Handle(p, l, env), m, env)
  {
    if !p.unauthorized && l.record.id !in env.previouslyUploaded && l.record.id in env.found
       && env.answer(l.record.id).Accepted? {
      assert Handle(p, l, env).sent == p.sent + [l.record.id];
    }
  }

  /** Every record has a fate, and a record that is not sent, dropped, skipped or missing its blob
      keeps both its blob and its place above the watermark. */
  lemma {:induction false} EveryRecordHasAFate(lines: seq<ArtifactLine>, env: Env, cap: nat)
    ensures var p := PassOver(lines, env, cap);
            && (forall l :: l in lines ==> Fated(p, l, env))
            && p.offset <= cap
            && (p.offset == cap || exists l :: l in lines && l.offset == p.offset)
  {
    if lines != [] {
      var n := |lines| - 1;
      EveryRecordHasAFate(lines[..n], env, cap);
      FateStep(PassOver(lines[..n], env, cap), lines[n], env);
      assert lines == lines[..n] + [lines[n]];
    }
  }

  /** A pass sends each id at most once, none it remembers, and remembers all it sends. */
  lemma {:induction false} SendsFreshIds(lines: seq<ArtifactLine>, env: Env, cap: nat)
    requires DistinctIds(lines)
    ensures var p := PassOver(lines, env, cap);
            && Distinct(p.sent)
            && (forall id :: id in p.sent ==>
                  id !in env.previouslyUploaded && id in p.uploadedIds && exists l :: l in lines && l.record.id == id)
            && (forall id :: id in p.uploadedIds ==> id in p.sent || id in env.previouslyUploaded)
  {
    SendsUnremembered(lines, env, cap);
    if lines != [] {
      var n := |lines| - 1;
      DistinctTake(lines);
      SendsFreshIds(lines[..n], env, cap);
      SendStep(PassOver(lines[..n], env, cap), lines[n], env);
      assert lines[n].record.id !in PassOver(lines[..n], env, cap).sent;
    }
  }

  lemma SendStep(p: Pass, l: ArtifactLine, env: Env)
    ensures var q, id := Handle(p, l, env), l.record.id;
            && (q.sent == p.sent
                || (q.sent == p.sent + [id] && id !in env.previouslyUploaded && id in q.uploadedIds))
            && p.uploadedIds <= q.uploadedIds <= p.uploadedIds + {id}
            && (id in q.uploadedIds ==> id in p.uploadedIds || id in q.sent || id in env.previouslyUploaded)
  {}

  lemma {:induction false} SendsUnremembered(lines: seq<ArtifactLine>, env: Env, cap: nat)
    ensures var p := PassOver(lines, env, cap);
            && (forall id :: id in p.sent ==>
                  id !in env.previouslyUploaded && id in p.uploadedIds && exists l :: l in lines && l.record.id == id)
            && (forall id :: id in p.uploadedIds ==> id in p.sent || id in env.previouslyUploaded)
  {
    if lines != [] {
      var n := |lines| - 1;
      var before, p := PassOver(lines[..n], env, cap), PassOver(lines, env, cap);
      SendsUnremembered(lines[..n], env, cap);
      SendStep(before, lines[n], env);
      forall id | id in p.sent
        ensures id !in env.previouslyUploaded && id in p.uploadedIds && exists l :: l in lines && l.record.id == id
      {
        if id in before.sent {
          var l :| l in lines[..n] && l.record.id == id;
          assert l in lines;
        } else {
          assert lines[n] in lines && id == lines[n].record.id;
        }
      }
    }
  }

  /** The server did not take the record, but may yet: no answer, a timeout, the monthly cap, or an
      error of its own. */
  predicate Transient(r: Response) {
    r.NetworkError? || (r.Refused? && (r.status < 400 || r.status > 499 || r.status in {408, 429}))
  }

  /** It refused the record for good: any other status in the 400s but 401. */
  predicate RefusedForGood(r: Response) {
    r.Refused? && 400 <= r.status <= 499 && r.status !in {401, 408, 429}
  }

  /** Fourteen days, in milliseconds, have passed since the record's time; one without a time never ages. */
  predicate PastRetryAge(a: Artifact, nowMs: int) {
    a.emittedMs.Some? && nowMs - a.emittedMs.value > 1_209_600_000
  }

  predicate FailsForNow(a: Artifact, env: Env) {
    && a.id !in env.previouslyUploaded && a.id in env.found
    && Transient(env.answer(a.id)) && !PastRetryAge(a, env.nowMs)
  }

  predicate DeadNow(a: Artifact, env: Env) {
    var answer := env.answer(a.id);
    RefusedForGood(answer) || (Transient(answer) && PastRetryAge(a, env.nowMs))
  }

  /** Only a record refused for good, or one still failing past the age limit, is dropped. */
  lemma {:induction false} DropsOnlyTheDead(lines: seq<ArtifactLine>, env: Env, cap: nat)
    ensures forall id :: id in PassOver(lines, env, cap).dropped ==>
              exists l :: l in lines && l.record.id == id && DeadNow(l.record, env)
  {
    if lines != [] {
      var n := |lines| - 1;
      DropsOnlyTheDead(lines[..n], env, cap);
      forall id | id in PassOver(lines, env, cap).dropped
        ensures exists l :: l in lines && l.record.id == id && DeadNow(l.record, env)
      {
        if id in PassOver(lines[..n], env, cap).dropped {
          var l :| l in lines[..n] && l.record.id == id && DeadNow(l.record, env);
          assert l in lines;
        } else {
          assert lines[n] in lines && lines[n].record.id == id;
        }
      }
    }
  }

  /** A record that fails in passing while young is held for the next sync. */
  lemma {:induction false} PassingFailuresAreHeld(lines: seq<ArtifactLine>, env: Env, cap: nat)
    ensures forall l :: l in lines && FailsForNow(l.record, env) ==> HeldBack(PassOver(lines, env, cap), l)
  {
    if lines != [] {
      var n := |lines| - 1;
      PassingFailuresAreHeld(lines[..n], env, cap);
      assert forall l :: l in lines <==> l in lines[..n] || l == lines[n];
    }
  }

  // ----- how far the watermark may move -----

  /** The upload of this record is answered 401. */
  predicate Expires(a: Artifact, env: Env) {
    a.id !in env.previouslyUploaded && a.id in env.found && env.answer(a.id) == Refused(401)
  }

  /** The record is dropped as missing its blob when the pass comes to it. */
  predicate Unread(a: Artifact, env: Env) {
    a.id !in env.previouslyUploaded && a.id !in env.found
  }

  /** The record stops the watermark when the pass comes to it. */
  predicate Stops(a: Artifact, env: Env) {
    Expires(a, env) || FailsForNow(a, env)
  }

  ghost predicate Ordered(lines: seq<ArtifactLine>) {
    forall i, j :: 0 <= i < j < |lines| ==> lines[i].offset < lines[j].offset
  }

  lemma {:induction false} UnauthorizedExactly(lines: seq<ArtifactLine>, env: Env, cap: nat)
    ensures PassOver(lines, env, cap).unauthorized <==> exists l :: l in lines && Expires(l.record, env)
  {
    if lines != [] {
      var n := |lines| - 1;
      UnauthorizedExactly(lines[..n], env, cap);
      assert forall l :: l in lines <==> l in lines[..n] || l == lines[n];
    }
  }

  lemma {:induction false} NothingStops(lines: seq<ArtifactLine>, env: Env, cap: nat)
    requires forall i :: 0 <= i < |lines| ==> !Stops(lines[i].record, env)
    ensures PassOver(lines, env, cap).offset == cap && !PassOver(lines, env, cap).unauthorized
  {
    if lines != [] {
      NothingStops(lines[..|lines| - 1], env, cap);
    }
  }

  lemma {:induction false} FirstStops(lines: seq<ArtifactLine>, env: Env, cap: nat, i: nat)
    requires Ordered(lines) && i < |lines| && lines[i].offset <= cap && Stops(lines[i].record, env)
    requires forall k :: 0 <= k < i ==> !Stops(lines[k].record, env)
    ensures PassOver(lines, env, cap).offset == lines[i].offset
  {
    var n := |lines| - 1;
    if i == n {
      NothingStops(lines[..n], env, cap);
    } else {
      FirstStops(lines[..n], env, cap, i);
    }
  }

  /** The offset to commit is where the first record lies that is answered 401 or fails for now,
      and the end of what was read when there is none: it passes a record exactly when neither
      that record nor an earlier one is such. */
  lemma OffsetExactly(lines: seq<ArtifactLine>, env: Env, cap: nat, i: nat)
    requires Ordered(lines) && i < |lines| && forall l :: l in lines ==> l.offset < cap
    ensures lines[i].offset < PassOver(lines, env, cap).offset <==>
              forall k :: 0 <= k <= i ==> !Stops(lines[k].record, env)
  {
    if forall k :: 0 <= k < |lines| ==> !Stops(lines[k].record, env) {
      NothingStops(lines, env, cap);
      assert lines[i] in lines;
    } else {
      var j := FirstStop(lines, env);
      assert lines[j] in lines;
      FirstStops(lines, env, cap, j);
      assert i < j ==> lines[i].offset < lines[j].offset;
      assert j < i ==> lines[j].offset < lines[i].offset;
    }
  }

  /** It lies below a given offset exactly when what was read ends below it or a record below it is
      answered 401 or fails for now. */
  lemma StopsBelowExactly(lines: seq<ArtifactLine>, env: Env, cap: nat, w: nat)
    requires Ordered(lines) && forall l :: l in lines ==> l.offset < cap
    ensures PassOver(lines, env, cap).offset < w <==>
              cap < w || exists i :: 0 <= i < |lines| && lines[i].offset < w && Stops(lines[i].record, env)
  {
    if exists k :: 0 <= k < |lines| && Stops(lines[k].record, env) {
      var j := FirstStop(lines, env);
      assert lines[j] in lines;
      FirstStops(lines, env, cap, j);
      forall i | 0 <= i < |lines| && Stops(lines[i].record, env) ensures lines[j].offset <= lines[i].offset {
        assert j <= i;
      }
    } else {
      NothingStops(lines, env, cap);
    }
  }

  lemma {:induction false} FirstStop(lines: seq<ArtifactLine>, env: Env) returns (j: nat)
    requires exists k :: 0 <= k < |lines| && Stops(lines[k].record, env)
    ensures j < |lines| && Stops(lines[j].record, env)
    ensures forall k :: 0 <= k < j ==> !Stops(lines[k].record, env)
  {
    j := 0;
    while !Stops(lines[j].record, env)
      invariant j < |lines| && forall k :: 0 <= k < j ==> !Stops(lines[k].record, env)
      decreases |lines| - j
    {
      j := j + 1;
    }
  }

  /** A record before the first stop that is not remembered and whose blob was read is finished. */
  lemma {:induction false} FinishedBeforeStop(lines: seq<ArtifactLine>, env: Env, cap: nat, i: nat)
    requires i < |lines| && forall k :: 0 <= k <= i ==> !Stops(lines[k].record, env)
    requires lines[i].record.id !in env.previouslyUploaded && !Unread(lines[i].record, env)
    ensures lines[i].record.id in PassOver(lines, env, cap).sent || lines[i].record.id in PassOver(lines, env, cap).dropped
  {
    var n := |lines| - 1;
    if i == n {
      NothingStops(lines[..n], env, cap);
    } else {
      FinishedBeforeStop(lines[..n], env, cap, i);
    }
  }

  /** Only records whose blob was read are finished. */
  lemma {:induction false} FinishedWereFound(lines: seq<ArtifactLine>, env: Env, cap: nat)
    ensures var p := PassOver(lines, env, cap);
            forall id :: id in p.sent || id in p.dropped ==> id in env.found
  {
    if lines != [] {
      FinishedWereFound(lines[..|lines| - 1], env, cap);
    }
  }

  /** A record is reported missing exactly when the pass comes to it, before any 401, does not
      remember it, and did not read its blob, whatever the reason. */
  lemma {:induction false} MissingExactly(lines: seq<ArtifactLine>, env: Env, cap: nat, i: nat)
    requires DistinctIds(lines) && i < |lines|
    ensures lines[i].record.id in PassOver(lines, env, cap).missing <==>
              Unread(lines[i].record, env) && forall k :: 0 <= k < i ==> !Expires(lines[k].record, env)
  {
    var n := |lines| - 1;
    var before := lines[..n];
    if i < n {
      MissingExactly(before, env, cap, i);
      assert before[i].record.id != lines[n].record.id;
      forall k | 0 <= k < i ensures before[k] == lines[k] {}
    } else {
      LastMissing(lines, env, cap);
    }
  }

  lemma LastMissing(lines: seq<ArtifactLine>, env: Env, cap: nat)
    requires DistinctIds(lines) && lines != []
    ensures var n := |lines| - 1;
            lines[n].record.id in PassOver(lines, env, cap).missing <==>
              Unread(lines[n].record, env) && forall k :: 0 <= k < n ==> !Expires(lines[k].record, env)
  {
    var n := |lines| - 1;
    var before := lines[..n];
    DistinctTake(lines);
    MissingAreLines(before, env, cap);
    UnauthorizedExactly(before, env, cap);
    forall k | 0 <= k < n ensures lines[k] in before {
      assert before[k] == lines[k];
    }
    forall l | l in before ensures exists k :: 0 <= k < n && lines[k] == l {
      var k :| 0 <= k < n && before[k] == l;
      assert lines[k] == l;
    }
  }

  lemma {:induction false} MissingAreLines(lines: seq<ArtifactLine>, env: Env, cap: nat)
    ensures forall id :: id in PassOver(lines, env, cap).missing ==> exists l :: l in lines && l.record.id == id
  {
    if lines != [] {
      var n := |lines| - 1;
      MissingAreLines(lines[..n], env, cap);
      assert lines[n] in lines;
      assert forall l :: l in lines[..n] ==> l in lines;
    }
  }

  // ----- which records a pass sends -----

  /** The pass sends record `i`: it is tried, before any 401, and accepted. */
  ghost predicate SendsAt(lines: seq<ArtifactLine>, env: Env, i: nat)
    requires i < |lines|
  {
    var a := lines[i].record;
    && a.id !in env.previouslyUploaded && a.id in env.found && env.answer(a.id).Accepted?
    && forall k :: 0 <= k < i ==> !Expires(lines[k].record, env)
  }

  /** Record `i` is remembered and the pass comes to it before any 401. */
  ghost predicate RecallsAt(lines: seq<ArtifactLine>, env: Env, i: nat)
    requires i < |lines|
  {
    lines[i].record.id in env.previouslyUploaded && forall k :: 0 <= k < i ==> !Expires(lines[k].record, env)
  }

  lemma ExpiresBefore(lines: seq<ArtifactLine>, env: Env, cap: nat, n: nat)
    requires n <= |lines|
    ensures PassOver(lines[..n], env, cap).unauthorized <==> exists k :: 0 <= k < n && Expires(lines[k].record, env)
  {
    UnauthorizedExactly(lines[..n], env, cap);
    forall k | 0 <= k < n ensures lines[k] in lines[..n] {
      assert lines[..n][k] == lines[k];
    }
    forall l | l in lines[..n] ensures exists k :: 0 <= k < n && lines[k] == l {
      var k :| 0 <= k < n && lines[..n][k] == l;
    }
  }

  /** A pass sends and remembers exactly those. */
  lemma {:induction false} SentExactly(lines: seq<ArtifactLine>, env: Env, cap: nat, i: nat)
    requires DistinctIds(lines) && i < |lines|
    ensures lines[i].record.id in PassOver(lines, env, cap).sent <==> SendsAt(lines, env, i)
    ensures lines[i].record.id in PassOver(lines, env, cap).uploadedIds <==> SendsAt(lines, env, i) || RecallsAt(lines, env, i)
  {
    var n := |lines| - 1;
    var before := lines[..n];
    if i < n {
      SentExactly(before, env, cap, i);
      SendStep(PassOver(before, env, cap), lines[n], env);
      assert before[i].record.id != lines[n].record.id;
    } else {
      LastSent(lines, env, cap);
    }
  }

  lemma LastSent(lines: seq<ArtifactLine>, env: Env, cap: nat)
    requires DistinctIds(lines) && lines != []
    ensures var n, p := |lines| - 1, PassOver(lines, env, cap);
            && (lines[n].record.id in p.sent <==> SendsAt(lines, env, n))
            && (lines[n].record.id in p.uploadedIds <==> SendsAt(lines, env, n) || RecallsAt(lines, env, n))
  {
    var n := |lines| - 1;
    DistinctTake(lines);
    SendsUnremembered(lines[..n], env, cap);
    UploadedAreLines(lines[..n], env, cap);
    ExpiresBefore(lines, env, cap, n);
  }

  // ----- what a 401 makes a pass forget -----

  /** A record remembered as uploaded comes after one whose upload is answered 401. */
  ghost predicate ForgetsUpload(lines: seq<ArtifactLine>, env: Env) {
    exists i, j :: 0 <= i < j < |lines| && Expires(lines[i].record, env) && lines[j].record.id in env.previouslyUploaded
  }

  lemma ForgetStep(lines: seq<ArtifactLine>, env: Env, cap: nat)
    requires lines != []
    ensures var n := |lines| - 1;
            ForgetsUpload(lines, env) <==>
              || ForgetsUpload(lines[..n], env)
              || (PassOver(lines[..n], env, cap).unauthorized && lines[n].record.id in env.previouslyUploaded)
  {
    var n := |lines| - 1;
    var before := lines[..n];
    UnauthorizedExactly(before, env, cap);
    if ForgetsUpload(lines, env) {
      var i, j :| 0 <= i < j < |lines| && Expires(lines[i].record, env) && lines[j].record.id in env.previouslyUploaded;
      assert before[i] == lines[i] && before[i] in before;
      assert j < n ==> before[j] == lines[j];
    }
    if PassOver(before, env, cap).unauthorized && lines[n].record.id in env.previouslyUploaded {
      var l :| l in before && Expires(l.record, env);
      var i :| 0 <= i < n && before[i] == l;
      assert lines[i] == l;
    }
    if ForgetsUpload(before, env) {
      var i, j :| 0 <= i < j < n && Expires(before[i].record, env) && before[j].record.id in env.previouslyUploaded;
      assert lines[i] == before[i] && lines[j] == before[j];
    }
  }

  /** A pass drops a remembered id exactly when a 401 comes before that id's record. */
  lemma {:induction false} ForgetsExactly(lines: seq<ArtifactLine>, env: Env, cap: nat)
    requires DistinctIds(lines)
    ensures ForgetsUpload(lines, env) <==>
              exists l :: l in lines && l.record.id in env.previouslyUploaded
                          && l.record.id !in PassOver(lines, env, cap).uploadedIds
  {
    if lines != [] {
      var n := |lines| - 1;
      DistinctTake(lines);
      ForgetsExactly(lines[..n], env, cap);
      ForgetStep(lines, env, cap);
      UploadedAreLines(lines[..n], env, cap);
    }
  }

  lemma {:induction false} UploadedAreLines(lines: seq<ArtifactLine>, env: Env, cap: nat)
    ensures forall id :: id in PassOver(lines, env, cap).uploadedIds ==> exists l :: l in lines && l.record.id == id
  {
    if lines != [] {
      var n := |lines| - 1;
      UploadedAreLines(lines[..n], env, cap);
      assert lines[n] in lines;
      assert forall l :: l in lines[..n] ==> l in lines;
    }
  }

  /** After a 401 every record the pass comes to is held, the remembered ones too, so a forgotten
      record stays at or above the watermark. */
  lemma {:induction false} ForgottenStaysAbove(lines: seq<ArtifactLine>, env: Env, cap: nat, l: ArtifactLine)
    requires DistinctIds(lines) && l in lines && l.record.id in env.previouslyUploaded
    requires l.record.id !in PassOver(lines, env, cap).uploadedIds
    ensures PassOver(lines, env, cap).offset <= l.offset
  {
    var n := |lines| - 1;
    assert lines == lines[..n] + [lines[n]];
    if l != lines[n] {
      ForgottenStaysAbove(lines[..n], env, cap, l);
    }
  }
}

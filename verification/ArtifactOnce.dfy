/**
 * When the syncs of packages/cli/src/sync-cmd.ts send an artifact id twice: what the id set must
 * remember, and which failed read, failed write, refusal or death makes it forget.
 */
module ArtifactOnce {
  import opened Common
  import opened Spool
  import opened ArtifactUpload
  import opened ArtifactSync

  /** The ids hold every uploaded record at or above the offset. */
  ghost predicate Covers(ids: set<string>, sent: seq<string>, lines: seq<ArtifactLine>, offset: nat) {
    forall l :: l in lines && l.record.id in sent && offset <= l.offset ==> l.record.id in ids
  }

  /** The id set covers the watermark; a planned sync's reading is covered too, and after its pass
      the set it is about to write covers the offset it is about to commit. */
  ghost predicate Remembers(d: Disk, lines: seq<ArtifactLine>, phase: Phase) {
    match phase
    case Idle => Covers(d.uploadedIds, d.sent, lines, d.watermark)
    case Planned(c) =>
      && Covers(d.uploadedIds, d.sent, lines, c.from)
      && (c.window != [] ==> forall l :: l in lines && l.record.id in d.sent ==> l.offset < c.consumed)
    case Writing(_, p) => Covers(d.uploadedIds, d.sent, lines, p.offset)
    case _ => Covers(Kept(phase.c.window, phase.p), d.sent, lines, phase.p.offset)
  }

  ghost predicate SentOnce(parse: Parser<Artifact>, s: State) {
    Distinct(s.disk.sent) && Remembers(s.disk, Whole(parse, s.disk.spool), s.phase)
  }

  /** Reads and writes of the two checkpoint files work, no 401 comes ahead of a remembered record,
      and no run dies between its uploads and its commit. */
  ghost predicate Faithful(s: State, step: Step) {
    match step
    case Plan(watermarkRead, _) => watermarkRead
    case Upload(env) =>
      env.previouslyUploaded == s.disk.uploadedIds && (s.phase.Planned? ==> !ForgetsUpload(s.phase.c.window, env))
    case WriteIds(written) => written
    case Commit(written) => written
    case Die => s.phase.Idle? || s.phase.Planned?
    case DieUploading(_, count) => count == 0
    case _ => true
  }

  ghost predicate RunFaithful(parse: Parser<Artifact>, s: State, steps: seq<Step>)
    decreases |steps|
  {
    steps == [] || (Faithful(s, steps[0]) && RunFaithful(parse, Apply(parse, s, steps[0]), steps[1..]))
  }

  /** What a pass sends was not sent before, when the id set it read covers what was. */
  lemma UploadSendsFresh(d: Disk, lines: seq<ArtifactLine>, c: Chunk, env: Env)
    requires DiskFits(d, lines) && ChunkFits(d.spool, lines, d.watermark, c) && Remembers(d, lines, Planned(c))
    requires env.previouslyUploaded == d.uploadedIds && Distinct(d.sent)
    ensures Distinct(d.sent + PassOver(c.window, env, c.consumed).sent)
  {
    WindowIsDistinct(lines, d.spool, d.watermark, c);
    SendsFreshIds(c.window, env, c.consumed);
    var p := PassOver(c.window, env, c.consumed);
    forall id | id in p.sent ensures id !in d.sent {
      var l :| l in c.window && l.record.id == id;
      assert l in lines && c.from <= l.offset;
    }
    DistinctConcat(d.sent, p.sent);
  }

  /** After the pass the id set it is about to write covers the uploads at or above the offset it
      is about to commit exactly when no 401 was answered ahead of a remembered record. */
  lemma RemembersExactly(parse: Parser<Artifact>, s: State, env: Env)
    requires Sound(parse, s) && SentOnce(parse, s) && Allowed(parse, s, Upload(env))
    requires env.previouslyUploaded == s.disk.uploadedIds
    ensures SentOnce(parse, Apply(parse, s, Upload(env))) <==> !ForgetsUpload(s.phase.c.window, env)
  {
    var d, c, lines := s.disk, s.phase.c, Whole(parse, s.disk.spool);
    UploadSendsFresh(d, lines, c, env);
    LinesAreOrdered(parse, d.spool, 0);
    if ForgetsUpload(c.window, env) {
      LeavesTheSet(d, lines, c, env);
    } else {
      FaithfulRemembers(d, lines, c, env);
    }
  }

  lemma LeavesTheSet(d: Disk, lines: seq<ArtifactLine>, c: Chunk, env: Env)
    requires DiskFits(d, lines) && ChunkFits(d.spool, lines, d.watermark, c)
    requires env.previouslyUploaded == d.uploadedIds && ForgetsUpload(c.window, env)
    ensures var s' := AfterUpload(d, c, PassOver(c.window, env, c.consumed)); !Remembers(s'.disk, lines, s'.phase)
  {
    var p := PassOver(c.window, env, c.consumed);
    WindowIsDistinct(lines, d.spool, d.watermark, c);
    ForgetsExactly(c.window, env, c.consumed);
    var l :| l in c.window && l.record.id in env.previouslyUploaded && l.record.id !in p.uploadedIds;
    ForgottenStaysAbove(c.window, env, c.consumed, l);
    assert l in lines && l.record.id in d.sent + p.sent && l.record.id !in Kept(c.window, p);
  }

  lemma FaithfulRemembers(d: Disk, lines: seq<ArtifactLine>, c: Chunk, env: Env)
    requires DiskFits(d, lines) && ChunkFits(d.spool, lines, d.watermark, c) && Remembers(d, lines, Planned(c))
    requires forall m :: m in lines ==> Boundary(d.spool, m.offset)
    requires env.previouslyUploaded == d.uploadedIds && !ForgetsUpload(c.window, env)
    ensures var s' := AfterUpload(d, c, PassOver(c.window, env, c.consumed)); Remembers(s'.disk, lines, s'.phase)
  {
    var p := PassOver(c.window, env, c.consumed);
    forall l | l in lines && l.record.id in d.sent + p.sent && p.offset <= l.offset
      ensures if c.window == [] then l.record.id in d.uploadedIds else l.record.id in Kept(c.window, p)
    {
      StaysRemembered(d, lines, c, env, l);
    }
  }

  lemma StaysRemembered(d: Disk, lines: seq<ArtifactLine>, c: Chunk, env: Env, l: ArtifactLine)
    requires DiskFits(d, lines) && ChunkFits(d.spool, lines, d.watermark, c) && Remembers(d, lines, Planned(c))
    requires forall m :: m in lines ==> Boundary(d.spool, m.offset)
    requires env.previouslyUploaded == d.uploadedIds && !ForgetsUpload(c.window, env)
    requires var p := PassOver(c.window, env, c.consumed);
             l in lines && l.record.id in d.sent + p.sent && p.offset <= l.offset
    ensures if c.window == [] then l.record.id in d.uploadedIds
            else l.record.id in Kept(c.window, PassOver(c.window, env, c.consumed))
  {
    var p := PassOver(c.window, env, c.consumed);
    PassFitsChunk(d, lines, c, c.window, env);
    WindowIsDistinct(lines, d.spool, d.watermark, c);
    SendsFreshIds(c.window, env, c.consumed);
    ForgetsExactly(c.window, env, c.consumed);
    if l.record.id in p.sent {
      var m :| m in c.window && m.record.id == l.record.id;
      assert m == l;
    } else {
      assert l.record.id in d.uploadedIds;
    }
  }

  lemma FaithfulStepSendsOnce(parse: Parser<Artifact>, s: State, step: Step)
    requires Sound(parse, s) && SentOnce(parse, s) && Allowed(parse, s, step) && Faithful(s, step)
    ensures SentOnce(parse, Apply(parse, s, step))
  {
    match step {
      case Append(line) => AppendIsFresh(parse, s, line);
      case Plan(_, spoolRead) => LinesAreOrdered(parse, s.disk.spool, 0);
      case Upload(env) => RemembersExactly(parse, s, env);
      case DieUploading(env, count) =>
        assert s.phase.c.window[..0] == [] && s.disk.sent + [] == s.disk.sent;
      case _ =>
    }
  }

  lemma AppendIsFresh(parse: Parser<Artifact>, s: State, line: seq<byte>)
    requires Sound(parse, s) && SentOnce(parse, s) && Allowed(parse, s, Append(line))
    ensures SentOnce(parse, Apply(parse, s, Append(line)))
  {
    var d := s.disk;
    var lines, added := Whole(parse, d.spool), Parsed(parse, line, |d.spool|);
    AppendedLines(parse, s, line);
    forall l | l in added ensures l.record.id !in d.sent {
      NewIsWaiting(d, lines, l);
    }
    assert forall l :: l in lines + added <==> l in lines || l in added;
  }

  /** Over every run of faithful syncs no id is sent twice, whatever blobs are lost. */
  lemma {:induction false} FaithfulRunsSendOnce(parse: Parser<Artifact>, s: State, steps: seq<Step>)
    requires Sound(parse, s) && SentOnce(parse, s)
    requires RunAllowed(parse, s, steps) && RunFaithful(parse, s, steps)
    ensures Distinct(Run(parse, s, steps).disk.sent)
    decreases |steps|
  {
    if steps != [] {
      StepKeepsSound(parse, s, steps[0]);
      FaithfulStepSendsOnce(parse, s, steps[0]);
      FaithfulRunsSendOnce(parse, Apply(parse, s, steps[0]), steps[1..]);
    }
  }

  // ----- which steps keep ids from being sent again -----

  /** What keeps a step from sending an id again or forgetting one that was sent, told before it is
      taken. A read of the watermark or of the id set, a write of either file or a death in
      between may fail to harm, and then this says when. */
  ghost predicate Keeps(parse: Parser<Artifact>, s: State, step: Step) {
    var d, lines := s.disk, Whole(parse, s.disk.spool);
    match step
    case Plan(watermarkRead, _) => watermarkRead || Covers(d.uploadedIds, d.sent, lines, 0)
    case Upload(env) => s.phase.Planned? ==> UploadKeeps(d, s.phase.c, env)
    case WriteIds(written) => written || (s.phase.Cleaning? ==> Covers(d.uploadedIds, d.sent, lines, s.phase.p.offset))
    case Commit(written) => written || Covers(d.uploadedIds, d.sent, lines, d.watermark)
    case Die => Covers(d.uploadedIds, d.sent, lines, d.watermark)
    case DieUploading(env, count) =>
      s.phase.Planned? && count <= |s.phase.c.window| ==>
        forall i :: 0 <= i < count && SendsAt(s.phase.c.window, env, i) ==>
          s.phase.c.window[i].record.id !in d.sent && s.phase.c.window[i].offset < d.watermark
    case _ => true
  }

  /** No sent record is sent again, and each sent one that the watermark will not pass is recalled. */
  ghost predicate UploadKeeps(d: Disk, c: Chunk, env: Env) {
    forall i :: 0 <= i < |c.window| && c.window[i].record.id in d.sent ==>
      && !SendsAt(c.window, env, i)
      && ((exists k :: 0 <= k <= i && Stops(c.window[k].record, env)) ==> RecallsAt(c.window, env, i))
  }

  lemma UploadResendsExactly(d: Disk, c: Chunk, env: Env)
    requires DistinctIds(c.window) && Distinct(d.sent)
    ensures Distinct(d.sent + PassOver(c.window, env, c.consumed).sent) <==>
              forall i :: 0 <= i < |c.window| && c.window[i].record.id in d.sent ==> !SendsAt(c.window, env, i)
  {
    var p := PassOver(c.window, env, c.consumed);
    SendsFreshIds(c.window, env, c.consumed);
    forall i | 0 <= i < |c.window| ensures c.window[i].record.id in p.sent <==> SendsAt(c.window, env, i) {
      SentExactly(c.window, env, c.consumed, i);
    }
    if forall i :: 0 <= i < |c.window| && c.window[i].record.id in d.sent ==> !SendsAt(c.window, env, i) {
      forall id | id in d.sent ensures id !in p.sent {
        if id in p.sent {
          SentIsInWindow(c, env, id);
        }
      }
      DistinctConcat(d.sent, p.sent);
    } else {
      var i :| 0 <= i < |c.window| && c.window[i].record.id in d.sent && SendsAt(c.window, env, i);
      SharedIsRepeated(d.sent, p.sent, c.window[i].record.id);
    }
  }

  lemma SentIsInWindow(c: Chunk, env: Env, id: string)
    requires DistinctIds(c.window) && id in PassOver(c.window, env, c.consumed).sent
    ensures exists i :: 0 <= i < |c.window| && c.window[i].record.id == id && SendsAt(c.window, env, i)
  {
    SendsFreshIds(c.window, env, c.consumed);
    var l :| l in c.window && l.record.id == id;
    var i :| 0 <= i < |c.window| && c.window[i] == l;
    SentExactly(c.window, env, c.consumed, i);
  }

  /** A sent record of the window is covered by the set the pass is about to write. */
  lemma CoveredExactly(d: Disk, lines: seq<ArtifactLine>, c: Chunk, env: Env, i: nat)
    requires DiskFits(d, lines) && ChunkFits(d.spool, lines, d.watermark, c) && i < |c.window|
    ensures var p := PassOver(c.window, env, c.consumed);
            && (p.offset <= c.window[i].offset <==> exists k :: 0 <= k <= i && Stops(c.window[k].record, env))
            && (p.offset <= c.window[i].offset ==>
                  (c.window[i].record.id in Kept(c.window, p) <==> SendsAt(c.window, env, i) || RecallsAt(c.window, env, i)))
  {
    WindowIsDistinct(lines, d.spool, d.watermark, c);
    OffsetExactly(c.window, env, c.consumed, i);
    SentExactly(c.window, env, c.consumed, i);
    var p := PassOver(c.window, env, c.consumed);
    assert c.window[i] in c.window;
    forall l | l in c.window && l.record.id == c.window[i].record.id ensures l == c.window[i] {
      var j :| 0 <= j < |c.window| && c.window[j] == l;
    }
  }

  lemma UploadKeepsExactly(parse: Parser<Artifact>, s: State, env: Env)
    requires Sound(parse, s) && SentOnce(parse, s) && Allowed(parse, s, Upload(env))
    ensures SentOnce(parse, Apply(parse, s, Upload(env))) <==> UploadKeeps(s.disk, s.phase.c, env)
  {
    var d, c, lines := s.disk, s.phase.c, Whole(parse, s.disk.spool);
    WindowIsDistinct(lines, d.spool, d.watermark, c);
    UploadResendsExactly(d, c, env);
    assert c.from <= PassOver(c.window, env, c.consumed).offset by {
      LinesAreOrdered(parse, d.spool, 0);
      PassFitsChunk(d, lines, c, c.window, env);
    }
    var s' := AfterUpload(d, c, PassOver(c.window, env, c.consumed));
    assert SentOnce(parse, Apply(parse, s, Upload(env))) <==> Distinct(s'.disk.sent) && Remembers(s'.disk, lines, s'.phase);
    if UploadKeeps(d, c, env) {
      KeepingRemembers(d, lines, c, env);
    } else if forall i :: 0 <= i < |c.window| && c.window[i].record.id in d.sent ==> !SendsAt(c.window, env, i) {
      UnkeptForgets(d, lines, c, env);
    }
  }

  lemma UnkeptForgets(d: Disk, lines: seq<ArtifactLine>, c: Chunk, env: Env)
    requires DiskFits(d, lines) && ChunkFits(d.spool, lines, d.watermark, c) && !UploadKeeps(d, c, env)
    requires forall i :: 0 <= i < |c.window| && c.window[i].record.id in d.sent ==> !SendsAt(c.window, env, i)
    ensures var s' := AfterUpload(d, c, PassOver(c.window, env, c.consumed)); !Remembers(s'.disk, lines, s'.phase)
  {
    var i :| 0 <= i < |c.window| && c.window[i].record.id in d.sent && !RecallsAt(c.window, env, i)
             && exists k :: 0 <= k <= i && Stops(c.window[k].record, env);
    NotKeepingForgets(d, lines, c, env, i);
  }

  lemma KeepingRemembers(d: Disk, lines: seq<ArtifactLine>, c: Chunk, env: Env)
    requires DiskFits(d, lines) && ChunkFits(d.spool, lines, d.watermark, c) && Remembers(d, lines, Planned(c))
    requires UploadKeeps(d, c, env) && c.from <= PassOver(c.window, env, c.consumed).offset
    ensures var s' := AfterUpload(d, c, PassOver(c.window, env, c.consumed)); Remembers(s'.disk, lines, s'.phase)
  {
    var p := PassOver(c.window, env, c.consumed);
    if c.window != [] {
      forall l | l in lines && l.record.id in d.sent + p.sent && p.offset <= l.offset ensures l.record.id in Kept(c.window, p) {
        KeptIsCovered(d, lines, c, env, l);
      }
    } else {
      assert d.sent + p.sent == d.sent;
    }
  }

  lemma NotKeepingForgets(d: Disk, lines: seq<ArtifactLine>, c: Chunk, env: Env, i: nat)
    requires DiskFits(d, lines) && ChunkFits(d.spool, lines, d.watermark, c)
    requires i < |c.window| && c.window[i].record.id in d.sent && !SendsAt(c.window, env, i) && !RecallsAt(c.window, env, i)
    requires exists k :: 0 <= k <= i && Stops(c.window[k].record, env)
    ensures var s' := AfterUpload(d, c, PassOver(c.window, env, c.consumed)); !Remembers(s'.disk, lines, s'.phase)
  {
    CoveredExactly(d, lines, c, env, i);
    var l, p := c.window[i], PassOver(c.window, env, c.consumed);
    assert l in c.window && l in lines && l.record.id in d.sent + p.sent;
  }

  lemma KeptIsCovered(d: Disk, lines: seq<ArtifactLine>, c: Chunk, env: Env, l: ArtifactLine)
    requires DiskFits(d, lines) && ChunkFits(d.spool, lines, d.watermark, c) && Remembers(d, lines, Planned(c))
    requires UploadKeeps(d, c, env) && c.window != []
    requires var p := PassOver(c.window, env, c.consumed);
             c.from <= p.offset && l in lines && l.record.id in d.sent + p.sent && p.offset <= l.offset
    ensures l.record.id in Kept(c.window, PassOver(c.window, env, c.consumed))
  {
    var p := PassOver(c.window, env, c.consumed);
    WindowIsDistinct(lines, d.spool, d.watermark, c);
    if l.record.id in p.sent {
      SendsFreshIds(c.window, env, c.consumed);
      var m :| m in c.window && m.record.id == l.record.id;
      assert m == l;
    } else {
      assert l in c.window;
      var i :| 0 <= i < |c.window| && c.window[i] == l;
      CoveredExactly(d, lines, c, env, i);
    }
  }

  lemma DyingKeepsExactly(parse: Parser<Artifact>, s: State, env: Env, count: nat)
    requires Sound(parse, s) && SentOnce(parse, s) && Allowed(parse, s, DieUploading(env, count))
    ensures SentOnce(parse, Apply(parse, s, DieUploading(env, count))) <==> Keeps(parse, s, DieUploading(env, count))
  {
    var d, c, lines := s.disk, s.phase.c, Whole(parse, s.disk.spool);
    var part := Chunk(c.window[..count], c.from, c.consumed);
    var p, s' := PassOver(part.window, env, c.consumed), Apply(parse, s, DieUploading(env, count));
    WindowIsDistinct(lines, d.spool, d.watermark, c);
    assert s'.disk == d.(sent := d.sent + p.sent) && s'.phase == Idle;
    UploadResendsExactly(d, part, env);
    DyingCoversExactly(d, lines, c, part, env);
    DyingConditions(d, c, part, env);
  }

  /** Sending in a run that dies is harmless only below the watermark and for ids not sent before. */
  lemma DyingConditions(d: Disk, c: Chunk, part: Chunk, env: Env)
    requires part.window <= c.window && forall id :: id in d.uploadedIds ==> id in d.sent
    ensures (forall i :: 0 <= i < |part.window| && SendsAt(c.window, env, i) ==>
               c.window[i].record.id !in d.sent && c.window[i].offset < d.watermark)
       <==> (forall i :: 0 <= i < |part.window| && part.window[i].record.id in d.sent ==> !SendsAt(part.window, env, i))
            && (forall i :: 0 <= i < |part.window| && SendsAt(part.window, env, i) ==>
                  part.window[i].record.id in d.uploadedIds || part.window[i].offset < d.watermark)
  {
    forall i | 0 <= i < |part.window|
      ensures part.window[i] == c.window[i] && (SendsAt(part.window, env, i) <==> SendsAt(c.window, env, i))
    {}
  }

  lemma DyingCoversExactly(d: Disk, lines: seq<ArtifactLine>, c: Chunk, part: Chunk, env: Env)
    requires DiskFits(d, lines) && ChunkFits(d.spool, lines, d.watermark, c) && Covers(d.uploadedIds, d.sent, lines, c.from)
    requires DistinctIds(part.window) && part.window <= c.window && part.consumed == c.consumed
    ensures Covers(d.uploadedIds, d.sent + PassOver(part.window, env, c.consumed).sent, lines, d.watermark) <==>
              forall i :: 0 <= i < |part.window| && SendsAt(part.window, env, i) ==>
                part.window[i].record.id in d.uploadedIds || part.window[i].offset < d.watermark
  {
    var p := PassOver(part.window, env, c.consumed);
    forall i | 0 <= i < |part.window|
      ensures part.window[i] in lines && (SendsAt(part.window, env, i) <==> part.window[i].record.id in p.sent)
    {
      SentExactly(part.window, env, c.consumed, i);
      assert c.window[i] in c.window && part.window[i] == c.window[i];
    }
    forall l | l in lines && l.record.id in p.sent
      ensures exists i :: 0 <= i < |part.window| && part.window[i] == l && SendsAt(part.window, env, i)
    {
      SentIsInWindow(part, env, l.record.id);
      var i :| 0 <= i < |part.window| && part.window[i].record.id == l.record.id && SendsAt(part.window, env, i);
      assert part.window[i] == l;
    }
  }

  /** A step keeps every id from being sent twice and every sent one remembered exactly when its
      condition holds. */
  lemma StepKeepsExactly(parse: Parser<Artifact>, s: State, step: Step)
    requires Sound(parse, s) && SentOnce(parse, s) && Allowed(parse, s, step)
    ensures SentOnce(parse, Apply(parse, s, step)) <==> Keeps(parse, s, step)
  {
    match step {
      case Append(line) => AppendIsFresh(parse, s, line);
      case Plan(_, _) => LinesAreOrdered(parse, s.disk.spool, 0);
      case Upload(env) => UploadKeepsExactly(parse, s, env);
      case DieUploading(env, count) => DyingKeepsExactly(parse, s, env, count);
      case _ =>
    }
  }

  ghost predicate RunKeeps(parse: Parser<Artifact>, s: State, steps: seq<Step>)
    decreases |steps|
  {
    steps == [] || (Keeps(parse, s, steps[0]) && RunKeeps(parse, Apply(parse, s, steps[0]), steps[1..]))
  }

  ghost predicate SentOnceAllAlong(parse: Parser<Artifact>, s: State, steps: seq<Step>)
    decreases |steps|
  {
    SentOnce(parse, s) && (steps == [] || SentOnceAllAlong(parse, Apply(parse, s, steps[0]), steps[1..]))
  }

  /** Over every run, whatever fails or dies, no id is sent twice and every sent one stays remembered
      all along exactly when every step meets its condition. */
  lemma {:induction false} RunsSendOnceExactly(parse: Parser<Artifact>, s: State, steps: seq<Step>)
    requires Sound(parse, s) && SentOnce(parse, s) && RunAllowed(parse, s, steps)
    ensures SentOnceAllAlong(parse, s, steps) <==> RunKeeps(parse, s, steps)
    ensures RunKeeps(parse, s, steps) ==> Distinct(Run(parse, s, steps).disk.sent)
    decreases |steps|
  {
    if steps != [] {
      var next := Apply(parse, s, steps[0]);
      StepKeepsSound(parse, s, steps[0]);
      StepKeepsExactly(parse, s, steps[0]);
      if SentOnce(parse, next) {
        RunsSendOnceExactly(parse, next, steps[1..]);
      } else {
        assert !SentOnceAllAlong(parse, next, steps[1..]);
      }
    }
  }

  /** What forgetting costs: the next sync whose uploads all succeed sends the forgotten record
      again when it reads its blob, and reports it lost when it does not. */
  lemma ForgottenIsResentOrReportedLost(parse: Parser<Artifact>, s: State, env: Env, l: ArtifactLine)
    requires Sound(parse, s) && Allowed(parse, s, Upload(env)) && (forall id :: env.answer(id).Accepted?)
    requires l in s.phase.c.window && l.record.id in s.disk.sent && l.record.id !in s.disk.uploadedIds
    ensures var p := PassOver(s.phase.c.window, env, s.phase.c.consumed);
            if l.record.id in env.found then l.record.id in p.sent && !Distinct(s.disk.sent + p.sent)
            else l.record.id in p.missing
  {
    var window, cap := s.phase.c.window, s.phase.c.consumed;
    WindowIsDistinct(Whole(parse, s.disk.spool), s.disk.spool, s.disk.watermark, s.phase.c);
    var i :| 0 <= i < |window| && window[i] == l;
    if l.record.id in env.found {
      UnauthorizedExactly(window, env, cap);
      AllAccepted(window, env, cap, l);
      SharedIsRepeated(s.disk.sent, PassOver(window, env, cap).sent, l.record.id);
    } else {
      MissingExactly(window, env, cap, i);
    }
  }

  lemma {:induction false} AllAccepted(lines: seq<ArtifactLine>, env: Env, cap: nat, l: ArtifactLine)
    requires (forall id :: env.answer(id).Accepted?) && l in lines
    requires l.record.id !in env.previouslyUploaded && l.record.id in env.found
    ensures l.record.id in PassOver(lines, env, cap).sent
  {
    var n := |lines| - 1;
    UnauthorizedExactly(lines[..n], env, cap);
    assert lines == lines[..n] + [lines[n]];
    if l != lines[n] {
      AllAccepted(lines[..n], env, cap, l);
    }
  }

  lemma SharedIsRepeated(a: seq<string>, b: seq<string>, id: string)
    requires id in a && id in b
    ensures !Distinct(a + b)
  {
    var i :| 0 <= i < |a| && a[i] == id;
    var j :| 0 <= j < |b| && b[j] == id;
    assert (a + b)[i] == (a + b)[|a| + j];
  }
}

/**
 * What the syncs of the artifact spool lose: when a step harms a record that still waits for its
 * upload, that nothing is lost over every run whose steps do no harm, and what harm comes to.
 */
module ArtifactLoss {
  import opened Common
  import opened Spool
  import opened ArtifactUpload
  import opened ArtifactSync

  /** A record that is neither uploaded nor given up. */
  ghost predicate Waiting(d: Disk, lines: seq<ArtifactLine>, l: ArtifactLine) {
    l in lines && !Done(d, l.record.id)
  }

  /** The record lies above the watermark with its blob, and the running sync will leave it both. */
  ghost predicate Spared(d: Disk, phase: Phase, l: ArtifactLine) {
    && d.watermark <= l.offset
    && l.record.sha in d.blobs
    && (!phase.Idle? && !phase.Planned? ==> phase.p.offset <= l.offset)
    && (phase.Cleaning? ==> l.record.sha !in phase.todo)
  }

  ghost predicate Unharmed(parse: Parser<Artifact>, s: State) {
    var lines := Whole(parse, s.disk.spool);
    forall l :: Waiting(s.disk, lines, l) ==> Spared(s.disk, s.phase, l)
  }

  /** Some record still waiting has its blob fail to read, and neither it nor an earlier one of the
      window stops the watermark. */
  ghost predicate PassesUnread(d: Disk, window: seq<ArtifactLine>, env: Env) {
    exists i :: 0 <= i < |window| && !Done(d, window[i].record.id) && Unread(window[i].record, env)
                && forall k :: 0 <= k <= i ==> !Stops(window[k].record, env)
  }

  /** What keeps a step from doing harm, told before it is taken: a record lands with its blob there
      and not about to be unlinked, a pass does not skip a record whose blob it could not read, and
      no blob is put up for unlinking or taken back that a waiting record needs. */
  ghost predicate Safe(parse: Parser<Artifact>, s: State, step: Step) {
    var lines := Whole(parse, s.disk.spool);
    match step
    case Append(line) =>
      parse(line).Some? ==>
        && parse(line).value.sha in s.disk.blobs
        && (s.phase.Cleaning? ==> parse(line).value.sha !in s.phase.todo)
    case Undo(sha) => forall l :: Waiting(s.disk, lines, l) ==> l.record.sha != sha
    case Upload(env) => s.phase.Planned? ==> !PassesUnread(s.disk, s.phase.c.window, env)
    case ReadLate(spoolRead) =>
      s.phase.Passed? ==>
        forall l :: Waiting(s.disk, lines, l) ==>
          l.record.sha !in Doomed(parse, s.disk.spool, s.phase.c, s.phase.p, spoolRead)
    case _ => true
  }

  ghost predicate RunSafe(parse: Parser<Artifact>, s: State, steps: seq<Step>)
    decreases |steps|
  {
    steps == [] || (Safe(parse, s, steps[0]) && RunSafe(parse, Apply(parse, s, steps[0]), steps[1..]))
  }

  ghost predicate UnharmedAllAlong(parse: Parser<Artifact>, s: State, steps: seq<Step>)
    decreases |steps|
  {
    Unharmed(parse, s) && (steps == [] || UnharmedAllAlong(parse, Apply(parse, s, steps[0]), steps[1..]))
  }

  lemma AppendHarmsExactly(parse: Parser<Artifact>, s: State, line: seq<byte>)
    requires Sound(parse, s) && Unharmed(parse, s) && Allowed(parse, s, Append(line))
    ensures Unharmed(parse, Apply(parse, s, Append(line))) <==> Safe(parse, s, Append(line))
  {
    var d, d' := s.disk, Apply(parse, s, Append(line)).disk;
    var lines, added := Whole(parse, d.spool), Parsed(parse, line, |d.spool|);
    AppendedLines(parse, s, line);
    assert forall l :: l in lines + added <==> l in lines || l in added;
    forall m | Waiting(d, lines, m) ensures Spared(d', s.phase, m) {
      assert Spared(d, s.phase, m);
    }
    if parse(line).Some? {
      var l := Line(parse(line).value, |d.spool|);
      assert added == [l] && l in lines + added;
      NewIsWaiting(d, lines, l);
      assert Waiting(d', lines + added, l);
      assert Spared(d', s.phase, l) <==> Safe(parse, s, Append(line));
      assert forall m :: Waiting(d', lines + added, m) ==> m == l || Waiting(d, lines, m);
    } else {
      assert forall m :: Waiting(d', lines + added, m) ==> Waiting(d, lines, m);
    }
  }

  /** After a pass each waiting record of the window is one whose blob it did not read, or one at
      or above the offset to commit. */
  lemma UploadHarmsExactly(parse: Parser<Artifact>, s: State, env: Env)
    requires Sound(parse, s) && Unharmed(parse, s) && Allowed(parse, s, Upload(env))
    ensures Unharmed(parse, Apply(parse, s, Upload(env))) <==> Safe(parse, s, Upload(env))
  {
    var d, c, lines := s.disk, s.phase.c, Whole(parse, s.disk.spool);
    if PassesUnread(d, c.window, env) {
      var i :| 0 <= i < |c.window| && !Done(d, c.window[i].record.id) && Unread(c.window[i].record, env)
               && forall k :: 0 <= k <= i ==> !Stops(c.window[k].record, env);
      UnreadIsHarmed(d, lines, c, env, i);
    } else {
      var s' := Apply(parse, s, Upload(env));
      forall l | Waiting(s'.disk, lines, l) ensures Spared(s'.disk, s'.phase, l) {
        DoneAfterUpload(d, c, env, l.record.id);
        assert Waiting(d, lines, l) && Spared(d, s.phase, l);
        PassSpares(s, lines, env, l);
      }
    }
  }

  lemma DoneAfterUpload(d: Disk, c: Chunk, env: Env, id: string)
    ensures var p := PassOver(c.window, env, c.consumed);
            Done(AfterUpload(d, c, p).disk, id) <==> Done(d, id) || id in p.sent || id in p.dropped
  {}

  lemma UnreadIsHarmed(d: Disk, lines: seq<ArtifactLine>, c: Chunk, env: Env, i: nat)
    requires ChunkFits(d.spool, lines, d.watermark, c) && i < |c.window|
    requires !Done(d, c.window[i].record.id) && Unread(c.window[i].record, env)
    requires forall k :: 0 <= k <= i ==> !Stops(c.window[k].record, env)
    ensures var s' := AfterUpload(d, c, PassOver(c.window, env, c.consumed));
            Waiting(s'.disk, lines, c.window[i]) && !Spared(s'.disk, s'.phase, c.window[i])
  {
    assert c.window[i] in c.window;
    UnreadIsPassed(c.window, env, c.consumed, i);
    DoneAfterUpload(d, c, env, c.window[i].record.id);
  }

  lemma UnreadIsPassed(window: seq<ArtifactLine>, env: Env, cap: nat, i: nat)
    requires Ordered(window) && (forall l :: l in window ==> l.offset < cap)
    requires i < |window| && Unread(window[i].record, env) && forall k :: 0 <= k <= i ==> !Stops(window[k].record, env)
    ensures var p := PassOver(window, env, cap);
            window[i].offset < p.offset && window[i].record.id !in p.sent && window[i].record.id !in p.dropped
  {
    OffsetExactly(window, env, cap, i);
    FinishedWereFound(window, env, cap);
  }

  lemma PassSpares(s: State, lines: seq<ArtifactLine>, env: Env, l: ArtifactLine)
    requires DiskFits(s.disk, lines) && s.phase.Planned? && PhaseFits(s.disk, lines, s.phase) && ReadsIds(s.disk, env)
    requires !PassesUnread(s.disk, s.phase.c.window, env) && Waiting(s.disk, lines, l) && s.disk.watermark <= l.offset
    ensures var p := PassOver(s.phase.c.window, env, s.phase.c.consumed);
            l.record.id in p.sent || l.record.id in p.dropped || p.offset <= l.offset
  {
    var window, cap := s.phase.c.window, s.phase.c.consumed;
    if l in window {
      var i :| 0 <= i < |window| && window[i] == l;
      OffsetExactly(window, env, cap, i);
      if forall k :: 0 <= k <= i ==> !Stops(window[k].record, env) {
        FinishedBeforeStop(window, env, cap, i);
      }
    } else {
      EveryRecordHasAFate(window, env, cap);
    }
  }

  /** A sound, unharmed state stays unharmed by a step exactly when the step is safe. */
  lemma StepHarmsExactly(parse: Parser<Artifact>, s: State, step: Step)
    requires Sound(parse, s) && Unharmed(parse, s) && Allowed(parse, s, step)
    ensures Unharmed(parse, Apply(parse, s, step)) <==> Safe(parse, s, step)
  {
    match step {
      case Append(line) => AppendHarmsExactly(parse, s, line);
      case Upload(env) => UploadHarmsExactly(parse, s, env);
      case DieUploading(env, count) => DyingHarmsNothing(parse, s, env, count);
      case Commit(_) => CommitHarmsNothing(parse, s, step);
      case _ => OthersHarmExactly(parse, s, step);
    }
  }

  lemma OthersHarmExactly(parse: Parser<Artifact>, s: State, step: Step)
    requires Sound(parse, s) && Unharmed(parse, s) && Allowed(parse, s, step)
    requires step.Park? || step.Undo? || step.Plan? || step.ReadLate? || step.Unlink? || step.WriteIds? || step.Die?
    ensures Unharmed(parse, Apply(parse, s, step)) <==> Safe(parse, s, step)
  {
    var lines, s' := Whole(parse, s.disk.spool), Apply(parse, s, step);
    assert forall l :: Waiting(s'.disk, lines, l) <==> Waiting(s.disk, lines, l);
    if Safe(parse, s, step) {
      forall l | Waiting(s'.disk, lines, l) ensures Spared(s'.disk, s'.phase, l) {
        assert Spared(s.disk, s.phase, l);
      }
    } else {
      var l :| Waiting(s.disk, lines, l) && !Spared(s'.disk, s'.phase, l);
      assert Waiting(s'.disk, lines, l);
    }
  }

  lemma CommitHarmsNothing(parse: Parser<Artifact>, s: State, step: Step)
    requires Sound(parse, s) && Unharmed(parse, s) && step.Commit? && Allowed(parse, s, step)
    ensures Unharmed(parse, Apply(parse, s, step))
  {
    var lines, s' := Whole(parse, s.disk.spool), Apply(parse, s, step);
    forall l | Waiting(s'.disk, lines, l) ensures Spared(s'.disk, s'.phase, l) {
      assert Waiting(s.disk, lines, l) && Spared(s.disk, s.phase, l);
    }
  }

  lemma DyingHarmsNothing(parse: Parser<Artifact>, s: State, env: Env, count: nat)
    requires Sound(parse, s) && Unharmed(parse, s) && Allowed(parse, s, DieUploading(env, count))
    ensures Unharmed(parse, Apply(parse, s, DieUploading(env, count)))
  {
    var lines, s' := Whole(parse, s.disk.spool), Apply(parse, s, DieUploading(env, count));
    assert s'.disk.sent == s.disk.sent + PassOver(s.phase.c.window[..count], env, s.phase.c.consumed).sent;
    forall l | Waiting(s'.disk, lines, l) ensures Spared(s'.disk, s'.phase, l) {
      assert Waiting(s.disk, lines, l) && Spared(s.disk, s.phase, l);
    }
  }

  /** Over every run, whatever fails, dies or falls between two steps: the files stay sound, and
      every waiting record keeps its blob and its place all along exactly when every step is safe. */
  lemma {:induction false} RunsLoseNothingExactly(parse: Parser<Artifact>, s: State, steps: seq<Step>)
    requires Sound(parse, s) && Unharmed(parse, s) && RunAllowed(parse, s, steps)
    ensures Sound(parse, Run(parse, s, steps))
    ensures UnharmedAllAlong(parse, s, steps) <==> RunSafe(parse, s, steps)
    ensures RunSafe(parse, s, steps) ==> Unharmed(parse, Run(parse, s, steps))
    decreases |steps|
  {
    if steps != [] {
      var s' := Apply(parse, s, steps[0]);
      StepKeepsSound(parse, s, steps[0]);
      StepHarmsExactly(parse, s, steps[0]);
      if Unharmed(parse, s') {
        RunsLoseNothingExactly(parse, s', steps[1..]);
      } else {
        RunsStaySound(parse, s', steps[1..]);
        NotUnharmed(parse, s', steps[1..]);
      }
    }
  }

  lemma NotUnharmed(parse: Parser<Artifact>, s: State, steps: seq<Step>)
    requires !Unharmed(parse, s)
    ensures !UnharmedAllAlong(parse, s, steps)
  {}

  lemma StartsGood(parse: Parser<Artifact>)
    ensures Sound(parse, EMPTY) && Unharmed(parse, EMPTY)
  {}

  /** Spelt out for safe runs from an empty spool: each record was uploaded or dropped, or lies
      above the watermark with its blob. */
  lemma NoArtifactIsLost(parse: Parser<Artifact>, steps: seq<Step>, l: ArtifactLine)
    requires RunAllowed(parse, EMPTY, steps) && RunSafe(parse, EMPTY, steps)
    requires l in Whole(parse, Run(parse, EMPTY, steps).disk.spool)
    ensures var d := Run(parse, EMPTY, steps).disk;
            || l.record.id in d.sent
            || l.record.id in d.dropped
            || (d.watermark <= l.offset && l.record.sha in d.blobs)
  {
    StartsGood(parse);
    RunsLoseNothingExactly(parse, EMPTY, steps);
    var s := Run(parse, EMPTY, steps);
    assert Waiting(s.disk, Whole(parse, s.disk.spool), l) ==> Spared(s.disk, s.phase, l);
  }

  // ----- when the clean-up is safe -----

  /** The pass read the blob of every waiting record it came to, so it holds those it leaves. */
  ghost predicate HoldsWaiting(d: Disk, c: Chunk, p: Pass) {
    forall l :: l in c.window && !Done(d, l.record.id) ==> l.record.sha in p.heldShas
  }

  /** A pass that reads every blob holds every record of the window that still waits after it. */
  lemma ReadBlobsAreHeld(d: Disk, c: Chunk, env: Env)
    requires DistinctIds(c.window) && ReadsIds(d, env) && forall id :: id in d.uploadedIds ==> id in d.sent
    requires forall l :: l in c.window && !Done(d, l.record.id) ==> l.record.id in env.found
    ensures var p := PassOver(c.window, env, c.consumed);
            HoldsWaiting(AfterUpload(d, c, p).disk, c, p) && !PassesUnread(d, c.window, env)
  {
    EveryRecordHasAFate(c.window, env, c.consumed);
    var p := PassOver(c.window, env, c.consumed);
    forall l | l in c.window && !Done(AfterUpload(d, c, p).disk, l.record.id) ensures l.record.sha in p.heldShas {
      assert Fated(p, l, env);
    }
    forall i | 0 <= i < |c.window| && !Done(d, c.window[i].record.id) ensures !Unread(c.window[i].record, env) {
      assert c.window[i] in c.window;
    }
  }

  /** After such a pass a late read that works is always safe, and one that fails is safe exactly
      when no record appended since the plan shares a blob that is then unlinked. */
  lemma LateReadIsSafeExactly(parse: Parser<Artifact>, s: State, spoolRead: bool)
    requires Sound(parse, s) && Unharmed(parse, s) && s.phase.Passed? && HoldsWaiting(s.disk, s.phase.c, s.phase.p)
    ensures Safe(parse, s, ReadLate(spoolRead)) <==>
              spoolRead || forall l :: Waiting(s.disk, Whole(parse, s.disk.spool), l) && s.phase.c.consumed <= l.offset ==>
                             l.record.sha !in Removable(s.phase.p, {})
  {
    var lines, c, p := Whole(parse, s.disk.spool), s.phase.c, s.phase.p;
    WindowOfWhole(parse, s.disk.spool, c.consumed);
    forall l | Waiting(s.disk, lines, l)
      ensures l.offset < c.consumed ==> l.record.sha !in Removable(p, {})
      ensures l.offset >= c.consumed ==> l.record.sha in LateShas(parse, s.disk.spool, c)
    {
      assert Spared(s.disk, s.phase, l);
    }
    assert forall sha :: sha in Doomed(parse, s.disk.spool, c, p, spoolRead) ==> sha in Removable(p, {});
  }

  // ----- what harm comes to -----

  function UnlinkAll(order: seq<string>): seq<Step> {
    if order == [] then [] else [Unlink(order[0], true)] + UnlinkAll(order[1..])
  }

  lemma {:induction false} UnlinksAll(parse: Parser<Artifact>, s: State, order: seq<string>)
    requires s.phase.Cleaning? && Distinct(order) && forall sha :: sha in order <==> sha in s.phase.todo
    ensures Run(parse, s, UnlinkAll(order))
         == State(s.disk.(blobs := s.disk.blobs - s.phase.todo), s.phase.(todo := {}))
    decreases |order|
  {
    if order == [] {
      assert s.phase.todo == {};
      assert s.disk.blobs - {} == s.disk.blobs;
    } else {
      var sha, next := order[0], Apply(parse, s, Unlink(order[0], true));
      assert sha in order && order == [sha] + order[1..];
      assert next.phase == s.phase.(todo := s.phase.todo - {sha}) && next.disk == s.disk.(blobs := s.disk.blobs - {sha});
      UnlinksAll(parse, next, order[1..]);
      assert s.disk.blobs - {sha} - (s.phase.todo - {sha}) == s.disk.blobs - s.phase.todo;
      assert UnlinkAll(order)[0] == Unlink(sha, true) && UnlinkAll(order)[1..] == UnlinkAll(order[1..]);
    }
  }

  /** Below the watermark or without its blob: no later sync can upload it as things stand. */
  ghost predicate Lost(d: Disk, l: ArtifactLine) {
    l.offset < d.watermark || l.record.sha !in d.blobs
  }

  /** Harm is real: a sync that from its clean-up on succeeds in everything, in whatever order it
      unlinks, loses exactly the waiting records that are not spared by then. */
  lemma SyncLosesTheUnspared(parse: Parser<Artifact>, s: State, order: seq<string>, l: ArtifactLine)
    requires Sound(parse, s) && s.phase.Cleaning? && Waiting(s.disk, Whole(parse, s.disk.spool), l)
    requires Distinct(order) && forall sha :: sha in order <==> sha in s.phase.todo
    requires s.disk.watermark <= l.offset
    ensures var end := Run(parse, s, UnlinkAll(order) + [WriteIds(true), Commit(true)]);
            && Waiting(end.disk, Whole(parse, end.disk.spool), l)
            && (Lost(end.disk, l) <==> !Spared(s.disk, s.phase, l))
  {
    RunSplits(parse, s, UnlinkAll(order), [WriteIds(true), Commit(true)]);
    UnlinksAll(parse, s, order);
    var cleaned := State(s.disk.(blobs := s.disk.blobs - s.phase.todo), s.phase.(todo := {}));
    LastSteps(parse, cleaned);
  }

  lemma LastSteps(parse: Parser<Artifact>, s: State)
    requires s.phase.Cleaning?
    ensures Run(parse, s, [WriteIds(true), Commit(true)])
         == State(s.disk.(uploadedIds := Kept(s.phase.c.window, s.phase.p), watermark := s.phase.p.offset), Idle)
  {
    var steps := [WriteIds(true), Commit(true)];
    assert steps[1..] == [Commit(true)] && steps[1..][1..] == [];
    var written := Apply(parse, s, WriteIds(true));
    assert Run(parse, s, steps) == Run(parse, written, [Commit(true)]);
    assert Run(parse, written, [Commit(true)]) == Run(parse, Apply(parse, written, Commit(true)), []);
  }

  /** A record reported missing was uploaded or dropped before, or its blob is on disk and failed
      to read. */
  lemma MissingIsDoneOrUnread(parse: Parser<Artifact>, s: State, env: Env, l: ArtifactLine)
    requires Sound(parse, s) && Unharmed(parse, s) && Allowed(parse, s, Upload(env)) && l in s.phase.c.window
    requires l.record.id in PassOver(s.phase.c.window, env, s.phase.c.consumed).missing
    ensures Done(s.disk, l.record.id) || (l.record.sha in s.disk.blobs && Unread(l.record, env))
  {
    var window := s.phase.c.window;
    WindowIsDistinct(Whole(parse, s.disk.spool), s.disk.spool, s.disk.watermark, s.phase.c);
    var i :| 0 <= i < |window| && window[i] == l;
    MissingExactly(window, env, s.phase.c.consumed, i);
    assert Waiting(s.disk, Whole(parse, s.disk.spool), l) ==> Spared(s.disk, s.phase, l);
  }

  // ----- a record without its blob -----

  /** A pass finds only blobs that are on disk, and nobody parks `sha`. */
  ghost predicate Without(s: State, step: Step, sha: string) {
    match step
    case Park(other) => other != sha
    case Upload(env) => s.phase.Planned? ==> FindsOnDisk(s, env)
    case DieUploading(env, _) => s.phase.Planned? ==> FindsOnDisk(s, env)
    case _ => true
  }

  ghost predicate FindsOnDisk(s: State, env: Env)
    requires s.phase.Planned?
  {
    forall l :: l in s.phase.c.window && l.record.id in env.found ==> l.record.sha in s.disk.blobs
  }

  ghost predicate RunWithout(parse: Parser<Artifact>, s: State, steps: seq<Step>, sha: string)
    decreases |steps|
  {
    steps == [] || (Without(s, steps[0], sha) && RunWithout(parse, Apply(parse, s, steps[0]), steps[1..], sha))
  }

  lemma StepSendsNoBlobless(parse: Parser<Artifact>, s: State, step: Step, l: ArtifactLine)
    requires Sound(parse, s) && Allowed(parse, s, step) && Without(s, step, l.record.sha)
    requires Waiting(s.disk, Whole(parse, s.disk.spool), l) && l.record.sha !in s.disk.blobs
    ensures var s' := Apply(parse, s, step);
            Waiting(s'.disk, Whole(parse, s'.disk.spool), l) && l.record.sha !in s'.disk.blobs
  {
    match step {
      case Append(line) => AppendedLines(parse, s, line);
      case Upload(env) => PassSendsNoBlobless(parse, s, env, s.phase.c.window, l);
      case DieUploading(env, count) => PassSendsNoBlobless(parse, s, env, s.phase.c.window[..count], l);
      case _ =>
    }
  }

  lemma PassSendsNoBlobless(parse: Parser<Artifact>, s: State, env: Env, part: seq<ArtifactLine>, l: ArtifactLine)
    requires Sound(parse, s) && s.phase.Planned? && FindsOnDisk(s, env) && part <= s.phase.c.window
    requires l in Whole(parse, s.disk.spool) && l.record.sha !in s.disk.blobs
    ensures l.record.id !in PassOver(part, env, s.phase.c.consumed).sent
    ensures l.record.id !in PassOver(part, env, s.phase.c.consumed).dropped
  {
    var lines, c := Whole(parse, s.disk.spool), s.phase.c;
    WindowIsDistinct(lines, s.disk.spool, s.disk.watermark, c);
    FinishedWereFound(part, env, c.consumed);
    SendsFreshIds(part, env, c.consumed);
    DropsOnlyTheDead(part, env, c.consumed);
    assert forall m :: m in part ==> m in c.window && m in lines;
  }

  /** A record whose blob is gone is uploaded by no later sync, over every run in which nobody parks
      the same bytes again. */
  lemma {:induction false} BlobGoneIsNeverSent(parse: Parser<Artifact>, s: State, steps: seq<Step>, l: ArtifactLine)
    requires Sound(parse, s) && RunAllowed(parse, s, steps) && RunWithout(parse, s, steps, l.record.sha)
    requires Waiting(s.disk, Whole(parse, s.disk.spool), l) && l.record.sha !in s.disk.blobs
    ensures var end := Run(parse, s, steps).disk;
            l in Whole(parse, end.spool) && l.record.id !in end.sent && l.record.id !in end.dropped
    decreases |steps|
  {
    if steps != [] {
      StepKeepsSound(parse, s, steps[0]);
      StepSendsNoBlobless(parse, s, steps[0], l);
      BlobGoneIsNeverSent(parse, Apply(parse, s, steps[0]), steps[1..], l);
    }
  }

  /** And a pass that comes to it with nothing stopping the watermark before it reports it missing
      and passes it. */
  lemma BlobGoneIsPassed(parse: Parser<Artifact>, s: State, env: Env, i: nat)
    requires Sound(parse, s) && Allowed(parse, s, Upload(env)) && FindsOnDisk(s, env) && i < |s.phase.c.window|
    requires var l := s.phase.c.window[i]; l.record.sha !in s.disk.blobs && !Done(s.disk, l.record.id)
    requires forall k :: 0 <= k < i ==> !Stops(s.phase.c.window[k].record, env)
    ensures var l, p := s.phase.c.window[i], PassOver(s.phase.c.window, env, s.phase.c.consumed);
            l.record.id in p.missing && l.offset < p.offset
  {
    WindowIsDistinct(Whole(parse, s.disk.spool), s.disk.spool, s.disk.watermark, s.phase.c);
    assert s.phase.c.window[i] in s.phase.c.window;
    UnreadIsMissing(s.phase.c.window, env, s.phase.c.consumed, i);
  }

  lemma UnreadIsMissing(window: seq<ArtifactLine>, env: Env, cap: nat, i: nat)
    requires DistinctIds(window) && Ordered(window) && (forall l :: l in window ==> l.offset < cap)
    requires i < |window| && Unread(window[i].record, env) && forall k :: 0 <= k < i ==> !Stops(window[k].record, env)
    ensures window[i].record.id in PassOver(window, env, cap).missing && window[i].offset < PassOver(window, env, cap).offset
  {
    MissingExactly(window, env, cap, i);
    OffsetExactly(window, env, cap, i);
  }
}

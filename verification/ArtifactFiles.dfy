/**
 * The artifact sync as the code runs it over the spool files, with emits of other processes in
 * between any two of its steps.
 */
module ArtifactFiles {
  import opened Common
  import opened Spool
  import opened ArtifactUpload
  import opened ArtifactSync

  // ----- runs of two processes -----

  /** The steps of an emit. They touch the files and leave a running sync where it is. */
  predicate OfEmit(step: Step) {
    step.Park? || step.Append? || step.Undo?
  }

  /** The sync's own steps of a run, in order. */
  function Own(steps: seq<Step>): seq<Step> {
    if steps == [] then []
    else (if OfEmit(steps[0]) then [] else [steps[0]]) + Own(steps[1..])
  }

  function Unlinks(order: seq<string>, stuck: set<string>): seq<Step> {
    if order == [] then []
    else Unlinks(order[..|order| - 1], stuck) + [Unlink(order[|order| - 1], order[|order| - 1] !in stuck)]
  }

  lemma {:induction false} OwnSplits(a: seq<Step>, b: seq<Step>)
    ensures Own(a + b) == Own(a) + Own(b)
  {
    if a == [] {
      assert a + b == b;
    } else {
      assert (a + b)[1..] == a[1..] + b && (a + b)[0] == a[0];
      OwnSplits(a[1..], b);
    }
  }

  lemma {:induction false} EmitsOwnNothing(steps: seq<Step>)
    requires forall step :: step in steps ==> OfEmit(step)
    ensures Own(steps) == []
  {
    if steps != [] {
      EmitsOwnNothing(steps[1..]);
    }
  }

  /** Each emit of the run is allowed when it is taken. */
  ghost predicate EmitsAllowed(parse: Parser<Artifact>, s: State, steps: seq<Step>)
    decreases |steps|
  {
    steps == [] ||
    ((OfEmit(steps[0]) ==> Allowed(parse, s, steps[0])) && EmitsAllowed(parse, Apply(parse, s, steps[0]), steps[1..]))
  }

  /** The sync's own steps are all allowed: the run is if its emits are. */
  ghost predicate OwnAllowed(parse: Parser<Artifact>, s: State, steps: seq<Step>) {
    EmitsAllowed(parse, s, steps) ==> RunAllowed(parse, s, steps)
  }

  lemma {:induction false} AllowedSplits(parse: Parser<Artifact>, s: State, first: seq<Step>, rest: seq<Step>)
    ensures EmitsAllowed(parse, s, first + rest) <==>
              EmitsAllowed(parse, s, first) && EmitsAllowed(parse, Run(parse, s, first), rest)
    ensures RunAllowed(parse, s, first + rest) <==>
              RunAllowed(parse, s, first) && RunAllowed(parse, Run(parse, s, first), rest)
    decreases |first|
  {
    if first == [] {
      assert first + rest == rest;
    } else {
      assert (first + rest)[0] == first[0] && (first + rest)[1..] == first[1..] + rest;
      AllowedSplits(parse, Apply(parse, s, first[0]), first[1..], rest);
    }
  }

  /** Emits leave the sync, the id set and the watermark alone. */
  lemma {:induction false} EmitsKeep(parse: Parser<Artifact>, s: State, gap: seq<Step>)
    requires forall e :: e in gap ==> OfEmit(e)
    ensures var end := Run(parse, s, gap);
            end.phase == s.phase && end.disk.uploadedIds == s.disk.uploadedIds && end.disk.watermark == s.disk.watermark
    ensures OwnAllowed(parse, s, gap)
    decreases |gap|
  {
    if gap != [] {
      assert gap[0] in gap && forall e :: e in gap[1..] ==> e in gap;
      EmitsKeep(parse, Apply(parse, s, gap[0]), gap[1..]);
    }
  }

  /** Emits and then one step of the sync. */
  lemma {:induction false} GapThenStep(parse: Parser<Artifact>, s: State, gap: seq<Step>, step: Step)
    requires (forall e :: e in gap ==> OfEmit(e)) && !OfEmit(step)
    requires Allowed(parse, Run(parse, s, gap), step)
    ensures Run(parse, s, gap + [step]) == Apply(parse, Run(parse, s, gap), step)
    ensures Own(gap + [step]) == [step]
    ensures OwnAllowed(parse, s, gap + [step])
  {
    RunSplits(parse, s, gap, [step]);
    AllowedSplits(parse, s, gap, [step]);
    EmitsKeep(parse, s, gap);
    var before := Run(parse, s, gap);
    assert Run(parse, before, [step]) == Run(parse, Apply(parse, before, step), []);
    assert RunAllowed(parse, Apply(parse, before, step), []);
    assert [step][1..] == [];
    OwnSplits(gap, [step]);
    EmitsOwnNothing(gap);
    assert Own([step]) == [step] + Own([]);
  }

  /** Two runs, one after the other. */
  lemma {:induction false} RunsOn(parse: Parser<Artifact>, s: State, first: seq<Step>, rest: seq<Step>)
    requires OwnAllowed(parse, s, first) && OwnAllowed(parse, Run(parse, s, first), rest)
    ensures Run(parse, s, first + rest) == Run(parse, Run(parse, s, first), rest)
    ensures Own(first + rest) == Own(first) + Own(rest)
    ensures OwnAllowed(parse, s, first + rest)
  {
    RunSplits(parse, s, first, rest);
    AllowedSplits(parse, s, first, rest);
    OwnSplits(first, rest);
  }

  method KeepIds(lines: seq<ArtifactLine>, p: Pass) returns (keep: set<string>)
    ensures keep == Kept(lines, p)
  {
    keep := {};
    for i := 0 to |lines|
      invariant keep == Kept(lines[..i], p)
    {
      var l := lines[i];
      assert lines[..i + 1] == lines[..i] + [l];
      if l.offset >= p.offset && l.record.id in p.uploadedIds {
        keep := keep + {l.record.id};
      }
    }
    assert lines[..|lines|] == lines;
  }

  /** What other processes do while a sync runs: before its uploads, before its late read, before it
      unlinks each blob, and before each of its last two writes. */
  datatype Gaps = Gaps(upload: seq<Step>, late: seq<Step>, unlink: string -> seq<Step>, ids: seq<Step>, commit: seq<Step>)

  ghost predicate EmitsOnly(g: Gaps) {
    forall e :: (e in g.upload || e in g.late || e in g.ids || e in g.commit || exists sha :: e in g.unlink(sha)) ==> OfEmit(e)
  }

  /** What fails in a sync from its uploads on; `unread` holds the ids of the records whose blob is
      there but fails to read. */
  datatype Luck = Luck(idsRead: bool, unread: set<string>, lateRead: bool, stuck: set<string>, idsWritten: bool, committed: bool)

  /** The records whose blob is on disk and reads. */
  function FoundIn(window: seq<ArtifactLine>, blobs: set<string>, unread: set<string>): set<string> {
    set l | l in window && l.record.sha in blobs && l.record.id !in unread :: l.record.id
  }

  /** A sync's steps from its late read to its id set. */
  function CleanSteps(order: seq<string>, luck: Luck): seq<Step> {
    [ReadLate(luck.lateRead)] + Unlinks(order, luck.stuck) + [WriteIds(luck.idsWritten)]
  }

  ghost predicate Enumerates(order: seq<string>, all: set<string>) {
    Distinct(order) && forall sha :: sha in order <==> sha in all
  }

  lemma {:induction false} OneMoreUnlink(order: seq<string>, sha: string, stuck: set<string>, all: set<string>, todo: set<string>)
    requires Enumerates(order, all - todo) && sha in todo && todo <= all
    ensures Unlinks(order + [sha], stuck) == Unlinks(order, stuck) + [Unlink(sha, sha !in stuck)]
    ensures Enumerates(order + [sha], all - (todo - {sha}))
  {
    assert (order + [sha])[..|order|] == order;
  }

  /** The spool directory. A missing spool file reads as empty; a missing or unreadable watermark
      reads as 0 and a missing id set as empty. */
  class Files {
    var spool: Option<seq<byte>>
    var watermark: Option<int>
    var uploadedIds: set<string>
    var blobs: set<string>
    ghost var sent: seq<string>
    ghost var dropped: set<string>

    constructor ()
      ensures Disk() == EMPTY.disk
    {
      spool, watermark, uploadedIds, blobs, sent, dropped := None, None, {}, {}, [], {};
    }

    function ReadWatermark(): nat
      reads this
    {
      if watermark.Some? && watermark.value >= 0 then watermark.value else 0
    }

    ghost function Disk(): Disk
      reads this
    {
      ArtifactSync.Disk(spool.GetOr([]), ReadWatermark(), uploadedIds, blobs, sent, dropped)
    }

    /** An emit: the bytes are parked by their sha unless they are there, then the record is
        appended; when that fails, a blob this emit parked is taken back. */
    method Emit(parse: Parser<Artifact>, sha: string, line: seq<byte>, appended: bool, ghost phase: Phase)
      modifies this`spool, this`blobs
      ensures var start := State(old(Disk()), phase);
              State(Disk(), phase) ==
                if appended then Apply(parse, Apply(parse, start, Park(sha)), ArtifactSync.Append(line))
                else if sha in start.disk.blobs then start
                else Apply(parse, Apply(parse, start, Park(sha)), Undo(sha))
    {
      var existed := sha in blobs;
      assert existed ==> blobs + {sha} == blobs;
      if !existed {
        blobs := blobs + {sha};
      }
      if appended {
        spool := Some(spool.GetOr([]) + line + [NEWLINE]);
      } else if !existed {
        blobs := blobs - {sha};
      }
    }

    /** The writes of other processes, one at a time. */
    method Others(parse: Parser<Artifact>, emits: seq<Step>, ghost phase: Phase)
      requires forall step :: step in emits ==> OfEmit(step)
      modifies this`spool, this`blobs
      ensures State(Disk(), phase) == Run(parse, State(old(Disk()), phase), emits)
    {
      for i := 0 to |emits|
        invariant State(Disk(), phase) == Run(parse, State(old(Disk()), phase), emits[..i])
        invariant watermark == old(watermark) && uploadedIds == old(uploadedIds)
      {
        assert emits[i] in emits && emits[..i + 1] == emits[..i] + [emits[i]];
        ghost var before := Run(parse, State(old(Disk()), phase), emits[..i]);
        RunSplits(parse, State(old(Disk()), phase), emits[..i], [emits[i]]);
        assert Run(parse, before, [emits[i]]) == Run(parse, Apply(parse, before, emits[i]), []);
        match emits[i] {
          case Park(sha) => blobs := blobs + {sha};
          case Append(line) => spool := Some(spool.GetOr([]) + line + [NEWLINE]);
          case Undo(sha) => blobs := blobs - {sha};
        }
      }
      assert emits[..|emits|] == emits;
    }

    /** The plan. A spool file that is not there reads as one that cannot be read. */
    method PlanUpload(parse: Parser<Artifact>, watermarkRead: bool, spoolRead: bool) returns (c: Chunk)
      ensures State(Disk(), Planned(c))
           == Apply(parse, State(Disk(), Idle), ArtifactSync.Plan(watermarkRead, spoolRead && spool.Some?))
    {
      var from := if watermarkRead then ReadWatermark() else 0;
      var lines, length := ReadLinesSince(parse, if spoolRead then spool else None, from);
      c := Chunk(lines, from, length);
    }

    /** The late read: the blobs to unlink. */
    method FindDoomed(parse: Parser<Artifact>, c: Chunk, p: Pass, spoolRead: bool) returns (todo: set<string>)
      ensures todo == Doomed(parse, Disk().spool, c, p, spoolRead)
    {
      var lateLines, _ := ReadLinesSince(parse, if spoolRead then spool else None, c.consumed);
      todo := Removable(p, Shas(lateLines));
    }

    /** The clean-up loop; a blob in `stuck` fails to unlink and stays. */
    method CleanUp(parse: Parser<Artifact>, c: Chunk, p: Pass, all: set<string>, stuck: set<string>, g: Gaps)
      returns (ghost order: seq<string>, ghost steps: seq<Step>)
      requires EmitsOnly(g)
      modifies this`spool, this`blobs
      ensures var start := State(old(Disk()), Cleaning(c, p, all));
              State(Disk(), Cleaning(c, p, {})) == Run(parse, start, steps) && OwnAllowed(parse, start, steps)
      ensures Own(steps) == Unlinks(order, stuck)
      ensures Enumerates(order, all)
    {
      ghost var start := State(Disk(), Cleaning(c, p, all));
      var todo := all;
      order, steps := [], [];
      while todo != {}
        invariant todo <= all && Enumerates(order, all - todo)
        invariant State(Disk(), Cleaning(c, p, todo)) == Run(parse, start, steps) && OwnAllowed(parse, start, steps)
        invariant Own(steps) == Unlinks(order, stuck)
        invariant watermark == old(watermark) && uploadedIds == old(uploadedIds)
        decreases todo
      {
        var sha :| sha in todo;
        ghost var one := UnlinkOne(parse, c, p, todo, sha, stuck, g);
        RunsOn(parse, start, steps, one);
        OneMoreUnlink(order, sha, stuck, all, todo);
        todo := todo - {sha};
        order, steps := order + [sha], steps + one;
      }
    }

    method UnlinkOne(parse: Parser<Artifact>, c: Chunk, p: Pass, todo: set<string>, sha: string, stuck: set<string>, g: Gaps)
      returns (ghost steps: seq<Step>)
      requires EmitsOnly(g) && sha in todo
      modifies this`spool, this`blobs
      ensures var start := State(old(Disk()), Cleaning(c, p, todo));
              State(Disk(), Cleaning(c, p, todo - {sha})) == Run(parse, start, steps) && OwnAllowed(parse, start, steps)
      ensures Own(steps) == [Unlink(sha, sha !in stuck)]
    {
      ghost var start := State(Disk(), Cleaning(c, p, todo));
      EmitsKeep(parse, start, g.unlink(sha));
      GapThenStep(parse, start, g.unlink(sha), Unlink(sha, sha !in stuck));
      Others(parse, g.unlink(sha), Cleaning(c, p, todo));
      if sha !in stuck {
        blobs := blobs - {sha};
      }
      steps := g.unlink(sha) + [Unlink(sha, sha !in stuck)];
    }

    /** From the end of the uploads to the id set on disk. */
    method CleanAndRemember(parse: Parser<Artifact>, c: Chunk, p: Pass, luck: Luck, g: Gaps)
      returns (ghost order: seq<string>, ghost steps: seq<Step>)
      requires EmitsOnly(g)
      modifies this`spool, this`blobs, this`uploadedIds
      ensures var start := State(old(Disk()), Passed(c, p));
              State(Disk(), Writing(c, p)) == Run(parse, start, steps) && OwnAllowed(parse, start, steps)
      ensures Own(steps) == CleanSteps(order, luck)
    {
      ghost var start := State(Disk(), Passed(c, p));
      var todo;
      todo, steps := ReadLateSpool(parse, c, p, luck.lateRead, g);
      ghost var unlinking;
      order, unlinking := CleanUp(parse, c, p, todo, luck.stuck, g);
      RunsOn(parse, start, steps, unlinking);
      steps := steps + unlinking;
      ghost var last := RememberIds(parse, c, p, luck.idsWritten, g);
      RunsOn(parse, start, steps, last);
      steps := steps + last;
    }

    method ReadLateSpool(parse: Parser<Artifact>, c: Chunk, p: Pass, lateRead: bool, g: Gaps)
      returns (todo: set<string>, ghost steps: seq<Step>)
      requires EmitsOnly(g)
      modifies this`spool, this`blobs
      ensures var start := State(old(Disk()), Passed(c, p));
              State(Disk(), Cleaning(c, p, todo)) == Run(parse, start, steps) && OwnAllowed(parse, start, steps)
      ensures Own(steps) == [ReadLate(lateRead)]
    {
      EmitsKeep(parse, State(Disk(), Passed(c, p)), g.late);
      GapThenStep(parse, State(Disk(), Passed(c, p)), g.late, ReadLate(lateRead));
      Others(parse, g.late, Passed(c, p));
      todo := FindDoomed(parse, c, p, lateRead);
      steps := g.late + [ReadLate(lateRead)];
    }

    method RememberIds(parse: Parser<Artifact>, c: Chunk, p: Pass, written: bool, g: Gaps) returns (ghost steps: seq<Step>)
      requires EmitsOnly(g)
      modifies this`spool, this`blobs, this`uploadedIds
      ensures var start := State(old(Disk()), Cleaning(c, p, {}));
              State(Disk(), Writing(c, p)) == Run(parse, start, steps) && OwnAllowed(parse, start, steps)
      ensures Own(steps) == [WriteIds(written)]
    {
      EmitsKeep(parse, State(Disk(), Cleaning(c, p, {})), g.ids);
      GapThenStep(parse, State(Disk(), Cleaning(c, p, {})), g.ids, WriteIds(written));
      Others(parse, g.ids, Cleaning(c, p, {}));
      var keep := KeepIds(c.window, p);
      if written {
        uploadedIds := keep;
      }
      steps := g.ids + [WriteIds(written)];
    }

    /** The upload loop: it reads the id set and, record by record, the blobs that are on disk. */
    method UploadPending(parse: Parser<Artifact>, c: Chunk, nowMs: int, answer: string -> Response, luck: Luck, g: Gaps)
      returns (p: Pass, ghost env: Env, ghost steps: seq<Step>)
      requires EmitsOnly(g)
      modifies this`spool, this`blobs, this`sent, this`dropped
      ensures p == PassOver(c.window, env, c.consumed)
      ensures var start := State(old(Disk()), Planned(c));
              && State(Disk(), if c.window == [] then Writing(c, p) else Passed(c, p)) == Run(parse, start, steps)
              && OwnAllowed(parse, start, steps)
              && env == Env(nowMs, if luck.idsRead then old(uploadedIds) else {},
                            FoundIn(c.window, Run(parse, start, g.upload).disk.blobs, luck.unread), answer)
      ensures Own(steps) == [Upload(env)]
    {
      ghost var start := State(Disk(), Planned(c));
      EmitsKeep(parse, start, g.upload);
      Others(parse, g.upload, Planned(c));
      var previously: set<string> := if luck.idsRead then uploadedIds else {};
      var reading := Env(nowMs, previously, FoundIn(c.window, blobs, luck.unread), answer);
      env := reading;
      GapThenStep(parse, start, g.upload, Upload(env));
      p := UploadAll(c.window, reading, c.consumed);
      sent, dropped := sent + p.sent, dropped + p.dropped;
      steps := g.upload + [Upload(env)];
    }

    method CommitOffset(parse: Parser<Artifact>, c: Chunk, p: Pass, committed: bool, g: Gaps) returns (ghost steps: seq<Step>)
      requires EmitsOnly(g)
      modifies this`spool, this`blobs, this`watermark
      ensures var start := State(old(Disk()), Writing(c, p));
              State(Disk(), Idle) == Run(parse, start, steps) && OwnAllowed(parse, start, steps)
      ensures Own(steps) == [Commit(committed)]
    {
      EmitsKeep(parse, State(Disk(), Writing(c, p)), g.commit);
      GapThenStep(parse, State(Disk(), Writing(c, p)), g.commit, Commit(committed));
      Others(parse, g.commit, Writing(c, p));
      if committed {
        watermark := Some(p.offset);
      }
      steps := g.commit + [Commit(committed)];
    }

    /** The rest of a sync over what it planned. It is a run of the protocol: its own steps in order,
        emits between any two of them, all allowed when the emits are, and the pass finds just the
        blobs that are on disk by then and read. */
    method FinishSync(parse: Parser<Artifact>, c: Chunk, nowMs: int, answer: string -> Response, luck: Luck, g: Gaps)
      returns (ghost env: Env, ghost order: seq<string>, ghost steps: seq<Step>)
      requires EmitsOnly(g)
      modifies this
      ensures var start := State(old(Disk()), Planned(c));
              && State(Disk(), Idle) == Run(parse, start, steps)
              && OwnAllowed(parse, start, steps)
              && env == Env(nowMs, if luck.idsRead then old(uploadedIds) else {},
                            FoundIn(c.window, Run(parse, start, g.upload).disk.blobs, luck.unread), answer)
      ensures Own(steps) == [Upload(env)] + (if c.window == [] then [] else CleanSteps(order, luck)) + [Commit(luck.committed)]
    {
      ghost var start := State(Disk(), Planned(c));
      ghost var cleaning: seq<Step> := [];
      var p;
      p, env, steps := UploadPending(parse, c, nowMs, answer, luck, g);
      order := [];
      if |c.window| > 0 {
        order, cleaning := CleanAndRemember(parse, c, p, luck, g);
      }
      ghost var last := CommitOffset(parse, c, p, luck.committed, g);
      RunsOn(parse, start, steps, cleaning);
      RunsOn(parse, start, steps + cleaning, last);
      steps := steps + cleaning + last;
    }
  }
}

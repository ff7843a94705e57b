/**
 * When a sync of packages/cli/src/sync-cmd.ts moves the upload watermark back: exactly when it could
 * not read it and its pass then stops below where it stood.
 */
module ArtifactForward {
  import opened Common
  import opened Spool
  import opened ArtifactUpload
  import opened ArtifactSync

  /** The running sync will not commit a smaller offset than the watermark on disk. */
  ghost predicate GoesForward(s: State) {
    !s.phase.Idle? && !s.phase.Planned? ==> s.disk.watermark <= s.phase.p.offset
  }

  /** The pass will stop below the watermark: the sync's read ended below it, or a record it read
      below it is answered 401 or fails for now. */
  ghost predicate Retreats(s: State, env: Env)
    requires s.phase.Planned?
  {
    || s.phase.c.consumed < s.disk.watermark
    || exists i :: 0 <= i < |s.phase.c.window| && s.phase.c.window[i].offset < s.disk.watermark
                   && Stops(s.phase.c.window[i].record, env)
  }

  lemma RetreatsExactly(parse: Parser<Artifact>, s: State, env: Env)
    requires Sound(parse, s) && Allowed(parse, s, Upload(env))
    ensures PassOver(s.phase.c.window, env, s.phase.c.consumed).offset < s.disk.watermark <==> Retreats(s, env)
  {
    StopsBelowExactly(s.phase.c.window, env, s.phase.c.consumed, s.disk.watermark);
  }

  /** The offset a sync goes on to commit lies below the watermark exactly when it could not read the
      watermark, which is positive, and either could not read the spool or some record below the
      watermark is answered 401 or fails for now. */
  lemma PlanRetreatsExactly(parse: Parser<Artifact>, s: State, watermarkRead: bool, spoolRead: bool, env: Env)
    requires Sound(parse, s) && s.phase.Idle? && ReadsIds(s.disk, env)
    ensures var planned := Apply(parse, s, Plan(watermarkRead, spoolRead));
            var c := planned.phase.c;
            PassOver(c.window, env, c.consumed).offset < s.disk.watermark <==>
              !watermarkRead && s.disk.watermark > 0
              && (!spoolRead
                  || exists l :: l in Whole(parse, s.disk.spool) && l.offset < s.disk.watermark && Stops(l.record, env))
  {
    var planned := Apply(parse, s, Plan(watermarkRead, spoolRead));
    var window, lines := planned.phase.c.window, Whole(parse, s.disk.spool);
    PlanKeepsSound(parse, s, watermarkRead, spoolRead);
    RetreatsExactly(parse, planned, env);
    if spoolRead {
      forall i | 0 <= i < |window| ensures window[i] in lines && planned.phase.c.from <= window[i].offset {
        assert window[i] in window;
      }
      forall l | l in lines && planned.phase.c.from <= l.offset ensures exists i :: 0 <= i < |window| && window[i] == l {
        LinesAreOrdered(parse, s.disk.spool, 0);
        assert l in window;
      }
    }
  }

  /** A step of a sync that moves forward keeps doing so unless its pass retreats. */
  lemma StepRetreatsExactly(parse: Parser<Artifact>, s: State, step: Step)
    requires Sound(parse, s) && GoesForward(s) && Allowed(parse, s, step)
    ensures GoesForward(Apply(parse, s, step)) <==> (step.Upload? ==> !Retreats(s, step.env))
    ensures s.disk.watermark <= Apply(parse, s, step).disk.watermark
  {
    if step.Upload? {
      RetreatsExactly(parse, s, step.env);
    }
  }

  ghost predicate ForwardAllAlong(parse: Parser<Artifact>, s: State, steps: seq<Step>)
    decreases |steps|
  {
    GoesForward(s) && (steps == [] || ForwardAllAlong(parse, Apply(parse, s, steps[0]), steps[1..]))
  }

  ghost predicate NeverRetreats(parse: Parser<Artifact>, s: State, steps: seq<Step>)
    decreases |steps|
  {
    steps == [] ||
    ((steps[0].Upload? && s.phase.Planned? ==> !Retreats(s, steps[0].env))
     && NeverRetreats(parse, Apply(parse, s, steps[0]), steps[1..]))
  }

  /** Over every run no sync sets out to move the watermark back exactly when no pass retreats, and
      then it never goes back. */
  lemma {:induction false} RunsGoForwardExactly(parse: Parser<Artifact>, s: State, steps: seq<Step>)
    requires Sound(parse, s) && GoesForward(s) && RunAllowed(parse, s, steps)
    ensures ForwardAllAlong(parse, s, steps) <==> NeverRetreats(parse, s, steps)
    ensures NeverRetreats(parse, s, steps) ==> s.disk.watermark <= Run(parse, s, steps).disk.watermark
    decreases |steps|
  {
    if steps != [] {
      var next := Apply(parse, s, steps[0]);
      StepKeepsSound(parse, s, steps[0]);
      StepRetreatsExactly(parse, s, steps[0]);
      if GoesForward(next) {
        RunsGoForwardExactly(parse, next, steps[1..]);
      } else {
        assert !ForwardAllAlong(parse, next, steps[1..]);
      }
    }
  }

  ghost predicate ReadsWatermark(steps: seq<Step>) {
    forall step :: step in steps && step.Plan? ==> step.watermarkRead
  }

  /** In particular it never goes back over a run whose watermark reads work. */
  lemma {:induction false} RunsGoForward(parse: Parser<Artifact>, s: State, steps: seq<Step>)
    requires Sound(parse, s) && GoesForward(s) && RunAllowed(parse, s, steps) && ReadsWatermark(steps)
    requires s.phase.Planned? ==> s.phase.c.from == s.disk.watermark
    ensures NeverRetreats(parse, s, steps) && s.disk.watermark <= Run(parse, s, steps).disk.watermark
    decreases |steps|
  {
    if steps != [] {
      StepKeepsSound(parse, s, steps[0]);
      StepRetreatsExactly(parse, s, steps[0]);
      if steps[0].Upload? {
        assert forall i :: 0 <= i < |s.phase.c.window| ==> s.phase.c.window[i] in s.phase.c.window;
      }
      assert forall step :: step in steps[1..] ==> step in steps;
      RunsGoForward(parse, Apply(parse, s, steps[0]), steps[1..]);
    }
  }

  /** When it cannot be read it counts as 0, and a sync that cannot read the spool either then
      writes that 0. */
  lemma UnreadWatermarkGoesBack(parse: Parser<Artifact>, d: Disk, env: Env)
    ensures Run(parse, State(d, Idle), [Plan(false, false), Upload(env), Commit(true)])
         == State(d.(watermark := 0), Idle)
  {
    var c, p := Chunk([], 0, 0), PassOver([], env, 0);
    var planned := State(d, Planned(c));
    assert Apply(parse, State(d, Idle), Plan(false, false)) == planned;
    assert Apply(parse, planned, Upload(env)) == State(d, Writing(c, p)) by {
      assert d.sent + [] == d.sent && d.dropped + {} == d.dropped;
    }
    assert Apply(parse, State(d, Writing(c, p)), Commit(true)) == State(d.(watermark := 0), Idle);
    var steps := [Plan(false, false), Upload(env), Commit(true)];
    var last := [Commit(true)];
    assert steps[1..] == [Upload(env), Commit(true)] && steps[1..][1..] == last && last[1..] == [];
    assert Run(parse, State(d, Writing(c, p)), last) == Run(parse, State(d.(watermark := 0), Idle), []);
    assert Run(parse, planned, steps[1..]) == Run(parse, State(d, Writing(c, p)), last);
  }
}

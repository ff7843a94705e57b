/**
 * When a sync of the hook spool moves its watermark back: only after a failed read, and exactly when.
 */
module HookForward {
  import opened Common
  import opened Spool
  import opened HookExec
  import opened HookPlan
  import opened HookSync

  /** A step that moves the watermark back: a sync commits although it holds a group that starts
      below the watermark, or one that can read neither file writes back 0. */
  ghost predicate Retreats(parse: Parser<SpoolValue>, s: State, step: Step) {
    match step
    case Finish(merged, commit) =>
      s.pending.Some? && commit.Some?
      && var window := Window(parse, AsPlanned(s));
         exists id :: id in Held(window, s.pending.value.q, merged) && OffsetOf(window, id) < s.disk.watermark
    case Blind(watermarkRead) => !watermarkRead && s.disk.watermark > 0
    case _ => false
  }

  lemma StepRetreatsExactly(parse: Parser<SpoolValue>, s: State, step: Step)
    requires Inv(parse, s) && Allowed(parse, s, step)
    ensures Apply(parse, s, step).disk.watermark < s.disk.watermark <==> Retreats(parse, s, step)
  {}

  /** A held group starts below the watermark only when the watermark was not read. */
  lemma RetreatNeedsFailedRead(parse: Parser<SpoolValue>, s: State, step: Step)
    requires Inv(parse, s) && Allowed(parse, s, step) && Retreats(parse, s, step)
    ensures if step.Finish? then s.pending.value.from < s.disk.watermark else step.Blind? && !step.watermarkRead
  {
    if step.Finish? {
      FinishKeepsGood(parse, s, step.merged, step.commit);
      StepRetreatsExactly(parse, s, step);
    }
  }

  ghost predicate NeverRetreats(parse: Parser<SpoolValue>, s: State, steps: seq<Step>)
    decreases |steps|
  {
    steps == [] || (!Retreats(parse, s, steps[0]) && NeverRetreats(parse, Apply(parse, s, steps[0]), steps[1..]))
  }

  ghost predicate ForwardAllAlong(parse: Parser<SpoolValue>, s: State, steps: seq<Step>)
    decreases |steps|
  {
    steps == [] ||
    (s.disk.watermark <= Apply(parse, s, steps[0]).disk.watermark
     && ForwardAllAlong(parse, Apply(parse, s, steps[0]), steps[1..]))
  }

  /** Over every run the watermark never moves back exactly when no step is such a retreat. */
  lemma {:induction false} RunsGoForwardExactly(parse: Parser<SpoolValue>, s: State, steps: seq<Step>)
    requires Inv(parse, s) && RunAllowed(parse, s, steps)
    ensures ForwardAllAlong(parse, s, steps) <==> NeverRetreats(parse, s, steps)
    decreases |steps|
  {
    if steps != [] {
      StepKeepsInv(parse, s, steps[0]);
      StepRetreatsExactly(parse, s, steps[0]);
      RunsGoForwardExactly(parse, Apply(parse, s, steps[0]), steps[1..]);
    }
  }

  lemma StepGoesForward(parse: Parser<SpoolValue>, s: State, step: Step)
    requires Inv(parse, s) && ReadCurrent(s) && Allowed(parse, s, step)
    requires step.Plan? || step.Blind? ==> step.watermarkRead
    ensures s.disk.watermark <= Apply(parse, s, step).disk.watermark && ReadCurrent(Apply(parse, s, step))
  {
    StepRetreatsExactly(parse, s, step);
    if Retreats(parse, s, step) {
      RetreatNeedsFailedRead(parse, s, step);
    }
  }

  /** Over every run in which the watermark can be read it never goes back. */
  lemma {:induction false} RunsGoForward(parse: Parser<SpoolValue>, s: State, steps: seq<Step>)
    requires Inv(parse, s) && ReadCurrent(s) && RunAllowed(parse, s, steps) && ReadsWatermark(steps)
    ensures s.disk.watermark <= Run(parse, s, steps).disk.watermark
    decreases |steps|
  {
    if steps != [] {
      assert steps[0] in steps && forall step :: step in steps[1..] ==> step in steps;
      StepKeepsInv(parse, s, steps[0]);
      StepGoesForward(parse, s, steps[0]);
      RunsGoForward(parse, Apply(parse, s, steps[0]), steps[1..]);
    }
  }
}

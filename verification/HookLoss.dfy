/**
 * What the syncs of the hook spool guarantee over every run: no attributable execution is passed
 * unshipped, verdicts only strengthen, an old spool drains, and each session gets what was planned.
 */
module HookLoss {
  import opened Common
  import opened Spool
  import opened HookExec
  import opened HookPlan
  import opened HookSync

  /** Over every run, also when reads of the spool or of the watermark fail: the watermark stays on a
      line boundary, no attributable execution falls below it unshipped, and re-shipped verdicts
      only strengthen. */
  lemma {:induction false} RunsLoseNothing(parse: Parser<SpoolValue>, s: State, steps: seq<Step>)
    requires Inv(parse, s) && RunAllowed(parse, s, steps)
    ensures Inv(parse, Run(parse, s, steps))
    ensures var end := Run(parse, s, steps).disk;
            && Boundary(end.spool, end.watermark)
            && NothingLost(Whole(parse, end), end.watermark, end.shipped)
            && Strengthens(end.shipped)
    decreases |steps|
  {
    if steps != [] {
      StepKeepsInv(parse, s, steps[0]);
      RunsLoseNothing(parse, Apply(parse, s, steps[0]), steps[1..]);
    }
  }

  /** Spelt out for runs from an empty spool: an attributable execution below the watermark has
      been shipped to its own session. */
  lemma NoExecutionIsLost(parse: Parser<SpoolValue>, steps: seq<Step>, l: HookLine)
    requires RunAllowed(parse, EMPTY, steps)
    requires var d := Run(parse, EMPTY, steps).disk;
             l in Whole(parse, d) && l.record.Started? && Attributable(l.record.started) && l.offset < d.watermark
    ensures exists d :: d in Run(parse, EMPTY, steps).disk.shipped && d.execId == l.record.execId
                        && d.outcome.sessionId == l.record.started.sessionId.value
  {
    StartsGood(parse);
    RunsLoseNothing(parse, EMPTY, steps);
    var s := Run(parse, EMPTY, steps).disk;
    assert Shipped(s.shipped, l.record.execId);
    var d :| d in s.shipped && d.execId == l.record.execId;
    var st, o :| Line(Started(d.execId, st), o) in Whole(parse, s) && Attributable(st)
                 && d.outcome.sessionId == st.sessionId.value;
    LinesAreOrdered(parse, s.spool, 0);
    SameRecord(Whole(parse, s), Line(Started(d.execId, st), o), l);
  }

  /** Spelt out for runs from an empty spool: what is shipped for one execution never weakens, and
      once it is completed it is the same event in every later shipment. */
  lemma VerdictsOfSyncsStrengthen(parse: Parser<SpoolValue>, steps: seq<Step>, i: nat, j: nat)
    requires RunAllowed(parse, EMPTY, steps)
    requires var shipped := Run(parse, EMPTY, steps).disk.shipped;
             i < j < |shipped| && shipped[i].execId == shipped[j].execId
    ensures var d, e := Run(parse, EMPTY, steps).disk.shipped[i], Run(parse, EMPTY, steps).disk.shipped[j];
            && StatusRank(d.outcome.status) <= StatusRank(e.outcome.status)
            && (d.outcome.status in {Ok, Error} ==> HookOutcomeToEvent(e.outcome) == HookOutcomeToEvent(d.outcome))
  {
    StartsGood(parse);
    RunsLoseNothing(parse, EMPTY, steps);
  }

  // ----- deferral ends -----

  /** Every start time of the window parses and lies the whole ceiling before `now`. */
  ghost predicate AllOld(lines: seq<HookLine>, nowMs: int) {
    forall l :: l in lines && l.record.Started? && l.record.started.tMs.Some? ==>
      nowMs - l.record.started.tMs.value >= HOOK_INCOMPLETE_AFTER_MS
  }

  /** A sync at or after every start time plus the ceiling, with every session merged, consumes
      the whole spool. */
  lemma OldSpoolDrains(parse: Parser<SpoolValue>, s: Disk, q: Query, merged: set<string>, commit: nat)
    requires Good(parse, s) && MayCommit(parse, s, q, merged, Some(commit))
    requires AllOld(Window(parse, s), q.nowMs)
    requires forall l :: l in Window(parse, s) && l.record.Started? && Attributable(l.record.started) ==>
               l.record.started.sessionId.value in merged
    ensures commit == |s.spool|
  {
    var window := Window(parse, s);
    forall id | id in Keys(window) ensures id !in Held(window, q, merged) {
      GroupSound(window, id);
      var g := GroupOf(window, id);
      if g.Some? && g.value.started.Some? {
        assert Line(Started(id, g.value.started.value), g.value.startOffset) in window;
      }
    }
  }

  // ----- the `null` line -----

  /** A line whose text is `null` parses, so it is not skipped as malformed, and planning throws
      on it. No later run of any length ever moves the watermark forward or ships anything. */
  lemma {:induction false} NullLineWedges(parse: Parser<SpoolValue>, s: State, steps: seq<Step>)
    requires Inv(parse, s) && RunAllowed(parse, s, steps)
    requires s.pending.None? && HasNull(Window(parse, s.disk))
    ensures var end := Run(parse, s, steps);
            && end.disk.watermark <= s.disk.watermark
            && end.disk.shipped == s.disk.shipped
            && HasNull(Window(parse, end.disk))
    decreases |steps|
  {
    if steps != [] {
      StepKeepsInv(parse, s, steps[0]);
      if steps[0].Append? {
        NullStays(parse, s.disk, steps[0].line);
      } else if steps[0].Plan? || steps[0].Blind? {
        NullBelow(parse, s.disk, ReadFrom(s.disk, steps[0].watermarkRead));
      }
      NullLineWedges(parse, Apply(parse, s, steps[0]), steps[1..]);
    }
  }

  lemma NullBelow(parse: Parser<SpoolValue>, s: Disk, w: nat)
    requires Good(parse, s) && HasNull(Window(parse, s)) && w <= s.watermark && Boundary(s.spool, w)
    ensures HasNull(Window(parse, s.(watermark := w)))
  {
    WindowOfWhole(parse, s.spool, s.watermark);
    WindowOfWhole(parse, s.spool, w);
    var l :| l in Window(parse, s) && l.record.NullValue?;
    assert l in Window(parse, s.(watermark := w));
  }

  lemma NullStays(parse: Parser<SpoolValue>, s: Disk, line: seq<byte>)
    requires Good(parse, s) && NEWLINE !in line && HasNull(Window(parse, s))
    ensures HasNull(Window(parse, Appended(s, line)))
  {
    AppendLine(parse, s.spool, line, s.watermark);
    var l :| l in Window(parse, s) && l.record.NullValue?;
    assert l in Window(parse, Appended(s, line));
  }

  // ----- what is shipped is what was planned -----

  function EventsShipped(ds: seq<Delivery>, session: string): seq<Event> {
    if ds == [] then []
    else
      var d, before := ds[|ds| - 1], EventsShipped(ds[..|ds| - 1], session);
      if d.outcome.sessionId == session then before + [HookOutcomeToEvent(d.outcome)] else before
  }

  /** A merged session receives exactly the events the plan lists for it, in the plan's order. */
  lemma {:induction false} ShippedAsPlanned(lines: seq<HookLine>, keys: seq<ExecId>, q: Query, merged: set<string>, session: string)
    requires session in merged
    ensures EventsShipped(Deliveries(lines, keys, q, merged), session) == EventsFor(lines, keys, q, session)
  {
    if keys != [] {
      var id, before := keys[|keys| - 1], keys[..|keys| - 1];
      ShippedAsPlanned(lines, before, q, merged, session);
      var ds := Deliveries(lines, before, q, merged);
      var v := VerdictOf(lines, id, q);
      if v.Resolved? && v.outcome.sessionId in merged {
        assert (ds + [Delivery(id, v.outcome)])[..|ds|] == ds;
      }
    }
  }
}

/**
 * Verdicts as the spool grows: they only rise, until the watermark passes the start and later records
 * of the execution are read without it.
 */
module HookVerdicts {
  import opened Common
  import opened Spool
  import opened HookExec
  import opened HookPlan
  import opened HookSync
  import opened HookForward

  ghost predicate Increasing(lines: seq<HookLine>) {
    forall i, j :: 0 <= i < j < |lines| ==> lines[i].offset < lines[j].offset
  }

  /** Under the writer's discipline the group of an execution only grows as lines are appended. */
  lemma {:induction false} GroupsGrow(all: seq<HookLine>, k: nat, n: nat, id: ExecId)
    requires WellWritten(all) && Increasing(all) && k <= n <= |all| && GroupOf(all[..k], id).Some?
    ensures GroupOf(all[..n], id).Some? && Grows(GroupOf(all[..k], id).value, GroupOf(all[..n], id).value)
  {
    forall m | k <= m < n ensures GrowsAt(all, m, id) {
      if GroupOf(all[..m], id).Some? {
        GroupStep(all, m, id);
      }
    }
    GrowsAlong(all, k, n, id);
  }

  ghost predicate GrowsAt(all: seq<HookLine>, m: nat, id: ExecId)
    requires m < |all|
  {
    GroupOf(all[..m], id).Some? ==>
      GroupOf(all[..m + 1], id).Some? && Grows(GroupOf(all[..m], id).value, GroupOf(all[..m + 1], id).value)
  }

  lemma {:induction false} GrowsAlong(all: seq<HookLine>, k: nat, n: nat, id: ExecId)
    requires k <= n <= |all| && GroupOf(all[..k], id).Some? && forall m :: k <= m < n ==> GrowsAt(all, m, id)
    ensures GroupOf(all[..n], id).Some? && Grows(GroupOf(all[..k], id).value, GroupOf(all[..n], id).value)
    decreases n
  {
    if k < n {
      GrowsAlong(all, k, n - 1, id);
      assert GrowsAt(all, n - 1, id);
    }
  }

  lemma GroupStep(all: seq<HookLine>, n: nat, id: ExecId)
    requires WellWritten(all) && Increasing(all) && n < |all| && GroupOf(all[..n], id).Some?
    ensures GroupOf(all[..n + 1], id).Some? && Grows(GroupOf(all[..n], id).value, GroupOf(all[..n + 1], id).value)
  {
    assert all[..n + 1][..n] == all[..n] && all[..n + 1][n] == all[n];
    if Of(all[n], id) {
      LastOfGroup(all, n, id);
    }
  }

  /** A further record of an execution is no second start and no second finish. */
  lemma LastOfGroup(all: seq<HookLine>, n: nat, id: ExecId)
    requires WellWritten(all) && Increasing(all) && n < |all|
    requires GroupOf(all[..n], id).Some? && Of(all[n], id)
    ensures !all[n].record.Started?
    ensures GroupOf(all[..n], id).value.finished.Some? ==> !all[n].record.Finished?
  {
    var before, last := all[..n], all[n];
    GroupSound(before, id);
    assert last in all;
    forall l | l in before ensures l in all && l.offset < last.offset {
      var i :| 0 <= i < n && all[i] == l;
    }
    var l :| l in before && Of(l, id);
    if GroupOf(before, id).value.finished.Some? {
      var o :| Line(Finished(id, GroupOf(before, id).value.finished.value), o) in before;
      assert Of(Line(Finished(id, GroupOf(before, id).value.finished.value), o), id);
    }
  }

  lemma GroupVerdictRises(g: Group, g': Group, q: Query, later: Query)
    requires Grows(g, g') && q.nowMs <= later.nowMs && forall session :: q.sessionEnded(session) ==> later.sessionEnded(session)
    ensures VerdictRank(GroupVerdict(g, q)) <= VerdictRank(GroupVerdict(g', later))
    ensures VerdictRank(GroupVerdict(g, q)) == 3 ==> GroupVerdict(g', later) == GroupVerdict(g, q)
  {
    var known := g.started.Some? && Truthy(g.started.value.sessionId);
    var session := if known then g.started.value.sessionId.value else "";
    VerdictRises(g, g', known && q.sessionEnded(session), known && later.sessionEnded(session), q.nowMs, later.nowMs);
  }

  /** As lines are appended above one watermark and time moves on, the verdict of an execution only
      rises along defer, incomplete, aborted, completed, and a completed one stays the same. */
  lemma VerdictsRiseAsSpoolGrows(parse: Parser<SpoolValue>, spool: seq<byte>, more: seq<byte>, w: nat,
                                 id: ExecId, q: Query, later: Query)
    requires w <= |spool| && Terminated(spool) && WellWritten(Lines(parse, spool + more, w))
    requires q.nowMs <= later.nowMs && forall session :: q.sessionEnded(session) ==> later.sessionEnded(session)
    ensures var v, v' := VerdictOf(Lines(parse, spool, w), id, q), VerdictOf(Lines(parse, spool + more, w), id, later);
            VerdictRank(v) <= VerdictRank(v') && (VerdictRank(v) == 3 ==> v' == v)
  {
    var lines, added := Lines(parse, spool, w), Lines(parse, spool + more, |spool|);
    AppendExtends(parse, spool, more, w);
    assert Increasing(lines + added) by {
      OffsetsIncrease(parse, spool + more, w);
    }
    if GroupOf(lines, id).Some? {
      var all := lines + added;
      assert all[..|lines|] == lines && all[..|all|] == all;
      GroupsGrow(all, |lines|, |all|, id);
      GroupVerdictRises(GroupOf(lines, id).value, GroupOf(all, id).value, q, later);
    }
  }

  /** Once the watermark has passed an execution's start no later sync ships anything of it, as
      long as the watermark can be read: a finish that lands then is grouped without its start and never reported. */
  lemma {:induction false} PassedStartShipsNoMore(parse: Parser<SpoolValue>, s: State, steps: seq<Step>, l: HookLine)
    requires Inv(parse, s) && ReadCurrent(s) && RunAllowed(parse, s, steps) && ReadsWatermark(steps)
    requires l in Whole(parse, s.disk) && l.record.Started? && l.offset < s.disk.watermark
    ensures forall d :: d in Run(parse, s, steps).disk.shipped && d.execId == l.record.execId ==> d in s.disk.shipped
    decreases |steps|
  {
    if steps != [] {
      assert steps[0] in steps && forall step :: step in steps[1..] ==> step in steps;
      StepKeepsInv(parse, s, steps[0]);
      StepShipsNoPassed(parse, s, steps[0], l);
      StepGoesForward(parse, s, steps[0]);
      PassedStartShipsNoMore(parse, Apply(parse, s, steps[0]), steps[1..], l);
    }
  }

  /** What a sync reports of an execution whose `finished` is on the spool, when its session is merged:
      a completed event exactly when the sync reads from at or below its start. */
  lemma FinishShipsExactly(parse: Parser<SpoolValue>, s: Disk, q: Query, merged: set<string>, l: HookLine)
    requires Good(parse, s)
    requires l in Whole(parse, s) && l.record.Started? && Attributable(l.record.started)
    requires HasFinished(Whole(parse, s), l.record.execId) && l.record.started.sessionId.value in merged
    ensures (exists d :: d in Deliveries(Window(parse, s), Keys(Window(parse, s)), q, merged)
                         && d.execId == l.record.execId && StatusRank(d.outcome.status) == 3)
       <==> s.watermark <= l.offset
  {
    var lines, window, id := Whole(parse, s), Window(parse, s), l.record.execId;
    WindowOfWhole(parse, s.spool, s.watermark);
    LinesAreOrdered(parse, s.spool, 0);
    KeysAreGroups(window);
    DeliveriesOf(window, Keys(window), q, merged);
    if s.watermark <= l.offset {
      GroupOfStarted(lines, window, s.watermark, l);
      var v := VerdictOf(window, id, q);
      assert Delivery(id, v.outcome) in Deliveries(window, Keys(window), q, merged);
    } else {
      NoStartNoVerdict(lines, window, s.watermark, q, l);
    }
  }

  lemma StepShipsNoPassed(parse: Parser<SpoolValue>, s: State, step: Step, l: HookLine)
    requires Inv(parse, s) && ReadCurrent(s) && Allowed(parse, s, step)
    requires l in Whole(parse, s.disk) && l.record.Started? && l.offset < s.disk.watermark
    ensures l in Whole(parse, Apply(parse, s, step).disk)
    ensures forall d :: d in Apply(parse, s, step).disk.shipped && d.execId == l.record.execId ==> d in s.disk.shipped
  {
    match step {
      case Append(line) => AppendLine(parse, s.disk.spool, line, 0);
      case Plan(_, _) =>
      case Blind(_) =>
      case Finish(merged, commit) =>
        var planned := AsPlanned(s);
        var window := Window(parse, planned);
        var fromWindow := Deliveries(window, Keys(window), s.pending.value.q, merged);
        SnapshotLines(parse, s);
        KeysAreGroups(window);
        DeliveriesOf(window, Keys(window), s.pending.value.q, merged);
        NoStartNoVerdict(Whole(parse, s.disk), window, s.disk.watermark, s.pending.value.q, l);
    }
  }

  /** What a pending sync sees are lines of the present spool at or above the watermark. */
  lemma SnapshotLines(parse: Parser<SpoolValue>, s: State)
    requires Inv(parse, s) && ReadCurrent(s) && s.pending.Some?
    ensures forall m :: m in Window(parse, AsPlanned(s)) ==> m in Whole(parse, s.disk) && s.disk.watermark <= m.offset
  {
    var snap := s.pending.value.spool;
    var more := s.disk.spool[|snap|..];
    assert s.disk.spool == snap + more;
    AppendExtends(parse, snap, more, 0);
    WindowOfWhole(parse, snap, s.disk.watermark);
  }

  lemma NoStartNoVerdict(lines: seq<HookLine>, window: seq<HookLine>, w: nat, q: Query, l: HookLine)
    requires WellWritten(lines) && l in lines && l.record.Started? && l.offset < w
    requires forall m :: m in window ==> m in lines && w <= m.offset
    ensures !VerdictOf(window, l.record.execId, q).Resolved?
  {
    var id := l.record.execId;
    GroupSound(window, id);
    var g := GroupOf(window, id);
    if g.Some? && g.value.started.Some? {
      var m := Line(Started(id, g.value.started.value), g.value.startOffset);
      assert m in window && Of(m, id) && Of(l, id);
      assert false;
    }
  }
}

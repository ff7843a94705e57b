/**
 * The hook spool as a transition system. The wrapper appends whole lines; a sync plans over the
 * window above the watermark, ships the events of the sessions it scanned, and, when the run
 * succeeds, persists the commit offset. The theorems are about every run of such steps.
 */
module HookSync {
  import opened Common
  import opened Spool
  import opened HookExec
  import opened HookPlan

  /** One shipped event, with the execution it belongs to. */
  datatype Delivery = Delivery(execId: ExecId, outcome: HookOutcome)

  /** The spool file, the watermark file, and what has been shipped so far. */
  datatype Disk = Disk(spool: seq<byte>, watermark: nat, shipped: seq<Delivery>)

  /** A sync that has planned: its query, the spool as it was read, and the offset it read from. */
  datatype Pending = Pending(q: Query, spool: seq<byte>, from: nat)

  datatype State = State(disk: Disk, pending: Option<Pending>)

  /** The wrapper appends at any time, also between a sync's plan and its end. `commit` is the
      offset persisted at the end, or None when the run failed after shipping `merged` or its
      best-effort watermark write did; a plan that never ends is a killed run. A watermark that
      fails to read counts as 0. Blind is a whole sync whose spool read fails: it finds nothing and
      writes back the watermark it read. */
  datatype Step =
    | Append(line: seq<byte>)
    | Plan(q: Query, watermarkRead: bool)
    | Finish(merged: set<string>, commit: Option<nat>)
    | Blind(watermarkRead: bool)

  const EMPTY := State(Disk([], 0, []), None)

  function Whole(parse: Parser<SpoolValue>, s: Disk): seq<HookLine> {
    Lines(parse, s.spool, 0)
  }

  function Window(parse: Parser<SpoolValue>, s: Disk): seq<HookLine> {
    Lines(parse, s.spool, Clamp(s.watermark, |s.spool|))
  }

  /** The shipped events of a window: those of the resolved executions of merged sessions. */
  function Deliveries(lines: seq<HookLine>, keys: seq<ExecId>, q: Query, merged: set<string>): seq<Delivery> {
    if keys == [] then []
    else
      var id, before := keys[|keys| - 1], Deliveries(lines, keys[..|keys| - 1], q, merged);
      var v := VerdictOf(lines, id, q);
      if v.Resolved? && v.outcome.sessionId in merged then before + [Delivery(id, v.outcome)] else before
  }

  /** The wrapper's discipline: one `started` per execution, written first, and one `finished`. */
  ghost predicate WriterMayAppend(lines: seq<HookLine>, v: SpoolValue) {
    forall l :: l in lines && !v.NullValue? && Of(l, v.execId) ==>
      !v.Started? && !(v.Finished? && l.record.Finished?)
  }

  ghost predicate MayAppend(parse: Parser<SpoolValue>, s: Disk, line: seq<byte>) {
    && NEWLINE !in line
    && (parse(line).Some? ==> WriterMayAppend(Whole(parse, s), parse(line).value))
  }

  ghost predicate MayCommit(parse: Parser<SpoolValue>, s: Disk, q: Query, merged: set<string>, commit: Option<nat>) {
    commit.Some? ==>
      IsLeast(Window(parse, s), Held(Window(parse, s), q, merged), Some(|s.spool|), commit.value)
  }

  function Appended(s: Disk, line: seq<byte>): Disk {
    s.(spool := s.spool + line + [NEWLINE])
  }

  /** A whole sync over a spool that stands still. */
  function Synced(parse: Parser<SpoolValue>, s: Disk, q: Query, merged: set<string>, commit: Option<nat>): Disk {
    var window := Window(parse, s);
    s.(shipped := s.shipped + Deliveries(window, Keys(window), q, merged),
       watermark := commit.GetOr(s.watermark))
  }

  /** The disk as the pending sync sees it. */
  function AsPlanned(s: State): Disk
    requires s.pending.Some?
  {
    s.disk.(spool := s.pending.value.spool, watermark := s.pending.value.from)
  }

  /** What reading the watermark gives. */
  function ReadFrom(s: Disk, watermarkRead: bool): nat {
    if watermarkRead then s.watermark else 0
  }

  ghost predicate Allowed(parse: Parser<SpoolValue>, s: State, step: Step) {
    match step
    case Append(line) => MayAppend(parse, s.disk, line)
    case Plan(_, _) => true
    case Blind(_) => true
    case Finish(merged, commit) =>
      s.pending.Some? && MayCommit(parse, AsPlanned(s), s.pending.value.q, merged, commit)
  }

  function Apply(parse: Parser<SpoolValue>, s: State, step: Step): State {
    match step
    case Append(line) => s.(disk := Appended(s.disk, line))
    case Plan(q, watermarkRead) =>
      var from := ReadFrom(s.disk, watermarkRead);
      s.(pending := if HasNull(Window(parse, s.disk.(watermark := from))) then None else Some(Pending(q, s.disk.spool, from)))
    case Blind(watermarkRead) => State(s.disk.(watermark := ReadFrom(s.disk, watermarkRead)), None)
    case Finish(merged, commit) =>
      if s.pending.None? then s
      else
        var end := Synced(parse, AsPlanned(s), s.pending.value.q, merged, commit);
        State(end.(spool := s.disk.spool, watermark := commit.GetOr(s.disk.watermark)), None)
  }

  function Run(parse: Parser<SpoolValue>, s: State, steps: seq<Step>): State
    decreases |steps|
  {
    if steps == [] then s else Run(parse, Apply(parse, s, steps[0]), steps[1..])
  }

  ghost predicate RunAllowed(parse: Parser<SpoolValue>, s: State, steps: seq<Step>)
    decreases |steps|
  {
    steps == [] || (Allowed(parse, s, steps[0]) && RunAllowed(parse, Apply(parse, s, steps[0]), steps[1..]))
  }

  // ----- the invariant -----

  ghost predicate WellWritten(lines: seq<HookLine>) {
    forall l, m :: l in lines && m in lines && l.offset < m.offset && !m.record.NullValue? && Of(l, m.record.execId) ==>
      !m.record.Started? && !(l.record.Finished? && m.record.Finished?)
  }

  ghost predicate OneLinePerOffset(lines: seq<HookLine>) {
    forall l, m :: l in lines && m in lines && l.offset == m.offset ==> l == m
  }

  ghost predicate HasFinished(lines: seq<HookLine>, id: ExecId) {
    exists l :: l in lines && Of(l, id) && l.record.Finished?
  }

  ghost predicate HasAborted(lines: seq<HookLine>, id: ExecId) {
    exists l :: l in lines && Of(l, id) && l.record.Aborted?
  }

  /** The rank the records written so far support. */
  ghost function Evidence(lines: seq<HookLine>, id: ExecId): nat {
    if HasFinished(lines, id) then 3 else if HasAborted(lines, id) then 2 else 1
  }

  /** A shipped event is backed by the spool: it names the execution's own session, claims no more
      than the records show, and a completed one is exactly what its two records say. */
  ghost predicate Backed(lines: seq<HookLine>, d: Delivery) {
    exists st, o ::
      && Line(Started(d.execId, st), o) in lines
      && Attributable(st)
      && d.outcome.sessionId == st.sessionId.value
      && StatusRank(d.outcome.status) <= Evidence(lines, d.execId)
      && (StatusRank(d.outcome.status) == 3 ==>
            exists f, p :: Line(Finished(d.execId, f), p) in lines && d.outcome == Completed(st, f))
  }

  ghost predicate Shipped(shipped: seq<Delivery>, id: ExecId) {
    exists d :: d in shipped && d.execId == id
  }

  /** No attributable execution whose `started` line is below the watermark is unshipped. */
  ghost predicate NothingLost(lines: seq<HookLine>, watermark: nat, shipped: seq<Delivery>) {
    forall l :: l in lines && l.record.Started? && Attributable(l.record.started) && l.offset < watermark ==>
      Shipped(shipped, l.record.execId)
  }

  /** Re-shipped verdicts of one execution only strengthen, and a completed one never changes. */
  ghost predicate Strengthens(shipped: seq<Delivery>) {
    forall i, j :: 0 <= i < j < |shipped| && shipped[i].execId == shipped[j].execId ==>
      && StatusRank(shipped[i].outcome.status) <= StatusRank(shipped[j].outcome.status)
      && (StatusRank(shipped[i].outcome.status) == 3 ==> shipped[i] == shipped[j])
  }

  ghost predicate Good(parse: Parser<SpoolValue>, s: Disk) {
    var lines := Whole(parse, s);
    && Terminated(s.spool)
    && Boundary(s.spool, s.watermark)
    && WellWritten(lines)
    && NothingLost(lines, s.watermark, s.shipped)
    && (forall d :: d in s.shipped ==> Backed(lines, d))
    && Strengthens(s.shipped)
  }

  /** A pending sync saw a prefix of the present spool, and that prefix was good too. */
  ghost predicate Inv(parse: Parser<SpoolValue>, s: State) {
    && Good(parse, s.disk)
    && (s.pending.Some? ==>
          && s.pending.value.spool <= s.disk.spool
          && s.pending.value.from <= s.disk.watermark <= |s.pending.value.spool|
          && Good(parse, AsPlanned(s))
          && !HasNull(Window(parse, AsPlanned(s))))
  }

  // ----- appending -----

  lemma LinesAreOrdered(parse: Parser<SpoolValue>, spool: seq<byte>, from: nat)
    requires from <= |spool|
    ensures OneLinePerOffset(Lines(parse, spool, from))
    ensures forall l :: l in Lines(parse, spool, from) ==> from <= l.offset < |spool|
  {
    OffsetsIncrease(parse, spool, from);
  }

  lemma BackedStays(lines: seq<HookLine>, more: seq<HookLine>, d: Delivery)
    requires Backed(lines, d)
    ensures Backed(lines + more, d)
  {
    var all := lines + more;
    assert forall l :: l in lines ==> l in all;
    assert HasFinished(lines, d.execId) ==> HasFinished(all, d.execId);
    assert HasAborted(lines, d.execId) ==> HasAborted(all, d.execId);
    var st, o :| && Line(Started(d.execId, st), o) in lines
                 && Attributable(st)
                 && d.outcome.sessionId == st.sessionId.value
                 && StatusRank(d.outcome.status) <= Evidence(lines, d.execId)
                 && (StatusRank(d.outcome.status) == 3 ==>
                       exists f, p :: Line(Finished(d.execId, f), p) in lines && d.outcome == Completed(st, f));
    assert Line(Started(d.execId, st), o) in all;
    if StatusRank(d.outcome.status) == 3 {
      var f, p :| Line(Finished(d.execId, f), p) in lines && d.outcome == Completed(st, f);
      assert Line(Finished(d.execId, f), p) in all;
    }
  }

  lemma AppendKeepsGood(parse: Parser<SpoolValue>, s: Disk, line: seq<byte>)
    requires Good(parse, s) && MayAppend(parse, s, line)
    ensures Good(parse, Appended(s, line))
  {
    var lines, added := Whole(parse, s), Parsed(parse, line, |s.spool|);
    assert Whole(parse, Appended(s, line)) == lines + added && Terminated(Appended(s, line).spool) by {
      AppendLine(parse, s.spool, line, 0);
    }
    assert Boundary(Appended(s, line).spool, s.watermark) by {
      assert s.spool + (line + [NEWLINE]) == s.spool + line + [NEWLINE];
      BoundaryStays(s.spool, line + [NEWLINE], s.watermark);
    }
    LinesAreOrdered(parse, s.spool, 0);
    OneMoreLine(lines, added, s.watermark, s.shipped);
  }

  lemma OneMoreLine(lines: seq<HookLine>, added: seq<HookLine>, watermark: nat, shipped: seq<Delivery>)
    requires WellWritten(lines) && NothingLost(lines, watermark, shipped)
    requires |added| <= 1
    requires forall l, m :: l in lines && m in added ==> l.offset < m.offset
    requires forall m :: m in added ==> watermark <= m.offset && WriterMayAppend(lines, m.record)
    requires forall d :: d in shipped ==> Backed(lines, d)
    ensures WellWritten(lines + added) && NothingLost(lines + added, watermark, shipped)
    ensures forall d :: d in shipped ==> Backed(lines + added, d)
  {
    assert forall l :: l in lines + added <==> l in lines || l in added;
    forall d | d in shipped ensures Backed(lines + added, d) {
      BackedStays(lines, added, d);
    }
  }

  /** What a sync achieved over the prefix it read holds of the longer spool there is by then. */
  lemma GoodOverMore(parse: Parser<SpoolValue>, s: Disk, spool: seq<byte>)
    requires Good(parse, s) && s.spool <= spool
    requires Terminated(spool) && WellWritten(Lines(parse, spool, 0))
    ensures Good(parse, s.(spool := spool))
  {
    var more := spool[|s.spool|..];
    assert spool == s.spool + more;
    var lines, added := Whole(parse, s), Lines(parse, spool, |s.spool|);
    AppendExtends(parse, s.spool, more, 0);
    BoundaryStays(s.spool, more, s.watermark);
    LinesAreOrdered(parse, spool, |s.spool|);
    forall d | d in s.shipped ensures Backed(lines + added, d) {
      BackedStays(lines, added, d);
    }
  }

  // ----- syncing -----

  /** In a window that starts at a boundary, a `started` line comes with all later records of its
      execution, so its group shows exactly what the spool shows. */
  lemma GroupOfStarted(lines: seq<HookLine>, window: seq<HookLine>, w: nat, l: HookLine)
    requires WellWritten(lines) && OneLinePerOffset(lines)
    requires UpperPart(window, lines, w)
    requires l in window && l.record.Started?
    ensures GroupOf(window, l.record.execId).Some?
    ensures var g := GroupOf(window, l.record.execId).value;
            && g.started == Some(l.record.started)
            && g.startOffset == l.offset
            && (g.finished.Some? <==> HasFinished(lines, l.record.execId))
            && (g.aborted.Some? <==> HasAborted(lines, l.record.execId))
            && (g.finished.Some? ==> exists p :: Line(Finished(l.record.execId, g.finished.value), p) in lines)
  {
    var id := l.record.execId;
    GroupSound(window, id);
    var g := GroupOf(window, id).value;
    var m := Line(Started(id, g.started.value), g.startOffset);
    assert m in window && Of(m, id) && Of(l, id);
    assert m == l;
    forall x | x in lines && Of(x, id) ensures x in window {
      assert x.offset >= l.offset;
    }
  }

  lemma {:induction false} DeliveriesOf(lines: seq<HookLine>, keys: seq<ExecId>, q: Query, merged: set<string>)
    requires Distinct(keys)
    ensures forall d :: d in Deliveries(lines, keys, q, merged) <==>
              d.execId in keys && VerdictOf(lines, d.execId, q) == Resolved(d.outcome) && d.outcome.sessionId in merged
    ensures forall i, j :: 0 <= i < j < |Deliveries(lines, keys, q, merged)| ==>
              Deliveries(lines, keys, q, merged)[i].execId != Deliveries(lines, keys, q, merged)[j].execId
  {
    if keys != [] {
      var id, before := keys[|keys| - 1], keys[..|keys| - 1];
      assert keys == before + [id];
      DeliveriesOf(lines, before, q, merged);
    }
  }

  /** What a sync ships for an execution is backed at the full strength of the spool's records. */
  lemma ShipsAtFullStrength(lines: seq<HookLine>, window: seq<HookLine>, w: nat, q: Query, d: Delivery)
    requires WellWritten(lines) && OneLinePerOffset(lines)
    requires UpperPart(window, lines, w)
    requires VerdictOf(window, d.execId, q) == Resolved(d.outcome)
    ensures Backed(lines, d)
    ensures StatusRank(d.outcome.status) == Evidence(lines, d.execId)
  {
    GroupSound(window, d.execId);
    var g := GroupOf(window, d.execId).value;
    var l := Line(Started(d.execId, g.started.value), g.startOffset);
    GroupOfStarted(lines, window, w, l);
    assert Line(Started(d.execId, g.started.value), g.startOffset) in lines;
  }

  lemma CompletedAgree(lines: seq<HookLine>, d: Delivery, e: Delivery)
    requires WellWritten(lines) && OneLinePerOffset(lines)
    requires Backed(lines, d) && Backed(lines, e) && d.execId == e.execId
    requires StatusRank(d.outcome.status) == 3 && StatusRank(e.outcome.status) == 3
    ensures d == e
  {
    var st, o, f, p :| Line(Started(d.execId, st), o) in lines && Attributable(st)
                       && Line(Finished(d.execId, f), p) in lines && d.outcome == Completed(st, f);
    var st', o', f', p' :| Line(Started(d.execId, st'), o') in lines && Attributable(st')
                           && Line(Finished(d.execId, f'), p') in lines && e.outcome == Completed(st', f');
    SameRecord(lines, Line(Started(d.execId, st), o), Line(Started(d.execId, st'), o'));
    SameRecord(lines, Line(Finished(d.execId, f), p), Line(Finished(d.execId, f'), p'));
  }

  lemma SameRecord(lines: seq<HookLine>, l: HookLine, m: HookLine)
    requires WellWritten(lines) && OneLinePerOffset(lines)
    requires l in lines && m in lines && !m.record.NullValue? && Of(l, m.record.execId)
    requires (l.record.Started? && m.record.Started?) || (l.record.Finished? && m.record.Finished?)
    ensures l == m
  {
    assert Of(m, l.record.execId);
    if l.offset < m.offset {
    } else if m.offset < l.offset {
    }
  }

  lemma SyncStrengthens(lines: seq<HookLine>, window: seq<HookLine>, w: nat, q: Query, merged: set<string>, shipped: seq<Delivery>)
    requires WellWritten(lines) && OneLinePerOffset(lines)
    requires UpperPart(window, lines, w)
    requires Strengthens(shipped) && forall d :: d in shipped ==> Backed(lines, d)
    ensures Strengthens(shipped + Deliveries(window, Keys(window), q, merged))
    ensures forall d :: d in Deliveries(window, Keys(window), q, merged) ==> Backed(lines, d)
  {
    var fromWindow := Deliveries(window, Keys(window), q, merged);
    KeysAreGroups(window);
    DeliveriesOf(window, Keys(window), q, merged);
    forall d | d in fromWindow
      ensures Backed(lines, d) && StatusRank(d.outcome.status) == Evidence(lines, d.execId)
    {
      ShipsAtFullStrength(lines, window, w, q, d);
    }
    forall d, e | d in shipped && e in fromWindow && d.execId == e.execId
      ensures StatusRank(d.outcome.status) <= StatusRank(e.outcome.status)
      ensures StatusRank(d.outcome.status) == 3 ==> d == e
    {
      if StatusRank(d.outcome.status) == 3 {
        CompletedAgree(lines, d, e);
      }
    }
  }

  /** A line the commit passes is shipped: its group is neither deferred nor of an unmerged session. */
  lemma CommitPassesShipped(lines: seq<HookLine>, window: seq<HookLine>, w: nat, q: Query, merged: set<string>,
                            commit: nat, cap: nat, l: HookLine)
    requires WellWritten(lines) && OneLinePerOffset(lines)
    requires UpperPart(window, lines, w)
    requires IsLeast(window, Held(window, q, merged), Some(cap), commit)
    requires l in window && l.record.Started? && Attributable(l.record.started) && l.offset < commit
    ensures Shipped(Deliveries(window, Keys(window), q, merged), l.record.execId)
  {
    var id := l.record.execId;
    GroupOfStarted(lines, window, w, l);
    KeysAreGroups(window);
    DeliveriesOf(window, Keys(window), q, merged);
    assert id !in Held(window, q, merged);
    assert Delivery(id, VerdictOf(window, id, q).outcome) in Deliveries(window, Keys(window), q, merged);
  }

  lemma GroupStartsOnLine(parse: Parser<SpoolValue>, spool: seq<byte>, w: nat, id: ExecId)
    requires Boundary(spool, w) && id in Keys(Lines(parse, spool, w))
    ensures w <= OffsetOf(Lines(parse, spool, w), id) && Boundary(spool, OffsetOf(Lines(parse, spool, w), id))
  {
    var window := Lines(parse, spool, w);
    OffsetsIncrease(parse, spool, w);
    KeysAreGroups(window);
    GroupSound(window, id);
    var l :| l in window && l.offset == OffsetOf(window, id);
    var i :| 0 <= i < |window| && window[i] == l;
    assert w <= window[i].offset;
  }

  lemma CommitIsBoundary(parse: Parser<SpoolValue>, s: Disk, q: Query, merged: set<string>, commit: nat)
    requires Good(parse, s) && MayCommit(parse, s, q, merged, Some(commit))
    ensures s.watermark <= commit && Boundary(s.spool, commit)
  {
    var window := Window(parse, s);
    if commit != |s.spool| {
      var id :| id in Held(window, q, merged) && commit == OffsetOf(window, id);
      GroupStartsOnLine(parse, s.spool, s.watermark, id);
    }
  }

  lemma SyncKeepsGood(parse: Parser<SpoolValue>, s: Disk, q: Query, merged: set<string>, commit: Option<nat>)
    requires Good(parse, s) && MayCommit(parse, s, q, merged, commit)
    ensures Good(parse, Synced(parse, s, q, merged, commit))
    ensures s.watermark <= Synced(parse, s, q, merged, commit).watermark
  {
    var lines, window := Whole(parse, s), Window(parse, s);
    var s' := Synced(parse, s, q, merged, commit);
    WindowOfWhole(parse, s.spool, s.watermark);
    LinesAreOrdered(parse, s.spool, 0);
    SyncStrengthens(lines, window, s.watermark, q, merged, s.shipped);
    if commit.Some? {
      CommitIsBoundary(parse, s, q, merged, commit.value);
      forall l | l in lines && l.record.Started? && Attributable(l.record.started) && l.offset < s'.watermark
        ensures Shipped(s'.shipped, l.record.execId)
      {
        if l.offset < s.watermark {
          assert Shipped(s.shipped, l.record.execId);
        } else {
          CommitPassesShipped(lines, window, s.watermark, q, merged, commit.value, |s.spool|, l);
        }
      }
    }
  }

  lemma StepKeepsInv(parse: Parser<SpoolValue>, s: State, step: Step)
    requires Inv(parse, s) && Allowed(parse, s, step)
    ensures Inv(parse, Apply(parse, s, step))
  {
    match step {
      case Append(line) => AppendKeepsGood(parse, s.disk, line);
      case Plan(_, watermarkRead) => LowerIsGood(parse, s.disk, ReadFrom(s.disk, watermarkRead));
      case Blind(watermarkRead) => LowerIsGood(parse, s.disk, ReadFrom(s.disk, watermarkRead));
      case Finish(merged, commit) => FinishKeepsGood(parse, s, merged, commit);
    }
  }

  /** A watermark further back loses nothing either. */
  lemma LowerIsGood(parse: Parser<SpoolValue>, s: Disk, w: nat)
    requires Good(parse, s) && w <= s.watermark && Boundary(s.spool, w)
    ensures Good(parse, s.(watermark := w))
  {}

  lemma FinishKeepsGood(parse: Parser<SpoolValue>, s: State, merged: set<string>, commit: Option<nat>)
    requires Inv(parse, s) && Allowed(parse, s, Finish(merged, commit))
    ensures Good(parse, Apply(parse, s, Finish(merged, commit)).disk)
    ensures commit.Some? ==> s.pending.value.from <= commit.value
  {
    var end := Synced(parse, AsPlanned(s), s.pending.value.q, merged, commit);
    SyncKeepsGood(parse, AsPlanned(s), s.pending.value.q, merged, commit);
    GoodOverMore(parse, end, s.disk.spool);
  }

  lemma StartsGood(parse: Parser<SpoolValue>)
    ensures Inv(parse, EMPTY)
  {}

  /** The running sync read the watermark that is on disk. */
  ghost predicate ReadCurrent(s: State) {
    s.pending.Some? ==> s.pending.value.from == s.disk.watermark
  }

  /** Every read of the watermark works. */
  ghost predicate ReadsWatermark(steps: seq<Step>) {
    forall step :: step in steps && (step.Plan? || step.Blind?) ==> step.watermarkRead
  }
}

/**
 * Hook executions: the wrapper's spool records are grouped by execution, each group goes through
 * the four-state reader machine, and a sync plans the events to merge and how far its byte
 * watermark may move.
 */
module HookExec {
  import opened Common
  import opened Spool

  const HOOK_TIMEOUT_MS := 600_000
  const HOOK_INCOMPLETE_SLACK_MS := 60_000
  const HOOK_INCOMPLETE_AFTER_MS := HOOK_TIMEOUT_MS + HOOK_INCOMPLETE_SLACK_MS

  /** None is a record whose `execId` is absent. */
  type ExecId = Option<string>

  /** `tMs` is the parsed start time; None is a time that does not parse (NaN in the source). */
  datatype StartedRec = StartedRec(t: string, tMs: Option<int>, sessionId: Option<string>,
                                   hookEvent: Option<string>, toolUseId: Option<string>, cmd: string)

  datatype FinishedRec = FinishedRec(durationMs: int, exitCode: Option<int>)

  datatype AbortedRec = AbortedRec(durationMs: int)

  /** A line that parses as JSON. `NullValue` is the literal `null`; `Other` is any value that is
      none of the three record shapes. */
  datatype SpoolValue =
    | NullValue
    | Started(execId: ExecId, started: StartedRec)
    | Finished(execId: ExecId, finished: FinishedRec)
    | Aborted(execId: ExecId, aborted: AbortedRec)
    | Other(execId: ExecId)

  datatype Group = Group(started: Option<StartedRec>, finished: Option<FinishedRec>,
                         aborted: Option<AbortedRec>, startOffset: nat)

  datatype Status = Ok | Error | Killed | Incomplete

  /** `durationMs` is None where the source computes NaN. */
  datatype HookOutcome = HookOutcome(sessionId: string, hookEvent: string, toolUseId: Option<string>,
                                     command: string, ts: string, durationMs: Option<int>,
                                     exitCode: Option<int>, status: Status)

  datatype Verdict = Unattributable | Defer | Resolved(outcome: HookOutcome)

  datatype Event = Event(ts: string, hookEvent: string, command: string, durationMs: Option<int>,
                         exitCode: Option<int>, status: Status, toolUseId: Option<string>)

  type HookLine = Line<SpoolValue>

  // ----- the reader machine -----

  predicate Truthy(s: Option<string>) {
    s.Some? && s.value != ""
  }

  predicate Attributable(started: StartedRec) {
    Truthy(started.sessionId) && Truthy(started.hookEvent)
  }

  function AgeMs(started: StartedRec, nowMs: int): Option<int> {
    match started.tMs
    case None => None
    case Some(t) => Some(nowMs - t)
  }

  function Outcome(s: StartedRec, durationMs: Option<int>, exitCode: Option<int>, status: Status): HookOutcome
    requires Attributable(s)
  {
    HookOutcome(s.sessionId.value, s.hookEvent.value, s.toolUseId, s.cmd, s.t, durationMs, exitCode, status)
  }

  function Completed(s: StartedRec, f: FinishedRec): HookOutcome
    requires Attributable(s)
  {
    Outcome(s, Some(f.durationMs), f.exitCode, if f.exitCode == Some(0) then Ok else Error)
  }

  function DeriveHookOutcome(g: Group, sessionEnded: bool, nowMs: int): Verdict {
    if g.started.None? || !Attributable(g.started.value) then Unattributable
    else
      var s := g.started.value;
      if g.finished.Some? then Resolved(Completed(s, g.finished.value))
      else if g.aborted.Some? then
        Resolved(Outcome(s, Some(g.aborted.value.durationMs), None, Killed))
      else
        var ageMs := AgeMs(s, nowMs);
        if !sessionEnded && ageMs.Some? && ageMs.value < HOOK_INCOMPLETE_AFTER_MS then Defer
        else Resolved(Outcome(s, ageMs, None, Incomplete))
  }

  function HookOutcomeToEvent(o: HookOutcome): Event {
    Event(o.ts, o.hookEvent, o.command, o.durationMs, o.exitCode, o.status,
          if Truthy(o.toolUseId) then o.toolUseId else None)
  }

  /** defer, incomplete, aborted, completed: 0 to 3. */
  function StatusRank(status: Status): nat {
    match status
    case Incomplete => 1
    case Killed => 2
    case Ok => 3
    case Error => 3
  }

  function VerdictRank(v: Verdict): nat {
    if v.Resolved? then StatusRank(v.outcome.status) else 0
  }

  /** `later` holds everything `g` holds. */
  ghost predicate Grows(g: Group, later: Group) {
    && later.started == g.started
    && (g.finished.Some? ==> later.finished == g.finished)
    && (g.aborted.Some? ==> later.aborted.Some?)
  }

  /** With more records and more time a verdict only rises, and a completed one stays the same. */
  lemma VerdictRises(g: Group, later: Group, ended: bool, endedLater: bool, now: int, nowLater: int)
    requires Grows(g, later) && (ended ==> endedLater) && now <= nowLater
    ensures VerdictRank(DeriveHookOutcome(g, ended, now)) <= VerdictRank(DeriveHookOutcome(later, endedLater, nowLater))
    ensures VerdictRank(DeriveHookOutcome(g, ended, now)) == 3 ==>
              DeriveHookOutcome(later, endedLater, nowLater) == DeriveHookOutcome(g, ended, now)
    ensures var v, w := DeriveHookOutcome(g, ended, now), DeriveHookOutcome(later, endedLater, nowLater);
            v.Resolved? ==>
              && w.Resolved?
              && (v.outcome.status == Killed ==> w.outcome.status != Incomplete)
              && (v.outcome.status in {Ok, Error} ==> w == v)
  {
    if g.started.Some? && Attributable(g.started.value) && g.finished.None? && later.finished.None? {
      if g.aborted.None? && later.aborted.None? {
        assert AgeMs(g.started.value, now).Some? <==> AgeMs(g.started.value, nowLater).Some?;
      }
    }
  }

  /** Which records decide a verdict: it is Ok exactly on exit code 0, Error on any other finish,
      Killed on an abort without a finish, Incomplete on a bare start that is too old, undated or
      of an ended session, deferred on any other bare start, and nothing without an attributable
      start. */
  lemma VerdictExactly(g: Group, ended: bool, nowMs: int)
    ensures var v := DeriveHookOutcome(g, ended, nowMs);
            var known := g.started.Some? && Attributable(g.started.value);
            var stale := known && (g.started.value.tMs.None?
                                  || nowMs - g.started.value.tMs.value >= HOOK_INCOMPLETE_AFTER_MS);
            && (v.Unattributable? <==> !known)
            && (v.Defer? <==> known && g.finished.None? && g.aborted.None? && !ended && !stale)
            && (v.Resolved? ==> v.outcome.sessionId == g.started.value.sessionId.value)
            && ((v.Resolved? && v.outcome.status == Ok) <==> known && g.finished.Some? && g.finished.value.exitCode == Some(0))
            && ((v.Resolved? && v.outcome.status == Error) <==> known && g.finished.Some? && g.finished.value.exitCode != Some(0))
            && ((v.Resolved? && v.outcome.status == Killed) <==> known && g.finished.None? && g.aborted.Some?)
            && ((v.Resolved? && v.outcome.status == Incomplete) <==>
                  known && g.finished.None? && g.aborted.None? && (ended || stale))
  {}

  // ----- grouping -----

  predicate Of(l: HookLine, id: ExecId) {
    !l.record.NullValue? && l.record.execId == id
  }

  predicate HasNull(lines: seq<HookLine>) {
    exists l :: l in lines && l.record.NullValue?
  }

  function Absorb(g: Group, l: HookLine): Group {
    match l.record
    case Started(_, s) => g.(started := Some(s), startOffset := l.offset)
    case Finished(_, f) => g.(finished := Some(f))
    case Aborted(_, a) => g.(aborted := Some(a))
    case Other(_) => g
    case NullValue => g
  }

  /** The execution ids in first-seen order, as a JavaScript Map lists them. */
  function Keys(lines: seq<HookLine>): seq<ExecId> {
    if lines == [] then []
    else
      var l, before := lines[|lines| - 1], Keys(lines[..|lines| - 1]);
      if l.record.NullValue? || l.record.execId in before then before else before + [l.record.execId]
  }

  function GroupOf(lines: seq<HookLine>, id: ExecId): Option<Group> {
    if lines == [] then None
    else
      var l, before := lines[|lines| - 1], GroupOf(lines[..|lines| - 1], id);
      if !Of(l, id) then before
      else Some(Absorb(before.GetOr(Group(None, None, None, l.offset)), l))
  }

  /** Grouping throws on a `null` line (it reads a field of null); otherwise it gives the keys in
      first-seen order and one group for each. */
  method GroupByExecId(lines: seq<HookLine>)
    returns (threw: bool, keys: seq<ExecId>, groups: map<ExecId, Group>)
    ensures threw <==> HasNull(lines)
    ensures !threw ==> keys == Keys(lines)
    ensures !threw ==> forall id :: id in groups <==> GroupOf(lines, id).Some?
    ensures !threw ==> forall id :: id in groups ==> groups[id] == GroupOf(lines, id).value
  {
    threw, keys, groups := false, [], map[];
    for i := 0 to |lines|
      invariant !HasNull(lines[..i])
      invariant keys == Keys(lines[..i])
      invariant forall id :: id in keys <==> id in groups
      invariant forall id :: id in groups <==> GroupOf(lines[..i], id).Some?
      invariant forall id :: id in groups ==> groups[id] == GroupOf(lines[..i], id).value
    {
      var l := lines[i];
      TakeStep(lines, i);
      if l.record.NullValue? {
        assert l in lines;
        return true, [], map[];
      }
      var id := l.record.execId;
      var g := if id in groups then groups[id] else Group(None, None, None, l.offset);
      if id !in groups {
        keys := keys + [id];
      }
      groups := groups[id := Absorb(g, l)];
    }
    assert lines[..|lines|] == lines;
  }

  lemma {:induction false} KeysAreGroups(lines: seq<HookLine>)
    ensures Distinct(Keys(lines))
    ensures forall id :: id in Keys(lines) <==> GroupOf(lines, id).Some?
  {
    if lines != [] {
      KeysAreGroups(lines[..|lines| - 1]);
    }
  }

  /** Each part of a group comes from a line. */
  ghost predicate FromLines(lines: seq<HookLine>, id: ExecId, g: Group) {
    && (exists l :: l in lines && l.offset == g.startOffset)
    && (g.started.Some? ==> Line(Started(id, g.started.value), g.startOffset) in lines)
    && (g.finished.Some? ==> exists o :: Line(Finished(id, g.finished.value), o) in lines)
    && (g.aborted.Some? ==> exists o :: Line(Aborted(id, g.aborted.value), o) in lines)
  }

  ghost predicate Shows(g: Option<Group>, v: SpoolValue) {
    && g.Some?
    && (v.Started? ==> g.value.started.Some?)
    && (v.Finished? ==> g.value.finished.Some?)
    && (v.Aborted? ==> g.value.aborted.Some?)
  }

  lemma {:induction false} GroupFromLines(lines: seq<HookLine>, id: ExecId)
    ensures GroupOf(lines, id).Some? ==> FromLines(lines, id, GroupOf(lines, id).value)
  {
    if lines != [] {
      GroupFromLines(lines[..|lines| - 1], id);
    }
  }

  lemma {:induction false} GroupShows(lines: seq<HookLine>, id: ExecId, l: HookLine)
    requires l in lines && Of(l, id)
    ensures Shows(GroupOf(lines, id), l.record)
  {
    var before, last := lines[..|lines| - 1], lines[|lines| - 1];
    if l != last {
      assert lines == before + [last];
      GroupShows(before, id, l);
    }
  }

  lemma {:induction false} GroupNeedsLine(lines: seq<HookLine>, id: ExecId)
    requires GroupOf(lines, id).Some?
    ensures exists l :: l in lines && Of(l, id)
  {
    var before, last := lines[..|lines| - 1], lines[|lines| - 1];
    if Of(last, id) {
      assert last in lines;
    } else {
      GroupNeedsLine(before, id);
      var l :| l in before && Of(l, id);
      assert l in lines;
    }
  }

  /** Each part of a group comes from a line of the window, and from no line when it is absent. */
  lemma {:induction false} GroupSound(lines: seq<HookLine>, id: ExecId)
    ensures GroupOf(lines, id).Some? <==> exists l :: l in lines && Of(l, id)
    ensures GroupOf(lines, id).Some? ==> FromLines(lines, id, GroupOf(lines, id).value)
    ensures forall l :: l in lines && Of(l, id) ==> Shows(GroupOf(lines, id), l.record)
  {
    GroupFromLines(lines, id);
    if GroupOf(lines, id).Some? {
      GroupNeedsLine(lines, id);
    }
    forall l | l in lines && Of(l, id) ensures Shows(GroupOf(lines, id), l.record) {
      GroupShows(lines, id, l);
    }
  }

  /** Of several records of one kind the last one counts, and it is the start that fixes the offset. */
  lemma {:induction false} LastRecordCounts(lines: seq<HookLine>, i: nat)
    requires i < |lines| && !lines[i].record.NullValue?
    ensures var l, id := lines[i], lines[i].record.execId;
            var g := GroupOf(lines, id);
            && g.Some?
            && (l.record.Started? && (forall k :: i < k < |lines| && Of(lines[k], id) ==> !lines[k].record.Started?) ==>
                  g.value.started == Some(l.record.started) && g.value.startOffset == l.offset)
            && (l.record.Finished? && (forall k :: i < k < |lines| && Of(lines[k], id) ==> !lines[k].record.Finished?) ==>
                  g.value.finished == Some(l.record.finished))
            && (l.record.Aborted? && (forall k :: i < k < |lines| && Of(lines[k], id) ==> !lines[k].record.Aborted?) ==>
                  g.value.aborted == Some(l.record.aborted))
  {
    var n := |lines| - 1;
    if i < n {
      LastRecordCounts(lines[..n], i);
      assert forall k :: 0 <= k < n ==> lines[..n][k] == lines[k];
    }
  }

  /** An execution without a start lies where its first line does. */
  lemma {:induction false} FirstLineCounts(lines: seq<HookLine>, i: nat)
    requires i < |lines| && !lines[i].record.NullValue?
    requires forall k :: 0 <= k < |lines| && Of(lines[k], lines[i].record.execId) ==> i <= k && !lines[k].record.Started?
    ensures var g := GroupOf(lines, lines[i].record.execId); g.Some? && g.value.startOffset == lines[i].offset
  {
    var n := |lines| - 1;
    if i < n {
      FirstLineCounts(lines[..n], i);
    } else if GroupOf(lines[..n], lines[i].record.execId).Some? {
      GroupNeedsLine(lines[..n], lines[i].record.execId);
      assert false;
    }
  }

  /** The keys are the executions of the window, in the order of their first lines. */
  lemma {:induction false} KeysAreFirstSeen(lines: seq<HookLine>) returns (first: seq<nat>)
    ensures |first| == |Keys(lines)|
    ensures forall k :: 0 <= k < |first| ==>
              && first[k] < |lines| && Of(lines[first[k]], Keys(lines)[k])
              && forall i :: 0 <= i < first[k] ==> !Of(lines[i], Keys(lines)[k])
    ensures forall j, k :: 0 <= j < k < |first| ==> first[j] < first[k]
    ensures forall i :: 0 <= i < |lines| && !lines[i].record.NullValue? ==> lines[i].record.execId in Keys(lines)
  {
    if lines == [] {
      first := [];
    } else {
      var n := |lines| - 1;
      first := KeysAreFirstSeen(lines[..n]);
      var l, keys := lines[n], Keys(lines[..n]);
      assert forall i :: 0 <= i < n ==> lines[..n][i] == lines[i];
      if !l.record.NullValue? && l.record.execId !in keys {
        assert Keys(lines) == keys + [l.record.execId];
        forall i | 0 <= i < n ensures !Of(lines[i], l.record.execId) {
          assert lines[..n][i] == lines[i];
        }
        first := first + [n];
      } else {
        assert Keys(lines) == keys;
      }
    }
  }
}

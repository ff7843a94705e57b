/** What the events of a plan say: each field told by the records of the execution it reports. */
module HookEvents {
  import opened Common
  import opened Spool
  import opened HookExec
  import opened HookPlan

  /** The event carries the start's time, hook and command, and the tool use unless it is empty. Its
      outcome is that of the `finished` record; failing that, of the `aborted` one; failing that, the
      hook never completed and has run for as long as the start is old. */
  ghost predicate Reports(e: Event, g: Group, nowMs: int) {
    g.started.Some? &&
    var s := g.started.value;
    && s.hookEvent == Some(e.hookEvent) && e.command == s.cmd && e.ts == s.t
    && e.toolUseId == (if s.toolUseId == Some("") then None else s.toolUseId)
    && if g.finished.Some? then
         && e.durationMs == Some(g.finished.value.durationMs) && e.exitCode == g.finished.value.exitCode
         && e.status == (if e.exitCode == Some(0) then Ok else Error)
       else
         && e.exitCode == None
         && if g.aborted.Some? then
              e.durationMs == Some(g.aborted.value.durationMs) && e.status == Killed
            else
              e.durationMs == (if s.tMs.Some? then Some(nowMs - s.tMs.value) else None) && e.status == Incomplete
  }

  /** The execution names the session and a hook, and it ended, its session did, or it is undated or
      at least eleven minutes old. */
  ghost predicate Due(g: Group, q: Query, session: string) {
    g.started.Some? &&
    var s := g.started.value;
    && s.sessionId == Some(session) && session != ""
    && s.hookEvent.Some? && s.hookEvent != Some("")
    && (g.finished.Some? || g.aborted.Some? || q.sessionEnded(session)
        || s.tMs.None? || q.nowMs - s.tMs.value >= 11 * 60 * 1000)
  }

  lemma DueExactly(lines: seq<HookLine>, id: ExecId, q: Query, session: string)
    ensures ResolvedFor(lines, id, q, session) <==> GroupOf(lines, id).Some? && Due(GroupOf(lines, id).value, q, session)
    ensures ResolvedFor(lines, id, q, session) ==>
              Reports(HookOutcomeToEvent(VerdictOf(lines, id, q).outcome), GroupOf(lines, id).value, q.nowMs)
  {}

  /** The events list the executions at the positions `at` of `keys`: those due, and no other, in order. */
  ghost predicate Lists(events: seq<Event>, at: seq<nat>, lines: seq<HookLine>, keys: seq<ExecId>, q: Query, session: string) {
    && |at| == |events|
    && (forall i, j :: 0 <= i < j < |at| ==> at[i] < at[j])
    && (forall i :: 0 <= i < |at| ==> at[i] < |keys|)
    && (forall k :: 0 <= k < |keys| ==>
          (k in at <==> GroupOf(lines, keys[k]).Some? && Due(GroupOf(lines, keys[k]).value, q, session)))
    && (forall i :: 0 <= i < |at| ==>
          && GroupOf(lines, keys[at[i]]).Some?
          && Reports(events[i], GroupOf(lines, keys[at[i]]).value, q.nowMs))
  }

  lemma {:induction false} EventsAreLists(lines: seq<HookLine>, keys: seq<ExecId>, q: Query, session: string) returns (at: seq<nat>)
    ensures Lists(EventsFor(lines, keys, q, session), at, lines, keys, q, session)
  {
    if keys == [] {
      at := [];
    } else {
      var n := |keys| - 1;
      at := EventsAreLists(lines, keys[..n], q, session);
      DueExactly(lines, keys[n], q, session);
      if ResolvedFor(lines, keys[n], q, session) {
        at := at + [n];
      }
    }
  }

  /** A plan lists for each session the executions due for it, each once, in the order they were first
      seen, and every event says what its execution's records say. */
  lemma PlannedEventsExactly(p: Plan, lines: seq<HookLine>, q: Query, fileLength: nat, session: string) returns (at: seq<nat>)
    requires IsPlan(p, lines, q, fileLength)
    ensures Lists(if session in p.eventsBySession then p.eventsBySession[session] else [], at, lines, Keys(lines), q, session)
  {
    at := EventsAreLists(lines, Keys(lines), q, session);
    if session !in p.eventsBySession {
      NoEvents(lines, Keys(lines), q, session);
    }
  }
}

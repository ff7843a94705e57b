/** The plan of one sync: what to merge into each session and how far the watermark may move. */
module HookPlan {
  import opened Common
  import opened Spool
  import opened HookExec

  /** `sessionEnded` is the caller's liveness check. */
  datatype Query = Query(nowMs: int, sessionEnded: string -> bool)

  datatype Plan = Plan(eventsBySession: map<string, seq<Event>>,
                       sessionGroupOffsets: map<string, nat>,
                       fullyConsumedOffset: nat,
                       recordsRead: nat)

  function GroupVerdict(g: Group, q: Query): Verdict {
    var ended := g.started.Some? && Truthy(g.started.value.sessionId)
                 && q.sessionEnded(g.started.value.sessionId.value);
    DeriveHookOutcome(g, ended, q.nowMs)
  }

  function VerdictOf(lines: seq<HookLine>, id: ExecId, q: Query): Verdict {
    match GroupOf(lines, id)
    case None => Unattributable
    case Some(g) => GroupVerdict(g, q)
  }

  function OffsetOf(lines: seq<HookLine>, id: ExecId): nat {
    match GroupOf(lines, id)
    case None => 0
    case Some(g) => g.startOffset
  }

  predicate ResolvedFor(lines: seq<HookLine>, id: ExecId, q: Query, session: string) {
    var v := VerdictOf(lines, id, q);
    v.Resolved? && v.outcome.sessionId == session
  }

  /** The events of one session, in first-seen order of their executions. */
  function EventsFor(lines: seq<HookLine>, keys: seq<ExecId>, q: Query, session: string): seq<Event> {
    if keys == [] then []
    else
      var id, before := keys[|keys| - 1], EventsFor(lines, keys[..|keys| - 1], q, session);
      if ResolvedFor(lines, id, q, session) then before + [HookOutcomeToEvent(VerdictOf(lines, id, q).outcome)]
      else before
  }

  /** `offset` is the least of `cap` and the start offsets of the groups in `ids`. */
  ghost predicate IsLeast(lines: seq<HookLine>, ids: iset<ExecId>, cap: Option<nat>, offset: nat) {
    && (cap.Some? ==> offset <= cap.value)
    && (forall id :: id in ids ==> offset <= OffsetOf(lines, id))
    && (cap == Some(offset) || exists id :: id in ids && offset == OffsetOf(lines, id))
  }

  ghost function Deferred(lines: seq<HookLine>, keys: seq<ExecId>, q: Query): iset<ExecId> {
    iset id | id in keys && VerdictOf(lines, id, q).Defer?
  }

  ghost function ResolvedIn(lines: seq<HookLine>, keys: seq<ExecId>, q: Query, session: string): iset<ExecId> {
    iset id | id in keys && ResolvedFor(lines, id, q, session)
  }

  ghost predicate PlansEvents(p: Plan, lines: seq<HookLine>, keys: seq<ExecId>, q: Query) {
    && (forall s :: s in p.eventsBySession <==> exists id :: id in ResolvedIn(lines, keys, q, s))
    && (forall s :: s in p.eventsBySession ==> p.eventsBySession[s] == EventsFor(lines, keys, q, s))
  }

  ghost predicate PlansOffsets(p: Plan, lines: seq<HookLine>, keys: seq<ExecId>, q: Query) {
    && (forall s :: s in p.sessionGroupOffsets <==> exists id :: id in ResolvedIn(lines, keys, q, s))
    && (forall s :: s in p.sessionGroupOffsets ==>
          IsLeast(lines, ResolvedIn(lines, keys, q, s), None, p.sessionGroupOffsets[s]))
  }

  ghost predicate PlansKeys(p: Plan, lines: seq<HookLine>, keys: seq<ExecId>, q: Query, fileLength: nat) {
    && PlansEvents(p, lines, keys, q)
    && PlansOffsets(p, lines, keys, q)
    && IsLeast(lines, Deferred(lines, keys, q), Some(fileLength), p.fullyConsumedOffset)
  }

  /** What a plan holds for the window `lines` of a spool of `fileLength` bytes. */
  ghost predicate IsPlan(p: Plan, lines: seq<HookLine>, q: Query, fileLength: nat) {
    PlansKeys(p, lines, Keys(lines), q, fileLength) && p.recordsRead == |lines|
  }

  /** One pass of the planning loop: what a group's verdict adds to the plan. */
  function PlanAdd(p: Plan, v: Verdict, startOffset: nat): Plan {
    match v
    case Defer => p.(fullyConsumedOffset := Min(p.fullyConsumedOffset, startOffset))
    case Unattributable => p
    case Resolved(o) =>
      var s := o.sessionId;
      var list := if s in p.eventsBySession then p.eventsBySession[s] else [];
      var least := if s in p.sessionGroupOffsets then Min(p.sessionGroupOffsets[s], startOffset) else startOffset;
      p.(eventsBySession := p.eventsBySession[s := list + [HookOutcomeToEvent(o)]],
         sessionGroupOffsets := p.sessionGroupOffsets[s := least])
  }

  lemma LeastInsert(lines: seq<HookLine>, ids: iset<ExecId>, cap: Option<nat>, offset: nat, id: ExecId)
    requires IsLeast(lines, ids, cap, offset)
    ensures IsLeast(lines, ids + iset{id}, cap, Min(offset, OffsetOf(lines, id)))
  {}

  lemma ResolvedStep(lines: seq<HookLine>, keys: seq<ExecId>, id: ExecId, q: Query, s: string)
    ensures ResolvedIn(lines, keys + [id], q, s)
         == ResolvedIn(lines, keys, q, s) + (if ResolvedFor(lines, id, q, s) then iset{id} else iset{})
  {}

  lemma EventsStep(p: Plan, lines: seq<HookLine>, keys: seq<ExecId>, id: ExecId, q: Query)
    requires PlansEvents(p, lines, keys, q)
    ensures PlansEvents(PlanAdd(p, VerdictOf(lines, id, q), OffsetOf(lines, id)), lines, keys + [id], q)
  {
    var p', keys' := PlanAdd(p, VerdictOf(lines, id, q), OffsetOf(lines, id)), keys + [id];
    assert keys'[..|keys'| - 1] == keys;
    forall s
      ensures s in p'.eventsBySession <==> exists x :: x in ResolvedIn(lines, keys', q, s)
      ensures s in p'.eventsBySession ==> p'.eventsBySession[s] == EventsFor(lines, keys', q, s)
    {
      ResolvedStep(lines, keys, id, q, s);
      if s !in p.eventsBySession {
        NoEvents(lines, keys, q, s);
      }
      if ResolvedFor(lines, id, q, s) {
        assert id in ResolvedIn(lines, keys', q, s);
      }
    }
  }

  lemma OffsetsStep(p: Plan, lines: seq<HookLine>, keys: seq<ExecId>, id: ExecId, q: Query)
    requires PlansOffsets(p, lines, keys, q)
    ensures PlansOffsets(PlanAdd(p, VerdictOf(lines, id, q), OffsetOf(lines, id)), lines, keys + [id], q)
  {
    var p', keys' := PlanAdd(p, VerdictOf(lines, id, q), OffsetOf(lines, id)), keys + [id];
    forall s
      ensures s in p'.sessionGroupOffsets <==> exists x :: x in ResolvedIn(lines, keys', q, s)
      ensures s in p'.sessionGroupOffsets ==>
                IsLeast(lines, ResolvedIn(lines, keys', q, s), None, p'.sessionGroupOffsets[s])
    {
      ResolvedStep(lines, keys, id, q, s);
      if s in p.sessionGroupOffsets {
        LeastInsert(lines, ResolvedIn(lines, keys, q, s), None, p.sessionGroupOffsets[s], id);
      }
      if ResolvedFor(lines, id, q, s) {
        assert id in ResolvedIn(lines, keys', q, s);
      }
      if ResolvedFor(lines, id, q, s) && s !in p.sessionGroupOffsets {
        assert ResolvedIn(lines, keys', q, s) == iset{id};
      }
    }
  }

  lemma PlanStep(p: Plan, lines: seq<HookLine>, keys: seq<ExecId>, id: ExecId, q: Query, fileLength: nat)
    requires PlansKeys(p, lines, keys, q, fileLength)
    ensures PlansKeys(PlanAdd(p, VerdictOf(lines, id, q), OffsetOf(lines, id)), lines, keys + [id], q, fileLength)
  {
    EventsStep(p, lines, keys, id, q);
    OffsetsStep(p, lines, keys, id, q);
    LeastInsert(lines, Deferred(lines, keys, q), Some(fileLength), p.fullyConsumedOffset, id);
    assert Deferred(lines, keys + [id], q)
        == Deferred(lines, keys, q) + (if VerdictOf(lines, id, q).Defer? then iset{id} else iset{});
  }

  lemma {:induction false} NoEvents(lines: seq<HookLine>, keys: seq<ExecId>, q: Query, session: string)
    requires forall id :: id !in ResolvedIn(lines, keys, q, session)
    ensures EventsFor(lines, keys, q, session) == []
  {
    if keys != [] {
      var id, before := keys[|keys| - 1], keys[..|keys| - 1];
      assert forall x :: x in before ==> x in keys;
      assert ResolvedIn(lines, before, q, session) <= ResolvedIn(lines, keys, q, session);
      assert id !in ResolvedIn(lines, keys, q, session);
      NoEvents(lines, before, q, session);
    }
  }

  lemma PlanStart(lines: seq<HookLine>, q: Query, fileLength: nat)
    ensures PlansKeys(Plan(map[], map[], fileLength, |lines|), lines, [], q, fileLength)
  {}

  /** The planning loop over the groups of a window, in first-seen order. */
  method PlanGroups(ghost lines: seq<HookLine>, recordsRead: nat, keys: seq<ExecId>, groups: map<ExecId, Group>,
                    q: Query, fileLength: nat)
    returns (p: Plan)
    requires recordsRead == |lines| && keys == Keys(lines)
    requires forall id :: id in keys ==> id in groups && GroupOf(lines, id) == Some(groups[id])
    ensures IsPlan(p, lines, q, fileLength)
  {
    p := Plan(map[], map[], fileLength, recordsRead);
    PlanStart(lines, q, fileLength);
    var i := 0;
    while i < |keys|
      invariant 0 <= i <= |keys|
      invariant PlansKeys(p, lines, keys[..i], q, fileLength)
      invariant p.recordsRead == |lines|
    {
      var id := keys[i];
      assert id in keys;
      var group := groups[id];
      PlanStep(p, lines, keys[..i], id, q, fileLength);
      assert keys[..i + 1] == keys[..i] + [id];
      p := PlanAdd(p, GroupVerdict(group, q), group.startOffset);
      i := i + 1;
    }
    assert keys[..|keys|] == keys;
  }

  /** Planning reads the window above the watermark and writes nothing; None is the exception
      that a `null` line raises. */
  method PlanHookExecMerge(parse: Parser<SpoolValue>, file: Option<seq<byte>>, watermark: nat, q: Query)
    returns (plan: Option<Plan>)
    ensures file.None? ==> plan.Some? && IsPlan(plan.value, [], q, watermark)
    ensures file.Some? ==>
              var window := Lines(parse, file.value, Clamp(watermark, |file.value|));
              && (plan.None? <==> HasNull(window))
              && (plan.Some? ==> IsPlan(plan.value, window, q, |file.value|))
  {
    var lines, fileLength := ReadLinesSince(parse, file, watermark);
    var threw, keys, groups := GroupByExecId(lines);
    if threw {
      return None;
    }
    KeysAreGroups(lines);
    var p := PlanGroups(lines, |lines|, keys, groups, q, fileLength);
    return Some(p);
  }

  /** The groups that hold the watermark back: those deferred and those of unmerged sessions. */
  ghost function Held(lines: seq<HookLine>, q: Query, merged: set<string>): iset<ExecId> {
    iset id | id in Keys(lines) &&
      (match VerdictOf(lines, id, q)
       case Defer => true
       case Unattributable => false
       case Resolved(o) => o.sessionId !in merged)
  }

  /** The sync command's commit rule: the offset to persist is the least of the file length and
      the starts of the held groups. */
  method CommitOffset(plan: Plan, merged: set<string>, ghost lines: seq<HookLine>, ghost q: Query, ghost fileLength: nat)
    returns (offset: nat)
    requires IsPlan(plan, lines, q, fileLength)
    ensures IsLeast(lines, Held(lines, q, merged), Some(fileLength), offset)
  {
    offset := plan.fullyConsumedOffset;
    var todo := plan.sessionGroupOffsets.Keys;
    HeldAtFirst(plan, lines, q, merged);
    while todo != {}
      invariant todo <= plan.sessionGroupOffsets.Keys
      invariant IsLeast(lines, Held(lines, q, merged + todo), Some(fileLength), offset)
      decreases todo
    {
      var s :| s in todo;
      HeldStep(plan, lines, q, merged, todo, s, fileLength, offset);
      if s !in merged {
        offset := Min(offset, plan.sessionGroupOffsets[s]);
      }
      todo := todo - {s};
    }
    assert merged + {} == merged;
  }

  lemma HeldStep(plan: Plan, lines: seq<HookLine>, q: Query, merged: set<string>, todo: set<string>, s: string,
                 cap: nat, offset: nat)
    requires PlansOffsets(plan, lines, Keys(lines), q) && s in todo && s in plan.sessionGroupOffsets
    requires IsLeast(lines, Held(lines, q, merged + todo), Some(cap), offset)
    ensures IsLeast(lines, Held(lines, q, merged + (todo - {s})), Some(cap),
                    if s in merged then offset else Min(offset, plan.sessionGroupOffsets[s]))
  {
    if s in merged {
      assert merged + todo == merged + (todo - {s});
    } else {
      assert merged + todo - {s} == merged + (todo - {s});
      HeldGrows(lines, q, merged + todo, s);
      LeastUnion(lines, Held(lines, q, merged + todo), ResolvedIn(lines, Keys(lines), q, s), cap, offset,
                 plan.sessionGroupOffsets[s]);
    }
  }

  lemma HeldAtFirst(plan: Plan, lines: seq<HookLine>, q: Query, merged: set<string>)
    requires PlansOffsets(plan, lines, Keys(lines), q)
    ensures Held(lines, q, merged + plan.sessionGroupOffsets.Keys) == Deferred(lines, Keys(lines), q)
  {
    forall id | id in Keys(lines) && VerdictOf(lines, id, q).Resolved?
      ensures VerdictOf(lines, id, q).outcome.sessionId in plan.sessionGroupOffsets
    {
      assert id in ResolvedIn(lines, Keys(lines), q, VerdictOf(lines, id, q).outcome.sessionId);
    }
  }

  lemma HeldGrows(lines: seq<HookLine>, q: Query, merged: set<string>, s: string)
    requires s in merged
    ensures Held(lines, q, merged - {s}) == Held(lines, q, merged) + ResolvedIn(lines, Keys(lines), q, s)
  {}

  lemma LeastUnion(lines: seq<HookLine>, a: iset<ExecId>, b: iset<ExecId>, cap: nat, x: nat, y: nat)
    requires IsLeast(lines, a, Some(cap), x) && IsLeast(lines, b, None, y)
    ensures IsLeast(lines, a + b, Some(cap), Min(x, y))
  {}
}

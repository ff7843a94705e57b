/**
 * The same protocol as the code runs it: the spool and watermark files, the session objects that
 * receive events, and one sync from plan to commit.
 */
module HookFiles {
  import opened Common
  import opened Spool
  import opened HookExec
  import opened HookPlan
  import opened HookSync

  /** `hook` is None on an event that did not come from the hook spool. */
  datatype SessionEvent = SessionEvent(seqNo: int, hook: Option<Event>)

  class Session {
    const id: string
    var events: seq<SessionEvent>

    constructor (id: string, events: seq<SessionEvent>)
      ensures this.id == id && this.events == events
    {
      this.id := id;
      this.events := events;
    }
  }

  /** The highest sequence number in use, -1 when there is none. */
  function MaxSeq(events: seq<SessionEvent>): int {
    if events == [] then -1 else Max(MaxSeq(events[..|events| - 1]), events[|events| - 1].seqNo)
  }

  function Numbered(events: seq<Event>, first: int): seq<SessionEvent> {
    seq(|events|, i requires 0 <= i < |events| => SessionEvent(first + i, Some(events[i])))
  }

  /** The events numbered on from the highest sequence number in use. */
  function WithAppended(before: seq<SessionEvent>, events: seq<Event>): seq<SessionEvent> {
    before + Numbered(events, MaxSeq(before) + 1)
  }

  method AppendHookExecEvents(session: Session, events: seq<Event>)
    modifies session
    ensures session.events == WithAppended(old(session.events), events)
  {
    var max := -1;
    for i := 0 to |session.events|
      invariant session.events == old(session.events)
      invariant max == MaxSeq(session.events[..i])
    {
      TakeStep(session.events, i);
      max := Max(max, session.events[i].seqNo);
    }
    assert session.events[..|session.events|] == session.events;
    var nextSeq := max + 1;
    for i := 0 to |events|
      invariant nextSeq == max + 1 + i
      invariant session.events == old(session.events) + Numbered(events, max + 1)[..i]
    {
      session.events := session.events + [SessionEvent(nextSeq, Some(events[i]))];
      nextSeq := nextSeq + 1;
    }
  }

  lemma {:induction false} MaxSeqIsMax(events: seq<SessionEvent>)
    ensures forall i :: 0 <= i < |events| ==> events[i].seqNo <= MaxSeq(events)
  {
    if events != [] {
      MaxSeqIsMax(events[..|events| - 1]);
    }
  }

  /** What an append leaves: all that was there, then the events in order, numbered on from the highest
      number in use, from 0 when none is. */
  lemma AppendedExactly(before: seq<SessionEvent>, events: seq<Event>) returns (highest: int)
    ensures forall e :: e in before ==> e.seqNo <= highest
    ensures highest == -1 || (highest >= -1 && exists e :: e in before && e.seqNo == highest)
    ensures var after := WithAppended(before, events);
            && |after| == |before| + |events| && after[..|before|] == before
            && forall i :: 0 <= i < |events| ==> after[|before| + i] == SessionEvent(highest + 1 + i, Some(events[i]))
  {
    highest := MaxSeq(before);
    MaxSeqIsMax(before);
    MaxSeqIsThere(before);
  }

  lemma {:induction false} MaxSeqIsThere(events: seq<SessionEvent>)
    ensures MaxSeq(events) >= -1
    ensures MaxSeq(events) == -1 || exists e :: e in events && e.seqNo == MaxSeq(events)
  {
    if events != [] {
      var n := |events| - 1;
      MaxSeqIsThere(events[..n]);
      assert events[n] in events && forall e :: e in events[..n] ==> e in events;
    }
  }

  /** Appended events never reuse a sequence number, and keep distinct ones distinct. */
  lemma AppendedSeqsAreFresh(before: seq<SessionEvent>, events: seq<Event>)
    requires forall i, j :: 0 <= i < j < |before| ==> before[i].seqNo != before[j].seqNo
    ensures var after := WithAppended(before, events);
            forall i, j :: 0 <= i < j < |after| ==> after[i].seqNo != after[j].seqNo
  {
    MaxSeqIsMax(before);
  }

  function EventsToMerge(plan: Plan, id: string): seq<Event> {
    if id in plan.eventsBySession then plan.eventsBySession[id] else []
  }

  /** The ids of the sessions that get events. */
  function MergedIds(plan: Plan, sessions: seq<Session>): set<string> {
    set s | s in sessions && EventsToMerge(plan, s.id) != [] :: s.id
  }

  /** Merging while scanning: each scanned session with planned events gets them appended. */
  method MergeHookEvents(plan: Plan, sessions: seq<Session>) returns (merged: set<string>)
    requires forall i, j :: 0 <= i < j < |sessions| ==> sessions[i] != sessions[j]
    modifies sessions
    ensures merged == MergedIds(plan, sessions)
    ensures forall s :: s in sessions ==>
              s.events == WithAppended(old(s.events), EventsToMerge(plan, s.id))
  {
    merged := {};
    for i := 0 to |sessions|
      invariant merged == MergedIds(plan, sessions[..i])
      invariant forall j :: 0 <= j < i ==>
        sessions[j].events == WithAppended(old(sessions[j].events), EventsToMerge(plan, sessions[j].id))
      invariant forall j :: i <= j < |sessions| ==> sessions[j].events == old(sessions[j].events)
    {
      var session := sessions[i];
      if session.id in plan.eventsBySession && plan.eventsBySession[session.id] != [] {
        AppendHookExecEvents(session, plan.eventsBySession[session.id]);
        merged := merged + {session.id};
      }
    }
    assert sessions[..|sessions|] == sessions;
  }

  /** The merge of a plan, told by the window it was planned over. */
  method MergePlanned(plan: Plan, sessions: seq<Session>, ghost window: seq<HookLine>, ghost q: Query, ghost fileLength: nat)
    returns (merged: set<string>)
    requires IsPlan(plan, window, q, fileLength)
    requires forall i, j :: 0 <= i < j < |sessions| ==> sessions[i] != sessions[j]
    modifies sessions
    ensures forall id :: id in merged <==>
              exists s :: s in sessions && s.id == id && PlannedFor(window, q, id) != []
    ensures forall s :: s in sessions ==>
              s.events == WithAppended(old(s.events), PlannedFor(window, q, s.id))
  {
    merged := MergeHookEvents(plan, sessions);
    PlanGivesPlanned(plan, window, q, fileLength);
  }

  /** The spool and watermark files under the home directory. */
  class Files {
    var spool: Option<seq<byte>>
    /** The number in the watermark file, None when the file is missing or holds no number. */
    var watermark: Option<int>
    ghost var shipped: seq<Delivery>

    constructor ()
      ensures Disk() == EMPTY.disk
    {
      spool, watermark, shipped := None, None, [];
    }

    function ReadWatermark(): nat
      reads this
    {
      if watermark.Some? && watermark.value >= 0 then watermark.value else 0
    }

    ghost function Disk(): Disk
      reads this
    {
      HookSync.Disk(spool.GetOr([]), ReadWatermark(), shipped)
    }

    method Append(line: seq<byte>)
      modifies this`spool
      ensures Disk() == Appended(old(Disk()), line)
    {
      spool := Some(spool.GetOr([]) + line + [NEWLINE]);
    }

    method AppendMore(more: seq<seq<byte>>)
      modifies this`spool
      ensures spool.GetOr([]) == AppendedAll(old(spool).GetOr([]), more)
    {
      for i := 0 to |more|
        invariant spool.GetOr([]) == AppendedAll(old(spool).GetOr([]), more[..i])
      {
        assert more[..i + 1][..i] == more[..i];
        spool := Some(spool.GetOr([]) + more[i] + [NEWLINE]);
      }
      assert more[..|more|] == more;
    }

    /** One sync: plan, merge into the scanned sessions, ship, and commit when `succeeds`. The spool
        may grow while it runs (`more`), and either read may fail; a spool file that is not there
        reads as one that cannot be read. */
    method Sync(parse: Parser<SpoolValue>, q: Query, sessions: seq<Session>, more: seq<seq<byte>>,
                watermarkRead: bool, spoolRead: bool, succeeds: bool)
      returns (threw: bool, merged: set<string>, ghost commit: Option<nat>)
      requires forall i, j :: 0 <= i < j < |sessions| ==> sessions[i] != sessions[j]
      modifies this, sessions
      ensures threw <==> spoolRead && HasNull(Window(parse, SeenBy(old(Disk()), watermarkRead)))
      ensures threw ==> Disk() == old(Disk()) && forall s :: s in sessions ==> s.events == old(s.events)
      ensures !threw ==> (commit.Some? <==> succeeds)
      ensures !threw && spoolRead && old(spool).Some? ==>
                && MayCommit(parse, SeenBy(old(Disk()), watermarkRead), q, merged, commit)
                && Disk() == Synced(parse, SeenBy(old(Disk()), watermarkRead), q, merged, commit).(
                               spool := AppendedAll(old(Disk()).spool, more), watermark := commit.GetOr(old(Disk()).watermark))
                && (forall id :: id in merged <==>
                      exists s :: s in sessions && s.id == id
                                  && PlannedFor(Window(parse, SeenBy(old(Disk()), watermarkRead)), q, id) != [])
                && (forall s :: s in sessions ==>
                      s.events == WithAppended(old(s.events), PlannedFor(Window(parse, SeenBy(old(Disk()), watermarkRead)), q, s.id)))
      ensures !(spoolRead && old(spool).Some?) ==>
                && merged == {} && (succeeds ==> commit == Some(ReadFrom(old(Disk()), watermarkRead)))
                && Disk() == (if succeeds then Apply(parse, State(old(Disk()), None), Blind(watermarkRead)).disk else old(Disk())).(
                               spool := AppendedAll(old(Disk()).spool, more))
                && forall s :: s in sessions ==> s.events == old(s.events)
    {
      var from := if watermarkRead then ReadWatermark() else 0;
      ghost var seen := SeenBy(Disk(), watermarkRead);
      var file := if spoolRead then spool else None;
      ghost var window, length := if file.Some? then Window(parse, seen) else [], if file.Some? then |seen.spool| else from;
      assert spool.None? ==> Window(parse, seen) == [];
      var plan := PlanHookExecMerge(parse, file, from, q);
      if plan.None? {
        return true, {}, None;
      }
      merged, commit := ShipAndCommit(plan.value, sessions, more, q, window, length, succeeds);
      return false, merged, commit;
    }

    /** Merging, shipping and committing a plan made over `window`, lines of a spool of `length`. */
    method ShipAndCommit(plan: Plan, sessions: seq<Session>, more: seq<seq<byte>>, ghost q: Query,
                         ghost window: seq<HookLine>, ghost length: nat, succeeds: bool)
      returns (merged: set<string>, ghost commit: Option<nat>)
      requires IsPlan(plan, window, q, length)
      requires forall i, j :: 0 <= i < j < |sessions| ==> sessions[i] != sessions[j]
      modifies this, sessions
      ensures commit.Some? <==> succeeds
      ensures commit.Some? ==> IsLeast(window, Held(window, q, merged), Some(length), commit.value)
      ensures Disk() == old(Disk()).(spool := AppendedAll(old(Disk()).spool, more),
                                     watermark := commit.GetOr(old(Disk()).watermark),
                                     shipped := old(Disk()).shipped + Deliveries(window, Keys(window), q, merged))
      ensures forall id :: id in merged <==>
                exists s :: s in sessions && s.id == id && PlannedFor(window, q, id) != []
      ensures forall s :: s in sessions ==> s.events == WithAppended(old(s.events), PlannedFor(window, q, s.id))
    {
      merged := MergePlanned(plan, sessions, window, q, length);
      var offset := HookPlan.CommitOffset(plan, merged, window, q, length);
      AppendMore(more);
      shipped := shipped + Deliveries(window, Keys(window), q, merged);
      commit := None;
      if succeeds {
        watermark := Some(offset);
        commit := Some(offset);
      }
    }
  }

  /** What a sync that can read the spool sees of the disk: a failed read of the watermark gives 0. */
  function SeenBy(d: Disk, watermarkRead: bool): Disk {
    d.(watermark := ReadFrom(d, watermarkRead))
  }

  /** The events the window holds for one session. */
  function PlannedFor(window: seq<HookLine>, q: Query, id: string): seq<Event> {
    EventsFor(window, Keys(window), q, id)
  }

  lemma PlanGivesPlanned(plan: Plan, window: seq<HookLine>, q: Query, fileLength: nat)
    requires IsPlan(plan, window, q, fileLength)
    ensures forall id :: EventsToMerge(plan, id) == PlannedFor(window, q, id)
  {
    forall id ensures EventsToMerge(plan, id) == PlannedFor(window, q, id) {
      if id !in plan.eventsBySession {
        NoEvents(window, Keys(window), q, id);
      }
    }
  }

  function AppendedAll(spool: seq<byte>, more: seq<seq<byte>>): seq<byte> {
    if more == [] then spool
    else AppendedAll(spool, more[..|more| - 1]) + more[|more| - 1] + [NEWLINE]
  }

  /** Lines appended one after the other, as the protocol appends each. */
  lemma AppendedAllIsAppends(d: Disk, more: seq<seq<byte>>, line: seq<byte>)
    ensures AppendedAll(d.spool, []) == d.spool
    ensures d.(spool := AppendedAll(d.spool, more + [line])) == Appended(d.(spool := AppendedAll(d.spool, more)), line)
  {
    assert (more + [line])[..|more|] == more;
  }
}

/** Today's spend for the statusline: per-turn attribution, and the modification-time filter that
    keeps old transcripts from being parsed. */
module Statusline {
  import opened Common

  /** A timestamp field: left out, present but not a date, or a date. */
  datatype Stamp = Missing | Unparsable | At(ms: int)

  datatype Turn = Turn(ts: Stamp, costUsd: Option<real>)

  datatype Session = Session(id: string, startedAt: Stamp, byAgentItself: bool, totalUsd: Option<real>, turns: seq<Turn>)

  /** A discovered transcript: its adapter, whether it is a subagent's, its file time, and the
      session it parses to, None when parsing fails. */
  datatype Entry = Entry(adapter: string, isSubagent: bool, mtimeMs: int, parsed: Option<Session>)

  /** The time a turn is attributed to: its own, else the session's start; None is no date. */
  function TurnTime(s: Session, t: Turn): Option<int> {
    var stamp := if t.ts.Missing? then s.startedAt else t.ts;
    if stamp.At? then Some(stamp.ms) else None
  }

  /** The turn is known to lie before the boundary. */
  predicate Before(s: Session, t: Turn, boundaryMs: int) {
    TurnTime(s, t).Some? && TurnTime(s, t).value < boundaryMs
  }

  function PricedSince(s: Session, turns: seq<Turn>, boundaryMs: int): real {
    if turns == [] then 0.0
    else
      var t := turns[|turns| - 1];
      PricedSince(s, turns[..|turns| - 1], boundaryMs)
      + if t.costUsd.Some? && !Before(s, t, boundaryMs) then t.costUsd.value else 0.0
  }

  predicate AnyPriced(turns: seq<Turn>) {
    exists i :: 0 <= i < |turns| && turns[i].costUsd.Some?
  }

  function CostSinceSpec(s: Session, boundaryMs: int): real {
    if AnyPriced(s.turns) then PricedSince(s, s.turns, boundaryMs) else s.totalUsd.GetOr(0.0)
  }

  method CostSince(s: Session, midnightMs: int) returns (cost: real)
    ensures cost == CostSinceSpec(s, midnightMs)
  {
    var sum := 0.0;
    var anyPriced := false;
    for i := 0 to |s.turns|
      invariant anyPriced <==> AnyPriced(s.turns[..i])
      invariant sum == PricedSince(s, s.turns[..i], midnightMs)
    {
      var turn := s.turns[i];
      assert s.turns[..i + 1][..i] == s.turns[..i];
      assert forall j :: 0 <= j < i + 1 ==> s.turns[..i + 1][j] == s.turns[j];
      if turn.costUsd.None? {
        continue;
      }
      assert s.turns[..i + 1][i].costUsd.Some?;
      anyPriced := true;
      if Before(s, turn, midnightMs) {
        continue;
      }
      sum := sum + turn.costUsd.value;
    }
    assert s.turns[..|s.turns|] == s.turns;
    if anyPriced {
      return sum;
    }
    return s.totalUsd.GetOr(0.0);
  }

  /** The spend of turns dated from `fromMs` up to `toMs`. */
  function PricedBetween(s: Session, turns: seq<Turn>, fromMs: int, toMs: int): real {
    if turns == [] then 0.0
    else
      var t := turns[|turns| - 1];
      PricedBetween(s, turns[..|turns| - 1], fromMs, toMs)
      + if t.costUsd.Some? && !Before(s, t, fromMs) && Before(s, t, toMs) then t.costUsd.value else 0.0
  }

  /** Cost since a boundary splits over any later one. */
  lemma {:induction false} PricedSplits(s: Session, turns: seq<Turn>, fromMs: int, toMs: int)
    requires fromMs <= toMs
    ensures PricedSince(s, turns, fromMs) == PricedBetween(s, turns, fromMs, toMs) + PricedSince(s, turns, toMs)
  {
    if turns != [] {
      PricedSplits(s, turns[..|turns| - 1], fromMs, toMs);
    }
  }

  lemma CostSplits(s: Session, fromMs: int, toMs: int)
    requires fromMs <= toMs && AnyPriced(s.turns)
    ensures CostSinceSpec(s, fromMs) == PricedBetween(s, s.turns, fromMs, toMs) + CostSinceSpec(s, toMs)
  {
    PricedSplits(s, s.turns, fromMs, toMs);
  }

  // ----- the recompute -----

  /** The totals of a day. `byAgent` has an entry per adapter seen. */
  datatype Totals = Totals(byAgent: map<string, real>, sessionCount: nat, unsynced: nat)

  function SpentBy(t: Totals, adapter: string): real {
    if adapter in t.byAgent then t.byAgent[adapter] else 0.0
  }

  /** One transcript's share of the day. `filtered` applies the modification-time filter. */
  function AddEntry(t: Totals, e: Entry, midnight: int, watermark: Option<int>, filtered: bool): Totals {
    var counted :=
      if watermark.Some? && !e.isSubagent && e.mtimeMs > watermark.value then t.(unsynced := t.unsynced + 1) else t;
    if (filtered && e.mtimeMs < midnight) || e.parsed.None? then counted
    else
      var spent := CostSinceSpec(e.parsed.value, midnight);
      counted.(byAgent := counted.byAgent[e.adapter := SpentBy(counted, e.adapter) + spent],
               sessionCount := if !e.isSubagent && !e.parsed.value.byAgentItself && spent > 0.0
                               then counted.sessionCount + 1 else counted.sessionCount)
  }

  function TotalsOf(entries: seq<Entry>, midnight: int, watermark: Option<int>, filtered: bool): Totals {
    if entries == [] then Totals(map[], 0, 0)
    else AddEntry(TotalsOf(entries[..|entries| - 1], midnight, watermark, filtered),
                  entries[|entries| - 1], midnight, watermark, filtered)
  }

  /** The running cost of each session touched today, by session id; the last transcript wins. */
  function SessionsOf(entries: seq<Entry>, midnight: int): map<string, real> {
    if entries == [] then map[]
    else
      var e, before := entries[|entries| - 1], SessionsOf(entries[..|entries| - 1], midnight);
      if e.mtimeMs < midnight || e.parsed.None? then before
      else before[e.parsed.value.id := e.parsed.value.totalUsd.GetOr(0.0)]
  }

  /** The recompute over all discovered transcripts, adapter by adapter. */
  method ComputeStatuslineState(entries: seq<Entry>, midnight: int, watermark: Option<int>)
    returns (today: Totals, sessions: map<string, real>)
    ensures today == TotalsOf(entries, midnight, watermark, true)
    ensures sessions == SessionsOf(entries, midnight)
  {
    var byAgent: map<string, real>, sessionCount: nat, unsynced: nat := map[], 0, 0;
    sessions := map[];
    for i := 0 to |entries|
      invariant Totals(byAgent, sessionCount, unsynced) == TotalsOf(entries[..i], midnight, watermark, true)
      invariant sessions == SessionsOf(entries[..i], midnight)
    {
      var entry := entries[i];
      assert entries[..i + 1][..i] == entries[..i];
      if watermark.Some? && !entry.isSubagent && entry.mtimeMs > watermark.value {
        unsynced := unsynced + 1;
      }
      if entry.mtimeMs < midnight {
        continue;
      }
      if entry.parsed.None? {
        continue;
      }
      var session := entry.parsed.value;
      var spent := CostSince(session, midnight);
      byAgent := byAgent[entry.adapter := (if entry.adapter in byAgent then byAgent[entry.adapter] else 0.0) + spent];
      if !entry.isSubagent && !session.byAgentItself && spent > 0.0 {
        sessionCount := sessionCount + 1;
      }
      sessions := sessions[session.id := session.totalUsd.GetOr(0.0)];
    }
    assert entries[..|entries|] == entries;
    today := Totals(byAgent, sessionCount, unsynced);
  }

  // ----- what the numbers count -----

  /** Positions below `n`, in order. */
  ghost predicate Positions(at: seq<nat>, n: nat) {
    (forall i, j :: 0 <= i < j < |at| ==> at[i] < at[j]) && forall i :: 0 <= i < |at| ==> at[i] < n
  }

  function Sum(costs: seq<real>): real {
    if costs == [] then 0.0 else Sum(costs[..|costs| - 1]) + costs[|costs| - 1]
  }

  lemma SumOfOne(costs: seq<real>, cost: real)
    ensures Sum(costs + [cost]) == Sum(costs) + cost
  {
    assert (costs + [cost])[..|costs|] == costs;
  }

  /** The turn has a price, and neither its own time nor, when it has no time, the session's start is
      known to lie before the boundary. */
  predicate Counts(s: Session, t: Turn, boundaryMs: int) {
    && t.costUsd.Some?
    && !(t.ts.At? && t.ts.ms < boundaryMs)
    && !(t.ts.Missing? && s.startedAt.At? && s.startedAt.ms < boundaryMs)
  }

  lemma PricedStep(s: Session, turns: seq<Turn>, boundaryMs: int)
    requires turns != []
    ensures var n := |turns| - 1;
            PricedSince(s, turns, boundaryMs)
            == PricedSince(s, turns[..n], boundaryMs) + if Counts(s, turns[n], boundaryMs) then turns[n].costUsd.value else 0.0
  {}

  lemma {:induction false} SpendIsSum(s: Session, turns: seq<Turn>, boundaryMs: int) returns (at: seq<nat>, costs: seq<real>)
    ensures Positions(at, |turns|) && |costs| == |at| && PricedSince(s, turns, boundaryMs) == Sum(costs)
    ensures forall k :: 0 <= k < |turns| ==> (k in at <==> Counts(s, turns[k], boundaryMs))
    ensures forall i :: 0 <= i < |at| ==> turns[at[i]].costUsd == Some(costs[i])
  {
    at, costs := [], [];
    if turns != [] {
      var n := |turns| - 1;
      at, costs := SpendIsSum(s, turns[..n], boundaryMs);
      PricedStep(s, turns, boundaryMs);
      assert forall k :: 0 <= k < n ==> turns[..n][k] == turns[k];
      if Counts(s, turns[n], boundaryMs) {
        SumOfOne(costs, turns[n].costUsd.value);
        at, costs := at + [n], costs + [turns[n].costUsd.value];
      }
    }
  }

  /** The spend since a boundary is the sum of the prices of the turns that count, once any turn has a
      price; else it is the session's total. */
  lemma CostExactly(s: Session, boundaryMs: int) returns (at: seq<nat>, costs: seq<real>)
    ensures Positions(at, |s.turns|) && |costs| == |at|
    ensures forall k :: 0 <= k < |s.turns| ==> (k in at <==> Counts(s, s.turns[k], boundaryMs))
    ensures forall i :: 0 <= i < |at| ==> s.turns[at[i]].costUsd == Some(costs[i])
    ensures (exists t :: t in s.turns && t.costUsd.Some?) ==> CostSinceSpec(s, boundaryMs) == Sum(costs)
    ensures (forall t :: t in s.turns ==> t.costUsd.None?) ==>
              CostSinceSpec(s, boundaryMs) == if s.totalUsd.Some? then s.totalUsd.value else 0.0
  {
    at, costs := SpendIsSum(s, s.turns, boundaryMs);
    assert forall i :: 0 <= i < |s.turns| ==> s.turns[i] in s.turns;
  }

  /** The transcript was touched today and parses. */
  predicate Touched(e: Entry, midnight: int) {
    e.mtimeMs >= midnight && e.parsed.Some?
  }

  lemma SpentAfter(t: Totals, e: Entry, midnight: int, watermark: Option<int>, filtered: bool, adapter: string)
    ensures SpentBy(AddEntry(t, e, midnight, watermark, filtered), adapter)
         == SpentBy(t, adapter)
            + if adapter == e.adapter && e.parsed.Some? && !(filtered && e.mtimeMs < midnight)
              then CostSinceSpec(e.parsed.value, midnight) else 0.0
  {}

  lemma AgentSeen(t: Totals, e: Entry, midnight: int, watermark: Option<int>, adapter: string)
    ensures adapter in AddEntry(t, e, midnight, watermark, true).byAgent <==>
              adapter in t.byAgent || (Touched(e, midnight) && e.adapter == adapter)
  {}

  /** The spend since midnight of each of the agent's transcripts touched today. */
  function Costs(entries: seq<Entry>, midnight: int, adapter: string): seq<real> {
    if entries == [] then []
    else
      var e := entries[|entries| - 1];
      Costs(entries[..|entries| - 1], midnight, adapter)
      + if Touched(e, midnight) && e.adapter == adapter then [CostSinceSpec(e.parsed.value, midnight)] else []
  }

  lemma {:induction false} SpentIsSum(entries: seq<Entry>, midnight: int, watermark: Option<int>, adapter: string)
    ensures var t := TotalsOf(entries, midnight, watermark, true);
            && SpentBy(t, adapter) == Sum(Costs(entries, midnight, adapter))
            && (adapter in t.byAgent <==> Costs(entries, midnight, adapter) != [])
  {
    if entries != [] {
      var n := |entries| - 1;
      var e, before := entries[n], TotalsOf(entries[..n], midnight, watermark, true);
      SpentIsSum(entries[..n], midnight, watermark, adapter);
      SpentAfter(before, e, midnight, watermark, true, adapter);
      AgentSeen(before, e, midnight, watermark, adapter);
      assert Costs(entries[..n], midnight, adapter) + [] == Costs(entries[..n], midnight, adapter);
      if Touched(e, midnight) {
        SumOfOne(Costs(entries[..n], midnight, adapter), CostSinceSpec(e.parsed.value, midnight));
      }
    }
  }

  lemma {:induction false} CountsExactly(entries: seq<Entry>, midnight: int, watermark: Option<int>)
    returns (counted: seq<nat>, backlog: seq<nat>)
    ensures Positions(counted, |entries|) && Positions(backlog, |entries|)
    ensures forall k :: 0 <= k < |entries| ==>
              var e := entries[k];
              && (k in counted <==> Touched(e, midnight) && !e.isSubagent && !e.parsed.value.byAgentItself
                                    && CostSinceSpec(e.parsed.value, midnight) > 0.0)
              && (k in backlog <==> watermark.Some? && e.mtimeMs > watermark.value && !e.isSubagent)
    ensures var t := TotalsOf(entries, midnight, watermark, true); t.sessionCount == |counted| && t.unsynced == |backlog|
  {
    counted, backlog := [], [];
    if entries != [] {
      var n := |entries| - 1;
      var e := entries[n];
      counted, backlog := CountsExactly(entries[..n], midnight, watermark);
      if watermark.Some? && e.mtimeMs > watermark.value && !e.isSubagent {
        backlog := backlog + [n];
      }
      if Touched(e, midnight) && !e.isSubagent && !e.parsed.value.byAgentItself && CostSinceSpec(e.parsed.value, midnight) > 0.0 {
        counted := counted + [n];
      }
    }
  }

  /** An agent's total is the spend since midnight of its transcripts touched today; the count is of
      those, of any agent, that are a session's own and spent something; and the backlog is of all
      transcripts, touched or not, that are no subagent's and newer than the last sync. */
  lemma TotalsExactly(entries: seq<Entry>, midnight: int, watermark: Option<int>, adapter: string)
    returns (counted: seq<nat>, backlog: seq<nat>)
    ensures Positions(counted, |entries|) && Positions(backlog, |entries|)
    ensures forall k :: 0 <= k < |entries| ==>
              var e := entries[k];
              && (k in counted <==> Touched(e, midnight) && !e.isSubagent && !e.parsed.value.byAgentItself
                                    && CostSinceSpec(e.parsed.value, midnight) > 0.0)
              && (k in backlog <==> watermark.Some? && e.mtimeMs > watermark.value && !e.isSubagent)
    ensures var t, costs := TotalsOf(entries, midnight, watermark, true), Costs(entries, midnight, adapter);
            && SpentBy(t, adapter) == Sum(costs) && (adapter in t.byAgent <==> costs != [])
            && t.sessionCount == |counted| && t.unsynced == |backlog|
  {
    SpentIsSum(entries, midnight, watermark, adapter);
    counted, backlog := CountsExactly(entries, midnight, watermark);
  }

  /** The session costs are those of the transcripts touched today: each session has the total of its
      last one, 0 when that has none. */
  lemma {:induction false} SessionsExactly(entries: seq<Entry>, midnight: int, id: string)
    ensures id in SessionsOf(entries, midnight) <==> exists e :: e in entries && Touched(e, midnight) && e.parsed.value.id == id
    ensures forall k :: 0 <= k < |entries| && Touched(entries[k], midnight) && entries[k].parsed.value.id == id
                        && (forall j :: k < j < |entries| && Touched(entries[j], midnight) ==> entries[j].parsed.value.id != id) ==>
              && id in SessionsOf(entries, midnight)
              && SessionsOf(entries, midnight)[id]
                 == if entries[k].parsed.value.totalUsd.Some? then entries[k].parsed.value.totalUsd.value else 0.0
  {
    if entries != [] {
      var n := |entries| - 1;
      SessionsExactly(entries[..n], midnight, id);
      assert forall e :: e in entries <==> e in entries[..n] || e == entries[n];
      assert forall k :: 0 <= k < n ==> entries[..n][k] == entries[k];
    }
  }

  // ----- the filter -----

  /** A transcript the filter can judge: its session has a priced turn, and every priced turn is
      dated no later than the file. */
  ghost predicate Datable(e: Entry) {
    e.parsed.Some? ==>
      var s := e.parsed.value;
      && AnyPriced(s.turns)
      && forall i :: 0 <= i < |s.turns| && s.turns[i].costUsd.Some? ==>
           TurnTime(s, s.turns[i]).Some? && TurnTime(s, s.turns[i]).value <= e.mtimeMs
  }

  lemma {:induction false} AllBefore(s: Session, turns: seq<Turn>, boundaryMs: int)
    requires forall i :: 0 <= i < |turns| && turns[i].costUsd.Some? ==> Before(s, turns[i], boundaryMs)
    ensures PricedSince(s, turns, boundaryMs) == 0.0
  {
    if turns != [] {
      AllBefore(s, turns[..|turns| - 1], boundaryMs);
    }
  }

  /** Skipping what was not touched today changes no total, no count and no backlog. */
  lemma {:induction false} FilterIsSound(entries: seq<Entry>, midnight: int, watermark: Option<int>)
    requires forall i :: 0 <= i < |entries| && entries[i].mtimeMs < midnight ==> Datable(entries[i])
    ensures var some, all := TotalsOf(entries, midnight, watermark, true), TotalsOf(entries, midnight, watermark, false);
            && (forall adapter :: SpentBy(some, adapter) == SpentBy(all, adapter))
            && some.sessionCount == all.sessionCount
            && some.unsynced == all.unsynced
  {
    if entries != [] {
      var n := |entries| - 1;
      var e := entries[n];
      FilterIsSound(entries[..n], midnight, watermark);
      if e.mtimeMs < midnight && e.parsed.Some? {
        AllBefore(e.parsed.value, e.parsed.value.turns, midnight);
        assert CostSinceSpec(e.parsed.value, midnight) == 0.0;
      }
      forall adapter
        ensures SpentBy(TotalsOf(entries, midnight, watermark, true), adapter)
             == SpentBy(TotalsOf(entries, midnight, watermark, false), adapter)
      {
        SpentAfter(TotalsOf(entries[..n], midnight, watermark, true), e, midnight, watermark, true, adapter);
        SpentAfter(TotalsOf(entries[..n], midnight, watermark, false), e, midnight, watermark, false, adapter);
      }
    }
  }

  // ----- exactly when the filter is sound -----

  /** No price is negative. */
  ghost predicate NonNegative(s: Session) {
    && (forall i :: 0 <= i < |s.turns| && s.turns[i].costUsd.Some? ==> s.turns[i].costUsd.value >= 0.0)
    && s.totalUsd.GetOr(0.0) >= 0.0
  }

  /** The session has a priced turn and dates each one that cost something before the boundary, or
      it has no priced turn and no positive total. */
  ghost predicate SpentBefore(s: Session, boundaryMs: int) {
    if AnyPriced(s.turns) then
      forall i :: 0 <= i < |s.turns| && s.turns[i].costUsd.Some? && s.turns[i].costUsd.value > 0.0 ==>
        Before(s, s.turns[i], boundaryMs)
    else
      s.totalUsd.GetOr(0.0) <= 0.0
  }

  lemma {:induction false} NothingSinceExactly(s: Session, turns: seq<Turn>, boundaryMs: int)
    requires forall i :: 0 <= i < |turns| && turns[i].costUsd.Some? ==> turns[i].costUsd.value >= 0.0
    ensures PricedSince(s, turns, boundaryMs) >= 0.0
    ensures PricedSince(s, turns, boundaryMs) == 0.0 <==>
              forall i :: 0 <= i < |turns| && turns[i].costUsd.Some? && turns[i].costUsd.value > 0.0 ==>
                Before(s, turns[i], boundaryMs)
  {
    if turns != [] {
      var n := |turns| - 1;
      NothingSinceExactly(s, turns[..n], boundaryMs);
      assert forall i :: 0 <= i < n ==> turns[..n][i] == turns[i];
    }
  }

  lemma SpentBeforeExactly(s: Session, boundaryMs: int)
    requires NonNegative(s)
    ensures CostSinceSpec(s, boundaryMs) >= 0.0
    ensures CostSinceSpec(s, boundaryMs) == 0.0 <==> SpentBefore(s, boundaryMs)
  {
    NothingSinceExactly(s, s.turns, boundaryMs);
  }

  /** No stale transcript has anything to spend today. */
  ghost predicate StaleAreSpent(entries: seq<Entry>, midnight: int) {
    forall e :: e in entries && e.mtimeMs < midnight && e.parsed.Some? ==> SpentBefore(e.parsed.value, midnight)
  }

  ghost predicate SameTotals(some: Totals, all: Totals) {
    forall adapter :: SpentBy(some, adapter) == SpentBy(all, adapter)
  }

  /** With no negative price, skipping what was not touched today leaves every agent's total exactly
      when each stale transcript that parses has a priced turn and every turn of it that cost
      something is dated before midnight, or has no priced turn and no positive total; the count of
      sessions and the backlog then agree too. */
  lemma {:induction false} FilterIsSoundExactly(entries: seq<Entry>, midnight: int, watermark: Option<int>)
    requires forall e :: e in entries && e.parsed.Some? ==> NonNegative(e.parsed.value)
    ensures var some, all := TotalsOf(entries, midnight, watermark, true), TotalsOf(entries, midnight, watermark, false);
            && (forall adapter :: SpentBy(some, adapter) <= SpentBy(all, adapter))
            && (SameTotals(some, all) <==> StaleAreSpent(entries, midnight))
            && (SameTotals(some, all) ==> some.sessionCount == all.sessionCount)
            && some.unsynced == all.unsynced
  {
    if entries != [] {
      var n := |entries| - 1;
      var e := entries[n];
      assert forall x :: x in entries <==> x in entries[..n] || x == e;
      FilterIsSoundExactly(entries[..n], midnight, watermark);
      OneMoreEntry(TotalsOf(entries[..n], midnight, watermark, true), TotalsOf(entries[..n], midnight, watermark, false),
                   e, midnight, watermark);
    }
  }

  lemma OneMoreEntry(some: Totals, all: Totals, e: Entry, midnight: int, watermark: Option<int>)
    requires forall adapter :: SpentBy(some, adapter) <= SpentBy(all, adapter)
    requires e.parsed.Some? ==> NonNegative(e.parsed.value)
    ensures var some', all' := AddEntry(some, e, midnight, watermark, true), AddEntry(all, e, midnight, watermark, false);
            var spent := e.mtimeMs < midnight && e.parsed.Some? ==> SpentBefore(e.parsed.value, midnight);
            && (forall adapter :: SpentBy(some', adapter) <= SpentBy(all', adapter))
            && (SameTotals(some', all') <==> SameTotals(some, all) && spent)
            && (spent && some.sessionCount == all.sessionCount ==> some'.sessionCount == all'.sessionCount)
            && (some.unsynced == all.unsynced ==> some'.unsynced == all'.unsynced)
  {
    var some', all' := AddEntry(some, e, midnight, watermark, true), AddEntry(all, e, midnight, watermark, false);
    var skipped := if e.mtimeMs < midnight && e.parsed.Some? then CostSinceSpec(e.parsed.value, midnight) else 0.0;
    if e.parsed.Some? {
      SpentBeforeExactly(e.parsed.value, midnight);
    }
    forall adapter
      ensures SpentBy(all', adapter) - SpentBy(some', adapter)
           == SpentBy(all, adapter) - SpentBy(some, adapter) + if adapter == e.adapter then skipped else 0.0
    {
      SpentAfter(some, e, midnight, watermark, true, adapter);
      SpentAfter(all, e, midnight, watermark, false, adapter);
    }
    if SameTotals(some', all') {
      assert SpentBy(some', e.adapter) == SpentBy(all', e.adapter);
      forall adapter ensures SpentBy(some, adapter) == SpentBy(all, adapter) {
        assert SpentBy(some', adapter) == SpentBy(all', adapter);
      }
    }
  }

  /** A session of another day priced only as a whole counts a dollar towards today when it is parsed
      and nothing when it is skipped; so does one whose only priced turn has no date. */
  lemma StaleSessionsCountWhenParsed()
    ensures var whole := [Entry("agent", false, 0, Some(Session("s", At(0), false, Some(1.0), [])))];
            && SpentBy(TotalsOf(whole, 1, None, true), "agent") == 0.0
            && SpentBy(TotalsOf(whole, 1, None, false), "agent") == 1.0
    ensures var undated := [Entry("agent", false, 0, Some(Session("s", At(0), false, None, [Turn(Unparsable, Some(1.0))])))];
            && SpentBy(TotalsOf(undated, 1, None, true), "agent") == 0.0
            && SpentBy(TotalsOf(undated, 1, None, false), "agent") == 1.0
  {
    var t := Turn(Unparsable, Some(1.0));
    var s := Session("s", At(0), false, None, [t]);
    assert [t][..0] == [] && s.turns[0].costUsd.Some?;
    assert PricedSince(s, [t], 1) == PricedSince(s, [], 1) + 1.0;
  }
}

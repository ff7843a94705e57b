/**
 * Concrete runs of the hook spool: the one in which a finish is never reported, and the one in
 * which a `null` line stops everything.
 */
module HookRuns {
  import opened Common
  import opened Spool
  import opened HookExec
  import opened HookPlan
  import opened HookSync
  import opened HookLoss
  import opened HookVerdicts

  const ID: ExecId := Some("run")
  const START := StartedRec("t", Some(0), Some("session"), Some("Stop"), None, "cmd")
  const FINISH := FinishedRec(660_000, Some(0))

  /** One-byte lines: a `null`, the start of an execution, and its finish. */
  function OneHook(line: seq<byte>): Option<SpoolValue> {
    if line == [0] then Some(NullValue)
    else if line == [1] then Some(Started(ID, START))
    else if line == [2] then Some(Finished(ID, FINISH))
    else None
  }

  /** Any query made after the ceiling, with the session still running. */
  ghost predicate Late(q: Query) {
    q.nowMs >= HOOK_INCOMPLETE_AFTER_MS && !q.sessionEnded("session")
  }

  lemma OneLine(b: byte)
    requires b != NEWLINE
    ensures Lines(OneHook, [b, 10], 0) == Parsed(OneHook, [b], 0)
  {
    var buf: seq<byte> := [b, 10];
    assert LineStop(buf, 0) == 1 && LineText(buf, 0) == [b];
    LastLineRead(OneHook, buf, 0);
  }

  lemma TwoLines()
    ensures Lines(OneHook, [1, 10, 2, 10], 0) == [Line(Started(ID, START), 0), Line(Finished(ID, FINISH), 2)]
  {
    var buf: seq<byte> := [1, 10, 2, 10];
    assert LineStop(buf, 0) == 1 && LineStop(buf, 2) == 3;
    assert LineText(buf, 0) == [1] && LineText(buf, 2) == [2];
    LastLineRead(OneHook, buf, 2);
    assert Lines(OneHook, buf, 0) == [Line(Started(ID, START), 0)] + Lines(OneHook, buf, 2);
  }

  ghost predicate Goes(s: State, step: Step, next: State) {
    Allowed(OneHook, s, step) && Apply(OneHook, s, step) == next
  }

  ghost predicate Leads(s: State, steps: seq<Step>, end: State) {
    RunAllowed(OneHook, s, steps) && Run(OneHook, s, steps) == end
  }

  lemma {:induction false} FirstStep(s: State, step: Step, next: State, rest: seq<Step>, end: State)
    requires Goes(s, step, next) && Leads(next, rest, end)
    ensures Leads(s, [step] + rest, end)
  {
    assert ([step] + rest)[1..] == rest;
  }

  // ----- a finish that is never reported -----

  /** The event shipped at time `nowMs` for the bare start. */
  function Incompleted(nowMs: int): Delivery {
    Delivery(ID, Outcome(START, Some(nowMs), None, Incomplete))
  }

  /** The start is shipped as incomplete, the watermark is past it, and its finish has landed. */
  function FinishedLate(nowMs: int): State {
    State(Disk([1, 10, 2, 10], 2, [Incompleted(nowMs)]), None)
  }

  lemma BareStart(q: Query)
    requires Late(q)
    ensures var window := [Line(Started(ID, START), 0)];
            && Keys(window) == [ID] && !HasNull(window)
            && VerdictOf(window, ID, q) == Resolved(Incompleted(q.nowMs).outcome)
            && Deliveries(window, Keys(window), q, {"session"}) == [Incompleted(q.nowMs)]
            && Held(window, q, {"session"}) == iset{}
  {
    var window := [Line(Started(ID, START), 0)];
    assert window[..0] == [] && [ID][..0] == [];
    assert GroupOf(window, ID) == Some(Group(Some(START), None, None, 0));
    assert Keys(window) == [] + [ID];
    assert Deliveries(window, [ID], q, {"session"}) == [] + [Incompleted(q.nowMs)];
  }

  lemma SyncShipsIncomplete(q: Query)
    requires Late(q)
    ensures var s := State(Disk([1, 10], 0, []), None);
            var planned := State(s.disk, Some(Pending(q, [1, 10], 0)));
            && Goes(s, Step.Plan(q, true), planned)
            && Goes(planned, Finish({"session"}, Some(2)), State(Disk([1, 10], 2, [Incompleted(q.nowMs)]), None))
  {
    OneLine(1);
    BareStart(q);
    var s := State(Disk([1, 10], 0, []), None);
    assert Window(OneHook, s.disk) == [Line(Started(ID, START), 0)];
    assert [] + [Incompleted(q.nowMs)] == [Incompleted(q.nowMs)];
  }

  /** From an empty spool: a start, a sync past the ceiling, the finish. */
  lemma FinishLandsLate(q: Query)
    requires Late(q)
    ensures Leads(EMPTY, [Append([1]), Step.Plan(q, true), Finish({"session"}, Some(2)), Append([2])], FinishedLate(q.nowMs))
  {
    var s1 := State(Disk([1, 10], 0, []), None);
    var s2 := State(s1.disk, Some(Pending(q, [1, 10], 0)));
    var s3 := State(Disk([1, 10], 2, [Incompleted(q.nowMs)]), None);
    var end := FinishedLate(q.nowMs);
    SyncShipsIncomplete(q);
    FirstStep(s3, Append([2]), end, [], end);
    FirstStep(s2, Finish({"session"}, Some(2)), s3, [Append([2])], end);
    FirstStep(s1, Step.Plan(q, true), s2, [Finish({"session"}, Some(2)), Append([2])], end);
    FirstStep(EMPTY, Append([1]), s1, [Step.Plan(q, true), Finish({"session"}, Some(2)), Append([2])], end);
    assert [Append([2])] + [] == [Append([2])];
    assert [Finish({"session"}, Some(2))] + [Append([2])] == [Finish({"session"}, Some(2)), Append([2])];
    assert [Step.Plan(q, true)] + [Finish({"session"}, Some(2)), Append([2])]
        == [Step.Plan(q, true), Finish({"session"}, Some(2)), Append([2])];
    assert [Append([1])] + [Step.Plan(q, true), Finish({"session"}, Some(2)), Append([2])]
        == [Append([1]), Step.Plan(q, true), Finish({"session"}, Some(2)), Append([2])];
  }

  /** From there no run whose watermark reads work reports the execution as anything but incomplete. */
  lemma FinishIsNeverReported(q: Query, steps: seq<Step>)
    requires Late(q) && RunAllowed(OneHook, FinishedLate(q.nowMs), steps) && ReadsWatermark(steps)
    ensures forall d :: d in Run(OneHook, FinishedLate(q.nowMs), steps).disk.shipped && d.execId == ID ==>
              d.outcome.status == Incomplete
  {
    var s := FinishedLate(q.nowMs);
    var run := [Append([1]), Step.Plan(q, true), Finish({"session"}, Some(2)), Append([2])];
    FinishLandsLate(q);
    StartsGood(OneHook);
    RunsLoseNothing(OneHook, EMPTY, run);
    TwoLines();
    var l := Line(Started(ID, START), 0);
    assert l in Whole(OneHook, s.disk);
    PassedStartShipsNoMore(OneHook, s, steps, l);
  }

  // ----- a `null` line -----

  /** From an empty spool one line suffices, and then nothing is ever shipped. */
  lemma NullLineShipsNothing(steps: seq<Step>)
    requires RunAllowed(OneHook, EMPTY, [Append([0])] + steps)
    ensures Run(OneHook, EMPTY, [Append([0])] + steps).disk.shipped == []
  {
    var all, s := [Append([0])] + steps, Apply(OneHook, EMPTY, Append([0]));
    assert all[1..] == steps;
    StartsGood(OneHook);
    StepKeepsInv(OneHook, EMPTY, Append([0]));
    OneLine(0);
    assert [] + [0] + [10] == [0 as byte, 10];
    assert Line(NullValue, 0) in Window(OneHook, s.disk);
    NullLineWedges(OneHook, s, steps);
  }
}

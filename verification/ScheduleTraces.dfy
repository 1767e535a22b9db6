/** The callbacks of whole runs, from a timetable that knows no alarms: the schedule of schedule.c refines it. */
module ScheduleTraces {
  import opened Widths
  import opened Schedule

  /** A task as the timetable sees it. */
  datatype Timed = Timed(beats: nat, added: Added)

  /** The tasks, the beats that have passed, and whether the init tick is done. */
  datatype Plan = Plan(tasks: seq<Timed>, total: nat, initTickDone: bool)

  // ---- the timetable ----

  /** Beat m is a multiple of the task's beats after it was armed. */
  predicate TimeUp(t: Timed, m: nat) {
    t.beats > 0 && m > ArmedAt(t.added) && (m - ArmedAt(t.added)) % t.beats == 0
  }

  /** The tasks due at beat m, in list order, among the first k. */
  function DueAt(tasks: seq<Timed>, m: nat, k: nat): seq<Event>
    requires k <= |tasks|
  {
    if k == 0 then [] else DueAt(tasks, m, k - 1) + (if TimeUp(tasks[k - 1], m) then [Exec(k - 1)] else [])
  }

  function InitAt(tasks: seq<Timed>, k: nat): seq<Event>
    requires k <= |tasks|
  {
    if k == 0 then [] else InitAt(tasks, k - 1) + (if tasks[k - 1].beats == 0 then [Exec(k - 1)] else [])
  }

  /** The callbacks of beat m. */
  function BeatBlock(tasks: seq<Timed>, m: nat): seq<Event> {
    var zero, due := m % TWO_32 == 0, DueAt(tasks, m, |tasks|);
    Callbacks(tasks == [] || zero || due != [], if zero then InitAt(tasks, |tasks|) else [], due)
  }

  /** The callbacks of n beats after the first `total`. */
  function BeatBlocks(tasks: seq<Timed>, total: nat, n: nat): seq<Event> {
    if n == 0 then [] else BeatBlocks(tasks, total, n - 1) + BeatBlock(tasks, total + n)
  }

  function BeatsDue(p: Plan, time: real, beat: real): nat
    requires beat > 0.0
  {
    var n := TicksFor(p.total % TWO_32, time, beat);
    if n > 0 then n else 0
  }

  function PlanStep(p: Plan, op: Op, beat: real): Plan
    requires beat > 0.0
  {
    match op
    case AddTask(_, beats) =>
      p.(tasks := p.tasks + [Timed(beats, if p.initTickDone then After(p.total) else BeforeInit)])
    case Tick(time) =>
      Plan(p.tasks, p.total + BeatsDue(p, time, beat), p.initTickDone || time >= 0.0)
  }

  /** The callbacks of one call: marshal_noop; the init tick with its initialisation tasks, if it is time for
      it; then the beats. */
  function CallBlock(p: Plan, op: Op, beat: real): seq<Event>
    requires beat > 0.0
  {
    match op
    case AddTask(_, _) => []
    case Tick(time) => [MarshalNoop] + InitBlock(p, time) + BeatBlocks(p.tasks, p.total, BeatsDue(p, time, beat))
  }

  function InitBlock(p: Plan, time: real): seq<Event> {
    if !p.initTickDone && time >= 0.0 then Callbacks(true, InitAt(p.tasks, |p.tasks|), []) else []
  }

  function Planned(ops: seq<Op>, beat: real): Plan
    requires beat > 0.0
  {
    if ops == [] then Plan([], 0, false) else PlanStep(Planned(ops[..|ops| - 1], beat), ops[|ops| - 1], beat)
  }

  function PlannedTrace(ops: seq<Op>, beat: real): seq<Event>
    requires beat > 0.0
  {
    if ops == [] then []
    else
      var before := ops[..|ops| - 1];
      PlannedTrace(before, beat) + CallBlock(Planned(before, beat), ops[|ops| - 1], beat)
  }

  // ---- the schedule follows it ----

  function Tasks(list: seq<Item>, added: seq<Added>): (tasks: seq<Timed>)
    requires |list| == |added|
    ensures |tasks| == |list|
    ensures forall i :: 0 <= i < |tasks| ==> tasks[i] == Timed(list[i].beats, added[i])
  {
    seq(|list|, i requires 0 <= i < |list| => Timed(list[i].beats, added[i]))
  }

  function PlanOf(h: History): Plan
    requires |h.s.list| == |h.added|
  {
    Plan(Tasks(h.s.list, h.added), h.total, h.s.initTickDone)
  }

  lemma {:induction false} RunsAreDueAt(h: History, k: nat)
    requires Lawful(h) && h.s.initTickDone && k <= |h.s.list|
    ensures Runs(h.s.list, k) == DueAt(Tasks(h.s.list, h.added), h.total + 1, k)
  {
    if k > 0 {
      RunsAreDueAt(h, k - 1);
      DueWhenTimeIsUp(h, k - 1);
    }
  }

  lemma {:induction false} InitRunsAreInitAt(list: seq<Item>, added: seq<Added>, k: nat)
    requires |list| == |added| && k <= |list|
    ensures InitRuns(list, k) == InitAt(Tasks(list, added), k)
  {
    if k > 0 {
      InitRunsAreInitAt(list, added, k - 1);
    }
  }

  lemma {:induction false} NoRunsBeforeInit(h: History, k: nat)
    requires Lawful(h) && !h.s.initTickDone && k <= |h.s.list|
    ensures Runs(h.s.list, k) == []
  {
    if k > 0 {
      NoRunsBeforeInit(h, k - 1);
      assert Obeys(h, k - 1);
    }
  }

  // ---- one beat ----

  /** A beat adds its block, and changes no task. */
  ghost predicate FollowsOf(step: State -> State, h: History) {
    Lawful(h) && h.s.initTickDone ==>
      && Adds(h, step(h.s).trace)
      && |step(h.s).list| == |h.s.list|
      && Tasks(step(h.s).list, h.added) == Tasks(h.s.list, h.added)
  }

  ghost predicate Adds(h: History, trace: seq<Event>)
    requires |h.s.list| == |h.added|
  {
    trace == h.s.trace + BeatBlock(Tasks(h.s.list, h.added), h.total + 1)
  }

  lemma BeatFollows(h: History)
    ensures FollowsOf(Beat, h)
  {
    if Lawful(h) && h.s.initTickDone {
      BeatAddsBlock(h);
      BeatKeepsTasks(h.s, h.added);
    }
  }

  lemma BeatAddsBlock(h: History)
    requires Lawful(h) && h.s.initTickDone
    ensures Adds(h, Beat(h.s).trace)
  {
    AlarmsAreDue(h);
    BeatTrace(h.s);
    BlockOfHistory(h, Beat(h.s).trace);
  }

  lemma BlockOfHistory(h: History, trace: seq<Event>)
    requires Lawful(h) && h.s.initTickDone
    requires var runs, zero := Runs(h.s.list, |h.s.list|), (h.s.tick + 1) % TWO_32 == 0;
             var init := if zero then InitRuns(h.s.list, |h.s.list|) else [];
             trace == h.s.trace + Callbacks(h.s.list == [] || zero || runs != [], init, runs)
    ensures Adds(h, trace)
  {
    RunsAreDueAt(h, |h.s.list|);
    InitRunsAreInitAt(h.s.list, h.added, |h.s.list|);
    TickComesRound(h);
  }

  lemma BeatKeepsTasks(s: State, added: seq<Added>)
    requires |s.list| == |added|
    ensures |Beat(s).list| == |s.list| && Tasks(Beat(s).list, added) == Tasks(s.list, added)
  {
  }

  lemma BeatKeepsLaw(h: History)
    ensures KeepsLawOf(Beat, h)
  {
    if Lawful(h) && h.s.initTickDone {
      BeatIsLawful(h);
    }
  }

  // ---- a call ----

  /** From h on, the state s has added these blocks and changed no task. */
  ghost predicate Has(h: History, s: State, more: seq<Event>)
    requires |h.s.list| == |h.added|
  {
    s.trace == h.s.trace + more && |s.list| == |h.s.list| && Tasks(s.list, h.added) == Tasks(h.s.list, h.added)
  }

  lemma {:induction false} RepeatFollows(step: State -> State, h: History, n: nat)
    requires KeepsLaw(step) && (forall g: History :: FollowsOf(step, g))
    requires Lawful(h) && (n > 0 ==> h.s.initTickDone)
    ensures Has(h, Repeat(step, h.s, n), BeatBlocks(Tasks(h.s.list, h.added), h.total, n))
  {
    if n > 0 {
      RepeatIsLawful(step, h, n - 1);
      RepeatFollows(step, h, n - 1);
      var s := Repeat(step, h.s, n - 1);
      assert FollowsOf(step, History(s, h.total + (n - 1), h.added));
      OneMore(h, s, step(s), n);
    }
  }

  lemma OneMore(h: History, s: State, t: State, n: nat)
    requires n > 0 && |h.s.list| == |h.added| == |s.list| == |t.list|
    requires Has(h, s, BeatBlocks(Tasks(h.s.list, h.added), h.total, n - 1))
    requires Adds(History(s, h.total + (n - 1), h.added), t.trace) && Tasks(t.list, h.added) == Tasks(s.list, h.added)
    ensures Has(h, t, BeatBlocks(Tasks(h.s.list, h.added), h.total, n))
  {
    var tasks := Tasks(h.s.list, h.added);
    HasMore(h, s, t, BeatBlocks(tasks, h.total, n - 1), BeatBlock(tasks, h.total + n));
  }

  lemma HasMore(h: History, s: State, t: State, blocks: seq<Event>, block: seq<Event>)
    requires |h.s.list| == |h.added| && Has(h, s, blocks)
    requires t.trace == s.trace + block && |t.list| == |s.list| && Tasks(t.list, h.added) == Tasks(s.list, h.added)
    ensures Has(h, t, blocks + block)
  {
  }

  lemma Regroup(x: seq<Event>, y: seq<Event>, z: seq<Event>)
    ensures x + y + z == x + (y + z)
  {
  }

  lemma InitTickFollows(h: History, time: real)
    requires Lawful(h)
    ensures Has(h, InitTick(h.s, time), InitBlock(PlanOf(h), time))
    ensures InitTick(h.s, time).initTickDone == (h.s.initTickDone || time >= 0.0)
  {
    if !h.s.initTickDone && time >= 0.0 {
      NoRunsBeforeInit(h, |h.s.list|);
      InitRunsAreInitAt(h.s.list, h.added, |h.s.list|);
      MarshalledTrace(h.s);
    }
  }

  /** One call adds exactly its planned block. */
  lemma CallFollows(h: History, op: Op, beat: real)
    requires Lawful(h) && beat > 0.0
    ensures var g := Step(h, op, beat);
            && |g.s.list| == |g.added| && PlanOf(g) == PlanStep(PlanOf(h), op, beat)
            && g.s.trace == h.s.trace + CallBlock(PlanOf(h), op, beat)
  {
    match op
    case AddTask(task, beats) =>
      assert h.s.trace + [] == h.s.trace;
    case Tick(time) =>
      TicksNeedTime(h.s.tick, time, beat);
      BeatsFollow(h, time, BeatsDue(PlanOf(h), time, beat));
  }

  lemma BeatsFollow(h: History, time: real, n: nat)
    requires Lawful(h) && (n > 0 ==> time > 0.0)
    ensures var s := Beats(InitTick(h.s.(trace := h.s.trace + [MarshalNoop]), time), n);
            && s.initTickDone == (h.s.initTickDone || time >= 0.0)
            && Has(h, s, [MarshalNoop] + InitBlock(PlanOf(h), time) + BeatBlocks(Tasks(h.s.list, h.added), h.total, n))
  {
    var noop := h.(s := h.s.(trace := h.s.trace + [MarshalNoop]));
    NoopIsLawful(h);
    InitTickIsLawful(noop, time);
    InitTickFollows(noop, time);
    BeatsFollowInit(noop.(s := InitTick(noop.s, time)), n);
    Regroup(h.s.trace, [MarshalNoop], InitBlock(PlanOf(h), time));
    Regroup(h.s.trace, [MarshalNoop] + InitBlock(PlanOf(h), time), BeatBlocks(Tasks(h.s.list, h.added), h.total, n));
  }

  lemma BeatsFollowInit(h: History, n: nat)
    requires Lawful(h) && (n > 0 ==> h.s.initTickDone)
    ensures Beats(h.s, n).initTickDone == h.s.initTickDone
    ensures Has(h, Beats(h.s, n), BeatBlocks(Tasks(h.s.list, h.added), h.total, n))
  {
    forall g: History ensures KeepsLawOf(Beat, g) {
      BeatKeepsLaw(g);
    }
    forall g: History ensures FollowsOf(Beat, g) {
      BeatFollows(g);
    }
    RepeatIsLawful(Beat, h, n);
    RepeatFollows(Beat, h, n);
  }

  /** The callbacks of a whole run are those of the timetable: in every call marshal_noop, the init tick in the
      first call at or after 0.0, and for every beat exactly the tasks whose time is up, in list order, bracketed
      exactly if the list is empty, the beat is a multiple of 2^32, or some task runs. */
  lemma {:induction false} RunFollows(ops: seq<Op>, beat: real)
    requires beat > 0.0
    ensures var h := Run(ops, beat);
            && |h.s.list| == |h.added| && PlanOf(h) == Planned(ops, beat)
            && h.s.trace == PlannedTrace(ops, beat)
    decreases |ops|
  {
    RunIsLawful(ops, beat);
    if ops != [] {
      var before := ops[..|ops| - 1];
      RunFollows(before, beat);
      RunIsLawful(before, beat);
      CallFollows(Run(before, beat), ops[|ops| - 1], beat);
    }
  }
}

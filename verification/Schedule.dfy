/** The task schedule of dse/clib/schedule/schedule.c, as functions on its state, and the law its runs obey. */
module Schedule {
  import opened Widths

  /** A schedule item; beats is 0 for an initialisation task. */
  datatype Item = Item(task: nat, beats: nat, alarm: nat)

  /** The callbacks a schedule makes; Exec names the item whose task runs. */
  datatype Event = MarshalNoop | MarshalOut | MarshalIn | Exec(i: nat)

  /** list (NULL while it is empty), tick, init_tick_done, and the callbacks made so far. */
  datatype State = State(list: seq<Item>, tick: nat, initTickDone: bool, trace: seq<Event>)

  const INITIAL: State := State([], 0, false, [])

  // ---- the operations ----

  /** schedule_add. */
  function Add(s: State, task: nat, beats: nat): State {
    s.(list := s.list + [Item(task, beats, 0)])
  }

  /** The item's task runs in the next schedule_default_tick. */
  predicate Due(it: Item) {
    it.beats > 0 && it.alarm == 1
  }

  /** What schedule_default_tick does to an item: count down, then reset at zero. */
  function TickItem(it: Item): Item {
    if it.beats == 0 then it
    else
      var a := if it.alarm > 0 then it.alarm - 1 else 0;
      it.(alarm := if a == 0 then it.beats else a)
  }

  function TickItems(list: seq<Item>): (r: seq<Item>)
    ensures |r| == |list| && forall i :: 0 <= i < |list| ==> r[i] == TickItem(list[i])
  {
    seq(|list|, i requires 0 <= i < |list| => TickItem(list[i]))
  }

  /** The tasks run by the first loop (initialisation tasks) and by the second, among the first k items. */
  function InitRuns(list: seq<Item>, k: nat): seq<Event>
    requires k <= |list|
  {
    if k == 0 then [] else InitRuns(list, k - 1) + (if list[k - 1].beats == 0 then [Exec(k - 1)] else [])
  }

  function Runs(list: seq<Item>, k: nat): seq<Event>
    requires k <= |list|
  {
    if k == 0 then [] else Runs(list, k - 1) + (if Due(list[k - 1]) then [Exec(k - 1)] else [])
  }

  /** schedule_default_tick. */
  function DefaultTick(s: State): State {
    var init := if s.tick == 0 then InitRuns(s.list, |s.list|) else [];
    s.(list := TickItems(s.list), trace := s.trace + init + Runs(s.list, |s.list|))
  }

  /** schedule_will_alarm. */
  predicate WillAlarm(s: State) {
    s.list == [] || s.tick == 0 || exists i :: 0 <= i < |s.list| && s.list[i].alarm == 1
  }

  function Marshalled(s: State): State {
    var t := DefaultTick(s.(trace := s.trace + [MarshalOut]));
    t.(trace := t.trace + [MarshalIn])
  }

  /** One turn of the loop in schedule_tick; tick is a uint32_t. */
  function Beat(s: State): State {
    var t := s.(tick := (s.tick + 1) % TWO_32);
    if WillAlarm(t) then Marshalled(t) else DefaultTick(t)
  }

  /** The loop of schedule_tick; the beat is a parameter so that laws of the loop need not look into it. */
  function Repeat(step: State -> State, s: State, n: nat): State {
    if n == 0 then s else step(Repeat(step, s, n - 1))
  }

  function Beats(s: State, n: nat): State {
    Repeat(Beat, s, n)
  }

  /** The transition to or past 0.0. */
  function InitTick(s: State, scheduleTime: real): State {
    if !s.initTickDone && scheduleTime >= 0.0 then Marshalled(s).(initTickDone := true) else s
  }

  /** The cast of a double to int: towards zero. */
  function Trunc(r: real): int {
    if r >= 0.0 then r.Floor else -(-r).Floor
  }

  /** The number of beats schedule_tick makes up for. */
  function TicksFor(tick: nat, scheduleTime: real, beat: real): int
    requires beat > 0.0
  {
    Trunc((scheduleTime - tick as real * beat) / beat * 1.01)
  }

  /** schedule_tick, the delay already taken off the simulation time. */
  function Call(s: State, scheduleTime: real, beat: real): State
    requires beat > 0.0
  {
    var t := InitTick(s.(trace := s.trace + [MarshalNoop]), scheduleTime);
    var n := TicksFor(t.tick, scheduleTime, beat);
    Beats(t, if n > 0 then n else 0)
  }

  // ---- whole runs ----

  datatype Op = AddTask(task: nat, beats: nat) | Tick(time: real)

  /** When an item was added: before the init tick, or after it when so many beats had passed. */
  datatype Added = BeforeInit | After(beats: nat)

  /** A run so far: the state, all beats counted without wrapping, and when each item was added. */
  datatype History = History(s: State, total: nat, added: seq<Added>)

  function Step(h: History, op: Op, beat: real): History
    requires beat > 0.0
  {
    match op
    case AddTask(task, beats) =>
      History(Add(h.s, task, beats), h.total, h.added + [if h.s.initTickDone then After(h.total) else BeforeInit])
    case Tick(time) =>
      var n := TicksFor(h.s.tick, time, beat);
      History(Call(h.s, time, beat), h.total + (if n > 0 then n else 0), h.added)
  }

  function Run(ops: seq<Op>, beat: real): History
    requires beat > 0.0
  {
    if ops == [] then History(INITIAL, 0, []) else Step(Run(ops[..|ops| - 1], beat), ops[|ops| - 1], beat)
  }

  /** How often the task of item i has run. */
  function Count(trace: seq<Event>, i: nat): nat {
    if trace == [] then 0 else Count(trace[..|trace| - 1], i) + (if trace[|trace| - 1] == Exec(i) then 1 else 0)
  }

  /** The beat from which the item's alarm counts. */
  function ArmedAt(a: Added): nat {
    match a case BeforeInit => 0 case After(n) => n + 1
  }

  /** The law of an item without division: between runs the alarm makes up the difference to a whole number
      of rounds. */
  predicate ItemLaw(it: Item, added: Added, initTickDone: bool, total: nat, runs: nat) {
    if it.beats == 0 then
      it.alarm == 0 && runs == InitTaskRuns(added, initTickDone, total)
    else if initTickDone && ArmedAt(added) <= total then
      1 <= it.alarm <= it.beats && total - ArmedAt(added) + it.alarm == (runs + 1) * it.beats
    else
      it.alarm == 0 && runs == 0
  }

  /** An initialisation task runs in the init tick, and again whenever the 32-bit counter comes round to 0. */
  function InitTaskRuns(added: Added, initTickDone: bool, total: nat): int {
    match added
    case BeforeInit => if initTickDone then 1 + total / TWO_32 else 0
    case After(n) => total / TWO_32 - n / TWO_32
  }

  /** The alarm and the number of runs of item i, in closed form: a periodic task has run once in every `beats`
      beats since it was armed. */
  ghost predicate ClosedForm(h: History, i: nat)
    requires i < |h.s.list| == |h.added|
  {
    var it, armed, runs := h.s.list[i], ArmedAt(h.added[i]), Count(h.s.trace, i);
    if it.beats == 0 then
      it.alarm == 0 && runs == InitTaskRuns(h.added[i], h.s.initTickDone, h.total)
    else if h.s.initTickDone && armed <= h.total then
      it.alarm == it.beats - (h.total - armed) % it.beats && runs == (h.total - armed) / it.beats
    else
      it.alarm == 0 && runs == 0
  }

  ghost predicate Obeys(h: History, i: nat)
    requires i < |h.s.list| == |h.added|
  {
    ItemLaw(h.s.list[i], h.added[i], h.s.initTickDone, h.total, Count(h.s.trace, i))
  }

  ghost predicate Lawful(h: History) {
    && |h.s.list| == |h.added|
    && h.s.tick == h.total % TWO_32
    && (!h.s.initTickDone ==> h.total == 0)
    && (forall i :: 0 <= i < |h.added| && h.added[i].After? ==> h.s.initTickDone && h.added[i].beats <= h.total)
    && (forall i :: 0 <= i < |h.s.list| ==> Obeys(h, i))
    && (forall e :: e in h.s.trace && e.Exec? ==> e.i < |h.s.list|)
  }

  // ---- counting ----

  lemma {:induction false} CountConcat(x: seq<Event>, y: seq<Event>, i: nat)
    ensures Count(x + y, i) == Count(x, i) + Count(y, i)
    decreases |y|
  {
    if y == [] {
      assert x + y == x;
    } else {
      CountConcat(x, y[..|y| - 1], i);
      assert (x + y)[..|x + y| - 1] == x + y[..|y| - 1];
    }
  }

  lemma {:induction false} CountRuns(list: seq<Item>, k: nat, i: nat)
    requires k <= |list|
    ensures Count(Runs(list, k), i) == if i < k && Due(list[i]) then 1 else 0
    decreases k
  {
    if k > 0 {
      CountRuns(list, k - 1, i);
      CountMore(Runs(list, k - 1), k - 1, i);
    }
  }

  lemma {:induction false} CountInitRuns(list: seq<Item>, k: nat, i: nat)
    requires k <= |list|
    ensures Count(InitRuns(list, k), i) == if i < k && list[i].beats == 0 then 1 else 0
    decreases k
  {
    if k > 0 {
      CountInitRuns(list, k - 1, i);
      CountMore(InitRuns(list, k - 1), k - 1, i);
    }
  }

  lemma CountMore(trace: seq<Event>, j: nat, i: nat)
    ensures Count(trace + [Exec(j)], i) == Count(trace, i) + if j == i then 1 else 0
    ensures trace + [] == trace
  {
    CountSingle(j, i);
    CountConcat(trace, [Exec(j)], i);
  }

  lemma {:induction false} RunsAreTasks(list: seq<Item>, k: nat)
    requires k <= |list|
    ensures forall e :: e in Runs(list, k) ==> e.Exec? && e.i < k && Due(list[e.i])
    ensures forall e :: e in InitRuns(list, k) ==> e.Exec? && e.i < k
    decreases k
  {
    if k > 0 {
      RunsAreTasks(list, k - 1);
    }
  }

  lemma CountSingle(j: nat, i: nat)
    ensures Count([Exec(j)], i) == if j == i then 1 else 0
    ensures Count([MarshalOut], i) == Count([MarshalIn], i) == Count([MarshalNoop], i) == 0
  {
    assert [Exec(j)][..0] == [];
    assert Count([MarshalOut], i) == Count([MarshalOut][..0], i);
    assert Count([MarshalIn], i) == Count([MarshalIn][..0], i);
    assert Count([MarshalNoop], i) == Count([MarshalNoop][..0], i);
  }

  /** The callbacks of one schedule_default_tick, by item. */
  lemma CountTick(s: State, i: nat)
    ensures Count(DefaultTick(s).trace, i) == Count(s.trace, i)
              + (if s.tick == 0 && i < |s.list| && s.list[i].beats == 0 then 1 else 0)
              + (if i < |s.list| && Due(s.list[i]) then 1 else 0)
    ensures Count(Marshalled(s).trace, i) == Count(DefaultTick(s).trace, i)
  {
    var n := |s.list|;
    CountRuns(s.list, n, i);
    CountInitRuns(s.list, n, i);
    var init := if s.tick == 0 then InitRuns(s.list, n) else [];
    CountSingle(0, i);
    CountParts(s.trace, init, Runs(s.list, n), i);
    var out := s.trace + [MarshalOut];
    CountConcat(s.trace, [MarshalOut], i);
    CountParts(out, init, Runs(s.list, n), i);
    CountConcat(out + init + Runs(s.list, n), [MarshalIn], i);
  }

  lemma CountParts(x: seq<Event>, y: seq<Event>, z: seq<Event>, i: nat)
    ensures Count(x + y + z, i) == Count(x, i) + Count(y, i) + Count(z, i)
  {
    CountConcat(x + y, z, i);
    CountConcat(x, y, i);
  }

  lemma TraceItems(s: State)
    requires forall e :: e in s.trace && e.Exec? ==> e.i < |s.list|
    ensures forall e :: e in Marshalled(s).trace && e.Exec? ==> e.i < |s.list|
    ensures forall e :: e in DefaultTick(s).trace && e.Exec? ==> e.i < |s.list|
  {
    RunsAreTasks(s.list, |s.list|);
  }

  lemma {:induction false} NeverCounted(trace: seq<Event>, i: nat)
    requires forall e :: e in trace && e.Exec? ==> e.i < i
    ensures Count(trace, i) == 0
    decreases |trace|
  {
    if trace != [] {
      NeverCounted(trace[..|trace| - 1], i);
    }
  }

  // ---- division ----

  lemma QuotientIs(x: nat, d: nat, q: nat, r: nat)
    requires x == q * d + r && r < d
    ensures x / d == q && x % d == r
  {
    var k, m := x / d, x % d;
    assert x == k * d + m && m < d;
    assert k < q ==> (k + 1) * d <= q * d;
    assert k > q ==> (q + 1) * d <= k * d;
  }

  // ---- every operation keeps the law ----

  lemma ItemTicks(it: Item, added: Added, total: nat, runs: nat)
    requires ItemLaw(it, added, true, total, runs)
    requires added.After? ==> added.beats <= total
    ensures var more := (if (total + 1) % TWO_32 == 0 && it.beats == 0 then 1 else 0) + (if Due(it) then 1 else 0);
            ItemLaw(TickItem(it), added, true, total + 1, runs + more)
  {
    if it.beats > 0 && ArmedAt(added) > total {
      assert ArmedAt(added) == total + 1;
    }
  }

  lemma BeatState(s: State, i: nat)
    requires i < |s.list|
    ensures Ticked(s, Beat(s), i)
  {
    CountTick(s.(tick := (s.tick + 1) % TWO_32), i);
  }

  function Later(h: History): History {
    History(Beat(h.s), h.total + 1, h.added)
  }

  lemma ItemKept(h: History, g: History, i: nat)
    requires |g.s.list| == |h.s.list| == |h.added| && g.added == h.added && i < |h.s.list|
    requires g.total == h.total + 1 && h.s.initTickDone && g.s.initTickDone && Obeys(h, i)
    requires h.added[i].After? ==> h.added[i].beats <= h.total
    requires g.s.tick == g.total % TWO_32 && Ticked(h.s, g.s, i)
    ensures Obeys(g, i)
  {
    ItemTicks(h.s.list[i], h.added[i], h.total, Count(h.s.trace, i));
  }

  lemma BeatIsLawful(h: History)
    requires Lawful(h) && h.s.initTickDone
    ensures Lawful(Later(h)) && Later(h).s.initTickDone
  {
    forall i | 0 <= i < |h.s.list| ensures Ticked(h.s, Beat(h.s), i) {
      BeatState(h.s, i);
    }
    BeatFrame(h.s);
    LawKept(h, Later(h));
  }

  /** What a beat does for one item. */
  ghost predicate Ticked(s: State, t: State, i: nat) {
    && i < |s.list| == |t.list| && t.list[i] == TickItem(s.list[i])
    && Count(t.trace, i) == Count(s.trace, i) + (if t.tick == 0 && s.list[i].beats == 0 then 1 else 0)
                            + (if Due(s.list[i]) then 1 else 0)
  }

  lemma BeatFrame(s: State)
    requires forall e :: e in s.trace && e.Exec? ==> e.i < |s.list|
    ensures var t := Beat(s);
            && t.tick == (s.tick + 1) % TWO_32 && t.initTickDone == s.initTickDone && |t.list| == |s.list|
            && forall e :: e in t.trace && e.Exec? ==> e.i < |s.list|
  {
    TraceItems(s.(tick := (s.tick + 1) % TWO_32));
  }

  lemma TickWraps(total: nat)
    ensures (total % TWO_32 + 1) % TWO_32 == (total + 1) % TWO_32
  {
  }

  lemma LawKept(h: History, g: History)
    requires Lawful(h) && h.s.initTickDone && g.s.initTickDone
    requires |g.s.list| == |h.s.list| && g.added == h.added && g.total == h.total + 1
    requires g.s.tick == (h.s.tick + 1) % TWO_32
    requires forall i :: 0 <= i < |h.s.list| ==> Ticked(h.s, g.s, i)
    requires forall e :: e in g.s.trace && e.Exec? ==> e.i < |h.s.list|
    ensures Lawful(g)
  {
    TickWraps(h.total);
    forall i | 0 <= i < |g.s.list| ensures Obeys(g, i) {
      assert Ticked(h.s, g.s, i) && Obeys(h, i);
      ItemKept(h, g, i);
    }
  }

  ghost predicate KeepsLawOf(step: State -> State, h: History) {
    Lawful(h) && h.s.initTickDone ==> Lawful(History(step(h.s), h.total + 1, h.added)) && step(h.s).initTickDone
  }

  ghost predicate KeepsLaw(step: State -> State) {
    forall h: History :: KeepsLawOf(step, h)
  }

  lemma {:induction false} RepeatIsLawful(step: State -> State, h: History, n: nat)
    requires KeepsLaw(step) && Lawful(h) && (n > 0 ==> h.s.initTickDone)
    ensures Lawful(History(Repeat(step, h.s, n), h.total + n, h.added))
    ensures Repeat(step, h.s, n).initTickDone == h.s.initTickDone
  {
    if n > 0 {
      RepeatIsLawful(step, h, n - 1);
      var g := History(Repeat(step, h.s, n - 1), h.total + (n - 1), h.added);
      assert KeepsLawOf(step, g);
      assert History(Repeat(step, h.s, n), h.total + n, h.added) == History(step(g.s), g.total + 1, g.added);
    }
  }

  lemma BeatsAreLawful(h: History, n: nat)
    requires Lawful(h) && (n > 0 ==> h.s.initTickDone)
    ensures Lawful(History(Beats(h.s, n), h.total + n, h.added))
  {
    forall g: History ensures KeepsLawOf(Beat, g) {
      if Lawful(g) && g.s.initTickDone {
        BeatIsLawful(g);
      }
    }
    RepeatIsLawful(Beat, h, n);
  }

  lemma InitTickIsLawful(h: History, scheduleTime: real)
    requires Lawful(h)
    ensures Lawful(h.(s := InitTick(h.s, scheduleTime)))
  {
    if !h.s.initTickDone && scheduleTime >= 0.0 {
      var g := h.(s := InitTick(h.s, scheduleTime));
      forall i | 0 <= i < |h.s.list| ensures Obeys(g, i) {
        assert Obeys(h, i);
        CountTick(h.s, i);
      }
      TraceItems(h.s);
    }
  }

  lemma NoopIsLawful(h: History)
    requires Lawful(h)
    ensures Lawful(h.(s := h.s.(trace := h.s.trace + [MarshalNoop])))
  {
    var g := h.(s := h.s.(trace := h.s.trace + [MarshalNoop]));
    forall i | 0 <= i < |h.s.list| ensures Obeys(g, i) {
      assert Obeys(h, i);
      CountConcat(h.s.trace, [MarshalNoop], i);
      CountSingle(0, i);
    }
  }

  lemma BeatsAfterInitTick(h: History, time: real, n: nat)
    requires Lawful(h) && (n > 0 ==> time > 0.0)
    ensures Lawful(History(Beats(InitTick(h.s.(trace := h.s.trace + [MarshalNoop]), time), n), h.total + n, h.added))
  {
    NoopIsLawful(h);
    var g := h.(s := h.s.(trace := h.s.trace + [MarshalNoop]));
    InitTickIsLawful(g, time);
    BeatsAreLawful(g.(s := InitTick(g.s, time)), n);
  }

  lemma CallIsLawful(h: History, time: real, beat: real)
    requires Lawful(h) && beat > 0.0
    ensures Lawful(Step(h, Tick(time), beat))
  {
    var n := TicksFor(h.s.tick, time, beat);
    TicksNeedTime(h.s.tick, time, beat);
    BeatsAfterInitTick(h, time, if n > 0 then n else 0);
  }

  /** Beats are only made up for after 0.0, when the init tick is done. */
  lemma TicksNeedTime(tick: nat, time: real, beat: real)
    requires beat > 0.0
    ensures TicksFor(tick, time, beat) > 0 ==> time > 0.0
  {
    if time <= 0.0 {
      var gap := time - tick as real * beat;
      assert tick as real * beat >= 0.0;
      NotPositive(gap, beat);
    }
  }

  lemma NotPositive(gap: real, beat: real)
    requires beat > 0.0 && gap <= 0.0
    ensures Trunc(gap / beat * 1.01) <= 0
  {
    var q := gap / beat;
    assert q * beat == gap;
    assert q > 0.0 ==> q * beat > 0.0;
  }

  lemma AddIsLawful(h: History, task: nat, beats: nat, beat: real)
    requires Lawful(h) && beat > 0.0
    ensures Lawful(Step(h, AddTask(task, beats), beat))
  {
    var g := Step(h, AddTask(task, beats), beat);
    NeverCounted(h.s.trace, |h.s.list|);
    forall i | 0 <= i < |g.s.list| ensures Obeys(g, i) {
      assert i < |h.s.list| ==> Obeys(h, i);
    }
  }

  lemma {:induction false} RunIsLawful(ops: seq<Op>, beat: real)
    requires beat > 0.0
    ensures Lawful(Run(ops, beat))
    decreases |ops|
  {
    if ops != [] {
      var before := ops[..|ops| - 1];
      RunIsLawful(before, beat);
      match ops[|ops| - 1]
      case AddTask(task, beats) => AddIsLawful(Run(before, beat), task, beats, beat);
      case Tick(time) => CallIsLawful(Run(before, beat), time, beat);
    }
  }

  /** The whole-run law: after any sequence of calls, with tasks added at any time, the alarm and the number
      of runs of every item have their closed form. */
  lemma RunLaw(ops: seq<Op>, beat: real)
    requires beat > 0.0
    ensures var h := Run(ops, beat);
            && |h.s.list| == |h.added|
            && h.s.tick == h.total % TWO_32
            && forall i :: 0 <= i < |h.s.list| ==> ClosedForm(h, i)
  {
    var h := Run(ops, beat);
    RunIsLawful(ops, beat);
    forall i | 0 <= i < |h.s.list| ensures ClosedForm(h, i) {
      var it, armed, runs := h.s.list[i], ArmedAt(h.added[i]), Count(h.s.trace, i);
      assert Obeys(h, i);
      if it.beats > 0 && h.s.initTickDone && armed <= h.total {
        QuotientIs(h.total - armed, it.beats, runs, it.beats - it.alarm);
      }
    }
  }

  // ---- marshalling ----

  /** Tasks of the list, each once and in list order. */
  predicate InListOrder(runs: seq<Event>, n: nat) {
    && (forall k :: 0 <= k < |runs| ==> runs[k].Exec? && runs[k].i < n)
    && (forall j, k :: 0 <= j < k < |runs| ==> runs[j].i < runs[k].i)
  }

  /** The tasks that fall due in the next beat. */
  ghost predicate DueTasks(h: History, runs: seq<Event>) {
    && |h.s.list| == |h.added| && InListOrder(runs, |h.s.list|)
    && (forall i :: 0 <= i < |h.s.list| ==> (Exec(i) in runs <==> RunsAt(h, i)))
  }

  /** The initialisation tasks if the counter comes round to 0, otherwise none. */
  ghost predicate InitTasks(h: History, runs: seq<Event>) {
    && InListOrder(runs, |h.s.list|)
    && (forall i :: 0 <= i < |h.s.list| ==>
          (Exec(i) in runs <==> h.s.list[i].beats == 0 && (h.total + 1) % TWO_32 == 0))
  }

  /** What a beat does: initialisation tasks, then the periodic tasks whose time is up, each once and in list
      order.  It is bracketed by marshal_out and marshal_in exactly if the list is empty, or the counter comes
      round to 0, or a task runs. */
  lemma BeatIsBracketed(h: History) returns (init: seq<Event>, runs: seq<Event>)
    requires Lawful(h) && h.s.initTickDone
    ensures InitTasks(h, init) && DueTasks(h, runs)
    ensures Beat(h.s).trace ==
            h.s.trace + Callbacks(h.s.list == [] || (h.total + 1) % TWO_32 == 0 || runs != [], init, runs)
  {
    runs := Runs(h.s.list, |h.s.list|);
    init := if (h.s.tick + 1) % TWO_32 == 0 then InitRuns(h.s.list, |h.s.list|) else [];
    AlarmsAreDue(h);
    BeatTrace(h.s);
    TraceOfHistory(h, Beat(h.s).trace, init, runs);
  }

  lemma TraceOfHistory(h: History, trace: seq<Event>, init: seq<Event>, runs: seq<Event>)
    requires Lawful(h) && h.s.initTickDone && runs == Runs(h.s.list, |h.s.list|)
    requires init == if (h.s.tick + 1) % TWO_32 == 0 then InitRuns(h.s.list, |h.s.list|) else []
    requires trace == h.s.trace + Callbacks(h.s.list == [] || (h.s.tick + 1) % TWO_32 == 0 || runs != [], init, runs)
    ensures InitTasks(h, init) && DueTasks(h, runs)
    ensures trace == h.s.trace + Callbacks(h.s.list == [] || (h.total + 1) % TWO_32 == 0 || runs != [], init, runs)
  {
    RunsAreDue(h);
    InitRunsAreInit(h);
    TickComesRound(h);
    SameTrace(h.s.trace, trace, h.s.list == [] || (h.s.tick + 1) % TWO_32 == 0 || runs != [],
              h.s.list == [] || (h.total + 1) % TWO_32 == 0 || runs != [], init, runs);
  }

  lemma SameTrace(before: seq<Event>, trace: seq<Event>, a: bool, b: bool, init: seq<Event>, runs: seq<Event>)
    requires trace == before + Callbacks(a, init, runs) && (a <==> b)
    ensures trace == before + Callbacks(b, init, runs)
  {
  }

  lemma TickComesRound(h: History)
    requires Lawful(h)
    ensures (h.s.tick + 1) % TWO_32 == 0 <==> (h.total + 1) % TWO_32 == 0
  {
    TickWraps(h.total);
  }

  function Callbacks(bracketed: bool, init: seq<Event>, runs: seq<Event>): seq<Event> {
    if bracketed then [MarshalOut] + init + runs + [MarshalIn] else []
  }

  lemma RunsAreDue(h: History)
    requires Lawful(h) && h.s.initTickDone
    ensures DueTasks(h, Runs(h.s.list, |h.s.list|))
  {
    var n := |h.s.list|;
    RunsInOrder(h.s.list, n);
    forall i | 0 <= i < n ensures Exec(i) in Runs(h.s.list, n) <==> RunsAt(h, i) {
      DueWhenTimeIsUp(h, i);
      CountRuns(h.s.list, n, i);
      CountIsPresence(Runs(h.s.list, n), i);
    }
  }

  /** An alarm at one belongs to a periodic task, which runs. */
  lemma AlarmsAreDue(h: History)
    requires Lawful(h) && h.s.initTickDone
    ensures var runs := Runs(h.s.list, |h.s.list|);
            && (forall e :: e in runs ==> e.Exec? && e.i < |h.s.list| && Due(h.s.list[e.i]))
            && (forall i :: 0 <= i < |h.s.list| && h.s.list[i].alarm == 1 ==> Exec(i) in runs)
  {
    var n := |h.s.list|;
    RunsAreTasks(h.s.list, n);
    forall i | 0 <= i < n && h.s.list[i].alarm == 1 ensures Exec(i) in Runs(h.s.list, n) {
      DueWhenTimeIsUp(h, i);
      CountRuns(h.s.list, n, i);
      CountIsPresence(Runs(h.s.list, n), i);
    }
  }

  lemma InitRunsAreInit(h: History)
    requires Lawful(h)
    ensures InitTasks(h, if (h.s.tick + 1) % TWO_32 == 0 then InitRuns(h.s.list, |h.s.list|) else [])
  {
    var n := |h.s.list|;
    TickComesRound(h);
    InitRunsInOrder(h.s.list, n);
    forall i | 0 <= i < n ensures Exec(i) in InitRuns(h.s.list, n) <==> h.s.list[i].beats == 0 {
      CountInitRuns(h.s.list, n, i);
      CountIsPresence(InitRuns(h.s.list, n), i);
    }
  }

  lemma BeatTrace(s: State)
    requires forall e :: e in Runs(s.list, |s.list|) ==> e.Exec? && e.i < |s.list| && Due(s.list[e.i])
    requires forall i :: 0 <= i < |s.list| && s.list[i].alarm == 1 ==> Exec(i) in Runs(s.list, |s.list|)
    ensures var runs, zero := Runs(s.list, |s.list|), (s.tick + 1) % TWO_32 == 0;
            var init := if zero then InitRuns(s.list, |s.list|) else [];
            Beat(s).trace == s.trace + Callbacks(s.list == [] || zero || runs != [], init, runs)
  {
    var t, runs := s.(tick := (s.tick + 1) % TWO_32), Runs(s.list, |s.list|);
    var init := if t.tick == 0 then InitRuns(s.list, |s.list|) else [];
    var bracketed := s.list == [] || t.tick == 0 || runs != [];
    AlarmMeansRun(t);
    if bracketed {
      MarshalledTrace(t);
      MarshalledBeat(s);
    } else {
      SilentTick(t);
      SilentBeat(s);
    }
  }

  lemma MarshalledBeat(s: State)
    requires var t := s.(tick := (s.tick + 1) % TWO_32); WillAlarm(t)
    ensures var t := s.(tick := (s.tick + 1) % TWO_32); Beat(s) == Marshalled(t)
  {
  }

  lemma SilentBeat(s: State)
    requires var t := s.(tick := (s.tick + 1) % TWO_32); !WillAlarm(t)
    ensures var t := s.(tick := (s.tick + 1) % TWO_32); Beat(s) == DefaultTick(t)
  {
  }

  lemma AlarmMeansRun(t: State)
    requires forall e :: e in Runs(t.list, |t.list|) ==> e.Exec? && e.i < |t.list| && Due(t.list[e.i])
    requires forall i :: 0 <= i < |t.list| && t.list[i].alarm == 1 ==> Exec(i) in Runs(t.list, |t.list|)
    ensures WillAlarm(t) <==> t.list == [] || t.tick == 0 || Runs(t.list, |t.list|) != []
  {
    var runs := Runs(t.list, |t.list|);
    assert runs != [] ==> runs[0] in runs && t.list[runs[0].i].alarm == 1;
  }

  lemma MarshalledTrace(t: State)
    ensures Marshalled(t).trace == t.trace + Callbacks(true,
              if t.tick == 0 then InitRuns(t.list, |t.list|) else [], Runs(t.list, |t.list|))
  {
  }

  lemma SilentTick(t: State)
    requires t.tick != 0 && Runs(t.list, |t.list|) == []
    ensures DefaultTick(t).trace == t.trace + []
  {
    assert t.trace + [] + [] == t.trace + [];
  }

  lemma {:induction false} RunsInOrder(list: seq<Item>, k: nat)
    requires k <= |list|
    ensures InListOrder(Runs(list, k), k)
  {
    if k > 0 {
      RunsInOrder(list, k - 1);
    }
  }

  lemma {:induction false} InitRunsInOrder(list: seq<Item>, k: nat)
    requires k <= |list|
    ensures InListOrder(InitRuns(list, k), k)
  {
    if k > 0 {
      InitRunsInOrder(list, k - 1);
    }
  }

  /** The next beat is one at which item i falls due. */
  predicate RunsAt(h: History, i: nat)
    requires i < |h.s.list| == |h.added|
  {
    var b, armed := h.s.list[i].beats, ArmedAt(h.added[i]);
    b > 0 && h.total >= armed && (h.total + 1 - armed) % b == 0
  }

  lemma DueWhenTimeIsUp(h: History, i: nat)
    requires Lawful(h) && h.s.initTickDone && i < |h.s.list|
    ensures Due(h.s.list[i]) <==> RunsAt(h, i)
    ensures h.s.list[i].alarm == 1 ==> Due(h.s.list[i])
  {
    var it, armed := h.s.list[i], ArmedAt(h.added[i]);
    assert Obeys(h, i);
    if it.beats > 0 && armed <= h.total {
      var x, runs := h.total - armed, Count(h.s.trace, i);
      if it.alarm == 1 {
        QuotientIs(x + 1, it.beats, runs + 1, 0);
      } else {
        QuotientIs(x + 1, it.beats, runs, it.beats + 1 - it.alarm);
      }
    }
  }

  lemma {:induction false} CountIsPresence(trace: seq<Event>, i: nat)
    ensures Count(trace, i) > 0 <==> Exec(i) in trace
    decreases |trace|
  {
    if trace != [] {
      var n := |trace| - 1;
      CountIsPresence(trace[..n], i);
      assert trace == trace[..n] + [trace[n]];
    }
  }

  // ---- the ticks formula ----

  /** A gap of any length: the whole beats in it are made up for exactly if the fraction left over and the one
      added to absorb rounding (a hundredth of the gap) stay below a beat together. */
  lemma AnyGap(tick: nat, time: real, beat: real)
    requires beat > 0.0
    ensures var gap := (time - tick as real * beat) / beat;
            && (gap < 0.0 ==> TicksFor(tick, time, beat) <= 0)
            && (gap >= 0.0 ==>
                  (TicksFor(tick, time, beat) == gap.Floor <==> gap - gap.Floor as real + gap / 100.0 < 1.0))
  {
    var gap := (time - tick as real * beat) / beat;
    assert gap * 1.01 == gap + gap / 100.0;
  }

  /** A gap of g whole beats is made up for by g ticks exactly when g is below 100 (the factor 1.01 that
      absorbs rounding adds a tick for every hundred). */
  lemma WholeBeats(tick: nat, g: nat, beat: real)
    requires beat > 0.0
    ensures TicksFor(tick, (tick + g) as real * beat, beat) == g + g / 100
    ensures TicksFor(tick, (tick + g) as real * beat, beat) == g <==> g < 100
  {
    var time := (tick + g) as real * beat;
    assert time - tick as real * beat == g as real * beat;
    assert g as real * beat / beat == g as real;
    var x := g as real * 1.01;
    var k, r := g / 100, g % 100;
    assert x == (g + k) as real + r as real / 100.0;
    assert x.Floor == g + k;
  }

  // ---- which task an item runs ----

  function TasksOf(list: seq<Item>): seq<(nat, nat)> {
    seq(|list|, i requires 0 <= i < |list| => (list[i].task, list[i].beats))
  }

  /** The tasks and periods that a run adds, in order. */
  function AddedTasks(ops: seq<Op>): seq<(nat, nat)> {
    if ops == [] then []
    else
      AddedTasks(ops[..|ops| - 1])
      + match ops[|ops| - 1] case AddTask(task, beats) => [(task, beats)] case Tick(_) => []
  }

  lemma TickKeepsTasks(list: seq<Item>)
    ensures TasksOf(TickItems(list)) == TasksOf(list)
  {
  }

  lemma {:induction false} BeatsKeepTasks(s: State, n: nat)
    ensures TasksOf(Beats(s, n).list) == TasksOf(s.list)
  {
    if n > 0 {
      BeatsKeepTasks(s, n - 1);
      TickKeepsTasks(Beats(s, n - 1).list);
    }
  }

  lemma CallKeepsTasks(s: State, scheduleTime: real, beat: real)
    requires beat > 0.0
    ensures TasksOf(Call(s, scheduleTime, beat).list) == TasksOf(s.list)
  {
    var t := InitTick(s.(trace := s.trace + [MarshalNoop]), scheduleTime);
    TickKeepsTasks(s.list);
    var n := TicksFor(t.tick, scheduleTime, beat);
    BeatsKeepTasks(t, if n > 0 then n else 0);
  }

  /** After any run the i-th item has the task and the period of the i-th task added. */
  lemma {:induction false} ItemsHaveTheirTasks(ops: seq<Op>, beat: real)
    requires beat > 0.0
    ensures TasksOf(Run(ops, beat).s.list) == AddedTasks(ops)
    decreases |ops|
  {
    if ops != [] {
      var before, op := Run(ops[..|ops| - 1], beat), ops[|ops| - 1];
      ItemsHaveTheirTasks(ops[..|ops| - 1], beat);
      match op {
        case AddTask(task, beats) =>
          assert TasksOf(before.s.list + [Item(task, beats, 0)]) == TasksOf(before.s.list) + [(task, beats)];
        case Tick(time) =>
          CallKeepsTasks(before.s, time, beat);
          assert AddedTasks(ops) == AddedTasks(ops[..|ops| - 1]) + [];
      }
    }
  }
}

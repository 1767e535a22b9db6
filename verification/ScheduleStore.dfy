/** The Schedule object of dse/clib/schedule/schedule.c, its fields updated as the source does. */
module ScheduleStore {
  import opened Widths
  import opened Schedule

  class Scheduler {
    var list: seq<Item>
    var tick: nat
    var initTickDone: bool
    /** The callbacks made so far: exec on a task, marshal_noop, marshal_out and marshal_in. */
    var trace: seq<Event>
    const beat: real

    /** The fields as one value. */
    function Value(): State
      reads this
    {
      State(list, tick, initTickDone, trace)
    }

    constructor (beat: real)
      ensures Value() == INITIAL && this.beat == beat
    {
      list, tick, initTickDone, trace := [], 0, false, [];
      this.beat := beat;
    }

    method AddItem(task: nat, beats: nat)
      modifies this
      ensures Value() == Add(old(Value()), task, beats)
    {
      list := list + [Item(task, beats, 0)];
    }

    method Alarming() returns (b: bool)
      ensures b == WillAlarm(Value())
    {
      if list == [] || tick == 0 {
        return true;
      }
      var i := 0;
      while i < |list|
        invariant 0 <= i <= |list|
        invariant forall j :: 0 <= j < i ==> list[j].alarm != 1
      {
        if list[i].alarm == 1 {
          return true;
        }
        i := i + 1;
      }
      return false;
    }

    method RunInitTasks()
      modifies this`trace
      ensures trace == old(trace) + InitRuns(list, |list|)
    {
      var i := 0;
      assert trace == old(trace) + InitRuns(list, 0);
      while i < |list|
        invariant 0 <= i <= |list|
        invariant trace == old(trace) + InitRuns(list, i)
      {
        if list[i].beats == 0 {
          trace := trace + [Exec(i)];
        }
        assert InitRuns(list, i + 1) == InitRuns(list, i) + if list[i].beats == 0 then [Exec(i)] else [];
        i := i + 1;
      }
    }

    /** The alarm of one item; its task runs when the alarm reaches 0. */
    method TickOne(i: nat)
      requires i < |list| && list[i].beats > 0
      modifies this`list, this`trace
      ensures list == old(list)[i := TickItem(old(list[i]))]
      ensures trace == old(trace) + if Due(old(list[i])) then [Exec(i)] else []
    {
      if list[i].alarm > 0 {
        list := list[i := list[i].(alarm := list[i].alarm - 1)];
        if list[i].alarm == 0 {
          trace := trace + [Exec(i)];
        }
      }
      if list[i].alarm == 0 {
        list := list[i := list[i].(alarm := list[i].beats)];
      }
    }

    /** schedule_default_tick. */
    method TickAll()
      modifies this`list, this`trace
      ensures Value() == DefaultTick(old(Value()))
    {
      if tick == 0 {
        RunInitTasks();
      }
      ghost var was, before := list, trace;
      var i := 0;
      assert trace == before + Runs(was, 0);
      while i < |list|
        invariant 0 <= i <= |list| == |was|
        invariant forall j :: 0 <= j < |was| ==> list[j] == if j < i then TickItem(was[j]) else was[j]
        invariant trace == before + Runs(was, i)
      {
        if list[i].beats > 0 {
          TickOne(i);
        }
        assert Runs(was, i + 1) == Runs(was, i) + if Due(was[i]) then [Exec(i)] else [];
        i := i + 1;
      }
      assert list == TickItems(was);
      assert trace == old(trace) + (if tick == 0 then InitRuns(was, |was|) else []) + Runs(was, |was|);
    }

    method MarshalledTick()
      modifies this`list, this`trace
      ensures Value() == Marshalled(old(Value()))
    {
      trace := trace + [MarshalOut];
      TickAll();
      trace := trace + [MarshalIn];
    }

    /** One turn of the loop in schedule_tick. */
    method OneBeat()
      modifies this
      ensures Value() == Beat(old(Value()))
    {
      tick := (tick + 1) % TWO_32;
      var marshal := Alarming();
      if marshal {
        MarshalledTick();
      } else {
        TickAll();
      }
    }

    method CatchStart(scheduleTime: real)
      modifies this
      ensures Value() == InitTick(old(Value()), scheduleTime)
    {
      if !initTickDone && scheduleTime >= 0.0 {
        MarshalledTick();
        initTickDone := true;
      }
    }

    /** schedule_tick. */
    method OnTime(scheduleTime: real)
      requires beat > 0.0
      modifies this
      ensures Value() == Call(old(Value()), scheduleTime, beat)
    {
      trace := trace + [MarshalNoop];
      CatchStart(scheduleTime);
      ghost var start := Value();
      var ticks := TicksFor(tick, scheduleTime, beat);
      MakeUp(ticks);
      assert Value() == Beats(start, if ticks > 0 then ticks else 0);
    }

    /** The loop of schedule_tick. */
    method MakeUp(ticks: int)
      modifies this
      ensures Value() == Beats(old(Value()), if ticks > 0 then ticks else 0)
    {
      ghost var start := Value();
      var t := 0;
      while t < ticks
        invariant 0 <= t && (t <= ticks || t == 0)
        invariant Value() == Beats(start, t)
      {
        OneBeat();
        t := t + 1;
      }
    }
  }
}

/**
 Round-robin selection, sleeping and waking (src/task/task.c, src/timer/pit.c), on the states of the
 tasks in list order. The calls on the linked list itself are in Tasks.
 */
module Scheduler {
  import opened Kernel

  /** The two fields of struct task that decide whether it may run. */
  datatype TaskState = TaskState(awake: bool, awakeAt: int)

  /** task_wake */
  const WOKEN := TaskState(true, -1)

  /** task_pause */
  const PAUSED := TaskState(false, -1)

  const TICK := 55

  // ----- selection

  /** task_get_next_to, on list positions. */
  function After(i: nat, n: nat): nat {
    if i + 1 >= n then 0 else i + 1
  }

  /** The walk of task_get_next_active_task when the head of the list is awake. */
  function Search(tasks: seq<TaskState>, i: nat): (r: nat)
    requires i < |tasks| && tasks[0].awake
    ensures r < |tasks| && tasks[r].awake
    ensures r > i || r == 0
    ensures forall k :: i < k < (if r > i then r else |tasks|) ==> !tasks[k].awake
    decreases |tasks| - i
  {
    var j := After(i, |tasks|);
    if tasks[j].awake then j else Search(tasks, j)
  }

  /** The task selected after task i. */
  function Selected(tasks: seq<TaskState>, i: nat): (r: nat)
    requires i < |tasks|
    ensures r < |tasks|
  {
    if tasks[0].awake then Search(tasks, i) else After(i, |tasks|)
  }

  /** Selection wakes a task only when the head sleeps, and then the one it selects. */
  function AfterSelection(tasks: seq<TaskState>, i: nat): (r: seq<TaskState>)
    requires i < |tasks|
    ensures |r| == |tasks| && r[Selected(tasks, i)].awake
    ensures tasks[0].awake ==> r == tasks
  {
    if tasks[0].awake then tasks else tasks[After(i, |tasks|) := WOKEN]
  }

  /** How many places task t is ahead of task i, going round; n for i itself. */
  function Ahead(i: nat, t: nat, n: nat): int {
    if t > i then t - i else t + n - i
  }

  /** Selection never skips an awake task: it comes nearer to t, or selects it. */
  lemma SelectionNears(tasks: seq<TaskState>, i: nat, t: nat)
    requires i < |tasks| && t < |tasks| && tasks[t].awake
    ensures Selected(tasks, i) == t || Ahead(Selected(tasks, i), t, |tasks|) < Ahead(i, t, |tasks|)
  {}

  /** The task selected by the last of the calls; the task states may be different at each call. */
  function SelectedAfter(calls: seq<seq<TaskState>>, i: nat, n: nat): (r: nat)
    requires i < n && forall tasks :: tasks in calls ==> |tasks| == n
    ensures r < n
  {
    if calls == [] then i else Selected(calls[|calls| - 1], SelectedAfter(calls[..|calls| - 1], i, n))
  }

  /** One of the first k calls selects t. */
  ghost predicate SelectsWithin(calls: seq<seq<TaskState>>, i: nat, n: nat, t: nat, k: nat)
    requires i < n && forall tasks :: tasks in calls ==> |tasks| == n
  {
    exists j :: 1 <= j <= k && j <= |calls| && SelectedAfter(calls[..j], i, n) == t
  }

  lemma OneMoreCall(calls: seq<seq<TaskState>>, i: nat, n: nat, t: nat)
    requires i < n && t < n && calls != [] && forall tasks :: tasks in calls ==> |tasks| == n
    requires SelectsWithin(calls[..|calls| - 1], i, n, t, |calls| - 1)
    ensures SelectsWithin(calls, i, n, t, |calls|)
  {
    hide SelectedAfter;
    var m := |calls| - 1;
    var j :| 1 <= j <= m && j <= |calls[..m]| && SelectedAfter(calls[..m][..j], i, n) == t;
    assert calls[..m][..j] == calls[..j];
  }

  lemma {:induction false} NotYetNears(calls: seq<seq<TaskState>>, i: nat, n: nat, t: nat)
    requires i < n && t < n && forall tasks: seq<TaskState> :: tasks in calls ==> |tasks| == n && tasks[t].awake
    ensures SelectsWithin(calls, i, n, t, |calls|)
            || Ahead(SelectedAfter(calls, i, n), t, n) + |calls| <= Ahead(i, t, n)
    decreases |calls|
  {
    if calls != [] {
      var m := |calls| - 1;
      var front := calls[..m];
      assert calls[m] in calls;
      NotYetNears(front, i, n, t);
      SelectionNears(calls[m], SelectedAfter(front, i, n), t);
      if SelectsWithin(front, i, n, t, m) {
        OneMoreCall(calls, i, n, t);
      } else if SelectedAfter(calls, i, n) == t {
        assert calls[..|calls|] == calls;
      }
    }
  }

  /**
   Bounded waiting: in a list of n tasks a task that is awake at each of n calls of task_next is selected
   by one of them, whatever the other tasks do in between.
   */
  lemma BoundedWaiting(calls: seq<seq<TaskState>>, i: nat, n: nat, t: nat)
    requires i < n && t < n && |calls| == n
    requires forall tasks: seq<TaskState> :: tasks in calls ==> |tasks| == n && tasks[t].awake
    ensures SelectsWithin(calls, i, n, t, n)
  {
    NotYetNears(calls, i, n, t);
  }

  // ----- time

  /** A 32-bit sum, as the value of a long. */
  function ToLong(x: nat): int {
    if x % WORD < 0x8000_0000 then x % WORD else x % WORD - WORD
  }

  /** task_usleep on the sleeping task itself. */
  function Asleep(clock: nat, millis: nat): TaskState {
    TaskState(false, ToLong(clock + millis))
  }

  /** task_wake_tasks on one task. */
  function Ticked(s: TaskState, clock: nat): TaskState {
    if !s.awake && s.awakeAt != -1 && clock > s.awakeAt then WOKEN else s
  }

  function AllTicked(tasks: seq<TaskState>, clock: nat): (r: seq<TaskState>)
    ensures |r| == |tasks| && forall k :: 0 <= k < |r| ==> r[k] == Ticked(tasks[k], clock)
  {
    seq(|tasks|, k requires 0 <= k < |tasks| => Ticked(tasks[k], clock))
  }

  datatype State = State(tasks: seq<TaskState>, current: nat, clock: nat)

  predicate ValidState(s: State) {
    s.current < |s.tasks|
  }

  /** The timer interrupt, task_next on its own, and the calls that put tasks to sleep or wake them. */
  datatype Event = Tick | Next | Sleep(i: nat, millis: nat) | Pause(i: nat) | Wake(i: nat)

  /** task_next */
  function NextState(s: State): (r: State)
    requires ValidState(s)
    ensures ValidState(r)
  {
    s.(tasks := AfterSelection(s.tasks, s.current), current := Selected(s.tasks, s.current))
  }

  function Step(s: State, e: Event): (r: State)
    requires ValidState(s)
    ensures ValidState(r) && |r.tasks| == |s.tasks|
  {
    match e
    case Tick => NextState(s.(clock := s.clock + TICK, tasks := AllTicked(s.tasks, s.clock + TICK)))
    case Next => NextState(s)
    case Sleep(i, millis) =>
      if i >= |s.tasks| then s
      else
        var slept := s.(tasks := s.tasks[i := Asleep(s.clock, millis)]);
        if i == s.current then NextState(slept) else slept
    case Pause(i) => if i >= |s.tasks| then s else s.(tasks := s.tasks[i := PAUSED])
    case Wake(i) => if i >= |s.tasks| then s else s.(tasks := s.tasks[i := WOKEN])
  }

  /** What the three calls write into the task they are about. */
  lemma CallsAbout(s: State, i: nat, millis: nat)
    requires ValidState(s) && i < |s.tasks|
    ensures Step(s, Wake(i)) == s.(tasks := s.tasks[i := TaskState(true, -1)])
    ensures Step(s, Pause(i)) == s.(tasks := s.tasks[i := TaskState(false, -1)])
    ensures i != s.current && s.clock + millis < 0x8000_0000 ==>
              Step(s, Sleep(i, millis)) == s.(tasks := s.tasks[i := TaskState(false, s.clock + millis)])
  {}

  function Run(s: State, events: seq<Event>): (r: State)
    requires ValidState(s)
    ensures ValidState(r) && |r.tasks| == |s.tasks|
    decreases |events|
  {
    if events == [] then s else Run(Step(s, events[0]), events[1..])
  }

  function Ticks(events: seq<Event>): nat {
    if events == [] then 0 else (if events[0] == Tick then 1 else 0) + Ticks(events[1..])
  }

  /** The call puts task t to sleep, pauses it or wakes it. */
  predicate About(e: Event, t: nat) {
    match e
    case Tick => false
    case Next => false
    case Sleep(i, _) => i == t
    case Pause(i) => i == t
    case Wake(i) => i == t
  }

  /** No call in the run is about task t. */
  predicate LeavesAlone(events: seq<Event>, t: nat) {
    forall e :: e in events ==> !About(e, t)
  }

  // ----- who is woken

  /** The state in which a step calls task_next, if it does. */
  function SelectsIn(s: State, e: Event): (r: Option<State>)
    requires ValidState(s)
    ensures r.Some? ==> ValidState(r.value) && Step(s, e) == NextState(r.value)
  {
    match e
    case Tick => Some(s.(clock := s.clock + TICK, tasks := AllTicked(s.tasks, s.clock + TICK)))
    case Next => Some(s)
    case Sleep(i, millis) => if i == s.current then Some(s.(tasks := s.tasks[i := Asleep(s.clock, millis)])) else None
    case Pause(_) => None
    case Wake(_) => None
  }

  /** The step selects while the head of the list sleeps, and task t comes next: it is woken, whatever it is. */
  predicate ForcedBy(s: State, e: Event, t: nat)
    requires ValidState(s)
  {
    match SelectsIn(s, e)
    case None => false
    case Some(u) => !u.tasks[0].awake && After(u.current, |u.tasks|) == t
  }

  predicate Forced(s: State, events: seq<Event>, t: nat)
    requires ValidState(s)
    decreases |events|
  {
    events != [] && (ForcedBy(s, events[0], t) || Forced(Step(s, events[0]), events[1..], t))
  }

  /** A step that is not about t wakes t by the clock, by force, or not at all. */
  lemma StepOn(s: State, e: Event, t: nat)
    requires ValidState(s) && t < |s.tasks| && !About(e, t)
    ensures Step(s, e).tasks[t] ==
            if ForcedBy(s, e, t) then WOKEN
            else if e == Tick then Ticked(s.tasks[t], s.clock + TICK) else s.tasks[t]
    ensures Step(s, e).clock == s.clock + if e == Tick then TICK else 0
  {}

  /** Nothing but a call about it puts a task to sleep. */
  lemma {:induction false} StaysWoken(s: State, events: seq<Event>, t: nat)
    requires ValidState(s) && t < |s.tasks| && LeavesAlone(events, t) && s.tasks[t] == WOKEN
    ensures Run(s, events).tasks[t] == WOKEN
    decreases |events|
  {
    hide Step, ForcedBy;
    if events != [] {
      StepOn(s, events[0], t);
      StaysWoken(Step(s, events[0]), events[1..], t);
    }
  }

  /** Without a call about it a sleeping task wakes at its deadline, or by force. */
  lemma {:induction false} WakesExactly(s: State, t: nat, deadline: int, events: seq<Event>)
    requires ValidState(s) && t < |s.tasks| && LeavesAlone(events, t)
    requires s.tasks[t] == TaskState(false, deadline) && s.clock <= deadline
    ensures Run(s, events).tasks[t] ==
            if s.clock + TICK * Ticks(events) > deadline || Forced(s, events, t) then WOKEN else s.tasks[t]
    decreases |events|
  {
    hide Step, ForcedBy;
    if events != [] {
      var e, rest := events[0], events[1..];
      assert e in events;
      StepOn(s, e, t);
      if Step(s, e).tasks[t] == WOKEN {
        StaysWoken(Step(s, e), rest, t);
      } else {
        WakesExactly(Step(s, e), t, deadline, rest);
      }
    }
  }

  /** Without a call about it a paused task wakes by force only. */
  lemma {:induction false} PausedExactly(s: State, t: nat, events: seq<Event>)
    requires ValidState(s) && t < |s.tasks| && LeavesAlone(events, t) && s.tasks[t] == PAUSED
    ensures Run(s, events).tasks[t] == if Forced(s, events, t) then WOKEN else PAUSED
    decreases |events|
  {
    hide Step, ForcedBy;
    if events != [] {
      var e, rest := events[0], events[1..];
      assert e in events;
      StepOn(s, e, t);
      if Step(s, e).tasks[t] == WOKEN {
        StaysWoken(Step(s, e), rest, t);
      } else {
        PausedExactly(Step(s, e), t, rest);
      }
    }
  }

  /**
   Timed sleep, in every run without a call about the task: a task that was put to sleep for millis milliseconds is
   awake exactly from timer tick millis / 55 + 1 on, or from an earlier step that selects while the head of the list
   sleeps and the task comes next. The clock is a signed 32-bit number, and must still be one at that tick.
   */
  lemma SleepsUntil(s: State, t: nat, millis: nat, events: seq<Event>)
    requires ValidState(s) && t < |s.tasks| && s.clock + millis + TICK < 0x8000_0000
    requires s.tasks[t] == Asleep(s.clock, millis) && LeavesAlone(events, t)
    ensures Run(s, events).tasks[t].awake <==> Ticks(events) >= millis / 55 + 1 || Forced(s, events, t)
  {
    hide Run, LeavesAlone, ValidState, Forced;
    WakesExactly(s, t, s.clock + millis, events);
    TickThreshold(millis, Ticks(events));
  }

  /** A wake-up time past 2^31 is negative: the task is woken by the very next tick, unless it is by chance -1. */
  lemma LongSleepIsShort(clock: nat, millis: nat)
    requires clock + TICK < 0x8000_0000 && millis < 0x1_0000_0000
    requires 0x8000_0000 <= clock + millis < 0xFFFF_FFFF
    ensures Asleep(clock, millis) == TaskState(false, clock + millis - 0x1_0000_0000)
    ensures Ticked(Asleep(clock, millis), clock + TICK) == WOKEN
  {}

  lemma TickThreshold(millis: nat, k: nat)
    ensures 55 * k > millis <==> k >= millis / 55 + 1
  {}

  /** A paused task, in every such run: it is woken by force and by nothing else. */
  lemma PausedUntil(s: State, t: nat, events: seq<Event>)
    requires ValidState(s) && t < |s.tasks| && s.tasks[t] == PAUSED && LeavesAlone(events, t)
    requires s.clock + TICK * Ticks(events) < 0x8000_0000
    ensures Run(s, events).tasks[t].awake <==> Forced(s, events, t)
  {
    hide Run, LeavesAlone, ValidState, Forced;
    PausedExactly(s, t, events);
  }

  // With one task more in front it happens: the head is paused, the first task runs, and the clock ticks once.

  /** A paused task that one tick wakes. */
  lemma PausedWoken()
    ensures var s := State([PAUSED, PAUSED, WOKEN], 0, 0); Run(s, [Tick]).tasks[1] == WOKEN
  {
    var s := State([PAUSED, PAUSED, WOKEN], 0, 0);
    assert Run(Step(s, Tick), [Tick][1..]) == Step(s, Tick);
  }

  /** A task that is to sleep for a second, and that the first tick wakes. */
  lemma WokenEarly()
    ensures var s := State([PAUSED, Asleep(0, 1000), WOKEN], 0, 0); Run(s, [Tick]).tasks[1] == WOKEN
    ensures 1000 / 55 + 1 == 19
  {
    var s := State([PAUSED, Asleep(0, 1000), WOKEN], 0, 0);
    assert Run(Step(s, Tick), [Tick][1..]) == Step(s, Tick);
  }

  // ----- while the head is awake

  /** The list head is awake in every state of the run, also while task_next selects. */
  ghost predicate HeadStaysAwake(s: State, events: seq<Event>)
    requires ValidState(s)
    decreases |events|
  {
    && s.tasks[0].awake
    && (events != [] ==>
          !About(events[0], 0) && HeadStaysAwake(Step(s, events[0]), events[1..]))
  }

  lemma {:induction false} NoForce(s: State, events: seq<Event>, t: nat)
    requires ValidState(s) && HeadStaysAwake(s, events)
    ensures !Forced(s, events, t)
    decreases |events|
  {
    if events != [] { NoForce(Step(s, events[0]), events[1..], t); }
  }

  /** With the head of the list awake throughout, a timed sleep ends at tick millis / 55 + 1 and at no earlier step. */
  lemma SleepsExactly(s: State, t: nat, millis: nat, events: seq<Event>)
    requires ValidState(s) && t < |s.tasks| && s.clock + millis + TICK < 0x8000_0000
    requires s.tasks[t] == Asleep(s.clock, millis)
    requires HeadStaysAwake(s, events) && LeavesAlone(events, t)
    ensures Run(s, events).tasks[t].awake <==> Ticks(events) >= millis / 55 + 1
  {
    hide Run, HeadStaysAwake, LeavesAlone, ValidState, Forced;
    SleepsUntil(s, t, millis, events);
    NoForce(s, events, t);
  }

  /** With the head awake throughout, a paused task is never woken, however far the clock runs. */
  lemma PausedStaysAsleep(s: State, t: nat, events: seq<Event>)
    requires ValidState(s) && t < |s.tasks| && s.tasks[t] == PAUSED
    requires HeadStaysAwake(s, events) && LeavesAlone(events, t)
    ensures Run(s, events).tasks[t] == PAUSED
  {
    hide Run, HeadStaysAwake, LeavesAlone, ValidState, Forced;
    PausedExactly(s, t, events);
    NoForce(s, events, t);
  }
}

/**
 The task list of src/task/task.c: a doubly linked list that task_new extends at its tail, searched by
 task_get_next_active_task and walked by task_wake_tasks. Each call is tied to Scheduler.
 */
module Tasks {
  import opened Kernel
  import opened Scheduler

  class Task {
    var awake: bool
    var awakeAt: int
    var next: Task?
    var prev: Task?

    /** task_init leaves a new task awake and unlinked. */
    constructor ()
      ensures awake && awakeAt == 0 && next == null && prev == null
    {
      awake, awakeAt, next, prev := true, 0, null, null;
    }
  }

  class TaskList {
    var head: Task?
    var tail: Task?
    var current: Task?
    var clock: nat
    ghost var list: seq<Task>

    constructor ()
      ensures Valid() && list == [] && current == null && clock == 0
    {
      head, tail, current, clock, list := null, null, null, 0, [];
    }

    /** The task at place i of the list, null outside it. */
    ghost function At(i: int): Task?
      reads `list
    {
      if 0 <= i < |list| then list[i] else null
    }

    ghost predicate Linked()
      reads `head, `tail, `list, list
    {
      && (forall i, j :: 0 <= i < j < |list| ==> list[i] != list[j])
      && (forall i {:trigger list[i].next} :: 0 <= i < |list| ==> list[i].next == At(i + 1))
      && (forall i {:trigger list[i].prev} :: 0 <= i < |list| ==> list[i].prev == At(i - 1))
      && head == At(0) && tail == At(|list| - 1)
    }

    ghost predicate Valid()
      reads this, list
    {
      Linked() && (current != null ==> current in list)
    }

    ghost function States(): (s: seq<TaskState>)
      reads `list, list
      ensures |s| == |list|
      ensures forall i :: 0 <= i < |s| ==> s[i] == TaskState(list[i].awake, list[i].awakeAt)
    {
      var l := list;
      seq(|l|, i requires 0 <= i < |l| reads l => TaskState(l[i].awake, l[i].awakeAt))
    }

    /** The last three assignments of task_new. */
    method LinkLast(task: Task)
      requires Valid() && list != [] && task !in list && task.next == null && task.prev == null
      modifies `list, `tail, tail`next, task`prev
      ensures Valid() && list == old(list) + [task]
    {
      ghost var n, last := |list|, tail;
      assert last == list[n - 1];
      tail.next := task;
      task.prev := tail;
      tail := task;
      list := list + [task];
      assert forall i :: 0 <= i < n - 1 ==> list[i] != last && list[i] != task;
    }

    /** task_new: a fresh task behind the last one; all others keep their place and their state. */
    method New() returns (task: Task)
      requires Valid()
      modifies this, list
      ensures Valid() && fresh(task) && current == old(current) && clock == old(clock)
      ensures list == old(list) + [task]
      ensures States() == old(States()) + [TaskState(true, 0)]
    {
      task := new Task();
      if head == null {
        head, tail := task, task;
        list := [task];
      } else {
        hide Linked;
        NotEmpty();
        LinkLast(task);
      }
    }

    lemma NotEmpty()
      requires Valid() && head != null
      ensures list != [] && tail in list
    {}

    /** task_get_awake_count: the length of the awake prefix, so zero exactly when the head sleeps. */
    method GetAwakeCount() returns (n: nat)
      requires Valid()
      ensures n <= |list| && (n < |list| ==> !list[n].awake)
      ensures forall k :: 0 <= k < n ==> list[k].awake
    {
      n := 0;
      var task := head;
      while task != null && task.awake
        invariant n <= |list| && task == At(n)
        invariant forall k :: 0 <= k < n ==> list[k].awake
        decreases |list| - n
      {
        n := n + 1;
        task := task.next;
      }
    }

    /** task_wake */
    method Wake(task: Task, ghost k: nat)
      requires Valid() && k < |list| && list[k] == task
      modifies task
      ensures Valid() && States() == old(States())[k := WOKEN]
    {
      task.awake := true;
      task.awakeAt := -1;
    }

    /** task_pause */
    method Pause(task: Task, ghost k: nat)
      requires Valid() && k < |list| && list[k] == task
      modifies task
      ensures Valid() && States() == old(States())[k := PAUSED]
    {
      task.awake := false;
      task.awakeAt := -1;
    }

    lemma NextIs(k: nat)
      requires Valid() && k < |list|
      ensures list[k].next == At(k + 1) && head == list[0]
      ensures States()[k] == TaskState(list[k].awake, list[k].awakeAt)
    {}

    /** task_get_next_active_task: recursion along the list, which ends. */
    method GetNextActive(task: Task, ghost i: nat) returns (r: Task)
      requires Valid() && i < |list| && list[i] == task
      modifies list
      ensures Valid()
      ensures r == list[Selected(old(States()), i)]
      ensures States() == AfterSelection(old(States()), i)
      decreases |list| - i
    {
      hide Linked, States;
      NextIs(i);
      NextIs(0);
      var next := if task.next == null then head else task.next;
      ghost var j := Scheduler.After(i, |list|);
      assert next == list[j];
      var count := GetAwakeCount();
      if count == 0 {
        Wake(next, j);
      }
      NextIs(j);
      if !next.awake {
        next := GetNextActive(next, j);
      }
      r := next;
    }

    /** task_next: the switch itself is not part of this model. */
    method Next(ghost i: nat)
      requires Valid() && i < |list| && list[i] == current
      modifies this, list
      ensures Valid() && list == old(list) && clock == old(clock)
      ensures current == list[Selected(old(States()), i)]
      ensures States() == AfterSelection(old(States()), i)
    {
      current := GetNextActive(current, i);
    }

    /** task_wake_tasks: every task whose time has come, and no other, is woken. */
    method WakeTasks()
      requires Valid()
      modifies list
      ensures Valid() && States() == AllTicked(old(States()), clock)
    {
      hide Linked, Ticked;
      var task := head;
      ghost var k, before := 0, States();
      if list != [] { NextIs(0); } else { Empty(); }
      while task != null
        invariant Valid() && k <= |list| && task == At(k)
        invariant forall i :: 0 <= i < |list| ==>
                    States()[i] == if i < k then Ticked(before[i], clock) else before[i]
        decreases |list| - k
      {
        NextIs(k);
        ghost var mid := States();
        TickedIs(mid[k], clock);
        if !(task.awake || task.awakeAt == -1) {
          if clock > task.awakeAt {
            Wake(task, k);
          }
        }
        assert States() == mid[k := Ticked(mid[k], clock)];
        assert forall i :: 0 <= i < |list| && i != k ==> States()[i] == mid[i];
        NextIs(k);
        task := task.next;
        k := k + 1;
      }
    }

    lemma TickedIs(s: TaskState, now: nat)
      ensures Ticked(s, now) == if !(s.awake || s.awakeAt == -1) && now > s.awakeAt then WOKEN else s
    {}

    lemma Empty()
      requires Valid() && list == []
      ensures head == null
    {}

    /** pit_interrupt, as far as tasks go. */
    method Interrupt(ghost i: nat)
      requires Valid() && i < |list| && list[i] == current
      modifies this, list
      ensures Valid() && list == old(list)
      ensures var s := Step(State(old(States()), i, old(clock)), Tick);
              States() == s.tasks && current == list[s.current] && clock == s.clock
    {
      hide Linked, AllTicked, Selected, AfterSelection;
      TimePasses();
      WakeTasks();
      Next(i);
    }

    /** The first line of pit_interrupt. */
    method TimePasses()
      requires Valid()
      modifies this
      ensures Valid() && list == old(list) && current == old(current) && clock == old(clock) + TICK
      ensures States() == old(States())
    {
      clock := clock + TICK;
    }

    /** The first two assignments of task_usleep. */
    method PutToSleep(task: Task, millis: nat, ghost k: nat)
      requires Valid() && k < |list| && list[k] == task
      modifies task
      ensures Valid() && States() == old(States())[k := Asleep(clock, millis)]
    {
      task.awake := false;
      task.awakeAt := ToLong(clock + millis);
    }

    /** task_usleep: a task that puts itself to sleep gives way at once. */
    method Usleep(task: Task, millis: nat, ghost k: nat, ghost i: nat)
      requires Valid() && k < |list| && list[k] == task && i < |list| && list[i] == current
      modifies this, list
      ensures Valid() && list == old(list)
      ensures var s := Step(State(old(States()), i, old(clock)), Sleep(k, millis));
              States() == s.tasks && current == list[s.current] && clock == s.clock
    {
      hide Linked, Selected, AfterSelection, Asleep;
      PutToSleep(task, millis, k);
      SamePlace(k, i);
      if task == current {
        Next(i);
      }
    }

    lemma SamePlace(k: nat, i: nat)
      requires Valid() && k < |list| && i < |list|
      ensures list[k] == list[i] <==> k == i
    {}
  }
}

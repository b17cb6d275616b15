/** The scheduler as the kernel keeps it: a fixed table of task blocks, and a ready queue
    threaded through their `next` fields. */
module Scheduler {
  import opened Machine
  import opened SchedulerSpec
  import opened SchedulerTheorems

  datatype TaskBlock = TaskBlock(task: Task, next: int)

  function Tasks(blocks: seq<TaskBlock>): (ts: seq<Task>)
    ensures |ts| == |blocks|
  {
    seq(|blocks|, i requires 0 <= i < |blocks| => blocks[i].task)
  }

  function At(q: seq<int>, k: int): int {
    if 0 <= k < |q| then q[k] else NONE
  }

  /** `head`, `tail` and the `next` fields spell out `q`. */
  ghost predicate Linked(blocks: seq<TaskBlock>, q: seq<int>, head: int, tail: int) {
    && head == At(q, 0) && tail == At(q, |q| - 1)
    && Distinct(q)
    && forall k {:trigger q[k]} :: 0 <= k < |q| ==> 0 <= q[k] < |blocks| && blocks[q[k]].next == At(q, k + 1)
  }

  /** NULL at either end means an empty queue; a NULL link after the head, a single task. */
  lemma QueueEnds(a: seq<TaskBlock>, q: seq<int>, head: int, tail: int)
    requires Linked(a, q, head, tail)
    ensures head == NONE <==> q == []
    ensures tail == NONE <==> q == []
    ensures q != [] ==> 0 <= head < |a| && 0 <= tail < |a| && (a[head].next == NONE <==> |q| == 1)
  {
    if q != [] {
      assert 0 <= q[0] < |a| && 0 <= q[|q| - 1] < |a|;
      assert |q| > 1 ==> 0 <= q[1] < |a|;
    }
  }

  lemma LinkedAppend(a: seq<TaskBlock>, a': seq<TaskBlock>, q: seq<int>, head: int, tail: int, i: int)
    requires Linked(a, q, head, tail) && 0 <= i < |a| == |a'| && i !in q
    requires forall j :: 0 <= j < |a| ==>
      a'[j].next == if j == i then NONE else if q != [] && j == tail then i else a[j].next
    ensures Linked(a', q + [i], if q == [] then i else head, i)
  {
    var q' := q + [i];
    forall k | 0 <= k < |q'| ensures 0 <= q'[k] < |a'| && a'[q'[k]].next == At(q', k + 1) {
      if k < |q| - 1 {
        assert q[k] != q[|q| - 1];
      }
    }
  }

  lemma LinkedPop(a: seq<TaskBlock>, a': seq<TaskBlock>, q: seq<int>, head: int, tail: int)
    requires Linked(a, q, head, tail) && q != [] && |a| == |a'|
    requires forall j :: 0 <= j < |a| && j != head ==> a'[j].next == a[j].next
    ensures Linked(a', q[1..], a[head].next, if |q| == 1 then NONE else tail)
  {
    var q' := q[1..];
    forall k | 0 <= k < |q'| ensures 0 <= q'[k] < |a'| && a'[q'[k]].next == At(q', k + 1) {
      assert q'[k] == q[k + 1] && q[0] != q[k + 1];
    }
    assert Distinct(q') by {
      forall j, k | 0 <= j < k < |q'| ensures q'[j] != q'[k] {
        assert q[j + 1] != q[k + 1];
      }
    }
  }

  class TaskScheduler {
    const blocks: array<TaskBlock>
    var head: int
    var tail: int
    var current: int
    var systemTicks: uint32
    var nextTaskId: uint32
    ghost var queue: seq<int>

    ghost function View(): State
      reads this, blocks
    {
      State(Tasks(blocks[..]), queue, current, systemTicks, nextTaskId)
    }

    /** The intrusive queue is intact and every slot number in range. */
    ghost predicate Wired()
      reads this, blocks
    {
      Linked(blocks[..], queue, head, tail) && ValidSlots(View())
    }

    ghost predicate Valid()
      reads this, blocks
    {
      Wired() && Coherent(View())
    }

    /** `scheduler_init` on a table that starts out zeroed. */
    constructor ()
      ensures Valid() && View() == Booted && fresh(blocks)
    {
      blocks := new TaskBlock[MAX_TASKS](_ => TaskBlock(Task(0, Ready, 0, 0, 0), NONE));
      head, tail, current := NONE, NONE, NONE;
      systemTicks, nextTaskId := 0, 1;
      queue := [];
      new;
      for i := 0 to MAX_TASKS
        modifies blocks
        invariant forall j :: 0 <= j < MAX_TASKS ==>
          blocks[j] == TaskBlock(Task(0, if j < i then Terminated else Ready, 0, 0, 0), NONE)
      {
        blocks[i] := blocks[i].(task := blocks[i].task.(state := Terminated, id := 0));
      }
      assert View().tasks == Booted.tasks;
    }

    /** `task_queue_add` */
    method TaskQueueAdd(task: int)
      requires Wired() && IsSlot(task) && task !in queue
      modifies this`head, this`tail, this`queue, blocks
      ensures Wired() && View() == old(View()).(queue := old(queue) + [task])
    {
      ghost var a := blocks[..];
      blocks[task] := blocks[task].(next := NONE);
      if tail != NONE {
        assert queue[|queue| - 1] in queue;
        blocks[tail] := blocks[tail].(next := task);
        LinkedAppend(a, blocks[..], queue, head, tail, task);
        tail := task;
      } else {
        LinkedAppend(a, blocks[..], queue, head, tail, task);
        head := task;
        tail := task;
      }
      queue := queue + [task];
      assert View().tasks == old(View()).tasks;
    }

    /** `task_queue_remove_next` */
    method TaskQueueRemoveNext() returns (task: int)
      requires Wired()
      modifies this`head, this`tail, this`queue, blocks
      ensures Wired() && task == At(old(queue), 0)
      ensures View() == if old(queue) == [] then old(View()) else old(View()).(queue := old(queue)[1..])
      ensures old(queue) != [] ==> task !in queue
    {
      QueueEnds(blocks[..], queue, head, tail);
      if head == NONE {
        return NONE;
      }
      ghost var a := blocks[..];
      task := head;
      head := blocks[task].next;
      if head == NONE {
        tail := NONE;
      }
      blocks[task] := blocks[task].(next := NONE);
      LinkedPop(a, blocks[..], queue, task, old(tail));
      queue := queue[1..];
      assert View().tasks == old(View()).tasks;
      forall k | 0 <= k < |queue| ensures queue[k] != task {
        assert old(queue)[0] != old(queue)[k + 1];
      }
    }

    /** Assigning fields of one task block; the links stay as they are. */
    method SetTask(i: int, t: Task)
      requires Wired() && IsSlot(i)
      modifies blocks
      ensures Wired() && View() == old(View()).(tasks := old(View()).tasks[i := t])
    {
      blocks[i] := blocks[i].(task := t);
      assert View().tasks == old(View()).tasks[i := t];
    }

    /** `switch_to_task` */
    method SwitchToTask(task: int)
      requires Wired() && IsSlot(task)
      modifies this`current, blocks
      ensures Wired()
      ensures View() == old(View()).(
                tasks := old(View()).tasks[task := Dispatched(old(View()).tasks[task])], current := task)
    {
      var t := blocks[task].task;
      SetTask(task, t.(state := Running, timeRemaining := t.timeSlice));
      current := task;
    }

    /** `schedule` (and `task_yield`, which only calls it) */
    method RunNext()
      requires Wired()
      requires current != NONE && View().tasks[current].state == Running ==> current !in queue
      modifies this`head, this`tail, this`queue, this`current, blocks
      ensures Wired() && View() == Schedule(old(View()))
    {
      hide Linked, Distinct;
      ghost var s := View();
      var nextTask := TaskQueueRemoveNext();
      QueueHead(s.queue, nextTask);
      if nextTask == NONE {
        return;
      }
      if current != NONE && blocks[current].task.state == Running {
        var t := blocks[current].task;
        SetTask(current, t.(state := Ready, timeRemaining := t.timeSlice));
        TaskQueueAdd(current);
      }
      SwitchToTask(nextTask);
    }

    lemma QueueHead(q: seq<int>, next: int)
      requires next == At(q, 0) && forall i {:trigger i in q} :: i in q ==> IsSlot(i)
      ensures next == NONE <==> q == []
      ensures q != [] ==> IsSlot(next) && next == q[0] && forall i :: i in q[1..] ==> i in q
    {
      if q != [] {
        assert q[0] in q;
      }
    }

    /** `task_create`: the task's number, or 0 when every slot is taken. */
    method TaskCreate() returns (id: uint32)
      requires Valid()
      modifies this`head, this`tail, this`queue, this`nextTaskId, blocks
      ensures Valid() && (View(), id) == Create(old(View()))
    {
      hide Linked, Coherent;
      ghost var s := View();
      CreateCoherent(s);
      var slot := 0;
      while slot < MAX_TASKS && blocks[slot].task.state != Terminated
        invariant 0 <= slot <= MAX_TASKS && FreeSlot(s.tasks, 0) == FreeSlot(s.tasks, slot)
      {
        slot := slot + 1;
      }
      if slot == MAX_TASKS {
        return 0;
      }
      FreeSlotNotQueued(s, slot);
      id := nextTaskId;
      nextTaskId := Wrap(nextTaskId + 1);
      SetTask(slot, Task(id, Ready, TIME_SLICE, TIME_SLICE, 0));
      TaskQueueAdd(slot);
    }

    lemma FreeSlotNotQueued(s: State, slot: int)
      requires Coherent(s) && IsSlot(slot) && s.tasks[slot].state == Terminated
      ensures slot !in s.queue
    {}

    /** The wake-up loop of `scheduler_tick`. */
    method WakeSleepers()
      requires Valid()
      modifies this`head, this`tail, this`queue, blocks
      ensures Valid() && View() == Wake(old(View()))
    {
      hide Linked, Coherent;
      ghost var s0 := View();
      WakeCoherent(s0);
      for i := 0 to MAX_TASKS
        invariant Wired() && View() == WokenUpTo(s0, i)
      {
        WokenStep(s0, i);
        var t := blocks[i].task;
        if t.state == Sleeping && t.sleepUntil <= systemTicks {
          SetTask(i, t.(state := Ready));
          TaskQueueAdd(i);
        }
      }
      WokenAll(s0);
    }

    /** `scheduler_tick` */
    method SchedulerTick()
      requires Valid()
      modifies this`head, this`tail, this`queue, this`current, this`systemTicks, blocks
      ensures Valid() && View() == Tick(old(View()))
    {
      hide Linked, Coherent, Wake, Schedule;
      TickCoherent(View());
      systemTicks := Wrap(systemTicks + 1);
      ghost var s0 := View();
      TicksCoherent(old(View()), systemTicks);
      WakeSleepers();
      WakeFields(s0);
      if current != NONE && systemTicks > WARM_UP {
        CountDownCoherent(Wake(s0));
        var t := blocks[current].task;
        SetTask(current, t.(timeRemaining := Wrap(t.timeRemaining - 1)));
        if blocks[current].task.timeRemaining == 0 {
          RunningNotQueued(View());
          RunNext();
        }
      }
    }

    lemma RunningNotQueued(s: State)
      requires Coherent(s) && s.current != NONE
      ensures s.tasks[s.current].state == Running ==> s.current !in s.queue
    {}

    /** The state after the wake-up loop has looked at the first `n` slots. */
    ghost function WokenUpTo(s: State, n: nat): State
      requires n <= |s.tasks|
    {
      s.(tasks := seq(|s.tasks|, i requires 0 <= i < |s.tasks| =>
           if i < n then Woken(s.tasks[i], s.ticks) else s.tasks[i]),
         queue := s.queue + DueSlots(s.tasks, s.ticks, n))
    }

    lemma WokenStep(s: State, i: nat)
      requires Coherent(s) && i < MAX_TASKS
      ensures var a, b := WokenUpTo(s, i), WokenUpTo(s, i + 1);
        && a.tasks[i] == s.tasks[i]
        && (Due(s.tasks[i], s.ticks) ==>
              i !in a.queue && b == a.(tasks := a.tasks[i := s.tasks[i].(state := Ready)], queue := a.queue + [i]))
        && (!Due(s.tasks[i], s.ticks) ==> b == a)
    {
      var a, b := WokenUpTo(s, i), WokenUpTo(s, i + 1);
      if Due(s.tasks[i], s.ticks) {
        assert b.tasks == a.tasks[i := s.tasks[i].(state := Ready)];
        assert b.queue == a.queue + [i];
      } else {
        assert b.tasks == a.tasks;
      }
    }

    lemma WokenAll(s: State)
      requires |s.tasks| == MAX_TASKS
      ensures WokenUpTo(s, MAX_TASKS) == Wake(s)
    {
      assert WokenUpTo(s, MAX_TASKS).tasks == Wake(s).tasks;
    }

    /** `task_yield` */
    method TaskYield()
      requires Valid()
      modifies this`head, this`tail, this`queue, this`current, blocks
      ensures Valid() && View() == Schedule(old(View()))
    {
      hide Linked;
      ScheduleCoherent(View());
      RunNext();
    }

    /** `task_sleep`. The queue stays intact in any case; queue and task states keep
        agreeing exactly when the current task may leave. */
    method TaskSleep(n: uint32)
      requires Valid()
      modifies this`head, this`tail, this`queue, this`current, blocks
      ensures Wired() && View() == Sleep(old(View()), n)
      ensures Valid() <==> MayLeave(old(View()))
    {
      hide Linked, Coherent;
      SleepCoherentIff(View(), n);
      if current != NONE {
        var t := blocks[current].task;
        SetTask(current, t.(state := Sleeping, sleepUntil := Wrap(systemTicks + n)));
        RunNext();
      }
    }

    /** `task_exit`, likewise */
    method TaskExit()
      requires Valid()
      modifies this`head, this`tail, this`queue, this`current, blocks
      ensures Wired() && View() == Exit(old(View()))
      ensures Valid() <==> MayLeave(old(View()))
    {
      hide Linked, Coherent;
      ExitCoherentIff(View());
      if current != NONE {
        var t := blocks[current].task;
        SetTask(current, t.(state := Terminated));
        current := NONE;
        RunNext();
      }
    }
  }
}

/** What each scheduler call does to the task table, the ready queue and the clock. */
module SchedulerSpec {
  import opened Machine

  const MAX_TASKS := 8
  const TIME_SLICE := 10
  const WARM_UP := 100
  const NONE := -1

  datatype TaskState = Ready | Running | Sleeping | Terminated

  datatype Task = Task(id: uint32, state: TaskState, timeSlice: uint32, timeRemaining: uint32, sleepUntil: uint32)

  /** `queue` holds slot numbers, head first; `current` is a slot number or NONE. */
  datatype State = State(tasks: seq<Task>, queue: seq<int>, current: int, ticks: uint32, nextId: uint32)

  predicate IsSlot(i: int) {
    0 <= i < MAX_TASKS
  }

  // ----- the calls

  /** First slot from `i` on that holds no task, NONE if there is none. */
  function FreeSlot(tasks: seq<Task>, i: nat): (slot: int)
    requires i <= |tasks|
    ensures slot == NONE || (i <= slot < |tasks| && tasks[slot].state == Terminated)
    ensures forall k :: i <= k < (if slot == NONE then |tasks| else slot) ==> tasks[k].state != Terminated
    decreases |tasks| - i
  {
    if i == |tasks| then NONE else if tasks[i].state == Terminated then i else FreeSlot(tasks, i + 1)
  }

  function Create(s: State): (State, uint32) {
    var slot := FreeSlot(s.tasks, 0);
    if slot == NONE then (s, 0) else
    var task := Task(s.nextId, Ready, TIME_SLICE, TIME_SLICE, 0);
    (s.(tasks := s.tasks[slot := task], queue := s.queue + [slot], nextId := Wrap(s.nextId + 1)), s.nextId)
  }

  predicate Due(t: Task, ticks: int) {
    t.state == Sleeping && t.sleepUntil <= ticks
  }

  function Woken(t: Task, ticks: int): Task {
    if Due(t, ticks) then t.(state := Ready) else t
  }

  /** Slots below `n` whose tasks are due, in slot order. */
  function DueSlots(tasks: seq<Task>, ticks: int, n: nat): (q: seq<int>)
    requires n <= |tasks|
    ensures forall i :: i in q <==> 0 <= i < n && Due(tasks[i], ticks)
    ensures forall j, k :: 0 <= j < k < |q| ==> q[j] < q[k]
  {
    if n == 0 then [] else
    var q := DueSlots(tasks, ticks, n - 1);
    assert forall j :: 0 <= j < |q| ==> q[j] in q;
    if Due(tasks[n - 1], ticks) then q + [n - 1] else q
  }

  /** All due tasks become ready and join the queue in slot order. */
  function Wake(s: State): State {
    s.(tasks := seq(|s.tasks|, i requires 0 <= i < |s.tasks| => Woken(s.tasks[i], s.ticks)),
       queue := s.queue + DueSlots(s.tasks, s.ticks, |s.tasks|))
  }

  predicate ValidSlots(s: State) {
    && |s.tasks| == MAX_TASKS
    && (s.current == NONE || IsSlot(s.current))
    && forall i {:trigger i in s.queue} :: i in s.queue ==> IsSlot(i)
  }

  function Dispatched(t: Task): Task {
    t.(state := Running, timeRemaining := t.timeSlice)
  }

  function Preempted(t: Task): Task {
    t.(state := Ready, timeRemaining := t.timeSlice)
  }

  /** The head of the queue runs; a running current task goes to the tail. With an empty
      queue nothing happens, not even a refill of the slice. */
  function Schedule(s: State): State
    requires ValidSlots(s)
  {
    if s.queue == [] then s else
    assert s.queue[0] in s.queue;
    var next := s.queue[0];
    var requeue := s.current != NONE && s.tasks[s.current].state == Running;
    var tasks := if requeue then s.tasks[s.current := Preempted(s.tasks[s.current])] else s.tasks;
    var queue := if requeue then s.queue[1..] + [s.current] else s.queue[1..];
    s.(tasks := tasks[next := Dispatched(tasks[next])], queue := queue, current := next)
  }

  function CountDown(s: State): State
    requires ValidSlots(s) && s.current != NONE
  {
    var t := s.tasks[s.current];
    s.(tasks := s.tasks[s.current := t.(timeRemaining := Wrap(t.timeRemaining - 1))])
  }

  function Tick(s: State): State
    requires ValidSlots(s)
  {
    var s1 := Wake(s.(ticks := Wrap(s.ticks + 1)));
    if s1.current == NONE || s1.ticks <= WARM_UP then s1 else
    var s2 := CountDown(s1);
    if s2.tasks[s2.current].timeRemaining != 0 then s2 else
    assert ValidSlots(s2);
    Schedule(s2)
  }

  function Sleep(s: State, n: uint32): State
    requires ValidSlots(s)
  {
    if s.current == NONE then s else
    var t := s.tasks[s.current];
    Schedule(s.(tasks := s.tasks[s.current := t.(state := Sleeping, sleepUntil := Wrap(s.ticks + n))]))
  }

  function Exit(s: State): State
    requires ValidSlots(s)
  {
    if s.current == NONE then s else
    var t := s.tasks[s.current];
    Schedule(s.(tasks := s.tasks[s.current := t.(state := Terminated)], current := NONE))
  }

  // ----- coherence

  ghost predicate Distinct(q: seq<int>) {
    forall j, k :: 0 <= j < k < |q| ==> q[j] != q[k]
  }

  /** The queue holds exactly the ready tasks, once each; only the current task runs, and
      it is never a terminated one; every task has the full slice. */
  ghost predicate Coherent(s: State) {
    && ValidSlots(s)
    && Distinct(s.queue)
    && (forall i :: 0 <= i < MAX_TASKS ==> (i in s.queue <==> s.tasks[i].state == Ready))
    && (forall i :: 0 <= i < MAX_TASKS && s.tasks[i].state == Running ==> i == s.current)
    && (s.current != NONE ==> s.tasks[s.current].state != Terminated)
    && (forall i :: 0 <= i < MAX_TASKS && s.tasks[i].state != Terminated ==> s.tasks[i].timeSlice == TIME_SLICE)
  }
}

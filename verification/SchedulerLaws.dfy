/** What each scheduler call does to the task it is about, and to everybody else. */
module SchedulerLaws {
  import opened Machine
  import opened SchedulerSpec
  import opened SchedulerTheorems
  import opened SchedulerWaiting

  // ----- dispatching

  /** Every slot but these two holds what it held. */
  ghost predicate SameBut(s: State, s': State, a: int, b: int) {
    |s'.tasks| == |s.tasks| == 8 && forall k :: 0 <= k < 8 && k != a && k != b ==> s'.tasks[k] == s.tasks[k]
  }

  /** The head of the queue of `s` is running in `s'`, with ten ticks, as the current task. */
  ghost predicate HeadRuns(s: State, s': State) {
    && |s.tasks| == |s'.tasks| == 8 && s.queue != [] && 0 <= s.queue[0] < 8 && s'.current == s.queue[0]
    && s'.tasks[s.queue[0]].state == Running && s'.tasks[s.queue[0]].timeRemaining == 10
    && s'.tasks[s.queue[0]].id == s.tasks[s.queue[0]].id
  }

  /** `schedule`: with nobody waiting nothing happens. Otherwise the head of the queue runs
      and a running current task goes to the tail, both with ten ticks. */
  lemma ScheduleLaw(s: State)
    requires Coherent(s)
    ensures s.queue == [] ==> Schedule(s) == s
    ensures s.queue != [] ==>
      var s', c := Schedule(s), s.current;
      var back := c != NONE && s.tasks[c].state == Running;
      && HeadRuns(s, s') && s'.ticks == s.ticks && s'.nextId == s.nextId
      && s'.queue == s.queue[1..] + (if back then [c] else [])
      && (back ==> c != s.queue[0] && s'.tasks[c] == s.tasks[c].(state := Ready, timeRemaining := 10))
      && SameBut(s, s', s.queue[0], if back then c else s.queue[0])
  {
    if s.queue != [] {
      assert s.queue[0] in s.queue;
    }
  }

  // ----- sleeping and ending

  /** `task_sleep`: the caller sleeps until the given time and the head of the queue runs;
      with nobody waiting the caller stays the current task. A caller that heads the queue
      runs on. Nobody else changes. */
  lemma SleepLaw(s: State, n: uint32)
    requires Coherent(s) && MayLeave(s)
    ensures s.current == NONE ==> Sleep(s, n) == s
    ensures s.current != NONE ==>
      var s', c := Sleep(s, n), s.current;
      && s'.ticks == s.ticks && s'.nextId == s.nextId && |s'.tasks| == 8
      && s'.tasks[c].sleepUntil == (s.ticks + n) % 0x1_0000_0000 && s'.tasks[c].id == s.tasks[c].id
      && (s.tasks[c].state == Ready ==> s.queue[0] == c)
      && (s.tasks[c].state != Ready ==>
            s'.tasks[c] == s.tasks[c].(state := Sleeping, sleepUntil := (s.ticks + n) % 0x1_0000_0000))
      && (s.queue == [] ==> s'.queue == [] && s'.current == c && SameBut(s, s', c, c))
      && (s.queue != [] ==> s'.queue == s.queue[1..] && HeadRuns(s, s') && SameBut(s, s', c, s.queue[0]))
  {
    if s.current != NONE && s.queue != [] {
      assert s.queue[0] in s.queue;
    }
  }

  /** `task_exit`: the caller's slot is free and the head of the queue runs; with nobody
      waiting there is no current task. A caller that heads the queue runs on. Nobody else
      changes. */
  lemma ExitLaw(s: State)
    requires Coherent(s) && MayLeave(s)
    ensures s.current == NONE ==> Exit(s) == s
    ensures s.current != NONE ==>
      var s', c := Exit(s), s.current;
      && s'.ticks == s.ticks && s'.nextId == s.nextId && |s'.tasks| == 8
      && (s.tasks[c].state == Ready ==> s.queue[0] == c)
      && s'.tasks[c].id == s.tasks[c].id
      && (s.tasks[c].state != Ready ==> s'.tasks[c] == s.tasks[c].(state := Terminated))
      && (s.queue == [] ==> s'.queue == [] && s'.current == NONE && SameBut(s, s', c, c))
      && (s.queue != [] ==> s'.queue == s.queue[1..] && HeadRuns(s, s') && SameBut(s, s', c, s.queue[0]))
  {
    if s.current != NONE && s.queue != [] {
      assert s.queue[0] in s.queue;
    }
  }

  ghost predicate Ended(s: State, i: int) {
    ValidSlots(s) && IsSlot(i) && s.tasks[i].state == Terminated
  }

  lemma EndedNotRunning(s: State, i: int)
    requires Ended(s, i)
    ensures !IsRunning(s, i)
  {}

  lemma EndedSchedule(s: State, i: int)
    requires Coherent(s) && Ended(s, i)
    ensures Ended(Schedule(s), i)
  {
    ScheduleLaw(s);
    ScheduleCoherent(s);
    if s.queue != [] {
      assert s.queue[0] in s.queue;
    }
  }

  lemma EndedTick(s: State, i: int)
    requires Coherent(s) && Ended(s, i)
    ensures Ended(Tick(s), i)
  {
    hide Schedule;
    var s0 := s.(ticks := Wrap(s.ticks + 1));
    TickCoherent(s);
    CoherentSlots(Tick(s));
    TicksCoherent(s, s0.ticks);
    WakeCoherent(s0);
    WakeFields(s0);
    if s.current != NONE {
      var s1 := Wake(s0);
      CountDownCoherent(s1);
      CountDownFields(s1);
      assert Ended(CountDown(s1), i);
      EndedSchedule(CountDown(s1), i);
    }
  }

  /** Only `task_create` gives a free slot a task. */
  lemma EndedStep(s: State, e: Event, i: int)
    requires Coherent(s) && Legal(s, e) && !e.TaskCreate? && Ended(s, i)
    ensures Ended(After(s, e), i)
  {
    AfterCoherent(s, e);
    CoherentSlots(After(s, e));
    hide Schedule, Tick, Sleep, Exit;
    match e
    case TimerTick => EndedTick(s, i);
    case TaskYield => EndedSchedule(s, i);
    case TaskSleep(n) => SleepLaw(s, n); QueueNotEnded(s, i);
    case TaskExit => ExitLaw(s); QueueNotEnded(s, i);
  }

  lemma QueueNotEnded(s: State, i: int)
    requires Coherent(s) && Ended(s, i)
    ensures i != s.current && (s.queue != [] ==> s.queue[0] != i)
  {
    if s.queue != [] {
      assert s.queue[0] in s.queue;
    }
  }

  /** An ended task never runs, and its slot stays free, over every run that creates none. */
  lemma {:induction false} EndedForGood(s: State, es: seq<Event>, i: int)
    requires Coherent(s) && LegalRun(s, es) && TaskCreate !in es && Ended(s, i)
    ensures Ended(Run(s, es), i) && !GetsToRun(s, es, i)
    decreases |es|
  {
    hide Coherent, After, Legal, Ended, IsRunning;
    EndedNotRunning(s, i);
    if |es| > 0 {
      EndedStep(s, es[0], i);
      AfterCoherent(s, es[0]);
      EndedForGood(After(s, es[0]), es[1..], i);
    }
  }

  /** So a task that ends, unless it heads the queue, never runs again. */
  lemma ExitEndsForGood(s: State, es: seq<Event>)
    requires Coherent(s) && s.current != NONE && s.tasks[s.current].state != Ready
    requires LegalRun(Exit(s), es) && TaskCreate !in es
    ensures Ended(Run(Exit(s), es), s.current) && !GetsToRun(Exit(s), es, s.current)
  {
    hide Exit, LegalRun, Run, GetsToRun;
    ExitLaw(s);
    ExitCoherentIff(s);
    CoherentSlots(Exit(s));
    EndedForGood(Exit(s), es, s.current);
  }

  // ----- creating

  /** `task_create`: the lowest free slot gets a ready task with ten ticks, at the tail of
      the queue, whose number is returned; without a free slot nothing happens and 0 is. */
  lemma CreateLaw(s: State) returns (i: int)
    requires Coherent(s)
    ensures (forall k :: 0 <= k < 8 ==> s.tasks[k].state != Terminated) ==> Create(s) == (s, 0)
    ensures (exists k :: 0 <= k < 8 && s.tasks[k].state == Terminated) ==>
      var (s', id) := Create(s);
      && 0 <= i < 8 && s.tasks[i].state == Terminated
      && (forall k :: 0 <= k < i ==> s.tasks[k].state != Terminated)
      && s'.tasks == s.tasks[i := Task(id, Ready, 10, 10, 0)] && s'.queue == s.queue + [i]
      && id == s.nextId && s'.nextId == (s.nextId + 1) % 0x1_0000_0000
      && s'.current == s.current && s'.ticks == s.ticks
  {
    i := FreeSlot(s.tasks, 0);
  }

  /** Numbers given out are below the next one, and no two tasks share one. */
  ghost predicate Numbered(s: State) {
    && |s.tasks| == 8 && s.nextId > 0
    && (forall i :: 0 <= i < 8 ==> s.tasks[i].id < s.nextId)
    && (forall i :: 0 <= i < 8 && s.tasks[i].state != Terminated ==> s.tasks[i].id > 0)
    && (forall i, j :: 0 <= i < j < 8 && s.tasks[i].id > 0 ==> s.tasks[i].id != s.tasks[j].id)
  }

  ghost predicate SameIds(s: State, s': State) {
    && |s.tasks| == |s'.tasks| == 8 && s'.nextId == s.nextId
    && forall i :: 0 <= i < 8 ==>
         s'.tasks[i].id == s.tasks[i].id && (s.tasks[i].state == Terminated ==> s'.tasks[i].state == Terminated)
  }

  lemma ScheduleIds(s: State)
    requires Coherent(s)
    ensures SameIds(s, Schedule(s))
  {
    if s.queue != [] {
      assert s.queue[0] in s.queue;
    }
  }

  lemma TickIds(s: State)
    requires Coherent(s)
    ensures SameIds(s, Tick(s))
  {
    hide Schedule;
    var s0 := s.(ticks := Wrap(s.ticks + 1));
    TicksCoherent(s, s0.ticks);
    WakeCoherent(s0);
    assert SameIds(s, Wake(s0));
    if s.current != NONE {
      CountDownCoherent(Wake(s0));
      assert SameIds(s, CountDown(Wake(s0)));
      ScheduleIds(CountDown(Wake(s0)));
    }
  }

  /** No other call changes a number. */
  lemma StepIds(s: State, e: Event)
    requires Coherent(s) && Legal(s, e) && !e.TaskCreate?
    ensures SameIds(s, After(s, e))
  {
    hide Schedule, Tick, Sleep, Exit;
    match e
    case TimerTick => TickIds(s);
    case TaskYield => ScheduleIds(s);
    case TaskSleep(n) => SleepLaw(s, n); QueueHeadReady(s);
    case TaskExit => ExitLaw(s); QueueHeadReady(s);
  }

  lemma QueueHeadReady(s: State)
    requires Coherent(s)
    ensures s.queue != [] ==> IsSlot(s.queue[0]) && s.tasks[s.queue[0]].state == Ready
  {
    if s.queue != [] {
      assert s.queue[0] in s.queue;
    }
  }

  lemma StepNumbered(s: State, e: Event)
    requires Coherent(s) && Legal(s, e) && Numbered(s) && s.nextId < 0xFFFF_FFFF
    ensures Numbered(After(s, e))
    ensures After(s, e).nextId <= s.nextId + (if e.TaskCreate? then 1 else 0)
  {
    hide Tick, Schedule, Sleep, Exit, Legal;
    if e.TaskCreate? {
      hide Create;
      var i := CreateLaw(s);
      assert After(s, e) == Create(s).0;
    } else {
      hide After, Coherent;
      StepIds(s, e);
    }
  }

  function Created(es: seq<Event>): nat {
    if |es| == 0 then 0 else (if es[0].TaskCreate? then 1 else 0) + Created(es[1..])
  }

  /** Over every run, until 2^32 - 1 numbers have been given out, the tasks in the table
      have different ones, none of them 0. */
  lemma {:induction false} RunNumbered(s: State, es: seq<Event>)
    requires Coherent(s) && LegalRun(s, es) && Numbered(s) && s.nextId + Created(es) <= 0xFFFF_FFFF
    ensures Numbered(Run(s, es))
    decreases |es|
  {
    hide Coherent, After, Legal, Numbered;
    if |es| > 0 {
      AfterCoherent(s, es[0]);
      NumberedOrFull(s, es[0]);
      RunNumbered(After(s, es[0]), es[1..]);
    }
  }

  lemma NumberedOrFull(s: State, e: Event)
    requires Coherent(s) && Legal(s, e) && Numbered(s) && s.nextId + (if e.TaskCreate? then 1 else 0) <= 0xFFFF_FFFF
    ensures Numbered(After(s, e))
    ensures After(s, e).nextId <= s.nextId + (if e.TaskCreate? then 1 else 0)
  {
    hide After, Coherent, Legal;
    if e.TaskCreate? || s.nextId < 0xFFFF_FFFF {
      StepNumbered(s, e);
    } else {
      StepIds(s, e);
    }
  }

  lemma BootedNumbered()
    ensures Numbered(Booted) && Booted.nextId == 1 && Booted.ticks == 0 && Booted.queue == [] && Booted.current == NONE
    ensures |Booted.tasks| == 8 && forall i :: 0 <= i < 8 ==> Booted.tasks[i].state == Terminated
  {}

  // ----- ticking

  /** `scheduler_tick`: the clock advances, and the sleepers whose time has come join the
      queue, in slot order. After the first hundred ticks the current task's counter goes
      down by one, and if that makes it zero `schedule` follows. */
  lemma TickLaw(s: State)
    requires Coherent(s)
    ensures var now := (s.ticks + 1) % 0x1_0000_0000;
      var woken := Wake(s.(ticks := now));
      && Coherent(woken) && woken.ticks == now && woken.current == s.current && woken.nextId == s.nextId
      && (forall k :: 0 <= k < 8 ==>
            woken.tasks[k] == if s.tasks[k].state == Sleeping && s.tasks[k].sleepUntil <= now
                              then s.tasks[k].(state := Ready) else s.tasks[k])
      && (s.current == NONE || now <= 100 ==> Tick(s) == woken)
      && (s.current != NONE && now > 100 ==>
            var left := (s.tasks[s.current].timeRemaining - 1) % 0x1_0000_0000;
            var counted := woken.(tasks := woken.tasks[s.current := woken.tasks[s.current].(timeRemaining := left)]);
            Coherent(counted) && Tick(s) == if left == 0 then Schedule(counted) else counted)
  {
    hide Schedule, Wake, Coherent;
    var s0 := s.(ticks := Wrap(s.ticks + 1));
    TicksCoherent(s, s0.ticks);
    CoherentSlots(s);
    WokenTasks(s0);
    WakeCoherent(s0);
    CoherentSlots(Wake(s0));
    if s.current != NONE {
      CountDownCoherent(Wake(s0));
    }
  }

  lemma WokenTasks(s: State)
    requires ValidSlots(s)
    ensures var s' := Wake(s);
      && |s'.tasks| == 8 && s'.ticks == s.ticks && s'.current == s.current && s'.nextId == s.nextId
      && forall k :: 0 <= k < 8 ==>
           s'.tasks[k] == if s.tasks[k].state == Sleeping && s.tasks[k].sleepUntil <= s.ticks
                          then s.tasks[k].(state := Ready) else s.tasks[k]
  {}
}

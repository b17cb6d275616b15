/** Runs from `scheduler_init` on which the scheduler falls short. */
module SchedulerExamples {
  import opened Machine
  import opened SchedulerSpec
  import opened SchedulerTheorems
  import opened SchedulerWaiting
  import opened SchedulerSleeping

  /** One task, running, and nothing else in the table. */
  function Alone(ticks: uint32, left: uint32): State {
    State([Task(1, Running, TIME_SLICE, left, 0)] + seq(MAX_TASKS - 1, _ => Task(0, Terminated, 0, 0, 0)),
          [], 0, ticks, 2)
  }

  lemma AloneFromBoot()
    ensures LegalRun(Booted, [TaskCreate, TaskYield])
    ensures Run(Booted, [TaskCreate, TaskYield]) == Alone(0, TIME_SLICE)
  {
    BootedCoherent();
    FirstTask();
    hide Coherent, After, Legal, Alone, FreeSlot, Create, Schedule;
    RunStep(Booted, [], TaskCreate);
    RunStep(Booted, [] + [TaskCreate], TaskYield);
    assert [] + [TaskCreate] + [TaskYield] == [TaskCreate, TaskYield];
  }

  lemma FirstTask()
    ensures After(Booted, TaskCreate) == Create(Booted).0 && ValidSlots(Create(Booted).0)
    ensures After(Create(Booted).0, TaskYield) == Alone(0, TIME_SLICE)
    ensures Legal(Booted, TaskCreate) && Legal(Create(Booted).0, TaskYield)
  {
    assert FreeSlot(Booted.tasks, 0) == 0;
    var created := Create(Booted).0;
    assert created.queue == [0];
    assert Schedule(created).tasks == Alone(0, TIME_SLICE).tasks;
  }

  lemma {:induction false} NoneDue(tasks: seq<Task>, ticks: int, n: nat)
    requires n <= |tasks| && forall k :: 0 <= k < n ==> !Due(tasks[k], ticks)
    ensures DueSlots(tasks, ticks, n) == []
  {
    if n > 0 {
      NoneDue(tasks, ticks, n - 1);
    }
  }

  lemma AloneTick(ticks: uint32, left: uint32)
    ensures ValidSlots(Alone(ticks, left))
    ensures Tick(Alone(ticks, left)) == Alone(Wrap(ticks + 1), if Counts(ticks) then Wrap(left - 1) else left)
  {
    hide CountDown, Wake, Schedule;
    var s0 := Alone(Wrap(ticks + 1), left);
    assert s0 == Alone(ticks, left).(ticks := Wrap(ticks + 1));
    AloneWakesNobody(Wrap(ticks + 1), left);
    AloneCounts(ticks, left);
    AloneCounts(Wrap(ticks + 1), left);
    AloneCounts(Wrap(ticks + 1), Wrap(left - 1));
    hide Alone;
  }

  lemma AloneWakesNobody(ticks: uint32, left: uint32)
    ensures Wake(Alone(ticks, left)) == Alone(ticks, left)
  {
    var s := Alone(ticks, left);
    NoneDue(s.tasks, s.ticks, MAX_TASKS);
    hide DueSlots;
    assert Wake(s).tasks == s.tasks;
  }

  lemma AloneCounts(ticks: uint32, left: uint32)
    ensures var s := Alone(ticks, left);
      ValidSlots(s) && s.current == 0 && s.ticks == ticks && s.tasks[0].timeRemaining == left
    ensures var s' := Alone(ticks, Wrap(left - 1));
      CountDown(Alone(ticks, left)) == s' && ValidSlots(s') && Schedule(s') == s'
  {
    assert CountDown(Alone(ticks, left)).tasks == Alone(ticks, Wrap(left - 1)).tasks;
  }

  /** Its slice runs out, and nobody refills it. */
  lemma {:induction false} AloneTicks(ticks: uint32, left: uint32, n: nat)
    requires ticks + n < TWO32 - 1 && CountedIn(ticks, n) <= left
    ensures LegalRun(Alone(ticks, left), Timers(n))
    ensures Run(Alone(ticks, left), Timers(n)) == Alone(ticks + n, left - CountedIn(ticks, n))
    decreases n
  {
    hide Alone, Tick;
    AloneTick(ticks, left);
    if n > 0 {
      assert Timers(n)[1..] == Timers(n - 1) && Timers(n)[0] == TimerTick;
      AloneTicks(ticks + 1, if Counts(ticks) then left - 1 else left, n - 1);
    }
  }

  lemma {:induction false} CountedAfterWarmUp(ticks: uint32, n: nat)
    requires ticks + n < TWO32
    ensures CountedIn(ticks, n) == Max(0, ticks + n - Max(WARM_UP, ticks))
    decreases n
  {
    if n > 0 {
      CountedAfterWarmUp(ticks + 1, n - 1);
    }
  }

  /** Two tasks, the second created 110 ticks after the first was given the processor: it
      does not run before another 2^32 ticks have been counted. */
  lemma StarvedFromBoot(n: nat)
    ensures var es := [TaskCreate, TaskYield] + Timers(110) + [TaskCreate];
      && LegalRun(Booted, es) && Coherent(Run(Booted, es)) && Queued(Run(Booted, es), 1, 0)
      && (CountedIn(110, n) < TWO32 ==> !IsRunning(Ticks(Run(Booted, es), n), 1))
  {
    hide LegalRun, Run, CountedIn, Ticks, Coherent, Tick, Wait, Queued;
    var boot := [TaskCreate, TaskYield];
    BootedCoherent();
    AloneFromBoot();
    CountedAfterWarmUp(0, 110);
    AloneTicks(0, TIME_SLICE, 110);
    RunAppend(Booted, boot, Timers(110));
    var s := Alone(110, 0);
    RunStep(Booted, boot + Timers(110), TaskCreate);
    BootedRunCoherent(boot + Timers(110) + [TaskCreate]);
    AloneCreates(110);
    ExactWait(Create(s).0, n, 1, 0);
  }

  lemma AloneCreates(ticks: uint32)
    ensures var s := Create(Alone(ticks, 0)).0;
      Queued(s, 1, 0) && s.current != NONE && s.ticks == ticks && Wait(s, 0) == TWO32
  {
    assert FreeSlot(Alone(ticks, 0).tasks, 0) == 1;
  }

  // ----- a current task in the middle of the queue

  /** The state of `EarlyTick`: the current task, woken, is queued behind another. */
  const Woken: State :=
    State([Task(1, Ready, TIME_SLICE, TIME_SLICE, 1), Task(2, Ready, TIME_SLICE, TIME_SLICE, 0)]
          + seq(MAX_TASKS - 2, _ => Task(0, Terminated, 0, 0, 0)),
          [1, 0], 0, 1, 3)

  /** A task that is alone sleeps, another is created, and the next tick wakes the sleeper,
      which is still the current task: from there neither `task_sleep` nor `task_exit`
      keeps queue and states in agreement. */
  lemma EarlyTick(n: uint32)
    ensures var es := [TaskCreate, TaskYield] + [TaskSleep(1)] + [TaskCreate] + [TimerTick];
      && LegalRun(Booted, es) && Run(Booted, es) == Woken && Coherent(Woken)
      && !MayLeave(Woken) && !Coherent(Sleep(Woken, n)) && !Coherent(Exit(Woken))
  {
    hide Coherent, LegalRun, Run, Legal, After, Alone;
    var boot := [TaskCreate, TaskYield];
    BootedCoherent();
    AloneFromBoot();
    EarlySteps();
    RunStep(Booted, boot, TaskSleep(1));
    RunStep(Booted, boot + [TaskSleep(1)], TaskCreate);
    RunStep(Booted, boot + [TaskSleep(1)] + [TaskCreate], TimerTick);
    BootedRunCoherent(boot + [TaskSleep(1)] + [TaskCreate] + [TimerTick]);
    SleepCoherentIff(Woken, n);
    ExitCoherentIff(Woken);
  }

  /** Before the tick of `EarlyTick`. */
  const Dozing: State :=
    State([Task(1, Sleeping, TIME_SLICE, TIME_SLICE, 1), Task(2, Ready, TIME_SLICE, TIME_SLICE, 0)]
          + seq(MAX_TASKS - 2, _ => Task(0, Terminated, 0, 0, 0)),
          [1], 0, 0, 3)

  lemma EarlySteps()
    ensures ValidSlots(Alone(0, TIME_SLICE)) && Legal(Alone(0, TIME_SLICE), TaskSleep(1))
    ensures var s := After(Alone(0, TIME_SLICE), TaskSleep(1));
      ValidSlots(s) && Legal(s, TaskCreate) && After(s, TaskCreate) == Dozing
    ensures ValidSlots(Dozing) && Legal(Dozing, TimerTick) && After(Dozing, TimerTick) == Woken
    ensures !MayLeave(Woken)
  {
    var s := Sleep(Alone(0, TIME_SLICE), 1);
    assert FreeSlot(s.tasks, 0) == 1;
    assert Create(s).0.tasks == Dozing.tasks;
    DozingTick();
  }

  lemma DozingTick()
    ensures ValidSlots(Dozing) && Tick(Dozing) == Woken
  {
    var s0 := Dozing.(ticks := 1);
    var ts := s0.tasks;
    assert DueSlots(ts, 1, 1) == [0] by {
      assert DueSlots(ts, 1, 0) == [];
    }
    DueRest(ts, 1, MAX_TASKS);
    hide DueSlots;
    assert Wake(s0).tasks == Woken.tasks;
  }

  lemma {:induction false} DueRest(ts: seq<Task>, ticks: int, n: nat)
    requires 1 <= n <= |ts| && forall k :: 1 <= k < n ==> !Due(ts[k], ticks)
    ensures DueSlots(ts, ticks, n) == DueSlots(ts, ticks, 1)
  {
    if n > 1 {
      DueRest(ts, ticks, n - 1);
    }
  }

  // ----- a sleep that does not happen

  /** The state of `Resleep`: the current task is the one that waits. */
  const Alarmed: State :=
    State([Task(1, Ready, TIME_SLICE, TIME_SLICE, 1)] + seq(MAX_TASKS - 1, _ => Task(0, Terminated, 0, 0, 0)),
          [0], 0, 1, 2)

  /** A task that is alone sleeps, is woken, and asks to sleep again: it runs on at once. */
  lemma Resleep(n: uint32)
    ensures var es := [TaskCreate, TaskYield] + [TaskSleep(1)] + [TimerTick];
      && LegalRun(Booted, es) && Run(Booted, es) == Alarmed && Coherent(Alarmed) && MayLeave(Alarmed)
      && Sleep(Alarmed, n).current == 0 && IsRunning(Sleep(Alarmed, n), 0)
  {
    hide Coherent, LegalRun, Run, Legal, After, Alone;
    var boot := [TaskCreate, TaskYield];
    BootedCoherent();
    AloneFromBoot();
    ResleepSteps();
    RunStep(Booted, boot, TaskSleep(1));
    RunStep(Booted, boot + [TaskSleep(1)], TimerTick);
    BootedRunCoherent(boot + [TaskSleep(1)] + [TimerTick]);
    SleepStarts(Alarmed, n);
  }

  /** Before the tick of `Resleep`. */
  const Napping: State :=
    State([Task(1, Sleeping, TIME_SLICE, TIME_SLICE, 1)] + seq(MAX_TASKS - 1, _ => Task(0, Terminated, 0, 0, 0)),
          [], 0, 0, 2)

  lemma ResleepSteps()
    ensures ValidSlots(Alone(0, TIME_SLICE)) && Legal(Alone(0, TIME_SLICE), TaskSleep(1))
    ensures var s := After(Alone(0, TIME_SLICE), TaskSleep(1));
      ValidSlots(s) && Legal(s, TimerTick) && After(s, TimerTick) == Alarmed
    ensures MayLeave(Alarmed)
  {
    assert Sleep(Alone(0, TIME_SLICE), 1).tasks == Napping.tasks;
    NappingTick();
  }

  lemma NappingTick()
    ensures ValidSlots(Napping) && Tick(Napping) == Alarmed
  {
    hide Wake, Schedule, CountDown;
    NappingWakes();
  }

  lemma NappingWakes()
    ensures Wake(Napping.(ticks := 1)) == Alarmed
  {
    hide DueSlots;
    var s0 := Napping.(ticks := 1);
    NappingDue();
    assert Wake(s0).tasks == Alarmed.tasks;
    assert Wake(s0).queue == [] + [0] == [0];
  }

  lemma NappingDue()
    ensures |Napping.tasks| == MAX_TASKS && DueSlots(Napping.tasks, 1, MAX_TASKS) == [0]
  {
    FirstDue(Napping.tasks);
    DueRest(Napping.tasks, 1, MAX_TASKS);
  }

  lemma FirstDue(ts: seq<Task>)
    requires |ts| > 0 && Due(ts[0], 1)
    ensures DueSlots(ts, 1, 1) == [0]
  {
    assert DueSlots(ts, 1, 0) == [];
  }

  // ----- a sleep cut short

  /** Asking for 2^32 - 1 ticks of sleep one tick after boot yields one. */
  lemma ShortSleep()
    ensures var es := [TaskCreate, TaskYield] + Timers(1) + [TaskSleep(0xFFFF_FFFF)];
      && LegalRun(Booted, es) && Run(Booted, es).current == 0
      && Asleep(Run(Booted, es), 0, 0)
      && LegalRun(Booted, es + [TimerTick]) && Awake(Run(Booted, es + [TimerTick]), 0)
  {
    hide Coherent, LegalRun, Run, Legal, After, Alone, Tick, Schedule, Asleep, Awake;
    var boot := [TaskCreate, TaskYield];
    BootedCoherent();
    AloneFromBoot();
    CountedAfterWarmUp(0, 1);
    AloneTicks(0, TIME_SLICE, 1);
    RunAppend(Booted, boot, Timers(1));
    AloneSleeps();
    RunStep(Booted, boot + Timers(1), TaskSleep(0xFFFF_FFFF));
    var es := boot + Timers(1) + [TaskSleep(0xFFFF_FFFF)];
    BootedRunCoherent(es);
    TickWakes(Run(Booted, es), 0, 0);
    TickIsAfter(Run(Booted, es));
    RunStep(Booted, es, TimerTick);
  }

  lemma TickIsAfter(s: State)
    requires ValidSlots(s)
    ensures Legal(s, TimerTick) && After(s, TimerTick) == Tick(s)
  {}

  lemma AloneSleeps()
    ensures var s := Alone(1, TIME_SLICE);
      && ValidSlots(s) && Legal(s, TaskSleep(0xFFFF_FFFF))
      && var s' := After(s, TaskSleep(0xFFFF_FFFF));
      Asleep(s', 0, 0) && s'.current == 0
  {}
}

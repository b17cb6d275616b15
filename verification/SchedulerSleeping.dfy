/** How long a task sleeps: exactly until the clock reaches its wake-up time. */
module SchedulerSleeping {
  import opened Machine
  import opened SchedulerSpec
  import opened SchedulerTheorems

  ghost predicate Asleep(s: State, i: int, until: uint32) {
    ValidSlots(s) && IsSlot(i) && s.tasks[i].state == Sleeping && s.tasks[i].sleepUntil == until
  }

  ghost predicate Awake(s: State, i: int) {
    ValidSlots(s) && IsSlot(i) && (s.tasks[i].state == Ready || s.tasks[i].state == Running)
  }

  /** The event does not put task `i` to sleep or end it. */
  predicate Spares(s: State, e: Event, i: int) {
    e.TaskSleep? || e.TaskExit? ==> s.current != i
  }

  /** Dispatching wakes nobody and puts nobody to sleep. */
  lemma ScheduleKeeps(s: State, i: int, until: uint32)
    requires Coherent(s)
    ensures Asleep(s, i, until) ==> Asleep(Schedule(s), i, until)
    ensures Awake(s, i) ==> Awake(Schedule(s), i)
  {
    ScheduleCoherent(s);
    if s.queue != [] {
      assert s.queue[0] in s.queue;
    }
  }

  lemma LeavingKeeps(s: State, t: Task, current: int, i: int, until: uint32)
    requires Coherent(s) && s.current != NONE && s.current != i && MayLeave(s)
    requires t.timeSlice == s.tasks[s.current].timeSlice
    requires (t.state == Sleeping && current == s.current) || (t.state == Terminated && current == NONE)
    ensures ValidSlots(Leaving(s, t, current))
    ensures var s' := Schedule(Leaving(s, t, current));
      (Asleep(s, i, until) ==> Asleep(s', i, until)) && (Awake(s, i) ==> Awake(s', i))
  {
    LeaveCoherent(s, t, current);
    if s.queue != [] {
      assert s.queue[0] in s.queue;
    }
  }

  /** A tick wakes a sleeping task exactly when its time has come. */
  lemma TickWakes(s: State, i: int, until: uint32)
    requires Coherent(s)
    ensures ValidSlots(Tick(s)) && Tick(s).ticks == Wrap(s.ticks + 1)
    ensures Asleep(s, i, until) && until <= Wrap(s.ticks + 1) ==> Awake(Tick(s), i)
    ensures Asleep(s, i, until) && until > Wrap(s.ticks + 1) ==> Asleep(Tick(s), i, until)
    ensures Awake(s, i) ==> Awake(Tick(s), i)
  {
    var s0 := s.(ticks := Wrap(s.ticks + 1));
    TickCoherent(s);
    TicksCoherent(s, s0.ticks);
    WakeCoherent(s0);
    var s1 := Wake(s0);
    assert Asleep(s, i, until) && until <= s0.ticks ==> Awake(s1, i);
    assert Asleep(s, i, until) && until > s0.ticks ==> Asleep(s1, i, until);
    assert Awake(s, i) ==> Awake(s1, i);
    TickTail(s, s1, i, until);
  }

  lemma TickTail(s: State, s1: State, i: int, until: uint32)
    requires ValidSlots(s) && s1 == Wake(s.(ticks := Wrap(s.ticks + 1))) && Coherent(s1)
    ensures ValidSlots(Tick(s)) && Tick(s).ticks == Wrap(s.ticks + 1)
    ensures Asleep(s1, i, until) ==> Asleep(Tick(s), i, until)
    ensures Awake(s1, i) ==> Awake(Tick(s), i)
  {
    hide Wake, Schedule;
    assert s1.ticks == Wrap(s.ticks + 1) by { WakeTicks(s.(ticks := Wrap(s.ticks + 1))); }
    if s1.current != NONE {
      CountDownCoherent(s1);
      ScheduleCoherent(CountDown(s1));
      ScheduleKeeps(CountDown(s1), i, until);
      ScheduleTicks(CountDown(s1));
    }
  }

  lemma WakeTicks(s: State)
    ensures Wake(s).ticks == s.ticks
  {}

  lemma StepSleep(s: State, e: Event, i: int, until: uint32)
    requires Coherent(s) && Legal(s, e) && Spares(s, e, i)
    ensures var s' := After(s, e);
      && s'.ticks == (if e.TimerTick? then Wrap(s.ticks + 1) else s.ticks)
      && (Awake(s, i) ==> Awake(s', i))
      && (Asleep(s, i, until) ==>
            if e.TimerTick? && until <= Wrap(s.ticks + 1) then Awake(s', i) else Asleep(s', i, until))
  {
    hide Schedule, Tick;
    match e
    case TimerTick => TickWakes(s, i, until);
    case TaskCreate => CreateCoherent(s);
    case TaskYield =>
      ScheduleKeeps(s, i, until);
      ScheduleTicks(s);
    case TaskSleep(n) =>
      if s.current != NONE {
        var t := s.tasks[s.current].(state := Sleeping, sleepUntil := Wrap(s.ticks + n));
        LeavingKeeps(s, t, s.current, i, until);
        ScheduleTicks(Leaving(s, t, s.current));
      }
    case TaskExit =>
      if s.current != NONE {
        var t := s.tasks[s.current].(state := Terminated);
        LeavingKeeps(s, t, NONE, i, until);
        ScheduleTicks(Leaving(s, t, NONE));
      }
  }

  ghost predicate SparesAll(s: State, es: seq<Event>, i: int)
    requires LegalRun(s, es)
    decreases |es|
  {
    |es| > 0 ==> Spares(s, es[0], i) && SparesAll(After(s, es[0]), es[1..], i)
  }

  function TickCount(es: seq<Event>): nat {
    if |es| == 0 then 0 else (if es[0].TimerTick? then 1 else 0) + TickCount(es[1..])
  }

  lemma {:induction false} StaysAwake(s: State, es: seq<Event>, i: int)
    requires Coherent(s) && LegalRun(s, es) && SparesAll(s, es, i) && Awake(s, i)
    ensures Awake(Run(s, es), i)
    decreases |es|
  {
    hide Coherent, After, Legal, Awake, Asleep, Spares;
    if |es| > 0 {
      AfterCoherent(s, es[0]);
      StepSleep(s, es[0], i, 0);
      StaysAwake(After(s, es[0]), es[1..], i);
    }
  }

  /** Ticks until a sleeper wakes: at the first value of the clock from `until` on, the
      clock being about to wrap only at its very last value. */
  function SleepTicks(now: uint32, until: uint32): nat {
    if now == TWO32 - 1 then until + 1 else Max(1, until - now)
  }

  lemma SleepTicksStep(now: uint32, until: uint32)
    ensures until <= Wrap(now + 1) ==> SleepTicks(now, until) == 1
    ensures until > Wrap(now + 1) ==> SleepTicks(now, until) == 1 + SleepTicks(Wrap(now + 1), until)
  {}

  /** A sleeping task that is not put to sleep again or ended sleeps through every run of
      too few ticks and is awake after every longer one, whatever the clock does. */
  lemma {:induction false} AsleepExactly(s: State, es: seq<Event>, i: int, until: uint32)
    requires Coherent(s) && LegalRun(s, es) && SparesAll(s, es, i) && Asleep(s, i, until)
    ensures TickCount(es) < SleepTicks(s.ticks, until) ==> Asleep(Run(s, es), i, until)
    ensures TickCount(es) >= SleepTicks(s.ticks, until) ==> Awake(Run(s, es), i)
    decreases |es|
  {
    hide Coherent, After, Legal, Awake, Asleep, Spares, SleepTicks;
    SleepTicksStep(s.ticks, until);
    if |es| > 0 {
      AfterCoherent(s, es[0]);
      StepSleep(s, es[0], i, until);
      if es[0].TimerTick? && until <= Wrap(s.ticks + 1) {
        StaysAwake(After(s, es[0]), es[1..], i);
      } else {
        AsleepExactly(After(s, es[0]), es[1..], i, until);
      }
    } else {
      SleepsATick(s.ticks, until);
    }
  }

  lemma SleepsATick(now: uint32, until: uint32)
    ensures SleepTicks(now, until) >= 1
  {}

  /** A caller that may leave falls asleep, unless it heads the queue: then it is
      dispatched again at once. */
  lemma SleepStarts(s: State, n: uint32)
    requires Coherent(s) && s.current != NONE && MayLeave(s)
    ensures Coherent(Sleep(s, n)) && Sleep(s, n).ticks == s.ticks
    ensures s.tasks[s.current].state != Ready ==> Asleep(Sleep(s, n), s.current, Wrap(s.ticks + n))
    ensures s.tasks[s.current].state == Ready ==>
              Awake(Sleep(s, n), s.current) && Sleep(s, n).tasks[s.current].state == Running
  {
    SleepCoherentIff(s, n);
    if s.queue != [] {
      assert s.queue[0] in s.queue;
    }
  }

  /** The ticks a caller of `task_sleep(n)` sleeps: until the clock reaches `now + n` modulo
      the word size; none if it heads the queue. */
  function SleptTicks(s: State, n: uint32): nat
    requires ValidSlots(s) && s.current != NONE
  {
    if s.tasks[s.current].state == Ready then 0 else SleepTicks(s.ticks, Wrap(s.ticks + n))
  }

  /** It sleeps so long, over every run, and not a tick longer. */
  lemma SleepWakes(s: State, n: uint32, es: seq<Event>)
    requires Coherent(s) && s.current != NONE && MayLeave(s)
    requires SparingRun(Sleep(s, n), es, s.current)
    ensures var s', wake := Run(Sleep(s, n), es), Wrap(s.ticks + n);
      && (TickCount(es) < SleptTicks(s, n) ==> Asleep(s', s.current, wake))
      && (TickCount(es) >= SleptTicks(s, n) ==> Awake(s', s.current))
  {
    hide Sleep, Asleep, Awake, Coherent, TickCount, Run, LegalRun, SparesAll, SleepTicks, SleptTicks;
    CoherentSlots(s);
    SleepStarts(s, n);
    SparingRunIs(Sleep(s, n), es, s.current);
    SleptTicksIs(s, n);
    if s.tasks[s.current].state == Ready {
      StaysAwake(Sleep(s, n), es, s.current);
    } else {
      AsleepExactly(Sleep(s, n), es, s.current, Wrap(s.ticks + n));
    }
  }

  lemma SleptTicksIs(s: State, n: uint32)
    requires ValidSlots(s) && s.current != NONE
    ensures SleptTicks(s, n) == if s.tasks[s.current].state == Ready then 0 else SleepTicks(s.ticks, Wrap(s.ticks + n))
  {}

  lemma SparingRunIs(s: State, es: seq<Event>, i: int)
    ensures SparingRun(s, es, i) <==> LegalRun(s, es) && SparesAll(s, es, i)
  {}

  /** The run neither ends the sleeper nor puts it to sleep again. */
  ghost predicate SparingRun(s: State, es: seq<Event>, i: int) {
    LegalRun(s, es) && SparesAll(s, es, i)
  }

  /** Over every run, the caller sleeps through fewer than the ticks it asked for (one, if
      it asked for none) and no more, exactly when it does not head the queue and the
      wake-up time does not wrap; at the clock's last value it must wrap. */
  lemma FullSleepIff(s: State, n: uint32)
    requires Coherent(s) && s.current != NONE && MayLeave(s)
    ensures (forall es | SparingRun(Sleep(s, n), es, s.current) ::
               TickCount(es) < Max(1, n) <==> Asleep(Run(Sleep(s, n), es), s.current, Wrap(s.ticks + n)))
       <==> s.tasks[s.current].state != Ready && (if s.ticks < TWO32 - 1 then s.ticks + n < TWO32 else n > 0)
  {
    hide Sleep, Asleep, Awake, Coherent, TickCount, Run, LegalRun, SparesAll, SleepTicks, SleptTicks;
    CoherentSlots(s);
    var s1, c, wake, slept := Sleep(s, n), s.current, Wrap(s.ticks + n), SleptTicks(s, n);
    SleepStarts(s, n);
    SleptTicksIs(s, n);
    FullTicks(s.ticks, n);
    forall es | SparingRun(s1, es, c)
      ensures TickCount(es) < slept <==> Asleep(Run(s1, es), c, wake)
    {
      SleepWakes(s, n, es);
      NotBoth(Run(s1, es), c, wake);
    }
    if slept != Max(1, n) {
      var es := TimerRun(s1, c, Min(slept, Max(1, n)));
      assert SparingRun(s1, es, c);
    }
  }

  lemma NotBoth(s: State, i: int, until: uint32)
    ensures !(Asleep(s, i, until) && Awake(s, i))
  {}

  lemma FullTicks(now: uint32, n: uint32)
    ensures SleepTicks(now, Wrap(now + n)) == Max(1, n) <==> (if now < TWO32 - 1 then now + n < TWO32 else n > 0)
  {}

  lemma {:induction false} TimerRun(s: State, i: int, n: nat) returns (es: seq<Event>)
    requires Coherent(s)
    ensures SparingRun(s, es, i) && TickCount(es) == n
    decreases n
  {
    hide Coherent, Tick;
    CoherentSlots(s);
    es := [];
    if n > 0 {
      TickCoherent(s);
      var rest := TimerRun(Tick(s), i, n - 1);
      es := [TimerTick] + rest;
      assert es[1..] == rest && After(s, TimerTick) == Tick(s);
    }
  }

  /** Tasks whose time has come join the queue behind everyone waiting, in slot order. */
  lemma WokenJoinInSlotOrder(s: State)
    requires Coherent(s)
    ensures var due := Wake(s).queue[|s.queue|..];
      && Wake(s).queue[..|s.queue|] == s.queue
      && (forall i :: i in due <==> IsSlot(i) && Due(s.tasks[i], s.ticks))
      && (forall j, k :: 0 <= j < k < |due| ==> due[j] < due[k])
  {
    assert Wake(s).queue[|s.queue|..] == DueSlots(s.tasks, s.ticks, |s.tasks|);
  }
}

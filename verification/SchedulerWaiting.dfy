/** How long a queued task waits: exactly as many counted ticks as the current slice has
    left, and ten for every place in the queue. */
module SchedulerWaiting {
  import opened Machine
  import opened SchedulerSpec
  import opened SchedulerTheorems

  // ----- counted ticks

  /** The tick after clock value `ticks` is counted against the current slice. */
  predicate Counts(ticks: uint32) {
    Wrap(ticks + 1) > WARM_UP
  }

  /** How many of the ticks in a run are counted, the clock wrapping as it may. */
  function CountedTicks(ticks: uint32, es: seq<Event>): nat
    decreases |es|
  {
    if |es| == 0 then 0
    else if !es[0].TimerTick? then CountedTicks(ticks, es[1..])
    else (if Counts(ticks) then 1 else 0) + CountedTicks(Wrap(ticks + 1), es[1..])
  }

  /** How many of the next `n` ticks are. */
  function CountedIn(ticks: uint32, n: nat): nat
    decreases n
  {
    if n == 0 then 0 else (if Counts(ticks) then 1 else 0) + CountedIn(Wrap(ticks + 1), n - 1)
  }

  /** Ticks still to come that are not counted, before one that is. */
  function Uncounted(ticks: uint32): nat {
    if Counts(ticks) then 0 else WARM_UP + 1 - Wrap(ticks + 1)
  }

  // ----- the potential

  /** Counted ticks until a slice counter reaches zero. A counter that already stands at
      zero wraps and takes the whole 32-bit range. */
  function TicksLeft(remaining: uint32): nat {
    if remaining == 0 then TWO32 else remaining
  }

  /** How many counted ticks the task at queue position `p` waits. */
  function Wait(s: State, p: nat): nat
    requires ValidSlots(s) && s.current != NONE
  {
    TicksLeft(s.tasks[s.current].timeRemaining) + TIME_SLICE * p
  }

  ghost predicate Queued(s: State, i: int, p: nat) {
    ValidSlots(s) && p < |s.queue| && s.queue[p] == i
  }

  ghost predicate IsRunning(s: State, i: int) {
    ValidSlots(s) && IsSlot(i) && s.tasks[i].state == Running
  }

  /** Dispatching starts the head of the queue and moves everyone else up one place, with
      a full slice in front of them. */
  lemma ScheduleMovesUp(s: State, i: int, p: nat)
    requires Coherent(s) && Queued(s, i, p)
    ensures var s' := Schedule(s);
      && ValidSlots(s') && s'.current != NONE && s'.ticks == s.ticks
      && (p == 0 ==> IsRunning(s', i))
      && (p > 0 ==> Queued(s', i, p - 1) && Wait(s', p - 1) == TIME_SLICE * p)
  {
    assert i in s.queue && s.queue[0] in s.queue;
    ScheduleCoherent(s);
  }

  /** The same when the current task has just been put to sleep or ended. */
  lemma LeavingMovesUp(s: State, t: Task, current: int, i: int, p: nat)
    requires Coherent(s) && s.current != NONE && MayLeave(s) && Queued(s, i, p)
    requires t.timeSlice == s.tasks[s.current].timeSlice
    requires (t.state == Sleeping && current == s.current) || (t.state == Terminated && current == NONE)
    ensures ValidSlots(Leaving(s, t, current))
    ensures var s' := Schedule(Leaving(s, t, current));
      && ValidSlots(s') && s'.current != NONE && s'.ticks == s.ticks
      && (p == 0 ==> IsRunning(s', i))
      && (p > 0 ==> Queued(s', i, p - 1) && Wait(s', p - 1) == TIME_SLICE * p)
  {
    LeaveCoherent(s, t, current);
    assert i in s.queue && s.queue[0] in s.queue;
    if s.queue[0] != s.current {
      assert s.tasks[s.queue[0]].state == Ready;
    }
  }

  /** Waking up only appends to the queue. */
  lemma WakeKeepsPosition(s: State, i: int, p: nat)
    requires Coherent(s) && Queued(s, i, p) && s.current != NONE
    ensures ValidSlots(Wake(s)) && Queued(Wake(s), i, p) && Wake(s).current == s.current && Wake(s).ticks == s.ticks
    ensures Wait(Wake(s), p) == Wait(s, p)
  {
    WakeCoherent(s);
  }

  /** Every counted tick brings a waiting task exactly one tick closer; the others leave
      it where it is. */
  lemma TickBringsCloser(s: State, i: int, p: nat)
    requires Coherent(s) && Queued(s, i, p) && s.current != NONE
    ensures var s' := Tick(s);
      && ValidSlots(s') && s'.current != NONE && s'.ticks == Wrap(s.ticks + 1)
      && (!Counts(s.ticks) ==> Queued(s', i, p) && Wait(s', p) == Wait(s, p))
      && (Counts(s.ticks) && Wait(s, p) == 1 ==> IsRunning(s', i))
      && (Counts(s.ticks) && Wait(s, p) > 1 ==>
            exists p' :: Queued(s', i, p') && Wait(s', p') == Wait(s, p) - 1)
  {
    hide Coherent, Wake, Schedule, CountDown, Queued, Wait, IsRunning;
    CoherentSlots(s);
    var s0 := s.(ticks := Wrap(s.ticks + 1));
    TicksCoherent(s, s0.ticks);
    TicksKeepPosition(s, s0.ticks, i, p);
    WakeKeepsPosition(s0, i, p);
    WakeCoherent(s0);
    var s1 := Wake(s0);
    CoherentSlots(s1);
    if Counts(s.ticks) {
      CountDownCoherent(s1);
      var s2 := CountDown(s1);
      CoherentSlots(s2);
      CountDownIs(s1, i, p);
      if s2.tasks[s2.current].timeRemaining == 0 {
        ScheduleMovesUp(s2, i, p);
        if p > 0 {
          assert Queued(Tick(s), i, p - 1);
        }
      } else {
        WaitAtLeastOne(s2, p);
        assert Queued(Tick(s), i, p);
      }
    }
  }

  lemma TicksKeepPosition(s: State, ticks: uint32, i: int, p: nat)
    requires Queued(s, i, p) && s.current != NONE
    ensures var s0 := s.(ticks := ticks); Queued(s0, i, p) && Wait(s0, p) == Wait(s, p)
  {}

  lemma WaitAtLeastOne(s: State, p: nat)
    requires ValidSlots(s) && s.current != NONE
    ensures Wait(s, p) >= 1
  {}

  /** Counting down takes one tick off the wait until the slice is used up. */
  lemma CountDownIs(s: State, i: int, p: nat)
    requires Coherent(s) && Queued(s, i, p) && s.current != NONE
    ensures var s' := CountDown(s);
      && ValidSlots(s') && Queued(s', i, p) && s'.current == s.current && s'.ticks == s.ticks
      && (s'.tasks[s'.current].timeRemaining == 0 ==> Wait(s, p) == 1 + TIME_SLICE * p)
      && (s'.tasks[s'.current].timeRemaining != 0 ==> Wait(s', p) == Wait(s, p) - 1)
  {}

  /** No other call makes a waiting task wait longer. */
  lemma OthersNeverDelay(s: State, e: Event, i: int, p: nat)
    requires Coherent(s) && Legal(s, e) && !e.TimerTick? && Queued(s, i, p) && s.current != NONE
    ensures var s' := After(s, e);
      && ValidSlots(s') && s'.current != NONE && s'.ticks == s.ticks
      && (IsRunning(s', i) || exists p' :: Queued(s', i, p') && Wait(s', p') <= Wait(s, p))
  {
    var s' := After(s, e);
    AfterCoherent(s, e);
    match e
    case TaskCreate =>
      assert s.tasks[s.current].state != Terminated;
      assert Queued(s', i, p);
    case TaskYield =>
      ScheduleMovesUp(s, i, p);
      if p > 0 { assert Queued(s', i, p - 1); }
    case TaskSleep(n) =>
      hide Schedule;
      LeavingMovesUp(s, s.tasks[s.current].(state := Sleeping, sleepUntil := Wrap(s.ticks + n)), s.current, i, p);
      if p > 0 { assert Queued(s', i, p - 1); }
    case TaskExit =>
      hide Schedule;
      LeavingMovesUp(s, s.tasks[s.current].(state := Terminated), NONE, i, p);
      if p > 0 { assert Queued(s', i, p - 1); }
  }

  // ----- runs

  /** Task `i` runs in some state of the run. */
  ghost predicate GetsToRun(s: State, es: seq<Event>, i: int)
    requires LegalRun(s, es)
    decreases |es|
  {
    IsRunning(s, i) || (|es| > 0 && GetsToRun(After(s, es[0]), es[1..], i))
  }

  /** Whatever else happens in between, a task at queue position `p` runs by the time
      `Wait(s, p)` counted ticks have passed. */
  lemma {:induction false} BoundedWaiting(s: State, es: seq<Event>, i: int, p: nat)
    requires Coherent(s) && LegalRun(s, es) && Queued(s, i, p) && s.current != NONE
    requires Wait(s, p) <= CountedTicks(s.ticks, es)
    ensures GetsToRun(s, es, i)
    decreases |es|
  {
    hide Coherent, After, Legal, Queued, Wait, IsRunning, ValidSlots, Counts;
    WaitAtLeastOne(s, p);
    var s', rest := After(s, es[0]), es[1..];
    AfterCoherent(s, es[0]);
    StepBringsCloser(s, es[0], i, p);
    if !IsRunning(s', i) {
      var p' :| Queued(s', i, p') && Wait(s', p') <= Wait(s, p) - CountedTicks(s.ticks, [es[0]]);
      assert [es[0]][1..] == [];
      BoundedWaiting(s', rest, i, p');
    } else {
      assert GetsToRun(s', rest, i);
    }
  }

  lemma StepBringsCloser(s: State, e: Event, i: int, p: nat)
    requires Coherent(s) && Legal(s, e) && Queued(s, i, p) && s.current != NONE
    ensures var s' := After(s, e);
      && ValidSlots(s') && s'.current != NONE
      && s'.ticks == (if e.TimerTick? then Wrap(s.ticks + 1) else s.ticks)
      && (IsRunning(s', i) ||
            exists p' :: Queued(s', i, p') && Wait(s', p') <= Wait(s, p) - CountedTicks(s.ticks, [e]))
  {
    hide Coherent, Queued, Wait, IsRunning, Tick, Schedule, Create, Sleep, Exit, Legal, Counts;
    CoherentSlots(s);
    assert [e][1..] == [];
    if e.TimerTick? {
      TickBringsCloser(s, i, p);
      WaitAtLeastOne(s, p);
    } else {
      OthersNeverDelay(s, e, i, p);
    }
  }

  /** The state after `n` ticks and nothing else. */
  ghost function Ticks(s: State, n: nat): State
    requires Coherent(s)
    decreases n
  {
    if n == 0 then s else TickCoherent(s); Ticks(Tick(s), n - 1)
  }

  /** Left to the timer alone, the wait is exact: the task does not run while fewer ticks
      have been counted, and runs at the tick that makes the count complete. */
  lemma {:induction false} ExactWait(s: State, n: nat, i: int, p: nat)
    requires Coherent(s) && Queued(s, i, p) && s.current != NONE
    ensures CountedIn(s.ticks, n) < Wait(s, p) ==> !IsRunning(Ticks(s, n), i)
    ensures n > 0 && CountedIn(s.ticks, n - 1) < Wait(s, p) == CountedIn(s.ticks, n) ==> IsRunning(Ticks(s, n), i)
    decreases n
  {
    hide Coherent, Tick, Wait, Counts, Queued;
    CoherentSlots(s);
    WaitAtLeastOne(s, p);
    QueuedNotRunning(s, i, p);
    if n > 0 {
      TickCoherent(s);
      TickBringsCloser(s, i, p);
      if !Counts(s.ticks) {
        ExactWait(Tick(s), n - 1, i, p);
      } else if Wait(s, p) == 1 {
        assert n == 1 ==> Ticks(s, n) == Ticks(Tick(s), 0) == Tick(s);
      } else {
        var p' :| Queued(Tick(s), i, p') && Wait(Tick(s), p') == Wait(s, p) - 1;
        ExactWait(Tick(s), n - 1, i, p');
      }
    }
  }

  lemma QueuedNotRunning(s: State, i: int, p: nat)
    requires Coherent(s) && Queued(s, i, p)
    ensures !IsRunning(s, i)
  {
    assert i in s.queue;
  }

  // ----- when waiting is fair

  /** Any number of counted ticks short of the wait can pass without the task running. */
  lemma {:induction false} NotRunYet(s: State, i: int, p: nat, c: nat) returns (es: seq<Event>)
    requires Coherent(s) && Queued(s, i, p) && s.current != NONE && c < Wait(s, p)
    ensures LegalRun(s, es) && CountedTicks(s.ticks, es) == c && !GetsToRun(s, es, i)
    decreases c, Uncounted(s.ticks)
  {
    hide Coherent, Tick, Wait, Queued, IsRunning;
    CoherentSlots(s);
    QueuedNotRunning(s, i, p);
    es := [];
    if c > 0 {
      TickCoherent(s);
      TickBringsCloser(s, i, p);
      var rest;
      if Counts(s.ticks) {
        var p' :| Queued(Tick(s), i, p') && Wait(Tick(s), p') == Wait(s, p) - 1;
        rest := NotRunYet(Tick(s), i, p', c - 1);
      } else {
        rest := NotRunYet(Tick(s), i, p, c);
      }
      es := [TimerTick] + rest;
      assert es[1..] == rest && After(s, TimerTick) == Tick(s);
    }
  }

  /** With no current task nobody is dispatched but by a yield: ticks only wake sleepers,
      and sleep and exit do nothing. */
  lemma IdleStays(s: State, e: Event)
    requires Coherent(s) && s.current == NONE && Legal(s, e) && !e.TaskYield?
    ensures After(s, e).current == NONE
  {
    hide Coherent, Legal;
    CoherentSlots(s);
  }

  lemma IdleRunsNobody(s: State, i: int)
    requires Coherent(s) && s.current == NONE
    ensures !IsRunning(s, i)
  {}

  /** So without a current task no task ever runs, over every run without a yield. */
  lemma {:induction false} IdleNeverRuns(s: State, es: seq<Event>, i: int)
    requires Coherent(s) && s.current == NONE && LegalRun(s, es) && TaskYield !in es
    ensures !GetsToRun(s, es, i)
    decreases |es|
  {
    hide Coherent, After, Legal, IsRunning;
    IdleRunsNobody(s, i);
    if |es| > 0 {
      IdleStays(s, es[0]);
      AfterCoherent(s, es[0]);
      IdleNeverRuns(After(s, es[0]), es[1..], i);
    }
  }

  /** That is how the kernel starts: from `scheduler_init` on no task runs until the first
      yield, however many are created and however long the timer ticks. */
  lemma BootedNeedsYield(es: seq<Event>, i: int)
    requires LegalRun(Booted, es) && TaskYield !in es
    ensures !GetsToRun(Booted, es, i)
  {
    hide Coherent, LegalRun, GetsToRun;
    BootedCoherent();
    IdleNeverRuns(Booted, es, i);
  }

  /** And it is back there when the last task that could run ends. */
  lemma LastExitIdles(s: State)
    requires Coherent(s) && s.current != NONE && s.queue == []
    ensures Coherent(Exit(s)) && Exit(s).current == NONE
  {
    ExitCoherentIff(s);
    assert s.tasks[s.current].state == Ready ==> s.current in s.queue;
  }

  /** A run of ticks, of which `c` are counted. */
  lemma {:induction false} CountingRun(s: State, c: nat) returns (es: seq<Event>)
    requires Coherent(s)
    ensures LegalRun(s, es) && CountedTicks(s.ticks, es) == c && TaskYield !in es
    decreases c, Uncounted(s.ticks)
  {
    hide Coherent, Tick;
    CoherentSlots(s);
    es := [];
    if c > 0 {
      TickCoherent(s);
      TickAdvances(s);
      var rest := CountingRun(Tick(s), if Counts(s.ticks) then c - 1 else c);
      es := [TimerTick] + rest;
      assert es[1..] == rest && After(s, TimerTick) == Tick(s);
    }
  }

  lemma TickAdvances(s: State)
    requires Coherent(s)
    ensures Tick(s).ticks == Wrap(s.ticks + 1)
  {
    hide Wake, Schedule;
    var s0 := s.(ticks := Wrap(s.ticks + 1));
    TicksCoherent(s, s0.ticks);
    WakeCoherent(s0);
    WakeFields(s0);
    if s.current != NONE {
      CountDownFields(Wake(s0));
      CountDownCoherent(Wake(s0));
      ScheduleTicks(CountDown(Wake(s0)));
    }
  }

  /** A queued task runs within ten counted ticks for every place up to its own, whatever
      else is called, exactly when there is a current task and its slice counter has not
      run out. */
  lemma FairIff(s: State, i: int, p: nat)
    requires Coherent(s) && Queued(s, i, p)
    ensures (forall es | LegalRun(s, es) && CountedTicks(s.ticks, es) >= TIME_SLICE * (p + 1) :: GetsToRun(s, es, i))
       <==> s.current != NONE && 1 <= s.tasks[s.current].timeRemaining <= TIME_SLICE
  {
    hide Coherent, LegalRun, CountedTicks, GetsToRun;
    CoherentSlots(s);
    if s.current == NONE {
      var es := CountingRun(s, TIME_SLICE * (p + 1));
      IdleNeverRuns(s, es, i);
    } else if 1 <= s.tasks[s.current].timeRemaining <= TIME_SLICE {
      forall es | LegalRun(s, es) && CountedTicks(s.ticks, es) >= TIME_SLICE * (p + 1) ensures GetsToRun(s, es, i) {
        BoundedWaiting(s, es, i, p);
      }
    } else {
      var es := NotRunYet(s, i, p, TIME_SLICE * (p + 1));
    }
  }

  /** How it runs out: a slice that expires with nobody waiting is not refilled. The next
      task created then does not run before 2^32 ticks have been counted, and left to the
      timer alone it runs at the one that completes them. */
  lemma ExpiredSliceStarves(s: State, n: nat)
    requires Coherent(s) && s.current != NONE && s.tasks[s.current].timeRemaining == 1
    requires Counts(s.ticks) && Wake(s.(ticks := Wrap(s.ticks + 1))).queue == []
    requires FreeSlot(s.tasks, 0) != NONE
    ensures Coherent(Create(Tick(s)).0)
    ensures var s', i := Create(Tick(s)).0, FreeSlot(s.tasks, 0);
      && Queued(s', i, 0) && s'.current == s.current
      && (CountedIn(s'.ticks, n) < TWO32 ==> !IsRunning(Ticks(s', n), i))
      && (n > 0 && CountedIn(s'.ticks, n - 1) < TWO32 == CountedIn(s'.ticks, n) ==> IsRunning(Ticks(s', n), i))
  {
    hide Schedule, Wake, CountDown, Coherent, CountedIn, Ticks;
    CoherentSlots(s);
    TickCoherent(s);
    SliceExpires(s);
    CreateCoherent(Tick(s));
    ExactWait(Create(Tick(s)).0, n, FreeSlot(s.tasks, 0), 0);
  }

  lemma SliceExpires(s: State)
    requires Coherent(s) && s.current != NONE && s.tasks[s.current].timeRemaining == 1
    requires Counts(s.ticks) && Wake(s.(ticks := Wrap(s.ticks + 1))).queue == []
    requires FreeSlot(s.tasks, 0) != NONE
    ensures var s' := Create(Tick(s)).0;
      && Queued(s', FreeSlot(s.tasks, 0), 0) && s'.current == s.current && Wait(s', 0) == TWO32
  {
    hide Schedule, Wake, CountDown;
    var s0 := s.(ticks := Wrap(s.ticks + 1));
    TicksCoherent(s, s0.ticks);
    WakeCoherent(s0);
    var s1 := Wake(s0);
    WakeFields(s0);
    CountDownCoherent(s1);
    CountDownFields(s1);
    var s2 := CountDown(s1);
    ScheduleEmpty(s2);
    SameFreeSlot(s.tasks, s2.tasks, 0);
  }

  lemma ScheduleEmpty(s: State)
    requires ValidSlots(s) && s.queue == []
    ensures Schedule(s) == s
  {}

  lemma CountDownFields(s: State)
    requires ValidSlots(s) && s.current != NONE
    ensures var s' := CountDown(s);
      && s' == s.(tasks := s'.tasks) && |s'.tasks| == |s.tasks|
      && s'.tasks[s.current].timeRemaining == Wrap(s.tasks[s.current].timeRemaining - 1)
      && (forall k :: 0 <= k < |s.tasks| ==> s'.tasks[k].state == s.tasks[k].state)
  {}

  lemma {:induction false} SameFreeSlot(ts: seq<Task>, ts': seq<Task>, i: nat)
    requires |ts| == |ts'| && i <= |ts|
    requires forall k :: 0 <= k < |ts| ==> (ts[k].state == Terminated <==> ts'[k].state == Terminated)
    ensures FreeSlot(ts, i) == FreeSlot(ts', i)
    decreases |ts| - i
  {
    if i < |ts| {
      SameFreeSlot(ts, ts', i + 1);
    }
  }
}

/** What the scheduler keeps over every run of its calls: queue and task states agree. */
module SchedulerTheorems {
  import opened Machine
  import opened SchedulerSpec

  const Booted := State(seq(MAX_TASKS, _ => Task(0, Terminated, 0, 0, 0)), [], NONE, 0, 1)

  lemma BootedCoherent()
    ensures Coherent(Booted)
  {}

  // ----- coherence

  lemma CreateCoherent(s: State)
    requires Coherent(s)
    ensures Coherent(Create(s).0)
  {
    var slot := FreeSlot(s.tasks, 0);
    if slot != NONE {
      var s' := Create(s).0;
      assert slot !in s.queue;
      forall i ensures i in s'.queue <==> i in s.queue || i == slot {}
    }
  }

  lemma WakeCoherent(s: State)
    requires Coherent(s)
    ensures Coherent(Wake(s))
  {
    var s', q := Wake(s), DueSlots(s.tasks, s.ticks, |s.tasks|);
    forall i ensures i in s'.queue <==> i in s.queue || i in q {}
    forall j, k | 0 <= j < k < |s'.queue| ensures s'.queue[j] != s'.queue[k] {
      if j < |s.queue| <= k {
        assert s.queue[j] in s.queue && q[k - |s.queue|] in q;
      }
    }
  }

  lemma CountDownCoherent(s: State)
    requires Coherent(s) && s.current != NONE
    ensures Coherent(CountDown(s))
  {}

  lemma PopKeeps(q: seq<int>)
    requires Distinct(q) && q != []
    ensures Distinct(q[1..]) && forall i :: i in q[1..] <==> i in q && i != q[0]
  {
    var rest := q[1..];
    assert q == [q[0]] + rest;
    forall k | 0 <= k < |rest| ensures rest[k] != q[0] {
      assert q[0] != q[k + 1];
    }
    forall j, k | 0 <= j < k < |rest| ensures rest[j] != rest[k] {
      assert q[j + 1] != q[k + 1];
    }
  }

  lemma PushKeeps(q: seq<int>, c: int)
    requires Distinct(q) && c !in q
    ensures Distinct(q + [c]) && forall i :: i in q + [c] <==> i in q || i == c
  {}

  lemma ScheduleCoherent(s: State)
    requires Coherent(s)
    ensures Coherent(Schedule(s))
  {
    hide Distinct;
    if s.queue != [] {
      assert s.queue[0] in s.queue;
      PopKeeps(s.queue);
      if s.current != NONE && s.tasks[s.current].state == Running {
        assert s.current !in s.queue;
        PushKeeps(s.queue[1..], s.current);
      }
    }
  }

  lemma TickCoherent(s: State)
    requires Coherent(s)
    ensures Coherent(Tick(s))
  {
    hide Coherent, Wake, Schedule, CountDown;
    var s0 := s.(ticks := Wrap(s.ticks + 1));
    TicksCoherent(s, s0.ticks);
    WakeCoherent(s0);
    var s1 := Wake(s0);
    CoherentSlots(s1);
    if s1.current != NONE {
      CountDownCoherent(s1);
      CoherentSlots(CountDown(s1));
      ScheduleCoherent(CountDown(s1));
    }
  }

  lemma TicksCoherent(s: State, ticks: uint32)
    requires Coherent(s)
    ensures Coherent(s.(ticks := ticks))
  {}

  lemma CoherentSlots(s: State)
    requires Coherent(s)
    ensures ValidSlots(s)
  {}

  /** The current task may be put to sleep or ended: it is not waiting in the queue, or it
      is the very task that is dispatched next. */
  ghost predicate MayLeave(s: State) {
    && ValidSlots(s)
    && (s.current != NONE && s.tasks[s.current].state == Ready ==> s.queue != [] && s.queue[0] == s.current)
  }

  /** The current task marked as asleep or ended, before the next one is dispatched. */
  function Leaving(s: State, t: Task, current: int): State
    requires ValidSlots(s) && s.current != NONE
  {
    s.(tasks := s.tasks[s.current := t], current := current)
  }

  lemma LeaveCoherent(s: State, t: Task, current: int)
    requires Coherent(s) && s.current != NONE
    requires t.timeSlice == s.tasks[s.current].timeSlice
    requires (t.state == Sleeping && current == s.current) || (t.state == Terminated && current == NONE)
    ensures ValidSlots(Leaving(s, t, current))
    ensures Coherent(Schedule(Leaving(s, t, current))) <==> MayLeave(s)
  {
    var c, s1 := s.current, Leaving(s, t, current);
    if s.tasks[c].state != Ready {
      assert Coherent(s1);
      ScheduleCoherent(s1);
    } else if s.queue[0] == c {
      LeaveAtHead(s, t, current);
    } else {
      var s2 := Schedule(s1);
      assert c in s.queue && s.queue == [s.queue[0]] + s.queue[1..];
      assert s.queue[0] in s.queue;
      assert s2.queue == s.queue[1..];
      assert |s2.tasks| == MAX_TASKS && s2.tasks[c] == t;
    }
  }

  /** A current task at the head of the queue is dispatched again at once. */
  lemma LeaveAtHead(s: State, t: Task, current: int)
    requires Coherent(s) && s.current != NONE && s.queue != [] && s.queue[0] == s.current
    requires t.timeSlice == s.tasks[s.current].timeSlice
    requires (t.state == Sleeping && current == s.current) || (t.state == Terminated && current == NONE)
    ensures Coherent(Schedule(Leaving(s, t, current)))
  {
    hide Distinct;
    assert s.queue[0] in s.queue;
    PopKeeps(s.queue);
    assert Schedule(Leaving(s, t, current)).queue == s.queue[1..];
  }

  /** `task_sleep` keeps the queue coherent exactly when the current task may leave. */
  lemma SleepCoherentIff(s: State, n: uint32)
    requires Coherent(s)
    ensures Coherent(Sleep(s, n)) <==> MayLeave(s)
  {
    hide Schedule;
    if s.current != NONE {
      LeaveCoherent(s, s.tasks[s.current].(state := Sleeping, sleepUntil := Wrap(s.ticks + n)), s.current);
    }
  }

  /** The same for `task_exit`. */
  lemma ExitCoherentIff(s: State)
    requires Coherent(s)
    ensures Coherent(Exit(s)) <==> MayLeave(s)
  {
    hide Schedule;
    if s.current != NONE {
      LeaveCoherent(s, s.tasks[s.current].(state := Terminated), NONE);
    }
  }

  // ----- runs

  datatype Event = TimerTick | TaskCreate | TaskYield | TaskSleep(n: uint32) | TaskExit

  ghost predicate Legal(s: State, e: Event) {
    e.TaskSleep? || e.TaskExit? ==> MayLeave(s)
  }

  function After(s: State, e: Event): State
    requires ValidSlots(s)
  {
    match e
    case TimerTick => Tick(s)
    case TaskCreate => Create(s).0
    case TaskYield => Schedule(s)
    case TaskSleep(n) => Sleep(s, n)
    case TaskExit => Exit(s)
  }

  lemma AfterCoherent(s: State, e: Event)
    requires Coherent(s) && Legal(s, e)
    ensures ValidSlots(s) && Coherent(After(s, e))
  {
    hide Coherent, Schedule, Tick, Create, Sleep, Exit, MayLeave;
    CoherentSlots(s);
    match e
    case TimerTick => TickCoherent(s);
    case TaskCreate => CreateCoherent(s);
    case TaskYield => ScheduleCoherent(s);
    case TaskSleep(n) => SleepCoherentIff(s, n);
    case TaskExit => ExitCoherentIff(s);
  }

  ghost predicate LegalRun(s: State, es: seq<Event>)
    decreases |es|
  {
    ValidSlots(s) && (|es| > 0 ==> Legal(s, es[0]) && LegalRun(After(s, es[0]), es[1..]))
  }

  ghost function Run(s: State, es: seq<Event>): State
    requires LegalRun(s, es)
    decreases |es|
  {
    if |es| == 0 then s else Run(After(s, es[0]), es[1..])
  }

  /** Every run of legal calls stays coherent. */
  lemma {:induction false} RunCoherent(s: State, es: seq<Event>)
    requires Coherent(s) && LegalRun(s, es)
    ensures Coherent(Run(s, es))
    decreases |es|
  {
    hide Coherent, After, Legal;
    if |es| > 0 {
      AfterCoherent(s, es[0]);
      RunCoherent(After(s, es[0]), es[1..]);
    }
  }

  /** So every run of legal calls from `scheduler_init` does. */
  lemma BootedRunCoherent(es: seq<Event>)
    requires LegalRun(Booted, es)
    ensures Coherent(Run(Booted, es))
  {
    hide Coherent, LegalRun, Run;
    BootedCoherent();
    RunCoherent(Booted, es);
  }

  lemma {:induction false} RunAppend(s: State, a: seq<Event>, b: seq<Event>)
    requires LegalRun(s, a) && LegalRun(Run(s, a), b)
    ensures LegalRun(s, a + b) && Run(s, a + b) == Run(Run(s, a), b)
    decreases |a|
  {
    hide After, Legal, ValidSlots;
    if |a| == 0 {
      assert a + b == b;
    } else {
      assert (a + b)[0] == a[0] && (a + b)[1..] == a[1..] + b;
      RunAppend(After(s, a[0]), a[1..], b);
    }
  }

  /** One more call at the end of a run. */
  lemma RunStep(s: State, es: seq<Event>, e: Event)
    requires Coherent(s) && LegalRun(s, es) && Legal(Run(s, es), e)
    ensures ValidSlots(Run(s, es))
    ensures LegalRun(s, es + [e]) && Run(s, es + [e]) == After(Run(s, es), e)
  {
    hide After, Legal, Coherent, ValidSlots;
    var s' := Run(s, es);
    RunCoherent(s, es);
    AfterCoherent(s', e);
    CoherentSlots(s');
    CoherentSlots(After(s', e));
    assert [e][1..] == [];
    assert LegalRun(After(s', e), []);
    RunAppend(s, es, [e]);
  }

  /** `n` ticks and nothing else. */
  function Timers(n: nat): seq<Event> {
    seq(n, _ => TimerTick)
  }

  /** What a tick leaves as it is on the way to the slice counter. */
  lemma WakeFields(s: State)
    requires ValidSlots(s)
    ensures var s' := Wake(s);
      && s'.ticks == s.ticks && s'.current == s.current && |s'.tasks| == |s.tasks|
      && (forall k :: 0 <= k < |s.tasks| ==> s'.tasks[k].timeRemaining == s.tasks[k].timeRemaining)
      && (forall k :: 0 <= k < |s.tasks| ==> (s'.tasks[k].state == Terminated <==> s.tasks[k].state == Terminated))
  {}

  lemma ScheduleTicks(s: State)
    requires ValidSlots(s)
    ensures Schedule(s).ticks == s.ticks
  {}
}

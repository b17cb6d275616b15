/** From going to sleep to running again. */
module SchedulerResponse {
  import opened Machine
  import opened SchedulerSpec
  import opened SchedulerTheorems
  import opened SchedulerWaiting
  import opened SchedulerSleeping

  /** A queue of distinct slots is no longer than the table. */
  lemma QueueLength(s: State)
    requires Coherent(s)
    ensures |s.queue| <= MAX_TASKS
  {
    forall k | 0 <= k < |s.queue| ensures s.queue[k] in Slots(MAX_TASKS) {
      assert s.queue[k] in s.queue;
    }
    DistinctFits(s.queue, Slots(MAX_TASKS));
  }

  function Slots(n: nat): (slots: set<int>)
    ensures |slots| == n && forall i :: i in slots <==> 0 <= i < n
  {
    if n == 0 then {} else Slots(n - 1) + {n - 1}
  }

  lemma {:induction false} DistinctFits(q: seq<int>, slots: set<int>)
    requires Distinct(q) && forall k :: 0 <= k < |q| ==> q[k] in slots
    ensures |q| <= |slots|
  {
    if |q| > 0 {
      PopKeeps(q);
      forall k | 0 <= k < |q[1..]| ensures q[1..][k] in slots - {q[0]} {
        assert q[1..][k] in q[1..];
      }
      DistinctFits(q[1..], slots - {q[0]});
    }
  }

  /** A ready task has a place in the queue. */
  lemma ReadyIsQueued(s: State, i: int) returns (p: nat)
    requires Coherent(s) && IsSlot(i) && s.tasks[i].state == Ready
    ensures Queued(s, i, p) && p < MAX_TASKS
  {
    QueueLength(s);
    assert i in s.queue;
    p :| p < |s.queue| && s.queue[p] == i;
  }

  lemma {:induction false} RunsAtOnce(s: State, es: seq<Event>, i: int)
    requires LegalRun(s, es) && IsRunning(s, i)
    ensures GetsToRun(s, es, i)
  {}

  /** An awake task runs within ten counted ticks for every task there can be, whatever is
      called meanwhile, if there is a current task whose slice has not run out. */
  lemma AwakeRuns(s: State, es: seq<Event>, i: int)
    requires Coherent(s) && Awake(s, i) && LegalRun(s, es)
    requires s.current != NONE && 1 <= s.tasks[s.current].timeRemaining <= TIME_SLICE
    requires CountedTicks(s.ticks, es) >= TIME_SLICE * MAX_TASKS
    ensures GetsToRun(s, es, i)
  {
    hide Coherent, LegalRun, CountedTicks, GetsToRun;
    if s.tasks[i].state == Ready {
      var p := ReadyIsQueued(s, i);
      BoundedWaiting(s, es, i, p);
    } else {
      RunsAtOnce(s, es, i);
    }
  }

  /** After `task_sleep(n)`: through every run of fewer than the ticks it sleeps the caller
      is not running, and once they have passed it runs within another eighty counted
      ticks, if there is then a current task whose slice has not run out. */
  lemma SleepsThenRuns(s: State, n: uint32, before: seq<Event>, after: seq<Event>)
    requires Coherent(s) && s.current != NONE && MayLeave(s)
    requires SparingRun(Sleep(s, n), before, s.current)
    ensures TickCount(before) < SleptTicks(s, n) ==> !IsRunning(Run(Sleep(s, n), before), s.current)
    ensures var s' := Run(Sleep(s, n), before);
      TickCount(before) >= SleptTicks(s, n) && LegalRun(s', after)
      && s'.current != NONE && 1 <= s'.tasks[s'.current].timeRemaining <= TIME_SLICE
      && CountedTicks(s'.ticks, after) >= TIME_SLICE * MAX_TASKS
      ==> GetsToRun(s', after, s.current)
  {
    hide Coherent, LegalRun, SparesAll, CountedTicks, GetsToRun, Run, Sleep, SleptTicks, TickCount, Awake;
    var s' := Run(Sleep(s, n), before);
    SleepWakes(s, n, before);
    SleepStarts(s, n);
    SparingRunIs(Sleep(s, n), before, s.current);
    RunCoherent(Sleep(s, n), before);
    CoherentSlots(s');
    if TickCount(before) >= SleptTicks(s, n) && LegalRun(s', after)
      && s'.current != NONE && 1 <= s'.tasks[s'.current].timeRemaining <= TIME_SLICE
      && CountedTicks(s'.ticks, after) >= TIME_SLICE * MAX_TASKS
    {
      AwakeRuns(s', after, s.current);
    }
  }
}

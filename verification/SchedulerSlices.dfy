/** What the timer, the switches and the two ends of the queue do, read off the threads (src/task/scheduler.c). */
module SchedulerSlices {
  import opened SchedulerSpec
  import opened SchedulerTheorems
  import opened SchedulerSteps

  // ---- Clocks ----

  /** What a switch does to the clocks: the thread that leaves starts afresh next time, the others keep theirs. */
  lemma SwitchClocks(s: Sched, t: Tid)
    requires Runnable(s) && s.ready != [] && t in s.threads
    ensures
      var n := Switch(s);
      && t in n.threads && n.threads[t].priority == s.threads[t].priority
      && n.threads[t].preemptCount == s.threads[t].preemptCount
      && (t == s.crt ==> n.threads[t].ticks == 0 && !n.threads[t].needReschedule)
      && (t != s.crt ==> n.threads[t].ticks == s.threads[t].ticks
                         && n.threads[t].needReschedule == s.threads[t].needReschedule)
  {
  }

  lemma YieldClocks(s: Sched, t: Tid)
    requires Runnable(s) && t in s.threads
    ensures
      var n := Yield(s);
      && t in n.threads && n.threads[t].priority == s.threads[t].priority
      && n.threads[t].preemptCount == s.threads[t].preemptCount
      && (t == s.crt ==> n.threads[t].ticks == 0 && !n.threads[t].needReschedule)
      && (t != s.crt ==> n.threads[t].ticks == s.threads[t].ticks
                         && n.threads[t].needReschedule == s.threads[t].needReschedule)
  {
    hide Switch;
    SwitchClocks(if s.ready == [] then s.(ready := [IDLE]) else s, t);
  }

  lemma ScheduleClocks(s: Sched, t: Tid)
    requires Runnable(s) && t in s.threads
    ensures
      var n := Schedule(s);
      && t in n.threads && n.threads[t].priority == s.threads[t].priority
      && n.threads[t].preemptCount == s.threads[t].preemptCount
      && (t == s.crt && n != s ==> n.threads[t].ticks == 0 && !n.threads[t].needReschedule)
      && (t != s.crt ==> n.threads[t].ticks == s.threads[t].ticks
                         && n.threads[t].needReschedule == s.threads[t].needReschedule)
  {
    hide Switch;
    if s.ready != [] {
      SwitchClocks(s, t);
    }
  }

  /** When `schedule` switches. */
  lemma Preemption(s: Sched)
    requires Runnable(s) && s.crt !in s.ready
    ensures Schedule(s).crt != s.crt <==>
              s.threads[s.crt].preemptCount == 0 && s.ready != [] && s.threads[s.crt].needReschedule
    ensures Schedule(s).crt == s.crt ==> Schedule(s) == s
    ensures Schedule(s).crt != s.crt ==> Schedule(s).crt == s.ready[0]
  {
  }

  lemma CurrentNotQueued(s: Sched)
    requires Inv(s)
    ensures s.crt !in s.ready && IDLE !in s.ready
  {
    hide Agrees, DeadListOk;
  }

  /**
   * When an interrupt switches: preemption must be allowed and a thread ready. Then the keyboard always does, the timer
   * with the tick that uses up the slice, and any interrupt if a switch was already asked for.
   */
  lemma InterruptSwitchesExactly(s: Sched, op: Op)
    requires Inv(s) && (op.OpTick? || op.OpKeyboard? || op.OpInterrupt?)
    ensures s.crt in s.threads
    ensures
      var t := s.threads[s.crt];
      && (Step(s, op).crt != s.crt <==>
            && t.preemptCount == 0 && s.ready != []
            && (t.needReschedule || op.OpKeyboard? || (op.OpTick? && t.ticks + 1 >= t.priority)))
      && (Step(s, op).crt != s.crt ==> Step(s, op).crt == s.ready[0])
  {
    InvRunnable(s);
    CurrentNotQueued(s);
    hide Inv, Schedule;
    var t := s.threads[s.crt];
    Preemption(s);
    Preemption(s.(threads := s.threads[s.crt := Ticked(t)]));
    Preemption(s.(threads := s.threads[s.crt := t.(needReschedule := true)]));
  }

  /** The clock of the current thread over a step that leaves it running. */
  lemma ClockRuns(s: Sched, op: Op)
    requires Inv(s) && Enabled(s, op) && s.crt != IDLE && Step(s, op).crt == s.crt
    ensures s.crt in s.threads && s.crt in Step(s, op).threads
    ensures
      var t, t' := s.threads[s.crt], Step(s, op).threads[s.crt];
      && t'.priority == t.priority
      && t'.ticks == t.ticks + (if op == OpTick then 1 else 0)
      && (t'.needReschedule <==>
            t.needReschedule || op == OpKeyboard || (op == OpTick && t.ticks + 1 >= t.priority))
  {
    InvRunnable(s);
    CurrentNotQueued(s);
    StepCurrent(s, op);
    if op.OpTick? || op.OpKeyboard? || op.OpInterrupt? {
      hide Inv, Schedule, Enabled;
      var t := s.threads[s.crt];
      Preemption(s);
      Preemption(s.(threads := s.threads[s.crt := Ticked(t)]));
      Preemption(s.(threads := s.threads[s.crt := t.(needReschedule := true)]));
    } else {
      OtherClock(s, op);
    }
  }

  lemma OtherClock(s: Sched, op: Op)
    requires Inv(s) && Enabled(s, op) && s.crt != IDLE && Step(s, op).crt == s.crt
    requires !op.OpTick? && !op.OpKeyboard? && !op.OpInterrupt?
    ensures s.crt in s.threads && s.crt in Step(s, op).threads
    ensures
      var t, t' := s.threads[s.crt], Step(s, op).threads[s.crt];
      t'.priority == t.priority && t'.ticks == t.ticks && t'.needReschedule == t.needReschedule
  {
    CurrentNotQueued(s);
    CleanerLives(s);
    CleanerWakes(s);
    if op.OpExitSwitch? {
      CleanerCanRun(s);
    }
    hide Inv;
  }

  /**
   * Ticks add up: over a run in which thread `t` stays the current one, its count grows by one with each timer tick and
   * with nothing else, and a switch is asked for exactly by the keyboard or by the tick that uses up the slice.
   */
  lemma {:induction false} TicksAdd(states: seq<Sched>, ops: seq<Op>, t: Tid)
    requires Run(states, ops) && Inv(states[0]) && t != IDLE && forall i :: 0 <= i <= |ops| ==> states[i].crt == t
    ensures t in states[0].threads && t in states[|ops|].threads
    ensures
      var first, last, ticks := states[0].threads[t], states[|ops|].threads[t], multiset(ops)[OpTick];
      && last.priority == first.priority && last.ticks == first.ticks + ticks
      && (last.needReschedule <==>
            first.needReschedule || OpKeyboard in ops || (ticks > 0 && first.ticks + ticks >= first.priority))
    decreases |ops|
  {
    hide Inv, Step, Enabled;
    CurrentExists(states[0]);
    if ops != [] {
      var m := |ops| - 1;
      TicksAdd(states[..|ops|], ops[..m], t);
      RunKeeps(states[..|ops|], ops[..m]);
      assert Next(states[m], ops[m], states[m + 1]);
      ClockRuns(states[m], ops[m]);
      assert ops == ops[..m] + [ops[m]];
    }
  }

  /**
   * So a thread that started with a full slice is preempted by the tick that completes it: exactly by the tick with the
   * number of its priority, or the first one after that at which preemption is allowed and another thread ready.
   */
  lemma SliceExactly(states: seq<Sched>, ops: seq<Op>, t: Tid)
    requires Run(states, ops) && Inv(states[0]) && t != IDLE && forall i :: 0 <= i <= |ops| ==> states[i].crt == t
    requires t in states[0].threads && states[0].threads[t].ticks == 0 && !states[0].threads[t].needReschedule
    requires OpKeyboard !in ops
    ensures
      var s := states[|ops|];
      && Inv(s) && t in s.threads
      && (Step(s, OpTick).crt != t <==>
            && s.threads[t].preemptCount == 0 && s.ready != []
            && multiset(ops)[OpTick] + 1 >= states[0].threads[t].priority)
  {
    TicksAdd(states, ops, t);
    RunKeeps(states, ops);
    hide Inv, Step, Enabled;
    InterruptSwitchesExactly(states[|ops|], OpTick);
  }

  /**
   * However much of the slice was used before, the thread does not outlast it while each tick finds preemption allowed and
   * another thread ready.
   */
  lemma {:induction false} SliceEnds(states: seq<Sched>, ops: seq<Op>, t: Tid)
    requires Run(states, ops) && Inv(states[0]) && t != IDLE && forall i :: 0 <= i <= |ops| ==> states[i].crt == t
    requires t in states[0].threads
    requires forall i :: 0 <= i < |ops| && ops[i] == OpTick ==>
               t in states[i].threads && states[i].threads[t].preemptCount == 0 && states[i].ready != []
    ensures
      var ticks := multiset(ops)[OpTick];
      ticks > 0 ==> states[0].threads[t].ticks + ticks < states[0].threads[t].priority
    decreases |ops|
  {
    hide Inv, Step, Enabled;
    if ops != [] {
      var m := |ops| - 1;
      SliceEnds(states[..|ops|], ops[..m], t);
      TicksAdd(states[..|ops|], ops[..m], t);
      RunKeeps(states[..|ops|], ops[..m]);
      assert Next(states[m], ops[m], states[m + 1]);
      assert ops == ops[..m] + [ops[m]];
      if ops[m] == OpTick {
        InterruptSwitchesExactly(states[m], OpTick);
      }
    }
  }

  /** Only the current thread has used any of its slice. */
  ghost predicate FreshOff(s: Sched) {
    forall t :: t in s.threads && t != s.crt ==> s.threads[t].ticks == 0 && !s.threads[t].needReschedule
  }

  lemma FreshAfterSchedule(s: Sched, t: Thread)
    requires Runnable(s) && FreshOff(s) && t.status == s.StatusOf(s.crt)
    ensures FreshOff(Schedule(s.(threads := s.threads[s.crt := t])))
  {
    hide Schedule;
    var asked := s.(threads := s.threads[s.crt := t]);
    ScheduleMoves(asked);
    var n := Schedule(asked);
    forall u | u in n.threads && u != n.crt
      ensures n.threads[u].ticks == 0 && !n.threads[u].needReschedule
    {
      ScheduleClocks(asked, u);
    }
  }

  lemma FreshAfterInterrupt(s: Sched, op: Op)
    requires Inv(s) && FreshOff(s) && (op.OpTick? || op.OpKeyboard? || op.OpInterrupt?)
    ensures FreshOff(Step(s, op))
  {
    InvRunnable(s);
    hide Inv, Schedule, FreshOff;
    var t := s.threads[s.crt];
    FreshAfterSchedule(s, Ticked(t));
    FreshAfterSchedule(s, t.(needReschedule := true));
    FreshAfterSchedule(s, t);
    assert s.threads[s.crt := t] == s.threads;
  }

  /** `Yield` from a state that differs from a fresh one in a status, the waiting list, the lock or a phase. */
  lemma FreshAfterYield(s: Sched)
    requires Runnable(s) && FreshOff(s)
    ensures FreshOff(Yield(s))
  {
    YieldMoves(s);
    hide Yield;
    forall u | u in s.threads && u != Yield(s).crt
      ensures u in Yield(s).threads && Yield(s).threads[u].ticks == 0 && !Yield(s).threads[u].needReschedule
    {
      YieldClocks(s, u);
    }
  }

  lemma FreshAfterBlock(s: Sched)
    requires Runnable(s) && FreshOff(s) && s.StatusOf(s.crt) != Dead && s.crt != IDLE
    ensures FreshOff(Block(s))
  {
    hide Yield;
    FreshAfterYield(s.WithStatus(s.crt, Waiting));
  }

  lemma FreshAfterLeave(s: Sched)
    requires Inv(s) && Enabled(s, OpExitSwitch) && FreshOff(s)
    ensures FreshOff(Step(s, OpExitSwitch))
  {
    InvRunnable(s);
    CleanerCanRun(s);
    SwitchMoves(s);
    hide Inv, Switch;
    forall u | u in s.threads && u != Switch(s).crt
      ensures u in Switch(s).threads && Switch(s).threads[u].ticks == 0 && !Switch(s).threads[u].needReschedule
    {
      SwitchClocks(s, u);
    }
  }

  lemma FreshAfterOther(s: Sched, op: Op)
    requires Inv(s) && Enabled(s, op) && FreshOff(s) && !OnlyMoves(s, op) && !op.OpCleanerSleep?
    ensures FreshOff(Step(s, op))
  {
    StepCurrent(s, op);
    OtherCurrent(s, op);
    CleanerWakes(s);
    hide Inv, Schedule, Yield, Block, Switch, Tick, KeyboardInterrupt, HoldsNone;
  }

  lemma FreshStep(s: Sched, op: Op)
    requires Inv(s) && Enabled(s, op) && FreshOff(s)
    ensures FreshOff(Step(s, op))
  {
    InvRunnable(s);
    hide Inv, FreshOff, Yield, Block, HoldsNone, Switch, Schedule;
    match op
    case OpTick => FreshAfterInterrupt(s, op);
    case OpKeyboard => FreshAfterInterrupt(s, op);
    case OpInterrupt => FreshAfterInterrupt(s, op);
    case OpBlock => FreshAfterBlock(s);
    case OpExitSwitch => FreshAfterLeave(s);
    case OpCleanerSleep => FreshAsleep(s);
    case _ =>
      if OnlyMoves(s, op) {
        FreshAfterYield(s);
      } else {
        FreshAfterOther(s, op);
      }
  }

  lemma FreshAsleep(s: Sched)
    requires Inv(s) && Enabled(s, OpCleanerSleep) && FreshOff(s)
    ensures FreshOff(Step(s, OpCleanerSleep))
  {
    InvRunnable(s);
    hide Inv, Block;
    FreshAfterBlock(GoesToSleep(s));
  }

  /** So whoever is switched to has a full slice, over every run. */
  lemma {:induction false} SlicesAreFull(states: seq<Sched>, ops: seq<Op>)
    requires Run(states, ops) && Inv(states[0]) && FreshOff(states[0])
    ensures FreshOff(states[|ops|])
    ensures var n := states[|ops|];
            forall t :: t in n.threads && t != n.crt ==> n.threads[t].ticks == 0 && !n.threads[t].needReschedule
    decreases |ops|
  {
    hide Inv, Step, Enabled;
    if ops != [] {
      var m := |ops| - 1;
      SlicesAreFull(states[..|ops|], ops[..m]);
      RunKeeps(states[..|ops|], ops[..m]);
      assert Next(states[m], ops[m], states[m + 1]);
      FreshStep(states[m], ops[m]);
    }
  }

  /** Disabling preemption holds off every interrupt, and enabling it takes exactly that back. */
  lemma PreemptionNests(s: Sched, op: Op)
    requires Inv(s) && (op.OpTick? || op.OpKeyboard? || op.OpInterrupt?)
    ensures Enabled(s, OpDisablePreempt)
    ensures
      var n := Step(s, OpDisablePreempt);
      Inv(n) && Step(n, op).crt == s.crt && Enabled(n, OpEnablePreempt) && Step(n, OpEnablePreempt) == s
  {
    CurrentExists(s);
    StepKeeps(s, OpDisablePreempt);
    var n := Step(s, OpDisablePreempt);
    assert n.threads[s.crt := s.threads[s.crt]] == s.threads;
    InterruptSwitchesExactly(n, op);
    hide Inv, Schedule;
  }

  // ---- The queue ----

  /** Where a yield goes, and where the thread that yields ends up: behind all others, if it can still run. */
  lemma YieldGoes(s: Sched)
    requires Inv(s) && Enabled(s, OpYield)
    ensures
      var n := Step(s, OpYield);
      && n.crt == (if s.ready == [] then IDLE else s.ready[0])
      && n.ready == (if s.ready == [] then [] else s.ready[1..])
                    + (if s.StatusOf(s.crt) == Running && s.crt != IDLE then [s.crt] else [])
  {
    InvRunnable(s);
    hide Inv;
  }

  /** A thread that blocks waits off the queue, and another runs. */
  lemma BlockGoes(s: Sched)
    requires Inv(s) && Enabled(s, OpBlock)
    ensures
      var n := Step(s, OpBlock);
      && n.crt == (if s.ready == [] then IDLE else s.ready[0])
      && s.crt in n.threads && n.StatusOf(s.crt) == Waiting && s.crt != n.crt
      && n.ready == (if s.ready == [] then [] else s.ready[1..]) && s.crt !in n.ready
  {
    InvRunnable(s);
    CurrentNotQueued(s);
    hide Inv;
  }

  /** The two ways back: behind all others, and right behind the first. */
  lemma WakesGo(s: Sched, t: Tid)
    requires Inv(s) && Enabled(s, OpWake(t)) && Enabled(s, OpWakeAfterHead(t))
    ensures
      var n, m := Step(s, OpWake(t)), Step(s, OpWakeAfterHead(t));
      && n.crt == m.crt == s.crt && t in n.threads && n.StatusOf(t) == Ready && t in m.threads && m.StatusOf(t) == Ready
      && n.ready == s.ready + [t]
      && m.ready == (if s.ready == [] then [t] else [s.ready[0]] + [t] + s.ready[1..])
  {
    hide Inv;
  }

  /** A thread that is created is off the queue until it is started, and then it goes behind all others. */
  lemma StartsGo(s: Sched, t: Tid, thread: Thread)
    requires Inv(s) && Enabled(s, OpCreate(t, thread))
    ensures
      var n := Step(s, OpCreate(t, thread));
      Inv(n) && n.ready == s.ready && n.crt == s.crt && Enabled(n, OpStart(t)) &&
      var m := Step(n, OpStart(t));
      && m.crt == s.crt && m.ready == s.ready + [t] && t !in m.unstarted
      && t in m.threads && m.threads[t] == thread.(status := Ready)
  {
    StepKeeps(s, OpCreate(t, thread));
    hide Inv;
  }

  // ---- The locks and the dead lists ----

  /** Which steps take and release the lock of the dead lists and those of memory management. */
  lemma LocksTurn(s: Sched, op: Op)
    requires Inv(s) && Enabled(s, op)
    ensures
      var n := Step(s, op);
      && (n.deadLocked <==> (s.deadLocked || op.OpLock?) && !op.OpUnlock? && !op.OpCleanerSleep? && !op.OpCleanerPass?)
      && (op.OpTakeMemory? ==> n.memory == if op.lock in s.memory then s.memory else s.memory[op.lock := s.crt])
      && (op.OpReleaseMemory? ==> n.memory == s.memory - {op.lock})
      && (!op.OpTakeMemory? && !op.OpReleaseMemory? ==> n.memory == s.memory)
  {
    hide Inv, Step, Enabled;
    CurrentExists(s);
    StepLocks(s, op);
  }

  /** What a step does to the lists of the cleaner: each gains its own at the end, and the cleaner takes all. */
  lemma DeadListsGrow(s: Sched, op: Op)
    requires Inv(s) && Enabled(s, op)
    ensures
      var n := Step(s, op);
      && (op.OpCleanerTake? ==> n.dead == [] && n.deadProcesses == [])
      && (op.OpAppend? && s.StatusOf(s.crt) == Dead ==> n.dead == s.dead + [s.crt] && n.deadProcesses == s.deadProcesses)
      && (op.OpAppend? && s.StatusOf(s.crt) != Dead ==> n.dead == s.dead && n.deadProcesses == s.deadProcesses + [op.pid])
      && (!op.OpCleanerTake? && !op.OpAppend? ==> n.dead == s.dead && n.deadProcesses == s.deadProcesses)
  {
    hide Inv, Step, Enabled;
    StepLocks(s, op);
  }

  /** Over every run without the cleaner's turn, whatever is listed stays listed, in its order. */
  lemma {:induction false} ListsOnlyGrow(states: seq<Sched>, ops: seq<Op>)
    requires Run(states, ops) && Inv(states[0]) && OpCleanerTake !in ops
    ensures states[0].dead <= states[|ops|].dead && states[0].deadProcesses <= states[|ops|].deadProcesses
    decreases |ops|
  {
    hide Inv, Step, Enabled;
    if ops != [] {
      var m := |ops| - 1;
      ListsOnlyGrow(states[..|ops|], ops[..m]);
      RunKeeps(states[..|ops|], ops[..m]);
      assert Next(states[m], ops[m], states[m + 1]);
      DeadListsGrow(states[m], ops[m]);
      assert ops[m] in ops;
    }
  }
}

/** What each scheduling step changes, field by field, whichever thread it switches to (src/task/scheduler.c). */
module SchedulerSteps {
  import opened Machine
  import opened SchedulerSpec
  import opened SchedulerTheorems

  // ---- Switches ----

  /** A switch can only go to a thread that lives. */
  ghost predicate Runnable(s: Sched) {
    && s.crt in s.threads && IDLE in s.threads && s.StatusOf(IDLE) != Dead
    && forall t :: t in s.ready ==> t in s.threads && s.StatusOf(t) != Dead
  }

  /** `n` differs from `s` in who runs, the queue, and bookkeeping of the threads; whoever was switched to runs. */
  ghost predicate Moved(s: Sched, n: Sched) {
    && n.(crt := s.crt, threads := s.threads, ready := s.ready) == s
    && n.threads.Keys == s.threads.Keys && n.crt in n.threads
    && (forall t :: t in s.threads ==> (n.StatusOf(t) == Dead <==> s.StatusOf(t) == Dead))
    && (n.crt != s.crt ==> n.StatusOf(n.crt) == Running)
  }

  lemma InvRunnable(s: Sched)
    requires Inv(s)
    ensures Runnable(s)
  {
    forall t | t in s.ready ensures t in s.threads && s.StatusOf(t) != Dead {
      assert Agrees(s, t);
    }
  }

  lemma SwitchMoves(s: Sched)
    requires Runnable(s) && s.ready != []
    ensures Moved(s, Switch(s))
  {
  }

  lemma YieldMoves(s: Sched)
    requires Runnable(s)
    ensures Moved(s, Yield(s))
  {
    hide Switch;
    SwitchMoves(if s.ready == [] then s.(ready := [IDLE]) else s);
  }

  lemma ScheduleMoves(s: Sched)
    requires Runnable(s)
    ensures Moved(s, Schedule(s))
  {
    hide Switch;
    if s.ready != [] {
      SwitchMoves(s);
    }
  }

  /** Both interrupts change the current thread's bookkeeping first. */
  lemma InterruptMoves(s: Sched, t: Thread)
    requires Runnable(s) && t.status == s.StatusOf(s.crt)
    ensures Moved(s, Schedule(s.(threads := s.threads[s.crt := t])))
  {
    hide Schedule;
    ScheduleMoves(s.(threads := s.threads[s.crt := t]));
  }

  lemma BlockMoves(s: Sched)
    requires Runnable(s) && s.StatusOf(s.crt) != Dead
    ensures Moved(s, Block(s))
  {
    hide Yield;
    YieldMoves(s.WithStatus(s.crt, Waiting));
  }

  // ---- Steps ----

  /** The step is one of those that may switch, and changes nothing but what `Moved` allows. */
  predicate OnlyMoves(s: Sched, op: Op) {
    || op.OpTick? || op.OpKeyboard? || op.OpInterrupt? || op.OpYield? || op.OpBlock? || op.OpExitSwitch?
    || (op.OpLock? && s.deadLocked) || (op.OpTakeMemory? && op.lock in s.memory)
  }

  lemma TickStep(s: Sched)
    requires Inv(s)
    ensures Moved(s, Tick(s))
  {
    InvRunnable(s);
    hide Inv, Moved, Schedule;
    InterruptMoves(s, Ticked(s.threads[s.crt]));
  }

  lemma KeyboardStep(s: Sched)
    requires Inv(s)
    ensures Moved(s, KeyboardInterrupt(s))
  {
    InvRunnable(s);
    hide Inv, Moved, Schedule;
    InterruptMoves(s, s.threads[s.crt].(needReschedule := true));
  }

  lemma InterruptStep(s: Sched, op: Op)
    requires Inv(s) && Enabled(s, op) && (op.OpTick? || op.OpKeyboard? || op.OpInterrupt?)
    ensures Moved(s, Step(s, op))
  {
    InvRunnable(s);
    TickStep(s);
    KeyboardStep(s);
    hide Inv, Enabled, Moved, Schedule, Tick, KeyboardInterrupt;
    ScheduleMoves(s);
  }

  lemma YieldStep(s: Sched, op: Op)
    requires Inv(s) && Enabled(s, op)
    requires op.OpYield? || (op.OpLock? && s.deadLocked) || (op.OpTakeMemory? && op.lock in s.memory)
    ensures Moved(s, Step(s, op))
  {
    InvRunnable(s);
    hide Inv, Moved, Yield;
    YieldMoves(s);
  }

  lemma BlockStep(s: Sched)
    requires Inv(s) && Enabled(s, OpBlock)
    ensures Moved(s, Step(s, OpBlock))
  {
    InvRunnable(s);
    hide Inv, Moved, Block;
    BlockMoves(s);
  }

  lemma LeaveStep(s: Sched)
    requires Inv(s) && Enabled(s, OpExitSwitch)
    ensures Moved(s, Step(s, OpExitSwitch))
  {
    InvRunnable(s);
    CleanerCanRun(s);
    hide Inv, Moved, Switch;
    SwitchMoves(s);
  }

  lemma StepMoves(s: Sched, op: Op)
    requires Inv(s) && Enabled(s, op) && OnlyMoves(s, op)
    ensures Moved(s, Step(s, op))
  {
    hide Inv, Moved, Step, Enabled;
    match op
    case OpTick => InterruptStep(s, op);
    case OpKeyboard => InterruptStep(s, op);
    case OpInterrupt => InterruptStep(s, op);
    case OpBlock => BlockStep(s);
    case OpExitSwitch => LeaveStep(s);
    case _ => YieldStep(s, op);
  }

  /** The cleaner that goes to sleep has released the lock and queued itself first. */
  function GoesToSleep(s: Sched): Sched {
    s.(waiting := s.waiting + [CLEANER], deadLocked := false).WithPhase(CLEANER, Out)
  }

  lemma SleeperMoves(s: Sched, op: Op)
    requires Inv(s) && Enabled(s, op)
    ensures op.OpCleanerSleep? ==> s.crt == CLEANER && Moved(GoesToSleep(s), Step(s, op))
  {
    InvRunnable(s);
    hide Inv, Moved, Block;
    if op.OpCleanerSleep? {
      BlockMoves(GoesToSleep(s));
    }
  }

  /** The phase the current thread is in after the step. */
  function NextPhase(s: Sched, op: Op): Phase
    requires s.crt in s.threads
  {
    var p := s.PhaseOf(s.crt);
    match op
    case OpLock => if s.deadLocked then p else In
    case OpTakeMemory(l) => if l !in s.memory && p == In then Allocating else p
    case OpReleaseMemory(l) => if p == Allocating && l.HeapLock? then Fetched else p
    case OpAppend(_) => Listed
    case OpNotify => Told
    case OpUnlock => if s.StatusOf(s.crt) == Dead then Left else Out
    case OpCleanerSleep => Out
    case OpCleanerPass => Passed
    case OpCleanerTake => Took
    case _ => p
  }

  /** The phases after the step: the current thread's moves, and the cleaner forgets those of the threads it destroys. */
  lemma StepPhases(s: Sched, op: Op)
    requires Inv(s) && Enabled(s, op)
    ensures Step(s, op).PhaseOf(s.crt) == NextPhase(s, op)
    ensures !op.OpCleanerTake? ==> forall t :: t != s.crt ==> Step(s, op).PhaseOf(t) == s.PhaseOf(t)
    ensures op.OpCleanerTake? ==>
              forall t :: t != s.crt ==> Step(s, op).PhaseOf(t) == if t in s.dead then Out else s.PhaseOf(t)
  {
    hide Inv, Step, Enabled;
    CurrentExists(s);
    if OnlyMoves(s, op) {
      StepMoves(s, op);
    } else if op.OpCleanerSleep? {
      SleeperMoves(s, op);
    } else if op.OpCleanerTake? {
      TakePhases(s);
    } else {
      OtherPhases(s, op);
    }
  }

  lemma OtherPhases(s: Sched, op: Op)
    requires Inv(s) && Enabled(s, op) && !OnlyMoves(s, op) && !op.OpCleanerSleep? && !op.OpCleanerTake?
    ensures Step(s, op).PhaseOf(s.crt) == NextPhase(s, op)
    ensures forall t :: t != s.crt ==> Step(s, op).PhaseOf(t) == s.PhaseOf(t)
  {
    hide Inv, Step, Enabled;
    CurrentExists(s);
    if op.OpLock? || op.OpTakeMemory? || op.OpReleaseMemory? {
      LockPhases(s, op);
    } else {
      PlainPhases(s, op);
    }
  }

  lemma LockPhases(s: Sched, op: Op)
    requires Inv(s) && Enabled(s, op) && !OnlyMoves(s, op) && (op.OpLock? || op.OpTakeMemory? || op.OpReleaseMemory?)
    ensures Step(s, op).PhaseOf(s.crt) == NextPhase(s, op)
    ensures forall t :: t != s.crt ==> Step(s, op).PhaseOf(t) == s.PhaseOf(t)
  {
    hide Inv, Yield, HoldsNone;
  }

  lemma PlainPhases(s: Sched, op: Op)
    requires Inv(s) && Enabled(s, op) && !OnlyMoves(s, op) && !op.OpCleanerSleep? && !op.OpCleanerTake?
    requires !op.OpLock? && !op.OpTakeMemory? && !op.OpReleaseMemory?
    ensures Step(s, op).PhaseOf(s.crt) == NextPhase(s, op)
    ensures forall t :: t != s.crt ==> Step(s, op).PhaseOf(t) == s.PhaseOf(t)
  {
    CleanerWakes(s);
    hide Inv, Schedule, Yield, Block, Switch, Tick, KeyboardInterrupt, HoldsNone;
  }

  lemma TakePhases(s: Sched)
    requires Inv(s) && Enabled(s, OpCleanerTake)
    ensures Step(s, OpCleanerTake).PhaseOf(s.crt) == Took
    ensures forall t :: t != s.crt ==> Step(s, OpCleanerTake).PhaseOf(t) == if t in s.dead then Out else s.PhaseOf(t)
  {
    hide Inv;
  }

  /** Who takes and releases what. */
  ghost predicate LocksMove(s: Sched, op: Op, n: Sched)
    requires s.crt in s.threads
  {
    && n.memory == (if op.OpTakeMemory? && op.lock !in s.memory then s.memory[op.lock := s.crt]
                    else if op.OpReleaseMemory? then s.memory - {op.lock} else s.memory)
    && (n.deadLocked <==> (s.deadLocked || op.OpLock?) && !op.OpUnlock? && !op.OpCleanerSleep? && !op.OpCleanerPass?)
    && n.dead == (if op.OpCleanerTake? then [] else if op.OpAppend? && s.StatusOf(s.crt) == Dead then s.dead + [s.crt]
                  else s.dead)
    && n.deadProcesses == (if op.OpCleanerTake? then []
                           else if op.OpAppend? && s.StatusOf(s.crt) != Dead then s.deadProcesses + [op.pid]
                           else s.deadProcesses)
  }

  /** The locks and the lists after the step. */
  lemma StepLocks(s: Sched, op: Op)
    requires Inv(s) && Enabled(s, op)
    ensures LocksMove(s, op, Step(s, op))
  {
    hide Inv, Step, Enabled;
    CurrentExists(s);
    if OnlyMoves(s, op) {
      StepMoves(s, op);
    } else if op.OpCleanerSleep? {
      SleeperMoves(s, op);
    } else if op.OpCleanerTake? {
      TakeLocks(s);
    } else {
      OtherLocks(s, op);
    }
  }

  lemma TakeLocks(s: Sched)
    requires Inv(s) && Enabled(s, OpCleanerTake)
    ensures LocksMove(s, OpCleanerTake, Step(s, OpCleanerTake))
  {
    hide Inv;
  }

  lemma OtherLocks(s: Sched, op: Op)
    requires Inv(s) && Enabled(s, op) && !OnlyMoves(s, op) && !op.OpCleanerSleep? && !op.OpCleanerTake?
    ensures LocksMove(s, op, Step(s, op))
  {
    CleanerWakes(s);
    hide Inv, Schedule, Yield, Block, Switch, Tick, KeyboardInterrupt, HoldsNone;
  }

  /** Threads die by their own marking only, and go only when the cleaner destroys them. */
  lemma StepThreads(s: Sched, op: Op, t: Tid)
    requires Inv(s) && Enabled(s, op) && t in s.threads && (op.OpCleanerTake? ==> t !in s.dead)
    ensures
      var n := Step(s, op);
      t in n.threads && (n.StatusOf(t) == Dead <==> s.StatusOf(t) == Dead || (op.OpMarkDead? && t == s.crt))
  {
    hide Inv, Step, Enabled;
    CurrentExists(s);
    if OnlyMoves(s, op) {
      StepMoves(s, op);
    } else if op.OpCleanerSleep? {
      SleeperMoves(s, op);
    } else {
      OtherThreads(s, op, t);
    }
  }

  lemma OtherThreads(s: Sched, op: Op, t: Tid)
    requires Inv(s) && Enabled(s, op) && t in s.threads && (op.OpCleanerTake? ==> t !in s.dead)
    requires !OnlyMoves(s, op) && !op.OpCleanerSleep?
    ensures
      var n := Step(s, op);
      t in n.threads && (n.StatusOf(t) == Dead <==> s.StatusOf(t) == Dead || (op.OpMarkDead? && t == s.crt))
  {
    CleanerWakes(s);
    CleanerLives(s);
    StartedLive(s);
    hide Inv, Schedule, Yield, Block, Switch, Tick, KeyboardInterrupt, HoldsNone;
  }

  lemma StartedLive(s: Sched)
    requires Inv(s)
    ensures forall t :: t in s.unstarted ==> t in s.threads && s.StatusOf(t) != Dead
  {
    hide Distinct, Agrees, DeadListOk;
  }

  /** A new thread lives and is no part of any phase; a destroyed one was on the dead list. */
  lemma StepDomain(s: Sched, op: Op)
    requires Inv(s) && Enabled(s, op)
    ensures
      var n := Step(s, op);
      && (forall t :: t in n.threads && t !in s.threads ==> n.StatusOf(t) != Dead)
      && (op.OpCleanerTake? ==> forall t :: t in n.threads <==> t in s.threads && t !in s.dead)
  {
    hide Inv, Step, Enabled;
    if OnlyMoves(s, op) {
      StepMoves(s, op);
    } else if op.OpCleanerSleep? {
      SleeperMoves(s, op);
    } else {
      OtherDomain(s, op);
    }
  }

  lemma OtherDomain(s: Sched, op: Op)
    requires Inv(s) && Enabled(s, op) && !OnlyMoves(s, op) && !op.OpCleanerSleep?
    ensures
      var n := Step(s, op);
      && (forall t :: t in n.threads && t !in s.threads ==> n.StatusOf(t) != Dead)
      && (op.OpCleanerTake? ==> forall t :: t in n.threads <==> t in s.threads && t !in s.dead)
  {
    CleanerWakes(s);
    hide Inv, Schedule, Yield, Block, Switch, Tick, KeyboardInterrupt, HoldsNone;
  }

  /** Only those steps change the current thread, and whoever becomes it runs. */
  lemma StepCurrent(s: Sched, op: Op)
    requires Inv(s) && Enabled(s, op)
    ensures
      var n := Step(s, op);
      && n.crt in n.threads && s.crt in n.threads
      && (n.crt != s.crt ==> (OnlyMoves(s, op) || op.OpCleanerSleep?) && n.StatusOf(n.crt) == Running)
  {
    hide Inv, Step, Enabled;
    CurrentExists(s);
    if OnlyMoves(s, op) {
      StepMoves(s, op);
    } else if op.OpCleanerSleep? {
      SleeperMoves(s, op);
    } else {
      OtherCurrent(s, op);
    }
  }

  lemma OtherCurrent(s: Sched, op: Op)
    requires Inv(s) && Enabled(s, op) && !OnlyMoves(s, op) && !op.OpCleanerSleep?
    ensures var n := Step(s, op); n.crt == s.crt && s.crt in n.threads
  {
    CleanerWakes(s);
    CleanerLives(s);
    hide Inv, Schedule, Yield, Block, Switch, Tick, KeyboardInterrupt, HoldsNone;
  }
}

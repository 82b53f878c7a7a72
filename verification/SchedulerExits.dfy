/** How a thread exits, step by step under interrupts, and what becomes of it (src/task/scheduler.c, src/sync/cond_var.c). */
module SchedulerExits {
  import opened SchedulerSpec
  import opened SchedulerTheorems
  import opened SchedulerSteps

  // ---- Exits ----

  /** A dead current thread is not the cleaner. */
  lemma DeadTakesNothing(s: Sched, op: Op)
    requires Inv(s) && Enabled(s, op) && s.StatusOf(s.crt) == Dead
    ensures !op.OpCleanerTake? && !op.OpCleanerSleep? && !op.OpCleanerPass?
  {
    CleanerLives(s);
    hide Inv;
  }

  lemma DeadSwitches(s: Sched, op: Op)
    requires Inv(s) && Enabled(s, op) && s.StatusOf(s.crt) == Dead
    ensures Step(s, op).crt != s.crt <==> Switches(s, op)
  {
    CleanerWakes(s);
    DeadNotQueued(s, s.crt);
    if op.OpExitSwitch? {
      CleanerCanRun(s);
    }
    hide Inv;
  }

  lemma DeadNotQueued(s: Sched, t: Tid)
    requires Inv(s) && t in s.threads && s.StatusOf(t) == Dead
    ensures t != IDLE && t != CLEANER && t !in s.ready && t !in s.unstarted && t !in s.waiting
    ensures s.crt in s.threads && IDLE in s.threads && forall u :: u in s.ready ==> u in s.threads
  {
    CleanerWakes(s);
    assert t !in s.unstarted && t != IDLE;
    assert Agrees(s, t);
  }

  /** What a step does to a dead current thread: only its own append lists it, and it stays current unless there is a switch. */
  lemma ExitingStep(s: Sched, op: Op)
    requires Inv(s) && Enabled(s, op) && s.StatusOf(s.crt) == Dead
    ensures
      var n := Step(s, op);
      && (n.crt != s.crt <==> Switches(s, op))
      && s.crt in n.threads && n.StatusOf(s.crt) == Dead
      && (s.crt in n.dead <==> s.crt in s.dead || op.OpAppend?)
  {
    hide Inv, Step, Enabled, Switches;
    CurrentExists(s);
    DeadTakesNothing(s, op);
    DeadSwitches(s, op);
    StepThreads(s, op, s.crt);
    StepLocks(s, op);
  }

  /** An exiting thread is on the dead list exactly once it has appended itself. */
  lemma ListedWhenAppended(s: Sched)
    requires Inv(s) && Exiting(s, s.crt)
    ensures s.crt in s.dead <==> Appended(s.PhaseOf(s.crt))
  {
  }

  /** `t` has been marked dead and has not been switched away from; its phase is that of `schedule_thread_exit`. */
  ghost predicate Exiting(s: Sched, t: Tid) {
    && s.crt == t && t in s.threads && s.StatusOf(t) == Dead && s.PhaseOf(t) != Passed && s.PhaseOf(t) != Took
    && (Appended(s.PhaseOf(t)) ==> t in s.dead)
    && (s.PhaseOf(t) != Out && s.PhaseOf(t) != Left ==> s.deadLocked)
    && (s.PhaseOf(t) == Allocating ==> HeapLock in s.memory && s.memory[HeapLock] == t)
    && (s.PhaseOf(t) != Allocating ==> HoldsNone(s.memory, t))
  }

  lemma ExitingStays(s: Sched, op: Op)
    requires Inv(s) && Enabled(s, op) && Exiting(s, s.crt) && !Switches(s, op)
    ensures Exiting(Step(s, op), s.crt)
  {
    hide Inv, Step, Switches;
    ExitingStep(s, op);
    DeadTakesNothing(s, op);
    StepPhases(s, op);
    StepLocks(s, op);
  }

  lemma ExitStarts(s: Sched)
    requires Inv(s) && Enabled(s, OpMarkDead)
    ensures var n := Step(s, OpMarkDead); Exiting(n, s.crt) && s.crt !in n.dead && n.PhaseOf(s.crt) == Out
  {
  }

  /** An interrupt on whose way out `schedule` switches. */
  ghost predicate Preempts(s: Sched, op: Op)
    requires Inv(s) && Enabled(s, op)
  {
    (op.OpTick? || op.OpKeyboard? || op.OpInterrupt?) && Switches(s, op)
  }

  /** The lock of the dead lists, of the heap or of a page fault is tried and found taken. */
  ghost predicate FindsTaken(s: Sched, op: Op) {
    (op.OpLock? && s.deadLocked) || (op.OpTakeMemory? && op.lock in s.memory)
  }

  /** The current thread is dead, has not appended itself, and is switched away from. */
  ghost predicate LosesExit(s: Sched, op: Op) {
    && Inv(s) && Enabled(s, op) && s.StatusOf(s.crt) == Dead && !Appended(s.PhaseOf(s.crt))
    && (Preempts(s, op) || FindsTaken(s, op))
  }

  /** Of an exiting thread that has not appended itself, only an interrupt or a lock found taken makes a switch. */
  lemma SwitchesBy(s: Sched, op: Op)
    requires Inv(s) && Enabled(s, op) && s.StatusOf(s.crt) == Dead && !Appended(s.PhaseOf(s.crt))
    ensures Switches(s, op) <==> Preempts(s, op) || FindsTaken(s, op)
  {
    DeadTakesNothing(s, op);
    hide Inv, Step;
  }

  /**
   * When an exit is lost: exactly if a context switch comes before the append. That is an interrupt that switches, or the
   * yield that waits for a lock found taken: that of the dead lists, that of the heap from which the list node comes, or
   * one that a page fault in the heap needs.
   */
  lemma ExitLostExactly(s: Sched, op: Op)
    requires Inv(s) && Enabled(s, op) && Exiting(s, s.crt)
    ensures var n := Step(s, op); (n.crt != s.crt && s.crt !in n.dead) <==> LosesExit(s, op)
  {
    ExitingStep(s, op);
    NotOnList(s);
    ListedWhenAppended(s);
    if !Appended(s.PhaseOf(s.crt)) {
      SwitchesBy(s, op);
    }
  }

  /** What is known of an exiting thread, by its phase. */
  lemma ExitingFacts(s: Sched)
    requires Inv(s) && Exiting(s, s.crt)
    ensures s.crt in s.threads && s.StatusOf(s.crt) == Dead && s.crt != IDLE && s.crt != CLEANER
    ensures Appended(s.PhaseOf(s.crt)) <==> s.crt in s.dead
    ensures s.PhaseOf(s.crt) != Allocating ==> HoldsNone(s.memory, s.crt)
  {
  }

  /** An interrupt of an exiting thread switches it away for good or leaves it exiting; the dead lists stay. */
  lemma TickWhileExiting(s: Sched)
    requires Inv(s) && Exiting(s, s.crt)
    ensures var n := Step(s, OpTick);
            && n.dead == s.dead && n.phases == s.phases && n.deadLocked == s.deadLocked && n.memory == s.memory
            && (n.crt == s.crt ==> Exiting(n, s.crt))
  {
    ExitingStep(s, OpTick);
    if !Switches(s, OpTick) {
      ExitingStays(s, OpTick);
    }
  }

  lemma ExitingLocks(s: Sched)
    requires Inv(s) && Exiting(s, s.crt) && s.PhaseOf(s.crt) == Out
    ensures Enabled(s, OpLock)
    ensures
      var n := Step(s, OpLock);
      && n.dead == s.dead && n.memory == s.memory
      && (if s.deadLocked then n.crt != s.crt else Exiting(n, s.crt) && n.PhaseOf(s.crt) == In)
  {
    ExitingFacts(s);
    ExitingStep(s, OpLock);
  }

  /** The exiting thread tries a lock of memory management: it takes it, or is gone. */
  lemma ExitingTakes(s: Sched, l: MemoryLock)
    requires Inv(s) && Exiting(s, s.crt) && Enabled(s, OpTakeMemory(l))
    ensures
      var n := Step(s, OpTakeMemory(l));
      && n.dead == s.dead && n.deadLocked == s.deadLocked
      && (if l in s.memory then n.crt != s.crt && n.memory == s.memory
          else Exiting(n, s.crt) && n.memory == s.memory[l := s.crt] && n.PhaseOf(s.crt) == Allocating)
  {
    ExitingFacts(s);
    ExitingStep(s, OpTakeMemory(l));
  }

  lemma ExitingReleases(s: Sched, l: MemoryLock)
    requires Inv(s) && Exiting(s, s.crt) && s.PhaseOf(s.crt) == Allocating && Enabled(s, OpReleaseMemory(l))
    ensures
      var n := Step(s, OpReleaseMemory(l));
      && n.dead == s.dead && n.deadLocked == s.deadLocked && n.memory == s.memory - {l}
      && Exiting(n, s.crt) && n.PhaseOf(s.crt) == if l.HeapLock? then Fetched else Allocating
  {
    ExitingFacts(s);
    ExitingStays(s, OpReleaseMemory(l));
  }

  lemma ExitingAppends(s: Sched)
    requires Inv(s) && Exiting(s, s.crt) && s.PhaseOf(s.crt) == Fetched
    ensures Enabled(s, OpAppend(0)) && s.StatusOf(s.crt) == Dead
    ensures var n := Step(s, OpAppend(0)); Exiting(n, s.crt) && n.crt == s.crt && n.PhaseOf(s.crt) == Listed
  {
    ExitingFacts(s);
    ExitingStays(s, OpAppend(0));
  }

  lemma ExitingNotifies(s: Sched)
    requires Inv(s) && Exiting(s, s.crt) && s.PhaseOf(s.crt) == Listed
    ensures Enabled(s, OpNotify)
    ensures var n := Step(s, OpNotify);
            Exiting(n, s.crt) && n.crt == s.crt && n.dead == s.dead && n.PhaseOf(s.crt) == Told
  {
    ExitingStays(s, OpNotify);
  }

  lemma ExitingUnlocks(s: Sched)
    requires Inv(s) && Exiting(s, s.crt) && s.PhaseOf(s.crt) == Told
    ensures Enabled(s, OpUnlock)
    ensures var n := Step(s, OpUnlock);
            Exiting(n, s.crt) && n.crt == s.crt && n.dead == s.dead && n.PhaseOf(s.crt) == Left
  {
    ExitingStays(s, OpUnlock);
  }

  lemma ExitingLeaves(s: Sched)
    requires Inv(s) && Exiting(s, s.crt) && s.PhaseOf(s.crt) == Left
    ensures BeforeSwitch(s) && Switch(s).crt != s.crt && Switch(s).dead == s.dead && s.crt in s.dead
  {
    ExitingFacts(s);
    ExitingStep(s, OpExitSwitch);
    CleanerCanRun(s);
    InvBeforeSwitch(s);
  }

  /** An append is among the operations. */
  predicate Appends(ops: seq<Op>) {
    exists k :: 0 <= k < |ops| && ops[k].OpAppend?
  }

  /** The lock of the dead lists was tried and found free, */
  ghost predicate TakesLock(states: seq<Sched>, ops: seq<Op>)
    requires |states| == |ops| + 1
  {
    exists k :: 0 <= k < |ops| && ops[k].OpLock? && !states[k].deadLocked
  }

  /** and so was that of the heap. */
  ghost predicate TakesHeap(states: seq<Sched>, ops: seq<Op>)
    requires |states| == |ops| + 1
  {
    exists k :: 0 <= k < |ops| && ops[k] == OpTakeMemory(HeapLock) && HeapLock !in states[k].memory
  }

  /** What was done before is done. */
  lemma DoneBefore(states: seq<Sched>, ops: seq<Op>)
    requires |states| == |ops| + 1 && ops != []
    ensures
      var m := |ops| - 1;
      && (Appends(ops) <==> Appends(ops[..m]) || ops[m].OpAppend?)
      && (TakesLock(states, ops) <==> TakesLock(states[..|ops|], ops[..m]) || (ops[m].OpLock? && !states[m].deadLocked))
      && (TakesHeap(states, ops) <==>
            TakesHeap(states[..|ops|], ops[..m]) || (ops[m] == OpTakeMemory(HeapLock) && HeapLock !in states[m].memory))
  {
    var m := |ops| - 1;
    var front, before := ops[..m], states[..|ops|];
    forall k | 0 <= k < m ensures front[k] == ops[k] && before[k] == states[k] {
    }
    assert ops[m].OpAppend? ==> Appends(ops);
    if Appends(front) {
      var k :| 0 <= k < m && front[k].OpAppend?;
      assert ops[k].OpAppend?;
    }
    if TakesLock(before, front) {
      var k :| 0 <= k < m && front[k].OpLock? && !before[k].deadLocked;
      assert ops[k].OpLock? && !states[k].deadLocked;
    }
    if TakesHeap(before, front) {
      var k :| 0 <= k < m && front[k] == OpTakeMemory(HeapLock) && HeapLock !in before[k].memory;
      assert ops[k] == OpTakeMemory(HeapLock) && HeapLock !in states[k].memory;
    }
  }

  /** While an exiting thread is not switched away from, it is on the dead list exactly if it has appended itself. */
  lemma {:induction false} ExitProgress(states: seq<Sched>, ops: seq<Op>)
    requires Run(states, ops) && Inv(states[0]) && ops != [] && ops[0] == OpMarkDead
    requires forall i :: 0 <= i < |states| ==> states[i].crt == states[0].crt
    ensures var s, t := states[|ops|], states[0].crt;
            && Inv(s) && Exiting(s, t) && (t in s.dead <==> Appends(ops))
            && (s.PhaseOf(t) != Out ==> TakesLock(states, ops))
            && (s.PhaseOf(t) != Out && s.PhaseOf(t) != In ==> TakesHeap(states, ops))
    decreases |ops|
  {
    hide Inv, Exiting, Enabled, Step, Appends, TakesLock, TakesHeap;
    var m := |ops| - 1;
    var s, op, t := states[m], ops[m], states[0].crt;
    assert Next(s, op, states[m + 1]);
    DoneBefore(states, ops);
    if m == 0 {
      NothingDone(states[..1]);
      ExitStarts(s);
      StepKeeps(s, op);
    } else {
      ExitProgress(states[..|ops|], ops[..m]);
      StepKeeps(s, op);
      ExitingNow(s, t);
      ExitingStep(s, op);
      ExitingStays(s, op);
      PhaseMoves(s, op, t);
    }
  }

  lemma NothingDone(states: seq<Sched>)
    requires |states| == 1
    ensures !Appends([]) && !TakesLock(states, []) && !TakesHeap(states, [])
  {
  }

  lemma ExitingNow(s: Sched, t: Tid)
    requires Exiting(s, t)
    ensures s.crt == t && t in s.threads && s.StatusOf(t) == Dead
  {
  }

  /** A dead thread leaves its first phase only through the lock, and its second through the heap's, free when tried. */
  lemma PhaseMoves(s: Sched, op: Op, t: Tid)
    requires Inv(s) && Enabled(s, op) && Exiting(s, t)
    ensures s.PhaseOf(t) == Out ==> Step(s, op).PhaseOf(t) == if op.OpLock? && !s.deadLocked then In else Out
    ensures s.PhaseOf(t) == In ==>
              Step(s, op).PhaseOf(t) == if op == OpTakeMemory(HeapLock) && HeapLock !in s.memory then Allocating else In
  {
    hide Inv, Step;
    DeadTakesNothing(s, op);
    StepPhases(s, op);
  }

  /**
   * The fate of an exit, from the marking to the switch that takes the thread off the processor: it is on the dead list
   * if and only if its append came before, and then the locks of the dead lists and of the heap were free when it tried
   * them. Otherwise that switch was an interrupt's, or the yield at a lock it found taken.
   */
  lemma ExitFate(states: seq<Sched>, ops: seq<Op>)
    requires Run(states, ops) && Inv(states[0]) && |ops| > 1 && ops[0] == OpMarkDead
    requires forall i :: 0 <= i < |ops| ==> states[i].crt == states[0].crt
    requires states[|ops|].crt != states[0].crt
    ensures var n, t := states[|ops|], states[0].crt;
            && t in n.threads && n.StatusOf(t) == Dead
            && (t in n.dead <==> Appends(ops))
            && (t in n.dead ==> TakesLock(states, ops) && TakesHeap(states, ops))
            && (t !in n.dead <==> LosesExit(states[|ops| - 1], ops[|ops| - 1]))
  {
    hide Inv, Exiting, Step, Enabled, Appends, TakesLock, TakesHeap, LosesExit;
    var m := |ops| - 1;
    var s, op := states[m], ops[m];
    ExitProgress(states[..|ops|], ops[..m]);
    DoneBefore(states, ops);
    assert Next(s, op, states[m + 1]);
    ExitingNow(s, states[0].crt);
    ExitingStep(s, op);
    ExitLostExactly(s, op);
    ListedWhenAppended(s);
    if op.OpAppend? {
      AppendIsNoSwitch(s, op);
    }
  }

  lemma AppendIsNoSwitch(s: Sched, op: Op)
    requires Inv(s) && Enabled(s, op) && op.OpAppend?
    ensures Step(s, op).crt == s.crt
  {
    hide Inv, Step, Enabled;
    StepCurrent(s, op);
  }

  /** Dead, off the processor, and not on the list of the cleaner. */
  ghost predicate Lost(s: Sched, t: Tid) {
    t in s.threads && s.StatusOf(t) == Dead && t != s.crt && t !in s.dead
  }

  /** A dead thread off the processor stays so, unless the cleaner destroys it. */
  lemma DeadStaysOff(s: Sched, op: Op, t: Tid)
    requires Inv(s) && Enabled(s, op) && t in s.threads && s.StatusOf(t) == Dead && t != s.crt
    requires op.OpCleanerTake? ==> t !in s.dead
    ensures var n := Step(s, op); t in n.threads && n.StatusOf(t) == Dead && t != n.crt
  {
    hide Inv, Step, Enabled;
    StepThreads(s, op, t);
    StepCurrent(s, op);
  }

  /** The dead list grows by the exiting thread's own append only, and is emptied by the cleaner only. */
  lemma DeadListMoves(s: Sched, op: Op)
    requires Inv(s) && Enabled(s, op)
    ensures
      Step(s, op).dead ==
        if op.OpCleanerTake? then [] else if op.OpAppend? && s.StatusOf(s.crt) == Dead then s.dead + [s.crt] else s.dead
  {
    hide Inv, Step, Enabled;
    StepLocks(s, op);
  }

  lemma LostStep(s: Sched, op: Op, t: Tid)
    requires Inv(s) && Enabled(s, op) && Lost(s, t)
    ensures Lost(Step(s, op), t)
  {
    hide Inv, Enabled, Step;
    DeadStaysOff(s, op, t);
    DeadListMoves(s, op);
  }

  /** A dead current thread is in the middle of its exit. */
  ghost predicate CrtExits(s: Sched) {
    s.crt in s.threads && s.StatusOf(s.crt) == Dead ==> Exiting(s, s.crt)
  }

  /** Only the current thread dies, by its own marking, and it stays current. */
  lemma DiesByMarking(s: Sched, op: Op, t: Tid)
    requires Inv(s) && Enabled(s, op) && (t in s.threads ==> s.StatusOf(t) != Dead)
    ensures
      var n := Step(s, op);
      t in n.threads && n.StatusOf(t) == Dead ==> op == OpMarkDead && t == s.crt == n.crt
  {
    hide Inv, Step, Enabled;
    ListIsDead(s);
    StepDomain(s, op);
    StepCurrent(s, op);
    if t in s.threads {
      StepThreads(s, op, t);
    }
  }

  lemma CrtExitsStep(s: Sched, op: Op)
    requires Inv(s) && Enabled(s, op) && CrtExits(s)
    ensures CrtExits(Step(s, op))
  {
    hide Inv, Enabled, Step, Switches, Exiting;
    var n := Step(s, op);
    CurrentExists(s);
    if n.crt in n.threads && n.StatusOf(n.crt) == Dead {
      if s.StatusOf(s.crt) == Dead {
        ExitingStep(s, op);
        if n.crt == s.crt {
          ExitingStays(s, op);
        } else {
          HeadRuns(s, op);
        }
      } else if n.crt == s.crt {
        DiesByMarking(s, op, s.crt);
        ExitStarts(s);
      } else {
        HeadRuns(s, op);
      }
    }
  }

  /** Whoever is switched to runs. */
  lemma HeadRuns(s: Sched, op: Op)
    requires Inv(s) && Enabled(s, op) && Step(s, op).crt != s.crt
    ensures var n := Step(s, op); n.crt in n.threads && n.StatusOf(n.crt) == Running
  {
    hide Inv, Step, Enabled;
    StepCurrent(s, op);
  }

  /** A thread becomes lost exactly by losing its exit. */
  lemma LostStepExactly(s: Sched, op: Op, t: Tid)
    requires Inv(s) && Enabled(s, op) && CrtExits(s)
    ensures Lost(Step(s, op), t) <==> Lost(s, t) || (s.crt == t && LosesExit(s, op))
  {
    hide Inv, Enabled, Step, Exiting, LosesExit;
    CurrentExists(s);
    if Lost(s, t) {
      LostStep(s, op, t);
    } else if t in s.threads && s.StatusOf(t) == Dead {
      if t == s.crt {
        ExitingStep(s, op);
        ExitLostExactly(s, op);
      } else {
        ListedUntilTaken(s, op, t);
      }
    } else {
      DiesByMarking(s, op, t);
      LosesOnlyDead(s, op);
    }
  }

  lemma LosesOnlyDead(s: Sched, op: Op)
    ensures LosesExit(s, op) ==> s.crt in s.threads && s.StatusOf(s.crt) == Dead
  {
  }

  /** Over every run, the lost threads are exactly those that have lost their exit in it, or were lost before. */
  lemma {:induction false} LostExactly(states: seq<Sched>, ops: seq<Op>, t: Tid)
    requires Run(states, ops) && Inv(states[0]) && CrtExits(states[0])
    ensures CrtExits(states[|ops|])
    ensures Lost(states[|ops|], t) <==>
              Lost(states[0], t) || exists i :: 0 <= i < |ops| && states[i].crt == t && LosesExit(states[i], ops[i])
    decreases |ops|
  {
    hide Inv, Lost, Step, Enabled, CrtExits, LosesExit;
    if ops != [] {
      var m := |ops| - 1;
      var front, before := ops[..m], states[..|ops|];
      LostExactly(before, front, t);
      RunKeeps(before, front);
      assert Next(states[m], ops[m], states[m + 1]);
      CrtExitsStep(states[m], ops[m]);
      LostStepExactly(states[m], ops[m], t);
      if i :| 0 <= i < m && before[i].crt == t && LosesExit(before[i], front[i]) {
        assert states[i].crt == t && LosesExit(states[i], ops[i]);
      }
      if i :| 0 <= i < |ops| && states[i].crt == t && LosesExit(states[i], ops[i]) {
        assert i < m ==> before[i].crt == t && LosesExit(before[i], front[i]);
      }
    }
  }

  /** A lost thread is lost for ever: over every run it stays dead, unlisted and undestroyed. */
  lemma {:induction false} LostStaysLost(states: seq<Sched>, ops: seq<Op>, t: Tid)
    requires Run(states, ops) && Inv(states[0]) && Lost(states[0], t)
    ensures Lost(states[|ops|], t)
    decreases |ops|
  {
    hide Inv, Lost, Step;
    if ops != [] {
      var m := |ops| - 1;
      LostStaysLost(states[..|ops|], ops[..m], t);
      RunKeeps(states[..|ops|], ops[..m]);
      assert Next(states[m], ops[m], states[m + 1]);
      LostStep(states[m], ops[m], t);
    }
  }

  /** A listed thread that no longer runs stays listed until the cleaner takes the list and destroys it. */
  lemma ListedUntilTaken(s: Sched, op: Op, t: Tid)
    requires Inv(s) && Enabled(s, op) && t in s.dead && t != s.crt
    ensures var n := Step(s, op);
            if op.OpCleanerTake? then t !in n.threads else t in n.dead && t in n.threads && t != n.crt
  {
    hide Inv;
    ListIsDead(s);
    DeadListMoves(s, op);
    if !op.OpCleanerTake? {
      DeadStaysOff(s, op, t);
    }
  }

  lemma ListIsDead(s: Sched)
    requires Inv(s)
    ensures forall t :: t in s.dead ==> t in s.threads && s.StatusOf(t) == Dead
  {
    OnDeadList(s);
  }

  // ---- The lock of the dead lists ----

  /** Between its lock and its unlock; for the cleaner, up to the second unlock. */
  ghost predicate Inside(s: Sched, t: Tid) {
    s.PhaseOf(t) != Out && s.PhaseOf(t) != Left
  }

  /** The lock is taken, and everyone who could release it is dead and will not run again. */
  ghost predicate Stuck(s: Sched) {
    s.deadLocked && forall t :: t in s.threads && Inside(s, t) ==> s.StatusOf(t) == Dead && t != s.crt
  }

  /** A dead thread inside is switched away from, and everyone else inside is dead as well. */
  ghost predicate TakesLockAway(s: Sched, op: Op) {
    && Inv(s) && Enabled(s, op) && s.StatusOf(s.crt) == Dead && Inside(s, s.crt) && Switches(s, op)
    && forall t :: t in s.threads && Inside(s, t) ==> s.StatusOf(t) == Dead
  }

  /** What a step does to the lock, and to the current thread's being inside. */
  lemma OwnLock(s: Sched, op: Op)
    requires Inv(s) && Enabled(s, op)
    ensures
      var n := Step(s, op);
      && (n.deadLocked <==> (s.deadLocked || op.OpLock?) && !op.OpUnlock? && !op.OpCleanerSleep? && !op.OpCleanerPass?)
      && (Inside(n, s.crt) <==>
            (Inside(s, s.crt) || (op.OpLock? && !s.deadLocked)) && !op.OpUnlock? && !op.OpCleanerSleep?)
      && (op.OpUnlock? || op.OpCleanerSleep? || op.OpCleanerPass? || op.OpCleanerTake? ==> Inside(s, s.crt))
      && (op.OpUnlock? || op.OpCleanerTake? || op.OpCleanerPass? || (op.OpLock? && !s.deadLocked) ==> n.crt == s.crt)
  {
    hide Inv, Step;
    StepLocks(s, op);
    StepPhases(s, op);
    StepCurrent(s, op);
  }

  /** Everyone else stays inside or outside, and dead or not. */
  lemma OthersSame(s: Sched, op: Op)
    requires Inv(s) && Enabled(s, op) && !op.OpCleanerTake?
    ensures
      var n := Step(s, op);
      && (forall t :: t in n.threads && t != s.crt && Inside(n, t) ==> t in s.threads && Inside(s, t))
      && (forall t :: t in s.threads && t != s.crt ==>
            t in n.threads && (Inside(n, t) <==> Inside(s, t)) && (n.StatusOf(t) == Dead <==> s.StatusOf(t) == Dead))
  {
    hide Inv, Step, Enabled;
    var n := Step(s, op);
    StepPhases(s, op);
    forall t | t in s.threads && t != s.crt
      ensures t in n.threads && (n.StatusOf(t) == Dead <==> s.StatusOf(t) == Dead)
    {
      StepThreads(s, op, t);
    }
    PhasesInThreads(s);
  }

  /** As long as the current thread lives, nothing gets stuck. */
  lemma AliveNotStuck(s: Sched, op: Op)
    requires Inv(s) && Enabled(s, op) && s.StatusOf(s.crt) != Dead && !Stuck(s)
    ensures !Stuck(Step(s, op))
  {
    hide Inv, Step, Enabled;
    StepCurrent(s, op);
    if op.OpCleanerTake? {
      CleanerTakesAlive(s);
    } else {
      OwnLock(s, op);
      OthersSame(s, op);
      DiesByMarking(s, op, s.crt);
    }
  }

  /**
   * The lock is taken away for good exactly when a dead thread is switched away from between its lock and its unlock, and
   * nobody alive is there as well.
   */
  lemma DiesWithLock(s: Sched, op: Op)
    requires Inv(s) && Enabled(s, op) && CrtExits(s) && !Stuck(s)
    ensures Stuck(Step(s, op)) <==> TakesLockAway(s, op)
  {
    hide Inv, Step, Enabled, Switches;
    CurrentExists(s);
    if s.StatusOf(s.crt) != Dead {
      AliveNotStuck(s, op);
    } else {
      var n := Step(s, op);
      DeadTakesNothing(s, op);
      OwnLock(s, op);
      OthersSame(s, op);
      ExitingStep(s, op);
      if n.crt != s.crt {
        HeadRuns(s, op);
      }
    }
  }

  lemma CleanerTakesAlive(s: Sched)
    requires Inv(s) && Enabled(s, OpCleanerTake)
    ensures var n := Step(s, OpCleanerTake); s.StatusOf(s.crt) != Dead && n.crt == s.crt && Inside(n, s.crt)
  {
    CleanerLives(s);
    hide Inv, Step;
    StepPhases(s, OpCleanerTake);
    StepCurrent(s, OpCleanerTake);
  }

  /** With the lock stuck nothing moves on the dead lists. */
  lemma StuckMoves(s: Sched, op: Op)
    requires Inv(s) && Enabled(s, op) && Stuck(s)
    ensures
      var n := Step(s, op);
      && n.deadLocked && n.dead == s.dead && n.deadProcesses == s.deadProcesses && !op.OpCleanerTake?
      && forall t :: n.PhaseOf(t) == s.PhaseOf(t)
  {
    hide Inv, Step;
    CurrentExists(s);
    assert !Inside(s, s.crt);
    StepLocks(s, op);
    StepPhases(s, op);
  }

  lemma PhasesInThreads(s: Sched)
    requires Inv(s)
    ensures forall t :: t in s.phases ==> t in s.threads
  {
    hide Agrees, DeadListOk;
  }

  lemma StuckStep(s: Sched, op: Op)
    requires Inv(s) && Enabled(s, op) && Stuck(s)
    ensures var n := Step(s, op); Stuck(n) && n.dead == s.dead && n.deadProcesses == s.deadProcesses
  {
    StuckMoves(s, op);
    PhasesInThreads(s);
    hide Inv, Step, Enabled;
    var n := Step(s, op);
    forall t | t in n.threads && Inside(n, t)
      ensures n.StatusOf(t) == Dead && t != n.crt
    {
      assert Inside(s, t);
      DeadStaysOff(s, op, t);
    }
  }

  /** So over a run from a state with the lock not stuck, it is stuck in the end if and only if it was taken away in it. */
  lemma {:induction false} StuckExactly(states: seq<Sched>, ops: seq<Op>)
    requires Run(states, ops) && Inv(states[0]) && CrtExits(states[0]) && !Stuck(states[0])
    ensures Stuck(states[|ops|]) <==> exists i :: 0 <= i < |ops| && TakesLockAway(states[i], ops[i])
    decreases |ops|
  {
    hide Inv, Stuck, Step, Enabled, CrtExits, TakesLockAway;
    if ops != [] {
      var m := |ops| - 1;
      var front, before := ops[..m], states[..|ops|];
      StuckExactly(before, front);
      RunKeeps(before, front);
      LostExactly(before, front, IDLE);
      assert Next(states[m], ops[m], states[m + 1]);
      if Stuck(states[m]) {
        StuckStep(states[m], ops[m]);
      } else {
        DiesWithLock(states[m], ops[m]);
      }
      if i :| 0 <= i < m && TakesLockAway(before[i], front[i]) {
        assert TakesLockAway(states[i], ops[i]);
      }
      if i :| 0 <= i < |ops| && TakesLockAway(states[i], ops[i]) {
        assert i < m ==> TakesLockAway(before[i], front[i]);
      }
    }
  }

  /** From then on, over every run, the dead lists never change again: every later exit is lost, every dead process kept. */
  lemma {:induction false} StuckForGood(states: seq<Sched>, ops: seq<Op>)
    requires Run(states, ops) && Inv(states[0]) && Stuck(states[0])
    ensures var n := states[|ops|];
            Stuck(n) && n.dead == states[0].dead && n.deadProcesses == states[0].deadProcesses
    decreases |ops|
  {
    hide Inv, Stuck, Step;
    if ops != [] {
      var m := |ops| - 1;
      StuckForGood(states[..|ops|], ops[..m]);
      RunKeeps(states[..|ops|], ops[..m]);
      assert Next(states[m], ops[m], states[m + 1]);
      StuckStep(states[m], ops[m]);
    }
  }

  // ---- When that lock excludes ----

  /** At most one thread is inside, and the lock is taken exactly while there is one. */
  ghost predicate Owned(s: Sched) {
    && (forall t, u :: t in s.threads && u in s.threads && Inside(s, t) && Inside(s, u) ==> t == u)
    && (s.deadLocked <==> exists t :: t in s.threads && Inside(s, t))
  }

  /** Every step keeps this but one: the cleaner that leaves its wait, with the lock released under it. */
  lemma OwnedStep(s: Sched, op: Op)
    requires Inv(s) && Enabled(s, op) && Owned(s)
    ensures Owned(Step(s, op)) <==> !op.OpCleanerPass?
  {
    hide Inv, Step, Enabled;
    var n := Step(s, op);
    CurrentExists(s);
    StepCurrent(s, op);
    OwnLock(s, op);
    forall t: Tid | t != s.crt
      ensures t in n.threads && Inside(n, t) <==> t in s.threads && Inside(s, t)
    {
      if op.OpCleanerTake? {
        PhasesInThreads(s);
        assert t in s.phases ==> t in s.threads;
        assert Inside(s, s.crt);
      }
      InsideElsewhere(s, op, t);
    }
    assert s.deadLocked ==> exists t :: t in s.threads && Inside(s, t);
    if op.OpCleanerPass? {
      assert Inside(n, s.crt);
    }
  }

  lemma InsideElsewhere(s: Sched, op: Op, t: Tid)
    requires Inv(s) && Enabled(s, op) && t != s.crt && (op.OpCleanerTake? ==> !Inside(s, t))
    ensures var n := Step(s, op); t in n.threads && Inside(n, t) <==> t in s.threads && Inside(s, t)
  {
    hide Inv, Step, Enabled;
    PhasesInThreads(s);
    StepPhases(s, op);
    StepDomain(s, op);
    if t in s.threads && (op.OpCleanerTake? ==> t !in s.dead) {
      StepThreads(s, op, t);
    }
  }

  /** Over every run, the lock excludes throughout if and only if the cleaner never leaves its wait. */
  lemma {:induction false} ExcludesExactly(states: seq<Sched>, ops: seq<Op>)
    requires Run(states, ops) && Inv(states[0]) && Owned(states[0])
    ensures (forall i :: 0 <= i <= |ops| ==> Owned(states[i])) <==> forall i :: 0 <= i < |ops| ==> !ops[i].OpCleanerPass?
    decreases |ops|
  {
    hide Inv, Owned, Step, Enabled;
    if ops != [] {
      var m := |ops| - 1;
      var front, before := ops[..m], states[..|ops|];
      ExcludesExactly(before, front);
      RunKeeps(before, front);
      assert Next(states[m], ops[m], states[m + 1]);
      assert forall i :: 0 <= i < m ==> front[i] == ops[i];
      assert forall i :: 0 <= i <= m ==> before[i] == states[i];
      if Owned(states[m]) {
        OwnedStep(states[m], ops[m]);
      }
    }
  }

  // ---- The locks of memory management ----

  /** The lock is taken, by a thread that is lost. */
  ghost predicate MemoryStuck(s: Sched, l: MemoryLock) {
    l in s.memory && Lost(s, s.memory[l])
  }

  /** A lost exit takes with it exactly the locks of memory management it holds. */
  lemma DiesWithMemory(s: Sched, op: Op, l: MemoryLock)
    requires Inv(s) && Enabled(s, op) && CrtExits(s) && !MemoryStuck(s, l)
    ensures MemoryStuck(Step(s, op), l) <==> LosesExit(s, op) && l in s.memory && s.memory[l] == s.crt
  {
    hide Inv, Lost, CrtExits, Step, Enabled, Switches;
    MemoryMoves(s, op, l);
    if l in s.memory {
      LostStepExactly(s, op, s.memory[l]);
    }
    if op == OpTakeMemory(l) && l !in s.memory {
      CurrentIsNotLost(s, op);
    }
  }

  lemma MemoryMoves(s: Sched, op: Op, l: MemoryLock)
    requires Inv(s) && Enabled(s, op)
    ensures
      var n := Step(s, op);
      if op == OpTakeMemory(l) && l !in s.memory then l in n.memory && n.memory[l] == s.crt && n.crt == s.crt
      else if op == OpReleaseMemory(l) then l in s.memory && s.memory[l] == s.crt && n.crt == s.crt && l !in n.memory
      else (l in n.memory <==> l in s.memory) && (l in s.memory ==> n.memory[l] == s.memory[l])
  {
    hide Inv, Step;
    StepLocks(s, op);
    StepCurrent(s, op);
  }

  lemma CurrentIsNotLost(s: Sched, op: Op)
    requires Inv(s) && Enabled(s, op) && op.OpTakeMemory? && op.lock !in s.memory
    ensures !Lost(Step(s, op), s.crt)
  {
    hide Inv, Step, Enabled;
    StepCurrent(s, op);
  }

  /** Such a lock stays taken over every run: whoever needs it yields for ever. */
  lemma {:induction false} MemoryStuckForGood(states: seq<Sched>, ops: seq<Op>, l: MemoryLock)
    requires Run(states, ops) && Inv(states[0]) && MemoryStuck(states[0], l)
    ensures MemoryStuck(states[|ops|], l)
    decreases |ops|
  {
    hide Inv, Lost, Step, Enabled;
    if ops != [] {
      var m := |ops| - 1;
      MemoryStuckForGood(states[..|ops|], ops[..m], l);
      RunKeeps(states[..|ops|], ops[..m]);
      var s := states[m];
      assert Next(s, ops[m], states[m + 1]);
      MemoryMoves(s, ops[m], l);
      LostIsOff(s, s.memory[l]);
      LostStep(s, ops[m], s.memory[l]);
    }
  }

  lemma LostIsOff(s: Sched, t: Tid)
    requires Lost(s, t)
    ensures t != s.crt
  {
  }

  /** Once the lock of the heap is gone in this way, no exit gets its list node any more. */
  lemma NoNodeWithoutHeap(states: seq<Sched>, ops: seq<Op>)
    requires Run(states, ops) && Inv(states[0]) && MemoryStuck(states[0], HeapLock)
    ensures !TakesHeap(states, ops)
  {
    hide Inv, Lost, Step, Enabled;
    forall k | 0 <= k < |ops|
      ensures HeapLock in states[k].memory
    {
      MemoryStuckForGood(states[..k + 1], ops[..k], HeapLock);
    }
  }
}

/** States of the scheduler that the kernel reaches from its start, with what goes wrong in them (src/task/scheduler.c). */
module SchedulerReach {
  import opened SchedulerSpec
  import opened SchedulerTheorems
  import opened SchedulerExits

  // ---- States the kernel reaches ----

  /**
   * Multi-tasking has just been enabled: the idle thread runs, the cleaner is queued. Nothing is known of the word that
   * passes for the lock of no process's page directory.
   */
  ghost predicate Boot(s: Sched) {
    && s.crt == IDLE && s.threads.Keys == {IDLE, CLEANER} && s.StatusOf(IDLE) == Ready && s.StatusOf(CLEANER) == Ready
    && s.ready == [CLEANER] && s.unstarted == {} && s.dead == [] && s.deadProcesses == [] && s.waiting == []
    && !s.deadLocked && s.phases == map[] && forall l :: l in s.memory ==> l == DirectoryLock(0)
  }

  ghost predicate Reachable(s: Sched) {
    exists states: seq<Sched>, ops: seq<Op> :: Run(states, ops) && Boot(states[0]) && states[|ops|] == s
  }

  lemma BootInv(s: Sched)
    requires Boot(s)
    ensures Inv(s)
  {
  }

  lemma BootIsQuiet(s: Sched)
    requires Boot(s)
    ensures CrtExits(s) && !Stuck(s) && Owned(s) && forall t :: !Lost(s, t)
  {
    hide Exiting;
  }

  /**
   * Over every run from the start, exactly: which threads are lost, when the lock of the dead lists is taken for good, and
   * whether it has always excluded.
   */
  lemma ExactlyFromBoot(states: seq<Sched>, ops: seq<Op>)
    requires Run(states, ops) && Boot(states[0])
    ensures forall t :: Lost(states[|ops|], t) <==>
                          exists i :: 0 <= i < |ops| && states[i].crt == t && LosesExit(states[i], ops[i])
    ensures Stuck(states[|ops|]) <==> exists i :: 0 <= i < |ops| && TakesLockAway(states[i], ops[i])
    ensures (forall i :: 0 <= i <= |ops| ==> Owned(states[i])) <==> forall i :: 0 <= i < |ops| ==> !ops[i].OpCleanerPass?
  {
    BootInv(states[0]);
    BootIsQuiet(states[0]);
    hide Inv, Boot, Run, Lost, Stuck, Owned, CrtExits, LosesExit, TakesLockAway;
    forall t: Tid
      ensures Lost(states[|ops|], t) <==>
                exists i :: 0 <= i < |ops| && states[i].crt == t && LosesExit(states[i], ops[i])
    {
      LostExactly(states, ops, t);
    }
    StuckExactly(states, ops);
    ExcludesExactly(states, ops);
  }

  lemma ReachBoot(s: Sched)
    requires Boot(s)
    ensures Reachable(s) && Inv(s)
  {
    BootInv(s);
    hide Inv, Boot;
    var ops: seq<Op> := [];
    assert Run([s], ops) && [s][|ops|] == s;
  }

  lemma ReachStep(s: Sched, op: Op, n: Sched)
    requires Reachable(s) && Inv(s) && Enabled(s, op) && Step(s, op) == n
    ensures Reachable(n) && Inv(n)
  {
    hide Inv, Step, Enabled, Reachable;
    StepKeeps(s, op);
    ReachNext(s, op, n);
  }

  lemma ReachNext(s: Sched, op: Op, n: Sched)
    requires Reachable(s) && Next(s, op, n)
    ensures Reachable(n)
  {
    hide Next, Boot;
    var states: seq<Sched>, ops: seq<Op> :| Run(states, ops) && Boot(states[0]) && states[|ops|] == s;
    RunExtended(states, ops, op, n);
    var states', ops' := states + [n], ops + [op];
    assert Run(states', ops') && Boot(states'[0]) && states'[|ops'|] == n;
  }

  lemma RunExtended(states: seq<Sched>, ops: seq<Op>, op: Op, n: Sched)
    requires Run(states, ops) && Next(states[|ops|], op, n)
    ensures Run(states + [n], ops + [op])
    ensures (states + [n])[0] == states[0] && |states + [n]| == |ops + [op]| + 1 && (states + [n])[|ops + [op]|] == n
  {
    hide Next;
  }

  /** The idle thread, the cleaner and thread 5, which has a time slice of one tick. */
  function World(crt: Tid, cleaner: Status, five: Status, ready: seq<Tid>, locked: bool, phases: map<Tid, Phase>): Sched {
    Sched(crt, map[IDLE := Thread(Ready, 0, 10, false, 0), CLEANER := Thread(cleaner, 0, 10, false, 0),
                   5 := Thread(five, 0, 1, false, 0)],
          ready, {}, [], [], [], locked, map[], phases)
  }

  /** The cleaner and then thread 5 get the processor. */
  lemma FiveRuns()
    ensures Reachable(World(CLEANER, Running, Ready, [5], false, map[])) && Inv(World(CLEANER, Running, Ready, [5], false, map[]))
    ensures Reachable(World(5, Ready, Running, [CLEANER], false, map[])) && Inv(World(5, Ready, Running, [CLEANER], false, map[]))
  {
    hide Inv, Reachable;
    var idle := Thread(Ready, 0, 10, false, 0);
    var five := Thread(Ready, 0, 1, false, 0);
    var boot := Sched(IDLE, map[IDLE := idle, CLEANER := idle], [CLEANER], {}, [], [], [], false, map[], map[]);
    ReachBoot(boot);
    var created := boot.(threads := boot.threads[5 := five], unstarted := {5});
    ReachStep(boot, OpCreate(5, five), created);
    assert created.unstarted - {5} == {};
    ReachStep(created, OpStart(5), World(IDLE, Ready, Ready, [CLEANER, 5], false, map[]));
    ReachStep(World(IDLE, Ready, Ready, [CLEANER, 5], false, map[]), OpYield, World(CLEANER, Running, Ready, [5], false, map[]));
    ReachStep(World(CLEANER, Running, Ready, [5], false, map[]), OpYield, World(5, Ready, Running, [CLEANER], false, map[]));
  }

  /** Thread 5 is marked dead and its slice ends before it has taken the lock, which is free: lost. */
  lemma TickLosesExit()
    ensures var s := World(CLEANER, Running, Dead, [], false, map[]); Reachable(s) && Inv(s) && Lost(s, 5) && !s.deadLocked
  {
    hide Inv, Reachable;
    FiveRuns();
    ReachStep(World(5, Ready, Running, [CLEANER], false, map[]), OpMarkDead, World(5, Ready, Dead, [CLEANER], false, map[]));
    ReachStep(World(5, Ready, Dead, [CLEANER], false, map[]), OpTick, World(CLEANER, Running, Dead, [], false, map[]));
  }

  /** The cleaner takes the lock and is preempted. */
  lemma CleanerHolds()
    ensures var s := World(5, Ready, Running, [CLEANER], true, map[CLEANER := In]); Reachable(s) && Inv(s)
  {
    hide Inv, Reachable;
    FiveRuns();
    var held: map<Tid, Phase> := map[CLEANER := In];
    ReachStep(World(CLEANER, Running, Ready, [5], false, map[]), OpLock, World(CLEANER, Running, Ready, [5], true, held));
    ReachStep(World(CLEANER, Running, Ready, [5], true, held), OpKeyboard, World(5, Ready, Running, [CLEANER], true, held));
  }

  /** Thread 5 is marked dead, finds the lock taken by the cleaner and yields: lost. */
  lemma LockLosesExit()
    ensures var s := World(CLEANER, Running, Dead, [], true, map[CLEANER := In]); Reachable(s) && Inv(s) && Lost(s, 5)
  {
    hide Inv, Reachable;
    CleanerHolds();
    var held: map<Tid, Phase> := map[CLEANER := In];
    ReachStep(World(5, Ready, Running, [CLEANER], true, held), OpMarkDead, World(5, Ready, Dead, [CLEANER], true, held));
    ReachStep(World(5, Ready, Dead, [CLEANER], true, held), OpLock, World(CLEANER, Running, Dead, [], true, held));
  }

  /** Thread 5 is marked dead and takes the lock. */
  lemma FiveDiesInside()
    ensures var s := World(5, Ready, Dead, [CLEANER], true, map[5 := In]); Reachable(s) && Inv(s)
  {
    hide Inv, Reachable;
    FiveRuns();
    ReachStep(World(5, Ready, Running, [CLEANER], false, map[]), OpMarkDead, World(5, Ready, Dead, [CLEANER], false, map[]));
    ReachStep(World(5, Ready, Dead, [CLEANER], false, map[]), OpLock, World(5, Ready, Dead, [CLEANER], true, map[5 := In]));
  }

  /** Then its slice ends: the lock is taken for good. */
  lemma TickTakesLockAway()
    ensures var s := World(CLEANER, Running, Dead, [], true, map[5 := In]); Reachable(s) && Inv(s) && Lost(s, 5) && Stuck(s)
  {
    hide Inv, Reachable;
    FiveDiesInside();
    ReachStep(World(5, Ready, Dead, [CLEANER], true, map[5 := In]), OpTick, World(CLEANER, Running, Dead, [], true, map[5 := In]));
  }

  /**
   * Thread 5 is marked dead, takes both locks, and its slice ends inside the allocation: with the lock of the dead lists
   * that of the heap is taken for good.
   */
  lemma TickTakesHeapAway()
    ensures
      var s := World(CLEANER, Running, Dead, [], true, map[5 := Allocating]).(memory := map[HeapLock := 5]);
      Reachable(s) && Inv(s) && Lost(s, 5) && Stuck(s) && MemoryStuck(s, HeapLock)
  {
    hide Inv, Reachable;
    FiveDiesInside();
    var memory := map[HeapLock := 5];
    var allocating := World(5, Ready, Dead, [CLEANER], true, map[5 := Allocating]).(memory := memory);
    ReachStep(World(5, Ready, Dead, [CLEANER], true, map[5 := In]), OpTakeMemory(HeapLock), allocating);
    ReachStep(allocating, OpTick,
              World(CLEANER, Running, Dead, [], true, map[5 := Allocating]).(memory := memory));
  }

  /** Threads 5 and 6, which is inside `kmalloc`. */
  function World6(crt: Tid, cleaner: Status, five: Status, six: Status, ready: seq<Tid>, locked: bool,
                  phases: map<Tid, Phase>): Sched {
    var s := World(crt, cleaner, five, ready, locked, phases);
    s.(threads := s.threads[6 := Thread(six, 0, 10, false, 0)], memory := map[HeapLock := 6])
  }

  /** Thread 6 gets the processor. */
  lemma SixRuns()
    ensures
      var s := World(6, Ready, Ready, [5, CLEANER], false, map[]);
      var six := s.(threads := s.threads[6 := Thread(Running, 0, 10, false, 0)]);
      Reachable(six) && Inv(six)
  {
    hide Inv, Reachable;
    FiveRuns();
    var five := World(5, Ready, Running, [CLEANER], false, map[]);
    var six := Thread(Ready, 0, 10, false, 0);
    var created := five.(threads := five.threads[6 := six], unstarted := {6});
    ReachStep(five, OpCreate(6, six), created);
    var started := five.(threads := five.threads[6 := six], ready := [CLEANER, 6]);
    assert created.unstarted - {6} == {};
    ReachStep(created, OpStart(6), started);
    var cleaner := World(CLEANER, Running, Ready, [6, 5], false, map[]);
    var cleaning := cleaner.(threads := cleaner.threads[6 := six]);
    ReachStep(started, OpYield, cleaning);
    var s := World(6, Ready, Ready, [5, CLEANER], false, map[]);
    ReachStep(cleaning, OpYield, s.(threads := s.threads[6 := six.(status := Running)]));
  }

  /** It takes the lock of the heap and is preempted inside `kmalloc`; thread 5 gets the processor. */
  lemma SixAllocates()
    ensures var s := World6(5, Ready, Running, Ready, [CLEANER, 6], false, map[]); Reachable(s) && Inv(s)
  {
    hide Inv, Reachable;
    SixRuns();
    var s := World(6, Ready, Ready, [5, CLEANER], false, map[]);
    var six := s.(threads := s.threads[6 := Thread(Running, 0, 10, false, 0)]);
    var allocating := World6(6, Ready, Ready, Running, [5, CLEANER], false, map[]);
    ReachStep(six, OpTakeMemory(HeapLock), allocating);
    ReachStep(allocating, OpKeyboard, World6(5, Ready, Running, Ready, [CLEANER, 6], false, map[]));
  }

  /**
   * Without any interrupt after the marking, and with the lock of the dead lists free: thread 5 is marked dead, takes that
   * lock, and finds the heap's taken by thread 6. It is lost, and the lock of the dead lists with it.
   */
  lemma HeapLosesExit()
    ensures
      var s := World6(5, Ready, Running, Ready, [CLEANER, 6], false, map[]);
      var marked := World6(5, Ready, Dead, Ready, [CLEANER, 6], false, map[]);
      var locked := World6(5, Ready, Dead, Ready, [CLEANER, 6], true, map[5 := In]);
      var gone := World6(CLEANER, Running, Dead, Ready, [6], true, map[5 := In]);
      && Reachable(s) && Run([s, marked, locked, gone], [OpMarkDead, OpLock, OpTakeMemory(HeapLock)])
      && Inv(gone) && Lost(gone, 5) && Stuck(gone)
  {
    hide Inv, Reachable;
    SixAllocates();
    var s := World6(5, Ready, Running, Ready, [CLEANER, 6], false, map[]);
    var marked := World6(5, Ready, Dead, Ready, [CLEANER, 6], false, map[]);
    var locked := World6(5, Ready, Dead, Ready, [CLEANER, 6], true, map[5 := In]);
    var gone := World6(CLEANER, Running, Dead, Ready, [6], true, map[5 := In]);
    ReachStep(s, OpMarkDead, marked);
    ReachStep(marked, OpLock, locked);
    ReachStep(locked, OpTakeMemory(HeapLock), gone);
    hide Step, Enabled;
  }

  /** The same with dead process 7 on its list. */
  function World7(crt: Tid, cleaner: Status, five: Status, ready: seq<Tid>, locked: bool, phases: map<Tid, Phase>): Sched {
    World(crt, cleaner, five, ready, locked, phases).(deadProcesses := [7])
  }

  /** Thread 5, in `add_dead_process`, has the lock and its list node. */
  lemma FiveFetches()
    ensures var s := World(5, Ready, Running, [CLEANER], true, map[5 := Fetched]); Reachable(s) && Inv(s)
  {
    hide Inv, Reachable;
    FiveRuns();
    var locked := World(5, Ready, Running, [CLEANER], true, map[5 := In]);
    ReachStep(World(5, Ready, Running, [CLEANER], false, map[]), OpLock, locked);
    var allocating := locked.(memory := map[HeapLock := 5], phases := map[5 := Allocating]);
    ReachStep(locked, OpTakeMemory(HeapLock), allocating);
    ReachStep(allocating, OpReleaseMemory(HeapLock), locked.(phases := map[5 := Fetched]));
  }

  /** It appends a dead process and notifies the cleaner. */
  lemma FiveNotifies()
    ensures var s := World7(5, Ready, Running, [CLEANER], true, map[5 := Told]); Reachable(s) && Inv(s)
  {
    hide Inv, Reachable;
    FiveFetches();
    var listed := World7(5, Ready, Running, [CLEANER], true, map[5 := Listed]);
    ReachStep(World(5, Ready, Running, [CLEANER], true, map[5 := Fetched]), OpAppend(7), listed);
    ReachStep(listed, OpNotify, World7(5, Ready, Running, [CLEANER], true, map[5 := Told]));
  }

  /** Thread 5 has handed a dead process to the cleaner, which is queued. */
  lemma FiveAdds()
    ensures var s := World7(5, Ready, Running, [CLEANER], false, map[5 := Out]); Reachable(s) && Inv(s)
  {
    hide Inv, Reachable;
    FiveNotifies();
    var told := World7(5, Ready, Running, [CLEANER], true, map[5 := Told]);
    ReachStep(told, OpUnlock, World7(5, Ready, Running, [CLEANER], false, map[5 := Out]));
  }

  /** The cleaner leaves its wait with the lock released, and is preempted. */
  lemma CleanerPasses()
    ensures var s := World7(5, Ready, Running, [CLEANER], false, map[5 := Out, CLEANER := Passed]); Reachable(s) && Inv(s)
  {
    hide Inv, Reachable;
    FiveAdds();
    var s1 := World7(CLEANER, Running, Ready, [5], false, map[5 := Out]);
    ReachStep(World7(5, Ready, Running, [CLEANER], false, map[5 := Out]), OpYield, s1);
    var s2 := World7(CLEANER, Running, Ready, [5], true, map[5 := Out, CLEANER := In]);
    ReachStep(s1, OpLock, s2);
    var s3 := World7(CLEANER, Running, Ready, [5], false, map[5 := Out, CLEANER := Passed]);
    ReachStep(s2, OpCleanerPass, s3);
    ReachStep(s3, OpKeyboard, World7(5, Ready, Running, [CLEANER], false, map[5 := Out, CLEANER := Passed]));
  }

  /** Thread 5 takes the lock, the cleaner runs again and takes the lists. */
  lemma CleanerTakes()
    ensures var s := World(CLEANER, Running, Ready, [5], true, map[5 := In, CLEANER := Took]); Reachable(s) && Inv(s)
  {
    hide Inv, Reachable;
    CleanerPasses();
    var s1 := World7(5, Ready, Running, [CLEANER], true, map[5 := In, CLEANER := Passed]);
    ReachStep(World7(5, Ready, Running, [CLEANER], false, map[5 := Out, CLEANER := Passed]), OpLock, s1);
    var s2 := World7(CLEANER, Running, Ready, [5], true, map[5 := In, CLEANER := Passed]);
    ReachStep(s1, OpKeyboard, s2);
    TakesNoThread(s2);
    ReachStep(s2, OpCleanerTake, World(CLEANER, Running, Ready, [5], true, map[5 := In, CLEANER := Took]));
  }

  /** Without dead threads the cleaner destroys none. */
  lemma TakesNoThread(s: Sched)
    requires Inv(s) && Enabled(s, OpCleanerTake) && s.dead == []
    ensures Step(s, OpCleanerTake) == s.(phases := s.phases[CLEANER := Took], deadProcesses := [])
  {
    assert (map t | t in s.threads && t !in s.dead :: s.threads[t]) == s.threads;
    assert (map t | t in s.phases && t !in s.dead :: s.phases[t]) == s.phases;
    hide Inv;
  }

  /**
   * The lock does not exclude: the cleaner, let out of its wait with the lock released, releases it a second time, while
   * thread 5 is inside, and then enters itself.
   */
  lemma TwoInside()
    ensures var s := World(CLEANER, Running, Ready, [5], true, map[5 := In, CLEANER := In]);
            Reachable(s) && Inv(s) && Inside(s, CLEANER) && Inside(s, 5)
  {
    hide Inv, Reachable;
    CleanerTakes();
    var s1 := World(CLEANER, Running, Ready, [5], false, map[5 := In, CLEANER := Out]);
    ReachStep(World(CLEANER, Running, Ready, [5], true, map[5 := In, CLEANER := Took]), OpUnlock, s1);
    ReachStep(s1, OpLock, World(CLEANER, Running, Ready, [5], true, map[5 := In, CLEANER := In]));
  }
}

/** The scheduler's state and its steps (src/task/scheduler.c, src/interrupt/timer.c, src/sync/cond_var.c). */
module SchedulerSpec {
  import opened Machine

  type Tid = nat

  // The first two threads: the kernel main thread, which idles, and the thread that cleans up dead ones.
  const IDLE: Tid := 0
  const CLEANER: Tid := 1

  datatype Status = Running | Ready | Waiting | Dead

  datatype Thread = Thread(status: Status, ticks: nat, priority: nat, needReschedule: bool, preemptCount: nat)

  /**
   * The locks of memory management that `kmalloc` may need: the heap's own, and, when it touches a page of the heap that
   * is not there yet, those the page fault takes. A dead thread has no process; what a fault then takes for the lock of
   * its page directory is `DirectoryLock(0)`.
   */
  datatype MemoryLock = HeapLock | DirectoryLock(process: nat) | FramesLock

  /**
   * How far a thread is with the dead lists. A running thread in `add_dead_process`, and a dead one in `add_dead_task`,
   * takes their lock (`In`), allocates a list node under the heap's lock (`Allocating`), has it (`Fetched`), appends
   * (`Listed`), notifies (`Told`) and releases the lock; a dead one is then about to switch away (`Left`). The cleaner
   * takes the lock (`In`), leaves `cond_var_wait` with it released (`Passed`), takes the lists (`Took`) and releases the
   * lock again. A thread that does none of this is `Out`.
   */
  datatype Phase = Out | In | Allocating | Fetched | Listed | Told | Left | Passed | Took

  /** The phases of a dead thread that has appended itself. */
  predicate Appended(p: Phase) {
    p == Listed || p == Told || p == Left
  }

  /**
   * The threads, which one runs, and the ready queue. `unstarted` threads are created but not yet enqueued. `dead` and
   * `deadProcesses` wait for the cleaner; `deadLocked` is the lock word meant to protect them, and `waiting` is the
   * condition variable the cleaner sleeps on. `memory` are the locks of memory management that are taken, each with the
   * thread that took it; the code stores only that they are.
   */
  datatype Sched = Sched(crt: Tid, threads: map<Tid, Thread>, ready: seq<Tid>, unstarted: set<Tid>,
                         dead: seq<Tid>, deadProcesses: seq<nat>, waiting: seq<Tid>, deadLocked: bool,
                         memory: map<MemoryLock, Tid>, phases: map<Tid, Phase>) {
    function PhaseOf(t: Tid): Phase {
      if t in phases then phases[t] else Out
    }

    function WithPhase(t: Tid, p: Phase): Sched {
      this.(phases := phases[t := p])
    }

    function WithStatus(t: Tid, st: Status): Sched
      requires t in threads
    {
      this.(threads := threads[t := threads[t].(status := st)])
    }

    function StatusOf(t: Tid): Status
      requires t in threads
    {
      threads[t].status
    }
  }

  /** `do_context_switch`: the head of the ready queue runs; the old thread re-queues if it was still running. */
  function Switch(s: Sched): Sched
    requires s.crt in s.threads && s.ready != [] && s.ready[0] in s.threads
  {
    var head := s.ready[0];
    var leaving := s.threads[s.crt];
    var requeue := leaving.status == Running && s.crt != IDLE;
    var out := leaving.(status := if requeue then Ready else leaving.status, ticks := 0, needReschedule := false);
    var threads := s.threads[s.crt := out];
    s.(crt := head, threads := threads[head := threads[head].(status := Running)],
       ready := s.ready[1..] + if requeue then [s.crt] else [])
  }

  /** `schedule`: switches if preemption is allowed, asked for, and possible. */
  function Schedule(s: Sched): Sched
    requires s.crt in s.threads && forall t :: t in s.ready ==> t in s.threads
  {
    var t := s.threads[s.crt];
    if t.preemptCount == 0 && s.ready != [] && t.needReschedule then Switch(s) else s
  }

  /** One more tick, and a request to reschedule once the slice is used up. */
  function Ticked(t: Thread): Thread {
    t.(ticks := t.ticks + 1, needReschedule := t.needReschedule || t.ticks + 1 >= t.priority)
  }

  /** The timer: a tick, and `schedule`. */
  function Tick(s: Sched): Sched
    requires s.crt in s.threads && forall t :: t in s.ready ==> t in s.threads
  {
    Schedule(s.(threads := s.threads[s.crt := Ticked(s.threads[s.crt])]))
  }

  /** The keyboard interrupt asks for a reschedule whatever the slice. */
  function KeyboardInterrupt(s: Sched): Sched
    requires s.crt in s.threads && forall t :: t in s.ready ==> t in s.threads
  {
    Schedule(s.(threads := s.threads[s.crt := s.threads[s.crt].(needReschedule := true)]))
  }

  /** `schedule_thread_yield`: with nothing ready, the idle thread is queued first. */
  function Yield(s: Sched): Sched
    requires s.crt in s.threads && IDLE in s.threads && forall t :: t in s.ready ==> t in s.threads
  {
    Switch(if s.ready == [] then s.(ready := [IDLE]) else s)
  }

  /** The current thread marks itself waiting and yields; its wait queue is not part of this state. */
  function Block(s: Sched): Sched
    requires s.crt in s.threads && IDLE in s.threads && forall t :: t in s.ready ==> t in s.threads
  {
    Yield(s.WithStatus(s.crt, Waiting))
  }

  /** `add_thread_node_to_schedule`: at the tail, ready unless dead. */
  function Enqueue(s: Sched, t: Tid): Sched
    requires t in s.threads
  {
    (if s.StatusOf(t) != Dead then s.WithStatus(t, Ready) else s).(ready := s.ready + [t])
  }

  /** `add_thread_node_to_schedule_head`: despite the name, after the head. */
  function EnqueueAfterHead(s: Sched, t: Tid): Sched
    requires t in s.threads
  {
    s.WithStatus(t, Ready).(ready := if s.ready == [] then [t] else [s.ready[0], t] + s.ready[1..])
  }

  /** `cond_var_notify` on the cleaner's condition variable. */
  function Notify(s: Sched): Sched
    requires s.waiting != [] ==> s.waiting[0] in s.threads
  {
    if s.waiting == [] then s else Enqueue(s.(waiting := s.waiting[1..]), s.waiting[0])
  }

  datatype Op =
    | OpTick
    | OpKeyboard
    | OpInterrupt
    | OpYield
    | OpBlock
    | OpDisablePreempt
    | OpEnablePreempt
    | OpWake(t: Tid)
    | OpWakeAfterHead(t: Tid)
    | OpCreate(t: Tid, thread: Thread)
    | OpStart(t: Tid)
    | OpMarkDead
    | OpLock
    | OpTakeMemory(lock: MemoryLock)
    | OpReleaseMemory(lock: MemoryLock)
    | OpAppend(pid: nat)
    | OpNotify
    | OpUnlock
    | OpExitSwitch
    | OpCleanerSleep
    | OpCleanerPass
    | OpCleanerTake

  /** The thread has taken none of these locks, or has released them again. */
  ghost predicate HoldsNone(memory: map<MemoryLock, Tid>, t: Tid) {
    forall l :: l in memory ==> memory[l] != t
  }

  /** When the kernel takes the step: the caller's side conditions, each on the state before. */
  ghost predicate Enabled(s: Sched, op: Op)
    requires s.crt in s.threads
  {
    var status, phase := s.StatusOf(s.crt), s.PhaseOf(s.crt);
    match op
    case OpTick => true
    case OpKeyboard => true
    // Any other interrupt, a system call or a page fault: `schedule` on the way out.
    case OpInterrupt => true
    case OpYield => status != Dead
    case OpBlock => s.crt != IDLE && s.crt != CLEANER && status == Running && phase == Out && HoldsNone(s.memory, s.crt)
    case OpDisablePreempt => true
    case OpEnablePreempt => s.threads[s.crt].preemptCount > 0
    case OpWake(t) => t in s.threads && t != IDLE && s.StatusOf(t) == Waiting && t !in s.waiting && t !in s.unstarted
    case OpWakeAfterHead(t) =>
      t in s.threads && t != IDLE && s.StatusOf(t) == Waiting && t !in s.waiting && t !in s.unstarted
    case OpCreate(t, thread) =>
      && t !in s.threads && thread.status == Ready && thread.ticks == 0 && !thread.needReschedule
      && thread.preemptCount == 0
    case OpStart(t) => t in s.unstarted
    case OpMarkDead => s.crt != IDLE && s.crt != CLEANER && status == Running && phase == Out && HoldsNone(s.memory, s.crt)
    case OpLock => s.crt != IDLE && (status == Running || status == Dead) && phase == Out
    // Running threads allocate, free and fault at any time; on the way to the dead lists the node is allocated first,
    // with faults inside the allocation only.
    case OpTakeMemory(l) =>
      && s.crt != IDLE && (l in s.memory ==> s.memory[l] != s.crt)
      && ((phase == Out && status == Running) || (phase == In && s.crt != CLEANER && l.HeapLock?)
          || (phase == Allocating && !l.HeapLock?))
    case OpReleaseMemory(l) =>
      && l in s.memory && s.memory[l] == s.crt
      && (phase == Out || (phase == Allocating && (l.HeapLock? ==> HoldsNone(s.memory - {l}, s.crt))))
    case OpAppend(_) => s.crt != CLEANER && phase == Fetched
    case OpNotify => phase == Listed
    case OpUnlock => phase == Told || (s.crt == CLEANER && phase == Took)
    case OpExitSwitch => status == Dead && phase == Left
    case OpCleanerSleep => s.crt == CLEANER && status == Running && phase == In && s.dead == [] && s.deadProcesses == []
    case OpCleanerPass => s.crt == CLEANER && phase == In && (s.dead != [] || s.deadProcesses != [])
    case OpCleanerTake => s.crt == CLEANER && phase == Passed
  }

  /** The step. */
  ghost function Step(s: Sched, op: Op): Sched
    requires Inv(s) && Enabled(s, op)
  {
    match op
    case OpTick => Tick(s)
    case OpKeyboard => KeyboardInterrupt(s)
    case OpInterrupt => Schedule(s)
    case OpYield => Yield(s)
    case OpBlock => Block(s)
    case OpDisablePreempt => s.(threads := s.threads[s.crt := s.threads[s.crt].(preemptCount := s.threads[s.crt].preemptCount + 1)])
    case OpEnablePreempt => s.(threads := s.threads[s.crt := s.threads[s.crt].(preemptCount := s.threads[s.crt].preemptCount - 1)])
    case OpWake(t) => Enqueue(s, t)
    case OpWakeAfterHead(t) => EnqueueAfterHead(s, t)
    case OpCreate(t, thread) => s.(threads := s.threads[t := thread], unstarted := s.unstarted + {t})
    case OpStart(t) => Enqueue(s.(unstarted := s.unstarted - {t}), t)
    case OpMarkDead => s.WithStatus(s.crt, Dead)
    // The exchange; a thread that finds the lock taken yields, and a dead one is not scheduled again.
    case OpLock => if s.deadLocked then Yield(s) else s.(deadLocked := true).WithPhase(s.crt, In)
    // The same exchange on a lock of memory management.
    case OpTakeMemory(l) =>
      if l in s.memory then Yield(s) else
      var n := s.(memory := s.memory[l := s.crt]);
      if s.PhaseOf(s.crt) == In then n.WithPhase(s.crt, Allocating) else n
    case OpReleaseMemory(l) =>
      var n := s.(memory := s.memory - {l});
      if s.PhaseOf(s.crt) == Allocating && l.HeapLock? then n.WithPhase(s.crt, Fetched) else n
    case OpAppend(pid) =>
      (if s.StatusOf(s.crt) == Dead then s.(dead := s.dead + [s.crt]) else s.(deadProcesses := s.deadProcesses + [pid]))
      .WithPhase(s.crt, Listed)
    case OpNotify => Notify(s).WithPhase(s.crt, Told)
    // Whoever took it.
    case OpUnlock => s.(deadLocked := false).WithPhase(s.crt, if s.StatusOf(s.crt) == Dead then Left else Out)
    case OpExitSwitch => CleanerCanRun(s); Switch(s)
    case OpCleanerSleep => Block(s.(waiting := s.waiting + [CLEANER], deadLocked := false).WithPhase(CLEANER, Out))
    case OpCleanerPass => s.(deadLocked := false).WithPhase(CLEANER, Passed)
    case OpCleanerTake =>
      s.(threads := map t | t in s.threads && t !in s.dead :: s.threads[t],
         phases := (map t | t in s.phases && t !in s.dead :: s.phases[t])[CLEANER := Took], dead := [], deadProcesses := [])
  }

  // ---- The invariant ----

  /** Status and queue agree for a thread that has been started. */
  ghost predicate Agrees(s: Sched, t: Tid)
    requires t in s.threads
  {
    && (s.StatusOf(t) == Ready <==> t in s.ready)
    && (s.StatusOf(t) == Running ==> t == s.crt)
  }

  /** A thread on the dead list is dead and has appended itself. */
  ghost predicate DeadListOk(s: Sched) {
    && Distinct(s.dead)
    && (forall t :: t in s.dead ==>
          t in s.threads && s.StatusOf(t) == Dead && Appended(s.PhaseOf(t)))
  }

  ghost predicate Inv(s: Sched) {
    && IDLE in s.threads && CLEANER in s.threads && s.crt in s.threads
    && CLEANER !in s.unstarted && s.crt !in s.unstarted && IDLE !in s.unstarted
    && (forall t :: t in s.unstarted ==> t in s.threads && s.StatusOf(t) != Dead)
    && Distinct(s.ready) && (forall t :: t in s.ready ==> t in s.threads && t !in s.unstarted)
    && IDLE !in s.ready && s.crt !in s.ready
    && (forall t :: t in s.threads && t != IDLE && t !in s.unstarted ==> Agrees(s, t))
    && s.StatusOf(IDLE) != Dead
    && (s.crt != IDLE ==> s.StatusOf(s.crt) == Running || s.StatusOf(s.crt) == Dead)
    && s.StatusOf(CLEANER) != Dead
    && (s.waiting == [] || s.waiting == [CLEANER])
    && (s.StatusOf(CLEANER) == Waiting <==> s.waiting == [CLEANER])
    && s.phases.Keys <= s.threads.Keys && DeadListOk(s)
    && (s.StatusOf(s.crt) == Dead && (s.PhaseOf(s.crt) == Told || s.PhaseOf(s.crt) == Left) ==> s.waiting == [])
  }

  /** Once it has notified, whoever is exiting leaves a ready cleaner behind: the queue it switches from is not empty. */
  lemma CleanerCanRun(s: Sched)
    requires Inv(s) && s.StatusOf(s.crt) == Dead
    ensures s.ready != [] || s.waiting != []
    ensures s.ready == [] ==> s.waiting == [CLEANER] && s.StatusOf(CLEANER) == Waiting
    ensures s.PhaseOf(s.crt) == Told || s.PhaseOf(s.crt) == Left ==> CLEANER in s.ready
  {
    assert Agrees(s, CLEANER);
  }
}

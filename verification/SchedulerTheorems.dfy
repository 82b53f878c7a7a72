/** What every scheduling step keeps, and how long a ready thread waits (src/task/scheduler.c). */
module SchedulerTheorems {
  import opened Machine
  import opened SchedulerSpec

  // ---- Every step keeps status and queue in agreement ----

  /** The invariant as it stands just before a context switch: the current thread may have blocked, the idle one be queued. */
  ghost predicate BeforeSwitch(s: Sched) {
    && IDLE in s.threads && CLEANER in s.threads && s.crt in s.threads
    && CLEANER !in s.unstarted && s.crt !in s.unstarted && IDLE !in s.unstarted
    && (forall t :: t in s.unstarted ==> t in s.threads && s.StatusOf(t) != Dead)
    && Distinct(s.ready) && (forall t :: t in s.ready ==> t in s.threads && t !in s.unstarted)
    && s.ready != [] && (IDLE in s.ready ==> s.ready == [IDLE]) && (s.crt in s.ready ==> s.crt == IDLE)
    && (forall t :: t in s.threads && t != IDLE && t !in s.unstarted ==> Agrees(s, t))
    && s.StatusOf(IDLE) != Dead
    && s.StatusOf(CLEANER) != Dead
    && (s.waiting == [] || s.waiting == [CLEANER])
    && (s.StatusOf(CLEANER) == Waiting <==> s.waiting == [CLEANER])
    && s.phases.Keys <= s.threads.Keys && DeadListOk(s)
  }

  lemma SwitchQueue(s: Sched)
    requires BeforeSwitch(s)
    ensures var n := Switch(s);
            && Distinct(n.ready) && IDLE !in n.ready && n.crt !in n.ready && n.crt == s.ready[0]
            && forall t :: t in n.ready <==>
                             (t in s.ready && t != n.crt) || (t == s.crt && t != IDLE && s.StatusOf(t) == Running)
  {
    var n := Switch(s);
    var head := s.ready[0];
    assert s.ready == [head] + s.ready[1..];
    assert n.ready == s.ready[1..] || n.ready == s.ready[1..] + [s.crt];
  }

  lemma SwitchThreads(s: Sched)
    requires BeforeSwitch(s)
    ensures var n, head := Switch(s), s.ready[0];
            && n.threads.Keys == s.threads.Keys
            && n.(crt := s.crt, threads := s.threads, ready := s.ready) == s
            && (forall t :: t in s.threads ==>
                              n.StatusOf(t) == if t == head then Running
                                               else if t == s.crt && t != IDLE && s.StatusOf(t) == Running then Ready
                                               else s.StatusOf(t))
  {
  }

  lemma SwitchIsPossible(s: Sched)
    requires BeforeSwitch(s)
    ensures s.crt in s.threads && s.ready != [] && s.ready[0] in s.threads
  {
  }

  lemma SwitchKeeps(s: Sched)
    requires BeforeSwitch(s)
    ensures Inv(Switch(s))
  {
    hide Distinct, Switch;
    var n := Switch(s);
    SwitchQueue(s);
    SwitchThreads(s);
    assert s.ready[0] != IDLE ==> Agrees(s, s.ready[0]);
    forall t | t in n.threads && t != IDLE && t !in n.unstarted ensures Agrees(n, t) {
      assert Agrees(s, t);
    }
  }

  lemma DistinctAfterHead(q: seq<Tid>, t: Tid)
    requires Distinct(q) && t !in q
    ensures Distinct(q + [t]) && (q != [] ==> Distinct([q[0], t] + q[1..]))
    ensures forall u :: u in q + [t] <==> u in q || u == t
    ensures if q == [] then q + [t] == [t] else forall u :: u in [q[0], t] + q[1..] <==> u in q || u == t
  {
    assert q != [] ==> q == [q[0]] + q[1..];
  }

  /** The dead list is untouched, and so are the threads on it. */
  lemma DeadListSame(s: Sched, n: Sched)
    requires DeadListOk(s) && n.dead == s.dead && n.phases == s.phases
    requires forall t :: t in s.dead ==> t in n.threads && n.StatusOf(t) == Dead
    ensures DeadListOk(n)
  {
  }

  lemma OnDeadList(s: Sched)
    requires DeadListOk(s)
    ensures forall t :: t in s.dead ==> t in s.threads && s.StatusOf(t) == Dead
  {
  }

  /** A waiting thread joins the queue somewhere. */
  lemma Enqueued(s: Sched, t: Tid, q: seq<Tid>)
    requires Inv(s) && t in s.threads && t != IDLE && s.StatusOf(t) == Waiting && t !in s.waiting && t !in s.unstarted
    requires Distinct(q) && forall u :: u in q <==> u in s.ready || u == t
    ensures Inv(s.WithStatus(t, Ready).(ready := q))
  {
    hide Distinct, DeadListOk;
    var n := s.WithStatus(t, Ready).(ready := q);
    assert Agrees(s, t);
    OnDeadList(s);
    DeadListSame(s, n);
    forall u | u in n.threads && u != IDLE && u !in n.unstarted ensures Agrees(n, u) {
      assert Agrees(s, u);
    }
  }

  lemma EnqueueKeeps(s: Sched, t: Tid)
    requires Inv(s) && t in s.threads && t != IDLE && s.StatusOf(t) == Waiting && t !in s.waiting && t !in s.unstarted
    ensures Inv(Enqueue(s, t))
  {
    NotQueued(s, t);
    hide Inv, Distinct;
    DistinctAfterHead(s.ready, t);
    Enqueued(s, t, s.ready + [t]);
  }

  lemma EnqueueAfterHeadKeeps(s: Sched, t: Tid)
    requires Inv(s) && t in s.threads && t != IDLE && s.StatusOf(t) == Waiting && t !in s.waiting && t !in s.unstarted
    ensures Inv(EnqueueAfterHead(s, t))
  {
    NotQueued(s, t);
    hide Inv, Distinct;
    DistinctAfterHead(s.ready, t);
    Enqueued(s, t, if s.ready == [] then [t] else [s.ready[0], t] + s.ready[1..]);
  }

  lemma NotQueued(s: Sched, t: Tid)
    requires Inv(s) && t in s.threads && t != IDLE && t !in s.unstarted && s.StatusOf(t) != Ready
    ensures Distinct(s.ready) && t !in s.ready
  {
    assert Agrees(s, t);
  }

  /** The cleaner's wakeup, while it sleeps on the condition variable. */
  lemma NotifyKeeps(s: Sched)
    requires Inv(s)
    ensures Inv(Notify(s)) && Notify(s).crt == s.crt
    ensures s.ready != [] || s.waiting != [] ==> Notify(s).ready != []
  {
    if s.waiting != [] {
      assert Agrees(s, CLEANER);
      var n := Notify(s);
      forall u | u in n.threads && u != IDLE && u !in n.unstarted ensures Agrees(n, u) {
        assert Agrees(s, u);
      }
    }
  }

  lemma InvBeforeSwitch(s: Sched)
    requires Inv(s) && s.ready != []
    ensures BeforeSwitch(s)
  {
  }

  /** What a yield needs: with the idle thread queued if nothing else is, a switch can be made. */
  ghost predicate YieldReady(s: Sched) {
    BeforeSwitch(if s.ready == [] then s.(ready := [IDLE]) else s)
  }

  lemma InvYieldReady(s: Sched)
    requires Inv(s)
    ensures YieldReady(s)
  {
    var q := if s.ready == [] then s.(ready := [IDLE]) else s;
    forall t | t in q.threads && t != IDLE && t !in q.unstarted ensures Agrees(q, t) {
      assert Agrees(s, t);
    }
  }

  lemma YieldKeeps(s: Sched)
    requires Inv(s)
    ensures Inv(Yield(s))
  {
    hide Switch;
    InvYieldReady(s);
    SwitchKeeps(if s.ready == [] then s.(ready := [IDLE]) else s);
  }

  /** The current thread blocks; `w` is the condition variable's queue, with the cleaner on it if it is the one. */
  lemma BlockKeeps(s: Sched, w: seq<Tid>)
    requires Inv(s) && s.crt != IDLE && s.StatusOf(s.crt) == Running
    requires w == if s.crt == CLEANER || s.StatusOf(CLEANER) == Waiting then [CLEANER] else []
    ensures s.crt in s.threads && IDLE in s.threads && (forall t :: t in s.ready ==> t in s.threads)
    ensures YieldReady(s.(waiting := w).WithStatus(s.crt, Waiting)) && Inv(Block(s.(waiting := w)))
  {
    hide Switch, BeforeSwitch;
    BlockedReady(s, w);
    hide Inv;
    var b := s.(waiting := w).WithStatus(s.crt, Waiting);
    SwitchKeeps(if b.ready == [] then b.(ready := [IDLE]) else b);
  }

  lemma BlockedReady(s: Sched, w: seq<Tid>)
    requires Inv(s) && s.crt != IDLE && s.StatusOf(s.crt) == Running
    requires w == if s.crt == CLEANER || s.StatusOf(CLEANER) == Waiting then [CLEANER] else []
    ensures s.crt in s.threads && IDLE in s.threads && (forall t :: t in s.ready ==> t in s.threads)
    ensures YieldReady(s.(waiting := w).WithStatus(s.crt, Waiting))
  {
    hide DeadListOk;
    assert Agrees(s, s.crt);
    var b := s.(waiting := w).WithStatus(s.crt, Waiting);
    OnDeadList(s);
    var q := if b.ready == [] then b.(ready := [IDLE]) else b;
    DeadListSame(s, q);
    forall t | t in q.threads && t != IDLE && t !in q.unstarted ensures Agrees(q, t) {
      assert Agrees(s, t);
    }
  }

  /** Steps that leave the ready queue and every started thread's status alone. */
  lemma SameStatusKeeps(s: Sched, n: Sched)
    requires Inv(s) && n.crt == s.crt && n.ready == s.ready && n.unstarted == s.unstarted && n.waiting == s.waiting
    requires n.threads.Keys == s.threads.Keys && forall t :: t in s.threads ==> n.StatusOf(t) == s.StatusOf(t)
    requires n.phases == s.phases && (n.dead == s.dead || n.dead == [])
    ensures Inv(n)
  {
    forall t | t in n.threads && t != IDLE && t !in n.unstarted ensures Agrees(n, t) {
      assert Agrees(s, t);
    }
  }

  lemma ScheduleKeeps(s: Sched)
    requires Inv(s)
    ensures Inv(Schedule(s))
  {
    hide Switch;
    if s.ready != [] {
      InvBeforeSwitch(s);
      SwitchKeeps(s);
    }
  }

  lemma TickKeeps(s: Sched)
    requires Inv(s)
    ensures Inv(Tick(s)) && Inv(KeyboardInterrupt(s))
  {
    hide Schedule;
    var t := s.threads[s.crt];
    SameStatusKeeps(s, s.(threads := s.threads[s.crt := Ticked(t)]));
    ScheduleKeeps(s.(threads := s.threads[s.crt := Ticked(t)]));
    SameStatusKeeps(s, s.(threads := s.threads[s.crt := t.(needReschedule := true)]));
    ScheduleKeeps(s.(threads := s.threads[s.crt := t.(needReschedule := true)]));
  }

  lemma MarkDeadKeeps(s: Sched)
    requires Inv(s) && Enabled(s, OpMarkDead)
    ensures Inv(s.WithStatus(s.crt, Dead))
  {
    var n := s.WithStatus(s.crt, Dead);
    assert Agrees(s, s.crt);
    forall t | t in n.threads && t != IDLE && t !in n.unstarted ensures Agrees(n, t) {
      assert Agrees(s, t);
    }
  }

  // ---- The steps on the dead lists ----

  /** A step that moves only the current thread's phase, and perhaps the dead list, the lock and the processes. */
  lemma PhaseKeeps(s: Sched, n: Sched)
    requires Inv(s) && n.crt == s.crt && n.threads == s.threads && n.ready == s.ready && n.unstarted == s.unstarted
    requires n.waiting == s.waiting && n.phases == s.phases[s.crt := n.PhaseOf(s.crt)]
    requires n.dead == s.dead || (n.dead == s.dead + [s.crt] && s.crt !in s.dead && s.StatusOf(s.crt) == Dead)
    requires s.crt in n.dead ==> Appended(n.PhaseOf(s.crt))
    requires s.StatusOf(s.crt) == Dead && (n.PhaseOf(s.crt) == Told || n.PhaseOf(s.crt) == Left) ==> n.waiting == []
    ensures Inv(n)
  {
    forall t | t in n.threads && t != IDLE && t !in n.unstarted ensures Agrees(n, t) {
      assert Agrees(s, t);
    }
    forall t | t in n.dead
      ensures t in n.threads && n.StatusOf(t) == Dead
      ensures Appended(n.PhaseOf(t))
    {
      assert t in s.dead || t == s.crt;
      assert t != s.crt ==> n.PhaseOf(t) == s.PhaseOf(t);
    }
  }

  lemma LockKeeps(s: Sched)
    requires Inv(s) && Enabled(s, OpLock)
    ensures Inv(Step(s, OpLock))
  {
    if s.deadLocked {
      YieldKeeps(s);
    } else {
      hide Inv;
      NotOnList(s);
      PhaseKeeps(s, s.(deadLocked := true).WithPhase(s.crt, In));
    }
  }

  lemma NotOnList(s: Sched)
    requires Inv(s)
    ensures s.crt in s.threads
    ensures s.crt in s.dead ==> s.StatusOf(s.crt) == Dead
    ensures s.crt in s.dead ==> Appended(s.PhaseOf(s.crt))
    ensures s.StatusOf(s.crt) == Dead && (s.PhaseOf(s.crt) == Told || s.PhaseOf(s.crt) == Left) ==> s.waiting == []
  {
  }

  /** The locks of memory management play no part in the invariant. */
  lemma MemoryKeeps(s: Sched, memory: map<MemoryLock, Tid>)
    requires Inv(s)
    ensures Inv(s.(memory := memory))
  {
    SameStatusKeeps(s, s.(memory := memory));
  }

  lemma TakeMemoryKeeps(s: Sched, l: MemoryLock)
    requires Inv(s) && Enabled(s, OpTakeMemory(l))
    ensures Inv(Step(s, OpTakeMemory(l)))
  {
    if l in s.memory {
      YieldKeeps(s);
    } else {
      NotOnList(s);
      MemoryKeeps(s, s.memory[l := s.crt]);
      hide Inv;
      if s.PhaseOf(s.crt) == In {
        PhaseKeeps(s, Step(s, OpTakeMemory(l)));
      }
    }
  }

  lemma ReleaseMemoryKeeps(s: Sched, l: MemoryLock)
    requires Inv(s) && Enabled(s, OpReleaseMemory(l))
    ensures Inv(Step(s, OpReleaseMemory(l)))
  {
    NotOnList(s);
    MemoryKeeps(s, s.memory - {l});
    hide Inv;
    if s.PhaseOf(s.crt) == Allocating {
      if l.HeapLock? {
        PhaseKeeps(s, Step(s, OpReleaseMemory(l)));
      }
    }
  }

  lemma AppendKeeps(s: Sched, pid: nat)
    requires Inv(s) && Enabled(s, OpAppend(pid))
    ensures Inv(Step(s, OpAppend(pid)))
  {
    NotOnList(s);
    hide Inv;
    PhaseKeeps(s, Step(s, OpAppend(pid)));
  }

  lemma NotifyStepKeeps(s: Sched)
    requires Inv(s) && Enabled(s, OpNotify)
    ensures Inv(Step(s, OpNotify))
  {
    NotifyKeeps(s);
    var q := Notify(s);
    NotOnList(q);
    PhaseKeeps(q, q.WithPhase(s.crt, Told));
  }

  lemma UnlockKeeps(s: Sched)
    requires Inv(s) && Enabled(s, OpUnlock)
    ensures Inv(Step(s, OpUnlock))
  {
    NotOnList(s);
    CleanerLives(s);
    hide Inv;
    PhaseKeeps(s, Step(s, OpUnlock));
  }

  lemma ExitSwitchKeeps(s: Sched)
    requires Inv(s) && Enabled(s, OpExitSwitch)
    ensures s.ready != [] && Inv(Switch(s))
  {
    hide Switch;
    CleanerCanRun(s);
    InvBeforeSwitch(s);
    SwitchKeeps(s);
  }

  lemma StartKeeps(s: Sched, t: Tid)
    requires Inv(s) && t in s.unstarted
    ensures Inv(Enqueue(s.(unstarted := s.unstarted - {t}), t))
  {
    var n := Enqueue(s.(unstarted := s.unstarted - {t}), t);
    forall u | u in n.threads && u != IDLE && u !in n.unstarted ensures Agrees(n, u) {
      assert u != t ==> Agrees(s, u);
    }
  }

  lemma CreateKeeps(s: Sched, t: Tid, thread: Thread)
    requires Inv(s) && t !in s.threads && thread.status != Dead
    ensures Inv(s.(threads := s.threads[t := thread], unstarted := s.unstarted + {t}))
  {
    var n := s.(threads := s.threads[t := thread], unstarted := s.unstarted + {t});
    forall u | u in n.threads && u != IDLE && u !in n.unstarted ensures Agrees(n, u) {
      assert Agrees(s, u);
    }
  }

  lemma CleanerTakeKeeps(s: Sched)
    requires Inv(s) && Enabled(s, OpCleanerTake)
    ensures Inv(Step(s, OpCleanerTake))
  {
    var n := Step(s, OpCleanerTake);
    forall t | t in s.ready ensures t !in s.dead {
      assert Agrees(s, t);
    }
    forall u | u in n.threads && u != IDLE && u !in n.unstarted ensures Agrees(n, u) {
      assert Agrees(s, u);
    }
  }

  lemma CleanerSleepKeeps(s: Sched)
    requires Inv(s) && Enabled(s, OpCleanerSleep)
    ensures Inv(Step(s, OpCleanerSleep))
  {
    BlockWaiting(s);
    var q := s.(deadLocked := false).WithPhase(CLEANER, Out);
    NotOnList(s);
    PhaseKeeps(s, q);
    hide Inv;
    BlockKeeps(q, [CLEANER]);
    assert s.(waiting := s.waiting + [CLEANER], deadLocked := false).WithPhase(CLEANER, Out) == q.(waiting := [CLEANER]);
  }

  /** Every step keeps status and queue in agreement; `Switch` is never reached with an empty queue. */
  lemma StepKeeps(s: Sched, op: Op)
    requires Inv(s) && Enabled(s, op)
    ensures Inv(Step(s, op))
  {
    hide Switch, Schedule, Inv, Distinct;
    CurrentExists(s);
    match op
    case OpTick => TickKeeps(s);
    case OpKeyboard => TickKeeps(s);
    case OpInterrupt => ScheduleKeeps(s);
    case OpYield => YieldKeeps(s);
    case OpBlock => BlockWaiting(s); BlockKeeps(s, s.waiting);
    case OpDisablePreempt => SameStatusKeeps(s, Step(s, op));
    case OpEnablePreempt => SameStatusKeeps(s, Step(s, op));
    case OpWake(t) => EnqueueKeeps(s, t);
    case OpWakeAfterHead(t) => EnqueueAfterHeadKeeps(s, t);
    case OpCreate(t, thread) => CreateKeeps(s, t, thread);
    case OpStart(t) => StartKeeps(s, t);
    case OpMarkDead => MarkDeadKeeps(s);
    case OpLock => LockKeeps(s);
    case OpTakeMemory(l) => TakeMemoryKeeps(s, l);
    case OpReleaseMemory(l) => ReleaseMemoryKeeps(s, l);
    case OpAppend(pid) => AppendKeeps(s, pid);
    case OpNotify => NotifyStepKeeps(s);
    case OpUnlock => UnlockKeeps(s);
    case OpExitSwitch => ExitSwitchKeeps(s);
    case OpCleanerSleep => CleanerSleepKeeps(s);
    case OpCleanerPass => UnlockPassKeeps(s);
    case OpCleanerTake => CleanerTakeKeeps(s);
  }

  lemma UnlockPassKeeps(s: Sched)
    requires Inv(s) && Enabled(s, OpCleanerPass)
    ensures Inv(Step(s, OpCleanerPass))
  {
    NotOnList(s);
    CleanerLives(s);
    hide Inv;
    PhaseKeeps(s, Step(s, OpCleanerPass));
  }

  lemma CleanerLives(s: Sched)
    requires Inv(s)
    ensures CLEANER in s.threads && s.StatusOf(CLEANER) != Dead && CLEANER !in s.dead
  {
  }

  lemma CurrentExists(s: Sched)
    requires Inv(s)
    ensures s.crt in s.threads && IDLE in s.threads && forall t :: t in s.ready ==> t in s.threads
  {
  }

  lemma BlockWaiting(s: Sched)
    requires Inv(s) && s.crt in s.threads && s.StatusOf(s.crt) == Running
    ensures s.waiting == if s.StatusOf(CLEANER) == Waiting then [CLEANER] else []
    ensures s.crt == CLEANER ==> s.waiting == []
  {
  }

  ghost predicate Run(states: seq<Sched>, ops: seq<Op>) {
    && |states| == |ops| + 1
    && forall i :: 0 <= i < |ops| ==> Next(states[i], ops[i], states[i + 1])
  }

  /** From a state that keeps the invariant the step is enabled and leads to `n`. */
  ghost predicate Next(s: Sched, op: Op, n: Sched) {
    Inv(s) ==> Enabled(s, op) && n == Step(s, op)
  }

  lemma {:induction false} RunKeeps(states: seq<Sched>, ops: seq<Op>)
    requires Run(states, ops) && Inv(states[0])
    ensures Inv(states[|ops|])
  {
    if ops != [] {
      var m := |ops| - 1;
      RunKeeps(states[..|ops|], ops[..m]);
      assert Next(states[m], ops[m], states[m + 1]);
      StepKeeps(states[m], ops[m]);
    }
  }

  // ---- Switches and wakeups ----

  /** The step makes a context switch. */
  ghost predicate Switches(s: Sched, op: Op)
    requires Inv(s) && Enabled(s, op)
  {
    var t := s.threads[s.crt];
    match op
    case OpTick => t.preemptCount == 0 && s.ready != [] && (t.needReschedule || t.ticks + 1 >= t.priority)
    case OpKeyboard => t.preemptCount == 0 && s.ready != []
    case OpInterrupt => t.preemptCount == 0 && s.ready != [] && t.needReschedule
    case OpYield => true
    case OpBlock => true
    case OpLock => s.deadLocked
    case OpTakeMemory(l) => l in s.memory
    case OpExitSwitch => true
    case OpCleanerSleep => true
    case _ => false
  }

  lemma CleanerWakes(s: Sched)
    requires Inv(s)
    ensures s.waiting == [] || s.waiting == [CLEANER]
    ensures CLEANER in s.threads
    ensures s.ready == [] && s.StatusOf(s.crt) == Dead ==> s.waiting == [CLEANER]
  {
    assert Agrees(s, CLEANER);
  }

  /**
   * Queueing a started thread keeps status and queue in agreement exactly if it was waiting: a thread that is ready would
   * be queued twice, and a dead one once more.
   */
  lemma WakeKeepsExactly(s: Sched, t: Tid)
    requires Inv(s) && t in s.threads && t !in s.unstarted && t != IDLE && t != s.crt && t !in s.dead && t !in s.waiting
    ensures Inv(Enqueue(s, t)) <==> s.StatusOf(t) == Waiting
  {
    assert Agrees(s, t);
    var n := Enqueue(s, t);
    if s.StatusOf(t) == Waiting {
      EnqueueKeeps(s, t);
    } else if s.StatusOf(t) == Ready {
      var i :| 0 <= i < |s.ready| && s.ready[i] == t;
      assert n.ready[i] == n.ready[|s.ready|];
      assert !Distinct(n.ready);
    } else {
      assert n.ready[|s.ready|] == t;
      assert !Agrees(n, t);
    }
  }

  // ---- Bounded waiting ----

  /**
   * If wakeups only append at the tail, a step without a switch leaves a ready thread where it is in the queue, and a
   * step with one moves it up by one place, or makes it the current thread if it was at the head.
   */
  lemma StepMovesUp(s: Sched, op: Op, k: nat)
    requires Inv(s) && Enabled(s, op) && !op.OpWakeAfterHead? && k < |s.ready|
    ensures var n := Step(s, op);
            if !Switches(s, op) then k < |n.ready| && n.ready[k] == s.ready[k]
            else if k == 0 then n.crt == s.ready[0]
            else k - 1 < |n.ready| && n.ready[k - 1] == s.ready[k]
  {
    hide Inv, Distinct;
    CurrentExists(s);
    CleanerWakes(s);
  }

  /** How many context switches the run makes. */
  ghost function CountSwitches(states: seq<Sched>, ops: seq<Op>): nat
    requires |states| == |ops| + 1
  {
    if ops == [] then 0 else
    var m := |ops| - 1;
    CountSwitches(states[..|ops|], ops[..m])
    + (if Inv(states[m]) && Enabled(states[m], ops[m]) && Switches(states[m], ops[m]) then 1 else 0)
  }

  /**
   * Bounded waiting: whatever mix of yields, preemptions, blocks, exits and wakeups at the tail happens, the thread at
   * place `k` of the ready queue has moved up one place per context switch,
   */
  lemma {:induction false} WaitsItsTurn(states: seq<Sched>, ops: seq<Op>, k: nat)
    requires Run(states, ops) && Inv(states[0]) && k < |states[0].ready|
    requires forall i :: 0 <= i < |ops| ==> !ops[i].OpWakeAfterHead?
    requires CountSwitches(states, ops) <= k
    ensures var final, j := states[|ops|], k - CountSwitches(states, ops);
            j < |final.ready| && final.ready[j] == states[0].ready[k]
  {
    hide Inv, Step, Switches;
    if ops != [] {
      var m := |ops| - 1;
      var front := states[..|ops|];
      assert CountSwitches(front, ops[..m]) <= CountSwitches(states, ops);
      WaitsItsTurn(front, ops[..m], k);
      RunKeeps(front, ops[..m]);
      assert Next(states[m], ops[m], states[m + 1]);
      StepMovesUp(states[m], ops[m], k - CountSwitches(front, ops[..m]));
    }
  }

  /** and the context switch number `k + 1` makes it the current thread. */
  lemma TurnComes(states: seq<Sched>, ops: seq<Op>, k: nat)
    requires Run(states, ops) && Inv(states[0]) && k < |states[0].ready|
    requires forall i :: 0 <= i < |ops| ==> !ops[i].OpWakeAfterHead?
    requires ops != [] && CountSwitches(states, ops) == k + 1 && CountSwitches(states[..|ops|], ops[..|ops| - 1]) == k
    ensures states[|ops|].crt == states[0].ready[k]
  {
    hide Inv, Step;
    var m := |ops| - 1;
    WaitsItsTurn(states[..|ops|], ops[..m], k);
    RunKeeps(states[..|ops|], ops[..m]);
    assert Next(states[m], ops[m], states[m + 1]);
    StepMovesUp(states[m], ops[m], 0);
  }
}

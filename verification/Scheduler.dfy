/** The scheduler as it updates its globals in place (src/task/scheduler.c). */
module Schedulers {
  import opened SchedulerSpec
  import opened SchedulerTheorems
  import opened SchedulerExits
  import opened SchedulerReach

  class Scheduler {
    var crt: Tid
    var threads: map<Tid, Thread>
    var ready: seq<Tid>
    var dead: seq<Tid>
    var deadProcesses: seq<nat>
    var waiting: seq<Tid>
    var deadLocked: bool
    /** The locks of memory management that are taken; the code stores only that they are, not by whom. */
    var memory: map<MemoryLock, Tid>

    /** Created, and not yet added to the schedule. */
    ghost var unstarted: set<Tid>
    /** Where each thread is with the dead lists. */
    ghost var phases: map<Tid, Phase>

    ghost function State(): Sched
      reads this
    {
      Sched(crt, threads, ready, unstarted, dead, deadProcesses, waiting, deadLocked, memory, phases)
    }

    ghost predicate Valid()
      reads this
    {
      Inv(State())
    }

    /** The kernel main thread alone, with the cleaner created and queued by it. */
    constructor (idle: Thread, cleaner: Thread)
      requires idle.status == Ready && cleaner.status == Ready
      ensures Valid() && crt == IDLE && ready == [CLEANER] && Boot(State())
    {
      crt := IDLE;
      threads := map[IDLE := idle, CLEANER := cleaner];
      ready := [CLEANER];
      dead, deadProcesses, waiting, deadLocked := [], [], [], false;
      memory, unstarted, phases := map[], {}, map[];
    }

    /** `do_context_switch`, entered with interrupts disabled and never with an empty queue. */
    method DoContextSwitch()
      requires BeforeSwitch(State())
      modifies this
      ensures State() == Switch(old(State())) && Valid()
    {
      hide Inv, BeforeSwitch;
      ghost var s := State();
      SwitchIsPossible(s);
      SwitchKeeps(s);
      var oldThread := crt;
      var head := ready[0];
      ready := ready[1..];
      if threads[oldThread].status == Running && crt != IDLE {
        threads := threads[oldThread := threads[oldThread].(status := Ready)];
        ready := ready + [crt];
      }
      threads := threads[oldThread := threads[oldThread].(ticks := 0)];
      threads := threads[oldThread := threads[oldThread].(needReschedule := false)];
      ghost var was := s.threads[oldThread];
      assert threads == s.threads[oldThread := was.(status := if was.status == Running && oldThread != IDLE then Ready else was.status,
                                                    ticks := 0, needReschedule := false)];
      threads := threads[head := threads[head].(status := Running)];
      crt := head;
    }

    /** `schedule`. */
    method Schedule()
      requires Valid()
      modifies this
      ensures State() == SchedulerSpec.Schedule(old(State())) && Valid()
    {
      if threads[crt].preemptCount > 0 {
        return;
      }
      var needContextSwitch := false;
      if |ready| > 0 {
        needContextSwitch := threads[crt].needReschedule;
      }
      if needContextSwitch {
        InvBeforeSwitch(State());
        DoContextSwitch();
      }
    }

    /** The timer interrupt: `timer_callback`, then `schedule`. */
    method TimerTick()
      requires Valid()
      modifies this
      ensures State() == Step(old(State()), OpTick) && Valid()
    {
      hide Inv, Switch;
      ghost var s := State();
      CurrentExists(s);
      threads := threads[crt := threads[crt].(ticks := threads[crt].ticks + 1)];
      if threads[crt].ticks >= threads[crt].priority {
        threads := threads[crt := threads[crt].(needReschedule := true)];
      }
      assert threads == s.threads[s.crt := Ticked(s.threads[s.crt])];
      SameStatusKeeps(s, State());
      Schedule();
    }

    /** The last statement of `keyboard_interrupt_handler`, then `schedule`. */
    method KeyboardTick()
      requires Valid()
      modifies this
      ensures State() == Step(old(State()), OpKeyboard) && Valid()
    {
      hide Inv, Switch;
      ghost var s := State();
      CurrentExists(s);
      threads := threads[crt := threads[crt].(needReschedule := true)];
      SameStatusKeeps(s, State());
      Schedule();
    }

    /** `schedule_thread_yield`, which also switches away from a thread that has blocked or died. */
    method ScheduleThreadYield()
      requires YieldReady(State())
      modifies this
      ensures State() == Yield(old(State())) && Valid()
    {
      if |ready| == 0 {
        ready := ready + [IDLE];
      }
      DoContextSwitch();
    }

    /** `schedule_mark_thread_block`, then the yield that follows it once the wait queue's lock is released. */
    method BlockCurrent()
      requires Valid() && Enabled(State(), OpBlock)
      modifies this
      ensures State() == Step(old(State()), OpBlock) && Valid()
    {
      BlockWaiting(State());
      BlockKeeps(State(), waiting);
      threads := threads[crt := threads[crt].(status := Waiting)];
      ScheduleThreadYield();
    }

    /** `add_thread_node_to_schedule`. */
    method AddThreadNodeToSchedule(t: Tid)
      requires t in threads
      modifies this`threads, this`ready
      ensures State() == Enqueue(old(State()), t)
    {
      if threads[t].status != Dead {
        threads := threads[t := threads[t].(status := Ready)];
      }
      ready := ready + [t];
    }

    /** `add_thread_node_to_schedule_head`: inserts after the head node. */
    method AddThreadNodeToScheduleHead(t: Tid)
      requires t in threads
      modifies this`threads, this`ready
      ensures State() == EnqueueAfterHead(old(State()), t)
    {
      threads := threads[t := threads[t].(status := Ready)];
      ready := if |ready| == 0 then [t] else [ready[0]] + [t] + ready[1..];
    }

    /** `cond_var_notify` on the cleaner's condition variable. */
    method CondVarNotify()
      requires waiting != [] ==> waiting[0] in threads
      modifies this`waiting, this`threads, this`ready
      ensures State() == Notify(old(State()))
    {
      if |waiting| != 0 {
        var head := waiting[0];
        waiting := waiting[1..];
        AddThreadNodeToSchedule(head);
      }
    }

    // ---- Exit ----

    /** `thread->status = TASK_DEAD`. */
    method MarkDead()
      requires Valid() && Enabled(State(), OpMarkDead)
      modifies this`threads
      ensures State() == Step(old(State()), OpMarkDead) && Valid()
    {
      MarkDeadKeeps(State());
      threads := threads[crt := threads[crt].(status := Dead)];
    }

    /** One exchange on the lock of the dead lists, and the yield if it was taken. */
    method LockDead() returns (locked: bool)
      requires Valid() && Enabled(State(), OpLock)
      modifies this
      ensures State() == Step(old(State()), OpLock) && Valid() && locked == !old(deadLocked)
    {
      LockKeeps(State());
      InvYieldReady(State());
      hide Inv;
      if deadLocked {
        ScheduleThreadYield();
        return false;
      }
      deadLocked := true;
      phases := phases[crt := In];
      return true;
    }

    /** One exchange on a lock of memory management, and the yield if it was taken. */
    method TakeMemory(l: MemoryLock) returns (taken: bool)
      requires Valid() && Enabled(State(), OpTakeMemory(l))
      modifies this
      ensures State() == Step(old(State()), OpTakeMemory(l)) && Valid() && taken == (l !in old(memory))
    {
      TakeMemoryKeeps(State(), l);
      InvYieldReady(State());
      hide Inv, HoldsNone;
      if l in memory {
        ScheduleThreadYield();
        return false;
      }
      memory := memory[l := crt];
      if crt in phases && phases[crt] == In {
        phases := phases[crt := Allocating];
      }
      return true;
    }

    method ReleaseMemory(l: MemoryLock)
      requires Valid() && Enabled(State(), OpReleaseMemory(l))
      modifies this`memory, this`phases
      ensures State() == Step(old(State()), OpReleaseMemory(l)) && Valid()
    {
      ReleaseMemoryKeeps(State(), l);
      hide Inv, HoldsNone;
      memory := memory - {l};
      if l.HeapLock? && crt in phases && phases[crt] == Allocating {
        phases := phases[crt := Fetched];
      }
    }

    /** The node for the thread goes to the end of `dead_tasks`. */
    method AppendDeadTask()
      requires Valid() && Enabled(State(), OpAppend(0)) && threads[crt].status == Dead
      modifies this`dead, this`phases
      ensures State() == Step(old(State()), OpAppend(0)) && Valid()
    {
      AppendKeeps(State(), 0);
      dead := dead + [crt];
      phases := phases[crt := Listed];
    }

    /** `cond_var_notify(&dead_resource_cv)`. */
    method NotifyCleaner()
      requires Valid() && Enabled(State(), OpNotify)
      modifies this`waiting, this`threads, this`ready, this`phases
      ensures State() == Step(old(State()), OpNotify) && Valid()
    {
      NotifyStepKeeps(State());
      CondVarNotify();
      phases := phases[crt := Told];
    }

    method UnlockDead()
      requires Valid() && Enabled(State(), OpUnlock)
      modifies this`deadLocked, this`phases
      ensures State() == Step(old(State()), OpUnlock) && Valid()
    {
      UnlockKeeps(State());
      deadLocked := false;
      phases := phases[crt := if threads[crt].status == Dead then Left else Out];
    }

    /** As many timer interrupts as `ticks` says for this place, or as many as it takes to be switched away. */
    method Interrupted(ticks: nat -> nat, at: nat) returns (away: bool, next: nat)
      requires Valid() && Exiting(State(), crt)
      modifies this
      ensures Valid() && away == (crt != old(crt)) && next == at + 1
      ensures dead == old(dead) && phases == old(phases) && deadLocked == old(deadLocked) && memory == old(memory)
      ensures !away ==> Exiting(State(), crt)
      ensures ticks(at) == 0 ==> !away
    {
      away, next := false, at + 1;
      var t := crt;
      for i := 0 to ticks(at)
        invariant Valid() && crt == t && Exiting(State(), crt)
        invariant dead == old(dead) && phases == old(phases) && deadLocked == old(deadLocked) && memory == old(memory)
      {
        TickWhileExiting(State());
        TimerTick();
        if crt != t {
          away := true;
          return;
        }
      }
    }

    /** An exiting thread inside its allocation tries a further lock, after interrupts: it has it, or is gone. */
    method TryLock(l: MemoryLock, ticks: nat -> nat, at: nat) returns (taken: bool, next: nat)
      requires Valid() && Exiting(State(), crt) && State().PhaseOf(crt) == Allocating
      requires !l.HeapLock? && (l in memory ==> memory[l] != crt)
      modifies this
      ensures Valid() && dead == old(dead)
      ensures taken ==> crt == old(crt) && Exiting(State(), crt) && State().PhaseOf(crt) == Allocating
                        && l !in old(memory) && memory == old(memory)[l := crt]
      ensures !taken ==> crt != old(crt)
      ensures ticks(at) == 0 ==> (taken <==> l !in old(memory))
    {
      hide Inv, Exiting, Step, Enabled, HoldsNone;
      var away;
      away, next := Interrupted(ticks, at);
      if away {
        return false, next;
      }
      MayTake(State(), l);
      ExitingTakes(State(), l);
      taken := TakeMemory(l);
    }

    /** It releases that lock, after interrupts. */
    method DropLock(l: MemoryLock, ticks: nat -> nat, at: nat) returns (through: bool, next: nat)
      requires Valid() && Exiting(State(), crt) && State().PhaseOf(crt) == Allocating
      requires !l.HeapLock? && l in memory && memory[l] == crt
      modifies this
      ensures Valid() && dead == old(dead)
      ensures through ==> crt == old(crt) && Exiting(State(), crt) && State().PhaseOf(crt) == Allocating
                          && memory == old(memory) - {l}
      ensures !through ==> crt != old(crt)
      ensures ticks(at) == 0 ==> through
    {
      hide Inv, Exiting, Step, Enabled, HoldsNone;
      var away;
      away, next := Interrupted(ticks, at);
      if away {
        return false, next;
      }
      MayDrop(State(), l);
      ExitingReleases(State(), l);
      ReleaseMemory(l);
      through := true;
    }

    /**
     * One page fault in the allocation, asking for `frames` frames: `map_page` under what passes for the lock of the
     * page directory. Without interrupts it gets through if and only if the locks it needs are free.
     */
    method FaultIn(frames: nat, ticks: nat -> nat, at: nat) returns (through: bool, next: nat)
      requires Valid() && Exiting(State(), crt) && State().PhaseOf(crt) == Allocating
      requires forall l :: l in memory && memory[l] == crt ==> l == HeapLock
      modifies this
      ensures Valid() && dead == old(dead)
      ensures through ==> crt == old(crt) && Exiting(State(), crt) && State().PhaseOf(crt) == Allocating
                          && memory == old(memory)
      ensures !through ==> crt != old(crt)
      ensures (forall k :: ticks(k) == 0) ==>
                (through <==> DirectoryLock(0) !in old(memory) && (frames > 0 ==> FramesLock !in old(memory)))
    {
      hide Inv, Exiting;
      ghost var t, m := crt, memory;
      through, next := TryLock(DirectoryLock(0), ticks, at);
      if !through {
        return;
      }
      ghost var held := memory;
      for i := 0 to frames
        invariant Valid() && crt == t && Exiting(State(), crt) && State().PhaseOf(crt) == Allocating && dead == old(dead)
        invariant memory == held && (i > 0 ==> FramesLock !in m)
      {
        through, next := TryLock(FramesLock, ticks, next);
        if !through {
          return;
        }
        through, next := DropLock(FramesLock, ticks, next);
        if !through {
          return;
        }
        assert held[FramesLock := t] - {FramesLock} == held;
      }
      through, next := DropLock(DirectoryLock(0), ticks, next);
      assert m[DirectoryLock(0) := t] - {DirectoryLock(0)} == m;
    }

    /** `kmalloc` of the list node, with a page fault for each entry of `faults`, which asks for that many frames. */
    method FetchNode(faults: seq<nat>, ticks: nat -> nat, at: nat) returns (got: bool, next: nat)
      requires Valid() && Exiting(State(), crt) && State().PhaseOf(crt) == In
      modifies this
      ensures Valid() && dead == old(dead)
      ensures got ==> crt == old(crt) && Exiting(State(), crt) && State().PhaseOf(crt) == Fetched
      ensures !got ==> crt != old(crt)
      ensures (forall k :: ticks(k) == 0) ==> (got <==> NodeIsFree(old(memory), faults))
    {
      hide Inv, Exiting, Step;
      got, next := false, at;
      ghost var t := crt;
      var away;
      away, next := Interrupted(ticks, next);
      if away {
        return;
      }
      MayFetch(State());
      ExitingTakes(State(), HeapLock);
      var taken := TakeMemory(HeapLock);
      if !taken {
        return;
      }
      for i := 0 to |faults|
        invariant Valid() && crt == t && Exiting(State(), crt) && State().PhaseOf(crt) == Allocating && dead == old(dead)
        invariant memory == old(memory)[HeapLock := t] && HeapLock !in old(memory) && HoldsNone(old(memory), t)
        invariant (forall k :: ticks(k) == 0) ==> NodeIsFree(old(memory), faults[..i])
      {
        var through;
        through, next := FaultIn(faults[i], ticks, next);
        NodeIsFreeNext(old(memory), faults, i);
        if !through {
          return;
        }
      }
      assert faults[..|faults|] == faults;
      away, next := Interrupted(ticks, next);
      if away {
        return;
      }
      ExitingReleases(State(), HeapLock);
      ReleaseMemory(HeapLock);
      got := true;
    }

    /**
     * `schedule_thread_exit` from the marking on, with timer interrupts before its steps as `ticks` says, and page faults
     * in its allocation as `faults` says. Another thread runs in the end; the exited one is on the dead list if and only
     * if the exit got as far as the append. Without interrupts it does if and only if every lock it needs is free: that
     * of the dead lists, that of the heap, and those of the page faults.
     */
    method ScheduleThreadExit(ticks: nat -> nat, faults: seq<nat>) returns (listed: bool)
      requires Valid() && Enabled(State(), OpMarkDead)
      modifies this
      ensures Valid() && old(crt) != crt
      ensures listed <==> old(crt) in dead
      ensures listed ==> !old(deadLocked)
      ensures (forall k :: ticks(k) == 0) ==> (listed <==> !old(deadLocked) && NodeIsFree(old(memory), faults))
    {
      hide Inv, Exiting;
      ghost var t := crt;
      ExitStarts(State());
      MarkDead();
      ExitingFacts(State());
      var away, at := Interrupted(ticks, 0);
      if away {
        return false;
      }
      ExitingFacts(State());
      ExitingLocks(State());
      var locked := LockDead();
      if !locked {
        return false;
      }
      ExitingFacts(State());
      listed, at := FetchNode(faults, ticks, at);
      if !listed {
        return;
      }
      ExitingFacts(State());
      away, at := Interrupted(ticks, at);
      if away {
        return false;
      }
      ExitingFacts(State());
      ExitingAppends(State());
      AppendDeadTask();
      LeaveListed(ticks, at);
    }

    /** The rest of it, with the thread on the dead list. */
    method LeaveListed(ticks: nat -> nat, from: nat)
      requires Valid() && Exiting(State(), crt) && State().PhaseOf(crt) == Listed
      modifies this
      ensures Valid() && old(crt) != crt && old(crt) in dead
    {
      hide Inv, Exiting, Step, Enabled, Switch, BeforeSwitch;
      ExitingFacts(State());
      var away, at := Interrupted(ticks, from);
      if away {
        return;
      }
      ExitingFacts(State());
      ExitingNotifies(State());
      NotifyCleaner();
      away, at := Interrupted(ticks, at);
      if away {
        return;
      }
      ExitingFacts(State());
      ExitingUnlocks(State());
      UnlockDead();
      away, at := Interrupted(ticks, at);
      if away {
        return;
      }
      ExitingLeaves(State());
      DoContextSwitch();
    }
  }

  /** The locks that an allocation with these page faults needs are free. */
  predicate NodeIsFree(memory: map<MemoryLock, Tid>, faults: seq<nat>) {
    && HeapLock !in memory && (faults != [] ==> DirectoryLock(0) !in memory)
    && ((exists i :: 0 <= i < |faults| && faults[i] > 0) ==> FramesLock !in memory)
  }

  lemma NodeIsFreeNext(memory: map<MemoryLock, Tid>, faults: seq<nat>, i: nat)
    requires i < |faults|
    ensures NodeIsFree(memory, faults[..i + 1]) <==>
              NodeIsFree(memory, faults[..i]) && DirectoryLock(0) !in memory && (faults[i] > 0 ==> FramesLock !in memory)
    ensures NodeIsFree(memory, faults) ==> NodeIsFree(memory, faults[..i + 1])
  {
    assert faults[..i + 1][i] == faults[i];
    assert forall k :: 0 <= k < i ==> faults[..i + 1][k] == faults[..i][k] == faults[k];
  }

  lemma MayTake(s: Sched, l: MemoryLock)
    requires Inv(s) && Exiting(s, s.crt) && s.PhaseOf(s.crt) == Allocating && !l.HeapLock?
    requires l in s.memory ==> s.memory[l] != s.crt
    ensures Enabled(s, OpTakeMemory(l))
  {
    ExitingFacts(s);
  }

  lemma MayDrop(s: Sched, l: MemoryLock)
    requires Inv(s) && Exiting(s, s.crt) && s.PhaseOf(s.crt) == Allocating && !l.HeapLock?
    requires l in s.memory && s.memory[l] == s.crt
    ensures Enabled(s, OpReleaseMemory(l))
  {
    ExitingFacts(s);
  }

  lemma MayFetch(s: Sched)
    requires Inv(s) && Exiting(s, s.crt) && s.PhaseOf(s.crt) == In
    ensures Enabled(s, OpTakeMemory(HeapLock)) && HoldsNone(s.memory, s.crt)
  {
    ExitingFacts(s);
  }
}

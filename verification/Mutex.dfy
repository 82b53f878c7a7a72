/** The blocking mutex as interleaved steps of any number of threads (src/sync/mutex.c, src/sync/yieldlock.c). */
module Mutexes {
  type Tid = nat

  /**
   * Where a thread stands. `Entering` and `Leaving` spin on the inner lock, in `mutex_lock` and `mutex_unlock`; `Trying`
   * and the states up to `Backing` hold it. `Retrying` is `Entering` again after a wakeup.
   */
  datatype Pc =
    | Outside
    | Entering
    | Retrying
    | Trying
    | Queueing
    | Asleep
    | Acquired
    | Holding
    | Leaving
    | Freeing
    | Waking
    | Backing

  /** The mutex's two words and wait queue, and every thread's place in the code. */
  datatype Mutex = Mutex(hold: bool, inner: bool, queue: seq<Tid>, pcs: map<Tid, Pc>) {
    predicate Is(t: Tid, pc: Pc) {
      t in pcs && pcs[t] == pc
    }

    function Goes(t: Tid, pc: Pc): Mutex {
      this.(pcs := pcs[t := pc])
    }
  }

  /** Holds the inner lock. */
  predicate InInner(pc: Pc) {
    pc.Trying? || pc.Queueing? || pc.Acquired? || pc.Freeing? || pc.Waking? || pc.Backing?
  }

  /** Holds the mutex: from the successful exchange to the clearing of `hold`. */
  predicate InMutex(pc: Pc) {
    pc.Acquired? || pc.Holding? || pc.Leaving? || pc.Freeing?
  }

  // ---- Steps ----

  /** One atomic step of thread `t`. */
  ghost predicate Step(m: Mutex, t: Tid, m': Mutex) {
    t in m.pcs &&
    match m.pcs[t]
    // mutex_lock is called.
    case Outside => m' == m.Goes(t, Entering)
    // yieldlock_lock: exchange on the inner lock; a thread that finds it held yields and tries again.
    case Entering => m' == if m.inner then m else m.Goes(t, Trying).(inner := true)
    case Retrying => m' == if m.inner then m else m.Goes(t, Trying).(inner := true)
    // The exchange on `hold`: it ends up held either way.
    case Trying => m' == m.Goes(t, if m.hold then Queueing else Acquired).(hold := true)
    // Append to the wait queue, mark waiting, release the inner lock.
    case Queueing => m' == m.Goes(t, Asleep).(queue := m.queue + [t], inner := false)
    // Nothing runs until the thread is woken.
    case Asleep => m' == m
    case Acquired => m' == m.Goes(t, Holding).(inner := false)
    // mutex_unlock is called.
    case Holding => m' == m.Goes(t, Leaving)
    case Leaving => m' == if m.inner then m else m.Goes(t, Freeing).(inner := true)
    case Freeing => m' == m.Goes(t, Waking).(hold := false)
    // Wake the head of the queue, if there is one.
    case Waking =>
      m' == if m.queue == [] then m.Goes(t, Backing)
            else m.Goes(m.queue[0], Retrying).Goes(t, Backing).(queue := m.queue[1..])
    case Backing => m' == m.Goes(t, Outside).(inner := false)
  }

  ghost predicate Initial(m: Mutex) {
    !m.hold && !m.inner && m.queue == [] && forall t :: t in m.pcs ==> m.pcs[t] == Outside
  }

  // ---- Safety ----

  /** At most one thread satisfies `p`, and some thread does exactly if `held`. */
  ghost predicate OneHolder(m: Mutex, p: Pc -> bool, held: bool) {
    && (forall t, u :: t in m.pcs && u in m.pcs && p(m.pcs[t]) && p(m.pcs[u]) ==> t == u)
    && (held <==> exists t :: t in m.pcs && p(m.pcs[t]))
  }

  ghost predicate QueueOk(m: Mutex) {
    && (forall i, j :: 0 <= i < j < |m.queue| ==> m.queue[i] != m.queue[j])
    && (forall t :: t in m.queue <==> m.Is(t, Asleep))
  }

  /** A thread was woken and has yet to exchange on `hold`, or someone is about to be woken. */
  ghost predicate WakeupPending(m: Mutex) {
    exists t :: t in m.pcs && (m.pcs[t].Retrying? || m.pcs[t].Trying? || m.pcs[t].Waking?)
  }

  ghost predicate Inv(m: Mutex) {
    && OneHolder(m, InInner, m.inner)
    && OneHolder(m, InMutex, m.hold)
    && QueueOk(m)
    && (forall t :: m.Is(t, Queueing) ==> m.hold)
    && (!m.hold && m.queue != [] ==> WakeupPending(m))
  }

  lemma InitialInv(m: Mutex)
    requires Initial(m)
    ensures Inv(m)
  {
  }

  /** Changing one thread's place. */
  lemma HolderMoves(m: Mutex, m': Mutex, t: Tid, p: Pc -> bool, held: bool, held': bool)
    requires OneHolder(m, p, held) && t in m.pcs && m'.pcs.Keys == m.pcs.Keys
    requires forall u :: u in m.pcs && u != t ==> p(m'.pcs[u]) == p(m.pcs[u])
    requires p(m'.pcs[t]) && !p(m.pcs[t]) ==> !held && held'
    requires p(m.pcs[t]) && !p(m'.pcs[t]) ==> !held'
    requires p(m.pcs[t]) == p(m'.pcs[t]) ==> held' == held
    ensures OneHolder(m', p, held')
  {
    if held' && !p(m'.pcs[t]) {
      var u :| u in m.pcs && p(m.pcs[u]);
      assert p(m'.pcs[u]);
    }
  }

  /** The head of the queue, which a waking thread touches, is asleep. */
  lemma HeadAsleep(m: Mutex)
    requires QueueOk(m) && m.queue != []
    ensures m.Is(m.queue[0], Asleep)
  {
  }

  lemma StepOthers(m: Mutex, t: Tid, m': Mutex)
    requires QueueOk(m) && Step(m, t, m')
    ensures m'.pcs.Keys == m.pcs.Keys
    ensures forall u :: u in m.pcs && u != t ==> m'.pcs[u] == m.pcs[u] || (m.pcs[u] == Asleep && m'.pcs[u] == Retrying)
  {
    if m.queue != [] {
      HeadAsleep(m);
    }
  }

  lemma StepInner(m: Mutex, t: Tid, m': Mutex)
    requires Inv(m) && Step(m, t, m')
    ensures OneHolder(m', InInner, m'.inner)
  {
    StepOthers(m, t, m');
    assert InInner(m.pcs[t]) ==> m.inner;
    hide OneHolder, QueueOk;
    HolderMoves(m, m', t, InInner, m.inner, m'.inner);
  }

  lemma StepHold(m: Mutex, t: Tid, m': Mutex)
    requires Inv(m) && Step(m, t, m')
    ensures OneHolder(m', InMutex, m'.hold)
  {
    StepOthers(m, t, m');
    assert InMutex(m.pcs[t]) ==> m.hold;
    hide OneHolder, QueueOk;
    HolderMoves(m, m', t, InMutex, m.hold, m'.hold);
  }

  lemma WakingQueue(m: Mutex, t: Tid, m': Mutex)
    requires QueueOk(m) && Step(m, t, m') && m.Is(t, Waking) && m.queue != []
    ensures QueueOk(m')
  {
    HeadAsleep(m);
    var head, rest := m.queue[0], m.queue[1..];
    assert m.queue == [head] + rest;
    assert head !in rest;
    forall u ensures u in rest <==> m'.Is(u, Asleep) {
      assert u in m.queue <==> m.Is(u, Asleep);
    }
  }

  lemma QueueingQueue(m: Mutex, t: Tid, m': Mutex)
    requires QueueOk(m) && Step(m, t, m') && m.Is(t, Queueing)
    ensures QueueOk(m')
  {
    assert t in m.queue ==> m.Is(t, Asleep);
    forall u ensures u in m'.queue <==> m'.Is(u, Asleep) {
      assert u in m.queue <==> m.Is(u, Asleep);
    }
  }

  lemma SameQueue(m: Mutex, t: Tid, m': Mutex)
    requires QueueOk(m) && Step(m, t, m') && !m.Is(t, Queueing) && (m.Is(t, Waking) ==> m.queue == [])
    ensures m'.queue == m.queue && forall u :: m'.Is(u, Asleep) <==> m.Is(u, Asleep)
  {
    hide QueueOk;
  }

  lemma StepQueue(m: Mutex, t: Tid, m': Mutex)
    requires Inv(m) && Step(m, t, m')
    ensures QueueOk(m')
  {
    hide OneHolder, WakeupPending, Step;
    if m.Is(t, Waking) && m.queue != [] {
      WakingQueue(m, t, m');
    } else if m.Is(t, Queueing) {
      QueueingQueue(m, t, m');
    } else {
      SameQueue(m, t, m');
    }
  }

  lemma StepWakeup(m: Mutex, t: Tid, m': Mutex)
    requires Inv(m) && Step(m, t, m')
    ensures forall u :: m'.Is(u, Queueing) ==> m'.hold
    ensures !m'.hold && m'.queue != [] ==> WakeupPending(m')
  {
    assert InMutex(m.pcs[t]) ==> m.hold;
    assert InInner(m.pcs[t]) ==> m.inner;
    StepOthers(m, t, m');
    if m.queue != [] {
      HeadAsleep(m);
    }
    assert m.Is(t, Queueing) ==> m.hold;
    hide QueueOk, OneHolder;
    forall u | m'.Is(u, Queueing) ensures m'.hold {
      if u != t {
        assert m.Is(u, Queueing);
        StillApart(m, t, u);
      }
    }
    hide InInner, InMutex;
    if !m'.hold && m'.queue != [] {
      if m.hold {
        assert m'.Is(t, Waking);
      } else if m.Is(t, Waking) {
        assert m'.Is(m.queue[0], Retrying);
      } else {
        var u :| u in m.pcs && (m.pcs[u].Retrying? || m.pcs[u].Trying? || m.pcs[u].Waking?);
        assert m'.pcs[u] == m.pcs[u] || m'.pcs[u] == Trying;
      }
    }
  }

  /** Two threads cannot both hold the inner lock. */
  lemma StillApart(m: Mutex, t: Tid, u: Tid)
    requires OneHolder(m, InInner, m.inner) && t != u && t in m.pcs && u in m.pcs
    ensures !(InInner(m.pcs[t]) && InInner(m.pcs[u]))
  {
  }

  lemma StepKeeps(m: Mutex, t: Tid, m': Mutex)
    requires Inv(m) && Step(m, t, m')
    ensures Inv(m')
  {
    StepInner(m, t, m');
    StepHold(m, t, m');
    StepQueue(m, t, m');
    StepWakeup(m, t, m');
  }

  /** A run from a fresh mutex: at each step any thread may move. */
  ghost predicate Run(states: seq<Mutex>, movers: seq<Tid>) {
    && |states| == |movers| + 1 && Initial(states[0])
    && forall i :: 0 <= i < |movers| ==> Step(states[i], movers[i], states[i + 1])
  }

  lemma {:induction false} RunInv(states: seq<Mutex>, movers: seq<Tid>)
    requires Run(states, movers)
    ensures Inv(states[|movers|])
  {
    if movers == [] {
      InitialInv(states[0]);
    } else {
      var n := |movers| - 1;
      RunInv(states[..|movers|], movers[..n]);
      StepKeeps(states[n], movers[n], states[n + 1]);
    }
  }

  /** Mutual exclusion, in any interleaving. */
  lemma MutualExclusion(states: seq<Mutex>, movers: seq<Tid>, t: Tid, u: Tid)
    requires Run(states, movers)
    requires var m := states[|movers|]; t in m.pcs && u in m.pcs && InMutex(m.pcs[t]) && InMutex(m.pcs[u])
    ensures t == u && states[|movers|].hold
  {
    RunInv(states, movers);
  }

  /**
   * No lost wakeup: when the inner lock is free and the mutex is free but threads sleep in its queue, some thread has
   * been woken and will retry; its next two steps, if they come first, acquire the mutex.
   */
  lemma NoLostWakeup(states: seq<Mutex>, movers: seq<Tid>) returns (t: Tid)
    requires Run(states, movers)
    requires var m := states[|movers|]; !m.inner && !m.hold && m.queue != []
    ensures var m := states[|movers|];
            && m.Is(t, Retrying)
            && forall m', m'' :: Step(m, t, m') && Step(m', t, m'') ==> m''.Is(t, Acquired) && m''.hold
  {
    RunInv(states, movers);
    var m := states[|movers|];
    t :| t in m.pcs && (m.pcs[t].Retrying? || m.pcs[t].Trying? || m.pcs[t].Waking?);
    assert !InInner(m.pcs[t]);
  }

  /** Sleepers are exactly the threads in the queue, and while there are any, someone holds the mutex or will try to. */
  lemma SleepersAreQueued(states: seq<Mutex>, movers: seq<Tid>, t: Tid)
    requires Run(states, movers) && states[|movers|].Is(t, Asleep)
    ensures t in states[|movers|].queue
    ensures states[|movers|].hold || WakeupPending(states[|movers|])
  {
    RunInv(states, movers);
  }

  // ---- First in, first woken ----

  /** Both are in the queue, `t` ahead of `u`. */
  ghost predicate Ahead(queue: seq<Tid>, t: Tid, u: Tid) {
    exists i, j :: 0 <= i < j < |queue| && queue[i] == t && queue[j] == u
  }

  lemma JoinsBehind(m: Mutex, mover: Tid, m': Mutex, t: Tid, u: Tid)
    requires QueueOk(m) && QueueOk(m') && Step(m, mover, m') && m.Is(t, Asleep) && m'.Is(t, Asleep)
    requires !m.Is(u, Asleep) && m'.Is(u, Asleep)
    ensures Ahead(m'.queue, t, u)
  {
    assert t in m.queue && u !in m.queue && u in m'.queue;
    assert m'.queue == m.queue + [u];
    var i :| 0 <= i < |m.queue| && m.queue[i] == t;
    assert m'.queue[i] == t && m'.queue[|m.queue|] == u;
  }

  lemma StaysAhead(m: Mutex, mover: Tid, m': Mutex, t: Tid, u: Tid)
    requires QueueOk(m) && QueueOk(m') && Step(m, mover, m') && Ahead(m.queue, t, u) && m'.Is(t, Asleep)
    ensures m'.Is(u, Asleep) && Ahead(m'.queue, t, u)
  {
    var i, j :| 0 <= i < j < |m.queue| && m.queue[i] == t && m.queue[j] == u;
    assert t in m'.queue;
    if m'.queue == m.queue + [mover] {
      assert m'.queue[i] == t && m'.queue[j] == u;
    } else if m'.queue == m.queue {
    } else {
      assert m'.queue == m.queue[1..];
      assert i > 0;
      assert m'.queue[i - 1] == t && m'.queue[j - 1] == u;
    }
  }

  lemma {:induction false} AheadOverRun(states: seq<Mutex>, movers: seq<Tid>, b: nat, k: nat, t: Tid, u: Tid)
    requires Run(states, movers) && b < k <= |movers|
    requires forall i :: b <= i <= k ==> states[i].Is(t, Asleep)
    requires !states[b].Is(u, Asleep) && states[b + 1].Is(u, Asleep)
    ensures states[k].Is(u, Asleep) && Ahead(states[k].queue, t, u)
    decreases k
  {
    hide Step, Ahead;
    RunInv(states[..b + 1], movers[..b]);
    RunInv(states[..k + 1], movers[..k]);
    RunInv(states[..k], movers[..k - 1]);
    if k == b + 1 {
      JoinsBehind(states[b], movers[b], states[k], t, u);
    } else {
      AheadOverRun(states, movers, b, k - 1, t, u);
      StaysAhead(states[k - 1], movers[k - 1], states[k], t, u);
    }
  }

  /**
   * Whoever went to sleep first is woken first, in any interleaving: while `t` sleeps on, having been asleep when `u` went
   * to sleep, no step wakes `u`.
   */
  lemma FirstInFirstWoken(states: seq<Mutex>, movers: seq<Tid>, b: nat, k: nat, t: Tid, u: Tid)
    requires Run(states, movers) && b < k <= |movers|
    requires forall i :: b <= i <= k ==> states[i].Is(t, Asleep)
    requires !states[b].Is(u, Asleep) && states[b + 1].Is(u, Asleep)
    ensures states[k].Is(u, Asleep)
  {
    AheadOverRun(states, movers, b, k, t, u);
  }
}

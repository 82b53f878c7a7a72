/** Parent and children meeting in `process_wait` and `process_exit` (src/task/process.c). */
module ProcessWait {
  import opened Machine

  type Pid = nat
  type Tid = nat

  /** A thread of the parent in `process_wait(want)`, where `want` 0 stands for any child. */
  datatype WaiterPc =
    | NotWaiting
    | Entering(want: Pid)
    | Checking(want: Pid)
    | Looking(want: Pid)
    | Sleeping(want: Pid)
    | Woken(want: Pid)
    | Reaping(pid: Pid, code: int)
    | Refused(want: Pid)

  /** A child in `process_exit`. */
  datatype ChildPc =
    | Alive
    | Exiting(code: int)
    | Putting(code: int)
    | Notifying
    | Unlocking
    | Gone

  /** Who took the parent's lock last and has not released it; the code stores only whether someone did. */
  datatype Owner = Nobody | Waiter(t: Tid) | Child(c: Pid)

  /**
   * The parent's fields that its lock protects, the places of its threads and children, and two histories: the exits
   * stored by children, and those taken by waits.
   */
  datatype Family = Family(self: Pid, owner: Owner, children: set<Pid>, exited: map<Pid, int>,
                           waitingPid: Pid, waitingNode: Option<Tid>,
                           waiters: map<Tid, WaiterPc>, kids: map<Pid, ChildPc>,
                           exits: seq<(Pid, int)>, reaps: seq<(Pid, int)>) {
    function SetWaiter(t: Tid, pc: WaiterPc): Family {
      this.(waiters := waiters[t := pc])
    }

    function SetKid(c: Pid, pc: ChildPc): Family {
      this.(kids := kids[c := pc])
    }
  }

  /** Who moves, and how it chooses where the code leaves a choice. */
  datatype Move =
    | CallWait(t: Tid, want: Pid)
    | WaiterMoves(t: Tid, pick: Pid)
    | ForkChild(c: Pid)
    | CallExit(c: Pid, code: int)
    | ChildMoves(c: Pid)

  predicate WaiterHasLock(pc: WaiterPc) {
    pc.Checking? || pc.Looking? || pc.Reaping? || pc.Refused?
  }

  predicate ChildHasLock(pc: ChildPc) {
    pc.Putting? || pc.Notifying? || pc.Unlocking?
  }

  /** What `waiting_child_pid` is set to for a wait: the pid, or the parent's own for any child. */
  function WaitingFor(f: Family, want: Pid): Pid {
    if want > 0 then want else f.self
  }

  /** The wait would find an exit record. */
  predicate Found(exited: map<Pid, int>, want: Pid) {
    want in exited || (want == 0 && exited != map[])
  }

  /**
   * `add_thread_node_to_schedule` on the registered waiter. It finds a node that was never set, or a thread that is not
   * asleep, in the states of `StrayWakes`; the scheduler's queue is wrong after that, and the places here stay as they are.
   */
  function Wake(f: Family): Family {
    match f.waitingNode
    case None => f
    case Some(t) => if t in f.waiters && f.waiters[t].Sleeping? then f.SetWaiter(t, Woken(f.waiters[t].want)) else f
  }

  ghost predicate WaiterStep(f: Family, t: Tid, pick: Pid, f': Family) {
    t in f.waiters &&
    match f.waiters[t]
    case NotWaiting => f' == f
    case Entering(want) => f' == if f.owner != Nobody then f else f.SetWaiter(t, Checking(want)).(owner := Waiter(t))
    case Checking(want) =>
      f' == if want > 0 && want !in f.children then f.SetWaiter(t, Refused(want))
            else f.SetWaiter(t, Looking(want)).(waitingPid := WaitingFor(f, want))
    case Looking(want) =>
      if Found(f.exited, want) then
        // Any record will do for want 0, otherwise the one asked for.
        && pick in f.exited && (want != 0 ==> pick == want)
        && f' == f.SetWaiter(t, Reaping(pick, f.exited[pick]))
                  .(exited := f.exited - {pick}, reaps := f.reaps + [(pick, f.exited[pick])])
      else
        // Register, mark waiting, release the lock.
        f' == f.SetWaiter(t, Sleeping(want)).(waitingNode := Some(t), owner := Nobody)
    case Sleeping(_) => f' == f
    case Woken(want) => f' == if f.owner != Nobody then f else f.SetWaiter(t, Looking(want)).(owner := Waiter(t))
    case Reaping(_, _) => f' == f.SetWaiter(t, NotWaiting).(owner := Nobody)
    case Refused(_) => f' == f.SetWaiter(t, NotWaiting).(owner := Nobody)
  }

  ghost predicate ChildStep(f: Family, c: Pid, f': Family) {
    c in f.kids &&
    match f.kids[c]
    case Alive => f' == f
    case Exiting(code) => f' == if f.owner != Nobody then f else f.SetKid(c, Putting(code)).(owner := Child(c))
    case Putting(code) => f' == f.SetKid(c, Notifying).(exited := f.exited[c := code], exits := f.exits + [(c, code)])
    case Notifying =>
      f' == (if f.waitingPid == c || f.waitingPid == f.self then Wake(f) else f).SetKid(c, Unlocking)
    case Unlocking => f' == f.SetKid(c, Gone).(owner := Nobody)
    case Gone => f' == f
  }

  ghost predicate Step(f: Family, m: Move, f': Family) {
    match m
    case CallWait(t, want) =>
      t in f.waiters && f.waiters[t].NotWaiting? && f' == f.SetWaiter(t, Entering(want))
    case WaiterMoves(t, pick) => WaiterStep(f, t, pick, f')
    // The pid pool never hands out a pid whose exit record is still to be taken.
    case ForkChild(c) =>
      && c > 0 && c != f.self && (c in f.kids ==> f.kids[c].Gone?) && c !in f.exited
      && f' == f.SetKid(c, Alive).(children := f.children + {c})
    case CallExit(c, code) => c in f.kids && f.kids[c].Alive? && f' == f.SetKid(c, Exiting(code))
    case ChildMoves(c) => ChildStep(f, c, f')
  }

  ghost predicate Initial(f: Family) {
    && f.self > 0 && f.owner == Nobody && f.children == {} && f.exited == map[] && f.kids == map[] && f.exits == [] && f.reaps == []
    && f.waitingPid == 0 && f.waitingNode == None
    && forall t :: t in f.waiters ==> f.waiters[t].NotWaiting?
  }

  ghost predicate Run(states: seq<Family>, moves: seq<Move>) {
    && |states| == |moves| + 1 && Initial(states[0])
    && forall i :: 0 <= i < |moves| ==> Step(states[i], moves[i], states[i + 1])
  }

  // ---- The lock, and conservation of exit records ----

  /** The exit codes recorded for `c`, in order. */
  function Codes(records: seq<(Pid, int)>, c: Pid): seq<int> {
    if records == [] then []
    else
      var last := records[|records| - 1];
      Codes(records[..|records| - 1], c) + if last.0 == c then [last.1] else []
  }

  lemma CodesGrow(records: seq<(Pid, int)>, p: Pid, code: int, c: Pid)
    ensures Codes(records + [(p, code)], c) == Codes(records, c) + if p == c then [code] else []
  {
    assert (records + [(p, code)])[..|records|] == records;
  }

  /** What the table still holds for `c`. */
  function Pending(exited: map<Pid, int>, c: Pid): seq<int> {
    if c in exited then [exited[c]] else []
  }

  /** Whoever is inside a critical section of the parent's lock owns it, and whoever owns it is. */
  ghost predicate LockOk(f: Family) {
    && (forall t :: t in f.waiters && WaiterHasLock(f.waiters[t]) ==> f.owner == Waiter(t))
    && (forall c :: c in f.kids && ChildHasLock(f.kids[c]) ==> f.owner == Child(c))
    && (f.owner.Waiter? ==> f.owner.t in f.waiters && WaiterHasLock(f.waiters[f.owner.t]))
    && (f.owner.Child? ==> f.owner.c in f.kids && ChildHasLock(f.kids[f.owner.c]))
  }

  /** Pids are never 0 or the parent's own, and a record in the table is that of a child that has put it there. */
  ghost predicate PidsOk(f: Family) {
    && f.self > 0 && f.self !in f.children
    && (forall c :: c in f.kids ==> c > 0 && c != f.self)
    && (forall c :: c in f.exited ==> c in f.kids && (f.kids[c].Notifying? || f.kids[c].Unlocking? || f.kids[c].Gone?))
  }

  /**
   * Exit records are conserved: what the children of a pid have stored is what waits have taken, in the same order,
   * followed by the record still in the table; and a wait about to return has just taken the record it reports.
   */
  ghost predicate RecordsOk(f: Family) {
    && (forall c :: Codes(f.exits, c) == Codes(f.reaps, c) + Pending(f.exited, c))
    && (forall t :: t in f.waiters && f.waiters[t].Reaping? ==>
          |f.reaps| > 0 && f.reaps[|f.reaps| - 1] == (f.waiters[t].pid, f.waiters[t].code))
  }

  lemma WaiterKeepsLock(f: Family, t: Tid, pick: Pid, f': Family)
    requires LockOk(f) && WaiterStep(f, t, pick, f')
    ensures LockOk(f')
  {
  }

  lemma ChildKeepsLock(f: Family, c: Pid, f': Family)
    requires LockOk(f) && ChildStep(f, c, f')
    ensures LockOk(f')
  {
  }

  lemma StepKeepsLock(f: Family, m: Move, f': Family)
    requires LockOk(f) && Step(f, m, f')
    ensures LockOk(f')
  {
    hide WaiterStep, ChildStep;
    match m
    case WaiterMoves(t, pick) => WaiterKeepsLock(f, t, pick, f');
    case ChildMoves(c) => ChildKeepsLock(f, c, f');
    case _ =>
  }

  lemma WaiterKeepsPids(f: Family, t: Tid, pick: Pid, f': Family)
    requires PidsOk(f) && WaiterStep(f, t, pick, f')
    ensures PidsOk(f')
  {
  }

  lemma ChildKeepsPids(f: Family, c: Pid, f': Family)
    requires PidsOk(f) && ChildStep(f, c, f')
    ensures PidsOk(f')
  {
  }

  lemma StepKeepsPids(f: Family, m: Move, f': Family)
    requires PidsOk(f) && Step(f, m, f')
    ensures PidsOk(f')
  {
    hide WaiterStep, ChildStep;
    match m
    case WaiterMoves(t, pick) => WaiterKeepsPids(f, t, pick, f');
    case ChildMoves(c) => ChildKeepsPids(f, c, f');
    case _ =>
  }

  /** Taking a record moves it from the table to the end of the reaped ones. */
  lemma ReapKeepsCodes(f: Family, pick: Pid, c: Pid)
    requires RecordsOk(f) && pick in f.exited
    ensures Codes(f.exits, c) == Codes(f.reaps + [(pick, f.exited[pick])], c) + Pending(f.exited - {pick}, c)
  {
    CodesGrow(f.reaps, pick, f.exited[pick], c);
  }

  lemma WaiterKeepsRecords(f: Family, t: Tid, pick: Pid, f': Family)
    requires LockOk(f) && RecordsOk(f) && WaiterStep(f, t, pick, f')
    ensures RecordsOk(f')
  {
    hide Codes;
    if f.waiters[t].Looking? && Found(f.exited, f.waiters[t].want) {
      hide Pending;
      forall c ensures Codes(f'.exits, c) == Codes(f'.reaps, c) + Pending(f'.exited, c) {
        ReapKeepsCodes(f, pick, c);
      }
    } else {
      assert f'.exits == f.exits && f'.reaps == f.reaps && f'.exited == f.exited;
    }
  }

  lemma ChildKeepsRecords(f: Family, c: Pid, f': Family)
    requires LockOk(f) && PidsOk(f) && RecordsOk(f) && ChildStep(f, c, f')
    ensures RecordsOk(f')
  {
    hide Codes, LockOk, ChildHasLock;
    forall d ensures Codes(f'.exits, d) == Codes(f'.reaps, d) + Pending(f'.exited, d) {
      if f.kids[c].Putting? {
        CodesGrow(f.exits, c, f.kids[c].code, d);
      }
    }
  }

  lemma StepKeepsRecords(f: Family, m: Move, f': Family)
    requires LockOk(f) && PidsOk(f) && RecordsOk(f) && Step(f, m, f')
    ensures RecordsOk(f')
  {
    hide WaiterStep, ChildStep;
    match m
    case WaiterMoves(t, pick) => WaiterKeepsRecords(f, t, pick, f');
    case ChildMoves(c) => ChildKeepsRecords(f, c, f');
    case _ =>
  }

  ghost predicate Inv(f: Family) {
    LockOk(f) && PidsOk(f) && RecordsOk(f)
  }

  lemma {:induction false} RunInv(states: seq<Family>, moves: seq<Move>)
    requires Run(states, moves)
    ensures forall i :: 0 <= i < |states| ==> Inv(states[i])
    decreases |moves|
  {
    if moves != [] {
      var n := |moves| - 1;
      RunInv(states[..n + 1], moves[..n]);
      var f, f' := states[n], states[n + 1];
      StepKeepsLock(f, moves[n], f');
      StepKeepsPids(f, moves[n], f');
      StepKeepsRecords(f, moves[n], f');
    }
  }

  // ---- What is waited for ----

  /** A thread past its check waits for a child of its parent, or for any. */
  ghost predicate WantsOk(f: Family) {
    forall t :: t in f.waiters ==>
      var pc := f.waiters[t];
      (pc.Looking? || pc.Sleeping? || pc.Woken?) && pc.want > 0 ==> pc.want in f.children
  }

  lemma WaiterKeepsWants(f: Family, t: Tid, pick: Pid, f': Family)
    requires WantsOk(f) && WaiterStep(f, t, pick, f')
    ensures WantsOk(f')
  {
  }

  lemma ChildKeepsWants(f: Family, c: Pid, f': Family)
    requires WantsOk(f) && ChildStep(f, c, f')
    ensures WantsOk(f')
  {
  }

  lemma StepKeepsWants(f: Family, m: Move, f': Family)
    requires WantsOk(f) && Step(f, m, f')
    ensures WantsOk(f')
  {
    hide WaiterStep, ChildStep;
    match m
    case WaiterMoves(t, pick) => WaiterKeepsWants(f, t, pick, f');
    case ChildMoves(c) => ChildKeepsWants(f, c, f');
    case _ =>
  }

  lemma {:induction false} RunWants(states: seq<Family>, moves: seq<Move>)
    requires Run(states, moves)
    ensures WantsOk(states[|moves|])
    decreases |moves|
  {
    hide WantsOk, Step;
    if moves == [] {
      NobodyWants(states[0]);
    } else {
      var n := |moves| - 1;
      RunWants(states[..n + 1], moves[..n]);
      StepKeepsWants(states[n], moves[n], states[n + 1]);
    }
  }

  lemma NobodyWants(f: Family)
    requires Initial(f)
    ensures WantsOk(f)
  {
  }

  /** Over every run, a thread that looks for a record, sleeps or was woken waits for a child of its parent, or for any. */
  lemma WaitsForChildren(states: seq<Family>, moves: seq<Move>, t: Tid)
    requires Run(states, moves) && t in states[|moves|].waiters
    ensures
      var f := states[|moves|];
      var pc := f.waiters[t];
      (pc.Looking? || pc.Sleeping? || pc.Woken?) && pc.want > 0 ==> pc.want in f.children
  {
    RunWants(states, moves);
  }

  /**
   * A wait is refused exactly if it is for one pid that is no child at its check, with the lock held. It then returns
   * and the lock is free.
   */
  lemma RefusedExactly(f: Family, m: Move, f': Family, t: Tid)
    requires Step(f, m, f') && t in f.waiters
    ensures t in f'.waiters
    ensures f'.waiters[t].Refused? && !f.waiters[t].Refused? <==>
              && m.WaiterMoves? && m.t == t && f.waiters[t].Checking?
              && f.waiters[t].want > 0 && f.waiters[t].want !in f.children
    ensures f.waiters[t].Refused? && m.WaiterMoves? && m.t == t ==>
              f'.waiters[t].NotWaiting? && f'.owner == Nobody
  {
    hide ChildStep;
    if m.ChildMoves? {
      ChildSparesWaiter(f, m.c, f', t);
    }
  }

  lemma ChildSparesWaiter(f: Family, c: Pid, f': Family, t: Tid)
    requires ChildStep(f, c, f') && t in f.waiters
    ensures t in f'.waiters && (f'.waiters[t] == f.waiters[t] || (f.waiters[t].Sleeping? && f'.waiters[t].Woken?))
  {
  }

  /**
   * A wait sleeps exactly if what it waits for is not in the table: that pid, or any at all. It is then registered and has
   * released the lock, and so it is the one the next exit wakes.
   */
  lemma SleepsExactly(f: Family, t: Tid, pick: Pid, f': Family)
    requires Step(f, WaiterMoves(t, pick), f') && t in f.waiters && (f.waiters[t].Checking? || f.waiters[t].Looking?)
    ensures
      var want := f.waiters[t].want;
      && t in f'.waiters
      && (f'.waiters[t].Sleeping? <==>
            f.waiters[t].Looking? && if want == 0 then forall c: Pid :: c !in f.exited else want !in f.exited)
      && (f'.waiters[t].Sleeping? ==> f'.waiters[t].want == want && f'.waitingNode == Some(t) && f'.owner == Nobody)
      && (f.waiters[t].Looking? && !f'.waiters[t].Sleeping? ==> f'.waiters[t].Reaping?)
      && (f'.waiters[t].Looking? ==>
            f'.waiters[t].want == want && f'.waitingPid == if want == 0 then f.self else want)
  {
  }

  /**
   * A wait takes the record of the child it is for, or any if it is for any: exactly as the table has it, and that record
   * is gone from the table.
   */
  lemma ReapsWhatItWaitsFor(f: Family, m: Move, f': Family, t: Tid)
    requires Step(f, m, f') && t in f.waiters && t in f'.waiters && f'.waiters[t].Reaping? && !f.waiters[t].Reaping?
    ensures
      var Reaping(pid, code) := f'.waiters[t];
      && f.waiters[t].Looking? && (f.waiters[t].want == 0 || f.waiters[t].want == pid)
      && pid in f.exited && code == f.exited[pid] && pid !in f'.exited
  {
    hide ChildStep;
    if m.ChildMoves? {
      ChildSparesWaiter(f, m.c, f', t);
    }
  }

  // ---- Sleepers ----

  /** At most one thread of the parent is in `process_wait`. */
  ghost predicate OneWaiter(f: Family) {
    forall t, u :: t in f.waiters && u in f.waiters && !f.waiters[t].NotWaiting? && !f.waiters[u].NotWaiting? ==> t == u
  }

  /** A child that has stored its record and is about to wake whoever is registered for it. */
  ghost predicate AboutToWake(f: Family, c: Pid) {
    c in f.kids && f.kids[c].Notifying? && (f.waitingPid == c || f.waitingPid == f.self)
  }

  /** The `waiting_child_pid` of the thread past its check, which a single waiter finds unchanged. */
  ghost predicate Registered(f: Family) {
    && (forall t :: t in f.waiters && (f.waiters[t].Looking? || f.waiters[t].Sleeping? || f.waiters[t].Woken?) ==>
          f.waitingPid == WaitingFor(f, f.waiters[t].want))
    && (forall t :: t in f.waiters && f.waiters[t].Sleeping? ==> f.waitingNode == Some(t))
  }

  /** A sleeper whose record is there has a child on its way to wake it. */
  ghost predicate SleepersOk(f: Family) {
    forall t :: t in f.waiters && f.waiters[t].Sleeping? && Found(f.exited, f.waiters[t].want) ==>
      exists c :: AboutToWake(f, c)
  }

  lemma WaiterKeepsRegistered(f: Family, t: Tid, pick: Pid, f': Family)
    requires OneWaiter(f) && Registered(f) && WaiterStep(f, t, pick, f')
    ensures Registered(f')
  {
  }

  lemma ChildKeepsRegistered(f: Family, c: Pid, f': Family)
    requires OneWaiter(f) && Registered(f) && ChildStep(f, c, f')
    ensures Registered(f')
  {
  }

  lemma StepKeepsRegistered(f: Family, m: Move, f': Family)
    requires OneWaiter(f) && Registered(f) && Step(f, m, f')
    ensures Registered(f')
  {
    hide WaiterStep, ChildStep;
    match m
    case WaiterMoves(t, pick) => WaiterKeepsRegistered(f, t, pick, f');
    case ChildMoves(c) => ChildKeepsRegistered(f, c, f');
    case _ =>
  }

  lemma WaiterKeepsSleepers(f: Family, t: Tid, pick: Pid, f': Family)
    requires LockOk(f) && OneWaiter(f) && SleepersOk(f) && WaiterStep(f, t, pick, f')
    ensures SleepersOk(f')
  {
    forall u | u in f'.waiters && f'.waiters[u].Sleeping? && Found(f'.exited, f'.waiters[u].want)
      ensures exists c :: AboutToWake(f', c)
    {
      assert u != t ==> f.waiters[t].NotWaiting?;
      var c :| AboutToWake(f, c);
      assert AboutToWake(f', c);
    }
  }

  lemma ChildKeepsSleepers(f: Family, c: Pid, f': Family)
    requires LockOk(f) && Registered(f) && SleepersOk(f) && ChildStep(f, c, f')
    ensures SleepersOk(f')
  {
    forall t | t in f'.waiters && f'.waiters[t].Sleeping? && Found(f'.exited, f'.waiters[t].want)
      ensures exists d :: AboutToWake(f', d)
    {
      assert f.waiters[t] == f'.waiters[t];
      if Found(f.exited, f.waiters[t].want) {
        var d :| AboutToWake(f, d);
        assert AboutToWake(f', d);
      } else {
        assert AboutToWake(f', c);
      }
    }
  }

  lemma StepKeepsSleepers(f: Family, m: Move, f': Family)
    requires LockOk(f) && OneWaiter(f) && Registered(f) && SleepersOk(f) && Step(f, m, f')
    ensures SleepersOk(f')
  {
    hide WaiterStep, ChildStep;
    match m
    case WaiterMoves(t, pick) => WaiterKeepsSleepers(f, t, pick, f');
    case ChildMoves(c) => ChildKeepsSleepers(f, c, f');
    case _ =>
      assert f'.exited == f.exited && f'.waitingPid == f.waitingPid && f'.self == f.self;
      forall t | t in f'.waiters && f'.waiters[t].Sleeping? && Found(f'.exited, f'.waiters[t].want)
        ensures exists c :: AboutToWake(f', c)
      {
        var c :| AboutToWake(f, c);
        assert AboutToWake(f', c);
      }
  }

  ghost predicate SleepInv(f: Family) {
    Inv(f) && Registered(f) && SleepersOk(f)
  }

  lemma StepKeepsSleepInv(f: Family, m: Move, f': Family)
    requires SleepInv(f) && OneWaiter(f) && Inv(f') && Step(f, m, f')
    ensures SleepInv(f')
  {
    hide LockOk, PidsOk, RecordsOk, OneWaiter, Registered, SleepersOk, Step;
    StepKeepsRegistered(f, m, f');
    StepKeepsSleepers(f, m, f');
  }

  lemma {:induction false} RunSleepers(states: seq<Family>, moves: seq<Move>)
    requires Run(states, moves)
    requires forall i :: 0 <= i < |states| ==> OneWaiter(states[i])
    ensures forall i :: 0 <= i < |states| ==> SleepInv(states[i])
    decreases |moves|
  {
    hide Inv, OneWaiter, Step;
    RunInv(states, moves);
    if moves == [] {
      assert Inv(states[0]);
    } else {
      hide SleepInv, Initial;
      var n := |moves| - 1;
      RunSleepers(states[..n + 1], moves[..n]);
      assert SleepInv(states[..n + 1][n]) && Inv(states[n + 1]);
      StepKeepsSleepInv(states[n], moves[n], states[n + 1]);
    }
  }

  /**
   * While at most one thread of the parent waits at a time, a thread asleep in `process_wait` has no record in the
   * table that it could take, except while the child that stored it is still about to wake that very thread; so once
   * the lock is free there is none.
   */
  lemma SleeperHasNoRecord(states: seq<Family>, moves: seq<Move>, i: nat, t: Tid)
    requires Run(states, moves) && i < |states|
    requires forall k :: 0 <= k < |states| ==> OneWaiter(states[k])
    requires t in states[i].waiters && states[i].waiters[t].Sleeping?
    requires Found(states[i].exited, states[i].waiters[t].want)
    ensures exists c :: AboutToWake(states[i], c) && states[i].owner == Child(c)
    ensures states[i].waitingNode == Some(t)
  {
    RunSleepers(states, moves);
    assert SleepInv(states[i]);
    var c :| AboutToWake(states[i], c);
  }

  /** The code a wait hands back is the one its child's exit stored: the last taken of that pid, in order of exit. */
  lemma ReapedIsStored(states: seq<Family>, moves: seq<Move>, i: nat, t: Tid)
    requires Run(states, moves) && i < |states|
    requires t in states[i].waiters && states[i].waiters[t].Reaping?
    ensures
      var f := states[i];
      var Reaping(pid, code) := f.waiters[t];
      var taken := Codes(f.reaps, pid);
      |taken| > 0 && taken[|taken| - 1] == code && taken <= Codes(f.exits, pid)
  {
    RunInv(states, moves);
    assert Inv(states[i]);
  }

  /** Each exit is taken by at most one wait: a pid is taken no more often than it has exited, and never out of order. */
  lemma TakenOnce(states: seq<Family>, moves: seq<Move>, i: nat, c: Pid)
    requires Run(states, moves) && i < |states|
    ensures
      var f := states[i];
      && Codes(f.reaps, c) <= Codes(f.exits, c)
      && |Codes(f.exits, c)| == |Codes(f.reaps, c)| + if c in f.exited then 1 else 0
  {
    RunInv(states, moves);
    assert Inv(states[i]);
  }

  // ---- From the exit to the wait ----

  /** The codes `c` has called `process_exit` with, in order. */
  ghost function Called(moves: seq<Move>, c: Pid): seq<int> {
    if moves == [] then []
    else
      var last := moves[|moves| - 1];
      Called(moves[..|moves| - 1], c) + if last.CallExit? && last.c == c then [last.code] else []
  }

  /** The code a child on its way out has yet to store. */
  function Carried(f: Family, c: Pid): seq<int> {
    if c in f.kids && (f.kids[c].Exiting? || f.kids[c].Putting?) then [f.kids[c].code] else []
  }

  lemma WaiterCarries(f: Family, t: Tid, pick: Pid, f': Family, c: Pid)
    requires WaiterStep(f, t, pick, f')
    ensures Codes(f'.exits, c) + Carried(f', c) == Codes(f.exits, c) + Carried(f, c)
  {
    hide Codes;
  }

  lemma ChildCarries(f: Family, d: Pid, f': Family, c: Pid)
    requires ChildStep(f, d, f')
    ensures Codes(f'.exits, c) + Carried(f', c) == Codes(f.exits, c) + Carried(f, c)
  {
    hide Codes;
    if f.kids[d].Putting? {
      CodesGrow(f.exits, d, f.kids[d].code, c);
    }
  }

  lemma StepCarries(f: Family, m: Move, f': Family, c: Pid)
    requires Step(f, m, f')
    ensures Codes(f'.exits, c) + Carried(f', c) ==
            Codes(f.exits, c) + Carried(f, c) + if m.CallExit? && m.c == c then [m.code] else []
  {
    hide WaiterStep, ChildStep, Codes;
    match m
    case WaiterMoves(t, pick) => WaiterCarries(f, t, pick, f', c);
    case ChildMoves(d) => ChildCarries(f, d, f', c);
    case _ =>
  }

  /**
   * No exit is lost: over every interleaving, what a child has called `process_exit` with is, in order, what waits have
   * taken of it, the record in the table, and the code it is still on its way to store.
   */
  lemma {:induction false} ExitsReachWaits(states: seq<Family>, moves: seq<Move>, c: Pid)
    requires Run(states, moves)
    ensures
      var f := states[|moves|];
      Called(moves, c) == Codes(f.reaps, c) + (if c in f.exited then [f.exited[c]] else [])
                          + if c in f.kids && (f.kids[c].Exiting? || f.kids[c].Putting?) then [f.kids[c].code] else []
    decreases |moves|
  {
    hide Step, Codes, LockOk, PidsOk;
    RunInv(states, moves);
    assert Inv(states[|moves|]);
    if moves == [] {
      NothingCalled(states[0], c);
    } else {
      var n := |moves| - 1;
      RunInv(states[..n + 1], moves[..n]);
      assert Inv(states[..n + 1][n]);
      ExitsReachWaits(states[..n + 1], moves[..n], c);
      StepCarries(states[n], moves[n], states[n + 1], c);
    }
  }

  lemma NothingCalled(f: Family, c: Pid)
    requires Initial(f)
    ensures Codes(f.reaps, c) == [] && Carried(f, c) == []
  {
  }

  // ---- Two threads of one parent waiting ----

  ghost predicate Reachable(f: Family) {
    exists states: seq<Family>, moves: seq<Move> :: Run(states, moves) && states[|moves|] == f
  }

  lemma ReachStart(f: Family)
    requires Initial(f)
    ensures Reachable(f)
  {
    var moves: seq<Move> := [];
    assert Run([f], moves) && [f][|moves|] == f;
  }

  lemma ReachStep(f: Family, m: Move, f': Family)
    requires Reachable(f) && Step(f, m, f')
    ensures Reachable(f')
  {
    hide Initial, Step;
    var states: seq<Family>, moves: seq<Move> :| Run(states, moves) && states[|moves|] == f;
    assert Run(states + [f'], moves + [m]) && (states + [f'])[|moves + [m]|] == f';
  }

  /** A parent with pid 1, two threads and running children 5 and 6; thread `t` is inside, the node is `node`. */
  function TwoWaits(owner: Owner, pid: Pid, node: Option<Tid>, w1: WaiterPc, w2: WaiterPc): Family {
    Family(1, owner, {5, 6}, map[], pid, node, map[1 := w1, 2 := w2], map[5 := Alive, 6 := Alive], [], [])
  }

  /** The same once both sleep, thread 1 for child 5 and thread 2, registered last, for child 6. */
  function BothAsleep(owner: Owner, exited: map<Pid, int>, exits: seq<(Pid, int)>, five: ChildPc): Family {
    Family(1, owner, {5, 6}, exited, 6, Some(2), map[1 := Sleeping(5), 2 := Sleeping(6)], map[5 := five, 6 := Alive],
           exits, [])
  }

  lemma FirstSleeps()
    ensures Reachable(TwoWaits(Nobody, 5, Some(1), Sleeping(5), NotWaiting))
  {
    hide Reachable;
    var start := Family(1, Nobody, {}, map[], 0, None, map[1 := NotWaiting, 2 := NotWaiting], map[], [], []);
    ReachStart(start);
    var forked := start.(children := {5}, kids := map[5 := Alive]);
    ReachStep(start, ForkChild(5), forked);
    ReachStep(forked, ForkChild(6), TwoWaits(Nobody, 0, None, NotWaiting, NotWaiting));
    ReachStep(TwoWaits(Nobody, 0, None, NotWaiting, NotWaiting), CallWait(1, 5), TwoWaits(Nobody, 0, None, Entering(5), NotWaiting));
    ReachStep(TwoWaits(Nobody, 0, None, Entering(5), NotWaiting), WaiterMoves(1, 0), TwoWaits(Waiter(1), 0, None, Checking(5), NotWaiting));
    ReachStep(TwoWaits(Waiter(1), 0, None, Checking(5), NotWaiting), WaiterMoves(1, 0), TwoWaits(Waiter(1), 5, None, Looking(5), NotWaiting));
    ReachStep(TwoWaits(Waiter(1), 5, None, Looking(5), NotWaiting), WaiterMoves(1, 0), TwoWaits(Nobody, 5, Some(1), Sleeping(5), NotWaiting));
  }

  lemma SecondSleeps()
    ensures Reachable(BothAsleep(Nobody, map[], [], Alive))
  {
    hide Reachable;
    FirstSleeps();
    var first := Sleeping(5);
    ReachStep(TwoWaits(Nobody, 5, Some(1), first, NotWaiting), CallWait(2, 6), TwoWaits(Nobody, 5, Some(1), first, Entering(6)));
    ReachStep(TwoWaits(Nobody, 5, Some(1), first, Entering(6)), WaiterMoves(2, 0), TwoWaits(Waiter(2), 5, Some(1), first, Checking(6)));
    ReachStep(TwoWaits(Waiter(2), 5, Some(1), first, Checking(6)), WaiterMoves(2, 0), TwoWaits(Waiter(2), 6, Some(1), first, Looking(6)));
    ReachStep(TwoWaits(Waiter(2), 6, Some(1), first, Looking(6)), WaiterMoves(2, 0), BothAsleep(Nobody, map[], [], Alive));
  }

  /**
   * With two threads waiting, the second overwrites the first's registration: child 5 exits, finds no one registered
   * for it, and thread 1 sleeps on beside the record it asked for, with the lock free and the child gone.
   */
  lemma SecondWaiterLosesWake()
    ensures Reachable(BothAsleep(Nobody, map[5 := 7], [(5, 7)], Gone))
    ensures
      var f := BothAsleep(Nobody, map[5 := 7], [(5, 7)], Gone);
      f.waiters[1] == Sleeping(5) && Found(f.exited, 5) && f.owner == Nobody && !exists c :: AboutToWake(f, c)
  {
    hide Reachable;
    SecondSleeps();
    ReachStep(BothAsleep(Nobody, map[], [], Alive), CallExit(5, 7), BothAsleep(Nobody, map[], [], Exiting(7)));
    ReachStep(BothAsleep(Nobody, map[], [], Exiting(7)), ChildMoves(5), BothAsleep(Child(5), map[], [], Putting(7)));
    ReachStep(BothAsleep(Child(5), map[], [], Putting(7)), ChildMoves(5), BothAsleep(Child(5), map[5 := 7], [(5, 7)], Notifying));
    ReachStep(BothAsleep(Child(5), map[5 := 7], [(5, 7)], Notifying), ChildMoves(5), BothAsleep(Child(5), map[5 := 7], [(5, 7)], Unlocking));
    ReachStep(BothAsleep(Child(5), map[5 := 7], [(5, 7)], Unlocking), ChildMoves(5), BothAsleep(Nobody, map[5 := 7], [(5, 7)], Gone));
  }

  /**
   * Exactly when an exit wakes a sleeping thread: its node must be the one registered last, and the pid registered
   * last must be the child's, or the parent's own.
   */
  lemma ExitWakesExactly(f: Family, c: Pid, f': Family, t: Tid)
    requires c in f.kids && f.kids[c].Notifying? && ChildStep(f, c, f')
    requires t in f.waiters && f.waiters[t].Sleeping?
    ensures f'.waiters[t].Woken? <==> f.waitingNode == Some(t) && (f.waitingPid == c || f.waitingPid == f.self)
    ensures f'.waiters[t].Woken? || f'.waiters[t] == f.waiters[t]
  {
  }

  // ---- Wakes that find nobody asleep ----

  /** Whoever registered is a thread of the parent. */
  ghost predicate NodeOk(f: Family) {
    f.waitingNode.Some? ==> f.waitingNode.value in f.waiters
  }

  lemma WaiterKeepsNode(f: Family, t: Tid, pick: Pid, f': Family)
    requires NodeOk(f) && WaiterStep(f, t, pick, f')
    ensures NodeOk(f')
  {
  }

  lemma ChildKeepsNode(f: Family, c: Pid, f': Family)
    requires NodeOk(f) && ChildStep(f, c, f')
    ensures NodeOk(f')
  {
  }

  lemma StepKeepsNode(f: Family, m: Move, f': Family)
    requires NodeOk(f) && Step(f, m, f')
    ensures NodeOk(f')
  {
    hide WaiterStep, ChildStep;
    match m
    case WaiterMoves(t, pick) => WaiterKeepsNode(f, t, pick, f');
    case ChildMoves(c) => ChildKeepsNode(f, c, f');
    case _ =>
  }

  lemma {:induction false} RunNode(states: seq<Family>, moves: seq<Move>)
    requires Run(states, moves)
    ensures NodeOk(states[|moves|])
    decreases |moves|
  {
    hide NodeOk, Step;
    if moves == [] {
      StartNode(states[0]);
    } else {
      var n := |moves| - 1;
      RunNode(states[..n + 1], moves[..n]);
      StepKeepsNode(states[n], moves[n], states[n + 1]);
    }
  }

  lemma StartNode(f: Family)
    requires Initial(f)
    ensures NodeOk(f)
  {
  }

  lemma WakeFinds(f: Family, c: Pid, f': Family)
    requires LockOk(f) && NodeOk(f) && AboutToWake(f, c) && ChildStep(f, c, f')
    ensures f'.waiters != f.waiters <==> f.waitingNode.Some? && f.waiters[f.waitingNode.value].Sleeping?
    ensures f'.waiters == f.waiters && f.waitingNode.Some? ==>
              var pc := f.waiters[f.waitingNode.value];
              pc.NotWaiting? || pc.Entering? || pc.Woken?
  {
    if f.waitingNode.Some? && f.waiters[f.waitingNode.value].Sleeping? {
      assert f'.waiters[f.waitingNode.value].Woken?;
    }
  }

  /**
   * Exactly when the wake of an exit finds the registered thread asleep, over every run: otherwise no thread has ever
   * registered, or the one that did is outside `process_wait`, about to enter it, or woken already and waiting for the
   * lock.
   */
  lemma WakeFindsSleeperExactly(states: seq<Family>, moves: seq<Move>, i: nat, c: Pid)
    requires Run(states, moves) && i < |moves| && moves[i] == ChildMoves(c) && AboutToWake(states[i], c)
    ensures
      var f, f' := states[i], states[i + 1];
      && (f.waitingNode.Some? ==> f.waitingNode.value in f.waiters)
      && (f'.waiters != f.waiters <==> f.waitingNode.Some? && f.waiters[f.waitingNode.value].Sleeping?)
      && (f'.waiters == f.waiters && f.waitingNode.Some? ==>
            var pc := f.waiters[f.waitingNode.value];
            pc.NotWaiting? || pc.Entering? || pc.Woken?)
  {
    hide ChildStep, PidsOk, RecordsOk;
    RunInv(states, moves);
    RunNode(states[..i + 1], moves[..i]);
    assert Inv(states[i]) && Step(states[i], moves[i], states[i + 1]);
    WakeFinds(states[i], c, states[i + 1]);
  }

  /** The family once the exiting child `c` has taken the lock and stored its record. */
  function Stored(f: Family, c: Pid, code: int): Family {
    f.SetKid(c, Notifying).(owner := Child(c), exited := f.exited[c := code], exits := f.exits + [(c, code)])
  }

  /** The family once the thread `t` has called `process_wait(0)` and gone to sleep. */
  function Slept(f: Family, t: Tid): Family {
    f.SetWaiter(t, Sleeping(0)).(waitingPid := f.self, waitingNode := Some(t))
  }

  /** The family once the thread `t` has returned from `process_wait(0)` with the record of `c`. */
  function Reaped(f: Family, t: Tid, c: Pid): Family
    requires c in f.exited
  {
    f.SetWaiter(t, NotWaiting)
     .(waitingPid := f.self, exited := f.exited - {c}, reaps := f.reaps + [(c, f.exited[c])])
  }

  lemma ReachStored(f: Family, c: Pid, code: int)
    requires Reachable(f) && f.owner == Nobody && c in f.kids && f.kids[c].Alive?
    ensures Reachable(Stored(f, c, code))
  {
    hide Reachable;
    var called := f.SetKid(c, Exiting(code));
    var locked := called.SetKid(c, Putting(code)).(owner := Child(c));
    ReachStep(f, CallExit(c, code), called);
    ReachStep(called, ChildMoves(c), locked);
    assert locked.kids[c := Notifying] == f.kids[c := Notifying];
    ReachStep(locked, ChildMoves(c), Stored(f, c, code));
  }

  lemma ReachGone(f: Family, c: Pid)
    requires Reachable(f) && c in f.kids && f.kids[c].Notifying?
    ensures Reachable((if AboutToWake(f, c) then Wake(f) else f).SetKid(c, Gone).(owner := Nobody))
  {
    hide Reachable, Wake;
    var woke := if AboutToWake(f, c) then Wake(f) else f;
    ReachStep(f, ChildMoves(c), woke.SetKid(c, Unlocking));
    assert woke.kids[c := Unlocking][c := Gone] == woke.kids[c := Gone];
    ReachStep(woke.SetKid(c, Unlocking), ChildMoves(c), woke.SetKid(c, Gone).(owner := Nobody));
  }

  /** A thread that calls `process_wait(0)` gets as far as its first look at the table. */
  lemma ReachLooking(f: Family, t: Tid)
    requires Reachable(f) && f.owner == Nobody && t in f.waiters && f.waiters[t].NotWaiting?
    ensures Reachable(f.SetWaiter(t, Looking(0)).(owner := Waiter(t), waitingPid := f.self))
  {
    hide Reachable;
    var called := f.SetWaiter(t, Entering(0));
    var locked := called.SetWaiter(t, Checking(0)).(owner := Waiter(t));
    ReachStep(f, CallWait(t, 0), called);
    ReachStep(called, WaiterMoves(t, 0), locked);
    assert locked.waiters[t := Looking(0)] == f.waiters[t := Looking(0)];
    ReachStep(locked, WaiterMoves(t, 0), f.SetWaiter(t, Looking(0)).(owner := Waiter(t), waitingPid := f.self));
  }

  lemma ReachSlept(f: Family, t: Tid)
    requires Reachable(f) && f.owner == Nobody && t in f.waiters && f.waiters[t].NotWaiting? && f.exited == map[]
    ensures Reachable(Slept(f, t))
  {
    hide Reachable;
    ReachLooking(f, t);
    var looking := f.SetWaiter(t, Looking(0)).(owner := Waiter(t), waitingPid := f.self);
    assert looking.waiters[t := Sleeping(0)] == f.waiters[t := Sleeping(0)];
    ReachStep(looking, WaiterMoves(t, 0), Slept(f, t));
  }

  lemma ReachReaped(f: Family, t: Tid, c: Pid)
    requires Reachable(f) && f.owner == Nobody && t in f.waiters && c in f.exited
    requires f.waiters[t].NotWaiting? || (f.waiters[t] == Woken(0) && f.waitingPid == f.self)
    ensures Reachable(Reaped(f, t, c))
  {
    hide Reachable;
    var looking := f.SetWaiter(t, Looking(0)).(owner := Waiter(t), waitingPid := f.self);
    if f.waiters[t].NotWaiting? {
      ReachLooking(f, t);
    } else {
      ReachStep(f, WaiterMoves(t, 0), looking);
    }
    var reaping := Reaped(f, t, c).SetWaiter(t, Reaping(c, f.exited[c])).(owner := Waiter(t));
    assert looking.waiters[t := reaping.waiters[t]] == reaping.waiters;
    ReachStep(looking, WaiterMoves(t, c), reaping);
    assert reaping.waiters[t := NotWaiting] == Reaped(f, t, c).waiters;
    ReachStep(reaping, WaiterMoves(t, 0), Reaped(f, t, c));
  }

  /** A parent with one thread and two running children. */
  function TwoChildren(): Family {
    Family(1, Nobody, {5, 6}, map[], 0, None, map[1 := NotWaiting], map[5 := Alive, 6 := Alive], [], [])
  }

  lemma ReachTwoChildren()
    ensures Reachable(TwoChildren())
  {
    hide Reachable;
    var start := Family(1, Nobody, {}, map[], 0, None, map[1 := NotWaiting], map[], [], []);
    ReachStart(start);
    var forked := start.(children := {5}, kids := map[5 := Alive]);
    ReachStep(start, ForkChild(5), forked);
    assert forked.children + {6} == {5, 6};
    ReachStep(forked, ForkChild(6), TwoChildren());
  }

  /**
   * Even a parent with one thread gets stray wakes, as the registration outlives the wait. It waits for any child;
   * child 5 exits and wakes it. If child 6 exits before the thread runs again, the thread is queued a second time
   * (`woken`); if it exits after that wait is over, the thread is queued wherever it then is (`returned`). And where
   * child 5 had exited before the wait, no thread registered at all, and child 6 passes on a null node (`unset`).
   */
  lemma StrayWakes() returns (woken: Family, returned: Family, unset: Family)
    ensures Reachable(woken) && Reachable(returned) && Reachable(unset)
    ensures woken.waiters.Keys == returned.waiters.Keys == unset.waiters.Keys == {1}
    ensures AboutToWake(woken, 6) && woken.waitingNode == Some(1) && woken.waiters[1].Woken?
    ensures AboutToWake(returned, 6) && returned.waitingNode == Some(1) && returned.waiters[1].NotWaiting?
    ensures AboutToWake(unset, 6) && unset.waitingNode == None
  {
    hide Reachable;
    ReachTwoChildren();
    var start := TwoChildren();

    ReachSlept(start, 1);
    ReachStored(Slept(start, 1), 5, 7);
    var stored := Stored(Slept(start, 1), 5, 7);
    ReachGone(stored, 5);
    var fiveGone := Wake(stored).SetKid(5, Gone).(owner := Nobody);
    ReachStored(fiveGone, 6, 8);
    woken := Stored(fiveGone, 6, 8);
    ReachReaped(fiveGone, 1, 5);
    ReachStored(Reaped(fiveGone, 1, 5), 6, 8);
    returned := Stored(Reaped(fiveGone, 1, 5), 6, 8);

    ReachStored(start, 5, 7);
    ReachGone(Stored(start, 5, 7), 5);
    var early := Stored(start, 5, 7).SetKid(5, Gone).(owner := Nobody);
    ReachReaped(early, 1, 5);
    ReachStored(Reaped(early, 1, 5), 6, 8);
    unset := Stored(Reaped(early, 1, 5), 6, 8);
  }
}

/** Which faults and forks find the frames they need, and a kernel store that shows in a child (src/mem/paging.c). */
module CowForks {
  import opened Machine
  import opened Bitmaps
  import opened CowSpec
  import opened CowTheorems

  // ---- Frames ----

  ghost predicate Bounded(used: set<nat>) {
    forall f :: f in used ==> f < FRAMES
  }

  /** The first `n` numbers. */
  function Numbers(n: nat): (r: set<nat>)
    ensures |r| == n && forall f: nat :: f in r <==> f < n
  {
    if n == 0 then {} else Numbers(n - 1) + {n - 1}
  }

  lemma {:induction false} LeastFree(used: set<nat>, f: nat)
    requires f < FRAMES && f !in used
    ensures exists g: nat :: IsFirstFree(used, FRAMES, g)
    decreases f
  {
    if c: nat :| c < f && c !in used {
      LeastFree(used, c);
    } else {
      assert IsFirstFree(used, FRAMES, f);
    }
  }

  /** A frame is found exactly if not all of them are in use. */
  lemma FrameLeft(used: set<nat>)
    requires Bounded(used)
    ensures FirstFree(used).Some? <==> |used| < FRAMES
    ensures |used| <= FRAMES
  {
    hide Numbers;
    var all := Numbers(FRAMES);
    SubsetSize(used, all);
    if FirstFree(used).Some? {
      SubsetSize(used, all - {FirstFree(used).value});
    } else if |used| < FRAMES {
      if all <= used {
        SubsetSize(all, used);
      }
      var f :| f in all && f !in used;
      LeastFree(used, f);
    }
  }

  /** The frames that grow by one hold one more. */
  lemma OneMore(used: set<nat>)
    requires Bounded(used) && FirstFree(used).Some?
    ensures var used' := used + {FirstFree(used).value}; Bounded(used') && |used'| == |used| + 1
  {
  }

  // ---- Faults ----

  /** The frames a fault takes: one for a missing table, one for a missing page or a private copy. */
  function FaultNeeds(s: Cow, p: nat, v: nat): (n: nat)
    requires p in s.dirs
    ensures n <= 2 && (s.Has(p, v) ==> n <= 1 + if s.Count(s.At(p, v).frame) > 0 then 1 else 0)
  {
    (if v / TABLE_ENTRIES in s.dirs[p].tables then 0 else 1)
    + (if !s.Has(p, v) || (!s.At(p, v).rw && s.Count(s.At(p, v).frame) > 0) then 1 else 0)
  }

  lemma TableNeeds(s: Cow, p: nat, i: nat)
    requires Inv(s) && p in s.dirs
    ensures WithTable(s, p, i).Some? <==> i in s.dirs[p].tables || |s.used| < FRAMES
    ensures WithTable(s, p, i).Some? ==>
              |WithTable(s, p, i).value.used| == |s.used| + if i in s.dirs[p].tables then 0 else 1
  {
    FrameLeft(s.used);
    hide FirstFree, CountsOk, TablesOk, MappedOk;
    if i !in s.dirs[p].tables && |s.used| < FRAMES {
      OneMore(s.used);
    }
  }

  /** The page's own part of a fault. */
  ghost function Faulted(t: Cow, p: nat, v: nat): Option<Cow>
    requires Inv(t) && p in t.dirs
  {
    if !t.Has(p, v) then MapZero(t, p, v)
    else PageView(t, p, v); if !t.At(p, v).rw then Unshare(t, p, v)
    else Some(t)
  }

  lemma PageNeeds(t: Cow, p: nat, v: nat)
    requires Inv(t) && p in t.dirs
    ensures
      var need := if !t.Has(p, v) || (!t.At(p, v).rw && t.Count(t.At(p, v).frame) > 0) then 1 else 0;
      && (Faulted(t, p, v).Some? <==> |t.used| + need <= FRAMES)
      && (Faulted(t, p, v).Some? ==> |Faulted(t, p, v).value.used| == |t.used| + need)
  {
    FrameLeft(t.used);
    hide FirstFree, CountsOk, TablesOk, MappedOk;
    if |t.used| < FRAMES {
      OneMore(t.used);
    }
  }

  /** A fault panics exactly if fewer frames are free than it needs. */
  lemma FaultSucceedsExactly(s: Cow, p: nat, v: nat)
    requires Inv(s) && p in s.dirs && UserPage(v)
    ensures MapPage(s, p, v).Some? <==> |s.used| + FaultNeeds(s, p, v) <= FRAMES
    ensures MapPage(s, p, v).Some? ==> |MapPage(s, p, v).value.used| == |s.used| + FaultNeeds(s, p, v)
  {
    hide Inv, WithTable, MapZero, Unshare;
    TableNeeds(s, p, v / TABLE_ENTRIES);
    InvBounded(s);
    FrameLeft(s.used);
    var r := WithTable(s, p, v / TABLE_ENTRIES);
    if r.Some? {
      TableKeeps(s, p, v / TABLE_ENTRIES, r.value);
      TableSamePages(s, p, v / TABLE_ENTRIES, r.value);
      PageNeeds(r.value, p, v);
      assert MapPage(s, p, v) == Faulted(r.value, p, v);
    }
  }

  lemma InvBounded(s: Cow)
    requires Inv(s)
    ensures Bounded(s.used)
  {
  }

  // ---- Forks ----

  /** The child's page tables are its own directory and those forked so far. */
  lemma {:induction false} ForkedTables(s: Cow, p: nat, c: nat, i: nat, t: Cow)
    requires p in s.dirs && c in s.dirs && p != c && ForkTables(s, p, c, i) == Some(t) && FIRST_USER_TABLE <= i
    requires s.dirs[c].tables.Keys == {SELF_ENTRY}
    ensures forall j :: j in t.dirs[c].tables ==> j == SELF_ENTRY || j < i
    decreases i
  {
    if FIRST_USER_TABLE < i {
      var u := ForkTables(s, p, c, i - 1).value;
      ForkedTables(s, p, c, i - 1, u);
      if i - 1 in u.dirs[p].tables {
        var w := WithTable(u, c, i - 1).value;
        SharedRest(w, p, c, (i - 1) * TABLE_ENTRIES, i * TABLE_ENTRIES);
      }
    }
  }

  lemma {:induction false} SharedRest(s: Cow, p: nat, c: nat, lo: nat, hi: nat)
    requires p in s.dirs && c in s.dirs && p != c
    ensures ShareRange(s, p, c, lo, hi).used == s.used
    ensures forall q :: q in s.dirs ==> ShareRange(s, p, c, lo, hi).dirs[q].tables == s.dirs[q].tables
    decreases hi
  {
    hide Share;
    if lo < hi {
      SharedRest(s, p, c, lo, hi - 1);
      ShareRest(ShareRange(s, p, c, lo, hi - 1), p, c, hi - 1);
    }
  }

  /** The user page tables of `p` below number `i`. */
  function UserTables(s: Cow, p: nat, i: nat): set<nat>
    requires p in s.dirs
  {
    set j | j in s.dirs[p].tables && FIRST_USER_TABLE <= j < i
  }

  lemma UserTablesNext(s: Cow, p: nat, i: nat)
    requires p in s.dirs && FIRST_USER_TABLE <= i
    ensures UserTables(s, p, FIRST_USER_TABLE) == {}
    ensures |UserTables(s, p, i + 1)| == |UserTables(s, p, i)| + if i in s.dirs[p].tables then 1 else 0
  {
    assert UserTables(s, p, i + 1) == UserTables(s, p, i) + if i in s.dirs[p].tables then {i} else {};
  }

  /** One table of a fork takes one frame if the parent has the table. */
  lemma ForkTableNeeds(s: Cow, p: nat, c: nat, i: nat)
    requires p in s.dirs && c in s.dirs && p != c && Bounded(s.used) && i !in s.dirs[c].tables
    ensures ForkTable(s, p, c, i).Some? <==> i !in s.dirs[p].tables || |s.used| < FRAMES
    ensures ForkTable(s, p, c, i).Some? ==>
              var t := ForkTable(s, p, c, i).value;
              && Bounded(t.used) && |t.used| == |s.used| + (if i in s.dirs[p].tables then 1 else 0)
              && t.dirs[p].tables == s.dirs[p].tables
  {
    hide FirstFree, ShareRange, Bounded;
    FrameLeft(s.used);
    if i in s.dirs[p].tables && |s.used| < FRAMES {
      OneMore(s.used);
      SharedRest(WithTable(s, c, i).value, p, c, i * TABLE_ENTRIES, (i + 1) * TABLE_ENTRIES);
    }
  }

  lemma {:induction false} ForkTablesNeed(s: Cow, p: nat, c: nat, i: nat)
    requires p in s.dirs && c in s.dirs && p != c && Bounded(s.used) && s.dirs[c].tables.Keys == {SELF_ENTRY}
    requires FIRST_USER_TABLE <= i <= USER_TABLES_END
    ensures ForkTables(s, p, c, i).Some? <==> |s.used| + |UserTables(s, p, i)| <= FRAMES
    ensures ForkTables(s, p, c, i).Some? ==>
              var t := ForkTables(s, p, c, i).value;
              Bounded(t.used) && |t.used| == |s.used| + |UserTables(s, p, i)| && t.dirs[p].tables == s.dirs[p].tables
    decreases i
  {
    hide UserTables, ForkTable, Bounded;
    FrameLeft(s.used);
    if i == FIRST_USER_TABLE {
      UserTablesNext(s, p, i);
    } else {
      ForkTablesNeed(s, p, c, i - 1);
      UserTablesNext(s, p, i - 1);
      var r := ForkTables(s, p, c, i - 1);
      if r.Some? {
        ForkedTables(s, p, c, i - 1, r.value);
        FrameLeft(r.value.used);
        ForkTableNeeds(r.value, p, c, i - 1);
      }
    }
  }

  /**
   * A fork panics exactly if fewer frames are free than it needs: one for the directory and one for each user page table
   * of the parent, however many pages these have.
   */
  lemma ForkSucceedsExactly(s: Cow, p: nat, c: nat)
    requires Inv(s) && p in s.dirs && c !in s.dirs
    ensures Fork(s, p, c).Some? <==> |s.used| + 1 + |UserTables(s, p, USER_TABLES_END)| <= FRAMES
  {
    hide CountsOk, TablesOk, MappedOk, UserTables, ForkTables, FirstFree;
    FrameLeft(s.used);
    if NewDir(s, c).Some? {
      OneMore(s.used);
      var u := NewDir(s, c).value;
      ForkTablesNeed(u, p, c, USER_TABLES_END);
      SameUserTables(s, u, p);
    }
  }

  lemma FewUserTables(s: Cow, p: nat)
    requires p in s.dirs
    ensures |UserTables(s, p, USER_TABLES_END)| <= USER_TABLES_END
  {
    hide Numbers;
    SubsetSize(UserTables(s, p, USER_TABLES_END), Numbers(USER_TABLES_END));
  }

  lemma SameUserTables(s: Cow, u: Cow, p: nat)
    requires p in s.dirs && p in u.dirs && u.dirs[p].tables == s.dirs[p].tables
    ensures UserTables(u, p, USER_TABLES_END) == UserTables(s, p, USER_TABLES_END)
  {
  }

  // ---- Operations ----

  /**
   * Exactly when each operation finds the frames it needs. A load faults only for a page that is not there, and so does a
   * store of the kernel's; a process's own store faults unless the page is writable.
   */
  lemma StepSucceedsExactly(s: Cow, op: MemoryOp)
    requires Inv(s) && Enabled(s.dirs.Keys, op)
    ensures op.Load? || op.KernelStore? ==>
              (CowStep(s, op).Some? <==> s.Has(op.p, op.v) || |s.used| + FaultNeeds(s, op.p, op.v) <= FRAMES)
    ensures op.Store? ==>
              (CowStep(s, op).Some? <==>
                 (s.Has(op.p, op.v) && s.At(op.p, op.v).rw) || |s.used| + FaultNeeds(s, op.p, op.v) <= FRAMES)
    ensures op.ForkChild? ==>
              (CowStep(s, op).Some? <==> |s.used| + 1 + |UserTables(s, op.p, USER_TABLES_END)| <= FRAMES)
    ensures op.ReleasePages? || op.ReleaseSpace? ==> CowStep(s, op).Some?
    ensures (op.Load? || op.Store? || op.KernelStore?) && |s.used| + 2 <= FRAMES ==> CowStep(s, op).Some?
  {
    hide Inv, MapPage, Fork, FaultNeeds, UserTables;
    if op.Load? || op.Store? || op.KernelStore? {
      FaultSucceedsExactly(s, op.p, op.v);
    } else if op.ForkChild? {
      ForkSucceedsExactly(s, op.p, op.c);
    }
  }

  // ---- Releases ----

  /** After a range of pages is released, each frame has the other mappers it had, and is free if it lost its last one. */
  lemma {:induction false} RangeFrames(s: Cow, p: nat, lo: nat, hi: nat, h: nat)
    requires Inv(s) && p in s.dirs && lo <= hi
    ensures
      var t := UnmapRange(s, p, lo, hi);
      && Mappers(t.dirs, h) == (set x | x in Mappers(s.dirs, h) && !(x.0 == p && lo <= x.1 < hi))
      && (h in t.used <==> h in s.used && (Mappers(s.dirs, h) == {} || Mappers(t.dirs, h) != {}))
    decreases hi
  {
    hide Inv, Mappers, Unmap;
    if lo < hi {
      RangeFrames(s, p, lo, hi - 1, h);
      var t := UnmapRange(s, p, lo, hi - 1);
      UnmapRangeKeeps(s, p, lo, hi - 1);
      PageIsMapper(t, p, hi - 1, h);
      UnmappedFrame(t, p, hi - 1, h);
    }
  }

  lemma UnmappedFrame(s: Cow, p: nat, v: nat, h: nat)
    requires Inv(s) && p in s.dirs
    ensures
      var t := Unmap(s, p, v);
      && Mappers(t.dirs, h) == Mappers(s.dirs, h) - {(p, v)}
      && (h in t.used <==> h in s.used && (Mappers(s.dirs, h) == {} || Mappers(t.dirs, h) != {}))
  {
    hide Mappers, CountsOk, TablesOk;
    PageIsMapper(s, p, v, h);
    if s.Has(p, v) {
      UnmapMappers(s, p, v, h);
    }
  }

  /** After a range of page tables is released, their frames are free and they are gone, and nothing else is. */
  lemma {:induction false} TablesDropped(s: Cow, p: nat, lo: nat, hi: nat)
    requires p in s.dirs
    ensures
      var t := DropTables(s, p, lo, hi);
      && (forall h :: h in t.used <==>
            h in s.used && !exists i :: lo <= i < hi && i in s.dirs[p].tables && s.dirs[p].tables[i] == h)
      && (forall i :: i in t.dirs[p].tables <==> i in s.dirs[p].tables && !(lo <= i < hi))
      && (forall i :: i in t.dirs[p].tables ==> t.dirs[p].tables[i] == s.dirs[p].tables[i])
      && (forall q :: q in s.dirs && q != p ==> t.dirs[q] == s.dirs[q])
    decreases hi
  {
    if lo < hi {
      TablesDropped(s, p, lo, hi - 1);
    }
  }

  /**
   * When the user space of a process is released, exactly two kinds of frames come free: those of its user page tables,
   * and those that only its own pages map.
   */
  lemma SpaceReleased(s: Cow, p: nat, h: nat)
    requires Inv(s) && p in s.dirs
    ensures
      var r := CowStep(s, ReleaseSpace(p));
      r.Some? &&
      (h in r.value.used <==>
         && h in s.used
         && (forall i :: 1 <= i < 768 && i in s.dirs[p].tables ==> s.dirs[p].tables[i] != h)
         && (Mappers(s.dirs, h) == {} || exists x :: x in Mappers(s.dirs, h) && x.0 != p))
  {
    hide Inv, Mappers, UnmapRange, DropTables, MapPage, Fork;
    var u := UnmapRange(s, p, FIRST_USER_PAGE, USER_PAGES_END);
    RangeFrames(s, p, FIRST_USER_PAGE, USER_PAGES_END, h);
    UnmapRangeKeeps(s, p, FIRST_USER_PAGE, USER_PAGES_END);
    TablesDropped(u, p, FIRST_USER_TABLE, USER_TABLES_END);
    MappersAreUser(s, h);
    var rest := set x | x in Mappers(s.dirs, h) && x.0 != p;
    assert Mappers(u.dirs, h) == rest;
    if rest != {} {
      var x :| x in rest;
      assert x in Mappers(s.dirs, h) && x.0 != p;
    } else {
      forall x | x in Mappers(s.dirs, h)
        ensures x.0 == p
      {
        assert x !in rest;
      }
    }
    var t := DropTables(u, p, FIRST_USER_TABLE, USER_TABLES_END);
    assert CowStep(s, ReleaseSpace(p)) == Some(t);
  }

  lemma MappersAreUser(s: Cow, h: nat)
    requires Inv(s)
    ensures forall x :: x in Mappers(s.dirs, h) ==> FIRST_USER_PAGE <= x.1 < USER_PAGES_END
  {
    forall x | x in Mappers(s.dirs, h)
      ensures FIRST_USER_PAGE <= x.1 < USER_PAGES_END
    {
      assert s.Has(x.0, x.1);
    }
  }

  /** The user pages are those from 4 MB to 3 GB, and there are 32 MB of frames. */
  lemma UserSpaceIs(v: nat)
    ensures UserPage(v) <==> 0x40_0000 <= v * PAGE_SIZE < 0xC000_0000
    ensures FRAMES * PAGE_SIZE == 0x200_0000
  {
  }

  // ---- The eager memory, byte by byte ----

  /** What each operation on eagerly copied memory does to what is read. */
  lemma EagerMeans(e: Spaces, op: MemoryOp, q: nat, w: nat)
    requires Enabled(e.Keys, op)
    ensures
      var n := EagerStep(e, op);
      && n.Keys == e.Keys + (if op.ForkChild? then {op.c} else {})
      && (q in n ==>
            var was := if op.ForkChild? && q == op.c then e[op.p] else e[q];
            if (op.Load? || op.Store? || op.KernelStore?) && q == op.p && w == op.v then
              w in n[q] && forall o :: 0 <= o < PAGE_SIZE ==>
                n[q][w][o] == if !op.Load? && o == op.off then op.b else if w in was then was[w][o] else 0
            else if (op.ReleasePages? && q == op.p && op.lo <= w < op.hi)
                    || (op.ReleaseSpace? && q == op.p && 1024 <= w < 768 * 1024) then
              w !in n[q]
            else
              (w in n[q] <==> w in was) && (w in was ==> n[q][w] == was[w]))
  {
  }

  // ---- A kernel store that shows in a child ----

  /**
   * Right after a fork, a kernel store that changes a page of the parent is not private: the child reads the new byte.
   */
  lemma ForkExposes(s: Cow, p: nat, c: nat, t: Cow, v: nat, off: nat, b: byte)
    requires Inv(s) && s.Has(p, v) && c !in s.dirs && Fork(s, p, c) == Some(t) && UserPage(v) && off < PAGE_SIZE
    ensures Inv(t) && Enabled(t.dirs.Keys, KernelStore(p, v, off, b))
    ensures StaysPrivate(t, KernelStore(p, v, off, b)) <==> View(s)[p][v][off] == b
    ensures
      var r := CowStep(t, KernelStore(p, v, off, b));
      && r.Some? && Inv(r.value)
      && c in r.value.dirs && v in View(r.value)[c] && View(r.value)[c][v][off] == b
  {
    hide Inv, Mappers, Fork, View, MapPage;
    ForkKeeps(s, p, c, t);
    ForkShares(s, p, c, t, v);
    ViewKeys(s);
    ViewKeys(t);
    PageView(s, p, v);
    PageView(t, p, v);
    SharedHasCount(t, p, c, v);
    SharedStoreShows(t, p, c, v, off, b);
  }

  lemma SharedStoreShows(s: Cow, p: nat, c: nat, v: nat, off: nat, b: byte)
    requires Inv(s) && s.Has(p, v) && s.Has(c, v) && s.At(c, v).frame == s.At(p, v).frame < FRAMES && off < PAGE_SIZE
    ensures var u := StoreByte(s, p, v, off, b); Inv(u) && c in View(u) && v in View(u)[c] && View(u)[c][v][off] == b
  {
    hide CountsOk, TablesOk, MappedOk, Mappers, View;
    var u := StoreByte(s, p, v, off, b);
    StoreInv(s, p, v, off, b);
    ViewKeys(u);
    PageView(u, c, v);
  }

  lemma SharedHasCount(s: Cow, p: nat, c: nat, v: nat)
    requires Inv(s) && s.Has(p, v) && s.Has(c, v) && p != c && s.At(c, v).frame == s.At(p, v).frame
    ensures s.Count(s.At(p, v).frame) > 0
  {
    SubsetSize({(p, v), (c, v)}, Mappers(s.dirs, s.At(p, v).frame));
  }

  lemma RunOn(s: Cow, ops: seq<MemoryOp>, u: Cow, op: MemoryOp, t: Cow)
    requires Inv(s) && CowRun(s, ops) == Some(u) && Enabled(u.dirs.Keys, op) && CowStep(u, op) == Some(t)
    ensures CowRun(s, ops + [op]) == Some(t)
  {
    hide Inv, CowStep;
    assert (ops + [op])[..|ops + [op]| - 1] == ops;
  }

  lemma EagerRunOn(e: Spaces, ops: seq<MemoryOp>, f: Spaces, op: MemoryOp)
    requires EagerRun(e, ops) == Some(f) && Enabled(f.Keys, op)
    ensures EagerRun(e, ops + [op]) == Some(EagerStep(f, op))
  {
    hide EagerStep;
    assert (ops + [op])[..|ops + [op]| - 1] == ops;
  }

  /** The first address space, as it is when paging starts. */
  function FirstSpace(p: nat, d: nat, ram: seq<Page>): Cow {
    Cow({d}, map[], map[p := PageDir(map[SELF_ENTRY := d], map[])], ram)
  }

  lemma FirstSpaceInv(p: nat, d: nat, ram: seq<Page>)
    requires d < FRAMES && |ram| == FRAMES
    ensures Inv(FirstSpace(p, d, ram)) && View(FirstSpace(p, d, ram)) == map[p := map[]]
  {
  }

  /** A load of a page that is not there, with two frames left. */
  lemma Touch(s: Cow, p: nat, v: nat)
    requires Inv(s) && p in s.dirs && !s.Has(p, v) && UserPage(v) && |s.used| + 2 <= FRAMES
    ensures CowStep(s, Load(p, v)).Some?
    ensures
      var t := CowStep(s, Load(p, v)).value;
      t.Has(p, v) && t.dirs.Keys == s.dirs.Keys && |t.used| <= |s.used| + 2
  {
    hide Inv, MapPage, View, ViewOf;
    FaultSucceedsExactly(s, p, v);
    var t := MapPage(s, p, v).value;
    MapPageKeeps(s, p, v, t);
    ViewKeys(s);
    ViewKeys(t);
  }

  /** From the start: the process touches a page. */
  lemma FirstTouch(s: Cow, p: nat, d: nat, v: nat) returns (t: Cow)
    requires d < FRAMES && |s.ram| == FRAMES && s == FirstSpace(p, d, s.ram) && UserPage(v)
    ensures Inv(s) && View(s) == map[p := map[]]
    ensures CowRun(s, [Load(p, v)]) == Some(t) && t.Has(p, v) && t.dirs.Keys == {p} && |t.used| <= 3
  {
    FirstSpaceInv(p, d, s.ram);
    hide Inv, CowStep, View, ViewOf;
    Touch(s, p, v);
    t := CowStep(s, Load(p, v)).value;
    assert CowRun(s, []) == Some(s);
    hide CowRun;
    RunOn(s, [], s, Load(p, v), t);
    assert [] + [Load(p, v)] == [Load(p, v)];
  }

  /** A process touches a page and forks, and then the kernel stores a byte into that page of the parent. */
  function TouchForkStore(p: nat, c: nat, v: nat, off: nat, b: byte): seq<MemoryOp> {
    [Load(p, v)] + [ForkChild(p, c)] + [KernelStore(p, v, off, b)]
  }

  /** Process `c` reads `b` at that place. */
  predicate Reads(e: Spaces, c: nat, v: nat, off: nat, b: byte) {
    c in e && v in e[c] && off < PAGE_SIZE && e[c][v][off] == b
  }

  /** Eagerly copied memory leaves the child its zero. */
  lemma EagerZero(p: nat, c: nat, v: nat, off: nat, b: byte)
    requires c != p && UserPage(v) && off < PAGE_SIZE
    ensures
      var r := EagerRun(map[p := map[]], TouchForkStore(p, c, v, off, b));
      r.Some? && Reads(r.value, c, v, off, 0)
  {
    var e: Spaces := map[p := map[]];
    var touched := EagerStep(e, Load(p, v));
    var forked := EagerStep(touched, ForkChild(p, c));
    assert EagerRun(e, []) == Some(e);
    hide EagerRun;
    EagerRunOn(e, [], e, Load(p, v));
    assert [] + [Load(p, v)] == [Load(p, v)];
    EagerRunOn(e, [Load(p, v)], touched, ForkChild(p, c));
    EagerRunOn(e, [Load(p, v)] + [ForkChild(p, c)], forked, KernelStore(p, v, off, b));
  }

  lemma ForkThenStore(s: Cow, t: Cow, p: nat, c: nat, v: nat, off: nat, b: byte)
    requires Inv(s) && CowRun(s, [Load(p, v)]) == Some(t) && t.Has(p, v) && c !in t.dirs && |t.used| <= 3
    requires UserPage(v) && off < PAGE_SIZE
    ensures
      var r := CowRun(s, TouchForkStore(p, c, v, off, b));
      r.Some? && Reads(View(r.value), c, v, off, b)
  {
    hide Inv, CowRun, View, ViewOf, Fork, StoreByte, MapPage, UserTables, StaysPrivate, ForkTables;
    FewUserTables(t, p);
    ForkSucceedsExactly(t, p, c);
    var forked := Fork(t, p, c).value;
    ForkExposes(t, p, c, forked, v, off, b);
    var u := CowStep(forked, KernelStore(p, v, off, b)).value;
    ViewKeys(u);
    RunOn(s, [Load(p, v)], t, ForkChild(p, c), forked);
    RunOn(s, [Load(p, v)] + [ForkChild(p, c)], forked, KernelStore(p, v, off, b), u);
  }

  /**
   * From the start, a process touches a page and forks, and then the kernel stores a byte into that page of the parent,
   * as `process_wait` does with its status: the child reads the byte, where eager copying would have left it a zero.
   */
  lemma KernelStoreShows(s: Cow, p: nat, d: nat, c: nat, v: nat, off: nat, b: byte)
    requires d < FRAMES && |s.ram| == FRAMES && s == FirstSpace(p, d, s.ram)
    requires c != p && UserPage(v) && off < PAGE_SIZE && b != 0
    ensures Inv(s)
    ensures
      var ops := TouchForkStore(p, c, v, off, b);
      var r, eager := CowRun(s, ops), EagerRun(View(s), ops);
      r.Some? && Reads(View(r.value), c, v, off, b) && eager.Some? && Reads(eager.value, c, v, off, 0)
  {
    hide Inv, CowRun, EagerRun, View, Reads, TouchForkStore;
    var t := FirstTouch(s, p, d, v);
    ForkThenStore(s, t, p, c, v, off, b);
    EagerZero(p, c, v, off, b);
  }
}

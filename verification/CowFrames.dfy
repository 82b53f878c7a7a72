/** No frame is lost: what every run keeps of the frames in use (src/mem/paging.c). */
module CowFrames {
  import opened Machine
  import opened CowSpec
  import opened CowTheorems
  import opened CowForks

  /** The frame holds a page table or a page directory. */
  ghost predicate TableAt(s: Cow, h: nat) {
    exists p, i :: p in s.dirs && i in s.dirs[p].tables && s.dirs[p].tables[i] == h
  }

  /** The frame holds a page of some process. */
  ghost predicate PageAt(s: Cow, h: nat) {
    exists p: nat, v: nat :: s.Has(p, v) && s.At(p, v).frame == h
  }

  /** In use, but no table. */
  ghost predicate Loose(s: Cow, h: nat) {
    h in s.used && !TableAt(s, h)
  }

  /** In use without belonging to any process: reserved before paging starts, or lost. */
  ghost predicate Stray(s: Cow, h: nat) {
    Loose(s, h) && !PageAt(s, h)
  }

  // ---- Tables ----

  lemma NewTableOwned(s: Cow, p: nat, i: nat, t: Cow, h: nat)
    requires p in s.dirs && WithTable(s, p, i) == Some(t)
    ensures Loose(t, h) <==> Loose(s, h)
  {
    if i !in s.dirs[p].tables {
      var f := FirstFree(s.used).value;
      hide FirstFree;
      assert t.dirs[p].tables[i] == f;
      if TableAt(s, h) {
        var q, j :| q in s.dirs && j in s.dirs[q].tables && s.dirs[q].tables[j] == h;
        assert j in t.dirs[q].tables && t.dirs[q].tables[j] == h;
      }
    }
  }

  lemma NewDirOwned(s: Cow, c: nat, t: Cow, h: nat)
    requires c !in s.dirs && NewDir(s, c) == Some(t)
    ensures Loose(t, h) <==> Loose(s, h)
  {
    var f := FirstFree(s.used).value;
    hide FirstFree;
    assert t.dirs[c].tables[SELF_ENTRY] == f;
    if TableAt(s, h) {
      var q, j :| q in s.dirs && j in s.dirs[q].tables && s.dirs[q].tables[j] == h;
      assert j in t.dirs[q].tables && t.dirs[q].tables[j] == h;
    }
  }

  lemma SameTables(s: Cow, t: Cow, h: nat)
    requires t.used == s.used && t.dirs.Keys == s.dirs.Keys
    requires forall q :: q in s.dirs ==> t.dirs[q].tables == s.dirs[q].tables
    ensures Loose(t, h) <==> Loose(s, h)
  {
  }

  lemma ForkTableOwned(s: Cow, p: nat, c: nat, i: nat, t: Cow, h: nat)
    requires p in s.dirs && c in s.dirs && p != c && ForkTable(s, p, c, i) == Some(t)
    ensures Loose(t, h) <==> Loose(s, h)
  {
    hide Loose, WithTable, ShareRange;
    if i in s.dirs[p].tables {
      var u := WithTable(s, c, i).value;
      NewTableOwned(s, c, i, u, h);
      TableRest(s, c, i, u);
      SharedRest(u, p, c, i * TABLE_ENTRIES, (i + 1) * TABLE_ENTRIES);
      SameTables(u, t, h);
    }
  }

  lemma {:induction false} ForkTablesOwned(s: Cow, p: nat, c: nat, i: nat, t: Cow, h: nat)
    requires p in s.dirs && c in s.dirs && p != c && ForkTables(s, p, c, i) == Some(t)
    ensures Loose(t, h) <==> Loose(s, h)
    decreases i
  {
    hide Loose, ForkTable;
    if FIRST_USER_TABLE < i {
      var u := ForkTables(s, p, c, i - 1).value;
      ForkTablesOwned(s, p, c, i - 1, u, h);
      ForkTableOwned(u, p, c, i - 1, t, h);
    }
  }

  lemma ForkOwned(s: Cow, p: nat, c: nat, t: Cow, h: nat)
    requires Inv(s) && p in s.dirs && c !in s.dirs && Fork(s, p, c) == Some(t)
    ensures Stray(t, h) <==> Stray(s, h)
  {
    hide Inv, NewDir, ForkTables, Loose;
    var u := NewDir(s, c).value;
    NewDirOwned(s, c, u, h);
    NewDirKeeps(s, c, u);
    ForkTablesOwned(u, p, c, USER_TABLES_END, t, h);
    ForkTablesKeeps(u, p, c, USER_TABLES_END, t);
    SameFrames(s, u, h);
    SharedFrames(u, t, p, c, h);
  }

  lemma SameFrames(s: Cow, t: Cow, h: nat)
    requires SamePages(s, t)
    ensures PageAt(t, h) <==> PageAt(s, h)
  {
    if PageAt(s, h) {
      var p: nat, v: nat :| s.Has(p, v) && s.At(p, v).frame == h;
      assert t.Has(p, v) && t.At(p, v).frame == h;
    }
    if PageAt(t, h) {
      var p: nat, v: nat :| t.Has(p, v) && t.At(p, v).frame == h;
      assert s.Has(p, v) && s.At(p, v).frame == h;
    }
  }

  lemma SharedFrames(s: Cow, t: Cow, p: nat, c: nat, h: nat)
    requires Inv(s) && Inv(t) && PagesShared(s, t, p, c, FIRST_USER_PAGE, USER_PAGES_END)
    ensures PageAt(t, h) <==> PageAt(s, h)
  {
    hide Inv;
    if PageAt(s, h) {
      var q: nat, w: nat :| s.Has(q, w) && s.At(q, w).frame == h;
      assert t.Has(q, w) && t.At(q, w).frame == h;
    }
    if PageAt(t, h) {
      var q: nat, w: nat :| t.Has(q, w) && t.At(q, w).frame == h;
      var r := if s.Has(q, w) then q else p;
      assert s.Has(r, w) && s.At(r, w).frame == h;
    }
  }

  // ---- Pages ----

  lemma GivesFrameOwned(s: Cow, p: nat, v: nat, g: nat, page: Page, t: Cow, h: nat)
    requires Inv(s) && GivesFrame(s, p, v, g, page, t)
    requires s.Has(p, v) ==> s.Count(s.At(p, v).frame) > 0
    ensures Stray(t, h) <==> Stray(s, h)
  {
    assert t.Has(p, v) && t.At(p, v).frame == g;
    assert TableAt(s, h) <==> TableAt(t, h) by {
      hide Inv;
      TablesKept(s, t, h);
    }
    if PageAt(s, h) {
      var q: nat, w: nat :| s.Has(q, w) && s.At(q, w).frame == h;
      if (q, w) == (p, v) {
        q, w := OtherMapper(s, p, v);
      }
      OtherEntries(s, p, v, Pte(true, g), t, q, w);
      assert t.Has(q, w) && t.At(q, w).frame == h;
    }
    hide Inv;
    if PageAt(t, h) && h != g {
      var q: nat, w: nat :| t.Has(q, w) && t.At(q, w).frame == h;
      OtherEntries(s, p, v, Pte(true, g), t, q, w);
      assert s.Has(q, w) && s.At(q, w).frame == h;
    }
  }

  lemma TablesKept(s: Cow, t: Cow, h: nat)
    requires t.dirs.Keys == s.dirs.Keys && forall q :: q in s.dirs ==> t.dirs[q].tables == s.dirs[q].tables
    ensures TableAt(s, h) <==> TableAt(t, h)
  {
  }

  lemma WritableOwned(s: Cow, p: nat, v: nat, t: Cow, h: nat)
    requires s.Has(p, v) && t.used == s.used && t.dirs == s.WithPte(p, v, Pte(true, s.At(p, v).frame)).dirs
    ensures Stray(t, h) <==> Stray(s, h)
  {
    TablesKept(s, t, h);
    hide TableAt;
    if PageAt(s, h) {
      var q: nat, w: nat :| s.Has(q, w) && s.At(q, w).frame == h;
      assert t.Has(q, w) && t.At(q, w).frame == h;
    }
    if PageAt(t, h) {
      var q: nat, w: nat :| t.Has(q, w) && t.At(q, w).frame == h;
      assert s.Has(q, w) && s.At(q, w).frame == h;
    }
  }

  lemma FaultOwned(s: Cow, p: nat, v: nat, t: Cow, h: nat)
    requires Inv(s) && p in s.dirs && UserPage(v) && MapPage(s, p, v) == Some(t)
    ensures Stray(t, h) <==> Stray(s, h)
  {
    hide Stray, MappedOk, CountsOk, TablesOk, Loose, PageAt, TableAt;
    var i := v / TABLE_ENTRIES;
    var u := WithTable(s, p, i).value;
    TableKeeps(s, p, i, u);
    TableOwned(s, p, i, u, h);
    hide WithTable;
    if !u.Has(p, v) {
      GivesFrameOwned(u, p, v, FirstFree(u.used).value, ZeroPage(), t, h);
    } else if !u.At(p, v).rw {
      PageView(u, p, v);
      var f := u.At(p, v).frame;
      if u.Count(f) > 0 {
        GivesFrameOwned(u, p, v, FirstFree(u.used).value, u.ram[f], t, h);
      } else {
        WritableOwned(u, p, v, t, h);
      }
    }
  }

  lemma TableOwned(s: Cow, p: nat, i: nat, t: Cow, h: nat)
    requires p in s.dirs && WithTable(s, p, i) == Some(t)
    ensures Stray(t, h) <==> Stray(s, h)
  {
    NewTableOwned(s, p, i, t, h);
    assert SamePages(s, t);
    SameFrames(s, t, h);
  }

  lemma StoreOwned(s: Cow, p: nat, v: nat, off: nat, b: byte, h: nat)
    requires s.Has(p, v) && s.At(p, v).frame < |s.ram| && off < PAGE_SIZE
    ensures Stray(StoreByte(s, p, v, off, b), h) <==> Stray(s, h)
  {
    var t := StoreByte(s, p, v, off, b);
    TablesKept(s, t, h);
    hide TableAt;
    if PageAt(s, h) {
      var q: nat, w: nat :| s.Has(q, w) && s.At(q, w).frame == h;
      assert t.Has(q, w) && t.At(q, w).frame == h;
    }
    if PageAt(t, h) {
      var q: nat, w: nat :| t.Has(q, w) && t.At(q, w).frame == h;
      assert s.Has(q, w) && s.At(q, w).frame == h;
    }
  }

  // ---- Releases ----

  lemma PageIsMapped(s: Cow, h: nat)
    ensures PageAt(s, h) <==> Mappers(s.dirs, h) != {}
  {
    if PageAt(s, h) {
      var p: nat, v: nat :| s.Has(p, v) && s.At(p, v).frame == h;
      PageIsMapper(s, p, v, h);
    }
    if Mappers(s.dirs, h) != {} {
      var x :| x in Mappers(s.dirs, h);
      assert s.Has(x.0, x.1) && s.At(x.0, x.1).frame == h;
    }
  }

  lemma {:induction false} RangeTables(s: Cow, p: nat, lo: nat, hi: nat)
    requires p in s.dirs
    ensures forall q :: q in s.dirs ==> UnmapRange(s, p, lo, hi).dirs[q].tables == s.dirs[q].tables
    decreases hi
  {
    if lo < hi {
      RangeTables(s, p, lo, hi - 1);
    }
  }

  lemma RangeOwned(s: Cow, p: nat, lo: nat, hi: nat, h: nat)
    requires Inv(s) && p in s.dirs && lo <= hi
    ensures Stray(UnmapRange(s, p, lo, hi), h) <==> Stray(s, h)
  {
    hide Inv, UnmapRange, Mappers, PageAt, TableAt;
    var t := UnmapRange(s, p, lo, hi);
    RangeFrames(s, p, lo, hi, h);
    RangeTables(s, p, lo, hi);
    TablesKept(s, t, h);
    PageIsMapped(s, h);
    PageIsMapped(t, h);
  }

  lemma DroppedOwned(s: Cow, p: nat, lo: nat, hi: nat, h: nat)
    requires p in s.dirs && SamePages(s, DropTables(s, p, lo, hi))
    ensures Stray(DropTables(s, p, lo, hi), h) <==> Stray(s, h)
  {
    var t := DropTables(s, p, lo, hi);
    TablesDropped(s, p, lo, hi);
    SameFrames(s, t, h);
    hide DropTables, SamePages, PageAt;
    if TableAt(s, h) && h in t.used {
      var q, i :| q in s.dirs && i in s.dirs[q].tables && s.dirs[q].tables[i] == h;
      assert i in t.dirs[q].tables && t.dirs[q].tables[i] == h;
    }
    if TableAt(t, h) {
      var q, i :| q in t.dirs && i in t.dirs[q].tables && t.dirs[q].tables[i] == h;
      assert i in s.dirs[q].tables && s.dirs[q].tables[i] == h;
    }
  }

  lemma SpaceOwned(s: Cow, p: nat, t: Cow, h: nat)
    requires Inv(s) && p in s.dirs && CowStep(s, ReleaseSpace(p)) == Some(t)
    ensures Stray(t, h) <==> Stray(s, h)
  {
    hide Inv, Stray, UnmapRange, DropTables, MapPage, Fork;
    var u := UnmapRange(s, p, FIRST_USER_PAGE, USER_PAGES_END);
    RangeOwned(s, p, FIRST_USER_PAGE, USER_PAGES_END, h);
    UnmapRangeKeeps(s, p, FIRST_USER_PAGE, USER_PAGES_END);
    AllUserPagesGone(s, p);
    DropTablesKeeps(u, p, FIRST_USER_TABLE, USER_TABLES_END);
    DroppedOwned(u, p, FIRST_USER_TABLE, USER_TABLES_END, h);
  }

  // ---- Runs ----

  lemma StepOwned(s: Cow, op: MemoryOp, t: Cow, h: nat)
    requires Inv(s) && Enabled(s.dirs.Keys, op) && CowStep(s, op) == Some(t)
    ensures Stray(t, h) <==> Stray(s, h)
  {
    hide MappedOk, CountsOk, TablesOk, Stray, MapPage, Fork, StoreByte, UnmapRange, DropTables;
    match op
    case Load(p, v) =>
      if !s.Has(p, v) {
        FaultOwned(s, p, v, t, h);
      }
    case Store(p, v, off, b) => StoreStepOwned(s, p, v, off, b, t, h);
    case KernelStore(p, v, off, b) =>
      if s.Has(p, v) {
        PageView(s, p, v);
        StoreOwned(s, p, v, off, b, h);
      } else {
        StoreStepOwned(s, p, v, off, b, t, h);
      }
    case ForkChild(p, c) => ForkOwned(s, p, c, t, h);
    case ReleasePages(p, lo, hi) => RangeOwned(s, p, lo, hi, h);
    case ReleaseSpace(p) => SpaceOwned(s, p, t, h);
  }

  lemma StoreStepOwned(s: Cow, p: nat, v: nat, off: nat, b: byte, t: Cow, h: nat)
    requires Inv(s) && Enabled(s.dirs.Keys, Store(p, v, off, b)) && CowStep(s, Store(p, v, off, b)) == Some(t)
    ensures Stray(t, h) <==> Stray(s, h)
  {
    hide MappedOk, CountsOk, TablesOk, Stray, MapPage, Fork, StoreByte;
    if s.Has(p, v) && s.At(p, v).rw {
      PageView(s, p, v);
      StoreOwned(s, p, v, off, b, h);
    } else {
      var u := MapPage(s, p, v).value;
      MapPageKeeps(s, p, v, u);
      PageView(u, p, v);
      FaultOwned(s, p, v, u, h);
      StoreOwned(u, p, v, off, b, h);
    }
  }

  lemma {:induction false} RunOwned(s: Cow, ops: seq<MemoryOp>, t: Cow, h: nat)
    requires Inv(s) && CowRun(s, ops) == Some(t)
    ensures Stray(t, h) <==> Stray(s, h)
    decreases |ops|
  {
    hide Inv, Stray, CowStep;
    if ops != [] {
      var u := CowRun(s, ops[..|ops| - 1]).value;
      RunOwned(s, ops[..|ops| - 1], u, h);
      StepOwned(u, ops[|ops| - 1], t, h);
    }
  }

  /**
   * Over every run, a frame is in use exactly if it holds a page, a page table or a page directory of some process, or was
   * in use without any of these from the start: nothing that is released or copied away from is lost, and nothing that
   * was set aside is handed out.
   */
  lemma NoFrameLost(s: Cow, ops: seq<MemoryOp>, t: Cow, h: nat)
    requires Inv(s) && CowRun(s, ops) == Some(t)
    ensures h in t.used <==>
              || (exists p: nat, v: nat :: t.Has(p, v) && t.At(p, v).frame == h)
              || (exists p, i :: p in t.dirs && i in t.dirs[p].tables && t.dirs[p].tables[i] == h)
              || (&& h in s.used
                  && (forall p: nat, v: nat :: s.Has(p, v) ==> s.At(p, v).frame != h)
                  && (forall p, i :: p in s.dirs && i in s.dirs[p].tables ==> s.dirs[p].tables[i] != h))
  {
    RunOwned(s, ops, t, h);
    hide CowRun;
    assert PageAt(t, h) || TableAt(t, h) ==> h in t.used by {
      hide CountsOk, Mappers;
    }
    hide Inv;
  }
}

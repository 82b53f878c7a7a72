/** The paging code itself: frame bitmap, reference counts and page tables, updated in place (src/mem/paging.c). */
module Pagings {
  import opened Machine
  import opened Bitmaps
  import opened CowSpec
  import opened CowTheorems
  import opened CowForks

  lemma FirstFreeIs(used: set<nat>, f: nat)
    requires IsFirstFree(used, FRAMES, f)
    ensures FirstFree(used) == Some(f)
  {
    var g := FirstFree(used).value;
    assert f <= g && g <= f;
  }

  lemma NoneFree(used: set<nat>)
    requires IsFull(used, FRAMES)
    ensures FirstFree(used) == None
  {
  }

  /** Pages that are not mapped need no releasing. */
  lemma {:induction false} NothingToUnmap(s: Cow, p: nat, lo: nat, mid: nat, hi: nat)
    requires p in s.dirs && lo <= mid <= hi && forall v: nat :: mid <= v < hi ==> !s.Has(p, v)
    ensures UnmapRange(s, p, lo, hi) == UnmapRange(s, p, lo, mid)
    decreases hi
  {
    if mid < hi {
      NothingToUnmap(s, p, lo, mid, hi - 1);
      UnmapRangeOnlyRemoves(s, p, lo, hi - 1, hi - 1);
    }
  }

  lemma {:induction false} UnmapRangeOnlyRemoves(s: Cow, p: nat, lo: nat, hi: nat, v: nat)
    requires p in s.dirs && !s.Has(p, v)
    ensures !UnmapRange(s, p, lo, hi).Has(p, v)
    decreases hi
  {
    if lo < hi {
      UnmapRangeOnlyRemoves(s, p, lo, hi - 1, v);
    }
  }

  lemma PageFrame(s: Cow, p: nat, v: nat)
    requires Inv(s) && s.Has(p, v)
    ensures s.At(p, v).frame < FRAMES
  {
  }

  lemma TableFrame(s: Cow, p: nat, i: nat)
    requires Inv(s) && p in s.dirs && i in s.dirs[p].tables
    ensures s.dirs[p].tables[i] < FRAMES
  {
  }

  lemma {:induction false} UnmapRangeTwice(s: Cow, p: nat, lo: nat, mid: nat, hi: nat)
    requires p in s.dirs && lo <= mid <= hi
    ensures UnmapRange(UnmapRange(s, p, lo, mid), p, mid, hi) == UnmapRange(s, p, lo, hi)
    decreases hi
  {
    hide Unmap;
    if mid < hi {
      UnmapRangeTwice(s, p, lo, mid, hi - 1);
    }
  }

  /** Once one table of a fork cannot be had, the fork fails. */
  lemma {:induction false} ForkTablesFails(s: Cow, p: nat, c: nat, i: nat)
    requires p in s.dirs && c in s.dirs && FIRST_USER_TABLE < i <= USER_TABLES_END && ForkTables(s, p, c, i) == None
    ensures ForkTables(s, p, c, USER_TABLES_END) == None
    decreases USER_TABLES_END - i
  {
    hide ForkTable;
    if i < USER_TABLES_END {
      ForkTablesFails(s, p, c, i + 1);
    }
  }

  /** The entries of table copy `copied` below page `v`. */
  ghost function Below(copied: map<nat, Pte>, v: nat): map<nat, Pte> {
    map w | w in copied && w < v :: copied[w]
  }

  lemma BelowNext(copied: map<nat, Pte>, v: nat, e: Pte)
    ensures v in copied ==> Below(copied[v := e], v + 1) == Below(copied, v)[v := e]
    ensures v !in copied ==> Below(copied, v + 1) == Below(copied, v)
  {
  }

  /** `copied` is a copy of table `i` of process `p`, apart from the entries below page `v`. */
  ghost predicate CopyOf(copied: map<nat, Pte>, ptes: map<nat, Pte>, i: nat, v: nat) {
    && (forall w: nat :: w in copied <==> w / TABLE_ENTRIES == i && w in ptes)
    && (forall w: nat :: w in copied && v <= w ==> copied[w] == ptes[w])
  }

  /**
   * In the middle of cloning table `i`: state `cur` is state `r`, but the child has not got the table in frame `f` yet,
   * nor its entries, of which those below page `v` are done.
   */
  ghost predicate Cloning(r: Cow, cur: Cow, p: nat, c: nat, i: nat, f: nat, copied: map<nat, Pte>, v: nat) {
    && p in cur.dirs && c in cur.dirs && p != c && c in r.dirs
    && r == cur.(dirs := cur.dirs[c := PageDir(cur.dirs[c].tables[i := f], cur.dirs[c].ptes + Below(copied, v))])
    && CopyOf(copied, cur.dirs[p].ptes, i, v)
  }

  /** One entry of the table is made read-only in both copies, and counted. */
  ghost predicate Protected(cur: Cow, cur': Cow, p: nat, copied: map<nat, Pte>, copied': map<nat, Pte>, v: nat)
    requires p in cur.dirs
  {
    if v in copied then
      && copied' == copied[v := Pte(false, copied[v].frame)]
      && cur' == cur.(counts := Recount(cur.counts, copied[v].frame, 1)).WithPte(p, v, Pte(false, copied[v].frame))
    else
      cur' == cur && copied' == copied
  }

  lemma CloningStep(r: Cow, cur: Cow, cur': Cow, p: nat, c: nat, i: nat, f: nat, copied: map<nat, Pte>, copied': map<nat, Pte>, v: nat)
    requires Cloning(r, cur, p, c, i, f, copied, v) && v / TABLE_ENTRIES == i && Protected(cur, cur', p, copied, copied', v)
    ensures Cloning(Share(r, p, c, v), cur', p, c, i, f, copied', v + 1)
  {
    hide Recount, Below;
    BelowNext(copied, v, if v in copied then Pte(false, copied[v].frame) else Pte(false, 0));
    if v in copied {
      var e := Pte(false, copied[v].frame);
      assert CopyOf(copied', cur'.dirs[p].ptes, i, v + 1);
      assert r.At(p, v).frame == e.frame;
      var done := cur.dirs[c].ptes + Below(copied, v);
      assert done[v := e] == cur.dirs[c].ptes + Below(copied', v + 1);
      assert Share(r, p, c, v).dirs == cur'.dirs[c := PageDir(cur.dirs[c].tables[i := f], done[v := e])];
    } else {
      assert CopyOf(copied', cur'.dirs[p].ptes, i, v + 1);
    }
  }

  lemma CloningStarts(s: Cow, t: Cow, p: nat, c: nat, i: nat, f: nat, copied: map<nat, Pte>)
    requires p in s.dirs && c in s.dirs && p != c && i !in s.dirs[c].tables && FirstFree(s.used) == Some(f)
    requires copied == map v: nat | v in s.dirs[p].ptes && v / TABLE_ENTRIES == i :: s.dirs[p].ptes[v]
    requires WithTable(s, c, i) == Some(t)
    ensures Cloning(t, s.(used := s.used + {f}), p, c, i, f, copied, i * TABLE_ENTRIES)
  {
    assert Below(copied, i * TABLE_ENTRIES) == map[];
    assert s.dirs[c].ptes + map[] == s.dirs[c].ptes;
  }

  lemma CloningEnds(r: Cow, cur: Cow, p: nat, c: nat, i: nat, f: nat, copied: map<nat, Pte>)
    requires Cloning(r, cur, p, c, i, f, copied, (i + 1) * TABLE_ENTRIES)
    ensures r == cur.(dirs := cur.dirs[c := PageDir(cur.dirs[c].tables[i := f], cur.dirs[c].ptes + copied)])
  {
    assert Below(copied, (i + 1) * TABLE_ENTRIES) == copied;
  }

  lemma CloningEntry(r: Cow, cur: Cow, p: nat, c: nat, i: nat, f: nat, copied: map<nat, Pte>, v: nat)
    requires Cloning(r, cur, p, c, i, f, copied, v)
    ensures v in copied ==> v in cur.dirs[p].ptes && copied[v] == cur.dirs[p].ptes[v]
    ensures r.dirs.Keys == cur.dirs.Keys
  {
  }

  /** Every byte but that one is read as before; a page read for the first time shows zeros. */
  ghost predicate OtherBytesKept(e: Spaces, e': Spaces, p: nat, v: nat, off: nat) {
    && e'.Keys == e.Keys && p in e
    && (forall q, w :: q in e && (q, w) != (p, v) ==> (w in e'[q] <==> w in e[q]) && (w in e[q] ==> e'[q][w] == e[q][w]))
    && v in e'[p] && forall o :: 0 <= o < PAGE_SIZE && o != off ==> e'[p][v][o] == if v in e[p] then e[p][v][o] else 0
  }

  lemma EagerStoreReads(e: Spaces, p: nat, v: nat, off: nat, b: byte)
    requires Enabled(e.Keys, Store(p, v, off, b))
    ensures OtherBytesKept(e, EagerStep(e, Store(p, v, off, b)), p, v, off)
    ensures v in EagerStep(e, Store(p, v, off, b))[p] && EagerStep(e, Store(p, v, off, b))[p][v][off] == b
  {
  }

  class Paging {
    const frames: Bitmap
    var counts: map<nat, nat>
    var dirs: map<nat, PageDir>
    var ram: seq<Page>
    var crt: nat

    ghost predicate Shaped()
      reads this, frames
    {
      frames.Valid() && frames.Capacity() == FRAMES && crt in dirs && |ram| == FRAMES
    }

    ghost function State(): Cow
      reads this, frames, frames.words
    {
      Cow(frames.Bits(), counts, dirs, ram)
    }

    ghost predicate Valid()
      reads this, frames, frames.words
    {
      Shaped() && Inv(State())
    }

    /** The first address space: its directory's frame is marked in the bitmap it is given, and it has no user page. */
    constructor (bitmap: Bitmap, pid: nat, directory: nat)
      requires bitmap.Valid() && bitmap.Capacity() == FRAMES && directory in bitmap.Bits()
      ensures Valid() && frames == bitmap && crt == pid && View(State()) == map[pid := map[]]
    {
      frames := bitmap;
      counts := map[];
      dirs := map[pid := PageDir(map[SELF_ENTRY := directory], map[])];
      ram := seq(FRAMES, _ => ZeroPage());
      crt := pid;
    }

    /** `allocate_phy_frame`: -1 when every frame is in use. */
    method AllocatePhyFrame() returns (frame: int)
      requires Shaped()
      modifies frames.words
      ensures Shaped()
      ensures if frame < 0 then FirstFree(old(frames.Bits())) == None && frames.Bits() == old(frames.Bits())
              else FirstFree(old(frames.Bits())) == Some(frame) && frames.Bits() == old(frames.Bits()) + {frame}
    {
      var success, bit := frames.AllocateFirstFree();
      if !success {
        NoneFree(old(frames.Bits()));
        return -1;
      }
      FirstFreeIs(old(frames.Bits()), bit);
      return bit;
    }

    method ReleasePhyFrame(frame: nat)
      requires Shaped() && frame < FRAMES
      modifies frames.words
      ensures Shaped() && frames.Bits() == old(frames.Bits()) - {frame}
    {
      frames.ClearBit(frame);
    }

    /** Changes the count of a frame, dropping the entry at zero, and returns the count before. */
    method ChangeCowFrameRefcount(frame: nat, delta: int) returns (oldCount: nat)
      modifies this`counts
      ensures oldCount == old(State()).Count(frame)
      ensures counts == Recount(old(counts), frame, delta)
    {
      oldCount := if frame in counts then counts[frame] else 0;
      var newCount := oldCount + delta;
      if newCount > 0 {
        counts := counts[frame := newCount];
      } else if frame in counts {
        counts := counts - {frame};
      }
    }

    /** `map_page` for the current process; false where the kernel panics for want of a frame. */
    method MapPage(v: nat) returns (ok: bool)
      requires Valid() && UserPage(v)
      modifies this`counts, this`dirs, this`ram, frames.words
      ensures ok <==> |old(frames.Bits())| + FaultNeeds(old(State()), crt, v) <= FRAMES
      ensures ok == CowSpec.MapPage(old(State()), crt, v).Some?
      ensures ok ==> Valid() && Some(State()) == CowSpec.MapPage(old(State()), crt, v)
    {
      hide Inv, FaultNeeds, Unshare, WithTable, View, ViewOf;
      ghost var s := State();
      FaultSucceedsExactly(s, crt, v);
      ok := EnsureTable(v / TABLE_ENTRIES);
      if !ok {
        return;
      }
      ghost var t := State();
      TableKeeps(s, crt, v / TABLE_ENTRIES, t);
      if v !in dirs[crt].ptes {
        var frame := AllocatePhyFrame();
        if frame < 0 {
          return false;
        }
        dirs := dirs[crt := dirs[crt].(ptes := dirs[crt].ptes[v := Pte(true, frame)])];
        ram := ram[frame := ZeroPage()];
      } else if !dirs[crt].ptes[v].rw {
        PageView(t, crt, v);
        ok := UnsharePage(v);
        if !ok {
          return;
        }
      }
      MapPageKeeps(s, crt, v, State());
    }

    /** The page table for a fault, allocated on demand. */
    method EnsureTable(i: nat) returns (ok: bool)
      requires Shaped()
      modifies this`dirs, frames.words
      ensures Shaped()
      ensures ok == WithTable(old(State()), crt, i).Some?
      ensures ok ==> Some(State()) == WithTable(old(State()), crt, i)
    {
      if i !in dirs[crt].tables {
        var tableFrame := AllocatePhyFrame();
        if tableFrame < 0 {
          return false;
        }
        dirs := dirs[crt := dirs[crt].(tables := dirs[crt].tables[i := tableFrame])];
      }
      return true;
    }

    /** The copy-on-write branch of a fault. */
    method UnsharePage(v: nat) returns (ok: bool)
      requires Shaped() && v in dirs[crt].ptes && dirs[crt].ptes[v].frame < FRAMES
      modifies this`counts, this`dirs, this`ram, frames.words
      ensures ok == Unshare(old(State()), crt, v).Some?
      ensures ok ==> Shaped() && Some(State()) == Unshare(old(State()), crt, v)
    {
      var shared := dirs[crt].ptes[v].frame;
      var refs := ChangeCowFrameRefcount(shared, -1);
      if refs > 0 {
        var frame := AllocatePhyFrame();
        if frame < 0 {
          return false;
        }
        ram := ram[frame := ram[shared]];
        dirs := dirs[crt := dirs[crt].(ptes := dirs[crt].ptes[v := Pte(true, frame)])];
      } else {
        dirs := dirs[crt := dirs[crt].(ptes := dirs[crt].ptes[v := Pte(true, shared)])];
      }
      return true;
    }

    /** `release_page` giving the frame back. */
    method ReleasePage(v: nat)
      requires Valid()
      modifies this`counts, this`dirs, frames.words
      ensures Shaped() && State() == Unmap(old(State()), crt, v)
    {
      hide Inv;
      if v !in dirs[crt].ptes {
        return;
      }
      PageFrame(State(), crt, v);
      var frame := dirs[crt].ptes[v].frame;
      var refs := ChangeCowFrameRefcount(frame, -1);
      if refs <= 0 {
        ReleasePhyFrame(frame);
      }
      dirs := dirs[crt := dirs[crt].(ptes := dirs[crt].ptes - {v})];
    }

    /** The inner loop of `release_pages`: the pages `from..to`. */
    method ReleaseRun(from: nat, to: nat)
      requires Valid() && from <= to
      modifies this`counts, this`dirs, frames.words
      ensures Valid() && State() == UnmapRange(old(State()), crt, from, to)
    {
      hide Inv, Unmap;
      ghost var s := State();
      var j := from;
      while j < to
        invariant from <= j <= to && Shaped() && State() == UnmapRange(s, crt, from, j)
      {
        UnmapRangeKeeps(s, crt, from, j);
        ReleasePage(j);
        j := j + 1;
      }
      UnmapRangeKeeps(s, crt, from, to);
    }

    /** `release_pages` giving frames back: table by table, skipping tables that are not there. */
    method ReleasePages(start: nat, pages: nat)
      requires Valid() && 0 < start + pages
      modifies this`counts, this`dirs, frames.words
      ensures Valid() && State() == UnmapRange(old(State()), crt, start, start + pages)
    {
      hide Inv, Unmap;
      ghost var s := State();
      var end := start + pages;
      var i := start / TABLE_ENTRIES;
      ghost var done := start;
      while i < (end - 1) / TABLE_ENTRIES + 1
        invariant start <= done <= end && start / TABLE_ENTRIES <= i
        invariant Valid() && State() == UnmapRange(s, crt, start, done)
        invariant i < (end - 1) / TABLE_ENTRIES + 1 ==> done == if start > i * TABLE_ENTRIES then start else i * TABLE_ENTRIES
        invariant i >= (end - 1) / TABLE_ENTRIES + 1 ==> done == end
      {
        var from := if start > i * TABLE_ENTRIES then start else i * TABLE_ENTRIES;
        var to := if end < (i + 1) * TABLE_ENTRIES then end else (i + 1) * TABLE_ENTRIES;
        if i in dirs[crt].tables {
          ReleaseRun(from, to);
        } else {
          NoTableNoPages(State(), crt, i);
          NothingToUnmap(State(), crt, from, from, to);
        }
        UnmapRangeTwice(s, crt, start, from, to);
        done := to;
        i := i + 1;
      }
    }

    /** `release_pages_tables`. */
    method ReleasePagesTables(start: nat, num: nat)
      requires Valid()
      requires forall v: nat :: v in dirs[crt].ptes ==> !(start <= v / TABLE_ENTRIES < start + num)
      modifies this`dirs, frames.words
      ensures Valid() && State() == DropTables(old(State()), crt, start, start + num)
    {
      hide Inv;
      ghost var s := State();
      var i := start;
      while i < start + num
        invariant start <= i <= start + num && Shaped() && State() == DropTables(s, crt, start, i)
      {
        DropTablesKeeps(s, crt, start, i);
        if i in dirs[crt].tables {
          TableFrame(State(), crt, i);
          ReleasePhyFrame(dirs[crt].tables[i]);
          dirs := dirs[crt := dirs[crt].(tables := dirs[crt].tables - {i})];
        }
        i := i + 1;
      }
      DropTablesKeeps(s, crt, start, i);
    }

    /** `release_user_space_pages`. */
    method ReleaseUserSpace()
      requires Valid()
      modifies this`counts, this`dirs, frames.words
      ensures Valid() && Some(State()) == CowStep(old(State()), ReleaseSpace(crt))
    {
      hide Inv;
      ghost var s := State();
      ReleasePages(FIRST_USER_PAGE, USER_PAGES_END - FIRST_USER_PAGE);
      AllUserPagesGone(s, crt);
      assert forall v: nat :: v in dirs[crt].ptes ==> State().Has(crt, v);
      ReleasePagesTables(FIRST_USER_TABLE, USER_TABLES_END - FIRST_USER_TABLE);
    }

    /** `reload_page_directory`. */
    method SwitchTo(p: nat)
      requires Valid() && p in dirs
      modifies this`crt
      ensures Valid() && crt == p && State() == old(State())
    {
      crt := p;
    }

    /** A load by the current process: a page that is not there is faulted in first. */
    method LoadByte(v: nat, off: nat) returns (ok: bool, b: byte)
      requires Valid() && UserPage(v) && off < PAGE_SIZE
      modifies this`counts, this`dirs, this`ram, frames.words
      ensures ok <==> v in old(dirs)[crt].ptes || |old(frames.Bits())| + FaultNeeds(old(State()), crt, v) <= FRAMES
      ensures ok == CowStep(old(State()), Load(crt, v)).Some?
      ensures ok ==> Valid() && Some(State()) == CowStep(old(State()), Load(crt, v))
      ensures ok ==> v in View(State())[crt] && b == View(State())[crt][v][off]
    {
      hide Inv, FaultNeeds;
      StepSucceedsExactly(State(), Load(crt, v));
      ok := true;
      b := 0;
      ghost var s := State();
      if v !in dirs[crt].ptes {
        ok := MapPage(v);
        if !ok {
          return;
        }
        MapPageKeeps(s, crt, v, State());
      }
      PageView(State(), crt, v);
      b := ram[dirs[crt].ptes[v].frame][off];
    }

    /** A store by the current process: a page that is not there, or read-only, is faulted first. */
    method StoreByte(v: nat, off: nat, b: byte) returns (ok: bool)
      requires Valid() && UserPage(v) && off < PAGE_SIZE
      modifies this`counts, this`dirs, this`ram, frames.words
      ensures ok <==> (v in old(dirs)[crt].ptes && old(dirs)[crt].ptes[v].rw)
                      || |old(frames.Bits())| + FaultNeeds(old(State()), crt, v) <= FRAMES
      ensures ok == CowStep(old(State()), Store(crt, v, off, b)).Some?
      ensures ok ==> Valid() && Some(State()) == CowStep(old(State()), Store(crt, v, off, b))
      ensures ok ==> v in View(State())[crt] && View(State())[crt][v][off] == b
      ensures ok ==> OtherBytesKept(old(View(State())), View(State()), crt, v, off)
    {
      hide Inv, CowSpec.MapPage, Mappers, View, ViewOf, FaultNeeds;
      ok := true;
      ghost var s := State();
      StepSucceedsExactly(s, Store(crt, v, off, b));
      if v !in dirs[crt].ptes || !dirs[crt].ptes[v].rw {
        ok := MapPage(v);
        if !ok {
          return;
        }
        MapPageKeeps(s, crt, v, State());
      }
      ghost var t := State();
      PageFrame(t, crt, v);
      var frame := dirs[crt].ptes[v].frame;
      ram := ram[frame := ram[frame][off := b]];
      StoreKeeps(t, crt, v, off, b);
      StepRefines(s, Store(crt, v, off, b), State());
      ViewKeys(s);
      EagerStoreReads(View(s), crt, v, off, b);
    }

    /** A store by the kernel into the current process: only a page that is not there is faulted first. */
    method KernelStoreByte(v: nat, off: nat, b: byte) returns (ok: bool)
      requires Valid() && UserPage(v) && off < PAGE_SIZE
      modifies this`counts, this`dirs, this`ram, frames.words
      ensures ok <==> v in old(dirs)[crt].ptes || |old(frames.Bits())| + FaultNeeds(old(State()), crt, v) <= FRAMES
      ensures ok == CowStep(old(State()), KernelStore(crt, v, off, b)).Some?
      ensures ok ==> Valid() && Some(State()) == CowStep(old(State()), KernelStore(crt, v, off, b))
      ensures ok ==> v in View(State())[crt] && View(State())[crt][v][off] == b
    {
      hide Inv, CowSpec.MapPage, Mappers, View, ViewOf, FaultNeeds;
      ok := true;
      ghost var s := State();
      StepSucceedsExactly(s, KernelStore(crt, v, off, b));
      if v !in dirs[crt].ptes {
        ok := MapPage(v);
        if !ok {
          return;
        }
        MapPageKeeps(s, crt, v, State());
      }
      ghost var t := State();
      PageFrame(t, crt, v);
      var frame := dirs[crt].ptes[v].frame;
      ram := ram[frame := ram[frame][off := b]];
      StoreInv(t, crt, v, off, b);
      PageView(State(), crt, v);
    }

    /** `clone_crt_page_dir` for child `c`; false where the kernel panics for want of a frame. */
    method CloneCrtPageDir(c: nat) returns (ok: bool)
      requires Valid() && c !in dirs
      modifies this`counts, this`dirs, frames.words
      ensures ok <==> |old(frames.Bits())| + 1 + |UserTables(old(State()), crt, USER_TABLES_END)| <= FRAMES
      ensures ok == Fork(old(State()), crt, c).Some?
      ensures ok ==> Valid() && Some(State()) == Fork(old(State()), crt, c)
    {
      hide Inv, ForkTables, UserTables;
      ghost var s := State();
      ForkSucceedsExactly(s, crt, c);
      var newPdFrame := AllocatePhyFrame();
      if newPdFrame < 0 {
        return false;
      }
      dirs := dirs[c := PageDir(map[SELF_ENTRY := newPdFrame], map[])];
      ok := CloneTables(c);
      if ok {
        ForkKeeps(s, crt, c, State());
      }
    }

    /** Its loop over the user page tables. */
    method CloneTables(c: nat) returns (ok: bool)
      requires Shaped() && c in dirs && c != crt && dirs[c].tables.Keys == {SELF_ENTRY}
      modifies this`counts, this`dirs, frames.words
      ensures ok == ForkTables(old(State()), crt, c, USER_TABLES_END).Some?
      ensures ok ==> Shaped() && Some(State()) == ForkTables(old(State()), crt, c, USER_TABLES_END)
    {
      hide Inv, ForkTable;
      ghost var u := State();
      var i := FIRST_USER_TABLE;
      while i < USER_TABLES_END
        invariant FIRST_USER_TABLE <= i <= USER_TABLES_END
        invariant Shaped() && c in dirs && ForkTables(u, crt, c, i) == Some(State())
      {
        ForkedTables(u, crt, c, i, State());
        ok := CloneTable(c, i);
        if !ok {
          ForkTablesFails(u, crt, c, i + 1);
          return;
        }
        i := i + 1;
      }
      return true;
    }

    /** One user page table: copied, then both copies' entries made read-only and counted. */
    method CloneTable(c: nat, i: nat) returns (ok: bool)
      requires Shaped() && c in dirs && c != crt && i !in dirs[c].tables
      modifies this`counts, this`dirs, frames.words
      ensures ok == ForkTable(old(State()), crt, c, i).Some?
      ensures ok ==> Shaped() && c in dirs && Some(State()) == ForkTable(old(State()), crt, c, i)
    {
      hide Cloning, Recount;
      ghost var s := State();
      if i !in dirs[crt].tables {
        return true;
      }
      var newPtFrame := AllocatePhyFrame();
      if newPtFrame < 0 {
        return false;
      }
      ghost var t := WithTable(s, c, i).value;
      var copied: map<nat, Pte> := map v: nat | v in dirs[crt].ptes && v / TABLE_ENTRIES == i :: dirs[crt].ptes[v];
      CloningStarts(s, t, crt, c, i, newPtFrame, copied);
      copied := ProtectEntries(copied, t, c, i, newPtFrame);
      CloningEnds(ShareRange(t, crt, c, i * TABLE_ENTRIES, (i + 1) * TABLE_ENTRIES), State(), crt, c, i, newPtFrame, copied);
      dirs := dirs[c := PageDir(dirs[c].tables[i := newPtFrame], dirs[c].ptes + copied)];
      return true;
    }

    /** The loop over the entries of one table. */
    method ProtectEntries(table: map<nat, Pte>, ghost t: Cow, ghost c: nat, i: nat, ghost f: nat)
      returns (copied: map<nat, Pte>)
      requires Shaped() && c in t.dirs && crt in t.dirs && Cloning(t, State(), crt, c, i, f, table, i * TABLE_ENTRIES)
      modifies this`counts, this`dirs
      ensures Shaped() && dirs.Keys == old(dirs.Keys)
      ensures Cloning(ShareRange(t, crt, c, i * TABLE_ENTRIES, (i + 1) * TABLE_ENTRIES), State(), crt, c, i, f,
                      copied, (i + 1) * TABLE_ENTRIES)
    {
      hide Cloning, Recount, Share;
      copied := table;
      var j := 0;
      while j < TABLE_ENTRIES
        invariant 0 <= j <= TABLE_ENTRIES && Shaped() && dirs.Keys == old(dirs.Keys)
        invariant Cloning(ShareRange(t, crt, c, i * TABLE_ENTRIES, i * TABLE_ENTRIES + j), State(), crt, c, i, f,
                          copied, i * TABLE_ENTRIES + j)
      {
        var v := i * TABLE_ENTRIES + j;
        ghost var r, cur, was := ShareRange(t, crt, c, i * TABLE_ENTRIES, v), State(), copied;
        CloningEntry(r, cur, crt, c, i, f, copied, v);
        copied := ProtectEntry(copied, v);
        CloningStep(r, cur, State(), crt, c, i, f, was, copied, v);
        j := j + 1;
      }
    }

    method ProtectEntry(table: map<nat, Pte>, v: nat) returns (copied: map<nat, Pte>)
      requires Shaped() && (v in table ==> v in dirs[crt].ptes && table[v] == dirs[crt].ptes[v])
      modifies this`counts, this`dirs
      ensures Shaped() && dirs.Keys == old(dirs.Keys)
      ensures Protected(old(State()), State(), crt, table, copied, v)
    {
      copied := table;
      if v in table {
        dirs := dirs[crt := dirs[crt].(ptes := dirs[crt].ptes[v := dirs[crt].ptes[v].(rw := false)])];
        copied := copied[v := copied[v].(rw := false)];
        var refs := ChangeCowFrameRefcount(copied[v].frame, 1);
      }
    }
  }
}

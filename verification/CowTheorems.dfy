/** What every operation on copy-on-write memory keeps, and that it refines eager copying (src/mem/paging.c). */
module CowTheorems {
  import opened Machine
  import opened CowSpec

  // ---- Mappers ----

  lemma MappersAfterSet(dirs: map<nat, PageDir>, p: nat, v: nat, e: Pte, f: nat)
    requires p in dirs
    ensures var dirs' := dirs[p := dirs[p].(ptes := dirs[p].ptes[v := e])];
            Mappers(dirs', f) == (Mappers(dirs, f) - {(p, v)}) + (if e.frame == f then {(p, v)} else {})
  {
    var dirs' := dirs[p := dirs[p].(ptes := dirs[p].ptes[v := e])];
    forall q, w ensures (q, w) in Mappers(dirs', f) <==>
                          (if (q, w) == (p, v) then e.frame == f else (q, w) in Mappers(dirs, f))
    {
    }
  }

  lemma MappersAfterDelete(dirs: map<nat, PageDir>, p: nat, v: nat, f: nat)
    requires p in dirs
    ensures var dirs' := dirs[p := dirs[p].(ptes := dirs[p].ptes - {v})];
            Mappers(dirs', f) == Mappers(dirs, f) - {(p, v)}
  {
  }

  lemma MappersSamePages(dirs: map<nat, PageDir>, dirs': map<nat, PageDir>, f: nat)
    requires forall p :: p in dirs ==> p in dirs' && dirs'[p].ptes == dirs[p].ptes
    requires forall p :: p in dirs' && p !in dirs ==> dirs'[p].ptes == map[]
    ensures Mappers(dirs', f) == Mappers(dirs, f)
  {
  }

  /** A frame not in use is mapped nowhere, and has no count. */
  lemma UnusedUnmapped(s: Cow, f: nat)
    requires Inv(s) && f !in s.used
    ensures Mappers(s.dirs, f) == {} && f !in s.counts
  {
    forall p, v | (p, v) in Mappers(s.dirs, f) ensures false {
      assert s.Has(p, v);
    }
  }

  /** A frame shared by two pages is read-only in both. */
  lemma SharedIsReadOnly(s: Cow, p: nat, v: nat, q: nat, w: nat)
    requires Inv(s) && s.Has(p, v) && s.Has(q, w) && (p, v) != (q, w) && s.At(p, v).frame == s.At(q, w).frame
    ensures !s.At(p, v).rw && !s.At(q, w).rw
  {
    var m := Mappers(s.dirs, s.At(p, v).frame);
    assert {(p, v), (q, w)} <= m;
    SubsetSize({(p, v), (q, w)}, m);
  }

  lemma SubsetSize<T>(a: set<T>, b: set<T>)
    requires a <= b
    ensures |a| <= |b|
  {
    assert b == a + (b - a);
  }

  // ---- Page tables ----

  /** The page table entries and counts are the same in both states. */
  ghost predicate SamePages(s: Cow, t: Cow) {
    && t.counts == s.counts && t.ram == s.ram
    && (forall p :: p in s.dirs ==> p in t.dirs && t.dirs[p].ptes == s.dirs[p].ptes)
    && (forall p :: p in t.dirs && p !in s.dirs ==> t.dirs[p].ptes == map[])
  }

  lemma SamePagesCounts(s: Cow, t: Cow)
    requires SamePages(s, t) && CountsOk(s)
    ensures CountsOk(t)
  {
    forall f ensures Mappers(t.dirs, f) == Mappers(s.dirs, f) {
      MappersSamePages(s.dirs, t.dirs, f);
    }
    forall p: nat, v: nat | t.Has(p, v) ensures s.Has(p, v) && t.At(p, v) == s.At(p, v) {
    }
  }

  lemma SamePagesView(s: Cow, t: Cow)
    requires SamePages(s, t) && Inv(s) && Inv(t) && t.dirs.Keys == s.dirs.Keys
    ensures View(t) == View(s)
  {
    forall p | p in s.dirs ensures ViewOf(t, p) == ViewOf(s, p) {
    }
  }

  lemma TableKeeps(s: Cow, p: nat, i: nat, t: Cow)
    requires Inv(s) && p in s.dirs && WithTable(s, p, i) == Some(t)
    ensures Inv(t) && View(t) == View(s) && t.counts == s.counts
    ensures t.dirs.Keys == s.dirs.Keys && i in t.dirs[p].tables
    ensures forall q :: q in s.dirs ==> t.dirs[q].ptes == s.dirs[q].ptes && (q != p ==> t.dirs[q] == s.dirs[q])
    ensures forall j :: j in s.dirs[p].tables ==> j in t.dirs[p].tables
  {
    if i !in s.dirs[p].tables {
      SamePagesCounts(s, t);
      hide CountsOk, Mappers;
      assert MappedOk(t) by {
        forall q: nat, v: nat | t.Has(q, v)
          ensures UserPage(v) && v / TABLE_ENTRIES in t.dirs[q].tables && t.At(q, v).frame in t.used
        {
          assert s.Has(q, v) && t.At(q, v) == s.At(q, v);
        }
      }
      NewTableApart(s, p, i, t);
      SamePagesView(s, t);
    }
  }

  /** A newly allocated table frame is nobody else's. */
  lemma NewTableApart(s: Cow, p: nat, i: nat, t: Cow)
    requires MappedOk(s) && TablesOk(s) && p in s.dirs && i !in s.dirs[p].tables && WithTable(s, p, i) == Some(t)
    ensures TablesOk(t)
  {
    var f := FirstFree(s.used).value;
    forall q, j | q in t.dirs && j in t.dirs[q].tables
      ensures t.dirs[q].tables[j] == if (q, j) == (p, i) then f else s.dirs[q].tables[j]
      ensures (q, j) != (p, i) ==> j in s.dirs[q].tables && s.dirs[q].tables[j] in s.used
    {
    }
    forall q: nat, v: nat | t.Has(q, v) ensures s.Has(q, v) && t.At(q, v) == s.At(q, v) && s.At(q, v).frame in s.used {
    }
  }

  // ---- A page gets a frame of its own ----

  /** Page `v` of `p` is mapped writable to frame `g`, new to the system and holding `page`. */
  ghost predicate GivesFrame(s: Cow, p: nat, v: nat, g: nat, page: Page, t: Cow) {
    && p in s.dirs && g !in s.used && g < FRAMES && |s.ram| == FRAMES
    && t == s.(used := s.used + {g}, ram := s.ram[g := page],
               counts := if s.Has(p, v) then Recount(s.counts, s.At(p, v).frame, -1) else s.counts)
             .WithPte(p, v, Pte(true, g))
  }

  /** After the entry of page `v` of `p` changed, every other page has the entry it had. */
  lemma OtherEntries(s: Cow, p: nat, v: nat, e: Pte, t: Cow, q: nat, w: nat)
    requires p in s.dirs && t.dirs == s.WithPte(p, v, e).dirs
    ensures t.Has(q, w) <==> (q, w) == (p, v) || s.Has(q, w)
    ensures t.Has(q, w) ==> t.At(q, w) == if (q, w) == (p, v) then e else s.At(q, w)
  {
  }

  lemma PageView(s: Cow, p: nat, v: nat)
    requires Inv(s) && s.Has(p, v)
    ensures s.At(p, v).frame in s.used && s.At(p, v).frame < FRAMES
    ensures v in View(s)[p] && View(s)[p][v] == s.ram[s.At(p, v).frame]
  {
  }

  lemma ViewKeys(s: Cow)
    requires Inv(s)
    ensures View(s).Keys == s.dirs.Keys
  {
  }

  lemma GivesFrameMapped(s: Cow, p: nat, v: nat, g: nat, page: Page, t: Cow)
    requires Inv(s) && GivesFrame(s, p, v, g, page, t) && UserPage(v) && v / TABLE_ENTRIES in s.dirs[p].tables
    ensures MappedOk(t)
  {
    forall q: nat, w: nat | t.Has(q, w)
      ensures UserPage(w) && w / TABLE_ENTRIES in t.dirs[q].tables && t.At(q, w).frame in t.used
    {
      OtherEntries(s, p, v, Pte(true, g), t, q, w);
    }
  }

  lemma GivesFrameTables(s: Cow, p: nat, v: nat, g: nat, page: Page, t: Cow)
    requires Inv(s) && GivesFrame(s, p, v, g, page, t)
    ensures TablesOk(t)
  {
    hide CountsOk, MappedOk;
    forall q, i | q in t.dirs && i in t.dirs[q].tables
      ensures q in s.dirs && i in s.dirs[q].tables && t.dirs[q].tables[i] == s.dirs[q].tables[i]
    {
    }
    forall q, i, r: nat, w: nat | q in t.dirs && i in t.dirs[q].tables && t.Has(r, w)
      ensures t.dirs[q].tables[i] != t.At(r, w).frame
    {
      OtherEntries(s, p, v, Pte(true, g), t, r, w);
    }
  }

  /** The mappers and the count of frame `h` stay in step. */
  lemma GivesFrameMappers(s: Cow, p: nat, v: nat, g: nat, page: Page, t: Cow, h: nat)
    requires Inv(s) && GivesFrame(s, p, v, g, page, t)
    requires s.Has(p, v) ==> s.Count(s.At(p, v).frame) > 0
    ensures h == g ==> Mappers(t.dirs, h) == {(p, v)} && t.Count(h) == 0
    ensures h != g && Mappers(s.dirs, h) != {} ==>
              Mappers(t.dirs, h) != {} && |Mappers(t.dirs, h)| - t.Count(h) == |Mappers(s.dirs, h)| - s.Count(h)
    ensures h in t.counts ==> h in s.counts && t.counts[h] > 0
    ensures t.Count(h) <= s.Count(h)
  {
    hide TablesOk, Mappers, Recount;
    assert Mappers(s.dirs, g) == {} && g !in s.counts by {
      UnusedUnmapped(s, g);
    }
    MappersAfterSet(s.dirs, p, v, Pte(true, g), h);
    PageIsMapper(s, p, v, h);
    var m, m' := Mappers(s.dirs, h), Mappers(t.dirs, h);
    assert m' == (m - {(p, v)}) + (if g == h then {(p, v)} else {});
    RecountAt(s, p, v, t, h);
    if s.Has(p, v) && h == s.At(p, v).frame {
      assert |m| == s.Count(h) + 1;
      assert h in s.used;
      assert |m'| == |m| - 1;
    } else if h != g {
      assert m' == m;
    }
  }

  /** The count of frame `h` after the page at `p`, `v` gave up its share. */
  lemma RecountAt(s: Cow, p: nat, v: nat, t: Cow, h: nat)
    requires t.counts == if s.Has(p, v) then Recount(s.counts, s.At(p, v).frame, -1) else s.counts
    ensures t.Count(h) == if s.Has(p, v) && h == s.At(p, v).frame && s.Count(h) > 0 then s.Count(h) - 1 else s.Count(h)
    ensures h in t.counts ==> h in s.counts
    ensures h in t.counts && s.counts[h] > 0 ==> t.counts[h] > 0
  {
  }

  lemma PageIsMapper(s: Cow, p: nat, v: nat, h: nat)
    ensures (p, v) in Mappers(s.dirs, h) <==> s.Has(p, v) && s.At(p, v).frame == h
  {
  }

  lemma GivesFrameCounts(s: Cow, p: nat, v: nat, g: nat, page: Page, t: Cow)
    requires Inv(s) && GivesFrame(s, p, v, g, page, t)
    requires s.Has(p, v) ==> s.Count(s.At(p, v).frame) > 0
    ensures CountsOk(t)
  {
    forall q: nat, w: nat | t.Has(q, w)
      ensures |Mappers(t.dirs, t.At(q, w).frame)| == t.Count(t.At(q, w).frame) + 1
      ensures t.At(q, w).rw ==> t.Count(t.At(q, w).frame) == 0
    {
      OtherEntries(s, p, v, Pte(true, g), t, q, w);
      var h := t.At(q, w).frame;
      GivesFrameMappers(s, p, v, g, page, t, h);
      if (q, w) != (p, v) {
        assert s.Has(q, w) && h in s.used && (q, w) in Mappers(s.dirs, h);
      }
    }
    forall h | h in t.counts ensures t.counts[h] > 0 && Mappers(t.dirs, h) != {} {
      GivesFrameMappers(s, p, v, g, page, t, h);
      assert h in s.counts && Mappers(s.dirs, h) != {};
      UnusedUnmapped(s, g);
    }
  }

  /** The entries' contents are the same but for page `v` of `p`, which holds `page`. */
  ghost predicate OnePageDiffers(s: Cow, t: Cow, p: nat, v: nat, page: Page)
    requires Inv(s) && Inv(t)
  {
    && t.dirs.Keys == s.dirs.Keys && p in s.dirs
    && (forall q: nat, w: nat :: t.Has(q, w) <==> (q, w) == (p, v) || s.Has(q, w))
    && (forall q: nat, w: nat :: t.Has(q, w) ==>
                                   t.ram[t.At(q, w).frame] == if (q, w) == (p, v) then page else s.ram[s.At(q, w).frame])
  }

  lemma ViewStepOf(s: Cow, t: Cow, p: nat, v: nat, page: Page, q: nat)
    requires Inv(s) && Inv(t) && OnePageDiffers(s, t, p, v, page) && q in s.dirs
    ensures View(t)[q] == WithPage(View(s), p, v, page)[q]
  {
    hide Inv;
    var e := WithPage(View(s), p, v, page);
    forall w: nat ensures w in t.dirs[q].ptes <==> (q, w) == (p, v) || w in s.dirs[q].ptes {
      assert t.Has(q, w) <==> (q, w) == (p, v) || s.Has(q, w);
    }
    assert View(t)[q].Keys == e[q].Keys;
    forall w | w in t.dirs[q].ptes ensures View(t)[q][w] == e[q][w] {
      assert t.Has(q, w);
      PageView(t, q, w);
      if (q, w) != (p, v) {
        PageView(s, q, w);
      }
    }
  }

  lemma ViewStep(s: Cow, t: Cow, p: nat, v: nat, page: Page)
    requires Inv(s) && Inv(t) && OnePageDiffers(s, t, p, v, page)
    ensures View(t) == WithPage(View(s), p, v, page)
  {
    var e := WithPage(View(s), p, v, page);
    assert View(t).Keys == e.Keys;
    hide Inv, ViewOf, WithPage;
    forall q | q in s.dirs ensures View(t)[q] == e[q] {
      ViewStepOf(s, t, p, v, page, q);
    }
  }

  lemma GivesFrameView(s: Cow, p: nat, v: nat, g: nat, page: Page, t: Cow)
    requires Inv(s) && Inv(t) && GivesFrame(s, p, v, g, page, t)
    ensures View(t) == WithPage(View(s), p, v, page)
  {
    hide CountsOk, TablesOk, Mappers;
    forall q: nat, w: nat
      ensures t.Has(q, w) <==> (q, w) == (p, v) || s.Has(q, w)
      ensures t.Has(q, w) ==> t.ram[t.At(q, w).frame] == if (q, w) == (p, v) then page else s.ram[s.At(q, w).frame]
    {
      OtherEntries(s, p, v, Pte(true, g), t, q, w);
      assert s.Has(q, w) ==> s.At(q, w).frame in s.used;
    }
    ViewStep(s, t, p, v, page);
  }

  lemma GivesFrameKeeps(s: Cow, p: nat, v: nat, g: nat, page: Page, t: Cow)
    requires Inv(s) && GivesFrame(s, p, v, g, page, t) && UserPage(v) && v / TABLE_ENTRIES in s.dirs[p].tables
    requires s.Has(p, v) ==> s.Count(s.At(p, v).frame) > 0
    ensures Inv(t) && View(t) == WithPage(View(s), p, v, page)
    ensures t.Has(p, v) && t.At(p, v).rw
  {
    GivesFrameMapped(s, p, v, g, page, t);
    GivesFrameTables(s, p, v, g, page, t);
    GivesFrameCounts(s, p, v, g, page, t);
    hide MappedOk, CountsOk, TablesOk;
    GivesFrameView(s, p, v, g, page, t);
  }

  // ---- Faults and stores ----

  lemma MapZeroKeeps(s: Cow, p: nat, v: nat, t: Cow)
    requires Inv(s) && p in s.dirs && !s.Has(p, v) && UserPage(v) && v / TABLE_ENTRIES in s.dirs[p].tables
    requires MapZero(s, p, v) == Some(t)
    ensures Inv(t) && View(t) == WithPage(View(s), p, v, ZeroPage())
    ensures t.Has(p, v) && t.At(p, v).rw
  {
    GivesFrameKeeps(s, p, v, FirstFree(s.used).value, ZeroPage(), t);
  }

  lemma SameMappersCounts(s: Cow, t: Cow)
    requires CountsOk(s) && t.counts == s.counts
    requires forall f :: Mappers(t.dirs, f) == Mappers(s.dirs, f)
    requires forall q: nat, w: nat :: t.Has(q, w) ==>
                                        s.Has(q, w) && t.At(q, w).frame == s.At(q, w).frame
                                        && (t.At(q, w).rw ==> s.At(q, w).rw || s.Count(s.At(q, w).frame) == 0)
    ensures CountsOk(t)
  {
    hide Mappers;
  }

  /** A page that already maps its frame alone becomes writable in place. */
  lemma WritableInPlace(s: Cow, p: nat, v: nat, t: Cow)
    requires Inv(s) && s.Has(p, v) && s.Count(s.At(p, v).frame) == 0
    requires t == s.WithPte(p, v, Pte(true, s.At(p, v).frame))
    ensures Inv(t) && View(t) == View(s)
  {
    hide Mappers, CountsOk;
    var e := Pte(true, s.At(p, v).frame);
    forall q: nat, w: nat ensures t.Has(q, w) <==> s.Has(q, w)
                          ensures t.Has(q, w) ==> t.At(q, w).frame == s.At(q, w).frame
                          ensures t.Has(q, w) ==> t.At(q, w).rw == (s.At(q, w).rw || (q, w) == (p, v))
    {
      OtherEntries(s, p, v, e, t, q, w);
    }
    forall h ensures Mappers(t.dirs, h) == Mappers(s.dirs, h) {
      MappersAfterSet(s.dirs, p, v, e, h);
      PageIsMapper(s, p, v, h);
    }
    SameMappersCounts(s, t);
    SameFramesView(s, t);
  }

  lemma SameFramesView(s: Cow, t: Cow)
    requires Inv(s) && Inv(t) && t.dirs.Keys == s.dirs.Keys
    requires forall q: nat, w: nat :: t.Has(q, w) <==> s.Has(q, w)
    requires forall q: nat, w: nat :: t.Has(q, w) ==> t.ram[t.At(q, w).frame] == s.ram[s.At(q, w).frame]
    ensures View(t) == View(s)
  {
    hide CountsOk, TablesOk, Mappers;
    forall q | q in s.dirs ensures View(t)[q] == View(s)[q] {
      forall w ensures w in t.dirs[q].ptes <==> w in s.dirs[q].ptes {
        assert t.Has(q, w) <==> s.Has(q, w);
      }
      forall w | w in t.dirs[q].ptes ensures View(t)[q][w] == View(s)[q][w] {
        PageView(t, q, w);
        PageView(s, q, w);
      }
    }
  }

  lemma UnshareKeeps(s: Cow, p: nat, v: nat, t: Cow)
    requires Inv(s) && s.Has(p, v) && s.At(p, v).frame < FRAMES && Unshare(s, p, v) == Some(t)
    ensures Inv(t) && View(t) == View(s)
    ensures t.Has(p, v) && t.At(p, v).rw
  {
    hide CountsOk, TablesOk, Mappers;
    var f := s.At(p, v).frame;
    if s.Count(f) > 0 {
      PageView(s, p, v);
      GivesFrameKeeps(s, p, v, FirstFree(s.used).value, s.ram[f], t);
      WithSamePage(View(s), p, v);
    } else {
      NoCountEntry(s, f);
      assert t == s.WithPte(p, v, Pte(true, f));
      WritableInPlace(s, p, v, t);
    }
  }

  lemma NoCountEntry(s: Cow, f: nat)
    requires CountsOk(s) && s.Count(f) == 0
    ensures Recount(s.counts, f, -1) == s.counts
  {
    assert f !in s.counts;
  }

  lemma WithSamePage(e: Spaces, p: nat, v: nat)
    requires p in e && v in e[p]
    ensures WithPage(e, p, v, e[p][v]) == e
  {
    var pages: map<nat, Page> := e[p];
    assert pages[v := e[p][v]] == pages;
  }

  /** A page fault leaves the page present; a first touch shows zeros, and nothing else is seen to change. */
  lemma MapPageKeeps(s: Cow, p: nat, v: nat, t: Cow)
    requires Inv(s) && p in s.dirs && UserPage(v) && MapPage(s, p, v) == Some(t)
    ensures Inv(t) && t.Has(p, v) && t.At(p, v).rw
    ensures View(t) == if s.Has(p, v) then View(s) else WithPage(View(s), p, v, ZeroPage())
  {
    hide CountsOk, TablesOk, Mappers;
    var i := v / TABLE_ENTRIES;
    var u := WithTable(s, p, i).value;
    TableKeeps(s, p, i, u);
    if !u.Has(p, v) {
      MapZeroKeeps(u, p, v, t);
    } else {
      PageView(u, p, v);
      if !u.At(p, v).rw {
        UnshareKeeps(u, p, v, t);
      }
    }
  }

  lemma StoreInv(s: Cow, p: nat, v: nat, off: nat, b: byte)
    requires Inv(s) && s.Has(p, v) && s.At(p, v).frame < FRAMES && off < PAGE_SIZE
    ensures Inv(StoreByte(s, p, v, off, b))
  {
    hide Mappers, CountsOk;
    SameMappersCounts(s, StoreByte(s, p, v, off, b));
  }

  /** A store to a writable page is seen by the storing process alone. */
  lemma StoreKeeps(s: Cow, p: nat, v: nat, off: nat, b: byte)
    requires Inv(s) && s.Has(p, v) && s.At(p, v).rw && s.At(p, v).frame < FRAMES && off < PAGE_SIZE
    ensures var t := StoreByte(s, p, v, off, b);
            Inv(t) && View(t) == WithPage(View(s), p, v, View(s)[p][v][off := b])
  {
    hide CountsOk, TablesOk, Mappers;
    var t := StoreByte(s, p, v, off, b);
    StoreInv(s, p, v, off, b);
    var page: Page := View(s)[p][v][off := b];
    forall q: nat, w: nat | s.Has(q, w)
      ensures t.ram[t.At(q, w).frame] == if (q, w) == (p, v) then page else s.ram[s.At(q, w).frame]
    {
      PageView(s, p, v);
      PageView(s, q, w);
      if (q, w) != (p, v) && s.At(q, w).frame == s.At(p, v).frame {
        SharedIsReadOnly(s, p, v, q, w);
      }
    }
    ViewStep(s, t, p, v, page);
  }

  // ---- Releasing pages and tables ----

  lemma EntriesAfterDelete(s: Cow, p: nat, v: nat, t: Cow, q: nat, w: nat)
    requires p in s.dirs && t.dirs == s.WithoutPte(p, v).dirs
    ensures t.Has(q, w) <==> (q, w) != (p, v) && s.Has(q, w)
    ensures t.Has(q, w) ==> t.At(q, w) == s.At(q, w)
  {
  }

  /** When a page is released, its frame is freed exactly if no other page maps it; other frames keep their mappers. */
  lemma UnmapMappers(s: Cow, p: nat, v: nat, h: nat)
    requires Inv(s) && s.Has(p, v)
    ensures var t, f := Unmap(s, p, v), s.At(p, v).frame;
            && (h != f ==> Mappers(t.dirs, h) == Mappers(s.dirs, h) && t.Count(h) == s.Count(h))
            && (h == f ==> Mappers(t.dirs, h) == Mappers(s.dirs, h) - {(p, v)} && |Mappers(t.dirs, h)| == s.Count(h))
            && (h == f && s.Count(h) > 0 ==> t.Count(h) == s.Count(h) - 1)
            && (h == f && s.Count(h) == 0 ==> t.Count(h) == 0 && Mappers(t.dirs, h) == {})
            && (h in t.counts ==> h in s.counts && t.counts[h] > 0)
            && (h in t.used <==> h in s.used && (h != f || Mappers(t.dirs, h) != {}))
  {
    hide Mappers, TablesOk;
    var t, f := Unmap(s, p, v), s.At(p, v).frame;
    MappersAfterDelete(s.dirs, p, v, h);
    PageIsMapper(s, p, v, h);
    RecountAt(s, p, v, t, h);
    assert |Mappers(s.dirs, f)| == s.Count(f) + 1;
  }

  lemma UnmapInv(s: Cow, p: nat, v: nat)
    requires Inv(s) && s.Has(p, v)
    ensures Inv(Unmap(s, p, v))
  {
    hide Mappers;
    var t, f := Unmap(s, p, v), s.At(p, v).frame;
    forall q: nat, w: nat | t.Has(q, w)
      ensures s.Has(q, w) && t.At(q, w) == s.At(q, w) && t.At(q, w).frame in t.used
      ensures |Mappers(t.dirs, t.At(q, w).frame)| == t.Count(t.At(q, w).frame) + 1
      ensures t.At(q, w).rw ==> t.Count(t.At(q, w).frame) == 0
    {
      EntriesAfterDelete(s, p, v, t, q, w);
      UnmapMappers(s, p, v, s.At(q, w).frame);
      PageIsMapper(t, q, w, s.At(q, w).frame);
    }
    forall h | h in t.counts ensures t.counts[h] > 0 && Mappers(t.dirs, h) != {} {
      UnmapMappers(s, p, v, h);
      RecountAt(s, p, v, t, h);
    }
    assert CountsOk(t);
    assert MappedOk(t);
    UnmapTables(s, p, v);
  }

  lemma UnmapTables(s: Cow, p: nat, v: nat)
    requires Inv(s) && s.Has(p, v)
    ensures TablesOk(Unmap(s, p, v))
  {
    hide CountsOk;
    var t, f := Unmap(s, p, v), s.At(p, v).frame;
    forall q, i | q in t.dirs && i in t.dirs[q].tables
      ensures q in s.dirs && i in s.dirs[q].tables && t.dirs[q].tables[i] == s.dirs[q].tables[i]
      ensures t.dirs[q].tables[i] in t.used
    {
      assert s.dirs[q].tables[i] != f;
    }
    forall q: nat, w: nat | t.Has(q, w) ensures s.Has(q, w) && t.At(q, w) == s.At(q, w) {
      EntriesAfterDelete(s, p, v, t, q, w);
    }
  }

  /** `t` is `s` without the pages `lo..hi` of `p`; the other pages hold what they held. */
  ghost predicate PagesGone(s: Cow, t: Cow, p: nat, lo: nat, hi: nat)
    requires Inv(s) && Inv(t)
  {
    && t.dirs.Keys == s.dirs.Keys
    && (forall q: nat, w: nat :: t.Has(q, w) <==> s.Has(q, w) && !(q == p && lo <= w < hi))
    && (forall q: nat, w: nat :: t.Has(q, w) ==> t.ram[t.At(q, w).frame] == s.ram[s.At(q, w).frame])
  }

  lemma PagesGoneViewOf(s: Cow, t: Cow, p: nat, lo: nat, hi: nat, q: nat)
    requires Inv(s) && Inv(t) && PagesGone(s, t, p, lo, hi) && p in s.dirs && q in s.dirs
    ensures View(t)[q] == WithoutPages(View(s), p, lo, hi)[q]
  {
    hide Inv;
    var e := WithoutPages(View(s), p, lo, hi);
    forall w: nat ensures w in View(t)[q] <==> w in e[q] {
      assert t.Has(q, w) <==> s.Has(q, w) && !(q == p && lo <= w < hi);
    }
    assert View(t)[q].Keys == e[q].Keys;
    forall w | w in View(t)[q] ensures View(t)[q][w] == e[q][w] {
      assert t.Has(q, w);
      PageView(t, q, w);
      PageView(s, q, w);
    }
  }

  lemma PagesGoneView(s: Cow, t: Cow, p: nat, lo: nat, hi: nat)
    requires Inv(s) && Inv(t) && PagesGone(s, t, p, lo, hi) && p in s.dirs
    ensures View(t) == WithoutPages(View(s), p, lo, hi)
  {
    var e := WithoutPages(View(s), p, lo, hi);
    assert View(t).Keys == e.Keys;
    hide Inv, ViewOf, WithoutPages;
    forall q | q in s.dirs ensures View(t)[q] == e[q] {
      PagesGoneViewOf(s, t, p, lo, hi, q);
    }
  }

  /** Releasing one page removes it, and nobody else's page changes. */
  lemma UnmapKeeps(s: Cow, p: nat, v: nat)
    requires Inv(s) && p in s.dirs
    ensures var t := Unmap(s, p, v);
            Inv(t) && PagesGone(s, t, p, v, v + 1) && t.dirs[p].tables == s.dirs[p].tables
  {
    hide CountsOk, TablesOk, Mappers;
    var t := Unmap(s, p, v);
    if s.Has(p, v) {
      UnmapInv(s, p, v);
      forall q: nat, w: nat
        ensures t.Has(q, w) <==> (q, w) != (p, v) && s.Has(q, w)
        ensures t.Has(q, w) ==> t.At(q, w) == s.At(q, w)
      {
        EntriesAfterDelete(s, p, v, t, q, w);
      }
    }
  }

  lemma PagesGoneTwice(s: Cow, t: Cow, u: Cow, p: nat, lo: nat, mid: nat)
    requires Inv(s) && Inv(t) && Inv(u) && lo <= mid && PagesGone(s, t, p, lo, mid) && PagesGone(t, u, p, mid, mid + 1)
    ensures PagesGone(s, u, p, lo, mid + 1)
  {
    hide CountsOk, TablesOk, Mappers;
  }

  lemma NothingGone(s: Cow, p: nat, lo: nat)
    requires Inv(s)
    ensures PagesGone(s, s, p, lo, lo)
  {
  }

  lemma {:induction false} UnmapRangeKeeps(s: Cow, p: nat, lo: nat, hi: nat)
    requires Inv(s) && p in s.dirs && lo <= hi
    ensures var t := UnmapRange(s, p, lo, hi);
            Inv(t) && PagesGone(s, t, p, lo, hi) && t.dirs[p].tables == s.dirs[p].tables
    decreases hi
  {
    hide Inv, PagesGone, Unmap;
    if lo == hi {
      NothingGone(s, p, lo);
    } else {
      UnmapRangeKeeps(s, p, lo, hi - 1);
      var t := UnmapRange(s, p, lo, hi - 1);
      UnmapKeeps(t, p, hi - 1);
      PagesGoneTwice(s, t, Unmap(t, p, hi - 1), p, lo, hi - 1);
    }
  }

  lemma DropTableMapped(s: Cow, p: nat, i: nat)
    requires MappedOk(s) && TablesOk(s) && p in s.dirs && i in s.dirs[p].tables
    requires forall v: nat :: s.Has(p, v) ==> v / TABLE_ENTRIES != i
    ensures MappedOk(DropTable(s, p, i))
  {
    var t := DropTable(s, p, i);
    forall q: nat, w: nat | t.Has(q, w)
      ensures UserPage(w) && w / TABLE_ENTRIES in t.dirs[q].tables && t.At(q, w).frame in t.used
    {
      assert s.Has(q, w) && t.At(q, w) == s.At(q, w);
      assert s.dirs[p].tables[i] != s.At(q, w).frame;
    }
  }

  lemma DropTableTables(s: Cow, p: nat, i: nat)
    requires TablesOk(s) && p in s.dirs && i in s.dirs[p].tables
    ensures TablesOk(DropTable(s, p, i))
  {
    var t := DropTable(s, p, i);
    forall q, j | q in t.dirs && j in t.dirs[q].tables
      ensures j in s.dirs[q].tables && t.dirs[q].tables[j] == s.dirs[q].tables[j] && t.dirs[q].tables[j] in t.used
    {
    }
    forall q: nat, w: nat | t.Has(q, w) ensures s.Has(q, w) && t.At(q, w) == s.At(q, w) {
    }
  }

  lemma DropTableKeeps(s: Cow, p: nat, i: nat)
    requires Inv(s) && p in s.dirs
    requires forall v: nat :: s.Has(p, v) ==> v / TABLE_ENTRIES != i
    ensures var t := DropTable(s, p, i); Inv(t) && SamePages(s, t) && t.dirs.Keys == s.dirs.Keys
  {
    if i in s.dirs[p].tables {
      SamePagesCounts(s, DropTable(s, p, i));
      DropTableMapped(s, p, i);
      DropTableTables(s, p, i);
    }
  }

  lemma SamePagesHas(s: Cow, t: Cow, p: nat, v: nat)
    requires SamePages(s, t) && t.dirs.Keys == s.dirs.Keys
    ensures t.Has(p, v) <==> s.Has(p, v)
  {
  }

  lemma {:induction false} DropTablesKeeps(s: Cow, p: nat, lo: nat, hi: nat)
    requires Inv(s) && p in s.dirs && forall v: nat :: s.Has(p, v) ==> !(lo <= v / TABLE_ENTRIES < hi)
    ensures var t := DropTables(s, p, lo, hi); Inv(t) && SamePages(s, t)
    decreases hi
  {
    hide Inv;
    if lo < hi {
      DropTablesKeeps(s, p, lo, hi - 1);
      var t := DropTables(s, p, lo, hi - 1);
      forall v: nat | t.Has(p, v) ensures v / TABLE_ENTRIES != hi - 1 {
        SamePagesHas(s, t, p, v);
      }
      hide DropTable;
      DropTableKeeps(t, p, hi - 1);
    }
  }

  // ---- Fork ----

  lemma NewDirShape(s: Cow, c: nat, t: Cow)
    requires Inv(s) && c !in s.dirs && NewDir(s, c) == Some(t)
    ensures SamePages(s, t) && t.dirs.Keys == s.dirs.Keys + {c} && t.dirs[c].ptes == map[]
    ensures forall p :: p in s.dirs ==> t.dirs[p] == s.dirs[p]
    ensures FirstFree(s.used).Some?
    ensures t.dirs[c].tables == map[SELF_ENTRY := FirstFree(s.used).value] && t.used == s.used + {FirstFree(s.used).value}
    ensures FirstFree(s.used).value !in s.used && FirstFree(s.used).value < FRAMES
  {
  }

  lemma NewDirTables(s: Cow, c: nat, t: Cow)
    requires Inv(s) && c !in s.dirs && NewDir(s, c) == Some(t)
    ensures TablesOk(t)
  {
    hide CountsOk, Mappers, NewDir;
    NewDirShape(s, c, t);
    var d := FirstFree(s.used).value;
    forall q, j | q in t.dirs && j in t.dirs[q].tables
      ensures if q == c then t.dirs[q].tables[j] == d && j == SELF_ENTRY
              else q in s.dirs && j in s.dirs[q].tables && t.dirs[q].tables[j] == s.dirs[q].tables[j]
    {
    }
    forall q: nat, w: nat
      ensures t.Has(q, w) <==> s.Has(q, w)
      ensures t.Has(q, w) ==> t.At(q, w) == s.At(q, w) && t.At(q, w).frame != d
    {
    }
  }

  lemma NewDirKeeps(s: Cow, c: nat, t: Cow)
    requires Inv(s) && c !in s.dirs && NewDir(s, c) == Some(t)
    ensures Inv(t) && SamePages(s, t) && t.dirs.Keys == s.dirs.Keys + {c} && t.dirs[c].ptes == map[]
    ensures forall p :: p in s.dirs ==> t.dirs[p] == s.dirs[p]
  {
    NewDirTables(s, c, t);
    NewDirShape(s, c, t);
    SamePagesCounts(s, t);
    hide CountsOk, Mappers, TablesOk, NewDir;
    forall q: nat, w: nat
      ensures t.Has(q, w) <==> s.Has(q, w)
      ensures t.Has(q, w) ==> t.At(q, w) == s.At(q, w)
    {
    }
    assert MappedOk(t);
  }

  /** Both entries of a shared page, and everyone else's as before. */
  lemma EntriesAfterShare(s: Cow, p: nat, c: nat, v: nat, q: nat, w: nat)
    requires p in s.dirs && c in s.dirs && p != c && s.Has(p, v)
    ensures var t, e := Share(s, p, c, v), Pte(false, s.At(p, v).frame);
            && (t.Has(q, w) <==> (q, w) == (c, v) || s.Has(q, w))
            && (t.Has(q, w) ==> t.At(q, w) == if (q, w) == (p, v) || (q, w) == (c, v) then e else s.At(q, w))
  {
  }

  lemma ShareMappers(s: Cow, p: nat, c: nat, v: nat, h: nat)
    requires p in s.dirs && c in s.dirs && p != c && s.Has(p, v) && !s.Has(c, v)
    ensures var t, f := Share(s, p, c, v), s.At(p, v).frame;
            && Mappers(t.dirs, h) == Mappers(s.dirs, h) + (if h == f then {(c, v)} else {})
            && (c, v) !in Mappers(s.dirs, h)
            && t.Count(h) == s.Count(h) + (if h == f then 1 else 0)
            && (h in t.counts && h != f ==> h in s.counts && t.counts[h] == s.counts[h])
  {
    hide Mappers;
    var e := Pte(false, s.At(p, v).frame);
    var u := s.WithPte(p, v, e);
    MappersAfterSet(s.dirs, p, v, e, h);
    MappersAfterSet(u.dirs, c, v, e, h);
    PageIsMapper(s, p, v, h);
    PageIsMapper(s, c, v, h);
    assert Share(s, p, c, v).dirs == u.WithPte(c, v, e).dirs;
  }

  lemma ShareMapped(s: Cow, p: nat, c: nat, v: nat)
    requires Inv(s) && p in s.dirs && c in s.dirs && p != c && s.Has(p, v) && !s.Has(c, v)
    requires v / TABLE_ENTRIES in s.dirs[c].tables
    ensures MappedOk(Share(s, p, c, v))
  {
    hide CountsOk, TablesOk;
    var t := Share(s, p, c, v);
    forall q: nat, w: nat | t.Has(q, w)
      ensures UserPage(w) && w / TABLE_ENTRIES in t.dirs[q].tables && t.At(q, w).frame in t.used
    {
      EntriesAfterShare(s, p, c, v, q, w);
    }
  }

  lemma ShareTables(s: Cow, p: nat, c: nat, v: nat)
    requires Inv(s) && p in s.dirs && c in s.dirs && p != c && s.Has(p, v) && !s.Has(c, v)
    ensures TablesOk(Share(s, p, c, v))
  {
    hide CountsOk;
    var t := Share(s, p, c, v);
    forall q, i | q in t.dirs && i in t.dirs[q].tables
      ensures q in s.dirs && i in s.dirs[q].tables && t.dirs[q].tables[i] == s.dirs[q].tables[i]
    {
    }
    forall q, i, r: nat, w: nat | q in t.dirs && i in t.dirs[q].tables && t.Has(r, w)
      ensures t.dirs[q].tables[i] != t.At(r, w).frame
    {
      EntriesAfterShare(s, p, c, v, r, w);
      assert s.dirs[q].tables[i] != s.At(p, v).frame;
    }
  }

  lemma ShareCounts(s: Cow, p: nat, c: nat, v: nat)
    requires Inv(s) && p in s.dirs && c in s.dirs && p != c && s.Has(p, v) && !s.Has(c, v)
    ensures CountsOk(Share(s, p, c, v))
  {
    hide Mappers, TablesOk, Share;
    var t, f := Share(s, p, c, v), s.At(p, v).frame;
    forall q: nat, w: nat | t.Has(q, w)
      ensures |Mappers(t.dirs, t.At(q, w).frame)| == t.Count(t.At(q, w).frame) + 1
      ensures t.At(q, w).rw ==> t.Count(t.At(q, w).frame) == 0
    {
      EntriesAfterShare(s, p, c, v, q, w);
      ShareMappers(s, p, c, v, t.At(q, w).frame);
      ShareReadOnly(s, p, c, v, q, w);
    }
    forall h | h in t.counts ensures t.counts[h] > 0 && Mappers(t.dirs, h) != {} {
      ShareMappers(s, p, c, v, h);
    }
  }

  /** A page that is writable after a share was not in the shared frame. */
  lemma ShareReadOnly(s: Cow, p: nat, c: nat, v: nat, q: nat, w: nat)
    requires Inv(s) && p in s.dirs && c in s.dirs && p != c && s.Has(p, v) && !s.Has(c, v)
    ensures var t := Share(s, p, c, v);
            t.Has(q, w) && t.At(q, w).rw ==>
              s.Has(q, w) && s.At(q, w).rw && t.At(q, w) == s.At(q, w) && t.At(q, w).frame != s.At(p, v).frame
  {
    EntriesAfterShare(s, p, c, v, q, w);
    if s.Has(q, w) && (q, w) != (p, v) && s.At(q, w).frame == s.At(p, v).frame {
      SharedIsReadOnly(s, p, v, q, w);
    }
  }

  /** The pages `lo..hi` of `p` are shared with `c`, which had none of them; every page stays in its frame. */
  ghost predicate PagesShared(s: Cow, t: Cow, p: nat, c: nat, lo: nat, hi: nat)
    requires Inv(s) && Inv(t)
  {
    && t.dirs.Keys == s.dirs.Keys && p in s.dirs && c in s.dirs && p != c && t.ram == s.ram
    && (forall q :: q in s.dirs && q != c ==> t.dirs[q].tables == s.dirs[q].tables)
    && s.dirs[c].tables.Keys <= t.dirs[c].tables.Keys
    && (forall q: nat, w: nat :: t.Has(q, w) <==> s.Has(q, w) || (q == c && lo <= w < hi && s.Has(p, w)))
    && (forall q: nat, w: nat :: s.Has(q, w) ==> t.At(q, w).frame == s.At(q, w).frame)
    && (forall w: nat :: lo <= w < hi && s.Has(p, w) ==> t.At(c, w).frame == s.At(p, w).frame)
  }

  lemma ShareKeeps(s: Cow, p: nat, c: nat, v: nat)
    requires Inv(s) && p in s.dirs && c in s.dirs && p != c && !s.Has(c, v)
    requires v / TABLE_ENTRIES in s.dirs[c].tables
    ensures Inv(Share(s, p, c, v)) && PagesShared(s, Share(s, p, c, v), p, c, v, v + 1)
  {
    hide PagesShared;
    ShareRest(s, p, c, v);
    if s.Has(p, v) {
      ShareMapped(s, p, c, v);
      ShareTables(s, p, c, v);
      ShareCounts(s, p, c, v);
    }
    SharePages(s, p, c, v);
  }

  lemma SharePages(s: Cow, p: nat, c: nat, v: nat)
    requires Inv(s) && p in s.dirs && c in s.dirs && p != c && !s.Has(c, v) && Inv(Share(s, p, c, v))
    ensures PagesShared(s, Share(s, p, c, v), p, c, v, v + 1)
  {
    hide Inv, Share;
    var t := Share(s, p, c, v);
    ShareRest(s, p, c, v);
    if s.Has(p, v) {
      forall q: nat, w: nat
        ensures t.Has(q, w) <==> (q, w) == (c, v) || s.Has(q, w)
        ensures t.Has(q, w) ==> t.At(q, w).frame == if (q, w) == (c, v) then s.At(p, v).frame else s.At(q, w).frame
      {
        EntriesAfterShare(s, p, c, v, q, w);
      }
    }
  }

  lemma ShareRest(s: Cow, p: nat, c: nat, v: nat)
    requires p in s.dirs && c in s.dirs && p != c
    ensures var t := Share(s, p, c, v);
            && t.used == s.used && t.ram == s.ram && t.dirs.Keys == s.dirs.Keys
            && (forall q :: q in s.dirs ==> t.dirs[q].tables == s.dirs[q].tables)
            && (!s.Has(p, v) ==> t == s)
  {
  }

  lemma PagesSharedTwice(s: Cow, t: Cow, u: Cow, p: nat, c: nat, lo: nat, mid: nat, hi: nat)
    requires Inv(s) && Inv(t) && Inv(u) && lo <= mid <= hi
    requires PagesShared(s, t, p, c, lo, mid) && PagesShared(t, u, p, c, mid, hi)
    ensures PagesShared(s, u, p, c, lo, hi)
  {
    hide CountsOk, TablesOk, Mappers, MappedOk;
  }

  lemma {:induction false} ShareRangeKeeps(s: Cow, p: nat, c: nat, lo: nat, hi: nat)
    requires Inv(s) && p in s.dirs && c in s.dirs && p != c && lo <= hi
    requires forall v: nat :: lo <= v < hi ==> !s.Has(c, v) && v / TABLE_ENTRIES in s.dirs[c].tables
    ensures var t := ShareRange(s, p, c, lo, hi); Inv(t) && PagesShared(s, t, p, c, lo, hi)
    decreases hi
  {
    hide CountsOk, TablesOk, Mappers, MappedOk, Share;
    if lo < hi {
      ShareRangeKeeps(s, p, c, lo, hi - 1);
      var t := ShareRange(s, p, c, lo, hi - 1);
      ShareKeeps(t, p, c, hi - 1);
      PagesSharedTwice(s, t, Share(t, p, c, hi - 1), p, c, lo, hi - 1, hi);
    }
  }

  /** The same, seen from a state with the same pages and fewer tables of `c`. */
  lemma SharedFrom(s: Cow, u: Cow, t: Cow, p: nat, c: nat, i: nat, lo: nat, hi: nat)
    requires Inv(s) && Inv(u) && Inv(t) && c in s.dirs && WithTable(s, c, i) == Some(u) && PagesShared(u, t, p, c, lo, hi)
    ensures PagesShared(s, t, p, c, lo, hi)
  {
    hide Inv;
    TableSamePages(s, c, i, u);
    TableRest(s, c, i, u);
    hide WithTable;
  }

  lemma TableRest(s: Cow, p: nat, i: nat, t: Cow)
    requires p in s.dirs && WithTable(s, p, i) == Some(t)
    ensures t.dirs.Keys == s.dirs.Keys && s.dirs[p].tables.Keys <= t.dirs[p].tables.Keys && i in t.dirs[p].tables
    ensures forall q :: q in s.dirs && q != p ==> t.dirs[q].tables == s.dirs[q].tables
  {
  }

  lemma NothingShared(s: Cow, p: nat, c: nat, i: nat)
    requires Inv(s) && p in s.dirs && c in s.dirs && p != c && i !in s.dirs[p].tables
    ensures PagesShared(s, s, p, c, i * TABLE_ENTRIES, (i + 1) * TABLE_ENTRIES)
  {
    NoTableNoPages(s, p, i);
    hide Inv;
  }

  /** One page table of a fork: the pages under it, or nothing if the parent has no such table. */
  lemma ForkTableKeeps(s: Cow, p: nat, c: nat, i: nat, t: Cow)
    requires Inv(s) && p in s.dirs && c in s.dirs && p != c && ForkTable(s, p, c, i) == Some(t)
    requires forall v: nat :: i * TABLE_ENTRIES <= v < (i + 1) * TABLE_ENTRIES ==> !s.Has(c, v)
    ensures Inv(t) && PagesShared(s, t, p, c, i * TABLE_ENTRIES, (i + 1) * TABLE_ENTRIES)
  {
    hide Inv, PagesShared, WithTable, ShareRange;
    if i in s.dirs[p].tables {
      var u := WithTable(s, c, i).value;
      TableKeeps(s, c, i, u);
      TableRest(s, c, i, u);
      TableSamePages(s, c, i, u);
      ShareRangeKeeps(u, p, c, i * TABLE_ENTRIES, (i + 1) * TABLE_ENTRIES);
      SharedFrom(s, u, t, p, c, i, i * TABLE_ENTRIES, (i + 1) * TABLE_ENTRIES);
    } else {
      NothingShared(s, p, c, i);
    }
  }

  /** Every page lies in a table of its process. */
  lemma NoTableNoPages(s: Cow, p: nat, i: nat)
    requires Inv(s) && p in s.dirs && i !in s.dirs[p].tables
    ensures forall v: nat :: v / TABLE_ENTRIES == i ==> !s.Has(p, v)
  {
    hide CountsOk, Mappers;
  }

  lemma TableSamePages(s: Cow, p: nat, i: nat, t: Cow)
    requires p in s.dirs && WithTable(s, p, i) == Some(t)
    ensures t.ram == s.ram
    ensures forall q: nat, w: nat :: (t.Has(q, w) <==> s.Has(q, w)) && (t.Has(q, w) ==> t.At(q, w) == s.At(q, w))
  {
  }

  lemma {:induction false} ForkTablesKeeps(s: Cow, p: nat, c: nat, i: nat, t: Cow)
    requires Inv(s) && p in s.dirs && c in s.dirs && p != c && ForkTables(s, p, c, i) == Some(t)
    requires FIRST_USER_TABLE <= i && forall v: nat :: !s.Has(c, v)
    ensures Inv(t) && PagesShared(s, t, p, c, FIRST_USER_PAGE, i * TABLE_ENTRIES)
    decreases i
  {
    hide Inv;
    if i > FIRST_USER_TABLE {
      var u := ForkTables(s, p, c, i - 1).value;
      ForkTablesKeeps(s, p, c, i - 1, u);
      hide ForkTable;
      ForkTableKeeps(u, p, c, i - 1, t);
      PagesSharedTwice(s, u, t, p, c, FIRST_USER_PAGE, (i - 1) * TABLE_ENTRIES, i * TABLE_ENTRIES);
    }
  }

  lemma ForkViewOf(s: Cow, t: Cow, p: nat, c: nat, q: nat)
    requires Inv(s) && Inv(t) && PagesShared(s, t, p, c, FIRST_USER_PAGE, USER_PAGES_END) && forall v: nat :: !s.Has(c, v)
    requires q in s.dirs
    ensures View(t)[q] == if q == c then View(s)[p] else View(s)[q]
  {
    hide CountsOk, TablesOk, Mappers;
    var r := if q == c then p else q;
    forall w: nat ensures w in t.dirs[q].ptes <==> w in s.dirs[r].ptes {
      assert s.Has(p, w) ==> UserPage(w);
      assert t.Has(q, w) <==> s.Has(r, w);
    }
    assert View(t)[q].Keys == View(s)[r].Keys;
    forall w | w in t.dirs[q].ptes ensures View(t)[q][w] == View(s)[r][w] {
      assert t.Has(q, w) && s.Has(r, w);
      PageView(t, q, w);
      PageView(s, r, w);
    }
  }

  /** After a fork the child reads what the parent reads, and nobody else notices. */
  lemma ForkKeeps(s: Cow, p: nat, c: nat, t: Cow)
    requires Inv(s) && p in s.dirs && c !in s.dirs && Fork(s, p, c) == Some(t)
    ensures Inv(t) && View(t) == View(s)[c := View(s)[p]]
  {
    hide Inv, NewDir, View, ForkTables, ForkTable;
    var u := NewDir(s, c).value;
    NewDirKeeps(s, c, u);
    ForkTablesKeeps(u, p, c, USER_TABLES_END, t);
    ViewKeys(s);
    ViewKeys(u);
    ViewKeys(t);
    var e := View(s)[c := View(s)[p]];
    assert View(t).Keys == e.Keys;
    forall q | q in t.dirs ensures View(t)[q] == e[q] {
      ForkViewOf(u, t, p, c, q);
      SamePagesViewOf(s, u, if q == c then p else q);
    }
  }

  /** After a fork, parent and child map each page of the parent to the same frame. */
  lemma ForkShares(s: Cow, p: nat, c: nat, t: Cow, v: nat)
    requires Inv(s) && s.Has(p, v) && c !in s.dirs && Fork(s, p, c) == Some(t)
    ensures t.Has(p, v) && t.Has(c, v) && t.At(c, v).frame == t.At(p, v).frame
  {
    hide NewDir, ForkTables, ForkTable, CountsOk, TablesOk;
    var u := NewDir(s, c).value;
    NewDirKeeps(s, c, u);
    ForkTablesKeeps(u, p, c, USER_TABLES_END, t);
    assert u.Has(p, v) && UserPage(v);
  }

  lemma SamePagesViewOf(s: Cow, u: Cow, r: nat)
    requires Inv(s) && Inv(u) && SamePages(s, u) && r in s.dirs
    ensures View(u)[r] == View(s)[r]
  {
    assert ViewOf(u, r) == ViewOf(s, r);
  }

  // ---- Stores in supervisor mode ----

  /**
   * A store made in supervisor mode while the processor ignores the read-only bit there goes straight to the frame.
   * It is still a private store exactly if nobody else maps the frame or the byte was there already.
   */
  lemma SupervisorStore(s: Cow, p: nat, v: nat, off: nat, b: byte)
    requires Inv(s) && s.Has(p, v) && s.At(p, v).frame < FRAMES && off < PAGE_SIZE
    ensures Inv(StoreByte(s, p, v, off, b))
    ensures View(StoreByte(s, p, v, off, b)) == WithPage(View(s), p, v, View(s)[p][v][off := b]) <==>
              s.Count(s.At(p, v).frame) == 0 || View(s)[p][v][off] == b
  {
    hide CountsOk, TablesOk, Mappers, View;
    var t, f := StoreByte(s, p, v, off, b), s.At(p, v).frame;
    StoreInv(s, p, v, off, b);
    ViewKeys(s);
    ViewKeys(t);
    PageView(s, p, v);
    if s.Count(f) == 0 {
      var w := s.WithPte(p, v, Pte(true, f));
      WritableInPlace(s, p, v, w);
      StoreKeeps(w, p, v, off, b);
      SameFramesView(t, StoreByte(w, p, v, off, b));
    } else if s.ram[f][off] == b {
      assert t.ram[f] == s.ram[f];
      SameFramesView(s, t);
      WithSamePage(View(s), p, v);
    } else {
      var q, w := OtherMapper(s, p, v);
      PageView(s, q, w);
      PageView(t, q, w);
      assert View(t)[q][w] != View(s)[q][w];
    }
  }

  lemma OtherMapper(s: Cow, p: nat, v: nat) returns (q: nat, w: nat)
    requires Inv(s) && s.Has(p, v) && s.Count(s.At(p, v).frame) > 0
    ensures s.Has(q, w) && (q, w) != (p, v) && s.At(q, w).frame == s.At(p, v).frame
  {
    var m := Mappers(s.dirs, s.At(p, v).frame);
    assert (p, v) in m && |m - {(p, v)}| > 0;
    var pair :| pair in m - {(p, v)};
    q, w := pair.0, pair.1;
  }

  // ---- Runs ----

  /** What processes do to their memory, and what the kernel stores into it on their behalf. */
  datatype MemoryOp =
    | Load(p: nat, v: nat)
    | Store(p: nat, v: nat, off: nat, b: byte)
    | KernelStore(p: nat, v: nat, off: nat, b: byte)
    | ForkChild(p: nat, c: nat)
    | ReleasePages(p: nat, lo: nat, hi: nat)
    | ReleaseSpace(p: nat)

  /** The process exists, a child is new, and addresses are user addresses. */
  ghost predicate Enabled(spaces: set<nat>, op: MemoryOp) {
    && op.p in spaces
    && (op.Load? || op.Store? || op.KernelStore? ==> UserPage(op.v))
    && (op.Store? || op.KernelStore? ==> op.off < PAGE_SIZE)
    && (op.ForkChild? ==> op.c !in spaces)
    && (op.ReleasePages? ==> op.lo <= op.hi)
  }

  /** One operation on shared memory; None stands for the panic when no frame is left. */
  ghost function CowStep(s: Cow, op: MemoryOp): Option<Cow>
    requires Inv(s) && Enabled(s.dirs.Keys, op)
    decreases op.KernelStore?
  {
    match op
    case Load(p, v) => if s.Has(p, v) then Some(s) else MapPage(s, p, v)
    case Store(p, v, off, b) =>
      if s.Has(p, v) && s.At(p, v).rw then Some(StoreByte(s, p, v, off, b)) else
      (match MapPage(s, p, v)
       case None => None
       case Some(t) => MapPageKeeps(s, p, v, t); PageView(t, p, v); Some(StoreByte(t, p, v, off, b)))
    case KernelStore(p, v, off, b) =>
      // The processor does not fault on a read-only page here.
      if s.Has(p, v) then PageView(s, p, v); Some(StoreByte(s, p, v, off, b)) else CowStep(s, Store(p, v, off, b))
    case ForkChild(p, c) => Fork(s, p, c)
    case ReleasePages(p, lo, hi) => Some(UnmapRange(s, p, lo, hi))
    case ReleaseSpace(p) =>
      Some(DropTables(UnmapRange(s, p, FIRST_USER_PAGE, USER_PAGES_END), p, FIRST_USER_TABLE, USER_TABLES_END))
  }

  ghost function Touched(e: Spaces, p: nat, v: nat): (r: Spaces)
    requires p in e
    ensures r.Keys == e.Keys && v in r[p]
  {
    if v in e[p] then e else WithPage(e, p, v, ZeroPage())
  }

  /** The same operation where every process has its own pages and a fork copies them all. */
  ghost function EagerStep(e: Spaces, op: MemoryOp): Spaces
    requires Enabled(e.Keys, op)
  {
    match op
    case Load(p, v) => Touched(e, p, v)
    case Store(p, v, off, b) => WithPage(Touched(e, p, v), p, v, Touched(e, p, v)[p][v][off := b])
    case KernelStore(p, v, off, b) => WithPage(Touched(e, p, v), p, v, Touched(e, p, v)[p][v][off := b])
    case ForkChild(p, c) => e[c := e[p]]
    case ReleasePages(p, lo, hi) => WithoutPages(e, p, lo, hi)
    case ReleaseSpace(p) => WithoutPages(e, p, FIRST_USER_PAGE, USER_PAGES_END)
  }

  /** A kernel store hits a frame nobody else maps, or changes nothing, or faults the page in. */
  ghost predicate StaysPrivate(s: Cow, op: MemoryOp)
    requires Inv(s) && Enabled(s.dirs.Keys, op)
  {
    op.KernelStore? && s.Has(op.p, op.v) ==>
      s.Count(s.At(op.p, op.v).frame) == 0 || View(s)[op.p][op.v][op.off] == op.b
  }

  lemma StoreRefines(s: Cow, p: nat, v: nat, off: nat, b: byte, t: Cow)
    requires Inv(s) && Enabled(s.dirs.Keys, Store(p, v, off, b)) && CowStep(s, Store(p, v, off, b)) == Some(t)
    ensures Inv(t) && View(t) == EagerStep(View(s), Store(p, v, off, b))
  {
    hide CountsOk, TablesOk, Mappers;
    if s.Has(p, v) && s.At(p, v).rw {
      PageView(s, p, v);
      StoreKeeps(s, p, v, off, b);
    } else {
      var u := MapPage(s, p, v).value;
      MapPageKeeps(s, p, v, u);
      PageView(u, p, v);
      StoreKeeps(u, p, v, off, b);
    }
  }

  lemma LoadRefines(s: Cow, p: nat, v: nat, t: Cow)
    requires Inv(s) && Enabled(s.dirs.Keys, Load(p, v)) && CowStep(s, Load(p, v)) == Some(t)
    ensures Inv(t) && View(t) == EagerStep(View(s), Load(p, v))
  {
    hide CountsOk, TablesOk, Mappers, MapPage;
    if !s.Has(p, v) {
      MapPageKeeps(s, p, v, t);
    }
  }

  lemma KernelStoreRefines(s: Cow, p: nat, v: nat, off: nat, b: byte, t: Cow)
    requires Inv(s) && Enabled(s.dirs.Keys, KernelStore(p, v, off, b)) && CowStep(s, KernelStore(p, v, off, b)) == Some(t)
    ensures Inv(t) && View(t).Keys == EagerStep(View(s), KernelStore(p, v, off, b)).Keys
    ensures View(t) == EagerStep(View(s), KernelStore(p, v, off, b)) <==> StaysPrivate(s, KernelStore(p, v, off, b))
  {
    hide CountsOk, TablesOk, Mappers, MapPage;
    if s.Has(p, v) {
      PageView(s, p, v);
      SupervisorStore(s, p, v, off, b);
    } else {
      StoreRefines(s, p, v, off, b, t);
    }
  }

  lemma ReleaseRefines(s: Cow, p: nat, lo: nat, hi: nat, t: Cow)
    requires Inv(s) && p in s.dirs && lo <= hi && t == UnmapRange(s, p, lo, hi)
    ensures Inv(t) && View(t) == WithoutPages(View(s), p, lo, hi)
  {
    hide Inv;
    UnmapRangeKeeps(s, p, lo, hi);
    PagesGoneView(s, t, p, lo, hi);
  }

  /**
   * One step of copy-on-write is one step of eager copying, except exactly for a kernel store that is not private. Every
   * step keeps the invariant.
   */
  lemma StepRefines(s: Cow, op: MemoryOp, t: Cow)
    requires Inv(s) && Enabled(s.dirs.Keys, op) && CowStep(s, op) == Some(t)
    ensures Inv(t) && View(t).Keys == EagerStep(View(s), op).Keys
    ensures View(t) == EagerStep(View(s), op) <==> StaysPrivate(s, op)
  {
    hide Inv, ViewOf, MapPage, Fork;
    match op
    case Load(p, v) =>
      LoadRefines(s, p, v, t);
    case Store(p, v, off, b) =>
      StoreRefines(s, p, v, off, b, t);
    case KernelStore(p, v, off, b) =>
      KernelStoreRefines(s, p, v, off, b, t);
    case ForkChild(p, c) =>
      ForkKeeps(s, p, c, t);
    case ReleasePages(p, lo, hi) =>
      ReleaseRefines(s, p, lo, hi, t);
    case ReleaseSpace(p) =>
      ReleaseSpaceKeeps(s, p, t);
  }

  lemma ReleaseSpaceKeeps(s: Cow, p: nat, t: Cow)
    requires Inv(s) && p in s.dirs && CowStep(s, ReleaseSpace(p)) == Some(t)
    ensures Inv(t) && View(t) == WithoutPages(View(s), p, FIRST_USER_PAGE, USER_PAGES_END)
  {
    hide Inv, View, WithoutPages, UnmapRange, DropTables, MapPage, Fork;
    var u := UnmapRange(s, p, FIRST_USER_PAGE, USER_PAGES_END);
    ReleaseRefines(s, p, FIRST_USER_PAGE, USER_PAGES_END, u);
    AllUserPagesGone(s, p);
    DropTablesKeeps(u, p, FIRST_USER_TABLE, USER_TABLES_END);
    SamePagesView(u, t);
  }

  lemma AllUserPagesGone(s: Cow, p: nat)
    requires Inv(s) && p in s.dirs
    ensures forall v: nat :: !UnmapRange(s, p, FIRST_USER_PAGE, USER_PAGES_END).Has(p, v)
  {
    hide CountsOk, TablesOk;
    var t := UnmapRange(s, p, FIRST_USER_PAGE, USER_PAGES_END);
    UnmapRangeKeeps(s, p, FIRST_USER_PAGE, USER_PAGES_END);
    forall v: nat ensures !t.Has(p, v) {
      assert t.Has(p, v) ==> s.Has(p, v) && UserPage(v);
    }
  }

  /** Shared memory after the operations; None if one was not enabled, or the kernel panicked for want of a frame. */
  ghost function CowRun(s: Cow, ops: seq<MemoryOp>): (r: Option<Cow>)
    requires Inv(s)
    ensures r.Some? ==> Inv(r.value)
  {
    if ops == [] then Some(s) else
    match CowRun(s, ops[..|ops| - 1])
    case None => None
    case Some(t) =>
      if !Enabled(t.dirs.Keys, ops[|ops| - 1]) then None else
      match CowStep(t, ops[|ops| - 1])
      case None => None
      case Some(u) => StepRefines(t, ops[|ops| - 1], u); Some(u)
  }

  /** The eager memory after the operations, all of which must be enabled. */
  ghost function EagerRun(e: Spaces, ops: seq<MemoryOp>): Option<Spaces> {
    if ops == [] then Some(e) else
    match EagerRun(e, ops[..|ops| - 1])
    case None => None
    case Some(f) => if Enabled(f.Keys, ops[|ops| - 1]) then Some(EagerStep(f, ops[|ops| - 1])) else None
  }

  /** Every kernel store of the run is private when it is made. */
  ghost predicate PrivateRun(s: Cow, ops: seq<MemoryOp>)
    requires Inv(s)
  {
    ops == [] ||
    (var front, op := ops[..|ops| - 1], ops[|ops| - 1];
     PrivateRun(s, front) &&
     match CowRun(s, front)
     case None => true
     case Some(u) => Enabled(u.dirs.Keys, op) ==> StaysPrivate(u, op))
  }

  /**
   * Copy-on-write refines eager copying: after any interleaving of loads, stores, forks and releases by any processes,
   * and of kernel stores that stay private, every process reads exactly the memory it would have if each fork had copied
   * every page at once. The first kernel store that does not stay private ends this.
   */
  lemma {:induction false} RunRefines(s: Cow, ops: seq<MemoryOp>, t: Cow)
    requires Inv(s) && CowRun(s, ops) == Some(t)
    requires ops != [] ==> PrivateRun(s, ops[..|ops| - 1])
    ensures EagerRun(View(s), ops) == Some(View(t)) <==> PrivateRun(s, ops)
  {
    hide Inv, CowStep, EagerStep, ViewOf, StaysPrivate;
    if ops != [] {
      var front, op := ops[..|ops| - 1], ops[|ops| - 1];
      var u := CowRun(s, front).value;
      if front != [] {
        PrivateRunFront(s, front);
      }
      RunRefines(s, front, u);
      StepRefines(u, op, t);
      assert View(u).Keys == u.dirs.Keys;
    }
  }

  lemma PrivateRunFront(s: Cow, ops: seq<MemoryOp>)
    requires Inv(s) && PrivateRun(s, ops) && ops != []
    ensures PrivateRun(s, ops[..|ops| - 1])
  {
  }

  /** Without kernel stores every run is private. */
  lemma {:induction false} UserRunIsPrivate(s: Cow, ops: seq<MemoryOp>)
    requires Inv(s) && forall i :: 0 <= i < |ops| ==> !ops[i].KernelStore?
    ensures PrivateRun(s, ops)
  {
    if ops != [] {
      UserRunIsPrivate(s, ops[..|ops| - 1]);
    }
  }

  /**
   * Over every run: a mapped frame is in use and has exactly one mapper more than its count, all of them read-only once
   * there are two; a frame not in use is mapped by nobody and has no count.
   */
  lemma RunCounts(s: Cow, ops: seq<MemoryOp>, t: Cow, f: nat)
    requires Inv(s) && CowRun(s, ops) == Some(t)
    ensures Mappers(t.dirs, f) != {} ==> f in t.used && |Mappers(t.dirs, f)| == t.Count(f) + 1
    ensures |Mappers(t.dirs, f)| >= 2 ==> forall p: nat, v: nat :: (p, v) in Mappers(t.dirs, f) ==> !t.At(p, v).rw
    ensures f !in t.used ==> Mappers(t.dirs, f) == {} && f !in t.counts
  {
    hide CowRun;
    if f !in t.used {
      UnusedUnmapped(t, f);
    } else if Mappers(t.dirs, f) != {} {
      var pair :| pair in Mappers(t.dirs, f);
      assert t.Has(pair.0, pair.1) && t.At(pair.0, pair.1).frame == f;
    }
  }
}

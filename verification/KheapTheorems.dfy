/** What alloc, free and expansion keep, one call at a time and over whole runs (src/mem/kheap.c). */
module KheapTheorems {
  import opened Machine
  import opened KheapSpec

  // ---- One change of the tiling ----

  /** The allocated block that `Carve` leaves at payload `p`. */
  function Taken(b: Block, p: nat, size: nat): (t: Block)
    requires b.Payload() <= p && p + size <= b.PayloadEnd()
    ensures t.Payload() == p && size <= t.size <= size + BLOCK_META_SIZE && t.PayloadEnd() <= b.PayloadEnd()
  {
    var blockSize := b.PayloadEnd() - p;
    Block(p - HEADER_SIZE, if blockSize - size <= BLOCK_META_SIZE then blockSize else size, false)
  }

  lemma CarveShape(b: Block, p: nat, size: nat, pageAlign: bool)
    requires size > 0 && Acceptable(b, size, pageAlign, p)
    ensures var c, t := Carve(b, p, size), Taken(b, p, size);
            && |c| == (if pageAlign then 2 else 1) + (if t.End() < b.End() then 1 else 0)
            && c[if pageAlign then 1 else 0] == t
            && (pageAlign ==> c[0] == Block(b.start, p - b.Payload() - BLOCK_META_SIZE, true))
            && (t.End() < b.End() ==> c[|c| - 1] == Block(t.End(), b.End() - t.End() - BLOCK_META_SIZE, true)
                                      && b.End() - t.End() > BLOCK_META_SIZE)
            && (t.End() >= b.End() ==> t.End() == b.End())
  {
  }

  lemma CarveKeeps(b: Block, p: nat, size: nat, pageAlign: bool)
    requires size > 0 && Acceptable(b, size, pageAlign, p)
    ensures Tiles(Carve(b, p, size)) && NoAdjacentHoles(Carve(b, p, size))
    ensures Carve(b, p, size)[0].start == b.start && EndOf(Carve(b, p, size)) == b.End()
  {
    CarveShape(b, p, size, pageAlign);
  }

  lemma CarveLive(b: Block, p: nat, size: nat, pageAlign: bool)
    requires size > 0 && Acceptable(b, size, pageAlign, p)
    ensures Live(Carve(b, p, size)) == {Taken(b, p, size)}
  {
    CarveShape(b, p, size, pageAlign);
  }

  /** The allocated blocks after replacing blocks `lo..hi` by `c`. */
  lemma ReplaceLive(bs: seq<Block>, lo: nat, hi: nat, c: seq<Block>)
    requires lo <= hi < |bs| && Apart(bs) && forall i :: 0 <= i < |bs| ==> bs[i].size > 0
    ensures Live(bs[..lo] + c + bs[hi + 1..]) == Live(bs) - Live(bs[lo..hi + 1]) + Live(c)
  {
    var a, m, z := bs[..lo], bs[lo..hi + 1], bs[hi + 1..];
    assert bs == a + m + z;
    forall b | b in a || b in z ensures b !in m {
    }
  }

  lemma SplitKeeps(bs: seq<Block>, k: nat, p: nat, size: nat, pageAlign: bool)
    requires WellFormed(bs) && k < |bs| && bs[k].hole && size > 0 && Acceptable(bs[k], size, pageAlign, p)
    ensures var bs' := SplitHole(bs, k, p, size);
            WellFormed(bs') && bs'[0].start == bs[0].start && EndOf(bs') == EndOf(bs)
  {
    CarveKeeps(bs[k], p, size, pageAlign);
    ReplaceKeeps(bs, k, k, Carve(bs[k], p, size));
  }

  lemma SplitLive(bs: seq<Block>, k: nat, p: nat, size: nat, pageAlign: bool)
    requires WellFormed(bs) && k < |bs| && bs[k].hole && size > 0 && Acceptable(bs[k], size, pageAlign, p)
    ensures Taken(bs[k], p, size) !in Live(bs)
    ensures Live(SplitHole(bs, k, p, size)) == Live(bs) + {Taken(bs[k], p, size)}
  {
    TilesApart(bs);
    CarveLive(bs[k], p, size, pageAlign);
    ReplaceLive(bs, k, k, Carve(bs[k], p, size));
    assert bs[k..k + 1] == [bs[k]];
  }

  /** Replacing blocks `lo..hi` by blocks over the same range keeps the tiling, and no holes meet at the seams. */
  lemma ReplaceKeeps(bs: seq<Block>, lo: nat, hi: nat, c: seq<Block>)
    requires WellFormed(bs) && lo <= hi < |bs|
    requires Tiles(c) && NoAdjacentHoles(c) && c[0].start == bs[lo].start && EndOf(c) == bs[hi].End()
    requires lo > 0 ==> !(bs[lo - 1].hole && c[0].hole)
    requires hi + 1 < |bs| ==> !(c[|c| - 1].hole && bs[hi + 1].hole)
    ensures var bs' := bs[..lo] + c + bs[hi + 1..];
            WellFormed(bs') && bs'[0].start == bs[0].start && EndOf(bs') == EndOf(bs)
  {
    var bs' := bs[..lo] + c + bs[hi + 1..];
    forall i | 0 <= i < |bs'| ensures bs'[i].size > 0
                              ensures i > 0 ==> bs'[i - 1].End() == bs'[i].start && !(bs'[i - 1].hole && bs'[i].hole)
    {
      if i < lo {
        assert bs'[i] == bs[i];
      } else if i < lo + |c| {
        assert bs'[i] == c[i - lo];
        assert i == lo && i > 0 ==> bs'[i - 1] == bs[lo - 1];
        assert i > lo ==> bs'[i - 1] == c[i - 1 - lo];
      } else {
        var j := i - |c| - lo + hi + 1;
        assert bs'[i] == bs[j];
        assert i == lo + |c| ==> bs'[i - 1] == c[|c| - 1];
        assert i > lo + |c| ==> bs'[i - 1] == bs[j - 1];
      }
    }
    assert EndOf(bs') == EndOf(bs) by {
      assert hi + 1 < |bs| ==> bs'[|bs'| - 1] == bs[|bs| - 1];
      assert hi + 1 == |bs| ==> bs'[|bs'| - 1] == c[|c| - 1];
    }
  }

  lemma GrowKeeps(bs: seq<Block>, ext: nat)
    requires WellFormed(bs) && ext > BLOCK_META_SIZE && ext % PAGE_SIZE == 0
    ensures var bs' := Grow(bs, ext);
            WellFormed(bs') && bs'[0].start == bs[0].start && EndOf(bs') == EndOf(bs) + ext
  {
    hide Grow;
    var bs', n := Grow(bs, ext), |bs| - 1;
    GrownLast(bs, ext);
    GrownFront(bs, ext);
    forall i | 0 < i < |bs'|
      ensures bs'[i - 1].End() == bs'[i].start && !(bs'[i - 1].hole && bs'[i].hole)
    {
      assert bs'[i - 1] == bs[i - 1];
    }
  }

  /** All blocks but the last are as before. */
  lemma GrownFront(bs: seq<Block>, ext: nat)
    requires bs != [] && ext > BLOCK_META_SIZE
    ensures
      var g := Grow(bs, ext);
      && |g| == |bs| + (if bs[|bs| - 1].hole then 0 else 1)
      && (forall i :: 0 <= i < |g| - 1 ==> g[i] == bs[i]) && g[0].start == bs[0].start
      && (!bs[|bs| - 1].hole ==> g[|g| - 1].start == EndOf(bs))
      && g[|g| - 1].size > 0
  {
  }

  lemma GrowLive(bs: seq<Block>, ext: nat)
    requires bs != [] && ext > BLOCK_META_SIZE
    ensures Live(Grow(bs, ext)) == Live(bs)
  {
    var n := |bs| - 1;
    assert bs == bs[..n] + [bs[n]];
  }

  /** Block `i` of a tiling begins where the one before it ends. */
  lemma TilesAt(bs: seq<Block>, i: nat)
    requires Tiles(bs) && i < |bs|
    ensures bs[i].size > 0 && (i > 0 ==> bs[i - 1].End() == bs[i].start)
  {
  }

  lemma HolesAt(bs: seq<Block>, i: nat)
    requires NoAdjacentHoles(bs) && 0 < i < |bs|
    ensures !(bs[i - 1].hole && bs[i].hole)
  {
  }

  lemma AllSizes(bs: seq<Block>)
    requires Tiles(bs)
    ensures bs != [] && forall i :: 0 <= i < |bs| ==> bs[i].size > 0
  {
  }

  lemma OneTile(b: Block)
    requires b.size > 0
    ensures Tiles([b]) && NoAdjacentHoles([b])
  {
  }

  lemma ReleaseKeeps(bs: seq<Block>, k: nat)
    requires WellFormed(bs) && k < |bs| && !bs[k].hole
    ensures var bs' := Release(bs, k);
            WellFormed(bs') && bs'[0].start == bs[0].start && EndOf(bs') == EndOf(bs)
  {
    hide Tiles, NoAdjacentHoles;
    var lo, hi := MergeFrom(bs, k), MergeTo(bs, k);
    TilesAt(bs, lo);
    TilesAt(bs, k);
    TilesAt(bs, hi);
    var merged := Block(bs[lo].start, bs[hi].End() - bs[lo].start - BLOCK_META_SIZE, true);
    OneTile(merged);
    if lo > 0 {
      HolesAt(bs, lo);
    }
    if hi + 1 < |bs| {
      HolesAt(bs, hi + 1);
    }
    ReplaceKeeps(bs, lo, hi, [merged]);
  }

  /** The only allocated block among those that merge is the released one. */
  lemma MergedLive(bs: seq<Block>, k: nat)
    requires k < |bs| && !bs[k].hole
    ensures Live(bs[MergeFrom(bs, k)..MergeTo(bs, k) + 1]) == {bs[k]}
  {
    var lo := MergeFrom(bs, k);
    var mid := bs[lo..MergeTo(bs, k) + 1];
    assert mid[k - lo] == bs[k];
  }

  lemma ReleaseLive(bs: seq<Block>, k: nat)
    requires Tiles(bs) && k < |bs| && !bs[k].hole
    ensures Live(Release(bs, k)) == Live(bs) - {bs[k]}
  {
    hide Tiles, Apart, Live;
    AllSizes(bs);
    TilesApart(bs);
    var lo, hi := MergeFrom(bs, k), MergeTo(bs, k);
    TilesAt(bs, k);
    TilesAt(bs, hi);
    var merged := Block(bs[lo].start, bs[hi].End() - bs[lo].start - BLOCK_META_SIZE, true);
    ReplaceLive(bs, lo, hi, [merged]);
    MergedLive(bs, k);
    HoleIsNotLive(merged);
    assert Live(bs) - {bs[k]} + {} == Live(bs) - {bs[k]};
  }

  lemma HoleIsNotLive(b: Block)
    requires b.hole
    ensures Live([b]) == {}
  {
  }

  /** Releasing what was just carved merges the front and tail pieces back: the very same tiling. */
  lemma ReleaseUndoesSplit(bs: seq<Block>, k: nat, p: nat, size: nat, pageAlign: bool)
    requires WellFormed(bs) && k < |bs| && bs[k].hole && size > 0 && Acceptable(bs[k], size, pageAlign, p)
    ensures var bs' := SplitHole(bs, k, p, size);
            var j := if pageAlign then k + 1 else k;
            && Tiles(bs') && j < |bs'| && bs'[j] == Taken(bs[k], p, size)
            && Release(bs', j) == bs
  {
    var bs' := SplitHole(bs, k, p, size);
    SplitKeeps(bs, k, p, size, pageAlign);
    CarveShape(bs[k], p, size, pageAlign);
    CarveKeeps(bs[k], p, size, pageAlign);
    ReleaseMerges(bs, k, Carve(bs[k], p, size), if pageAlign then k + 1 else k);
  }

  /** If a hole was replaced by a live block between holes, releasing that block brings the hole back. */
  lemma ReleaseMerges(bs: seq<Block>, k: nat, c: seq<Block>, j: nat)
    requires WellFormed(bs) && k < |bs| && bs[k].hole && k <= j < k + |c|
    requires var bs' := bs[..k] + c + bs[k + 1..]; Tiles(bs')
    requires 0 < |c| && c[0].start == bs[k].start && EndOf(c) == bs[k].End()
    requires forall i :: 0 <= i < |c| ==> c[i].hole == (k + i != j)
    requires k - 1 <= j - 1 <= k && j <= k + |c| - 1 <= j + 1
    ensures Release(bs[..k] + c + bs[k + 1..], j) == bs
  {
    hide Tiles, NoAdjacentHoles, Release;
    if k > 0 {
      HolesAt(bs, k);
    }
    if k + 1 < |bs| {
      HolesAt(bs, k + 1);
    }
    MergedBack(bs[..k], bs[k], c, bs[k + 1..], j);
    assert bs == bs[..k] + [bs[k]] + bs[k + 1..];
  }

  lemma MergedBack(a: seq<Block>, b: Block, c: seq<Block>, z: seq<Block>, j: nat)
    requires Tiles(a + c + z) && b.hole && 0 < |c| && c[0].start == b.start && EndOf(c) == b.End()
    requires |a| <= j < |a| + |c| && forall i :: 0 <= i < |c| ==> c[i].hole == (|a| + i != j)
    requires j <= |a| + 1 && j <= |a| + |c| - 1 <= j + 1
    requires (a != [] ==> !a[|a| - 1].hole) && (z != [] ==> !z[0].hole)
    ensures Release(a + c + z, j) == a + [b] + z
  {
    hide Tiles, MergeFrom, MergeTo;
    var s, hi := a + c + z, |a| + |c| - 1;
    MergedEnds(a, c, z, j);
    assert s[|a|] == c[0] && s[hi] == c[|c| - 1];
    assert s[..|a|] == a && s[hi + 1..] == z;
  }

  lemma MergedEnds(a: seq<Block>, c: seq<Block>, z: seq<Block>, j: nat)
    requires |a| <= j < |a| + |c| && forall i :: 0 <= i < |c| ==> c[i].hole == (|a| + i != j)
    requires j <= |a| + 1 && j <= |a| + |c| - 1 <= j + 1
    requires (a != [] ==> !a[|a| - 1].hole) && (z != [] ==> !z[0].hole)
    ensures MergeFrom(a + c + z, j) == |a| && MergeTo(a + c + z, j) == |a| + |c| - 1
  {
    var s := a + c + z;
    assert j > |a| ==> s[j - 1] == c[0];
    assert a != [] ==> s[|a| - 1] == a[|a| - 1];
    assert j + 1 < |a| + |c| ==> s[j + 1] == c[|c| - 1];
    assert z != [] ==> s[|a| + |c|] == z[0];
  }

  // ---- Expansion ----

  /** Page boundaries: one at most a little past another is not past it. */
  lemma PagesApart(a: nat, q: int, slack: nat)
    requires a % PAGE_SIZE == 0 && q % PAGE_SIZE == 0 && a <= q + slack && slack < PAGE_SIZE
    ensures a <= q
  {
  }

  lemma PagesBack(a: nat, ext: nat)
    requires a % PAGE_SIZE == 0 && ext % PAGE_SIZE == 0
    ensures (a - 2 * ext) % PAGE_SIZE == 0
  {
  }

  /** An expansion is whole pages, and enough for the request's block. */
  lemma ExtensionPages(size: nat)
    ensures Extension(size) % PAGE_SIZE == 0 && Extension(size) >= PAGE_SIZE
    ensures size + BLOCK_META_SIZE <= Extension(size) < size + BLOCK_META_SIZE + PAGE_SIZE
  {
  }

  /** A last hole that two expansions have lengthened takes the request at a page boundary. */
  lemma TwoExtensionsFit(b: Block, size: nat)
    requires b.End() % PAGE_SIZE == 0 && b.start + 2 * Extension(size) <= b.End()
    ensures FitPos(b, size, true).Some?
  {
    hide AlignToPage, Extension;
    var ext, x := Extension(size), b.Payload();
    var q, a := b.End() - 2 * ext, AlignToPage(x);
    ExtensionPages(size);
    PagesBack(b.End(), ext);
    if a - x > BLOCK_META_SIZE {
      PagesApart(a, q + PAGE_SIZE, HEADER_SIZE);
    } else {
      PagesApart(a, q, HEADER_SIZE + BLOCK_META_SIZE);
    }
  }

  lemma OneExtensionFits(b: Block, size: nat)
    requires b.size + BLOCK_META_SIZE >= Extension(size)
    ensures FitPos(b, size, false).Some?
  {
  }

  /** The last block after expanding, and where it ends. */
  lemma GrownLast(bs: seq<Block>, ext: nat)
    requires bs != [] && ext >= BLOCK_META_SIZE
    ensures
      var g := Grow(bs, ext);
      var b := g[|g| - 1];
      && b.hole && b.End() == EndOf(bs) + ext && b.start <= EndOf(bs) && b.size + BLOCK_META_SIZE >= ext
      && (bs[|bs| - 1].hole ==> b.start == bs[|bs| - 1].start)
  {
  }

  /** One expansion always makes room for an unaligned request, two for a page-aligned one. */
  lemma ExpansionSuffices(bs: seq<Block>, size: nat, pageAlign: bool)
    requires WellFormed(bs) && size > 0
    ensures AnyFits(GrowTimes(bs, Extension(size), if pageAlign then 2 else 1), size, pageAlign)
  {
    hide Extension, AlignToPage, Grow, Tiles, NoAdjacentHoles;
    var ext := Extension(size);
    ExtensionPages(size);
    AllSizes(bs);
    var g := Grow(bs, ext);
    GrownLast(bs, ext);
    if pageAlign {
      hide FitPos;
      GrowKeeps(bs, ext);
      var gg := Grow(g, ext);
      GrownLast(g, ext);
      assert GrowTimes(bs, ext, 2) == gg by {
        assert GrowTimes(g, ext, 1) == GrowTimes(gg, ext, 0);
      }
      TwoExtensionsFit(gg[|gg| - 1], size);
      assert Fits(gg, |gg| - 1, size, true);
    } else {
      OneExtensionFits(g[|g| - 1], size);
      assert GrowTimes(bs, ext, 1) == GrowTimes(g, ext, 0) == g;
      assert Fits(g, |g| - 1, size, false);
    }
  }

  /** `alloc` expands at most once for an unaligned request and at most twice for a page-aligned one. */
  lemma AllocExpansions(bs: seq<Block>, size: nat, pageAlign: bool, bs': seq<Block>, ptr: nat, n: nat)
    requires WellFormed(bs) && size > 0 && AllocStep(bs, size, pageAlign, bs', ptr, n)
    ensures n <= if pageAlign then 2 else 1
  {
    ExpansionSuffices(bs, size, pageAlign);
    var ext := Extension(size);
    var g := Grow(bs, ext);
    if n > 1 {
      assert AllocStep(g, size, pageAlign, bs', ptr, n - 1);
      assert GrowTimes(bs, ext, 1) == GrowTimes(g, ext, 0) == g;
      var gg := Grow(g, ext);
      assert AllocStep(gg, size, pageAlign, bs', ptr, n - 2);
      assert GrowTimes(bs, ext, 2) == GrowTimes(g, ext, 1) == GrowTimes(gg, ext, 0);
    }
  }

  /** What the code expands by: the same, in unsigned 32-bit arithmetic. */
  function Extension32(size: nat): nat {
    U32(AlignToPage(U32(size + BLOCK_META_SIZE)))
  }

  /**
   * It is the true extension exactly for requests that leave room for their metadata and the rounding up below 4 GB, and
   * nothing at all exactly for those where the rounding, or the metadata, wraps to 0.
   */
  lemma ExtensionExactly(size: nat)
    requires size < U32_LIMIT
    ensures Extension32(size) == Extension(size) <==> size + BLOCK_META_SIZE <= U32_LIMIT - PAGE_SIZE
    ensures Extension32(size) == 0 <==> U32_LIMIT - PAGE_SIZE < size + BLOCK_META_SIZE <= U32_LIMIT
  {
    var n := size + BLOCK_META_SIZE;
    if n >= U32_LIMIT {
      assert U32(n) == n - U32_LIMIT;
    }
    PageRound(U32(n));
  }

  lemma PageRound(n: nat)
    requires n < U32_LIMIT
    ensures AlignToPage(n) <= U32_LIMIT && (AlignToPage(n) == U32_LIMIT <==> n > U32_LIMIT - PAGE_SIZE)
    ensures AlignToPage(n) == 0 <==> n == 0
  {
    var k := AlignToPage(n) / PAGE_SIZE;
    assert AlignToPage(n) == k * PAGE_SIZE;
  }

  /** The expansions of `alloc` while the last block is a hole, by any extension. */
  function LengthenTimes(bs: seq<Block>, ext: nat, n: nat): (r: seq<Block>)
    requires bs != []
    ensures r != []
    decreases n
  {
    if n == 0 then bs else
    var last := bs[|bs| - 1];
    LengthenTimes(bs[..|bs| - 1] + [last.(size := last.size + ext)], ext, n - 1)
  }

  /**
   * Such a request never ends, if it fits nowhere and the last block is a hole: each expansion adds nothing, and the next
   * search fails like the one before.
   */
  lemma {:induction false} NothingAdded(bs: seq<Block>, size: nat, pageAlign: bool, n: nat)
    requires bs != [] && bs[|bs| - 1].hole && !AnyFits(bs, size, pageAlign)
    requires size < U32_LIMIT && U32_LIMIT - PAGE_SIZE < size + BLOCK_META_SIZE <= U32_LIMIT
    ensures !AnyFits(LengthenTimes(bs, Extension32(size), n), size, pageAlign)
    decreases n
  {
    hide AnyFits;
    ExtensionExactly(size);
    if n > 0 {
      var last := bs[|bs| - 1];
      assert bs[..|bs| - 1] + [last.(size := last.size + 0)] == bs;
      NothingAdded(bs, size, pageAlign, n - 1);
    }
  }

  // ---- alloc ----

  /** What one `alloc` does: `t` is the new block, and `j` its place among the blocks. */
  lemma {:induction false} AllocTheorem(bs: seq<Block>, size: nat, pageAlign: bool, bs': seq<Block>, ptr: nat, n: nat)
    returns (t: Block, j: nat)
    requires WellFormed(bs) && size > 0 && AllocStep(bs, size, pageAlign, bs', ptr, n)
    ensures WellFormed(bs') && bs'[0].start == bs[0].start
    ensures EndOf(bs') == EndOf(bs) + n * Extension(size) && EndOf(bs') >= EndOf(bs)
    ensures t.Payload() == ptr && size <= t.size <= size + BLOCK_META_SIZE && !t.hole
    ensures pageAlign ==> ptr % PAGE_SIZE == 0
    ensures t !in Live(bs) && Live(bs') == Live(bs) + {t}
    ensures IsLiveAt(bs', j, ptr) && bs'[j] == t
    ensures Release(bs', j) == GrowTimes(bs, Extension(size), n)
    decreases n
  {
    if n == 0 {
      var k: nat :| BestFit(bs, k, size, pageAlign) && FitPos(bs[k], size, pageAlign) == Some(ptr)
               && bs' == SplitHole(bs, k, ptr, size);
      t := Taken(bs[k], ptr, size);
      j := if pageAlign then k + 1 else k;
      SplitKeeps(bs, k, ptr, size, pageAlign);
      SplitLive(bs, k, ptr, size, pageAlign);
      ReleaseUndoesSplit(bs, k, ptr, size, pageAlign);
    } else {
      var ext := Extension(size);
      GrowKeeps(bs, ext);
      GrowLive(bs, ext);
      t, j := AllocTheorem(Grow(bs, ext), size, pageAlign, bs', ptr, n - 1);
    }
  }

  lemma PlaceFits(bs: seq<Block>, size: nat, pageAlign: bool, j: nat, q: nat)
    requires j < |bs| && bs[j].hole && Acceptable(bs[j], size, pageAlign, q)
    ensures Fits(bs, j, size, pageAlign) && AnyFits(bs, size, pageAlign)
  {
    FitPosIsLeast(bs[j], size, pageAlign, q);
    assert Fits(bs, j, size, pageAlign);
  }

  /**
   * Which hole `alloc` takes: it expands only while no hole has a place for the payload, and then takes a smallest hole
   * that has one. Here `q` is any place in hole `j` after `m` expansions: there are none before the last expansion, and
   * none in a smaller hole after it. The payload goes to the lowest place in its hole.
   */
  lemma {:induction false} AllocBestFit(bs: seq<Block>, size: nat, pageAlign: bool, bs': seq<Block>, ptr: nat, n: nat,
                                        m: nat, j: nat, q: nat)
    returns (k: nat)
    requires bs != [] && size > 0 && AllocStep(bs, size, pageAlign, bs', ptr, n) && m <= n
    requires var g := GrowTimes(bs, Extension(size), m);
             && j < |g| && g[j].hole && g[j].Payload() <= q && q + size <= g[j].PayloadEnd()
             && if pageAlign then q % PAGE_SIZE == 0 && q > g[j].Payload() + BLOCK_META_SIZE else q == g[j].Payload()
    ensures m == n
    ensures var g := GrowTimes(bs, Extension(size), n);
            && k < |g| && g[k].hole && g[k].Payload() <= ptr && ptr + size <= g[k].PayloadEnd()
            && (if pageAlign then
                  ptr % PAGE_SIZE == 0
                  && g[k].Payload() + BLOCK_META_SIZE < ptr <= g[k].Payload() + BLOCK_META_SIZE + PAGE_SIZE
                else ptr == g[k].Payload())
            && g[k].size <= g[j].size
    decreases n
  {
    var ext := Extension(size);
    if m == 0 {
      PlaceFits(bs, size, pageAlign, j, q);
    }
    if n == 0 {
      k :| BestFit(bs, k, size, pageAlign) && FitPos(bs[k], size, pageAlign) == Some(ptr)
           && bs' == SplitHole(bs, k, ptr, size);
      assert Fits(bs, j, size, pageAlign);
    } else if m > 0 {
      k := AllocBestFit(Grow(bs, ext), size, pageAlign, bs', ptr, n - 1, m - 1, j, q);
    }
  }

  lemma AllocKeeps(bs: seq<Block>, size: nat, pageAlign: bool, bs': seq<Block>, ptr: nat, n: nat) returns (t: Block)
    requires WellFormed(bs) && size > 0 && AllocStep(bs, size, pageAlign, bs', ptr, n)
    ensures WellFormed(bs') && bs'[0].start == bs[0].start && EndOf(bs') >= EndOf(bs)
    ensures t.Payload() == ptr && size <= t.size && t !in Live(bs) && Live(bs') == Live(bs) + {t}
  {
    var j;
    t, j := AllocTheorem(bs, size, pageAlign, bs', ptr, n);
  }

  /** What one `free` does. */
  lemma FreeTheorem(bs: seq<Block>, ptr: nat, bs': seq<Block>) returns (t: Block)
    requires WellFormed(bs) && FreeStep(bs, ptr, bs')
    ensures WellFormed(bs') && bs'[0].start == bs[0].start && EndOf(bs') == EndOf(bs)
    ensures t.Payload() == ptr && t in Live(bs) && Live(bs') == Live(bs) - {t}
  {
    var k: nat :| IsLiveAt(bs, k, ptr) && bs' == Release(bs, k);
    ReleaseKeeps(bs, k);
    t := bs[k];
    assert Live(bs') == Live(bs) - {t} by {
      ReleaseLive(bs, k);
    }
  }

  /** A payload is disjoint from every other payload and from all headers and footers. */
  lemma PayloadsDisjoint(bs: seq<Block>, i: nat, j: nat, a: nat)
    requires WellFormed(bs) && i < |bs| && j < |bs| && i != j
    requires bs[i].Payload() <= a < bs[i].PayloadEnd()
    ensures !(bs[j].start <= a < bs[j].End())
  {
    TilesApart(bs);
  }

  /** Freeing the pointer an `alloc` returned restores the tiling, expansion holes merged in. */
  lemma AllocFreeRoundTrip(bs: seq<Block>, size: nat, pageAlign: bool, bs': seq<Block>, ptr: nat, n: nat, bs'': seq<Block>)
    requires WellFormed(bs) && size > 0 && AllocStep(bs, size, pageAlign, bs', ptr, n) && FreeStep(bs', ptr, bs'')
    ensures bs'' == GrowTimes(bs, Extension(size), n)
    ensures n == 0 ==> bs'' == bs
  {
    var t, j := AllocTheorem(bs, size, pageAlign, bs', ptr, n);
    var k: nat :| IsLiveAt(bs', k, ptr) && bs'' == Release(bs', k);
    TilesApart(bs');
    assert k == j;
  }

  // ---- Runs ----

  datatype HeapOp =
    | AllocOp(size: nat, pageAlign: bool, ptr: nat)
    | FreeOp(ptr: nat)

  ghost predicate HeapStep(bs: seq<Block>, op: HeapOp, bs': seq<Block>) {
    bs != [] &&
    match op
    case AllocOp(size, pageAlign, ptr) => size > 0 && exists n: nat :: AllocStep(bs, size, pageAlign, bs', ptr, n)
    case FreeOp(ptr) => FreeStep(bs, ptr, bs')
  }

  lemma AllocIsStep(bs: seq<Block>, size: nat, pageAlign: bool, bs': seq<Block>, ptr: nat, n: nat)
    requires bs != [] && size > 0 && AllocStep(bs, size, pageAlign, bs', ptr, n)
    ensures HeapStep(bs, AllocOp(size, pageAlign, ptr), bs')
  {
    hide AllocStep;
  }

  /** `states` are the heaps before, between and after the operations. */
  ghost predicate HeapRun(states: seq<seq<Block>>, ops: seq<HeapOp>) {
    && |states| == |ops| + 1
    && forall i :: 0 <= i < |ops| ==> HeapStep(states[i], ops[i], states[i + 1])
  }

  /** Allocations minus frees. */
  function Balance(ops: seq<HeapOp>): int {
    if ops == [] then 0 else Balance(ops[..|ops| - 1]) + (if ops[|ops| - 1].AllocOp? then 1 else -1)
  }

  /** One operation keeps the invariant, and changes the allocated blocks by exactly its own. */
  lemma StepKeeps(bs: seq<Block>, op: HeapOp, bs': seq<Block>) returns (t: Block)
    requires WellFormed(bs) && HeapStep(bs, op, bs')
    ensures WellFormed(bs') && bs'[0].start == bs[0].start && EndOf(bs') >= EndOf(bs)
    ensures t.Payload() == op.ptr
    ensures op.AllocOp? ==> t.size >= op.size && t !in Live(bs) && Live(bs') == Live(bs) + {t}
    ensures op.FreeOp? ==> t in Live(bs) && Live(bs') == Live(bs) - {t}
  {
    if op.AllocOp? {
      var n: nat :| AllocStep(bs, op.size, op.pageAlign, bs', op.ptr, n);
      t := AllocKeeps(bs, op.size, op.pageAlign, bs', op.ptr, n);
    } else {
      t := FreeTheorem(bs, op.ptr, bs');
    }
  }

  /** Over every run the invariant holds, and the live blocks number allocations minus frees. */
  lemma {:induction false} RunKeeps(states: seq<seq<Block>>, ops: seq<HeapOp>)
    requires HeapRun(states, ops) && WellFormed(states[0])
    ensures var final := states[|ops|];
            && WellFormed(final) && final[0].start == states[0][0].start && EndOf(final) >= EndOf(states[0])
            && |Live(final)| == |Live(states[0])| + Balance(ops)
  {
    if ops != [] {
      var m := |ops| - 1;
      RunKeeps(states[..|ops|], ops[..m]);
      var t := StepKeeps(states[m], ops[m], states[m + 1]);
    }
  }

  lemma HolesSplit(bs: seq<Block>)
    requires bs != []
    ensures
      var front, last := bs[..|bs| - 1], bs[|bs| - 1];
      && Holes(bs) == Holes(front) + (if last.hole then {last.start} else {})
      && Live(bs) == Live(front) + (if last.hole then {} else {last})
  {
    assert bs == bs[..|bs| - 1] + [bs[|bs| - 1]];
  }

  /** As no two holes meet, the holes outnumber the live blocks by at most one, and only if the last block is a hole. */
  lemma {:induction false} FewHoles(bs: seq<Block>)
    requires Tiles(bs) && NoAdjacentHoles(bs)
    ensures |Holes(bs)| <= |Live(bs)| + if bs[|bs| - 1].hole then 1 else 0
    decreases |bs|
  {
    HolesSplit(bs);
    var front, last := bs[..|bs| - 1], bs[|bs| - 1];
    if front == [] {
      assert Holes(front) == {} && Live(front) == {};
    } else {
      FewHoles(front);
      TilesApart(bs);
      assert last !in Live(front);
    }
  }

  /**
   * So the entries the hole index needs are bounded over every run: at most one more than the live blocks, which number
   * those at the start plus allocations minus frees.
   */
  lemma HolesOverRun(states: seq<seq<Block>>, ops: seq<HeapOp>)
    requires HeapRun(states, ops) && WellFormed(states[0])
    ensures |Holes(states[|ops|])| <= |Live(states[0])| + Balance(ops) + 1
  {
    RunKeeps(states, ops);
    FewHoles(states[|ops|]);
  }

  /** A block nobody frees stays allocated, where and as large as it was. */
  lemma {:induction false} RunKeepsUnfreed(states: seq<seq<Block>>, ops: seq<HeapOp>, b: Block)
    requires HeapRun(states, ops) && WellFormed(states[0])
    requires b in Live(states[0]) && FreeOp(b.Payload()) !in ops
    ensures b in Live(states[|ops|])
  {
    if ops != [] {
      var m := |ops| - 1;
      RunKeepsUnfreed(states[..|ops|], ops[..m], b);
      RunKeeps(states[..|ops|], ops[..m]);
      var t := StepKeeps(states[m], ops[m], states[m + 1]);
      assert ops[m] in ops;
    }
  }

  /** Nothing allocated means one hole over the whole range. */
  lemma AllHole(bs: seq<Block>)
    requires WellFormed(bs) && Live(bs) == {}
    ensures |bs| == 1 && bs[0].hole
  {
    assert |bs| > 1 ==> !(bs[0].hole && bs[1].hole);
    assert forall b :: b in bs ==> b.hole || b in Live(bs);
  }

  /** Once a heap that started empty is empty again, in whatever order it was freed, it is a single hole. */
  lemma EverythingFreed(states: seq<seq<Block>>, ops: seq<HeapOp>)
    requires HeapRun(states, ops) && WellFormed(states[0]) && Live(states[0]) == {}
    requires Balance(ops) == 0
    ensures var final := states[|ops|];
            |final| == 1 && final[0].hole && final[0].start == states[0][0].start && final[0].End() == EndOf(final)
  {
    RunKeeps(states, ops);
    assert Live(states[|ops|]) == {};
    AllHole(states[|ops|]);
  }

  /**
   * The unsigned sum in `kheap_expand` lets an extension through that passes the maximum exactly when the true sum
   * wraps into the range up to the maximum.
   */
  lemma ExpandCheckWraps(end: nat, max: nat, ext: nat)
    requires end <= max < U32_LIMIT && ext < U32_LIMIT
    ensures U32(end + ext) <= max < end + ext <==> U32_LIMIT <= end + ext <= U32_LIMIT + max
  {
    if end + ext >= U32_LIMIT {
      assert U32(end + ext) == end + ext - U32_LIMIT;
    }
  }

  /** With the kernel's constants a one-gigabyte request wraps past the check, and the new end lies below the heap. */
  lemma GigabyteRequestWraps()
    ensures var end, max := 0xC0C0_0000 + 0x30_0000, 0xE000_0000;
            var ext := Extension(0x4000_0000);
            U32(end + ext) <= max < end + ext && U32(end + ext) < 0xC0C0_0000
  {
    ExpandCheckWraps(0xC0F0_0000, 0xE000_0000, Extension(0x4000_0000));
  }
}

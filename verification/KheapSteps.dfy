/** The heap invariant over the bytes, the index and the blocks, and what each step of the code does to it. */
module KheapSteps {
  import opened Machine
  import opened OrderedArrays
  import opened KheapSpec
  import opened KheapMemory
  import opened KheapTheorems

  /** The live payloads among `bs` read the same in `m` and `m'`. */
  ghost predicate KeepsPayloads(m: seq<byte>, m': seq<byte>, bs: seq<Block>) {
    && |m| == |m'|
    && forall i, a :: 0 <= i < |bs| && !bs[i].hole && bs[i].Payload() <= a < bs[i].PayloadEnd() && a < |m| ==> m'[a] == m[a]
  }

  /** So whoever owns a payload reads the bytes it wrote. */
  lemma PayloadReads(m: seq<byte>, m': seq<byte>, bs: seq<Block>, i: nat, a: nat)
    requires KeepsPayloads(m, m', bs) && i < |bs| && !bs[i].hole
    requires bs[i].start + 9 <= a < bs[i].start + 9 + bs[i].size && a < |m|
    ensures a < |m'| && m'[a] == m[a]
  {
  }

  /** No expansion that stays below `max` makes a hole fit. */
  ghost predicate OutOfRoom(bs: seq<Block>, size: nat, pageAlign: bool, max: nat)
    requires bs != []
    decreases max - EndOf(bs)
  {
    var ext := Extension(size);
    && !AnyFits(bs, size, pageAlign)
    && (EndOf(bs) + ext > max || OutOfRoom(Grow(bs, ext), size, pageAlign, max))
  }

  lemma {:induction false} NeverFits(bs: seq<Block>, size: nat, pageAlign: bool, max: nat, n: nat)
    requires bs != [] && EndOf(bs) + n * Extension(size) <= max && OutOfRoom(bs, size, pageAlign, max)
    ensures Extension(size) >= BLOCK_META_SIZE && !AnyFits(GrowTimes(bs, Extension(size), n), size, pageAlign)
    decreases n
  {
    hide Extension, Grow, AnyFits;
    var ext := Extension(size);
    ExtensionPages(size);
    GrownLast(bs, ext);
    if n > 0 {
      OneMoreTime(ext, n - 1);
      NeverFits(Grow(bs, ext), size, pageAlign, max, n - 1);
    }
  }

  lemma {:induction false} OnceFits(bs: seq<Block>, size: nat, pageAlign: bool, max: nat) returns (n: nat)
    requires bs != [] && EndOf(bs) <= max && !OutOfRoom(bs, size, pageAlign, max)
    ensures Extension(size) >= BLOCK_META_SIZE && EndOf(bs) + n * Extension(size) <= max
    ensures AnyFits(GrowTimes(bs, Extension(size), n), size, pageAlign)
    decreases max - EndOf(bs)
  {
    hide Extension, Grow, AnyFits;
    var ext := Extension(size);
    ExtensionPages(size);
    GrownLast(bs, ext);
    if AnyFits(bs, size, pageAlign) {
      n := 0;
    } else {
      var k := OnceFits(Grow(bs, ext), size, pageAlign, max);
      OneMoreTime(ext, k);
      n := k + 1;
    }
  }

  /** That is: however often the heap is expanded below `max`, no hole fits. */
  lemma OutOfRoomExactly(bs: seq<Block>, size: nat, pageAlign: bool, max: nat)
    requires bs != [] && EndOf(bs) <= max
    ensures OutOfRoom(bs, size, pageAlign, max) <==>
              forall n: nat :: EndOf(bs) + n * Extension(size) <= max ==>
                                 !AnyFits(GrowTimes(bs, Extension(size), n), size, pageAlign)
  {
    hide Extension, AnyFits, GrowTimes;
    ExtensionPages(size);
    if OutOfRoom(bs, size, pageAlign, max) {
      hide OutOfRoom;
      forall n: nat | EndOf(bs) + n * Extension(size) <= max
        ensures !AnyFits(GrowTimes(bs, Extension(size), n), size, pageAlign)
      {
        NeverFits(bs, size, pageAlign, max, n);
      }
    } else {
      var n := OnceFits(bs, size, pageAlign, max);
    }
  }

  lemma OneMoreTime(ext: nat, n: nat)
    ensures (n + 1) * ext == ext + n * ext && n * ext >= 0
  {
  }

  /** Then the maximum is less than two expansions away, or less than one for an unaligned request, which fits no hole. */
  lemma OutOfRoomIsClose(bs: seq<Block>, size: nat, pageAlign: bool, max: nat)
    requires WellFormed(bs) && EndOf(bs) <= max && size > 0 && OutOfRoom(bs, size, pageAlign, max)
    ensures EndOf(bs) + (if pageAlign then 2 else 1) * Extension(size) > max
    ensures !pageAlign ==> forall k :: 0 <= k < |bs| && bs[k].hole ==> bs[k].size < size
  {
    hide Extension;
    ExtensionPages(size);
    NeverFits(bs, size, pageAlign, max, 0);
    assert GrowTimes(bs, Extension(size), 0) == bs;
    ExpansionSuffices(bs, size, pageAlign);
    var n := if pageAlign then 2 else 1;
    if EndOf(bs) + n * Extension(size) <= max {
      NeverFits(bs, size, pageAlign, max, n);
    }
    forall k | 0 <= k < |bs| && bs[k].hole && !pageAlign
      ensures bs[k].size < size
    {
      assert !Fits(bs, k, size, pageAlign);
    }
  }

  /** Pages above `from` were never written, so they read zero when first touched. */
  ghost predicate Untouched(m: seq<byte>, from: nat) {
    forall a :: from <= a < |m| ==> m[a] == 0
  }

  /** The heap invariant over the memory, the index and the blocks. */
  ghost predicate HeapOk(m: seq<byte>, idx: seq<nat>, bs: seq<Block>, start: nat, end: nat, max: nat) {
    && WellFormed(bs) && bs[0].start == start && EndOf(bs) == end
    && Indexed(m, idx, bs)
    && FOOTER_SIZE <= start && end <= max
    && max + HEADER_SIZE <= |m| <= U32_LIMIT
    && Untouched(m, end)
    && Word(m, start - FOOTER_SIZE) != KHEAP_MAGIC
  }

  /**
   * What lies in memory at a block: in the header the magic number, a byte that says whether it is a hole, and the size; in
   * the footer, behind the payload, the magic number and the header's address. The index lists exactly the holes.
   */
  lemma HeapInMemory(m: seq<byte>, idx: seq<nat>, bs: seq<Block>, start: nat, end: nat, max: nat, i: nat)
    requires HeapOk(m, idx, bs, start, end, max) && i < |bs|
    ensures
      var b := bs[i];
      && b.start + 9 + b.size + 8 <= |m|
      && Word(m, b.start) == 0x123060AB && m[b.start + 4] == (if b.hole then 1 else 0) && Word(m, b.start + 5) == b.size
      && Word(m, b.start + 9 + b.size) == 0x123060AB && Word(m, b.start + 9 + b.size + 4) == b.start
      && (b.start in idx <==> b.hole)
  {
    assert bs[i].hole ==> bs[i].start in Holes(bs);
    if bs[i].start in idx && !bs[i].hole {
      TilesApart(bs);
    }
    hide WellFormed, Untouched, Word;
    IndexedBlock(m, idx, bs, i);
  }

  /** The blocks fill the range, no two holes meet, and the index lists nothing twice. */
  lemma HeapFillsRange(m: seq<byte>, idx: seq<nat>, bs: seq<Block>, start: nat, end: nat, max: nat, i: nat)
    requires HeapOk(m, idx, bs, start, end, max) && i < |bs|
    ensures bs[0].start == start && bs[|bs| - 1].End() == end <= max && end % 4096 == 0
    ensures i + 1 < |bs| ==> bs[i].start + 9 + bs[i].size + 8 == bs[i + 1].start && !(bs[i].hole && bs[i + 1].hole)
    ensures forall j, k :: 0 <= j < k < |idx| ==> idx[j] != idx[k]
  {
    hide BlockAt, Untouched, Word, Sorted;
  }

  lemma HeapParts(m: seq<byte>, idx: seq<nat>, bs: seq<Block>, start: nat, end: nat, max: nat)
    requires HeapOk(m, idx, bs, start, end, max)
    ensures WellFormed(bs) && bs != [] && bs[0].start == start && EndOf(bs) == end && Indexed(m, idx, bs)
    ensures FOOTER_SIZE <= start && start < end <= max && max + HEADER_SIZE <= |m| <= U32_LIMIT
  {
    TilesApart(bs);
  }

  /** The index has as many entries as there are holes. */
  lemma IndexCount(m: seq<byte>, idx: seq<nat>, bs: seq<Block>)
    requires Indexed(m, idx, bs)
    ensures |idx| == |Holes(bs)|
  {
    DistinctCount(idx, Holes(bs));
  }

  lemma {:induction false} DistinctCount(s: seq<nat>, xs: set<nat>)
    requires Distinct(s) && forall x :: x in s <==> x in xs
    ensures |s| == |xs|
  {
    if s == [] {
      assert xs == {};
    } else {
      var t := s[..|s| - 1];
      assert s == t + [s[|s| - 1]];
      DistinctCount(t, xs - {s[|s| - 1]});
    }
  }

  /** The index has an entry for each hole. */
  lemma IndexSize(m: seq<byte>, idx: seq<nat>, bs: seq<Block>)
    requires WellFormed(bs) && Indexed(m, idx, bs)
    ensures |idx| == |Holes(bs)| <= |Live(bs)| + if bs[|bs| - 1].hole then 1 else 0
  {
    FewHoles(bs);
    IndexCount(m, idx, bs);
  }

  lemma NoByteChanged(m: seq<byte>, bs: seq<Block>)
    ensures KeepsPayloads(m, m, bs)
  {
  }

  lemma WriteKeepsPayloads(m: seq<byte>, m': seq<byte>, bs: seq<Block>, b: Block)
    requires WroteBlock(m, m', b)
    requires forall i :: 0 <= i < |bs| && !bs[i].hole ==> bs[i].End() <= b.start || b.End() <= bs[i].start
    ensures KeepsPayloads(m, m', bs)
  {
  }

  /** What lies below the heap and above its new end survives the writing of a block. */
  lemma OutsideKept(m: seq<byte>, m': seq<byte>, start: nat, end: nat, b: Block)
    requires FOOTER_SIZE <= start <= b.start && end <= b.End() && WroteBlock(m, m', b)
    requires Untouched(m, end) && Word(m, start - FOOTER_SIZE) != KHEAP_MAGIC
    ensures Untouched(m', b.End()) && Word(m', start - FOOTER_SIZE) != KHEAP_MAGIC
  {
    WordKept(m, m', start - FOOTER_SIZE);
  }

  lemma HoleIndexed(m: seq<byte>, idx: seq<nat>, bs: seq<Block>, k: nat)
    requires Indexed(m, idx, bs) && k < |bs| && bs[k].hole
    ensures bs[k].start in idx
  {
    assert bs[k] in bs && bs[k].start in Holes(bs);
  }

  lemma LastHoleResized(m: seq<byte>, m': seq<byte>, idx: seq<nat>, bs: seq<Block>, ext: nat)
    requires WellFormed(bs) && Indexed(m, idx, bs) && bs[|bs| - 1].hole && ext > BLOCK_META_SIZE
    requires var last := bs[|bs| - 1]; WroteBlock(m, m', Block(last.start, last.size + ext, true))
    ensures var p := bs[|bs| - 1].start;
            && p in idx
            && Indexed(m', Inserted(RemovedAt(idx, FirstIndex(idx, p)), p, BySize(m')), Grow(bs, ext))
  {
    hide Indexed, WroteBlock, Inserted, RemovedAt;
    var n := |bs| - 1;
    var last, rest := bs[n], bs[..n];
    var grown := Block(last.start, last.size + ext, true);
    TilesApart(bs);
    HoleIndexed(m, idx, bs, n);
    var idx' := RemovedAt(idx, FirstIndex(idx, last.start));
    assert Indexed(m, idx', rest) by {
      IndexedDropHole(m, idx, bs, n, FirstIndex(idx, last.start));
      assert rest == WithoutBlock(bs, n);
    }
    assert WithBlock(rest, n, grown) == Grow(bs, ext) by {
      assert rest[..n] == rest && rest[n..] == [];
    }
    WriteHole(m, m', idx', rest, n, grown);
  }

  lemma LastHoleAppended(m: seq<byte>, m': seq<byte>, idx: seq<nat>, bs: seq<Block>, ext: nat)
    requires WellFormed(bs) && Indexed(m, idx, bs) && !bs[|bs| - 1].hole && ext > BLOCK_META_SIZE
    requires WroteBlock(m, m', Block(EndOf(bs), ext - BLOCK_META_SIZE, true))
    ensures Indexed(m', Inserted(idx, EndOf(bs), BySize(m')), Grow(bs, ext))
  {
    hide Indexed, WroteBlock, Inserted, Tiles, NoAdjacentHoles;
    AllSizes(bs);
    var b := Block(EndOf(bs), ext - BLOCK_META_SIZE, true);
    TilesApart(bs);
    assert WithBlock(bs, |bs|, b) == Grow(bs, ext);
    WriteHole(m, m', idx, bs, |bs|, b);
  }

  lemma StartFirst(bs: seq<Block>)
    requires Tiles(bs)
    ensures bs != [] && forall i :: 0 <= i < |bs| ==> bs[0].start <= bs[i].start && bs[i].End() <= EndOf(bs)
  {
    TilesApart(bs);
  }

  /** Expansion: the last hole, new or resized, is written, and comes back to the index. */
  lemma GrowOk(m: seq<byte>, m': seq<byte>, idx: seq<nat>, idx': seq<nat>, bs: seq<Block>,
               start: nat, end: nat, max: nat, ext: nat)
    requires HeapOk(m, idx, bs, start, end, max) && ext > BLOCK_META_SIZE && ext % PAGE_SIZE == 0 && end + ext <= max
    requires var g := Grow(bs, ext); WroteBlock(m, m', g[|g| - 1]) && Indexed(m', idx', g)
    ensures HeapOk(m', idx', Grow(bs, ext), start, end + ext, max)
  {
    hide Indexed, Tiles, NoAdjacentHoles, Untouched, Word;
    AllSizes(bs);
    GrownLast(bs, ext);
    StartFirst(bs);
    var g := Grow(bs, ext);
    GrowKeeps(bs, ext);
    OutsideKept(m, m', start, end, g[|g| - 1]);
  }

  lemma GrowKeepsPayloads(m: seq<byte>, m': seq<byte>, bs: seq<Block>, ext: nat)
    requires WellFormed(bs) && ext > BLOCK_META_SIZE
    requires var g := Grow(bs, ext); WroteBlock(m, m', g[|g| - 1])
    ensures KeepsPayloads(m, m', bs)
  {
    var g := Grow(bs, ext);
    TilesApart(bs);
    WriteKeepsPayloads(m, m', bs, g[|g| - 1]);
  }

  /** Only addresses in `lo..hi` changed. */
  ghost predicate ChangedWithin(m: seq<byte>, m': seq<byte>, lo: nat, hi: nat) {
    |m| == |m'| && forall a :: 0 <= a < |m| && !(lo <= a < hi) ==> m'[a] == m[a]
  }

  lemma ChangedWithinHole(m: seq<byte>, m': seq<byte>, bs: seq<Block>, k: nat)
    requires WellFormed(bs) && k < |bs| && bs[k].hole && ChangedWithin(m, m', bs[k].start, bs[k].End())
    ensures KeepsPayloads(m, m', bs)
  {
    TilesApart(bs);
  }

  /** A new tiling of the same range, written inside the range. */
  lemma HeapOkAgain(m: seq<byte>, m': seq<byte>, idx: seq<nat>, idx': seq<nat>, bs: seq<Block>, bs': seq<Block>,
                    start: nat, end: nat, max: nat)
    requires HeapOk(m, idx, bs, start, end, max) && Indexed(m', idx', bs') && ChangedWithin(m, m', start, end)
    requires WellFormed(bs') && bs'[0].start == bs[0].start && EndOf(bs') == EndOf(bs)
    ensures HeapOk(m', idx', bs', start, end, max)
  {
    WordKept(m, m', start - FOOTER_SIZE);
  }

  /** Between blocks `at - 1` and `at` the range `lo..hi` is free. */
  ghost predicate Slot(bs: seq<Block>, at: nat, lo: nat, hi: nat) {
    && at <= |bs|
    && (forall i :: 0 <= i < at ==> bs[i].End() <= lo)
    && (forall i :: at <= i < |bs| ==> hi <= bs[i].start)
  }

  lemma SlotTaken(bs: seq<Block>, at: nat, lo: nat, hi: nat, b: Block)
    requires Slot(bs, at, lo, hi) && lo <= b.start && b.End() <= hi
    ensures FitsBetween(bs, at, b) && Slot(WithBlock(bs, at, b), at + 1, b.End(), hi)
  {
  }

  lemma ChangedTwice(m0: seq<byte>, m1: seq<byte>, m2: seq<byte>, lo: nat, hi: nat, lo': nat, hi': nat)
    requires ChangedWithin(m0, m1, lo, hi) && ChangedWithin(m1, m2, lo', hi')
    ensures ChangedWithin(m0, m2, if lo < lo' then lo else lo', if hi < hi' then hi' else hi)
  {
  }

  lemma SameLength(m: seq<byte>, m': seq<byte>, lo: nat, hi: nat)
    requires ChangedWithin(m, m', lo, hi)
    ensures |m'| == |m|
  {
  }

  lemma NothingChanged(m: seq<byte>, lo: nat, hi: nat)
    ensures ChangedWithin(m, m, lo, hi)
  {
  }

  lemma BlockChanged(m: seq<byte>, m': seq<byte>, b: Block)
    requires WroteBlock(m, m', b)
    ensures |m'| == |m| && BlockAt(m', b) && ChangedWithin(m, m', b.start, b.End())
  {
  }

  lemma ChangedLess(m0: seq<byte>, m1: seq<byte>, lo: nat, hi: nat, hi': nat)
    requires ChangedWithin(m0, m1, lo, hi) && hi <= hi'
    ensures ChangedWithin(m0, m1, lo, hi')
  {
  }

  /** Blocks before and after block `k` lie wholly on their side of it. */
  lemma HoleNeighbours(bs: seq<Block>, k: nat)
    requires WellFormed(bs) && k < |bs|
    ensures bs[0].start <= bs[k].start && bs[k].End() <= EndOf(bs)
    ensures Slot(WithoutBlock(bs, k), k, bs[k].start, bs[k].End())
  {
    TilesApart(bs);
  }

  /** The blocks without hole `k`, and with the front hole that a page-aligned payload at `p` leaves. */
  ghost function FrontCut(bs: seq<Block>, k: nat, p: nat, pageAlign: bool): seq<Block>
    requires k < |bs| && (pageAlign ==> p - bs[k].Payload() > BLOCK_META_SIZE)
  {
    var rest := WithoutBlock(bs, k);
    if pageAlign then WithBlock(rest, k, Block(bs[k].start, p - bs[k].Payload() - BLOCK_META_SIZE, true)) else rest
  }

  /** The blocks with an allocation of `size` bytes at `header` added, and a tail hole if the rest makes one. */
  ghost function TailCut(bs: seq<Block>, at: nat, header: nat, blockSize: nat, size: nat): seq<Block>
    requires at <= |bs| && size <= blockSize
  {
    var remain := blockSize - size;
    if remain <= BLOCK_META_SIZE then WithBlock(bs, at, Block(header, blockSize, false))
    else WithBlock(WithBlock(bs, at, Block(header, size, false)), at + 1,
                   Block(header + BLOCK_META_SIZE + size, remain - BLOCK_META_SIZE, true))
  }

  /** The front hole that a page-aligned payload at `p` leaves, if one is asked for. */
  ghost function Front(b: Block, p: nat, pageAlign: bool): seq<Block>
    requires pageAlign ==> p - b.Payload() > BLOCK_META_SIZE
  {
    if pageAlign then [Block(b.start, p - b.Payload() - BLOCK_META_SIZE, true)] else []
  }

  /** The allocation and the tail hole, or the allocation with the rest absorbed. */
  ghost function Tail(header: nat, blockSize: nat, size: nat): seq<Block>
    requires size <= blockSize
  {
    if blockSize - size <= BLOCK_META_SIZE then [Block(header, blockSize, false)]
    else [Block(header, size, false),
          Block(header + BLOCK_META_SIZE + size, blockSize - size - BLOCK_META_SIZE, true)]
  }

  lemma FrontCutIs(bs: seq<Block>, k: nat, p: nat, pageAlign: bool)
    requires k < |bs| && (pageAlign ==> p - bs[k].Payload() > BLOCK_META_SIZE)
    ensures FrontCut(bs, k, p, pageAlign) == bs[..k] + Front(bs[k], p, pageAlign) + bs[k + 1..]
  {
    if pageAlign {
      WithBlockBetween(bs[..k], bs[k + 1..], Front(bs[k], p, true)[0]);
    }
  }

  lemma TailCutIs(a: seq<Block>, z: seq<Block>, header: nat, blockSize: nat, size: nat)
    requires size <= blockSize
    ensures TailCut(a + z, |a|, header, blockSize, size) == a + Tail(header, blockSize, size) + z
  {
    hide WithBlock;
    var c := Tail(header, blockSize, size);
    WithBlockBetween(a, z, c[0]);
    if blockSize - size > BLOCK_META_SIZE {
      WithBlockBetween(a + [c[0]], z, c[1]);
      assert a + [c[0]] + [c[1]] == a + c;
    }
  }

  lemma CarveIs(b: Block, p: nat, size: nat, pageAlign: bool)
    requires size > 0 && Acceptable(b, size, pageAlign, p)
    ensures Carve(b, p, size) == Front(b, p, pageAlign) + Tail(p - HEADER_SIZE, b.PayloadEnd() - p, size)
    ensures |Front(b, p, pageAlign)| == if pageAlign then 1 else 0
  {
  }

  /** Cutting the front and then the tail makes the split. */
  lemma PiecesMakeSplit(bs: seq<Block>, k: nat, p: nat, size: nat, pageAlign: bool)
    requires k < |bs| && size > 0 && Acceptable(bs[k], size, pageAlign, p)
    ensures TailCut(FrontCut(bs, k, p, pageAlign), if pageAlign then k + 1 else k, p - HEADER_SIZE,
                    bs[k].PayloadEnd() - p, size)
            == SplitHole(bs, k, p, size)
  {
    var front, tail := Front(bs[k], p, pageAlign), Tail(p - HEADER_SIZE, bs[k].PayloadEnd() - p, size);
    hide Carve, FrontCut, TailCut, Front, Tail;
    CarveIs(bs[k], p, size, pageAlign);
    FrontCutIs(bs, k, p, pageAlign);
    TailCutIs(bs[..k] + front, bs[k + 1..], p - HEADER_SIZE, bs[k].PayloadEnd() - p, size);
    Regroup(bs[..k], front, tail, bs[k + 1..]);
  }

  lemma Regroup(a: seq<Block>, b: seq<Block>, c: seq<Block>, d: seq<Block>)
    ensures a + b + c + d == a + (b + c) + d
  {
  }

  lemma GrowsInto(bs: seq<Block>, size: nat, pageAlign: bool, budget: nat)
    requires bs != [] && !AnyFits(bs, size, pageAlign)
    requires AnyFits(GrowTimes(bs, Extension(size), budget), size, pageAlign)
    ensures budget > 0 && AnyFits(GrowTimes(Grow(bs, Extension(size)), Extension(size), budget - 1), size, pageAlign)
  {
  }

  lemma PayloadsKeptTwice(m0: seq<byte>, m1: seq<byte>, m2: seq<byte>, bs: seq<Block>, ext: nat)
    requires bs != [] && ext >= BLOCK_META_SIZE
    requires KeepsPayloads(m0, m1, bs) && KeepsPayloads(m1, m2, Grow(bs, ext))
    ensures KeepsPayloads(m0, m2, bs)
  {
    var g := Grow(bs, ext);
    forall i | 0 <= i < |bs| && !bs[i].hole ensures g[i] == bs[i] {
    }
  }

  /** Two neighbouring holes as one. */
  ghost function Joined(a: Block, b: Block): Block
    requires a.End() == b.start
  {
    Block(a.start, a.size + b.size + BLOCK_META_SIZE, true)
  }

  /** The join of `b` with the neighbour `j` fits where the neighbour was. */
  lemma JoinedFits(m: seq<byte>, idx: seq<nat>, bs: seq<Block>, k: nat, b: Block, j: nat)
    requires Indexed(m, idx, bs) && FitsBetween(bs, k, b) && j < |bs| && (j == k || j + 1 == k)
    requires if j == k then b.End() == bs[j].start else bs[j].End() == b.start
    ensures FitsBetween(WithoutBlock(bs, j), j, if j == k then Joined(b, bs[j]) else Joined(bs[j], b))
  {
  }

  /** The header, the footer and the neighbours of block `k`. */
  lemma BlockSurroundings(m: seq<byte>, idx: seq<nat>, bs: seq<Block>, start: nat, end: nat, max: nat, k: nat)
    requires HeapOk(m, idx, bs, start, end, max) && k < |bs|
    ensures BlockAt(m, bs[k]) && bs[k].size > 0 && start <= bs[k].start && bs[k].End() <= end
    ensures FitsBetween(WithoutBlock(bs, k), k, bs[k].(hole := true))
    ensures var rest := WithoutBlock(bs, k);
            && (if k < |rest| then rest[k].start == bs[k].End() else bs[k].End() == end)
            && (if k > 0 then rest[k - 1].End() == bs[k].start else bs[k].start == start)
  {
    TilesApart(bs);
  }

  lemma EndWords(m: seq<byte>, idx: seq<nat>, bs: seq<Block>, start: nat, end: nat, max: nat)
    requires HeapOk(m, idx, bs, start, end, max)
    ensures Word(m, end) != KHEAP_MAGIC && Word(m, start - FOOTER_SIZE) != KHEAP_MAGIC
  {
    assert m[end] == 0 && m[end + 1] == 0;
  }

  /** Right of `b` is the block at place `k`, or at the heap's end no header. */
  ghost predicate BeforeNext(m: seq<byte>, bs: seq<Block>, k: nat, b: Block)
    requires b.End() + 4 <= |m|
  {
    if k < |bs| then bs[k].start == b.End() else Word(m, b.End()) != KHEAP_MAGIC
  }

  /** Left of `b` is the block before place `k`, or below the heap no footer. */
  ghost predicate AfterPrevious(m: seq<byte>, bs: seq<Block>, k: nat, b: Block)
    requires FOOTER_SIZE <= b.start <= |m| && k <= |bs|
  {
    if k > 0 then bs[k - 1].End() == b.start else Word(m, b.start - FOOTER_SIZE) != KHEAP_MAGIC
  }

  /** What is left of a hole stays as it is while the hole takes in its right neighbour. */
  lemma AfterPreviousStays(m: seq<byte>, m': seq<byte>, bs: seq<Block>, bs': seq<Block>, k: nat, b: Block, b': Block)
    requires FOOTER_SIZE <= b.start == b'.start <= |m| && k <= |bs| && k <= |bs'| && bs'[..k] == bs[..k]
    requires AfterPrevious(m, bs, k, b) && ChangedWithin(m, m', b'.start, b'.End())
    ensures AfterPrevious(m', bs', k, b')
  {
    hide Word;
    if k > 0 {
      assert bs'[k - 1] == bs'[..k][k - 1] == bs[..k][k - 1] == bs[k - 1];
    } else {
      WordKept(m, m', b.start - FOOTER_SIZE);
    }
  }

  lemma HoleBorders(m: seq<byte>, m': seq<byte>, idx: seq<nat>, bs: seq<Block>, start: nat, end: nat, max: nat, k: nat)
    requires HeapOk(m, idx, bs, start, end, max) && k < |bs| && start <= bs[k].start && bs[k].End() <= end && |m'| == |m|
    requires Word(m', start - FOOTER_SIZE) == Word(m, start - FOOTER_SIZE) && Word(m', end) == Word(m, end)
    ensures BeforeNext(m', WithoutBlock(bs, k), k, bs[k].(hole := true))
    ensures AfterPrevious(m', WithoutBlock(bs, k), k, bs[k].(hole := true))
  {
    hide Indexed, Word, HeapOk;
    BlockSurroundings(m, idx, bs, start, end, max, k);
    EndWords(m, idx, bs, start, end, max);
  }

  /** The hole that releasing block `k` makes. */
  ghost function Merged(bs: seq<Block>, k: nat): (b: Block)
    requires Tiles(bs) && k < |bs|
    ensures b.hole && b.size > 0
  {
    TilesApart(bs);
    var lo, hi := bs[MergeFrom(bs, k)], bs[MergeTo(bs, k)];
    Block(lo.start, hi.End() - lo.start - BLOCK_META_SIZE, true)
  }

  /** The blocks that stay as they are when block `k` is released. */
  ghost function Unmerged(bs: seq<Block>, k: nat): seq<Block>
    requires k < |bs|
  {
    bs[..MergeFrom(bs, k)] + bs[MergeTo(bs, k) + 1..]
  }

  lemma WithBlockBetween(a: seq<Block>, z: seq<Block>, b: Block)
    ensures WithBlock(a + z, |a|, b) == a + [b] + z
  {
    assert (a + z)[..|a|] == a && (a + z)[|a|..] == z;
  }

  lemma ReleasePieces(bs: seq<Block>, k: nat)
    requires Tiles(bs) && k < |bs|
    ensures MergeFrom(bs, k) <= |Unmerged(bs, k)|
    ensures Release(bs, k) == WithBlock(Unmerged(bs, k), MergeFrom(bs, k), Merged(bs, k))
    ensures MergeFrom(bs, k) < |Release(bs, k)| && Release(bs, k)[MergeFrom(bs, k)] == Merged(bs, k)
  {
    WithBlockBetween(bs[..MergeFrom(bs, k)], bs[MergeTo(bs, k) + 1..], Merged(bs, k));
  }

  lemma ReleaseOk(m: seq<byte>, m': seq<byte>, idx: seq<nat>, idx': seq<nat>, bs: seq<Block>,
                  start: nat, end: nat, max: nat, k: nat)
    requires HeapOk(m, idx, bs, start, end, max) && k < |bs| && !bs[k].hole
    requires Indexed(m', idx', Release(bs, k)) && ChangedWithin(m, m', Merged(bs, k).start, Merged(bs, k).End())
    ensures HeapOk(m', idx', Release(bs, k), start, end, max) && KeepsPayloads(m, m', Release(bs, k))
  {
    hide Indexed;
    ReleasePieces(bs, k);
    ReleaseKeeps(bs, k);
    TilesApart(Release(bs, k));
    HeapOkAgain(m, m', idx, idx', bs, Release(bs, k), start, end, max);
    ChangedWithinHole(m, m', Release(bs, k), MergeFrom(bs, k));
  }

  /** Taking out block `k` and its right neighbour if that is a hole. */
  lemma UnmergedRight(bs: seq<Block>, k: nat)
    requires Tiles(bs) && k < |bs|
    ensures var l0 := WithoutBlock(bs, k);
            var hi := MergeTo(bs, k);
            && (k < |l0| && l0[k].hole <==> hi == k + 1) && (k < |l0| ==> l0[k] == bs[k + 1] && bs[k].End() == l0[k].start)
            && (if k < |l0| && l0[k].hole then WithoutBlock(l0, k) else l0) == bs[..k] + bs[hi + 1..]
            && Block(bs[k].start, bs[hi].End() - bs[k].start - BLOCK_META_SIZE, true)
               == if hi == k + 1 then Joined(bs[k].(hole := true), l0[k]) else bs[k].(hole := true)
  {
    hide Tiles;
    var l0 := WithoutBlock(bs, k);
    if k + 1 < |bs| {
      TilesAt(bs, k + 1);
      assert l0[k] == bs[k + 1] && l0[..k] == bs[..k] && l0[k + 1..] == bs[k + 2..];
    }
  }

  lemma UnmergedLeft(bs: seq<Block>, k: nat, l1: seq<Block>)
    requires Tiles(bs) && k < |bs| && l1 == bs[..k] + bs[MergeTo(bs, k) + 1..]
    ensures k > 0 ==> l1[k - 1] == bs[k - 1] && bs[k - 1].End() == bs[k].start
    ensures Unmerged(bs, k) == if k > 0 && l1[k - 1].hole then WithoutBlock(l1, k - 1) else l1
  {
    hide Tiles, WithoutBlock;
    if k > 0 {
      TilesAt(bs, k);
      WithoutLast(bs[..k], bs[MergeTo(bs, k) + 1..]);
    }
  }

  lemma MergedLeft(bs: seq<Block>, k: nat, b1: Block)
    requires Tiles(bs) && k < |bs|
    requires b1 == Block(bs[k].start, bs[MergeTo(bs, k)].End() - bs[k].start - BLOCK_META_SIZE, true)
    requires k > 0 ==> bs[k - 1].End() == bs[k].start
    ensures Merged(bs, k) == if k > 0 && bs[k - 1].hole then Joined(bs[k - 1], b1) else b1
  {
    hide Tiles, MergeTo;
  }

  lemma WithoutLast(a: seq<Block>, z: seq<Block>)
    requires a != []
    ensures WithoutBlock(a + z, |a| - 1) == a[..|a| - 1] + z && (a + z)[|a| - 1] == a[|a| - 1]
  {
    assert (a + z)[..|a| - 1] == a[..|a| - 1] && (a + z)[|a|..] == z;
  }

  /** Turning the flag of allocated block `k` disturbs no other block, and neither end of the heap. */
  lemma FlagSparesOthers(m: seq<byte>, m': seq<byte>, idx: seq<nat>, bs: seq<Block>, k: nat, start: nat, end: nat)
    requires Tiles(bs) && Indexed(m, idx, bs) && k < |bs| && !bs[k].hole
    requires FOOTER_SIZE <= start <= bs[k].start && bs[k].End() <= end && end + HEADER_SIZE <= |m|
    requires m' == m[bs[k].start + HOLE_OFFSET := IS_HOLE]
    ensures Indexed(m', idx, WithoutBlock(bs, k))
    ensures BlockAt(m', Block(bs[k].start, bs[k].size, true))
    ensures Word(m', start - FOOTER_SIZE) == Word(m, start - FOOTER_SIZE) && Word(m', end) == Word(m, end)
    ensures ChangedWithin(m, m', bs[k].start, bs[k].End())
  {
    hide Indexed, Word;
    var b, rest := bs[k], WithoutBlock(bs, k);
    IndexedDropLive(m, idx, bs, k);
    TilesApart(bs);
    forall i, a | 0 <= i < |rest| && 0 <= a < |m| && InMeta(rest[i], a) ensures m'[a] == m[a] {
      assert rest[i] == if i < k then bs[i] else bs[i + 1];
    }
    IndexedWrite(m, m', idx, rest);
    IndexedBlock(m, idx, bs, k);
    WordKept(m, m', b.start);
    WordKept(m, m', b.start + SIZE_OFFSET);
    WordKept(m, m', b.PayloadEnd());
    WordKept(m, m', b.PayloadEnd() + LINK_OFFSET);
    WordKept(m, m', start - FOOTER_SIZE);
    WordKept(m, m', end);
  }

  /** A store into the payload of allocated block `k` changes no header, no footer and nothing outside the blocks. */
  lemma StoreSparesHeap(m: seq<byte>, m': seq<byte>, idx: seq<nat>, bs: seq<Block>, k: nat, a: nat)
    requires Indexed(m, idx, bs) && k < |bs| && bs[k].Payload() <= a < bs[k].PayloadEnd() <= |m|
    requires |m'| == |m| && forall b :: 0 <= b < |m| && b != a ==> m'[b] == m[b]
    ensures Indexed(m', idx, bs)
  {
    forall i, b | 0 <= i < |bs| && 0 <= b < |m| && InMeta(bs[i], b) ensures m'[b] == m[b] {
      assert i != k ==> bs[i].End() <= bs[k].start || bs[k].End() <= bs[i].start;
    }
    IndexedWrite(m, m', idx, bs);
  }

  /** Block `i` adds one to the holes or to the allocated blocks before it. */
  lemma CountOne(bs: seq<Block>, i: nat)
    requires WellFormed(bs) && i < |bs|
    ensures |Holes(bs[..i + 1])| == |Holes(bs[..i])| + (if bs[i].hole then 1 else 0)
    ensures |Live(bs[..i + 1])| == |Live(bs[..i])| + (if bs[i].hole then 0 else 1)
  {
    TilesApart(bs);
    assert bs[..i + 1] == bs[..i] + [bs[i]];
    CountLast(bs[..i], bs[i]);
  }

  lemma CountLast(p: seq<Block>, b: Block)
    requires forall x :: x in p ==> x.start != b.start
    ensures |Holes(p + [b])| == |Holes(p)| + (if b.hole then 1 else 0)
    ensures |Live(p + [b])| == |Live(p)| + (if b.hole then 0 else 1)
  {
    assert forall x :: x in p + [b] <==> x in p || x == b;
    if b.hole {
      assert Holes(p + [b]) == Holes(p) + {b.start};
      assert Live(p + [b]) == Live(p);
    } else {
      assert Live(p + [b]) == Live(p) + {b};
      assert Holes(p + [b]) == Holes(p);
    }
  }

  /** A heap of one hole, over memory that was all zero from the word below it on. */
  lemma SingleHole(m: seq<byte>, m': seq<byte>, b: Block, max: nat)
    requires FOOTER_SIZE <= b.start && b.hole && b.size > 0 && b.End() % PAGE_SIZE == 0
    requires b.End() <= max && max + HEADER_SIZE <= |m| <= U32_LIMIT
    requires WroteBlock(m, m', b) && exists from: nat :: from + FOOTER_SIZE <= b.start && Untouched(m, from)
    ensures HeapOk(m', [b.start], [b], b.start, b.End(), max)
  {
    assert forall p :: p in Holes([b]) <==> p == b.start by {
      assert b in [b];
    }
    WordKept(m, m', b.start - FOOTER_SIZE);
  }

  /** Where the walk over the headers goes from block `i`. */
  lemma NextHeader(bs: seq<Block>, i: nat)
    requires WellFormed(bs) && i < |bs|
    ensures bs[0].start <= bs[i].start < bs[i].End() <= EndOf(bs)
    ensures bs[i].End() == if i + 1 < |bs| then bs[i + 1].start else EndOf(bs)
  {
    TilesApart(bs);
  }

  /** None of the holes in the first `n` index entries fits. */
  ghost predicate NoneFits(idx: seq<nat>, bs: seq<Block>, n: nat, request: nat, pageAlign: bool)
    requires n <= |idx|
  {
    forall h: nat :: Fits(bs, h, request, pageAlign) ==> bs[h].start !in idx[..n]
  }

  lemma NextNoneFits(m: seq<byte>, idx: seq<nat>, bs: seq<Block>, n: nat, k: nat, request: nat, pageAlign: bool)
    requires Indexed(m, idx, bs) && n < |idx| && k < |bs| && bs[k].start == idx[n]
    requires NoneFits(idx, bs, n, request, pageAlign) && !Fits(bs, k, request, pageAlign)
    ensures NoneFits(idx, bs, n + 1, request, pageAlign)
  {
    forall h: nat | Fits(bs, h, request, pageAlign) ensures bs[h].start !in idx[..n + 1] {
      assert h != k ==> bs[h].start != bs[k].start;
    }
  }

  lemma AllEntriesMeansNone(m: seq<byte>, idx: seq<nat>, bs: seq<Block>, request: nat, pageAlign: bool)
    requires Indexed(m, idx, bs) && NoneFits(idx, bs, |idx|, request, pageAlign)
    ensures !AnyFits(bs, request, pageAlign)
  {
    forall h: nat ensures !Fits(bs, h, request, pageAlign) {
      if h < |bs| && bs[h].hole {
        assert bs[h] in bs && bs[h].start in Holes(bs);
        assert bs[h].start in idx[..|idx|];
      }
    }
  }

  /** In an index sorted by size, the first entry that fits is a smallest hole that fits. */
  lemma FirstFitIsBest(m: seq<byte>, idx: seq<nat>, bs: seq<Block>, request: nat, pageAlign: bool, i: nat, k: nat)
    requires Indexed(m, idx, bs) && i < |idx| && k < |bs| && bs[k].start == idx[i] && Fits(bs, k, request, pageAlign)
    requires NoneFits(idx, bs, i, request, pageAlign)
    ensures BestFit(bs, k, request, pageAlign)
  {
    assert forall j :: 0 <= j < i ==> idx[j] in idx[..i];
    forall h: nat | Fits(bs, h, request, pageAlign) ensures bs[k].size <= bs[h].size {
      assert bs[h] in bs && bs[h].start in Holes(bs);
      var j :| 0 <= j < |idx| && idx[j] == bs[h].start;
      assert j > i ==> BySize(m)(idx[i], idx[j]) <= 0;
    }
  }
}

/** What the kernel heap does to its blocks, and what that keeps (src/mem/kheap.c). */
module KheapSpec {
  import opened Machine

  const HEADER_SIZE := 9
  const FOOTER_SIZE := 8
  const BLOCK_META_SIZE := HEADER_SIZE + FOOTER_SIZE

  /** A block: header at `start`, then `size` payload bytes, then the footer. */
  datatype Block = Block(start: nat, size: nat, hole: bool) {
    function Payload(): nat {
      start + HEADER_SIZE
    }

    function PayloadEnd(): nat {
      Payload() + size
    }

    function End(): nat {
      start + size + BLOCK_META_SIZE
    }
  }

  /** The address one past the last block: the heap's `end_address`. */
  function EndOf(bs: seq<Block>): nat
    requires bs != []
  {
    bs[|bs| - 1].End()
  }

  /** The blocks follow one another without gap or overlap, and none is empty. */
  ghost predicate Tiles(bs: seq<Block>) {
    && bs != []
    && (forall i :: 0 <= i < |bs| ==> bs[i].size > 0)
    && (forall i :: 0 < i < |bs| ==> bs[i - 1].End() == bs[i].start)
  }

  ghost predicate NoAdjacentHoles(bs: seq<Block>) {
    forall i :: 0 < i < |bs| ==> !(bs[i - 1].hole && bs[i].hole)
  }

  /** The heap invariant, as far as the blocks go. */
  ghost predicate WellFormed(bs: seq<Block>) {
    Tiles(bs) && NoAdjacentHoles(bs) && EndOf(bs) % PAGE_SIZE == 0
  }

  /** The blocks are ordered by address and do not overlap; gaps are allowed. */
  ghost predicate Apart(bs: seq<Block>) {
    forall i, j :: 0 <= i < j < |bs| ==> bs[i].End() <= bs[j].start
  }

  lemma {:induction false} TilesApart(bs: seq<Block>)
    requires Tiles(bs)
    ensures Apart(bs)
    ensures forall i :: 0 <= i < |bs| ==> bs[0].start <= bs[i].start && bs[i].End() <= EndOf(bs)
  {
    if |bs| > 1 {
      var front := bs[..|bs| - 1];
      TilesApart(front);
      forall i | 0 <= i < |front| ensures bs[i].End() <= bs[|bs| - 1].start {
        assert front[i].End() <= EndOf(front);
      }
    }
  }

  // ---- What is in the heap ----

  /** The header addresses of the holes. */
  ghost function Holes(bs: seq<Block>): set<nat> {
    set b | b in bs && b.hole :: b.start
  }

  /** The allocated blocks. */
  ghost function Live(bs: seq<Block>): set<Block> {
    set b | b in bs && !b.hole
  }

  // ---- Choosing a position in a hole ----

  /** Where `find_hole` would put `size` bytes in block `b`, if it accepts the block. */
  function FitPos(b: Block, size: nat, pageAlign: bool): (r: Option<nat>)
    ensures r.Some? ==> Acceptable(b, size, pageAlign, r.value)
  {
    if pageAlign then
      var a := AlignToPage(b.Payload());
      var p := if a - b.Payload() > BLOCK_META_SIZE then a else a + PAGE_SIZE;
      if p + size <= b.PayloadEnd() then Some(p) else None
    else
      if b.size >= size then Some(b.Payload()) else None
  }

  /** A position `find_hole` may return: inside the payload, and page-aligned with room for a front hole if asked. */
  ghost predicate Acceptable(b: Block, size: nat, pageAlign: bool, p: nat) {
    && b.Payload() <= p
    && p + size <= b.PayloadEnd()
    && (if pageAlign then p % PAGE_SIZE == 0 && p - b.Payload() > BLOCK_META_SIZE else p == b.Payload())
  }

  /** `FitPos` is the lowest acceptable position, and refuses exactly when there is none. */
  lemma FitPosIsLeast(b: Block, size: nat, pageAlign: bool, p: nat)
    ensures FitPos(b, size, pageAlign) == Some(p) <==>
              Acceptable(b, size, pageAlign, p) && forall q: nat :: q < p ==> !Acceptable(b, size, pageAlign, q)
    ensures FitPos(b, size, pageAlign).None? ==> !Acceptable(b, size, pageAlign, p)
  {
    var a := AlignToPage(b.Payload());
    var least := if !pageAlign then b.Payload()
                 else if a - b.Payload() > BLOCK_META_SIZE then a else a + PAGE_SIZE;
    forall q: nat | Acceptable(b, size, pageAlign, q) ensures least <= q {
    }
    if least + size <= b.PayloadEnd() {
      assert Acceptable(b, size, pageAlign, least);
    }
  }

  ghost predicate Fits(bs: seq<Block>, k: nat, size: nat, pageAlign: bool) {
    k < |bs| && bs[k].hole && FitPos(bs[k], size, pageAlign).Some?
  }

  ghost predicate AnyFits(bs: seq<Block>, size: nat, pageAlign: bool) {
    exists k: nat :: Fits(bs, k, size, pageAlign)
  }

  /** A hole that fits, and no smaller hole does. */
  ghost predicate BestFit(bs: seq<Block>, k: nat, size: nat, pageAlign: bool) {
    && Fits(bs, k, size, pageAlign)
    && forall j: nat :: Fits(bs, j, size, pageAlign) ==> bs[k].size <= bs[j].size
  }

  // ---- The three ways the tiling changes ----

  /** The hole `b` cut for a payload at `p`: a front hole if `p` leaves one, the allocation, and a tail hole or its absorption. */
  function Carve(b: Block, p: nat, size: nat): seq<Block>
    requires b.Payload() <= p && p + size <= b.PayloadEnd()
    requires p == b.Payload() || p - b.Payload() > BLOCK_META_SIZE
  {
    var header := p - HEADER_SIZE;
    var front := if header > b.start then [Block(b.start, header - b.start - BLOCK_META_SIZE, true)] else [];
    var blockSize := b.size - (header - b.start);
    var remain := blockSize - size;
    if remain <= BLOCK_META_SIZE then
      front + [Block(header, blockSize, false)]
    else
      front + [Block(header, size, false), Block(header + BLOCK_META_SIZE + size, remain - BLOCK_META_SIZE, true)]
  }

  function SplitHole(bs: seq<Block>, k: nat, p: nat, size: nat): seq<Block>
    requires k < |bs|
    requires bs[k].Payload() <= p && p + size <= bs[k].PayloadEnd()
    requires p == bs[k].Payload() || p - bs[k].Payload() > BLOCK_META_SIZE
  {
    bs[..k] + Carve(bs[k], p, size) + bs[k + 1..]
  }

  /** By how much one expansion for `size` bytes moves the heap's end. */
  function Extension(size: nat): nat {
    AlignToPage(size + BLOCK_META_SIZE)
  }

  /** Expansion: a last hole is lengthened, otherwise a new last hole is appended. */
  function Grow(bs: seq<Block>, ext: nat): (r: seq<Block>)
    requires bs != [] && ext >= BLOCK_META_SIZE
    ensures r != []
  {
    var last := bs[|bs| - 1];
    if last.hole then bs[..|bs| - 1] + [Block(last.start, last.size + ext, true)]
    else bs + [Block(last.End(), ext - BLOCK_META_SIZE, true)]
  }

  /** The first and last block of the run that merges when block `k` is released. */
  function MergeFrom(bs: seq<Block>, k: nat): nat
    requires k < |bs|
  {
    if k > 0 && bs[k - 1].hole then k - 1 else k
  }

  function MergeTo(bs: seq<Block>, k: nat): nat
    requires k < |bs|
  {
    if k + 1 < |bs| && bs[k + 1].hole then k + 1 else k
  }

  /** Block `k` becomes a hole and merges with the holes beside it. */
  function Release(bs: seq<Block>, k: nat): seq<Block>
    requires k < |bs| && Tiles(bs)
  {
    var lo, hi := MergeFrom(bs, k), MergeTo(bs, k);
    assert lo < k ==> bs[k - 1].End() == bs[k].start;
    assert k < hi ==> bs[k].End() == bs[k + 1].start;
    bs[..lo] + [Block(bs[lo].start, bs[hi].End() - bs[lo].start - BLOCK_META_SIZE, true)] + bs[hi + 1..]
  }

  // ---- The operations ----

  /** A best-fitting hole is split for a payload at `ptr`. */
  ghost predicate Placed(bs: seq<Block>, size: nat, pageAlign: bool, bs': seq<Block>, ptr: nat) {
    exists k: nat :: BestFit(bs, k, size, pageAlign) && FitPos(bs[k], size, pageAlign) == Some(ptr)
                && bs' == SplitHole(bs, k, ptr, size)
  }

  /** `alloc`: expands while no hole fits, `n` times in all, then places the payload at `ptr`. */
  ghost predicate AllocStep(bs: seq<Block>, size: nat, pageAlign: bool, bs': seq<Block>, ptr: nat, n: nat)
    requires bs != []
    decreases n
  {
    if AnyFits(bs, size, pageAlign) then n == 0 && Placed(bs, size, pageAlign, bs', ptr)
    else n > 0 && AllocStep(Grow(bs, Extension(size)), size, pageAlign, bs', ptr, n - 1)
  }

  /** The heap after `n` expansions. */
  ghost function GrowTimes(bs: seq<Block>, ext: nat, n: nat): (r: seq<Block>)
    requires bs != [] && ext >= BLOCK_META_SIZE
    ensures r != []
    decreases n
  {
    if n == 0 then bs else GrowTimes(Grow(bs, ext), ext, n - 1)
  }

  /** `ptr` was returned by `alloc` and not freed since; `k` is its block. */
  ghost predicate IsLiveAt(bs: seq<Block>, k: nat, ptr: nat) {
    k < |bs| && !bs[k].hole && bs[k].Payload() == ptr
  }

  ghost predicate FreeStep(bs: seq<Block>, ptr: nat, bs': seq<Block>) {
    Tiles(bs) && exists k: nat :: IsLiveAt(bs, k, ptr) && bs' == Release(bs, k)
  }
}

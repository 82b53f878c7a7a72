/** Block headers, footers and the hole index as they lie in memory (src/mem/kheap.c, src/mem/kheap.h). */
module KheapMemory {
  import opened Machine
  import opened OrderedArrays
  import opened KheapSpec

  const KHEAP_MAGIC := 0x123060AB
  const IS_HOLE: byte := 1
  const NOT_HOLE: byte := 0

  // Offsets in the packed header (magic, is_hole, size) and footer (magic, header).
  const HOLE_OFFSET := 4
  const SIZE_OFFSET := 5
  const LINK_OFFSET := 4

  /** Header and footer of `b` are in place, each naming the other end. */
  ghost predicate BlockAt(m: seq<byte>, b: Block) {
    && b.End() <= |m|
    && Word(m, b.start) == KHEAP_MAGIC
    && m[b.start + HOLE_OFFSET] == (if b.hole then IS_HOLE else NOT_HOLE)
    && Word(m, b.start + SIZE_OFFSET) == b.size
    && Word(m, b.PayloadEnd()) == KHEAP_MAGIC
    && Word(m, b.PayloadEnd() + LINK_OFFSET) == b.start
  }

  /** The address lies in the header or footer of `b`. */
  predicate InMeta(b: Block, a: int) {
    b.start <= a < b.Payload() || b.PayloadEnd() <= a < b.End()
  }

  /** `m'` is `m` with the header and footer of `b` written, and nothing else changed. */
  ghost predicate WroteBlock(m: seq<byte>, m': seq<byte>, b: Block) {
    && |m'| == |m|
    && BlockAt(m', b)
    && forall a :: 0 <= a < |m| && !InMeta(b, a) ==> m'[a] == m[a]
  }

  lemma BlockAtFrame(m: seq<byte>, m': seq<byte>, b: Block)
    requires BlockAt(m, b) && |m'| == |m|
    requires forall a :: 0 <= a < |m| && InMeta(b, a) ==> m'[a] == m[a]
    ensures BlockAt(m', b)
  {
  }

  // ---- The index ----

  /** The size field of the header at `p`. */
  function HeaderSize(m: seq<byte>, p: nat): nat {
    if p + HEADER_SIZE <= |m| then Word(m, p + SIZE_OFFSET) else 0
  }

  /** `kheap_block_comparator`. */
  function BySize(m: seq<byte>): Comparator {
    (x: nat, y: nat) => if HeaderSize(m, x) < HeaderSize(m, y) then -1 else if HeaderSize(m, x) == HeaderSize(m, y) then 0 else 1
  }

  lemma BySizeOrders(m: seq<byte>)
    ensures Orders(BySize(m))
  {
  }

  /** Memory `m` holds the blocks `bs`, and `idx` is the sorted index of their holes. */
  ghost predicate Indexed(m: seq<byte>, idx: seq<nat>, bs: seq<Block>) {
    && Apart(bs)
    && (forall i :: 0 <= i < |bs| ==> BlockAt(m, bs[i]) && bs[i].size > 0)
    && Distinct(idx)
    && (forall p :: p in idx <==> p in Holes(bs))
    && Sorted(idx, BySize(m))
  }

  lemma IndexedBlock(m: seq<byte>, idx: seq<nat>, bs: seq<Block>, k: nat)
    requires Indexed(m, idx, bs) && k < |bs|
    ensures BlockAt(m, bs[k]) && bs[k].size > 0
  {
  }

  /** An index entry is the header of a hole, and its comparator key is that hole's size. */
  lemma IndexEntry(m: seq<byte>, idx: seq<nat>, bs: seq<Block>, i: nat) returns (k: nat)
    requires Indexed(m, idx, bs) && i < |idx|
    ensures k < |bs| && bs[k].hole && bs[k].start == idx[i] && HeaderSize(m, idx[i]) == bs[k].size
  {
    assert idx[i] in Holes(bs);
    k :| 0 <= k < |bs| && bs[k].hole && bs[k].start == idx[i];
  }

  /** Writes that spare every header and footer leave everything indexed. */
  lemma IndexedWrite(m: seq<byte>, m': seq<byte>, idx: seq<nat>, bs: seq<Block>)
    requires Indexed(m, idx, bs) && |m'| == |m|
    requires forall i, a :: 0 <= i < |bs| && 0 <= a < |m| && InMeta(bs[i], a) ==> m'[a] == m[a]
    ensures Indexed(m', idx, bs)
  {
    forall i | 0 <= i < |bs| ensures BlockAt(m', bs[i]) {
      BlockAtFrame(m, m', bs[i]);
    }
    forall i | 0 <= i < |idx| ensures HeaderSize(m', idx[i]) == HeaderSize(m, idx[i]) {
      var k := IndexEntry(m, idx, bs, i);
      assert BlockAt(m', bs[k]);
    }
    forall i, j | 0 <= i < j < |idx| ensures BySize(m')(idx[i], idx[j]) <= 0 {
      assert BySize(m)(idx[i], idx[j]) <= 0;
    }
  }

  /** `bs` with block `b` put at place `k`. */
  function WithBlock(bs: seq<Block>, k: nat, b: Block): seq<Block>
    requires k <= |bs|
  {
    bs[..k] + [b] + bs[k..]
  }

  function WithoutBlock(bs: seq<Block>, k: nat): seq<Block>
    requires k < |bs|
  {
    bs[..k] + bs[k + 1..]
  }

  ghost predicate FitsBetween(bs: seq<Block>, k: nat, b: Block) {
    && k <= |bs|
    && (forall i :: 0 <= i < k ==> bs[i].End() <= b.start)
    && (forall i :: k <= i < |bs| ==> b.End() <= bs[i].start)
  }

  lemma WithBlockHoles(bs: seq<Block>, k: nat, b: Block)
    requires k <= |bs|
    ensures Holes(WithBlock(bs, k, b)) == Holes(bs) + (if b.hole then {b.start} else {})
  {
    assert bs == bs[..k] + bs[k..];
    assert forall x :: x in WithBlock(bs, k, b) <==> x in bs || x == b;
  }

  lemma WithoutBlockHoles(bs: seq<Block>, k: nat)
    requires k < |bs| && Apart(bs) && forall i :: 0 <= i < |bs| ==> bs[i].size > 0
    ensures Holes(WithoutBlock(bs, k)) == Holes(bs) - (if bs[k].hole then {bs[k].start} else {})
  {
    var rest := WithoutBlock(bs, k);
    assert bs == WithBlock(rest, k, bs[k]);
    WithBlockHoles(rest, k, bs[k]);
    assert forall i :: 0 <= i < |rest| ==> rest[i] == if i < k then bs[i] else bs[i + 1];
  }

  lemma WithBlockApart(bs: seq<Block>, k: nat, b: Block)
    requires Apart(bs) && FitsBetween(bs, k, b)
    ensures Apart(WithBlock(bs, k, b))
  {
    var t := WithBlock(bs, k, b);
    assert forall i :: 0 <= i < k ==> t[i] == bs[i];
    assert forall i :: k < i < |t| ==> t[i] == bs[i - 1];
  }

  lemma WithBlockAt(m: seq<byte>, bs: seq<Block>, k: nat, b: Block)
    requires forall i :: 0 <= i < |bs| ==> BlockAt(m, bs[i]) && bs[i].size > 0
    requires k <= |bs| && BlockAt(m, b) && b.size > 0
    ensures var t := WithBlock(bs, k, b); forall i :: 0 <= i < |t| ==> BlockAt(m, t[i]) && t[i].size > 0
  {
    var t := WithBlock(bs, k, b);
    forall i | 0 <= i < |t| ensures t[i] == if i < k then bs[i] else if i == k then b else bs[i - 1] {
    }
  }

  lemma WithoutBlockAt(m: seq<byte>, bs: seq<Block>, k: nat)
    requires Apart(bs) && forall i :: 0 <= i < |bs| ==> BlockAt(m, bs[i]) && bs[i].size > 0
    requires k < |bs|
    ensures var t := WithoutBlock(bs, k); Apart(t) && forall i :: 0 <= i < |t| ==> BlockAt(m, t[i]) && t[i].size > 0
  {
    var t := WithoutBlock(bs, k);
    forall i | 0 <= i < |t| ensures t[i] == if i < k then bs[i] else bs[i + 1] {
    }
  }

  /** A hole written to memory is entered in the index. */
  lemma IndexedAddHole(m: seq<byte>, idx: seq<nat>, bs: seq<Block>, k: nat, b: Block)
    requires Indexed(m, idx, bs) && FitsBetween(bs, k, b) && b.hole && b.size > 0 && BlockAt(m, b)
    ensures Indexed(m, Inserted(idx, b.start, BySize(m)), WithBlock(bs, k, b))
  {
    var idx' := Inserted(idx, b.start, BySize(m));
    assert Sorted(idx', BySize(m)) by {
      BySizeOrders(m);
      InsertedSorted(idx, b.start, BySize(m));
    }
    InsertedDistinct(idx, b.start, BySize(m));
    WithBlockHoles(bs, k, b);
    WithBlockApart(bs, k, b);
    WithBlockAt(m, bs, k, b);
  }

  /** An allocated block written to memory needs no entry. */
  lemma IndexedAddLive(m: seq<byte>, idx: seq<nat>, bs: seq<Block>, k: nat, b: Block)
    requires Indexed(m, idx, bs) && FitsBetween(bs, k, b) && !b.hole && b.size > 0 && BlockAt(m, b)
    ensures Indexed(m, idx, WithBlock(bs, k, b))
  {
    WithBlockHoles(bs, k, b);
    WithBlockApart(bs, k, b);
    WithBlockAt(m, bs, k, b);
  }

  /** Taking a hole's entry out. */
  lemma IndexedDropHole(m: seq<byte>, idx: seq<nat>, bs: seq<Block>, k: nat, i: nat)
    requires Indexed(m, idx, bs) && k < |bs| && bs[k].hole && i < |idx| && idx[i] == bs[k].start
    ensures Indexed(m, RemovedAt(idx, i), WithoutBlock(bs, k))
  {
    RemovedSorted(idx, i, BySize(m));
    WithoutBlockHoles(bs, k);
    WithoutBlockAt(m, bs, k);
  }

  lemma IndexedDropLive(m: seq<byte>, idx: seq<nat>, bs: seq<Block>, k: nat)
    requires Indexed(m, idx, bs) && k < |bs| && !bs[k].hole
    ensures Indexed(m, idx, WithoutBlock(bs, k))
  {
    WithoutBlockHoles(bs, k);
    WithoutBlockAt(m, bs, k);
  }

  // ---- Writing one block ----

  lemma WriteSparesOthers(m: seq<byte>, m': seq<byte>, idx: seq<nat>, bs: seq<Block>, k: nat, b: Block)
    requires Indexed(m, idx, bs) && FitsBetween(bs, k, b) && WroteBlock(m, m', b)
    ensures Indexed(m', idx, bs)
  {
    forall i, a | 0 <= i < |bs| && 0 <= a < |m| && InMeta(bs[i], a) ensures m'[a] == m[a] {
      assert !InMeta(b, a);
    }
    IndexedWrite(m, m', idx, bs);
  }

  lemma WriteHole(m: seq<byte>, m': seq<byte>, idx: seq<nat>, bs: seq<Block>, k: nat, b: Block)
    requires Indexed(m, idx, bs) && FitsBetween(bs, k, b) && b.hole && b.size > 0 && WroteBlock(m, m', b)
    ensures Indexed(m', Inserted(idx, b.start, BySize(m')), WithBlock(bs, k, b))
    ensures b.start !in idx
  {
    WriteSparesOthers(m, m', idx, bs, k, b);
    IndexedAddHole(m', idx, bs, k, b);
  }

  lemma WriteLive(m: seq<byte>, m': seq<byte>, idx: seq<nat>, bs: seq<Block>, k: nat, b: Block)
    requires Indexed(m, idx, bs) && FitsBetween(bs, k, b) && !b.hole && b.size > 0 && WroteBlock(m, m', b)
    ensures Indexed(m', idx, WithBlock(bs, k, b))
  {
    WriteSparesOthers(m, m', idx, bs, k, b);
    IndexedAddLive(m', idx, bs, k, b);
  }
}

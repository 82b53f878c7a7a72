/** The kernel heap over byte memory (src/mem/kheap.c). */
module Kheaps {
  import opened Machine
  import opened OrderedArrays
  import opened KheapSpec
  import opened KheapMemory
  import opened KheapTheorems
  import opened KheapSteps

  const KHEAP_INDEX_NUM := 0x20000
  const INDEX_BYTES := 4 * KHEAP_INDEX_NUM

  class Kheap {
    var mem: seq<byte>
    const index: OrderedArray
    const startAddress: nat
    var endAddress: nat
    var size: nat
    const maxAddress: nat

    /** The blocks, in address order. */
    ghost var blocks: seq<Block>

    ghost predicate Valid()
      reads this, index, index.arr
    {
      && index.Valid()
      && size == endAddress - startAddress
      && HeapOk(mem, index.Contents(), blocks, startAddress, endAddress, maxAddress)
    }

    /** No unsigned 32-bit sum in `alloc` wraps around. */
    ghost predicate NoWrap(request: nat) {
      maxAddress + 2 * PAGE_SIZE + request < U32_LIMIT
    }

    /** The index has slots for the entries an `alloc` may add. */
    ghost predicate IndexHasRoom()
      requires blocks != []
      reads this, index
    {
      index.size + (if blocks[|blocks| - 1].hole then 1 else 2) <= index.arr.Length
    }

    /**
     * The index has room for any `alloc` and any `free` while its slots outnumber the live blocks by two, however the
     * heap got there.
     */
    lemma RoomForLive()
      requires Valid() && |Live(blocks)| + 2 <= index.arr.Length
      ensures blocks != [] && IndexHasRoom() && index.size < index.arr.Length
    {
      hide Indexed, HeapOk, WellFormed, Live, Holes;
      HeapParts(mem, index.Contents(), blocks, startAddress, endAddress, maxAddress);
      IndexSize(mem, index.Contents(), blocks);
    }

    /** `create_kheap`: the index takes the first bytes of the range, one hole the rest. */
    constructor (memory: seq<byte>, start: nat, end: nat, max: nat)
      requires start % PAGE_SIZE == 0 && end % PAGE_SIZE == 0
      requires start + INDEX_BYTES + BLOCK_META_SIZE < end <= max
      requires max + HEADER_SIZE <= |memory| <= U32_LIMIT
      requires Untouched(memory, start)
      ensures Valid() && fresh(index) && fresh(index.arr)
      ensures index.arr.Length == KHEAP_INDEX_NUM && maxAddress == max
      ensures |blocks| == 1 && blocks[0].hole && startAddress == start + INDEX_BYTES && endAddress == end
    {
      index := new OrderedArray(KHEAP_INDEX_NUM);
      startAddress := start + INDEX_BYTES;
      endAddress := end;
      size := end - (start + INDEX_BYTES);
      maxAddress := max;
      mem := memory;
      new;
      hide HeapOk, Untouched;
      FirstHole(start);
    }

    /** The last steps of `create_kheap`: the hole is written and becomes the only entry of the index. */
    method FirstHole(ghost from: nat)
      requires index.Valid() && index.Contents() == [] && 0 < index.arr.Length
      requires from + FOOTER_SIZE <= startAddress && startAddress + BLOCK_META_SIZE < endAddress <= maxAddress
      requires endAddress % PAGE_SIZE == 0 && maxAddress + HEADER_SIZE <= |mem| <= U32_LIMIT && Untouched(mem, from)
      modifies this`mem, this`blocks, index`size, index.arr
      ensures index.Valid() && blocks == [Block(startAddress, endAddress - startAddress - BLOCK_META_SIZE, true)]
      ensures HeapOk(mem, index.Contents(), blocks, startAddress, endAddress, maxAddress)
    {
      hide HeapOk, Indexed, WroteBlock, Untouched, Inserted, BySize;
      ghost var m := mem;
      var first, holeSize := startAddress, endAddress - startAddress - BLOCK_META_SIZE;
      blocks := [Block(first, holeSize, true)];
      MakeBlock(first, holeSize, true);
      SingleHole(m, mem, blocks[0], maxAddress);
      var ok := index.Insert(first, BySize(mem));
      InsertedIntoNone(first, BySize(mem));
    }

    /** `make_block`: writes a header and a footer. */
    method MakeBlock(start: nat, blockSize: nat, hole: bool)
      requires blockSize > 0 && start + blockSize + BLOCK_META_SIZE <= |mem| <= U32_LIMIT
      modifies this`mem
      ensures WroteBlock(old(mem), mem, Block(start, blockSize, hole))
    {
      var end := start + blockSize + BLOCK_META_SIZE;
      PutHeader(start, blockSize, hole);
      ghost var m := mem;
      PutFooter(end - FOOTER_SIZE, start);
      WordKept(m, mem, start);
      WordKept(m, mem, start + SIZE_OFFSET);
    }

    method PutHeader(start: nat, blockSize: nat, hole: bool)
      requires start + HEADER_SIZE <= |mem| && blockSize < U32_LIMIT
      modifies this`mem
      ensures |mem| == |old(mem)| && Word(mem, start) == KHEAP_MAGIC && Word(mem, start + SIZE_OFFSET) == blockSize
      ensures mem[start + HOLE_OFFSET] == if hole then IS_HOLE else NOT_HOLE
      ensures forall a :: 0 <= a < |mem| && !(start <= a < start + HEADER_SIZE) ==> mem[a] == old(mem)[a]
    {
      mem := StoreWord(mem, start, KHEAP_MAGIC);
      ghost var m := mem;
      mem := StoreWord(mem, start + SIZE_OFFSET, blockSize);
      WordKept(m, mem, start);
      m := mem;
      mem := mem[start + HOLE_OFFSET := if hole then IS_HOLE else NOT_HOLE];
      WordKept(m, mem, start);
      WordKept(m, mem, start + SIZE_OFFSET);
    }

    method PutFooter(footer: nat, header: nat)
      requires footer + FOOTER_SIZE <= |mem| && header < U32_LIMIT
      modifies this`mem
      ensures |mem| == |old(mem)| && Word(mem, footer) == KHEAP_MAGIC && Word(mem, footer + LINK_OFFSET) == header
      ensures forall a :: 0 <= a < |mem| && !(footer <= a < footer + FOOTER_SIZE) ==> mem[a] == old(mem)[a]
    {
      mem := StoreWord(mem, footer, KHEAP_MAGIC);
      ghost var m := mem;
      mem := StoreWord(mem, footer + LINK_OFFSET, header);
      WordKept(m, mem, footer);
    }

    /** `kheap_expand`: false when the new end would pass the maximum, where the source panics. */
    method KheapExpand(expandSize: nat) returns (ok: bool, ext: nat)
      requires 0 < expandSize && endAddress <= maxAddress
      requires maxAddress + PAGE_SIZE + expandSize < U32_LIMIT
      modifies this`endAddress, this`size
      ensures ext == AlignToPage(expandSize) && ok == (old(endAddress) + ext <= maxAddress)
      ensures ok ==> endAddress == old(endAddress) + ext && size == old(size) + ext
      ensures !ok ==> endAddress == old(endAddress) && size == old(size)
    {
      ext := AlignToPage(expandSize);
      var newEnd := U32(endAddress + ext);
      if newEnd > maxAddress {
        return false, ext;
      }
      endAddress := newEnd;
      size := size + ext;
      return true, ext;
    }

    /** `find_hole`: the first index entry that fits, which is a smallest hole that fits. */
    method FindHole(request: nat, pageAlign: bool) returns (entry: int, pos: nat, ghost k: nat)
      requires Valid() && request > 0 && NoWrap(request)
      ensures -1 <= entry < index.size
      ensures entry < 0 ==> !AnyFits(blocks, request, pageAlign)
      ensures entry >= 0 ==> BestFit(blocks, k, request, pageAlign) && FitPos(blocks[k], request, pageAlign) == Some(pos)
                             && index.Contents()[entry] == blocks[k].start
    {
      hide HeapOk, Indexed, WellFormed, BestFit, AnyFits;
      ghost var idx := index.Contents();
      HeapParts(mem, idx, blocks, startAddress, endAddress, maxAddress);
      pos := 0;
      k := 0;
      for i := 0 to index.size
        invariant NoneFits(idx, blocks, i, request, pageAlign)
      {
        k := IndexEntry(mem, idx, blocks, i);
        var header := index.Get(i);
        var start := header + HEADER_SIZE;
        NextHeader(blocks, k);
        if pageAlign {
          var found;
          found, pos := FindAligned(start, start + HeaderSize(mem, header), request);
          if found {
            FirstFitIsBest(mem, idx, blocks, request, pageAlign, i, k);
            return i, pos, k;
          }
        } else if HeaderSize(mem, header) >= request {
          FirstFitIsBest(mem, idx, blocks, request, pageAlign, i, k);
          return i, start, k;
        }
        NextNoneFits(mem, idx, blocks, i, k, request, pageAlign);
      }
      AllEntriesMeansNone(mem, idx, blocks, request, pageAlign);
      return -1, pos, k;
    }

    /** The page-align loop of `find_hole`, over the payload `start..end` of one hole. */
    method FindAligned(start: nat, end: nat, request: nat) returns (found: bool, pos: nat)
      requires HEADER_SIZE <= start <= end <= maxAddress && NoWrap(request)
      ensures FitPos(Block(start - HEADER_SIZE, end - start, true), request, true) == if found then Some(pos) else None
    {
      var next := AlignToPage(start);
      while U32(next + request) <= end
        invariant next == AlignToPage(start) || next == AlignToPage(start) + PAGE_SIZE
        invariant next != AlignToPage(start) ==> AlignToPage(start) - start <= BLOCK_META_SIZE
        decreases end + PAGE_SIZE - next
      {
        if next - start > BLOCK_META_SIZE {
          return true, next;
        }
        next := next + PAGE_SIZE;
      }
      return false, next;
    }

    /** The expansion branch when the last block is a hole: resize it, take it out of the index and re-insert it. */
    method GrowLastHole(lastHeader: nat, ext: nat)
      requires index.Valid() && WellFormed(blocks) && Indexed(mem, index.Contents(), blocks)
      requires var last := blocks[|blocks| - 1]; last.hole && lastHeader == last.start
      requires ext > BLOCK_META_SIZE && EndOf(blocks) + ext <= |mem| <= U32_LIMIT
      modifies this`mem, index`size, index.arr
      ensures index.Valid() && index.size == old(index.size)
      ensures var g := Grow(blocks, ext);
              WroteBlock(old(mem), mem, g[|g| - 1]) && Indexed(mem, index.Contents(), g)
    {
      hide Indexed, WroteBlock, Inserted, RemovedAt, FirstIndex, Tiles, NoAdjacentHoles;
      ghost var m, idx := mem, index.Contents();
      AllSizes(blocks);
      IndexedBlock(mem, idx, blocks, |blocks| - 1);
      MakeBlock(lastHeader, HeaderSize(mem, lastHeader) + ext, true);
      LastHoleResized(m, mem, idx, blocks, ext);
      var removed := index.RemoveElement(lastHeader);
      assert removed;
      var inserted := index.Insert(lastHeader, BySize(mem));
    }

    /** The expansion branch when the last block is allocated: append a hole. */
    method AppendLastHole(oldEnd: nat, ext: nat)
      requires index.Valid() && WellFormed(blocks) && Indexed(mem, index.Contents(), blocks)
      requires !blocks[|blocks| - 1].hole && oldEnd == EndOf(blocks) && index.size < index.arr.Length
      requires ext > BLOCK_META_SIZE && EndOf(blocks) + ext <= |mem| <= U32_LIMIT
      modifies this`mem, index`size, index.arr
      ensures index.Valid() && index.size == old(index.size) + 1
      ensures var g := Grow(blocks, ext);
              WroteBlock(old(mem), mem, g[|g| - 1]) && Indexed(mem, index.Contents(), g)
    {
      hide Indexed, WroteBlock, Inserted, Tiles, NoAdjacentHoles;
      ghost var m, idx := mem, index.Contents();
      MakeBlock(oldEnd, ext - BLOCK_META_SIZE, true);
      LastHoleAppended(m, mem, idx, blocks, ext);
      var inserted := index.Insert(oldEnd, BySize(mem));
    }

    /** Whichever of the two applies; the last footer leads to the last header. */
    method GrowLast(oldEnd: nat, ext: nat)
      requires index.Valid() && WellFormed(blocks) && blocks != []
      requires Indexed(mem, index.Contents(), blocks) && IndexHasRoom()
      requires ext > BLOCK_META_SIZE && oldEnd == EndOf(blocks) && EndOf(blocks) + ext <= |mem| <= U32_LIMIT
      modifies this`mem, index`size, index.arr
      ensures index.Valid() && index.size < index.arr.Length
      ensures var g := Grow(blocks, ext);
              g[|g| - 1].hole && WroteBlock(old(mem), mem, g[|g| - 1]) && Indexed(mem, index.Contents(), g)
    {
      hide Indexed, WellFormed;
      IndexedBlock(mem, index.Contents(), blocks, |blocks| - 1);
      var lastHeader := Word(mem, oldEnd - FOOTER_SIZE + LINK_OFFSET);
      if mem[lastHeader + HOLE_OFFSET] != NOT_HOLE {
        GrowLastHole(lastHeader, ext);
      } else {
        AppendLastHole(oldEnd, ext);
      }
    }

    /** The expansion branch of `alloc`; false where `kheap_expand` panics. */
    method Expand(request: nat) returns (ok: bool)
      requires Valid() && request > 0 && NoWrap(request) && blocks != [] && IndexHasRoom()
      modifies this`mem, this`endAddress, this`size, this`blocks, index`size, index.arr
      ensures ok == (old(endAddress) + Extension(request) <= maxAddress)
      ensures ok ==> Valid() && blocks == Grow(old(blocks), Extension(request)) && IndexHasRoom()
      ensures ok ==> KeepsPayloads(old(mem), mem, old(blocks))
    {
      hide Indexed, HeapOk, WellFormed, Grow, WroteBlock, KeepsPayloads, AlignToPage;
      HeapParts(mem, index.Contents(), blocks, startAddress, endAddress, maxAddress);
      var oldEnd := endAddress;
      var ext;
      ok, ext := KheapExpand(request + BLOCK_META_SIZE);
      if ok {
        ghost var m, idx, g := mem, index.Contents(), Grow(blocks, ext);
        GrowLast(oldEnd, ext);
        GrowKeepsPayloads(m, mem, blocks, ext);
        GrowOk(m, mem, idx, index.Contents(), blocks, startAddress, oldEnd, maxAddress, ext);
        blocks := g;
      }
    }

    /** `make_block` for a hole that is new to the tiling, and its index entry. */
    method AddHole(start: nat, blockSize: nat, ghost k: nat)
      requires index.Valid() && Indexed(mem, index.Contents(), blocks) && index.size < index.arr.Length
      requires blockSize > 0 && start + blockSize + BLOCK_META_SIZE <= |mem| <= U32_LIMIT
      requires FitsBetween(blocks, k, Block(start, blockSize, true))
      modifies this`mem, this`blocks, index`size, index.arr
      ensures index.Valid() && index.size == old(index.size) + 1
      ensures blocks == WithBlock(old(blocks), k, Block(start, blockSize, true))
      ensures Indexed(mem, index.Contents(), blocks)
      ensures ChangedWithin(old(mem), mem, start, start + blockSize + BLOCK_META_SIZE)
    {
      hide Indexed;
      ghost var m, b := mem, Block(start, blockSize, true);
      MakeBlock(start, blockSize, true);
      WriteHole(m, mem, index.Contents(), blocks, k, b);
      var inserted := index.Insert(start, BySize(mem));
      blocks := WithBlock(blocks, k, b);
    }

    /** `make_block` for an allocated block. */
    method AddLive(start: nat, blockSize: nat, ghost k: nat)
      requires index.Valid() && Indexed(mem, index.Contents(), blocks)
      requires blockSize > 0 && start + blockSize + BLOCK_META_SIZE <= |mem| <= U32_LIMIT
      requires FitsBetween(blocks, k, Block(start, blockSize, false))
      modifies this`mem, this`blocks
      ensures index.Valid()
      ensures blocks == WithBlock(old(blocks), k, Block(start, blockSize, false))
      ensures Indexed(mem, index.Contents(), blocks)
      ensures ChangedWithin(old(mem), mem, start, start + blockSize + BLOCK_META_SIZE)
    {
      hide Indexed;
      ghost var m, b := mem, Block(start, blockSize, false);
      MakeBlock(start, blockSize, false);
      WriteLive(m, mem, index.Contents(), blocks, k, b);
      blocks := WithBlock(blocks, k, b);
    }

    /** The entry's hole leaves the index. */
    method TakeEntry(entry: nat, ghost k: nat) returns (header: nat, blockSize: nat)
      requires index.Valid() && Indexed(mem, index.Contents(), blocks)
      requires entry < index.size && k < |blocks| && blocks[k].hole && index.Contents()[entry] == blocks[k].start
      modifies this`blocks, index`size, index.arr
      ensures index.Valid() && index.size < old(index.size) && Indexed(mem, index.Contents(), blocks)
      ensures header == old(blocks)[k].start && blockSize == old(blocks)[k].size && old(blocks)[k].End() <= |mem|
      ensures blocks == WithoutBlock(old(blocks), k)
    {
      hide Indexed, RemovedAt;
      IndexedBlock(mem, index.Contents(), blocks, k);
      IndexedDropHole(mem, index.Contents(), blocks, k, entry);
      header := index.Get(entry);
      blockSize := HeaderSize(mem, header);
      var removed := index.Remove(entry);
      blocks := WithoutBlock(blocks, k);
    }

    /** The entry's hole leaves the index; for an aligned request its front becomes a hole of its own. */
    method TakeHole(request: nat, pageAlign: bool, entry: nat, pos: nat, ghost k: nat)
      returns (header: nat, blockSize: nat, ghost at: nat)
      requires index.Valid() && Indexed(mem, index.Contents(), blocks) && WellFormed(blocks) && |mem| <= U32_LIMIT
      requires entry < index.size && k < |blocks| && blocks[k].hole && index.Contents()[entry] == blocks[k].start
      requires Acceptable(blocks[k], request, pageAlign, pos)
      modifies this`mem, this`blocks, index`size, index.arr
      ensures index.Valid() && index.size <= old(index.size) && |mem| == |old(mem)|
      ensures Indexed(mem, index.Contents(), blocks)
      ensures header == pos - HEADER_SIZE && header + BLOCK_META_SIZE + blockSize == old(blocks)[k].End() <= |mem|
      ensures Slot(blocks, at, header, old(blocks)[k].End())
      ensures blocks == FrontCut(old(blocks), k, pos, pageAlign) && at == if pageAlign then k + 1 else k
      ensures ChangedWithin(old(mem), mem, old(blocks)[k].start, old(blocks)[k].End())
    {
      hide Indexed, WellFormed, Slot;
      ghost var hole, m := blocks[k], mem;
      HoleNeighbours(blocks, k);
      header, blockSize := TakeEntry(entry, k);
      at := k;
      if pageAlign {
        var allocHeader := pos - HEADER_SIZE;
        if allocHeader > header {
          var cut := allocHeader - header;
          SlotTaken(blocks, k, hole.start, hole.End(), Block(header, cut - BLOCK_META_SIZE, true));
          AddHole(header, cut - BLOCK_META_SIZE, k);
          at := k + 1;
          blockSize := blockSize - cut;
          header := allocHeader;
          ChangedLess(m, mem, hole.start, header, hole.End());
        }
      }
    }

    /** The allocation, with a remainder too small for a block absorbed, and the tail hole otherwise. */
    method UseBlock(request: nat, header: nat, blockSize: nat, ghost at: nat)
      requires index.Valid() && Indexed(mem, index.Contents(), blocks) && index.size < index.arr.Length
      requires 0 < request <= blockSize && header + BLOCK_META_SIZE + blockSize <= |mem| <= U32_LIMIT
      requires Slot(blocks, at, header, header + BLOCK_META_SIZE + blockSize)
      modifies this`mem, this`blocks, index`size, index.arr
      ensures index.Valid() && Indexed(mem, index.Contents(), blocks)
      ensures blocks == TailCut(old(blocks), at, header, blockSize, request)
      ensures ChangedWithin(old(mem), mem, header, header + BLOCK_META_SIZE + blockSize)
    {
      hide Indexed;
      var remain := blockSize - request;
      var taken := request;
      if remain <= BLOCK_META_SIZE {
        taken := blockSize;
        remain := 0;
      }
      ghost var m, end := mem, header + BLOCK_META_SIZE + blockSize;
      SlotTaken(blocks, at, header, end, Block(header, taken, false));
      AddLive(header, taken, at);
      if remain > 0 {
        ghost var tail := Block(header + BLOCK_META_SIZE + taken, remain - BLOCK_META_SIZE, true);
        SlotTaken(blocks, at + 1, tail.start, end, tail);
        AddHole(header + BLOCK_META_SIZE + taken, remain - BLOCK_META_SIZE, at + 1);
      }
    }

    /** The tail of `alloc`: cuts the payload at `pos` out of the hole in entry `entry`, which is block `k`. */
    method Place(request: nat, pageAlign: bool, entry: nat, pos: nat, ghost k: nat)
      requires Valid() && request > 0 && blocks != [] && IndexHasRoom()
      requires entry < index.size && k < |blocks| && blocks[k].hole && index.Contents()[entry] == blocks[k].start
      requires Acceptable(blocks[k], request, pageAlign, pos)
      modifies this`mem, this`blocks, index`size, index.arr
      ensures Valid() && blocks == SplitHole(old(blocks), k, pos, request)
      ensures KeepsPayloads(old(mem), mem, old(blocks))
    {
      hide Indexed, HeapOk, WellFormed, SplitHole, TailCut, KeepsPayloads, ChangedWithin, Slot;
      ghost var all, hole, m0, idx0 := blocks, blocks[k], mem, index.Contents();
      HeapParts(mem, idx0, all, startAddress, endAddress, maxAddress);
      HoleNeighbours(all, k);
      var header, blockSize;
      ghost var at;
      header, blockSize, at := TakeHole(request, pageAlign, entry, pos, k);
      ghost var m1 := mem;
      UseBlock(request, header, blockSize, at);
      PiecesMakeSplit(all, k, pos, request, pageAlign);
      SplitKeeps(all, k, pos, request, pageAlign);
      ChangedTwice(m0, m1, mem, hole.start, hole.End(), header, hole.End());
      HeapOkAgain(m0, mem, idx0, index.Contents(), all, blocks, startAddress, endAddress, maxAddress);
      ChangedWithinHole(m0, mem, all, k);
    }

    /**
     * `alloc`, with the source's recursion; `n` counts the expansions it makes. None stands for the panic in
     * `kheap_expand`. `budget` is a number of expansions known to be enough.
     */
    method Alloc(request: nat, pageAlign: bool, ghost budget: nat) returns (r: Option<nat>, ghost n: nat)
      requires Valid() && request > 0 && NoWrap(request) && blocks != [] && IndexHasRoom()
      requires AnyFits(GrowTimes(blocks, Extension(request), budget), request, pageAlign)
      modifies this`mem, this`endAddress, this`size, this`blocks, index`size, index.arr
      ensures r.Some? ==> Valid() && AllocStep(old(blocks), request, pageAlign, blocks, r.value, n)
      ensures r.Some? ==> KeepsPayloads(old(mem), mem, old(blocks))
      ensures r.None? <==> OutOfRoom(old(blocks), request, pageAlign, maxAddress)
      decreases budget
    {
      hide Indexed, WellFormed;
      var entry, pos;
      ghost var k;
      entry, pos, k := FindHole(request, pageAlign);
      if entry < 0 {
        ghost var m, bs := mem, blocks;
        var ok := Expand(request);
        if !ok {
          return None, 0;
        }
        GrowsInto(bs, request, pageAlign, budget);
        ghost var m1 := mem;
        r, n := Alloc(request, pageAlign, budget - 1);
        if r.None? {
          return;
        }
        PayloadsKeptTwice(m, m1, mem, bs, Extension(request));
        n := n + 1;
        return;
      }
      Place(request, pageAlign, entry, pos, k);
      return Some(pos), 0;
    }

    /** `kmalloc_impl`: a request for nothing gets the null pointer; None stands for a panic. */
    method Kmalloc(request: nat, pageAlign: bool) returns (r: Option<nat>)
      requires Valid() && NoWrap(request) && blocks != [] && IndexHasRoom()
      modifies this`mem, this`endAddress, this`size, this`blocks, index`size, index.arr
      ensures request == 0 ==> r == Some(0) && Valid() && blocks == old(blocks) && mem == old(mem)
      ensures request > 0 ==> (r.None? <==> OutOfRoom(old(blocks), request, pageAlign, maxAddress))
      ensures r.None? ==> old(endAddress) + (if pageAlign then 2 else 1) * Extension(request) > maxAddress
      ensures r.None? && !pageAlign ==>
                forall i :: 0 <= i < |old(blocks)| && old(blocks)[i].hole ==> old(blocks)[i].size < request
      ensures request > 0 && r.Some? ==> Valid() && HeapStep(old(blocks), AllocOp(request, pageAlign, r.value), blocks)
      ensures r.Some? ==> KeepsPayloads(old(mem), mem, old(blocks))
    {
      if request == 0 {
        NoByteChanged(mem, blocks);
        return Some(0);
      }
      hide Indexed, WellFormed, HeapOk, AllocStep, OutOfRoom, AnyFits, GrowTimes, KeepsPayloads, Extension, HeapStep;
      ghost var bs := blocks;
      HeapParts(mem, index.Contents(), bs, startAddress, endAddress, maxAddress);
      ExtensionPages(request);
      ExpansionSuffices(bs, request, pageAlign);
      ghost var n;
      r, n := Alloc(request, pageAlign, if pageAlign then 2 else 1);
      if r.None? {
        OutOfRoomIsClose(bs, request, pageAlign, maxAddress);
      } else {
        AllocIsStep(bs, request, pageAlign, blocks, r.value, n);
      }
    }

    /** One merge in `free`: writes the joined block, and takes the entry of hole `j`, at `gone`, out of the index. */
    method Absorb(start: nat, joinedSize: nat, gone: nat, ghost j: nat)
      requires index.Valid() && Indexed(mem, index.Contents(), blocks)
      requires j < |blocks| && blocks[j].hole && gone == blocks[j].start
      requires joinedSize > 0 && start + joinedSize + BLOCK_META_SIZE <= |mem| <= U32_LIMIT
      requires FitsBetween(WithoutBlock(blocks, j), j, Block(start, joinedSize, true))
      modifies this`mem, this`blocks, index`size, index.arr
      ensures index.Valid() && index.size <= old(index.size) && Indexed(mem, index.Contents(), blocks)
      ensures blocks == WithoutBlock(old(blocks), j)
      ensures WroteBlock(old(mem), mem, Block(start, joinedSize, true))
    {
      hide Indexed, FitsBetween;
      ghost var m, idx := mem, index.Contents();
      HoleIndexed(m, idx, blocks, j);
      IndexedDropHole(m, idx, blocks, j, FirstIndex(idx, gone));
      MakeBlock(start, joinedSize, true);
      var removed := index.RemoveElement(gone);
      assert removed;
      blocks := WithoutBlock(blocks, j);
      WriteSparesOthers(m, mem, index.Contents(), blocks, j, Block(start, joinedSize, true));
    }

    /** The step of `free` that merges the hole `b` at `header`, not indexed yet, with a hole on its right. */
    method MergeRight(header: nat, ghost b: Block, ghost k: nat) returns (ghost merged: Block)
      requires index.Valid() && Indexed(mem, index.Contents(), blocks) && BlockAt(mem, b) && b.start == header && b.hole
      requires b.End() + HEADER_SIZE <= |mem| <= U32_LIMIT && b.size > 0 && FitsBetween(blocks, k, b)
      requires BeforeNext(mem, blocks, k, b)
      modifies this`mem, this`blocks, index`size, index.arr
      ensures index.Valid() && index.size <= old(index.size) && Indexed(mem, index.Contents(), blocks)
      ensures blocks == if k < |old(blocks)| && old(blocks)[k].hole then WithoutBlock(old(blocks), k) else old(blocks)
      ensures merged == if k < |old(blocks)| && old(blocks)[k].hole then Joined(b, old(blocks)[k]) else b
      ensures BlockAt(mem, merged) && FitsBetween(blocks, k, merged)
      ensures ChangedWithin(old(mem), mem, merged.start, merged.End())
    {
      hide Indexed, Word;
      var rightHeader := header + BLOCK_META_SIZE + HeaderSize(mem, header);
      merged := b;
      if k < |blocks| {
        IndexedBlock(mem, index.Contents(), blocks, k);
      }
      if Word(mem, rightHeader) == KHEAP_MAGIC && mem[rightHeader + HOLE_OFFSET] != NOT_HOLE {
        merged := Joined(b, blocks[k]);
        JoinedFits(mem, index.Contents(), blocks, k, b, k);
        Absorb(header, HeaderSize(mem, header) + HeaderSize(mem, rightHeader) + BLOCK_META_SIZE, rightHeader, k);
      }
    }

    /** The step of `free` that merges the hole `b` at `header` with a hole on its left. */
    method MergeLeft(header: nat, ghost b: Block, ghost k: nat) returns (newHole: nat, ghost merged: Block)
      requires index.Valid() && Indexed(mem, index.Contents(), blocks) && BlockAt(mem, b) && b.start == header && b.hole
      requires FOOTER_SIZE <= header && |mem| <= U32_LIMIT && b.size > 0 && FitsBetween(blocks, k, b)
      requires AfterPrevious(mem, blocks, k, b)
      modifies this`mem, this`blocks, index`size, index.arr
      ensures index.Valid() && index.size <= old(index.size) && Indexed(mem, index.Contents(), blocks)
      ensures blocks == if k > 0 && old(blocks)[k - 1].hole then WithoutBlock(old(blocks), k - 1) else old(blocks)
      ensures merged == if k > 0 && old(blocks)[k - 1].hole then Joined(old(blocks)[k - 1], b) else b
      ensures newHole == merged.start && BlockAt(mem, merged)
      ensures FitsBetween(blocks, if k > 0 && old(blocks)[k - 1].hole then k - 1 else k, merged)
      ensures ChangedWithin(old(mem), mem, merged.start, merged.End())
    {
      hide Indexed, Word, ChangedWithin, WroteBlock;
      NothingChanged(mem, header, b.End());
      var leftFooter := header - FOOTER_SIZE;
      newHole := header;
      merged := b;
      ghost var m := mem;
      if k > 0 {
        IndexedBlock(mem, index.Contents(), blocks, k - 1);
      }
      if Word(mem, leftFooter) == KHEAP_MAGIC {
        var leftHeader := Word(mem, leftFooter + LINK_OFFSET);
        if mem[leftHeader + HOLE_OFFSET] == IS_HOLE {
          merged := Joined(blocks[k - 1], b);
          JoinedFits(mem, index.Contents(), blocks, k, b, k - 1);
          Absorb(leftHeader, HeaderSize(mem, leftHeader) + HeaderSize(mem, header) + BLOCK_META_SIZE, leftHeader, k - 1);
          BlockChanged(m, mem, merged);
          newHole := leftHeader;
        }
      }
    }

    /** `free`: the block becomes a hole, merges right, merges left, and enters the index. */
    method Free(ptr: nat)
      requires Valid() && index.size < index.arr.Length
      requires ptr == 0 || exists k: nat :: IsLiveAt(blocks, k, ptr)
      modifies this`mem, this`blocks, index`size, index.arr
      ensures Valid()
      ensures ptr == 0 ==> blocks == old(blocks) && mem == old(mem)
      ensures ptr != 0 ==> FreeStep(old(blocks), ptr, blocks) && KeepsPayloads(old(mem), mem, blocks)
    {
      if ptr == 0 {
        return;
      }
      ghost var k: nat :| IsLiveAt(blocks, k, ptr);
      FreeBlock(ptr, k);
    }

    /** The first step of `free`: the block becomes a hole, outside the indexed blocks until it comes back merged. */
    method MakeHole(header: nat, ghost k: nat)
      requires Valid() && k < |blocks| && !blocks[k].hole && blocks[k].start == header
      modifies this`mem, this`blocks
      ensures |mem| == |old(mem)| && FOOTER_SIZE <= startAddress && endAddress + HEADER_SIZE <= |mem|
      ensures Indexed(mem, index.Contents(), blocks) && blocks == WithoutBlock(old(blocks), k)
      ensures var b := old(blocks)[k].(hole := true);
              && startAddress <= header && b.End() <= endAddress && b.size > 0
              && BlockAt(mem, b) && FitsBetween(blocks, k, b)
              && BeforeNext(mem, blocks, k, b) && AfterPrevious(mem, blocks, k, b)
              && ChangedWithin(old(mem), mem, b.start, b.End())
    {
      hide Indexed, HeapOk, WellFormed, BlockAt, FitsBetween, ChangedWithin, Word, BeforeNext, AfterPrevious;
      ghost var bs, m, idx := blocks, mem, index.Contents();
      HeapParts(m, idx, bs, startAddress, endAddress, maxAddress);
      BlockSurroundings(m, idx, bs, startAddress, endAddress, maxAddress, k);
      mem := mem[header + HOLE_OFFSET := IS_HOLE];
      FlagSparesOthers(m, mem, idx, bs, k, startAddress, endAddress);
      HoleBorders(m, mem, idx, bs, startAddress, endAddress, maxAddress, k);
      blocks := WithoutBlock(bs, k);
    }

    method FreeBlock(ptr: nat, ghost k: nat)
      requires Valid() && index.size < index.arr.Length && IsLiveAt(blocks, k, ptr)
      modifies this`mem, this`blocks, index`size, index.arr
      ensures Valid() && Tiles(old(blocks)) && blocks == Release(old(blocks), k)
      ensures KeepsPayloads(old(mem), mem, blocks)
    {
      hide Indexed, HeapOk, WellFormed, KeepsPayloads, ChangedWithin, Merged, Unmerged, FitsBetween;
      ghost var bs, m0, idx0 := blocks, mem, index.Contents();
      HeapParts(m0, idx0, bs, startAddress, endAddress, maxAddress);
      BlockSurroundings(m0, idx0, bs, startAddress, endAddress, maxAddress, k);
      var header := ptr - HEADER_SIZE;
      var footer := ptr + HeaderSize(mem, header);
      assert Word(mem, header) == KHEAP_MAGIC && Word(mem, footer) == KHEAP_MAGIC;
      var newHole := MergeAll(header, k);
      ReleasePieces(bs, k);
      IndexedAddHole(mem, index.Contents(), blocks, MergeFrom(bs, k), Merged(bs, k));
      var inserted := index.Insert(newHole, BySize(mem));
      blocks := WithBlock(blocks, MergeFrom(bs, k), Merged(bs, k));
      ReleaseOk(m0, mem, idx0, index.Contents(), bs, startAddress, endAddress, maxAddress, k);
    }

    /** The first two steps: the hole, and its right neighbour if that is one. */
    method MergeForward(header: nat, ghost k: nat) returns (ghost b1: Block)
      requires Valid() && k < |blocks| && !blocks[k].hole && blocks[k].start == header
      modifies this`mem, this`blocks, index`size, index.arr
      ensures index.Valid() && index.size <= old(index.size) && Indexed(mem, index.Contents(), blocks)
      ensures FOOTER_SIZE <= header && |mem| == |old(mem)| <= U32_LIMIT
      ensures
        var bs := old(blocks);
        && blocks == bs[..k] + bs[MergeTo(bs, k) + 1..]
        && b1 == Block(bs[k].start, bs[MergeTo(bs, k)].End() - bs[k].start - BLOCK_META_SIZE, true) && b1.size > 0
        && BlockAt(mem, b1) && FitsBetween(blocks, k, b1) && b1.start <= |mem| && AfterPrevious(mem, blocks, k, b1)
        && ChangedWithin(old(mem), mem, b1.start, b1.End())
    {
      hide Indexed, HeapOk, BlockAt, FitsBetween, Word, AfterPrevious, BeforeNext, ChangedWithin, MergeTo, Tiles;
      ghost var bs, m0 := blocks, mem;
      HeapParts(m0, index.Contents(), bs, startAddress, endAddress, maxAddress);
      UnmergedRight(bs, k);
      ghost var b := bs[k].(hole := true);
      MakeHole(header, k);
      ghost var m1, bs1 := mem, blocks;
      b1 := MergeRight(header, b, k);
      ChangedTwice(m0, m1, mem, b.start, b.End(), b1.start, b1.End());
      SameLength(m0, mem, b1.start, b1.End());
      AfterPreviousStays(m1, mem, bs1, blocks, k, b, b1);
    }

    /** All three. */
    method MergeAll(header: nat, ghost k: nat) returns (newHole: nat)
      requires Valid() && k < |blocks| && !blocks[k].hole && blocks[k].start == header
      modifies this`mem, this`blocks, index`size, index.arr
      ensures index.Valid() && index.size <= old(index.size) && Indexed(mem, index.Contents(), blocks)
      ensures Tiles(old(blocks)) && blocks == Unmerged(old(blocks), k)
      ensures newHole == Merged(old(blocks), k).start && BlockAt(mem, Merged(old(blocks), k))
      ensures FitsBetween(blocks, MergeFrom(old(blocks), k), Merged(old(blocks), k))
      ensures ChangedWithin(old(mem), mem, Merged(old(blocks), k).start, Merged(old(blocks), k).End())
    {
      hide Indexed, HeapOk, BlockAt, FitsBetween, Word, Merged, Unmerged, AfterPrevious, ChangedWithin, MergeTo;
      ghost var bs, m0 := blocks, mem;
      HeapParts(m0, index.Contents(), bs, startAddress, endAddress, maxAddress);
      ghost var b1 := MergeForward(header, k);
      ghost var m1, l1 := mem, blocks;
      UnmergedLeft(bs, k, l1);
      MergedLeft(bs, k, b1);
      ghost var b2;
      newHole, b2 := MergeLeft(header, b1, k);
      ChangedTwice(m0, m1, mem, b1.start, b1.End(), b2.start, b2.End());
    }

    /** A thread stores into memory it allocated; the heap is not disturbed. */
    method StorePayload(a: nat, v: byte, ghost k: nat)
      requires Valid() && k < |blocks| && !blocks[k].hole && blocks[k].Payload() <= a < blocks[k].PayloadEnd()
      modifies this`mem
      ensures Valid() && |mem| == |old(mem)| && mem[a] == v
      ensures forall b :: 0 <= b < |mem| && b != a ==> mem[b] == old(mem)[b]
    {
      hide Indexed;
      ghost var m := mem;
      TilesApart(blocks);
      mem := mem[a := v];
      StoreSparesHeap(m, mem, index.Contents(), blocks, k, a);
      WordKept(m, mem, startAddress - FOOTER_SIZE);
    }

    /**
     * `kheap_validate_print`: walks the headers from start to end. Its assertions, proved here, are that every header
     * carries the magic number, every hole is in the index, no block passes the end, and the index has no other entry.
     */
    method ValidatePrint() returns (allocNum: nat)
      requires Valid()
      ensures allocNum == |Live(blocks)|
    {
      hide Indexed, HeapOk, WellFormed;
      ghost var idx, bs := index.Contents(), blocks;
      HeapParts(mem, idx, bs, startAddress, endAddress, maxAddress);
      var start := startAddress;
      var holeNum := 0;
      allocNum := 0;
      ghost var i := 0;
      while start < endAddress
        invariant 0 <= i <= |bs| && start == if i < |bs| then bs[i].start else endAddress
        invariant holeNum == |Holes(bs[..i])| && allocNum == |Live(bs[..i])|
        decreases |bs| - i
      {
        NextHeader(bs, i);
        IndexedBlock(mem, idx, bs, i);
        CountOne(bs, i);
        assert Word(mem, start) == KHEAP_MAGIC;
        if mem[start + HOLE_OFFSET] != NOT_HOLE {
          HoleIndexed(mem, idx, bs, i);
          var found := index.FindElement(start);
          assert found < index.size;
          holeNum := holeNum + 1;
        } else {
          allocNum := allocNum + 1;
        }
        start := start + HeaderSize(mem, start) + BLOCK_META_SIZE;
        assert start <= endAddress;
        i := i + 1;
      }
      assert i == |bs| by {
        if i < |bs| {
          NextHeader(bs, i);
        }
      }
      assert bs[..i] == bs;
      IndexCount(mem, idx, bs);
      assert holeNum == index.size;
    }
  }
}

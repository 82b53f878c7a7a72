/** The pool that hands out process and thread ids (src/utils/id_pool.c). */
module IdPools {
  import opened Machine
  import opened Bitmaps

  // What `id_pool_allocate_id` returns through its 8-bit bool.
  const NO_ID: byte := 0
  const GOT_ID: byte := 1
  const EXHAUSTED: byte := 255

  /** A pool as a value: the ids in use, and the sizes. */
  datatype Pool = Pool(used: set<nat>, size: nat, expandSize: nat, maxSize: nat) {
    /** Only whole words of the bitmap hold ids. */
    function Capacity(): nat {
      size - size % 32
    }

    function Expanded(): Pool {
      this.(size := if size + expandSize < maxSize then size + expandSize else maxSize)
    }

    ghost predicate Ok() {
      size <= maxSize && forall i :: i in used ==> i < Capacity()
    }
  }

  /** What one allocation may do: the pool after it, the returned byte, and the id if one was handed out. */
  ghost predicate AllocateStep(p: Pool, p': Pool, code: byte, id: nat) {
    if !IsFull(p.used, p.Capacity()) then
      code == GOT_ID && IsFirstFree(p.used, p.Capacity(), id) && p' == p.(used := p.used + {id})
    else if p.size == p.maxSize then
      code == EXHAUSTED && p' == p
    else if p.Expanded().size == p.size then
      code == NO_ID && p' == p
    else
      var q := p.Expanded();
      if !IsFull(p.used, q.Capacity()) then
        code == GOT_ID && IsFirstFree(p.used, q.Capacity(), id) && p' == q.(used := p.used + {id})
      else
        code == NO_ID && p' == q
  }

  class IdPool {
    var size: nat
    var maxSize: nat
    var expandSize: nat
    const idMap: Bitmap

    ghost predicate Valid()
      reads this, idMap, idMap.words
    {
      idMap.Valid() && idMap.totalBits == size && size <= maxSize
    }

    ghost function Model(): Pool
      reads this, idMap, idMap.words
    {
      Pool(idMap.Bits(), size, expandSize, maxSize)
    }

    constructor (initial: nat, max: nat)
      requires initial <= max
      ensures Valid() && fresh(idMap) && fresh(idMap.words)
      ensures Model() == Pool({}, initial, initial, max)
    {
      size := initial;
      expandSize := initial;
      maxSize := max;
      idMap := new Bitmap(initial);
    }

    /** `expand`; the missing return after a successful expansion is read as true. */
    method Expand() returns (ok: bool)
      requires Valid()
      modifies this`size, idMap
      ensures Valid() && ok == (old(Model()).Expanded().size != old(size))
      ensures Model() == if ok then old(Model()).Expanded() else old(Model())
      ensures size == old(if size + expandSize < maxSize then size + expandSize else maxSize)
      ensures idMap.words == old(idMap.words) || fresh(idMap.words)
    {
      var newSize := if size + expandSize < maxSize then size + expandSize else maxSize;
      if newSize == size {
        return false;
      }
      idMap.Expand(newSize);
      size := newSize;
      return true;
    }

    method AllocateId() returns (code: byte, id: nat)
      requires Valid()
      modifies this`size, idMap, idMap.words
      ensures Valid() && AllocateStep(old(Model()), Model(), code, id)
      ensures idMap.words == old(idMap.words) || fresh(idMap.words)
    {
      var success;
      success, id := idMap.AllocateFirstFree();
      if !success {
        if size == maxSize {
          return EXHAUSTED, id;
        }
        var expanded := Expand();
        if !expanded {
          return NO_ID, id;
        }
        success, id := idMap.AllocateFirstFree();
        return if success then GOT_ID else NO_ID, id;
      }
      return GOT_ID, id;
    }

    method FreeId(id: nat)
      requires Valid() && id < idMap.Capacity()
      modifies idMap.words
      ensures Valid() && Model() == old(Model()).(used := old(Model()).used - {id})
    {
      idMap.ClearBit(id);
    }
  }

  // ---- Runs ----

  datatype PoolOp = Allocated(code: byte, id: nat) | Freed(id: nat)

  ghost predicate PoolStep(p: Pool, op: PoolOp, p': Pool) {
    match op
    case Allocated(code, id) => AllocateStep(p, p', code, id)
    case Freed(id) => id in p.used && p' == p.(used := p.used - {id})
  }

  ghost predicate PoolRun(states: seq<Pool>, ops: seq<PoolOp>) {
    && |states| == |ops| + 1
    && forall i :: 0 <= i < |ops| ==> PoolStep(states[i], ops[i], states[i + 1])
  }

  /** The ids handed out and not returned, with how often each is held. */
  ghost function Held(ops: seq<PoolOp>): multiset<nat> {
    if ops == [] then multiset{} else
    var before := Held(ops[..|ops| - 1]);
    match ops[|ops| - 1]
    case Allocated(code, id) => if code == GOT_ID then before + multiset{id} else before
    case Freed(id) => before - multiset{id}
  }

  lemma AllocateKeeps(p: Pool, p': Pool, code: byte, id: nat)
    requires p.Ok() && AllocateStep(p, p', code, id)
    ensures p'.Ok() && p'.maxSize == p.maxSize && p.size <= p'.size
    ensures code == GOT_ID ==> id !in p.used && p'.used == p.used + {id} && id < p.maxSize
    ensures code == GOT_ID ==> forall i: nat :: i < id ==> i in p.used
    ensures code != GOT_ID ==> p'.used == p.used
  {
    assert p.Capacity() <= p.Expanded().Capacity();
  }

  /**
   * When an id is handed out: exactly if one is free below the whole words of the bitmap, or would be after one expansion
   * by the step, up to the maximum.
   */
  lemma AllocatesExactly(p: Pool, p': Pool, code: byte, id: nat)
    requires p.Ok() && AllocateStep(p, p', code, id)
    ensures code == GOT_ID <==>
              || (exists i: nat :: i < p.size / 32 * 32 && i !in p.used)
              || (if p.size + p.expandSize < p.maxSize then p.size + p.expandSize else p.maxSize) / 32 > p.size / 32
  {
    assert p.Capacity() == p.size / 32 * 32;
    var q := p.Expanded();
    assert q.Capacity() == q.size / 32 * 32;
    if IsFull(p.used, p.Capacity()) && q.Capacity() > p.Capacity() {
      assert p.Capacity() !in p.used;
    }
  }

  /** Over every run and every expansion, each id out is out once, and the ids out are those the bitmap marks. */
  lemma {:induction false} HeldOnce(states: seq<Pool>, ops: seq<PoolOp>)
    requires PoolRun(states, ops) && states[0].Ok() && states[0].used == {}
    ensures states[|ops|].Ok()
    ensures forall id: nat :: Held(ops)[id] == if id in states[|ops|].used then 1 else 0
  {
    if ops != [] {
      var m := |ops| - 1;
      HeldOnce(states[..|ops|], ops[..m]);
      var p, p', op := states[m], states[m + 1], ops[m];
      if op.Allocated? {
        AllocateKeeps(p, p', op.code, op.id);
      }
    }
  }

  /** The returned byte is non-zero without an id exactly when the pool is full at its maximum size. */
  lemma TruthyWithoutId(p: Pool, p': Pool, code: byte, id: nat)
    requires p.Ok() && AllocateStep(p, p', code, id)
    ensures code != NO_ID && p'.used == p.used <==> IsFull(p.used, p.Capacity()) && p.size == p.maxSize
  {
    AllocateKeeps(p, p', code, id);
  }
}

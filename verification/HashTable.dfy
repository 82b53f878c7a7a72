/** The hash table of src/utils/hash_table.c: uint32 keys, chained buckets of list nodes, and its iterator. */
module HashTables {
  import opened LinkedLists

  /** A `void*`; the null pointer is also what a lookup returns for a missing key. */
  type Ptr = nat

  const NULL: Ptr := 0
  const INITIAL_BUCKETS_NUM := 16

  class KV {
    const key: nat
    var vPtr: Ptr

    constructor (key: nat, vPtr: Ptr)
      ensures this.key == key && this.vPtr == vPtr
    {
      this.key := key;
      this.vPtr := vPtr;
    }
  }

  type Cell = Node<KV>
  type Bucket = LinkedList<KV>

  ghost predicate DistinctKeys(nodes: seq<Cell>) {
    forall i, j :: 0 <= i < j < |nodes| ==> nodes[i].ptr.key != nodes[j].ptr.key
  }

  /** Some node of the chain has this key. */
  ghost predicate HasKey(nodes: seq<Cell>, key: nat) {
    exists j :: 0 <= j < |nodes| && nodes[j].ptr.key == key
  }

  /** The node carries one of the keys, and bucket `b` of `n` is where that key belongs. */
  ghost predicate Belongs(node: Cell, b: nat, n: nat, keys: set<nat>)
    requires n > 0
  {
    node.ptr.key % n == b && node.ptr.key in keys
  }

  /** Bucket `b` of `n` holds exactly those of the keys that hash to it, each once. */
  ghost predicate Holds(nodes: seq<Cell>, b: nat, n: nat, keys: set<nat>)
    requires n > 0
  {
    && DistinctKeys(nodes)
    && (forall j :: 0 <= j < |nodes| ==> Belongs(nodes[j], b, n, keys))
    && (forall k :: k in keys && k % n == b ==> HasKey(nodes, k))
  }

  /** Every bucket holds its share of the keys. */
  ghost predicate AllHold(chains: seq<seq<Cell>>, keys: set<nat>) {
    forall b :: 0 <= b < |chains| ==> Holds(chains[b], b, |chains|, keys)
  }

  // ---- A family of lists and their chains ----

  /** The lists are distinct, no node is in two chains, and `repr` has the lists, the nodes and what these point at. */
  ghost predicate Family(repr: set<object>, ls: seq<Bucket>, chains: seq<seq<Cell>>) {
    && |ls| == |chains|
    && (forall a, b :: 0 <= a < b < |ls| ==> ls[a] != ls[b])
    && (forall a, i, b, j :: 0 <= a < b < |chains| && 0 <= i < |chains[a]| && 0 <= j < |chains[b]| ==>
          chains[a][i] != chains[b][j])
    && (forall b :: 0 <= b < |ls| ==> ls[b] in repr)
    && (forall b, j :: 0 <= b < |chains| && 0 <= j < |chains[b]| ==> chains[b][j] in repr && chains[b][j].ptr in repr)
  }

  /** Each list is well linked along its chain. */
  ghost predicate Lists(repr: set<object>, ls: seq<Bucket>, chains: seq<seq<Cell>>)
    requires Family(repr, ls, chains)
    reads repr
  {
    forall b :: 0 <= b < |ls| ==> ls[b].nodes == chains[b] && ls[b].Valid()
  }

  /** Every pair reached through the chains is a binding of `m`. */
  ghost predicate Stored(repr: set<object>, ls: seq<Bucket>, chains: seq<seq<Cell>>, m: map<nat, Ptr>)
    requires Family(repr, ls, chains)
    reads repr
  {
    forall b, j :: 0 <= b < |chains| && 0 <= j < |chains[b]| ==>
      chains[b][j].ptr.key in m && m[chains[b][j].ptr.key] == chains[b][j].ptr.vPtr
  }

  /** A chain is replaced by nodes that no other chain has. */
  lemma FamilySet(repr: set<object>, ls: seq<Bucket>, chains: seq<seq<Cell>>, b: nat, nodes: seq<Cell>)
    requires Family(repr, ls, chains) && b < |ls|
    requires forall j :: 0 <= j < |nodes| ==> nodes[j] in repr && nodes[j].ptr in repr
    requires forall a, i, j :: 0 <= a < |chains| && a != b && 0 <= i < |chains[a]| && 0 <= j < |nodes| ==>
               chains[a][i] != nodes[j]
    ensures Family(repr, ls, chains[b := nodes])
  {
  }

  lemma StoredAdd(repr: set<object>, ls: seq<Bucket>, chains: seq<seq<Cell>>, m: map<nat, Ptr>, b: nat, node: Cell)
    requires Family(repr, ls, chains) && Stored(repr, ls, chains, m) && b < |ls| && node.ptr.key !in m
    requires Family(repr + {node, node.ptr}, ls, chains[b := chains[b] + [node]])
    ensures Stored(repr + {node, node.ptr}, ls, chains[b := chains[b] + [node]], m[node.ptr.key := node.ptr.vPtr])
  {
  }

  lemma StoredRemove(repr: set<object>, ls: seq<Bucket>, chains: seq<seq<Cell>>, m: map<nat, Ptr>, key: nat)
    requires Family(repr, ls, chains) && Stored(repr, ls, chains, m)
    requires forall a, i :: 0 <= a < |chains| && 0 <= i < |chains[a]| ==> chains[a][i].ptr.key != key
    ensures Stored(repr, ls, chains, m - {key})
  {
  }

  lemma ValueAt(repr: set<object>, ls: seq<Bucket>, chains: seq<seq<Cell>>, m: map<nat, Ptr>, b: nat, at: nat)
    requires Family(repr, ls, chains) && Stored(repr, ls, chains, m) && b < |chains| && at < |chains[b]|
    ensures chains[b][at].ptr.key in m && m[chains[b][at].ptr.key] == chains[b][at].ptr.vPtr
  {
  }

  /** What a change of list `b` touches is in `repr`. */
  lemma Within(repr: set<object>, ls: seq<Bucket>, chains: seq<seq<Cell>>, b: nat)
    requires Family(repr, ls, chains) && b < |ls|
    ensures |ls| == |chains| && ls[b] in repr && forall n: Cell :: n in chains[b] ==> n in repr && n.ptr in repr
  {
  }

  /** What lies outside list `b`. */
  lemma Elsewhere(repr: set<object>, ls: seq<Bucket>, chains: seq<seq<Cell>>, b: nat)
    requires Family(repr, ls, chains) && b < |ls|
    ensures forall a :: 0 <= a < |ls| && a != b ==> ls[a] != ls[b]
    ensures forall a, i :: 0 <= a < |chains| && a != b && 0 <= i < |chains[a]| ==> chains[a][i] !in chains[b]
  {
  }

  /** `linked_list_append_ele` on one list of a family. */
  method AppendTo(ghost repr: set<object>, ghost ls: seq<Bucket>, ghost chains: seq<seq<Cell>>, ghost m: map<nat, Ptr>,
                  ghost b: nat, bucket: Bucket, kv: KV)
    returns (ghost node: Cell)
    requires Family(repr, ls, chains) && Lists(repr, ls, chains) && Stored(repr, ls, chains, m)
    requires b < |ls| && bucket == ls[b] && kv.key !in m
    modifies bucket, chains[b]
    ensures fresh(node) && node.ptr == kv
    ensures
      var repr', chains' := repr + {node, kv}, chains[b := chains[b] + [node]];
      Family(repr', ls, chains') && Lists(repr', ls, chains') && Stored(repr', ls, chains', m[kv.key := kv.vPtr])
  {
    bucket.AppendEle(kv);
    node := bucket.nodes[|bucket.nodes| - 1];
    hide Chain;
    StoredAdd(repr, ls, chains, m, b, node);
  }

  /** The value of the one pair with this key is overwritten; what it was before is returned. */
  method Overwrite(ghost repr: set<object>, ghost ls: seq<Bucket>, ghost chains: seq<seq<Cell>>, ghost m: map<nat, Ptr>,
                   ghost b: nat, ghost at: nat, node: Cell, vPtr: Ptr)
    returns (oldValue: Ptr)
    requires Family(repr, ls, chains) && Lists(repr, ls, chains) && Stored(repr, ls, chains, m)
    requires b < |chains| && at < |chains[b]| && node == chains[b][at]
    requires forall a, i :: 0 <= a < |chains| && 0 <= i < |chains[a]| && chains[a][i].ptr.key == node.ptr.key ==>
               a == b && i == at
    modifies node.ptr
    ensures node.ptr.key in m && oldValue == m[node.ptr.key]
    ensures Lists(repr, ls, chains) && Stored(repr, ls, chains, m[node.ptr.key := vPtr])
  {
    oldValue := node.ptr.vPtr;
    node.ptr.vPtr := vPtr;
  }

  /** `linked_list_remove` on one list of a family. */
  method RemoveFrom(ghost repr: set<object>, ghost ls: seq<Bucket>, ghost chains: seq<seq<Cell>>,
                    ghost m: map<nat, Ptr>, ghost b: nat, bucket: Bucket, node: Cell, ghost at: nat)
    requires Family(repr, ls, chains) && Lists(repr, ls, chains) && Stored(repr, ls, chains, m)
    requires b < |ls| && bucket == ls[b] && at < |chains[b]| && node == chains[b][at]
    modifies bucket, chains[b]
    ensures
      var chains' := chains[b := chains[b][..at] + chains[b][at + 1..]];
      Family(repr, ls, chains') && Lists(repr, ls, chains') && Stored(repr, ls, chains', m)
  {
    Elsewhere(repr, ls, chains, b);
    FamilySet(repr, ls, chains, b, chains[b][..at] + chains[b][at + 1..]);
    hide Family;
    bucket.Remove(node, at);
  }

  /** `linked_list_append` on one list of a family, of a node in none of them. */
  method Relink(ghost repr: set<object>, ghost ls: seq<Bucket>, ghost chains: seq<seq<Cell>>, ghost m: map<nat, Ptr>,
                ghost b: nat, bucket: Bucket, node: Cell)
    requires Family(repr, ls, chains) && Lists(repr, ls, chains) && Stored(repr, ls, chains, m)
    requires b < |ls| && bucket == ls[b] && node in repr && node.ptr in repr
    requires node.ptr.key in m && m[node.ptr.key] == node.ptr.vPtr
    requires forall a, i :: 0 <= a < |chains| && 0 <= i < |chains[a]| ==> chains[a][i] != node
    modifies bucket, chains[b], node
    ensures
      var chains' := chains[b := chains[b] + [node]];
      Family(repr, ls, chains') && Lists(repr, ls, chains') && Stored(repr, ls, chains', m)
  {
    Elsewhere(repr, ls, chains, b);
    FamilySet(repr, ls, chains, b, chains[b] + [node]);
    hide Family;
    bucket.Append(node);
  }

  method NextOf(ghost repr: set<object>, ghost ls: seq<Bucket>, ghost chains: seq<seq<Cell>>, ghost b: nat,
                ghost at: nat, node: Cell)
    returns (next: Node?<KV>)
    requires Family(repr, ls, chains) && Lists(repr, ls, chains)
    requires b < |ls| == |chains| && at < |chains[b]| && node == chains[b][at]
    ensures next == At(chains[b], at + 1)
  {
    return node.next;
  }

  /** The head of a chain is in no other place. */
  lemma HeadApart(repr: set<object>, ls: seq<Bucket>, chains: seq<seq<Cell>>, p: nat)
    requires Family(repr, ls, chains) && Lists(repr, ls, chains) && p < |ls| == |chains| && chains[p] != []
    ensures
      var removed := chains[p := chains[p][1..]];
      forall a, i :: 0 <= a < |removed| && 0 <= i < |removed[a]| ==> removed[a][i] != chains[p][0]
  {
  }

  /** One turn of the rehash loop: the head of one list goes to the end of another; what followed it is returned. */
  method MoveHead(ghost repr: set<object>, ghost ls: seq<Bucket>, ghost chains: seq<seq<Cell>>, ghost m: map<nat, Ptr>,
                  ghost p: nat, ghost q: nat, src: Bucket, dst: Bucket, node: Cell)
    returns (rest: Node?<KV>)
    requires Family(repr, ls, chains) && Lists(repr, ls, chains) && Stored(repr, ls, chains, m)
    requires p < |ls| && q < |ls| && p != q && src == ls[p] && dst == ls[q]
    requires chains[p] != [] && node == chains[p][0]
    modifies src, dst, chains[p], chains[q]
    ensures rest == At(chains[p], 1)
    ensures
      var chains' := chains[p := chains[p][1..]][q := chains[q] + [node]];
      Family(repr, ls, chains') && Lists(repr, ls, chains') && Stored(repr, ls, chains', m)
  {
    hide Family, Lists, Stored;
    Within(repr, ls, chains, p);
    HeadApart(repr, ls, chains, p);
    ValueAt(repr, ls, chains, m, p, 0);
    rest := NextOf(repr, ls, chains, p, 0, node);
    ghost var removed := chains[p := chains[p][1..]];
    assert chains[p][..0] + chains[p][1..] == chains[p][1..];
    RemoveFrom(repr, ls, chains, m, p, src, node, 0);
    Relink(repr, ls, removed, m, q, dst, node);
  }

  // ---- What the buckets hold ----

  lemma HoldsAdd(nodes: seq<Cell>, b: nat, n: nat, keys: set<nat>, node: Cell)
    requires n > 0 && Holds(nodes, b, n, keys) && node.ptr.key !in keys && node.ptr.key % n == b
    ensures Holds(nodes + [node], b, n, keys + {node.ptr.key})
  {
    var nodes' := nodes + [node];
    assert forall j :: 0 <= j < |nodes| ==> Belongs(nodes[j], b, n, keys);
    forall k | k in keys + {node.ptr.key} && k % n == b
      ensures HasKey(nodes', k)
    {
      if k == node.ptr.key {
        assert nodes'[|nodes|].ptr.key == k;
      } else {
        assert HasKey(nodes, k);
        var j :| 0 <= j < |nodes| && nodes[j].ptr.key == k;
        assert nodes'[j].ptr.key == k;
      }
    }
  }

  lemma HoldsRemove(nodes: seq<Cell>, b: nat, n: nat, keys: set<nat>, at: nat)
    requires n > 0 && Holds(nodes, b, n, keys) && at < |nodes|
    ensures Holds(nodes[..at] + nodes[at + 1..], b, n, keys - {nodes[at].ptr.key})
  {
    var nodes' := nodes[..at] + nodes[at + 1..];
    forall j | 0 <= j < |nodes'|
      ensures Belongs(nodes'[j], b, n, keys - {nodes[at].ptr.key})
    {
      assert Belongs(nodes[if j < at then j else j + 1], b, n, keys);
    }
    forall k | k in keys - {nodes[at].ptr.key} && k % n == b
      ensures HasKey(nodes', k)
    {
      assert HasKey(nodes, k);
      var j :| 0 <= j < |nodes| && nodes[j].ptr.key == k;
      assert nodes'[if j < at then j else j - 1].ptr.key == k;
    }
  }

  /** A bucket is blind to a key that hashes elsewhere. */
  lemma HoldsElsewhere(nodes: seq<Cell>, b: nat, n: nat, keys: set<nat>, key: nat)
    requires n > 0 && Holds(nodes, b, n, keys) && key % n != b
    ensures Holds(nodes, b, n, keys + {key}) && Holds(nodes, b, n, keys - {key})
  {
    assert forall j :: 0 <= j < |nodes| ==> Belongs(nodes[j], b, n, keys);
  }

  lemma AllHoldAdd(chains: seq<seq<Cell>>, b: nat, keys: set<nat>, node: Cell)
    requires b < |chains| && AllHold(chains, keys) && node.ptr.key !in keys && node.ptr.key % |chains| == b
    ensures AllHold(chains[b := chains[b] + [node]], keys + {node.ptr.key})
  {
    hide Holds;
    var chains' := chains[b := chains[b] + [node]];
    forall x | 0 <= x < |chains|
      ensures Holds(chains'[x], x, |chains|, keys + {node.ptr.key})
    {
      if x == b {
        HoldsAdd(chains[x], x, |chains|, keys, node);
      } else {
        HoldsElsewhere(chains[x], x, |chains|, keys, node.ptr.key);
      }
    }
  }

  lemma HoldsBelongs(nodes: seq<Cell>, b: nat, n: nat, keys: set<nat>, j: nat)
    requires n > 0 && Holds(nodes, b, n, keys) && j < |nodes|
    ensures Belongs(nodes[j], b, n, keys)
  {
  }

  lemma AllHoldRemove(chains: seq<seq<Cell>>, b: nat, keys: set<nat>, at: nat)
    requires b < |chains| && at < |chains[b]| && AllHold(chains, keys)
    ensures
      var key, chains' := chains[b][at].ptr.key, chains[b := chains[b][..at] + chains[b][at + 1..]];
      && AllHold(chains', keys - {key})
      && forall a, i :: 0 <= a < |chains'| && 0 <= i < |chains'[a]| ==> chains'[a][i].ptr.key != key
  {
    var key := chains[b][at].ptr.key;
    assert Belongs(chains[b][at], b, |chains|, keys);
    hide Holds;
    var chains' := chains[b := chains[b][..at] + chains[b][at + 1..]];
    forall x | 0 <= x < |chains|
      ensures Holds(chains'[x], x, |chains|, keys - {key})
    {
      if x == b {
        HoldsRemove(chains[x], x, |chains|, keys, at);
      } else {
        HoldsElsewhere(chains[x], x, |chains|, keys, key);
      }
    }
    forall a, i | 0 <= a < |chains'| && 0 <= i < |chains'[a]|
      ensures chains'[a][i].ptr.key != key
    {
      HoldsBelongs(chains'[a], a, |chains|, keys - {key}, i);
    }
  }

  /** What a search of the bucket a key hashes to says about the whole table. */
  lemma Located(chains: seq<seq<Cell>>, keys: set<nat>, key: nat, at: nat)
    requires chains != [] && AllHold(chains, keys)
    requires at <= |chains[key % |chains|]|
    requires if at == |chains[key % |chains|]| then !HasKey(chains[key % |chains|], key)
             else chains[key % |chains|][at].ptr.key == key
    ensures at < |chains[key % |chains|]| <==> key in keys
    ensures forall a, i :: 0 <= a < |chains| && 0 <= i < |chains[a]| && chains[a][i].ptr.key == key ==>
              a == key % |chains| && i == at
  {
    var b := key % |chains|;
    assert Holds(chains[b], b, |chains|, keys);
    forall a, i | 0 <= a < |chains| && 0 <= i < |chains[a]| && chains[a][i].ptr.key == key
      ensures a == b && i == at
    {
      assert Belongs(chains[a][i], a, |chains|, keys);
    }
    if at < |chains[b]| {
      assert Belongs(chains[b][at], b, |chains|, keys);
    }
  }

  // ---- All buckets together ----

  /** All nodes, bucket after bucket. */
  ghost function Flat(chains: seq<seq<Cell>>): seq<Cell> {
    if chains == [] then [] else Flat(chains[..|chains| - 1]) + chains[|chains| - 1]
  }

  /** The nodes of a chain that belong in bucket `b` of `n`, in order. */
  ghost function Only(flat: seq<Cell>, b: nat, n: nat): (r: seq<Cell>)
    requires n > 0
    ensures forall j :: 0 <= j < |r| ==> r[j] in flat && r[j].ptr.key % n == b
    ensures forall j :: 0 <= j < |flat| && flat[j].ptr.key % n == b ==> flat[j] in r
  {
    if flat == [] then []
    else
      var c := flat[|flat| - 1];
      assert flat == flat[..|flat| - 1] + [c];
      Only(flat[..|flat| - 1], b, n) + if c.ptr.key % n == b then [c] else []
  }

  /** The chain holds exactly these keys, each once. */
  ghost predicate Covers(flat: seq<Cell>, keys: set<nat>)
  {
    Holds(flat, 0, 1, keys)
  }

  lemma OnlyGrow(flat: seq<Cell>, c: Cell, b: nat, n: nat)
    requires n > 0
    ensures Only(flat + [c], b, n) == Only(flat, b, n) + if c.ptr.key % n == b then [c] else []
  {
    assert (flat + [c])[..|flat|] == flat;
  }

  lemma {:induction false} OnlyDistinct(flat: seq<Cell>, b: nat, n: nat)
    requires n > 0 && DistinctKeys(flat)
    ensures DistinctKeys(Only(flat, b, n))
    decreases |flat|
  {
    if flat != [] {
      var front, c := flat[..|flat| - 1], flat[|flat| - 1];
      OnlyDistinct(front, b, n);
      assert flat == front + [c];
      OnlyGrow(front, c, b, n);
      forall j | 0 <= j < |Only(front, b, n)|
        ensures Only(front, b, n)[j].ptr.key != c.ptr.key
      {
        assert Only(front, b, n)[j] in front;
      }
    }
  }

  lemma OnlyHolds(flat: seq<Cell>, b: nat, n: nat, keys: set<nat>)
    requires n > 0 && Covers(flat, keys)
    ensures Holds(Only(flat, b, n), b, n, keys)
  {
    var r := Only(flat, b, n);
    OnlyDistinct(flat, b, n);
    forall j | 0 <= j < |r|
      ensures Belongs(r[j], b, n, keys)
    {
      assert r[j] in flat;
      var i :| 0 <= i < |flat| && flat[i] == r[j];
      assert Belongs(flat[i], 0, 1, keys);
    }
    forall k | k in keys && k % n == b
      ensures HasKey(r, k)
    {
      assert k % 1 == 0 && HasKey(flat, k);
      var i :| 0 <= i < |flat| && flat[i].ptr.key == k;
      assert flat[i] in r;
    }
  }

  lemma {:induction false} FlatIn(chains: seq<seq<Cell>>, c: Cell)
    ensures c in Flat(chains) <==> exists b :: 0 <= b < |chains| && c in chains[b]
    decreases |chains|
  {
    if chains != [] {
      FlatIn(chains[..|chains| - 1], c);
    }
  }

  lemma {:induction false} FlatDistinct(chains: seq<seq<Cell>>, n: nat, keys: set<nat>)
    requires |chains| <= n && n > 0 && forall b :: 0 <= b < |chains| ==> Holds(chains[b], b, n, keys)
    ensures DistinctKeys(Flat(chains))
    ensures forall j :: 0 <= j < |Flat(chains)| ==> Belongs(Flat(chains)[j], 0, 1, keys) && Flat(chains)[j].ptr.key % n < |chains|
    decreases |chains|
  {
    if chains != [] {
      var front, last := chains[..|chains| - 1], chains[|chains| - 1];
      FlatDistinct(front, n, keys);
      forall j | 0 <= j < |last|
        ensures Belongs(last[j], |chains| - 1, n, keys)
      {
      }
    }
  }

  /** Buckets that each hold their share hold all keys together, and their number is the number of nodes. */
  lemma FlatCovers(chains: seq<seq<Cell>>, keys: set<nat>)
    requires |chains| > 0 && AllHold(chains, keys)
    ensures Covers(Flat(chains), keys) && |Flat(chains)| == |keys|
  {
    var flat := Flat(chains);
    FlatDistinct(chains, |chains|, keys);
    forall k | k in keys && k % 1 == 0
      ensures HasKey(flat, k)
    {
      var b := k % |chains|;
      assert Holds(chains[b], b, |chains|, keys) && HasKey(chains[b], k);
      var j :| 0 <= j < |chains[b]| && chains[b][j].ptr.key == k;
      FlatIn(chains, chains[b][j]);
      assert chains[b][j] in flat;
    }
    CoversCount(flat, keys);
  }

  lemma {:induction false} CoversCount(flat: seq<Cell>, keys: set<nat>)
    requires Covers(flat, keys)
    ensures |flat| == |keys|
    decreases |flat|
  {
    if flat == [] {
      assert forall k: nat :: k % 1 == 0;
      assert keys == {};
    } else {
      var at := |flat| - 1;
      var key := flat[at].ptr.key;
      assert Belongs(flat[at], 0, 1, keys);
      HoldsRemove(flat, 0, 1, keys, at);
      assert flat[..at] + flat[at + 1..] == flat[..at];
      CoversCount(flat[..at], keys - {key});
    }
  }
  // ---- Rehashing ----

  /** The nodes moved so far: all of the buckets before `i`, and `j` of bucket `i`. */
  ghost function Moved(was: seq<seq<Cell>>, i: nat, j: nat): seq<Cell>
    requires (i < |was| && j <= |was[i]|) || (i == |was| && j == 0)
  {
    Flat(was[..i]) + if i < |was| then was[i][..j] else []
  }

  /** The old chains followed by the `n` new ones when bucket `i` has lost `j` nodes. */
  ghost predicate Stage(all: seq<seq<Cell>>, was: seq<seq<Cell>>, n: nat, i: nat, j: nat)
    requires n > 0 && ((i < |was| && j <= |was[i]|) || (i == |was| && j == 0))
  {
    && |all| == |was| + n
    && (forall x :: 0 <= x < |was| ==> all[x] == if x < i then [] else if x == i then was[x][j..] else was[x])
    && (forall x :: 0 <= x < n ==> all[|was| + x] == Only(Moved(was, i, j), x, n))
  }

  lemma StageStart(was: seq<seq<Cell>>, n: nat)
    requires n > 0
    ensures Stage(was + NoNodes(n), was, n, 0, 0)
  {
    assert Moved(was, 0, 0) == [];
  }

  lemma StageAt(all: seq<seq<Cell>>, was: seq<seq<Cell>>, n: nat, i: nat, j: nat)
    requires n > 0 && i < |was| && j <= |was[i]| && Stage(all, was, n, i, j)
    ensures |all| == |was| + n && all[i] == was[i][j..]
    ensures At(all[i], 0) == At(was[i], j) && At(all[i], 1) == At(was[i], j + 1)
  {
  }

  lemma StageStep(all: seq<seq<Cell>>, was: seq<seq<Cell>>, n: nat, i: nat, j: nat)
    requires n > 0 && i < |was| && j < |was[i]| && Stage(all, was, n, i, j)
    ensures
      var node := was[i][j];
      var q := |was| + node.ptr.key % n;
      |all| == |was| + n && all[i] != [] && Stage(all[i := all[i][1..]][q := all[q] + [node]], was, n, i, j + 1)
  {
    var node := was[i][j];
    assert Moved(was, i, j + 1) == Moved(was, i, j) + [node] by {
      assert was[i][..j + 1] == was[i][..j] + [node];
    }
    var moved := Moved(was, i, j);
    hide Moved;
    forall x | 0 <= x < n
      ensures Only(moved + [node], x, n) == Only(moved, x, n) + if node.ptr.key % n == x then [node] else []
    {
      OnlyGrow(moved, node, x, n);
    }
  }

  lemma StageNext(all: seq<seq<Cell>>, was: seq<seq<Cell>>, n: nat, i: nat)
    requires n > 0 && i < |was| && Stage(all, was, n, i, |was[i]|)
    ensures Stage(all, was, n, i + 1, 0)
  {
    assert Moved(was, i + 1, 0) == Moved(was, i, |was[i]|) by {
      assert was[..i + 1][..i] == was[..i] && was[..i + 1][i] == was[i];
      assert was[i][..|was[i]|] == was[i];
      if i + 1 < |was| {
        assert was[i + 1][..0] == [];
      }
    }
  }

  /** When all nodes have moved, the new chains hold the keys between them. */
  lemma StageEnd(all: seq<seq<Cell>>, was: seq<seq<Cell>>, n: nat, keys: set<nat>)
    requires n > 0 && was != [] && AllHold(was, keys) && Stage(all, was, n, |was|, 0)
    ensures |all| == |was| + n && AllHold(all[|was|..], keys)
    ensures forall b :: 0 <= b < n ==> all[|was|..][b] == Only(Flat(was), b, n)
  {
    assert was[..|was|] == was;
    assert Moved(was, |was|, 0) == Flat(was);
    FlatCovers(was, keys);
    forall b | 0 <= b < n
      ensures Holds(all[|was|..][b], b, n, keys)
    {
      OnlyHolds(Flat(was), b, n, keys);
    }
  }

  lemma Sizes(repr: set<object>, ls: seq<Bucket>, chains: seq<seq<Cell>>)
    requires Family(repr, ls, chains)
    ensures |ls| == |chains|
  {
  }

  lemma HeadOf(repr: set<object>, ls: seq<Bucket>, chains: seq<seq<Cell>>, b: nat)
    requires Family(repr, ls, chains) && Lists(repr, ls, chains) && b < |ls|
    ensures |ls| == |chains| && ls[b].head == At(chains[b], 0)
  {
  }

  lemma TwoFamilies(repr: set<object>, ls: seq<Bucket>, chains: seq<seq<Cell>>, newRepr: set<object>,
                    newLs: seq<Bucket>, n: nat, m: map<nat, Ptr>)
    requires Family(repr, ls, chains) && Lists(repr, ls, chains) && Stored(repr, ls, chains, m)
    requires repr !! newRepr && Family(newRepr, newLs, NoNodes(n)) && Lists(newRepr, newLs, NoNodes(n))
    ensures Family(repr + newRepr, ls + newLs, chains + NoNodes(n))
    ensures Lists(repr + newRepr, ls + newLs, chains + NoNodes(n))
    ensures Stored(repr + newRepr, ls + newLs, chains + NoNodes(n), m)
  {
    var all, chains' := ls + newLs, chains + NoNodes(n);
    assert forall b :: 0 <= b < |ls| ==> all[b] == ls[b] && chains'[b] == chains[b];
    assert forall b :: |ls| <= b < |all| ==> all[b] == newLs[b - |ls|] && chains'[b] == [];
  }

  lemma SecondFamily(repr: set<object>, ls: seq<Bucket>, newLs: seq<Bucket>, all: seq<seq<Cell>>, m: map<nat, Ptr>)
    requires Family(repr, ls + newLs, all) && Lists(repr, ls + newLs, all) && Stored(repr, ls + newLs, all, m)
    ensures |all| == |ls| + |newLs|
    ensures Family(repr, newLs, all[|ls|..]) && Lists(repr, newLs, all[|ls|..]) && Stored(repr, newLs, all[|ls|..], m)
  {
    assert forall b :: 0 <= b < |newLs| ==> (ls + newLs)[|ls| + b] == newLs[b] && all[|ls|..][b] == all[|ls| + b];
  }

  lemma KeysAdd(m: map<nat, Ptr>, key: nat, vPtr: Ptr)
    requires key !in m
    ensures m[key := vPtr].Keys == m.Keys + {key} && |m[key := vPtr]| == |m| + 1
  {
  }

  lemma KeysKept(m: map<nat, Ptr>, key: nat, vPtr: Ptr)
    requires key in m
    ensures m[key := vPtr].Keys == m.Keys && |m[key := vPtr]| == |m|
  {
    assert m[key := vPtr].Keys == m.Keys;
  }

  lemma KeysRemove(m: map<nat, Ptr>, key: nat)
    requires key in m
    ensures (m - {key}).Keys == m.Keys - {key} && |m - {key}| == |m| - 1
  {
    assert (m - {key}).Keys == m.Keys - {key};
  }

  class HashTable {
    var buckets: seq<Bucket>
    var size: nat
    /** The nodes of each bucket. */
    ghost var chains: seq<seq<Cell>>
    /** The map the table stands for. */
    ghost var M: map<nat, Ptr>
    /** The lists of the table, their nodes and the pairs these point at. */
    ghost var Repr: set<object>

    /** The buckets hold the map between them, and `size` is its cardinality. */
    ghost predicate Filled()
      reads this, Repr
    {
      && this !in Repr && |buckets| >= INITIAL_BUCKETS_NUM
      && Family(Repr, buckets, chains) && Lists(Repr, buckets, chains)
      && AllHold(chains, M.Keys) && Stored(Repr, buckets, chains, M)
      && size == |M|
    }

    /** Moreover no more than three quarters as many bindings as buckets. */
    ghost predicate Valid()
      reads this, Repr
    {
      Filled() && size * 4 <= |buckets| * 3
    }

    constructor ()
      ensures Valid() && fresh(Repr) && M == map[] && |buckets| == INITIAL_BUCKETS_NUM
    {
      size := 0;
      M := map[];
      new;
      buckets, Repr := NewBuckets(INITIAL_BUCKETS_NUM);
      chains := NoNodes(INITIAL_BUCKETS_NUM);
    }

    method Lookup(ghost b: nat, bucket: Bucket, key: nat) returns (node: Node?<KV>, ghost at: nat)
      requires Filled() && b < |buckets| && bucket == buckets[b]
      ensures at <= |chains[b]| && node == At(chains[b], at)
      ensures if node == null then !HasKey(chains[b], key) else node.ptr.key == key
    {
      node := bucket.head;
      at := 0;
      while node != null
        invariant at <= |chains[b]| && node == At(chains[b], at)
        invariant forall j :: 0 <= j < at ==> chains[b][j].ptr.key != key
        decreases |chains[b]| - at
      {
        if node.ptr.key == key {
          return;
        }
        node := node.next;
        at := at + 1;
      }
    }

    method Get(key: nat) returns (value: Ptr)
      requires Valid()
      ensures value == if key in M then M[key] else NULL
    {
      var node, at := Lookup(key % |buckets|, buckets[key % |buckets|], key);
      Located(chains, M.Keys, key, at);
      return if node != null then node.ptr.vPtr else NULL;
    }

    method Contains(key: nat) returns (found: bool)
      requires Valid()
      ensures found <==> key in M
    {
      var node, at := Lookup(key % |buckets|, buckets[key % |buckets|], key);
      Located(chains, M.Keys, key, at);
      return node != null;
    }

    /** The branch of a put that appends a new pair to its bucket. */
    method AddPair(ghost b: nat, bucket: Bucket, key: nat, vPtr: Ptr)
      requires Filled() && key !in M && b == key % |buckets| && bucket == buckets[b]
      modifies this, Repr
      ensures Filled() && fresh(Repr - old(Repr))
      ensures M == old(M)[key := vPtr] && buckets == old(buckets) && size == old(size) + 1
    {
      hide Family, Lists, Stored, AllHold;
      Within(Repr, buckets, chains, b);
      var newKv := new KV(key, vPtr);
      ghost var added := AppendTo(Repr, buckets, chains, M, b, bucket, newKv);
      AllHoldAdd(chains, b, M.Keys, added);
      KeysAdd(M, key, vPtr);
      size, chains, M := size + 1, chains[b := chains[b] + [added]], M[key := vPtr];
      Repr := Repr + {added, newKv};
    }

    /** Binds `key`; the value it had before is returned. A new key may double the number of buckets. */
    method Put(key: nat, vPtr: Ptr) returns (oldValue: Ptr)
      requires Valid()
      modifies this, Repr
      ensures Valid() && fresh(Repr - old(Repr))
      ensures M == old(M)[key := vPtr]
      ensures oldValue == if key in old(M) then old(M)[key] else NULL
      ensures |buckets| == old(if key !in M && (size + 1) * 4 > |buckets| * 3 then |buckets| * 2 else |buckets|)
    {
      hide Family, Lists, Stored, AllHold, HasKey;
      ghost var b := key % |buckets|;
      var bucket := buckets[key % |buckets|];
      Within(Repr, buckets, chains, b);
      var node, at := Lookup(b, bucket, key);
      Located(chains, M.Keys, key, at);
      if node != null {
        oldValue := Overwrite(Repr, buckets, chains, M, b, at, node, vPtr);
        KeysKept(M, key, vPtr);
        M := M[key := vPtr];
        return;
      }
      AddPair(b, bucket, key, vPtr);
      if size * 4 > |buckets| * 3 {
        Expand();
      }
      return NULL;
    }

    /** The branch of a remove that unlinks the node it found. */
    method RemovePair(ghost b: nat, bucket: Bucket, node: Cell, ghost at: nat) returns (value: Ptr)
      requires Filled() && b < |buckets| == |chains| && at < |chains[b]| && bucket == buckets[b] && node == chains[b][at]
      modifies this, Repr
      ensures Filled() && Repr == old(Repr) && buckets == old(buckets) && size + 1 == old(size)
      ensures node.ptr.key in old(M) && M == old(M) - {node.ptr.key} && value == old(M)[node.ptr.key]
    {
      hide Family, Lists, Stored, AllHold;
      Within(Repr, buckets, chains, b);
      AllHoldRemove(chains, b, M.Keys, at);
      ValueAt(Repr, buckets, chains, M, b, at);
      RemoveFrom(Repr, buckets, chains, M, b, bucket, node, at);
      value := node.ptr.vPtr;
      size := size - 1;
      chains := chains[b := chains[b][..at] + chains[b][at + 1..]];
      StoredRemove(Repr, buckets, chains, M, node.ptr.key);
      KeysRemove(M, node.ptr.key);
      M := M - {node.ptr.key};
    }

    /** Unbinds `key`; the buckets never shrink. */
    method Remove(key: nat) returns (value: Ptr)
      requires Valid()
      modifies this, Repr
      ensures Valid() && Repr == old(Repr)
      ensures M == old(M) - {key} && buckets == old(buckets)
      ensures value == if key in old(M) then old(M)[key] else NULL
    {
      hide Family, Lists, Stored, AllHold, HasKey;
      ghost var b := key % |buckets|;
      var bucket := buckets[key % |buckets|];
      Within(Repr, buckets, chains, b);
      var node, at := Lookup(b, bucket, key);
      Located(chains, M.Keys, key, at);
      if node == null {
        assert M - {key} == M;
        return NULL;
      }
      value := RemovePair(b, bucket, node, at);
    }

    /** Unlinks every node; the buckets stay. */
    method Clear()
      requires Valid()
      modifies this, Repr
      ensures Valid() && Repr == old(Repr) && M == map[] && buckets == old(buckets)
    {
      hide Family, Lists, Stored;
      ghost var left := chains;
      Sizes(Repr, buckets, chains);
      for i := 0 to |buckets|
        invariant unchanged(this)
        invariant Family(Repr, buckets, left) && Lists(Repr, buckets, left) && Stored(Repr, buckets, left, M)
        invariant |left| == |buckets| && forall x :: 0 <= x < i ==> left[x] == []
      {
        left := ClearBucket(Repr, buckets, left, M, i, buckets[i]);
      }
      chains, M, size := left, map[], 0;
      Cleared(Repr, buckets, chains);
    }

    /** Doubles the buckets and relinks every node, keeping the order within each new bucket. */
    method Expand()
      requires Filled()
      modifies this, Repr
      ensures Filled() && fresh(Repr - old(Repr)) && M == old(M) && size == old(size)
      ensures |buckets| == 2 * |old(buckets)|
      ensures forall b :: 0 <= b < |buckets| ==> chains[b] == Only(Flat(old(chains)), b, |buckets|)
    {
      hide Family, Lists, Stored, AllHold, Stage;
      var newBuckets, newRepr := NewBuckets(|buckets| * 2);
      ghost var repr := Repr + newRepr;
      ghost var all := chains + NoNodes(|newBuckets|);
      Sizes(Repr, buckets, chains);
      TwoFamilies(Repr, buckets, chains, newRepr, newBuckets, |newBuckets|, M);
      StageStart(chains, |newBuckets|);

      for i := 0 to |buckets|
        invariant unchanged(this)
        invariant Family(repr, buckets + newBuckets, all) && Lists(repr, buckets + newBuckets, all)
        invariant Stored(repr, buckets + newBuckets, all, M) && Stage(all, chains, |newBuckets|, i, 0)
      {
        all := RehashBucket(repr, all, M, chains, i, buckets, newBuckets);
      }

      SecondFamily(repr, buckets, newBuckets, all, M);
      StageEnd(all, chains, |newBuckets|, M.Keys);
      chains := all[|buckets|..];
      buckets := newBuckets;
      Repr := repr;
    }
  }

  /** The inner loop of a clear. */
  method ClearBucket(ghost repr: set<object>, ghost ls: seq<Bucket>, ghost chains: seq<seq<Cell>>, ghost m: map<nat, Ptr>,
                     ghost b: nat, bucket: Bucket)
    returns (ghost left: seq<seq<Cell>>)
    requires Family(repr, ls, chains) && Lists(repr, ls, chains) && Stored(repr, ls, chains, m)
    requires b < |ls| == |chains| && bucket == ls[b]
    modifies repr
    ensures Family(repr, ls, left) && Lists(repr, ls, left) && Stored(repr, ls, left, m)
    ensures left == chains[b := []]
  {
    hide Family, Lists, Stored;
    left := chains;
    HeadOf(repr, ls, left, b);
    var node := bucket.head;
    while node != null
      invariant Family(repr, ls, left) && Lists(repr, ls, left) && Stored(repr, ls, left, m)
      invariant |left| == |chains| && left == chains[b := left[b]] && node == At(left[b], 0)
      decreases |left[b]|
    {
      Within(repr, ls, left, b);
      assert left[b][..0] + left[b][1..] == left[b][1..];
      var rest := NextOf(repr, ls, left, b, 0, node);
      RemoveFrom(repr, ls, left, m, b, bucket, node, 0);
      left := left[b := left[b][1..]];
      node := rest;
    }
  }

  lemma Cleared(repr: set<object>, ls: seq<Bucket>, chains: seq<seq<Cell>>)
    requires Family(repr, ls, chains) && forall b :: 0 <= b < |chains| ==> chains[b] == []
    ensures Stored(repr, ls, chains, map[]) && AllHold(chains, {})
  {
  }

  /** The inner loop of a rehash: bucket `i` is emptied, head first, into the new buckets. */
  method RehashBucket(ghost repr: set<object>, ghost before: seq<seq<Cell>>, ghost m: map<nat, Ptr>,
                      ghost was: seq<seq<Cell>>, i: nat, buckets: seq<Bucket>, newBuckets: seq<Bucket>)
    returns (ghost all: seq<seq<Cell>>)
    requires Family(repr, buckets + newBuckets, before) && Lists(repr, buckets + newBuckets, before)
    requires Stored(repr, buckets + newBuckets, before, m)
    requires i < |buckets| == |was| && newBuckets != [] && Stage(before, was, |newBuckets|, i, 0)
    modifies repr
    ensures Family(repr, buckets + newBuckets, all) && Lists(repr, buckets + newBuckets, all)
    ensures Stored(repr, buckets + newBuckets, all, m) && Stage(all, was, |newBuckets|, i + 1, 0)
  {
    hide Family, Lists, Stored, Stage, Only, Moved;
    ghost var ls := buckets + newBuckets;
    all := before;
    StageAt(all, was, |newBuckets|, i, 0);
    HeadOf(repr, ls, all, i);
    var node := buckets[i].head;
    ghost var j := 0;
    while node != null
      invariant Family(repr, ls, all) && Lists(repr, ls, all) && Stored(repr, ls, all, m)
      invariant j <= |was[i]| && Stage(all, was, |newBuckets|, i, j) && node == At(was[i], j)
      decreases |was[i]| - j
    {
      StageAt(all, was, |newBuckets|, i, j);
      var key := node.ptr.key;
      ghost var q := |buckets| + key % |newBuckets|;
      Within(repr, ls, all, i);
      Within(repr, ls, all, q);
      var rest := MoveHead(repr, ls, all, m, i, q, buckets[i], newBuckets[key % |newBuckets|], node);
      StageStep(all, was, |newBuckets|, i, j);
      all := all[i := all[i][1..]][q := all[q] + [node]];
      node, j := rest, j + 1;
    }
    StageNext(all, was, |newBuckets|, i);
  }

  ghost function NoNodes(n: nat): seq<seq<Cell>> {
    seq(n, _ => [])
  }

  method NewBuckets(n: nat) returns (buckets: seq<Bucket>, ghost repr: set<object>)
    ensures |buckets| == n && fresh(repr)
    ensures Family(repr, buckets, NoNodes(n)) && Lists(repr, buckets, NoNodes(n))
  {
    buckets := [];
    repr := {};
    for i := 0 to n
      invariant |buckets| == i && fresh(repr)
      invariant Family(repr, buckets, NoNodes(i)) && Lists(repr, buckets, NoNodes(i))
    {
      var bucket := new LinkedList<KV>();
      buckets := buckets + [bucket];
      repr := repr + {bucket};
    }
  }

  // ---- Iterator ----

  /** Bucket after bucket, the nodes of bucket `b` stand together in the flattened table. */
  lemma {:induction false} FlatAt(chains: seq<seq<Cell>>, b: nat)
    requires b < |chains|
    ensures |Flat(chains[..b])| + |chains[b]| == |Flat(chains[..b + 1])| <= |Flat(chains)|
    ensures forall o :: 0 <= o < |chains[b]| ==> Flat(chains)[|Flat(chains[..b])| + o] == chains[b][o]
    decreases |chains|
  {
    var front := chains[..|chains| - 1];
    assert chains[..b + 1][..b] == chains[..b];
    if b == |front| {
      assert chains[..b + 1] == chains;
    } else {
      FlatAt(front, b);
      assert front[..b] == chains[..b] && front[..b + 1] == chains[..b + 1];
    }
  }

  /** What iterating relies on. */
  lemma Iterable(table: HashTable)
    requires table.Valid()
    ensures |table.chains| == |table.buckets| && table.chains[..|table.chains|] == table.chains
    ensures Family(table.Repr, table.buckets, table.chains) && Lists(table.Repr, table.buckets, table.chains)
    ensures table.size == |Flat(table.chains)| && Flat([]) == []
  {
    FlatCovers(table.chains, table.M.Keys);
  }

  class TableIterator {
    const table: HashTable
    var bucketIndex: int
    var node: Node?<KV>
    var index: int
    /** Where in its bucket the current node is. */
    ghost var offset: nat

    /**
     * Before the first binding, at the binding that is number `index` of the table, or past the last one; the table
     * has not changed in between.
     */
    ghost predicate Valid()
      reads this, table, table.Repr
    {
      && this !in table.Repr && table.Valid()
      && (|| (index == -1 && bucketIndex == -1 && node == null)
          || (index == table.size && bucketIndex == |table.buckets| && node == null)
          || AtNode(table.chains))
    }

    ghost predicate AtNode(chains: seq<seq<Cell>>)
      reads this
    {
      && 0 <= bucketIndex < |chains| && offset < |chains[bucketIndex]| && node == chains[bucketIndex][offset]
      && index == |Flat(chains[..bucketIndex])| + offset
    }

    constructor (table: HashTable)
      requires table.Valid()
      ensures Valid() && this.table == table && index == -1
    {
      this.table := table;
      bucketIndex := -1;
      node := null;
      index := -1;
    }

    method HasNext() returns (more: bool)
      requires Valid()
      ensures more <==> index < table.size - 1
    {
      return index < table.size - 1;
    }

    /** The next binding in the order of the buckets; after the last, null. The search never runs out of buckets. */
    method Next() returns (kv: KV?)
      requires Valid()
      modifies this
      ensures Valid() && table.size == |Flat(table.chains)|
      ensures old(index) < table.size - 1 ==> index == old(index) + 1 && kv == Flat(table.chains)[index].ptr
      ensures old(index) >= table.size - 1 ==> index == table.size && kv == null
    {
      hide Family, Lists, Flat, HashTable.Valid, HashTable.Filled;
      ghost var chains := table.chains;
      Iterable(table);
      if index >= table.size - 1 {
        index := table.size;
        bucketIndex := |table.buckets|;
        node := null;
        return null;
      }

      if node != null {
        FlatAt(chains, bucketIndex);
        var next := NextOf(table.Repr, table.buckets, chains, bucketIndex, offset, node);
        if next != null {
          node := next;
          offset := offset + 1;
          index := index + 1;
          return node.ptr;
        }
      }

      assert |Flat(chains[..bucketIndex + 1])| == index + 1;
      bucketIndex := bucketIndex + 1;
      while bucketIndex < |table.buckets|
        invariant table.Valid() && 0 <= bucketIndex <= |chains| == |table.buckets|
        invariant index == old(index) && |Flat(chains[..bucketIndex])| == index + 1
        decreases |chains| - bucketIndex
      {
        FlatAt(chains, bucketIndex);
        HeadOf(table.Repr, table.buckets, chains, bucketIndex);
        var head := table.buckets[bucketIndex].head;
        if head != null {
          node := head;
          offset := 0;
          index := index + 1;
          return node.ptr;
        }
        bucketIndex := bucketIndex + 1;
      }
      assert false;
    }
  }

  /** The loop of a client over the whole table: every binding of the map exactly once, then null. */
  method Enumerate(table: HashTable) returns (kvs: seq<KV>)
    requires table.Valid()
    ensures |kvs| == |table.M|
    ensures forall i, j :: 0 <= i < j < |kvs| ==> kvs[i].key != kvs[j].key
    ensures forall i :: 0 <= i < |kvs| ==> kvs[i].key in table.M && table.M[kvs[i].key] == kvs[i].vPtr
    ensures forall k :: k in table.M ==> exists i :: 0 <= i < |kvs| && kvs[i].key == k
  {
    hide Flat, HashTable.Valid, TableIterator.AtNode;
    var cursor := new TableIterator(table);
    ghost var flat := Flat(table.chains);
    Enumerates(table);
    kvs := [];
    var more := cursor.HasNext();
    while more
      invariant cursor.Valid() && cursor.table == table && cursor.index == |kvs| - 1 <= |flat| - 1
      invariant more <==> |kvs| < |flat|
      invariant forall i :: 0 <= i < |kvs| ==> kvs[i] == flat[i].ptr
      decreases |flat| - |kvs|
    {
      var kv := cursor.Next();
      kvs := kvs + [kv];
      more := cursor.HasNext();
    }
    var beyond := cursor.Next();
    assert beyond == null;
    Enumerates(table);
  }

  /** The flattened table lists the map: each key once, with its value. */
  lemma Enumerates(table: HashTable)
    requires table.Valid()
    ensures
      var flat := Flat(table.chains);
      && |flat| == table.size == |table.M| && DistinctKeys(flat)
      && (forall j :: 0 <= j < |flat| ==> flat[j].ptr.key in table.M && table.M[flat[j].ptr.key] == flat[j].ptr.vPtr)
      && (forall k :: k in table.M ==> HasKey(flat, k))
  {
    var chains, flat := table.chains, Flat(table.chains);
    FlatCovers(chains, table.M.Keys);
    forall j | 0 <= j < |flat|
      ensures flat[j].ptr.key in table.M && table.M[flat[j].ptr.key] == flat[j].ptr.vPtr
    {
      FlatIn(chains, flat[j]);
    }
    forall k | k in table.M
      ensures HasKey(flat, k)
    {
      assert k % 1 == 0;
    }
  }
}

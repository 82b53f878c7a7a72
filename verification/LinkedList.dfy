/** The intrusive doubly linked list of src/utils/linked_list.c, over real nodes. */
module LinkedLists {
  class Node<T> {
    /** The payload never changes while the node is linked. */
    const ptr: T
    var prev: Node?<T>
    var next: Node?<T>

    constructor (ptr: T)
      ensures this.ptr == ptr
    {
      this.ptr := ptr;
      prev := null;
      next := null;
    }
  }

  /** The node at position `i`, null outside the chain. */
  ghost function At<T>(nodes: seq<Node<T>>, i: int): Node?<T> {
    if 0 <= i < |nodes| then nodes[i] else null
  }

  /** Distinct nodes chained both ways in this order, entered from `before` and left to `after`. */
  ghost predicate Chain<T>(before: Node?<T>, nodes: seq<Node<T>>, after: Node?<T>)
    reads nodes
  {
    && (forall i, j :: 0 <= i < j < |nodes| ==> nodes[i] != nodes[j])
    && (forall i {:trigger nodes[i].prev} :: 0 <= i < |nodes| ==>
          nodes[i].prev == if i == 0 then before else nodes[i - 1])
    && (forall i {:trigger nodes[i].next} :: 0 <= i < |nodes| ==>
          nodes[i].next == if i == |nodes| - 1 then after else nodes[i + 1])
  }

  /** Two chains that point at each other's ends make one; either may be empty. */
  lemma Join<T>(before: Node?<T>, left: seq<Node<T>>, right: seq<Node<T>>, after: Node?<T>)
    requires forall n :: n in left ==> n !in right
    requires Chain(before, left, if right == [] then after else right[0])
    requires Chain(if left == [] then before else left[|left| - 1], right, after)
    ensures Chain(before, left + right, after)
  {
    var all := left + right;
    forall i, j | 0 <= i < j < |all|
      ensures all[i] != all[j]
    {
      assert i < |left| <= j ==> all[i] in left && all[j] in right;
    }
  }

  lemma Split<T>(before: Node?<T>, nodes: seq<Node<T>>, at: nat, after: Node?<T>)
    requires at <= |nodes| && Chain(before, nodes, after)
    ensures Chain(before, nodes[..at], if at == |nodes| then after else nodes[at])
    ensures Chain(if at == 0 then before else nodes[at - 1], nodes[at..], after)
    ensures forall n :: n in nodes[..at] ==> n !in nodes[at..]
  {
  }

  class LinkedList<T(==)> {
    var head: Node?<T>
    var tail: Node?<T>
    var size: nat
    /** The chain from `head` to `tail`. */
    ghost var nodes: seq<Node<T>>

    ghost predicate Valid()
      reads this, nodes
    {
      && Chain(null, nodes, null)
      && size == |nodes| && head == At(nodes, 0) && tail == At(nodes, size - 1)
    }

    constructor ()
      ensures Valid() && nodes == []
    {
      head := null;
      tail := null;
      size := 0;
      nodes := [];
    }

    method Append(newNode: Node<T>)
      requires Valid() && newNode !in nodes
      modifies this, newNode, nodes
      ensures Valid() && nodes == old(nodes) + [newNode]
    {
      newNode.next := null;
      if size == 0 {
        newNode.prev := null;
        head := newNode;
        tail := newNode;
      } else {
        var last := tail;
        last.next := newNode;
        newNode.prev := last;
        tail := newNode;
        Join(null, nodes, [newNode], null);
      }
      size := size + 1;
      nodes := nodes + [newNode];
    }

    /** Inserts after `node`, or in front of everything when `node` is null; `at` is where the new node lands. */
    method Insert(node: Node?<T>, newNode: Node<T>, ghost at: nat)
      requires Valid() && newNode !in nodes
      requires at <= |nodes| && node == At(nodes, at - 1)
      modifies this, newNode, nodes
      ensures Valid() && nodes == old(nodes[..at] + [newNode] + nodes[at..])
    {
      ghost var left, right := nodes[..at], nodes[at..];
      Split(null, nodes, at, null);
      newNode.prev := node;
      var nextNode: Node?<T>;
      if node == null {
        nextNode := head;
        head := newNode;
      } else {
        nextNode := node.next;
        node.next := newNode;
      }
      newNode.next := nextNode;
      if nextNode != null {
        nextNode.prev := newNode;
      } else {
        tail := newNode;
      }
      size := size + 1;
      nodes := left + [newNode] + right;
      Join(null, left, [newNode], nextNode);
      Join(null, left + [newNode], right, null);
    }

    /** Despite its name it inserts after the current head, so a second element never becomes the first. */
    method InsertToHead(newNode: Node<T>)
      requires Valid() && newNode !in nodes
      modifies this, newNode, nodes
      ensures Valid()
      ensures nodes == if old(nodes) == [] then [newNode] else [old(nodes)[0], newNode] + old(nodes)[1..]
    {
      Insert(head, newNode, if nodes == [] then 0 else 1);
    }

    method Remove(node: Node<T>, ghost at: nat)
      requires Valid() && at < |nodes| && node == nodes[at]
      modifies this, nodes
      ensures Valid() && nodes == old(nodes[..at] + nodes[at + 1..])
      ensures node.next == old(node.next) && node.prev == old(node.prev)
    {
      ghost var left, right := nodes[..at], nodes[at + 1..];
      Split(null, nodes, at, null);
      Split(null, nodes, at + 1, null);
      var prevNode := node.prev;
      var nextNode := node.next;
      if prevNode != null {
        prevNode.next := nextNode;
      } else {
        head := nextNode;
      }
      if nextNode != null {
        nextNode.prev := prevNode;
      } else {
        tail := prevNode;
      }
      size := size - 1;
      nodes := left + right;
      Join(null, left, right, null);
    }

    method AppendEle(ptr: T)
      requires Valid()
      modifies this, nodes
      ensures Valid() && |nodes| == old(|nodes|) + 1 && nodes[..old(|nodes|)] == old(nodes)
      ensures fresh(nodes[old(|nodes|)]) && nodes[old(|nodes|)].ptr == ptr
    {
      var node := new Node(ptr);
      Append(node);
    }

    /** Removes the first node holding `ptr`, if any does. */
    method RemoveEle(ptr: T) returns (ghost at: nat)
      requires Valid()
      modifies this, nodes
      ensures Valid()
      ensures at <= old(|nodes|) && forall i :: 0 <= i < at ==> old(nodes)[i].ptr != ptr
      ensures if at == old(|nodes|) then nodes == old(nodes)
              else old(nodes)[at].ptr == ptr && nodes == old(nodes[..at] + nodes[at + 1..])
    {
      var node := head;
      at := 0;
      while node != null
        invariant Valid() && nodes == old(nodes) && at <= |nodes|
        invariant node == At(nodes, at)
        invariant forall i :: 0 <= i < at ==> nodes[i].ptr != ptr
        decreases |nodes| - at
      {
        if node.ptr == ptr {
          Remove(node, at);
          break;
        }
        node := node.next;
        at := at + 1;
      }
    }

    /** Takes over all nodes of `src`, which is left empty; what `this` held before is dropped. */
    method Move(src: LinkedList<T>)
      requires src != this && src.Valid()
      modifies this, src
      ensures Valid() && nodes == old(src.nodes)
      ensures src.Valid() && src.nodes == []
    {
      head := src.head;
      tail := src.tail;
      size := src.size;
      nodes := src.nodes;
      src.head, src.tail, src.size, src.nodes := null, null, 0, [];
    }

    /** Puts the chain of `src` behind this one and leaves `src` empty. */
    method Concate(src: LinkedList<T>)
      requires src != this && Valid() && src.Valid()
      requires forall n :: n in nodes ==> n !in src.nodes
      modifies this, src, nodes, src.nodes
      ensures Valid() && nodes == old(nodes + src.nodes)
      ensures src.Valid() && src.nodes == []
    {
      if src.size == 0 {
        return;
      }
      if size == 0 {
        Move(src);
      } else {
        assert src.nodes[0] in src.nodes && nodes[size - 1] in nodes;
        var last, first := tail, src.head;
        last.next := first;
        first.prev := last;
        tail := src.tail;
        size := size + src.size;
        Join(null, nodes, src.nodes, null);
        nodes := nodes + src.nodes;
        src.head, src.tail, src.size, src.nodes := null, null, 0, [];
      }
    }
  }
}

/** The fixed-capacity array kept sorted by a comparator (src/utils/ordered_array.c). */
module OrderedArrays {
  import opened Machine

  /** A comparator: negative, zero or positive as its first argument sorts before, with or after its second. */
  type Comparator = (nat, nat) -> int

  /** The comparator orders every two items one way or the other, consistently. */
  ghost predicate Orders(cmp: Comparator) {
    && (forall x, y :: cmp(x, y) > 0 ==> cmp(y, x) <= 0)
    && (forall x, y, z :: cmp(x, y) <= 0 && cmp(y, z) <= 0 ==> cmp(x, z) <= 0)
  }

  ghost predicate Sorted(s: seq<nat>, cmp: Comparator) {
    forall i, j :: 0 <= i < j < |s| ==> cmp(s[i], s[j]) <= 0
  }

  /** How many leading items do not sort after `item`. */
  function InsertPosition(s: seq<nat>, item: nat, cmp: Comparator): (p: nat)
    ensures p <= |s|
    ensures forall i :: 0 <= i < p ==> cmp(s[i], item) <= 0
    ensures p < |s| ==> cmp(s[p], item) > 0
  {
    if s == [] || cmp(s[0], item) > 0 then 0 else 1 + InsertPosition(s[1..], item, cmp)
  }

  function Inserted(s: seq<nat>, item: nat, cmp: Comparator): (t: seq<nat>)
    ensures |t| == |s| + 1
  {
    var p := InsertPosition(s, item, cmp);
    s[..p] + [item] + s[p..]
  }

  lemma InsertedIntoNone(item: nat, cmp: Comparator)
    ensures Inserted([], item, cmp) == [item]
  {
  }

  function RemovedAt(s: seq<nat>, i: nat): (t: seq<nat>)
    requires i < |s|
    ensures |t| == |s| - 1
  {
    s[..i] + s[i + 1..]
  }

  /** The first index of `x`, or the length when `x` is absent. */
  function FirstIndex(s: seq<nat>, x: nat): (i: nat)
    ensures i <= |s|
    ensures i == |s| <==> x !in s
    ensures i < |s| ==> s[i] == x
    ensures forall j :: 0 <= j < i ==> s[j] != x
  {
    if s == [] || s[0] == x then 0 else 1 + FirstIndex(s[1..], x)
  }

  lemma InsertedShape(s: seq<nat>, item: nat, cmp: Comparator)
    ensures
      var p, t := InsertPosition(s, item, cmp), Inserted(s, item, cmp);
      && |t| == |s| + 1 && t[p] == item
      && (forall j :: 0 <= j < p ==> t[j] == s[j])
      && (forall j :: p < j < |t| ==> t[j] == s[j - 1])
  {
    hide InsertPosition;
  }

  /** Inserting keeps the array sorted. */
  lemma InsertedSorted(s: seq<nat>, item: nat, cmp: Comparator)
    requires Orders(cmp) && Sorted(s, cmp)
    ensures Sorted(Inserted(s, item, cmp), cmp)
  {
    hide Inserted, InsertPosition;
    InsertedShape(s, item, cmp);
    var p, t := InsertPosition(s, item, cmp), Inserted(s, item, cmp);
    forall i, j | 0 <= i < j < |t|
      ensures cmp(t[i], t[j]) <= 0
    {
      if j < p {
        assert t[i] == s[i] && t[j] == s[j];
      } else if j == p {
        assert t[i] == s[i];
      } else if i == p {
        assert cmp(item, s[p]) <= 0 && t[j] == s[j - 1];
        assert p == j - 1 || cmp(s[p], s[j - 1]) <= 0;
      } else if i < p {
        assert t[i] == s[i] && t[j] == s[j - 1];
      } else {
        assert t[i] == s[i - 1] && t[j] == s[j - 1];
      }
    }
  }

  /** `Inserted` read item by item. */
  lemma InsertedAt(s: seq<nat>, item: nat, cmp: Comparator, p: nat, t: seq<nat>)
    requires p <= |s| && |t| == |s| + 1
    requires forall j :: 0 <= j < p ==> cmp(s[j], item) <= 0
    requires p < |s| ==> cmp(s[p], item) > 0
    requires forall j :: 0 <= j < p ==> t[j] == s[j]
    requires t[p] == item
    requires forall j :: p < j < |t| ==> t[j] == s[j - 1]
    ensures t == Inserted(s, item, cmp)
  {
    var q := InsertPosition(s, item, cmp);
    assert p == q;
    assert t == s[..p] + [item] + s[p..];
  }

  /** Inserting adds exactly the item. */
  lemma InsertedDistinct(s: seq<nat>, item: nat, cmp: Comparator)
    ensures forall x :: x in Inserted(s, item, cmp) <==> x in s || x == item
    ensures item !in s && Distinct(s) ==> Distinct(Inserted(s, item, cmp))
  {
    hide Inserted, InsertPosition;
    var p := InsertPosition(s, item, cmp);
    InsertedIn(s, item, cmp);
    InsertedShape(s, item, cmp);
    var t := Inserted(s, item, cmp);
    if item !in s && Distinct(s) {
      forall i, j | 0 <= i < j < |t|
        ensures t[i] != t[j]
      {
        assert i != p ==> t[i] == s[if i < p then i else i - 1];
        assert j != p ==> t[j] == s[if j < p then j else j - 1];
      }
    }
  }

  lemma InsertedIn(s: seq<nat>, item: nat, cmp: Comparator)
    ensures forall x :: x in Inserted(s, item, cmp) <==> x in s || x == item
  {
    var p := InsertPosition(s, item, cmp);
    hide InsertPosition;
    assert s == s[..p] + s[p..];
  }

  /** Removing keeps the array sorted and takes exactly the item out. */
  lemma RemovedSorted(s: seq<nat>, i: nat, cmp: Comparator)
    requires i < |s| && Sorted(s, cmp)
    ensures Sorted(RemovedAt(s, i), cmp)
    ensures Distinct(s) ==> Distinct(RemovedAt(s, i)) && forall x :: x in RemovedAt(s, i) <==> x in s && x != s[i]
  {
    assert s == s[..i] + [s[i]] + s[i + 1..];
  }

  class OrderedArray {
    const arr: array<nat>
    var size: nat

    ghost predicate Valid()
      reads this
    {
      size <= arr.Length
    }

    ghost function Contents(): (s: seq<nat>)
      requires Valid()
      reads this, arr
      ensures |s| == size
    {
      arr[..size]
    }

    constructor (maxSize: nat)
      ensures Valid() && fresh(arr) && arr.Length == maxSize && Contents() == []
    {
      arr := new nat[maxSize];
      size := 0;
    }

    /** Inserts after every item that does not sort after `item`; a full array silently keeps what it has. */
    method Insert(item: nat, cmp: Comparator) returns (ok: bool)
      requires Valid()
      modifies this`size, arr
      ensures Valid() && ok == (old(size) < arr.Length)
      ensures Contents() == if ok then Inserted(old(Contents()), item, cmp) else old(Contents())
    {
      if size >= arr.Length {
        return false;
      }
      ghost var s := Contents();
      var place := 0;
      while place < size && cmp(arr[place], item) <= 0
        invariant 0 <= place <= size
        invariant forall j :: 0 <= j < place ==> cmp(s[j], item) <= 0
      {
        place := place + 1;
      }
      size := size + 1;
      var i := size - 1;
      while i > place
        invariant place <= i < size == |s| + 1 <= arr.Length
        invariant forall j :: 0 <= j <= i && j < |s| ==> arr[j] == s[j]
        invariant forall j :: i < j < size ==> arr[j] == s[j - 1]
      {
        arr[i] := arr[i - 1];
        i := i - 1;
      }
      arr[place] := item;
      InsertedAt(s, item, cmp, place, Contents());
      return true;
    }

    method Get(i: nat) returns (x: nat)
      requires Valid()
      ensures x == if i < size then Contents()[i] else 0
    {
      if i >= size {
        return 0;
      }
      return arr[i];
    }

    method Remove(i: nat) returns (ok: bool)
      requires Valid()
      modifies this`size, arr
      ensures Valid() && ok == (i < old(size))
      ensures Contents() == if ok then RemovedAt(old(Contents()), i) else old(Contents())
    {
      if i >= size {
        return false;
      }
      ghost var s := Contents();
      var k := i;
      while k < size - 1
        invariant i <= k < size == |s| <= arr.Length
        invariant forall j :: 0 <= j < i ==> arr[j] == s[j]
        invariant forall j :: i <= j < k ==> arr[j] == s[j + 1]
        invariant forall j :: k < j < size ==> arr[j] == s[j]
      {
        arr[k] := arr[k + 1];
        k := k + 1;
      }
      size := size - 1;
      return true;
    }

    method FindElement(ele: nat) returns (index: nat)
      requires Valid()
      ensures index == FirstIndex(Contents(), ele)
    {
      ghost var s := Contents();
      index := size;
      var i := 0;
      while i < size
        invariant 0 <= i <= size
        invariant forall j :: 0 <= j < i ==> s[j] != ele
      {
        if arr[i] == ele {
          return i;
        }
        i := i + 1;
      }
    }

    method RemoveElement(ele: nat) returns (ok: bool)
      requires Valid()
      modifies this`size, arr
      ensures Valid() && ok == (ele in old(Contents()))
      ensures Contents() == if ok then RemovedAt(old(Contents()), FirstIndex(old(Contents()), ele)) else old(Contents())
    {
      var index := FindElement(ele);
      if index == size {
        return false;
      }
      ok := Remove(index);
    }
  }
}

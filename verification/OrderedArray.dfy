/** The array that keeps the heap's indexes (src/kernel/ordered_array.c).

    Items are addresses. The comparison is a function the caller supplies, as in the source, where it
    reads the size of the area at each address; it is consulted at insertion only. */
module OrderedArrays {

  type LessThan = (int, int) -> bool

  /** Position of the first element that is not less than the item; |s| when all are. */
  function InsertPosition(s: seq<int>, item: int, lessThan: LessThan): (i: nat)
    ensures i <= |s|
    ensures forall k | 0 <= k < i :: lessThan(s[k], item)
    ensures i < |s| ==> !lessThan(s[i], item)
  {
    if s == [] || !lessThan(s[0], item) then 0 else 1 + InsertPosition(s[1..], item, lessThan)
  }

  function Inserted(s: seq<int>, item: int, lessThan: LessThan): (r: seq<int>)
    ensures multiset(r) == multiset(s) + multiset{item} && |r| == |s| + 1
  {
    var i := InsertPosition(s, item, lessThan);
    assert s == s[..i] + s[i..];
    s[..i] + [item] + s[i..]
  }

  /** The sequence without the first occurrence of the item. */
  function Removed(s: seq<int>, item: int): (r: seq<int>)
    ensures multiset(r) == multiset(s) - multiset{item}
    ensures item !in s ==> r == s
  {
    if s == [] then []
    else
      assert s == [s[0]] + s[1..];
      if s[0] == item then s[1..] else [s[0]] + Removed(s[1..], item)
  }

  lemma {:induction false} RemovedAt(s: seq<int>, item: int, i: nat)
    requires i < |s| && s[i] == item && item !in s[..i]
    ensures Removed(s, item) == s[..i] + s[i + 1..]
  {
    if i > 0 {
      assert s[..i] == [s[0]] + s[1..][..i - 1];
      assert s[0] in s[..i];
      RemovedAt(s[1..], item, i - 1);
    }
  }

  /** The predicate is a strict weak order, as comparing by size is. */
  ghost predicate StrictWeakOrder(lessThan: LessThan) {
    && (forall a, b :: lessThan(a, b) ==> !lessThan(b, a))
    && (forall a, b, c :: !lessThan(a, b) && !lessThan(b, c) ==> !lessThan(a, c))
  }

  ghost predicate SortedBy(s: seq<int>, lessThan: LessThan) {
    forall i, j | 0 <= i < j < |s| :: !lessThan(s[j], s[i])
  }

  lemma Asymmetric(lessThan: LessThan, a: int, b: int)
    requires StrictWeakOrder(lessThan) && lessThan(a, b)
    ensures !lessThan(b, a)
  {
  }

  lemma NotLess(lessThan: LessThan, a: int, b: int, c: int)
    requires StrictWeakOrder(lessThan) && !lessThan(a, b) && !lessThan(b, c)
    ensures !lessThan(a, c)
  {
  }

  /** An insertion keeps an index sorted as long as the order of the items already stored has not been
      disturbed behind its back. */
  lemma InsertionSorts(s: seq<int>, item: int, lessThan: LessThan)
    requires StrictWeakOrder(lessThan) && SortedBy(s, lessThan)
    ensures SortedBy(Inserted(s, item, lessThan), lessThan)
  {
    var p := InsertPosition(s, item, lessThan);
    var r := Inserted(s, item, lessThan);
    forall i, j | 0 <= i < j < |r|
      ensures !lessThan(r[j], r[i])
    {
      if i == p {
        assert r[i] == item && r[j] == s[j - 1];
        assert !lessThan(s[p], item);
        if j - 1 > p {
          NotLess(lessThan, s[j - 1], s[p], item);
        }
      } else if j == p {
        assert lessThan(s[i], item);
        Asymmetric(lessThan, s[i], item);
      } else {
        var i' := if i < p then i else i - 1;
        var j' := if j < p then j else j - 1;
        assert r[i] == s[i'] && r[j] == s[j'] && i' < j';
      }
    }
  }

  class OrderedArray {
    const maxSize: nat
    /** One slot more than maxSize, since removal reads one element past the last. */
    const items: array<int>
    var size: nat

    ghost predicate Valid()
      reads this
    {
      items.Length == maxSize + 1 && size <= maxSize
    }

    function Contents(): (s: seq<int>)
      reads this, items
      requires Valid()
    {
      items[..size]
    }

    constructor (maxSize: nat)
      ensures Valid() && fresh(items) && this.maxSize == maxSize && Contents() == []
    {
      this.maxSize := maxSize;
      this.items := new int[maxSize + 1];
      this.size := 0;
    }

    /** A full array fails the source's assertion; that is the result false. */
    method Insert(item: int, lessThan: LessThan) returns (ok: bool)
      requires Valid()
      modifies this`size, items
      ensures Valid()
      ensures ok == (old(size) < maxSize)
      ensures ok ==> Contents() == Inserted(old(Contents()), item, lessThan)
      ensures !ok ==> Contents() == old(Contents())
    {
      if size + 1 > maxSize {
        return false;
      }
      var i := 0;
      while i < size && lessThan(items[i], item)
        invariant 0 <= i <= size
        invariant forall k | 0 <= k < i :: lessThan(items[k], item)
      {
        i := i + 1;
      }
      ghost var was := Contents();
      PositionUnique(was, item, lessThan, i);
      if i == size {
        items[size] := item;
        size := size + 1;
      } else {
        ShiftIn(i, item);
      }
      return true;
    }

    /** Puts an item in front of the one at a place; everything behind it moves on by one. */
    method ShiftIn(p: nat, item: int)
      requires Valid() && p < size < maxSize
      modifies this`size, items
      ensures Valid() && Contents() == old(Contents()[..p] + [item] + Contents()[p..]) && size == old(size) + 1
    {
      ghost var was := Contents();
      var i := p;
      var tmp := items[i];
      items[i] := item;
      while i < size
        invariant p <= i <= size == |was|
        invariant items[..i + 1] == was[..p] + [item] + was[p..i]
        invariant i < size ==> tmp == was[i]
        invariant forall k | i < k < size :: items[k] == was[k]
      {
        i := i + 1;
        var tmp2 := items[i];
        items[i] := tmp;
        tmp := tmp2;
      }
      size := size + 1;
    }

    /** Reads only; the first index that holds the item, or -1. */
    method IndexOf(item: int) returns (i: int)
      requires Valid()
      ensures i == -1 ==> item !in Contents()
      ensures i != -1 ==> 0 <= i < size && Contents()[i] == item && item !in Contents()[..i]
    {
      i := 0;
      while i < size
        invariant 0 <= i <= size
        invariant item !in items[..i]
      {
        if items[i] == item {
          assert Contents()[..i] == items[..i];
          return;
        }
        i := i + 1;
      }
      return -1;
    }

    method RemoveAt(i: nat)
      requires Valid() && i < size
      modifies this`size, items
      ensures Valid()
      ensures Contents() == old(Contents()[..i] + Contents()[i + 1..])
    {
      ghost var was := items[..];
      var j := i;
      while j < size
        invariant i <= j <= size == old(size)
        invariant forall k | 0 <= k < i :: items[k] == was[k]
        invariant forall k | i <= k < j :: items[k] == was[k + 1]
        invariant forall k | j <= k <= size :: items[k] == was[k]
      {
        items[j] := items[j + 1];
        j := j + 1;
      }
      size := size - 1;
    }

    method RemoveItem(item: int)
      requires Valid()
      modifies this`size, items
      ensures Valid()
      ensures Contents() == Removed(old(Contents()), item)
      ensures size == if item in old(Contents()) then old(size) - 1 else old(size)
    {
      var i := IndexOf(item);
      if i != -1 {
        RemovedAt(Contents(), item, i);
        RemoveAt(i);
      }
    }
  }

  lemma {:induction false} PositionUnique(s: seq<int>, item: int, lessThan: LessThan, p: nat)
    requires p <= |s|
    requires forall k | 0 <= k < p :: lessThan(s[k], item)
    requires p < |s| ==> !lessThan(s[p], item)
    ensures InsertPosition(s, item, lessThan) == p
  {
    if p > 0 {
      PositionUnique(s[1..], item, lessThan, p - 1);
    }
  }
}

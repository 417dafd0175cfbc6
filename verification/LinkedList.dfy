/** The kernel's doubly linked list (src/kernel/list.c): nodes that know their neighbours and their list. */
module LinkedList {

  class Node<T(==)> {
    var data: T
    var prev: Node?<T>
    var next: Node?<T>
    var list: List?<T>

    constructor (data: T)
      ensures this.data == data && prev == null && next == null && list == null
    {
      this.data, prev, next, list := data, null, null, null;
    }
  }

  class List<T(==)> {
    var head: Node?<T>
    var tail: Node?<T>
    var count: nat
    /** The nodes in order. */
    ghost var nodes: seq<Node<T>>

    /** Every node's links agree with its place. */
    ghost predicate Linked(i: int)
      requires 0 <= i < |nodes|
      reads this, nodes
    {
      && nodes[i].prev == (if i == 0 then null else nodes[i - 1])
      && nodes[i].next == (if i == |nodes| - 1 then null else nodes[i + 1])
      && nodes[i].list == this
    }

    ghost predicate Valid()
      reads this, nodes
    {
      && count == |nodes|
      && (forall i, j | 0 <= i < j < |nodes| :: nodes[i] != nodes[j])
      && head == (if nodes == [] then null else nodes[0])
      && tail == (if nodes == [] then null else nodes[|nodes| - 1])
      && (forall i | 0 <= i < |nodes| :: Linked(i))
    }

    /** The data in order. */
    ghost function Contents(): (r: seq<T>)
      reads this, nodes
      ensures |r| == |nodes|
    {
      seq(|nodes|, i requires 0 <= i < |nodes| reads this, nodes => nodes[i].data)
    }

    /** Place of a node. */
    ghost function Place(node: Node<T>): (i: int)
      requires node in nodes
      reads this
      ensures 0 <= i < |nodes| && nodes[i] == node
    {
      var i :| 0 <= i < |nodes| && nodes[i] == node;
      i
    }

    constructor ()
      ensures Valid() && nodes == []
    {
      head, tail, count, nodes := null, null, 0, [];
    }

    /** list_prepend. */
    method Prepend(data: T) returns (node: Node<T>)
      requires Valid()
      modifies this, nodes
      ensures Valid() && fresh(node) && nodes == [node] + old(nodes)
      ensures Contents() == [data] + old(Contents())
    {
      node := new Node(data);
      node.list := this;
      if head != null {
        node.next := head;
        head.prev := node;
        head := node;
        count := count + 1;
      } else {
        count := count + 1;
        head := node;
        tail := node;
      }
      nodes := [node] + nodes;
      forall k | 0 <= k < |nodes|
        ensures Linked(k)
      {
        if k > 0 {
          assert old(Linked(k - 1));
        }
      }
    }

    /** list_append. */
    method Append(data: T) returns (node: Node<T>)
      requires Valid()
      modifies this, nodes
      ensures Valid() && fresh(node) && nodes == old(nodes) + [node]
      ensures Contents() == old(Contents()) + [data]
    {
      node := new Node(data);
      node.list := this;
      if tail != null {
        node.prev := tail;
        tail.next := node;
        tail := node;
        count := count + 1;
      } else {
        head := node;
        tail := node;
        count := count + 1;
      }
      nodes := nodes + [node];
      forall k | 0 <= k < |nodes|
        ensures Linked(k)
      {
        if k < |nodes| - 1 {
          assert old(Linked(k));
        }
      }
    }

    /** A new node between two neighbours, as both insertions in the middle of a list make it. */
    method Between(before: Node<T>, after: Node<T>, data: T, ghost i: int) returns (node: Node<T>)
      requires Valid() && 0 < i < |nodes| && nodes[i - 1] == before && nodes[i] == after
      modifies this, nodes
      ensures Valid() && fresh(node) && node.data == data && nodes == old(nodes[..i]) + [node] + old(nodes[i..])
      ensures forall n | n in old(nodes) :: n.data == old(n.data)
    {
      assert Linked(i - 1) && Linked(i);
      node := new Node(data);
      node.prev := before;
      node.next := after;
      node.list := this;
      before.next := node;
      after.prev := node;
      count := count + 1;
      nodes := nodes[..i] + [node] + nodes[i..];
      forall k | 0 <= k < |nodes|
        ensures Linked(k)
      {
        if k != i {
          assert old(Linked(if k < i then k else k - 1));
        }
      }
    }

    /** list_node_insert_before. */
    method InsertBefore(at: Node<T>, data: T) returns (node: Node<T>)
      requires Valid() && at in nodes
      modifies this, nodes
      ensures Valid() && fresh(node)
      ensures var i := old(Place(at)); nodes == old(nodes[..i]) + [node] + old(nodes[i..])
      ensures var i := old(Place(at)); Contents() == old(Contents()[..i]) + [data] + old(Contents()[i..])
    {
      ghost var i := Place(at);
      assert Linked(i);
      if at.prev == null {
        node := Prepend(data);
      } else {
        hide Linked, Valid;
        node := Between(at.prev, at, data, i);
      }
    }

    /** list_node_insert_after. */
    method InsertAfter(at: Node<T>, data: T) returns (node: Node<T>)
      requires Valid() && at in nodes
      modifies this, nodes
      ensures Valid() && fresh(node)
      ensures var i := old(Place(at)); nodes == old(nodes[..i + 1]) + [node] + old(nodes[i + 1..])
      ensures var i := old(Place(at)); Contents() == old(Contents()[..i + 1]) + [data] + old(Contents()[i + 1..])
    {
      ghost var i := Place(at);
      assert Linked(i);
      if at.next == null {
        node := Append(data);
      } else {
        hide Linked, Valid;
        node := Between(at, at.next, data, i + 1);
      }
    }

    /** Takes a node out of its neighbours' links and the ends. */
    method Unlink(node: Node<T>)
      requires Valid() && node in nodes
      modifies this, nodes
      ensures Valid()
      ensures var i := old(Place(node)); nodes == old(nodes[..i]) + old(nodes[i + 1..])
      ensures forall n | n in old(nodes) :: n.data == old(n.data)
    {
      ghost var i := Place(node);
      assert Linked(i);
      if node.prev != null {
        assert Linked(i - 1);
        node.prev.next := node.next;
      }
      if node.next != null {
        node.next.prev := node.prev;
      }
      count := count - 1;
      if node == head {
        head := node.next;
      }
      if node == tail {
        tail := node.prev;
      }
      nodes := nodes[..i] + nodes[i + 1..];
      forall k | 0 <= k < |nodes|
        ensures Linked(k)
      {
        assert old(Linked(if k < i then k else k + 1));
      }
    }

    /** list_remove_node. */
    method RemoveNode(node: Node<T>)
      requires Valid() && node in nodes
      modifies this, nodes
      ensures Valid()
      ensures var i := old(Place(node)); nodes == old(nodes[..i]) + old(nodes[i + 1..])
      ensures var i := old(Place(node)); Contents() == old(Contents()[..i]) + old(Contents()[i + 1..])
    {
      hide Linked, Valid;
      Unlink(node);
    }

    /** Links along a valid list lead from place to place. */
    lemma NextPlace(i: int)
      requires Valid() && 0 <= i < |nodes|
      ensures nodes[i].next == (if i == |nodes| - 1 then null else nodes[i + 1])
      ensures nodes[i].prev == (if i == 0 then null else nodes[i - 1])
    {
      assert Linked(i);
    }

    /** list_validate: none of its assertions fails on a valid list. */
    method Validate() returns (ok: bool)
      requires Valid()
      ensures ok
    {
      if count == 0 {
        return head == null && tail == null;
      }
      if head == null || tail == null || (count > 1 && head == tail) {
        return false;
      }
      NextPlace(0);
      NextPlace(|nodes| - 1);
      if head.prev != null || tail.next != null {
        return false;
      }
      var actual := 0;
      var it := head;
      while it != null
        invariant actual <= |nodes| && it == (if actual == |nodes| then null else nodes[actual])
        decreases |nodes| - actual
      {
        assert Linked(actual);
        if it.list != this {
          return false;
        }
        if it.next != null {
          assert Linked(actual + 1);
          if it.next.prev != it {
            return false;
          }
        }
        it := it.next;
        actual := actual + 1;
      }
      ok := count == actual;
    }

    /** list_find_first: the leftmost node with this data; it refuses an empty list. */
    method FindFirst(data: T) returns (ok: bool, node: Node?<T>)
      requires Valid()
      ensures ok <==> nodes != []
      ensures node == null ==> ok ==> data !in Contents()
      ensures node != null ==> node in nodes && node.data == data && data !in Contents()[..Place(node)]
    {
      node := null;
      if head == null {
        return false, node;
      }
      ok := true;
      var it := head;
      ghost var i := 0;
      while it != null
        invariant 0 <= i <= |nodes| && it == (if i == |nodes| then null else nodes[i])
        invariant data !in Contents()[..i]
        decreases |nodes| - i
      {
        if it.data == data {
          SamePlace(it, i);
          return true, it;
        }
        NextPlace(i);
        it := it.next;
        i := i + 1;
      }
      assert Contents()[..i] == Contents();
    }

    lemma SamePlace(node: Node<T>, i: int)
      requires Valid() && 0 <= i < |nodes| && nodes[i] == node
      ensures Place(node) == i
    {
    }

    /** list_find_last: the rightmost one, from the tail. */
    method FindLast(data: T) returns (ok: bool, node: Node?<T>)
      requires Valid()
      ensures ok <==> nodes != []
      ensures node == null ==> ok ==> data !in Contents()
      ensures node != null ==> node in nodes && node.data == data && data !in Contents()[Place(node) + 1..]
    {
      node := null;
      if tail == null {
        return false, node;
      }
      ok := true;
      var it := tail;
      ghost var i := |nodes| - 1;
      while it != null
        invariant -1 <= i < |nodes| && it == (if i == -1 then null else nodes[i])
        invariant data !in Contents()[i + 1..]
        decreases i
      {
        if it.data == data {
          SamePlace(it, i);
          return true, it;
        }
        NextPlace(i);
        it := it.prev;
        i := i - 1;
      }
      assert Contents()[0..] == Contents();
    }

    /** list_remove_first. */
    method RemoveFirst(data: T) returns (ok: bool, removed: bool)
      requires Valid()
      modifies this, nodes
      ensures Valid() && (ok <==> old(nodes) != []) && (ok ==> (removed <==> data in old(Contents())))
      ensures !removed ==> Contents() == old(Contents())
      ensures removed ==> exists i | 0 <= i < |old(Contents())| ::
                IsFirst(old(Contents()), data, i) && Contents() == old(Contents())[..i] + old(Contents())[i + 1..]
    {
      var node;
      ok, node := FindFirst(data);
      removed := node != null;
      if removed {
        ghost var i := Place(node);
        assert IsFirst(Contents(), data, i);
        RemoveNode(node);
      }
    }

    /** list_copy with a function for the data: a new list of new nodes, and the old one as it was. */
    method Copy(f: T -> T) returns (copy: List<T>)
      requires Valid()
      ensures fresh(copy) && copy.Valid() && forall k | 0 <= k < |copy.nodes| :: fresh(copy.nodes[k])
      ensures |copy.nodes| == |nodes| && forall i | 0 <= i < |nodes| :: copy.Contents()[i] == f(Contents()[i])
    {
      copy := new List();
      ghost var all := Contents();
      var it := head;
      ghost var i := 0;
      while it != null
        invariant 0 <= i <= |nodes| && it == (if i == |nodes| then null else nodes[i])
        invariant fresh(copy) && copy.Valid() && (forall k | 0 <= k < |copy.nodes| :: fresh(copy.nodes[k])) && |copy.nodes| == i
        invariant Valid()
        invariant Contents() == all && forall k | 0 <= k < i :: copy.Contents()[k] == f(all[k])
        decreases |nodes| - i
      {
        NextPlace(i);
        var node := copy.Append(f(it.data));
        it := it.next;
        i := i + 1;
      }
    }

    /** list_node_find_next_predicate: the first match behind a node, around the end of the list, but not the node itself. */
    method FindNext(from: Node<T>, p: T ~> bool) returns (node: Node?<T>)
      requires Valid() && from in nodes && forall n | n in nodes :: p.requires(n.data)
      ensures node == null ==> forall k | 0 < k < |nodes| :: !p(nodes[Around(Place(from), k, |nodes|)].data)
      ensures node != null ==> exists k | 0 < k < |nodes| :: FoundAt(from, p, node, k)
    {
      hide Valid, Linked;
      ghost var i, n := Place(from), |nodes|;
      NextPlace(i);
      var it := from.next;
      ghost var k := 1;
      while it != null
        invariant 1 <= k <= n - i && it == (if k == n - i then null else nodes[i + k])
        invariant forall j | 0 < j < k :: !p(nodes[Around(i, j, n)].data)
        decreases n - k
      {
        if p(it.data) {
          assert FoundAt(from, p, it, k);
          return it;
        }
        NextPlace(i + k);
        it := it.next;
        k := k + 1;
      }
      OfList(i);
      it := from.list.head;
      while it != from
        invariant n - i <= k <= n && it == nodes[k - (n - i)]
        invariant forall j | 0 < j < k :: !p(nodes[Around(i, j, n)].data)
        decreases n - k
      {
        SamePlace(it, k - (n - i));
        if p(it.data) {
          assert FoundAt(from, p, it, k);
          return it;
        }
        NextPlace(k - (n - i));
        it := it.next;
        k := k + 1;
      }
      SamePlace(from, k - (n - i));
      node := null;
    }

    lemma OfList(i: int)
      requires Valid() && 0 <= i < |nodes|
      ensures nodes[i].list == this && head == nodes[0]
    {
      assert Linked(i);
    }

    /** The node is k places after another, around the end, and no node between them matches. */
    ghost predicate FoundAt(from: Node<T>, p: T ~> bool, node: Node<T>, k: int)
      reads *
      requires from in nodes && 0 < k < |nodes| && forall n | n in nodes :: p.requires(n.data)
    {
      && node == nodes[Around(Place(from), k, |nodes|)] && p(node.data)
      && forall j | 0 < j < k :: !p(nodes[Around(Place(from), j, |nodes|)].data)
    }
  }

  /** k places on from i in a ring of n. */
  function Around(i: int, k: int, n: int): (j: int)
    requires 0 <= i < n && 0 <= k < n
    ensures 0 <= j < n
  {
    if i + k < n then i + k else i + k - n
  }

  /** This is the first place where the data occur. */
  ghost predicate IsFirst<T>(s: seq<T>, x: T, i: int) {
    0 <= i < |s| && s[i] == x && x !in s[..i]
  }
}

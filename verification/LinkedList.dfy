/** The doubly linked list with two sentinel nodes of src/lib/list.c. */
module LinkedLists {

  class Node<T(0)> {
    var prev: Node?<T>
    var next: Node?<T>
    var item: T

    constructor ()
      ensures prev == null && next == null
    {
      prev, next := null, null;
    }
  }

  ghost predicate Apart<A>(s: seq<A>) {
    forall i, j | 0 <= i < j < |s| :: s[i] != s[j]
  }

  lemma ApartInsert<A>(s: seq<A>, i: nat, x: A)
    requires Apart(s) && i <= |s| && x !in s
    ensures var t := s[..i] + [x] + s[i..];
      && Apart(t)
      && forall k | 0 <= k < |t| :: t[k] == if k < i then s[k] else if k == i then x else s[k - 1]
  {
    var t := s[..i] + [x] + s[i..];
    forall j, k | 0 <= j < k < |t| ensures t[j] != t[k] {
      assert j < i ==> t[j] == s[j];
      assert j > i ==> t[j] == s[j - 1];
      assert k < i ==> t[k] == s[k];
      assert k > i ==> t[k] == s[k - 1];
    }
  }

  /** Inserting between two ends that stay. */
  lemma Framed<A>(first: A, s: seq<A>, last: A, i: nat, x: A)
    requires i <= |s|
    ensures var was := [first] + s + [last];
      [first] + (s[..i] + [x] + s[i..]) + [last] == was[..i + 1] + [x] + was[i + 1..]
  {
    var was := [first] + s + [last];
    assert was[..i + 1] == [first] + s[..i] && was[i + 1..] == s[i..] + [last];
  }

  lemma ApartRemove<A>(s: seq<A>, i: nat)
    requires Apart(s) && i < |s|
    ensures Apart(s[..i] + s[i + 1..])
  {
    var t := s[..i] + s[i + 1..];
    forall j, k | 0 <= j < k < |t| ensures t[j] != t[k] {
      assert t[j] == s[if j < i then j else j + 1];
      assert t[k] == s[if k < i then k else k + 1];
    }
  }

  class List<T(0)> {
    const head: Node<T>
    const tail: Node<T>
    /** The nodes between the sentinels, first to last. */
    ghost var nodes: seq<Node<T>>

    ghost function Chain(): (c: seq<Node<T>>)
      reads this
      ensures |c| == |nodes| + 2
    {
      [head] + nodes + [tail]
    }

    /** A node of the chain and the one after it point to each other. */
    ghost predicate Joined(i: nat)
      requires i <= |nodes|
      reads this, Chain()
    {
      Chain()[i].next == Chain()[i + 1] && Chain()[i + 1].prev == Chain()[i]
    }

    ghost predicate Valid()
      reads this, head, tail, nodes
    {
      && head.prev == null && tail.next == null
      && Apart(Chain())
      && (forall i: nat | i <= |nodes| :: Joined(i))
    }

    ghost function Items(): (s: seq<T>)
      reads this, nodes
      ensures |s| == |nodes|
    {
      seq(|nodes|, i requires 0 <= i < |nodes| reads this, nodes => nodes[i].item)
    }

    constructor ()
      ensures Valid() && nodes == [] && fresh(head) && fresh(tail)
    {
      head := new Node<T>();
      tail := new Node<T>();
      nodes := [];
      new;
      head.prev := null;
      tail.next := null;
      head.next := tail;
      tail.prev := head;
    }

    method InsertBefore(anchor: Node<T>, node: Node<T>, ghost i: nat)
      requires Valid() && i <= |nodes| && Chain()[i + 1] == anchor && node !in Chain()
      modifies this`nodes, node`prev, node`next, Chain()`prev, Chain()`next
      ensures Valid() && nodes == old(nodes[..i] + [node] + nodes[i..])
    {
      ghost var was := Chain();
      assert was[0] == head && was[|nodes| + 1] == tail;
      assert Joined(i);
      var before := anchor.prev;
      node.prev := before;
      node.next := anchor;
      before.next := node;
      anchor.prev := node;
      nodes := nodes[..i] + [node] + nodes[i..];
      ApartInsert(was, i + 1, node);
      Framed(head, old(nodes), tail, i, node);
      forall k: nat | k <= |nodes| ensures Joined(k) {
        if k < i {
          assert old(Joined(k));
        } else if k > i + 1 {
          assert old(Joined(k - 1));
        }
      }
    }

    /** `list_insert_after`: before the node that follows. */
    method InsertAfter(anchor: Node<T>, node: Node<T>, ghost i: nat)
      requires Valid() && i <= |nodes| && Chain()[i] == anchor && node !in Chain()
      modifies this`nodes, node`prev, node`next, Chain()`prev, Chain()`next
      ensures Valid() && nodes == old(nodes[..i] + [node] + nodes[i..])
    {
      ghost var was := Chain();
      assert was[0] == head && was[|nodes| + 1] == tail;
      assert Joined(i);
      var after := anchor.next;
      node.prev := anchor;
      node.next := after;
      after.prev := node;
      anchor.next := node;
      nodes := nodes[..i] + [node] + nodes[i..];
      ApartInsert(was, i + 1, node);
      Framed(head, old(nodes), tail, i, node);
      forall k: nat | k <= |nodes| ensures Joined(k) {
        if k < i {
          assert old(Joined(k));
        } else if k > i + 1 {
          assert old(Joined(k - 1));
        }
      }
    }

    method Remove(node: Node<T>, ghost i: nat)
      requires Valid() && i < |nodes| && nodes[i] == node
      modifies this`nodes, Chain()`prev, Chain()`next
      ensures Valid() && nodes == old(nodes[..i] + nodes[i + 1..])
      ensures Items() == old(Items()[..i] + Items()[i + 1..])
      ensures node.prev == null && node.next == null
    {
      ghost var was := Chain();
      assert was[0] == head && was[|nodes| + 1] == tail;
      assert was[i + 1] == node && Joined(i) && Joined(i + 1);
      node.prev.next := node.next;
      node.next.prev := node.prev;
      node.next := null;
      node.prev := null;
      nodes := nodes[..i] + nodes[i + 1..];
      assert forall k | 0 <= k < |Chain()| :: Chain()[k] == if k <= i then was[k] else was[k + 1];
      ApartRemove(was, i + 1);
      assert Chain() == was[..i + 1] + was[i + 2..];
      forall k: nat | k <= |nodes| ensures Joined(k) {
        if k < i {
          assert old(Joined(k));
        } else if k > i {
          assert old(Joined(k + 1));
        }
      }
    }

    method IsEmpty() returns (empty: bool)
      requires Valid()
      ensures empty <==> nodes == []
    {
      assert Joined(0) && Chain()[|nodes| + 1] == tail;
      empty := head.next == tail;
    }

    /** `list_push`. */
    method Push(node: Node<T>)
      requires Valid() && node !in Chain()
      modifies this`nodes, node`prev, node`next, Chain()`prev, Chain()`next
      ensures Valid() && nodes == [node] + old(nodes)
    {
      InsertAfter(head, node, 0);
    }

    method PushBack(node: Node<T>)
      requires Valid() && node !in Chain()
      modifies this`nodes, node`prev, node`next, Chain()`prev, Chain()`next
      ensures Valid() && nodes == old(nodes) + [node]
    {
      InsertBefore(tail, node, |nodes|);
    }

    method PopBack() returns (node: Node<T>)
      requires Valid() && nodes != []
      modifies this`nodes, Chain()`prev, Chain()`next
      ensures Valid() && nodes == old(nodes[..|nodes| - 1]) && node == old(nodes[|nodes| - 1])
    {
      assert Joined(|nodes|) && Chain()[|nodes| + 1] == tail && Chain()[|nodes|] == nodes[|nodes| - 1];
      node := tail.prev;
      ghost var was := nodes;
      Remove(node, |was| - 1);
      assert Valid();
      assert was[|was| - 1 + 1..] == [];
      assert nodes == was[..|was| - 1];
      assert node == was[|was| - 1];
    }

    method Search(node: Node<T>) returns (found: bool)
      requires Valid()
      ensures found <==> node in nodes
    {
      ghost var i := 0;
      assert Joined(0);
      var next := head.next;
      while next != tail
        invariant 0 <= i <= |nodes| && next == Chain()[i + 1] && node !in nodes[..i]
        decreases |nodes| - i
      {
        assert i < |nodes| by {
          assert Chain()[|nodes| + 1] == tail;
        }
        assert next == nodes[i];
        if next == node {
          return true;
        }
        assert Joined(i + 1);
        next := next.next;
        i := i + 1;
      }
      assert Chain()[|nodes| + 1] == tail;
      assert nodes == nodes[..i];
      return false;
    }

    /** `list_insert_sort`: in front of the first node with a greater key. */
    method InsertSort(node: Node<T>, key: T -> int) returns (ghost i: nat)
      requires Valid() && node !in Chain()
      modifies this`nodes, node`prev, node`next, Chain()`prev, Chain()`next
      ensures Valid() && i <= old(|nodes|) && nodes == old(nodes[..i] + [node] + nodes[i..])
      ensures Items() == old(Items()[..i] + [node.item] + Items()[i..])
      ensures forall k | 0 <= k < i :: key(old(Items())[k]) <= key(node.item)
      ensures i < old(|nodes|) ==> key(node.item) < key(old(Items())[i])
    {
      i := 0;
      var anchor := tail;
      assert Joined(0);
      var ptr := head.next;
      while ptr != tail
        invariant 0 <= i <= |nodes| && ptr == Chain()[i + 1] && anchor == tail
        invariant forall k | 0 <= k < i :: key(nodes[k].item) <= key(node.item)
        decreases |nodes| - i
      {
        assert Chain()[|nodes| + 1] == tail;
        assert ptr == nodes[i];
        if key(ptr.item) > key(node.item) {
          anchor := ptr;
          break;
        }
        assert Joined(i + 1);
        ptr := ptr.next;
        i := i + 1;
      }
      assert Chain()[|nodes| + 1] == tail;
      assert anchor == Chain()[i + 1];
      InsertBefore(anchor, node, i);
    }

    /** Writes into the record a node of the list is part of. */
    method SetItem(node: Node<T>, item: T, ghost i: nat)
      requires Valid() && i < |nodes| && nodes[i] == node
      modifies node`item
      ensures Valid() && nodes == old(nodes) && node.item == item && Items() == old(Items())[i := item]
    {
      node.item := item;
      assert forall k: nat | k <= |nodes| :: old(Joined(k)) ==> Joined(k);
      assert forall k | 0 <= k < |nodes| && k != i :: nodes[k] != node by {
        assert forall k | 0 <= k < |nodes| :: nodes[k] == Chain()[k + 1];
      }
    }
  }
}

/**
 * Deque (Ch1/1_3/Deque.java): a doubly-linked list with pushes and pops at
 * both ends.
 *
 * The ghost sequence `nodes` lists the list's nodes from first to last and
 * `Contents` their items; Valid() ties every node's next and previous links
 * to its neighbours in `nodes`.
 */
module Deques {
  import opened Outcomes

  class DoubleNode<Item> {
    var item: Item
    var next: DoubleNode?<Item>
    var previous: DoubleNode?<Item>

    /** A node holding item, linked to nothing. */
    constructor (item: Item)
      ensures this.item == item && next == null && previous == null
    {
      this.item := item;
      next := null;
      previous := null;
    }
  }

  class Deque<Item> {
    var N: nat                       // size of the list
    var first: DoubleNode?<Item>     // head of the list
    var last: DoubleNode?<Item>      // tail of the list

    ghost var Contents: seq<Item>
    ghost var nodes: seq<DoubleNode<Item>>
    ghost var Repr: set<object>

    ghost predicate Valid()
      reads this, Repr
    {
      && this in Repr
      && (forall k :: 0 <= k < |nodes| ==> nodes[k] in Repr)
      && N == |nodes| == |Contents|
      && (forall j, k :: 0 <= j < k < |nodes| ==> nodes[j] != nodes[k])
      && (forall k :: 0 <= k < |nodes| ==> nodes[k].item == Contents[k])
      && (forall k :: 0 <= k < |nodes| ==> Linked(k))
      && first == (if N == 0 then null else nodes[0])
      && last == (if N == 0 then null else nodes[N - 1])
    }

    /** Node k links forward to node k+1 (or null) and back to node k-1 (or null). */
    ghost predicate Linked(k: int)
      reads this, nodes
      requires 0 <= k < |nodes|
    {
      && nodes[k].next == (if k + 1 < |nodes| then nodes[k + 1] else null)
      && nodes[k].previous == (if k == 0 then null else nodes[k - 1])
    }

    /** An empty deque. */
    constructor ()
      ensures Valid() && fresh(Repr)
      ensures Contents == [] && N == 0
    {
      first := null;
      last := null;
      N := 0;
      Contents := [];
      nodes := [];
      Repr := {this};
    }

    /** isEmpty(): first == null, which is the case exactly when N == 0. */
    method IsEmpty() returns (empty: bool)
      requires Valid()
      ensures empty <==> Contents == []
      ensures empty <==> N == 0
    {
      return first == null;
    }

    /** size(): the number of items. */
    method Size() returns (size: nat)
      requires Valid()
      ensures size == |Contents|
    {
      return N;
    }

    /** pushLeft(item): adds item at the left end. */
    method PushLeft(item: Item)
      requires Valid()
      modifies Repr
      ensures Valid() && fresh(Repr - old(Repr))
      ensures Contents == [item] + old(Contents) && N == old(N) + 1
    {
      var node := new DoubleNode(item);
      if N == 0 {
        first := node;
        last := first;
      } else {
        var oldFirst := first;
        first := node;
        first.next := oldFirst;
        oldFirst.previous := first;
      }
      N := N + 1;
      nodes := [node] + nodes;
      Contents := [item] + Contents;
      Repr := Repr + {node};
      forall k | 0 <= k < |nodes| ensures Linked(k) {
        if k >= 1 {
          assert old(Linked(k - 1));
        }
      }
    }

    /** pushRight(item): adds item at the right end. */
    method PushRight(item: Item)
      requires Valid()
      modifies Repr
      ensures Valid() && fresh(Repr - old(Repr))
      ensures Contents == old(Contents) + [item] && N == old(N) + 1
    {
      var node := new DoubleNode(item);
      if N == 0 {
        first := node;
        last := first;
      } else {
        var oldLast := last;
        last := node;
        last.previous := oldLast;
        oldLast.next := last;
      }
      N := N + 1;
      nodes := nodes + [node];
      Contents := Contents + [item];
      Repr := Repr + {node};
      forall k | 0 <= k < |nodes| ensures Linked(k) {
        if k <= |nodes| - 2 {
          assert old(Linked(k));
        }
      }
    }

    /**
     * popLeft(): removes and returns the item at the left end; on an empty
     * deque, throws NoSuchElementException and changes nothing.
     */
    method PopLeft() returns (r: Result<Item>)
      requires Valid()
      modifies Repr
      ensures Valid() && fresh(Repr - old(Repr))
      ensures old(Contents) == [] ==> r == Err(NoSuchElement) && unchanged(this)
      ensures old(Contents) != [] ==>
        r == Ok(old(Contents)[0]) && Contents == old(Contents)[1..] && N == old(N) - 1
    {
      if N == 0 {
        return Err(NoSuchElement);
      }
      assert Linked(0);
      var oldFirst := first;
      if N == 1 {
        first := null;
        last := null;
      } else {
        first := oldFirst.next;
        first.previous := null;
      }
      N := N - 1;
      nodes := nodes[1..];
      Contents := Contents[1..];
      forall k | 0 <= k < |nodes| ensures Linked(k) {
        assert old(Linked(k + 1));
      }
      return Ok(oldFirst.item);
    }

    /**
     * popRight(): removes and returns the item at the right end; on an empty
     * deque, throws NoSuchElementException and changes nothing.
     */
    method PopRight() returns (r: Result<Item>)
      requires Valid()
      modifies Repr
      ensures Valid() && fresh(Repr - old(Repr))
      ensures old(Contents) == [] ==> r == Err(NoSuchElement) && unchanged(this)
      ensures old(Contents) != [] ==>
        r == Ok(old(Contents)[|old(Contents)| - 1]) &&
        Contents == old(Contents)[..|old(Contents)| - 1] && N == old(N) - 1
    {
      if N == 0 {
        return Err(NoSuchElement);
      }
      assert Linked(N - 1);
      var oldLast := last;
      if N == 1 {
        first := null;
        last := null;
      } else {
        last := oldLast.previous;
        last.next := null;
      }
      N := N - 1;
      nodes := nodes[..N];
      Contents := Contents[..N];
      forall k | 0 <= k < |nodes| ensures Linked(k) {
        assert old(Linked(k));
      }
      return Ok(oldLast.item);
    }

    /** Iteration: visits the items from first to last along the next links. */
    method Items() returns (items: seq<Item>)
      requires Valid()
      ensures items == Contents
    {
      items := [];
      var current := first;
      var k := 0;
      while current != null
        invariant 0 <= k <= N
        invariant current == (if k < N then nodes[k] else null)
        invariant items == Contents[..k]
        decreases N - k
      {
        assert Linked(k);
        items := items + [current.item];
        current := current.next;
        k := k + 1;
      }
    }
  }
}

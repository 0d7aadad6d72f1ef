/**
 * DoublyLinkedList.java: a deque of nodes linked both ways, with `head`,
 * `tail` and a count `size`.
 *
 * The `Node` objects are an arena: `nodes` holds every node allocated so far
 * with its `data`, `next` and `prev` fields, a reference is an index and
 * `null` is `Null`. The ghost field `order` lists the live nodes from head to
 * tail, and `Contents` their elements. An element is an `int`.
 */
module DoublyLinkedLists {
  import opened Errors
  import opened NodeRefs

  /** One `Node`: its element and its two links. */
  datatype DNode = DNode(data: int, next: int, prev: int)

  /**
   * order is a chain of distinct allocated nodes: each `next` is the
   * following node of the chain and each `prev` the one before, with null
   * past both ends.
   */
  ghost predicate Linked(nodes: seq<DNode>, order: seq<int>) {
    && (forall i :: 0 <= i < |order| ==> 0 <= order[i] < |nodes|)
    && Distinct(order)
    && (forall i {:trigger nodes[order[i]]} :: 0 <= i < |order| ==> nodes[order[i]].next == After(order, i))
    && (forall i {:trigger nodes[order[i]]} :: 0 <= i < |order| ==> nodes[order[i]].prev == Before(order, i))
  }

  /** The node after position i of a chain, or null past its end. */
  function After(order: seq<int>, i: int): int
    requires 0 <= i < |order|
  {
    if i + 1 < |order| then order[i + 1] else Null
  }

  /** The node before position i of a chain, or null before its start. */
  function Before(order: seq<int>, i: int): int
    requires 0 <= i < |order|
  {
    if i > 0 then order[i - 1] else Null
  }

  /**
   * The zero-based position of the node `getNodeByIndex(index)` returns: from
   * the tail for an index past half the size, the index-th node; from the
   * head, one node further, because the walk takes `index` steps from the
   * first node.
   */
  function NodePosition(index: int, size: int): (k: int)
    requires 1 <= index <= size
    ensures 0 <= k < size
    ensures index > size / 2 ==> k == index - 1
    ensures index <= size / 2 ==> k == index
  {
    if index > size / 2 then index - 1 else index
  }

  /**
   * Linking a new node holding x at position k of a chain keeps it a chain,
   * and its elements gain x at k.
   */
  lemma LinkAt(nodes: seq<DNode>, order: seq<int>, k: int, x: int, b: seq<DNode>, elems: seq<int>)
    requires Linked(nodes, order) && 0 <= k <= |order|
    requires |elems| == |order| && forall i {:trigger nodes[order[i]]} :: 0 <= i < |order| ==> nodes[order[i]].data == elems[i]
    requires var m := |nodes|;
      && |b| == m + 1
      && b[m] == DNode(x, if k < |order| then order[k] else Null, if k > 0 then order[k - 1] else Null)
      && (k > 0 ==> b[order[k - 1]] == nodes[order[k - 1]].(next := m))
      && (k < |order| ==> b[order[k]] == nodes[order[k]].(prev := m))
      && (forall y :: 0 <= y < m && (k == 0 || y != order[k - 1]) && (k == |order| || y != order[k]) ==> b[y] == nodes[y])
    ensures Linked(b, InsertAt(order, k, |nodes|))
    ensures var o, e := InsertAt(order, k, |nodes|), InsertAt(elems, k, x);
      forall i {:trigger b[o[i]]} :: 0 <= i < |o| ==> b[o[i]].data == e[i]
  {
    var m, o := |nodes|, InsertAt(order, k, |nodes|);
    forall i | 0 <= i < |o|
      ensures 0 <= o[i] < |b|
      ensures b[o[i]].data == InsertAt(elems, k, x)[i]
      ensures b[o[i]].next == After(o, i)
      ensures b[o[i]].prev == Before(o, i)
    {
      if i < k {
        assert o[i] == order[i];
        if i < k - 1 {
          assert Apart(order, i, k - 1);
          assert k < |order| ==> Apart(order, i, k);
          assert b[order[i]] == nodes[order[i]];
        }
      } else if i > k {
        assert o[i] == order[i - 1];
        if i > k + 1 {
          assert Apart(order, i - 1, k);
          assert k > 0 ==> Apart(order, i - 1, k - 1);
          assert b[order[i - 1]] == nodes[order[i - 1]];
        } else {
          assert k > 0 ==> Apart(order, k, k - 1);
        }
      }
    }
    DistinctInsert(order, k, m);
  }

  class DoublyLinkedList {
    /** Every node allocated so far. */
    var nodes: seq<DNode>
    var head: int
    var tail: int
    var size: int
    /** The live nodes, from head to tail. */
    ghost var order: seq<int>
    ghost var Contents: seq<int>

    /**
     * The live nodes form a chain from `head` to `tail`, with null `prev` at
     * the head and null `next` at the tail, `prev` mirroring `next`; `size`
     * counts them and they hold the contents in order.
     */
    ghost predicate Valid()
      reads this
    {
      && Linked(nodes, order)
      && size == |order| == |Contents|
      && head == First(order) && tail == Last(order)
      && (forall i {:trigger nodes[order[i]]} :: 0 <= i < |order| ==> nodes[order[i]].data == Contents[i])
    }

    /** The implicit constructor: the empty list. */
    constructor ()
      ensures Valid() && Contents == [] && nodes == []
    {
      nodes, head, tail, size := [], Null, Null, 0;
      order, Contents := [], [];
    }

    /** `getSize()`. */
    function GetSize(): (r: int)
      reads this
      requires Valid()
      ensures r == |Contents|
    {
      size
    }

    /** `isEmpty()`. */
    predicate IsEmpty()
      reads this
      requires Valid()
      ensures IsEmpty() <==> Contents == []
    {
      size == 0
    }

    /**
     * `getNodeByIndex(index)`: an index outside 1..size is an
     * IndexOutOfBoundsException; otherwise the node at `NodePosition`, walked
     * to from the tail or from the head.
     */
    method GetNodeByIndex(index: int) returns (r: Result<int>)
      requires Valid()
      ensures r.Err? <==> index < 1 || index > |Contents|
      ensures r.Err? ==> r.error == IndexOutOfBounds
      ensures r.Ok? ==> r.value == order[NodePosition(index, size)]
      ensures r.Ok? ==> nodes[r.value].data == Contents[NodePosition(index, size)]
    {
      if index > size || index < 1 {
        return Err(IndexOutOfBounds);
      }
      var trav := Null;
      if index > size / 2 {
        trav := tail;
        var steps := size - index;
        while steps > 0
          invariant 0 <= steps <= size - index
          invariant trav == order[index - 1 + steps]
        {
          trav := nodes[trav].prev;
          steps := steps - 1;
        }
      } else {
        trav := head;
        var i := index;
        while i > 0
          invariant 0 <= i <= index
          invariant trav == order[index - i]
        {
          trav := nodes[trav].next;
          i := i - 1;
        }
      }
      r := Ok(trav);
    }

    /** `addFirst(obj)`: the element goes in front. */
    method AddFirst(x: int)
      modifies this
      requires Valid()
      ensures Valid() && Contents == [x] + old(Contents)
      ensures |nodes| == |old(nodes)| + 1
    {
      var m := |nodes|;
      if size == 0 {
        nodes := nodes + [DNode(x, Null, Null)];
        tail := m;
      } else {
        nodes := nodes[head := nodes[head].(prev := m)] + [DNode(x, head, Null)];
      }
      LinkAt(old(nodes), order, 0, x, nodes, Contents);
      head := m;
      size := size + 1;
      order, Contents := InsertAt(order, 0, m), InsertAt(Contents, 0, x);
    }

    /** `addLast(obj)`: the element goes at the back. */
    method AddLast(x: int)
      modifies this
      requires Valid()
      ensures Valid() && Contents == old(Contents) + [x]
      ensures |nodes| == |old(nodes)| + 1
    {
      var m := |nodes|;
      if size == 0 {
        nodes := nodes + [DNode(x, Null, Null)];
        head := m;
      } else {
        nodes := nodes[tail := nodes[tail].(next := m)] + [DNode(x, Null, tail)];
      }
      LinkAt(old(nodes), order, |order|, x, nodes, Contents);
      tail := m;
      size := size + 1;
      order, Contents := InsertAt(order, |order|, m), InsertAt(Contents, |Contents|, x);
    }

    /**
     * `add(index, obj)`: on an empty list or at index 1 the element goes in
     * front, at index `size` it goes at the back (after the size-th element,
     * not before it); any other index is looked up with `getNodeByIndex`,
     * which rejects it outside 1..size, and the element is linked in just
     * before the node found, so that it lands at `NodePosition`.
     */
    method Add(index: int, x: int) returns (r: Outcome)
      modifies this
      requires Valid()
      ensures Valid()
      ensures old(size) == 0 || index == 1 ==> r == Pass && Contents == [x] + old(Contents)
      ensures old(size) != 0 && index != 1 && index == old(size) ==> r == Pass && Contents == old(Contents) + [x]
      ensures old(size) != 0 && index != 1 && index != old(size) && (index < 1 || index > old(size)) ==>
                r == Fail(IndexOutOfBounds) && Contents == old(Contents) && nodes == old(nodes)
      ensures old(size) != 0 && 1 < index < old(size) ==>
                r == Pass && Contents == InsertAt(old(Contents), NodePosition(index, old(size)), x)
    {
      if size == 0 || index == 1 {
        AddFirst(x);
        return Pass;
      }
      if index == size {
        AddLast(x);
        return Pass;
      }
      var found := GetNodeByIndex(index);
      if found.Err? {
        return Fail(found.error);
      }
      ghost var k := NodePosition(index, size);
      var p := found.value;
      assert k >= 1 && nodes[order[k]].prev == order[k - 1];
      assert Apart(order, k, k - 1);
      var q := nodes[p].prev;
      var m := |nodes|;
      nodes := nodes[q := nodes[q].(next := m)];
      nodes := nodes[p := nodes[p].(prev := m)] + [DNode(x, p, q)];
      LinkAt(old(nodes), order, k, x, nodes, Contents);
      size := size + 1;
      order, Contents := InsertAt(order, k, m), InsertAt(Contents, k, x);
      r := Pass;
    }

    /**
     * `removeFirst()`: an empty list is a NoSuchElementException; otherwise
     * the front element is unlinked and returned, and the last one leaves
     * both ends null.
     */
    method RemoveFirst() returns (r: Result<int>)
      modifies this
      requires Valid()
      ensures Valid()
      ensures old(Contents) == [] ==> r == Err(NoSuchElement) && Contents == old(Contents) && nodes == old(nodes)
      ensures old(Contents) != [] ==> r == Ok(old(Contents)[0]) && Contents == old(Contents)[1..]
      ensures old(size) == 1 ==> head == Null && tail == Null
    {
      if size == 0 {
        return Err(NoSuchElement);
      }
      var removed := nodes[head].data;
      if size == 1 {
        head, tail := Null, Null;
      } else {
        assert nodes[order[0]].next == order[1];
        head := nodes[head].next;
        nodes := nodes[head := nodes[head].(prev := Null)];
        UnlinkFirst(old(nodes), order, nodes);
      }
      size := size - 1;
      order, Contents := order[1..], Contents[1..];
      r := Ok(removed);
    }

    /**
     * `removeLast()`: an empty list is a NoSuchElementException; otherwise
     * the back element is unlinked and returned, and the last one leaves
     * both ends null.
     */
    method RemoveLast() returns (r: Result<int>)
      modifies this
      requires Valid()
      ensures Valid()
      ensures old(Contents) == [] ==> r == Err(NoSuchElement) && Contents == old(Contents) && nodes == old(nodes)
      ensures old(Contents) != [] ==>
                r == Ok(old(Contents)[|old(Contents)| - 1]) && Contents == old(Contents)[..|old(Contents)| - 1]
      ensures old(size) == 1 ==> head == Null && tail == Null
    {
      if size == 0 {
        return Err(NoSuchElement);
      }
      var removed: int;
      if size == 1 {
        removed := nodes[head].data;
        head, tail := Null, Null;
      } else {
        assert nodes[order[|order| - 1]].prev == order[|order| - 2];
        removed := nodes[tail].data;
        tail := nodes[tail].prev;
        nodes := nodes[tail := nodes[tail].(next := Null)];
        UnlinkLast(old(nodes), order, nodes);
      }
      size := size - 1;
      order, Contents := order[..|order| - 1], Contents[..|Contents| - 1];
      r := Ok(removed);
    }
  }

  /** Cutting off the first node of a chain of two or more. */
  lemma UnlinkFirst(nodes: seq<DNode>, order: seq<int>, b: seq<DNode>)
    requires Linked(nodes, order) && |order| >= 2
    requires b == nodes[order[1] := nodes[order[1]].(prev := Null)]
    ensures Linked(b, order[1..])
  {
    var o := order[1..];
    DistinctSlice(order, 1, |order|);
    DistinctAt(order, 1);
    forall i | 0 <= i < |o|
      ensures o[i] == order[i + 1]
      ensures b[o[i]].next == After(o, i)
      ensures b[o[i]].prev == Before(o, i)
    {
    }
  }

  /** Cutting off the last node of a chain of two or more. */
  lemma UnlinkLast(nodes: seq<DNode>, order: seq<int>, b: seq<DNode>)
    requires Linked(nodes, order) && |order| >= 2
    requires b == nodes[order[|order| - 2] := nodes[order[|order| - 2]].(next := Null)]
    ensures Linked(b, order[..|order| - 1])
  {
    var o := order[..|order| - 1];
    DistinctSlice(order, 0, |order| - 1);
    DistinctAt(order, |order| - 2);
    forall i | 0 <= i < |o|
      ensures o[i] == order[i]
      ensures b[o[i]].next == After(o, i)
      ensures b[o[i]].prev == Before(o, i)
    {
    }
  }

  /**
   * Four elements appended, then `add(2, 9)` and `add(5, 8)`: 9 lands third,
   * after the node `getNodeByIndex(2)` walks past, and 8 goes after the
   * fifth element rather than before it.
   */
  method AddPositions() returns (l: DoublyLinkedList, r1: Outcome, r2: Outcome)
    ensures l.Valid() && r1 == Pass && r2 == Pass
    ensures l.Contents == [1, 2, 9, 3, 4, 8]
  {
    l := new DoublyLinkedList();
    l.AddLast(1);
    l.AddLast(2);
    l.AddLast(3);
    l.AddLast(4);
    r1 := l.Add(2, 9);
    r2 := l.Add(5, 8);
  }
}

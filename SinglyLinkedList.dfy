/**
 * SinglyLinkedList.java: a list of nodes linked forward, with `head`, `tail`
 * and a count `size`.
 *
 * The `Node` objects are an arena, as in `DoublyLinkedLists`. The ghost field
 * `chain` lists the nodes reachable from `head`, in order, and `Contents` the
 * elements of the first `size` of them. Two things make the chain differ
 * from a textbook list: `addLast` on an empty list links the new node to
 * itself, so the last node's `next` is null or that node; and the removals
 * that empty the list leave `head` and `tail` on the last node, so an empty
 * list may still reach one dead node.
 */
module SinglyLinkedLists {
  import opened Errors
  import opened NodeRefs

  /** One `Node`: its element (null once removed) and its forward link. */
  datatype SNode = SNode(data: Option<int>, next: int)

  /**
   * chain is a path of distinct allocated nodes along `next`, ending in a
   * node whose `next` is null or itself.
   */
  ghost predicate Chain(nodes: seq<SNode>, chain: seq<int>) {
    && (forall i :: 0 <= i < |chain| ==> 0 <= chain[i] < |nodes|)
    && Distinct(chain)
    && (forall i {:trigger nodes[chain[i]]} :: 0 <= i < |chain| - 1 ==> nodes[chain[i]].next == chain[i + 1])
    && (chain != [] ==> nodes[Last(chain)].next in {Null, Last(chain)})
  }

  /**
   * A list with these fields: head and tail are the ends of the chain; the
   * chain has `size` nodes, or is one dead node left behind when the list
   * became empty; the first `size` nodes hold the contents.
   */
  ghost predicate Shaped(nodes: seq<SNode>, chain: seq<int>, head: int, tail: int, size: int, contents: seq<int>) {
    && Chain(nodes, chain)
    && head == First(chain) && tail == Last(chain)
    && size == |contents|
    && (|chain| == size || (size == 0 && |chain| == 1))
    && (forall i {:trigger nodes[chain[i]]} :: 0 <= i < size ==> nodes[chain[i]].data == Some(contents[i]))
  }

  class SinglyLinkedList {
    /** Every node allocated so far. */
    var nodes: seq<SNode>
    var head: int
    var tail: int
    var size: int
    /** The nodes reachable from `head`, in order. */
    ghost var chain: seq<int>
    ghost var Contents: seq<int>

    /** The fields form a list, as `Shaped` says. */
    ghost predicate Valid()
      reads this
    {
      Shaped(nodes, chain, head, tail, size, Contents)
    }

    /** `SinglyLinkedList()`: the empty list. */
    constructor ()
      ensures Valid() && Contents == [] && nodes == [] && head == Null && tail == Null
    {
      nodes, head, tail, size := [], Null, Null, 0;
      chain, Contents := [], [];
    }

    /** `getSize()`. */
    function GetSize(): (r: int)
      reads this
      requires Valid()
      ensures r == |Contents|
    {
      size
    }

    /** `isEmpty()`. */
    predicate IsEmpty()
      reads this
      requires Valid()
      ensures IsEmpty() <==> Contents == []
    {
      size == 0
    }

    /**
     * `clear()`: every node reachable from `head` has its link and its
     * element nulled, and the list is empty with null ends.
     */
    method Clear()
      modifies this
      requires Valid()
      ensures Valid() && Contents == [] && head == Null && tail == Null
      ensures |nodes| == |old(nodes)|
      ensures forall x :: 0 <= x < |nodes| ==>
                nodes[x] == if x in old(chain) then SNode(None, Null) else old(nodes)[x]
    {
      var traverse := head;
      ghost var k := 0;
      while traverse != Null
        invariant 0 <= k <= |chain| && |nodes| == |old(nodes)| && chain == old(chain)
        invariant k < |chain| ==> traverse == chain[k]
        invariant k == |chain| ==> traverse == Null || (traverse == Last(chain) && nodes[traverse].next == Null)
        invariant forall x :: 0 <= x < |nodes| ==>
                    nodes[x] == if x in chain[..k] then SNode(None, Null) else old(nodes)[x]
        decreases |chain| - k + (if traverse == Null then 0 else 1)
      {
        if k < |chain| {
          forall j | 0 <= j < k
            ensures chain[j] != chain[k]
          {
            assert Apart(chain, j, k);
          }
          assert chain[k] !in chain[..k];
          assert chain[..k + 1] == chain[..k] + [chain[k]];
          assert k + 1 < |chain| ==> old(nodes)[chain[k]].next == chain[k + 1];
        }
        var next := nodes[traverse].next;
        nodes := nodes[traverse := nodes[traverse].(next := Null, data := None)];
        traverse := next;
        if k < |chain| {
          k := k + 1;
        }
      }
      size := 0;
      head, tail := Null, Null;
      chain, Contents := [], [];
    }

    /** `addFirst(obj)`: the element goes in front. */
    method AddFirst(x: int)
      modifies this
      requires Valid()
      ensures Valid() && Contents == [x] + old(Contents)
      ensures old(size) == 0 ==> nodes[head].next == Null
    {
      var m := |nodes|;
      if size == 0 {
        nodes := nodes + [SNode(Some(x), Null)];
        head, tail := m, m;
        chain := [m];
      } else {
        nodes := nodes + [SNode(Some(x), head)];
        head := m;
        DistinctInsert(chain, 0, m);
        chain := InsertAt(chain, 0, m);
      }
      size := size + 1;
      Contents := [x] + Contents;
    }

    /**
     * `addLast(obj)`: the element goes at the back. On an empty list the new
     * node becomes head and tail and is then linked after the tail, that is,
     * to itself.
     */
    method AddLast(x: int)
      modifies this
      requires Valid()
      ensures Valid() && Contents == old(Contents) + [x]
      ensures old(size) == 0 ==> nodes[head].next == head
      ensures old(size) != 0 ==> nodes[tail].next == Null
    {
      var m := |nodes|;
      nodes := nodes + [SNode(Some(x), Null)];
      if size == 0 {
        head, tail := m, m;
      }
      nodes := nodes[tail := nodes[tail].(next := m)];
      tail := m;
      size := size + 1;
      chain := if old(size) == 0 then [m] else chain + [m];
      Contents := Contents + [x];
      Appended(old(nodes), old(chain), old(Contents), x, nodes, chain, head, Contents);
    }

    /**
     * `removeFirst()` does not dereference null: the node after the head is
     * there, which on a one-element list holds only when `addLast` linked
     * it to itself.
     */
    ghost predicate RemoveFirstSafe()
      reads this
      requires Valid()
    {
      size != 0 ==> nodes[head].next != Null
    }

    /**
     * `removeFirst()`: an empty list is a RuntimeException. Otherwise the
     * head's element is nulled, the head moves on, and what is returned is
     * the element of the new head: the second element, or null when the
     * self-linked last node is removed.
     */
    method RemoveFirst() returns (r: Result<Option<int>>)
      modifies this
      requires Valid() && RemoveFirstSafe()
      ensures Valid()
      ensures old(Contents) == [] ==> r == Err(Runtime) && Contents == old(Contents) && nodes == old(nodes)
      ensures old(Contents) != [] ==> Contents == old(Contents)[1..]
      ensures |nodes| == |old(nodes)|
      ensures |old(Contents)| == 1 ==> r == Ok(None)
      ensures |old(Contents)| >= 2 ==> r == Ok(Some(old(Contents)[1]))
      ensures old(Contents) != [] ==> nodes[old(head)].data == None
    {
      if size == 0 {
        return Err(Runtime);
      }
      DistinctAt(chain, 0);
      nodes := nodes[head := nodes[head].(data := None)];
      head := nodes[head].next;
      var removed := nodes[head].data;
      size := size - 1;
      if |chain| >= 2 {
        DistinctSlice(chain, 1, |chain|);
        chain := chain[1..];
      }
      Contents := Contents[1..];
      r := Ok(removed);
    }

    /**
     * `removeLast()`: an empty list is a RuntimeException. Otherwise the walk
     * from the head stops at the node linked to the tail (the loop below
     * exits where the source breaks out of its own); that node is cut
     * off from the tail, the tail's element is nulled, the node becomes the
     * tail, and what is returned is its element: the second-last element.
     * On a one-element list only the self-linked node is linked to the tail
     * (itself); without that loop no node is, nothing is unlinked, and null
     * is returned. Either way the count goes down.
     */
    method RemoveLast() returns (r: Result<Option<int>>)
      modifies this
      requires Valid()
      ensures Valid()
      ensures old(Contents) == [] ==> r == Err(Runtime) && Contents == old(Contents) && nodes == old(nodes)
      ensures old(Contents) != [] ==> Contents == old(Contents)[..|old(Contents)| - 1]
      ensures |nodes| == |old(nodes)| && (|old(Contents)| >= 2 ==> 0 <= tail < |nodes|)
      ensures |old(Contents)| == 1 ==> r == Ok(None)
      ensures |old(Contents)| >= 2 ==> r == Ok(Some(old(Contents)[|old(Contents)| - 2]))
      ensures |old(Contents)| >= 2 ==> nodes[old(tail)].data == None && nodes[tail].next == Null
    {
      if size == 0 {
        return Err(Runtime);
      }
      var traverse := head;
      ghost var k := 0;
      while traverse != Null && nodes[traverse].next != tail
        invariant 0 <= k <= |chain|
        invariant k < |chain| ==> traverse == chain[k]
        invariant k == |chain| ==> traverse == Null
        invariant |chain| >= 2 ==> k <= |chain| - 2
        decreases |chain| - k
      {
        traverse := nodes[traverse].next;
        k := k + 1;
      }
      WalkStop(nodes, chain, k, traverse);
      var removed := None;
      if traverse != Null {
        nodes := nodes[traverse := nodes[traverse].(next := Null)];
        nodes := nodes[tail := nodes[tail].(data := None)];
        tail := traverse;
        removed := nodes[tail].data;
      }
      size := size - 1;
      chain := if |chain| >= 2 then chain[..|chain| - 1] else chain;
      Contents := Contents[..|Contents| - 1];
      Dropped(old(nodes), old(chain), old(Contents), traverse, nodes, chain, tail, Contents);
      r := Ok(removed);
    }

    /**
     * `removeAt(index)`: an index outside 1..size is an
     * IndexOutOfBoundsException, raised before anything changes; otherwise
     * the walk takes `index` steps from the head and yields the node it hands
     * to `removeNode`: the one after the index-th, or the tail's link past
     * the last.
     */
    method RemoveAt(index: int) returns (r: Result<int>)
      requires Valid()
      ensures r.Err? <==> index < 1 || index > |Contents|
      ensures r.Err? ==> r.error == IndexOutOfBounds
      ensures r.Ok? && index < |Contents| ==> r.value == chain[index]
      ensures r.Ok? && index == |Contents| ==> r.value == nodes[tail].next
    {
      if index > size || index < 1 {
        return Err(IndexOutOfBounds);
      }
      var trav := head;
      var i := index;
      while i > 0
        invariant 0 <= i <= index
        invariant trav == if index - i < |chain| then chain[index - i] else nodes[tail].next
      {
        trav := nodes[trav].next;
        i := i - 1;
      }
      r := Ok(trav);
    }

    /**
     * `indexOf(obj)`: the first 1-based position holding obj among the
     * `size` elements, or -1 if none does.
     */
    method IndexOf(x: int) returns (r: int)
      requires Valid()
      ensures r == -1 <==> x !in Contents
      ensures r != -1 ==> 1 <= r <= |Contents| && Contents[r - 1] == x
      ensures r != -1 ==> forall j :: 0 <= j < r - 1 ==> Contents[j] != x
    {
      var index := 1;
      var trav := head;
      while index <= size
        invariant 1 <= index <= size + 1
        invariant index <= size ==> trav == chain[index - 1]
        invariant forall j :: 0 <= j < index - 1 ==> Contents[j] != x
      {
        if nodes[trav].data == Some(x) {
          break;
        }
        trav := nodes[trav].next;
        index := index + 1;
      }
      if index > size {
        return -1;
      }
      r := index;
    }

    /** `contains(obj)`: whether `indexOf` finds it. */
    method Contains(x: int) returns (r: bool)
      requires Valid()
      ensures r <==> x in Contents
    {
      var i := IndexOf(x);
      r := i != -1;
    }
  }

  /**
   * What `addLast` leaves: a new node m holding x, linked after the old
   * tail, or to itself when the list was empty, becomes the tail.
   */
  lemma Appended(nodes: seq<SNode>, chain: seq<int>, contents: seq<int>, x: int, b: seq<SNode>,
                 c: seq<int>, hd: int, e: seq<int>)
    requires Shaped(nodes, chain, First(chain), Last(chain), |contents|, contents)
    requires b == (nodes + [SNode(Some(x), Null)])[if contents == [] then |nodes| else Last(chain) :=
                   (nodes + [SNode(Some(x), Null)])[if contents == [] then |nodes| else Last(chain)].(next := |nodes|)]
    requires c == (if contents == [] then [|nodes|] else chain + [|nodes|])
    requires hd == (if contents == [] then |nodes| else First(chain)) && e == contents + [x]
    ensures Shaped(b, c, hd, |nodes|, |e|, e)
    ensures |b| == |nodes| + 1 && b[|nodes|].next == if contents == [] then |nodes| else Null
  {
    var m := |nodes|;
    if contents != [] {
      DistinctAt(chain, |chain| - 1);
      DistinctInsert(chain, |chain|, m);
      assert c == InsertAt(chain, |chain|, m);
      forall i | 0 <= i < |c|
        ensures i < |chain| ==> c[i] == chain[i] && b[c[i]].data == nodes[chain[i]].data
        ensures i < |chain| - 1 ==> b[c[i]].next == c[i + 1]
      {
      }
    }
  }

  /**
   * The walk of `removeLast` stopped at position k of the chain, at node t
   * (null past the end), without passing the second-last node, and t links
   * to the tail.
   */
  ghost predicate WalkStopped(nodes: seq<SNode>, chain: seq<int>, k: int, t: int) {
    && 0 <= k <= |chain| && (k < |chain| ==> t == chain[k]) && (k == |chain| ==> t == Null)
    && (|chain| >= 2 ==> k <= |chain| - 2)
    && (t != Null ==> 0 <= t < |nodes| && nodes[t].next == Last(chain))
  }

  /** So the walk stops at the second-last node, or on a one-node chain at its node or past it. */
  lemma WalkStop(nodes: seq<SNode>, chain: seq<int>, k: int, t: int)
    requires Chain(nodes, chain) && chain != [] && WalkStopped(nodes, chain, k, t)
    ensures |chain| >= 2 ==> t == chain[|chain| - 2]
    ensures |chain| == 1 ==> t == Null || t == chain[0]
  {
    DistinctAt(chain, |chain| - 1);
  }

  /**
   * What `removeLast` leaves of a non-empty list, given the node t its walk
   * stopped at (null if none): with t the tail is cut off t and its element
   * nulled; the chain loses its last node unless it has only one, and the
   * contents lose their last element.
   */
  lemma Dropped(nodes: seq<SNode>, chain: seq<int>, contents: seq<int>, t: int, b: seq<SNode>,
                c: seq<int>, tl: int, e: seq<int>)
    requires Chain(nodes, chain) && |chain| == |contents| >= 1
    requires forall i {:trigger nodes[chain[i]]} :: 0 <= i < |chain| ==> nodes[chain[i]].data == Some(contents[i])
    requires t == Null || t == if |chain| >= 2 then chain[|chain| - 2] else chain[0]
    requires t == Null ==> |chain| == 1 && b == nodes
    requires t != Null ==>
      b == nodes[t := nodes[t].(next := Null)][Last(chain) := nodes[t := nodes[t].(next := Null)][Last(chain)].(data := None)]
    requires c == (if |chain| >= 2 then chain[..|chain| - 1] else chain)
    requires tl == (if t == Null then Last(chain) else t) && e == contents[..|contents| - 1]
    ensures |b| == |nodes| && Shaped(b, c, First(chain), tl, |e|, e)
    ensures |chain| >= 2 ==> b[t].data == Some(contents[|chain| - 2]) && b[t].next == Null && b[Last(chain)].data == None
  {
    var n := |chain|;
    if n >= 2 {
      var c, e := chain[..n - 1], contents[..n - 1];
      DistinctSlice(chain, 0, n - 1);
      DistinctAt(chain, n - 1);
      DistinctAt(chain, n - 2);
      forall i | 0 <= i < n - 1
        ensures c[i] == chain[i] && e[i] == contents[i]
        ensures b[c[i]].data == Some(e[i])
        ensures i < n - 2 ==> b[c[i]].next == c[i + 1]
      {
      }
    }
  }

  /**
   * [1, 2, 3] built with `addLast`: `removeFirst` and then `removeLast` both
   * answer 2, which neither of them removed.
   */
  method RemoveAnswers() returns (l: SinglyLinkedList, r1: Result<Option<int>>, r2: Result<Option<int>>)
    ensures l.Valid() && l.Contents == [2]
    ensures r1 == Ok(Some(2)) && r2 == Ok(Some(2))
  {
    l := new SinglyLinkedList();
    l.AddLast(1);
    l.AddLast(2);
    l.AddLast(3);
    r1 := l.RemoveFirst();
    r2 := l.RemoveLast();
  }

  /**
   * A one-element list made by `addLast` links its node to itself, so
   * `removeFirst` answers null; made by `addFirst` it does not, and
   * `removeFirst` would dereference null.
   */
  method OneElement() returns (l1: SinglyLinkedList, r: Result<Option<int>>, l2: SinglyLinkedList)
    ensures l1.Valid() && l1.Contents == [] && r == Ok(None)
    ensures l2.Valid() && l2.Contents == [7] && !l2.RemoveFirstSafe()
  {
    l1 := new SinglyLinkedList();
    l1.AddLast(7);
    r := l1.RemoveFirst();
    l2 := new SinglyLinkedList();
    l2.AddFirst(7);
  }
}

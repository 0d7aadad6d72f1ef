/**
 * The indexed binary min-heap of PriorityQueue.java: the heap in level order
 * (an ArrayList, here a sequence) and a HashMap from each value to the TreeSet
 * of positions recorded for it (here a map to a set).
 *
 * The model follows the code as written, including where it departs from its
 * comments: `add` never records the new element in the map, `sink` never
 * exchanges anything, and the array constructor heapifies with `swim`.
 * Java's NullPointerException and IndexOutOfBoundsException sites are
 * preconditions; explicitly thrown exceptions are results.
 */
module IndexedPriorityQueue {
  import opened Errors
  import opened HeapOrder
  import opened PositionIndex

  /** m is the least element of s. */
  predicate IsLeast(m: nat, s: set<nat>) {
    m in s && forall x :: x in s ==> m <= x
  }

  lemma {:induction false} HasMinimum(s: set<nat>)
    requires s != {}
    ensures exists m :: IsLeast(m, s)
    decreases s
  {
    var x :| x in s;
    if s == {x} {
      assert IsLeast(x, s);
    } else {
      var rest := s - {x};
      HasMinimum(rest);
      var m :| IsLeast(m, rest);
      var least := if x < m then x else m;
      forall y | y in s
        ensures least <= y
      {
        if y != x {
          assert y in rest;
        }
      }
      assert IsLeast(least, s);
    }
  }

  /** `TreeSet.first()`: the least element of a non-empty set. */
  function SetMin(s: set<nat>): (m: nat)
    requires s != {}
    ensures m in s && forall x :: x in s ==> m <= x
  {
    HasMinimum(s);
    var m :| IsLeast(m, s); m
  }

  /**
   * `swim(k)` dereferences no missing TreeSet: at every exchange it makes, both
   * values involved are keys of the map.
   */
  ghost predicate SwimSafe(h: seq<int>, m: Index, k: nat)
    requires k < |h|
    decreases k
  {
    || Settled(h, k)
    || (&& h[k] in m && h[Parent(k)] in m
        && SwimSafe(SwapSeq(h, k, Parent(k)), SwappedIndex(m, h[k], h[Parent(k)], k, Parent(k)), Parent(k)))
  }

  /** When every value in the heap is a key, `swim` is safe from any position. */
  lemma {:induction false} SwimSafeWhenAllKeys(h: seq<int>, m: Index, k: nat)
    requires k < |h| && forall p :: 0 <= p < |h| ==> h[p] in m
    ensures SwimSafe(h, m, k)
    decreases k
  {
    if !Settled(h, k) {
      var p := Parent(k);
      var h', m' := SwapSeq(h, k, p), SwappedIndex(m, h[k], h[p], k, p);
      assert m'.Keys == m.Keys;
      forall q | 0 <= q < |h'|
        ensures h'[q] in m'
      {
        if q != k && q != p {
          assert h'[q] == h[q];
        }
      }
      SwimSafeWhenAllKeys(h', m', p);
    }
  }

  /**
   * The map after `swim(k)`: each exchange applies `mapSwap` to the two slots
   * it touches.
   */
  function SwimIndex(h: seq<int>, m: Index, k: nat): Index
    requires k < |h| && SwimSafe(h, m, k)
    decreases k
  {
    if Settled(h, k) then m
    else
      var p := Parent(k);
      SwimIndex(SwapSeq(h, k, p), SwappedIndex(m, h[k], h[p], k, p), p)
  }

  /**
   * `swim(k)` records every slot it exchanges and changes nothing else about
   * which slots are recorded; the index stays sound and keeps its keys.
   */
  lemma {:induction false} SwimTracks(h: seq<int>, m: Index, k: nat)
    requires k < |h| && Sound(h, m) && SwimSafe(h, m, k)
    ensures Sound(SwimSeq(h, k), SwimIndex(h, m, k))
    ensures SwimIndex(h, m, k).Keys == m.Keys
    ensures Untracked(SwimSeq(h, k), SwimIndex(h, m, k)) == Untracked(h, m) - SwimPath(h, k)
    decreases k
  {
    if !Settled(h, k) {
      var p := Parent(k);
      SwapIndex(h, m, k, p);
      SwimTracks(SwapSeq(h, k, p), SwappedIndex(m, h[k], h[p], k, p), p);
    }
  }

  class PriorityQueue {
    /** The heap in level order: the children of position i are 2i+1 and 2i+2. */
    var heap: seq<int>
    /** The Java field `map`: each value to the positions recorded for it. */
    var positions: Index

    /** What every operation keeps: each recorded position is right. */
    ghost predicate Valid()
      reads this
    {
      Sound(heap, positions)
    }

    /** `PriorityQueue()`, which delegates to `PriorityQueue(1)`. */
    constructor ()
      ensures Valid() && IndexConsistent(heap, positions)
      ensures heap == [] && positions == map[]
    {
      heap := [];
      positions := map[];
    }

    /** `PriorityQueue(size)`: the size only sizes the ArrayList, which rejects a negative one. */
    constructor WithCapacity(size: int)
      requires size >= 0
      ensures Valid() && IndexConsistent(heap, positions)
      ensures heap == [] && positions == map[]
    {
      heap := [];
      positions := map[];
    }

    /**
     * `PriorityQueue(T[] elems)`: appends and records every element, then calls
     * `swim` (not `sink`) from `max(0, size/2 - 1)` down to 0. With no elements
     * the first `swim(0)` reads past the end of the empty list.
     */
    constructor FromArray(elems: seq<int>)
      requires |elems| > 0
      ensures Valid() && IndexConsistent(heap, positions)
      ensures heap == Heapify(elems)
      ensures multiset(heap) == multiset(elems)
    {
      heap := [];
      positions := map[];
      new;
      var size := |elems|;
      for i := 0 to size
        invariant heap == elems[..i]
        invariant IndexConsistent(heap, positions)
      {
        AppendAddedIndex(heap, positions, elems[i]);
        heap := heap + [elems[i]];
        MapAdd(elems[i], i);
        assert heap == elems[..i + 1];
      }
      assert heap == elems;
      var i := HeapifyStart(size);
      while i >= 0
        invariant -1 <= i < size && |heap| == size
        invariant IndexConsistent(heap, positions)
        invariant SwimDownFrom(heap, i) == Heapify(elems)
        decreases i + 1
      {
        forall p | 0 <= p < |heap|
          ensures heap[p] in positions
        {
          assert Tracked(heap, positions, p);
        }
        SwimSafeWhenAllKeys(heap, positions, i);
        ConsistentIffNoneUntracked(heap, positions);
        ghost var before := heap;
        Swim(i);
        ConsistentIffNoneUntracked(heap, positions);
        assert SwimDownFrom(before, i) == SwimDownFrom(heap, i - 1);
        i := i - 1;
      }
    }

    /**
     * `PriorityQueue(Collection<T> elems)`: one `add` per element in iteration
     * order. Since `add` records nothing in the map, the first exchange `swim`
     * would make dereferences a missing set; so this succeeds only on an
     * already heap-ordered sequence, and then leaves the map empty.
     */
    constructor FromCollection(elems: seq<int>)
      requires HeapOrdered(elems)
      ensures Valid()
      ensures heap == elems && positions == map[]
    {
      heap := [];
      positions := map[];
      new;
      for k := 0 to |elems|
        invariant Valid()
        invariant heap == elems[..k] && positions == map[]
      {
        assert Settled(heap + [elems[k]], k) by {
          assert (heap + [elems[k]])[k] == elems[k];
          if k > 0 {
            assert (heap + [elems[k]])[Parent(k)] == elems[Parent(k)];
          }
        }
        var _ := Add(Some(elems[k]));
        assert heap == elems[..k + 1];
      }
      assert heap == elems;
    }

    /** The number of elements; an empty heap has an empty map. */
    function GetSize(): (r: nat)
      reads this
      ensures Valid() && r == 0 ==> positions == map[]
    {
      if |heap| == 0 then
        assert Valid() ==> positions == map[] by {
          if Valid() {
            SoundEmpty(heap, positions);
          }
        }
        0
      else |heap|
    }

    /** `isEmpty()`: exactly when `peek` answers null. */
    function IsEmpty(): (r: bool)
      reads this
      ensures r <==> Peek().None?
    {
      GetSize() == 0
    }

    /** `clear()`: both the list and the map become empty. */
    method Clear()
      modifies this
      ensures Valid() && IndexConsistent(heap, positions)
      ensures heap == [] && positions == map[]
    {
      heap := [];
      positions := map[];
    }

    /** `mapAdd(value, index)`: index joins value's set, which is created if absent. */
    method MapAdd(value: int, index: nat)
      modifies this
      ensures heap == old(heap)
      ensures positions == AddedIndex(old(positions), value, index)
      ensures value in positions && positions[value] == old(if value in positions then positions[value] else {}) + {index}
      ensures forall v :: v != value ==> (v in positions <==> v in old(positions))
    {
      if value !in positions {
        var set1: set<nat> := {index};
        assert set1 == {} + {index};
        positions := positions[value := set1];
      } else {
        positions := positions[value := positions[value] + {index}];
      }
    }

    /**
     * `mapRemove(value, index)`: removes exactly index from value's set and the
     * key with it once the set is empty. A missing key is a NullPointerException.
     */
    method MapRemove(value: int, index: nat)
      requires value in positions
      modifies this
      ensures heap == old(heap)
      ensures positions == RemovedIndex(old(positions), value, index)
      ensures value in positions <==> old(positions[value]) - {index} != {}
      ensures value in positions ==> positions[value] == old(positions[value]) - {index}
    {
      var s := positions[value] - {index};
      positions := positions[value := s];
      if s == {} {
        positions := positions - {value};
      }
    }

    /**
     * `mapGet(obj)`: the least position recorded for obj. A missing key is a
     * NullPointerException.
     */
    function MapGet(obj: int): (p: nat)
      reads this
      requires obj in positions && positions[obj] != {}
      ensures p in positions[obj] && forall q :: q in positions[obj] ==> p <= q
      ensures Valid() ==> p < |heap| && heap[p] == obj
    {
      SetMin(positions[obj])
    }

    /**
     * `swap(i, j)`: exchanges two heap slots and their recorded positions. The
     * indices must be in range and both values keys of the map.
     */
    method Swap(i: int, j: int)
      requires 0 <= i < |heap| && 0 <= j < |heap|
      requires heap[i] in positions && heap[j] in positions
      modifies this
      ensures heap == SwapSeq(old(heap), i, j)
      ensures positions == SwappedIndex(old(positions), old(heap[i]), old(heap[j]), i, j)
    {
      var x := heap[i];
      var y := heap[j];
      heap := heap[i := y];
      heap := heap[j := x];
      MapSwap(x, y, i, j);
    }

    /**
     * `mapSwap(x, y, i, j)`: moves i from x's set to j and j from y's set to i.
     * When x == y the two sets are the same TreeSet.
     */
    method MapSwap(x: int, y: int, i: nat, j: nat)
      requires x in positions && y in positions
      modifies this
      ensures heap == old(heap)
      ensures positions == SwappedIndex(old(positions), x, y, i, j)
    {
      ghost var m0 := positions;
      positions := positions[x := positions[x] - {i}];
      positions := positions[y := positions[y] - {j}];
      positions := positions[x := positions[x] + {j}];
      positions := positions[y := positions[y] + {i}];
      if x == y {
        assert positions[x] == m0[x] + {i, j};
      }
    }

    /** `isLess(i, j)`: `heap[i] <= heap[j]`, so a position is always "less" than itself. */
    function IsLess(i: int, j: int): (r: bool)
      reads this
      requires 0 <= i < |heap| && 0 <= j < |heap|
      ensures i == j ==> r
      ensures r <==> heap[i] <= heap[j]
    {
      heap[i] <= heap[j]
    }

    /**
     * `sink(index)`. Its exit test `index < smallest` compares positions, and the
     * chosen child always lies after index, so the loop leaves at its first pass
     * and the exchange is unreachable.
     */
    method Sink(index: nat)
      modifies this
      ensures heap == old(heap) && positions == old(positions)
    {
      var size := |heap|;
      var done := false;
      while !done
        invariant heap == old(heap) && positions == old(positions)
        decreases !done
      {
        var left := 2 * index + 1;
        var right := 2 * index + 2;
        var smallest := left;
        if left >= size {
          done := true;
        } else {
          if right < size && IsLess(right, left) {
            smallest := right;
          }
          if index < smallest {
            done := true;
          } else {
            // swap(index, smallest); index = smallest;  -- never reached
            assert false;
          }
        }
      }
    }

    /**
     * `swim(index)`: exchanges with the parent while the parent is greater; the
     * index strictly decreases. Every exchange records both slots it touches.
     */
    method Swim(index: nat)
      requires Valid() && index < |heap| && SwimSafe(heap, positions, index)
      modifies this
      ensures Valid()
      ensures heap == SwimSeq(old(heap), index)
      ensures positions == SwimIndex(old(heap), old(positions), index)
      ensures positions.Keys == old(positions).Keys
      ensures Settled(old(heap), index) ==> positions == old(positions)
      ensures Untracked(heap, positions) <= old(Untracked(heap, positions))
      ensures !Settled(old(heap), index) ==> index !in Untracked(heap, positions)
      ensures Untracked(heap, positions) == old(Untracked(heap, positions)) - SwimPath(old(heap), index)
    {
      var k: nat := index;
      while true
        invariant k <= index && k < |heap|
        invariant SwimSafe(heap, positions, k)
        invariant SwimSeq(heap, k) == SwimSeq(old(heap), index)
        invariant SwimIndex(heap, positions, k) == SwimIndex(old(heap), old(positions), index)
        decreases k
      {
        var parent := JavaDiv(k - 1, 2);
        if parent < 0 || IsLess(parent, k) {
          break;
        }
        Swap(k, parent);
        k := parent;
      }
      SwimTracks(old(heap), old(positions), index);
    }

    /** `contains(elem)`: a map lookup; null is never contained. */
    function Contains(elem: Option<int>): (r: bool)
      reads this
      ensures elem.None? ==> !r
      ensures elem.Some? ==> (r <==> elem.value in positions)
      ensures elem.Some? && IndexConsistent(heap, positions) ==> (r <==> elem.value in heap)
    {
      if elem.None? then false
      else
        ConsistentKeys(heap, positions, elem.value);
        elem.value in positions
    }

    /** `peek()`: null on an empty heap, else the root, which is the minimum of an ordered heap. */
    function Peek(): (r: Option<int>)
      reads this
      ensures r.None? <==> |heap| == 0
      ensures r.Some? ==> r.value == heap[0]
      ensures r.Some? && HeapOrdered(heap) ==> forall i :: 0 <= i < |heap| ==> r.value <= heap[i]
    {
      RootIsMinimum(heap);
      if |heap| == 0 then None else Some(heap[0])
    }

    /**
     * `add(obj)`: rejects null; otherwise appends and swims, without ever calling
     * `mapAdd`. The map keeps its keys; if the new slot did not move it stays
     * unrecorded, and if it moved the exchanges recorded every slot they touched.
     */
    method Add(obj: Option<int>) returns (r: Outcome)
      requires Valid()
      requires obj.Some? ==> SwimSafe(heap + [obj.value], positions, |heap|)
      modifies this
      ensures Valid()
      ensures obj.None? ==> r == Fail(IllegalArgument) && heap == old(heap) && positions == old(positions)
      ensures obj.Some? ==> r == Pass && heap == SwimSeq(old(heap) + [obj.value], old(|heap|))
      ensures positions.Keys == old(positions).Keys
      ensures obj.Some? && Settled(old(heap) + [obj.value], old(|heap|)) ==>
                && positions == old(positions)
                && Untracked(heap, positions) == old(Untracked(heap, positions)) + {old(|heap|)}
      ensures obj.Some? && !Settled(old(heap) + [obj.value], old(|heap|)) ==>
                Untracked(heap, positions) <= old(Untracked(heap, positions))
      ensures obj.Some? ==>
                Untracked(heap, positions) ==
                  old(Untracked(heap, positions)) + {old(|heap|)} - SwimPath(old(heap) + [obj.value], old(|heap|))
      ensures obj.Some? && old(HeapOrdered(heap)) ==> HeapOrdered(heap)
    {
      if obj.None? {
        return Fail(IllegalArgument);
      }
      ghost var h0 := heap;
      AppendIndex(heap, positions, obj.value);
      heap := heap + [obj.value];
      var lastElemIndex := |heap| - 1;
      Swim(lastElemIndex);
      if HeapOrdered(h0) {
        AppendOrderedExceptLast(h0, obj.value);
        SwimRestoresOrder(h0 + [obj.value], lastElemIndex);
      }
      r := Pass;
    }

    /** `poll()`: `removeAt(0)`. */
    method Poll() returns (r: Result<int>)
      requires Valid()
      requires |heap| > 0 ==> heap[0] in positions && heap[|heap| - 1] in positions
      modifies this
      ensures Valid()
      ensures old(|heap|) == 0 ==> r == Err(NoSuchElement) && heap == old(heap) && positions == old(positions)
      ensures old(|heap|) > 0 ==>
                && r == Ok(old(heap[0]))
                && heap == RemovedAt(old(heap), 0)
                && Untracked(heap, positions) == old(Untracked(heap, positions)) - {0, old(|heap|) - 1}
      ensures old(IndexConsistent(heap, positions)) ==> IndexConsistent(heap, positions)
    {
      r := RemoveAt(0);
    }

    /**
     * `removeAt(index)`: throws on an empty heap; otherwise swaps the slot with the
     * last, drops the last slot and its recorded position, and (uselessly) sinks.
     * The index must be in range and the two values keys of the map.
     */
    method RemoveAt(index: int) returns (r: Result<int>)
      requires Valid()
      requires |heap| > 0 ==> 0 <= index < |heap| && heap[index] in positions && heap[|heap| - 1] in positions
      modifies this
      ensures Valid()
      ensures old(|heap|) == 0 ==> r == Err(NoSuchElement) && heap == old(heap) && positions == old(positions)
      ensures old(|heap|) > 0 ==>
                && r == Ok(old(heap[index]))
                && heap == RemovedAt(old(heap), index)
                && Untracked(heap, positions) == old(Untracked(heap, positions)) - {index, old(|heap|) - 1}
      ensures old(IndexConsistent(heap, positions)) ==> IndexConsistent(heap, positions)
    {
      if IsEmpty() {
        return Err(NoSuchElement);
      }
      ghost var u0 := Untracked(heap, positions);
      ghost var c0 := IndexConsistent(heap, positions);
      var lastElemIndex := |heap| - 1;
      SwapRemoveIndex(heap, positions, index);
      Swap(index, lastElemIndex);
      var removed := heap[lastElemIndex];
      heap := heap[..lastElemIndex];
      MapRemove(removed, lastElemIndex);
      Sink(index);
      r := Ok(removed);
    }

    /**
     * `remove(obj)`: `removeAt(mapGet(obj)) != null`. An absent value makes
     * `mapGet` dereference a missing set, so obj must be a key; then the answer is
     * always true and the least recorded position of obj is removed.
     */
    method Remove(obj: int) returns (r: bool)
      requires Valid()
      requires obj in positions && |heap| > 0 && heap[|heap| - 1] in positions
      modifies this
      ensures Valid()
      ensures r
      ensures heap == RemovedAt(old(heap), SetMin(old(positions[obj])))
      ensures multiset(heap) == old(multiset(heap)) - multiset{obj}
      ensures Untracked(heap, positions) == old(Untracked(heap, positions)) - {SetMin(old(positions[obj])), old(|heap|) - 1}
      ensures old(IndexConsistent(heap, positions)) ==> IndexConsistent(heap, positions)
    {
      var index := MapGet(obj);
      var removed := RemoveAt(index);
      r := removed.Ok?;
    }

    /**
     * `isMinHeap(k)`: true exactly when every position of the subtree rooted at k
     * is not greater than its children; from the root, exactly heap order.
     */
    function IsMinHeap(k: nat): (r: bool)
      reads this
      ensures r <==> forall m :: 0 <= m < |heap| && Descendant(k, m) ==> ChildrenNotSmaller(heap, m)
      ensures k == 0 ==> (r <==> HeapOrdered(heap))
      decreases |heap| - k
    {
      MinHeapFromRoot(heap);
      if k >= |heap| then
        NoDescendantsPastEnd(heap, k);
        true
      else
        var left := 2 * k + 1;
        var right := 2 * k + 2;
        SubtreeSplit(heap, k);
        if left < |heap| && !IsLess(k, left) then false
        else if right < |heap| && !IsLess(k, right) then false
        else IsMinHeap(left) && IsMinHeap(right)
    }
  }

  lemma NoDescendantsPastEnd(h: seq<int>, k: nat)
    requires k >= |h|
    ensures forall m :: 0 <= m < |h| && Descendant(k, m) ==> ChildrenNotSmaller(h, m)
  {
    forall m | 0 <= m < |h| && Descendant(k, m)
      ensures false
    {
    }
  }

  lemma SubtreeSplit(h: seq<int>, k: nat)
    requires k < |h|
    ensures (forall m :: 0 <= m < |h| && Descendant(k, m) ==> ChildrenNotSmaller(h, m)) <==>
            && ChildrenNotSmaller(h, k)
            && (forall m :: 0 <= m < |h| && Descendant(2 * k + 1, m) ==> ChildrenNotSmaller(h, m))
            && (forall m :: 0 <= m < |h| && Descendant(2 * k + 2, m) ==> ChildrenNotSmaller(h, m))
  {
    forall m | 0 <= m < |h|
      ensures Descendant(k, m) <==> m == k || Descendant(2 * k + 1, m) || Descendant(2 * k + 2, m)
    {
      if m > k {
        DescendantSplit(k, m);
      } else {
        NotDescendantBelow(2 * k + 1, m);
        NotDescendantBelow(2 * k + 2, m);
      }
    }
  }

  /**
   * The converse of `FromCollection`'s precondition: on an input that is not
   * heap-ordered, the `add` of the first out-of-order element finds the heap so
   * far ordered, yet its `swim` exchanges and dereferences a missing set, since
   * the map is still empty.
   */
  lemma UnorderedCollectionFails(elems: seq<int>)
    requires !HeapOrdered(elems)
    ensures exists k :: 0 < k < |elems| && HeapOrdered(elems[..k]) && !SwimSafe(elems[..k + 1], map[], k)
  {
    var k := 1;
    while k < |elems| && elems[Parent(k)] <= elems[k]
      invariant 1 <= k <= |elems|
      invariant forall i :: 0 < i < k ==> elems[Parent(i)] <= elems[i]
    {
      k := k + 1;
    }
    assert k < |elems|;
    assert HeapOrdered(elems[..k]) by {
      forall i | 0 < i < k
        ensures elems[..k][Parent(i)] <= elems[..k][i]
      {
        assert elems[..k][Parent(i)] == elems[Parent(i)];
      }
    }
    assert elems[..k + 1][Parent(k)] == elems[Parent(k)];
    assert !SwimSafe(elems[..k + 1], map[], k);
  }

  /** The array constructor does not heap-order `[3, 2, 1]`: it only swims position 0. */
  lemma ArrayConstructorLeavesDisorder()
    ensures Heapify([3, 2, 1]) == [3, 2, 1] && !HeapOrdered([3, 2, 1])
  {
    assert Parent(1) == 0;
    assert Settled([3, 2, 1], 0);
  }

  /** Since `sink` does nothing, `poll` can leave an ordered heap out of order. */
  lemma PollCanBreakHeapOrder()
    ensures HeapOrdered([1, 2, 3]) && RemovedAt([1, 2, 3], 0) == [3, 2] && !HeapOrdered([3, 2])
  {
    assert Parent(1) == 0 && Parent(2) == 0;
  }

  /** `new PriorityQueue()`, `add(v)`, `contains(v)`: false, since `add` never records v. */
  method AddThenContains(v: int) returns (r: bool)
    ensures !r
  {
    var q := new PriorityQueue();
    var _ := q.Add(Some(v));
    r := q.Contains(Some(v));
  }
}

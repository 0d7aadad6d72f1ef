/**
 * The value side of the binary min-heap kept by PriorityQueue: level-order
 * positions, the parent relation, heap order, and the effect of `swim` on a
 * sequence of priorities.
 */
module HeapOrder {

  /** Java's `/` on `int`: the quotient truncated toward zero. */
  function JavaDiv(a: int, b: int): int
    requires b > 0
  {
    if a >= 0 then a / b else -((-a) / b)
  }

  /**
   * `(i - 1) / 2` evaluated as Java evaluates it. Position 0 is its own
   * "parent" because Java truncates -1/2 to 0; every other position is a child
   * of its parent.
   */
  function Parent(i: nat): (p: nat)
    ensures i == 0 ==> p == 0
    ensures i > 0 ==> p < i && (i == 2 * p + 1 || i == 2 * p + 2)
  {
    JavaDiv(i - 1, 2)
  }

  /** Heap order: no position holds a value smaller than its parent's. */
  ghost predicate HeapOrdered(h: seq<int>) {
    forall i :: 0 < i < |h| ==> h[Parent(i)] <= h[i]
  }

  /** Exchanging two positions. */
  function SwapSeq(h: seq<int>, i: nat, j: nat): (r: seq<int>)
    requires i < |h| && j < |h|
    ensures |r| == |h| && r[i] == h[j] && r[j] == h[i]
    ensures forall k :: 0 <= k < |h| && k != i && k != j ==> r[k] == h[k]
    ensures multiset(r) == multiset(h)
  {
    h[i := h[j]][j := h[i]]
  }

  /**
   * `removeAt(i)` on the priorities: position i takes the last element and the
   * last slot goes.
   */
  function RemovedAt(h: seq<int>, i: nat): (r: seq<int>)
    requires i < |h|
    ensures |r| == |h| - 1
    ensures multiset(r) == multiset(h) - multiset{h[i]}
    ensures forall k :: 0 <= k < |r| && k != i ==> r[k] == h[k]
    ensures i < |r| ==> r[i] == h[|h| - 1]
  {
    var s := SwapSeq(h, i, |h| - 1);
    assert s == s[..|h| - 1] + [s[|h| - 1]];
    s[..|h| - 1]
  }

  /** The test that ends `swim` at position k: its parent is not greater. */
  predicate Settled(h: seq<int>, k: nat)
    requires k < |h|
  {
    h[Parent(k)] <= h[k]
  }

  /**
   * What `swim(k)` does to the priorities: exchange position k with its parent
   * while the parent is greater. Position 0 is always settled, since it is
   * compared with itself.
   */
  function SwimSeq(h: seq<int>, k: nat): (r: seq<int>)
    requires k < |h|
    ensures |r| == |h| && multiset(r) == multiset(h)
    ensures Settled(h, k) ==> r == h
    decreases k
  {
    if Settled(h, k) then h else SwimSeq(SwapSeq(h, k, Parent(k)), Parent(k))
  }

  /**
   * The positions `swim(k)` exchanges: k and each parent it moves through,
   * none when k is already settled.
   */
  function SwimPath(h: seq<int>, k: nat): (r: set<nat>)
    requires k < |h|
    ensures r == {} <==> Settled(h, k)
    ensures !Settled(h, k) ==> k in r && Parent(k) in r
    ensures forall p :: p in r ==> p <= k
    decreases k
  {
    if Settled(h, k) then {} else {k, Parent(k)} + SwimPath(SwapSeq(h, k, Parent(k)), Parent(k))
  }

  /**
   * The array constructor's heapify loop: `swim(i)` for i from `start` down to
   * 0, in that order.
   */
  function SwimDownFrom(h: seq<int>, start: int): (r: seq<int>)
    requires start < |h|
    ensures |r| == |h| && multiset(r) == multiset(h)
    decreases start + 1
  {
    if start < 0 then h else SwimDownFrom(SwimSeq(h, start), start - 1)
  }

  /** The first position the array constructor swims: `Math.max(0, size/2 - 1)`. */
  function HeapifyStart(size: nat): (s: nat)
    requires size > 0
    ensures s < size && (size >= 4 ==> 2 * s + 1 < size)
  {
    if size / 2 - 1 > 0 then size / 2 - 1 else 0
  }

  /** The heap the array constructor builds from `elems`. */
  function Heapify(elems: seq<int>): (r: seq<int>)
    requires |elems| > 0
    ensures |r| == |elems| && multiset(r) == multiset(elems)
  {
    SwimDownFrom(elems, HeapifyStart(|elems|))
  }

  /**
   * The state `swim(k)` expects: heap order holds everywhere except possibly
   * between k and its parent, and k's parent is not greater than k's children.
   */
  ghost predicate OrderedExceptAt(h: seq<int>, k: nat)
    requires k < |h|
  {
    && (forall i :: 0 < i < |h| && i != k ==> h[Parent(i)] <= h[i])
    && (k > 0 ==> forall c :: 0 < c < |h| && Parent(c) == k ==> h[Parent(k)] <= h[c])
  }

  /** Appending to a heap-ordered sequence leaves at most the new slot out of order. */
  lemma AppendOrderedExceptLast(h: seq<int>, v: int)
    requires HeapOrdered(h)
    ensures OrderedExceptAt(h + [v], |h|)
  {
    var h' := h + [v];
    forall i | 0 < i < |h'| && i != |h|
      ensures h'[Parent(i)] <= h'[i]
    {
      assert h'[i] == h[i] && h'[Parent(i)] == h[Parent(i)];
    }
  }

  /** One exchange of `swim` moves the only possible violation up to the parent. */
  lemma SwimStep(h: seq<int>, k: nat)
    requires k < |h| && OrderedExceptAt(h, k) && !Settled(h, k)
    ensures k > 0 && OrderedExceptAt(SwapSeq(h, k, Parent(k)), Parent(k))
  {
    var p := Parent(k);
    var h' := SwapSeq(h, k, p);
    assert k > 0;
    forall i | 0 < i < |h'| && i != p
      ensures h'[Parent(i)] <= h'[i]
    {
      if i == k {
      } else if Parent(i) == k {
        assert h'[Parent(i)] == h[p] && h'[i] == h[i];
      } else if Parent(i) == p {
        assert h[p] <= h[i];
      } else {
        assert Parent(i) != k && Parent(i) != p;
      }
    }
    if p > 0 {
      var g := Parent(p);
      assert g != k && g != p;
      assert h[g] <= h[p];
      forall c | 0 < c < |h'| && Parent(c) == p
        ensures h'[g] <= h'[c]
      {
        if c != k {
          assert h[p] <= h[c];
        }
      }
    }
  }

  /** Swimming the only out-of-order slot restores heap order. */
  lemma {:induction false} SwimRestoresOrder(h: seq<int>, k: nat)
    requires k < |h| && OrderedExceptAt(h, k)
    ensures HeapOrdered(SwimSeq(h, k))
    decreases k
  {
    if Settled(h, k) {
      forall i | 0 < i < |h|
        ensures h[Parent(i)] <= h[i]
      {
        if i != k {
        }
      }
    } else {
      SwimStep(h, k);
      SwimRestoresOrder(SwapSeq(h, k, Parent(k)), Parent(k));
    }
  }

  /** The root of a heap-ordered sequence is its minimum. */
  lemma {:induction false} RootIsMinimum(h: seq<int>)
    ensures HeapOrdered(h) && |h| > 0 ==> forall i :: 0 <= i < |h| ==> h[0] <= h[i]
  {
    if HeapOrdered(h) && |h| > 0 {
      forall i | 0 <= i < |h|
        ensures h[0] <= h[i]
      {
        AncestorsNotGreater(h, i);
      }
    }
  }

  lemma {:induction false} AncestorsNotGreater(h: seq<int>, i: nat)
    requires HeapOrdered(h) && i < |h|
    ensures h[0] <= h[i]
    decreases i
  {
    if i > 0 {
      AncestorsNotGreater(h, Parent(i));
    }
  }

  /** m lies in the subtree rooted at position k. */
  predicate Descendant(k: nat, m: nat)
    decreases m
  {
    m == k || (m > k && Descendant(k, Parent(m)))
  }

  /** `isMinHeap`'s test at one position: neither existing child is smaller. */
  predicate ChildrenNotSmaller(h: seq<int>, m: nat)
    requires m < |h|
  {
    && (2 * m + 1 < |h| ==> h[m] <= h[2 * m + 1])
    && (2 * m + 2 < |h| ==> h[m] <= h[2 * m + 2])
  }

  /** Below its root, a subtree is the union of the subtrees at the two children. */
  lemma {:induction false} DescendantSplit(k: nat, m: nat)
    requires m > k
    ensures Descendant(k, m) <==> Descendant(2 * k + 1, m) || Descendant(2 * k + 2, m)
    decreases m
  {
    var p := Parent(m);
    if p == k {
      assert Descendant(k, m);
      assert m == 2 * k + 1 || m == 2 * k + 2;
    } else if p > k {
      DescendantSplit(k, p);
      assert m > 2 * k + 2;
    } else {
      assert !Descendant(k, p) by { NotDescendantBelow(k, p); }
      NotDescendantBelow(2 * k + 1, m);
      NotDescendantBelow(2 * k + 2, m);
      assert !Descendant(2 * k + 1, p) by { NotDescendantBelow(2 * k + 1, p); }
      assert !Descendant(2 * k + 2, p) by { NotDescendantBelow(2 * k + 2, p); }
    }
  }

  lemma NotDescendantBelow(k: nat, m: nat)
    requires m < k
    ensures !Descendant(k, m)
  {
  }

  /** Every position is in the subtree of the root. */
  lemma {:induction false} RootAncestor(m: nat)
    ensures Descendant(0, m)
    decreases m
  {
    if m > 0 {
      RootAncestor(Parent(m));
    }
  }

  /** From the root, `isMinHeap`'s local tests together are exactly heap order. */
  lemma MinHeapFromRoot(h: seq<int>)
    ensures (forall m :: 0 <= m < |h| && Descendant(0, m) ==> ChildrenNotSmaller(h, m))
            <==> HeapOrdered(h)
  {
    if HeapOrdered(h) {
      forall m | 0 <= m < |h|
        ensures ChildrenNotSmaller(h, m)
      {
        if 2 * m + 1 < |h| { assert Parent(2 * m + 1) == m; }
        if 2 * m + 2 < |h| { assert Parent(2 * m + 2) == m; }
      }
    }
    if forall m :: 0 <= m < |h| && Descendant(0, m) ==> ChildrenNotSmaller(h, m) {
      forall i | 0 < i < |h|
        ensures h[Parent(i)] <= h[i]
      {
        RootAncestor(Parent(i));
        assert ChildrenNotSmaller(h, Parent(i));
      }
    }
  }
}

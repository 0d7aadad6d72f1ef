/**
 * What the arena operations of BinarySearchTree do to the tree reachable from
 * a node: its keys, its search-tree order and its parent fields.
 */
module TreeFacts {
  import opened Errors
  import opened TreeArena

  /** The subtree of i contains the children of each of its nodes. */
  lemma {:induction false} ReachClosed(a: Arena, j: int, x: int)
    requires WellLinked(a) && IsRef(a, j) && x in Reach(a, j)
    ensures a[x].left != Null ==> a[x].left in Reach(a, j)
    ensures a[x].right != Null ==> a[x].right in Reach(a, j)
    decreases Rank(a, j)
  {
    if x != j {
      if x in Reach(a, a[j].left) {
        ReachClosed(a, a[j].left, x);
      } else {
        ReachClosed(a, a[j].right, x);
      }
    }
  }

  /** Two arenas that agree on the nodes of a subtree agree on everything about it. */
  lemma {:induction false} Agree(a: Arena, b: Arena, j: int)
    requires WellLinked(a) && WellLinked(b) && IsRef(a, j) && |a| <= |b|
    requires forall x :: x in Reach(a, j) ==> b[x] == a[x]
    ensures Reach(b, j) == Reach(a, j)
    ensures Keys(b, j) == Keys(a, j)
    ensures InOrder(b, j) == InOrder(a, j)
    ensures forall lo, hi :: Ordered(b, j, lo, hi) == Ordered(a, j, lo, hi)
    ensures ParentLinks(b, j) == ParentLinks(a, j)
    decreases Rank(a, j)
  {
    if j != Null {
      assert b[j] == a[j];
      Agree(a, b, a[j].left);
      Agree(a, b, a[j].right);
    }
  }

  /** In an ordered subtree every node has a key within the bounds. */
  lemma {:induction false} OrderedKeys(a: Arena, j: int, lo: Option<int>, hi: Option<int>)
    requires WellLinked(a) && IsRef(a, j) && Ordered(a, j, lo, hi)
    ensures forall x :: x in Reach(a, j) ==> a[x].data.Some? && Between(lo, hi, a[x].data.value)
    ensures forall k :: k in Keys(a, j) ==> Between(lo, hi, k)
    decreases Rank(a, j)
  {
    if j != Null {
      OrderedKeys(a, a[j].left, lo, a[j].data);
      OrderedKeys(a, a[j].right, a[j].data, hi);
    }
  }

  /** The key of every node of a subtree is one of its keys. */
  lemma {:induction false} ReachKeys(a: Arena, j: int, x: int)
    requires WellLinked(a) && IsRef(a, j) && x in Reach(a, j) && a[x].data.Some?
    ensures a[x].data.value in Keys(a, j)
    decreases Rank(a, j)
  {
    if x != j {
      if x in Reach(a, a[j].left) {
        ReachKeys(a, a[j].left, x);
      } else {
        ReachKeys(a, a[j].right, x);
      }
    }
  }

  /** An ordered subtree stays ordered under any bounds that hold all its keys. */
  lemma {:induction false} Rebound(a: Arena, j: int, lo: Option<int>, hi: Option<int>, lo': Option<int>, hi': Option<int>)
    requires WellLinked(a) && IsRef(a, j) && Ordered(a, j, lo, hi)
    requires forall k :: k in Keys(a, j) ==> Between(lo', hi', k)
    ensures Ordered(a, j, lo', hi')
    decreases Rank(a, j)
  {
    if j != Null {
      var k := a[j].data.value;
      assert k in Keys(a, j);
      OrderedKeys(a, a[j].left, lo, a[j].data);
      OrderedKeys(a, a[j].right, a[j].data, hi);
      Rebound(a, a[j].left, lo, a[j].data, lo', a[j].data);
      Rebound(a, a[j].right, a[j].data, hi, a[j].data, hi');
    }
  }

  /** In an ordered subtree the two child subtrees share no node and no key. */
  lemma SidesDisjoint(a: Arena, j: int, lo: Option<int>, hi: Option<int>)
    requires WellLinked(a) && 0 <= j < |a| && Ordered(a, j, lo, hi)
    ensures Reach(a, a[j].left) !! Reach(a, a[j].right)
    ensures Keys(a, a[j].left) !! Keys(a, a[j].right)
    ensures a[j].data.value !in Keys(a, a[j].left) + Keys(a, a[j].right)
  {
    var l, r, k := a[j].left, a[j].right, a[j].data.value;
    OrderedKeys(a, l, lo, a[j].data);
    OrderedKeys(a, r, a[j].data, hi);
    forall x | x in Reach(a, l)
      ensures x !in Reach(a, r)
    {
      assert a[x].data.value < k;
    }
    forall x | x in Keys(a, l)
      ensures x !in Keys(a, r) && x != k
    {
      assert x < k;
    }
    forall x | x in Keys(a, r)
      ensures x != k
    {
      assert x > k;
    }
  }

  /**
   * `searchRec` on an ordered subtree never unboxes a null key, and finds d
   * exactly when d is one of its keys.
   */
  lemma {:induction false} SearchCorrect(a: Arena, d: int, j: int, lo: Option<int>, hi: Option<int>)
    requires WellLinked(a) && 0 <= j < |a| && Ordered(a, j, lo, hi)
    ensures SearchSafe(a, d, j)
    ensures SearchRec(a, d, j) != Null <==> d in Keys(a, j)
    decreases Rank(a, j)
  {
    var k := a[j].data.value;
    SidesDisjoint(a, j, lo, hi);
    OrderedKeys(a, a[j].left, lo, a[j].data);
    OrderedKeys(a, a[j].right, a[j].data, hi);
    if a[j].left != Null {
      SearchCorrect(a, d, a[j].left, lo, a[j].data);
    }
    if a[j].right != Null {
      SearchCorrect(a, d, a[j].right, a[j].data, hi);
    }
  }

  /** `getMinValRec` on an ordered subtree reaches its least key. */
  lemma {:induction false} LeftmostIsMin(a: Arena, j: int, lo: Option<int>, hi: Option<int>)
    requires WellLinked(a) && 0 <= j < |a| && Ordered(a, j, lo, hi)
    ensures a[Leftmost(a, j)].data.Some?
    ensures a[Leftmost(a, j)].data.value in Keys(a, j)
    ensures forall k :: k in Keys(a, j) ==> a[Leftmost(a, j)].data.value <= k
    decreases Rank(a, j)
  {
    OrderedKeys(a, a[j].left, lo, a[j].data);
    OrderedKeys(a, a[j].right, a[j].data, hi);
    if a[j].left != Null {
      LeftmostIsMin(a, a[j].left, lo, a[j].data);
    }
  }

  /** Without a right child, the key of an ordered subtree's root is its greatest. */
  lemma RootIsMaxWithoutRight(a: Arena, j: int, lo: Option<int>, hi: Option<int>)
    requires WellLinked(a) && 0 <= j < |a| && Ordered(a, j, lo, hi) && a[j].right == Null
    ensures forall k :: k in Keys(a, j) ==> k <= a[j].data.value
  {
    OrderedKeys(a, a[j].left, lo, a[j].data);
  }

  /** At q itself: q gains the new leaf holding d on the side d's comparison picks. */
  lemma AttachHere(a: Arena, q: int, d: int)
    requires WellLinked(a) && 0 <= q < |a| && CanAttach(a, q, d)
    ensures Keys(Attach(a, q, d), q) == Keys(a, q) + {d}
    ensures ParentLinks(a, q) ==> ParentLinks(Attach(a, q, d), q)
  {
    var b, c := Attach(a, q, d), |a|;
    assert Keys(b, b[c].left) == {} && Keys(b, b[c].right) == {};
    assert Keys(b, c) == {d};
    assert ParentLinks(b, c);
    if d < a[q].data.value {
      Agree(a, b, a[q].right);
      assert b[q] == a[q].(left := c);
    } else {
      Agree(a, b, a[q].left);
      assert b[q] == a[q].(right := c);
    }
  }

  /**
   * Hanging a new key d below q adds d to the keys of exactly the subtrees that
   * contain q, and keeps the parent fields of every subtree right.
   */
  lemma {:induction false} AttachKeys(a: Arena, q: int, d: int, j: int)
    requires WellLinked(a) && 0 <= q < |a| && CanAttach(a, q, d) && IsRef(a, j)
    ensures Keys(Attach(a, q, d), j) == Keys(a, j) + (if q in Reach(a, j) then {d} else {})
    ensures ParentLinks(a, j) ==> ParentLinks(Attach(a, q, d), j)
    decreases Rank(a, j)
  {
    var b := Attach(a, q, d);
    if j == Null {
    } else if q !in Reach(a, j) {
      Agree(a, b, j);
    } else if j == q {
      AttachHere(a, q, d);
    } else {
      assert b[j] == a[j];
      AttachKeys(a, q, d, a[j].left);
      AttachKeys(a, q, d, a[j].right);
      if a[j].left != Null && a[j].left != q {
        assert b[a[j].left].parent == a[a[j].left].parent;
      }
      if a[j].right != Null && a[j].right != q {
        assert b[a[j].right].parent == a[a[j].right].parent;
      }
    }
  }

  /**
   * Hanging d where its search from j falls off keeps an ordered subtree
   * ordered, as long as d lies within the subtree's bounds.
   */
  lemma {:induction false} AttachOrdered(a: Arena, d: int, j: int, lo: Option<int>, hi: Option<int>)
    requires WellLinked(a) && 0 <= j < |a| && Ordered(a, j, lo, hi) && Between(lo, hi, d)
    requires SearchSafe(a, d, j) && SearchRec(a, d, j) == Null
    ensures Ordered(Attach(a, LeafParent(a, d, j), d), j, lo, hi)
    decreases Rank(a, j)
  {
    var q := LeafParent(a, d, j);
    if q == j {
      AttachAtRoot(a, d, j, lo, hi);
    } else if d < a[j].data.value {
      assert q == LeafParent(a, d, a[j].left);
      AttachOrdered(a, d, a[j].left, lo, a[j].data);
      AttachBelow(a, q, d, j, lo, hi);
    } else {
      assert q == LeafParent(a, d, a[j].right);
      AttachOrdered(a, d, a[j].right, a[j].data, hi);
      AttachBelow(a, q, d, j, lo, hi);
    }
  }

  /** A leaf hung directly below j keeps j's subtree ordered when d fits its bounds. */
  lemma AttachAtRoot(a: Arena, d: int, j: int, lo: Option<int>, hi: Option<int>)
    requires WellLinked(a) && 0 <= j < |a| && Ordered(a, j, lo, hi) && Between(lo, hi, d)
    requires CanAttach(a, j, d)
    ensures Ordered(Attach(a, j, d), j, lo, hi)
  {
    var b := Attach(a, j, d);
    assert Ordered(b, |a|, lo, a[j].data) || Ordered(b, |a|, a[j].data, hi);
    if d < a[j].data.value {
      Agree(a, b, a[j].right);
    } else {
      Agree(a, b, a[j].left);
    }
  }

  /**
   * A leaf hung strictly inside one child's subtree leaves the other side and
   * the root untouched, so order at j follows from order at that child.
   */
  lemma AttachBelow(a: Arena, q: int, d: int, j: int, lo: Option<int>, hi: Option<int>)
    requires WellLinked(a) && 0 <= j < |a| && Ordered(a, j, lo, hi)
    requires 0 <= q < |a| && CanAttach(a, q, d) && q != j
    requires d < a[j].data.value ==>
      a[j].left != Null && q in Reach(a, a[j].left) && Ordered(Attach(a, q, d), a[j].left, lo, a[j].data)
    requires d > a[j].data.value ==>
      a[j].right != Null && q in Reach(a, a[j].right) && Ordered(Attach(a, q, d), a[j].right, a[j].data, hi)
    requires d != a[j].data.value
    ensures Ordered(Attach(a, q, d), j, lo, hi)
  {
    var b := Attach(a, q, d);
    SidesDisjoint(a, j, lo, hi);
    assert b[j] == a[j];
    if d < a[j].data.value {
      Agree(a, b, a[j].right);
    } else {
      Agree(a, b, a[j].left);
    }
  }

  /**
   * `insertRec(d, i)` on an ordered subtree: the keys gain d, order and the
   * parent fields are kept.
   */
  lemma InsertedFacts(a: Arena, d: int, i: int)
    requires WellLinked(a) && 0 <= i < |a| && IsBST(a, i)
    ensures SearchSafe(a, d, i)
    ensures Keys(Inserted(a, d, i), i) == Keys(a, i) + {d}
    ensures IsBST(Inserted(a, d, i), i)
    ensures ParentLinks(a, i) ==> ParentLinks(Inserted(a, d, i), i)
  {
    SearchCorrect(a, d, i, None, None);
    if SearchRec(a, d, i) == Null {
      AttachKeys(a, LeafParent(a, d, i), d, i);
      AttachOrdered(a, d, i, None, None);
    }
  }

  /** b is a after `Splice(a, p, n, c)`, stated by the nodes it changes. */
  ghost predicate IsSplice(a: Arena, b: Arena, p: int, n: int, c: int)
    requires 0 <= p < n < |a|
  {
    && |b| == |a|
    && b[n] == a[n].(data := None)
    && b[p] == (if a[p].left == n then a[p].(left := c) else a[p].(right := c))
    && forall x :: 0 <= x < |a| && x != p && x != n ==> b[x] == a[x]
  }

  /**
   * Splicing node n out from below its parent p, replacing it by c (its only
   * child, or null): every subtree containing n loses n's subtree except c's,
   * stays ordered, and keeps its parent fields when c is null.
   */
  lemma {:induction false} SpliceFacts(a: Arena, b: Arena, p: int, n: int, c: int, j: int, lo: Option<int>, hi: Option<int>)
    requires WellLinked(a) && WellLinked(b) && 0 <= p < n < |a| && a[n].parent == p && (a[p].left == n || a[p].right == n)
    requires c == Null || (c == Replacement(a, n) && c != Null)
    requires IsSplice(a, b, p, n, c)
    requires IsRef(a, j) && j != n && Ordered(a, j, lo, hi) && ParentLinks(a, j)
    ensures Keys(b, j) == Keys(a, j) - (if n in Reach(a, j) then Keys(a, n) - Keys(a, c) else {})
    ensures Ordered(b, j, lo, hi)
    ensures c == Null ==> ParentLinks(b, j)
    decreases Rank(a, j)
  {
    if j == Null {
    } else if n !in Reach(a, j) {
      assert p !in Reach(a, j) by {
        if p in Reach(a, j) {
          ReachClosed(a, j, p);
        }
      }
      SpliceUntouched(a, b, p, n, c, j);
    } else if j == p {
      SpliceAtParent(a, b, p, n, c, lo, hi);
    } else {
      var l, r := a[j].left, a[j].right;
      assert l != n && r != n;
      SpliceFacts(a, b, p, n, c, l, lo, a[j].data);
      SpliceFacts(a, b, p, n, c, r, a[j].data, hi);
      SpliceAboveKeys(a, b, p, n, c, j, lo, hi);
      SpliceAboveOrder(a, b, p, n, c, j, lo, hi);
      if c == Null {
        SpliceAboveLinks(a, b, p, n, c, j);
      }
    }
  }

  /** The keys at a strict ancestor j of p after the splice. */
  lemma SpliceAboveKeys(a: Arena, b: Arena, p: int, n: int, c: int, j: int, lo: Option<int>, hi: Option<int>)
    requires WellLinked(a) && WellLinked(b) && 0 <= p < n < |a| && IsSplice(a, b, p, n, c)
    requires 0 <= j < |a| && j != p && j != n && n in Reach(a, j) && Ordered(a, j, lo, hi) && IsRef(a, c)
    requires Keys(b, a[j].left) ==
               Keys(a, a[j].left) - (if n in Reach(a, a[j].left) then Keys(a, n) - Keys(a, c) else {})
    requires Keys(b, a[j].right) ==
               Keys(a, a[j].right) - (if n in Reach(a, a[j].right) then Keys(a, n) - Keys(a, c) else {})
    ensures Keys(b, j) == Keys(a, j) - (Keys(a, n) - Keys(a, c))
  {
    var l, r := a[j].left, a[j].right;
    assert b[j] == a[j];
    SidesDisjoint(a, j, lo, hi);
    if n in Reach(a, l) {
      SubReach(a, l, n);
    } else {
      SubReach(a, r, n);
    }
    AncestorKeys(a, b, j, Keys(a, n) - Keys(a, c), n in Reach(a, l));
  }

  /** Order at a strict ancestor j of p after the splice. */
  lemma SpliceAboveOrder(a: Arena, b: Arena, p: int, n: int, c: int, j: int, lo: Option<int>, hi: Option<int>)
    requires WellLinked(a) && WellLinked(b) && 0 <= p < n < |a| && IsSplice(a, b, p, n, c)
    requires 0 <= j < |a| && j != p && j != n && Ordered(a, j, lo, hi)
    requires Ordered(b, a[j].left, lo, a[j].data) && Ordered(b, a[j].right, a[j].data, hi)
    ensures Ordered(b, j, lo, hi)
  {
    assert b[j] == a[j];
    OrderedNode(b, j, lo, hi);
  }

  /** Parent fields at a strict ancestor j of p after the splice. */
  lemma SpliceAboveLinks(a: Arena, b: Arena, p: int, n: int, c: int, j: int)
    requires WellLinked(a) && WellLinked(b) && 0 <= p < n < |a| && IsSplice(a, b, p, n, c)
    requires 0 <= j < |a| && j != p && j != n && ParentLinks(a, j)
    requires a[j].left != n && a[j].right != n
    requires ParentLinks(b, a[j].left) && ParentLinks(b, a[j].right)
    ensures ParentLinks(b, j)
  {
    var l, r := a[j].left, a[j].right;
    assert b[j] == a[j];
    assert l == Null || b[l].parent == a[l].parent;
    assert r == Null || b[r].parent == a[r].parent;
  }

  /**
   * If b keeps node j and its links, and removes d from exactly one side,
   * j's keys lose d.
   */
  lemma AncestorKeys(a: Arena, b: Arena, j: int, d: set<int>, left: bool)
    requires WellLinked(a) && WellLinked(b) && 0 <= j < |a| && j < |b| && b[j] == a[j]
    requires a[j].data.Some? && a[j].data.value !in Keys(a, a[j].left) + Keys(a, a[j].right)
    requires Keys(a, a[j].left) !! Keys(a, a[j].right)
    requires if left then d <= Keys(a, a[j].left) else d <= Keys(a, a[j].right)
    requires IsRef(b, a[j].left) && IsRef(b, a[j].right)
    requires Keys(b, a[j].left) == Keys(a, a[j].left) - (if left then d else {})
    requires Keys(b, a[j].right) == Keys(a, a[j].right) - (if left then {} else d)
    ensures Keys(b, j) == Keys(a, j) - d
  {
    RemoveFromPart(DataSet(a[j].data), Keys(a, a[j].left), Keys(a, a[j].right), d, left);
  }

  /** A node with a key in bounds over two ordered sides roots an ordered subtree. */
  lemma OrderedNode(a: Arena, j: int, lo: Option<int>, hi: Option<int>)
    requires WellLinked(a) && 0 <= j < |a| && a[j].data.Some? && Between(lo, hi, a[j].data.value)
    requires Ordered(a, a[j].left, lo, a[j].data) && Ordered(a, a[j].right, a[j].data, hi)
    ensures Ordered(a, j, lo, hi)
  {
  }

  /** Removing from one part of a disjoint union removes only from that part. */
  lemma RemoveFromPart<T>(x: set<T>, l: set<T>, r: set<T>, d: set<T>, left: bool)
    requires x !! l && x !! r && l !! r && (if left then d <= l else d <= r)
    ensures (x + l + r) - d == x + (if left then l - d else l) + (if left then r else r - d)
  {
  }

  /** A subtree inside another contributes only nodes and keys of the latter. */
  lemma {:induction false} SubReach(a: Arena, j: int, x: int)
    requires WellLinked(a) && IsRef(a, j) && x in Reach(a, j)
    ensures Reach(a, x) <= Reach(a, j) && Keys(a, x) <= Keys(a, j)
    decreases Rank(a, j)
  {
    if x != j {
      if x in Reach(a, a[j].left) {
        SubReach(a, a[j].left, x);
      } else {
        SubReach(a, a[j].right, x);
      }
    }
  }

  /** The step of `SpliceFacts` at the parent p itself. */
  lemma SpliceAtParent(a: Arena, b: Arena, p: int, n: int, c: int, lo: Option<int>, hi: Option<int>)
    requires WellLinked(a) && WellLinked(b) && 0 <= p < n < |a| && a[n].parent == p && (a[p].left == n || a[p].right == n)
    requires c == Null || (c == Replacement(a, n) && c != Null)
    requires IsSplice(a, b, p, n, c)
    requires Ordered(a, p, lo, hi) && ParentLinks(a, p)
    ensures Keys(b, p) == Keys(a, p) - (Keys(a, n) - Keys(a, c))
    ensures Ordered(b, p, lo, hi)
    ensures c == Null ==> ParentLinks(b, p)
  {
    var o := if a[p].left == n then a[p].right else a[p].left;
    OtherSide(a, p, n, o, lo, hi);
    ReplacementBelow(a, p, n, c);
    SpliceUntouched(a, b, p, n, c, o);
    SpliceUntouched(a, b, p, n, c, c);
    SpliceParentKeys(a, b, p, n, c, o);
    if c == Null {
      SpliceParentLinks(a, b, p, n, o);
    }
    SpliceOrderAt(a, b, p, n, c, o, lo, hi);
  }

  /** The other child o of p holds neither p, nor n, nor any key of n's subtree or p's own. */
  lemma OtherSide(a: Arena, p: int, n: int, o: int, lo: Option<int>, hi: Option<int>)
    requires WellLinked(a) && 0 <= p < n < |a| && (a[p].left == n || a[p].right == n)
    requires o == if a[p].left == n then a[p].right else a[p].left
    requires Ordered(a, p, lo, hi)
    ensures IsRef(a, o) && p !in Reach(a, o) && n !in Reach(a, o)
    ensures Keys(a, o) !! Keys(a, n) && DataSet(a[p].data) !! Keys(a, n)
  {
    SidesDisjoint(a, p, lo, hi);
  }

  /** The child that replaces n lies below n and holds some of its keys. */
  lemma ReplacementBelow(a: Arena, p: int, n: int, c: int)
    requires WellLinked(a) && 0 <= p < n < |a|
    requires c == Null || (c == Replacement(a, n) && c != Null)
    ensures c == Null || c == a[n].left || c == a[n].right
    ensures IsRef(a, c) && p !in Reach(a, c) && n !in Reach(a, c) && Keys(a, c) <= Keys(a, n)
  {
    if c != Null {
      SubReach(a, n, c);
    }
  }

  /** Order at p after the splice, the two sides of p being untouched. */
  lemma SpliceOrderAt(a: Arena, b: Arena, p: int, n: int, c: int, o: int, lo: Option<int>, hi: Option<int>)
    requires WellLinked(a) && WellLinked(b) && 0 <= p < n < |a| && (a[p].left == n || a[p].right == n)
    requires c == Null || c == a[n].left || c == a[n].right
    requires IsSplice(a, b, p, n, c)
    requires o == if a[p].left == n then a[p].right else a[p].left
    requires IsRef(a, o) && p !in Reach(a, o) && n !in Reach(a, o)
    requires IsRef(a, c) && p !in Reach(a, c) && n !in Reach(a, c)
    requires Ordered(a, p, lo, hi)
    ensures Ordered(b, p, lo, hi)
  {
    SpliceUntouched(a, b, p, n, c, o);
    SpliceUntouched(a, b, p, n, c, c);
    SpliceParentOrder(a, b, p, n, c, o, lo, hi);
  }

  /** Cutting n off p keeps the parent fields below p right. */
  lemma SpliceParentLinks(a: Arena, b: Arena, p: int, n: int, o: int)
    requires WellLinked(a) && WellLinked(b) && 0 <= p < n < |a| && (a[p].left == n || a[p].right == n)
    requires IsSplice(a, b, p, n, Null)
    requires o == if a[p].left == n then a[p].right else a[p].left
    requires o != n && ParentLinks(a, p) && ParentLinks(b, o) == ParentLinks(a, o)
    ensures ParentLinks(b, p)
  {
    if a[p].left == n {
      assert b[p] == a[p].(left := Null);
    } else {
      assert b[p] == a[p].(right := Null);
    }
    assert o == Null || b[o] == a[o];
  }

  /** A subtree holding neither p nor n is the same after the splice. */
  lemma SpliceUntouched(a: Arena, b: Arena, p: int, n: int, c: int, j: int)
    requires WellLinked(a) && WellLinked(b) && 0 <= p < n < |a| && IsSplice(a, b, p, n, c)
    requires IsRef(a, j) && p !in Reach(a, j) && n !in Reach(a, j)
    ensures Reach(b, j) == Reach(a, j) && Keys(b, j) == Keys(a, j)
    ensures forall lo, hi :: Ordered(b, j, lo, hi) == Ordered(a, j, lo, hi)
    ensures ParentLinks(b, j) == ParentLinks(a, j)
  {
    Agree(a, b, j);
  }

  /** Order at p after the splice, from order on its two sides. */
  lemma SpliceParentOrder(a: Arena, b: Arena, p: int, n: int, c: int, o: int, lo: Option<int>, hi: Option<int>)
    requires WellLinked(a) && WellLinked(b) && 0 <= p < n < |a| && (a[p].left == n || a[p].right == n)
    requires c == Null || c == a[n].left || c == a[n].right
    requires IsSplice(a, b, p, n, c)
    requires o == if a[p].left == n then a[p].right else a[p].left
    requires Ordered(a, p, lo, hi)
    requires forall lo', hi' :: Ordered(b, o, lo', hi') == Ordered(a, o, lo', hi')
    requires forall lo', hi' :: Ordered(b, c, lo', hi') == Ordered(a, c, lo', hi')
    ensures Ordered(b, p, lo, hi)
  {
    if a[p].left == n {
      assert b[p] == a[p].(left := c);
      if c != Null {
        ChildRebound(a, n, c, lo, a[p].data);
      }
    } else {
      assert b[p] == a[p].(right := c);
      if c != Null {
        ChildRebound(a, n, c, a[p].data, hi);
      }
    }
  }

  /** The key set at p after the splice, from those of its two sides. */
  lemma SpliceParentKeys(a: Arena, b: Arena, p: int, n: int, c: int, o: int)
    requires WellLinked(a) && WellLinked(b) && 0 <= p < n < |a|
    requires c == Null || c == a[n].left || c == a[n].right
    requires IsSplice(a, b, p, n, c)
    requires o == if a[p].left == n then a[p].right else a[p].left
    requires a[p].left == n || a[p].right == n
    requires DataSet(a[p].data) !! Keys(a, n) && Keys(a, o) !! Keys(a, n) && Keys(a, c) <= Keys(a, n)
    requires Keys(b, c) == Keys(a, c) && Keys(b, o) == Keys(a, o)
    ensures Keys(b, p) == Keys(a, p) - (Keys(a, n) - Keys(a, c))
  {
    var kp := DataSet(a[p].data);
    if a[p].left == n {
      assert b[p] == a[p].(left := c);
      assert Keys(b, p) == kp + Keys(a, c) + Keys(a, o);
      assert Keys(a, p) == kp + Keys(a, n) + Keys(a, o);
    } else {
      assert b[p] == a[p].(right := c);
      assert Keys(b, p) == kp + Keys(a, o) + Keys(a, c);
      assert Keys(a, p) == kp + Keys(a, o) + Keys(a, n);
    }
    CutSubset(kp, Keys(a, n), Keys(a, o), Keys(a, c));
  }

  /** Cutting a part n of a disjoint union down to its piece c. */
  lemma CutSubset<T>(x: set<T>, n: set<T>, o: set<T>, c: set<T>)
    requires x !! n && o !! n && c <= n
    ensures (x + n + o) - (n - c) == x + o + c
    ensures (x + o + n) - (n - c) == x + o + c
  {
  }

  /** A child of an ordered subtree is ordered under the subtree's own bounds. */
  lemma ChildRebound(a: Arena, n: int, c: int, lo: Option<int>, hi: Option<int>)
    requires WellLinked(a) && 0 <= n < |a| && Ordered(a, n, lo, hi)
    requires c != Null && (c == a[n].left || c == a[n].right)
    ensures Ordered(a, c, lo, hi)
  {
    OrderedKeys(a, n, lo, hi);
    SubReach(a, n, c);
    if c == a[n].left {
      Rebound(a, c, lo, a[n].data, lo, hi);
    } else {
      Rebound(a, c, a[n].data, hi, lo, hi);
    }
  }

  /**
   * With its parent fields right, every node of a subtree other than its root
   * has a parent field naming a node of the subtree that links to it.
   */
  lemma {:induction false} ReachParent(a: Arena, j: int, x: int)
    requires WellLinked(a) && IsRef(a, j) && ParentLinks(a, j) && x in Reach(a, j) && x != j
    ensures 0 <= a[x].parent < x && a[x].parent in Reach(a, j)
    ensures a[a[x].parent].left == x || a[a[x].parent].right == x
    decreases Rank(a, j)
  {
    var l, r := a[j].left, a[j].right;
    if x in Reach(a, l) {
      if x != l {
        ReachParent(a, l, x);
      }
    } else {
      if x != r {
        ReachParent(a, r, x);
      }
    }
  }

  /** A node outside n's subtree stays reachable once n is spliced out. */
  lemma {:induction false} SpliceKeeps(a: Arena, b: Arena, p: int, n: int, c: int, j: int, x: int)
    requires WellLinked(a) && WellLinked(b) && 0 <= p < n < |a| && IsSplice(a, b, p, n, c)
    requires a[p].left == n || a[p].right == n
    requires IsRef(a, j) && x in Reach(a, j) && x !in Reach(a, n)
    ensures x in Reach(b, j)
    decreases Rank(a, j)
  {
    if x != j {
      var l, r := a[j].left, a[j].right;
      var left := x in Reach(a, l);
      var y := if left then l else r;
      assert y != n;
      assert (if left then b[j].left else b[j].right) == y by {
        if j == p {
          assert b[j] == if a[j].left == n then a[j].(left := c) else a[j].(right := c);
        } else {
          assert j != n;
          assert b[j] == a[j];
        }
      }
      SpliceKeeps(a, b, p, n, c, y, x);
      ReachUp(b, j, left);
    }
  }

  /** The subtree of a child lies inside its parent's. */
  lemma ReachUp(a: Arena, j: int, left: bool)
    requires WellLinked(a) && 0 <= j < |a|
    ensures Reach(a, if left then a[j].left else a[j].right) <= Reach(a, j)
  {
  }

  /** b is a with the key of node n changed to v. */
  ghost predicate IsRekey(a: Arena, b: Arena, n: int, v: int)
    requires 0 <= n < |a|
  {
    && |b| == |a|
    && b[n] == a[n].(data := Some(v))
    && forall x :: 0 <= x < |a| && x != n ==> b[x] == a[x]
  }

  /** Changing a key touches neither the nodes nor the parent fields of any subtree. */
  lemma {:induction false} RekeyShape(a: Arena, b: Arena, n: int, v: int, j: int)
    requires WellLinked(a) && WellLinked(b) && 0 <= n < |a| && IsRekey(a, b, n, v) && IsRef(a, j)
    ensures Reach(b, j) == Reach(a, j) && ParentLinks(b, j) == ParentLinks(a, j)
    decreases Rank(a, j)
  {
    if j != Null {
      assert b[j].left == a[j].left && b[j].right == a[j].right;
      RekeyShape(a, b, n, v, a[j].left);
      RekeyShape(a, b, n, v, a[j].right);
      assert a[j].left == Null || b[a[j].left].parent == a[a[j].left].parent;
      assert a[j].right == Null || b[a[j].right].parent == a[a[j].right].parent;
    }
  }

  /**
   * v may replace the key kn of node n in the subtree of j: it fits the bounds
   * and no other key of the subtree equals it or lies between kn and v.
   */
  ghost predicate FitsInPlace(a: Arena, j: int, kn: int, v: int, lo: Option<int>, hi: Option<int>)
    requires WellLinked(a) && IsRef(a, j)
  {
    && Between(lo, hi, v)
    && forall k :: k in Keys(a, j) && k != kn ==> k != v && (k < kn <==> k < v)
  }

  /**
   * Giving node n of an ordered subtree a key that fits in its place keeps the
   * subtree ordered and swaps the one key for the other.
   */
  lemma {:induction false} RekeyOrdered(a: Arena, b: Arena, n: int, v: int, j: int, lo: Option<int>, hi: Option<int>)
    requires WellLinked(a) && WellLinked(b) && 0 <= n < |a| && IsRekey(a, b, n, v)
    requires IsRef(a, j) && n in Reach(a, j) && Ordered(a, j, lo, hi) && a[n].data.Some?
    requires FitsInPlace(a, j, a[n].data.value, v, lo, hi)
    ensures Ordered(b, j, lo, hi)
    ensures Keys(b, j) == Keys(a, j) - {a[n].data.value} + {v}
    decreases Rank(a, j)
  {
    var l, r := a[j].left, a[j].right;
    var kn := a[n].data.value;
    SidesDisjoint(a, j, lo, hi);
    if j == n {
      RekeyAtNode(a, b, n, v, lo, hi);
    } else if n in Reach(a, l) {
      SubReach(a, j, l);
      ReachKeys(a, l, n);
      OrderedKeys(a, l, lo, a[j].data);
      assert a[j].data.value in Keys(a, j);
      assert FitsInPlace(a, l, kn, v, lo, a[j].data);
      RekeyOrdered(a, b, n, v, l, lo, a[j].data);
      Agree(a, b, r);
      RekeyStep(a, b, n, v, j, lo, hi, true);
    } else {
      SubReach(a, j, r);
      ReachKeys(a, r, n);
      OrderedKeys(a, r, a[j].data, hi);
      assert a[j].data.value in Keys(a, j);
      assert FitsInPlace(a, r, kn, v, a[j].data, hi);
      RekeyOrdered(a, b, n, v, r, a[j].data, hi);
      Agree(a, b, l);
      RekeyStep(a, b, n, v, j, lo, hi, false);
    }
  }

  /** The step of `RekeyOrdered` at n itself. */
  lemma RekeyAtNode(a: Arena, b: Arena, n: int, v: int, lo: Option<int>, hi: Option<int>)
    requires WellLinked(a) && WellLinked(b) && 0 <= n < |a| && IsRekey(a, b, n, v)
    requires Ordered(a, n, lo, hi) && FitsInPlace(a, n, a[n].data.value, v, lo, hi)
    ensures Ordered(b, n, lo, hi)
    ensures Keys(b, n) == Keys(a, n) - {a[n].data.value} + {v}
  {
    RekeyNodeKeys(a, b, n, v, lo, hi);
    RekeyNodeOrder(a, b, n, v, lo, hi);
  }

  /** The key set half of `RekeyAtNode`. */
  lemma RekeyNodeKeys(a: Arena, b: Arena, n: int, v: int, lo: Option<int>, hi: Option<int>)
    requires WellLinked(a) && WellLinked(b) && 0 <= n < |a| && IsRekey(a, b, n, v)
    requires Ordered(a, n, lo, hi)
    ensures Keys(b, n) == Keys(a, n) - {a[n].data.value} + {v}
  {
    var l, r, kn := a[n].left, a[n].right, a[n].data.value;
    SidesDisjoint(a, n, lo, hi);
    Agree(a, b, l);
    Agree(a, b, r);
    assert Keys(b, n) == {v} + Keys(a, l) + Keys(a, r);
    SwapOne(kn, v, Keys(a, l), Keys(a, r));
  }

  /** The order half of `RekeyAtNode`. */
  lemma RekeyNodeOrder(a: Arena, b: Arena, n: int, v: int, lo: Option<int>, hi: Option<int>)
    requires WellLinked(a) && WellLinked(b) && 0 <= n < |a| && IsRekey(a, b, n, v)
    requires Ordered(a, n, lo, hi) && FitsInPlace(a, n, a[n].data.value, v, lo, hi)
    ensures Ordered(b, n, lo, hi)
  {
    var l, r := a[n].left, a[n].right;
    Agree(a, b, l);
    Agree(a, b, r);
    OrderedKeys(a, l, lo, a[n].data);
    OrderedKeys(a, r, a[n].data, hi);
    if l != Null {
      SubReach(a, n, l);
      Rebound(a, l, lo, a[n].data, lo, Some(v));
    }
    if r != Null {
      SubReach(a, n, r);
      Rebound(a, r, a[n].data, hi, Some(v), hi);
    }
    OrderedNode(b, n, lo, hi);
  }

  /** The step of `RekeyOrdered` at a strict ancestor j of n. */
  lemma RekeyStep(a: Arena, b: Arena, n: int, v: int, j: int, lo: Option<int>, hi: Option<int>, left: bool)
    requires WellLinked(a) && WellLinked(b) && 0 <= n < |a| && IsRekey(a, b, n, v)
    requires 0 <= j < |a| && j != n && Ordered(a, j, lo, hi) && a[n].data.Some?
    requires var c, o := (if left then a[j].left else a[j].right), (if left then a[j].right else a[j].left);
      && a[n].data.value in Keys(a, c)
      && Keys(b, c) == Keys(a, c) - {a[n].data.value} + {v} && Keys(b, o) == Keys(a, o)
    requires Ordered(b, a[j].left, lo, a[j].data) && Ordered(b, a[j].right, a[j].data, hi)
    ensures Ordered(b, j, lo, hi)
    ensures Keys(b, j) == Keys(a, j) - {a[n].data.value} + {v}
  {
    assert b[j] == a[j];
    OrderedNode(b, j, lo, hi);
    SidesDisjoint(a, j, lo, hi);
    var kj := DataSet(a[j].data);
    if left {
      SwapInPart(a[n].data.value, v, kj, Keys(a, a[j].left), Keys(a, a[j].right), true);
    } else {
      SwapInPart(a[n].data.value, v, kj, Keys(a, a[j].left), Keys(a, a[j].right), false);
    }
  }

  /** Swapping the root key out of a disjoint union. */
  lemma SwapOne<T>(k: T, v: T, l: set<T>, r: set<T>)
    requires k !in l + r
    ensures ({k} + l + r) - {k} + {v} == {v} + l + r
  {
  }

  /** Swapping a key that lies in one part of a disjoint union. */
  lemma SwapInPart<T>(k: T, v: T, x: set<T>, l: set<T>, r: set<T>, left: bool)
    requires k !in x && (if left then k in l && k !in r else k in r && k !in l)
    ensures (x + l + r) - {k} + {v} ==
            x + (if left then l - {k} + {v} else l) + (if left then r else r - {k} + {v})
  {
  }

  /** No key of the subtree of j lies strictly between kn and ks. */
  ghost predicate GapFree(a: Arena, j: int, kn: int, ks: int)
    requires WellLinked(a) && IsRef(a, j)
  {
    forall k :: k in Keys(a, j) ==> !(kn < k < ks)
  }

  /**
   * The leftmost key of n's right subtree is n's successor: it is greater than
   * n's key and no key of an enclosing ordered subtree lies strictly between.
   */
  lemma {:induction false} Successor(a: Arena, j: int, n: int, lo: Option<int>, hi: Option<int>)
    requires WellLinked(a) && IsRef(a, j) && Ordered(a, j, lo, hi)
    requires n in Reach(a, j) && a[n].right != Null
    ensures a[n].data.Some? && a[Leftmost(a, a[n].right)].data.Some?
    ensures a[n].data.value < a[Leftmost(a, a[n].right)].data.value
    ensures GapFree(a, j, a[n].data.value, a[Leftmost(a, a[n].right)].data.value)
    decreases Rank(a, j)
  {
    var l, r := a[j].left, a[j].right;
    var s := Leftmost(a, a[n].right);
    if j == n {
      SuccessorAtNode(a, n, lo, hi);
    } else {
      var left := n in Reach(a, l);
      var c := if left then l else r;
      Successor(a, c, n, if left then lo else a[j].data, if left then a[j].data else hi);
      OrderedKeys(a, j, lo, hi);
      SubReach(a, c, n);
      ReachKeys(a, n, n);
      if left {
        ReachClosed(a, l, n);
        ReachKeys(a, l, s);
      }
      GapAbove(a, j, a[n].data.value, a[s].data.value, lo, hi, left);
    }
  }

  /** `Successor` at n itself. */
  lemma SuccessorAtNode(a: Arena, n: int, lo: Option<int>, hi: Option<int>)
    requires WellLinked(a) && 0 <= n < |a| && Ordered(a, n, lo, hi) && a[n].right != Null
    ensures a[n].data.Some? && a[Leftmost(a, a[n].right)].data.Some?
    ensures a[n].data.value < a[Leftmost(a, a[n].right)].data.value
    ensures GapFree(a, n, a[n].data.value, a[Leftmost(a, a[n].right)].data.value)
  {
    OrderedKeys(a, a[n].left, lo, a[n].data);
    OrderedKeys(a, a[n].right, a[n].data, hi);
    LeftmostIsMin(a, a[n].right, a[n].data, hi);
  }

  /** `Successor` one level above: the gap stays free of j's own keys. */
  lemma GapAbove(a: Arena, j: int, kn: int, ks: int, lo: Option<int>, hi: Option<int>, left: bool)
    requires WellLinked(a) && 0 <= j < |a| && Ordered(a, j, lo, hi)
    requires left ==> GapFree(a, a[j].left, kn, ks) && ks in Keys(a, a[j].left)
    requires !left ==> GapFree(a, a[j].right, kn, ks) && kn in Keys(a, a[j].right)
    ensures GapFree(a, j, kn, ks)
  {
    OrderedKeys(a, a[j].left, lo, a[j].data);
    OrderedKeys(a, a[j].right, a[j].data, hi);
  }

  /** Every subtree inside an ordered subtree is ordered, under some bounds. */
  lemma {:induction false} OrderedInside(a: Arena, j: int, x: int, lo: Option<int>, hi: Option<int>)
      returns (lo': Option<int>, hi': Option<int>)
    requires WellLinked(a) && IsRef(a, j) && Ordered(a, j, lo, hi) && x in Reach(a, j)
    ensures Ordered(a, x, lo', hi')
    decreases Rank(a, j)
  {
    if x == j {
      lo', hi' := lo, hi;
    } else if x in Reach(a, a[j].left) {
      lo', hi' := OrderedInside(a, a[j].left, x, lo, a[j].data);
    } else {
      lo', hi' := OrderedInside(a, a[j].right, x, a[j].data, hi);
    }
  }

  /** A run of keys, none null, each greater than the one before. */
  ghost predicate Increasing(s: seq<Option<int>>) {
    && (forall i :: 0 <= i < |s| ==> s[i].Some?)
    && (forall i, k :: 0 <= i < k < |s| ==> s[i].value < s[k].value)
  }

  /** Every entry of s is a key strictly between lo and hi. */
  ghost predicate Within(s: seq<Option<int>>, lo: Option<int>, hi: Option<int>) {
    forall i :: 0 <= i < |s| ==> s[i].Some? && Between(lo, hi, s[i].value)
  }

  /**
   * The in-order walk of an ordered subtree lists its keys, each once, in
   * increasing order, all within the subtree's bounds.
   */
  lemma {:induction false} InOrderSorted(a: Arena, j: int, lo: Option<int>, hi: Option<int>)
    requires WellLinked(a) && IsRef(a, j) && Ordered(a, j, lo, hi)
    ensures Increasing(InOrder(a, j)) && Within(InOrder(a, j), lo, hi)
    ensures forall k :: k in Keys(a, j) <==> Some(k) in InOrder(a, j)
    decreases Rank(a, j)
  {
    if j != Null {
      var l, r := a[j].left, a[j].right;
      InOrderSorted(a, l, lo, a[j].data);
      InOrderSorted(a, r, a[j].data, hi);
      Concat(InOrder(a, l), a[j].data.value, InOrder(a, r), lo, hi);
    }
  }

  /** Joining two increasing runs around a key between them. */
  lemma Concat(sl: seq<Option<int>>, k: int, sr: seq<Option<int>>, lo: Option<int>, hi: Option<int>)
    requires Increasing(sl) && Within(sl, lo, Some(k))
    requires Increasing(sr) && Within(sr, Some(k), hi)
    requires Between(lo, hi, k)
    ensures Increasing(sl + [Some(k)] + sr) && Within(sl + [Some(k)] + sr, lo, hi)
    ensures forall x :: Some(x) in sl + [Some(k)] + sr <==> Some(x) in sl || x == k || Some(x) in sr
  {
    var w := sl + [Some(k)] + sr;
    forall i | 0 <= i < |w|
      ensures w[i].Some? && Between(lo, hi, w[i].value)
      ensures i < |sl| ==> w[i].value < k
      ensures i > |sl| ==> w[i].value > k
    {
      if i < |sl| {
        assert w[i] == sl[i];
      } else if i > |sl| {
        assert w[i] == sr[i - |sl| - 1];
      }
    }
    forall i, m | 0 <= i < m < |w|
      ensures w[i].value < w[m].value
    {
      if m < |sl| {
        assert w[i] == sl[i] && w[m] == sl[m];
      } else if i > |sl| {
        assert w[i] == sr[i - |sl| - 1] && w[m] == sr[m - |sl| - 1];
      }
    }
  }
}

/**
 * The node graph of BinarySearchTree.java, as an arena: every `Node` object
 * the tree ever allocated, in allocation order, with its `data`, `parent`,
 * `left` and `right` fields; a reference is an index and `null` is `Null`.
 *
 * Nodes are never freed, and `delete` leaves dead nodes and stale `parent`
 * fields behind, so the arena keeps more than the tree reachable from the
 * root. A child is always allocated after its parent, which is what makes
 * the recursive definitions below terminate.
 */
module TreeArena {
  import opened Errors

  /** One `Node`: its key (null once deleted) and its three links. */
  datatype Node = Node(data: Option<int>, parent: int, left: int, right: int)

  type Arena = seq<Node>

  /** A reference: null or an allocated node. */
  predicate IsRef(a: Arena, i: int) {
    i == Null || 0 <= i < |a|
  }

  /** A child link of node i: null, or a later node whose parent field is set. */
  predicate ChildOk(a: Arena, i: int, c: int) {
    c == Null || (0 <= i < c < |a| && a[c].parent != Null)
  }

  /** The shape every reachable state of the class keeps. */
  predicate WellLinked(a: Arena) {
    forall i :: 0 <= i < |a| ==>
      && -1 <= a[i].parent < i
      && ChildOk(a, i, a[i].left)
      && ChildOk(a, i, a[i].right)
  }

  /** The termination measure of every walk down the links. */
  function Rank(a: Arena, i: int): nat {
    if 0 <= i < |a| then |a| - i else 0
  }

  /** The nodes of the subtree rooted at i. */
  ghost function Reach(a: Arena, i: int): (r: set<int>)
    requires WellLinked(a) && IsRef(a, i)
    ensures forall x :: x in r ==> i <= x < |a|
    ensures i != Null ==> i in r
    decreases Rank(a, i)
  {
    if i == Null then {} else {i} + Reach(a, a[i].left) + Reach(a, a[i].right)
  }

  function DataSet(o: Option<int>): set<int> {
    if o.Some? then {o.value} else {}
  }

  /** The keys held in the subtree rooted at i (a null key holds none). */
  ghost function Keys(a: Arena, i: int): set<int>
    requires WellLinked(a) && IsRef(a, i)
    decreases Rank(a, i)
  {
    if i == Null then {}
    else DataSet(a[i].data) + Keys(a, a[i].left) + Keys(a, a[i].right)
  }

  /** The keys of the subtree rooted at i in in-order: left subtree, node, right subtree. */
  ghost function InOrder(a: Arena, i: int): seq<Option<int>>
    requires WellLinked(a) && IsRef(a, i)
    decreases Rank(a, i)
  {
    if i == Null then []
    else InOrder(a, a[i].left) + [a[i].data] + InOrder(a, a[i].right)
  }

  /** k lies strictly between the bounds; an absent bound is infinite. */
  predicate Between(lo: Option<int>, hi: Option<int>, k: int) {
    (lo.None? || lo.value < k) && (hi.None? || k < hi.value)
  }

  /**
   * The subtree rooted at i is a search tree with keys strictly between lo and
   * hi: every node has a key, smaller keys to its left and larger to its right.
   */
  ghost predicate Ordered(a: Arena, i: int, lo: Option<int>, hi: Option<int>)
    requires WellLinked(a) && IsRef(a, i)
    decreases Rank(a, i)
  {
    || i == Null
    || (&& a[i].data.Some?
        && Between(lo, hi, a[i].data.value)
        && Ordered(a, a[i].left, lo, a[i].data)
        && Ordered(a, a[i].right, a[i].data, hi))
  }

  ghost predicate IsBST(a: Arena, i: int)
    requires WellLinked(a) && IsRef(a, i)
  {
    Ordered(a, i, None, None)
  }

  /** c is null or names i as its parent. */
  predicate ChildParent(a: Arena, i: int, c: int)
    requires IsRef(a, c)
  {
    c == Null || a[c].parent == i
  }

  /** Below i, every child's `parent` field names the node that links to it. */
  ghost predicate ParentLinks(a: Arena, i: int)
    requires WellLinked(a) && IsRef(a, i)
    decreases Rank(a, i)
  {
    || i == Null
    || (&& ChildParent(a, i, a[i].left) && ChildParent(a, i, a[i].right)
        && ParentLinks(a, a[i].left) && ParentLinks(a, a[i].right))
  }

  /**
   * `searchRec(d, i)` unboxes no null key: every node it compares with has
   * a key.
   */
  ghost predicate SearchSafe(a: Arena, d: int, i: int)
    requires WellLinked(a) && 0 <= i < |a|
    decreases Rank(a, i)
  {
    && a[i].data.Some?
    && (d < a[i].data.value ==> a[i].left == Null || SearchSafe(a, d, a[i].left))
    && (d > a[i].data.value ==> a[i].right == Null || SearchSafe(a, d, a[i].right))
  }

  /** `searchRec(d, i)`: the node holding d on the search path from i, or null. */
  function SearchRec(a: Arena, d: int, i: int): (r: int)
    requires WellLinked(a) && 0 <= i < |a| && SearchSafe(a, d, i)
    ensures r == Null || (r in Reach(a, i) && a[r].data == Some(d))
    decreases Rank(a, i)
  {
    var k := a[i].data.value;
    if d < k then
      if a[i].left == Null then Null else SearchRec(a, d, a[i].left)
    else if d == k then i
    else
      if a[i].right == Null then Null else SearchRec(a, d, a[i].right)
  }

  /** `getMinValRec(i)`: follow left links to the end. */
  function Leftmost(a: Arena, i: int): (r: int)
    requires WellLinked(a) && 0 <= i < |a|
    ensures r in Reach(a, i) && a[r].left == Null
    ensures r == i || a[r].parent != Null
    decreases Rank(a, i)
  {
    if a[i].left == Null then i else Leftmost(a, a[i].left)
  }

  /** `getMaxValRec(i)`: with a right child it calls `getMinValRec`, not itself. */
  function MaxValRec(a: Arena, i: int): (r: int)
    requires WellLinked(a) && 0 <= i < |a|
    ensures r in Reach(a, i)
    ensures a[i].right == Null ==> r == i
    ensures a[i].right != Null ==> r == Leftmost(a, a[i].right)
  {
    if a[i].right != Null then Leftmost(a, a[i].right) else i
  }

  /** A new key d can hang below q on the side the search for d leaves q by. */
  predicate CanAttach(a: Arena, q: int, d: int)
    requires 0 <= q < |a|
  {
    && a[q].data.Some?
    && d != a[q].data.value
    && (d < a[q].data.value ==> a[q].left == Null)
    && (d > a[q].data.value ==> a[q].right == Null)
  }

  /** Where the search for d from i falls off the tree, or null if it finds d. */
  ghost function LeafParent(a: Arena, d: int, i: int): (q: int)
    requires WellLinked(a) && 0 <= i < |a| && SearchSafe(a, d, i)
    ensures q == Null <==> SearchRec(a, d, i) != Null
    ensures q != Null ==> q in Reach(a, i) && CanAttach(a, q, d)
    decreases Rank(a, i)
  {
    var k := a[i].data.value;
    if d < k then
      if a[i].left == Null then i else LeafParent(a, d, a[i].left)
    else if d == k then Null
    else
      if a[i].right == Null then i else LeafParent(a, d, a[i].right)
  }

  /** A new node with key d allocated and linked below q. */
  function Attach(a: Arena, q: int, d: int): (b: Arena)
    requires WellLinked(a) && 0 <= q < |a| && CanAttach(a, q, d)
    ensures WellLinked(b) && |b| == |a| + 1
    ensures b[|a|] == Node(Some(d), q, Null, Null)
    ensures forall x :: 0 <= x < |a| && x != q ==> b[x] == a[x]
    ensures forall x :: 0 <= x < |a| ==> b[x].parent == a[x].parent
    ensures b[q].data == a[q].data
  {
    var leaf := Node(Some(d), q, Null, Null);
    if d < a[q].data.value then a[q := a[q].(left := |a|)] + [leaf]
    else a[q := a[q].(right := |a|)] + [leaf]
  }

  /** The arena after `insertRec(d, i)`: unchanged if d is found, else one new leaf. */
  ghost function Inserted(a: Arena, d: int, i: int): (b: Arena)
    requires WellLinked(a) && 0 <= i < |a| && SearchSafe(a, d, i)
    ensures WellLinked(b) && |a| <= |b|
    ensures forall x :: 0 <= x < |a| ==> b[x].parent == a[x].parent
    ensures forall x :: 0 <= x < i ==> b[x] == a[x]
  {
    if SearchRec(a, d, i) != Null then a else Attach(a, LeafParent(a, d, i), d)
  }

  /** `if (p.left == n) p.left = c; else p.right = c;` */
  function Relink(a: Arena, p: int, n: int, c: int): (b: Arena)
    requires 0 <= p < |a|
    ensures |b| == |a| && b[p].data == a[p].data && b[p].parent == a[p].parent
    ensures forall x :: 0 <= x < |a| && x != p ==> b[x] == a[x]
  {
    if a[p].left == n then a[p := a[p].(left := c)] else a[p := a[p].(right := c)]
  }

  /** `x.data = null`. */
  function ClearData(a: Arena, x: int): (b: Arena)
    requires 0 <= x < |a|
    ensures |b| == |a| && b[x] == a[x].(data := None)
    ensures forall y :: 0 <= y < |a| && y != x ==> b[y] == a[y]
  {
    a[x := a[x].(data := None)]
  }

  /** The child `delete` hangs in place of node n: n's only child, or null for a leaf. */
  function Replacement(a: Arena, n: int): int
    requires 0 <= n < |a|
  {
    if a[n].left != Null && a[n].right == Null then a[n].left
    else if a[n].left == Null && a[n].right != Null then a[n].right
    else Null
  }

  /**
   * `delete` unhooking node n from its parent p: the link of p that names n
   * (its left one if that does, else its right one) is set to c, and n's key
   * is cleared.
   */
  function Splice(a: Arena, p: int, n: int, c: int): (b: Arena)
    requires WellLinked(a) && 0 <= p < n < |a|
    requires c == Null || c == a[n].left || c == a[n].right
    ensures WellLinked(b) && |b| == |a|
    ensures b[n] == a[n].(data := None)
    ensures b[p] == if a[p].left == n then a[p].(left := c) else a[p].(right := c)
    ensures forall x :: 0 <= x < |a| && x != p && x != n ==> b[x] == a[x]
    ensures forall x :: 0 <= x < |a| ==> b[x].parent == a[x].parent
  {
    assert ChildOk(a, n, a[n].left) && ChildOk(a, n, a[n].right);
    RelinkWellLinked(a, p, n, c);
    var a1 := Relink(a, p, n, c);
    DataWellLinked(a1, n, None);
    ClearData(a1, n)
  }

  /**
   * `delete` once it has found node n: with at most one child, n's parent field
   * is followed and its link replaced by that child; with two, n takes the key
   * of the leftmost node s of its right subtree, and s's parent field is
   * followed and its link cut.
   */
  function Removed(a: Arena, n: int): (b: Arena)
    requires WellLinked(a) && 0 <= n < |a|
    requires a[n].left == Null || a[n].right == Null ==> a[n].parent != Null
    ensures WellLinked(b) && |b| == |a|
    ensures forall x :: 0 <= x < |a| ==> b[x].parent == a[x].parent
  {
    if a[n].left == Null || a[n].right == Null then
      Splice(a, a[n].parent, n, Replacement(a, n))
    else
      var s := Leftmost(a, a[n].right);
      assert ChildOk(a, n, a[n].right);
      DataWellLinked(a, n, a[s].data);
      var a1 := a[n := a[n].(data := a[s].data)];
      Splice(a1, a1[s].parent, s, Null)
  }

  /** Changing a key keeps the links. */
  lemma DataWellLinked(a: Arena, x: int, v: Option<int>)
    requires WellLinked(a) && 0 <= x < |a|
    ensures WellLinked(a[x := a[x].(data := v)])
  {
    var b := a[x := a[x].(data := v)];
    forall i | 0 <= i < |b|
      ensures -1 <= b[i].parent < i && ChildOk(b, i, b[i].left) && ChildOk(b, i, b[i].right)
    {
      assert ChildOk(a, i, a[i].left) && ChildOk(a, i, a[i].right);
    }
  }

  /** Redirecting a link to a later node with a parent field, or to null, keeps the links. */
  lemma RelinkWellLinked(a: Arena, p: int, n: int, c: int)
    requires WellLinked(a) && 0 <= p < |a| && ChildOk(a, p, c)
    ensures WellLinked(Relink(a, p, n, c))
  {
    var b := Relink(a, p, n, c);
    forall i | 0 <= i < |b|
      ensures -1 <= b[i].parent < i && ChildOk(b, i, b[i].left) && ChildOk(b, i, b[i].right)
    {
      assert ChildOk(a, i, a[i].left) && ChildOk(a, i, a[i].right);
    }
  }
}

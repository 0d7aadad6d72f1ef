/**
 * What `delete` does to the keys and the shape of a search tree whose parent
 * fields are right: the two ways it unhooks the node it found.
 */
module TreeDelete {
  import opened Errors
  import opened TreeArena
  import opened TreeFacts

  /** The whole tree from root is a search tree and its parent fields are right. */
  ghost predicate Proper(a: Arena, root: int)
  {
    && WellLinked(a) && 0 <= root < |a| && IsBST(a, root) && ParentLinks(a, root)
  }

  /**
   * Deleting a key held by a node n other than the root that has at most one
   * child: the tree loses exactly that key and stays a search tree. Only when
   * n was a leaf are the parent fields still right; otherwise the child that
   * took n's place still names n as its parent.
   */
  lemma DeleteSplice(a: Arena, root: int, n: int)
    requires Proper(a, root) && n in Reach(a, root) && n != root
    requires a[n].left == Null || a[n].right == Null
    ensures a[n].data.Some? && a[n].parent != Null
    ensures Keys(Removed(a, n), root) == Keys(a, root) - {a[n].data.value}
    ensures IsBST(Removed(a, n), root)
    ensures Replacement(a, n) == Null ==> ParentLinks(Removed(a, n), root)
  {
    ReachParent(a, root, n);
    var p, c := a[n].parent, Replacement(a, n);
    var b := Removed(a, n);
    assert b == Splice(a, p, n, c);
    SpliceFacts(a, b, p, n, c, root, None, None);
    var lo, hi := OrderedInside(a, root, n, None, None);
    SidesDisjoint(a, n, lo, hi);
    SpliceLoses(a, n, c);
  }

  /** The keys n's splice removes: n's own key, and nothing of the child kept. */
  lemma SpliceLoses(a: Arena, n: int, c: int)
    requires WellLinked(a) && 0 <= n < |a| && a[n].data.Some?
    requires a[n].left == Null || a[n].right == Null
    requires c == Replacement(a, n)
    requires a[n].data.value !in Keys(a, a[n].left) + Keys(a, a[n].right)
    ensures Keys(a, n) - Keys(a, c) == {a[n].data.value}
  {
  }

  /** The node `delete` takes the replacement key from: the leftmost of n's right subtree. */
  function SuccessorNode(a: Arena, n: int): (s: int)
    requires WellLinked(a) && 0 <= n < |a| && a[n].right != Null
    ensures n < s < |a| && a[s].left == Null
  {
    assert ChildOk(a, n, a[n].right);
    Leftmost(a, a[n].right)
  }

  /**
   * Deleting a key held by a node n with two children: n takes its successor's
   * key and the successor s is cut off together with its right subtree, so the
   * tree loses the key and every key below s. It stays a search tree and its
   * parent fields stay right.
   */
  lemma DeleteSuccessor(a: Arena, root: int, n: int)
    requires Proper(a, root) && n in Reach(a, root)
    requires a[n].left != Null && a[n].right != Null
    ensures a[n].data.Some?
    ensures Keys(Removed(a, n), root) ==
              Keys(a, root) - {a[n].data.value} - Keys(a, a[SuccessorNode(a, n)].right)
    ensures IsBST(Removed(a, n), root) && ParentLinks(Removed(a, n), root)
  {
    var s := SuccessorNode(a, n);
    var a1 := CutSuccessor(a, root, n);
    OrderedKeys(a, root, None, None);
    var d, ks := a[n].data.value, a[s].data.value;
    var b := Removed(a, n);
    RemovedRekeys(a, n);
    SuccessorFits(a, a1, root, n);
    RekeyOrdered(a1, b, n, ks, root, None, None);
    RekeyShape(a1, b, n, ks, root);
    ReachKeys(a, root, s);
    var lo, hi := OrderedInside(a, root, s, None, None);
    SidesDisjoint(a, s, lo, hi);
    SubReach(a, root, s);
    Successor(a, root, n, None, None);
    LeafwardKeys(a, s);
    TradeKeys(Keys(a, root), Keys(a, s), Keys(a, a[s].right), d, ks);
  }

  /** The keys below a node without a left child. */
  lemma LeafwardKeys(a: Arena, s: int)
    requires WellLinked(a) && 0 <= s < |a| && a[s].left == Null && a[s].data.Some?
    ensures Keys(a, s) == {a[s].data.value} + Keys(a, a[s].right)
  {
  }

  /** The cut of the successor, before n's key is overwritten. */
  lemma CutSuccessor(a: Arena, root: int, n: int) returns (a1: Arena)
    requires Proper(a, root) && n in Reach(a, root)
    requires a[n].left != Null && a[n].right != Null
    ensures var s := SuccessorNode(a, n);
      && s in Reach(a, root) && WellLinked(a1) && 0 <= a[s].parent < s
      && a1 == Splice(a, a[s].parent, s, Null)
      && Keys(a1, root) == Keys(a, root) - Keys(a, s)
      && IsBST(a1, root) && ParentLinks(a1, root)
      && n in Reach(a1, root) && a1[n].data == a[n].data
  {
    var s := SuccessorNode(a, n);
    ReachClosed(a, root, n);
    SubReach(a, root, a[n].right);
    assert s in Reach(a, root);
    ReachParent(a, root, s);
    var p := a[s].parent;
    a1 := Splice(a, p, s, Null);
    SpliceFacts(a, a1, p, s, Null, root, None, None);
    SpliceKeeps(a, a1, p, s, Null, root, n);
  }

  /** `delete`'s two-children branch is the cut followed by rekeying n. */
  lemma RemovedRekeys(a: Arena, n: int)
    requires WellLinked(a) && 0 <= n < |a| && a[n].left != Null && a[n].right != Null
    requires a[SuccessorNode(a, n)].data.Some? && a[SuccessorNode(a, n)].parent != Null
    ensures var s := SuccessorNode(a, n);
      IsRekey(Splice(a, a[s].parent, s, Null), Removed(a, n), n, a[s].data.value)
  {
  }

  /** The successor's key fits in n's place once the successor is cut off. */
  lemma SuccessorFits(a: Arena, a1: Arena, root: int, n: int)
    requires Proper(a, root) && n in Reach(a, root)
    requires a[n].left != Null && a[n].right != Null
    requires WellLinked(a1) && IsRef(a1, root)
    requires Keys(a1, root) == Keys(a, root) - Keys(a, SuccessorNode(a, n))
    ensures a[n].data.Some? && a[SuccessorNode(a, n)].data.Some?
    ensures FitsInPlace(a1, root, a[n].data.value, a[SuccessorNode(a, n)].data.value, None, None)
  {
    var s := SuccessorNode(a, n);
    Successor(a, root, n, None, None);
    ReachKeys(a, s, s);
  }

  /** Trading key d for ks after cutting a subtree {ks} + below. */
  lemma TradeKeys(k: set<int>, cut: set<int>, below: set<int>, d: int, ks: int)
    requires cut == {ks} + below && ks !in below && ks in k && d != ks && cut <= k
    ensures (k - cut) - {d} + {ks} == k - {d} - below
  {
  }
}

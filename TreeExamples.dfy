/**
 * Small trees on which BinarySearchTree.java's `insert` and `delete` do what
 * their code says rather than what a search tree promises.
 */
module TreeExamples {
  import opened Errors
  import opened TreeArena
  import opened BinarySearchTrees

  /**
   * Inserting 5, 3 and 3 again: the second 3 is found below the root, so the
   * key set stays {3, 5} while `insert` answers true and the count reaches 3.
   */
  method DuplicateCounted() returns (t: BinarySearchTree, r: Result<bool>)
    ensures t.Valid() && r == Ok(true)
    ensures t.size == 3 && t.Contents() == {3, 5}
  {
    t := new BinarySearchTree.WithRoot(5);
    var _ := t.Insert(Some(3));
    assert t.nodes == [Node(Some(5), Null, 1, Null), Node(Some(3), 0, Null, Null)];
    r := t.Insert(Some(3));
    assert t.nodes == [Node(Some(5), Null, 1, Null), Node(Some(3), 0, Null, Null)];
    assert Keys(t.nodes, 1) == {3};
  }

  /** The chain 5 - 3 - 2 (each a left child). */
  function Chain(): (a: Arena)
    ensures WellLinked(a) && |a| == 3 && Keys(a, 0) == {2, 3, 5}
  {
    var a := [Node(Some(5), Null, 1, Null), Node(Some(3), 0, 2, Null), Node(Some(2), 1, Null, Null)];
    assert Keys(a, 2) == {2} && Keys(a, 1) == {2, 3};
    a
  }

  /**
   * Deleting 3 from the chain hangs 2 under 5 but leaves 2's parent field on
   * the dead node; deleting 2 next then unhooks it from the dead node, so 5
   * still links to a node whose key is null: the iterator yields that null,
   * and a search for a key below 5 follows it.
   */
  lemma StaleParent()
    ensures var b := Removed(Chain(), 1);
      && b[0].left == 2 && b[2].parent == 1
      && var c := Removed(b, 2);
         && Keys(c, 0) == {5}
         && InOrder(c, 0) == [None, Some(5)]
         && !SearchSafe(c, 1, 0)
  {
    var a := Chain();
    var b := Removed(a, 1);
    assert b == [Node(Some(5), Null, 2, Null), Node(None, 0, 2, Null), Node(Some(2), 1, Null, Null)];
    var c := Removed(b, 2);
    assert c == [Node(Some(5), Null, 2, Null), Node(None, 0, Null, Null), Node(None, 1, Null, Null)];
    assert InOrder(c, 2) == [None];
  }

  /** 10 over 5 and 20; 20 over 15 on the left; 15 over 17 on the right. */
  function Deep(): (a: Arena)
    ensures WellLinked(a) && |a| == 5 && Keys(a, 0) == {5, 10, 15, 17, 20}
  {
    var a := [Node(Some(10), Null, 1, 2), Node(Some(5), 0, Null, Null), Node(Some(20), 0, 3, Null),
              Node(Some(15), 2, Null, 4), Node(Some(17), 3, Null, Null)];
    assert Keys(a, 4) == DataSet(a[4].data) + Keys(a, Null) + Keys(a, Null);
    assert Keys(a, 1) == {5} && Keys(a, 4) == {17};
    assert Keys(a, 3) == {15, 17} && Keys(a, 2) == {15, 17, 20};
    a
  }

  /**
   * Deleting 10 moves its successor 15 into the root and cuts 15's node off
   * together with its right subtree, so 17 goes too.
   */
  lemma SuccessorLoses()
    ensures Keys(Removed(Deep(), 0), 0) == {5, 15, 20}
  {
    var a := Deep();
    var b := Removed(a, 0);
    assert b == [Node(Some(15), Null, 1, 2), Node(Some(5), 0, Null, Null), Node(Some(20), 0, Null, Null),
                 Node(None, 2, Null, 4), Node(Some(17), 3, Null, Null)];
    assert Keys(b, 1) == DataSet(b[1].data) + Keys(b, Null) + Keys(b, Null);
    assert Keys(b, 2) == DataSet(b[2].data) + Keys(b, Null) + Keys(b, Null);
    assert Keys(b, 2) == {20} && Keys(b, 1) == {5};
  }
}

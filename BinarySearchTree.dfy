/**
 * BinarySearchTree.java: an unbalanced search tree of keys, with a node count
 * `size`, and an in-order iterator driven by a stack of nodes.
 *
 * The node graph is the arena of `TreeArena`; `nodes` only grows, as the
 * Java heap does: `insert` allocates and `delete` leaves dead nodes behind.
 * A Java `Double` key is an `int` here.
 */
module BinarySearchTrees {
  import opened Errors
  import opened TreeArena
  import opened TreeFacts
  import opened TreeDelete

  /**
   * `delete(d)` raises no NullPointerException: the tree is not empty, the
   * search path holds keys, and a found node with fewer than two children is
   * not a root (its parent field is followed).
   */
  ghost predicate DeleteSafe(a: Arena, root: int, d: int)
    requires WellLinked(a) && IsRef(a, root)
  {
    && root != Null
    && SearchSafe(a, d, root)
    && var n := SearchRec(a, d, root);
       n != Null && (a[n].left == Null || a[n].right == Null) ==> a[n].parent != Null
  }

  /** `searchRec` on a well-linked arena that is a search tree below i finds exactly its keys. */
  lemma SearchFinds(a: Arena, d: int, i: int)
    requires WellLinked(a) && 0 <= i < |a| && SearchSafe(a, d, i)
    ensures IsBST(a, i) ==> (SearchRec(a, d, i) != Null <==> d in Keys(a, i))
  {
    if IsBST(a, i) {
      SearchCorrect(a, d, i, None, None);
    }
  }

  /** One level of `insertRec`: hang the leaf here, or leave it to the child the search goes to. */
  lemma InsertedStep(a: Arena, d: int, i: int)
    requires WellLinked(a) && 0 <= i < |a| && SearchSafe(a, d, i)
    ensures var k, l, r := a[i].data.value, a[i].left, a[i].right;
      && (d < k && l == Null ==> Inserted(a, d, i) == a[i := a[i].(left := |a|)] + [Node(Some(d), i, Null, Null)])
      && (d < k && l != Null ==> Inserted(a, d, i) == Inserted(a, d, l))
      && (d == k ==> Inserted(a, d, i) == a)
      && (d > k && r == Null ==> Inserted(a, d, i) == a[i := a[i].(right := |a|)] + [Node(Some(d), i, Null, Null)])
      && (d > k && r != Null ==> Inserted(a, d, i) == Inserted(a, d, r))
  {
  }

  class BinarySearchTree {
    /** Every node allocated so far; a reference is an index into it. */
    var nodes: Arena
    var root: int
    var size: int

    /**
     * The links stay well formed, the root has no parent, and the count is
     * zero exactly when the root is null.
     */
    ghost predicate Valid()
      reads this
    {
      && WellLinked(nodes)
      && IsRef(nodes, root)
      && size >= 0
      && (size == 0 <==> root == Null)
      && (root != Null ==> nodes[root].parent == Null)
    }

    /** The keys in the tree. */
    ghost function Contents(): set<int>
      reads this
      requires Valid()
    {
      Keys(nodes, root)
    }

    /** `BinarySearchTree()`: the empty tree. */
    constructor ()
      ensures Valid() && nodes == [] && root == Null && size == 0
    {
      nodes := [];
      root := Null;
      size := 0;
    }

    /** `BinarySearchTree(data)` on a key: `insert(data)` on the empty tree. */
    constructor WithRoot(data: int)
      ensures Valid() && nodes == [Node(Some(data), Null, Null, Null)] && root == 0 && size == 1
      ensures Contents() == {data}
    {
      nodes := [Node(Some(data), Null, Null, Null)];
      root := 0;
      size := 1;
      new;
      assert Keys(nodes, 0) == DataSet(Some(data)) + Keys(nodes, Null) + Keys(nodes, Null);
    }

    /** `BinarySearchTree(data)`: a null key is the IllegalArgumentException of `insert`. */
    static method Create(data: Option<int>) returns (r: Result<BinarySearchTree>)
      ensures r.Err? <==> data.None?
      ensures r.Err? ==> r.error == IllegalArgument
      ensures r.Ok? ==> fresh(r.value) && r.value.Valid() && r.value.Contents() == {data.value}
    {
      if data.None? {
        return Err(IllegalArgument);
      }
      var t := new BinarySearchTree.WithRoot(data.value);
      r := Ok(t);
    }

    /** `isEmpty()`: no key is reachable exactly when the count is zero. */
    predicate IsEmpty()
      reads this
      requires Valid()
      ensures IsEmpty() <==> root == Null
      ensures IsEmpty() ==> Contents() == {}
    {
      size == 0
    }

    /** `getSize()`. */
    function GetSize(): (r: int)
      reads this
      requires Valid()
      ensures r >= 0 && (r == 0 <==> root == Null)
    {
      size
    }

    /** `getMinVal()`: an empty tree is a RuntimeException; otherwise the leftmost node's key. */
    function GetMinVal(): (r: Result<Option<int>>)
      reads this
      requires Valid()
      ensures r.Err? <==> root == Null
      ensures r.Err? ==> r.error == Runtime
      ensures r.Ok? ==> r.value == nodes[Leftmost(nodes, root)].data
    {
      if IsEmpty() then Err(Runtime) else Ok(nodes[Leftmost(nodes, root)].data)
    }

    /**
     * `getMaxVal()`: an empty tree is a RuntimeException; otherwise the key
     * `getMaxValRec` reaches, which with a right child is the least key of the
     * right subtree and not the greatest key of the tree.
     */
    function GetMaxVal(): (r: Result<Option<int>>)
      reads this
      requires Valid()
      ensures r.Err? <==> root == Null
      ensures r.Err? ==> r.error == Runtime
      ensures r.Ok? ==> r.value == nodes[MaxValRec(nodes, root)].data
    {
      if IsEmpty() then Err(Runtime) else Ok(nodes[MaxValRec(nodes, root)].data)
    }

    /**
     * `search(data)`: a null key is an IllegalArgumentException; otherwise
     * whether `searchRec` from the root finds a node, which on a search tree
     * is whether the key is in it.
     */
    function Search(data: Option<int>): (r: Result<bool>)
      reads this
      requires Valid()
      requires data.Some? ==> root != Null && SearchSafe(nodes, data.value, root)
      ensures r.Err? <==> data.None?
      ensures r.Err? ==> r.error == IllegalArgument
      ensures r.Ok? ==> (r.value <==> SearchRec(nodes, data.value, root) != Null)
      ensures r.Ok? && IsBST(nodes, root) ==> (r.value <==> data.value in Contents())
    {
      if data.None? then Err(IllegalArgument)
      else
        SearchFinds(nodes, data.value, root);
        Ok(SearchRec(nodes, data.value, root) != Null)
    }

    /**
     * `insertRec(data, node)`: hangs a new leaf where the search for data
     * falls off below node, and answers the child link it went down (after
     * the insertion), or null if node itself holds data.
     */
    method InsertRec(data: int, node: int) returns (r: int)
      modifies this
      requires Valid() && 0 <= node < |nodes| && SearchSafe(nodes, data, node)
      ensures Valid() && root == old(root) && size == old(size)
      ensures nodes == Inserted(old(nodes), data, node)
      ensures r == Null <==> data == old(nodes)[node].data.value
      decreases Rank(nodes, node)
    {
      var k := nodes[node].data.value;
      InsertedStep(nodes, data, node);
      if data < k {
        if nodes[node].left == Null {
          nodes := nodes[node := nodes[node].(left := |nodes|)] + [Node(Some(data), node, Null, Null)];
        } else {
          var _ := InsertRec(data, nodes[node].left);
        }
        r := nodes[node].left;
      } else if data == k {
        r := Null;
      } else {
        if nodes[node].right == Null {
          nodes := nodes[node := nodes[node].(right := |nodes|)] + [Node(Some(data), node, Null, Null)];
        } else {
          var _ := InsertRec(data, nodes[node].right);
        }
        r := nodes[node].right;
      }
    }

    /**
     * `insert(data)`: a null key is an IllegalArgumentException. An empty tree
     * gets a new root. Otherwise the key is inserted below the root, and the
     * count goes up unless the root itself holds the key: a duplicate found
     * deeper is not inserted but still counted.
     */
    method Insert(data: Option<int>) returns (r: Result<bool>)
      modifies this
      requires Valid()
      requires data.Some? && size != 0 ==> SearchSafe(nodes, data.value, root)
      ensures Valid()
      ensures data.None? ==> r == Err(IllegalArgument) && nodes == old(nodes) && root == old(root) && size == old(size)
      ensures data.Some? && old(size) == 0 ==>
                && r == Ok(true) && size == 1 && root == |old(nodes)|
                && nodes == old(nodes) + [Node(Some(data.value), Null, Null, Null)]
      ensures data.Some? && old(size) != 0 && data.value == old(nodes)[old(root)].data.value ==>
                r == Ok(false) && nodes == old(nodes) && root == old(root) && size == old(size)
      ensures data.Some? && old(size) != 0 && data.value != old(nodes)[old(root)].data.value ==>
                && r == Ok(true) && root == old(root) && size == old(size) + 1
                && nodes == Inserted(old(nodes), data.value, old(root))
    {
      if data.None? {
        return Err(IllegalArgument);
      }
      if size == 0 {
        nodes := nodes + [Node(Some(data.value), Null, Null, Null)];
        root := |nodes| - 1;
      } else {
        var node := InsertRec(data.value, root);
        if node == Null {
          return Ok(false);
        }
      }
      size := size + 1;
      r := Ok(true);
    }

    /**
     * `delete(data)`: a null key is an IllegalArgumentException; a key the
     * search does not find leaves the tree alone. A found node is unhooked as
     * `Removed` says, the count goes down, and the root is dropped when the
     * count reaches zero.
     */
    method Delete(data: Option<int>) returns (r: Result<bool>)
      modifies this
      requires Valid()
      requires data.Some? ==> DeleteSafe(nodes, root, data.value)
      ensures Valid()
      ensures data.None? ==> r == Err(IllegalArgument) && nodes == old(nodes) && root == old(root) && size == old(size)
      ensures data.Some? && SearchRec(old(nodes), data.value, old(root)) == Null ==>
                r == Ok(false) && nodes == old(nodes) && root == old(root) && size == old(size)
      ensures data.Some? && SearchRec(old(nodes), data.value, old(root)) != Null ==>
                && r == Ok(true)
                && nodes == Removed(old(nodes), SearchRec(old(nodes), data.value, old(root)))
                && size == old(size) - 1
                && root == (if size == 0 then Null else old(root))
    {
      if data.None? {
        return Err(IllegalArgument);
      }
      var node := SearchRec(nodes, data.value, root);
      if node == Null {
        return Ok(false);
      }
      nodes := Removed(nodes, node);
      size := size - 1;
      if size == 0 {
        root := Null;
      }
      r := Ok(true);
    }

    /** `iterator()`: an iterator over the current tree. */
    method Iterator() returns (it: BinarySearchTreeIterator)
      requires Valid()
      ensures fresh(it) && it.tree == this && it.Valid()
      ensures it.Remaining() == InOrder(nodes, root)
    {
      it := new BinarySearchTreeIterator(this);
    }
  }

  /**
   * The keys an iterator with this stack (top last) has still to produce: for
   * each node from the top down, its key and then its right subtree in order.
   */
  ghost function Pending(a: Arena, stack: seq<int>): seq<Option<int>>
    requires WellLinked(a) && forall i :: 0 <= i < |stack| ==> 0 <= stack[i] < |a|
  {
    if stack == [] then []
    else
      var top := stack[|stack| - 1];
      [a[top].data] + InOrder(a, a[top].right) + Pending(a, stack[..|stack| - 1])
  }

  /** Pushing a node puts it, then its right subtree, in front of what was pending. */
  lemma PendingPush(a: Arena, stack: seq<int>, n: int)
    requires WellLinked(a) && 0 <= n < |a| && forall i :: 0 <= i < |stack| ==> 0 <= stack[i] < |a|
    ensures Pending(a, stack + [n]) == [a[n].data] + InOrder(a, a[n].right) + Pending(a, stack)
  {
    assert (stack + [n])[..|stack|] == stack;
  }

  /** One round of `pushAllLeftChildren`'s loop keeps what is pending. */
  lemma PushAllStep(a: Arena, stack: seq<int>, n: int, all: seq<Option<int>>)
    requires WellLinked(a) && 0 <= n < |a| && forall i :: 0 <= i < |stack| ==> 0 <= stack[i] < |a|
    requires all == InOrder(a, n) + Pending(a, stack)
    ensures all == InOrder(a, a[n].left) + Pending(a, stack + [n])
  {
    PendingPush(a, stack, n);
  }

  /** Popping the top node leaves its right subtree and the rest pending. */
  lemma PopStep(a: Arena, stack: seq<int>)
    requires WellLinked(a) && stack != [] && forall i :: 0 <= i < |stack| ==> 0 <= stack[i] < |a|
    ensures Pending(a, stack) != [] && Pending(a, stack)[0] == a[stack[|stack| - 1]].data
    ensures Pending(a, stack)[1..] == InOrder(a, a[stack[|stack| - 1]].right) + Pending(a, stack[..|stack| - 1])
  {
    var top := stack[|stack| - 1];
    var x, p := InOrder(a, a[top].right), Pending(a, stack[..|stack| - 1]);
    assert Pending(a, stack) == [a[top].data] + x + p;
    SplitHead(a[top].data, x, p);
  }

  /** The head and the tail of a sequence that starts with d. */
  lemma SplitHead<T>(d: T, x: seq<T>, p: seq<T>)
    ensures ([d] + x + p)[0] == d && ([d] + x + p)[1..] == x + p
  {
  }

  /** `BinarySearchTreeIterator`: a stack of nodes whose left spines have been pushed. */
  class BinarySearchTreeIterator {
    const tree: BinarySearchTree
    var stack: seq<int>

    ghost predicate Valid()
      reads this, tree
    {
      && tree.Valid()
      && forall i :: 0 <= i < |stack| ==> 0 <= stack[i] < |tree.nodes|
    }

    /** The keys still to come. */
    ghost function Remaining(): seq<Option<int>>
      reads this, tree
      requires Valid()
    {
      Pending(tree.nodes, stack)
    }

    /** `BinarySearchTreeIterator(root)`: the left spine of the root is pushed. */
    constructor (tree: BinarySearchTree)
      requires tree.Valid()
      ensures this.tree == tree && Valid()
      ensures Remaining() == InOrder(tree.nodes, tree.root)
    {
      this.tree := tree;
      stack := [];
      new;
      PushAllLeftChildren(tree.root);
    }

    /** `pushAllLeftChildren(node)`: node's subtree comes next, in order, before what was pending. */
    method PushAllLeftChildren(node: int)
      modifies this
      requires Valid() && IsRef(tree.nodes, node)
      ensures Valid()
      ensures Remaining() == InOrder(tree.nodes, node) + old(Remaining())
    {
      ghost var a, rest := tree.nodes, Remaining();
      var n := node;
      while n != Null
        invariant Valid() && IsRef(a, n) && tree.nodes == a
        invariant InOrder(a, node) + rest == InOrder(a, n) + Pending(a, stack)
        decreases Rank(a, n)
      {
        PushAllStep(a, stack, n, InOrder(a, node) + rest);
        stack := stack + [n];
        n := tree.nodes[n].left;
      }
    }

    /** `hasNext()`: keys remain exactly when the stack is not empty. */
    predicate HasNext()
      reads this, tree
      requires Valid()
      ensures HasNext() <==> Remaining() != []
    {
      stack != []
    }

    /**
     * `next()`: the next key in order, the top node's. With nothing left the
     * stack's `pop` throws an EmptyStackException.
     */
    method Next() returns (r: Result<Option<int>>)
      modifies this
      requires Valid()
      ensures Valid()
      ensures old(Remaining()) == [] ==> r == Err(EmptyStack) && stack == old(stack)
      ensures old(Remaining()) != [] ==> r == Ok(old(Remaining())[0]) && Remaining() == old(Remaining())[1..]
    {
      if stack == [] {
        return Err(EmptyStack);
      }
      ghost var a := tree.nodes;
      var curr := stack[|stack| - 1];
      PopStep(a, stack);
      stack := stack[..|stack| - 1];
      var res := tree.nodes[curr].data;
      if tree.nodes[curr].right != Null {
        PushAllLeftChildren(tree.nodes[curr].right);
      }
      r := Ok(res);
    }
  }
}

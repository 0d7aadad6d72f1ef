# Verified model of a Java data-structures collection

This project models five container classes of a small Java collection and proves
what each operation does to the container's abstract contents:

- `PriorityQueue<T>`: a binary min-heap in level order (`heap`), with a map from
  each value to the set of positions where it occurs (`map`). It is the main part
  of the model.
- `DynamicArray<T>`: a growable buffer `arr` whose first `length` slots are in
  use, with a `capacity` that `push` doubles.
- `BinarySearchTree`: an unbalanced binary search tree with parent links, a
  `size` counter and an in-order iterator built on a stack.
- `DoublyLinkedList<T>` and `SinglyLinkedList<T>`: linked lists with `head`,
  `tail` and `size`.

The model follows what the code does, including behaviour that its comments and
names do not announce:

- `sink` compares positions, not values, so it never exchanges anything.
- The array constructor of the priority queue calls `swim`, not `sink`.
- `add` never records the new element in the position map.
- `insertRec` reports success for a duplicate key that lies below the root.
- Deleting a node with two children drops its successor's right subtree.
- The `DynamicArray` iterator skips the first element.
- `SinglyLinkedList.removeFirst` returns the element of the new head.
- `SinglyLinkedList.addLast` links a lone node to itself.

Every such behaviour is stated as a contract or shown by a lemma on a concrete
input.

## How the model is built

- Values are `int`.
  - A Java `null` argument is `None` of an `Option`.
  - An explicit `throw` becomes an `Err` of a `Result` or a `Fail` of an
    `Outcome` (module `Errors`), raised before anything changes, as in the code.
  - A dereference of `null`, or an index the code never checks, becomes a
    `requires`.
- **Priority queue** (class `IndexedPriorityQueue.PriorityQueue`).
  - `heap` is a `seq<int>` and `positions` is a `map<int, set<nat>>`, both
    reassigned in place by the methods.
  - The value-level meaning is in `HeapOrder`: the parent relation, heap order,
    and `swim` as the function `SwimSeq`.
  - The bookkeeping of the map is in `PositionIndex`.
  - Parent positions are computed with Java's truncating division (`JavaDiv`).
    Position 0 is therefore its own parent, which is how `swim` stops at the
    root.
- **Binary search tree** (`BinarySearchTrees`, over `TreeArena`).
  - The nodes live in an arena: a sequence of node records whose links are
    positions in the sequence, with `Null` (-1) for Java's `null`.
  - A child always lies after its parent in the arena, which gives the
    recursive functions their termination measure.
  - `TreeFacts` and `TreeDelete` hold the proofs about search, insertion,
    deletion and in-order traversal.
- **Linked lists** (`DoublyLinkedLists`, `SinglyLinkedLists`).
  - Nodes live in an arena in the same way.
  - A ghost sequence of node positions (`order`, `chain`) lists the live nodes
    from head to tail.
  - A ghost `Contents` lists their elements.
  - `NodeRefs` states that no node occurs twice among the live nodes.
- **Dynamic array** (`DynamicArrays`).
  - A Dafny `array<Option<T>>` buffer, with `length` and `capacity` fields.
  - A ghost `Contents` lists the elements in use.

## Model

| member | source | states |
|---|---|---|
| HeapOrder.Parent | src/main/java/PriorityQueue.java:138 | `(index-1)/2` under Java truncation: position 0 maps to itself; every other position is the left or right child of a strictly smaller parent |
| HeapOrder.SwapSeq | src/main/java/PriorityQueue.java:82-90 | exchanging two slots puts each value in the other's place, leaves every other slot alone and keeps the multiset of values |
| HeapOrder.RemovedAt | src/main/java/PriorityQueue.java:188-191 | swapping slot i with the last slot and dropping the last leaves one element fewer, removes exactly `h[i]` from the multiset, and puts the old last value at i |
| HeapOrder.SwimSeq | src/main/java/PriorityQueue.java:136-146 | swimming only permutes the heap (same length and multiset) and does nothing when the parent is already not greater |
| HeapOrder.SwimPath | src/main/java/PriorityQueue.java:136-146 | the slots `swim(k)` exchanges: none exactly when k is settled, otherwise k and its parent and nothing below k |
| HeapOrder.SwimDownFrom | src/main/java/PriorityQueue.java:27 | the heapify loop, calling `swim` from a start index down to 0, only permutes the heap |
| HeapOrder.HeapifyStart | src/main/java/PriorityQueue.java:27 | `max(0, size/2-1)` is a valid index, and for four or more elements it has a child |
| HeapOrder.Heapify | src/main/java/PriorityQueue.java:17-28 | the array constructor's result is a permutation of its input |
| HeapOrder.AppendOrderedExceptLast | src/main/java/PriorityQueue.java:174-175 | appending to a heap-ordered sequence can break heap order only at the new last slot |
| HeapOrder.SwimStep | src/main/java/PriorityQueue.java:140-143 | one exchange with a greater parent moves the only disorder up to the parent's slot |
| HeapOrder.SwimRestoresOrder | src/main/java/PriorityQueue.java:136-146 | swimming the one out-of-order slot yields a heap-ordered sequence |
| HeapOrder.RootIsMinimum | src/main/java/PriorityQueue.java:164-167 | in a heap-ordered sequence the root is not greater than any element |
| HeapOrder.AncestorsNotGreater | src/main/java/PriorityQueue.java:164-167 | in a heap-ordered sequence the root is not greater than the element at any position |
| HeapOrder.DescendantSplit | src/main/java/PriorityQueue.java:211-221 | the subtree below k, apart from k itself, is the union of the subtrees of its children `2k+1` and `2k+2` |
| HeapOrder.NotDescendantBelow | src/main/java/PriorityQueue.java:209 | no position smaller than k lies in k's subtree |
| HeapOrder.RootAncestor | src/main/java/PriorityQueue.java:206-222 | every position lies in the subtree of the root |
| HeapOrder.MinHeapFromRoot | src/main/java/PriorityQueue.java:206-222 | "every position below the root is not greater than its children" is the same as heap order |
| PositionIndex.ConsistentIffNoneUntracked | src/main/java/PriorityQueue.java:6 | the map is consistent with the heap exactly when every recorded position is right and no position is missing |
| PositionIndex.ConsistentIffPositions | src/main/java/PriorityQueue.java:6 | the map is consistent with the heap exactly when it equals the value-to-positions map computed from the heap |
| PositionIndex.SoundKeys | src/main/java/PriorityQueue.java:6 | when every recorded position is right, every key of the map occurs in the heap |
| PositionIndex.SoundEmpty | src/main/java/PriorityQueue.java:45-48 | an empty heap admits only the empty map |
| PositionIndex.ConsistentKeys | src/main/java/PriorityQueue.java:149-152 | under consistency a value is a key of the map exactly when it occurs in the heap |
| PositionIndex.SwapIndex | src/main/java/PriorityQueue.java:82-102 | swap plus mapSwap keeps every recorded position right, keeps the keys, and repairs both exchanged slots; consistency is preserved, including for i == j and for equal values |
| PositionIndex.AppendIndex | src/main/java/PriorityQueue.java:174 | appending without touching the map keeps the map sound and leaves exactly the new slot unrecorded |
| PositionIndex.AppendAddedIndex | src/main/java/PriorityQueue.java:21-24 | appending together with mapAdd keeps the map consistent |
| PositionIndex.RemoveLastIndex | src/main/java/PriorityQueue.java:190-191 | dropping the last slot together with mapRemove keeps the map sound and preserves consistency |
| PositionIndex.SwapRemoveIndex | src/main/java/PriorityQueue.java:188-191 | removeAt's swap, remove and mapRemove keep the map sound, repair the two slots involved and preserve consistency |
| IndexedPriorityQueue.HasMinimum | src/main/java/PriorityQueue.java:78 | a non-empty position set has a least element |
| IndexedPriorityQueue.SetMin | src/main/java/PriorityQueue.java:78 | `TreeSet.first()`: the least element of a non-empty set |
| IndexedPriorityQueue.SwimSafeWhenAllKeys | src/main/java/PriorityQueue.java:93-97 | when every heap value is a key of the map, swim never dereferences a missing set |
| IndexedPriorityQueue.SwimTracks | src/main/java/PriorityQueue.java:136-146 | the map `swim` leaves is sound for the swum heap, has the same keys, and its unrecorded slots are the old ones minus the swim path |
| IndexedPriorityQueue.UnorderedCollectionFails | src/main/java/PriorityQueue.java:31-34 | on an input that is not heap-ordered, some `add` finds the heap so far ordered but its `swim` dereferences a missing set in the empty map |
| IndexedPriorityQueue.PriorityQueue.constructor | src/main/java/PriorityQueue.java:8-10 | the default queue is empty, with an empty and consistent map |
| IndexedPriorityQueue.PriorityQueue.WithCapacity | src/main/java/PriorityQueue.java:12-14 | the capacity hint changes nothing: the queue is empty and consistent |
| IndexedPriorityQueue.PriorityQueue.FromArray | src/main/java/PriorityQueue.java:17-28 | the heap is `Heapify(elems)`, a permutation of the input, and the map is consistent with it |
| IndexedPriorityQueue.PriorityQueue.FromCollection | src/main/java/PriorityQueue.java:31-34 | on a heap-ordered input repeated `add` works without a null dereference and keeps the input unchanged with an empty map (`UnorderedCollectionFails` shows no other input works) |
| IndexedPriorityQueue.PriorityQueue.GetSize | src/main/java/PriorityQueue.java:36-38 | the number of elements; an empty heap has an empty map |
| IndexedPriorityQueue.PriorityQueue.IsEmpty | src/main/java/PriorityQueue.java:40-42 | empty exactly when `peek` returns null |
| IndexedPriorityQueue.PriorityQueue.Clear | src/main/java/PriorityQueue.java:45-48 | both the heap and the map become empty |
| IndexedPriorityQueue.PriorityQueue.MapAdd | src/main/java/PriorityQueue.java:51-62 | adds exactly `index` to the value's set, creating the set if absent, and touches no other key |
| IndexedPriorityQueue.PriorityQueue.MapRemove | src/main/java/PriorityQueue.java:65-70 | removes exactly `index` from the value's set and deletes the key when the set becomes empty |
| IndexedPriorityQueue.PriorityQueue.MapGet | src/main/java/PriorityQueue.java:75-79 | returns the least recorded position of the value, which holds that value |
| IndexedPriorityQueue.PriorityQueue.Swap | src/main/java/PriorityQueue.java:82-90 | the heap becomes the swapped sequence and the map the swapped index |
| IndexedPriorityQueue.PriorityQueue.MapSwap | src/main/java/PriorityQueue.java:93-102 | moves i to j in x's set and j to i in y's set, heap unchanged |
| IndexedPriorityQueue.PriorityQueue.IsLess | src/main/java/PriorityQueue.java:106-111 | true exactly when `heap[i] <= heap[j]`, so always true for i == j |
| IndexedPriorityQueue.PriorityQueue.Sink | src/main/java/PriorityQueue.java:114-133 | leaves the heap and the map unchanged, because the exit test compares positions |
| IndexedPriorityQueue.PriorityQueue.Swim | src/main/java/PriorityQueue.java:136-146 | the heap becomes `SwimSeq` of the old heap and the map `SwimIndex` of the old map, the keys are kept, no recorded position goes wrong, and the unrecorded slots lose exactly the slots on the swim path |
| IndexedPriorityQueue.PriorityQueue.Contains | src/main/java/PriorityQueue.java:149-159 | false for null; otherwise true exactly when the map has the key, which under consistency means the heap holds the value |
| IndexedPriorityQueue.PriorityQueue.Peek | src/main/java/PriorityQueue.java:164-167 | null exactly on an empty heap, otherwise `heap[0]`, which in a heap-ordered heap is a minimum |
| IndexedPriorityQueue.PriorityQueue.Add | src/main/java/PriorityQueue.java:171-177 | null is an IllegalArgumentException with no change; otherwise appends and swims, never adding a key, adds the new slot to the unrecorded slots and then removes exactly the slots the swim exchanges, and keeps heap order |
| IndexedPriorityQueue.PriorityQueue.Poll | src/main/java/PriorityQueue.java:180-182 | `removeAt(0)`: an empty heap is a NoSuchElementException with no change; otherwise returns the root and removes it as `RemovedAt`, preserving consistency |
| IndexedPriorityQueue.PriorityQueue.RemoveAt | src/main/java/PriorityQueue.java:185-195 | an empty heap is a NoSuchElementException with no change; otherwise returns the old `heap[index]`, shrinks by one with the old last value at `index`, and preserves consistency |
| IndexedPriorityQueue.PriorityQueue.Remove | src/main/java/PriorityQueue.java:198-200 | removes the element at the least recorded position of obj, so the multiset loses one obj, the unrecorded slots lose exactly that position and the old last slot, and returns true |
| IndexedPriorityQueue.PriorityQueue.IsMinHeap | src/main/java/PriorityQueue.java:206-222 | true exactly when every position in k's subtree is not greater than its children; from the root, exactly heap order |
| IndexedPriorityQueue.NoDescendantsPastEnd | src/main/java/PriorityQueue.java:209 | a subtree rooted past the end is vacuously ordered |
| IndexedPriorityQueue.SubtreeSplit | src/main/java/PriorityQueue.java:211-221 | a subtree is ordered exactly when its root is not greater than its children and both child subtrees are ordered |
| IndexedPriorityQueue.ArrayConstructorLeavesDisorder | src/main/java/PriorityQueue.java:27 | the array constructor leaves `[3, 2, 1]` as it is, which is not heap-ordered |
| IndexedPriorityQueue.PollCanBreakHeapOrder | src/main/java/PriorityQueue.java:190-192 | because sink does nothing, polling `[1, 2, 3]` leaves `[3, 2]`, which is not heap-ordered |
| IndexedPriorityQueue.AddThenContains | src/main/java/PriorityQueue.java:171-177 | on a new queue, `contains` of a value just added is false |
| DynamicArrays.FirstIndex | src/main/java/DynamicArray.java:124-132 | the first position holding x, or -1 exactly when x does not occur |
| DynamicArrays.DeletedAt | src/main/java/DynamicArray.java:99-108 | the contents with one position deleted and the order of the others kept |
| DynamicArrays.DynamicArray.constructor | src/main/java/DynamicArray.java:10-17 | an empty array whose buffer has exactly the given capacity |
| DynamicArrays.DynamicArray.WithValues | src/main/java/DynamicArray.java:19-31 | the contents are the given values in a buffer of the given capacity |
| DynamicArrays.DynamicArray.Create | src/main/java/DynamicArray.java:11-13 | a capacity that is not positive is an IllegalArgumentException; otherwise an empty array |
| DynamicArrays.DynamicArray.Size | src/main/java/DynamicArray.java:33-35 | the number of elements |
| DynamicArrays.DynamicArray.Get | src/main/java/DynamicArray.java:37-46 | a negative index is IndexOutOfBounds, an index past the end is NoSuchElement, otherwise the element there |
| DynamicArrays.DynamicArray.Set | src/main/java/DynamicArray.java:48-57 | the same two errors with no change; otherwise only slot i changes |
| DynamicArrays.DynamicArray.Clear | src/main/java/DynamicArray.java:59-64 | the contents become empty and every slot is null, in the same buffer |
| DynamicArrays.DynamicArray.Push | src/main/java/DynamicArray.java:66-80 | appends n; on a full buffer first doubles the capacity into a new buffer; a capacity that matched the buffer still matches |
| DynamicArrays.DynamicArray.Pop | src/main/java/DynamicArray.java:82-91 | an empty array is NoSuchElement with no change; otherwise returns the last element, drops it and nulls its slot |
| DynamicArrays.DynamicArray.RemoveAt | src/main/java/DynamicArray.java:93-111 | an index past the end is NoSuchElement with no change; otherwise returns the element and deletes its position, in a new buffer of exactly the new length while `capacity` keeps its old value, so the next push overruns the buffer |
| DynamicArrays.DynamicArray.Remove | src/main/java/DynamicArray.java:113-122 | true exactly when obj occurs, and then its first occurrence is deleted; otherwise nothing changes |
| DynamicArrays.DynamicArray.IndexOf | src/main/java/DynamicArray.java:124-132 | the least position holding obj, or -1 exactly when none does |
| DynamicArrays.DynamicArray.Contains | src/main/java/DynamicArray.java:134-138 | true exactly when obj occurs |
| DynamicArrays.DynamicArray.Iterator | src/main/java/DynamicArray.java:141-143 | a new iterator over this array, positioned at 0 |
| DynamicArrays.DynamicArrayIterator.constructor | src/main/java/DynamicArray.java:145-146 | the iterator starts at index 0 |
| DynamicArrays.DynamicArrayIterator.HasNext | src/main/java/DynamicArray.java:149-151 | true exactly when a slot in use lies after the current index |
| DynamicArrays.DynamicArrayIterator.Next | src/main/java/DynamicArray.java:154-160 | throws NoSuchElement when `hasNext` fails; otherwise advances first and returns the element at the new index |
| DynamicArrays.IterateAll | src/main/java/DynamicArray.java:141-160 | a for-each loop sees every element except the first |
| TreeArena.Reach | src/main/java/BinarySearchTree.java:10-14 | every node reachable from i lies at i or after it in the arena |
| TreeArena.SearchRec | src/main/java/BinarySearchTree.java:99-119 | returns null or a reachable node holding the key |
| TreeArena.Leftmost | src/main/java/BinarySearchTree.java:49-56 | the reachable node with no left child reached by following left links |
| TreeArena.MaxValRec | src/main/java/BinarySearchTree.java:66-73 | the node itself when it has no right child, otherwise the leftmost node of its right subtree |
| TreeArena.LeafParent | src/main/java/BinarySearchTree.java:140-164 | null exactly when the key is found on the search path; otherwise the reachable node where a new leaf for it attaches |
| TreeArena.Attach | src/main/java/BinarySearchTree.java:150-152 | adds a leaf holding d as a child of q, with q as its parent, and changes no other node |
| TreeArena.Inserted | src/main/java/BinarySearchTree.java:140-164 | insertRec's effect on the arena keeps it well linked, never shortens it and keeps every parent link |
| TreeArena.Relink | src/main/java/BinarySearchTree.java:192-221 | only node p's child link changes |
| TreeArena.ClearData | src/main/java/BinarySearchTree.java:177-221 | only node x's key changes, to null |
| TreeArena.Splice | src/main/java/BinarySearchTree.java:177-221 | replacing n by c under its parent p nulls n's key, relinks p, and leaves every other node and every parent link alone |
| TreeArena.Removed | src/main/java/BinarySearchTree.java:166-241 | delete's effect on the arena keeps it well linked, keeps its length and keeps every parent link |
| TreeArena.DataWellLinked | src/main/java/BinarySearchTree.java:185 | changing a key keeps the arena well linked |
| TreeArena.RelinkWellLinked | src/main/java/BinarySearchTree.java:192-221 | relinking to a later node keeps the arena well linked |
| TreeFacts.SearchCorrect | src/main/java/BinarySearchTree.java:99-119 | in an ordered subtree the search never reaches a null node, and finds d exactly when d is a key there |
| TreeFacts.LeftmostIsMin | src/main/java/BinarySearchTree.java:49-56 | in an ordered subtree the leftmost key is a key and is not greater than any key |
| TreeFacts.RootIsMaxWithoutRight | src/main/java/BinarySearchTree.java:66-73 | in an ordered subtree without a right child, the root holds the largest key |
| TreeFacts.InsertedFacts | src/main/java/BinarySearchTree.java:140-164 | insertion into an ordered tree adds exactly d to the keys, keeps the order and keeps parent links right |
| TreeFacts.AttachKeys | src/main/java/BinarySearchTree.java:150-162 | attaching a leaf adds its key to every subtree that contains the parent and to no other |
| TreeFacts.AttachOrdered | src/main/java/BinarySearchTree.java:140-164 | attaching at the leaf parent the search finds keeps the subtree ordered |
| TreeFacts.SpliceFacts | src/main/java/BinarySearchTree.java:177-221 | unlinking a node with at most one child removes exactly its own key from every subtree above it and keeps the order |
| TreeFacts.RekeyOrdered | src/main/java/BinarySearchTree.java:222-240 | overwriting a node's key with its successor's keeps the order and swaps exactly that one key |
| TreeFacts.Successor | src/main/java/BinarySearchTree.java:232 | the leftmost key of the right subtree is greater than the node's key and no key lies strictly between them |
| TreeFacts.InOrderSorted | src/main/java/BinarySearchTree.java:268-276 | the in-order sequence of an ordered subtree is strictly increasing, within bounds, and holds exactly its keys |
| TreeDelete.DeleteSplice | src/main/java/BinarySearchTree.java:177-221 | deleting a non-root node with at most one child removes exactly its key and keeps the tree ordered; a leaf's removal also keeps parent links right |
| TreeDelete.SpliceLoses | src/main/java/BinarySearchTree.java:192-221 | a one-child unlink loses the node's key and nothing else |
| TreeDelete.SuccessorNode | src/main/java/BinarySearchTree.java:223 | the successor lies after the node and has no left child |
| TreeDelete.DeleteSuccessor | src/main/java/BinarySearchTree.java:222-240 | a two-child delete removes the node's key and also every key in the successor's right subtree, and keeps the tree ordered |
| TreeDelete.CutSuccessor | src/main/java/BinarySearchTree.java:225-237 | unlinking the successor removes it with its whole right subtree and keeps the tree ordered |
| TreeDelete.RemovedRekeys | src/main/java/BinarySearchTree.java:238-239 | the two-child delete is the successor cut followed by rewriting the node's key |
| TreeDelete.SuccessorFits | src/main/java/BinarySearchTree.java:222-240 | the successor's key fits in the node's place after the cut |
| TreeExamples.DuplicateCounted | src/main/java/BinarySearchTree.java:154-163 | inserting 5, 3, 3 reports success three times, counts size 3, yet stores only {3, 5} |
| TreeExamples.StaleParent | src/main/java/BinarySearchTree.java:192-221 | deleting 3 from the chain 5-3-2 hangs 2 under 5 but leaves 2's parent link on the dead node; deleting 2 next unhooks it from the dead node only, so 5 still links to a node with a null key, the in-order sequence yields that null, and a search below 5 steps onto it |
| TreeExamples.SuccessorLoses | src/main/java/BinarySearchTree.java:222-240 | deleting the root of {5, 10, 15, 17, 20} (successor 15 with right child 17) leaves {5, 15, 20} |
| BinarySearchTrees.SearchFinds | src/main/java/BinarySearchTree.java:91-119 | on an ordered tree searchRec finds d exactly when d is a key |
| BinarySearchTrees.InsertedStep | src/main/java/BinarySearchTree.java:140-164 | one step of insertRec: attach on the left or right when the slot is free, recurse otherwise, nothing on an equal key |
| BinarySearchTrees.BinarySearchTree.constructor | src/main/java/BinarySearchTree.java:26-27 | an empty tree |
| BinarySearchTrees.BinarySearchTree.WithRoot | src/main/java/BinarySearchTree.java:29-31 | a one-node tree holding the key |
| BinarySearchTrees.BinarySearchTree.Create | src/main/java/BinarySearchTree.java:29-31 | a null key is an IllegalArgumentException; otherwise a tree holding exactly that key |
| BinarySearchTrees.BinarySearchTree.IsEmpty | src/main/java/BinarySearchTree.java:33-35 | empty exactly when there is no root, and then there are no keys |
| BinarySearchTrees.BinarySearchTree.GetSize | src/main/java/BinarySearchTree.java:37-39 | the counter, zero exactly on an empty tree |
| BinarySearchTrees.BinarySearchTree.GetMinVal | src/main/java/BinarySearchTree.java:41-47 | a RuntimeException exactly on an empty tree; otherwise the leftmost key |
| BinarySearchTrees.BinarySearchTree.GetMaxVal | src/main/java/BinarySearchTree.java:58-64 | a RuntimeException exactly on an empty tree; otherwise what getMaxValRec returns: the root key without a right child, else the leftmost key of the right subtree |
| BinarySearchTrees.BinarySearchTree.Search | src/main/java/BinarySearchTree.java:91-97 | null is an IllegalArgumentException; otherwise true exactly when searchRec finds the key, which on an ordered tree means the key is present |
| BinarySearchTrees.BinarySearchTree.InsertRec | src/main/java/BinarySearchTree.java:140-164 | the arena becomes `Inserted`; the returned child is null exactly when the key equals the node's own |
| BinarySearchTrees.BinarySearchTree.Insert | src/main/java/BinarySearchTree.java:121-138 | null is an IllegalArgumentException; an empty tree gets the key as root with size 1; a key equal to the root returns false; otherwise returns true and adds one to size, even for a duplicate below the root |
| BinarySearchTrees.BinarySearchTree.Delete | src/main/java/BinarySearchTree.java:166-241 | null is an IllegalArgumentException; an absent key returns false with no change; otherwise the arena becomes `Removed` at the found node and size drops by one |
| BinarySearchTrees.BinarySearchTree.Iterator | src/main/java/BinarySearchTree.java:244-246 | a new iterator whose remaining sequence is the tree's in-order sequence |
| BinarySearchTrees.PendingPush | src/main/java/BinarySearchTree.java:255-260 | pushing a node puts its key and its right subtree in front of what is pending |
| BinarySearchTrees.PushAllStep | src/main/java/BinarySearchTree.java:255-260 | one step down the left spine keeps the pending sequence |
| BinarySearchTrees.PopStep | src/main/java/BinarySearchTree.java:268-276 | the top of the stack holds the next pending key, and after it come its right subtree and the rest |
| BinarySearchTrees.BinarySearchTreeIterator.constructor | src/main/java/BinarySearchTree.java:251-253 | the pending sequence is the tree's in-order sequence |
| BinarySearchTrees.BinarySearchTreeIterator.PushAllLeftChildren | src/main/java/BinarySearchTree.java:255-260 | puts the node's in-order sequence in front of what is pending |
| BinarySearchTrees.BinarySearchTreeIterator.HasNext | src/main/java/BinarySearchTree.java:263-265 | true exactly when something is pending |
| BinarySearchTrees.BinarySearchTreeIterator.Next | src/main/java/BinarySearchTree.java:268-276 | an empty stack is an EmptyStackException; otherwise returns the first pending key and removes it |
| NodeRefs.InsertAt | src/main/java/DoublyLinkedList.java:95-111 | x lands at position k, earlier elements stay, later ones shift by one |
| NodeRefs.DistinctAt | src/main/java/DoublyLinkedList.java:113-151 | a node of a repeat-free sequence occurs at no other position |
| NodeRefs.DistinctInsert | src/main/java/DoublyLinkedList.java:95-111 | inserting a node not yet in the sequence keeps it repeat-free |
| NodeRefs.DistinctSlice | src/main/java/DoublyLinkedList.java:113-151 | a slice of a repeat-free sequence is repeat-free |
| DoublyLinkedLists.NodePosition | src/main/java/DoublyLinkedList.java:25-46 | the 0-based position getNodeByIndex reaches: index-1 from the tail side, index from the head side |
| DoublyLinkedLists.LinkAt | src/main/java/DoublyLinkedList.java:65-111 | linking a new node between two neighbours inserts it into the list at that position, with prev mirroring next |
| DoublyLinkedLists.UnlinkFirst | src/main/java/DoublyLinkedList.java:113-131 | clearing the second node's prev link leaves a well-formed list of the remaining nodes |
| DoublyLinkedLists.UnlinkLast | src/main/java/DoublyLinkedList.java:133-151 | clearing the second-last node's next link leaves a well-formed list of the remaining nodes |
| DoublyLinkedLists.DoublyLinkedList.constructor | src/main/java/DoublyLinkedList.java:5-7 | an empty list |
| DoublyLinkedLists.DoublyLinkedList.GetSize | src/main/java/DoublyLinkedList.java:21 | the number of elements |
| DoublyLinkedLists.DoublyLinkedList.IsEmpty | src/main/java/DoublyLinkedList.java:23 | empty exactly when there are no elements |
| DoublyLinkedLists.DoublyLinkedList.GetNodeByIndex | src/main/java/DoublyLinkedList.java:25-46 | an index outside 1..size is IndexOutOfBounds; otherwise the node at `NodePosition`, so the index-th node from the tail side and the (index+1)-th from the head side |
| DoublyLinkedLists.DoublyLinkedList.AddFirst | src/main/java/DoublyLinkedList.java:65-78 | the contents become `[x] + old`, still well formed |
| DoublyLinkedLists.DoublyLinkedList.AddLast | src/main/java/DoublyLinkedList.java:80-93 | the contents become `old + [x]`, still well formed |
| DoublyLinkedLists.DoublyLinkedList.Add | src/main/java/DoublyLinkedList.java:95-111 | empty list or index 1 prepends; index == size appends; a bad index is IndexOutOfBounds with no change; otherwise inserts before the node getNodeByIndex returns |
| DoublyLinkedLists.DoublyLinkedList.RemoveFirst | src/main/java/DoublyLinkedList.java:113-131 | an empty list is NoSuchElement with no change; otherwise returns the first element and keeps the rest; at size 1 head and tail become null |
| DoublyLinkedLists.DoublyLinkedList.RemoveLast | src/main/java/DoublyLinkedList.java:133-151 | an empty list is NoSuchElement with no change; otherwise returns the last element and keeps the rest; at size 1 head and tail become null |
| DoublyLinkedLists.AddPositions | src/main/java/DoublyLinkedList.java:95-111 | on [1, 2, 3, 4], `add(2, 9)` puts 9 third, after the node the head-side walk passes, and then `add(5, 8)` at index == size appends |
| SinglyLinkedLists.SinglyLinkedList.constructor | src/main/java/SinglyLinkedList.java:28-29 | an empty list |
| SinglyLinkedLists.SinglyLinkedList.GetSize | src/main/java/SinglyLinkedList.java:43-45 | the number of elements |
| SinglyLinkedLists.SinglyLinkedList.IsEmpty | src/main/java/SinglyLinkedList.java:47-49 | empty exactly when there are no elements |
| SinglyLinkedLists.SinglyLinkedList.Clear | src/main/java/SinglyLinkedList.java:31-41 | the list becomes empty with null head and tail, and every node that was reachable has its element and link nulled |
| SinglyLinkedLists.SinglyLinkedList.AddFirst | src/main/java/SinglyLinkedList.java:51-60 | the contents become `[x] + old` |
| SinglyLinkedLists.SinglyLinkedList.AddLast | src/main/java/SinglyLinkedList.java:62-70 | the contents become `old + [x]`; on an empty list the new node links to itself |
| SinglyLinkedLists.SinglyLinkedList.RemoveFirst | src/main/java/SinglyLinkedList.java:72-82 | an empty list is a RuntimeException with no change; otherwise drops the first element, nulls it, and returns the element of the new head: the old second element, or null when only a self-linked node was left |
| SinglyLinkedLists.SinglyLinkedList.RemoveLast | src/main/java/SinglyLinkedList.java:84-103 | an empty list is a RuntimeException with no change; otherwise drops the last element; with two or more it unlinks the tail, nulls it and returns the new tail's element; with one it returns null |
| SinglyLinkedLists.SinglyLinkedList.RemoveAt | src/main/java/SinglyLinkedList.java:138-146 | an index outside 1..size is IndexOutOfBounds; otherwise the walk ends on the node after the index-th |
| SinglyLinkedLists.SinglyLinkedList.IndexOf | src/main/java/SinglyLinkedList.java:151-167 | the least 1-based position holding x, or -1 exactly when x does not occur |
| SinglyLinkedLists.SinglyLinkedList.Contains | src/main/java/SinglyLinkedList.java:169-171 | true exactly when x occurs |
| SinglyLinkedLists.Appended | src/main/java/SinglyLinkedList.java:62-70 | the node writes of addLast yield a well-formed list with x appended |
| SinglyLinkedLists.WalkStop | src/main/java/SinglyLinkedList.java:89-100 | removeLast's search loop stops at the second-last node, or runs off a lone node |
| SinglyLinkedLists.Dropped | src/main/java/SinglyLinkedList.java:91-102 | the node writes of removeLast yield a well-formed list without its last element |
| SinglyLinkedLists.RemoveAnswers | src/main/java/SinglyLinkedList.java:72-103 | on [1, 2, 3], removeFirst and then removeLast both return 2 |
| SinglyLinkedLists.OneElement | src/main/java/SinglyLinkedList.java:62-82 | removeFirst succeeds on a one-element list built by addLast and would dereference null on one built by addFirst |

## Left out

- Java generics, `Comparable`, `equals` and `hashCode`: elements are `int` and compared with `<=` and `==`. The tree's `Double` keys are plain integers, so NaN, -0.0 and boxing are not modelled.
- Null elements inside the containers: `null` is modelled only where an operation checks for it or returns it.
- Java `int` overflow of `size`, `length` or `2 * capacity`: integers are unbounded.
- `HashMap`, `TreeSet` and `ArrayList` internals: they are a Dafny `map`, `set` and `seq`. The `ArrayList` capacity hint has no effect.
- The iteration order of an arbitrary `Collection` in `PriorityQueue(Collection)`: the input is a `seq`.
- The arenas stand in for heap-allocated nodes. Aliasing from outside the container and garbage collection are not modelled, and unlinked nodes stay in the arena.
- The asymptotic-cost comments: they describe running time, not behaviour.
- `traverseInOrder` and `traverseInOrderRec` in BinarySearchTree.java: they print to the console.
- `DoublyLinkedList.getNodeByData`: its loop never advances, so it does not terminate once the first node does not match. It is unused.
- `DoublyLinkedList.iterator`: it returns null.
- `SinglyLinkedList.removeNode`, `remove` and `iterator`: they decrement `size` twice and dereference null, so no well-formedness survives them.
- SinglyLinkedLists.SinglyLinkedList.RemoveAt: models the range check and the walk, and returns the node reached instead of handing it to `removeNode`.
- SinglyLinkedLists.SinglyLinkedList.RemoveLast: the search loop and the unlinking that the Java code does inside the loop are written as a loop followed by the writes. The result is the same.
- SinglyLinkedLists.SinglyLinkedList.RemoveFirst: requires the node after the head to exist, because the Java code dereferences it. This rules out a one-element list built by `addFirst`.
- DynamicArrays.DynamicArray.RemoveAt: requires a non-negative index when one is in range, since a negative index reaches `arr[index]` and fails there.
- DynamicArrays.DynamicArray.Push: requires a free slot or a full capacity (`CanPush`). After `removeAt` shrinks the buffer without lowering `capacity`, `push` indexes past the buffer's end.
- DynamicArrays.DynamicArray.constructor and WithValues: require a positive capacity, and `Create` models the IllegalArgumentException for the rest. WithValues also requires the values to fit, because more values than capacity overrun the buffer.
- DynamicArrays.DynamicArrayIterator.Next: requires a non-negative index, which every iterator has.
- IndexedPriorityQueue.PriorityQueue.Swim, Add, Poll, RemoveAt and Remove: require every value the operation exchanges or removes to be a key of the map, because `mapSwap`, `mapRemove` and `mapGet` dereference the set they look up. `SwimSafe` states the condition for `swim`.
- IndexedPriorityQueue.PriorityQueue.Remove: requires obj to be a key, because `mapGet` of an absent value dereferences null.
- IndexedPriorityQueue.PriorityQueue.FromCollection: requires a heap-ordered input, the only input on which repeated `add` completes (sufficiency in its contract, necessity in `UnorderedCollectionFails`).
- IndexedPriorityQueue.PriorityQueue.FromArray: requires a non-empty array, because the heapify loop still runs `swim(0)`, whose `isLess(0, 0)` calls `heap.get(0)` and throws IndexOutOfBoundsException on an empty list.
- IndexedPriorityQueue.PriorityQueue.RemoveAt: requires an in-range index on a non-empty heap, because `swap` calls `heap.get(index)` and throws IndexOutOfBoundsException for any other index.
- BinarySearchTrees.BinarySearchTree.Search: requires a non-empty tree when the key is not null, because `searchRec` reads `node.data` of the null root and throws NullPointerException.
- BinarySearchTrees.BinarySearchTree.Search, Insert and Delete: require that every node on the search path has a key (`SearchSafe`), because the Java code unboxes it. A null key appears only after the deletion defect shown in `TreeExamples.StaleParent`.
- BinarySearchTrees.BinarySearchTree.Delete: also requires a non-empty tree and, when the node found has fewer than two children, that it is not the root (`DeleteSafe`), because the Java code dereferences the root and the node's parent there.

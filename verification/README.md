# SortedTree: an unbalanced binary search tree, modelled in Dafny

This project models `com.mdorst.container.SortedTree`, the repository's ordered set
of comparable elements. It is an unbalanced binary search tree with sentinel
leaves. It offers four operations:

- `insert` refuses duplicates.
- `delete` refills the emptied slot by promoting the in-order predecessor, or the
  successor when there is no left subtree, down a chain of promotions.
- `traverseAscending` and `traverseDescending` call a callback on every element in
  order.

The model is functional:

- A node is `Tree = Leaf | Node(data, left, right)`. `Leaf` stands for every Java
  node whose `data` is `null`. That covers the fresh root with `null` children and a
  node emptied by deletion, which keeps its empty children.
- Every in-place mutation becomes a rebuilt tree. The recursive `insert(Node, E)` and
  `delete(Node, E)` return a `Step`: the Java `boolean` paired with the rebuilt
  subtree. The promotion chains return just the rebuilt subtree.
- Elements are `int`. Java only assumes that `compareTo` is a consistent total order,
  and `int` has one.
- The callback is modelled by the sequence of elements it receives, in call order.
- A `null` argument is the `None` case of an `Option<int>`. The call answers
  `Failure(NullElement)` and leaves the tree as it was, which is what
  `NullPointerException` means here.
- The class invariant is the subset type `SortedTrees.SortedTree`: a `Tree` in search
  order. The public `Insert` and `Delete` return an `Outcome` whose `tree` field has
  that type, so the verifier checks that both operations preserve the invariant.

Modules:

- `BinaryTree`: the node type, `Elements`, `Size` and the search-order predicate `Bst`.
- `Traversal`: the two in-order walks.
- `Insertion`: the recursive `insert(Node, E)`.
- `Deletion`: `rightMost`, `leftMost`, the two promotion chains and the recursive
  `delete(Node, E)`.
- `SortedTrees`: the public class.
- `Scenarios`: concrete examples.

Notes on the code:

- This version of the class has no `size()` operation, so `Size` is only a measure
  used in contracts.
- `promotePredecessor` empties a node whenever its left child is empty, even if the
  right child is occupied. `promoteSuccessor` does the same on the other side. Neither
  case is reached from `delete`. The model keeps that branch as written, and the
  contracts that promise "exactly one node emptied" say which condition they need.

## Model

| member | source | states |
|---|---|---|
| BinaryTree.BstHoldsDistinctElements | src/com/mdorst/container/SortedTree.java:88-98 | in an ordered tree every occupied node holds a different element: the distinct elements number exactly the occupied nodes |
| Traversal.Ascending | src/com/mdorst/container/SortedTree.java:31-36 | the ascending walk visits one element per occupied node, and exactly the tree's elements |
| Traversal.Descending | src/com/mdorst/container/SortedTree.java:51-56 | the descending walk visits one element per occupied node, and exactly the tree's elements |
| Traversal.AscendingIsSorted | src/com/mdorst/container/SortedTree.java:31-36 | on an ordered tree the ascending walk is strictly increasing, so no element is visited twice |
| Traversal.DescendingIsReverseOfAscending | src/com/mdorst/container/SortedTree.java:51-56 | for every tree, ordered or not, the descending walk is the ascending walk reversed |
| Insertion.InsertAt | src/com/mdorst/container/SortedTree.java:80-99 | on a duplicate it returns false and leaves the subtree unchanged; otherwise it returns true, the set gains exactly `e`, one node is added, and that node was empty and now holds `e` with two empty children, all other nodes unchanged |
| Insertion.InsertAtKeepsOrder | src/com/mdorst/container/SortedTree.java:88-98 | on an ordered tree insert returns true exactly when `e` is absent, and the result is still ordered |
| Deletion.RightMost | src/com/mdorst/container/SortedTree.java:199-204 | from an occupied node, returns an occupied node of the subtree whose right child is empty; in an ordered tree it holds the maximum |
| Deletion.LeftMost | src/com/mdorst/container/SortedTree.java:211-216 | from an occupied node, returns an occupied node of the subtree whose left child is empty; in an ordered tree it holds the minimum |
| Deletion.PromotePredecessor | src/com/mdorst/container/SortedTree.java:181-192 | with an occupied left child, the node takes the right-most element on its left and keeps its right subtree; when the left child is occupied or the right one empty, exactly one node is emptied, and an ordered tree loses exactly the node's element and stays ordered |
| Deletion.WithRightMostPromoted | src/com/mdorst/container/SortedTree.java:188-190 | continuing the chain at the right-most node empties exactly one node, and an ordered subtree loses exactly its maximum and stays ordered |
| Deletion.PromoteSuccessor | src/com/mdorst/container/SortedTree.java:162-173 | mirror of the predecessor chain: the node takes the left-most element on its right, keeps its left subtree, and loses exactly its own element |
| Deletion.WithLeftMostPromoted | src/com/mdorst/container/SortedTree.java:169-171 | continuing the chain at the left-most node empties exactly one node, and an ordered subtree loses exactly its minimum and stays ordered |
| Deletion.RemoveFound | src/com/mdorst/container/SortedTree.java:131-145 | tie-break: an occupied left child supplies the left subtree's maximum and the right subtree is untouched; only with an empty left child does the right subtree's minimum move up; with two empty children the node is emptied; exactly one node is emptied, and only the found element leaves the set |
| Deletion.DeleteAt | src/com/mdorst/container/SortedTree.java:125-154 | reaching an empty node returns false with no change; true means `e` was present and one node is gone; on an ordered tree the result is true exactly when `e` was present, the set loses exactly `e`, and order is kept |
| SortedTrees.Insert | src/com/mdorst/container/SortedTree.java:65-72 | null is refused with no change; otherwise returns whether `e` was new, the set becomes old set plus `e`, and a duplicate leaves the tree unchanged; the result stays ordered |
| SortedTrees.Delete | src/com/mdorst/container/SortedTree.java:108-114 | null is refused with no change; otherwise returns whether `e` was present, the set becomes old set minus `e`, and a missing element leaves the tree unchanged; the result stays ordered |
| SortedTrees.TraverseAscending | src/com/mdorst/container/SortedTree.java:18-24 | the callback sees each element of the container exactly once, in strictly increasing order |
| SortedTrees.TraverseDescending | src/com/mdorst/container/SortedTree.java:38-44 | the callback sees exactly the ascending sequence reversed |
| SortedTrees.InsertTwice | src/com/mdorst/container/SortedTree.java:58-64 | inserting the same element twice: the first call returns whether it was new, and the second returns false and changes nothing |
| SortedTrees.DeleteUndoesInsertAt | src/com/mdorst/container/SortedTree.java:80-154 | deleting an element just inserted into a subtree that lacked it returns true and gives back exactly the original subtree |
| SortedTrees.DeleteUndoesInsert | src/com/mdorst/container/SortedTree.java:58-114 | the same round trip on the container: insert then delete of a new element both return true and restore the tree |
| SortedTrees.InsertAll | src/com/mdorst/container/SortedTree.java:65-72 | calling the container's insert once per element of a list yields the old set plus every listed element |
| SortedTrees.DeleteAll | src/com/mdorst/container/SortedTree.java:108-114 | calling the container's delete once per element of a list yields the old set minus every listed element |
| SortedTrees.DeleteEverything | src/com/mdorst/container/SortedTree.java:101-154 | deleting a list that covers every element, in any order, leaves the empty container and an empty walk |
| Scenarios.BuildExample | src/com/mdorst/container/SortedTree.java:80-98 | inserting 5, 3, 8, 1, 4, 7, 9 returns true each time and builds the expected tree |
| Scenarios.DeleteRootPromotesPredecessor | src/com/mdorst/container/SortedTree.java:131-192 | deleting 5 from that tree returns true and puts 4, the predecessor, at the root |
| Scenarios.WalksWithout5 | src/com/mdorst/container/SortedTree.java:31-56 | after that deletion the walks yield 1, 3, 4, 7, 8, 9 and 9, 8, 7, 4, 3, 1 |
| Scenarios.DeleteWithEmptyLeftPromotesSuccessor | src/com/mdorst/container/SortedTree.java:135-173 | with an empty left child, deleting 2 from the tree built by 2, 5, 4 promotes the successor 4 |
| Scenarios.NullIsRefused | src/com/mdorst/container/SortedTree.java:65-113 | a null argument to insert or delete is refused and the tree is unchanged |

## Left out

- Mutation in place and node identity. Java overwrites `data` in existing nodes. The
  model rebuilds the path from the root instead, so "one node changed" is stated as a
  relation between two trees (`Insertion.GrowsAt`, `Size`).
- The children of an emptied node. Once a node's `data` is `null`, no operation looks
  below it, so every such node is `Leaf`.
- Generic `Comparable` elements. Elements are `int`. A `compareTo` that is not a
  consistent total order is not modelled.
- src/com/mdorst/SortedTree.java, an earlier stub of the class. Its root is never
  created, so any insertion dereferences `null`. Its balance fields are never updated.
- The balance bookkeeping and rotations of an AVL tree. The class never had them.
- src/com/mdorst/App.java, the console driver. It sits in package `com.mdorst` and
  imports only `DataInput`, so its `SortedTree<String>` is the stub class above, not
  the container modelled here. The stub has only `insert`, which dereferences its
  never-created root, and no `delete` or traversal methods, so App.java:17-32 does
  not compile against it. The driver never reaches this container. Its intent is to
  load words, print both walks, delete three words and print again. `InsertAll` and
  `DeleteAll` model that intent as repeated calls of the container's `insert` and
  `delete`. Reading the file and printing are I/O.
- src/com/mdorst/util/DataInput.java: file reading.
- src/com/mdorst/functional/Printer.java and Process.java: the callback interface and
  a `println` wrapper. The callback becomes the returned sequence of visited elements.
- src/com/mdorst/test/TestRunner.java, Test.java and function/Lambda.java: a console
  test harness. Its only test targets the stub class.
- Concurrency. The class is single-threaded and has no synchronisation.
- Recursion depth. In Java, insert, delete, both walks, `rightMost` and `leftMost`
  recurse once per tree level (src/com/mdorst/container/SortedTree.java:33-35, 53-55,
  94-97, 149-152, 171, 190, 203, 215). The tree never rebalances, so sorted input
  builds a tree of depth n. A deep enough tree makes these calls throw
  `StackOverflowError`. The Dafny functions are total, and this error path is not
  modelled.

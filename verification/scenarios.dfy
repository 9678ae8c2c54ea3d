/** Worked examples of the container on concrete inputs. */
module Scenarios {
  import opened Wrappers
  import opened BinaryTree
  import opened SortedTrees
  import Deletion
  import Traversal

  /** The tree of the running example. */
  const Example: Tree :=
    Node(5, Node(3, Node(1, Leaf, Leaf), Node(4, Leaf, Leaf)),
            Node(8, Node(7, Leaf, Leaf), Node(9, Leaf, Leaf)))

  /** Inserting 5, 3, 8, 1, 4, 7, 9 into a new container builds `Example`, each
      insertion returning `true`. */
  lemma BuildExample()
    ensures var s0 := Insert(Empty, Some(5)); var s1 := Insert(s0.tree, Some(3));
            var s2 := Insert(s1.tree, Some(8)); var s3 := Insert(s2.tree, Some(1));
            var s4 := Insert(s3.tree, Some(4)); var s5 := Insert(s4.tree, Some(7));
            var s6 := Insert(s5.tree, Some(9));
            && s6.tree == Example
            && s0.result == s1.result == s2.result == s3.result == Success(true)
            && s4.result == s5.result == s6.result == Success(true)
  {
    var s0 := Insert(Empty, Some(5)).tree;
    assert s0 == Node(5, Leaf, Leaf);
    var s1 := Insert(s0, Some(3)).tree;
    assert s1 == Node(5, Node(3, Leaf, Leaf), Leaf);
    var s2 := Insert(s1, Some(8)).tree;
    assert s2 == Node(5, Node(3, Leaf, Leaf), Node(8, Leaf, Leaf));
    var s3 := Insert(s2, Some(1)).tree;
    assert s3 == Node(5, Node(3, Node(1, Leaf, Leaf), Leaf), Node(8, Leaf, Leaf));
    var s4 := Insert(s3, Some(4)).tree;
    assert s4 == Node(5, Node(3, Node(1, Leaf, Leaf), Node(4, Leaf, Leaf)), Node(8, Leaf, Leaf));
    var s5 := Insert(s4, Some(7)).tree;
    assert s5 == Node(5, Node(3, Node(1, Leaf, Leaf), Node(4, Leaf, Leaf)),
                         Node(8, Node(7, Leaf, Leaf), Leaf));
  }

  /** `Example` after deleting 5 from it. */
  const ExampleWithout5: Tree :=
    Node(4, Node(3, Node(1, Leaf, Leaf), Leaf),
            Node(8, Node(7, Leaf, Leaf), Node(9, Leaf, Leaf)))

  /** Deleting 5 from `Example` returns `true` and promotes its predecessor 4, the
      right-most element of the left subtree, although the right subtree is occupied
      too. */
  lemma DeleteRootPromotesPredecessor()
    ensures Delete(Example, Some(5)) == Outcome(ExampleWithout5, Success(true))
  {
    var l := Node(3, Node(1, Leaf, Leaf), Node(4, Leaf, Leaf));
    assert Deletion.RightMost(l) == Node(4, Leaf, Leaf);
    assert Deletion.WithRightMostPromoted(Node(4, Leaf, Leaf)) == Leaf;
    assert Deletion.WithRightMostPromoted(l) == Node(3, Node(1, Leaf, Leaf), Leaf);
    assert Deletion.DeleteAt(Example, 5) == Step(true, ExampleWithout5);
  }

  /** After deleting 5 the walks give 1, 3, 4, 7, 8, 9 and its reverse. */
  lemma WalksWithout5()
    ensures TraverseAscending(ExampleWithout5) == [1, 3, 4, 7, 8, 9]
    ensures TraverseDescending(ExampleWithout5) == [9, 8, 7, 4, 3, 1]
  {
    assert Traversal.Ascending(Node(1, Leaf, Leaf)) == [1];
    assert Traversal.Ascending(Node(7, Leaf, Leaf)) == [7];
    assert Traversal.Ascending(Node(9, Leaf, Leaf)) == [9];
    assert Traversal.Ascending(Node(3, Node(1, Leaf, Leaf), Leaf)) == [1, 3];
    assert Traversal.Ascending(Node(8, Node(7, Leaf, Leaf), Node(9, Leaf, Leaf))) == [7, 8, 9];
    assert Traversal.Ascending(ExampleWithout5) == [1, 3, 4, 7, 8, 9];
    assert Traversal.Reverse([1, 3, 4, 7, 8, 9]) == [9, 8, 7, 4, 3, 1];
  }

  /** Deleting 2 from the tree built by inserting 2, 5, 4 promotes its successor 4:
      the left child of 2 is empty. */
  lemma DeleteWithEmptyLeftPromotesSuccessor()
    ensures var t := Node(2, Leaf, Node(5, Node(4, Leaf, Leaf), Leaf));
            && Insert(Insert(Insert(Empty, Some(2)).tree, Some(5)).tree, Some(4)).tree == t
            && Delete(t, Some(2)) == Outcome(Node(4, Leaf, Node(5, Leaf, Leaf)), Success(true))
  {
  }

  /** A null argument is refused by both updates, leaving the tree as it was. */
  lemma NullIsRefused()
    ensures Insert(Example, None) == Outcome(Example, Failure(NullElement))
    ensures Delete(Example, None) == Outcome(Example, Failure(NullElement))
  {
  }
}

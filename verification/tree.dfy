/** The node structure of the container and its search-order invariant. */
module BinaryTree {

  /** A node of the tree. `Leaf` is an empty node (one whose element is `null`): the
      root before the first insertion and a node emptied by deletion are both `Leaf`,
      since nothing below an empty node is ever looked at again. An occupied node
      always has two children, each of which may be empty. */
  datatype Tree = Leaf | Node(data: int, left: Tree, right: Tree)

  /** What a recursive step of insertion or deletion returns: the boolean the Java
      call returns, and the rebuilt subtree. */
  datatype Step = Step(changed: bool, tree: Tree)

  /** `m` is `t` itself or a subtree somewhere below it. */
  ghost predicate SubtreeOf(m: Tree, t: Tree)
  {
    m == t || (t.Node? && (SubtreeOf(m, t.left) || SubtreeOf(m, t.right)))
  }

  /** The elements held by the occupied nodes of `t`. */
  function Elements(t: Tree): set<int>
  {
    match t
    case Leaf => {}
    case Node(d, l, r) => Elements(l) + {d} + Elements(r)
  }

  /** The number of occupied nodes of `t`. */
  function Size(t: Tree): nat
  {
    match t
    case Leaf => 0
    case Node(_, l, r) => Size(l) + 1 + Size(r)
  }

  /** Search order: at every occupied node, the left subtree holds only smaller
      elements and the right subtree only greater ones. */
  predicate Bst(t: Tree)
  {
    match t
    case Leaf => true
    case Node(d, l, r) =>
      && Bst(l)
      && Bst(r)
      && (forall x :: x in Elements(l) ==> x < d)
      && (forall x :: x in Elements(r) ==> d < x)
  }

  /** In an ordered tree no element is held twice: there are as many distinct
      elements as occupied nodes. */
  lemma {:induction false} BstHoldsDistinctElements(t: Tree)
    requires Bst(t)
    ensures |Elements(t)| == Size(t)
  {
    match t
    case Leaf =>
    case Node(d, l, r) =>
      BstHoldsDistinctElements(l);
      BstHoldsDistinctElements(r);
      var a := Elements(l) + {d};
      assert forall x :: x in a ==> x <= d;
      assert a !! Elements(r);
      assert |a| == |Elements(l)| + 1;
  }
}

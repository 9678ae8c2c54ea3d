/** Deletion by descent, with the found node refilled by promoting its in-order
    predecessor (preferred) or successor down a chain of promotions. */
module Deletion {
  import opened BinaryTree

  /** The node reached by following right children from the occupied node `t` until
      the right child is empty; on an ordered tree it holds the maximum. */
  function RightMost(t: Tree): (m: Tree)
    requires t.Node?
    ensures m.Node? && m.right.Leaf?
    ensures SubtreeOf(m, t)
    ensures Elements(m) <= Elements(t)
    ensures Bst(t) ==> forall x :: x in Elements(t) ==> x <= m.data
  {
    if t.right.Leaf? then t else RightMost(t.right)
  }

  /** The node reached by following left children from the occupied node `t` until
      the left child is empty; on an ordered tree it holds the minimum. */
  function LeftMost(t: Tree): (m: Tree)
    requires t.Node?
    ensures m.Node? && m.left.Leaf?
    ensures SubtreeOf(m, t)
    ensures Elements(m) <= Elements(t)
    ensures Bst(t) ==> forall x :: x in Elements(t) ==> m.data <= x
  {
    if t.left.Leaf? then t else LeftMost(t.left)
  }

  /** The occupied node `n` after promoting its predecessor: with an empty left child
      the node is emptied; otherwise it takes the element of the right-most node of
      its left subtree, and that node is promoted in turn. The right subtree is never
      touched. When the left child is occupied or the right one empty, exactly one
      node is emptied and exactly `n.data` leaves the set. */
  function PromotePredecessor(n: Tree): (r: Tree)
    requires n.Node?
    ensures n.left.Node? ==> r.Node? && r.data == RightMost(n.left).data && r.right == n.right
    ensures n.left.Node? || n.right.Leaf? ==> Size(r) == Size(n) - 1
    ensures Bst(n) && (n.left.Node? || n.right.Leaf?) ==>
              Bst(r) && Elements(r) == Elements(n) - {n.data}
    decreases n, 0
  {
    if n.left.Leaf? then Leaf
    else Node(RightMost(n.left).data, WithRightMostPromoted(n.left), n.right)
  }

  /** The occupied subtree `t` with its right-most node replaced by the result of
      promoting that node's predecessor; nodes off the right spine are untouched. */
  function WithRightMostPromoted(t: Tree): (r: Tree)
    requires t.Node?
    ensures Size(r) == Size(t) - 1
    ensures Bst(t) ==> Bst(r) && Elements(r) == Elements(t) - {RightMost(t).data}
    decreases t, 1
  {
    if t.right.Leaf? then PromotePredecessor(t)
    else Node(t.data, t.left, WithRightMostPromoted(t.right))
  }

  /** The occupied node `n` after promoting its successor: with an empty right child
      the node is emptied; otherwise it takes the element of the left-most node of its
      right subtree, and that node is promoted in turn. The left subtree is never
      touched. When the right child is occupied or the left one empty, exactly one
      node is emptied and exactly `n.data` leaves the set. */
  function PromoteSuccessor(n: Tree): (r: Tree)
    requires n.Node?
    ensures n.right.Node? ==> r.Node? && r.data == LeftMost(n.right).data && r.left == n.left
    ensures n.right.Node? || n.left.Leaf? ==> Size(r) == Size(n) - 1
    ensures Bst(n) && (n.right.Node? || n.left.Leaf?) ==>
              Bst(r) && Elements(r) == Elements(n) - {n.data}
    decreases n, 0
  {
    if n.right.Leaf? then Leaf
    else Node(LeftMost(n.right).data, n.left, WithLeftMostPromoted(n.right))
  }

  /** The occupied subtree `t` with its left-most node replaced by the result of
      promoting that node's successor; nodes off the left spine are untouched. */
  function WithLeftMostPromoted(t: Tree): (r: Tree)
    requires t.Node?
    ensures Size(r) == Size(t) - 1
    ensures Bst(t) ==> Bst(r) && Elements(r) == Elements(t) - {LeftMost(t).data}
    decreases t, 1
  {
    if t.left.Leaf? then PromoteSuccessor(t)
    else Node(t.data, WithLeftMostPromoted(t.left), t.right)
  }

  /** The found node `n` once its element is removed. An occupied left child wins:
      the slot takes the largest element on the left. Only with an empty left child
      does it take the smallest element on the right, and a node with two empty
      children is emptied. Exactly one node is emptied either way. */
  function RemoveFound(n: Tree): (r: Tree)
    requires n.Node?
    ensures Size(r) == Size(n) - 1
    ensures n.left.Node? ==>
              r.Node? && r.right == n.right && r.data in Elements(n.left)
              && (Bst(n) ==> forall x :: x in Elements(n.left) ==> x <= r.data)
    ensures n.left.Leaf? && n.right.Node? ==>
              r.Node? && r.left == Leaf && r.data in Elements(n.right)
              && (Bst(n) ==> forall x :: x in Elements(n.right) ==> r.data <= x)
    ensures n.left.Leaf? && n.right.Leaf? ==> r == Leaf
    ensures Bst(n) ==> Bst(r) && Elements(r) == Elements(n) - {n.data}
  {
    if n.left.Node? then PromotePredecessor(n)
    else if n.right.Node? then PromoteSuccessor(n)
    else Leaf
  }

  /** The recursive deletion from the subtree `t`. Reaching an empty node reports no
      change and leaves the subtree as it was; finding the element removes it from
      its node and empties exactly one node. */
  function DeleteAt(t: Tree, e: int): (r: Step)
    ensures !r.changed ==> r.tree == t
    ensures r.changed ==> e in Elements(t) && Size(r.tree) == Size(t) - 1
    ensures Bst(t) ==>
              && (r.changed <==> e in Elements(t))
              && Bst(r.tree)
              && Elements(r.tree) == Elements(t) - {e}
  {
    match t
    case Leaf => Step(false, t)
    case Node(d, l, rt) =>
      if e == d then Step(true, RemoveFound(t))
      else if e < d then
        var s := DeleteAt(l, e);
        Step(s.changed, Node(d, s.tree, rt))
      else
        var s := DeleteAt(rt, e);
        Step(s.changed, Node(d, l, s.tree))
  }
}

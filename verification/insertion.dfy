/** Insertion by descent: an equal element stops it, a smaller one goes left, a
    greater one goes right, and the first empty node reached takes the element. */
module Insertion {
  import opened BinaryTree

  /** `u` is `t` with exactly one empty node turned into an occupied node holding `e`
      with two empty children; every other node is as it was. */
  ghost predicate GrowsAt(t: Tree, u: Tree, e: int)
  {
    match t
    case Leaf => u == Node(e, Leaf, Leaf)
    case Node(d, l, r) =>
      && u.Node?
      && u.data == d
      && ((GrowsAt(l, u.left, e) && u.right == r) || (u.left == l && GrowsAt(r, u.right, e)))
  }

  /** The recursive insertion into the subtree `t`. A duplicate leaves the subtree as
      it was and reports no change; otherwise the element lands on an empty node and
      the set gains exactly that element. */
  function InsertAt(t: Tree, e: int): (r: Step)
    ensures r.tree.Node?
    ensures !r.changed ==> r.tree == t && e in Elements(t)
    ensures r.changed ==> Elements(r.tree) == Elements(t) + {e} && Size(r.tree) == Size(t) + 1
    ensures r.changed ==> GrowsAt(t, r.tree, e)
  {
    match t
    case Leaf => Step(true, Node(e, Leaf, Leaf))
    case Node(d, l, rt) =>
      if e == d then Step(false, t)
      else if e < d then
        var s := InsertAt(l, e);
        Step(s.changed, Node(d, s.tree, rt))
      else
        var s := InsertAt(rt, e);
        Step(s.changed, Node(d, l, s.tree))
  }

  /** On an ordered tree insertion reports a change exactly when the element was
      absent, and the result is ordered again. */
  lemma {:induction false} InsertAtKeepsOrder(t: Tree, e: int)
    requires Bst(t)
    ensures InsertAt(t, e).changed <==> e !in Elements(t)
    ensures Bst(InsertAt(t, e).tree)
  {
    match t
    case Leaf =>
    case Node(d, l, r) =>
      if e < d {
        InsertAtKeepsOrder(l, e);
      } else if e > d {
        InsertAtKeepsOrder(r, e);
      }
  }
}

/** In-order walks of the tree. The caller's visit callback is modelled by the
    sequence of elements it is called on, in call order. */
module Traversal {
  import opened BinaryTree

  /** Strictly increasing: sorted, with no element repeated. */
  predicate StrictlyIncreasing(s: seq<int>)
  {
    forall i, j :: 0 <= i < j < |s| ==> s[i] < s[j]
  }

  /** `s` read back to front. */
  function Reverse(s: seq<int>): (r: seq<int>)
    ensures |r| == |s|
    ensures forall i :: 0 <= i < |s| ==> r[i] == s[|s| - 1 - i]
  {
    if s == [] then [] else Reverse(s[1..]) + [s[0]]
  }

  /** The elements visited by the ascending walk: left subtree, the node, right
      subtree; an empty node visits nothing. */
  function Ascending(t: Tree): (s: seq<int>)
    ensures |s| == Size(t)
    ensures forall x :: x in s <==> x in Elements(t)
  {
    match t
    case Leaf => []
    case Node(d, l, r) => Ascending(l) + [d] + Ascending(r)
  }

  /** The elements visited by the descending walk: right subtree, the node, left
      subtree. */
  function Descending(t: Tree): (s: seq<int>)
    ensures |s| == Size(t)
    ensures forall x :: x in s <==> x in Elements(t)
  {
    match t
    case Leaf => []
    case Node(d, l, r) => Descending(r) + [d] + Descending(l)
  }

  /** Joining two strictly increasing runs around a pivot that separates them
      gives a strictly increasing run. */
  lemma JoinIncreasing(a: seq<int>, d: int, b: seq<int>)
    requires StrictlyIncreasing(a) && StrictlyIncreasing(b)
    requires forall x :: x in a ==> x < d
    requires forall x :: x in b ==> d < x
    ensures StrictlyIncreasing(a + [d] + b)
  {
    var s := a + [d] + b;
    forall i, j | 0 <= i < j < |s|
      ensures s[i] < s[j]
    {
      if j < |a| {
      } else if i < |a| {
        assert s[i] in a;
        if j > |a| { assert s[j] == b[j - |a| - 1]; assert s[j] in b; }
      } else if i == |a| {
        assert s[j] == b[j - |a| - 1];
        assert s[j] in b;
      } else {
        assert s[i] == b[i - |a| - 1] && s[j] == b[j - |a| - 1];
      }
    }
  }

  /** On an ordered tree the ascending walk is strictly increasing, so it visits
      every element exactly once, smallest first. */
  lemma {:induction false} AscendingIsSorted(t: Tree)
    requires Bst(t)
    ensures StrictlyIncreasing(Ascending(t))
  {
    match t
    case Leaf =>
    case Node(d, l, r) =>
      AscendingIsSorted(l);
      AscendingIsSorted(r);
      JoinIncreasing(Ascending(l), d, Ascending(r));
  }

  /** Reversing a concatenation reverses the order of its parts. */
  lemma ReverseJoin(a: seq<int>, d: int, b: seq<int>)
    ensures Reverse(a + [d] + b) == Reverse(b) + [d] + Reverse(a)
  {
  }

  /** The descending walk visits exactly the ascending walk's elements in reverse
      order, whatever the shape of the tree. */
  lemma {:induction false} DescendingIsReverseOfAscending(t: Tree)
    ensures Descending(t) == Reverse(Ascending(t))
  {
    match t
    case Leaf =>
    case Node(d, l, r) =>
      DescendingIsReverseOfAscending(l);
      DescendingIsReverseOfAscending(r);
      ReverseJoin(Ascending(l), d, Ascending(r));
  }
}

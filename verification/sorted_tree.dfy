/** The container's public operations. Its state is a tree kept in search order; a
    `null` argument is refused with an exception and no change. */
module SortedTrees {
  import opened Wrappers
  import opened BinaryTree
  import opened Traversal
  import Insertion
  import Deletion

  /** The container's state: a tree in search order. */
  type SortedTree = t: Tree | Bst(t) witness Leaf

  /** The exception a `null` argument raises. */
  datatype Error = NullElement

  /** The state after a call together with what the call returned or threw. */
  datatype Outcome = Outcome(tree: SortedTree, result: Result<bool, Error>)

  /** A new container holds a single empty node. */
  const Empty: SortedTree := Leaf

  /** Inserts `e`: refuses `null` without change; returns `true` and gains exactly `e`
      when `e` is new; returns `false` and keeps the tree as it was on a duplicate. */
  function Insert(s: SortedTree, e: Option<int>): (r: Outcome)
    ensures e.None? ==> r == Outcome(s, Failure(NullElement))
    ensures e.Some? ==> r.result.Success? && (r.result.value <==> e.value !in Elements(s))
    ensures e.Some? ==> Elements(r.tree) == Elements(s) + {e.value}
    ensures e.Some? && e.value in Elements(s) ==> r.tree == s
  {
    if e.None? then Outcome(s, Failure(NullElement))
    else
      Insertion.InsertAtKeepsOrder(s, e.value);
      var step := Insertion.InsertAt(s, e.value);
      Outcome(step.tree, Success(step.changed))
  }

  /** Deletes `e`: refuses `null` without change; returns `true` and loses exactly `e`
      when `e` is present; returns `false` and keeps the tree as it was otherwise. */
  function Delete(s: SortedTree, e: Option<int>): (r: Outcome)
    ensures e.None? ==> r == Outcome(s, Failure(NullElement))
    ensures e.Some? ==> r.result.Success? && (r.result.value <==> e.value in Elements(s))
    ensures e.Some? ==> Elements(r.tree) == Elements(s) - {e.value}
    ensures e.Some? && e.value !in Elements(s) ==> r.tree == s
  {
    if e.None? then Outcome(s, Failure(NullElement))
    else
      var step := Deletion.DeleteAt(s, e.value);
      Outcome(step.tree, Success(step.changed))
  }

  /** The elements the ascending walk hands to the callback: each element exactly
      once, in strictly increasing order. */
  function TraverseAscending(s: SortedTree): (visited: seq<int>)
    ensures StrictlyIncreasing(visited)
    ensures forall x :: x in visited <==> x in Elements(s)
    ensures |visited| == |Elements(s)|
  {
    AscendingIsSorted(s);
    BstHoldsDistinctElements(s);
    Ascending(s)
  }

  /** The elements the descending walk hands to the callback: exactly the ascending
      walk's, in reverse order. */
  function TraverseDescending(s: SortedTree): (visited: seq<int>)
    ensures visited == Reverse(TraverseAscending(s))
  {
    DescendingIsReverseOfAscending(s);
    Descending(s)
  }

  /** Inserting the same element twice: the second call returns `false` and changes
      nothing, and the first returns `true` exactly when the element was new. */
  lemma InsertTwice(s: SortedTree, e: int)
    ensures Insert(s, Some(e)).result.Success?
    ensures Insert(s, Some(e)).result.value <==> e !in Elements(s)
    ensures Insert(Insert(s, Some(e)).tree, Some(e)) == Outcome(Insert(s, Some(e)).tree, Success(false))
  {
  }

  /** Deleting an element just inserted restores the exact tree: the new element sits
      on a node with two empty children, which deletion simply empties. */
  lemma {:induction false} DeleteUndoesInsertAt(t: Tree, e: int)
    requires e !in Elements(t)
    ensures Deletion.DeleteAt(Insertion.InsertAt(t, e).tree, e) == Step(true, t)
  {
    match t
    case Leaf =>
    case Node(d, l, r) =>
      if e < d {
        DeleteUndoesInsertAt(l, e);
      } else {
        DeleteUndoesInsertAt(r, e);
      }
  }

  /** On the container: inserting a new element and deleting it again returns `true`
      twice and gives back the same tree. */
  lemma DeleteUndoesInsert(s: SortedTree, e: int)
    requires e !in Elements(s)
    ensures Insert(s, Some(e)).result == Success(true)
    ensures Delete(Insert(s, Some(e)).tree, Some(e)) == Outcome(s, Success(true))
  {
    DeleteUndoesInsertAt(s, e);
  }

  /** The state after inserting `xs` in order into `s`. */
  function InsertAll(s: SortedTree, xs: seq<int>): (r: SortedTree)
    ensures Elements(r) == Elements(s) + (set x | x in xs)
    decreases |xs|
  {
    if xs == [] then s else InsertAll(Insert(s, Some(xs[0])).tree, xs[1..])
  }

  /** The state after deleting `xs` in order from `s`. */
  function DeleteAll(s: SortedTree, xs: seq<int>): (r: SortedTree)
    ensures Elements(r) == Elements(s) - (set x | x in xs)
    decreases |xs|
  {
    if xs == [] then s else DeleteAll(Delete(s, Some(xs[0])).tree, xs[1..])
  }

  /** Deleting every element, in any order, leaves the container empty again. */
  lemma DeleteEverything(s: SortedTree, xs: seq<int>)
    requires forall x :: x in Elements(s) ==> x in xs
    ensures DeleteAll(s, xs) == Empty
    ensures TraverseAscending(DeleteAll(s, xs)) == []
  {
  }
}

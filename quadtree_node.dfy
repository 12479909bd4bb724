/** A packed quadtree node (src/quadtree/node.rs). */
module QuadNode {
  import opened Ints

  /** `free_list::SENTINEL`, `u32::MAX`. */
  const SENTINEL: nat := U32_MAX
  /** The element count that marks a branch, also `u32::MAX`. */
  const NODE_IS_BRANCH: nat := U32_MAX

  /**
   * `first_child` is the first child's index for a branch and the first
   * element's index for a leaf; `element_count` is the leaf's element count,
   * or `NODE_IS_BRANCH` for a branch. Both are `u32`.
   */
  class Node {
    var firstChild: nat
    var elementCount: nat

    ghost predicate Valid()
      reads this
    {
      firstChild <= U32_MAX && elementCount <= U32_MAX
    }

    constructor (firstChild: nat, elementCount: nat)
      requires firstChild <= U32_MAX && elementCount <= U32_MAX
      ensures Valid()
      ensures this.firstChild == firstChild && this.elementCount == elementCount
    {
      this.firstChild := firstChild;
      this.elementCount := elementCount;
    }

    /** A node is empty iff it stores no elements; an empty node is always a leaf. */
    predicate IsEmpty()
      reads this
      ensures IsEmpty() ==> IsLeaf()
    {
      elementCount == 0
    }

    predicate IsBranch()
      reads this
    {
      elementCount == NODE_IS_BRANCH
    }

    predicate IsLeaf()
      reads this
    {
      !IsBranch()
    }

    /** Only a branch may ask for its first child (a `debug_assert`). */
    function GetFirstChildNodeIndex(): (r: nat)
      reads this
      requires IsBranch()
      ensures r == firstChild
    {
      firstChild
    }

    /** Only a leaf may ask for its first element (a `debug_assert`). */
    function GetElementIndex(): (r: nat)
      reads this
      requires IsLeaf()
      ensures r == firstChild
    {
      firstChild
    }

    /** Turns the node into an empty leaf without children. */
    method MakeEmptyLeaf()
      modifies this
      ensures Valid()
      ensures firstChild == SENTINEL && elementCount == 0
      ensures IsLeaf() && IsEmpty()
    {
      firstChild := SENTINEL;
      elementCount := 0;
    }
  }

  /**
   * The `u32` count reserves only its largest value for branches: a valid
   * node is a leaf exactly when its count is below that marker, and a
   * branch never reports itself empty.
   */
  lemma LeafCountBelowMarker(n: Node)
    requires n.Valid()
    ensures n.IsLeaf() <==> n.elementCount < NODE_IS_BRANCH
    ensures n.IsBranch() ==> !n.IsEmpty() && n.elementCount == U32_MAX
  {
  }
}

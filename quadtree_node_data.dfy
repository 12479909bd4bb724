/** The per-node traversal record of the quadtree (src/quadtree/node_data.rs). */
module NodeData {
  import opened Ints
  import opened CenteredAabb

  /** `index` names the node, `crect` is its centred box, `depth` its level (both `u32`). */
  datatype NodeData = NodeData(index: nat, crect: CenteredAABB, depth: nat)

  /** `new(l, t, hx, hy, index, depth)`: its box is `from_ltwh(l, t, hx, hy)`. */
  function New(l: int, t: int, hx: int, hy: int, index: nat, depth: nat): (nd: NodeData)
    requires IsI32(l) && IsI32(t) && IsI32(hx) && IsI32(hy)
    requires IsI32(l + Half(hx)) && IsI32(t + Half(hy))
    ensures nd.index == index && nd.depth == depth
    ensures nd.crect.width == hx && nd.crect.height == hy
    ensures 2 * (nd.crect.centerX - l) <= hx <= 2 * (nd.crect.centerX - l) + 1
    ensures 2 * (nd.crect.centerY - t) <= hy <= 2 * (nd.crect.centerY - t) + 1
  {
    NewFromCenteredAabb(index, depth, FromLtwh(l, t, hx, hy))
  }

  /**
   * `new_from_root`: the root is node 0 at depth 0. The conversion from the
   * root's `QuadRect` is not part of this model, so the converted box is passed in.
   */
  function NewFromRoot(rootCrect: CenteredAABB): (nd: NodeData)
    ensures nd.index == 0 && nd.depth == 0 && nd.crect == rootCrect
  {
    NewFromCenteredAabb(0, 0, rootCrect)
  }

  function NewFromCenteredAabb(index: nat, depth: nat, crect: CenteredAABB): NodeData
  {
    NodeData(index, crect, depth)
  }

  /** `can_subdivide`: the node is at least twice the smallest size in width or in height. */
  predicate CanSubdivide(nd: NodeData, smallestSize: int)
    requires IsI32(smallestSize * 2)
  {
    nd.crect.width >= smallestSize * 2 || nd.crect.height >= smallestSize * 2
  }

  /** `can_split_further`: the node can subdivide and is above the maximum depth. */
  function CanSplitFurther(nd: NodeData, smallestSize: int, maxDepth: nat): (r: bool)
    requires IsI32(smallestSize * 2)
    ensures r <==> (nd.crect.width >= 2 * smallestSize || nd.crect.height >= 2 * smallestSize)
                   && nd.depth < maxDepth
  {
    var splitAllowed := CanSubdivide(nd, smallestSize);
    var canGoDeeper := nd.depth < maxDepth;
    splitAllowed && canGoDeeper
  }

  /** A node at or below the maximum depth never splits, whatever its size. */
  lemma DeepNodesNeverSplit(nd: NodeData, smallestSize: int, maxDepth: nat)
    requires IsI32(smallestSize * 2)
    requires nd.depth >= maxDepth
    ensures !CanSplitFurther(nd, smallestSize, maxDepth)
  {
  }
}

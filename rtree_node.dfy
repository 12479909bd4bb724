/**
 * The two-variant R-tree node (src/rtree/nodes/rtree_node.rs): a
 * `NonLeaf` holds child pointers to further nodes, a `Leaf` holds child
 * pointers to leaves, each pointer carrying its child's box. Every query
 * dispatches on the variant; `RTreeNode` only wraps a `NodeData`.
 */
module RNode {
  import opened RBoundingBox
  import opened RNodeTraits
  import opened RLeaf

  /** `ChildPointer`: the child's bounding box and the boxed child. */
  datatype ChildPointer<TNode> = ChildPointer(bb: BoundingBox, pointer: TNode)

  datatype NodeData<Id> =
    | NonLeaf(nodes: seq<ChildPointer<RTreeNode<Id>>>)
    | Leaf(leaves: seq<ChildPointer<RTreeLeaf<Id>>>)

  datatype RTreeNode<Id> = RTreeNode(nodeData: NodeData<Id>)

  /** `cp.bb`, the box each child pointer contributes to `contains` and `to_bb`. */
  function PointerBb<TNode>(cp: ChildPointer<TNode>): (b: BoundingBox)
    ensures b == cp.bb
  {
    cp.bb
  }

  /** The child pointers of a node seen as a slice of boxes. */
  function PointerBoxes<TNode>(cps: seq<ChildPointer<TNode>>): seq<BoundingBox>
  {
    Boxes(cps, PointerBb)
  }

  /** The boxes of the active variant's child pointers. */
  function ChildBoxes<Id>(d: NodeData<Id>): (boxes: seq<BoundingBox>)
    ensures d.NonLeaf? ==> boxes == PointerBoxes(d.nodes)
    ensures d.Leaf? ==> boxes == PointerBoxes(d.leaves)
  {
    match d
    case NonLeaf(nodes) => PointerBoxes(nodes)
    case Leaf(leaves) => PointerBoxes(leaves)
  }

  /** `ChildPointer::contains`: the pointer's box contains `other`. */
  function PointerContains<TNode>(cp: ChildPointer<TNode>, other: BoundingBox): (r: bool)
    ensures r <==> |cp.bb.dims| == |other.dims| &&
                   forall i :: 0 <= i < |other.dims| ==> RExtent.ContainsExtent(cp.bb.dims[i], other.dims[i])
  {
    Encloses(cp.bb, other)
  }

  /** Either variant's `ArrayVec<_, M>` holds at most `M` child pointers. */
  predicate WithinCapacity<Id>(d: NodeData<Id>, m: nat)
  {
    match d
    case NonLeaf(nodes) => |nodes| <= m
    case Leaf(leaves) => |leaves| <= m
  }

  /** `NodeData::len`: the child count of the active variant. */
  function Len<Id>(d: NodeData<Id>): (n: nat)
    ensures d.NonLeaf? ==> n == |d.nodes|
    ensures d.Leaf? ==> n == |d.leaves|
  {
    match d
    case NonLeaf(nodes) => |nodes|
    case Leaf(leaves) => |leaves|
  }

  /** `NodeData::is_empty`. */
  function IsEmpty<Id>(d: NodeData<Id>): (r: bool)
    ensures r <==> Len(d) == 0
  {
    match d
    case NonLeaf(nodes) => |nodes| == 0
    case Leaf(leaves) => |leaves| == 0
  }

  /** `NodeData::contains`: `any` child pointer of the active variant contains `other`. */
  function Contains<Id>(d: NodeData<Id>, other: BoundingBox): (r: bool)
    ensures r <==> exists i :: 0 <= i < Len(d) && Encloses(ChildBoxes(d)[i], other)
  {
    SliceContains(ChildBoxes(d), other)
  }

  /** `NodeData::is_leaf`. */
  function IsLeaf<Id>(d: NodeData<Id>): (r: bool)
    ensures r <==> d.Leaf?
  {
    match d
    case NonLeaf(_) => false
    case Leaf(_) => true
  }

  /** `NodeData::to_bb`: `into_grown` folded over the child pointers' boxes (`grow` is a parameter). */
  function ToBbOf<Id>(d: NodeData<Id>, grow: (BoundingBox, BoundingBox) -> BoundingBox, n: nat): (b: BoundingBox)
    ensures Len(d) == 0 ==> b == RBoundingBox.Default(n)
  {
    match d
    case NonLeaf(nodes) => ToBb(PointerBoxes(nodes), grow, n)
    case Leaf(leaves) => ToBb(PointerBoxes(leaves), grow, n)
  }

  /** When growing contains both inputs, the node's box contains every child's box. */
  lemma ToBbOfEnclosesChildren<Id>(d: NodeData<Id>, grow: (BoundingBox, BoundingBox) -> BoundingBox, n: nat)
    requires GrowEncloses(grow) && AllDims(ChildBoxes(d), n)
    ensures forall i :: 0 <= i < Len(d) ==> Encloses(ToBbOf(d, grow, n), ChildBoxes(d)[i])
  {
    ToBbEnclosesAll(ChildBoxes(d), grow, n);
  }

  /** A node within capacity `M` is full exactly when it holds `M` children, and never holds more. */
  lemma LenWithinCapacity<Id>(d: NodeData<Id>, m: nat)
    requires WithinCapacity(d, m)
    ensures Len(d) <= m
    ensures IsFull(Len(d), m) <==> Len(d) == m
  {
  }

  /** `RTreeNode::default`: an empty `Leaf`, within every capacity `M`. */
  function Default<Id>(): (n: RTreeNode<Id>)
    ensures IsLeaf(n.nodeData) && Len(n.nodeData) == 0
    ensures forall m: nat :: WithinCapacity(n.nodeData, m)
  {
    RTreeNode(Leaf([]))
  }

  /** `RTreeNode::len`, delegating to its node data. */
  function NodeLen<Id>(n: RTreeNode<Id>): (r: nat)
    ensures r == |ChildBoxes(n.nodeData)|
  {
    Len(n.nodeData)
  }

  /** `RTreeNode::is_empty`, delegating to its node data. */
  function NodeIsEmpty<Id>(n: RTreeNode<Id>): (r: bool)
    ensures r <==> ChildBoxes(n.nodeData) == []
  {
    IsEmpty(n.nodeData)
  }

  /** `RTreeNode::contains`, delegating to its node data. */
  function NodeContains<Id>(n: RTreeNode<Id>, other: BoundingBox): (r: bool)
    ensures r <==> SliceContains(ChildBoxes(n.nodeData), other)
  {
    Contains(n.nodeData, other)
  }

  /** `RTreeNode::is_leaf`, delegating to its node data. */
  function NodeIsLeaf<Id>(n: RTreeNode<Id>): (r: bool)
    ensures r <==> n.nodeData.Leaf?
  {
    IsLeaf(n.nodeData)
  }

  /** `RTreeNode::to_bb`, delegating to its node data. */
  function NodeToBb<Id>(n: RTreeNode<Id>, grow: (BoundingBox, BoundingBox) -> BoundingBox, dims: nat): (b: BoundingBox)
    ensures b == ToBb(ChildBoxes(n.nodeData), grow, dims)
  {
    ToBbOf(n.nodeData, grow, dims)
  }

  /** The default node is an empty leaf: it contains no box and is full only when `M` is 0. */
  lemma DefaultIsEmptyLeaf<Id>(other: BoundingBox, m: nat)
    ensures NodeIsLeaf(Default<Id>()) && NodeIsEmpty(Default<Id>())
    ensures !NodeContains(Default<Id>(), other)
    ensures IsFull(NodeLen(Default<Id>()), m) <==> m == 0
  {
  }
}

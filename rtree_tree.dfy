/**
 * The R-tree skeleton (src/rtree/rtree.rs): a root child entry that is
 * either a leaf of object entries or a non-leaf of further child entries.
 * `insert` only implements the descent: it walks an explicit stack into
 * the first child, by index, whose box contains the new object's box.
 * At a non-leaf with no such child it stops and returns. At a leaf it
 * reaches `todo!()` and panics. Boxes own their children, so the tree is
 * a value.
 */
module RTree {
  import opened Wrappers
  import opened RBoundingBox
  import opened RNodeTraits
  import RLeafNode

  type Entry = RLeafNode.Entry

  datatype LeafNode = LeafNode(bb: BoundingBox, entries: seq<Entry>)
  datatype NonLeafNode = NonLeafNode(bb: BoundingBox, children: seq<NodeChildEntry>)
  datatype NodeChildEntry = Leaf(leaf: LeafNode) | NonLeaf(node: NonLeafNode)
  datatype RTree = RTree(root: NodeChildEntry)

  /** `LeafNode::len`. */
  function LeafLen(l: LeafNode): (n: nat)
    ensures n == |l.entries|
  {
    |l.entries|
  }

  /** `LeafNode::is_full`: at least `M` entries. */
  predicate LeafIsFull(l: LeafNode, m: nat)
  {
    LeafLen(l) >= MaxFill(m)
  }

  /** `LeafNode::is_underfull`: fewer than `(M + 1) / 2` entries. */
  predicate LeafIsUnderfull(l: LeafNode, m: nat)
  {
    LeafLen(l) < MinFill(m)
  }

  /** The leaf's fill predicates agree with the node traits' defaults. */
  lemma LeafFillAgreesWithTraits(l: LeafNode, m: nat)
    ensures LeafIsFull(l, m) <==> IsFull(|l.entries|, m)
    ensures LeafIsUnderfull(l, m) <==> IsUnderfull(|l.entries|, m)
    ensures m >= 1 && LeafIsFull(l, m) ==> !LeafIsUnderfull(l, m)
  {
  }

  /** `NodeChildEntry::len`: entries of a leaf, children of a non-leaf. */
  function Len(e: NodeChildEntry): (n: nat)
    ensures e.Leaf? ==> n == |e.leaf.entries|
    ensures e.NonLeaf? ==> n == |e.node.children|
  {
    match e
    case Leaf(x) => LeafLen(x)
    case NonLeaf(x) => |x.children|
  }

  /** `NodeChildEntry::is_empty`. */
  function IsEmpty(e: NodeChildEntry): (r: bool)
    ensures r <==> Len(e) == 0
  {
    match e
    case Leaf(x) => x.entries == []
    case NonLeaf(x) => x.children == []
  }

  /** `NodeChildEntry::bb_ref`: the active variant's box. */
  function BbRef(e: NodeChildEntry): (b: BoundingBox)
    ensures e.Leaf? ==> b == e.leaf.bb
    ensures e.NonLeaf? ==> b == e.node.bb
  {
    match e
    case Leaf(x) => x.bb
    case NonLeaf(x) => x.bb
  }

  /** `NodeChildEntry::contains`: the active variant's own box contains `other`. */
  function Contains(e: NodeChildEntry, other: BoundingBox): (r: bool)
    ensures r <==> |BbRef(e).dims| == |other.dims| &&
                   forall i :: 0 <= i < |other.dims| ==> RExtent.ContainsExtent(BbRef(e).dims[i], other.dims[i])
  {
    match e
    case Leaf(x) => Encloses(x.bb, other)
    case NonLeaf(x) => Encloses(x.bb, other)
  }

  /** The boxes of a sequence of child entries, in order. */
  function ChildBoxes(children: seq<NodeChildEntry>): (boxes: seq<BoundingBox>)
    ensures |boxes| == |children|
    ensures forall i :: 0 <= i < |children| ==> boxes[i] == BbRef(children[i])
  {
    seq(|children|, i requires 0 <= i < |children| => BbRef(children[i]))
  }

  /** `NodeChildEntry::update_bounding_box`: refits the active variant's box (`grow` is a parameter). */
  method UpdateBoundingBox(e: NodeChildEntry, grow: (BoundingBox, BoundingBox) -> BoundingBox, n: nat) returns (r: NodeChildEntry)
    ensures e.Leaf? ==> r == Leaf(e.leaf.(bb := ToBb(RLeafNode.EntryBoxes(e.leaf.entries), grow, n)))
    ensures e.NonLeaf? ==> r == NonLeaf(e.node.(bb := ToBb(ChildBoxes(e.node.children), grow, n)))
    ensures GrowEncloses(grow) && e.Leaf? && AllDims(RLeafNode.EntryBoxes(e.leaf.entries), n) ==>
              forall i :: 0 <= i < |e.leaf.entries| ==> Encloses(BbRef(r), e.leaf.entries[i].bb)
    ensures GrowEncloses(grow) && e.NonLeaf? && AllDims(ChildBoxes(e.node.children), n) ==>
              forall i :: 0 <= i < |e.node.children| ==> Encloses(BbRef(r), BbRef(e.node.children[i]))
  {
    match e
    case Leaf(x) =>
      var boxes := RLeafNode.EntryBoxes(x.entries);
      var b := RLeafNode.GrowOver(boxes, grow, n);
      r := Leaf(x.(bb := b));
      if GrowEncloses(grow) && AllDims(boxes, n) {
        ToBbEnclosesAll(boxes, grow, n);
      }
    case NonLeaf(x) =>
      var boxes := ChildBoxes(x.children);
      var b := RLeafNode.GrowOver(boxes, grow, n);
      r := NonLeaf(x.(bb := b));
      if GrowEncloses(grow) && AllDims(boxes, n) {
        ToBbEnclosesAll(boxes, grow, n);
      }
  }

  /** `RTree::default`: the root is a leaf with the default box and no entries. */
  function Default(n: nat): (t: RTree)
    ensures t.root.Leaf? && IsEmpty(t.root) && Len(t.root) == 0
    ensures BbRef(t.root) == RBoundingBox.Default(n)
  {
    RTree(Leaf(LeafNode(RBoundingBox.Default(n), [])))
  }

  /**
   * How `insert` ends: it returns having changed nothing, or it reaches
   * the `todo!()` of the leaf at `path` (child indexes from the root),
   * after pushing the entry there exactly when that leaf contains it.
   */
  datatype InsertOutcome =
    | NoContainingChild
    | ReachedLeafTodo(path: seq<nat>, pushed: bool)

  /** The first child, by index, whose box contains `bb`. */
  function FirstContaining(children: seq<NodeChildEntry>, bb: BoundingBox): (c: Option<nat>)
    ensures c.Some? ==> c.value < |children| && Contains(children[c.value], bb) &&
                        forall k :: 0 <= k < c.value ==> !Contains(children[k], bb)
    ensures c.None? ==> forall k :: 0 <= k < |children| ==> !Contains(children[k], bb)
  {
    if children == [] then None
    else if Contains(children[0], bb) then Some(0)
    else match FirstContaining(children[1..], bb)
      case None => None
      case Some(k) => Some(k + 1)
  }

  function Prefixed(c: nat, o: InsertOutcome): InsertOutcome
  {
    match o
    case NoContainingChild => NoContainingChild
    case ReachedLeafTodo(p, pushed) => ReachedLeafTodo([c] + p, pushed)
  }

  /** The descent `insert` performs, stated recursively over the tree. */
  function Descent(e: NodeChildEntry, bb: BoundingBox): InsertOutcome
    decreases e
  {
    match e
    case Leaf(x) => ReachedLeafTodo([], Encloses(x.bb, bb))
    case NonLeaf(x) =>
      match FirstContaining(x.children, bb)
      case None => NoContainingChild
      case Some(c) => Prefixed(c, Descent(x.children[c], bb))
  }

  /** The node reached by following `path` from `e`. */
  function At(e: NodeChildEntry, path: seq<nat>): Option<NodeChildEntry>
    decreases |path|
  {
    if path == [] then Some(e)
    else if e.NonLeaf? && path[0] < |e.node.children| then At(e.node.children[path[0]], path[1..])
    else None
  }

  /** Prefixed outcomes accumulate: `Descent` from a node reached by `path`. */
  function Under(path: seq<nat>, o: InsertOutcome): InsertOutcome
  {
    match o
    case NoContainingChild => NoContainingChild
    case ReachedLeafTodo(p, pushed) => ReachedLeafTodo(path + p, pushed)
  }

  lemma UnderPrefixed(path: seq<nat>, c: nat, o: InsertOutcome)
    ensures Under(path, Prefixed(c, o)) == Under(path + [c], o)
  {
    if o.ReachedLeafTodo? {
      assert path + ([c] + o.path) == (path + [c]) + o.path;
    }
  }

  /**
   * `insert`: pops the stack; at a non-leaf pushes the first child that
   * contains `bb` and continues the outer loop, or falls through and lets
   * the stack empty; at a leaf stops at `todo!()`.
   */
  method Insert(tree: RTree, id: nat, bb: BoundingBox) returns (outcome: InsertOutcome)
    ensures outcome == Descent(tree.root, bb)
  {
    var stack := [tree.root];
    var path: seq<nat> := [];
    label Recurse:
    while stack != []
      invariant |stack| <= 1
      invariant stack != [] ==> Descent(tree.root, bb) == Under(path, Descent(stack[0], bb))
      invariant stack == [] ==> Descent(tree.root, bb) == NoContainingChild
      decreases |stack|, if stack == [] then tree.root else stack[0]
    {
      var parent := stack[|stack| - 1];
      stack := stack[..|stack| - 1];
      match parent
      case NonLeaf(node) =>
        for c := 0 to |node.children|
          invariant forall k :: 0 <= k < c ==> !Contains(node.children[k], bb)
        {
          if !Contains(node.children[c], bb) {
            continue;
          }
          assert FirstContaining(node.children, bb) == Some(c);
          UnderPrefixed(path, c, Descent(node.children[c], bb));
          stack := stack + [node.children[c]];
          path := path + [c];
          continue Recurse;
        }
        assert FirstContaining(node.children, bb) == None;
      case Leaf(node) =>
        var pushed := Encloses(node.bb, bb);
        assert path + [] == path;
        outcome := ReachedLeafTodo(path, pushed);
        return;
    }
    outcome := NoContainingChild;
  }

  /**
   * When `insert` reaches a leaf, `path` leads from the root to that leaf,
   * every node below the root on the way contains `bb`, and the entry is
   * pushed exactly when the leaf's own box contains it.
   */
  lemma {:induction false} DescentReachesLeaf(e: NodeChildEntry, bb: BoundingBox)
    requires Descent(e, bb).ReachedLeafTodo?
    ensures var o := Descent(e, bb);
      At(e, o.path).Some? && At(e, o.path).value.Leaf? &&
      (o.pushed <==> Contains(At(e, o.path).value, bb)) &&
      forall k :: 1 <= k <= |o.path| ==> At(e, o.path[..k]).Some? && Contains(At(e, o.path[..k]).value, bb)
    decreases e
  {
    match e
    case Leaf(x) =>
    case NonLeaf(x) =>
      var c := FirstContaining(x.children, bb).value;
      var child := x.children[c];
      DescentReachesLeaf(child, bb);
      var q := Descent(child, bb).path;
      var p := Descent(e, bb).path;
      assert p == [c] + q;
      assert p[1..] == q;
      forall k | 1 <= k <= |p|
        ensures At(e, p[..k]).Some? && Contains(At(e, p[..k]).value, bb)
      {
        assert p[..k][0] == c && p[..k][1..] == q[..k - 1];
        assert At(e, p[..k]) == At(child, q[..k - 1]);
        if k == 1 {
          assert q[..0] == [];
        }
      }
  }

  /** At a non-leaf, `insert` descends into the lowest-indexed containing child even when later ones also contain `bb`. */
  lemma DescentTakesFirstChild(x: NonLeafNode, bb: BoundingBox, c: nat)
    requires c < |x.children| && Contains(x.children[c], bb)
    requires forall k :: 0 <= k < c ==> !Contains(x.children[k], bb)
    ensures Descent(NonLeaf(x), bb) == Prefixed(c, Descent(x.children[c], bb))
  {
    var f := FirstContaining(x.children, bb);
    assert f == Some(c) by {
      if f.None? {
      } else if f.value < c {
      } else if f.value > c {
      }
    }
  }

  /** At a non-leaf none of whose children contains `bb`, `insert` returns without reaching any leaf. */
  lemma NoContainingChildReturns(x: NonLeafNode, bb: BoundingBox)
    requires forall k :: 0 <= k < |x.children| ==> !Contains(x.children[k], bb)
    ensures Descent(NonLeaf(x), bb) == NoContainingChild
  {
  }

  /** On the default tree the root is a leaf, so every `insert` reaches `todo!()` at the root. */
  lemma DefaultInsertReachesTodo(n: nat, bb: BoundingBox)
    ensures Descent(Default(n).root, bb) == ReachedLeafTodo([], Encloses(RBoundingBox.Default(n), bb))
  {
  }

  /**
   * `default_works` and `insert_works`: the default tree of two dimensions
   * is empty, and inserting `[1, 2] x [4, 17]` reaches `todo!()` at the
   * root leaf without pushing, because the default box `[0, 1] x [0, 1]`
   * does not contain it.
   */
  method InsertScenario() returns (emptyBefore: bool, outcome: InsertOutcome)
    ensures emptyBefore
    ensures outcome == ReachedLeafTodo([], false)
  {
    var tree := Default(2);
    emptyBefore := IsEmpty(tree.root);
    var bb := BoundingBox([RExtent.Extent(1.0, 2.0), RExtent.Extent(4.0, 17.0)]);
    assert !RExtent.ContainsExtent(BbRef(tree.root).dims[0], bb.dims[0]);
    outcome := Insert(tree, 0, bb);
  }
}

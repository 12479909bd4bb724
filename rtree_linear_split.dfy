/**
 * The first linear-cost split (src/rtree/linear_cost_split.rs): it splits
 * an overfull `LeafNode` in place. The node keeps the first group and its
 * box, and the second group comes back as a new leaf.
 */
module LinearCostSplitV1 {
  import opened RBoundingBox
  import opened RLeafNode
  import opened LinearSplitCore

  /**
   * `LinearCostSplitting::split`. The node's own box is the `area` the
   * seeds are normalized against.
   */
  method Split(node: LeafNode, getGrown: (BoundingBox, BoundingBox) -> BoxAndArea, width: RExtent.Extent -> real,
               minValue: real, maxValue: real) returns (newNode: LeafNode)
    requires SeedInputs(EntryBoxes(node.entries), node.dims, node.bb, width)
    requires var c := SelectAsWritten(EntryBoxes(node.entries), node.dims, node.bb, width, node.dims, minValue, maxValue);
             c.bestA != c.bestB
    modifies node
    ensures var seeds := Ordered(SelectAsWritten(EntryBoxes(old(node.entries)), node.dims, old(node.bb), width, node.dims, minValue, maxValue));
            var g := SplitGroups(old(node.entries), seeds.0, seeds.1, EntryToBb, getGrown);
            node.entries == g.groupA && node.bb == g.boxA && newNode.entries == g.groupB && newNode.bb == g.boxB
    ensures fresh(newNode) && newNode.capacity == node.capacity && newNode.dims == node.dims
    ensures multiset(node.entries) + multiset(newNode.entries) == multiset(old(node.entries))
    ensures |node.entries| >= 1 && |newNode.entries| >= 1
  {
    ghost var original := node.entries;
    var low, high := LinearPickSeeds(EntryBoxes(node.entries), node.dims, node.bb, width, minValue, maxValue);
    var bestB := node.entries[high];
    node.entries := RemoveAt(node.entries, high);
    var bestA := node.entries[low];
    node.entries := RemoveAt(node.entries, low);

    var boxA, groupA, boxB, groupB := AssignRemaining(node, bestA.bb, [bestA], bestB.bb, [bestB], getGrown);

    SplitGroupsPartition(original, low, high, EntryToBb, getGrown);
    node.bb := boxA;
    node.entries := groupA;
    newNode := new LeafNode(node.capacity, node.dims);
    newNode.bb := boxB;
    newNode.entries := groupB;
  }

  /**
   * The `while let Some(item) = entries.pop()` loop of `split`: each popped
   * entry joins the group whose box grows less, then the smaller box, then
   * the smaller group, and otherwise the second group.
   */
  method AssignRemaining(node: LeafNode, boxA0: BoundingBox, groupA0: seq<Entry>, boxB0: BoundingBox, groupB0: seq<Entry>,
                         getGrown: (BoundingBox, BoundingBox) -> BoxAndArea)
    returns (boxA: BoundingBox, groupA: seq<Entry>, boxB: BoundingBox, groupB: seq<Entry>)
    modifies node
    ensures node.entries == [] && node.bb == old(node.bb)
    ensures Groups(boxA, groupA, boxB, groupB) == Assign(old(node.entries), Groups(boxA0, groupA0, boxB0, groupB0), EntryToBb, getGrown)
  {
    boxA, groupA, boxB, groupB := boxA0, groupA0, boxB0, groupB0;
    while node.entries != []
      invariant node.bb == old(node.bb)
      invariant Assign(node.entries, Groups(boxA, groupA, boxB, groupB), EntryToBb, getGrown)
             == Assign(old(node.entries), Groups(boxA0, groupA0, boxB0, groupB0), EntryToBb, getGrown)
      decreases |node.entries|
    {
      var item := node.entries[|node.entries| - 1];
      node.entries := node.entries[..|node.entries| - 1];
      var aGrown := getGrown(boxA, item.bb);
      var bGrown := getGrown(boxB, item.bb);

      if aGrown.areaIncrease < bGrown.areaIncrease {
        boxA, groupA := aGrown.bb, groupA + [item];
        continue;
      }
      if aGrown.areaIncrease > bGrown.areaIncrease {
        boxB, groupB := bGrown.bb, groupB + [item];
        continue;
      }
      if aGrown.area < bGrown.area {
        boxA, groupA := aGrown.bb, groupA + [item];
        continue;
      }
      if aGrown.area > bGrown.area {
        boxB, groupB := bGrown.bb, groupB + [item];
        continue;
      }
      if |groupA| < |groupB| {
        boxA, groupA := aGrown.bb, groupA + [item];
        continue;
      }
      boxB, groupB := bGrown.bb, groupB + [item];
    }
  }
}

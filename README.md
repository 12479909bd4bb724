# space-partitioning core in Dafny

This project models the data structures at the heart of the Rust crate
`space-partitioning` and proves properties about them. There are three groups.

**Quadtree building blocks** (`src/quadtree/`):
- the `Quadrants` bit set that names which children a box touches;
- the `AABB` and `CenteredAABB` rectangles and their quadrant exploration;
- `NodeData`, the packed `Node`, and the `NodeList` stack;
- the index-stable `FreeList`, whose freed slots form a chain that starts at
  `first_free` and ends at `SENTINEL`.

**Interval search trees** (`src/interval_tree.rs`, `src/interval_tree/`):
- `Interval` and its overlap test;
- the three trees, all modelled on one datatype `Node<D>`:
  - the bare-interval `Node`;
  - the entry-carrying `Node`;
  - `IntervalTreeNode` with its `IntervalTreeNodeOption` wrapper.

  In each, a binary search tree ordered on interval starts carries a `max`
  bound that prunes `overlap_search`;
- the in-order iterator.

**R-tree primitives** (`src/rtree/`):
- `Extent` and `BoundingBox` with their `contains` tests;
- the node traits, with `MAX_FILL` and `MIN_FILL` and the slice fold `to_bb`;
- the bounded `RTreeLeaf`, the two-variant `RTreeNode`, and the growable `LeafNode`;
- the descent of `RTree::insert`;
- both linear-cost splits (Guttman's linear seed picking followed by greedy
  assignment).

### How the Rust was turned into Dafny

**Panics.** Panics that callers must avoid become preconditions:
`assert!`, `debug_assert!`, `unwrap` on `None`, and i32 overflow in debug
builds. The one exception is the leaf branch of `RTree::insert`. It always
ends in `todo!()`, so the model returns that as an outcome instead.

**Integers.** Quadtree coordinates are `int` values that must fit in an i32
(`Ints.IsI32`). The `>> 1` on them is `Ints.Half`, which takes the floor of
half the value.

**R-tree values.**
- Coordinates are `real`.
- The following are function-typed parameters, because their bodies are not
  part of this model:
  - `grow` / `into_grown`;
  - `get_grown`, which returns the grown box, its area and the area increase;
  - `Extent::len`.
- `T::min_value()` and `T::max_value()` are the parameters `minValue` and
  `maxValue`.
- The const generic `N` (the number of dimensions) is a `nat` parameter.

**Where the model is a class and where it is a value.**
- Mutable objects are classes with `modifies` clauses: the free list, the
  quadtree node, the node list, and the two R-tree leaves.
- The interval trees and the R-tree are owned trees of `Box`es. They are
  values, and an in-place update of a child becomes a rebuilt node.
- Loops in the source are `while` loops proved against a specification
  function. These are:
  - `from_iter`, `from_ranges_empty` and `From<[RangeInclusive; N]>`;
  - the free-list chain walks;
  - the stack of `RTree::insert`;
  - the seed search and the assignment loop of both splits;
  - the `to_bb` fold;
  - `BoundingBox::contains` and `new_from_ranges`.

Each file states which source file it models. Module names follow the
source's structure:
- Quadtree: `Quadrants`, `Aabb`, `CenteredAabb`, `NodeData`, `QuadNode`,
  `NodeList`, `QuadFreeList`.
- Interval trees: `Intervals`, `IntervalSearchTree`, `IntervalTreeArray`,
  `IntervalTreeEntryNode`, `IntervalTreeNodeOption`, `InorderIterator`.
- R-tree: `RExtent`, `RBoundingBox`, `RNodeTraits`, `RLeaf`, `RNode`,
  `RLeafNode`, `RTree`, `LinearSplitCore`, `LinearCostSplitV1`,
  `LinearCostSplitV2`, `LinearSplitScenario`.

Where the source is evidently wrong, the model keeps the code as written
and adds the corrected version beside it, with a lemma that tells the two
apart (see "## Findings").

## Model

| member | source | states |
|---|---|---|
| Ints.Half | src/quadtree/centered_aabb.rs:39-43 | `x >> 1` on i32 is the floor of half: `2r <= x <= 2r + 1` |
| Ints.HalfOfI32 | src/quadtree/centered_aabb.rs:39-43 | halving an i32 never leaves the i32 range |
| Quadrants.Bit | src/quadtree/quadrants.rs:14-30 | a `bool as u8` is 1 exactly when the flag is set, and 0 otherwise |
| Quadrants.At | src/quadtree/quadrants.rs:94-97 | `at(index)` is true exactly when bit `index` of the code is set |
| Quadrants.FromTests | src/quadtree/quadrants.rs:14-30 | bit 0 is set when the box straddles the centre on either axis; bits 1-4 are the four corner tests; no higher bit is set |
| Quadrants.FromIntersections | src/quadtree/quadrants.rs:33-54 | bits 1-4 are the four quadrant flags; bit 0 is set for exactly the four pairs the code tests (TL&TR, TL&BL, TR&BR, TL&BR) |
| Quadrants.SelfOnly | src/quadtree/quadrants.rs:57-59 | only the "this node" bit is set, and no quadrant |
| Quadrants.All | src/quadtree/quadrants.rs:62-66 | all five bits are set |
| Quadrants.This | src/quadtree/quadrants.rs:69-71 | the accessor reads bit 0 |
| Quadrants.TopLeft | src/quadtree/quadrants.rs:74-76 | the accessor reads bit 1 |
| Quadrants.TopRight | src/quadtree/quadrants.rs:79-81 | the accessor reads bit 2 |
| Quadrants.BottomLeft | src/quadtree/quadrants.rs:84-86 | as written, the accessor compares the masked code with 5, so it is false for every code |
| Quadrants.BottomRight | src/quadtree/quadrants.rs:89-91 | as written, the accessor compares the masked code with 6, so it is false for every code |
| Quadrants.BottomLeftCorrected | src/quadtree/quadrants.rs:84-86 | the corrected accessor reads bit 3, agreeing with `at(3)` |
| Quadrants.BottomRightCorrected | src/quadtree/quadrants.rs:89-91 | the corrected accessor reads bit 4, agreeing with `at(4)` |
| Quadrants.MutationIndex | src/quadtree/quadrants.rs:101-109 | 0 when the "this" bit is set; otherwise the sum of the positions of the set quadrant bits |
| Quadrants.FromIntersectionsCorrected | src/quadtree/quadrants.rs:33-54 | bit 0 is set exactly when two or more quadrants are touched |
| Quadrants.MutationIndexOfPlainCodes | src/quadtree/quadrants.rs:101-109 | each single-bit code maps to its own child slot, and so does the empty code |
| Quadrants.MutationIndexOfThis | src/quadtree/quadrants.rs:101-109 | every code with the "this" bit maps to slot 0 |
| Quadrants.FromIntersectionsSlots | src/quadtree/quadrants.rs:117-157 | single-quadrant codes map to slots 1-4; a covered pair maps to slot 0 (the module test's cases) |
| Quadrants.FromTestsSingleSlot | src/quadtree/quadrants.rs:14-30 | for every input of `from_tests`, at most one quadrant bit is set unless the "this" bit is set, and the slot is below 5 |
| Quadrants.FromIntersectionsMissesPairs | src/quadtree/quadrants.rs:33-54 | TR&BL leaves the "this" bit clear and maps to slot 5; BL&BR maps to slot 7; neither is a child slot |
| Quadrants.FromIntersectionsCorrectedSlot | src/quadtree/quadrants.rs:33-54 | with the corrected rule, the slot is always below 5, is 0 exactly when the count of touched quadrants is not 1, and otherwise names the one touched quadrant |
| Quadrants.BottomAccessorsDisagreeWithAt | src/quadtree/quadrants.rs:84-97 | for a code with only BL or only BR, `at` reports the bit but the accessor reports false |
| Aabb.New | src/quadtree/aabb.rs:16-18 | the box has exactly the given corners |
| Aabb.FromArray | src/quadtree/aabb.rs:23-32 | `[x1, y1, x2, y2]` becomes the box with those corners |
| Aabb.IntoArray | src/quadtree/aabb.rs:36-38 | the box becomes `[x1, y1, x2, y2]`, and i32 boxes give i32 arrays |
| Aabb.AsRef | src/quadtree/aabb.rs:42-45 | the borrowed view has the same four values as `into` |
| Aabb.ArrayRoundTrip | src/quadtree/aabb.rs:23-38 | array to box to array is the identity |
| Aabb.BoxRoundTrip | src/quadtree/aabb.rs:23-38 | box to array to box is the identity |
| Aabb.ConversionExamples | src/quadtree/aabb.rs:58-82 | the module tests' conversions |
| CenteredAabb.FromCenterXyWh | src/quadtree/centered_aabb.rs:29-36 | indexes 0-3 read centre x, centre y, width and height |
| CenteredAabb.FromLtwh | src/quadtree/centered_aabb.rs:39-43 | the centre lies half the size (rounded down) from the top-left corner; the sizes are kept; the result fits i32 |
| CenteredAabb.Index | src/quadtree/centered_aabb.rs:21-25 | `index(0..4)` reads the fields in declaration order |
| CenteredAabb.ConstructorExamples | src/quadtree/centered_aabb.rs:108-123 | the module tests' constructions |
| CenteredAabb.ExploreQuadrantsAabb | src/quadtree/centered_aabb.rs:46-61 | each quadrant flag holds exactly when the other box reaches into that side of the centre on both axes |
| CenteredAabb.ExploreTouchesSomeQuadrant | src/quadtree/centered_aabb.rs:46-61 | a well-formed box always touches at least one quadrant |
| CenteredAabb.ExploreCornerBoxes | src/quadtree/centered_aabb.rs:46-61 | a box wholly top-left of the centre touches only TL; a box wholly bottom-right touches only BR |
| CenteredAabb.ProbeBoxes | src/quadtree/centered_aabb.rs:64-89 | the generic exploration builds four probe boxes, as written |
| CenteredAabb.ExploreQuadrantsGeneric | src/quadtree/centered_aabb.rs:64-89 | each flag is the caller's intersection test on that quadrant's probe box, with the TR, BL and BR probes starting at `cx + hx` / `cy + hy` as written |
| CenteredAabb.ProbeBoxesMissTopRight | src/quadtree/centered_aabb.rs:64-89 | a point inside the top-right quadrant of a 4x4 node is reported in no quadrant |
| CenteredAabb.ProbeBoxesCorrected | src/quadtree/centered_aabb.rs:64-89 | the corrected probes are the four quarters of the node |
| CenteredAabb.ExploreQuadrantsGenericCorrected | src/quadtree/centered_aabb.rs:64-89 | each flag is the intersection test on the corresponding quarter of the node |
| CenteredAabb.ProbeBoxesCorrectedTile | src/quadtree/centered_aabb.rs:64-89 | the corrected probes lie inside the node's box, and together they cover every point of it |
| CenteredAabb.ProbeBoxesCorrectedFindTopRight | src/quadtree/centered_aabb.rs:64-89 | the same probe point is reported in the top-right quadrant |
| NodeData.New | src/quadtree/node_data.rs:18-20 | index and depth are kept; the centred box is built from left/top and the sizes |
| NodeData.NewFromRoot | src/quadtree/node_data.rs:23-25 | the root has index 0 and depth 0 and keeps the root box |
| NodeData.CanSplitFurther | src/quadtree/node_data.rs:41-54 | a node splits exactly when it is below the depth limit and one side is at least twice the smallest size |
| NodeData.DeepNodesNeverSplit | src/quadtree/node_data.rs:41-45 | a node at or below the maximum depth never splits |
| QuadNode.Node.constructor | src/quadtree/node.rs:9-20 | the node stores the given first-child or element index and the element count |
| QuadNode.Node.IsEmpty | src/quadtree/node.rs:25-27 | an empty node is a leaf |
| QuadNode.Node.GetFirstChildNodeIndex | src/quadtree/node.rs:42-45 | on a branch, `first_child` is the first child's index |
| QuadNode.Node.GetElementIndex | src/quadtree/node.rs:49-52 | on a leaf, `first_child` is the first element's index |
| QuadNode.Node.MakeEmptyLeaf | src/quadtree/node.rs:55-58 | the node becomes an empty leaf whose index is `SENTINEL` |
| QuadNode.LeafCountBelowMarker | src/quadtree/node.rs:3-38 | only the largest `u32` count marks a branch: a valid node is a leaf exactly when its count is below `NODE_IS_BRANCH`, and a branch is never empty |
| NodeList.NodeList.constructor | src/quadtree/node_list.rs:9-20 | a new list is empty |
| NodeList.NodeList.PushBack | src/quadtree/node_list.rs:9-11 | the node is appended and the length grows by one |
| NodeList.NodeList.Len | src/quadtree/node_list.rs:13-15 | the number of stored nodes |
| NodeList.NodeList.PopBack | src/quadtree/node_list.rs:17-20 | the last node is returned and removed, and the rest is unchanged |
| NodeList.PushThenPop | src/quadtree/node_list.rs:9-20 | pushing then popping returns the pushed node and restores the list |
| QuadFreeList.PrependKeepsChain | src/quadtree/free_list.rs:66-77 | linking a slot that is not yet free in front of a valid chain gives a valid chain |
| QuadFreeList.ChainStep | src/quadtree/free_list.rs:148-158 | following the link of a chain position leads to the next position, or to `SENTINEL` at the end |
| QuadFreeList.FreeList.constructor | src/quadtree/free_list.rs:33-38 | no slots, `first_free` is `SENTINEL`, and the chain is empty |
| QuadFreeList.FreeList.Insert | src/quadtree/free_list.rs:46-63 | reuses the head of the chain when there is one, otherwise appends and returns the new index cast to u32; the chain stays valid and no free slot is lost |
| QuadFreeList.FreeList.Erase | src/quadtree/free_list.rs:66-77 | as written: the erased slot becomes the whole chain and every earlier freed slot drops out of it |
| QuadFreeList.FreeList.EraseLinked | src/quadtree/free_list.rs:66-77 | corrected: the erased slot is linked in front of the old chain, and no free slot is lost |
| QuadFreeList.FreeList.FreeIndexes | src/quadtree/free_list.rs:80-114 | the walk from `first_free` collects exactly the free chain, in order |
| QuadFreeList.FreeList.Clear | src/quadtree/free_list.rs:80-114 | no slots and no free slot remain |
| QuadFreeList.FreeList.At | src/quadtree/free_list.rs:123-127 | returns the element of an occupied slot, which is never on the free chain |
| QuadFreeList.FreeList.SetAt | src/quadtree/free_list.rs:136-140 | writing through `at_mut` changes that slot only and keeps the chain |
| QuadFreeList.FreeList.Capacity | src/quadtree/free_list.rs:143-145 | the number of slots, free or not |
| QuadFreeList.FreeList.IsInFreeList | src/quadtree/free_list.rs:148-158 | true exactly when the index is on the free chain |
| QuadFreeList.AtScenario | src/quadtree/free_list.rs:299-320 | `at_works` and `at_mut_works`: slot 0 reads 1, then 0 after the write |
| QuadFreeList.EraseScenario | src/quadtree/free_list.rs:219-296 | `first_free` names the last freed index; `is_in_free_list` reports 0 and not 1 |
| QuadFreeList.ClearScenario | src/quadtree/free_list.rs:275-286 | `clear_works`: after clearing twice, there are no slots and `first_free` is `SENTINEL` |
| QuadFreeList.EraseLeaksFreedSlot | src/quadtree/free_list.rs:66-77 | after erasing 0 then 1, slot 0 is free but unreachable, and the next two inserts use slot 1 and a new slot 2 |
| QuadFreeList.EraseLinkedReusesFreedSlots | src/quadtree/free_list.rs:66-77 | with the corrected erase, the same inserts reuse slots 1 then 0 and the list keeps two slots |
| Intervals.New | src/interval_tree/interval.rs:29-34 | the interval has the given start and end |
| Intervals.FromTuple | src/interval_tree/interval.rs:104-109 | `(a, b)` converts to `[a, b]` |
| Intervals.FromRange | src/interval_tree/interval.rs:82-87 | `a..=b` converts to `[a, b]` |
| Intervals.OverlapsSymmetric | src/interval_tree/interval.rs:45-47 | overlap is symmetric |
| Intervals.OverlapsSelf | src/interval_tree/interval.rs:45-47 | an interval overlaps itself exactly when it is non-empty |
| Intervals.DisjointIffSeparated | src/interval_tree/interval.rs:45-47 | two intervals fail to overlap exactly when one ends before the other starts |
| Intervals.OverlapsPoint | src/interval_tree/interval.rs:45-47 | overlapping a point interval means containing the point |
| Intervals.OverlapExamples | src/interval_tree/interval.rs:126-131 | overlapping and disjoint examples; the tuple and range conversions agree |
| Intervals.LessEqTotalOrder | src/interval_tree/interval.rs:29-34 | the derived ordering (start, then end) is a total order |
| IntervalSearchTree.NewNode | src/interval_tree/node.rs:127-135 | a new leaf holds exactly its entry, and `max` is the entry's end |
| IntervalSearchTree.Len | src/interval_tree/node.rs:146-155 | the size is the number of stored entries |
| IntervalSearchTree.LenOf | src/interval_tree/interval_tree_node.rs:67-76 | the size of an optional child is the number of its entries |
| IntervalSearchTree.Insert | src/interval_tree/node.rs:185-221 | as written, the root entry is kept; the descent goes left on a smaller start, otherwise right; `max` is raised only to the node's own end |
| IntervalSearchTree.InsertCorrected | src/interval_tree/node.rs:185-221 | corrected, the root entry is kept and `max` is raised to the inserted subtree's maximum end |
| IntervalSearchTree.OverlapSearch | src/interval_tree/node.rs:225-248 | any interval returned overlaps the query |
| IntervalSearchTree.NewNodeInvariants | src/interval_tree/node.rs:127-135 | a leaf is ordered, its `max` is its own end, and `max` is the largest end |
| IntervalSearchTree.ReplaceLeftEntries | src/interval_tree/node.rs:196-204 | replacing the left child by one with the new node added adds exactly the new node's entries to the tree |
| IntervalSearchTree.ReplaceRightEntries | src/interval_tree/node.rs:205-213 | replacing the right child by one with the new node added adds exactly the new node's entries to the tree |
| IntervalSearchTree.InsertEntries | src/interval_tree/node.rs:185-221 | insert adds exactly the inserted subtree's entries (as multisets); nothing is lost or duplicated |
| IntervalSearchTree.InsertCorrectedEntries | src/interval_tree/node.rs:185-221 | the corrected insert adds exactly the inserted subtree's entries |
| IntervalSearchTree.InsertAddsLen | src/interval_tree/node.rs:146-221 | `len` after insert is the sum of both sizes, for both inserts |
| IntervalSearchTree.OverlapSearchSound | src/interval_tree/node.rs:225-248 | a returned interval is one stored in the tree |
| IntervalSearchTree.StartsBoundsGrow | src/interval_tree/node.rs:185-221 | a start bound on a subtree survives adding one entry that meets it |
| IntervalSearchTree.InsertKeepsOrdered | src/interval_tree/node.rs:185-221 | inserting a new node keeps starts left of a node smaller and right of it not smaller |
| IntervalSearchTree.InsertCorrectedKeepsOrdered | src/interval_tree/node.rs:185-221 | the corrected insert keeps the search-tree order |
| IntervalSearchTree.InsertKeepsOwnMax | src/interval_tree/node.rs:185-221 | as written, insert keeps the invariant it actually maintains: each `max` is at least the node's own end and its children's `max` |
| IntervalSearchTree.InsertCorrectedKeepsMaxCorrect | src/interval_tree/node.rs:185-221 | corrected, each `max` is exactly the largest end in its subtree, and the root's is the larger of both trees' maxima |
| IntervalSearchTree.MaxEndIsLargestEnd | src/interval_tree/node.rs:225-248 | the maximum end over a tree bounds every end and is attained |
| IntervalSearchTree.OverlapSearchComplete | src/interval_tree/node.rs:225-248 | on a tree whose `max` fields are exact, `None` means no stored interval overlaps the query |
| IntervalSearchTree.SortedAroundPivot | src/interval_tree/inorder_iterator.rs:30-74 | smaller starts, then the pivot, then not-smaller starts form a sequence sorted by start |
| IntervalSearchTree.InorderSortedByStart | src/interval_tree/inorder_iterator.rs:96-114 | the in-order entries of an ordered tree are sorted by start |
| IntervalSearchTree.Build | src/interval_tree/node.rs:92-110 | the fold of `from_iter` yields a tree exactly when there is an entry |
| IntervalSearchTree.BuildCorrected | src/interval_tree/node.rs:92-110 | the same fold with the corrected insert |
| IntervalSearchTree.BuildProperties | src/interval_tree/node.rs:92-110 | the built tree holds exactly the entries, is ordered, and keeps the own-max invariant |
| IntervalSearchTree.BuildCorrectedProperties | src/interval_tree/node.rs:92-110 | the corrected tree holds exactly the entries, is ordered, and has exact `max` fields |
| IntervalSearchTree.BuildCorrectedSearchComplete | src/interval_tree/node.rs:225-248 | in a tree built with the corrected insert, `overlap_search` finds an overlap whenever an entry overlaps the query |
| IntervalTreeArray.RangeEntries | src/interval_tree.rs:27-34 | each range becomes the bare interval it converts to, in order |
| IntervalTreeArray.New | src/interval_tree.rs:45-53 | a new node holds exactly its interval, is ordered, and keeps the own-max invariant |
| IntervalTreeArray.InsertInterval | src/interval_tree.rs:70-106 | the tree gains exactly the interval, grows by one, and keeps order and the own-max invariant |
| IntervalTreeArray.BuildNext | src/interval_tree.rs:27-34 | each further range inserts one node into the tree built from the earlier ranges |
| IntervalTreeArray.FromRanges | src/interval_tree.rs:27-34 | the loop builds the fold of the ranges: it holds exactly the ranges' intervals, is ordered, and keeps the own-max invariant |
| IntervalTreeArray.TestTreeShape | src/interval_tree.rs:146-148 | the test ranges build the expected tree shape and `max` values |
| IntervalTreeArray.TestTreeSearch | src/interval_tree.rs:151-155 | `overlap_search(6..=7)` on the test tree returns `[5, 20]` |
| IntervalTreeArray.TestTreeScenario | src/interval_tree.rs:151-161 | `overlap_search_works` and `len_works`: `len` is 6 and the search returns `[5, 20]` |
| IntervalTreeArray.MissedOverlap | src/interval_tree.rs:70-133 | after inserting `[10,11]`, `[5,6]`, `[7,100]`, searching `[50,60]` returns `None`, although `[7,100]` overlaps it |
| IntervalTreeArray.CorrectedFindsOverlap | src/interval_tree.rs:70-133 | with the corrected insert, the same search returns `[7,100]` |
| IntervalTreeEntryNode.NewEntry | src/interval_tree/node.rs:27-35 | the entry holds the converted interval and its data |
| IntervalTreeEntryNode.EntryFromPair | src/interval_tree/node.rs:43-48 | `(range, data)` converts like `Entry::new(range, data)` |
| IntervalTreeEntryNode.EntryFromRange | src/interval_tree/node.rs:56-61 | a bare range converts to an entry with `()` data |
| IntervalTreeEntryNode.FromIter | src/interval_tree/node.rs:92-110 | the loop builds the fold of the entries: it holds exactly them, is ordered, and keeps the own-max invariant |
| IntervalTreeEntryNode.EmptyEntries | src/interval_tree/node.rs:162-177 | each range becomes an entry with `()` data, in order |
| IntervalTreeEntryNode.EmptyEntriesAreRangeEntries | src/interval_tree/node.rs:162-177 | those entries are the bare intervals the plain tree stores |
| IntervalTreeEntryNode.FromRangesEmpty | src/interval_tree/node.rs:162-177 | the loop builds the fold of the ranges' entries, with the same guarantees as `FromIter` |
| IntervalTreeEntryNode.TestTreeScenario | src/interval_tree/node.rs:262-277 | the module test: `len` is 6 and `overlap_search(6..=7)` returns `[5, 20]` |
| IntervalTreeNodeOption.Unwrap | src/interval_tree/interval_tree_node.rs:35-40 | on `Some`, returns the wrapped node |
| IntervalTreeNodeOption.FromIter | src/interval_tree/interval_tree_node.rs:164-185 | `None` exactly for no entries; otherwise the built tree holds exactly the entries, is ordered, and keeps the own-max invariant |
| IntervalTreeNodeOption.TestTreeScenario | src/interval_tree/interval_tree_node.rs:203-219 | the module test: `len` is 6 and `overlap_search(6..=7)` returns `[5, 20]` |
| IntervalTreeNodeOption.EmptyScenario | src/interval_tree/interval_tree_node.rs:164-185 | collecting no entries gives `None` |
| InorderIterator.New | src/interval_tree/inorder_iterator.rs:19-24 | a fresh iterator starts at the root, in its initial state |
| InorderIterator.Next | src/interval_tree/inorder_iterator.rs:30-74 | yields the first node still to come and drops it from the rest; `None` once nothing remains |
| InorderIterator.CollectInorder | src/interval_tree/inorder_iterator.rs:116-128 | draining a fresh iterator yields the tree's nodes in order |
| InorderIterator.InorderNodesCarryEntries | src/interval_tree/inorder_iterator.rs:96-114 | the yielded nodes carry the in-order entries, and there are `len` of them |
| InorderIterator.NodesOfCount | src/interval_tree/inorder_iterator.rs:76-79 | an optional child yields as many nodes as its `len` |
| InorderIterator.YieldsByStart | src/interval_tree/inorder_iterator.rs:96-114 | on an ordered tree, the nodes come out by non-decreasing start |
| InorderIterator.SizeHint | src/interval_tree/inorder_iterator.rs:76-79 | as written, the hint is exact `(n, Some(n))` and correct only before the first `next` |
| InorderIterator.SizeHintOverstates | src/interval_tree/inorder_iterator.rs:76-79 | on a one-node tree, after `next` the hint still says 1 while nothing remains |
| InorderIterator.RemainingIsSuffix | src/interval_tree/inorder_iterator.rs:30-74 | whatever state a valid iterator is in, what it has still to yield is a tail of the whole in-order sequence |
| InorderIterator.SizeHintIgnoresProgress | src/interval_tree/inorder_iterator.rs:76-79 | for every valid iterator, the as-written hint equals a fresh iterator's, never undercounts, and is exact only while nothing has been yielded |
| InorderIterator.RemainingCount | src/interval_tree/inorder_iterator.rs:76-79 | the count of nodes still to come |
| InorderIterator.SizeHintCorrected | src/interval_tree/inorder_iterator.rs:76-79 | the corrected hint is exactly the number of nodes still to come |
| InorderIterator.TestScenario | src/interval_tree/inorder_iterator.rs:88-114 | `size_hint_works` and `iteration_works`: the hint is `(6, Some(6))` and iteration yields 6 nodes sorted by start |
| RExtent.New | src/rtree/extent.rs:27-30 | the extent has the given bounds (start not above end, a `debug_assert`) |
| RExtent.NewFromRange | src/rtree/extent.rs:37-44 | `a..=b` becomes the extent `[a, b]` |
| RExtent.Default | src/rtree/extent.rs:51-56 | the default extent is `[0, 1]` |
| RExtent.IntoRange | src/rtree/extent.rs:72-74 | the extent becomes the range with the same bounds |
| RExtent.ContainsOwnBounds | src/rtree/extent.rs:85-87 | an extent contains both its bounds |
| RExtent.ContainsExtentPreorder | src/rtree/extent.rs:94-97 | extent containment is reflexive and transitive |
| RExtent.ContainsExtentValues | src/rtree/extent.rs:85-97 | a value in a contained extent is in the containing one |
| RExtent.RangeInclusiveAgreesWithExtent | src/rtree/extent.rs:116-120 | containing a `RangeInclusive` is containing the extent it converts to |
| RExtent.RangeRoundTrip | src/rtree/extent.rs:37-74 | range to extent to range, and extent to range to extent, are identities |
| RExtent.ExtentExamples | src/rtree/extent.rs:146-247 | the module tests' constructions and containment cases |
| RExtent.RejectsOverhang | src/rtree/extent.rs:94-97 | an extent that sticks out on either side is not contained |
| RBoundingBox.New | src/rtree/bounding_box.rs:30-32 | the box has the given extents |
| RBoundingBox.Len | src/rtree/bounding_box.rs:52-54 | the number of dimensions |
| RBoundingBox.Default | src/rtree/bounding_box.rs:71-73 | every dimension is the default extent `[0, 1]` |
| RBoundingBox.NewFromRanges | src/rtree/bounding_box.rs:35-46 | dimension `i` is the extent of range `i` |
| RBoundingBox.Contains | src/rtree/bounding_box.rs:57-64 | true exactly when every dimension contains the other's; when false, a failing dimension exists |
| RBoundingBox.EnclosesReflexive | src/rtree/bounding_box.rs:57-64 | a box contains itself |
| RBoundingBox.EnclosesTransitive | src/rtree/bounding_box.rs:57-64 | box containment is transitive |
| RBoundingBox.Box2 | src/rtree/bounding_box.rs:81-83 | two ranges make the two-dimensional box of their extents |
| RBoundingBox.ContainsExamples | src/rtree/bounding_box.rs:125-133 | `contains_works`: one contained box and two that stick out |
| RBoundingBox.ConstructionScenario | src/rtree/bounding_box.rs:91-122 | ranges and extents build the same box, and the default has `[0, 1]` in every dimension |
| RNodeTraits.MaxFill | src/rtree/nodes/node_traits.rs:16 | `MAX_FILL` is `M` |
| RNodeTraits.MinFill | src/rtree/nodes/node_traits.rs:17 | `MIN_FILL` is `M / 2` rounded up |
| RNodeTraits.MinFillBoundary | src/rtree/nodes/node_traits.rs:29-31 | exactly `MIN_FILL` entries is not underfull, and one fewer is |
| RNodeTraits.FullIsNotUnderfull | src/rtree/nodes/node_traits.rs:21-31 | a full node is never underfull |
| RNodeTraits.Boxes | src/rtree/nodes/node_traits.rs:60-75 | a slice of `Borrow<BoundingBox>` elements is seen as the same number of boxes, element `i` giving box `i` |
| RNodeTraits.SliceContains | src/rtree/nodes/node_traits.rs:66-68 | a slice contains a box exactly when some element's box does |
| RNodeTraits.EmptySliceContainsNothing | src/rtree/nodes/node_traits.rs:66-68 | an empty slice contains no box |
| RNodeTraits.ToBb | src/rtree/nodes/node_traits.rs:70-74 | folding over an empty slice gives the default box |
| RNodeTraits.FoldGrowEncloses | src/rtree/nodes/node_traits.rs:70-74 | if `grow` encloses both its inputs, the fold encloses the start box and every element |
| RNodeTraits.ToBbEnclosesAll | src/rtree/nodes/node_traits.rs:70-74 | under the same assumption on `grow`, `to_bb` encloses every element's box |
| RLeaf.NewEntry | src/rtree/nodes/rtree_leaf.rs:65-67 | the record holds the id and the box |
| RLeaf.RTreeLeaf.constructor | src/rtree/nodes/rtree_leaf.rs:75-79 | a default leaf has capacity `M` and no records |
| RLeaf.RTreeLeaf.InsertEntry | src/rtree/nodes/rtree_leaf.rs:109-115 | appends exactly when fewer than `M` records are stored, otherwise leaves the leaf unchanged, and reports which |
| RLeaf.RTreeLeaf.Insert | src/rtree/nodes/rtree_leaf.rs:97-99 | the same, for a record built from the id and the box |
| RLeaf.RTreeLeaf.Contains | src/rtree/nodes/rtree_leaf.rs:125-128 | true exactly when some record's box contains the other box |
| RLeaf.RTreeLeaf.Len | src/rtree/nodes/rtree_leaf.rs:151-153 | the number of records |
| RLeaf.RTreeLeaf.IsEmpty | src/rtree/nodes/rtree_leaf.rs:157-159 | true exactly when there are no records |
| RLeaf.RTreeLeaf.IsLeaf | src/rtree/nodes/rtree_leaf.rs:145-147 | a leaf is always a leaf |
| RLeaf.InsertScenario | src/rtree/nodes/rtree_leaf.rs:97-115 | with `M = 2`, two inserts succeed, a third is refused, and the length is 2 |
| RLeaf.DefaultScenario | src/rtree/nodes/rtree_leaf.rs:75-79 | a default leaf is empty and contains no box |
| RNode.ChildBoxes | src/rtree/nodes/rtree_node.rs:139-155 | the boxes the variant's child pointers carry |
| RNode.PointerContains | src/rtree/nodes/rtree_node.rs:65-67 | a child pointer contains a box exactly when its own box contains it in every dimension |
| RNode.Len | src/rtree/nodes/rtree_node.rs:124-129 | the number of child pointers of either variant |
| RNode.IsEmpty | src/rtree/nodes/rtree_node.rs:132-137 | true exactly when there are no child pointers |
| RNode.Contains | src/rtree/nodes/rtree_node.rs:139-144 | true exactly when some child's box contains the other box |
| RNode.IsLeaf | src/rtree/nodes/rtree_node.rs:158-163 | true exactly for the `Leaf` variant |
| RNode.ToBbOf | src/rtree/nodes/rtree_node.rs:146-155 | with no children, the fold gives the default box |
| RNode.ToBbOfEnclosesChildren | src/rtree/nodes/rtree_node.rs:146-155 | if `grow` encloses its inputs, the node's box encloses every child's box |
| RNode.Default | src/rtree/nodes/rtree_node.rs:75-79 | the default node is an empty leaf, within every capacity `M` |
| RNode.LenWithinCapacity | src/rtree/nodes/rtree_node.rs:33-41 | a node whose `ArrayVec`s respect `M` has at most `M` children and is full exactly when it has `M` |
| RNode.NodeLen | src/rtree/nodes/rtree_node.rs:109-111 | `RTreeNode::len` is the number of child boxes |
| RNode.NodeIsEmpty | src/rtree/nodes/rtree_node.rs:114-116 | `RTreeNode::is_empty` holds exactly when there are no child boxes |
| RNode.NodeContains | src/rtree/nodes/rtree_node.rs:88-90 | `RTreeNode::contains` is the slice test over the child boxes |
| RNode.NodeIsLeaf | src/rtree/nodes/rtree_node.rs:104-106 | `RTreeNode::is_leaf` holds exactly for the `Leaf` variant |
| RNode.NodeToBb | src/rtree/nodes/rtree_node.rs:93-95 | `RTreeNode::to_bb` is the slice fold over the child boxes |
| RNode.DefaultIsEmptyLeaf | src/rtree/nodes/rtree_node.rs:75-116 | the default node is an empty leaf, contains nothing, and is full only when `M` is 0 |
| RLeafNode.NewEntry | src/rtree/nodes/leaf_node.rs:40-42 | the entry holds the id and the box |
| RLeafNode.EntryToBb | src/rtree/nodes/leaf_node.rs:153-155 | an entry's box |
| RLeafNode.GrowOver | src/rtree/nodes/node_traits.rs:70-74 | the loop computes the `to_bb` fold |
| RLeafNode.LeafNode.constructor | src/rtree/nodes/leaf_node.rs:171-176 | the default leaf has no entries and the default box |
| RLeafNode.LeafNode.IsFull | src/rtree/nodes/leaf_node.rs:54-56 | at least `M` entries |
| RLeafNode.LeafNode.IsOverfull | src/rtree/nodes/leaf_node.rs:62-64 | more than `M` entries |
| RLeafNode.LeafNode.IsUnderfull | src/rtree/nodes/leaf_node.rs:68-70 | fewer than `MIN_FILL` entries |
| RLeafNode.LeafNode.Len | src/rtree/nodes/leaf_node.rs:114-116 | the number of entries |
| RLeafNode.LeafNode.IsEmpty | src/rtree/nodes/leaf_node.rs:120-122 | true exactly when there are no entries |
| RLeafNode.LeafNode.Contains | src/rtree/nodes/leaf_node.rs:126-128 | tests the node's own box; when that box covers the entries, any box an entry contains is reported |
| RLeafNode.LeafNode.UpdateBoundingBox | src/rtree/nodes/leaf_node.rs:73-79 | the box becomes the fold over the entries, which then covers every entry |
| RLeafNode.LeafNode.Insert | src/rtree/nodes/leaf_node.rs:86-90 | requires the node not to be overfull; grows the box by the new box, appends the entry, and keeps the box covering the entries |
| RLeafNode.LeafNode.InsertUnchecked | src/rtree/nodes/leaf_node.rs:101-105 | the same without the check, reporting whether the node is still within `M` |
| RLeafNode.LeafNode.Push | src/rtree/nodes/leaf_node.rs:86-90 | the grow-and-append step shared by both inserts |
| RTree.LeafLen | src/rtree/rtree.rs:201-203 | the number of entries |
| RTree.LeafFillAgreesWithTraits | src/rtree/rtree.rs:213-221 | the leaf's full and underfull tests agree with the node traits, and a full leaf is never underfull |
| RTree.Len | src/rtree/rtree.rs:277-282 | a leaf's entries, or a non-leaf's children |
| RTree.IsEmpty | src/rtree/rtree.rs:286-291 | true exactly when the length is 0 |
| RTree.BbRef | src/rtree/rtree.rs:313-318 | the variant's own box |
| RTree.Contains | src/rtree/rtree.rs:295-300 | true exactly when the entry's own box contains the other box in every dimension |
| RTree.ChildBoxes | src/rtree/rtree.rs:262-268 | the children's boxes, in order |
| RTree.UpdateBoundingBox | src/rtree/rtree.rs:304-309 | the box becomes the fold over the entries or children, and then covers each of them |
| RTree.Default | src/rtree/rtree.rs:75-83 | the default tree's root is an empty leaf with the default box |
| RTree.FirstContaining | src/rtree/rtree.rs:100-111 | the first child whose box contains the new box, or none when no child does |
| RTree.UnderPrefixed | src/rtree/rtree.rs:91-130 | descending through child `c` and then along a path is descending along `c` followed by that path |
| RTree.Insert | src/rtree/rtree.rs:91-130 | the stack loop follows the recursive descent: it stops at a non-leaf with no containing child, or reaches the leaf's `todo!()`, after pushing when the leaf contains the box |
| RTree.DescentReachesLeaf | src/rtree/rtree.rs:91-130 | when the descent reaches a leaf, its path leads to that leaf through nodes that all contain the new box, and it pushed exactly when the leaf contains the box |
| RTree.DescentTakesFirstChild | src/rtree/rtree.rs:100-111 | at a non-leaf, the descent continues in the first containing child |
| RTree.NoContainingChildReturns | src/rtree/rtree.rs:100-116 | at a non-leaf with no containing child, the descent stops |
| RTree.DefaultInsertReachesTodo | src/rtree/rtree.rs:75-130 | inserting into the default tree reaches the root leaf's `todo!()` |
| RTree.InsertScenario | src/rtree/rtree.rs:333-339 | `insert_works`: the default tree is empty, and the insert reaches the leaf's `todo!()` without pushing |
| LinearSplitCore.DecideGroup | src/rtree/splitting_strategies/linear_cost_split.rs:136-167 | a smaller area increase wins, then a smaller grown area, then the group with fewer entries; a full tie goes right |
| LinearSplitCore.DecideGroupSwap | src/rtree/splitting_strategies/linear_cost_split.rs:136-167 | swapping the two groups swaps the decision, except on a full tie, which goes right both ways |
| LinearSplitCore.HighestLow | src/rtree/linear_cost_split.rs:94-114 | the scan of the start coordinates picks an index among those scanned, or keeps index 0 |
| LinearSplitCore.HighestLowIsMaximum | src/rtree/linear_cost_split.rs:94-114 | the result is the largest start (at least `min_value`), taken from the first entry that reaches it, or the initial `(min_value, 0)` |
| LinearSplitCore.LowestHigh | src/rtree/linear_cost_split.rs:94-114 | the scan of the end coordinates picks an index among those scanned, or keeps index 0 |
| LinearSplitCore.LowestHighIsMinimum | src/rtree/linear_cost_split.rs:94-114 | the result is the smallest end (at most `max_value`), taken from the first entry that reaches it, or the initial `(max_value, 0)` |
| LinearSplitCore.Separation | src/rtree/linear_cost_split.rs:127-129 | the makeshift `abs`: a non-negative difference of the two values |
| LinearSplitCore.SelectAsWritten | src/rtree/linear_cost_split.rs:116-137 | as written, the selection over the dimensions picks indexes within the set |
| LinearSplitCore.SelectNormalized | src/rtree/linear_cost_split.rs:116-137 | corrected, the selection that stores the normalized separation picks indexes within the set |
| LinearSplitCore.SelectNormalizedIsMaximum | src/rtree/linear_cost_split.rs:116-137 | the corrected selection is the largest normalized separation over the dimensions, with that dimension's two extremes, or the initial choice |
| LinearSplitCore.Ordered | src/rtree/linear_cost_split.rs:139-142 | the two seeds, smaller index first |
| LinearSplitCore.VisitEntry | src/rtree/linear_cost_split.rs:98-113 | the dimension loop extends both extreme scans by one entry |
| LinearSplitCore.FindExtremes | src/rtree/linear_cost_split.rs:93-114 | the nested loops compute every dimension's highest start and lowest end |
| LinearSplitCore.LinearPickSeeds | src/rtree/linear_cost_split.rs:86-143 | returns the as-written selection, ordered, and the two seeds differ |
| LinearSplitCore.LinearPickSeedsNormalized | src/rtree/linear_cost_split.rs:86-143 | returns the corrected selection, ordered, and the two seeds differ |
| LinearSplitCore.Step | src/rtree/linear_cost_split.rs:36-74 | one popped entry joins exactly one group, and the other group is untouched |
| LinearSplitCore.AssignPartitions | src/rtree/linear_cost_split.rs:36-74 | the assignment loop puts every remaining entry into exactly one group, and only appends |
| LinearSplitCore.RemoveAt | src/rtree/linear_cost_split.rs:26-27 | `Vec::remove` shifts the later elements down and drops exactly one element |
| LinearSplitCore.SplitGroupsPartition | src/rtree/linear_cost_split.rs:20-83 | the two groups partition the entries: each starts with its seed and neither is empty |
| LinearSplitCore.RawSeparationPicksWrongPair | src/rtree/linear_cost_split.rs:131-136 | on three boxes, the as-written seeds are (0, 1) but the largest normalized separation gives (0, 2) |
| LinearCostSplitV1.Split | src/rtree/linear_cost_split.rs:20-83 | the node keeps the first group and its box and returns the second as a fresh leaf; together they are exactly the old entries, each non-empty |
| LinearCostSplitV1.AssignRemaining | src/rtree/linear_cost_split.rs:36-74 | the pop loop empties the node's entries and produces the greedy assignment |
| LinearCostSplitV2.Seeds | src/rtree/splitting_strategies/linear_cost_split.rs:71-129 | the seed pair, ordered, within the entries |
| LinearCostSplitV2.Split | src/rtree/splitting_strategies/linear_cost_split.rs:15-58 | drains the vector into two groups that start with the two seeds and together are exactly the entries |
| LinearSplitScenario.TestSeeds | src/rtree/linear_cost_split.rs:150-167 | on `split_works`' four boxes, the as-written selection picks entries 0 and 2 |
| LinearSplitScenario.FirstStep | src/rtree/linear_cost_split.rs:36-50 | entry 3 is popped first and joins entry 0's group |
| LinearSplitScenario.SecondStep | src/rtree/linear_cost_split.rs:36-50 | entry 1 then joins entry 2's group |
| LinearSplitScenario.TestGroups | src/rtree/linear_cost_split.rs:150-167 | the groups are `[0, 3]` and `[2, 1]` |
| LinearSplitScenario.FillTestNode | src/rtree/linear_cost_split.rs:150-155 | four inserts into a default `LeafNode<_, 2, 3>` give the test entries and their union box |
| LinearSplitScenario.TestSplit | src/rtree/linear_cost_split.rs:150-167 | the as-written selection, the seed order, and the groups of the test |
| LinearSplitScenario.SplitInPlaceScenario | src/rtree/linear_cost_split.rs:150-167 | `split_works`: the node keeps ids 0 and 3 and the new leaf gets 2 and 1 |
| LinearSplitScenario.TestSplitResult | src/rtree/splitting_strategies/linear_cost_split.rs:174-191 | the same seeds through `to_bb` |
| LinearSplitScenario.SplitResultScenario | src/rtree/splitting_strategies/linear_cost_split.rs:174-191 | `split_works`: the first group is ids 0 and 3, the second is 2 and 1, and the vector is drained |

## Left out

- I/O, `Debug`/`Display` formatting (`fmt`), and the `Borrow`/`AsRef`
  plumbing that only changes how a value is reached.
- Floating point: R-tree coordinates are exact `real`s. Rounding, NaN and
  infinities are not modelled.
- The bodies of `grow`, `into_grown`, `get_grown`, `area` and `Extent::len`
  (and so `area_increase`). They are not part of this model. They are
  passed in as functions, and the lemmas that need `grow` to enclose its
  inputs say so as a hypothesis. The split scenario supplies a concrete
  two-dimensional union and area.
- `T::min_value()` and `T::max_value()` are parameters. The scenarios
  require only that they lie below and above every coordinate used.
- RTree.Insert: the work after the descent is `todo!()` in the source and
  is returned as an outcome. This covers choosing a leaf by least growth,
  the split, and adjusting the tree. The nested `choose_leaf`,
  `adjust_tree` and `split_node` are `todo!()` stubs and are not modelled.
  The leaf `push` before the `todo!()` is recorded in the outcome rather
  than applied to the tree.
- `NonLeafNode` of `src/rtree/nodes/non_leaf_node.rs` and the
  `SplittingStrategy` traits are not part of this model, beyond the
  `NodeChildEntry` variants that `rtree.rs` itself declares.
- Interval trees, R-tree nodes and the in-order iterator are values.
  In-place mutation through `&mut Box` becomes building a new node. The
  iterator's `next` returns the advanced iterator. Aliasing cannot arise,
  because every `Box` has a single owner.
- LinearCostSplitV2.Split: the `&mut Vec` argument is taken by value, and
  its final, drained state comes back as `drained`.
- QuadFreeList.FreeList.Clear: the `ManuallyDrop` bookkeeping has no
  logical effect, so it is left out. This covers which slots get their
  element dropped. With the code as written, `erase` leaves at most one
  slot on the chain, so the ascending sort and the comparison against
  `last()` skip exactly the free slots. Under the corrected
  `EraseLinked`, the chain can hold several slots, and that loop would
  skip only the largest one and drop the other free slots' contents a
  second time. The corrected erase therefore needs `clear` to sort the
  free indexes in descending order (or to test membership) as well.
- RNode.Len: the at-most-`M` bound of the two `ArrayVec<_, M>` variants
  is a type-level guarantee. It is stated as `WithinCapacity`, proved for
  `Default` and used by `LenWithinCapacity`, but it is not carried as an
  invariant of the `NodeData` datatype, since no modelled operation adds
  child pointers to an `RTreeNode`.
- QuadFreeList.FreeList.Insert: the new index is `len - 1` cast to `u32`.
  The cast is written out as `% 2^32`, and a capacity beyond `u32::MAX`
  is not otherwise ruled out.
- `debug_assert!` and `assert_ne!` checks are preconditions, so the model
  does not distinguish debug from release builds.
- CenteredAabb.ExploreQuadrantsGeneric: the conversion to `QuadRect` and
  the caller's intersection test are passed in as a predicate on the
  probe box.
- The quadtree's `quadtree.rs`, `node_info.rs`, `quad_rect.rs`, `point.rs`
  and `quadtree_element.rs` are not part of this model. Nor are the ray
  intersections, the benchmarks and the examples.

## Findings

| source | as written | input that shows it | evidently intended | confidence | as-written member | corrected member |
|---|---|---|---|---|---|---|
| src/quadtree/quadrants.rs:84-91 | `bottom_left` and `bottom_right` compare the masked code with 5 and 6, which a single-bit mask can never equal | a code with only bit 3 (or 4) set: `at(3)` is true, `bottom_left()` is false | compare with 8 and 16, i.e. read bits 3 and 4 | not executed | Quadrants.BottomAccessorsDisagreeWithAt | Quadrants.BottomLeftCorrected |
| src/quadtree/quadrants.rs:33-54 | the "this node" bit is set for only four of the six pairs of touched quadrants | top-right and bottom-left (or bottom-left and bottom-right) touched: `mutation_index` is 5 (or 7), not a child slot | set the bit whenever two or more quadrants are touched | not executed | Quadrants.FromIntersectionsMissesPairs | Quadrants.FromIntersectionsCorrectedSlot |
| src/quadtree/centered_aabb.rs:64-89 | the top-right, bottom-left and bottom-right probe boxes start at `cx + hx` / `cy + hy`, a half-size beyond the centre | node centre (0,0) size 4x4, query point (1,-1): no quadrant reported | probe the four quarters that meet at the centre | not executed | CenteredAabb.ProbeBoxesMissTopRight | CenteredAabb.ProbeBoxesCorrectedFindTopRight |
| src/quadtree/free_list.rs:66-77 | `erase` resets `first_free` to `SENTINEL` before linking the slot, so the chain holds only the latest freed slot | insert twice, erase 0, erase 1: slot 0 can never be reused, and the next inserts grow the list to 3 slots | link the slot in front of the existing chain | not executed | QuadFreeList.EraseLeaksFreedSlot | QuadFreeList.EraseLinkedReusesFreedSlots |
| src/interval_tree.rs:70-106 | insert raises each ancestor's `max` only to the ancestor's own end, never to the inserted interval's end (the same in src/interval_tree/node.rs:185-221 and src/interval_tree/interval_tree_node.rs:79-115) | insert `[10,11]`, `[5,6]`, `[7,100]`; search `[50,60]`: `None`, though `[7,100]` overlaps | raise `max` to the inserted subtree's largest end | not executed | IntervalTreeArray.MissedOverlap | IntervalSearchTree.BuildCorrectedSearchComplete |
| src/rtree/linear_cost_split.rs:131-136 | `highest_separation` stores the raw separation but is compared with normalized separations (the same at src/rtree/splitting_strategies/linear_cost_split.rs:117-122) | boxes x[0,10] y[0,2], x[30,100] y[0,3], x[5,20] y[6,10] in area x[0,100] y[0,10]: seeds (0,1), though dimension y separates best, giving (0,2) | store the normalized separation | not executed | LinearSplitCore.RawSeparationPicksWrongPair | LinearSplitCore.SelectNormalizedIsMaximum |
| src/interval_tree/inorder_iterator.rs:76-79 | `size_hint` returns `(root.len(), Some(root.len()))` however far the iteration has gone | a one-node tree after one `next`: hint 1, nothing left | report the number of nodes still to come | not executed | InorderIterator.SizeHintIgnoresProgress | InorderIterator.SizeHintCorrected |

/**
 * The `split_works` tests of both linear-cost splits, run on a concrete
 * instantiation of the growth functions the model leaves open: growing
 * is the per-dimension union, area is the product of the extents'
 * lengths, and `T::min_value()`/`T::max_value()` are any values below
 * and above every coordinate.
 */
module LinearSplitScenario {
  import opened RExtent
  import opened RBoundingBox
  import opened RLeafNode
  import RNodeTraits
  import opened LinearSplitCore
  import LinearCostSplitV1
  import LinearCostSplitV2

  function Lesser(a: real, b: real): (r: real)
    ensures r <= a && r <= b && (r == a || r == b)
  {
    if a <= b then a else b
  }

  function Greater(a: real, b: real): (r: real)
    ensures r >= a && r >= b && (r == a || r == b)
  {
    if a >= b then a else b
  }

  /** The smallest box containing two two-dimensional boxes. */
  function Union2(a: BoundingBox, b: BoundingBox): (u: BoundingBox)
  {
    if |a.dims| == 2 && |b.dims| == 2 then
      BoundingBox([Extent(Lesser(a.dims[0].start, b.dims[0].start), Greater(a.dims[0].end, b.dims[0].end)),
                   Extent(Lesser(a.dims[1].start, b.dims[1].start), Greater(a.dims[1].end, b.dims[1].end))])
    else a
  }

  /** Growing by union contains both boxes, as `GrowEncloses` asks. */
  lemma Union2Encloses(a: BoundingBox, b: BoundingBox)
    requires |a.dims| == 2 && |b.dims| == 2
    ensures Encloses(Union2(a, b), a) && Encloses(Union2(a, b), b)
  {
  }

  /** The area of a two-dimensional box. */
  function Area2(b: BoundingBox): real
  {
    if |b.dims| == 2 then ExtentWidth(b.dims[0]) * ExtentWidth(b.dims[1]) else 0.0
  }

  /** `get_grown` for this instantiation. */
  function GrownByUnion(a: BoundingBox, b: BoundingBox): BoxAndArea
  {
    var g := Union2(a, b);
    BoxAndArea(g, Area2(g), Area2(g) - Area2(a))
  }

  function Box(x0: real, x1: real, y0: real, y1: real): BoundingBox
  {
    BoundingBox([Extent(x0, x1), Extent(y0, y1)])
  }

  /** The four entries of `split_works`: two wide, two tall. */
  function TestEntries(): seq<Entry>
  {
    [E0(), E1(), E2(), E3()]
  }

  /** The default box `[0, 1] x [0, 1]` grown by the four entries. */
  function TestArea(): BoundingBox
  {
    Box(0.0, 145.0, 0.0, 148.0)
  }

  /** The x-dimension separates entry 0 (lowest end, 68) from entry 2 (highest start, 82) best. */
  lemma TestSeeds(minValue: real, maxValue: real)
    requires minValue < 0.0 && maxValue > 148.0
    ensures SeedInputs(EntryBoxes(TestEntries()), 2, TestArea(), ExtentWidth)
    ensures SelectAsWritten(EntryBoxes(TestEntries()), 2, TestArea(), ExtentWidth, 2, minValue, maxValue) == Choice(14.0, 0, 2)
  {
    var boxes := EntryBoxes(TestEntries());
    assert boxes == [Box(16.0, 68.0, 23.0, 35.0), Box(55.0, 68.0, 12.0, 148.0),
                     Box(82.0, 94.0, 12.0, 148.0), Box(82.0, 145.0, 30.0, 42.0)];
    assert RNodeTraits.AllDims(boxes, 2);
    assert AreaWellFormed(TestArea(), 2, ExtentWidth);
    assert HighestLow(boxes, 2, 0, 1, minValue) == Extreme(16.0, 0);
    assert HighestLow(boxes, 2, 0, 2, minValue) == Extreme(55.0, 1);
    assert HighestLow(boxes, 2, 0, 3, minValue) == Extreme(82.0, 2);
    assert HighestLow(boxes, 2, 0, 4, minValue) == Extreme(82.0, 2);
    assert LowestHigh(boxes, 2, 0, 1, maxValue) == Extreme(68.0, 0);
    assert LowestHigh(boxes, 2, 0, 2, maxValue) == Extreme(68.0, 0);
    assert LowestHigh(boxes, 2, 0, 3, maxValue) == Extreme(68.0, 0);
    assert LowestHigh(boxes, 2, 0, 4, maxValue) == Extreme(68.0, 0);
    assert HighestLow(boxes, 2, 1, 1, minValue) == Extreme(23.0, 0);
    assert HighestLow(boxes, 2, 1, 2, minValue) == Extreme(23.0, 0);
    assert HighestLow(boxes, 2, 1, 3, minValue) == Extreme(23.0, 0);
    assert HighestLow(boxes, 2, 1, 4, minValue) == Extreme(30.0, 3);
    assert LowestHigh(boxes, 2, 1, 1, maxValue) == Extreme(35.0, 0);
    assert LowestHigh(boxes, 2, 1, 2, maxValue) == Extreme(35.0, 0);
    assert LowestHigh(boxes, 2, 1, 3, maxValue) == Extreme(35.0, 0);
    assert LowestHigh(boxes, 2, 1, 4, maxValue) == Extreme(35.0, 0);
    assert NormalizedAt(boxes, 2, TestArea(), ExtentWidth, 0, minValue, maxValue) == 14.0 / 145.0;
    assert NormalizedAt(boxes, 2, TestArea(), ExtentWidth, 1, minValue, maxValue) == 5.0 / 148.0;
    assert SelectAsWritten(boxes, 2, TestArea(), ExtentWidth, 1, minValue, maxValue) == Choice(14.0, 0, 2);
  }

  function E0(): Entry { Entry(Box(16.0, 68.0, 23.0, 35.0), 0) }
  function E1(): Entry { Entry(Box(55.0, 68.0, 12.0, 148.0), 1) }
  function E2(): Entry { Entry(Box(82.0, 94.0, 12.0, 148.0), 2) }
  function E3(): Entry { Entry(Box(82.0, 145.0, 30.0, 42.0), 3) }

  /** Entry 3 is popped first and joins entry 0: area increase 1827 against 6936. */
  lemma FirstStep()
    ensures Step(Groups(E0().bb, [E0()], E2().bb, [E2()]), E3(), EntryToBb, GrownByUnion)
         == Groups(Box(16.0, 145.0, 23.0, 42.0), [E0(), E3()], E2().bb, [E2()])
  {
    assert GrownByUnion(E0().bb, E3().bb) == BoxAndArea(Box(16.0, 145.0, 23.0, 42.0), 2451.0, 1827.0);
    assert GrownByUnion(E2().bb, E3().bb) == BoxAndArea(Box(82.0, 145.0, 12.0, 148.0), 8568.0, 6936.0);
  }

  /** Entry 1 then joins entry 2: area increase 15093 against 3672. */
  lemma SecondStep()
    ensures Step(Groups(Box(16.0, 145.0, 23.0, 42.0), [E0(), E3()], E2().bb, [E2()]), E1(), EntryToBb, GrownByUnion)
         == Groups(Box(16.0, 145.0, 23.0, 42.0), [E0(), E3()], Box(55.0, 94.0, 12.0, 148.0), [E2(), E1()])
  {
    assert GrownByUnion(Box(16.0, 145.0, 23.0, 42.0), E1().bb) == BoxAndArea(Box(16.0, 145.0, 12.0, 148.0), 17544.0, 15093.0);
    assert GrownByUnion(E2().bb, E1().bb) == BoxAndArea(Box(55.0, 94.0, 12.0, 148.0), 5304.0, 3672.0);
  }

  /** With seeds 0 and 2 the first group holds entries 0 and 3, the second entries 2 and 1. */
  lemma TestGroups()
    ensures var g := SplitGroups(TestEntries(), 0, 2, EntryToBb, GrownByUnion);
      g.groupA == [E0(), E3()] && g.groupB == [E2(), E1()]
  {
    var es := TestEntries();
    assert es == [E0(), E1(), E2(), E3()];
    assert RemoveAt(RemoveAt(es, 2), 0) == [E1(), E3()];
    AssignPair(E1(), E3(), Groups(E0().bb, [E0()], E2().bb, [E2()]), EntryToBb, GrownByUnion);
    FirstStep();
    SecondStep();
  }

  /** Two entries left: the last is popped and assigned first. */
  lemma AssignPair<E>(x: E, y: E, g: Groups<E>, boxOf: E -> BoundingBox, getGrown: (BoundingBox, BoundingBox) -> BoxAndArea)
    ensures Assign([x, y], g, boxOf, getGrown) == Step(Step(g, y, boxOf, getGrown), x, boxOf, getGrown)
  {
    var g1 := Step(g, y, boxOf, getGrown);
    assert [x, y][..1] == [x] && [x][..0] == [];
    assert Assign([x, y], g, boxOf, getGrown) == Assign([x], g1, boxOf, getGrown);
    assert Assign([x], g1, boxOf, getGrown) == Assign([], Step(g1, x, boxOf, getGrown), boxOf, getGrown);
  }

  /** The ids of a sequence of entries, in order. */
  function Ids(entries: seq<Entry>): (ids: seq<nat>)
    ensures |ids| == |entries|
  {
    if entries == [] then [] else [entries[0].id] + Ids(entries[1..])
  }

  lemma TestIds()
    ensures Ids([E0(), E3()]) == [0, 3] && Ids([E2(), E1()]) == [2, 1]
  {
    assert [E0(), E3()][1..] == [E3()] && [E2(), E1()][1..] == [E1()];
  }

  /** The four inserts of `split_works` into a leaf of capacity three. */
  method FillTestNode() returns (node: LeafNode)
    ensures fresh(node)
    ensures node.capacity == 3 && node.dims == 2
    ensures node.entries == TestEntries() && node.bb == TestArea()
  {
    node := new LeafNode(3, 2);
    var es := TestEntries();
    node.Insert(0, es[0].bb, Union2);
    node.Insert(1, es[1].bb, Union2);
    node.Insert(2, es[2].bb, Union2);
    node.Insert(3, es[3].bb, Union2);
    assert node.entries == es;
  }

  /** The seeds and the groups of `split_works`, for any inputs equal to the test's. */
  lemma TestSplit(entries: seq<Entry>, area: BoundingBox, n: nat, minValue: real, maxValue: real)
    requires entries == TestEntries() && area == TestArea() && n == 2
    requires minValue < 0.0 && maxValue > 148.0
    ensures SeedInputs(EntryBoxes(entries), n, area, ExtentWidth)
    ensures SelectAsWritten(EntryBoxes(entries), n, area, ExtentWidth, n, minValue, maxValue) == Choice(14.0, 0, 2)
    ensures Ordered(SelectAsWritten(EntryBoxes(entries), n, area, ExtentWidth, n, minValue, maxValue)) == (0, 2)
    ensures SplitGroups(entries, 0, 2, EntryToBb, GrownByUnion).groupA == [E0(), E3()]
    ensures SplitGroups(entries, 0, 2, EntryToBb, GrownByUnion).groupB == [E2(), E1()]
    ensures Ids([E0(), E3()]) == [0, 3] && Ids([E2(), E1()]) == [2, 1]
  {
    TestSeeds(minValue, maxValue);
    TestGroups();
    TestIds();
  }

  /** `split_works` for the in-place split: the old node keeps ids 0 and 3, the new one gets 2 and 1. */
  method SplitInPlaceScenario(minValue: real, maxValue: real) returns (kept: seq<nat>, moved: seq<nat>)
    requires minValue < 0.0 && maxValue > 148.0
    ensures kept == [0, 3] && moved == [2, 1]
  {
    var node := FillTestNode();
    TestSplit(node.entries, node.bb, node.dims, minValue, maxValue);
    var newNode := LinearCostSplitV1.Split(node, GrownByUnion, ExtentWidth, minValue, maxValue);
    kept := Ids(node.entries);
    moved := Ids(newNode.entries);
  }

  /** The same facts in the terms the split returning a `SplitResult` is stated in. */
  lemma TestSplitResult(minValue: real, maxValue: real)
    requires minValue < 0.0 && maxValue > 148.0
    ensures SeedInputs(RNodeTraits.Boxes(TestEntries(), EntryToBb), 2, TestArea(), ExtentWidth)
    ensures SelectAsWritten(RNodeTraits.Boxes(TestEntries(), EntryToBb), 2, TestArea(), ExtentWidth, 2, minValue, maxValue).bestA == 0
    ensures SelectAsWritten(RNodeTraits.Boxes(TestEntries(), EntryToBb), 2, TestArea(), ExtentWidth, 2, minValue, maxValue).bestB == 2
    ensures LinearCostSplitV2.Seeds(TestEntries(), EntryToBb, TestArea(), ExtentWidth, 2, minValue, maxValue) == (0, 2)
  {
    assert RNodeTraits.Boxes(TestEntries(), EntryToBb) == EntryBoxes(TestEntries());
    TestSeeds(minValue, maxValue);
  }

  /** `split_works` for the split returning a `SplitResult`: `first` holds ids 0 and 3, `second` 2 and 1. */
  method SplitResultScenario(minValue: real, maxValue: real) returns (first: seq<nat>, second: seq<nat>, drained: seq<Entry>)
    requires minValue < 0.0 && maxValue > 148.0
    ensures first == [0, 3] && second == [2, 1] && drained == []
  {
    TestSplitResult(minValue, maxValue);
    TestGroups();
    TestIds();
    var result;
    result, drained := LinearCostSplitV2.Split(TestArea(), TestEntries(), EntryToBb, GrownByUnion, ExtentWidth, 2, minValue, maxValue);
    first := Ids(result.first.entries);
    second := Ids(result.second.entries);
  }
}

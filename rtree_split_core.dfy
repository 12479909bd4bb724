/**
 * What the two linear-cost splits share (src/rtree/linear_cost_split.rs
 * and src/rtree/splitting_strategies/linear_cost_split.rs): Guttman's
 * linear seed picking, the three-level tie-break, and the greedy
 * assignment of the remaining entries, each stated as a function that the
 * split methods are proved against.
 *
 * `get_grown`, `area`, `area_increase` and `Extent::len` are not part of
 * this model; they arrive as the parameters `getGrown` and `width`.
 * `T::min_value()` and `T::max_value()` arrive as `minValue`/`maxValue`.
 */
module LinearSplitCore {
  import opened RExtent
  import opened RBoundingBox
  import opened RNodeTraits

  /** `BoxAndArea`: a grown box, its area, and how much the area grew. */
  datatype BoxAndArea = BoxAndArea(bb: BoundingBox, area: real, areaIncrease: real)

  datatype Decision = Left | Right

  /**
   * `decide_group`: the smaller area increase wins, then the smaller grown
   * area, then the group with fewer entries; a complete tie goes right.
   */
  function DecideGroup(a: BoxAndArea, b: BoxAndArea, aCount: nat, bCount: nat): (d: Decision)
    ensures a.areaIncrease < b.areaIncrease ==> d == Left
    ensures a.areaIncrease > b.areaIncrease ==> d == Right
    ensures a.areaIncrease == b.areaIncrease && a.area < b.area ==> d == Left
    ensures a.areaIncrease == b.areaIncrease && a.area > b.area ==> d == Right
    ensures a.areaIncrease == b.areaIncrease && a.area == b.area ==> (d == Left <==> aCount < bCount)
  {
    if a.areaIncrease < b.areaIncrease then Left
    else if a.areaIncrease > b.areaIncrease then Right
    else if a.area < b.area then Left
    else if a.area > b.area then Right
    else if aCount < bCount then Left
    else Right
  }

  /** Swapping the two candidates swaps the decision, except on a complete tie, which goes right both ways. */
  lemma DecideGroupSwap(a: BoxAndArea, b: BoxAndArea, aCount: nat, bCount: nat)
    ensures a.areaIncrease == b.areaIncrease && a.area == b.area && aCount == bCount ==>
              DecideGroup(a, b, aCount, bCount) == Right && DecideGroup(b, a, bCount, aCount) == Right
    ensures !(a.areaIncrease == b.areaIncrease && a.area == b.area && aCount == bCount) ==>
              (DecideGroup(a, b, aCount, bCount) == Left <==> DecideGroup(b, a, bCount, aCount) == Right)
  {
  }

  // ----- Seed picking -----

  /** The entry found so far in one dimension: its coordinate and index. */
  datatype Extreme = Extreme(value: real, index: nat)

  /** The highest start coordinate in dimension `d` among the first `k` boxes, the first such box winning. */
  function HighestLow(boxes: seq<BoundingBox>, n: nat, d: nat, k: nat, minValue: real): (r: Extreme)
    requires AllDims(boxes, n) && d < n && k <= |boxes|
    ensures r.index == 0 || r.index < k
    decreases k
  {
    if k == 0 then Extreme(minValue, 0)
    else
      var p := HighestLow(boxes, n, d, k - 1, minValue);
      var s := boxes[k - 1].dims[d].start;
      if s > p.value then Extreme(s, k - 1) else p
  }

  /**
   * `HighestLow` is the maximum of `minValue` and the starts seen, and it
   * names the first box attaining it (or the initial pair if none exceeds
   * `minValue`).
   */
  lemma {:induction false} HighestLowIsMaximum(boxes: seq<BoundingBox>, n: nat, d: nat, k: nat, minValue: real)
    requires AllDims(boxes, n) && d < n && k <= |boxes|
    ensures var r := HighestLow(boxes, n, d, k, minValue);
      r.value >= minValue &&
      (forall j :: 0 <= j < k ==> boxes[j].dims[d].start <= r.value) &&
      ((r == Extreme(minValue, 0)) ||
       (r.index < k && r.value == boxes[r.index].dims[d].start &&
        forall j :: 0 <= j < r.index ==> boxes[j].dims[d].start < r.value))
    decreases k
  {
    if k > 0 {
      HighestLowIsMaximum(boxes, n, d, k - 1, minValue);
    }
  }

  /** The lowest end coordinate in dimension `d` among the first `k` boxes, the first such box winning. */
  function LowestHigh(boxes: seq<BoundingBox>, n: nat, d: nat, k: nat, maxValue: real): (r: Extreme)
    requires AllDims(boxes, n) && d < n && k <= |boxes|
    ensures r.index == 0 || r.index < k
    decreases k
  {
    if k == 0 then Extreme(maxValue, 0)
    else
      var p := LowestHigh(boxes, n, d, k - 1, maxValue);
      var e := boxes[k - 1].dims[d].end;
      if e < p.value then Extreme(e, k - 1) else p
  }

  /** `LowestHigh` is the minimum of `maxValue` and the ends seen, naming the first box attaining it. */
  lemma {:induction false} LowestHighIsMinimum(boxes: seq<BoundingBox>, n: nat, d: nat, k: nat, maxValue: real)
    requires AllDims(boxes, n) && d < n && k <= |boxes|
    ensures var r := LowestHigh(boxes, n, d, k, maxValue);
      r.value <= maxValue &&
      (forall j :: 0 <= j < k ==> r.value <= boxes[j].dims[d].end) &&
      ((r == Extreme(maxValue, 0)) ||
       (r.index < k && r.value == boxes[r.index].dims[d].end &&
        forall j :: 0 <= j < r.index ==> r.value < boxes[j].dims[d].end))
    decreases k
  {
    if k > 0 {
      LowestHighIsMinimum(boxes, n, d, k - 1, maxValue);
    }
  }

  /** The larger of the two differences, the source's makeshift `abs`. */
  function Separation(loHi: real, hiLo: real): (s: real)
    ensures s >= 0.0
    ensures s == loHi - hiLo || s == hiLo - loHi
  {
    var sepA := loHi - hiLo;
    var sepB := hiLo - loHi;
    if sepA > sepB then sepA else sepB
  }

  /** The separation in dimension `d`: lowest end against highest start over all boxes. */
  function SeparationAt(boxes: seq<BoundingBox>, n: nat, d: nat, minValue: real, maxValue: real): real
    requires AllDims(boxes, n) && d < n
  {
    Separation(LowestHigh(boxes, n, d, |boxes|, maxValue).value, HighestLow(boxes, n, d, |boxes|, minValue).value)
  }

  /** The area box has `N` dimensions and none of them has width zero. */
  predicate AreaWellFormed(area: BoundingBox, n: nat, width: Extent -> real)
  {
    |area.dims| == n && forall d :: 0 <= d < n ==> width(area.dims[d]) != 0.0
  }

  /** The separation in dimension `d` divided by the area's width there. */
  function NormalizedAt(boxes: seq<BoundingBox>, n: nat, area: BoundingBox, width: Extent -> real, d: nat, minValue: real, maxValue: real): real
    requires AllDims(boxes, n) && AreaWellFormed(area, n, width) && d < n
  {
    SeparationAt(boxes, n, d, minValue, maxValue) / width(area.dims[d])
  }

  /** The best separation recorded so far and the two entries it names. */
  datatype Choice = Choice(highest: real, bestA: nat, bestB: nat)

  /**
   * The selection loop over the first `k` dimensions as written: it
   * compares the normalized separation against `highest`, but stores the
   * raw separation into `highest`.
   */
  function SelectAsWritten(boxes: seq<BoundingBox>, n: nat, area: BoundingBox, width: Extent -> real, k: nat, minValue: real, maxValue: real): (c: Choice)
    requires AllDims(boxes, n) && AreaWellFormed(area, n, width) && k <= n && |boxes| > 0
    ensures c.bestA < |boxes| && c.bestB < |boxes|
    decreases k
  {
    if k == 0 then Choice(minValue, 0, 0)
    else
      var p := SelectAsWritten(boxes, n, area, width, k - 1, minValue, maxValue);
      if NormalizedAt(boxes, n, area, width, k - 1, minValue, maxValue) > p.highest then
        Choice(SeparationAt(boxes, n, k - 1, minValue, maxValue),
               LowestHigh(boxes, n, k - 1, |boxes|, maxValue).index,
               HighestLow(boxes, n, k - 1, |boxes|, minValue).index)
      else p
  }

  /**
   * The selection loop as evidently intended: `highest` records the
   * normalized separation it was compared as, so the dimension of greatest
   * normalized separation wins.
   */
  function SelectNormalized(boxes: seq<BoundingBox>, n: nat, area: BoundingBox, width: Extent -> real, k: nat, minValue: real, maxValue: real): (c: Choice)
    requires AllDims(boxes, n) && AreaWellFormed(area, n, width) && k <= n && |boxes| > 0
    ensures c.bestA < |boxes| && c.bestB < |boxes|
    decreases k
  {
    if k == 0 then Choice(minValue, 0, 0)
    else
      var p := SelectNormalized(boxes, n, area, width, k - 1, minValue, maxValue);
      var norm := NormalizedAt(boxes, n, area, width, k - 1, minValue, maxValue);
      if norm > p.highest then
        Choice(norm, LowestHigh(boxes, n, k - 1, |boxes|, maxValue).index, HighestLow(boxes, n, k - 1, |boxes|, minValue).index)
      else p
  }

  /**
   * The corrected selection records the greatest normalized separation
   * over the first `k` dimensions and the two entries of a dimension that
   * attains it.
   */
  lemma {:induction false} SelectNormalizedIsMaximum(boxes: seq<BoundingBox>, n: nat, area: BoundingBox, width: Extent -> real, k: nat, minValue: real, maxValue: real)
    requires AllDims(boxes, n) && AreaWellFormed(area, n, width) && k <= n && |boxes| > 0
    ensures var c := SelectNormalized(boxes, n, area, width, k, minValue, maxValue);
      c.highest >= minValue &&
      (forall d :: 0 <= d < k ==> NormalizedAt(boxes, n, area, width, d, minValue, maxValue) <= c.highest) &&
      (c == Choice(minValue, 0, 0) ||
       exists d :: 0 <= d < k && c == Choice(NormalizedAt(boxes, n, area, width, d, minValue, maxValue),
                                             LowestHigh(boxes, n, d, |boxes|, maxValue).index,
                                             HighestLow(boxes, n, d, |boxes|, minValue).index))
    decreases k
  {
    if k > 0 {
      SelectNormalizedIsMaximum(boxes, n, area, width, k - 1, minValue, maxValue);
      var p := SelectNormalized(boxes, n, area, width, k - 1, minValue, maxValue);
      var c := SelectNormalized(boxes, n, area, width, k, minValue, maxValue);
      if NormalizedAt(boxes, n, area, width, k - 1, minValue, maxValue) <= p.highest {
        assert c == p;
      }
    }
  }

  /** The pair of a choice in ascending order, as `min`/`max` return it. */
  function Ordered(c: Choice): (p: (nat, nat))
    ensures p.0 <= p.1
    ensures p == (c.bestA, c.bestB) || p == (c.bestB, c.bestA)
  {
    if c.bestA <= c.bestB then (c.bestA, c.bestB) else (c.bestB, c.bestA)
  }

  /** Everything `linear_pick_seeds` needs of its inputs besides the seeds being distinct. */
  predicate SeedInputs(boxes: seq<BoundingBox>, n: nat, area: BoundingBox, width: Extent -> real)
  {
    |boxes| > 1 && AllDims(boxes, n) && AreaWellFormed(area, n, width)
  }

  /** The inner loop of `FindExtremes`: fold entry `itemIdx` into every dimension's extremes. */
  method VisitEntry(boxes: seq<BoundingBox>, n: nat, itemIdx: nat, highs: array<Extreme>, lows: array<Extreme>, minValue: real, maxValue: real)
    requires AllDims(boxes, n) && itemIdx < |boxes|
    requires highs.Length == n && lows.Length == n && highs != lows
    requires forall d :: 0 <= d < n ==> highs[d] == HighestLow(boxes, n, d, itemIdx, minValue)
    requires forall d :: 0 <= d < n ==> lows[d] == LowestHigh(boxes, n, d, itemIdx, maxValue)
    modifies highs, lows
    ensures forall d :: 0 <= d < n ==> highs[d] == HighestLow(boxes, n, d, itemIdx + 1, minValue)
    ensures forall d :: 0 <= d < n ==> lows[d] == LowestHigh(boxes, n, d, itemIdx + 1, maxValue)
  {
    var bb := boxes[itemIdx];
    for dim := 0 to n
      invariant forall d :: 0 <= d < dim ==> highs[d] == HighestLow(boxes, n, d, itemIdx + 1, minValue)
      invariant forall d :: dim <= d < n ==> highs[d] == HighestLow(boxes, n, d, itemIdx, minValue)
      invariant forall d :: 0 <= d < dim ==> lows[d] == LowestHigh(boxes, n, d, itemIdx + 1, maxValue)
      invariant forall d :: dim <= d < n ==> lows[d] == LowestHigh(boxes, n, d, itemIdx, maxValue)
    {
      var extent := bb.dims[dim];
      if extent.start > highs[dim].value {
        highs[dim] := Extreme(extent.start, itemIdx);
      }
      if extent.end < lows[dim].value {
        lows[dim] := Extreme(extent.end, itemIdx);
      }
    }
  }

  /**
   * The first loop nest of `linear_pick_seeds`: for each entry and each
   * dimension, track the highest start and the lowest end in two
   * `N`-element vectors.
   */
  method FindExtremes(boxes: seq<BoundingBox>, n: nat, minValue: real, maxValue: real) returns (highestLows: seq<Extreme>, lowestHighs: seq<Extreme>)
    requires AllDims(boxes, n)
    ensures |highestLows| == n && |lowestHighs| == n
    ensures forall d :: 0 <= d < n ==> highestLows[d] == HighestLow(boxes, n, d, |boxes|, minValue)
    ensures forall d :: 0 <= d < n ==> lowestHighs[d] == LowestHigh(boxes, n, d, |boxes|, maxValue)
  {
    var highs := new Extreme[n](_ => Extreme(minValue, 0));
    var lows := new Extreme[n](_ => Extreme(maxValue, 0));
    for itemIdx := 0 to |boxes|
      invariant forall d :: 0 <= d < n ==> highs[d] == HighestLow(boxes, n, d, itemIdx, minValue)
      invariant forall d :: 0 <= d < n ==> lows[d] == LowestHigh(boxes, n, d, itemIdx, maxValue)
    {
      VisitEntry(boxes, n, itemIdx, highs, lows, minValue, maxValue);
    }
    highestLows := highs[..];
    lowestHighs := lows[..];
  }

  /**
   * `linear_pick_seeds` as written. Its `debug_assert_ne!` on the two
   * indexes becomes the requirement that the selection names two entries.
   */
  method LinearPickSeeds(boxes: seq<BoundingBox>, n: nat, area: BoundingBox, width: Extent -> real, minValue: real, maxValue: real) returns (low: nat, high: nat)
    requires SeedInputs(boxes, n, area, width)
    requires SelectAsWritten(boxes, n, area, width, n, minValue, maxValue).bestA != SelectAsWritten(boxes, n, area, width, n, minValue, maxValue).bestB
    ensures low < high < |boxes|
    ensures (low, high) == Ordered(SelectAsWritten(boxes, n, area, width, n, minValue, maxValue))
  {
    var highestLows, lowestHighs := FindExtremes(boxes, n, minValue, maxValue);
    var highestSeparation := minValue;
    var bestA, bestB := 0, 0;
    for dim := 0 to n
      invariant Choice(highestSeparation, bestA, bestB) == SelectAsWritten(boxes, n, area, width, dim, minValue, maxValue)
    {
      assert lowestHighs[dim] == LowestHigh(boxes, n, dim, |boxes|, maxValue);
      assert highestLows[dim] == HighestLow(boxes, n, dim, |boxes|, minValue);
      var w := width(area.dims[dim]);
      var loHi := lowestHighs[dim].value;
      var hiLo := highestLows[dim].value;
      var separation := Separation(loHi, hiLo);
      var normalizedSeparation := separation / w;
      if normalizedSeparation > highestSeparation {
        highestSeparation := separation;
        bestA := lowestHighs[dim].index;
        bestB := highestLows[dim].index;
      }
    }
    var seeds := Ordered(Choice(highestSeparation, bestA, bestB));
    low, high := seeds.0, seeds.1;
  }

  /** `linear_pick_seeds` with `highest_separation` updated to the normalized separation. */
  method LinearPickSeedsNormalized(boxes: seq<BoundingBox>, n: nat, area: BoundingBox, width: Extent -> real, minValue: real, maxValue: real) returns (low: nat, high: nat)
    requires SeedInputs(boxes, n, area, width)
    requires SelectNormalized(boxes, n, area, width, n, minValue, maxValue).bestA != SelectNormalized(boxes, n, area, width, n, minValue, maxValue).bestB
    ensures low < high < |boxes|
    ensures (low, high) == Ordered(SelectNormalized(boxes, n, area, width, n, minValue, maxValue))
  {
    var highestLows, lowestHighs := FindExtremes(boxes, n, minValue, maxValue);
    var highestSeparation := minValue;
    var bestA, bestB := 0, 0;
    for dim := 0 to n
      invariant Choice(highestSeparation, bestA, bestB) == SelectNormalized(boxes, n, area, width, dim, minValue, maxValue)
    {
      assert lowestHighs[dim] == LowestHigh(boxes, n, dim, |boxes|, maxValue);
      assert highestLows[dim] == HighestLow(boxes, n, dim, |boxes|, minValue);
      var w := width(area.dims[dim]);
      var separation := Separation(lowestHighs[dim].value, highestLows[dim].value);
      var normalizedSeparation := separation / w;
      if normalizedSeparation > highestSeparation {
        highestSeparation := normalizedSeparation;
        bestA := lowestHighs[dim].index;
        bestB := highestLows[dim].index;
      }
    }
    var seeds := Ordered(Choice(highestSeparation, bestA, bestB));
    low, high := seeds.0, seeds.1;
  }

  // ----- Greedy assignment -----

  /** The two groups being built and their boxes. */
  datatype Groups<E> = Groups(boxA: BoundingBox, groupA: seq<E>, boxB: BoundingBox, groupB: seq<E>)

  /**
   * One iteration of the assignment loop: grow both boxes by the item's
   * box, let `decide_group` choose, and give the item and the grown box to
   * the chosen group.
   */
  function Step<E>(g: Groups<E>, item: E, boxOf: E -> BoundingBox, getGrown: (BoundingBox, BoundingBox) -> BoxAndArea): (r: Groups<E>)
    ensures (r.groupA == g.groupA + [item] && r.groupB == g.groupB && r.boxB == g.boxB) ||
            (r.groupB == g.groupB + [item] && r.groupA == g.groupA && r.boxA == g.boxA)
  {
    var a := getGrown(g.boxA, boxOf(item));
    var b := getGrown(g.boxB, boxOf(item));
    match DecideGroup(a, b, |g.groupA|, |g.groupB|)
    case Left => Groups(a.bb, g.groupA + [item], g.boxB, g.groupB)
    case Right => Groups(g.boxA, g.groupA, b.bb, g.groupB + [item])
  }

  /** The assignment loop: `pop` takes the last remaining entry first. */
  function Assign<E>(rest: seq<E>, g: Groups<E>, boxOf: E -> BoundingBox, getGrown: (BoundingBox, BoundingBox) -> BoxAndArea): Groups<E>
    decreases |rest|
  {
    if rest == [] then g
    else Assign(rest[..|rest| - 1], Step(g, rest[|rest| - 1], boxOf, getGrown), boxOf, getGrown)
  }

  /**
   * Assignment puts every remaining entry into exactly one group and keeps
   * what each group already held at its front.
   */
  lemma {:induction false} AssignPartitions<E>(rest: seq<E>, g: Groups<E>, boxOf: E -> BoundingBox, getGrown: (BoundingBox, BoundingBox) -> BoxAndArea)
    ensures var r := Assign(rest, g, boxOf, getGrown);
      multiset(r.groupA) + multiset(r.groupB) == multiset(g.groupA) + multiset(g.groupB) + multiset(rest) &&
      g.groupA <= r.groupA && g.groupB <= r.groupB
    decreases |rest|
  {
    if rest != [] {
      var item := rest[|rest| - 1];
      var next := Step(g, item, boxOf, getGrown);
      AssignPartitions(rest[..|rest| - 1], next, boxOf, getGrown);
      assert rest == rest[..|rest| - 1] + [item];
      assert multiset(rest) == multiset(rest[..|rest| - 1]) + multiset{item};
      assert multiset(next.groupA) + multiset(next.groupB) == multiset(g.groupA) + multiset(g.groupB) + multiset{item};
    }
  }

  /** `Vec::remove`: the entry at `i` leaves and the rest close up in order. */
  function RemoveAt<E>(s: seq<E>, i: nat): (r: seq<E>)
    requires i < |s|
    ensures |r| == |s| - 1
    ensures forall k :: 0 <= k < i ==> r[k] == s[k]
    ensures forall k :: i <= k < |r| ==> r[k] == s[k + 1]
    ensures multiset(r) + multiset{s[i]} == multiset(s)
  {
    assert s == s[..i] + [s[i]] + s[i + 1..];
    s[..i] + s[i + 1..]
  }

  /**
   * The split once the seeds `low < high` are known: remove the higher
   * seed, then the lower, start one group with each, and assign the rest.
   */
  function SplitGroups<E>(entries: seq<E>, low: nat, high: nat, boxOf: E -> BoundingBox, getGrown: (BoundingBox, BoundingBox) -> BoxAndArea): Groups<E>
    requires low < high < |entries|
  {
    var rest := RemoveAt(RemoveAt(entries, high), low);
    Assign(rest, Groups(boxOf(entries[low]), [entries[low]], boxOf(entries[high]), [entries[high]]), boxOf, getGrown)
  }

  /**
   * The two groups of a split together are a permutation of the entries,
   * and each begins with its seed, so neither is empty.
   */
  lemma SplitGroupsPartition<E>(entries: seq<E>, low: nat, high: nat, boxOf: E -> BoundingBox, getGrown: (BoundingBox, BoundingBox) -> BoxAndArea)
    requires low < high < |entries|
    ensures var r := SplitGroups(entries, low, high, boxOf, getGrown);
      multiset(r.groupA) + multiset(r.groupB) == multiset(entries) &&
      |r.groupA| >= 1 && |r.groupB| >= 1 &&
      r.groupA[0] == entries[low] && r.groupB[0] == entries[high] &&
      |r.groupA| + |r.groupB| == |entries|
  {
    var once := RemoveAt(entries, high);
    var rest := RemoveAt(once, low);
    assert once[low] == entries[low];
    var g := Groups(boxOf(entries[low]), [entries[low]], boxOf(entries[high]), [entries[high]]);
    AssignPartitions(rest, g, boxOf, getGrown);
    var r := Assign(rest, g, boxOf, getGrown);
    assert r == SplitGroups(entries, low, high, boxOf, getGrown);
    calc {
      multiset(r.groupA) + multiset(r.groupB);
      multiset{entries[low]} + multiset{entries[high]} + multiset(rest);
      multiset(once) + multiset{entries[high]};
      multiset(entries);
    }
    assert [entries[low]] <= r.groupA && [entries[high]] <= r.groupB;
    assert |multiset(r.groupA) + multiset(r.groupB)| == |entries|;
  }

  // ----- Reference instantiation for the scenarios -----

  /** The length of an extent, standing in for `Extent::len`. */
  function ExtentWidth(e: Extent): real
  {
    e.end - e.start
  }

  /**
   * The seed picker as written settles on the first dimension whose
   * normalized separation beats the initial `minValue`, and afterwards
   * compares normalized separations against a raw one. Here the
   * x-separation is 20 over a width of 100 (0.2) and the y-separation 4
   * over a width of 10 (0.4): the intended rule picks the y-pair (0, 2),
   * the code keeps the x-pair (0, 1) because 0.4 does not beat 20.
   */
  lemma RawSeparationPicksWrongPair(minValue: real, maxValue: real)
    requires minValue < 0.0 && maxValue > 100.0
    ensures var boxes := [BoundingBox([Extent(0.0, 10.0), Extent(0.0, 2.0)]),
                          BoundingBox([Extent(30.0, 100.0), Extent(0.0, 3.0)]),
                          BoundingBox([Extent(5.0, 20.0), Extent(6.0, 10.0)])];
            var area := BoundingBox([Extent(0.0, 100.0), Extent(0.0, 10.0)]);
            AllDims(boxes, 2) && AreaWellFormed(area, 2, ExtentWidth) &&
            Ordered(SelectAsWritten(boxes, 2, area, ExtentWidth, 2, minValue, maxValue)) == (0, 1) &&
            Ordered(SelectNormalized(boxes, 2, area, ExtentWidth, 2, minValue, maxValue)) == (0, 2)
  {
    var boxes := [BoundingBox([Extent(0.0, 10.0), Extent(0.0, 2.0)]),
                  BoundingBox([Extent(30.0, 100.0), Extent(0.0, 3.0)]),
                  BoundingBox([Extent(5.0, 20.0), Extent(6.0, 10.0)])];
    var area := BoundingBox([Extent(0.0, 100.0), Extent(0.0, 10.0)]);
    assert AllDims(boxes, 2);
    assert AreaWellFormed(area, 2, ExtentWidth);
    assert HighestLow(boxes, 2, 0, 1, minValue) == Extreme(0.0, 0);
    assert HighestLow(boxes, 2, 0, 2, minValue) == Extreme(30.0, 1);
    assert HighestLow(boxes, 2, 0, 3, minValue) == Extreme(30.0, 1);
    assert LowestHigh(boxes, 2, 0, 1, maxValue) == Extreme(10.0, 0);
    assert LowestHigh(boxes, 2, 0, 2, maxValue) == Extreme(10.0, 0);
    assert LowestHigh(boxes, 2, 0, 3, maxValue) == Extreme(10.0, 0);
    assert HighestLow(boxes, 2, 1, 1, minValue) == Extreme(0.0, 0);
    assert HighestLow(boxes, 2, 1, 2, minValue) == Extreme(0.0, 0);
    assert HighestLow(boxes, 2, 1, 3, minValue) == Extreme(6.0, 2);
    assert LowestHigh(boxes, 2, 1, 1, maxValue) == Extreme(2.0, 0);
    assert LowestHigh(boxes, 2, 1, 2, maxValue) == Extreme(2.0, 0);
    assert LowestHigh(boxes, 2, 1, 3, maxValue) == Extreme(2.0, 0);
    assert NormalizedAt(boxes, 2, area, ExtentWidth, 0, minValue, maxValue) == 0.2;
    assert NormalizedAt(boxes, 2, area, ExtentWidth, 1, minValue, maxValue) == 0.4;
    assert SelectAsWritten(boxes, 2, area, ExtentWidth, 1, minValue, maxValue) == Choice(20.0, 0, 1);
    assert SelectNormalized(boxes, 2, area, ExtentWidth, 1, minValue, maxValue) == Choice(0.2, 0, 1);
  }
}

/**
 * The second linear-cost split
 * (src/rtree/splitting_strategies/linear_cost_split.rs). It takes the
 * area and a mutable vector of entries, drains the vector and returns the
 * two groups as a `SplitResult`. Entries are generic and expose their box
 * through `to_bb`. Here the mutable vector is passed in by value, and its
 * final, drained state comes back as `drained`.
 */
module LinearCostSplitV2 {
  import opened RBoundingBox
  import opened RNodeTraits
  import opened LinearSplitCore

  /** `SplitGroup`: a group's box and its entries. */
  datatype SplitGroup<E> = SplitGroup(bb: BoundingBox, entries: seq<E>)

  /** `SplitResult`: the two groups. */
  datatype SplitResult<E> = SplitResult(first: SplitGroup<E>, second: SplitGroup<E>)

  /** The seed pair `linear_pick_seeds` returns for these inputs. */
  function Seeds<E>(entries: seq<E>, toBb: E -> BoundingBox, area: BoundingBox, width: RExtent.Extent -> real, n: nat,
                    minValue: real, maxValue: real): (p: (nat, nat))
    requires SeedInputs(Boxes(entries, toBb), n, area, width)
    ensures p.1 < |entries|
  {
    Ordered(SelectAsWritten(Boxes(entries, toBb), n, area, width, n, minValue, maxValue))
  }

  /** `split`: seeds first, then every remaining entry popped into one of the two groups. */
  method Split<E>(area: BoundingBox, entries: seq<E>, toBb: E -> BoundingBox, getGrown: (BoundingBox, BoundingBox) -> BoxAndArea,
                  width: RExtent.Extent -> real, n: nat, minValue: real, maxValue: real)
    returns (result: SplitResult<E>, drained: seq<E>)
    requires SeedInputs(Boxes(entries, toBb), n, area, width)
    requires var c := SelectAsWritten(Boxes(entries, toBb), n, area, width, n, minValue, maxValue);
             c.bestA != c.bestB
    ensures drained == []
    ensures var seeds := Seeds(entries, toBb, area, width, n, minValue, maxValue);
            seeds.0 < seeds.1 &&
            var g := SplitGroups(entries, seeds.0, seeds.1, toBb, getGrown);
            result == SplitResult(SplitGroup(g.boxA, g.groupA), SplitGroup(g.boxB, g.groupB))
    ensures multiset(result.first.entries) + multiset(result.second.entries) == multiset(entries)
    ensures var seeds := Seeds(entries, toBb, area, width, n, minValue, maxValue);
            |result.first.entries| >= 1 && result.first.entries[0] == entries[seeds.0] &&
            |result.second.entries| >= 1 && result.second.entries[0] == entries[seeds.1]
  {
    var low, high := LinearPickSeeds(Boxes(entries, toBb), n, area, width, minValue, maxValue);
    var rest := entries;
    var bestB := rest[high];
    rest := RemoveAt(rest, high);
    var bestA := rest[low];
    rest := RemoveAt(rest, low);

    var boxA := toBb(bestA);
    var boxB := toBb(bestB);
    var groupA := [bestA];
    var groupB := [bestB];
    assert Assign(rest, Groups(boxA, groupA, boxB, groupB), toBb, getGrown) == SplitGroups(entries, low, high, toBb, getGrown);

    while rest != []
      invariant Assign(rest, Groups(boxA, groupA, boxB, groupB), toBb, getGrown) == SplitGroups(entries, low, high, toBb, getGrown)
      decreases |rest|
    {
      var item := rest[|rest| - 1];
      rest := rest[..|rest| - 1];
      var aGrown := getGrown(boxA, toBb(item));
      var bGrown := getGrown(boxB, toBb(item));
      match DecideGroup(aGrown, bGrown, |groupA|, |groupB|)
      case Left =>
        boxA, groupA := aGrown.bb, groupA + [item];
      case Right =>
        boxB, groupB := bGrown.bb, groupB + [item];
    }

    SplitGroupsPartition(entries, low, high, toBb, getGrown);
    result := SplitResult(SplitGroup(boxA, groupA), SplitGroup(boxB, groupB));
    drained := rest;
  }
}

/**
 * The interval tree of src/interval_tree/node.rs, whose nodes store an
 * `Entry` (an interval with its data) and are built from an iterator of
 * entries or from an array of ranges with unit data.
 */
module IntervalTreeEntryNode {
  import opened Wrappers
  import opened Intervals
  import opened IntervalSearchTree
  import IntervalTreeArray

  /** `Entry::new(interval, data)` for an interval given as an inclusive range. */
  function NewEntry<D>(range: RangeInclusive, data: D): (e: Entry<D>)
    ensures e.interval == FromRange(range) && e.data == data
  {
    Entry(FromRange(range), data)
  }

  /** `From<(I, D)>`: the same entry as `Entry::new`. */
  function EntryFromPair<D>(pair: (RangeInclusive, D)): (e: Entry<D>)
    ensures e == NewEntry(pair.0, pair.1)
  {
    Entry(FromRange(pair.0), pair.1)
  }

  /** `From<I>` for unit data. */
  function EntryFromRange(range: RangeInclusive): (e: Entry<()>)
    ensures e == NewEntry(range, ())
  {
    Entry(FromRange(range), ())
  }

  /**
   * `from_iter`: the first entry becomes the root and the others are
   * inserted in order; `debug_assert!` and `unwrap` reject an empty input.
   */
  method FromIter<D(==)>(entries: seq<Entry<D>>) returns (root: Node<D>)
    requires |entries| >= 1
    ensures Some(root) == Build(entries)
    ensures Len(root) == |entries|
    ensures multiset(Inorder(root)) == multiset(entries)
    ensures Ordered(root) && OwnMax(root)
  {
    var current: Option<Node<D>> := None;
    var k := 0;
    while k < |entries|
      invariant 0 <= k <= |entries|
      invariant current == Build(entries[..k])
    {
      assert entries[..k + 1][..k] == entries[..k];
      var newNode := NewNode(entries[k]);
      if current.Some? {
        current := Some(Insert(current.value, newNode));
      } else {
        current := Some(newNode);
      }
      k := k + 1;
    }
    assert entries[..k] == entries;
    BuildProperties(entries);
    root := current.value;
  }

  /** The unit-data entries `from_ranges_empty` makes of the ranges, in order. */
  function EmptyEntries(ranges: seq<RangeInclusive>): (es: seq<Entry<()>>)
    ensures |es| == |ranges|
    ensures forall k :: 0 <= k < |ranges| ==> es[k] == EntryFromRange(ranges[k])
  {
    if ranges == [] then [] else EmptyEntries(ranges[..|ranges| - 1]) + [EntryFromRange(ranges[|ranges| - 1])]
  }

  /** The unit-data entries are the bare entries the array version builds. */
  lemma EmptyEntriesAreRangeEntries(ranges: seq<RangeInclusive>)
    ensures EmptyEntries(ranges) == IntervalTreeArray.RangeEntries(ranges)
  {
  }

  /** `from_ranges_empty`: the same build over unit-data entries of an array of ranges. */
  method FromRangesEmpty(ranges: seq<RangeInclusive>) returns (root: Node<()>)
    requires |ranges| >= 1
    ensures Some(root) == Build(EmptyEntries(ranges))
    ensures Len(root) == |ranges|
    ensures multiset(Inorder(root)) == multiset(EmptyEntries(ranges))
    ensures Ordered(root) && OwnMax(root)
  {
    var current: Option<Node<()>> := None;
    var k := 0;
    while k < |ranges|
      invariant 0 <= k <= |ranges|
      invariant current == Build(EmptyEntries(ranges[..k]))
    {
      assert ranges[..k + 1][..k] == ranges[..k];
      var newNode := NewNode(NewEntry(ranges[k], ()));
      if current.Some? {
        current := Some(Insert(current.value, newNode));
      } else {
        current := Some(newNode);
      }
      k := k + 1;
    }
    assert ranges[..k] == ranges;
    BuildProperties(EmptyEntries(ranges));
    root := current.value;
  }

  /** `overlap_search_works` and `len_works` on the tree `from_iter` builds from the test ranges. */
  method TestTreeScenario() returns (len: nat, found: Option<Interval>)
    ensures len == 6
    ensures found == Some(Interval(5, 20))
  {
    var ranges := IntervalTreeArray.TestRanges();
    var es := EmptyEntries(ranges);
    EmptyEntriesAreRangeEntries(ranges);
    IntervalTreeArray.TestTreeSearch();
    var root := FromIter(es);
    len := Len(root);
    found := OverlapSearch(root, Interval(6, 7));
  }
}

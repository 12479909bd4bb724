/**
 * The plain interval search tree of src/interval_tree.rs: nodes store a
 * bare interval (`D = ()` of the shared tree) and are built from a
 * fixed-size array of inclusive ranges.
 */
module IntervalTreeArray {
  import opened Wrappers
  import opened Intervals
  import opened IntervalSearchTree

  /** The entry a bare interval is stored as. */
  function Bare(i: Interval): Entry<()>
  {
    Entry(i, ())
  }

  /** The entries `from` turns the ranges into, in order. */
  function RangeEntries(ranges: seq<RangeInclusive>): (es: seq<Entry<()>>)
    ensures |es| == |ranges|
    ensures forall k :: 0 <= k < |ranges| ==> es[k] == Bare(FromRange(ranges[k]))
  {
    if ranges == [] then [] else RangeEntries(ranges[..|ranges| - 1]) + [Bare(FromRange(ranges[|ranges| - 1]))]
  }

  /** `Node::new(interval)`: a leaf holding `interval`. */
  function New(interval: Interval): (n: Node<()>)
    ensures Inorder(n) == [Bare(interval)] && Len(n) == 1
    ensures Ordered(n) && OwnMax(n)
  {
    NewNodeInvariants(Bare(interval));
    NewNode(Bare(interval))
  }

  /** `insert(interval)`: the tree gains exactly this interval and stays a search tree. */
  function InsertInterval(t: Node<()>, interval: Interval): (r: Node<()>)
    ensures multiset(Inorder(r)) == multiset(Inorder(t)) + multiset{Bare(interval)}
    ensures Len(r) == Len(t) + 1
    ensures Ordered(t) ==> Ordered(r)
    ensures OwnMax(t) ==> OwnMax(r)
  {
    var n := New(interval);
    InsertEntries(t, n);
    InsertAddsLen(t, n);
    assert Ordered(t) ==> Ordered(Insert(t, n)) by {
      if Ordered(t) { InsertKeepsOrdered(t, Bare(interval)); }
    }
    assert OwnMax(t) ==> OwnMax(Insert(t, n)) by {
      if OwnMax(t) { InsertKeepsOwnMax(t, n); }
    }
    Insert(t, n)
  }

  /** One more range inserts one more node into the tree built so far. */
  lemma BuildNext(ranges: seq<RangeInclusive>, k: nat)
    requires 1 <= k < |ranges|
    ensures Build(RangeEntries(ranges[..k])).Some?
    ensures Build(RangeEntries(ranges[..k + 1])) == Some(Insert(Build(RangeEntries(ranges[..k])).value, New(FromRange(ranges[k]))))
  {
    var es := RangeEntries(ranges[..k + 1]);
    assert ranges[..k + 1][..k] == ranges[..k];
    assert es[..|es| - 1] == RangeEntries(ranges[..k]);
  }

  /**
   * `From<[RangeInclusive<T>; N]>`: the first range becomes the root and
   * the others are inserted in order; `intervals[0]` panics for `N = 0`.
   */
  method FromRanges(ranges: seq<RangeInclusive>) returns (root: Node<()>)
    requires |ranges| >= 1
    ensures Some(root) == Build(RangeEntries(ranges))
    ensures Len(root) == |ranges|
    ensures multiset(Inorder(root)) == multiset(RangeEntries(ranges))
    ensures Ordered(root) && OwnMax(root)
  {
    root := New(FromRange(ranges[0]));
    assert RangeEntries(ranges[..1]) == [Bare(FromRange(ranges[0]))];
    var k := 1;
    while k < |ranges|
      invariant 1 <= k <= |ranges|
      invariant Some(root) == Build(RangeEntries(ranges[..k]))
    {
      BuildNext(ranges, k);
      root := InsertInterval(root, FromRange(ranges[k]));
      k := k + 1;
    }
    assert ranges[..k] == ranges;
    BuildProperties(RangeEntries(ranges));
  }

  /** The ranges of the crate's test tree. */
  function TestRanges(): seq<RangeInclusive>
  {
    [RangeInclusive(15, 20), RangeInclusive(10, 30), RangeInclusive(17, 19),
     RangeInclusive(5, 20), RangeInclusive(12, 15), RangeInclusive(30, 40)]
  }

  /** A leaf of the test tree. */
  function Leaf(start: int, end: int): Node<()>
  {
    NewNode(Bare(Interval(start, end)))
  }

  /** The tree the test ranges build, worked out insert by insert. */
  lemma TestTreeShape()
    ensures Build(RangeEntries(TestRanges())) == Some(
      Node(Bare(Interval(15, 20)), 20,
        Some(Node(Bare(Interval(10, 30)), 30, Some(Leaf(5, 20)), Some(Leaf(12, 15)))),
        Some(Node(Bare(Interval(17, 19)), 19, None, Some(Leaf(30, 40))))))
  {
    var es := RangeEntries(TestRanges());
    assert es == [Bare(Interval(15, 20)), Bare(Interval(10, 30)), Bare(Interval(17, 19)),
                  Bare(Interval(5, 20)), Bare(Interval(12, 15)), Bare(Interval(30, 40))];
    var t := Leaf(15, 20);
    assert Build(es[..1]) == Some(t) by { assert es[..1][..0] == []; }
    assert es[..2][..1] == es[..1];
    t := Insert(t, Leaf(10, 30));
    assert Build(es[..2]) == Some(t);
    assert es[..3][..2] == es[..2];
    t := Insert(t, Leaf(17, 19));
    assert Build(es[..3]) == Some(t);
    assert es[..4][..3] == es[..3];
    t := Insert(t, Leaf(5, 20));
    assert Build(es[..4]) == Some(t);
    assert es[..5][..4] == es[..4];
    t := Insert(t, Leaf(12, 15));
    assert Build(es[..5]) == Some(t);
    assert es[..6][..5] == es[..5];
    t := Insert(t, Leaf(30, 40));
    assert Build(es[..6]) == Some(t);
    assert es[..6] == es;
  }

  /** Searching the test tree for `[6, 7]` finds `[5, 20]`. */
  lemma TestTreeSearch()
    ensures Build(RangeEntries(TestRanges())).Some?
    ensures OverlapSearch(Build(RangeEntries(TestRanges())).value, Interval(6, 7)) == Some(Interval(5, 20))
  {
    TestTreeShape();
  }

  /** `overlap_search_works` and `len_works`: six intervals, and `[6, 7]` finds `[5, 20]`. */
  method TestTreeScenario() returns (len: nat, found: Option<Interval>)
    ensures len == 6
    ensures found == Some(Interval(5, 20))
  {
    var root := FromRanges(TestRanges());
    TestTreeSearch();
    len := Len(root);
    found := OverlapSearch(root, FromRange(RangeInclusive(6, 7)));
  }

  /**
   * The bound as written misses overlaps: after inserting `[10, 11]`,
   * `[5, 6]` and `[7, 100]`, the left child's bound stays 6, so the query
   * `[50, 60]` is not searched below it and nothing is found, although
   * `[7, 100]` is stored and overlaps it.
   */
  lemma MissedOverlap()
    ensures var t := Build([Bare(Interval(10, 11)), Bare(Interval(5, 6)), Bare(Interval(7, 100))]).value;
      && Bare(Interval(7, 100)) in Inorder(t)
      && Overlaps(Interval(7, 100), Interval(50, 60))
      && OverlapSearch(t, Interval(50, 60)) == None
  {
    var es := [Bare(Interval(10, 11)), Bare(Interval(5, 6)), Bare(Interval(7, 100))];
    assert es[..1] == [Bare(Interval(10, 11))] && es[..2] == es[..1] + [Bare(Interval(5, 6))];
    assert es[..2][..1] == es[..1] && es[..3] == es;
    var t := Insert(Insert(Leaf(10, 11), Leaf(5, 6)), Leaf(7, 100));
    assert Build(es) == Some(t);
    assert t == Node(Bare(Interval(10, 11)), 11,
                     Some(Node(Bare(Interval(5, 6)), 6, None, Some(Leaf(7, 100)))), None);
  }

  /** With the corrected insert the same tree finds `[7, 100]`. */
  lemma CorrectedFindsOverlap()
    ensures var t := BuildCorrected([Bare(Interval(10, 11)), Bare(Interval(5, 6)), Bare(Interval(7, 100))]).value;
      OverlapSearch(t, Interval(50, 60)) == Some(Interval(7, 100))
  {
    var es := [Bare(Interval(10, 11)), Bare(Interval(5, 6)), Bare(Interval(7, 100))];
    assert es[..1] == [Bare(Interval(10, 11))] && es[..2] == es[..1] + [Bare(Interval(5, 6))];
    assert es[..2][..1] == es[..1] && es[..3] == es;
    var t := InsertCorrected(InsertCorrected(Leaf(10, 11), Leaf(5, 6)), Leaf(7, 100));
    assert BuildCorrected(es) == Some(t);
    assert t == Node(Bare(Interval(10, 11)), 100,
                     Some(Node(Bare(Interval(5, 6)), 100, None, Some(Leaf(7, 100)))), None);
  }
}

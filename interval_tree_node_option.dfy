/**
 * The interval tree of src/interval_tree/interval_tree_node.rs. Its
 * `from_iter` builds into `IntervalTreeNodeOption`, which, unlike the
 * other two versions, accepts an empty input.
 */
module IntervalTreeNodeOption {
  import Wrappers
  import opened Intervals
  import opened IntervalSearchTree
  import IntervalTreeArray
  import IntervalTreeEntryNode

  /** The crate's own option of a root node. */
  datatype IntervalTreeNodeOption<D> = None | Some(node: Node<D>)

  /** `unwrap`: panics on `None`. */
  function Unwrap<D>(o: IntervalTreeNodeOption<D>): (n: Node<D>)
    requires o.Some?
    ensures o == Some(n)
  {
    o.node
  }

  /**
   * `from_iter`: the first entry becomes the root and the others are
   * inserted in order; no entries give `None`.
   */
  method FromIter<D(==)>(entries: seq<Entry<D>>) returns (o: IntervalTreeNodeOption<D>)
    ensures o.None? <==> entries == []
    ensures o.Some? ==> Wrappers.Some(o.node) == Build(entries)
    ensures o.Some? ==> Len(o.node) == |entries| && multiset(Inorder(o.node)) == multiset(entries)
    ensures o.Some? ==> Ordered(o.node) && OwnMax(o.node)
  {
    var root: Wrappers.Option<Node<D>> := Wrappers.None;
    var k := 0;
    while k < |entries|
      invariant 0 <= k <= |entries|
      invariant root == Build(entries[..k])
    {
      assert entries[..k + 1][..k] == entries[..k];
      var newNode := NewNode(entries[k]);
      if root.Some? {
        root := Wrappers.Some(Insert(root.value, newNode));
      } else {
        root := Wrappers.Some(newNode);
      }
      k := k + 1;
    }
    assert entries[..k] == entries;
    if root.Some? {
      BuildProperties(entries);
      o := Some(root.value);
    } else {
      o := None;
    }
  }

  /** `overlap_search_works` and `len_works`, after `from_iter(...).unwrap()`. */
  method TestTreeScenario() returns (len: nat, found: Wrappers.Option<Interval>)
    ensures len == 6
    ensures found == Wrappers.Some(Interval(5, 20))
  {
    var ranges := IntervalTreeArray.TestRanges();
    var es := IntervalTreeEntryNode.EmptyEntries(ranges);
    IntervalTreeEntryNode.EmptyEntriesAreRangeEntries(ranges);
    IntervalTreeArray.TestTreeSearch();
    var o := FromIter(es);
    var root := Unwrap(o);
    len := Len(root);
    found := OverlapSearch(root, Interval(6, 7));
  }

  /** An empty iterator gives `None`, which `unwrap` rejects. */
  method EmptyScenario() returns (isNone: bool)
    ensures isNone
  {
    var o := FromIter<()>([]);
    isNone := o.None?;
  }
}

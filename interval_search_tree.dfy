/**
 * The interval search tree shared by the three tree versions of the crate
 * (src/interval_tree.rs, src/interval_tree/node.rs and
 * src/interval_tree/interval_tree_node.rs): a binary search tree on the
 * interval starts whose nodes carry a `max` bound used to prune
 * `overlap_search`. The three versions differ only in what a node stores
 * next to its interval, so a node here carries an `Entry<D>` (the bare
 * tree of src/interval_tree.rs is `D = ()`). A `Box`ed child that the
 * source mutates in place is replaced by its updated value.
 */
module IntervalSearchTree {
  import opened Wrappers
  import opened Intervals

  /** An interval and its associated data. */
  datatype Entry<D> = Entry(interval: Interval, data: D)

  datatype Node<D> = Node(entry: Entry<D>, max: int, left: Option<Node<D>>, right: Option<Node<D>>)

  /** The entries of a tree, left subtree first. */
  function Inorder<D(==)>(t: Node<D>): seq<Entry<D>>
    decreases t
  {
    InorderOf(t.left) + [t.entry] + InorderOf(t.right)
  }

  /** The entries of an optional child. */
  function InorderOf<D(==)>(c: Option<Node<D>>): seq<Entry<D>>
    decreases c
  {
    if c.Some? then Inorder(c.value) else []
  }

  /** `new(entry)`: a leaf whose bound is its own end. */
  function NewNode<D(==)>(entry: Entry<D>): (n: Node<D>)
    ensures Inorder(n) == [entry]
    ensures n.max == entry.interval.end
  {
    Node(entry, entry.interval.end, None, None)
  }

  /** `len()`: the number of intervals stored. */
  function Len<D(==)>(t: Node<D>): (size: nat)
    ensures size == |Inorder(t)|
    decreases t
  {
    1 + LenOf(t.left) + LenOf(t.right)
  }

  function LenOf<D(==)>(c: Option<Node<D>>): (size: nat)
    ensures size == |InorderOf(c)|
    decreases c
  {
    if c.Some? then Len(c.value) else 0
  }

  /** Every start in `s` is below `k`. */
  predicate StartsBelow<D(==)>(s: seq<Entry<D>>, k: int)
  {
    forall e :: e in s ==> e.interval.start < k
  }

  /** No start in `s` is below `k`. */
  predicate StartsFrom<D(==)>(s: seq<Entry<D>>, k: int)
  {
    forall e :: e in s ==> k <= e.interval.start
  }

  /** Every start left of a node is below the node's start; every start right of it is not. */
  predicate Ordered<D(==)>(t: Node<D>)
    decreases t
  {
    && StartsBelow(InorderOf(t.left), t.entry.interval.start)
    && StartsFrom(InorderOf(t.right), t.entry.interval.start)
    && (t.left.Some? ==> Ordered(t.left.value))
    && (t.right.Some? ==> Ordered(t.right.value))
  }

  /** Every node's bound is its own interval's end: what the insert as written maintains. */
  predicate OwnMax<D(==)>(t: Node<D>)
    decreases t
  {
    && t.max == t.entry.interval.end
    && (t.left.Some? ==> OwnMax(t.left.value))
    && (t.right.Some? ==> OwnMax(t.right.value))
  }

  /** `if a < b { a = b }`: the larger of the two. */
  function Larger(a: int, b: int): int
  {
    if a < b then b else a
  }

  /** The largest end in a subtree. */
  function MaxEnd<D(==)>(t: Node<D>): int
    decreases t
  {
    var end := t.entry.interval.end;
    Larger(end, Larger(MaxEndOr(t.left, end), MaxEndOr(t.right, end)))
  }

  /** The largest end in an optional child, `otherwise` for no child. */
  function MaxEndOr<D(==)>(c: Option<Node<D>>, otherwise: int): int
    decreases c
  {
    if c.Some? then MaxEnd(c.value) else otherwise
  }

  /** Every node's bound is the largest end in its subtree: what pruning the search needs. */
  predicate MaxCorrect<D(==)>(t: Node<D>)
    decreases t
  {
    && t.max == MaxEnd(t)
    && (t.left.Some? ==> MaxCorrect(t.left.value))
    && (t.right.Some? ==> MaxCorrect(t.right.value))
  }

  /**
   * `insert(node)` as written: the node goes left if its start is below
   * this node's start and right otherwise, attached at the first free
   * child slot; this node's bound is then raised to its OWN end, never to
   * the inserted node's.
   */
  function Insert<D(==)>(t: Node<D>, n: Node<D>): (r: Node<D>)
    ensures r.entry == t.entry
    decreases t
  {
    var max := Larger(t.max, t.entry.interval.end);
    if n.entry.interval.start < t.entry.interval.start then
      Node(t.entry, max, Some(InsertInto(t.left, n)), t.right)
    else
      Node(t.entry, max, t.left, Some(InsertInto(t.right, n)))
  }

  /** The `match` on a child slot: insert below an existing child, or attach the node. */
  function InsertInto<D(==)>(c: Option<Node<D>>, n: Node<D>): Node<D>
    decreases c
  {
    if c.Some? then Insert(c.value, n) else n
  }

  /** The evidently intended insert: the bound is raised to the inserted subtree's bound. */
  function InsertCorrected<D(==)>(t: Node<D>, n: Node<D>): (r: Node<D>)
    ensures r.entry == t.entry
    decreases t
  {
    var max := Larger(t.max, n.max);
    if n.entry.interval.start < t.entry.interval.start then
      Node(t.entry, max, Some(InsertCorrectedInto(t.left, n)), t.right)
    else
      Node(t.entry, max, t.left, Some(InsertCorrectedInto(t.right, n)))
  }

  function InsertCorrectedInto<D(==)>(c: Option<Node<D>>, n: Node<D>): Node<D>
    decreases c
  {
    if c.Some? then InsertCorrected(c.value, n) else n
  }

  /**
   * `overlap_search`: this node's interval if it overlaps the query,
   * otherwise the left subtree if its bound reaches the query's start,
   * otherwise the right subtree.
   */
  function OverlapSearch<D(==)>(t: Node<D>, q: Interval): (r: Option<Interval>)
    ensures r.Some? ==> Overlaps(r.value, q)
    decreases t
  {
    if Overlaps(t.entry.interval, q) then
      Some(t.entry.interval)
    else if t.left.Some? && t.left.value.max >= q.start then
      OverlapSearch(t.left.value, q)
    else if t.right.Some? then
      OverlapSearch(t.right.value, q)
    else
      None
  }

  /** No stored interval overlaps `q`. */
  predicate NoneOverlaps<D(==)>(s: seq<Entry<D>>, q: Interval)
  {
    forall e :: e in s ==> !Overlaps(e.interval, q)
  }

  /** A fresh node is ordered and its bound is both its own end and the largest end. */
  lemma NewNodeInvariants<D>(e: Entry<D>)
    ensures Ordered(NewNode(e)) && OwnMax(NewNode(e)) && MaxCorrect(NewNode(e))
  {
    assert InorderOf(NewNode(e).left) == [];
  }

  /** Replacing the left subtree by one that also holds `n`'s entries adds exactly those. */
  lemma ReplaceLeftEntries<D>(t: Node<D>, r: Node<D>, l: Node<D>, n: Node<D>)
    requires r.entry == t.entry && r.left == Some(l) && r.right == t.right
    requires multiset(Inorder(l)) == multiset(InorderOf(t.left)) + multiset(Inorder(n))
    ensures multiset(Inorder(r)) == multiset(Inorder(t)) + multiset(Inorder(n))
  {
    var ml, me, mr, mn := multiset(InorderOf(t.left)), multiset{t.entry}, multiset(InorderOf(t.right)), multiset(Inorder(n));
    calc {
      multiset(Inorder(r));
      multiset(Inorder(l)) + me + mr;
      ml + mn + me + mr;
      ml + me + mr + mn;
      multiset(Inorder(t)) + mn;
    }
  }

  /** Replacing the right subtree by one that also holds `n`'s entries adds exactly those. */
  lemma ReplaceRightEntries<D>(t: Node<D>, r: Node<D>, rt: Node<D>, n: Node<D>)
    requires r.entry == t.entry && r.left == t.left && r.right == Some(rt)
    requires multiset(Inorder(rt)) == multiset(InorderOf(t.right)) + multiset(Inorder(n))
    ensures multiset(Inorder(r)) == multiset(Inorder(t)) + multiset(Inorder(n))
  {
    var ml, me, mr, mn := multiset(InorderOf(t.left)), multiset{t.entry}, multiset(InorderOf(t.right)), multiset(Inorder(n));
    calc {
      multiset(Inorder(r));
      ml + me + multiset(Inorder(rt));
      ml + me + (mr + mn);
      multiset(Inorder(t)) + mn;
    }
  }

  /** The insert as written stores the entries of both trees, and nothing else. */
  lemma {:induction false} InsertEntries<D>(t: Node<D>, n: Node<D>)
    ensures multiset(Inorder(Insert(t, n))) == multiset(Inorder(t)) + multiset(Inorder(n))
    decreases t
  {
    if n.entry.interval.start < t.entry.interval.start {
      if t.left.Some? {
        InsertEntries(t.left.value, n);
      }
      ReplaceLeftEntries(t, Insert(t, n), InsertInto(t.left, n), n);
    } else {
      if t.right.Some? {
        InsertEntries(t.right.value, n);
      }
      ReplaceRightEntries(t, Insert(t, n), InsertInto(t.right, n), n);
    }
  }

  /** The corrected insert stores the entries of both trees, and nothing else. */
  lemma {:induction false} InsertCorrectedEntries<D>(t: Node<D>, n: Node<D>)
    ensures multiset(Inorder(InsertCorrected(t, n))) == multiset(Inorder(t)) + multiset(Inorder(n))
    decreases t
  {
    if n.entry.interval.start < t.entry.interval.start {
      if t.left.Some? {
        InsertCorrectedEntries(t.left.value, n);
      }
      ReplaceLeftEntries(t, InsertCorrected(t, n), InsertCorrectedInto(t.left, n), n);
    } else {
      if t.right.Some? {
        InsertCorrectedEntries(t.right.value, n);
      }
      ReplaceRightEntries(t, InsertCorrected(t, n), InsertCorrectedInto(t.right, n), n);
    }
  }

  /** `len()` after an insert: both trees' sizes add up. */
  lemma InsertAddsLen<D>(t: Node<D>, n: Node<D>)
    ensures Len(Insert(t, n)) == Len(t) + Len(n)
    ensures Len(InsertCorrected(t, n)) == Len(t) + Len(n)
  {
    InsertEntries(t, n);
    InsertCorrectedEntries(t, n);
    assert |multiset(Inorder(Insert(t, n)))| == |Inorder(Insert(t, n))|;
    assert |multiset(Inorder(InsertCorrected(t, n)))| == |Inorder(InsertCorrected(t, n))|;
  }

  /** Whatever the search returns is one of the stored intervals. */
  lemma {:induction false} OverlapSearchSound<D>(t: Node<D>, q: Interval)
    requires OverlapSearch(t, q).Some?
    ensures exists e :: e in Inorder(t) && e.interval == OverlapSearch(t, q).value
    decreases t
  {
    var r := OverlapSearch(t, q);
    if Overlaps(t.entry.interval, q) {
      assert t.entry in Inorder(t);
    } else if t.left.Some? && t.left.value.max >= q.start {
      OverlapSearchSound(t.left.value, q);
      var e :| e in Inorder(t.left.value) && e.interval == r.value;
      assert e in Inorder(t);
    } else {
      OverlapSearchSound(t.right.value, q);
      var e :| e in Inorder(t.right.value) && e.interval == r.value;
      assert e in Inorder(t);
    }
  }

  /** A bound on the starts carries over to a sequence with the same entries plus one more. */
  lemma StartsBoundsGrow<D>(s: seq<Entry<D>>, old_: seq<Entry<D>>, e: Entry<D>, k: int)
    requires multiset(s) == multiset(old_) + multiset{e}
    ensures StartsBelow(old_, k) && e.interval.start < k ==> StartsBelow(s, k)
    ensures StartsFrom(old_, k) && k <= e.interval.start ==> StartsFrom(s, k)
  {
    forall x | x in s
      ensures x == e || x in old_
    {
      assert x in multiset(s);
    }
  }

  /** Inserting a fresh node keeps the search-tree order (as written). */
  lemma {:induction false} InsertKeepsOrdered<D>(t: Node<D>, e: Entry<D>)
    requires Ordered(t)
    ensures Ordered(Insert(t, NewNode(e)))
    decreases t
  {
    var n := NewNode(e);
    NewNodeInvariants(e);
    var k := t.entry.interval.start;
    if e.interval.start < k {
      var l := InsertInto(t.left, n);
      if t.left.Some? {
        InsertKeepsOrdered(t.left.value, e);
        InsertEntries(t.left.value, n);
      }
      StartsBoundsGrow(Inorder(l), InorderOf(t.left), e, k);
      assert Insert(t, n) == Node(t.entry, Larger(t.max, t.entry.interval.end), Some(l), t.right);
    } else {
      var rt := InsertInto(t.right, n);
      if t.right.Some? {
        InsertKeepsOrdered(t.right.value, e);
        InsertEntries(t.right.value, n);
      }
      StartsBoundsGrow(Inorder(rt), InorderOf(t.right), e, k);
      assert Insert(t, n) == Node(t.entry, Larger(t.max, t.entry.interval.end), t.left, Some(rt));
    }
  }

  /** Inserting a fresh node keeps the search-tree order (corrected insert). */
  lemma {:induction false} InsertCorrectedKeepsOrdered<D>(t: Node<D>, e: Entry<D>)
    requires Ordered(t)
    ensures Ordered(InsertCorrected(t, NewNode(e)))
    decreases t
  {
    var n := NewNode(e);
    NewNodeInvariants(e);
    var k := t.entry.interval.start;
    if e.interval.start < k {
      var l := InsertCorrectedInto(t.left, n);
      if t.left.Some? {
        InsertCorrectedKeepsOrdered(t.left.value, e);
        InsertCorrectedEntries(t.left.value, n);
      }
      StartsBoundsGrow(Inorder(l), InorderOf(t.left), e, k);
      assert InsertCorrected(t, n) == Node(t.entry, Larger(t.max, n.max), Some(l), t.right);
    } else {
      var rt := InsertCorrectedInto(t.right, n);
      if t.right.Some? {
        InsertCorrectedKeepsOrdered(t.right.value, e);
        InsertCorrectedEntries(t.right.value, n);
      }
      StartsBoundsGrow(Inorder(rt), InorderOf(t.right), e, k);
      assert InsertCorrected(t, n) == Node(t.entry, Larger(t.max, n.max), t.left, Some(rt));
    }
  }

  /** As written, every bound stays its node's own end, whatever is inserted below. */
  lemma {:induction false} InsertKeepsOwnMax<D>(t: Node<D>, n: Node<D>)
    requires OwnMax(t) && OwnMax(n)
    ensures OwnMax(Insert(t, n))
    decreases t
  {
    if n.entry.interval.start < t.entry.interval.start {
      if t.left.Some? {
        InsertKeepsOwnMax(t.left.value, n);
      }
      assert OwnMax(InsertInto(t.left, n));
    } else {
      if t.right.Some? {
        InsertKeepsOwnMax(t.right.value, n);
      }
      assert OwnMax(InsertInto(t.right, n));
    }
  }

  /** The corrected insert keeps every bound equal to the largest end below it. */
  lemma {:induction false} InsertCorrectedKeepsMaxCorrect<D>(t: Node<D>, n: Node<D>)
    requires MaxCorrect(t) && MaxCorrect(n)
    ensures MaxCorrect(InsertCorrected(t, n))
    ensures MaxEnd(InsertCorrected(t, n)) == Larger(MaxEnd(t), MaxEnd(n))
    decreases t
  {
    var end := t.entry.interval.end;
    var max := Larger(t.max, n.max);
    assert t.max == MaxEnd(t) && n.max == MaxEnd(n);
    if n.entry.interval.start < t.entry.interval.start {
      var l := InsertCorrectedInto(t.left, n);
      if t.left.Some? {
        InsertCorrectedKeepsMaxCorrect(t.left.value, n);
      }
      assert MaxCorrect(l) && MaxEnd(l) == Larger(MaxEndOr(t.left, MaxEnd(n)), MaxEnd(n));
      var r := Node(t.entry, max, Some(l), t.right);
      assert InsertCorrected(t, n) == r;
      assert MaxEnd(r) == Larger(end, Larger(MaxEnd(l), MaxEndOr(t.right, end)));
    } else {
      var rt := InsertCorrectedInto(t.right, n);
      if t.right.Some? {
        InsertCorrectedKeepsMaxCorrect(t.right.value, n);
      }
      assert MaxCorrect(rt) && MaxEnd(rt) == Larger(MaxEndOr(t.right, MaxEnd(n)), MaxEnd(n));
      var r := Node(t.entry, max, t.left, Some(rt));
      assert InsertCorrected(t, n) == r;
      assert MaxEnd(r) == Larger(end, Larger(MaxEndOr(t.left, end), MaxEnd(rt)));
    }
  }

  /** `MaxEnd` bounds every end in the subtree and is attained by one of them. */
  lemma {:induction false} MaxEndIsLargestEnd<D>(t: Node<D>)
    ensures forall e :: e in Inorder(t) ==> e.interval.end <= MaxEnd(t)
    ensures exists e :: e in Inorder(t) && e.interval.end == MaxEnd(t)
    decreases t
  {
    if t.left.Some? {
      MaxEndIsLargestEnd(t.left.value);
    }
    if t.right.Some? {
      MaxEndIsLargestEnd(t.right.value);
    }
    var m := MaxEnd(t);
    if t.left.Some? && MaxEnd(t.left.value) == m {
      var w :| w in Inorder(t.left.value) && w.interval.end == m;
      assert w in Inorder(t);
    } else if t.right.Some? && MaxEnd(t.right.value) == m {
      var w :| w in Inorder(t.right.value) && w.interval.end == m;
      assert w in Inorder(t);
    } else {
      assert t.entry in Inorder(t);
    }
  }

  /**
   * With correct bounds the search is complete: when it finds nothing, no
   * stored interval overlaps the query.
   */
  lemma {:induction false} OverlapSearchComplete<D>(t: Node<D>, q: Interval)
    requires Ordered(t) && MaxCorrect(t)
    requires OverlapSearch(t, q) == None
    ensures NoneOverlaps(Inorder(t), q)
    decreases t
  {
    if t.left.Some? && t.left.value.max >= q.start {
      var l := t.left.value;
      OverlapSearchComplete(l, q);
      MaxEndIsLargestEnd(l);
      var w :| w in Inorder(l) && w.interval.end == MaxEnd(l);
      assert q.end < w.interval.start < t.entry.interval.start;
    } else {
      if t.left.Some? {
        MaxEndIsLargestEnd(t.left.value);
      }
      if t.right.Some? {
        OverlapSearchComplete(t.right.value, q);
      }
    }
  }

  /** The starts along `s` never decrease. */
  predicate SortedByStart<D(==)>(s: seq<Entry<D>>)
  {
    forall i, j :: 0 <= i < j < |s| ==> s[i].interval.start <= s[j].interval.start
  }

  lemma SortedAroundPivot<D>(a: seq<Entry<D>>, e: Entry<D>, b: seq<Entry<D>>)
    requires SortedByStart(a) && SortedByStart(b)
    requires StartsBelow(a, e.interval.start) && StartsFrom(b, e.interval.start)
    ensures SortedByStart(a + [e] + b)
  {
    var s := a + [e] + b;
    forall i, j | 0 <= i < j < |s|
      ensures s[i].interval.start <= s[j].interval.start
    {
      if j < |a| {
      } else if i < |a| {
        assert s[i] in a;
        if j > |a| { assert s[j] == b[j - |a| - 1]; assert s[j] in b; }
      } else if i == |a| {
        assert s[j] == b[j - |a| - 1];
        assert s[j] in b;
      } else {
        assert s[i] == b[i - |a| - 1] && s[j] == b[j - |a| - 1];
      }
    }
  }

  /** "Earlier-starting intervals first": an ordered tree lists its entries by start. */
  lemma {:induction false} InorderSortedByStart<D>(t: Node<D>)
    requires Ordered(t)
    ensures SortedByStart(Inorder(t))
    decreases t
  {
    if t.left.Some? {
      InorderSortedByStart(t.left.value);
    }
    if t.right.Some? {
      InorderSortedByStart(t.right.value);
    }
    SortedAroundPivot(InorderOf(t.left), t.entry, InorderOf(t.right));
  }

  /** The tree `from_iter` builds: the first entry is the root, the others are inserted in order. */
  function Build<D(==)>(entries: seq<Entry<D>>): (r: Option<Node<D>>)
    ensures r.Some? <==> entries != []
    decreases |entries|
  {
    if entries == [] then None
    else
      var prefix := Build(entries[..|entries| - 1]);
      var leaf := NewNode(entries[|entries| - 1]);
      if prefix.None? then Some(leaf) else Some(Insert(prefix.value, leaf))
  }

  /** `Build` with the corrected insert. */
  function BuildCorrected<D(==)>(entries: seq<Entry<D>>): (r: Option<Node<D>>)
    ensures r.Some? <==> entries != []
    decreases |entries|
  {
    if entries == [] then None
    else
      var prefix := BuildCorrected(entries[..|entries| - 1]);
      var leaf := NewNode(entries[|entries| - 1]);
      if prefix.None? then Some(leaf) else Some(InsertCorrected(prefix.value, leaf))
  }

  /** A built tree stores exactly the given entries, ordered, with every bound its own end. */
  lemma {:induction false} BuildProperties<D>(entries: seq<Entry<D>>)
    requires entries != []
    ensures Len(Build(entries).value) == |entries|
    ensures multiset(Inorder(Build(entries).value)) == multiset(entries)
    ensures Ordered(Build(entries).value) && OwnMax(Build(entries).value)
    decreases |entries|
  {
    var init := entries[..|entries| - 1];
    var last := entries[|entries| - 1];
    assert entries == init + [last];
    NewNodeInvariants(last);
    if init != [] {
      var prefix := Build(init).value;
      BuildProperties(init);
      InsertEntries(prefix, NewNode(last));
      InsertKeepsOrdered(prefix, last);
      InsertKeepsOwnMax(prefix, NewNode(last));
      assert Build(entries).value == Insert(prefix, NewNode(last));
    }
  }

  /** A tree built with the corrected insert stores the entries, ordered, with correct bounds. */
  lemma {:induction false} BuildCorrectedProperties<D>(entries: seq<Entry<D>>)
    requires entries != []
    ensures Len(BuildCorrected(entries).value) == |entries|
    ensures multiset(Inorder(BuildCorrected(entries).value)) == multiset(entries)
    ensures Ordered(BuildCorrected(entries).value) && MaxCorrect(BuildCorrected(entries).value)
    decreases |entries|
  {
    var init := entries[..|entries| - 1];
    var last := entries[|entries| - 1];
    assert entries == init + [last];
    NewNodeInvariants(last);
    if init != [] {
      var prefix := BuildCorrected(init).value;
      BuildCorrectedProperties(init);
      InsertCorrectedEntries(prefix, NewNode(last));
      InsertCorrectedKeepsOrdered(prefix, last);
      InsertCorrectedKeepsMaxCorrect(prefix, NewNode(last));
      assert BuildCorrected(entries).value == InsertCorrected(prefix, NewNode(last));
    }
  }

  /**
   * End to end, with the corrected insert: searching a built tree finds an
   * overlapping entry whenever one of the given entries overlaps the query.
   */
  lemma BuildCorrectedSearchComplete<D>(entries: seq<Entry<D>>, q: Interval, e: Entry<D>)
    requires e in entries && Overlaps(e.interval, q)
    ensures OverlapSearch(BuildCorrected(entries).value, q).Some?
  {
    var t := BuildCorrected(entries).value;
    BuildCorrectedProperties(entries);
    assert e in multiset(Inorder(t));
    if OverlapSearch(t, q) == None {
      OverlapSearchComplete(t, q);
    }
  }
}

/**
 * The in-order iterator of src/interval_tree/inorder_iterator.rs: a state
 * machine per node that first drains an iterator over the left child,
 * then yields the node itself, then drains an iterator over the right
 * child. The iterator and the child iterators it owns are values here;
 * `next` returns the advanced iterator together with the item.
 */
module InorderIterator {
  import opened Wrappers
  import opened IntervalSearchTree
  import IntervalTreeArray

  datatype State<D> = Initial | EmitLeft(left: Iter<D>) | EmitSelf | EmitRight(right: Iter<D>) | Done

  datatype Iter<D> = Iter(root: Node<D>, state: State<D>)

  /** `iter_inorder()`: a fresh iterator over `root`. */
  function New<D>(root: Node<D>): (it: Iter<D>)
    ensures it.root == root && it.state == Initial
  {
    Iter(root, Initial)
  }

  /** The nodes of a tree, left subtree first: what iterating a fresh iterator yields. */
  function InorderNodes<D>(t: Node<D>): seq<Node<D>>
    decreases t
  {
    NodesOf(t.left) + [t] + NodesOf(t.right)
  }

  function NodesOf<D>(c: Option<Node<D>>): seq<Node<D>>
    decreases c
  {
    if c.Some? then InorderNodes(c.value) else []
  }

  /** A child iterator always runs over the matching child of its parent's node. */
  ghost predicate Valid<D>(it: Iter<D>)
    decreases it
  {
    match it.state
    case EmitLeft(c) => it.root.left == Some(c.root) && Valid(c)
    case EmitRight(c) => it.root.right == Some(c.root) && Valid(c)
    case _ => true
  }

  /** The nodes the iterator has still to yield, in order. */
  function Remaining<D>(it: Iter<D>): seq<Node<D>>
    decreases it
  {
    match it.state
    case Initial => InorderNodes(it.root)
    case EmitLeft(c) => Remaining(c) + [it.root] + NodesOf(it.root.right)
    case EmitSelf => [it.root] + NodesOf(it.root.right)
    case EmitRight(c) => Remaining(c)
    case Done => []
  }

  /** The states in the order the loop of `next` passes through them. */
  function Rank<D>(s: State<D>): nat
  {
    match s
    case Initial => 4
    case EmitLeft(_) => 3
    case EmitSelf => 2
    case EmitRight(_) => 1
    case Done => 0
  }

  /**
   * `next()`: yields the first remaining node, or `None` once all nodes
   * have been yielded.
   */
  method Next<D>(it: Iter<D>) returns (next: Iter<D>, item: Option<Node<D>>)
    requires Valid(it)
    ensures Valid(next) && next.root == it.root
    ensures Remaining(it) == [] ==> item == None && Remaining(next) == []
    ensures Remaining(it) != [] ==> item == Some(Remaining(it)[0]) && Remaining(next) == Remaining(it)[1..]
    decreases it.root
  {
    var current := it;
    while true
      invariant Valid(current) && current.root == it.root
      invariant Remaining(current) == Remaining(it)
      decreases Rank(current.state)
    {
      match current.state {
        case Initial =>
          if current.root.left.Some? {
            current := Iter(current.root, EmitLeft(New(current.root.left.value)));
            assert NodesOf(current.root.left) == InorderNodes(current.root.left.value);
          } else {
            assert NodesOf(current.root.left) == [];
            current := Iter(current.root, EmitSelf);
          }
        case EmitLeft(child) =>
          var advanced, value := Next(child);
          if value.Some? {
            return Iter(current.root, EmitLeft(advanced)), value;
          }
          assert Remaining(current) == Remaining(child) + [current.root] + NodesOf(current.root.right);
          current := Iter(current.root, EmitSelf);
        case EmitSelf =>
          if current.root.right.Some? {
            next := Iter(current.root, EmitRight(New(current.root.right.value)));
          } else {
            next := Iter(current.root, Done);
          }
          return next, Some(current.root);
        case EmitRight(child) =>
          var advanced, value := Next(child);
          if value.Some? {
            return Iter(current.root, EmitRight(advanced)), value;
          }
          current := Iter(current.root, Done);
        case Done =>
          return current, None;
      }
    }
  }

  /** The test's `for node in root.iter_inorder()`: collects every yielded node. */
  method CollectInorder<D>(root: Node<D>) returns (nodes: seq<Node<D>>)
    ensures nodes == InorderNodes(root)
  {
    var it := New(root);
    nodes := [];
    while true
      invariant Valid(it)
      invariant nodes + Remaining(it) == InorderNodes(root)
      decreases |Remaining(it)|
    {
      var next, item := Next(it);
      if item.None? {
        return;
      }
      nodes := nodes + [item.value];
      it := next;
    }
  }

  /** The nodes of a tree carry its entries in the same order. */
  lemma {:induction false} InorderNodesCarryEntries<D>(t: Node<D>)
    ensures |InorderNodes(t)| == |Inorder(t)| == Len(t)
    ensures forall k :: 0 <= k < |InorderNodes(t)| ==> InorderNodes(t)[k].entry == Inorder(t)[k]
    decreases t
  {
    if t.left.Some? {
      InorderNodesCarryEntries(t.left.value);
    }
    if t.right.Some? {
      InorderNodesCarryEntries(t.right.value);
    }
    var a, b := NodesOf(t.left), NodesOf(t.right);
    var ea, eb := InorderOf(t.left), InorderOf(t.right);
    assert |a| == |ea| && |b| == |eb|;
    forall k | 0 <= k < |InorderNodes(t)|
      ensures InorderNodes(t)[k].entry == Inorder(t)[k]
    {
      if k < |a| {
        assert InorderNodes(t)[k] == a[k] && Inorder(t)[k] == ea[k];
      } else if k > |a| {
        assert InorderNodes(t)[k] == b[k - |a| - 1] && Inorder(t)[k] == eb[k - |a| - 1];
      }
    }
  }

  lemma NodesOfCount<D>(c: Option<Node<D>>)
    ensures |NodesOf(c)| == LenOf(c)
  {
    if c.Some? {
      InorderNodesCarryEntries(c.value);
    }
  }

  /** Iterating an ordered tree yields its nodes by non-decreasing start. */
  lemma YieldsByStart<D>(t: Node<D>)
    requires Ordered(t)
    ensures forall i, j :: 0 <= i < j < |InorderNodes(t)| ==>
              InorderNodes(t)[i].entry.interval.start <= InorderNodes(t)[j].entry.interval.start
  {
    InorderNodesCarryEntries(t);
    InorderSortedByStart(t);
  }

  /** `size_hint()` as written: the size of the whole tree, however far iteration has got. */
  function SizeHint<D(==)>(it: Iter<D>): (hint: (nat, Option<nat>))
    ensures hint.1 == Some(hint.0)
    ensures it.state == Initial ==> hint.0 == |Remaining(it)|
  {
    InorderNodesCarryEntries(it.root);
    (Len(it.root), Some(Len(it.root)))
  }

  /**
   * The bound as written overstates what is left once iteration has
   * begun: after the first `next()` on a one-node tree nothing remains,
   * but the hint still says one.
   */
  method SizeHintOverstates<D(==)>(entry: Entry<D>) returns (lower: nat, remaining: nat)
    ensures lower == 1 && remaining == 0
  {
    var it := New(NewNode(entry));
    var next, item := Next(it);
    InorderNodesCarryEntries(NewNode(entry));
    lower := SizeHint(next).0;
    remaining := RemainingCount(next);
  }

  /** `s` is what is left of `t` once some of its first elements are gone. */
  ghost predicate IsSuffix<T>(s: seq<T>, t: seq<T>)
  {
    |s| <= |t| && s == t[|t| - |s|..]
  }

  lemma SuffixWhole<T>(t: seq<T>)
    ensures IsSuffix(t, t) && IsSuffix([], t)
  {
    assert t[0..] == t;
  }

  lemma SuffixBeforeRoot<T>(s: seq<T>, t: seq<T>, x: T, v: seq<T>)
    requires IsSuffix(s, t)
    ensures IsSuffix(s + [x] + v, t + [x] + v)
  {
    assert (t + [x] + v)[|t + [x] + v| - |s + [x] + v|..] == t[|t| - |s|..] + [x] + v;
  }

  lemma SuffixFromRoot<T>(u: seq<T>, x: T, v: seq<T>)
    ensures IsSuffix([x] + v, u + [x] + v)
  {
    assert (u + [x] + v)[|u|..] == [x] + v;
  }

  lemma SuffixAfterRoot<T>(s: seq<T>, u: seq<T>, x: T, t: seq<T>)
    requires IsSuffix(s, t)
    ensures IsSuffix(s, u + [x] + t)
  {
    assert (u + [x] + t)[|u + [x] + t| - |s|..] == t[|t| - |s|..];
  }

  /** What a valid iterator has still to yield is always a tail of the whole in-order sequence. */
  lemma {:induction false} RemainingIsSuffix<D>(it: Iter<D>)
    requires Valid(it)
    ensures IsSuffix(Remaining(it), InorderNodes(it.root))
    decreases it
  {
    var l, r := NodesOf(it.root.left), NodesOf(it.root.right);
    match it.state
    case Initial =>
      SuffixWhole(InorderNodes(it.root));
    case EmitLeft(c) =>
      RemainingIsSuffix(c);
      SuffixBeforeRoot(Remaining(c), l, it.root, r);
    case EmitSelf =>
      SuffixFromRoot(l, it.root, r);
    case EmitRight(c) =>
      RemainingIsSuffix(c);
      SuffixAfterRoot(Remaining(c), l, it.root, r);
    case Done =>
      SuffixWhole(InorderNodes(it.root));
  }

  /**
   * For every valid iterator, the as-written hint is the one a fresh
   * iterator over the same root gives (and `next` keeps the root), and it
   * matches the remaining count exactly when nothing has been yielded yet.
   */
  lemma SizeHintIgnoresProgress<D>(it: Iter<D>)
    requires Valid(it)
    ensures SizeHint(it) == SizeHint(New(it.root))
    ensures SizeHint(it).0 >= |Remaining(it)|
    ensures SizeHint(it).0 == |Remaining(it)| <==> Remaining(it) == InorderNodes(it.root)
  {
    RemainingIsSuffix(it);
    InorderNodesCarryEntries(it.root);
    var whole := InorderNodes(it.root);
    if |Remaining(it)| == |whole| {
      assert whole[0..] == whole;
    }
  }

  /** The number of nodes the iterator has still to yield. */
  function RemainingCount<D(==)>(it: Iter<D>): (n: nat)
    ensures n == |Remaining(it)|
    decreases it
  {
    InorderNodesCarryEntries(it.root);
    NodesOfCount(it.root.right);
    match it.state
    case Initial => Len(it.root)
    case EmitLeft(c) => RemainingCount(c) + 1 + LenOf(it.root.right)
    case EmitSelf => 1 + LenOf(it.root.right)
    case EmitRight(c) => RemainingCount(c)
    case Done => 0
  }

  /** The evidently intended hint: exactly the number of nodes still to come. */
  function SizeHintCorrected<D(==)>(it: Iter<D>): (hint: (nat, Option<nat>))
    ensures hint == (|Remaining(it)|, Some(|Remaining(it)|))
  {
    var n := RemainingCount(it);
    (n, Some(n))
  }

  /** `size_hint_works` and `iteration_works` on the crate's test tree. */
  method TestScenario() returns (hint: (nat, Option<nat>), nodes: seq<Node<()>>)
    ensures hint == (6, Some(6))
    ensures |nodes| == 6
    ensures forall i, j :: 0 <= i < j < |nodes| ==> nodes[i].entry.interval.start <= nodes[j].entry.interval.start
  {
    var root := IntervalTreeArray.FromRanges(IntervalTreeArray.TestRanges());
    hint := SizeHint(New(root));
    nodes := CollectInorder(root);
    InorderNodesCarryEntries(root);
    YieldsByStart(root);
  }
}

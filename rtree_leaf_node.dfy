/**
 * The growable R-tree leaf (src/rtree/nodes/leaf_node.rs): a box and an
 * unbounded vector of entries, used by the first linear split. The box
 * is grown by `grow`, whose body is not part of this model, so every
 * method takes it as a parameter.
 */
module RLeafNode {
  import opened RBoundingBox
  import opened RNodeTraits

  /** `Entry`: an object's box and its `usize` id. */
  datatype Entry = Entry(bb: BoundingBox, id: nat)

  /** `Entry::new`. */
  function NewEntry(id: nat, bb: BoundingBox): (e: Entry)
    ensures e.id == id && e.bb == bb
  {
    Entry(bb, id)
  }

  /** `ToBoundingBox for Entry` (and `AsBoundingBox`): the entry's own box. */
  function EntryToBb(e: Entry): (b: BoundingBox)
    ensures b == e.bb
  {
    e.bb
  }

  /** The entries of a leaf node seen as a slice of boxes. */
  function EntryBoxes(entries: seq<Entry>): seq<BoundingBox>
  {
    Boxes(entries, EntryToBb)
  }

  /**
   * The loop of every `update_bounding_box`: starting from the default
   * box of `n` dimensions, grow it by each box in turn.
   */
  method GrowOver(boxes: seq<BoundingBox>, grow: (BoundingBox, BoundingBox) -> BoundingBox, n: nat) returns (b: BoundingBox)
    ensures b == ToBb(boxes, grow, n)
  {
    b := RBoundingBox.Default(n);
    for i := 0 to |boxes|
      invariant FoldGrow(b, boxes[i..], grow) == ToBb(boxes, grow, n)
    {
      assert boxes[i..][1..] == boxes[i + 1..];
      b := grow(b, boxes[i]);
    }
    assert boxes[|boxes|..] == [];
  }

  class LeafNode {
    /** `M`, the fill target. */
    const capacity: nat
    /** `N`, the number of dimensions. */
    const dims: nat
    var bb: BoundingBox
    var entries: seq<Entry>

    /** The node's box and every entry's box have `N` dimensions. */
    ghost predicate Shaped()
      reads this
    {
      |bb.dims| == dims && AllDims(EntryBoxes(entries), dims)
    }

    /** The node's box contains every entry's box. */
    ghost predicate Covers()
      reads this
    {
      forall i :: 0 <= i < |entries| ==> Encloses(bb, entries[i].bb)
    }

    /** `Default`: the default box and no entries. */
    constructor (m: nat, n: nat)
      ensures capacity == m && dims == n
      ensures bb == RBoundingBox.Default(n) && entries == []
      ensures Shaped() && Covers()
    {
      capacity := m;
      dims := n;
      bb := RBoundingBox.Default(n);
      entries := [];
    }

    /** `is_full`, which includes overfull. */
    function IsFull(): (r: bool)
      reads this
      ensures r <==> |entries| >= capacity
    {
      |entries| >= MaxFill(capacity)
    }

    /** `is_overfull`: more entries than `M`; exactly `M` is not overfull. */
    function IsOverfull(): (r: bool)
      reads this
      ensures r <==> |entries| > capacity
    {
      |entries| > MaxFill(capacity)
    }

    /** `is_underfull`: fewer than `MIN_FILL`, that is fewer than half of `M`. */
    function IsUnderfull(): (r: bool)
      reads this
      ensures r <==> 2 * |entries| < capacity
    {
      |entries| < MinFill(capacity)
    }

    /** `len`. */
    function Len(): (n: nat)
      reads this
      ensures n == |entries|
    {
      |entries|
    }

    /** `is_empty`. */
    function IsEmpty(): (r: bool)
      reads this
      ensures r <==> Len() == 0
    {
      |entries| == 0
    }

    /** `contains`: the node's own box contains `other`. */
    function Contains(other: BoundingBox): (r: bool)
      reads this
      ensures r ==> |other.dims| == |bb.dims|
      ensures Covers() ==> forall i :: 0 <= i < |entries| && Encloses(entries[i].bb, other) ==> r
    {
      assert Covers() ==> forall i :: 0 <= i < |entries| && Encloses(entries[i].bb, other) ==> Encloses(bb, other) by {
        forall i | Covers() && 0 <= i < |entries| && Encloses(entries[i].bb, other)
          ensures Encloses(bb, other)
        {
          EnclosesTransitive(bb, entries[i].bb, other);
        }
      }
      Encloses(bb, other)
    }

    /** `update_bounding_box`: the box becomes `grow` folded over the entries' boxes. */
    method UpdateBoundingBox(grow: (BoundingBox, BoundingBox) -> BoundingBox)
      modifies this
      ensures entries == old(entries)
      ensures bb == ToBb(EntryBoxes(entries), grow, dims)
      ensures GrowEncloses(grow) && AllDims(EntryBoxes(entries), dims) ==> Covers()
    {
      bb := GrowOver(EntryBoxes(entries), grow, dims);
      if GrowEncloses(grow) && AllDims(EntryBoxes(entries), dims) {
        ToBbEnclosesAll(EntryBoxes(entries), grow, dims);
      }
    }

    /** `insert`: `debug_assert`s the node is not overfull, grows the box and appends the entry. */
    method Insert(id: nat, newBox: BoundingBox, grow: (BoundingBox, BoundingBox) -> BoundingBox)
      requires !IsOverfull()
      modifies this
      ensures bb == grow(old(bb), newBox)
      ensures entries == old(entries) + [NewEntry(id, newBox)]
      ensures GrowEncloses(grow) && old(Shaped()) && |newBox.dims| == dims && old(Covers()) ==> Shaped() && Covers()
    {
      Push(id, newBox, grow);
    }

    /** `insert_unchecked`: grows and appends unconditionally, reporting whether the node is still within `M`. */
    method InsertUnchecked(id: nat, newBox: BoundingBox, grow: (BoundingBox, BoundingBox) -> BoundingBox) returns (ok: bool)
      modifies this
      ensures bb == grow(old(bb), newBox)
      ensures entries == old(entries) + [NewEntry(id, newBox)]
      ensures ok <==> |entries| <= capacity
      ensures GrowEncloses(grow) && old(Shaped()) && |newBox.dims| == dims && old(Covers()) ==> Shaped() && Covers()
    {
      Push(id, newBox, grow);
      ok := !IsOverfull();
    }

    /** The two statements `insert` and `insert_unchecked` share. */
    method Push(id: nat, newBox: BoundingBox, grow: (BoundingBox, BoundingBox) -> BoundingBox)
      modifies this
      ensures bb == grow(old(bb), newBox)
      ensures entries == old(entries) + [NewEntry(id, newBox)]
      ensures GrowEncloses(grow) && old(Shaped()) && |newBox.dims| == dims && old(Covers()) ==> Shaped() && Covers()
    {
      ghost var before := bb;
      bb := grow(bb, newBox);
      entries := entries + [NewEntry(id, newBox)];
      if GrowEncloses(grow) && |before.dims| == dims && |newBox.dims| == dims {
        assert Encloses(bb, before) && Encloses(bb, newBox);
        forall i | 0 <= i < |entries| - 1 && Encloses(before, entries[i].bb)
          ensures Encloses(bb, entries[i].bb)
        {
          EnclosesTransitive(bb, before, entries[i].bb);
        }
      }
    }
  }
}

/**
 * The bounded R-tree leaf (src/rtree/nodes/rtree_leaf.rs): at most `M`
 * index records in an `ArrayVec`. Inserting into a leaf with `M` records
 * is refused instead of overflowing.
 */
module RLeaf {
  import opened RBoundingBox
  import opened RNodeTraits

  /** `IndexRecordEntry`: an object's box and its identifier. */
  datatype IndexRecordEntry<Id> = IndexRecordEntry(bb: BoundingBox, id: Id)

  /** `IndexRecordEntry::new`. */
  function NewEntry<Id>(id: Id, bb: BoundingBox): (e: IndexRecordEntry<Id>)
    ensures e.id == id && e.bb == bb
  {
    IndexRecordEntry(bb, id)
  }

  /** `Borrow<BoundingBox> for IndexRecordEntry`: the record's box. */
  function RecordBb<Id>(e: IndexRecordEntry<Id>): (b: BoundingBox)
    ensures b == e.bb
  {
    e.bb
  }

  /** The records of a leaf seen as a slice of boxes. */
  function EntryBoxes<Id>(entries: seq<IndexRecordEntry<Id>>): seq<BoundingBox>
  {
    Boxes(entries, RecordBb)
  }

  class RTreeLeaf<Id> {
    /** `M`, the `ArrayVec` capacity. */
    const capacity: nat
    var entries: seq<IndexRecordEntry<Id>>

    /** The `ArrayVec` never holds more than `M` records. */
    ghost predicate Valid()
      reads this
    {
      |entries| <= capacity
    }

    /** `Default`: no records. */
    constructor (m: nat)
      ensures capacity == m && entries == []
      ensures Valid()
    {
      capacity := m;
      entries := [];
    }

    /** `insert_entry`: refuses a record when the leaf already holds `M`, appends it otherwise. */
    method InsertEntry(entry: IndexRecordEntry<Id>) returns (inserted: bool)
      requires Valid()
      modifies this
      ensures Valid()
      ensures inserted <==> !IsFull(old(|entries|), capacity)
      ensures inserted ==> entries == old(entries) + [entry]
      ensures !inserted ==> entries == old(entries)
    {
      if |entries| == capacity {
        return false;
      }
      entries := entries + [entry];
      return true;
    }

    /** `insert`: wraps the id and box into a record and inserts that. */
    method Insert(id: Id, bb: BoundingBox) returns (inserted: bool)
      requires Valid()
      modifies this
      ensures Valid()
      ensures inserted <==> !IsFull(old(|entries|), capacity)
      ensures inserted ==> entries == old(entries) + [NewEntry(id, bb)]
      ensures !inserted ==> entries == old(entries)
    {
      inserted := InsertEntry(NewEntry(id, bb));
    }

    /** `contains`: some record's box contains `other`. */
    function Contains(other: BoundingBox): (r: bool)
      reads this
      ensures r <==> exists i :: 0 <= i < |entries| && Encloses(entries[i].bb, other)
    {
      SliceContains(EntryBoxes(entries), other)
    }

    /** `len`. */
    function Len(): (n: nat)
      reads this
      ensures n == |entries|
    {
      |entries|
    }

    /** `is_empty`. */
    function IsEmpty(): (r: bool)
      reads this
      ensures r <==> entries == []
    {
      |entries| == 0
    }

    /** `is_leaf`: always true for this node type. */
    function IsLeaf(): (r: bool)
      ensures r
    {
      true
    }
  }

  /** A leaf of capacity two takes two records and refuses the third. */
  method InsertScenario(bb: BoundingBox) returns (first: bool, second: bool, third: bool, len: nat)
    ensures first && second && !third && len == 2
  {
    var leaf := new RTreeLeaf<nat>(2);
    first := leaf.Insert(0, bb);
    second := leaf.Insert(1, bb);
    third := leaf.Insert(2, bb);
    len := leaf.Len();
  }

  /** A fresh leaf holds no records and so contains no box. */
  method DefaultScenario(other: BoundingBox) returns (empty: bool, contains: bool)
    ensures empty && !contains
  {
    var leaf := new RTreeLeaf<nat>(4);
    empty := leaf.IsEmpty();
    contains := leaf.Contains(other);
  }
}

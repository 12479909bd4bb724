/**
 * The `Quadrants` bit code of the quadtree (src/quadtree/quadrants.rs).
 * Bit 0 stands for "this" node, bits 1..4 for the top-left, top-right,
 * bottom-left and bottom-right child quadrants. `mutation_index` maps a
 * code to a slot in the five-element array [this, TL, TR, BL, BR].
 */
module Quadrants {

  datatype Quadrants = Quadrants(code: bv8)

  /** Rust's `b as u8` for a `bool`. */
  function Bit(b: bool): (r: bv8)
    ensures r == 0 || r == 1
    ensures (r == 1) == b
  {
    if b then 1 else 0
  }

  /** `at(index)` tests bit `index`; `1 << index` is a `u8` shift, which overflows from 8 on. */
  function At(q: Quadrants, index: nat): (r: bool)
    requires index < 8
    ensures r <==> (q.code >> index) & 1 == 1
  {
    var value := (1 as bv8) << index;
    q.code & value == value
  }

  /** Number of the four quadrant bits (1..4) that are set. */
  function QuadrantCount(q: Quadrants): nat
  {
    (if At(q, 1) then 1 else 0) + (if At(q, 2) then 1 else 0)
    + (if At(q, 3) then 1 else 0) + (if At(q, 4) then 1 else 0)
  }

  /**
   * `from_tests`: "this" is set iff the box spans both horizontal sides or
   * both vertical sides; each quadrant bit is the conjunction of its two sides.
   */
  function FromTests(left: bool, top: bool, right: bool, bottom: bool): (q: Quadrants)
    ensures At(q, 0) <==> (left && right) || (top && bottom)
    ensures At(q, 1) <==> top && left
    ensures At(q, 2) <==> top && right
    ensures At(q, 3) <==> bottom && left
    ensures At(q, 4) <==> bottom && right
    ensures q.code >> 5 == 0
  {
    var coversMany := (left && right) || (top && bottom);
    Quadrants(Bit(coversMany) + (Bit(top && left) << 1) + (Bit(top && right) << 2)
              + (Bit(bottom && left) << 3) + (Bit(bottom && right) << 4))
  }

  /**
   * `from_intersections`: "this" is set only for the pairs TL&TR, TL&BL,
   * TR&BR and TL&BR (the pairs TR&BL and BL&BR are not among them).
   */
  function FromIntersections(topLeft: bool, topRight: bool, bottomLeft: bool, bottomRight: bool): (q: Quadrants)
    ensures At(q, 0) <==> (topLeft && topRight) || (topLeft && bottomLeft)
                          || (topRight && bottomRight) || (topLeft && bottomRight)
    ensures At(q, 1) == topLeft && At(q, 2) == topRight
    ensures At(q, 3) == bottomLeft && At(q, 4) == bottomRight
    ensures q.code >> 5 == 0
  {
    var coversMany := (topLeft && topRight) || (topLeft && bottomLeft)
                      || (topRight && bottomRight) || (topLeft && bottomRight);
    Quadrants(Bit(coversMany) + (Bit(topLeft) << 1) + (Bit(topRight) << 2)
              + (Bit(bottomLeft) << 3) + (Bit(bottomRight) << 4))
  }

  function SelfOnly(): (q: Quadrants)
    ensures At(q, 0) && QuadrantCount(q) == 0
  {
    Quadrants(1)
  }

  function All(): (q: Quadrants)
    ensures forall i :: 0 <= i < 5 ==> At(q, i)
    ensures q.code == 31
  {
    Quadrants(1 + 2 + 4 + 8 + 16)
  }

  function This(q: Quadrants): (r: bool)
    ensures r == At(q, 0)
  {
    q.code & 1 == 1
  }

  function TopLeft(q: Quadrants): (r: bool)
    ensures r == At(q, 1)
  {
    q.code & 2 == 2
  }

  function TopRight(q: Quadrants): (r: bool)
    ensures r == At(q, 2)
  {
    q.code & 4 == 4
  }

  /** As written: the masked bit is compared with 5, so this never holds. */
  function BottomLeft(q: Quadrants): (r: bool)
    ensures !r
  {
    q.code & 8 == 5
  }

  /** As written: the masked bit is compared with 6, so this never holds. */
  function BottomRight(q: Quadrants): (r: bool)
    ensures !r
  {
    q.code & 16 == 6
  }

  /** The evidently intended accessor: compare the masked bit with the mask itself. */
  function BottomLeftCorrected(q: Quadrants): (r: bool)
    ensures r == At(q, 3)
  {
    q.code & 8 == 8
  }

  /** The evidently intended accessor: compare the masked bit with the mask itself. */
  function BottomRightCorrected(q: Quadrants): (r: bool)
    ensures r == At(q, 4)
  {
    q.code & 16 == 16
  }

  /**
   * `mutation_index`, computed in `u32`: the weighted sum of the quadrant bits,
   * zeroed when the "this" bit is set.
   */
  function MutationIndex(q: Quadrants): (r: nat)
    ensures r == if At(q, 0) then 0
                 else (if At(q, 1) then 1 else 0) + (if At(q, 2) then 2 else 0)
                      + (if At(q, 3) then 3 else 0) + (if At(q, 4) then 4 else 0)
  {
    var bits := q.code as bv32;
    var offsetThis := bits & 1;
    var offsetTl := (bits >> 1) & 1;
    var offsetTr := (bits >> 2) & 1;
    var offsetBl := (bits >> 3) & 1;
    var offsetBr := (bits >> 4) & 1;
    ((offsetTl + offsetTr * 2 + offsetBl * 3 + offsetBr * 4) * (1 - offsetThis)) as nat
  }

  /**
   * The evidently intended `from_intersections`: "this" is set whenever two or
   * more quadrants are touched, so the mutation index always names one slot.
   */
  function FromIntersectionsCorrected(topLeft: bool, topRight: bool, bottomLeft: bool, bottomRight: bool): (q: Quadrants)
    ensures At(q, 0) <==> QuadrantCount(q) >= 2
    ensures At(q, 1) == topLeft && At(q, 2) == topRight
    ensures At(q, 3) == bottomLeft && At(q, 4) == bottomRight
  {
    var count := Bit(topLeft) + Bit(topRight) + Bit(bottomLeft) + Bit(bottomRight);
    Quadrants(Bit(count >= 2) + (Bit(topLeft) << 1) + (Bit(topRight) << 2)
              + (Bit(bottomLeft) << 3) + (Bit(bottomRight) << 4))
  }

  /** The code-to-slot table the unit test spells out. */
  lemma MutationIndexOfPlainCodes()
    ensures MutationIndex(Quadrants(1)) == 0
    ensures MutationIndex(Quadrants(2)) == 1
    ensures MutationIndex(Quadrants(4)) == 2
    ensures MutationIndex(Quadrants(8)) == 3
    ensures MutationIndex(Quadrants(16)) == 4
    ensures MutationIndex(Quadrants(0)) == 0
  {
  }

  /** Whenever the "this" bit is set, the slot is "this" (index 0). */
  lemma MutationIndexOfThis(q: Quadrants)
    requires This(q)
    ensures MutationIndex(q) == 0
  {
  }

  /** One touched quadrant gives its own slot; two neighbouring ones give "this". */
  lemma FromIntersectionsSlots()
    ensures MutationIndex(FromIntersections(true, false, false, false)) == 1
    ensures MutationIndex(FromIntersections(false, true, false, false)) == 2
    ensures MutationIndex(FromIntersections(false, false, true, false)) == 3
    ensures MutationIndex(FromIntersections(false, false, false, true)) == 4
    ensures This(FromIntersections(true, false, true, false))
    ensures MutationIndex(FromIntersections(true, false, true, false)) == 0
    ensures MutationIndex(FromIntersections(false, false, false, false)) == 0
  {
  }

  /**
   * `from_tests` never yields a code outside the five slots: without the
   * "this" bit at most one quadrant bit is set.
   */
  lemma FromTestsSingleSlot(left: bool, top: bool, right: bool, bottom: bool)
    ensures var q := FromTests(left, top, right, bottom);
            (!This(q) ==> QuadrantCount(q) <= 1) && MutationIndex(q) < 5
  {
  }

  /**
   * As written, `from_intersections` leaves "this" clear for the pairs TR&BL and
   * BL&BR, so `mutation_index` points past the five-element array.
   */
  lemma FromIntersectionsMissesPairs()
    ensures !This(FromIntersections(false, true, true, false))
    ensures MutationIndex(FromIntersections(false, true, true, false)) == 5
    ensures MutationIndex(FromIntersections(false, false, true, true)) == 7
  {
  }

  /** The corrected constructor always selects exactly one of the five slots. */
  lemma FromIntersectionsCorrectedSlot(topLeft: bool, topRight: bool, bottomLeft: bool, bottomRight: bool)
    ensures var q := FromIntersectionsCorrected(topLeft, topRight, bottomLeft, bottomRight);
            && MutationIndex(q) < 5
            && (MutationIndex(q) == 0 <==> QuadrantCount(q) != 1)
            && (QuadrantCount(q) == 1 ==> At(q, MutationIndex(q)))
  {
  }

  /**
   * As written, the bottom accessors disagree with `at`: a code with only the
   * bottom-left (or bottom-right) bit reports it through `at` but not through
   * the accessor.
   */
  lemma BottomAccessorsDisagreeWithAt()
    ensures At(FromIntersections(false, false, true, false), 3)
    ensures !BottomLeft(FromIntersections(false, false, true, false))
    ensures At(FromIntersections(false, false, false, true), 4)
    ensures !BottomRight(FromIntersections(false, false, false, true))
  {
  }
}

/**
 * What every R-tree node shares (src/rtree/nodes/node_traits.rs): the
 * fill thresholds derived from the capacity `M`, containment over a slice
 * of boxes, and the box spanning a slice.
 */
module RNodeTraits {
  import opened RBoundingBox

  /** `MAX_FILL = M`. */
  function MaxFill(m: nat): (n: nat)
    ensures n == m
  {
    m
  }

  /** `MIN_FILL = (M + 1) / 2`: half the capacity, rounded up. */
  function MinFill(m: nat): (n: nat)
    ensures 2 * n == m || 2 * n == m + 1
  {
    (m + 1) / 2
  }

  /** `is_full`, which also holds when overfull. */
  predicate IsFull(len: nat, m: nat)
  {
    len >= MaxFill(m)
  }

  /** `is_underfull`: strictly fewer than `MIN_FILL` entries. */
  predicate IsUnderfull(len: nat, m: nat)
  {
    len < MinFill(m)
  }

  /** A node holding exactly `MIN_FILL` entries is not underfull, one with fewer is. */
  lemma MinFillBoundary(m: nat)
    ensures !IsUnderfull(MinFill(m), m)
    ensures MinFill(m) > 0 ==> IsUnderfull(MinFill(m) - 1, m)
  {
  }

  /** With room for at least one entry, a full node is never underfull. */
  lemma FullIsNotUnderfull(len: nat, m: nat)
    requires m >= 1 && IsFull(len, m)
    ensures !IsUnderfull(len, m)
  {
  }

  /**
   * A slice of `Target: Borrow<BoundingBox>` seen as boxes: each element
   * through `borrow` (or `to_bb`), in order.
   */
  function Boxes<E>(es: seq<E>, borrow: E -> BoundingBox): (boxes: seq<BoundingBox>)
    ensures |boxes| == |es|
    ensures forall i :: 0 <= i < |es| ==> boxes[i] == borrow(es[i])
  {
    seq(|es|, i requires 0 <= i < |es| => borrow(es[i]))
  }

  /** `[Target]::contains`: `any` box of the slice contains `other`. */
  function SliceContains(boxes: seq<BoundingBox>, other: BoundingBox): (r: bool)
    ensures r <==> exists i :: 0 <= i < |boxes| && Encloses(boxes[i], other)
  {
    if boxes == [] then false
    else Encloses(boxes[0], other) || SliceContains(boxes[1..], other)
  }

  /** The empty slice contains nothing. */
  lemma EmptySliceContainsNothing(other: BoundingBox)
    ensures !SliceContains([], other)
  {
  }

  /**
   * `to_bb`: folds `into_grown` over the slice, starting from the default box.
   * `grow` stands for `into_grown`, whose body is not part of this model.
   */
  function ToBb(boxes: seq<BoundingBox>, grow: (BoundingBox, BoundingBox) -> BoundingBox, n: nat): (b: BoundingBox)
    ensures boxes == [] ==> b == Default(n)
  {
    FoldGrow(Default(n), boxes, grow)
  }

  /** Left fold of `grow` over `boxes`. */
  function FoldGrow(acc: BoundingBox, boxes: seq<BoundingBox>, grow: (BoundingBox, BoundingBox) -> BoundingBox): BoundingBox
    decreases |boxes|
  {
    if boxes == [] then acc else FoldGrow(grow(acc, boxes[0]), boxes[1..], grow)
  }

  /** `grow(a, b)` contains both `a` and `b` whenever they have the same dimensions. */
  ghost predicate GrowEncloses(grow: (BoundingBox, BoundingBox) -> BoundingBox)
  {
    forall a: BoundingBox, b: BoundingBox :: |a.dims| == |b.dims| ==> Encloses(grow(a, b), a) && Encloses(grow(a, b), b)
  }

  /** Every box of the slice has `n` dimensions. */
  predicate AllDims(boxes: seq<BoundingBox>, n: nat)
  {
    forall i :: 0 <= i < |boxes| ==> |boxes[i].dims| == n
  }

  /**
   * If growing a box yields one that contains both inputs, the fold
   * contains its start and every box of the slice.
   */
  lemma {:induction false} FoldGrowEncloses(acc: BoundingBox, boxes: seq<BoundingBox>, grow: (BoundingBox, BoundingBox) -> BoundingBox)
    requires GrowEncloses(grow) && AllDims(boxes, |acc.dims|)
    ensures Encloses(FoldGrow(acc, boxes, grow), acc)
    ensures forall i :: 0 <= i < |boxes| ==> Encloses(FoldGrow(acc, boxes, grow), boxes[i])
    decreases |boxes|
  {
    if boxes != [] {
      var next := grow(acc, boxes[0]);
      assert |next.dims| == |acc.dims|;
      assert AllDims(boxes[1..], |next.dims|);
      FoldGrowEncloses(next, boxes[1..], grow);
      var r := FoldGrow(acc, boxes, grow);
      assert r == FoldGrow(next, boxes[1..], grow);
      EnclosesTransitive(r, next, acc);
      EnclosesTransitive(r, next, boxes[0]);
      forall i | 0 <= i < |boxes|
        ensures Encloses(r, boxes[i])
      {
        if i > 0 {
          assert boxes[i] == boxes[1..][i - 1];
        }
      }
    } else {
      EnclosesReflexive(acc);
    }
  }

  /** Under the same assumption, `to_bb` contains every box of the slice. */
  lemma ToBbEnclosesAll(boxes: seq<BoundingBox>, grow: (BoundingBox, BoundingBox) -> BoundingBox, n: nat)
    requires GrowEncloses(grow) && AllDims(boxes, n)
    ensures forall i :: 0 <= i < |boxes| ==> Encloses(ToBb(boxes, grow, n), boxes[i])
  {
    FoldGrowEncloses(Default(n), boxes, grow);
  }
}

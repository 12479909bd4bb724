/**
 * An N-dimensional box: one extent per dimension
 * (src/rtree/bounding_box.rs). The const generic `N` is the length of
 * `dims`; two boxes are only ever compared when they agree on it.
 */
module RBoundingBox {
  import opened RExtent

  datatype BoundingBox = BoundingBox(dims: seq<Extent>)

  /** Every extent of the box is well formed. */
  predicate WellFormed(b: BoundingBox)
  {
    forall i :: 0 <= i < |b.dims| ==> RExtent.WellFormed(b.dims[i])
  }

  /** `a` fully contains `b`: extent containment in every dimension. */
  predicate Encloses(a: BoundingBox, b: BoundingBox)
  {
    |a.dims| == |b.dims| &&
    forall i :: 0 <= i < |a.dims| ==> ContainsExtent(a.dims[i], b.dims[i])
  }

  /** `BoundingBox::new`. */
  function New(dims: seq<Extent>): (b: BoundingBox)
    ensures b.dims == dims
  {
    BoundingBox(dims)
  }

  /** `len()`: the number of dimensions `N`. */
  function Len(b: BoundingBox): (n: nat)
    ensures n == |b.dims|
  {
    |b.dims|
  }

  /** `Default`: the unit extent in each of the `n` dimensions. */
  function Default(n: nat): (b: BoundingBox)
    ensures |b.dims| == n
    ensures forall i :: 0 <= i < n ==> b.dims[i] == RExtent.Default()
    ensures WellFormed(b)
  {
    BoundingBox(seq(n, _ => RExtent.Default()))
  }

  /** The ranges handed to `new_from_ranges` each satisfy its `debug_assert`. */
  predicate RangesWellFormed(ranges: seq<RangeInclusive>)
  {
    forall i :: 0 <= i < |ranges| ==> ranges[i].first <= ranges[i].last
  }

  /** `new_from_ranges`: writes `Extent::from(&dims[i])` into slot `i` of a fresh array. */
  method NewFromRanges(ranges: seq<RangeInclusive>) returns (b: BoundingBox)
    requires RangesWellFormed(ranges)
    ensures |b.dims| == |ranges|
    ensures forall i :: 0 <= i < |ranges| ==> b.dims[i] == NewFromRange(ranges[i])
    ensures WellFormed(b)
  {
    var data := new Extent[|ranges|](_ => RExtent.Default());
    for i := 0 to |ranges|
      invariant forall k :: 0 <= k < i ==> data[k] == NewFromRange(ranges[k])
    {
      data[i] := NewFromRange(ranges[i]);
    }
    b := New(data[..]);
  }

  /** `contains`: the loop stops at the first dimension that is not contained. */
  method Contains(a: BoundingBox, b: BoundingBox) returns (r: bool)
    requires |a.dims| == |b.dims|
    ensures r <==> Encloses(a, b)
    ensures !r ==> exists i :: 0 <= i < |a.dims| && !ContainsExtent(a.dims[i], b.dims[i])
  {
    for i := 0 to |a.dims|
      invariant forall k :: 0 <= k < i ==> ContainsExtent(a.dims[k], b.dims[k])
    {
      if !ContainsExtent(a.dims[i], b.dims[i]) {
        return false;
      }
    }
    return true;
  }

  /** Box containment is reflexive. */
  lemma EnclosesReflexive(a: BoundingBox)
    ensures Encloses(a, a)
  {
  }

  /** Box containment is transitive, because extent containment is. */
  lemma EnclosesTransitive(a: BoundingBox, b: BoundingBox, c: BoundingBox)
    requires Encloses(a, b) && Encloses(b, c)
    ensures Encloses(a, c)
  {
  }

  /** Two boxes of the same shape, built from two-dimensional range arrays. */
  function Box2(x: RangeInclusive, y: RangeInclusive): (b: BoundingBox)
    requires x.first <= x.last && y.first <= y.last
    ensures |b.dims| == 2 && b.dims[0] == NewFromRange(x) && b.dims[1] == NewFromRange(y)
  {
    BoundingBox([NewFromRange(x), NewFromRange(y)])
  }

  /** `contains_works`. */
  lemma ContainsExamples()
    ensures Encloses(Box2(RangeInclusive(0.0, 1.0), RangeInclusive(0.0, 1.0)),
                     Box2(RangeInclusive(0.25, 0.75), RangeInclusive(0.0, 1.0)))
    ensures !Encloses(Box2(RangeInclusive(0.0, 1.0), RangeInclusive(0.0, 1.0)),
                      Box2(RangeInclusive(0.25, 0.75), RangeInclusive(0.0, 1.5)))
    ensures !Encloses(Box2(RangeInclusive(0.0, 1.0), RangeInclusive(0.0, 1.0)),
                      Box2(RangeInclusive(-1.0, 1.0), RangeInclusive(0.0, 1.0)))
  {
    var a := Box2(RangeInclusive(0.0, 1.0), RangeInclusive(0.0, 1.0));
    var c := Box2(RangeInclusive(0.25, 0.75), RangeInclusive(0.0, 1.5));
    var d := Box2(RangeInclusive(-1.0, 1.0), RangeInclusive(0.0, 1.0));
    assert !ContainsExtent(a.dims[1], c.dims[1]);
    assert !ContainsExtent(a.dims[0], d.dims[0]);
  }

  /** `new_from_ranges_works`, `new_works` and `default_works`. */
  method ConstructionScenario() returns (fromRanges: BoundingBox, fromExtents: BoundingBox, byDefault: BoundingBox)
    ensures fromRanges == fromExtents
    ensures Len(fromExtents) == 2
    ensures fromExtents.dims[1] == Extent(0.1, 2.0)
    ensures Len(byDefault) == 3 && byDefault.dims[2] == RExtent.Default()
  {
    var x, y := RangeInclusive(0.0, 1.0), RangeInclusive(0.1, 2.0);
    fromRanges := NewFromRanges([x, y]);
    fromExtents := New([NewFromRange(x), NewFromRange(y)]);
    byDefault := Default(3);
  }
}

/**
 * The closed one-dimensional range an R-tree box spans along one axis
 * (src/rtree/extent.rs). Coordinates are mathematical reals.
 */
module RExtent {
  /** An extent `start..=end`; the constructors ask for `start <= end`. */
  datatype Extent = Extent(start: real, end: real)

  /** Rust's `RangeInclusive<T>`, `first..=last`. */
  datatype RangeInclusive = RangeInclusive(first: real, last: real)

  /** Rust's half-open `Range<T>`, `start..end`. */
  datatype Range = Range(start: real, end: real)

  predicate WellFormed(e: Extent)
  {
    e.start <= e.end
  }

  /** `Extent::new`, whose `debug_assert` demands `start <= end`. */
  function New(start: real, end: real): (e: Extent)
    requires start <= end
    ensures e.start == start && e.end == end
    ensures WellFormed(e)
  {
    Extent(start, end)
  }

  /** `Extent::new_from_range`, and `From<R>` which calls it. */
  function NewFromRange(r: RangeInclusive): (e: Extent)
    requires r.first <= r.last
    ensures e.start == r.first && e.end == r.last
    ensures WellFormed(e)
  {
    Extent(r.first, r.last)
  }

  /** `Default`: the unit extent `0..1`. */
  function Default(): (e: Extent)
    ensures e.start == 0.0 && e.end == 1.0
    ensures WellFormed(e)
  {
    Extent(0.0, 1.0)
  }

  /** `Into<RangeInclusive<T>>`. */
  function IntoRange(e: Extent): (r: RangeInclusive)
    ensures r.first == e.start && r.last == e.end
  {
    RangeInclusive(e.start, e.end)
  }

  /** `Contains<T>`: the value lies within the closed extent. */
  predicate ContainsValue(e: Extent, v: real)
  {
    e.start <= v && v <= e.end
  }

  /** `Contains<Extent<T>>`: only the two boundaries are compared. */
  predicate ContainsExtent(e: Extent, other: Extent)
  {
    e.start <= other.start && other.end <= e.end
  }

  /** `Contains<Range<T>>`: the half-open range is checked as if it were closed. */
  predicate ContainsRange(e: Extent, r: Range)
  {
    e.start <= r.start && r.start <= e.end && e.start <= r.end && r.end <= e.end
  }

  /** `Contains<RangeInclusive<T>>`: all four bounds are checked. */
  predicate ContainsRangeInclusive(e: Extent, r: RangeInclusive)
  {
    e.start <= r.first && r.first <= e.end && e.start <= r.last && r.last <= e.end
  }

  /** A well-formed extent contains both of its bounds. */
  lemma ContainsOwnBounds(e: Extent)
    requires WellFormed(e)
    ensures ContainsValue(e, e.start) && ContainsValue(e, e.end)
  {
  }

  /** Extent containment is reflexive and transitive. */
  lemma ContainsExtentPreorder(a: Extent, b: Extent, c: Extent)
    ensures ContainsExtent(a, a)
    ensures ContainsExtent(a, b) && ContainsExtent(b, c) ==> ContainsExtent(a, c)
  {
  }

  /** Containing an extent means containing every value it contains. */
  lemma ContainsExtentValues(a: Extent, b: Extent, v: real)
    requires ContainsExtent(a, b) && ContainsValue(b, v)
    ensures ContainsValue(a, v)
  {
  }

  /**
   * For a well-formed range the four-bound check agrees with containment
   * of the extent built from the range.
   */
  lemma RangeInclusiveAgreesWithExtent(e: Extent, r: RangeInclusive)
    requires r.first <= r.last
    ensures ContainsRangeInclusive(e, r) <==> ContainsExtent(e, NewFromRange(r))
  {
  }

  /** `Extent::from(r).into()` gives back `r`, and the converse. */
  lemma RangeRoundTrip(r: RangeInclusive, e: Extent)
    requires r.first <= r.last
    ensures IntoRange(NewFromRange(r)) == r
    ensures WellFormed(e) ==> NewFromRange(IntoRange(e)) == e
  {
  }

  /** The unit tests' values. */
  lemma ExtentExamples()
    ensures Default() == Extent(0.0, 1.0)
    ensures NewFromRange(RangeInclusive(2.0, 5.0)) == Extent(2.0, 5.0)
    ensures ContainsValue(Extent(2.0, 5.0), 2.5)
    ensures !ContainsValue(Extent(2.0, 5.0), 0.0) && !ContainsValue(Extent(2.0, 5.0), 5.1)
    ensures ContainsRange(Extent(2.0, 5.0), Range(2.0, 5.0))
    ensures ContainsExtent(Extent(2.0, 5.0), Extent(2.1, 4.9))
    ensures ContainsRangeInclusive(Extent(2.0, 5.0), RangeInclusive(2.1, 4.9))
    ensures !ContainsExtent(Extent(2.0, 5.0), Extent(2.1, 5.1))
    ensures !ContainsExtent(Extent(2.0, 5.0), Extent(1.9, 4.9))
    ensures !ContainsExtent(Extent(2.0, 5.0), Extent(1.9, 5.1))
    ensures !ContainsRangeInclusive(Extent(2.0, 5.0), RangeInclusive(2.1, 5.1))
    ensures !ContainsRangeInclusive(Extent(2.0, 5.0), RangeInclusive(1.9, 4.9))
    ensures !ContainsRangeInclusive(Extent(2.0, 5.0), RangeInclusive(1.9, 5.1))
  {
  }

  /** An extent rejects every extent that sticks out on either side. */
  lemma RejectsOverhang(e: Extent, other: Extent)
    requires other.start < e.start || e.end < other.end
    ensures !ContainsExtent(e, other)
  {
  }
}

/**
 * `Interval<T>` of the interval trees (src/interval_tree/interval.rs): a
 * closed interval `[start, end]`. The bound type is any `PartialOrd`
 * type; it is modelled as `int`.
 */
module Intervals {

  datatype Interval = Interval(start: int, end: int)

  /** `RangeInclusive<T>` (`a..=b`), the form most intervals are written in. */
  datatype RangeInclusive = RangeInclusive(first: int, last: int)

  /** `Interval::new(low, high)`: no check that `low <= high`. */
  function New(low: int, high: int): (i: Interval)
    ensures i.start == low && i.end == high
  {
    Interval(low, high)
  }

  /** `overlaps_with`: the closed intervals share at least one point. */
  predicate Overlaps(a: Interval, b: Interval)
  {
    a.start <= b.end && b.start <= a.end
  }

  /** `From<(T, T)>`. */
  function FromTuple(pair: (int, int)): (i: Interval)
    ensures i == New(pair.0, pair.1)
  {
    Interval(pair.0, pair.1)
  }

  /** `From<RangeInclusive<T>>` and `From<&RangeInclusive<T>>` (they copy the same two bounds). */
  function FromRange(r: RangeInclusive): (i: Interval)
    ensures i == New(r.first, r.last)
  {
    Interval(r.first, r.last)
  }

  /** The derived `PartialOrd`/`Ord`: lexicographic on `(start, end)`. */
  predicate LessEq(a: Interval, b: Interval)
  {
    a.start < b.start || (a.start == b.start && a.end <= b.end)
  }

  /** Overlap does not depend on the order of the two intervals. */
  lemma OverlapsSymmetric(a: Interval, b: Interval)
    ensures Overlaps(a, b) <==> Overlaps(b, a)
  {
  }

  /** An interval overlaps itself exactly when it is not empty. */
  lemma OverlapsSelf(a: Interval)
    ensures Overlaps(a, a) <==> a.start <= a.end
  {
  }

  /**
   * Two intervals are disjoint exactly when one ends strictly before the
   * other starts.
   */
  lemma DisjointIffSeparated(a: Interval, b: Interval)
    ensures !Overlaps(a, b) <==> a.end < b.start || b.end < a.start
  {
  }

  /** A point interval `[p, p]` overlaps `a` iff `p` lies in `a`. */
  lemma OverlapsPoint(a: Interval, p: int)
    ensures Overlaps(a, New(p, p)) <==> a.start <= p <= a.end
  {
  }

  /** The documentation examples: `[-2, 10]` overlaps `[0, 2]` but not `[20, 30]`. */
  lemma OverlapExamples()
    ensures Overlaps(FromRange(RangeInclusive(-2, 10)), FromRange(RangeInclusive(0, 2)))
    ensures !Overlaps(FromRange(RangeInclusive(-2, 10)), FromRange(RangeInclusive(20, 30)))
    ensures FromTuple((-2, 10)) == FromRange(RangeInclusive(-2, 10)) == New(-2, 10)
  {
  }

  /** The derived ordering is a total order. */
  lemma LessEqTotalOrder(a: Interval, b: Interval, c: Interval)
    ensures LessEq(a, a)
    ensures LessEq(a, b) || LessEq(b, a)
    ensures LessEq(a, b) && LessEq(b, a) ==> a == b
    ensures LessEq(a, b) && LessEq(b, c) ==> LessEq(a, c)
  {
  }
}

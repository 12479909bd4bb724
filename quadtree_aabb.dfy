/** The quadtree's edge-coordinate box (src/quadtree/aabb.rs). */
module Aabb {
  import opened Ints

  /** `x1`/`y1` are the left/top edges, `x2`/`y2` the right/bottom edges. */
  datatype AABB = AABB(x1: int, y1: int, x2: int, y2: int)

  /** A box whose four coordinates are `i32` values. */
  predicate IsI32Box(b: AABB)
  {
    IsI32(b.x1) && IsI32(b.y1) && IsI32(b.x2) && IsI32(b.y2)
  }

  /** An `[i32; 4]` array, written as a sequence of length 4. */
  predicate IsI32Array(a: seq<int>)
  {
    |a| == 4 && forall i :: 0 <= i < 4 ==> IsI32(a[i])
  }

  function New(x1: int, y1: int, x2: int, y2: int): (b: AABB)
    ensures b.x1 == x1 && b.y1 == y1 && b.x2 == x2 && b.y2 == y2
  {
    AABB(x1, y1, x2, y2)
  }

  /** `From<[i32; 4]>` and `From<&[i32; 4]>`, which share one body. */
  function FromArray(rect: seq<int>): (b: AABB)
    requires |rect| == 4
    ensures b.x1 == rect[0] && b.y1 == rect[1] && b.x2 == rect[2] && b.y2 == rect[3]
  {
    New(rect[0], rect[1], rect[2], rect[3])
  }

  /** `Into<[i32; 4]>`. */
  function IntoArray(b: AABB): (a: seq<int>)
    ensures |a| == 4
    ensures a[0] == b.x1 && a[1] == b.y1 && a[2] == b.x2 && a[3] == b.y2
    ensures IsI32Box(b) ==> IsI32Array(a)
  {
    [b.x1, b.y1, b.x2, b.y2]
  }

  /** `AsRef<[i32; 4]>` views the four fields in declaration order, as `into` does. */
  function AsRef(b: AABB): (a: seq<int>)
    ensures a == IntoArray(b)
  {
    [b.x1, b.y1, b.x2, b.y2]
  }

  /** Array -> AABB -> array is the identity. */
  lemma ArrayRoundTrip(rect: seq<int>)
    requires |rect| == 4
    ensures IntoArray(FromArray(rect)) == rect
  {
  }

  /** AABB -> array -> AABB is the identity. */
  lemma BoxRoundTrip(b: AABB)
    ensures FromArray(IntoArray(b)) == b
  {
  }

  /** The unit tests' values. */
  lemma ConversionExamples()
    ensures FromArray([1, 2, 3, 4]) == AABB(1, 2, 3, 4)
    ensures AsRef(New(1, 2, 3, 4)) == [1, 2, 3, 4]
  {
  }
}

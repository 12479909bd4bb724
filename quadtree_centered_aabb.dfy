/**
 * The centred box of a quadtree node and the routines that choose which of the
 * four child quadrants a query touches (src/quadtree/centered_aabb.rs).
 */
module CenteredAabb {
  import opened Ints
  import opened Aabb

  datatype CenteredAABB = CenteredAABB(centerX: int, centerY: int, width: int, height: int)

  /** The four flags this file's own `Quadrants` struct holds. */
  datatype Quadrants = Quadrants(topLeft: bool, topRight: bool, bottomLeft: bool, bottomRight: bool)

  predicate IsI32Centered(c: CenteredAABB)
  {
    IsI32(c.centerX) && IsI32(c.centerY) && IsI32(c.width) && IsI32(c.height)
  }

  function FromCenterXyWh(centerX: int, centerY: int, width: int, height: int): (c: CenteredAABB)
    ensures Index(c, 0) == centerX && Index(c, 1) == centerY
    ensures Index(c, 2) == width && Index(c, 3) == height
  {
    CenteredAABB(centerX, centerY, width, height)
  }

  /**
   * `from_ltwh`: the centre is the left/top edge plus half the width/height
   * (`>> 1`); the `i32` additions must not overflow.
   */
  function FromLtwh(left: int, top: int, width: int, height: int): (c: CenteredAABB)
    requires IsI32(left) && IsI32(top) && IsI32(width) && IsI32(height)
    requires IsI32(left + Half(width)) && IsI32(top + Half(height))
    ensures IsI32Centered(c)
    ensures 2 * (c.centerX - left) <= width <= 2 * (c.centerX - left) + 1
    ensures 2 * (c.centerY - top) <= height <= 2 * (c.centerY - top) + 1
    ensures c.width == width && c.height == height
  {
    FromCenterXyWh(left + Half(width), top + Half(height), width, height)
  }

  /** `Index<usize>`: the fields in declaration order; the index must be below 4. */
  function Index(c: CenteredAABB, index: nat): (r: int)
    requires index < 4
    ensures r == [c.centerX, c.centerY, c.width, c.height][index]
  {
    match index
    case 0 => c.centerX
    case 1 => c.centerY
    case 2 => c.width
    case 3 => c.height
  }

  /** The unit tests' values. */
  lemma ConstructorExamples()
    ensures FromLtwh(-5, 0, 30, 40) == CenteredAABB(10, 20, 30, 40)
    ensures FromCenterXyWh(10, 20, 30, 40) == CenteredAABB(10, 20, 30, 40)
  {
  }

  /**
   * `explore_quadrants_aabb`: the box explores the top half iff its top edge is
   * at or above the centre, the bottom half iff its bottom edge is below it,
   * and likewise left/right; each quadrant is the conjunction of its two sides.
   */
  function ExploreQuadrantsAabb(c: CenteredAABB, other: AABB): (q: Quadrants)
    ensures q.topLeft <==> other.y1 <= c.centerY && other.x1 <= c.centerX
    ensures q.topRight <==> other.y1 <= c.centerY && other.x2 > c.centerX
    ensures q.bottomLeft <==> other.y2 > c.centerY && other.x1 <= c.centerX
    ensures q.bottomRight <==> other.y2 > c.centerY && other.x2 > c.centerX
  {
    var mx := c.centerX;
    var my := c.centerY;
    var exploreTop := other.y1 <= my;
    var exploreBottom := other.y2 > my;
    var exploreLeft := other.x1 <= mx;
    var exploreRight := other.x2 > mx;
    Quadrants(exploreTop && exploreLeft, exploreTop && exploreRight,
              exploreBottom && exploreLeft, exploreBottom && exploreRight)
  }

  /** A well-formed box always touches at least one quadrant. */
  lemma ExploreTouchesSomeQuadrant(c: CenteredAABB, other: AABB)
    requires other.x1 <= other.x2 && other.y1 <= other.y2
    ensures var q := ExploreQuadrantsAabb(c, other);
            q.topLeft || q.topRight || q.bottomLeft || q.bottomRight
  {
  }

  /** A box left of and above the centre touches only TL; one right of and below it only BR. */
  lemma ExploreCornerBoxes(c: CenteredAABB, other: AABB)
    requires other.x1 <= other.x2 && other.y1 <= other.y2
    ensures other.x2 <= c.centerX && other.y2 <= c.centerY
            ==> ExploreQuadrantsAabb(c, other) == Quadrants(true, false, false, false)
    ensures other.x1 > c.centerX && other.y1 > c.centerY
            ==> ExploreQuadrantsAabb(c, other) == Quadrants(false, false, false, true)
  {
  }

  /** The four `(w>>1) x (h>>1)` probe boxes of `explore_quadrants_generic`, as written. */
  function ProbeBoxes(c: CenteredAABB): (boxes: seq<AABB>)
    ensures |boxes| == 4
  {
    var mx := c.centerX;
    var my := c.centerY;
    var hx := Half(c.width);
    var hy := Half(c.height);
    var l := mx - hx;
    var t := my - hy;
    var r := mx + hx;
    var b := my + hy;
    [New(l, t, l + hx, t + hy), New(r, t, r + hx, t + hy),
     New(l, b, l + hx, b + hy), New(r, b, r + hx, b + hy)]
  }

  /** Every `i32` sum `explore_quadrants_generic` computes stays in range. */
  predicate ProbesFitI32(c: CenteredAABB)
  {
    var hx := Half(c.width);
    var hy := Half(c.height);
    && IsI32Centered(c)
    && IsI32(c.centerX - hx) && IsI32(c.centerY - hy)
    && IsI32(c.centerX + hx) && IsI32(c.centerY + hy)
    && IsI32(c.centerX + hx + hx) && IsI32(c.centerY + hy + hy)
  }

  /**
   * `explore_quadrants_generic`: each flag is the supplied intersection test on
   * one probe box. As written the right-hand probes start at `cx + hx` and the
   * lower ones at `cy + hy`, a full half-width/height past the centre.
   */
  function ExploreQuadrantsGeneric(c: CenteredAABB, intersects: AABB -> bool): (q: Quadrants)
    requires ProbesFitI32(c)
    ensures var hx, hy := Half(c.width), Half(c.height);
            && q.topLeft == intersects(AABB(c.centerX - hx, c.centerY - hy, c.centerX, c.centerY))
            && q.topRight == intersects(AABB(c.centerX + hx, c.centerY - hy, c.centerX + 2 * hx, c.centerY))
            && q.bottomLeft == intersects(AABB(c.centerX - hx, c.centerY + hy, c.centerX, c.centerY + 2 * hy))
            && q.bottomRight == intersects(AABB(c.centerX + hx, c.centerY + hy, c.centerX + 2 * hx, c.centerY + 2 * hy))
  {
    var boxes := ProbeBoxes(c);
    Quadrants(intersects(boxes[0]), intersects(boxes[1]), intersects(boxes[2]), intersects(boxes[3]))
  }

  /** Closed-interval box intersection, the rule a caller's predicate would use for boxes. */
  predicate BoxesIntersect(a: AABB, b: AABB)
  {
    a.x1 <= b.x2 && b.x1 <= a.x2 && a.y1 <= b.y2 && b.y1 <= a.y2
  }

  /** The point `(x, y)` lies in the closed box. */
  predicate InBox(b: AABB, x: int, y: int)
  {
    b.x1 <= x <= b.x2 && b.y1 <= y <= b.y2
  }

  /**
   * As written, a query strictly inside the node's top-right quadrant is
   * reported as touching no quadrant at all: node centred at (0, 0) with size
   * 4 x 4, query the single point (1, -1).
   */
  lemma ProbeBoxesMissTopRight()
    ensures var c, query := CenteredAABB(0, 0, 4, 4), AABB(1, -1, 1, -1);
            && InBox(AABB(0, -2, 2, 0), 1, -1)
            && ExploreQuadrantsGeneric(c, b => BoxesIntersect(query, b)) == Quadrants(false, false, false, false)
  {
  }

  /** The evidently intended probe boxes: the right and lower ones start at the centre. */
  function ProbeBoxesCorrected(c: CenteredAABB): (boxes: seq<AABB>)
    ensures |boxes| == 4
  {
    var mx := c.centerX;
    var my := c.centerY;
    var hx := Half(c.width);
    var hy := Half(c.height);
    var l := mx - hx;
    var t := my - hy;
    [New(l, t, l + hx, t + hy), New(mx, t, mx + hx, t + hy),
     New(l, my, l + hx, my + hy), New(mx, my, mx + hx, my + hy)]
  }

  /** `explore_quadrants_generic` with the corrected probe boxes. */
  function ExploreQuadrantsGenericCorrected(c: CenteredAABB, intersects: AABB -> bool): (q: Quadrants)
    requires ProbesFitI32(c)
    ensures var hx, hy := Half(c.width), Half(c.height);
            && q.topLeft == intersects(AABB(c.centerX - hx, c.centerY - hy, c.centerX, c.centerY))
            && q.topRight == intersects(AABB(c.centerX, c.centerY - hy, c.centerX + hx, c.centerY))
            && q.bottomLeft == intersects(AABB(c.centerX - hx, c.centerY, c.centerX, c.centerY + hy))
            && q.bottomRight == intersects(AABB(c.centerX, c.centerY, c.centerX + hx, c.centerY + hy))
  {
    var boxes := ProbeBoxesCorrected(c);
    Quadrants(intersects(boxes[0]), intersects(boxes[1]), intersects(boxes[2]), intersects(boxes[3]))
  }

  /**
   * The corrected probe boxes tile the node's region
   * `[cx - hx, cx + hx] x [cy - hy, cy + hy]`: each lies inside it and every
   * point of it lies in one of them.
   */
  lemma ProbeBoxesCorrectedTile(c: CenteredAABB, x: int, y: int)
    requires c.width >= 0 && c.height >= 0
    ensures var hx, hy, boxes := Half(c.width), Half(c.height), ProbeBoxesCorrected(c);
            var region := AABB(c.centerX - hx, c.centerY - hy, c.centerX + hx, c.centerY + hy);
            && (forall i :: 0 <= i < 4 && InBox(boxes[i], x, y) ==> InBox(region, x, y))
            && (InBox(region, x, y) ==> exists i :: 0 <= i < 4 && InBox(boxes[i], x, y))
  {
    var hx, hy, boxes := Half(c.width), Half(c.height), ProbeBoxesCorrected(c);
    var i := (if x <= c.centerX then 0 else 1) + (if y <= c.centerY then 0 else 2);
    if InBox(AABB(c.centerX - hx, c.centerY - hy, c.centerX + hx, c.centerY + hy), x, y) {
      assert InBox(boxes[i], x, y);
    }
  }

  /** With the corrected probes the single point (1, -1) is found in the top-right quadrant. */
  lemma ProbeBoxesCorrectedFindTopRight()
    ensures var c, query := CenteredAABB(0, 0, 4, 4), AABB(1, -1, 1, -1);
            ExploreQuadrantsGenericCorrected(c, b => BoxesIntersect(query, b)) == Quadrants(false, true, false, false)
  {
  }
}

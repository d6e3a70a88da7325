/** The planar helpers of the editor window (mainwindow.cpp, "utility"):
    points, axis-aligned rectangles given by corner and extent, the smallest
    rectangle around two points, padding, closed containment and the
    squared-distance radius test. Coordinates are integers, so every
    comparison is exact. */
module Geometry {

  datatype Point = Point(x: int, y: int)

  function Add(a: Point, b: Point): Point
  {
    Point(a.x + b.x, a.y + b.y)
  }

  function Sub(a: Point, b: Point): Point
  {
    Point(a.x - b.x, a.y - b.y)
  }

  /** A rectangle as (x, y, width, height); its right edge is `x + w` and its
      bottom edge `y + h`. */
  datatype Rect = Rect(x: int, y: int, w: int, h: int) {
    function Left(): int { x }
    function Right(): int { x + w }
    function Top(): int { y }
    function Bottom(): int { y + h }
  }

  function Min(a: int, b: int): int { if a <= b then a else b }
  function Max(a: int, b: int): int { if a <= b then b else a }
  function Abs(a: int): int { if a < 0 then -a else a }

  /** True iff the point lies in the rectangle, edges included on all four sides. */
  predicate Intersects(rect: Rect, p: Point): (b: bool)
    ensures b ==> rect.w >= 0 && rect.h >= 0
  {
    p.x >= rect.Left() && p.x <= rect.Right() && p.y >= rect.Top() && p.y <= rect.Bottom()
  }

  /** The smallest rectangle containing both points: its edges are the
      coordinate-wise minimum and maximum. */
  function BoundingRect(a: Point, b: Point): (r: Rect)
    ensures r.w >= 0 && r.h >= 0
    ensures r.Left() == Min(a.x, b.x) && r.Right() == Max(a.x, b.x)
    ensures r.Top() == Min(a.y, b.y) && r.Bottom() == Max(a.y, b.y)
    ensures Intersects(r, a) && Intersects(r, b)
  {
    Rect(Min(a.x, b.x), Min(a.y, b.y), Abs(a.x - b.x), Abs(a.y - b.y))
  }

  /** A point is in BoundingRect(a, b) exactly when each coordinate lies between
      those of a and b. */
  lemma BoundingRectContains(a: Point, b: Point, p: Point)
    ensures Intersects(BoundingRect(a, b), p) <==>
              Min(a.x, b.x) <= p.x <= Max(a.x, b.x) && Min(a.y, b.y) <= p.y <= Max(a.y, b.y)
  {
  }

  /** Every rectangle containing both points contains their bounding rectangle. */
  lemma BoundingRectSmallest(a: Point, b: Point, r: Rect, p: Point)
    requires Intersects(r, a) && Intersects(r, b)
    requires Intersects(BoundingRect(a, b), p)
    ensures Intersects(r, p)
  {
  }

  /** The rectangle grown by `padding` on every side. */
  function Inflate(rect: Rect, padding: int): (r: Rect)
    ensures r.Left() == rect.Left() - padding && r.Right() == rect.Right() + padding
    ensures r.Top() == rect.Top() - padding && r.Bottom() == rect.Bottom() + padding
  {
    Rect(rect.x - padding, rect.y - padding, rect.w + 2 * padding, rect.h + 2 * padding)
  }

  /** Inflating by a non-negative padding keeps every contained point. */
  lemma InflateGrows(rect: Rect, padding: int, p: Point)
    requires padding >= 0
    ensures Intersects(rect, p) ==> Intersects(Inflate(rect, padding), p)
  {
  }

  /** Two inflations add up, whatever their signs. */
  lemma InflateAdds(rect: Rect, padding: int, q: int)
    ensures Inflate(Inflate(rect, padding), q) == Inflate(rect, padding + q)
  {
  }

  /** The squared length of a displacement. */
  function SqrLength(d: Point): int
  {
    d.x * d.x + d.y * d.y
  }

  /** True iff `p` is within `radius` of `center`, compared by squares. */
  predicate Within(center: Point, p: Point, radius: int)
  {
    SqrLength(Sub(p, center)) <= radius * radius
  }
}

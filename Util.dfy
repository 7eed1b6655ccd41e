/**
 * Util.java: the strict squared-distance range test shared by the snake and
 * the game. Points are android.graphics.PointF values; their float
 * coordinates are modelled as exact reals.
 */
module Util {

  /** A point (or a displacement) in pixels. */
  datatype Point = Point(x: real, y: real)

  /** PointF.offset: the point moved by the vector v. */
  function Offset(p: Point, v: Point): Point {
    Point(p.x + v.x, p.y + v.y)
  }

  /** withinRange(a, b, range): the squared distance from a to b is strictly below range squared. */
  predicate WithinRange(a: Point, b: Point, range: real) {
    var dx := a.x - b.x;
    var dy := a.y - b.y;
    dx * dx + dy * dy < range * range
  }

  /** The test does not depend on the order of its two points. */
  lemma WithinRangeSymmetric(a: Point, b: Point, range: real)
    ensures WithinRange(a, b, range) <==> WithinRange(b, a, range)
  {
    assert (a.x - b.x) * (a.x - b.x) == (b.x - a.x) * (b.x - a.x);
    assert (a.y - b.y) * (a.y - b.y) == (b.y - a.y) * (b.y - a.y);
  }

  /** Only the magnitude of the range matters: it is squared before comparing. */
  lemma WithinRangeSignOfRange(a: Point, b: Point, range: real)
    ensures WithinRange(a, b, range) <==> WithinRange(a, b, -range)
  {
  }

  /** Nothing is within range zero, not even the point itself. */
  lemma WithinRangeZero(a: Point, b: Point)
    ensures !WithinRange(a, b, 0.0)
  {
    SquareNonNegative(a.x - b.x);
    SquareNonNegative(a.y - b.y);
  }

  /** A point is within range of itself exactly when the range is not zero. */
  lemma WithinRangeSelf(a: Point, range: real)
    ensures WithinRange(a, a, range) <==> range != 0.0
  {
    if range != 0.0 {
      SquarePositive(range);
    }
  }

  /** The comparison is strict: a point at exactly distance |range| along an axis is out of range. */
  lemma WithinRangeStrict(a: Point, range: real)
    ensures !WithinRange(a, Point(a.x + range, a.y), range)
    ensures !WithinRange(a, Point(a.x, a.y + range), range)
  {
  }

  /** A larger range (in magnitude) keeps every point that a smaller one admits. */
  lemma WithinRangeMonotone(a: Point, b: Point, r1: real, r2: real)
    requires WithinRange(a, b, r1)
    requires r1 * r1 <= r2 * r2
    ensures WithinRange(a, b, r2)
  {
  }

  /** The usual case of monotonicity: non-negative ranges ordered by size. */
  lemma WithinRangeGrow(a: Point, b: Point, r1: real, r2: real)
    requires 0.0 <= r1 <= r2
    ensures WithinRange(a, b, r1) ==> WithinRange(a, b, r2)
  {
    SquareMonotone(r1, r2);
    if WithinRange(a, b, r1) {
      WithinRangeMonotone(a, b, r1, r2);
    }
  }

  lemma SquareNonNegative(d: real)
    ensures d * d >= 0.0
  {
  }

  lemma SquarePositive(d: real)
    requires d != 0.0
    ensures d * d > 0.0
  {
  }

  lemma SquareMonotone(s: real, t: real)
    requires 0.0 <= s <= t
    ensures s * s <= t * t
  {
    assert s * s <= s * t;
    assert s * t <= t * t;
  }
}

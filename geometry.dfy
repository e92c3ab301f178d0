/**
 * Points in normalized image coordinates and the Euclidean distance between them
 * (calculate_distance). Dafny's reals have no square root, so the distance is
 * characterised by its square: `d` is the distance of `p` and `q` when `d >= 0`
 * and `d * d` is the sum of the squared coordinate differences.
 */
module Geometry {

  datatype Point = Point(x: real, y: real)

  function SquaredDistance(p: Point, q: Point): (r: real)
    ensures 0.0 <= r
  {
    var dx, dy := p.x - q.x, p.y - q.y;
    dx * dx + dy * dy
  }

  /** `d` is the Euclidean distance between `p` and `q`. */
  ghost predicate IsDistance(p: Point, q: Point, d: real)
  {
    0.0 <= d && d * d == SquaredDistance(p, q)
  }

  /** The test `calculate_distance(p, q) < t`, decided without a square root. */
  predicate WithinDistance(p: Point, q: Point, t: real)
  {
    0.0 < t && SquaredDistance(p, q) < t * t
  }

  /** The square-free test agrees with comparing the Euclidean distance, for every threshold. */
  lemma WithinDistanceIffCloser(p: Point, q: Point, t: real, d: real)
    requires IsDistance(p, q, d)
    ensures WithinDistance(p, q, t) <==> d < t
  {
    if d < t {
      SquareMonotone(d, t);
    } else if 0.0 < t {
      if t < d {
        SquareMonotone(t, d);
      }
    }
  }

  /** Only one non-negative number squares to the squared distance. */
  lemma DistanceUnique(p: Point, q: Point, d1: real, d2: real)
    requires IsDistance(p, q, d1) && IsDistance(p, q, d2)
    ensures d1 == d2
  {
    if d1 < d2 {
      SquareMonotone(d1, d2);
    } else if d2 < d1 {
      SquareMonotone(d2, d1);
    }
  }

  /** calculate_distance is symmetric. */
  lemma DistanceSymmetric(p: Point, q: Point, d: real)
    requires IsDistance(p, q, d)
    ensures IsDistance(q, p, d)
  {
  }

  /** calculate_distance is zero exactly for identical points. */
  lemma DistanceZeroIffSamePoint(p: Point, q: Point, d: real)
    requires IsDistance(p, q, d)
    ensures d == 0.0 <==> p == q
  {
    var dx, dy := p.x - q.x, p.y - q.y;
    if d == 0.0 {
      assert dx * dx + dy * dy == 0.0;
      assert 0.0 <= dx * dx && 0.0 <= dy * dy;
      SquareZero(dx);
      SquareZero(dy);
    } else if p == q {
      assert d * d == 0.0;
      SquareZero(d);
    }
  }

  lemma SquareZero(x: real)
    requires x * x <= 0.0
    ensures x == 0.0
  {
    if x > 0.0 {
      SquareMonotone(0.0, x);
    } else if x < 0.0 {
      SquareMonotone(0.0, -x);
    }
  }

  lemma SquareMonotone(a: real, b: real)
    requires 0.0 <= a < b
    ensures a * a < b * b
  {
    var u, v := b - a, b + a;
    assert 0.0 < u && 0.0 < v;
    assert 0.0 < u * v;
    assert b * b - a * a == u * v;
  }
}

/**
 * Exact plane geometry shared by the predicates of the polygon library:
 * points, directed segments, vector arithmetic, the 2D cross product and
 * the sign function, with coordinates as exact reals.
 *
 * The two lemmas at the end are the algebra behind every intersection test
 * of the library: Cramer's rule solves `a0 + t*la == b0 + s*lb` with
 * `t = Cross(b0 - a0, lb) / Cross(la, lb)` and `s = Cross(b0 - a0, la) / Cross(la, lb)`,
 * and that solution is the only one.
 */
module Geometry {

  /** A point, or a free vector, of the plane. */
  datatype Point = Point(x: real, y: real)

  /** A directed segment (or directed line) from `origin` to `terminus`. */
  datatype Segment = Segment(origin: Point, terminus: Point)

  function Add(u: Point, v: Point): Point {
    Point(u.x + v.x, u.y + v.y)
  }

  function Sub(u: Point, v: Point): Point {
    Point(u.x - v.x, u.y - v.y)
  }

  function Scale(k: real, v: Point): Point {
    Point(k * v.x, k * v.y)
  }

  /** The z-component of the cross product of `u` and `v`. */
  function Cross(u: Point, v: Point): real {
    u.x * v.y - u.y * v.x
  }

  function Dot(u: Point, v: Point): real {
    u.x * v.x + u.y * v.y
  }

  /** `v` turned a quarter turn counter-clockwise. */
  function Perp(v: Point): Point {
    Point(-v.y, v.x)
  }

  /** The vector from a segment's origin to its terminus. */
  function Direction(s: Segment): Point {
    Sub(s.terminus, s.origin)
  }

  /** The point at parameter `t` along a segment: its origin at 0, its terminus at 1. */
  function PointAt(s: Segment, t: real): Point {
    Add(s.origin, Scale(t, Direction(s)))
  }

  /** The sign of a number, as -1, 0 or 1. */
  function Sign(v: real): int {
    if v > 0.0 then 1 else if v < 0.0 then -1 else 0
  }

  function Abs(v: real): real {
    if v < 0.0 then -v else v
  }

  /**
   * `p` lies on the closed segment `s`: on its supporting line and within its
   * span. A segment of zero length holds only its origin.
   */
  predicate OnSegment(s: Segment, p: Point) {
    var u := Sub(p, s.origin);
    var l := Direction(s);
    && Cross(u, l) == 0.0
    && 0.0 <= Dot(u, l) <= Dot(l, l)
    && (l == Point(0.0, 0.0) ==> u == Point(0.0, 0.0))
  }

  /** A segment of zero length holds its origin and no other point. */
  lemma ZeroLengthSegmentHoldsOnlyItsOrigin(s: Segment, p: Point)
    requires s.origin == s.terminus
    ensures OnSegment(s, p) <==> p == s.origin
  {
    assert Direction(s) == Point(0.0, 0.0);
    assert Sub(p, s.origin) == Point(0.0, 0.0) <==> p == s.origin;
  }

  /** A point at a parameter in `[0, 1]` lies on the closed segment. */
  lemma PointAtIsOnSegment(s: Segment, t: real)
    requires 0.0 <= t <= 1.0
    ensures OnSegment(s, PointAt(s, t))
  {
    var l := Direction(s);
    var u := Sub(PointAt(s, t), s.origin);
    assert u == Scale(t, l);
    assert Cross(u, l) == 0.0 by {
      calc {
        Cross(u, l);
        (t * l.x) * l.y - (t * l.y) * l.x;
        0.0;
      }
    }
    SquareNonNegative(l.x);
    SquareNonNegative(l.y);
    assert Dot(u, l) == t * Dot(l, l) by {
      calc {
        Dot(u, l);
        (t * l.x) * l.x + (t * l.y) * l.y;
        t * (l.x * l.x + l.y * l.y);
      }
    }
    assert 0.0 <= t * Dot(l, l) <= Dot(l, l) by {
      assert Dot(l, l) >= 0.0;
      assert (1.0 - t) * Dot(l, l) >= 0.0;
    }
  }

  /** A segment's origin lies on it. */
  lemma OriginIsOnSegment(s: Segment)
    ensures OnSegment(s, s.origin)
  {
    var l := Direction(s);
    assert Sub(s.origin, s.origin) == Point(0.0, 0.0);
    SquareNonNegative(l.x);
    SquareNonNegative(l.y);
    calc {
      Dot(l, l);
    ==
      l.x * l.x + l.y * l.y;
    >=
      0.0;
    }
  }

  /** The cross product is antisymmetric: in particular a vector's cross product with itself is 0. */
  lemma CrossAntisymmetric(u: Point, v: Point)
    ensures Cross(v, u) == -Cross(u, v)
    ensures Cross(u, u) == 0.0
  {
  }

  /** The cross product is linear in its first argument. */
  lemma CrossLinearLeft(t: real, u: Point, s: real, v: Point, w: Point)
    ensures Cross(Sub(Scale(t, u), Scale(s, v)), w) == t * Cross(u, w) - s * Cross(v, w)
  {
    calc {
      Cross(Sub(Scale(t, u), Scale(s, v)), w);
      (t * u.x - s * v.x) * w.y - (t * u.y - s * v.y) * w.x;
      t * (u.x * w.y - u.y * w.x) - s * (v.x * w.y - v.y * w.x);
    }
  }

  /**
   * Cramer's rule: when the directions `la` and `lb` are not parallel, the
   * parameters `t` and `s` given by the two cross-product ratios put the
   * point `a0 + t*la` of the first line on the second line, at `b0 + s*lb`.
   */
  lemma CramerSolves(a0: Point, la: Point, b0: Point, lb: Point)
    requires Cross(la, lb) != 0.0
    ensures var d := Sub(b0, a0);
            var delta := Cross(la, lb);
            Add(a0, Scale(Cross(d, lb) / delta, la)) == Add(b0, Scale(Cross(d, la) / delta, lb))
  {
    var d := Sub(b0, a0);
    var delta := Cross(la, lb);
    var alphaA, alphaB := Cross(d, lb), Cross(d, la);
    var t, s := alphaA / delta, alphaB / delta;
    assert alphaA == t * delta && alphaB == s * delta;
    // t*la - s*lb == d, coordinate by coordinate, after multiplying by delta
    assert X: (t * la.x - s * lb.x) * delta == d.x * delta by {
      calc {
        (t * la.x - s * lb.x) * delta;
        (t * delta) * la.x - (s * delta) * lb.x;
        alphaA * la.x - alphaB * lb.x;
        (d.x * lb.y - d.y * lb.x) * la.x - (d.x * la.y - d.y * la.x) * lb.x;
        d.x * (la.x * lb.y - la.y * lb.x);
      }
    }
    assert Y: (t * la.y - s * lb.y) * delta == d.y * delta by {
      calc {
        (t * la.y - s * lb.y) * delta;
        (t * delta) * la.y - (s * delta) * lb.y;
        alphaA * la.y - alphaB * lb.y;
        (d.x * lb.y - d.y * lb.x) * la.y - (d.x * la.y - d.y * la.x) * lb.y;
        d.y * (la.x * lb.y - la.y * lb.x);
      }
    }
    CancelNonZero(t * la.x - s * lb.x, d.x, delta);
    CancelNonZero(t * la.y - s * lb.y, d.y, delta);
  }

  /**
   * The solution of Cramer's rule is the only one: if `a0 + t*la` and
   * `b0 + s*lb` are the same point and the directions are not parallel,
   * then `t` and `s` are the two cross-product ratios.
   */
  lemma CramerUnique(a0: Point, la: Point, b0: Point, lb: Point, t: real, s: real)
    requires Cross(la, lb) != 0.0
    requires Add(a0, Scale(t, la)) == Add(b0, Scale(s, lb))
    ensures var d := Sub(b0, a0);
            t == Cross(d, lb) / Cross(la, lb) && s == Cross(d, la) / Cross(la, lb)
  {
    var d := Sub(b0, a0);
    assert d == Sub(Scale(t, la), Scale(s, lb));
    CrossLinearLeft(t, la, s, lb, lb);
    CrossLinearLeft(t, la, s, lb, la);
    CrossAntisymmetric(la, lb);
    CrossAntisymmetric(lb, lb);
    CrossAntisymmetric(la, la);
    assert Cross(d, lb) == t * Cross(la, lb);
    assert Cross(d, la) == s * Cross(la, lb);
  }

  /** A non-zero vector has a positive squared length. */
  lemma SquaredLengthPositive(v: Point)
    requires v != Point(0.0, 0.0)
    ensures Dot(v, v) > 0.0
  {
    SquareNonNegative(v.x);
    SquareNonNegative(v.y);
    calc {
      Dot(v, v);
    ==
      v.x * v.x + v.y * v.y;
    >
      0.0;
    }
  }

  lemma SquareNonNegative(a: real)
    ensures a * a >= 0.0
    ensures a != 0.0 ==> a * a > 0.0
  {
    if a < 0.0 {
      assert a * a == (-a) * (-a);
    }
  }

  lemma CancelNonZero(a: real, b: real, c: real)
    requires c != 0.0 && a * c == b * c
    ensures a == b
  {
    assert (a - b) * c == 0.0;
  }
}

/**
 * Intersection of two directed segments `a` and `b` by Cramer's rule.
 *
 * With `d = b.origin - a.origin`, `la` and `lb` the segments' directions,
 * the library computes `alphaA = Cross(d, lb)`, `alphaB = Cross(d, la)` and
 * `delta = Cross(la, lb)`; `t = alphaA / delta` is the parameter of the
 * meeting point of the two supporting lines along `a` and `s = alphaB / delta`
 * its parameter along `b`. Parallel and collinear segments (`delta == 0`) are
 * always reported as not intersecting. With the boundary included the
 * segments may meet at an endpoint (`t` and `s` in `[0, 1]`); with it
 * excluded they must meet in both interiors (`t` and `s` in `(0, 1)`).
 */
module SegmentIntersection {
  import opened Geometry

  /** The indicator, and the meeting point, which means something only when the indicator holds. */
  datatype Intersection = Intersection(indicator: bool, point: Point)

  function AlphaA(a: Segment, b: Segment): real {
    Cross(Sub(b.origin, a.origin), Direction(b))
  }

  function AlphaB(a: Segment, b: Segment): real {
    Cross(Sub(b.origin, a.origin), Direction(a))
  }

  function Delta(a: Segment, b: Segment): real {
    Cross(Direction(a), Direction(b))
  }

  /**
   * The sign test on one of the two alphas: its sign must be the sign of
   * `delta`, or, with the boundary included, it may also be zero.
   */
  function SignAgrees(alpha: real, delta: real, includeBoundary: bool): bool {
    if includeBoundary then Sign(alpha) == Sign(delta) || Sign(alpha) == 0
    else Sign(alpha) == Sign(delta)
  }

  /** `<=` with the boundary included, `<` with it excluded. */
  function LessThan(u: real, v: real, includeBoundary: bool): bool {
    if includeBoundary then u <= v else u < v
  }

  /** The magnitude test on one of the two alphas: `0 < |alpha| < |delta|`, or with `<=`. */
  function InBounds(alpha: real, delta: real, includeBoundary: bool): bool {
    LessThan(0.0, Abs(alpha), includeBoundary) && LessThan(Abs(alpha), Abs(delta), includeBoundary)
  }

  /** Division that yields 0 instead of failing on a zero divisor. */
  function DivideNoNan(x: real, y: real): real {
    if y == 0.0 then 0.0 else x / y
  }

  /** `t` lies in `[0, 1]` with the boundary included, in `(0, 1)` with it excluded. */
  predicate InUnitInterval(t: real, includeBoundary: bool) {
    if includeBoundary then 0.0 <= t <= 1.0 else 0.0 < t < 1.0
  }

  /**
   * The intersection of `a` and `b`. The indicator holds exactly when the
   * supporting lines are not parallel and meet at parameters `t` along `a`
   * and `s` along `b` that both lie in the unit interval, closed or open
   * according to the boundary mode.
   */
  function LineSegmentIntersection(a: Segment, b: Segment, includeBoundary: bool): (r: Intersection)
    ensures r.indicator
            <==> Delta(a, b) != 0.0
                 && InUnitInterval(AlphaA(a, b) / Delta(a, b), includeBoundary)
                 && InUnitInterval(AlphaB(a, b) / Delta(a, b), includeBoundary)
  {
    var alphaA, alphaB, delta := AlphaA(a, b), AlphaB(a, b), Delta(a, b);
    var signMatch := SignAgrees(alphaA, delta, includeBoundary) && SignAgrees(alphaB, delta, includeBoundary);
    var bothInBounds := InBounds(alphaA, delta, includeBoundary) && InBounds(alphaB, delta, includeBoundary);
    var indicator := signMatch && bothInBounds && delta != 0.0;
    var t := DivideNoNan(alphaA, delta);
    if delta != 0.0 then
      AlphaTestsMeanUnitInterval(alphaA, delta, includeBoundary);
      AlphaTestsMeanUnitInterval(alphaB, delta, includeBoundary);
      Intersection(indicator, Add(a.origin, Scale(t, Direction(a))))
    else
      Intersection(indicator, Add(a.origin, Scale(t, Direction(a))))
  }

  /**
   * The sign test and the magnitude test on one alpha together say that
   * the parameter `alpha / delta` is in the unit interval.
   */
  lemma AlphaTestsMeanUnitInterval(alpha: real, delta: real, includeBoundary: bool)
    requires delta != 0.0
    ensures SignAgrees(alpha, delta, includeBoundary) && InBounds(alpha, delta, includeBoundary)
            <==> InUnitInterval(alpha / delta, includeBoundary)
  {
    RatioSignAndMagnitude(alpha, delta);
  }

  /** How the sign and magnitude of `alpha` against `delta` translate into the ratio `alpha / delta`. */
  lemma RatioSignAndMagnitude(alpha: real, delta: real)
    requires delta != 0.0
    ensures Sign(alpha) == Sign(delta) <==> alpha / delta > 0.0
    ensures Sign(alpha) == 0 <==> alpha / delta == 0.0
    ensures Abs(alpha) <= Abs(delta) <==> -1.0 <= alpha / delta <= 1.0
    ensures Abs(alpha) < Abs(delta) <==> -1.0 < alpha / delta < 1.0
  {
    var t := alpha / delta;
    assert alpha == t * delta;
    ProductSignAndMagnitude(t, delta);
    MagnitudeCompare(Abs(alpha), Abs(t), Abs(delta));
    if t > 0.0 {
      assert Sign(alpha) == Sign(delta);
    } else if t == 0.0 {
      assert Sign(alpha) == 0;
    } else {
      assert Sign(alpha) == -Sign(delta) && Sign(delta) != 0;
    }
  }

  lemma ProductSignAndMagnitude(u: real, v: real)
    ensures Sign(u * v) == Sign(u) * Sign(v)
    ensures Abs(u * v) == Abs(u) * Abs(v)
  {
    if u < 0.0 && v < 0.0 {
      assert u * v == (-u) * (-v);
    } else if u < 0.0 && v > 0.0 {
      assert u * v == -((-u) * v);
    } else if u > 0.0 && v < 0.0 {
      assert u * v == -(u * (-v));
    }
  }

  /** For `p == m * n` with `n > 0`, comparing `p` with `0` and `n` is comparing `m` with `0` and `1`. */
  lemma MagnitudeCompare(p: real, m: real, n: real)
    requires m >= 0.0 && n > 0.0 && p == m * n
    ensures p <= n <==> m <= 1.0
    ensures p < n <==> m < 1.0
    ensures 0.0 < p <==> 0.0 < m
  {
    assert p - n == (m - 1.0) * n;
    if m > 1.0 { assert (m - 1.0) * n > 0.0; }
    if m < 1.0 { assert (1.0 - m) * n > 0.0; }
    if m > 0.0 { assert m * n > 0.0; }
  }

  /** Parallel or collinear segments are never reported as intersecting, in either mode. */
  lemma ParallelSegmentsDoNotIntersect(a: Segment, b: Segment, includeBoundary: bool)
    requires Delta(a, b) == 0.0
    ensures !LineSegmentIntersection(a, b, includeBoundary).indicator
  {
  }

  /**
   * Soundness: when the indicator holds, the returned point is the point at
   * `t = alphaA / delta` along `a` and the point at `s = alphaB / delta`
   * along `b`, and it lies on both closed segments.
   */
  lemma IntersectionLiesOnBothSegments(a: Segment, b: Segment, includeBoundary: bool)
    requires LineSegmentIntersection(a, b, includeBoundary).indicator
    ensures var r := LineSegmentIntersection(a, b, includeBoundary);
            var t, s := AlphaA(a, b) / Delta(a, b), AlphaB(a, b) / Delta(a, b);
            && r.point == PointAt(a, t)
            && r.point == PointAt(b, s)
            && OnSegment(a, r.point) && OnSegment(b, r.point)
  {
    var t, s := AlphaA(a, b) / Delta(a, b), AlphaB(a, b) / Delta(a, b);
    CramerSolves(a.origin, Direction(a), b.origin, Direction(b));
    PointAtIsOnSegment(a, t);
    PointAtIsOnSegment(b, s);
  }

  /**
   * Completeness: if the point at `t` along `a` is the point at `s` along
   * `b`, the lines are not parallel and both parameters are in the unit
   * interval of the mode, the indicator holds and that point is returned.
   */
  lemma MeetingSegmentsAreReported(a: Segment, b: Segment, includeBoundary: bool, t: real, s: real)
    requires Delta(a, b) != 0.0
    requires PointAt(a, t) == PointAt(b, s)
    requires InUnitInterval(t, includeBoundary) && InUnitInterval(s, includeBoundary)
    ensures LineSegmentIntersection(a, b, includeBoundary) == Intersection(true, PointAt(a, t))
  {
    CramerUnique(a.origin, Direction(a), b.origin, Direction(b), t, s);
  }

  /** An intersection in the interiors is also an intersection with the boundary included. */
  lemma ExclusiveImpliesInclusive(a: Segment, b: Segment)
    ensures LineSegmentIntersection(a, b, false).indicator ==> LineSegmentIntersection(a, b, true).indicator
  {
  }

  /**
   * Non-parallel segments that share an endpoint meet there and only there:
   * they are reported as intersecting at that endpoint with the boundary
   * included, and as not intersecting with it excluded.
   */
  lemma SharedEndpointIntersectsOnlyInclusively(a: Segment, b: Segment)
    requires Delta(a, b) != 0.0
    requires a.origin == b.origin || a.origin == b.terminus || a.terminus == b.origin || a.terminus == b.terminus
    ensures var shared := if a.origin == b.origin || a.origin == b.terminus then a.origin else a.terminus;
            && LineSegmentIntersection(a, b, true) == Intersection(true, shared)
            && !LineSegmentIntersection(a, b, false).indicator
  {
    var t := if a.origin == b.origin || a.origin == b.terminus then 0.0 else 1.0;
    var s := if a.origin == b.origin || a.terminus == b.origin then 0.0 else 1.0;
    assert PointAt(a, t) == PointAt(b, s);
    MeetingSegmentsAreReported(a, b, true, t, s);
    CramerUnique(a.origin, Direction(a), b.origin, Direction(b), t, s);
  }

  /** Swapping the segments negates all three cross products and exchanges the two alphas. */
  lemma SwapNegatesCrossProducts(a: Segment, b: Segment)
    ensures AlphaA(b, a) == -AlphaB(a, b)
    ensures AlphaB(b, a) == -AlphaA(a, b)
    ensures Delta(b, a) == -Delta(a, b)
  {
    var d := Sub(b.origin, a.origin);
    assert Sub(a.origin, b.origin) == Point(-d.x, -d.y);
    CrossAntisymmetric(Direction(a), Direction(b));
    calc {
      AlphaA(b, a);
      Cross(Point(-d.x, -d.y), Direction(a));
      (-d.x) * Direction(a).y - (-d.y) * Direction(a).x;
      -Cross(d, Direction(a));
    }
    calc {
      AlphaB(b, a);
      Cross(Point(-d.x, -d.y), Direction(b));
      (-d.x) * Direction(b).y - (-d.y) * Direction(b).x;
      -Cross(d, Direction(b));
    }
  }

  /**
   * Swapping the two segments changes neither the indicator nor, when it
   * holds, the intersection point.
   */
  lemma IntersectionIsSymmetric(a: Segment, b: Segment, includeBoundary: bool)
    ensures LineSegmentIntersection(b, a, includeBoundary).indicator
            == LineSegmentIntersection(a, b, includeBoundary).indicator
    ensures LineSegmentIntersection(a, b, includeBoundary).indicator ==>
              LineSegmentIntersection(b, a, includeBoundary).point
              == LineSegmentIntersection(a, b, includeBoundary).point
  {
    SwapNegatesCrossProducts(a, b);
    var delta := Delta(a, b);
    if delta != 0.0 {
      var t, s := AlphaA(a, b) / delta, AlphaB(a, b) / delta;
      assert AlphaA(b, a) / Delta(b, a) == s by {
        NegatedRatio(AlphaB(a, b), delta);
      }
      assert AlphaB(b, a) / Delta(b, a) == t by {
        NegatedRatio(AlphaA(a, b), delta);
      }
      assert LineSegmentIntersection(b, a, includeBoundary).point == PointAt(b, s);
      CramerSolves(a.origin, Direction(a), b.origin, Direction(b));
    }
  }

  lemma NegatedRatio(x: real, y: real)
    requires y != 0.0
    ensures (-x) / (-y) == x / y
  {
  }
}

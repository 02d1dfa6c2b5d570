/**
 * Ray-casting containment of a point in a polygon given by its directed
 * edges. A ray leaves the point along the direction `ray`; every edge is
 * tested with the construction of the segment intersection, the ray playing
 * segment `a` (origin the point, direction `ray`, unbounded) and the edge
 * playing segment `b`. The point is inside when the number of edges
 * crossed is odd, except that a point equal to a vertex is inside exactly
 * when the boundary is included.
 *
 * Per edge, with `d = edge.origin - point` and `lb` the edge's direction:
 * `alphaA = Cross(d, lb)`, `alphaB = Cross(d, ray)`, `delta = Cross(ray, lb)`;
 * `t = alphaA / delta` is how far along the ray the edge's line is met and
 * `s = alphaB / delta` where along the edge the ray's line is met.
 */
module RayCasting {
  import opened Geometry
  import opened SegmentIntersection
  import opened Edges

  function RayAlphaA(edge: Segment, p: Point): real {
    Cross(Sub(edge.origin, p), Direction(edge))
  }

  function RayAlphaB(edge: Segment, p: Point, ray: Point): real {
    Cross(Sub(edge.origin, p), ray)
  }

  function RayDelta(edge: Segment, ray: Point): real {
    Cross(ray, Direction(edge))
  }

  /**
   * Whether the ray from `p` along `ray` counts as crossing `edge`: the
   * library's per-edge indicator, with the leading-edge rule (an edge not
   * parallel to the ray whose start lies on the ray ahead of `p`, or at `p`
   * with the boundary included, counts) and the tie-break for an edge lying
   * along the ray's line (it counts when its start is to the right of `p`).
   */
  function EdgeCrossesRay(edge: Segment, p: Point, includeBoundary: bool, ray: Point): bool {
    var d := Sub(edge.origin, p);
    CrossingTest(RayAlphaA(edge, p), RayAlphaB(edge, p, ray), RayDelta(edge, ray), d.x, includeBoundary)
  }

  /** The per-edge indicator as a function of the three cross products and of `d.x`. */
  function CrossingTest(alphaA: real, alphaB: real, delta: real, dx: real, includeBoundary: bool): bool {
    var signMatch := SignAgrees(alphaA, delta, true) && SignAgrees(alphaB, delta, true);
    var bInterior := 0.0 < Abs(alphaB) && Abs(alphaB) < Abs(delta);
    var bLeadingEdge := alphaB == 0.0;
    var bInBounds := bInterior || bLeadingEdge;
    var aInBounds := LessThan(0.0, Abs(alphaA), includeBoundary);
    var indicator := signMatch && aInBounds && bInBounds && delta != 0.0;
    var allZero := alphaA == alphaB && alphaB == delta && delta == 0.0;
    var collinearShouldIntercept := allZero && dx > 0.0;
    indicator || collinearShouldIntercept
  }

  /** The number of edges the ray crosses: a sum over the edges. */
  function Crossings(edges: seq<Segment>, p: Point, includeBoundary: bool, ray: Point): (n: nat)
    ensures n <= |edges|
  {
    if |edges| == 0 then 0
    else (if EdgeCrossesRay(edges[0], p, includeBoundary, ray) then 1 else 0)
         + Crossings(edges[1..], p, includeBoundary, ray)
  }

  /** Whether `p` is the start of some edge: an any-reduction over the edges. */
  function MatchesAnyVertex(edges: seq<Segment>, p: Point): (b: bool)
    ensures b <==> exists i :: 0 <= i < |edges| && edges[i].origin == p
  {
    if |edges| == 0 then false
    else edges[0].origin == p || MatchesAnyVertex(edges[1..], p)
  }

  /**
   * The containment test: an odd number of crossings, overridden to the
   * boundary mode when `p` is a vertex.
   */
  function PointInPolygon(edges: seq<Segment>, p: Point, includeBoundary: bool, ray: Point): bool {
    var inPolygon := Crossings(edges, p, includeBoundary, ray) % 2 == 1;
    var matchesAnyVertex := MatchesAnyVertex(edges, p);
    if includeBoundary then inPolygon || matchesAnyVertex
    else inPolygon && !matchesAnyVertex
  }

  /**
   * What the per-edge test means. When the ray is not parallel to the edge,
   * the edge counts exactly when the edge's line is met at or ahead of `p`
   * on the ray (strictly ahead with the boundary excluded) and the ray's
   * line is met on the half-open edge `[start, end)`. When they are
   * parallel, the edge counts exactly when it lies on the ray's line
   * (all three cross products zero) and its start is to the right of `p`.
   */
  lemma EdgeCrossingMeaning(edge: Segment, p: Point, includeBoundary: bool, ray: Point)
    ensures var delta := RayDelta(edge, ray);
            delta != 0.0 ==>
              var t, s := RayAlphaA(edge, p) / delta, RayAlphaB(edge, p, ray) / delta;
              (EdgeCrossesRay(edge, p, includeBoundary, ray)
               <==> (if includeBoundary then 0.0 <= t else 0.0 < t) && 0.0 <= s < 1.0)
    ensures RayDelta(edge, ray) == 0.0 ==>
              (EdgeCrossesRay(edge, p, includeBoundary, ray)
               <==> RayAlphaA(edge, p) == 0.0 && RayAlphaB(edge, p, ray) == 0.0 && edge.origin.x > p.x)
  {
    var delta := RayDelta(edge, ray);
    if delta != 0.0 {
      RatioSignAndMagnitude(RayAlphaA(edge, p), delta);
      RatioSignAndMagnitude(RayAlphaB(edge, p, ray), delta);
    }
  }

  /**
   * The leading-edge rule: an edge not parallel to the ray whose start lies
   * on the ray ahead of `p` counts, and so does one starting at `p` itself
   * when the boundary is included.
   */
  lemma LeadingEdgeCounts(edge: Segment, p: Point, includeBoundary: bool, ray: Point, t: real)
    requires RayDelta(edge, ray) != 0.0
    requires edge.origin == Add(p, Scale(t, ray))
    requires if includeBoundary then 0.0 <= t else 0.0 < t
    ensures EdgeCrossesRay(edge, p, includeBoundary, ray)
  {
    var d := Sub(edge.origin, p);
    var delta := RayDelta(edge, ray);
    assert d == Scale(t, ray);
    assert RayAlphaB(edge, p, ray) == 0.0 by {
      assert Cross(d, ray) == (t * ray.x) * ray.y - (t * ray.y) * ray.x;
    }
    assert RayAlphaA(edge, p) == t * delta by {
      var lb := Direction(edge);
      assert Cross(d, lb) == (t * ray.x) * lb.y - (t * ray.y) * lb.x;
      assert t * delta == t * (ray.x * lb.y - ray.y * lb.x);
    }
    assert RayAlphaA(edge, p) / delta == t;
    EdgeCrossingMeaning(edge, p, includeBoundary, ray);
  }

  /**
   * When the ray is not parallel to the edge, `t` and `s` name the same
   * point: the point `t` along the ray is the point `s` along the edge.
   */
  lemma RayMeetsEdgeLine(edge: Segment, p: Point, ray: Point)
    requires RayDelta(edge, ray) != 0.0
    ensures var delta := RayDelta(edge, ray);
            Add(p, Scale(RayAlphaA(edge, p) / delta, ray)) == PointAt(edge, RayAlphaB(edge, p, ray) / delta)
  {
    CramerSolves(p, ray, edge.origin, Direction(edge));
  }

  /**
   * The boundary mode changes the verdict on an edge only when `p` lies on
   * that edge, and then the edge counts with the boundary included and not
   * with it excluded.
   */
  lemma BoundaryModeMattersOnlyOnEdge(edge: Segment, p: Point, ray: Point)
    ensures EdgeCrossesRay(edge, p, false, ray) ==> EdgeCrossesRay(edge, p, true, ray)
    ensures EdgeCrossesRay(edge, p, true, ray) != EdgeCrossesRay(edge, p, false, ray) ==> OnSegment(edge, p)
  {
    EdgeCrossingMeaning(edge, p, true, ray);
    EdgeCrossingMeaning(edge, p, false, ray);
    var delta := RayDelta(edge, ray);
    if delta != 0.0 && EdgeCrossesRay(edge, p, true, ray) != EdgeCrossesRay(edge, p, false, ray) {
      var s := RayAlphaB(edge, p, ray) / delta;
      assert RayAlphaA(edge, p) / delta == 0.0;
      RayMeetsEdgeLine(edge, p, ray);
      assert Add(p, Scale(0.0, ray)) == p;
      PointAtIsOnSegment(edge, s);
    }
  }

  /**
   * The collinear tie-break, for a ray pointing to the right (as the default
   * ray does): an edge along the ray's line counts exactly when its start
   * lies ahead of `p` in the ray's direction.
   */
  lemma CollinearTieBreakForRightwardRay(edge: Segment, p: Point, includeBoundary: bool, ray: Point)
    requires ray.x > 0.0
    requires RayDelta(edge, ray) == 0.0 && RayAlphaB(edge, p, ray) == 0.0
    ensures EdgeCrossesRay(edge, p, includeBoundary, ray) <==> Dot(Sub(edge.origin, p), ray) > 0.0
  {
    var d, lb := Sub(edge.origin, p), Direction(edge);
    // d and lb are both parallel to the ray, hence to each other
    assert ray.x * lb.y == ray.y * lb.x;
    assert d.x * ray.y == d.y * ray.x;
    assert RayAlphaA(edge, p) * ray.x == lb.x * RayAlphaB(edge, p, ray) by {
      calc {
        RayAlphaA(edge, p) * ray.x;
        (d.x * lb.y - d.y * lb.x) * ray.x;
        d.x * (ray.x * lb.y) - (d.y * ray.x) * lb.x;
        d.x * (ray.y * lb.x) - (d.x * ray.y) * lb.x;
        0.0;
      }
    }
    ZeroProduct(RayAlphaA(edge, p), ray.x);
    // the dot product has the sign of d.x
    var n := Dot(ray, ray);
    SquaredLengthPositive(ray);
    var q := Dot(d, ray) * ray.x;
    assert q == d.x * n by {
      calc {
        Dot(d, ray) * ray.x;
        (d.x * ray.x + d.y * ray.y) * ray.x;
        d.x * ray.x * ray.x + (d.y * ray.x) * ray.y;
        d.x * ray.x * ray.x + (d.x * ray.y) * ray.y;
        d.x * (ray.x * ray.x + ray.y * ray.y);
      }
    }
    SamePositivity(q, Dot(d, ray), ray.x, d.x, n);
    EdgeCrossingMeaning(edge, p, includeBoundary, ray);
  }

  lemma ZeroProduct(u: real, v: real)
    requires v > 0.0 && u * v == 0.0
    ensures u == 0.0
  {
    assert u == (u * v) / v;
  }

  /** If `q == a * b == c * e` with `b` and `e` positive, `a` and `c` are positive together. */
  lemma SamePositivity(q: real, a: real, b: real, c: real, e: real)
    requires b > 0.0 && e > 0.0 && q == a * b && q == c * e
    ensures a > 0.0 <==> c > 0.0
  {
    if a > 0.0 { assert a * b > 0.0; }
    if a <= 0.0 { assert (-a) * b >= 0.0; }
    if c > 0.0 { assert c * e > 0.0; }
    if c <= 0.0 { assert (-c) * e >= 0.0; }
  }

  /** The crossing count is additive over a split of the edge sequence. */
  lemma {:induction false} CrossingsAppend(e1: seq<Segment>, e2: seq<Segment>, p: Point, includeBoundary: bool, ray: Point)
    ensures Crossings(e1 + e2, p, includeBoundary, ray)
            == Crossings(e1, p, includeBoundary, ray) + Crossings(e2, p, includeBoundary, ray)
  {
    if |e1| == 0 {
      assert e1 + e2 == e2;
    } else {
      assert (e1 + e2)[1..] == e1[1..] + e2;
      CrossingsAppend(e1[1..], e2, p, includeBoundary, ray);
    }
  }

  /** The indices of the edges the ray crosses. */
  function CrossedEdges(edges: seq<Segment>, p: Point, includeBoundary: bool, ray: Point): set<int> {
    set i | 0 <= i < |edges| && EdgeCrossesRay(edges[i], p, includeBoundary, ray)
  }

  /** Appending an edge adds its index to the crossed edges exactly when the ray crosses it. */
  lemma CrossedEdgesOfAppend(front: seq<Segment>, e: Segment, p: Point, includeBoundary: bool, ray: Point)
    ensures CrossedEdges(front + [e], p, includeBoundary, ray)
            == CrossedEdges(front, p, includeBoundary, ray)
               + (if EdgeCrossesRay(e, p, includeBoundary, ray) then {|front|} else {})
  {
    var edges := front + [e];
    forall i | 0 <= i < |front|
      ensures edges[i] == front[i]
    {
    }
  }

  /** The crossing count is the number of edges the ray crosses. */
  lemma {:induction false} CrossingsCountsCrossedEdges(edges: seq<Segment>, p: Point, includeBoundary: bool, ray: Point)
    ensures Crossings(edges, p, includeBoundary, ray) == |CrossedEdges(edges, p, includeBoundary, ray)|
    decreases |edges|
  {
    if |edges| > 0 {
      var n := |edges| - 1;
      var front := edges[..n];
      assert edges == front + [edges[n]];
      CrossingsCountsCrossedEdges(front, p, includeBoundary, ray);
      CrossingsAppend(front, [edges[n]], p, includeBoundary, ray);
      CrossedEdgesOfAppend(front, edges[n], p, includeBoundary, ray);
      assert n !in CrossedEdges(front, p, includeBoundary, ray);
    }
  }

  /**
   * Excluding the boundary never adds crossings, and when `p` lies on no
   * edge the two modes count the same crossings.
   */
  lemma {:induction false} CrossingsByBoundaryMode(edges: seq<Segment>, p: Point, ray: Point)
    ensures Crossings(edges, p, false, ray) <= Crossings(edges, p, true, ray)
    ensures (forall i :: 0 <= i < |edges| ==> !OnSegment(edges[i], p)) ==>
              Crossings(edges, p, false, ray) == Crossings(edges, p, true, ray)
  {
    if |edges| > 0 {
      BoundaryModeMattersOnlyOnEdge(edges[0], p, ray);
      CrossingsByBoundaryMode(edges[1..], p, ray);
      if forall i :: 0 <= i < |edges| ==> !OnSegment(edges[i], p) {
        assert forall i :: 0 <= i < |edges[1..]| ==> !OnSegment(edges[1..][i], p) by {
          forall i | 0 <= i < |edges[1..]| ensures !OnSegment(edges[1..][i], p) {
            assert edges[1..][i] == edges[i + 1];
          }
        }
      }
    }
  }

  /** A point equal to a vertex is inside exactly when the boundary is included. */
  lemma VertexIsInsideExactlyWithBoundary(edges: seq<Segment>, p: Point, includeBoundary: bool, ray: Point, k: int)
    requires 0 <= k < |edges| && edges[k].origin == p
    ensures PointInPolygon(edges, p, includeBoundary, ray) == includeBoundary
  {
  }

  /** A point that is not a vertex is inside exactly when the ray crosses an odd number of edges. */
  lemma NonVertexIsInsideByParity(edges: seq<Segment>, p: Point, includeBoundary: bool, ray: Point)
    requires forall i :: 0 <= i < |edges| ==> edges[i].origin != p
    ensures PointInPolygon(edges, p, includeBoundary, ray) <==> Crossings(edges, p, includeBoundary, ray) % 2 == 1
  {
  }

  /**
   * Every vertex of a polygon is contained in the polygon's own edges with
   * the boundary included and none is with it excluded, whatever the ray.
   */
  lemma PolygonVerticesAreOnBoundary(vertices: seq<Point>, k: int, ray: Point)
    requires 0 <= k < |vertices|
    ensures PointInPolygon(GetEdges(vertices), vertices[k], true, ray)
    ensures !PointInPolygon(GetEdges(vertices), vertices[k], false, ray)
  {
    VertexStartsAndEndsOneEdge(vertices, k);
    VertexIsInsideExactlyWithBoundary(GetEdges(vertices), vertices[k], true, ray, k);
    VertexIsInsideExactlyWithBoundary(GetEdges(vertices), vertices[k], false, ray, k);
  }

  /** Off the boundary, the boundary mode does not change the verdict. */
  lemma BoundaryModeMattersOnlyOnBoundary(edges: seq<Segment>, p: Point, ray: Point)
    requires forall i :: 0 <= i < |edges| ==> !OnSegment(edges[i], p)
    ensures PointInPolygon(edges, p, true, ray) == PointInPolygon(edges, p, false, ray)
  {
    CrossingsByBoundaryMode(edges, p, ray);
    forall i | 0 <= i < |edges|
      ensures edges[i].origin != p
    {
      OriginIsOnSegment(edges[i]);
    }
  }

  /** Scaling the ray by a positive factor changes no edge's verdict: only its direction matters. */
  lemma EdgeCrossingDependsOnRayDirection(edge: Segment, p: Point, includeBoundary: bool, ray: Point, k: real)
    requires k > 0.0
    ensures EdgeCrossesRay(edge, p, includeBoundary, Scale(k, ray)) == EdgeCrossesRay(edge, p, includeBoundary, ray)
  {
    var d, lb := Sub(edge.origin, p), Direction(edge);
    var alphaB, delta := RayAlphaB(edge, p, ray), RayDelta(edge, ray);
    var alphaB', delta' := RayAlphaB(edge, p, Scale(k, ray)), RayDelta(edge, Scale(k, ray));
    assert alphaB' == k * alphaB by {
      calc {
        alphaB';
        d.x * (k * ray.y) - d.y * (k * ray.x);
        k * (d.x * ray.y - d.y * ray.x);
      }
    }
    assert delta' == k * delta by {
      calc {
        delta';
        (k * ray.x) * lb.y - (k * ray.y) * lb.x;
        k * (ray.x * lb.y - ray.y * lb.x);
      }
    }
    ScalingKeepsSignAndOrder(alphaB', alphaB, delta', delta, k);
  }

  /** For `u' == k * u` and `v' == k * v` with `k > 0`, signs, zero tests and magnitude order are kept. */
  lemma ScalingKeepsSignAndOrder(u': real, u: real, v': real, v: real, k: real)
    requires k > 0.0 && u' == k * u && v' == k * v
    ensures Sign(u') == Sign(u) && Sign(v') == Sign(v)
    ensures Abs(u') < Abs(v') <==> Abs(u) < Abs(v)
  {
    ProductSignAndMagnitude(k, u);
    ProductSignAndMagnitude(k, v);
    var au, av := Abs(u), Abs(v);
    assert Abs(u') == k * au && Abs(v') == k * av;
    assert Abs(v') - Abs(u') == k * (av - au);
    if av - au > 0.0 { assert k * (av - au) > 0.0; }
    if av - au <= 0.0 { assert k * (au - av) >= 0.0; }
  }

  /** The containment verdict depends on the ray only through its direction. */
  lemma {:induction false} ContainmentDependsOnRayDirection(edges: seq<Segment>, p: Point, includeBoundary: bool, ray: Point, k: real)
    requires k > 0.0
    ensures PointInPolygon(edges, p, includeBoundary, Scale(k, ray)) == PointInPolygon(edges, p, includeBoundary, ray)
  {
    CrossingsDependOnRayDirection(edges, p, includeBoundary, ray, k);
  }

  lemma {:induction false} CrossingsDependOnRayDirection(edges: seq<Segment>, p: Point, includeBoundary: bool, ray: Point, k: real)
    requires k > 0.0
    ensures Crossings(edges, p, includeBoundary, Scale(k, ray)) == Crossings(edges, p, includeBoundary, ray)
  {
    if |edges| > 0 {
      EdgeCrossingDependsOnRayDirection(edges[0], p, includeBoundary, ray, k);
      CrossingsDependOnRayDirection(edges[1..], p, includeBoundary, ray, k);
    }
  }

  /** The edges moved by the vector `v`. */
  function Translate(edges: seq<Segment>, v: Point): (moved: seq<Segment>)
    ensures |moved| == |edges|
    ensures forall i :: 0 <= i < |edges| ==>
              moved[i] == Segment(Add(edges[i].origin, v), Add(edges[i].terminus, v))
  {
    seq(|edges|, i requires 0 <= i < |edges| => Segment(Add(edges[i].origin, v), Add(edges[i].terminus, v)))
  }

  /** Moving the polygon and the point together does not change the verdict. */
  lemma {:induction false} ContainmentIsTranslationInvariant(edges: seq<Segment>, p: Point, includeBoundary: bool, ray: Point, v: Point)
    ensures PointInPolygon(Translate(edges, v), Add(p, v), includeBoundary, ray)
            == PointInPolygon(edges, p, includeBoundary, ray)
  {
    TranslationKeepsCounts(edges, p, includeBoundary, ray, v);
  }

  lemma {:induction false} TranslationKeepsCounts(edges: seq<Segment>, p: Point, includeBoundary: bool, ray: Point, v: Point)
    ensures Crossings(Translate(edges, v), Add(p, v), includeBoundary, ray) == Crossings(edges, p, includeBoundary, ray)
    ensures MatchesAnyVertex(Translate(edges, v), Add(p, v)) == MatchesAnyVertex(edges, p)
  {
    var moved := Translate(edges, v);
    if |edges| > 0 {
      var e, m := edges[0], moved[0];
      assert Sub(m.origin, Add(p, v)) == Sub(e.origin, p);
      assert Direction(m) == Direction(e);
      assert (m.origin == Add(p, v)) == (e.origin == p);
      assert moved[1..] == Translate(edges[1..], v);
      TranslationKeepsCounts(edges[1..], p, includeBoundary, ray, v);
    }
  }

  /** `p` lies on one of the edges. */
  predicate OnBoundary(edges: seq<Segment>, p: Point) {
    exists i :: 0 <= i < |edges| && OnSegment(edges[i], p)
  }

  /**
   * The containment test as its boundary parameter is documented: a point
   * on an edge is contained exactly when the boundary is included, and any
   * other point is contained when the ray crosses an odd number of edges.
   */
  function PointInPolygonWithBoundary(edges: seq<Segment>, p: Point, includeBoundary: bool, ray: Point): bool {
    if OnBoundary(edges, p) then includeBoundary
    else Crossings(edges, p, includeBoundary, ray) % 2 == 1
  }

  /** A point on an edge is contained exactly when the boundary is included, whatever the ray. */
  lemma WithBoundaryDecidesBoundaryByMode(edges: seq<Segment>, p: Point, ray: Point, k: int)
    requires 0 <= k < |edges| && OnSegment(edges[k], p)
    ensures PointInPolygonWithBoundary(edges, p, true, ray)
    ensures !PointInPolygonWithBoundary(edges, p, false, ray)
  {
  }

  /**
   * Off the boundary the boundary-aware test gives the library's verdict, and
   * that verdict does not depend on the boundary mode.
   */
  lemma WithBoundaryAgreesOffBoundary(edges: seq<Segment>, p: Point, includeBoundary: bool, ray: Point)
    requires !OnBoundary(edges, p)
    ensures PointInPolygonWithBoundary(edges, p, includeBoundary, ray) == PointInPolygon(edges, p, includeBoundary, ray)
    ensures PointInPolygonWithBoundary(edges, p, true, ray) == PointInPolygonWithBoundary(edges, p, false, ray)
  {
    BoundaryModeMattersOnlyOnBoundary(edges, p, ray);
    forall i | 0 <= i < |edges|
      ensures edges[i].origin != p
    {
      OriginIsOnSegment(edges[i]);
    }
  }

  /** At a vertex the boundary-aware test and the library agree. */
  lemma WithBoundaryAgreesOnVertices(edges: seq<Segment>, p: Point, includeBoundary: bool, ray: Point, k: int)
    requires 0 <= k < |edges| && edges[k].origin == p
    ensures PointInPolygonWithBoundary(edges, p, includeBoundary, ray) == PointInPolygon(edges, p, includeBoundary, ray)
  {
    OriginIsOnSegment(edges[k]);
  }
}

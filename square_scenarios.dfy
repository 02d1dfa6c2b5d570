/**
 * Scenarios for the containment test on the unit square with vertices
 * (0,0), (0,1), (1,1), (1,0) in that order, as the library's tests use it.
 * The scenarios on the bottom line are split in three: the cross products of each edge seen
 * from the point, the verdicts that follow from those values for any
 * polygon, and the scenario itself, which puts the two together.
 */
module SquareScenarios {
  import opened Geometry
  import opened Edges
  import opened RayCasting

  /** The unit square's vertices, clockwise from the origin. */
  predicate IsUnitSquare(v: seq<Point>) {
    v == [Point(0.0, 0.0), Point(0.0, 1.0), Point(1.0, 1.0), Point(1.0, 0.0)]
  }

  /** The crossing count over four edges, edge by edge. */
  lemma CrossingsOfFour(edges: seq<Segment>, p: Point, includeBoundary: bool, ray: Point)
    requires |edges| == 4
    ensures Crossings(edges, p, includeBoundary, ray)
            == (if EdgeCrossesRay(edges[0], p, includeBoundary, ray) then 1 else 0)
             + (if EdgeCrossesRay(edges[1], p, includeBoundary, ray) then 1 else 0)
             + (if EdgeCrossesRay(edges[2], p, includeBoundary, ray) then 1 else 0)
             + (if EdgeCrossesRay(edges[3], p, includeBoundary, ray) then 1 else 0)
  {
    var r1, r2, r3 := edges[1..], edges[2..], edges[3..];
    assert r1[1..] == r2 && r2[1..] == r3 && r3[1..] == [];
    assert r1[0] == edges[1] && r2[0] == edges[2] && r3[0] == edges[3];
    assert Crossings(r3, p, includeBoundary, ray) == (if EdgeCrossesRay(edges[3], p, includeBoundary, ray) then 1 else 0);
    assert Crossings(r2, p, includeBoundary, ray)
           == (if EdgeCrossesRay(edges[2], p, includeBoundary, ray) then 1 else 0) + Crossings(r3, p, includeBoundary, ray);
    assert Crossings(r1, p, includeBoundary, ray)
           == (if EdgeCrossesRay(edges[1], p, includeBoundary, ray) then 1 else 0) + Crossings(r2, p, includeBoundary, ray);
  }

  /** The unit square's edges: left, top, right, bottom. */
  predicate IsUnitSquareEdges(edges: seq<Segment>) {
    && |edges| == 4
    && edges[0] == Segment(Point(0.0, 0.0), Point(0.0, 1.0))
    && edges[1] == Segment(Point(0.0, 1.0), Point(1.0, 1.0))
    && edges[2] == Segment(Point(1.0, 1.0), Point(1.0, 0.0))
    && edges[3] == Segment(Point(1.0, 0.0), Point(0.0, 0.0))
  }

  lemma SquareEdges(v: seq<Point>)
    requires IsUnitSquare(v)
    ensures IsUnitSquareEdges(GetEdges(v))
  {
  }

  /**
   * The centre of the unit square is inside it, with the boundary included
   * or not, whatever the ray's direction: exactly one edge is crossed.
   */
  lemma CentreIsInside(v: seq<Point>, p: Point, includeBoundary: bool, ray: Point)
    requires IsUnitSquare(v) && p == Point(0.5, 0.5) && ray != Point(0.0, 0.0)
    ensures Crossings(GetEdges(v), p, includeBoundary, ray) == 1
    ensures PointInPolygon(GetEdges(v), p, includeBoundary, ray)
  {
    SquareEdges(v);
    CentreCrossesOnce(GetEdges(v), p, includeBoundary, ray);
  }

  lemma CentreCrossesOnce(edges: seq<Segment>, p: Point, includeBoundary: bool, ray: Point)
    requires IsUnitSquareEdges(edges) && p == Point(0.5, 0.5) && ray != Point(0.0, 0.0)
    ensures Crossings(edges, p, includeBoundary, ray) == 1
  {
    CentreSeesLeftEdge(edges[0], p, includeBoundary, ray);
    CentreSeesTopEdge(edges[1], p, includeBoundary, ray);
    CentreSeesRightEdge(edges[2], p, includeBoundary, ray);
    CentreSeesBottomEdge(edges[3], p, includeBoundary, ray);
    OneSideFacesEachDirection(ray.x, ray.y,
      EdgeCrossesRay(edges[0], p, includeBoundary, ray), EdgeCrossesRay(edges[1], p, includeBoundary, ray),
      EdgeCrossesRay(edges[2], p, includeBoundary, ray), EdgeCrossesRay(edges[3], p, includeBoundary, ray));
    CrossingsOfFour(edges, p, includeBoundary, ray);
  }

  /**
   * The four conditions under which the centre's ray leaves through the
   * left, top, right or bottom side split the non-zero directions: exactly
   * one of them holds.
   */
  lemma OneSideFacesEachDirection(a: real, b: real, left: bool, top: bool, right: bool, bottom: bool)
    requires a != 0.0 || b != 0.0
    requires left <==> a <= b && a < -b
    requires top <==> -b <= a && a < b
    requires right <==> -a < b && b <= a
    requires bottom <==> b < a && a <= -b
    ensures (if left then 1 else 0) + (if top then 1 else 0) + (if right then 1 else 0) + (if bottom then 1 else 0) == 1
  {
  }

  lemma CentreSeesLeftEdge(e: Segment, p: Point, includeBoundary: bool, ray: Point)
    requires e == Segment(Point(0.0, 0.0), Point(0.0, 1.0)) && p == Point(0.5, 0.5)
    ensures EdgeCrossesRay(e, p, includeBoundary, ray) <==> ray.x <= ray.y && ray.x < -ray.y
  {
    assert Sub(e.origin, p) == Point(-0.5, -0.5);
    assert Direction(e) == Point(0.0, 1.0);
    assert RayAlphaA(e, p) == -0.5;
    assert RayAlphaB(e, p, ray) == 0.5 * ray.x - 0.5 * ray.y;
    assert RayDelta(e, ray) == ray.x;
  }

  lemma CentreSeesTopEdge(e: Segment, p: Point, includeBoundary: bool, ray: Point)
    requires e == Segment(Point(0.0, 1.0), Point(1.0, 1.0)) && p == Point(0.5, 0.5)
    ensures EdgeCrossesRay(e, p, includeBoundary, ray) <==> -ray.y <= ray.x && ray.x < ray.y
  {
    assert Sub(e.origin, p) == Point(-0.5, 0.5);
    assert Direction(e) == Point(1.0, 0.0);
    assert RayAlphaA(e, p) == -0.5;
    assert RayAlphaB(e, p, ray) == -0.5 * ray.x - 0.5 * ray.y;
    assert RayDelta(e, ray) == -ray.y;
  }

  lemma CentreSeesRightEdge(e: Segment, p: Point, includeBoundary: bool, ray: Point)
    requires e == Segment(Point(1.0, 1.0), Point(1.0, 0.0)) && p == Point(0.5, 0.5)
    ensures EdgeCrossesRay(e, p, includeBoundary, ray) <==> -ray.x < ray.y && ray.y <= ray.x
  {
    assert Sub(e.origin, p) == Point(0.5, 0.5);
    assert Direction(e) == Point(0.0, -1.0);
    assert RayAlphaA(e, p) == -0.5;
    assert RayAlphaB(e, p, ray) == 0.5 * ray.y - 0.5 * ray.x;
    assert RayDelta(e, ray) == -ray.x;
  }

  lemma CentreSeesBottomEdge(e: Segment, p: Point, includeBoundary: bool, ray: Point)
    requires e == Segment(Point(1.0, 0.0), Point(0.0, 0.0)) && p == Point(0.5, 0.5)
    ensures EdgeCrossesRay(e, p, includeBoundary, ray) <==> ray.y < ray.x && ray.x <= -ray.y
  {
    assert Sub(e.origin, p) == Point(0.5, -0.5);
    assert Direction(e) == Point(-1.0, 0.0);
    assert RayAlphaA(e, p) == -0.5;
    assert RayAlphaB(e, p, ray) == 0.5 * ray.x + 0.5 * ray.y;
    assert RayDelta(e, ray) == ray.y;
  }

  /**
   * The points of the bottom edge's line, for a horizontal ray pointing
   * right: with the boundary included the verdict is right, inside exactly
   * for `0 <= x <= 1`; with it excluded the points strictly between the two
   * bottom corners are judged inside although they lie on the boundary.
   */
  lemma BottomLineWithHorizontalRay(v: seq<Point>, p: Point, ray: Point)
    requires IsUnitSquare(v) && p.y == 0.0 && ray.x > 0.0 && ray.y == 0.0
    ensures PointInPolygon(GetEdges(v), p, true, ray) <==> 0.0 <= p.x <= 1.0
    ensures PointInPolygon(GetEdges(v), p, false, ray) <==> 0.0 < p.x < 1.0
  {
    SquareEdges(v);
    var edges := GetEdges(v);
    assert p == Point(p.x, 0.0) && ray == Point(ray.x, 0.0);
    LeftEdgeFromBottomLine(edges[0], p.x, p, ray.x, ray);
    TopEdgeFromBottomLine(edges[1], p.x, p, ray.x, ray);
    RightEdgeFromBottomLine(edges[2], p.x, p, ray.x, ray);
    BottomEdgeFromBottomLine(edges[3], p.x, p, ray.x, ray);
    CornersOfBottomLine(edges, p);
    BottomLineVerdicts(edges, p, ray);
  }

  /** The only vertices on the bottom line are the two bottom corners. */
  lemma CornersOfBottomLine(edges: seq<Segment>, p: Point)
    requires IsUnitSquareEdges(edges) && p.y == 0.0
    ensures MatchesAnyVertex(edges, p) <==> p.x == 0.0 || p.x == 1.0
  {
  }

  /**
   * The verdicts on the bottom line from the edges' cross products: the
   * left edge starts on the ray's line and counts when it is ahead of `p`
   * (or at `p`, boundary included); the top edge is parallel to the ray;
   * the right edge ends on the ray's line, and an edge's end never counts;
   * the bottom edge lies along the ray's line, and the tie-break counts it
   * when its start is to the right of `p`.
   */
  lemma BottomLineVerdicts(edges: seq<Segment>, p: Point, ray: Point)
    requires |edges| == 4 && ray.x > 0.0 && (MatchesAnyVertex(edges, p) <==> p.x == 0.0 || p.x == 1.0)
    requires edges[0].origin.x == 0.0 && edges[3].origin.x == 1.0
    requires RayAlphaA(edges[0], p) == -p.x && RayAlphaB(edges[0], p, ray) == 0.0 && RayDelta(edges[0], ray) == ray.x
    requires RayAlphaA(edges[1], p) == -1.0 && RayDelta(edges[1], ray) == 0.0
    requires RayAlphaB(edges[2], p, ray) == -ray.x && RayDelta(edges[2], ray) == -ray.x
    requires RayAlphaA(edges[3], p) == 0.0 && RayAlphaB(edges[3], p, ray) == 0.0 && RayDelta(edges[3], ray) == 0.0
    ensures PointInPolygon(edges, p, true, ray) <==> 0.0 <= p.x <= 1.0
    ensures PointInPolygon(edges, p, false, ray) <==> 0.0 < p.x < 1.0
  {
    CrossingsOfFour(edges, p, true, ray);
    CrossingsOfFour(edges, p, false, ray);
  }

  /*
   * The edges' cross products on the bottom line `p == (x, 0)` for the ray
   * `(r, 0)`, one lemma per edge.
   */

  lemma LeftEdgeFromBottomLine(e: Segment, x: real, p: Point, r: real, ray: Point)
    requires e == Segment(Point(0.0, 0.0), Point(0.0, 1.0)) && p == Point(x, 0.0) && ray == Point(r, 0.0)
    ensures RayAlphaA(e, p) == -x && RayAlphaB(e, p, ray) == 0.0 && RayDelta(e, ray) == r
  {
  }

  lemma TopEdgeFromBottomLine(e: Segment, x: real, p: Point, r: real, ray: Point)
    requires e == Segment(Point(0.0, 1.0), Point(1.0, 1.0)) && p == Point(x, 0.0) && ray == Point(r, 0.0)
    ensures RayAlphaA(e, p) == -1.0 && RayDelta(e, ray) == 0.0
  {
  }

  lemma RightEdgeFromBottomLine(e: Segment, x: real, p: Point, r: real, ray: Point)
    requires e == Segment(Point(1.0, 1.0), Point(1.0, 0.0)) && p == Point(x, 0.0) && ray == Point(r, 0.0)
    ensures RayAlphaB(e, p, ray) == -r && RayDelta(e, ray) == -r
  {
  }

  lemma BottomEdgeFromBottomLine(e: Segment, x: real, p: Point, r: real, ray: Point)
    requires e == Segment(Point(1.0, 0.0), Point(0.0, 0.0)) && p == Point(x, 0.0) && ray == Point(r, 0.0)
    ensures RayAlphaA(e, p) == 0.0 && RayAlphaB(e, p, ray) == 0.0 && RayDelta(e, ray) == 0.0
  {
  }

  /**
   * The midpoint `(1/2, 0)` of the bottom edge, for every ray pointing up
   * and to the right less steeply than `(1, 2)` (the default ray
   * `(pi, e)` is one): the ray crosses the bottom edge at `p` itself and
   * leaves through the right edge. With the boundary included that is two
   * crossings and the point is judged outside; with it excluded, one
   * crossing and the point is judged inside. The boundary-aware test gives
   * the documented verdicts instead.
   */
  lemma EdgeMidpointVerdictIsInverted(v: seq<Point>, p: Point, ray: Point)
    requires IsUnitSquare(v) && p == Point(0.5, 0.0) && 0.0 < ray.y < 2.0 * ray.x
    ensures !PointInPolygon(GetEdges(v), p, true, ray)
    ensures PointInPolygon(GetEdges(v), p, false, ray)
    ensures PointInPolygonWithBoundary(GetEdges(v), p, true, ray)
    ensures !PointInPolygonWithBoundary(GetEdges(v), p, false, ray)
  {
    SquareEdges(v);
    var edges := GetEdges(v);
    LeftEdgeFromMidpoint(edges[0], p, ray);
    TopEdgeFromMidpoint(edges[1], p, ray);
    RightEdgeFromMidpoint(edges[2], p, ray);
    BottomEdgeFromMidpoint(edges[3], p, ray);
    MidpointIsNotAVertex(edges, p);
    MidpointVerdicts(edges, p, ray);
    MidpointIsOnBottomEdge(edges[3], p);
    WithBoundaryDecidesBoundaryByMode(edges, p, ray, 3);
  }

  lemma MidpointIsNotAVertex(edges: seq<Segment>, p: Point)
    requires IsUnitSquareEdges(edges) && p == Point(0.5, 0.0)
    ensures !MatchesAnyVertex(edges, p)
  {
  }

  lemma MidpointIsOnBottomEdge(e: Segment, p: Point)
    requires e == Segment(Point(1.0, 0.0), Point(0.0, 0.0)) && p == Point(0.5, 0.0)
    ensures OnSegment(e, p)
  {
    assert PointAt(e, 0.5) == p;
    PointAtIsOnSegment(e, 0.5);
  }

  /**
   * The verdicts at the bottom edge's midpoint from the edges' cross
   * products: the left and top edges are missed, the right edge is crossed,
   * and the bottom edge, met at `p` itself, counts only with the boundary
   * included.
   */
  lemma MidpointVerdicts(edges: seq<Segment>, p: Point, ray: Point)
    requires |edges| == 4 && 0.0 < ray.y < 2.0 * ray.x && !MatchesAnyVertex(edges, p)
    requires RayAlphaA(edges[0], p) == -0.5 && RayDelta(edges[0], ray) == ray.x
    requires RayAlphaA(edges[1], p) == -1.0 && RayAlphaB(edges[1], p, ray) == -0.5 * ray.y - ray.x && RayDelta(edges[1], ray) == -ray.y
    requires RayAlphaA(edges[2], p) == -0.5 && RayAlphaB(edges[2], p, ray) == 0.5 * ray.y - ray.x && RayDelta(edges[2], ray) == -ray.x
    requires RayAlphaA(edges[3], p) == 0.0 && RayAlphaB(edges[3], p, ray) == 0.5 * ray.y && RayDelta(edges[3], ray) == ray.y
    ensures Crossings(edges, p, true, ray) == 2 && !PointInPolygon(edges, p, true, ray)
    ensures Crossings(edges, p, false, ray) == 1 && PointInPolygon(edges, p, false, ray)
  {
    CrossingsOfFour(edges, p, true, ray);
    CrossingsOfFour(edges, p, false, ray);
  }

  lemma LeftEdgeFromMidpoint(e: Segment, p: Point, ray: Point)
    requires e == Segment(Point(0.0, 0.0), Point(0.0, 1.0)) && p == Point(0.5, 0.0)
    ensures RayAlphaA(e, p) == -0.5 && RayDelta(e, ray) == ray.x
  {
    assert Sub(e.origin, p) == Point(-0.5, 0.0);
    assert Direction(e) == Point(0.0, 1.0);
  }

  lemma TopEdgeFromMidpoint(e: Segment, p: Point, ray: Point)
    requires e == Segment(Point(0.0, 1.0), Point(1.0, 1.0)) && p == Point(0.5, 0.0)
    ensures RayAlphaA(e, p) == -1.0 && RayAlphaB(e, p, ray) == -0.5 * ray.y - ray.x && RayDelta(e, ray) == -ray.y
  {
    assert Sub(e.origin, p) == Point(-0.5, 1.0);
    assert Direction(e) == Point(1.0, 0.0);
  }

  lemma RightEdgeFromMidpoint(e: Segment, p: Point, ray: Point)
    requires e == Segment(Point(1.0, 1.0), Point(1.0, 0.0)) && p == Point(0.5, 0.0)
    ensures RayAlphaA(e, p) == -0.5 && RayAlphaB(e, p, ray) == 0.5 * ray.y - ray.x && RayDelta(e, ray) == -ray.x
  {
    assert Sub(e.origin, p) == Point(0.5, 1.0);
    assert Direction(e) == Point(0.0, -1.0);
  }

  /** The bottom edge's three cross products at its midpoint, each from a lemma of its own. */
  lemma BottomEdgeFromMidpoint(e: Segment, p: Point, ray: Point)
    requires e == Segment(Point(1.0, 0.0), Point(0.0, 0.0)) && p == Point(0.5, 0.0)
    ensures RayAlphaA(e, p) == 0.0 && RayAlphaB(e, p, ray) == 0.5 * ray.y && RayDelta(e, ray) == ray.y
  {
    BottomAlphaAFromMidpoint(e, p);
    BottomAlphaBFromMidpoint(e, p, ray);
    BottomDeltaFromMidpoint(e, ray);
  }

  lemma BottomAlphaAFromMidpoint(e: Segment, p: Point)
    requires e == Segment(Point(1.0, 0.0), Point(0.0, 0.0)) && p == Point(0.5, 0.0)
    ensures RayAlphaA(e, p) == 0.0
  {
    assert Sub(e.origin, p) == Point(0.5, 0.0);
    assert Direction(e) == Point(-1.0, 0.0);
  }

  lemma BottomAlphaBFromMidpoint(e: Segment, p: Point, ray: Point)
    requires e == Segment(Point(1.0, 0.0), Point(0.0, 0.0)) && p == Point(0.5, 0.0)
    ensures RayAlphaB(e, p, ray) == 0.5 * ray.y
  {
    assert Sub(e.origin, p) == Point(0.5, 0.0);
  }

  lemma BottomDeltaFromMidpoint(e: Segment, ray: Point)
    requires e == Segment(Point(1.0, 0.0), Point(0.0, 0.0))
    ensures RayDelta(e, ray) == ray.y
  {
  }
}

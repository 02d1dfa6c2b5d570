# tf-polygon primitives, modelled in Dafny

tf-polygon computes planar geometry predicates on tensors of points and
polygons. This project models its primitives module on single values,
with coordinates as exact reals:

- **signed point-line area**: the oriented area of the parallelogram
  spanned by a directed line and a point. Its sign tells on which side of
  the line the point lies.
- **edge extraction**: a polygon is given as a cyclic sequence of
  vertices. Its directed edges pair each vertex with the next one, built
  as a roll of the vertex sequence by one place stacked beside the
  sequence itself.
- **segment intersection**: Cramer's rule on two directed segments. It
  returns an indicator and the meeting point, with or without the
  segments' endpoints counted.
- **point in polygon**: a ray-casting test. The test counts the edges
  crossed by a ray from the point and takes the parity of that count.
  When the point is a polygon vertex, the boundary mode overrides the
  parity.

Modules:

- `Geometry` (geometry.dfy): points, segments, cross and dot products,
  sign and absolute value, and Cramer's rule with its uniqueness.
- `SignedArea` (signed_area.dfy): the signed point-line area.
- `Edges` (edges.dfy): edge extraction.
- `SegmentIntersection` (segment_intersection.dfy): segment intersection.
- `RayCasting` (point_in_polygon.dfy): the containment test. The ray's
  direction is an explicit parameter.
- `SquareScenarios` (square_scenarios.dfy): the unit-square scenarios of
  the library's tests.

## Model

| member | source | states |
|---|---|---|
| Geometry.CramerSolves | src/tf_polygon/primitives.py:100-107 | when the directions are not parallel, the two cross-product ratios give parameters at which the two supporting lines meet |
| Geometry.CramerUnique | src/tf_polygon/primitives.py:100-107 | those ratios are the only parameters at which the two lines meet |
| Geometry.PointAtIsOnSegment | src/tf_polygon/primitives.py:127-129 | the point at a parameter in [0, 1] along a segment lies on the closed segment |
| SignedArea.SignedPointLineArea | src/tf_polygon/primitives.py:5-27 | the area is the cross product of the line's direction with the vector from its start to the point; it is zero for a degenerate line and at either endpoint |
| SignedArea.ReversedLineNegatesArea | src/tf_polygon/primitives.py:24-25 | reversing the line's direction negates the area |
| SignedArea.AreaOfOffsetPoint | src/tf_polygon/primitives.py:24-25 | a point offset by h normals from the line has area h times the squared line length, wherever it is along the line |
| SignedArea.DecomposeAlongLine | src/tf_polygon/primitives.py:6-9 | every point is such an offset point of a non-degenerate line |
| SignedArea.AreaSignIsSide | src/tf_polygon/primitives.py:6-9 | for a non-degenerate line the area is positive exactly to the left, negative exactly to the right and zero exactly on the line |
| Edges.RollBackOne | src/tf_polygon/primitives.py:70 | rolling by -1 keeps the length and moves element i+1 (cyclically) to position i |
| Edges.GetEdges | src/tf_polygon/primitives.py:57-72 | one edge per vertex; edge i runs from vertex i to vertex i+1 mod N |
| Edges.OriginsOfEdges | src/tf_polygon/primitives.py:69-72 | the edges' start points are the vertices, unchanged and in order |
| Edges.EdgesFormClosedChain | src/tf_polygon/primitives.py:57-72 | each edge ends where the next one starts, and the last edge ends at the first vertex |
| Edges.VertexStartsAndEndsOneEdge | src/tf_polygon/primitives.py:69-72 | vertex k starts edge k and ends edge k-1 mod N |
| SegmentIntersection.AlphaTestsMeanUnitInterval | src/tf_polygon/primitives.py:109-122 | the sign test and the magnitude test on one cross product together hold exactly when alpha / delta lies in [0, 1], or in (0, 1) with the boundary excluded |
| SegmentIntersection.LineSegmentIntersection | src/tf_polygon/primitives.py:75-131 | the indicator holds exactly when the lines are not parallel and both parameters lie in the unit interval of the mode; the point is stated by IntersectionLiesOnBothSegments and MeetingSegmentsAreReported |
| SegmentIntersection.ParallelSegmentsDoNotIntersect | src/tf_polygon/primitives.py:80 | parallel and collinear segments are never reported as intersecting, in either mode |
| SegmentIntersection.IntersectionLiesOnBothSegments | src/tf_polygon/primitives.py:127-129 | soundness: when the indicator holds, the returned point is the point at t along a and at s along b, and it lies on both closed segments |
| SegmentIntersection.MeetingSegmentsAreReported | src/tf_polygon/primitives.py:88-94 | completeness: segments that meet at parameters inside the unit interval of the mode, on non-parallel lines, are reported with that meeting point |
| SegmentIntersection.ExclusiveImpliesInclusive | src/tf_polygon/primitives.py:109-125 | an intersection found with the boundary excluded is also found with it included |
| SegmentIntersection.SharedEndpointIntersectsOnlyInclusively | src/tf_polygon/primitives.py:86 | non-parallel segments sharing an endpoint intersect at that endpoint with the boundary included and do not intersect with it excluded |
| SegmentIntersection.SwapNegatesCrossProducts | src/tf_polygon/primitives.py:100-107 | swapping the segments negates the three cross products and exchanges the two alphas |
| SegmentIntersection.IntersectionIsSymmetric | src/tf_polygon/primitives.py:100-129 | swapping the segments keeps the indicator and, when it holds, the point |
| RayCasting.Crossings | src/tf_polygon/primitives.py:192 | the sum of the per-edge indicators is at most the number of edges |
| RayCasting.CrossingsCountsCrossedEdges | src/tf_polygon/primitives.py:164-192 | the crossing count is the number of edges whose indicator holds, the size of the set of their indices |
| RayCasting.MatchesAnyVertex | src/tf_polygon/primitives.py:197-198 | true exactly when some edge starts at the point |
| RayCasting.CrossingTest | src/tf_polygon/primitives.py:164-189 | no contract of its own: the per-edge indicator on the three cross products and d.x; its meaning is stated by EdgeCrossingMeaning |
| RayCasting.EdgeCrossesRay | src/tf_polygon/primitives.py:155-189 | no contract of its own: the per-edge indicator for one edge; its meaning is stated by EdgeCrossingMeaning, LeadingEdgeCounts and BoundaryModeMattersOnlyOnEdge |
| RayCasting.EdgeCrossingMeaning | src/tf_polygon/primitives.py:155-189 | a non-parallel edge counts exactly when the ray meets its line at t >= 0 (t > 0 with the boundary excluded) and the edge is met at s in [0, 1); a parallel edge counts exactly when all three cross products are zero and its start is to the right of the point |
| RayCasting.LeadingEdgeCounts | src/tf_polygon/primitives.py:164-178 | an edge not parallel to the ray whose start lies on the ray ahead of the point, or at the point with the boundary included, counts as crossed |
| RayCasting.RayMeetsEdgeLine | src/tf_polygon/primitives.py:155-162 | for a non-parallel edge, the point t along the ray is the point s along the edge |
| RayCasting.BoundaryModeMattersOnlyOnEdge | src/tf_polygon/primitives.py:175-178 | excluding the boundary never adds an edge, and the two modes disagree on an edge only when the point lies on it |
| RayCasting.CollinearTieBreakForRightwardRay | src/tf_polygon/primitives.py:186-189 | for a rightward ray, an edge along the ray's line counts exactly when its start lies ahead of the point along the ray |
| RayCasting.CrossingsAppend | src/tf_polygon/primitives.py:192 | the crossing count is additive over a split of the edges |
| RayCasting.CrossingsByBoundaryMode | src/tf_polygon/primitives.py:175-192 | the exclusive count is at most the inclusive count, and equal to it when the point is on no edge |
| RayCasting.PointInPolygon | src/tf_polygon/primitives.py:134-205 | no contract of its own: the containment verdict; its meaning is stated by VertexIsInsideExactlyWithBoundary, NonVertexIsInsideByParity and the lemmas below |
| RayCasting.VertexIsInsideExactlyWithBoundary | src/tf_polygon/primitives.py:197-203 | a point equal to a vertex is inside exactly when the boundary is included |
| RayCasting.NonVertexIsInsideByParity | src/tf_polygon/primitives.py:192-203 | a point that is not a vertex is inside exactly when the crossing count is odd |
| RayCasting.PolygonVerticesAreOnBoundary | tests/primitives/test_point_in_polygon.py:59-67 | every vertex of a polygon is inside its edges with the boundary included and outside with it excluded, whatever the ray |
| RayCasting.BoundaryModeMattersOnlyOnBoundary | src/tf_polygon/primitives.py:175-203 | off the boundary the verdict does not depend on the boundary mode |
| RayCasting.EdgeCrossingDependsOnRayDirection | src/tf_polygon/primitives.py:155-162 | scaling the ray by a positive factor changes no edge's verdict |
| RayCasting.ContainmentDependsOnRayDirection | src/tf_polygon/primitives.py:148-149 | the containment verdict depends on the ray only through its direction |
| RayCasting.CrossingsDependOnRayDirection | src/tf_polygon/primitives.py:192 | the crossing count depends on the ray only through its direction |
| RayCasting.ContainmentIsTranslationInvariant | src/tf_polygon/primitives.py:155 | moving the polygon and the point by the same vector keeps the verdict |
| RayCasting.TranslationKeepsCounts | src/tf_polygon/primitives.py:192-198 | moving both by the same vector keeps the crossing count and the vertex match |
| RayCasting.PointInPolygonWithBoundary | src/tf_polygon/primitives.py:140 | no contract of its own: the corrected containment test, deciding a point on an edge by the boundary mode; its meaning is stated by WithBoundaryDecidesBoundaryByMode, WithBoundaryAgreesOffBoundary and WithBoundaryAgreesOnVertices |
| RayCasting.WithBoundaryDecidesBoundaryByMode | src/tf_polygon/primitives.py:140 | corrected test: a point on an edge is inside exactly when the boundary is included, whatever the ray |
| RayCasting.WithBoundaryAgreesOffBoundary | src/tf_polygon/primitives.py:192-194 | off the boundary the corrected test gives the library's verdict, and that verdict does not depend on the mode |
| RayCasting.WithBoundaryAgreesOnVertices | src/tf_polygon/primitives.py:197-203 | at a vertex the corrected test and the library agree |
| SquareScenarios.CentreIsInside | tests/primitives/test_point_in_polygon.py:17-18 | the centre of the unit square is crossed exactly once and is inside, in both modes and for every non-zero ray |
| SquareScenarios.BottomLineWithHorizontalRay | tests/primitives/test_point_in_polygon.py:34-35 | on the bottom edge's line with a rightward horizontal ray: inclusive inside exactly for 0 <= x <= 1, exclusive inside exactly for 0 < x < 1. So (1.5, 0) and (-0.5, 0) are outside in both modes, the two bottom-line points of lines 34-35 and 46-47. The test uses the default ray (pi, e), not a horizontal one, and its other fourteen points are not covered |
| SquareScenarios.BottomLineVerdicts | src/tf_polygon/primitives.py:164-203 | the same verdicts derived from the edges' cross products, for any four edges with those values |
| SquareScenarios.EdgeMidpointVerdictIsInverted | src/tf_polygon/primitives.py:175-203 | at the bottom edge's midpoint (0.5, 0), for every ray with 0 < y < 2x, the library judges the point outside with the boundary included and inside with it excluded; the corrected test gives the opposite verdicts |
| SquareScenarios.MidpointVerdicts | src/tf_polygon/primitives.py:164-203 | from the edges' cross products at that point: two crossings with the boundary included, one with it excluded |

## Left out

- `signed_point_line_distance` (primitives.py:30-50): it divides by a Euclidean norm, a square root, which exact reals do not express.
- `point_line_segment_distance` (primitives.py:53-54): its body is empty.
- minimal_distance.py is not part of this model.
- Tensor shapes and broadcasting: every operation is modelled on one line, one segment pair, one polygon and one point.
- Gradients and floating-point rounding: coordinates are exact reals, so no rounding error and no NaN are modelled.
- The default ray `(pi, e)`: it is not a finite real literal, so the ray is always a parameter. The midpoint scenario covers every ray with `0 < y < 2x`, and the default ray is one of them.
- The crossing count is an unbounded natural number. The library casts it to int32, which could overflow only past 2^31 edges.
- SegmentIntersection.IntersectionLiesOnBothSegments: nothing is stated about the returned point when the indicator is false. The library documents it as arbitrary.
- RayCasting.CollinearTieBreakForRightwardRay: the library's test for an edge along the ray's line looks at the x coordinate of the edge's start. That test is proved to mean "ahead along the ray" only for rays with a positive x component. For a leftward ray it counts edges behind the point.
- SquareScenarios.BottomLineWithHorizontalRay: the scenario is proved for a rightward horizontal ray only. The library's test uses the default ray (pi, e) and fourteen more points on the lines of the other edges; those verdicts are not proved.
- RayCasting.EdgeCrossingMeaning: an edge that is not parallel to the ray and whose start lies on the ray ahead of the point (or at the point, with the boundary included) always counts; this is the leading-edge rule. So a ray that only touches the polygon at a vertex can change the parity. This is stated, not corrected.

## Findings

| source | as written | input that shows it | evidently intended | confidence | as-written member | corrected member |
|---|---|---|---|---|---|---|
| src/tf_polygon/primitives.py:175-203 | A point lying inside an edge meets that edge at t = 0. The edge counts as crossed only when the boundary is included, so including the boundary adds one crossing and flips the parity. The vertex override at lines 200-203 covers only vertices, not other edge points. | unit square (0,0), (0,1), (1,1), (1,0); point (0.5, 0); default ray (pi, e): inclusive gives outside, exclusive gives inside | a point on the boundary is inside exactly when include_boundary is true (docstring, line 140) | not executed; follows from the proved lemma for every ray with 0 < y < 2x | SquareScenarios.EdgeMidpointVerdictIsInverted | RayCasting.WithBoundaryDecidesBoundaryByMode |

/**
 * Edge extraction: a polygon is a cyclic sequence of vertices, and its
 * directed edges pair every vertex with the one after it, the last vertex
 * wrapping around to the first. The edges are built as the library builds
 * them: the vertex sequence rolled back by one place, stacked beside the
 * vertex sequence itself.
 */
module Edges {
  import opened Geometry

  /**
   * A roll by `-1`: every element moves one place towards the front and
   * the first element wraps around to the back.
   */
  function RollBackOne<T>(s: seq<T>): (r: seq<T>)
    ensures |r| == |s|
    ensures forall i :: 0 <= i < |s| ==> r[i] == s[(i + 1) % |s|]
  {
    if |s| == 0 then [] else s[1..] + [s[0]]
  }

  /** Stacking two vertex sequences of the same length into a sequence of segments. */
  function Stack(starts: seq<Point>, ends: seq<Point>): seq<Segment>
    requires |starts| == |ends|
  {
    seq(|starts|, i requires 0 <= i < |starts| => Segment(starts[i], ends[i]))
  }

  /** The directed edges of a polygon: edge `i` runs from vertex `i` to vertex `i + 1 mod N`. */
  function GetEdges(vertices: seq<Point>): (edges: seq<Segment>)
    ensures |edges| == |vertices|
    ensures forall i :: 0 <= i < |vertices| ==>
              edges[i] == Segment(vertices[i], vertices[(i + 1) % |vertices|])
  {
    Stack(vertices, RollBackOne(vertices))
  }

  /** The start points of a sequence of edges. */
  function Origins(edges: seq<Segment>): seq<Point> {
    seq(|edges|, i requires 0 <= i < |edges| => edges[i].origin)
  }

  /** The edges start at the polygon's vertices, unchanged and in order. */
  lemma OriginsOfEdges(vertices: seq<Point>)
    ensures Origins(GetEdges(vertices)) == vertices
  {
    var edges := GetEdges(vertices);
    assert |Origins(edges)| == |vertices|;
    forall i | 0 <= i < |vertices|
      ensures Origins(edges)[i] == vertices[i]
    {
    }
  }

  /**
   * The edges form a closed chain: each edge ends where the next one
   * starts, and the last one ends where the first one starts.
   */
  lemma EdgesFormClosedChain(vertices: seq<Point>, i: int)
    requires 0 <= i < |vertices|
    ensures GetEdges(vertices)[i].terminus == GetEdges(vertices)[(i + 1) % |vertices|].origin
    ensures i == |vertices| - 1 ==> GetEdges(vertices)[i].terminus == GetEdges(vertices)[0].origin
  {
    var n := |vertices|;
    var j := (i + 1) % n;
    assert 0 <= j < n;
  }

  /** Vertex `k` is the start of edge `k` and the end of edge `k - 1 mod N`. */
  lemma VertexStartsAndEndsOneEdge(vertices: seq<Point>, k: int)
    requires 0 <= k < |vertices|
    ensures GetEdges(vertices)[k].origin == vertices[k]
    ensures GetEdges(vertices)[(k + |vertices| - 1) % |vertices|].terminus == vertices[k]
  {
    var n := |vertices|;
    var j := (k + n - 1) % n;
    if k == 0 {
      ModInRange(n - 1, n);
      ModInRange(0, n);
      assert j == n - 1;
      assert n % n == 0;
    } else {
      ModAboveRange(k + n - 1, n);
      ModInRange(k, n);
      assert j == k - 1;
    }
    assert (j + 1) % n == k;
  }

  lemma ModInRange(a: int, n: int)
    requires 0 <= a < n
    ensures a % n == a
  {
  }

  lemma ModAboveRange(a: int, n: int)
    requires n <= a < 2 * n
    ensures a % n == a - n
  {
    assert a == n * 1 + (a - n);
  }
}

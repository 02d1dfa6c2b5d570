/**
 * The signed (oriented) area of the parallelogram spanned by a directed line
 * `a -> b` and a point `p`: positive when `p` is to the left of the line,
 * negative when it is to the right, zero when `p` is on the line or the
 * line is degenerate (`a == b`).
 */
module SignedArea {
  import opened Geometry

  /**
   * The area computed from the coordinates of the line's endpoints `a`, `b`
   * and of `p`, product by product as the library computes it.
   */
  function SignedPointLineArea(line: Segment, p: Point): (r: real)
    ensures line.origin == line.terminus ==> r == 0.0
    ensures p == line.origin || p == line.terminus ==> r == 0.0
    ensures r == Cross(Direction(line), Sub(p, line.origin))
  {
    var a, b := line.origin, line.terminus;
    (a.x - p.x) * (b.y - a.y) - (b.x - a.x) * (a.y - p.y)
  }

  /**
   * The point reached from the line's origin by going `s` times the line's
   * direction along it and `h` times that direction turned a quarter turn
   * to the left: `h > 0` is the left side, `h < 0` the right side.
   */
  function Offset(line: Segment, s: real, h: real): Point {
    Add(PointAt(line, s), Scale(h, Perp(Direction(line))))
  }

  /** Reversing the direction of the line negates the signed area. */
  lemma ReversedLineNegatesArea(line: Segment, p: Point)
    ensures SignedPointLineArea(Segment(line.terminus, line.origin), p) == -SignedPointLineArea(line, p)
  {
    var a, b := line.origin, line.terminus;
    calc {
      SignedPointLineArea(Segment(b, a), p);
      (b.x - p.x) * (a.y - b.y) - (a.x - b.x) * (b.y - p.y);
      -((a.x - p.x) * (b.y - a.y) - (b.x - a.x) * (a.y - p.y));
    }
  }

  /**
   * The area of an offset point is its signed offset `h` times the squared
   * length of the line; how far along the line it is does not matter.
   */
  lemma AreaOfOffsetPoint(line: Segment, s: real, h: real)
    ensures SignedPointLineArea(line, Offset(line, s, h)) == h * Dot(Direction(line), Direction(line))
  {
    var l := Direction(line);
    var u := Sub(Offset(line, s, h), line.origin);
    assert u == Point(s * l.x - h * l.y, s * l.y + h * l.x);
    calc {
      Cross(l, u);
      l.x * (s * l.y + h * l.x) - l.y * (s * l.x - h * l.y);
      h * (l.x * l.x + l.y * l.y);
    }
  }

  /**
   * Every point is an offset point of a non-degenerate line: the plane is
   * spanned by the line's direction and its left normal.
   */
  lemma DecomposeAlongLine(line: Segment, p: Point) returns (s: real, h: real)
    requires line.origin != line.terminus
    ensures p == Offset(line, s, h)
  {
    var l := Direction(line);
    var u := Sub(p, line.origin);
    var n := Dot(l, l);
    SquaredLengthPositive(l);
    s := Dot(u, l) / n;
    h := Cross(l, u) / n;
    assert s * n == u.x * l.x + u.y * l.y;
    assert h * n == l.x * u.y - l.y * u.x;
    assert (s * l.x - h * l.y) * n == u.x * n by {
      calc {
        (s * l.x - h * l.y) * n;
        (s * n) * l.x - (h * n) * l.y;
        (u.x * l.x + u.y * l.y) * l.x - (l.x * u.y - l.y * u.x) * l.y;
        u.x * (l.x * l.x + l.y * l.y);
      }
    }
    assert (s * l.y + h * l.x) * n == u.y * n by {
      calc {
        (s * l.y + h * l.x) * n;
        (s * n) * l.y + (h * n) * l.x;
        (u.x * l.x + u.y * l.y) * l.y + (l.x * u.y - l.y * u.x) * l.x;
        u.y * (l.x * l.x + l.y * l.y);
      }
    }
    CancelNonZero(s * l.x - h * l.y, u.x, n);
    CancelNonZero(s * l.y + h * l.x, u.y, n);
  }

  /**
   * For a non-degenerate line the sign of the area says which side the point
   * is on: positive exactly for points to the left, negative exactly for
   * points to the right, zero exactly for points on the line.
   */
  lemma AreaSignIsSide(line: Segment, s: real, h: real)
    requires line.origin != line.terminus
    ensures Sign(SignedPointLineArea(line, Offset(line, s, h))) == Sign(h)
  {
    var l := Direction(line);
    SquaredLengthPositive(l);
    AreaOfOffsetPoint(line, s, h);
    SignOfProduct(h, Dot(l, l));
  }

  lemma SignOfProduct(h: real, n: real)
    requires n > 0.0
    ensures Sign(h * n) == Sign(h)
  {
    if h > 0.0 {
      assert h * n > 0.0;
    } else if h < 0.0 {
      assert (-h) * n > 0.0;
    }
  }
}

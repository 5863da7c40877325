/**
 * Point and shape-pair tests of the collision library: points, circles
 * (centre and radius) and axis-aligned rectangles (top-left corner, width
 * and height). Each test is inclusive: touching counts as colliding.
 */
module Shapes {
  import opened Distance

  /** `pointPoint`: the two points are in the same location (exact comparison). */
  predicate PointPoint(x1: real, y1: real, x2: real, y2: real)
  {
    x1 == x2 && y1 == y2
  }

  /** `pointCircle`: the point is no further than `r` from the centre. */
  predicate PointCircle(px: real, py: real, cx: real, cy: real, r: real)
  {
    WithinRadius(DistSq(cx, cy, px, py), r)
  }

  /** `circleCircle`: the centres are no further apart than the sum of the radii. */
  predicate CircleCircle(c1x: real, c1y: real, c1r: real, c2x: real, c2y: real, c2r: real)
  {
    WithinRadius(DistSq(c2x, c2y, c1x, c1y), c1r + c2r)
  }

  /** `pointRect`: the point lies in the rectangle, all four edges included. */
  predicate PointRect(px: real, py: real, rx: real, ry: real, rw: real, rh: real)
  {
    px >= rx && px <= rx + rw && py >= ry && py <= ry + rh
  }

  /** `rectRect`: the projections of the two rectangles overlap on both axes. */
  predicate RectRect(r1x: real, r1y: real, r1w: real, r1h: real, r2x: real, r2y: real, r2w: real, r2h: real)
  {
    r1x + r1w >= r2x && r1x <= r2x + r2w && r1y + r1h >= r2y && r1y <= r2y + r2h
  }

  /**
   * `circleRect`: clamps the centre to the rectangle to find its closest
   * point, then tests that point against the radius. For a rectangle of
   * non-negative size this reports exactly whether some point of the
   * rectangle lies in the circle.
   */
  method CircleRect(cx: real, cy: real, radius: real, rx: real, ry: real, rw: real, rh: real) returns (hit: bool)
    ensures radius < 0.0 ==> !hit
    ensures PointRect(cx, cy, rx, ry, rw, rh) ==> (hit <==> radius >= 0.0)
    ensures rw >= 0.0 && rh >= 0.0 ==>
      (hit <==> exists qx, qy :: PointRect(qx, qy, rx, ry, rw, rh) && PointCircle(qx, qy, cx, cy, radius))
  {
    var testX := cx;
    var testY := cy;

    // the closest edge on each axis
    if cx < rx {
      testX := rx;
    } else if cx > rx + rw {
      testX := rx + rw;
    }
    if cy < ry {
      testY := ry;
    } else if cy > ry + rh {
      testY := ry + rh;
    }

    hit := WithinRadius(DistSq(testX, testY, cx, cy), radius);

    SquareFacts(radius);
    DistSqSymmetric(testX, testY, cx, cy);
    assert hit <==> PointCircle(testX, testY, cx, cy, radius);
    if rw >= 0.0 && rh >= 0.0 {
      assert PointRect(testX, testY, rx, ry, rw, rh);
      forall qx, qy | PointRect(qx, qy, rx, ry, rw, rh) && PointCircle(qx, qy, cx, cy, radius)
        ensures hit
      {
        AxisNearest(cx, rx, rw, testX, qx);
        AxisNearest(cy, ry, rh, testY, qy);
        DistSqSymmetric(qx, qy, cx, cy);
      }
    }
  }

  /**
   * The clamped coordinate `t` of `c` on the interval [lo, lo + w] is at
   * least as close to `c` as any coordinate `q` of the interval.
   */
  lemma AxisNearest(c: real, lo: real, w: real, t: real, q: real)
    requires lo <= q <= lo + w
    requires t == if c < lo then lo else if c > lo + w then lo + w else c
    ensures Sq(c - t) <= Sq(c - q)
  {
    SquareFacts(c - q);
    if c < lo {
      SquareMonotone(lo - c, q - c);
      SquareFacts(lo - c);
      SquareFacts(q - c);
      assert c - t == -(lo - c) && c - q == -(q - c);
    } else if c > lo + w {
      SquareMonotone(c - (lo + w), c - q);
    } else {
      SquareFacts(c - t);
      assert c - t == 0.0;
    }
  }

  /** `pointCircle` compares the root of the squared distance with `r`; the model agrees for every root. */
  lemma PointCircleMatchesRoot(px: real, py: real, cx: real, cy: real, r: real, distance: real)
    requires IsRoot(distance, DistSq(cx, cy, px, py))
    ensures PointCircle(px, py, cx, cy, r) <==> distance <= r
  {
    RootCompare(distance, DistSq(cx, cy, px, py), r);
  }

  /** `circleCircle` compares the root of the squared distance with `c1r + c2r`; the model agrees. */
  lemma CircleCircleMatchesRoot(c1x: real, c1y: real, c1r: real, c2x: real, c2y: real, c2r: real, distance: real)
    requires IsRoot(distance, DistSq(c2x, c2y, c1x, c1y))
    ensures CircleCircle(c1x, c1y, c1r, c2x, c2y, c2r) <==> distance <= c1r + c2r
  {
    RootCompare(distance, DistSq(c2x, c2y, c1x, c1y), c1r + c2r);
  }

  /** A point no further from the centre than a point in the circle is in the circle. */
  lemma PointCircleCloser(px: real, py: real, qx: real, qy: real, cx: real, cy: real, r: real)
    requires DistSq(cx, cy, px, py) <= DistSq(cx, cy, qx, qy)
    requires PointCircle(qx, qy, cx, cy, r)
    ensures PointCircle(px, py, cx, cy, r)
  {
  }

  /** A centre lies in its own circle exactly when the radius is not negative. */
  lemma PointCircleAtCentre(cx: real, cy: real, r: real)
    ensures PointCircle(cx, cy, cx, cy, r) <==> r >= 0.0
  {
    SquareFacts(r);
  }

  /** Two points are in the same location exactly when one lies in the zero-radius circle around the other. */
  lemma PointPointAsCircle(x1: real, y1: real, x2: real, y2: real)
    ensures PointPoint(x1, y1, x2, y2) <==> PointCircle(x1, y1, x2, y2, 0.0)
  {
    SquareFacts(0.0);
  }

  /** Swapping the two circles does not change the result. */
  lemma CircleCircleSymmetric(c1x: real, c1y: real, c1r: real, c2x: real, c2y: real, c2r: real)
    ensures CircleCircle(c1x, c1y, c1r, c2x, c2y, c2r) == CircleCircle(c2x, c2y, c2r, c1x, c1y, c1r)
  {
    DistSqSymmetric(c1x, c1y, c2x, c2y);
    assert c1r + c2r == c2r + c1r;
  }

  /** Two circles that share a point collide (the triangle inequality, squared). */
  lemma CircleCircleFromCommonPoint(c1x: real, c1y: real, c1r: real, c2x: real, c2y: real, c2r: real, px: real, py: real)
    requires PointCircle(px, py, c1x, c1y, c1r) && PointCircle(px, py, c2x, c2y, c2r)
    ensures CircleCircle(c1x, c1y, c1r, c2x, c2y, c2r)
  {
    var ux, uy := px - c1x, py - c1y;
    var vx, vy := c2x - px, c2y - py;
    SquareFacts(vx);
    SquareFacts(vy);
    assert px - c2x == -vx && py - c2y == -vy;
    SquareFacts(ux + vx);
    SquareFacts(uy + vy);
    assert c1x - c2x == -(ux + vx) && c1y - c2y == -(uy + vy);
    TriangleSquared(ux, uy, vx, vy, c1r, c2r);
  }

  /** Two colliding circles of non-negative radius share a point: one on the segment between the centres. */
  lemma CircleCircleHasCommonPoint(c1x: real, c1y: real, c1r: real, c2x: real, c2y: real, c2r: real)
    requires c1r >= 0.0 && c2r >= 0.0
    requires CircleCircle(c1x, c1y, c1r, c2x, c2y, c2r)
    ensures exists px, py :: PointCircle(px, py, c1x, c1y, c1r) && PointCircle(px, py, c2x, c2y, c2r)
  {
    var s := c1r + c2r;
    DistSqSymmetric(c1x, c1y, c2x, c2y);
    if s == 0.0 {
      SquareFacts(0.0);
      assert c1x == c2x && c1y == c2y;
      PointCircleAtCentre(c1x, c1y, c1r);
      assert PointCircle(c1x, c1y, c1x, c1y, c1r) && PointCircle(c1x, c1y, c2x, c2y, c2r);
    } else {
      var k := c1r / s;
      Fraction(c1r, c2r, k);
      CommonPointAt(c1x, c1y, c1r, c2x, c2y, c2r, k);
    }
  }

  /** `a / (a + b)` is a fraction of the whole, and `1 -` it is the rest. */
  lemma Fraction(a: real, b: real, k: real)
    requires a >= 0.0 && b >= 0.0 && a + b != 0.0 && k == a / (a + b)
    ensures k * (a + b) == a && (1.0 - k) * (a + b) == b && 0.0 <= k <= 1.0
  {
  }

  /** The point a fraction `k` of the way between the centres lies in both circles. */
  lemma CommonPointAt(c1x: real, c1y: real, c1r: real, c2x: real, c2y: real, c2r: real, k: real)
    requires 0.0 <= k <= 1.0 && k * (c1r + c2r) == c1r && (1.0 - k) * (c1r + c2r) == c2r
    requires c1r >= 0.0 && c2r >= 0.0 && CircleCircle(c1x, c1y, c1r, c2x, c2y, c2r)
    ensures PointCircle(c1x + k * (c2x - c1x), c1y + k * (c2y - c1y), c1x, c1y, c1r)
    ensures PointCircle(c1x + k * (c2x - c1x), c1y + k * (c2y - c1y), c2x, c2y, c2r)
  {
    DistSqSymmetric(c1x, c1y, c2x, c2y);
    OnCentreLine(c1x, c1y, c2x, c2y, k, c1r + c2r, c1r);
    OnCentreLine(c2x, c2y, c1x, c1y, 1.0 - k, c1r + c2r, c2r);
    assert c2x + (1.0 - k) * (c1x - c2x) == c1x + k * (c2x - c1x);
    assert c2y + (1.0 - k) * (c1y - c2y) == c1y + k * (c2y - c1y);
  }

  /**
   * With the centres at most `s` apart, the point a fraction `k` of the way
   * from the first centre to the second is within `k * s` of the first.
   */
  lemma OnCentreLine(ox: real, oy: real, qx: real, qy: real, k: real, s: real, rad: real)
    requires k >= 0.0 && s >= 0.0 && k * s == rad
    requires DistSq(ox, oy, qx, qy) <= Sq(s)
    ensures PointCircle(ox + k * (qx - ox), oy + k * (qy - oy), ox, oy, rad)
  {
    ScaledWithin(k, qx - ox, qy - oy, s, rad);
    ProductMonotone(0.0, k, 0.0, s);
    assert (ox + k * (qx - ox)) - ox == k * (qx - ox) && (oy + k * (qy - oy)) - oy == k * (qy - oy);
  }

  /**
   * For radii that are not negative, `circleCircle` holds exactly when the
   * two discs share a point.
   */
  lemma CircleCircleSharePoint(c1x: real, c1y: real, c1r: real, c2x: real, c2y: real, c2r: real)
    requires c1r >= 0.0 && c2r >= 0.0
    ensures CircleCircle(c1x, c1y, c1r, c2x, c2y, c2r) <==>
      exists px, py :: PointCircle(px, py, c1x, c1y, c1r) && PointCircle(px, py, c2x, c2y, c2r)
  {
    if CircleCircle(c1x, c1y, c1r, c2x, c2y, c2r) {
      CircleCircleHasCommonPoint(c1x, c1y, c1r, c2x, c2y, c2r);
    }
    forall px, py | PointCircle(px, py, c1x, c1y, c1r) && PointCircle(px, py, c2x, c2y, c2r)
      ensures CircleCircle(c1x, c1y, c1r, c2x, c2y, c2r)
    {
      CircleCircleFromCommonPoint(c1x, c1y, c1r, c2x, c2y, c2r, px, py);
    }
  }

  /** Every edge point of a rectangle of non-negative size is inside it: the test is inclusive. */
  lemma PointRectEdgesInclusive(rx: real, ry: real, rw: real, rh: real, t: real)
    requires rw >= 0.0 && rh >= 0.0
    ensures rx <= t <= rx + rw ==> PointRect(t, ry, rx, ry, rw, rh) && PointRect(t, ry + rh, rx, ry, rw, rh)
    ensures ry <= t <= ry + rh ==> PointRect(rx, t, rx, ry, rw, rh) && PointRect(rx + rw, t, rx, ry, rw, rh)
  {
  }

  /** A point is in a rectangle exactly when the zero-size rectangle at the point collides with it. */
  lemma PointRectAsRectRect(px: real, py: real, rx: real, ry: real, rw: real, rh: real)
    ensures PointRect(px, py, rx, ry, rw, rh) <==> RectRect(px, py, 0.0, 0.0, rx, ry, rw, rh)
  {
  }

  /** Swapping the two rectangles does not change the result. */
  lemma RectRectSymmetric(r1x: real, r1y: real, r1w: real, r1h: real, r2x: real, r2y: real, r2w: real, r2h: real)
    ensures RectRect(r1x, r1y, r1w, r1h, r2x, r2y, r2w, r2h) == RectRect(r2x, r2y, r2w, r2h, r1x, r1y, r1w, r1h)
  {
  }

  /**
   * For sizes that are not negative, `rectRect` holds exactly when the two
   * rectangles share a point; touching edges share their common points.
   */
  lemma RectRectSharePoint(r1x: real, r1y: real, r1w: real, r1h: real, r2x: real, r2y: real, r2w: real, r2h: real)
    requires r1w >= 0.0 && r1h >= 0.0 && r2w >= 0.0 && r2h >= 0.0
    ensures RectRect(r1x, r1y, r1w, r1h, r2x, r2y, r2w, r2h) <==>
      exists px, py :: PointRect(px, py, r1x, r1y, r1w, r1h) && PointRect(px, py, r2x, r2y, r2w, r2h)
  {
    if RectRect(r1x, r1y, r1w, r1h, r2x, r2y, r2w, r2h) {
      var px := if r1x < r2x then r2x else r1x;
      var py := if r1y < r2y then r2y else r1y;
      assert PointRect(px, py, r1x, r1y, r1w, r1h) && PointRect(px, py, r2x, r2y, r2w, r2h);
    }
  }
}

/**
 * Polygon tests of the collision library. A polygon is its list of
 * vertices; it is implicitly closed, so edge `i` runs from vertex `i` to
 * vertex `Next(n, i)`, and the last edge joins the last vertex to the first.
 */
module Polygons {
  import opened Distance
  import opened Shapes
  import opened Segments

  /** A vertex object `{x, y}`. */
  datatype Vertex = Vertex(x: real, y: real)

  /** The index after `i` in a polygon of `n` vertices, wrapping round to 0. */
  function Next(n: nat, i: nat): (j: nat)
    requires i < n
    ensures j < n
    ensures j == 0 || j == i + 1
  {
    if i + 1 == n then 0 else i + 1
  }

  /** The horizontal line through `py` separates the two ends of the edge (half-open at the lower end). */
  predicate Straddles(vc: Vertex, vn: Vertex, py: real)
  {
    (vc.y >= py && vn.y < py) || (vc.y < py && vn.y >= py)
  }

  /** Where the line through the edge meets the horizontal line through `py`. */
  function CrossX(vc: Vertex, vn: Vertex, py: real): real
    requires vc.y != vn.y
  {
    (vn.x - vc.x) * (py - vc.y) / (vn.y - vc.y) + vc.x
  }

  /**
   * One step of the ray cast in `polyPoint`: the ray from (px, py) towards
   * increasing x crosses the edge. The division is never by zero: an edge
   * that straddles the line has ends at different heights.
   */
  predicate Crosses(vc: Vertex, vn: Vertex, px: real, py: real)
  {
    Straddles(vc, vn, py) && px < CrossX(vc, vn, py)
  }

  /** For each edge in order, whether the ray from (px, py) crosses it. */
  function Crossings(vs: seq<Vertex>, px: real, py: real): seq<bool>
  {
    seq(|vs|, i requires 0 <= i < |vs| => Crosses(vs[i], vs[Next(|vs|, i)], px, py))
  }

  /** How many entries of `s` are true. */
  function CountTrue(s: seq<bool>): nat
  {
    if |s| == 0 then 0 else CountTrue(s[..|s| - 1]) + (if s[|s| - 1] then 1 else 0)
  }

  lemma CountTrueStep(s: seq<bool>, k: nat)
    requires k < |s|
    ensures CountTrue(s[..k + 1]) == CountTrue(s[..k]) + (if s[k] then 1 else 0)
  {
    assert s[..k + 1][..k] == s[..k];
  }

  /** Adding one flips the parity. */
  lemma ParityStep(n: nat)
    ensures ((n + 1) % 2 == 1) == !(n % 2 == 1)
  {
  }

  /** The even-odd rule: the point is inside when the ray crosses an odd number of edges. */
  predicate Inside(vs: seq<Vertex>, px: real, py: real)
  {
    CountTrue(Crossings(vs, px, py)) % 2 == 1
  }

  /** `polyPoint`: flips `collision` at every edge the ray crosses. */
  method PolyPoint(vertices: seq<Vertex>, px: real, py: real) returns (collision: bool)
    ensures collision == Inside(vertices, px, py)
  {
    collision := false;
    ghost var crossings := Crossings(vertices, px, py);
    for current := 0 to |vertices|
      invariant collision == (CountTrue(crossings[..current]) % 2 == 1)
    {
      var next := current + 1;
      if next == |vertices| {
        next := 0;
      }
      var vc := vertices[current];
      var vn := vertices[next];
      CountTrueStep(crossings, current);
      ParityStep(CountTrue(crossings[..current]));
      assert crossings[current] == Crosses(vc, vn, px, py);
      if Straddles(vc, vn, py) && px < CrossX(vc, vn, py) {
        collision := !collision;
      }
    }
    assert crossings[..|vertices|] == crossings;
  }

  /** Edge `i` of `vs` meets the segment from (x1, y1) to (x2, y2), by `lineLine`. */
  predicate EdgeMeetsSegment(vs: seq<Vertex>, i: nat, x1: real, y1: real, x2: real, y2: real)
    requires i < |vs|
  {
    var vc, vn := vs[i], vs[Next(|vs|, i)];
    LineLine(x1, y1, x2, y2, vc.x, vc.y, vn.x, vn.y)
  }

  /** Some edge of the polygon meets the segment. */
  predicate SegmentMeetsPolygon(vs: seq<Vertex>, x1: real, y1: real, x2: real, y2: real)
  {
    exists i :: 0 <= i < |vs| && EdgeMeetsSegment(vs, i, x1, y1, x2, y2)
  }

  /** `polyLine`: returns at the first edge that `lineLine` reports. */
  method PolyLine(vertices: seq<Vertex>, x1: real, y1: real, x2: real, y2: real) returns (hit: bool)
    ensures hit == SegmentMeetsPolygon(vertices, x1, y1, x2, y2)
  {
    for current := 0 to |vertices|
      invariant forall j :: 0 <= j < current ==> !EdgeMeetsSegment(vertices, j, x1, y1, x2, y2)
    {
      var next := current + 1;
      if next == |vertices| {
        next := 0;
      }
      var x3 := vertices[current].x;
      var y3 := vertices[current].y;
      var x4 := vertices[next].x;
      var y4 := vertices[next].y;
      if LineLine(x1, y1, x2, y2, x3, y3, x4, y4) {
        assert EdgeMeetsSegment(vertices, current, x1, y1, x2, y2);
        return true;
      }
    }
    return false;
  }

  /** Edge `i` of `vs` collides with the circle, by `lineCircle`. */
  predicate EdgeMeetsCircle(vs: seq<Vertex>, i: nat, cx: real, cy: real, r: real)
    requires i < |vs|
  {
    var vc, vn := vs[i], vs[Next(|vs|, i)];
    LineCircle(vc.x, vc.y, vn.x, vn.y, cx, cy, r)
  }

  /** Some edge of the polygon collides with the circle. */
  predicate CircleMeetsPolygon(vs: seq<Vertex>, cx: real, cy: real, r: real)
  {
    exists i :: 0 <= i < |vs| && EdgeMeetsCircle(vs, i, cx, cy, r)
  }

  /** `polyCircle`: returns at the first edge that `lineCircle` reports; the centre is never tested. */
  method PolyCircle(vertices: seq<Vertex>, cx: real, cy: real, r: real) returns (hit: bool)
    ensures hit == CircleMeetsPolygon(vertices, cx, cy, r)
  {
    for current := 0 to |vertices|
      invariant forall j :: 0 <= j < current ==> !EdgeMeetsCircle(vertices, j, cx, cy, r)
    {
      var next := current + 1;
      if next == |vertices| {
        next := 0;
      }
      var vc := vertices[current];
      var vn := vertices[next];
      if LineCircle(vc.x, vc.y, vn.x, vn.y, cx, cy, r) {
        assert EdgeMeetsCircle(vertices, current, cx, cy, r);
        return true;
      }
    }
    return false;
  }

  /** Edge `i` of `p1` meets some edge of `p2`. */
  predicate EdgeMeetsPolygon(p1: seq<Vertex>, i: nat, p2: seq<Vertex>)
    requires i < |p1|
  {
    var vc, vn := p1[i], p1[Next(|p1|, i)];
    SegmentMeetsPolygon(p2, vc.x, vc.y, vn.x, vn.y)
  }

  /**
   * What `polyPoly` decides: an edge of `p1` meets an edge of `p2`, or the
   * first vertex of `p2` is inside `p1` (tested only when `p1` has a vertex).
   */
  predicate PolygonsMeet(p1: seq<Vertex>, p2: seq<Vertex>)
    requires |p1| > 0 ==> |p2| > 0
  {
    (exists i :: 0 <= i < |p1| && EdgeMeetsPolygon(p1, i, p2)) ||
    (|p1| > 0 && Inside(p1, p2[0].x, p2[0].y))
  }

  /**
   * `polyPoly`: for each edge of `p1`, tests it against `p2` with `polyLine`,
   * then tests the first vertex of `p2` with `polyPoint`. Reading `p2[0]`
   * fails when `p2` is empty, which the precondition excludes whenever the
   * loop body runs.
   */
  method PolyPoly(p1: seq<Vertex>, p2: seq<Vertex>) returns (hit: bool)
    requires |p1| > 0 ==> |p2| > 0
    ensures hit == PolygonsMeet(p1, p2)
  {
    for current := 0 to |p1|
      invariant forall j :: 0 <= j < current ==> !EdgeMeetsPolygon(p1, j, p2)
      invariant current > 0 ==> !Inside(p1, p2[0].x, p2[0].y)
    {
      var next := current + 1;
      if next == |p1| {
        next := 0;
      }
      var vc := p1[current];
      var vn := p1[next];
      var edgeHit := PolyLine(p2, vc.x, vc.y, vn.x, vn.y);
      if edgeHit {
        assert EdgeMeetsPolygon(p1, current, p2);
        return true;
      }
      var contained := PolyPoint(p1, p2[0].x, p2[0].y);
      if contained {
        return true;
      }
    }
    return false;
  }

  // ---------------------------------------------------------------------
  // Counting crossings

  /** Counting true entries splits over concatenation. */
  lemma {:induction false} CountTrueAppend(a: seq<bool>, b: seq<bool>)
    ensures CountTrue(a + b) == CountTrue(a) + CountTrue(b)
    decreases |b|
  {
    if |b| == 0 {
      assert a + b == a;
    } else {
      var front := b[..|b| - 1];
      assert (a + b)[..|a + b| - 1] == a + front;
      CountTrueAppend(a, front);
    }
  }

  /** A sequence with no true entry counts zero. */
  lemma {:induction false} CountTrueNone(s: seq<bool>)
    requires forall i :: 0 <= i < |s| ==> !s[i]
    ensures CountTrue(s) == 0
  {
    if |s| > 0 {
      CountTrueNone(s[..|s| - 1]);
    }
  }

  /** The entries of `s` in reverse order. */
  function Reverse<T>(s: seq<T>): seq<T>
  {
    seq(|s|, i requires 0 <= i < |s| => s[|s| - 1 - i])
  }

  /** Reversing does not change how many entries are true. */
  lemma {:induction false} CountTrueReverse(s: seq<bool>)
    ensures CountTrue(Reverse(s)) == CountTrue(s)
  {
    if |s| > 0 {
      var front := s[..|s| - 1];
      assert Reverse(s) == [s[|s| - 1]] + Reverse(front);
      CountTrueReverse(front);
      CountTrueAppend([s[|s| - 1]], Reverse(front));
      assert [s[|s| - 1]][..0] == [];
    }
  }

  // ---------------------------------------------------------------------
  // The even-odd rule does not depend on where the vertex list starts or on
  // its winding order

  /** Whether the ray crosses an edge does not depend on the edge's direction. */
  lemma CrossesSymmetric(vc: Vertex, vn: Vertex, px: real, py: real)
    ensures Crosses(vc, vn, px, py) == Crosses(vn, vc, px, py)
  {
    assert Straddles(vc, vn, py) == Straddles(vn, vc, py);
    if vc.y != vn.y {
      CrossXSwap(vc.x, vn.x, vc.y, vn.y, py);
      assert CrossX(vc, vn, py) == CrossX(vn, vc, py);
    }
  }

  /** Both ends give the same point where the edge's line meets the horizontal line. */
  lemma CrossXSwap(a: real, b: real, ya: real, yb: real, py: real)
    requires ya != yb
    ensures (b - a) * (py - ya) / (yb - ya) + a == (a - b) * (py - yb) / (ya - yb) + b
  {
    var d := yb - ya;
    var q1 := (b - a) * (py - ya) / d;
    var q2 := (a - b) * (py - yb) / (ya - yb);
    assert q2 == (b - a) * (py - yb) / d;
    QuotientTimes((b - a) * (py - ya), d);
    QuotientTimes((b - a) * (py - yb), d);
    assert (q1 - q2) * d == (b - a) * d;
    ZeroFactor(q1 - q2 - (b - a), d);
  }

  /** Position `i` of the list that starts at vertex `k` holds this vertex of the original list. */
  function Shift(n: nat, k: nat, i: nat): (j: nat)
    requires k <= n && i < n
    ensures j < n
  {
    if i + k < n then i + k else i + k - n
  }

  /** The same polygon, listed from vertex `k` on. */
  function Rotate(vs: seq<Vertex>, k: nat): (w: seq<Vertex>)
    requires k <= |vs|
    ensures |w| == |vs|
    ensures forall i :: 0 <= i < |vs| ==> w[i] == vs[Shift(|vs|, k, i)]
  {
    vs[k..] + vs[..k]
  }

  /** Edge `i` of the rotated list is edge `Shift(n, k, i)` of the original. */
  lemma RotatedEdge(vs: seq<Vertex>, k: nat, i: nat)
    requires k <= |vs| && i < |vs|
    ensures Rotate(vs, k)[i] == vs[Shift(|vs|, k, i)]
    ensures Rotate(vs, k)[Next(|vs|, i)] == vs[Next(|vs|, Shift(|vs|, k, i))]
  {
  }

  /** Every edge of the original list is some edge of the rotated one. */
  lemma ShiftOnto(n: nat, k: nat, j: nat) returns (i: nat)
    requires k <= n && j < n
    ensures i < n && Shift(n, k, i) == j
  {
    i := if j >= k then j - k else j + n - k;
  }

  /** The crossings of the rotated list are those of the original, rotated. */
  lemma CrossingsRotated(vs: seq<Vertex>, k: nat, px: real, py: real)
    requires k <= |vs|
    ensures Crossings(Rotate(vs, k), px, py) == Crossings(vs, px, py)[k..] + Crossings(vs, px, py)[..k]
  {
    var c := Crossings(vs, px, py);
    forall i | 0 <= i < |vs|
      ensures Crossings(Rotate(vs, k), px, py)[i] == (c[k..] + c[..k])[i]
    {
      RotatedEdge(vs, k, i);
    }
  }

  /** `polyPoint` gives the same answer whichever vertex the list starts from. */
  lemma InsideRotated(vs: seq<Vertex>, k: nat, px: real, py: real)
    requires k <= |vs|
    ensures Inside(Rotate(vs, k), px, py) == Inside(vs, px, py)
  {
    var c := Crossings(vs, px, py);
    calc {
      CountTrue(Crossings(Rotate(vs, k), px, py));
    == { CrossingsRotated(vs, k, px, py); }
      CountTrue(c[k..] + c[..k]);
    == { CountTrueAppend(c[k..], c[..k]); }
      CountTrue(c[k..]) + CountTrue(c[..k]);
    == { CountTrueAppend(c[..k], c[k..]); }
      CountTrue(c[..k] + c[k..]);
    == { assert c[..k] + c[k..] == c; }
      CountTrue(c);
    }
  }

  /**
   * Edge `i` of the reversed list is edge `m` of the original walked the
   * other way; the last edge of both lists joins the first and last vertex.
   */
  lemma ReversedEdge(vs: seq<Vertex>, i: nat) returns (m: nat)
    requires i < |vs|
    ensures m == (if i < |vs| - 1 then |vs| - 2 - i else |vs| - 1)
    ensures Reverse(vs)[i] == vs[Next(|vs|, m)]
    ensures Reverse(vs)[Next(|vs|, i)] == vs[m]
  {
    m := if i < |vs| - 1 then |vs| - 2 - i else |vs| - 1;
  }

  /** The crossings of the reversed list are the original ones, all but the last reversed. */
  lemma CrossingsReversed(vs: seq<Vertex>, px: real, py: real)
    requires |vs| > 0
    ensures Crossings(Reverse(vs), px, py) ==
      Reverse(Crossings(vs, px, py)[..|vs| - 1]) + [Crossings(vs, px, py)[|vs| - 1]]
  {
    var c := Crossings(vs, px, py);
    forall i | 0 <= i < |vs|
      ensures Crossings(Reverse(vs), px, py)[i] == (Reverse(c[..|vs| - 1]) + [c[|vs| - 1]])[i]
    {
      var m := ReversedEdge(vs, i);
      CrossesSymmetric(vs[m], vs[Next(|vs|, m)], px, py);
    }
  }

  /** `polyPoint` gives the same answer for either winding order of the vertices. */
  lemma InsideReversed(vs: seq<Vertex>, px: real, py: real)
    ensures Inside(Reverse(vs), px, py) == Inside(vs, px, py)
  {
    if |vs| > 0 {
      var c := Crossings(vs, px, py);
      var front := c[..|vs| - 1];
      CrossingsReversed(vs, px, py);
      CountTrueReverse(front);
      CountTrueAppend(Reverse(front), [c[|vs| - 1]]);
      assert [c[|vs| - 1]][..0] == [];
    }
  }

  // ---------------------------------------------------------------------
  // Points the ray cast always reports outside

  /** A point level with no edge (every vertex has `y < py`, or every vertex has `y >= py`) is outside. */
  lemma OutsideWhenLevelClear(vs: seq<Vertex>, px: real, py: real)
    requires (forall i :: 0 <= i < |vs| ==> vs[i].y < py) || (forall i :: 0 <= i < |vs| ==> vs[i].y >= py)
    ensures !Inside(vs, px, py)
  {
    CountTrueNone(Crossings(vs, px, py));
  }

  /** A point at or to the right of every vertex is outside: the ray to its right meets no edge. */
  lemma OutsideWhenRightOfAll(vs: seq<Vertex>, px: real, py: real)
    requires forall i :: 0 <= i < |vs| ==> vs[i].x <= px
    ensures !Inside(vs, px, py)
  {
    var c := Crossings(vs, px, py);
    forall i | 0 <= i < |vs|
      ensures !c[i]
    {
      var vc, vn := vs[i], vs[Next(|vs|, i)];
      if Straddles(vc, vn, py) {
        CrossXBetween(vc, vn, py, px);
      }
    }
    CountTrueNone(c);
  }

  /** Where a straddling edge meets the horizontal line lies between the edge's ends. */
  lemma CrossXBetween(vc: Vertex, vn: Vertex, py: real, hi: real)
    requires Straddles(vc, vn, py) && vc.x <= hi && vn.x <= hi
    ensures CrossX(vc, vn, py) <= hi
  {
    var d := vn.y - vc.y;
    var u := (py - vc.y) / d;
    assert InUnit(u) by {
      QuotientTimes(py - vc.y, d);
      if d > 0.0 {
        assert vc.y < py <= vn.y;
      } else {
        assert vn.y < py <= vc.y;
      }
    }
    assert CrossX(vc, vn, py) == Lerp(vc.x, vn.x, u) by {
      ProductOverQuotient(vn.x - vc.x, py - vc.y, d);
    }
    var lo := if vc.x <= vn.x then vc.x else vn.x;
    ConvexBetween(vc.x, vn.x, u, lo, hi);
  }

  /** Dividing a product divides one factor. */
  lemma ProductOverQuotient(a: real, b: real, d: real)
    requires d != 0.0
    ensures a * b / d == (b / d) * a
  {
    var q := b / d;
    QuotientTimes(b, d);
    QuotientTimes(a * b, d);
    assert (a * b / d - q * a) * d == 0.0;
    ZeroFactor(a * b / d - q * a, d);
  }

  // ---------------------------------------------------------------------
  // The edge tests do not depend on where the vertex list starts, on its
  // winding order, or on the direction of the segment

  /** Every edge of the original list is some edge of the reversed one. */
  lemma ReversedOnto(vs: seq<Vertex>, j: nat) returns (i: nat)
    requires j < |vs|
    ensures i < |vs| && j == (if i < |vs| - 1 then |vs| - 2 - i else |vs| - 1)
  {
    i := if j < |vs| - 1 then |vs| - 2 - j else |vs| - 1;
  }

  /** `polyLine` gives the same answer whichever vertex the list starts from. */
  lemma SegmentMeetsPolygonRotated(vs: seq<Vertex>, k: nat, x1: real, y1: real, x2: real, y2: real)
    requires k <= |vs|
    ensures SegmentMeetsPolygon(Rotate(vs, k), x1, y1, x2, y2) == SegmentMeetsPolygon(vs, x1, y1, x2, y2)
  {
    var w := Rotate(vs, k);
    if SegmentMeetsPolygon(w, x1, y1, x2, y2) {
      var i :| 0 <= i < |w| && EdgeMeetsSegment(w, i, x1, y1, x2, y2);
      RotatedEdge(vs, k, i);
      assert EdgeMeetsSegment(vs, Shift(|vs|, k, i), x1, y1, x2, y2);
    }
    if SegmentMeetsPolygon(vs, x1, y1, x2, y2) {
      var j :| 0 <= j < |vs| && EdgeMeetsSegment(vs, j, x1, y1, x2, y2);
      var i := ShiftOnto(|vs|, k, j);
      RotatedEdge(vs, k, i);
      assert EdgeMeetsSegment(w, i, x1, y1, x2, y2);
    }
  }

  /** `polyLine` gives the same answer for either winding order of the vertices. */
  lemma SegmentMeetsPolygonReversed(vs: seq<Vertex>, x1: real, y1: real, x2: real, y2: real)
    ensures SegmentMeetsPolygon(Reverse(vs), x1, y1, x2, y2) == SegmentMeetsPolygon(vs, x1, y1, x2, y2)
  {
    var w := Reverse(vs);
    if SegmentMeetsPolygon(w, x1, y1, x2, y2) {
      var i :| 0 <= i < |w| && EdgeMeetsSegment(w, i, x1, y1, x2, y2);
      var m := ReversedEdge(vs, i);
      var a, b := vs[m], vs[Next(|vs|, m)];
      LineLineSecondReversed(x1, y1, x2, y2, a.x, a.y, b.x, b.y);
      assert EdgeMeetsSegment(vs, m, x1, y1, x2, y2);
    }
    if SegmentMeetsPolygon(vs, x1, y1, x2, y2) {
      var j :| 0 <= j < |vs| && EdgeMeetsSegment(vs, j, x1, y1, x2, y2);
      var i := ReversedOnto(vs, j);
      var m := ReversedEdge(vs, i);
      var a, b := vs[m], vs[Next(|vs|, m)];
      LineLineSecondReversed(x1, y1, x2, y2, a.x, a.y, b.x, b.y);
      assert EdgeMeetsSegment(w, i, x1, y1, x2, y2);
    }
  }

  /** `polyLine` gives the same answer with the two ends of the segment swapped. */
  lemma SegmentMeetsPolygonSegmentReversed(vs: seq<Vertex>, x1: real, y1: real, x2: real, y2: real)
    ensures SegmentMeetsPolygon(vs, x2, y2, x1, y1) == SegmentMeetsPolygon(vs, x1, y1, x2, y2)
  {
    forall i | 0 <= i < |vs|
      ensures EdgeMeetsSegment(vs, i, x2, y2, x1, y1) == EdgeMeetsSegment(vs, i, x1, y1, x2, y2)
    {
      var a, b := vs[i], vs[Next(|vs|, i)];
      LineLineReversed(x1, y1, x2, y2, a.x, a.y, b.x, b.y);
    }
  }

  /** `polyCircle` gives the same answer whichever vertex the list starts from. */
  lemma CircleMeetsPolygonRotated(vs: seq<Vertex>, k: nat, cx: real, cy: real, r: real)
    requires k <= |vs|
    ensures CircleMeetsPolygon(Rotate(vs, k), cx, cy, r) == CircleMeetsPolygon(vs, cx, cy, r)
  {
    var w := Rotate(vs, k);
    if CircleMeetsPolygon(w, cx, cy, r) {
      var i :| 0 <= i < |w| && EdgeMeetsCircle(w, i, cx, cy, r);
      RotatedEdge(vs, k, i);
      assert EdgeMeetsCircle(vs, Shift(|vs|, k, i), cx, cy, r);
    }
    if CircleMeetsPolygon(vs, cx, cy, r) {
      var j :| 0 <= j < |vs| && EdgeMeetsCircle(vs, j, cx, cy, r);
      var i := ShiftOnto(|vs|, k, j);
      RotatedEdge(vs, k, i);
      assert EdgeMeetsCircle(w, i, cx, cy, r);
    }
  }

  /** `polyCircle` gives the same answer for either winding order of the vertices. */
  lemma CircleMeetsPolygonReversed(vs: seq<Vertex>, cx: real, cy: real, r: real)
    ensures CircleMeetsPolygon(Reverse(vs), cx, cy, r) == CircleMeetsPolygon(vs, cx, cy, r)
  {
    var w := Reverse(vs);
    if CircleMeetsPolygon(w, cx, cy, r) {
      var i :| 0 <= i < |w| && EdgeMeetsCircle(w, i, cx, cy, r);
      var m := ReversedEdge(vs, i);
      var a, b := vs[m], vs[Next(|vs|, m)];
      LineCircleReversed(a.x, a.y, b.x, b.y, cx, cy, r);
      assert EdgeMeetsCircle(vs, m, cx, cy, r);
    }
    if CircleMeetsPolygon(vs, cx, cy, r) {
      var j :| 0 <= j < |vs| && EdgeMeetsCircle(vs, j, cx, cy, r);
      var i := ReversedOnto(vs, j);
      var m := ReversedEdge(vs, i);
      var a, b := vs[m], vs[Next(|vs|, m)];
      LineCircleReversed(a.x, a.y, b.x, b.y, cx, cy, r);
      assert EdgeMeetsCircle(w, i, cx, cy, r);
    }
  }

  // ---------------------------------------------------------------------
  // What `polyCircle` reports

  /** The point at parameter `t` along edge `i` is in the circle. */
  predicate EdgePointInCircle(vs: seq<Vertex>, i: nat, t: real, cx: real, cy: real, r: real)
    requires i < |vs|
  {
    var vc, vn := vs[i], vs[Next(|vs|, i)];
    PointCircle(Lerp(vc.x, vn.x, t), Lerp(vc.y, vn.y, t), cx, cy, r)
  }

  /** A vertex in the circle is reported. */
  lemma CircleMeetsPolygonAtVertex(vs: seq<Vertex>, i: nat, cx: real, cy: real, r: real)
    requires i < |vs| && PointCircle(vs[i].x, vs[i].y, cx, cy, r)
    ensures CircleMeetsPolygon(vs, cx, cy, r)
  {
    var vc, vn := vs[i], vs[Next(|vs|, i)];
    LineCircleEndpoints(vc.x, vc.y, vn.x, vn.y, cx, cy, r);
    assert EdgeMeetsCircle(vs, i, cx, cy, r);
  }

  /** Any point of the outline in the circle is reported. */
  lemma CircleMeetsPolygonComplete(vs: seq<Vertex>, i: nat, t: real, cx: real, cy: real, r: real)
    requires i < |vs| && InUnit(t) && EdgePointInCircle(vs, i, t, cx, cy, r)
    ensures CircleMeetsPolygon(vs, cx, cy, r)
  {
    var vc, vn := vs[i], vs[Next(|vs|, i)];
    LineCircleComplete(vc.x, vc.y, vn.x, vn.y, cx, cy, r, t);
    assert EdgeMeetsCircle(vs, i, cx, cy, r);
  }

  /**
   * A reported collision has a point in the circle on the line of some edge,
   * within the tolerance `linePoint` allows of that edge.
   */
  lemma CircleMeetsPolygonSound(vs: seq<Vertex>, cx: real, cy: real, r: real)
    requires CircleMeetsPolygon(vs, cx, cy, r)
    ensures exists i, t :: (0 <= i < |vs| && EdgePointInCircle(vs, i, t, cx, cy, r) &&
      LinePointAt(t, DistSq(vs[i].x, vs[i].y, vs[Next(|vs|, i)].x, vs[Next(|vs|, i)].y)))
  {
    var i :| 0 <= i < |vs| && EdgeMeetsCircle(vs, i, cx, cy, r);
    var vc, vn := vs[i], vs[Next(|vs|, i)];
    LineCircleSound(vc.x, vc.y, vn.x, vn.y, cx, cy, r);
    var t :| LinePointAt(t, DistSq(vc.x, vc.y, vn.x, vn.y)) &&
      PointCircle(Lerp(vc.x, vn.x, t), Lerp(vc.y, vn.y, t), cx, cy, r);
    assert EdgePointInCircle(vs, i, t, cx, cy, r);
  }

  // ---------------------------------------------------------------------
  // What `polyPoly` reports

  /** The edge part of `polyPoly` is symmetric: an edge of `p1` meets an edge of `p2` iff the converse holds. */
  lemma EdgesMeetSymmetric(p1: seq<Vertex>, p2: seq<Vertex>)
    ensures (exists i :: 0 <= i < |p1| && EdgeMeetsPolygon(p1, i, p2)) ==
      (exists j :: 0 <= j < |p2| && EdgeMeetsPolygon(p2, j, p1))
  {
    if exists i :: 0 <= i < |p1| && EdgeMeetsPolygon(p1, i, p2) {
      var i :| 0 <= i < |p1| && EdgeMeetsPolygon(p1, i, p2);
      var j := EdgeMeetsEdge(p1, i, p2);
      assert EdgeMeetsPolygon(p2, j, p1);
    }
    if exists j :: 0 <= j < |p2| && EdgeMeetsPolygon(p2, j, p1) {
      var j :| 0 <= j < |p2| && EdgeMeetsPolygon(p2, j, p1);
      var i := EdgeMeetsEdge(p2, j, p1);
      assert EdgeMeetsPolygon(p1, i, p2);
    }
  }

  /**
   * When edge `i` of `p1` meets `p2`, it meets a particular edge `j` of
   * `p2`, and then edge `j` of `p2` meets edge `i` of `p1` too.
   */
  lemma EdgeMeetsEdge(p1: seq<Vertex>, i: nat, p2: seq<Vertex>) returns (j: nat)
    requires i < |p1| && EdgeMeetsPolygon(p1, i, p2)
    ensures j < |p2|
    ensures EdgeMeetsSegment(p1, i, p2[j].x, p2[j].y, p2[Next(|p2|, j)].x, p2[Next(|p2|, j)].y)
  {
    var a, b := p1[i], p1[Next(|p1|, i)];
    j :| 0 <= j < |p2| && EdgeMeetsSegment(p2, j, a.x, a.y, b.x, b.y);
    var c, d := p2[j], p2[Next(|p2|, j)];
    LineLineSymmetric(a.x, a.y, b.x, b.y, c.x, c.y, d.x, d.y);
  }

  // ---------------------------------------------------------------------
  // A rectangle as a polygon

  /** The corners of the rectangle of `rectRect`, in order round its outline. */
  function RectPolygon(rx: real, ry: real, rw: real, rh: real): seq<Vertex>
  {
    [Vertex(rx, ry), Vertex(rx + rw, ry), Vertex(rx + rw, ry + rh), Vertex(rx, ry + rh)]
  }

  /** `polyLine` against a rectangle's corners tests the same four edges as `lineRect`. */
  lemma PolyLineOnRectangle(x1: real, y1: real, x2: real, y2: real, rx: real, ry: real, rw: real, rh: real)
    ensures SegmentMeetsPolygon(RectPolygon(rx, ry, rw, rh), x1, y1, x2, y2) == LineRect(x1, y1, x2, y2, rx, ry, rw, rh)
  {
    var vs := RectPolygon(rx, ry, rw, rh);
    LineLineSecondReversed(x1, y1, x2, y2, rx, ry + rh, rx + rw, ry + rh);
    LineLineSecondReversed(x1, y1, x2, y2, rx, ry, rx, ry + rh);
    assert EdgeMeetsSegment(vs, 0, x1, y1, x2, y2) == LineLine(x1, y1, x2, y2, rx, ry, rx + rw, ry);
    assert EdgeMeetsSegment(vs, 1, x1, y1, x2, y2) == LineLine(x1, y1, x2, y2, rx + rw, ry, rx + rw, ry + rh);
    assert EdgeMeetsSegment(vs, 2, x1, y1, x2, y2) == LineLine(x1, y1, x2, y2, rx, ry + rh, rx + rw, ry + rh);
    assert EdgeMeetsSegment(vs, 3, x1, y1, x2, y2) == LineLine(x1, y1, x2, y2, rx, ry, rx, ry + rh);
  }

  /** The count of four flags. */
  lemma CountTrueFour(s: seq<bool>)
    requires |s| == 4
    ensures CountTrue(s) ==
      (if s[0] then 1 else 0) + (if s[1] then 1 else 0) + (if s[2] then 1 else 0) + (if s[3] then 1 else 0)
  {
    assert s[..4] == s;
    CountTrueStep(s, 0);
    CountTrueStep(s, 1);
    CountTrueStep(s, 2);
    CountTrueStep(s, 3);
    assert s[..0] == [];
  }

  /**
   * The even-odd rule on a rectangle of non-negative size decides a
   * half-open box. With y growing downward, as the corner `(rx, ry)` at the
   * top left implies, the left and bottom edges (`px == rx`, `py == ry + rh`)
   * count as inside and the right and top edges (`px == rx + rw`,
   * `py == ry`) as outside. `pointRect` includes all four.
   */
  lemma InsideRectangle(rx: real, ry: real, rw: real, rh: real, px: real, py: real)
    requires rw >= 0.0 && rh >= 0.0
    ensures Inside(RectPolygon(rx, ry, rw, rh), px, py) <==> rx <= px < rx + rw && ry < py <= ry + rh
  {
    var vs := RectPolygon(rx, ry, rw, rh);
    var c := Crossings(vs, px, py);
    var level := ry < py <= ry + rh;
    assert !c[0] && !c[2];
    assert c[1] == (level && px < rx + rw) by {
      if rh != 0.0 {
        assert (vs[2].x - vs[1].x) * (py - vs[1].y) == 0.0;
        assert CrossX(vs[1], vs[2], py) == rx + rw;
      }
    }
    assert c[3] == (level && px < rx) by {
      if rh != 0.0 {
        assert (vs[0].x - vs[3].x) * (py - vs[3].y) == 0.0;
        assert CrossX(vs[3], vs[0], py) == rx;
      }
    }
    CountTrueFour(c);
  }

  /** A point at least `gap` beyond the circle's radius along one axis is not in the circle. */
  lemma FarOnAxis(px: real, py: real, cx: real, cy: real, r: real, gap: real)
    requires 0.0 <= r < gap
    requires gap == px - cx || gap == cx - px || gap == py - cy || gap == cy - py
    ensures !PointCircle(px, py, cx, cy, r)
  {
    SquareMonotone(r, gap);
    SquareFacts(px - cx);
    SquareFacts(py - cy);
    SquareFacts(cx - px);
    SquareFacts(cy - py);
  }

  /**
   * `polyCircle` tests the outline only (its centre test is commented out): a
   * circle wholly inside a rectangle is not reported, although `polyPoint`
   * places its centre inside.
   */
  lemma CircleWithinRectangleMissed(rx: real, ry: real, rw: real, rh: real, cx: real, cy: real, r: real)
    requires r >= 0.0
    requires rx + r < cx < rx + rw - r && ry + r < cy < ry + rh - r
    ensures Inside(RectPolygon(rx, ry, rw, rh), cx, cy)
    ensures !CircleMeetsPolygon(RectPolygon(rx, ry, rw, rh), cx, cy, r)
  {
    var vs := RectPolygon(rx, ry, rw, rh);
    InsideRectangle(rx, ry, rw, rh, cx, cy);
    forall i: nat, t: real | i < 4
      ensures !EdgePointInCircle(vs, i, t, cx, cy, r)
    {
      var vc, vn := vs[i], vs[Next(4, i)];
      var px, py := Lerp(vc.x, vn.x, t), Lerp(vc.y, vn.y, t);
      if i == 0 {
        FarOnAxis(px, py, cx, cy, r, cy - ry);
      } else if i == 1 {
        FarOnAxis(px, py, cx, cy, r, rx + rw - cx);
      } else if i == 2 {
        FarOnAxis(px, py, cx, cy, r, ry + rh - cy);
      } else {
        FarOnAxis(px, py, cx, cy, r, cx - rx);
      }
    }
    if CircleMeetsPolygon(vs, cx, cy, r) {
      CircleMeetsPolygonSound(vs, cx, cy, r);
      assert false;
    }
  }

  /**
   * `polyPoly` is not symmetric: with an inner rectangle strictly inside an
   * outer one, `polyPoly(outer, inner)` reports a collision (the first corner
   * of the inner one is inside the outer one) but `polyPoly(inner, outer)`
   * does not (no edges cross and the first corner of the outer one is
   * outside the inner one).
   */
  lemma NestedRectanglesAsymmetric(ox: real, oy: real, ow: real, oh: real, ix: real, iy: real, iw: real, ih: real)
    requires iw >= 0.0 && ih >= 0.0
    requires ox < ix && ix + iw < ox + ow && oy < iy && iy + ih < oy + oh
    ensures PolygonsMeet(RectPolygon(ox, oy, ow, oh), RectPolygon(ix, iy, iw, ih))
    ensures !PolygonsMeet(RectPolygon(ix, iy, iw, ih), RectPolygon(ox, oy, ow, oh))
  {
    var outer, inner := RectPolygon(ox, oy, ow, oh), RectPolygon(ix, iy, iw, ih);
    InsideRectangle(ox, oy, ow, oh, ix, iy);
    InsideRectangle(ix, iy, iw, ih, ox, oy);
    forall i | 0 <= i < 4
      ensures !EdgeMeetsPolygon(inner, i, outer)
    {
      var vc, vn := inner[i], inner[Next(4, i)];
      PolyLineOnRectangle(vc.x, vc.y, vn.x, vn.y, ox, oy, ow, oh);
      LineRectMissesInnerSegment(vc.x, vc.y, vn.x, vn.y, ox, oy, ow, oh);
    }
  }
}

/**
 * Segment tests of the collision library. A segment runs from (x1, y1) to
 * (x2, y2); the point at parameter t is `Lerp(x1, x2, t), Lerp(y1, y2, t)`,
 * so t = 0 is the first end and t = 1 the second.
 */
module Segments {
  import opened Distance
  import opened Shapes

  /** The coordinate at parameter `t` between `a` (t = 0) and `b` (t = 1). */
  function Lerp(a: real, b: real, t: real): real
  {
    a + t * (b - a)
  }

  predicate InUnit(u: real)
  {
    0.0 <= u <= 1.0
  }

  /** The denominator `lineLine` divides by: the cross product of the two directions. */
  function Den(x1: real, y1: real, x2: real, y2: real, x3: real, y3: real, x4: real, y4: real): real
  {
    (y4 - y3) * (x2 - x1) - (x4 - x3) * (y2 - y1)
  }

  /** Numerator of `uA`, the parameter on the first segment. */
  function NumA(x1: real, y1: real, x2: real, y2: real, x3: real, y3: real, x4: real, y4: real): real
  {
    (x4 - x3) * (y1 - y3) - (y4 - y3) * (x1 - x3)
  }

  /** Numerator of `uB`, the parameter on the second segment. */
  function NumB(x1: real, y1: real, x2: real, y2: real, x3: real, y3: real, x4: real, y4: real): real
  {
    (x2 - x1) * (y1 - y3) - (y2 - y1) * (x1 - x3)
  }

  /**
   * `lineLine`: both parameters of the crossing point lie in [0, 1]. When the
   * denominator is zero (parallel or collinear segments, or a segment of zero
   * length) each division gives NaN or an infinity; NaN fails every
   * comparison and an infinity fails one of its two bounds, so the
   * conjunction is false.
   */
  predicate LineLine(x1: real, y1: real, x2: real, y2: real, x3: real, y3: real, x4: real, y4: real)
  {
    var den := Den(x1, y1, x2, y2, x3, y3, x4, y4);
    den != 0.0 &&
    InUnit(NumA(x1, y1, x2, y2, x3, y3, x4, y4) / den) &&
    InUnit(NumB(x1, y1, x2, y2, x3, y3, x4, y4) / den)
  }

  /** The first segment's point at `t` is the second segment's point at `s`. */
  predicate MeetAt(x1: real, y1: real, x2: real, y2: real, x3: real, y3: real, x4: real, y4: real, t: real, s: real)
  {
    Lerp(x1, x2, t) == Lerp(x3, x4, s) && Lerp(y1, y2, t) == Lerp(y3, y4, s)
  }

  /** Where the two lines meet, the parameters solve the system `lineLine` solves (Cramer's rule). */
  lemma CramerFromMeet(x1: real, y1: real, x2: real, y2: real, x3: real, y3: real, x4: real, y4: real, t: real, s: real)
    requires MeetAt(x1, y1, x2, y2, x3, y3, x4, y4, t, s)
    ensures t * Den(x1, y1, x2, y2, x3, y3, x4, y4) == NumA(x1, y1, x2, y2, x3, y3, x4, y4)
    ensures s * Den(x1, y1, x2, y2, x3, y3, x4, y4) == NumB(x1, y1, x2, y2, x3, y3, x4, y4)
  {
  }

  /** Conversely, solutions of that system are where the lines meet. */
  lemma MeetFromCramer(x1: real, y1: real, x2: real, y2: real, x3: real, y3: real, x4: real, y4: real, t: real, s: real)
    requires Den(x1, y1, x2, y2, x3, y3, x4, y4) != 0.0
    requires t * Den(x1, y1, x2, y2, x3, y3, x4, y4) == NumA(x1, y1, x2, y2, x3, y3, x4, y4)
    requires s * Den(x1, y1, x2, y2, x3, y3, x4, y4) == NumB(x1, y1, x2, y2, x3, y3, x4, y4)
    ensures MeetAt(x1, y1, x2, y2, x3, y3, x4, y4, t, s)
  {
  }

  /**
   * What `lineLine` decides: the lines are not parallel and the two segments
   * share a point, with both parameters in [0, 1].
   */
  lemma LineLineMeaning(x1: real, y1: real, x2: real, y2: real, x3: real, y3: real, x4: real, y4: real)
    ensures LineLine(x1, y1, x2, y2, x3, y3, x4, y4) <==>
      Den(x1, y1, x2, y2, x3, y3, x4, y4) != 0.0 &&
      exists t, s :: InUnit(t) && InUnit(s) && MeetAt(x1, y1, x2, y2, x3, y3, x4, y4, t, s)
  {
    var den := Den(x1, y1, x2, y2, x3, y3, x4, y4);
    if den != 0.0 {
      var t := NumA(x1, y1, x2, y2, x3, y3, x4, y4) / den;
      var s := NumB(x1, y1, x2, y2, x3, y3, x4, y4) / den;
      MeetFromCramer(x1, y1, x2, y2, x3, y3, x4, y4, t, s);
      forall t', s' | MeetAt(x1, y1, x2, y2, x3, y3, x4, y4, t', s')
        ensures t' == t && s' == s
      {
        CramerFromMeet(x1, y1, x2, y2, x3, y3, x4, y4, t', s');
      }
    }
  }

  /** Swapping the two segments does not change the result. */
  lemma LineLineSymmetric(x1: real, y1: real, x2: real, y2: real, x3: real, y3: real, x4: real, y4: real)
    ensures LineLine(x1, y1, x2, y2, x3, y3, x4, y4) == LineLine(x3, y3, x4, y4, x1, y1, x2, y2)
  {
    LineLineMeaning(x1, y1, x2, y2, x3, y3, x4, y4);
    LineLineMeaning(x3, y3, x4, y4, x1, y1, x2, y2);
    assert Den(x3, y3, x4, y4, x1, y1, x2, y2) == -Den(x1, y1, x2, y2, x3, y3, x4, y4);
    forall t, s | MeetAt(x1, y1, x2, y2, x3, y3, x4, y4, t, s)
      ensures MeetAt(x3, y3, x4, y4, x1, y1, x2, y2, s, t)
    {
    }
    forall s, t | MeetAt(x3, y3, x4, y4, x1, y1, x2, y2, s, t)
      ensures MeetAt(x1, y1, x2, y2, x3, y3, x4, y4, t, s)
    {
    }
  }

  /** Swapping the two ends of the first segment does not change the result. */
  lemma LineLineReversed(x1: real, y1: real, x2: real, y2: real, x3: real, y3: real, x4: real, y4: real)
    ensures LineLine(x2, y2, x1, y1, x3, y3, x4, y4) == LineLine(x1, y1, x2, y2, x3, y3, x4, y4)
  {
    LineLineMeaning(x1, y1, x2, y2, x3, y3, x4, y4);
    LineLineMeaning(x2, y2, x1, y1, x3, y3, x4, y4);
    assert Den(x2, y2, x1, y1, x3, y3, x4, y4) == -Den(x1, y1, x2, y2, x3, y3, x4, y4);
    forall t, s | InUnit(t) && InUnit(s) && MeetAt(x1, y1, x2, y2, x3, y3, x4, y4, t, s)
      ensures InUnit(1.0 - t) && InUnit(s) && MeetAt(x2, y2, x1, y1, x3, y3, x4, y4, 1.0 - t, s)
    {
      assert Lerp(x2, x1, 1.0 - t) == Lerp(x1, x2, t) && Lerp(y2, y1, 1.0 - t) == Lerp(y1, y2, t);
    }
    forall t, s | InUnit(t) && InUnit(s) && MeetAt(x2, y2, x1, y1, x3, y3, x4, y4, t, s)
      ensures InUnit(1.0 - t) && InUnit(s) && MeetAt(x1, y1, x2, y2, x3, y3, x4, y4, 1.0 - t, s)
    {
      assert Lerp(x1, x2, 1.0 - t) == Lerp(x2, x1, t) && Lerp(y1, y2, 1.0 - t) == Lerp(y2, y1, t);
    }
  }

  /** A segment whose two ends coincide never reports an intersection, whichever side it is on. */
  lemma LineLineZeroLength(x1: real, y1: real, x3: real, y3: real, x4: real, y4: real)
    ensures !LineLine(x1, y1, x1, y1, x3, y3, x4, y4)
    ensures !LineLine(x3, y3, x4, y4, x1, y1, x1, y1)
  {
  }

  /** How far (x, y) lies off the line through the first segment (twice the signed triangle area). */
  function OffLine(x1: real, y1: real, x2: real, y2: real, x: real, y: real): real
  {
    (x2 - x1) * (y - y1) - (y2 - y1) * (x - x1)
  }

  /**
   * Segments on one line are never reported: with both ends of the second
   * segment on the line through the first, the denominator is zero.
   */
  lemma LineLineCollinear(x1: real, y1: real, x2: real, y2: real, x3: real, y3: real, x4: real, y4: real)
    requires OffLine(x1, y1, x2, y2, x3, y3) == 0.0 && OffLine(x1, y1, x2, y2, x4, y4) == 0.0
    ensures Den(x1, y1, x2, y2, x3, y3, x4, y4) == 0.0
    ensures !LineLine(x1, y1, x2, y2, x3, y3, x4, y4)
  {
    assert Den(x1, y1, x2, y2, x3, y3, x4, y4) ==
      OffLine(x1, y1, x2, y2, x4, y4) - OffLine(x1, y1, x2, y2, x3, y3);
  }

  /**
   * Collinear segments are not reported even when they overlap: when the
   * second segment starts at a point of the first and runs along the same
   * line, the two share that point, yet `lineLine` is false.
   */
  lemma LineLineMissesOverlap(x1: real, y1: real, x2: real, y2: real, x4: real, y4: real, t: real)
    requires InUnit(t)
    requires OffLine(x1, y1, x2, y2, x4, y4) == 0.0
    ensures MeetAt(x1, y1, x2, y2, Lerp(x1, x2, t), Lerp(y1, y2, t), x4, y4, t, 0.0)
    ensures !LineLine(x1, y1, x2, y2, Lerp(x1, x2, t), Lerp(y1, y2, t), x4, y4)
  {
    var x3, y3 := Lerp(x1, x2, t), Lerp(y1, y2, t);
    assert OffLine(x1, y1, x2, y2, x3, y3) == 0.0 by {
      assert x3 - x1 == t * (x2 - x1) && y3 - y1 == t * (y2 - y1);
      assert (x2 - x1) * (t * (y2 - y1)) == t * ((x2 - x1) * (y2 - y1));
      assert (y2 - y1) * (t * (x2 - x1)) == t * ((x2 - x1) * (y2 - y1));
    }
    LineLineCollinear(x1, y1, x2, y2, x3, y3, x4, y4);
  }

  /**
   * `lineRect`: the segment against the left, right, top and bottom edges of
   * the rectangle, each with `lineLine`.
   */
  predicate LineRect(x1: real, y1: real, x2: real, y2: real, rx: real, ry: real, rw: real, rh: real)
  {
    var left := LineLine(x1, y1, x2, y2, rx, ry, rx, ry + rh);
    var right := LineLine(x1, y1, x2, y2, rx + rw, ry, rx + rw, ry + rh);
    var top := LineLine(x1, y1, x2, y2, rx, ry, rx + rw, ry);
    var bottom := LineLine(x1, y1, x2, y2, rx, ry + rh, rx + rw, ry + rh);
    left || right || top || bottom
  }

  /** Swapping the two ends of the segment does not change `lineRect`. */
  lemma LineRectReversed(x1: real, y1: real, x2: real, y2: real, rx: real, ry: real, rw: real, rh: real)
    ensures LineRect(x2, y2, x1, y1, rx, ry, rw, rh) == LineRect(x1, y1, x2, y2, rx, ry, rw, rh)
  {
    LineLineReversed(x1, y1, x2, y2, rx, ry, rx, ry + rh);
    LineLineReversed(x1, y1, x2, y2, rx + rw, ry, rx + rw, ry + rh);
    LineLineReversed(x1, y1, x2, y2, rx, ry, rx + rw, ry);
    LineLineReversed(x1, y1, x2, y2, rx, ry + rh, rx + rw, ry + rh);
  }

  /**
   * A rectangle of zero width has zero-length top and bottom edges, which
   * never report; only its left edge (equal to its right edge) can.
   */
  lemma LineRectZeroWidth(x1: real, y1: real, x2: real, y2: real, rx: real, ry: real, rh: real)
    ensures LineRect(x1, y1, x2, y2, rx, ry, 0.0, rh) == LineLine(x1, y1, x2, y2, rx, ry, rx, ry + rh)
  {
  }

  /** A rectangle of zero height: only its top edge (equal to its bottom edge) can report. */
  lemma LineRectZeroHeight(x1: real, y1: real, x2: real, y2: real, rx: real, ry: real, rw: real)
    ensures LineRect(x1, y1, x2, y2, rx, ry, rw, 0.0) == LineLine(x1, y1, x2, y2, rx, ry, rx + rw, ry)
  {
  }

  /** A rectangle of zero width and height has four zero-length edges and never collides. */
  lemma LineRectZeroSize(x1: real, y1: real, x2: real, y2: real, rx: real, ry: real)
    ensures !LineRect(x1, y1, x2, y2, rx, ry, 0.0, 0.0)
  {
  }

  /** An edge hit reported by `lineLine` is a point of the segment that lies in the rectangle. */
  lemma EdgeHitInRect(x1: real, y1: real, x2: real, y2: real, x3: real, y3: real, x4: real, y4: real,
                      rx: real, ry: real, rw: real, rh: real)
    requires PointRect(x3, y3, rx, ry, rw, rh) && PointRect(x4, y4, rx, ry, rw, rh)
    requires LineLine(x1, y1, x2, y2, x3, y3, x4, y4)
    ensures exists t :: InUnit(t) && PointRect(Lerp(x1, x2, t), Lerp(y1, y2, t), rx, ry, rw, rh)
  {
    LineLineMeaning(x1, y1, x2, y2, x3, y3, x4, y4);
    var t, s :| InUnit(t) && InUnit(s) && MeetAt(x1, y1, x2, y2, x3, y3, x4, y4, t, s);
    ConvexBetween(x3, x4, s, rx, rx + rw);
    ConvexBetween(y3, y4, s, ry, ry + rh);
  }

  /** A point between two values of an interval lies in the interval. */
  lemma ConvexBetween(a: real, b: real, s: real, lo: real, hi: real)
    requires InUnit(s) && lo <= a <= hi && lo <= b <= hi
    ensures lo <= Lerp(a, b, s) <= hi
  {
    WeightsKeepSign(s, a - lo, b - lo);
    WeightsKeepSign(s, hi - a, hi - b);
    assert Lerp(a, b, s) - lo == (1.0 - s) * (a - lo) + s * (b - lo);
    assert hi - Lerp(a, b, s) == (1.0 - s) * (hi - a) + s * (hi - b);
  }

  /**
   * When `lineRect` reports a collision with a rectangle of non-negative size,
   * some point of the segment lies in the rectangle.
   */
  lemma LineRectSound(x1: real, y1: real, x2: real, y2: real, rx: real, ry: real, rw: real, rh: real)
    requires rw >= 0.0 && rh >= 0.0
    requires LineRect(x1, y1, x2, y2, rx, ry, rw, rh)
    ensures exists t :: InUnit(t) && PointRect(Lerp(x1, x2, t), Lerp(y1, y2, t), rx, ry, rw, rh)
  {
    if LineLine(x1, y1, x2, y2, rx, ry, rx, ry + rh) {
      EdgeHitInRect(x1, y1, x2, y2, rx, ry, rx, ry + rh, rx, ry, rw, rh);
    } else if LineLine(x1, y1, x2, y2, rx + rw, ry, rx + rw, ry + rh) {
      EdgeHitInRect(x1, y1, x2, y2, rx + rw, ry, rx + rw, ry + rh, rx, ry, rw, rh);
    } else if LineLine(x1, y1, x2, y2, rx, ry, rx + rw, ry) {
      EdgeHitInRect(x1, y1, x2, y2, rx, ry, rx + rw, ry, rx, ry, rw, rh);
    } else {
      EdgeHitInRect(x1, y1, x2, y2, rx, ry + rh, rx + rw, ry + rh, rx, ry, rw, rh);
    }
  }

  /**
   * `lineRect` tests only the edges: a segment with both ends strictly inside
   * the rectangle does not collide with it.
   */
  lemma LineRectMissesInnerSegment(x1: real, y1: real, x2: real, y2: real, rx: real, ry: real, rw: real, rh: real)
    requires rx < x1 < rx + rw && ry < y1 < ry + rh
    requires rx < x2 < rx + rw && ry < y2 < ry + rh
    ensures !LineRect(x1, y1, x2, y2, rx, ry, rw, rh)
  {
    StrictlyInsideEdge(x1, y1, x2, y2, rx, ry, rx, ry + rh, x1 - rx, x2 - rx, true);
    StrictlyInsideEdge(x1, y1, x2, y2, rx + rw, ry, rx + rw, ry + rh, rx + rw - x1, rx + rw - x2, true);
    StrictlyInsideEdge(x1, y1, x2, y2, rx, ry, rx + rw, ry, y1 - ry, y2 - ry, false);
    StrictlyInsideEdge(x1, y1, x2, y2, rx, ry + rh, rx + rw, ry + rh, ry + rh - y1, ry + rh - y2, false);
  }

  /**
   * A segment whose ends are both strictly on one side of a vertical (or
   * horizontal) edge line does not meet that edge.
   */
  lemma StrictlyInsideEdge(x1: real, y1: real, x2: real, y2: real, x3: real, y3: real, x4: real, y4: real,
                           g1: real, g2: real, vertical: bool)
    requires g1 > 0.0 && g2 > 0.0
    requires vertical ==> x3 == x4 && ((g1 == x1 - x3 && g2 == x2 - x3) || (g1 == x3 - x1 && g2 == x3 - x2))
    requires !vertical ==> y3 == y4 && ((g1 == y1 - y3 && g2 == y2 - y3) || (g1 == y3 - y1 && g2 == y3 - y2))
    ensures !LineLine(x1, y1, x2, y2, x3, y3, x4, y4)
  {
    LineLineMeaning(x1, y1, x2, y2, x3, y3, x4, y4);
    forall t, s | InUnit(t) && InUnit(s)
      ensures !MeetAt(x1, y1, x2, y2, x3, y3, x4, y4, t, s)
    {
      WeightsKeepSign(t, g1, g2);
    }
  }

  /** A weighting of two non-negative (positive) values with weights 1 - s and s is non-negative (positive). */
  lemma WeightsKeepSign(s: real, g1: real, g2: real)
    requires InUnit(s) && g1 >= 0.0 && g2 >= 0.0
    ensures (1.0 - s) * g1 + s * g2 >= 0.0
    ensures g1 > 0.0 && g2 > 0.0 ==> (1.0 - s) * g1 + s * g2 > 0.0
  {
    if g1 > 0.0 && g2 > 0.0 {
      if s < 1.0 {
        calc { (1.0 - s) * g1 + s * g2; >= (1.0 - s) * g1 + 0.0 * g2; > 0.0 * g1; == 0.0; }
      } else {
        calc { (1.0 - s) * g1 + s * g2; == s * g2; > 0.0 * g2; == 0.0; }
      }
    } else {
      calc { (1.0 - s) * g1 + s * g2; >= 0.0 * g1 + s * g2; >= 0.0 * g1 + 0.0 * g2; == 0.0; }
    }
  }

  /** The tolerance `linePoint` allows: "higher number = less accurate collision detection". */
  const Buffer: real := 0.1

  /**
   * `linePoint`, over the three distances it takes with `dist`: from the
   * point to each end (`d1`, `d2`) and the segment's length (`lineLen`).
   * The point is on the segment when the two distances add up to the length,
   * within the buffer.
   */
  predicate LinePoint(d1: real, d2: real, lineLen: real)
  {
    d1 + d2 >= lineLen - Buffer && d1 + d2 <= lineLen + Buffer
  }

  function Abs(a: real): (r: real)
    ensures r >= 0.0 && (r == a || r == -a)
  {
    if a < 0.0 then -a else a
  }

  /**
   * For the point at parameter `t` on the line through a segment of length
   * `len`, the two end distances add up to `len + Excess(t) * len`.
   */
  function Excess(t: real): (e: real)
    ensures e >= 0.0
    ensures InUnit(t) <==> e == 0.0
  {
    Abs(t) + Abs(1.0 - t) - 1.0
  }

  /**
   * `linePoint` for the point at parameter `t` on the line through a segment
   * of squared length `lenSq`, with no root taken.
   */
  predicate LinePointAt(t: real, lenSq: real)
  {
    Sq(Excess(t)) * lenSq <= Sq(Buffer)
  }

  /** Every point of the segment itself passes `linePoint`, whatever the segment's length. */
  lemma LinePointAtOnSegment(t: real, lenSq: real)
    requires InUnit(t)
    ensures LinePointAt(t, lenSq)
  {
    SquareFacts(Buffer);
    calc { Sq(Excess(t)) * lenSq; == Sq(0.0) * lenSq; == 0.0 * lenSq; == 0.0; <= Sq(Buffer); }
  }

  /** Scaling a vector by k scales its squared length by k squared. */
  lemma ScaledSq(k: real, dx: real, dy: real)
    ensures Sq(k * dx) + Sq(k * dy) == Sq(k) * (Sq(dx) + Sq(dy))
  {
    calc {
      Sq(k * dx) + Sq(k * dy);
    == { SqOfProduct(k, dx); SqOfProduct(k, dy); }
      Sq(k) * Sq(dx) + Sq(k) * Sq(dy);
    ==
      Sq(k) * (Sq(dx) + Sq(dy));
    }
  }

  /** The distance from an end to the point at parameter `t` is |t| (or |1 - t|) times the length. */
  lemma EndDistance(k: real, len: real, lenSq: real, d: real)
    requires IsRoot(len, lenSq) && IsRoot(d, Sq(k) * lenSq)
    ensures d == Abs(k) * len
  {
    SquareFacts(k);
    SqOfProduct(Abs(k), len);
    assert Sq(Abs(k)) == Sq(k);
    calc { 0.0; == 0.0 * len; <= Abs(k) * len; }
    assert IsRoot(Abs(k) * len, Sq(k) * lenSq);
    RootUnique(d, Abs(k) * len, Sq(k) * lenSq);
  }

  /** Squared distances from the point at parameter `t` to the two ends. */
  lemma DistancesAlongLine(x1: real, y1: real, x2: real, y2: real, t: real)
    ensures DistSq(Lerp(x1, x2, t), Lerp(y1, y2, t), x1, y1) == Sq(t) * DistSq(x1, y1, x2, y2)
    ensures DistSq(Lerp(x1, x2, t), Lerp(y1, y2, t), x2, y2) == Sq(1.0 - t) * DistSq(x1, y1, x2, y2)
  {
    var px, py := Lerp(x1, x2, t), Lerp(y1, y2, t);
    LerpOffsets(x1, x2, t);
    LerpOffsets(y1, y2, t);
    var lenSq := DistSq(x1, y1, x2, y2);
    calc {
      DistSq(px, py, x1, y1);
    == { OffsetDistSq(x1, y1, px, py, -t, x2 - x1, y2 - y1); }
      Sq(-t) * lenSq;
    == { SquareFacts(t); }
      Sq(t) * lenSq;
    }
    OffsetDistSq(x2, y2, px, py, 1.0 - t, x2 - x1, y2 - y1);
  }

  /** A point offset from (ox, oy) by k times (dx, dy) is at squared distance k^2 (dx^2 + dy^2). */
  lemma OffsetDistSq(ox: real, oy: real, px: real, py: real, k: real, dx: real, dy: real)
    requires ox - px == k * dx && oy - py == k * dy
    ensures DistSq(px, py, ox, oy) == Sq(k) * (Sq(dx) + Sq(dy))
  {
    ScaledSq(k, dx, dy);
  }

  /** Offsets from the point at parameter `t` to the two ends. */
  lemma LerpOffsets(a: real, b: real, t: real)
    ensures a - Lerp(a, b, t) == (-t) * (b - a)
    ensures b - Lerp(a, b, t) == (1.0 - t) * (b - a)
  {
  }

  /** With the excess `g` of the two end distances over the length, `linePoint` is `g <= Buffer`. */
  lemma LinePointByExcess(d1: real, d2: real, lineLen: real, e: real, lenSq: real)
    requires IsRoot(lineLen, lenSq) && e >= 0.0
    requires d1 + d2 == lineLen + e * lineLen
    ensures LinePoint(d1, d2, lineLen) <==> Sq(e) * lenSq <= Sq(Buffer)
  {
    var g := e * lineLen;
    calc { 0.0; == 0.0 * lineLen; <= g; }
    assert IsRoot(g, Sq(g));
    RootCompare(g, Sq(g), Buffer);
    SqOfProduct(e, lineLen);
  }

  /** `linePoint` at parameter `t`, given the squared end distances in terms of `t`. */
  lemma LinePointByParameter(t: real, d1: real, d2: real, lineLen: real, lenSq: real)
    requires IsRoot(lineLen, lenSq)
    requires IsRoot(d1, Sq(t) * lenSq) && IsRoot(d2, Sq(1.0 - t) * lenSq)
    ensures LinePoint(d1, d2, lineLen) <==> LinePointAt(t, lenSq)
  {
    EndDistance(t, lineLen, lenSq, d1);
    EndDistance(1.0 - t, lineLen, lenSq, d2);
    ScaledSum(Abs(t), Abs(1.0 - t), lineLen, d1, d2);
    LinePointByExcess(d1, d2, lineLen, Excess(t), lenSq);
  }

  lemma ScaledSum(a: real, b: real, len: real, d1: real, d2: real)
    requires d1 == a * len && d2 == b * len
    ensures d1 + d2 == len + (a + b - 1.0) * len
  {
  }

  /**
   * For a point on the line through the segment, `linePoint` over the roots
   * it computes agrees with the root-free `LinePointAt`.
   */
  lemma LinePointOnLine(x1: real, y1: real, x2: real, y2: real, t: real, d1: real, d2: real, lineLen: real)
    requires IsRoot(d1, DistSq(Lerp(x1, x2, t), Lerp(y1, y2, t), x1, y1))
    requires IsRoot(d2, DistSq(Lerp(x1, x2, t), Lerp(y1, y2, t), x2, y2))
    requires IsRoot(lineLen, DistSq(x1, y1, x2, y2))
    ensures LinePoint(d1, d2, lineLen) <==> LinePointAt(t, DistSq(x1, y1, x2, y2))
  {
    DistancesAlongLine(x1, y1, x2, y2, t);
    LinePointByParameter(t, d1, d2, lineLen, DistSq(x1, y1, x2, y2));
  }


  /** Dot product of (cx - x1, cy - y1) with the segment's direction: `dot` before the division. */
  function DotToCentre(x1: real, y1: real, x2: real, y2: real, cx: real, cy: real): real
  {
    (cx - x1) * (x2 - x1) + (cy - y1) * (y2 - y1)
  }

  /**
   * `lineCircle`: true when an end of the segment is in the circle;
   * otherwise the centre is projected onto the line through the segment
   * (parameter `dot`), and the projection must pass `linePoint` and lie in the
   * circle. For a segment of zero length `dot` is 0 / 0, which is NaN, so
   * `linePoint` fails and the result is false.
   */
  predicate LineCircle(x1: real, y1: real, x2: real, y2: real, cx: real, cy: real, r: real)
  {
    if PointCircle(x1, y1, cx, cy, r) || PointCircle(x2, y2, cx, cy, r) then true
    else
      var lenSq := DistSq(x2, y2, x1, y1);
      if lenSq == 0.0 then false
      else
        var dot := DotToCentre(x1, y1, x2, y2, cx, cy) / lenSq;
        var closestX := Lerp(x1, x2, dot);
        var closestY := Lerp(y1, y2, dot);
        LinePointAt(dot, DistSq(x1, y1, x2, y2)) && PointCircle(closestX, closestY, cx, cy, r)
  }

  /** `lineCircle` holds whenever either end of the segment is in the circle. */
  lemma LineCircleEndpoints(x1: real, y1: real, x2: real, y2: real, cx: real, cy: real, r: real)
    requires PointCircle(x1, y1, cx, cy, r) || PointCircle(x2, y2, cx, cy, r)
    ensures LineCircle(x1, y1, x2, y2, cx, cy, r)
  {
  }

  /** For a segment of zero length `lineCircle` is `pointCircle` of its one point. */
  lemma LineCircleZeroLength(x1: real, y1: real, cx: real, cy: real, r: real)
    ensures LineCircle(x1, y1, x1, y1, cx, cy, r) == PointCircle(x1, y1, cx, cy, r)
  {
  }

  /**
   * The squared distance from a centre to the points of a line is a parabola
   * in the parameter, lowest at the projection `u`.
   */
  lemma Parabola(ax: real, ay: real, dx: real, dy: real, t: real, u: real)
    requires u * (Sq(dx) + Sq(dy)) == -(ax * dx + ay * dy)
    ensures Sq(ax + t * dx) + Sq(ay + t * dy) == Sq(ax + u * dx) + Sq(ay + u * dy) + (Sq(dx) + Sq(dy)) * Sq(t - u)
  {
    var w := t - u;
    var A, B := ax + u * dx, ay + u * dy;
    calc {
      Sq(ax + t * dx) + Sq(ay + t * dy);
    == { ShiftedSq(ax, dx, t, u); ShiftedSq(ay, dy, t, u); }
      (Sq(A) + 2.0 * (w * (A * dx)) + Sq(w) * Sq(dx)) + (Sq(B) + 2.0 * (w * (B * dy)) + Sq(w) * Sq(dy));
    == { Orthogonal(ax, ay, dx, dy, u); CancelCross(Sq(A), Sq(B), A * dx, B * dy, w, Sq(dx), Sq(dy), Sq(w)); }
      Sq(A) + Sq(B) + (Sq(dx) + Sq(dy)) * Sq(w);
    }
  }

  /** At the projection, the vector from the centre is orthogonal to the direction. */
  lemma Orthogonal(ax: real, ay: real, dx: real, dy: real, u: real)
    requires u * (Sq(dx) + Sq(dy)) == -(ax * dx + ay * dy)
    ensures (ax + u * dx) * dx + (ay + u * dy) * dy == 0.0
  {
    calc {
      (ax + u * dx) * dx + (ay + u * dy) * dy;
    ==
      ax * dx + ay * dy + u * (dx * dx + dy * dy);
    ==
      ax * dx + ay * dy + u * (Sq(dx) + Sq(dy));
    ==
      0.0;
    }
  }

  /** Moving the parameter from `u` to `t` along one axis. */
  lemma ShiftedSq(a: real, d: real, t: real, u: real)
    ensures Sq(a + t * d) == Sq(a + u * d) + 2.0 * ((t - u) * ((a + u * d) * d)) + Sq(t - u) * Sq(d)
  {
    var A, w := a + u * d, t - u;
    calc {
      Sq(a + t * d);
    == { assert a + t * d == A + w * d; }
      Sq(A + w * d);
    == { SqOfSum(A, w * d); }
      Sq(A) + 2.0 * (A * (w * d)) + Sq(w * d);
    == { SqOfProduct(w, d); assert A * (w * d) == w * (A * d); }
      Sq(A) + 2.0 * (w * (A * d)) + Sq(w) * Sq(d);
    }
  }

  lemma CancelCross(sa: real, sb: real, p: real, q: real, w: real, s1: real, s2: real, sw: real)
    requires p + q == 0.0
    ensures (sa + 2.0 * (w * p) + sw * s1) + (sb + 2.0 * (w * q) + sw * s2) == sa + sb + (s1 + s2) * sw
  {
    assert w * p + w * q == w * (p + q);
  }

  /** The squared distance from the centre to the point at `t` of the line through the segment. */
  function DistSqAt(x1: real, y1: real, x2: real, y2: real, cx: real, cy: real, t: real): real
  {
    DistSq(cx, cy, Lerp(x1, x2, t), Lerp(y1, y2, t))
  }

  /** The projection `dot` is the point of the line closest to the centre. */
  lemma ProjectionClosest(x1: real, y1: real, x2: real, y2: real, cx: real, cy: real, t: real, u: real)
    requires u * DistSq(x1, y1, x2, y2) == DotToCentre(x1, y1, x2, y2, cx, cy)
    ensures DistSqAt(x1, y1, x2, y2, cx, cy, t) ==
      DistSqAt(x1, y1, x2, y2, cx, cy, u) + DistSq(x1, y1, x2, y2) * Sq(t - u)
  {
    var ax, ay, dx, dy := x1 - cx, y1 - cy, x2 - x1, y2 - y1;
    assert Lerp(x1, x2, t) - cx == ax + t * dx && Lerp(y1, y2, t) - cy == ay + t * dy;
    assert Lerp(x1, x2, u) - cx == ax + u * dx && Lerp(y1, y2, u) - cy == ay + u * dy;
    Parabola(ax, ay, dx, dy, t, u);
  }

  /** Past the end test, `lineCircle` tests the projection of the centre. */
  lemma LineCircleAtProjection(x1: real, y1: real, x2: real, y2: real, cx: real, cy: real, r: real)
    requires !PointCircle(x1, y1, cx, cy, r) && !PointCircle(x2, y2, cx, cy, r)
    requires DistSq(x1, y1, x2, y2) != 0.0
    ensures var dot := DotToCentre(x1, y1, x2, y2, cx, cy) / DistSq(x1, y1, x2, y2);
      dot * DistSq(x1, y1, x2, y2) == DotToCentre(x1, y1, x2, y2, cx, cy) &&
      (LineCircle(x1, y1, x2, y2, cx, cy, r) <==>
       LinePointAt(dot, DistSq(x1, y1, x2, y2)) && PointCircle(Lerp(x1, x2, dot), Lerp(y1, y2, dot), cx, cy, r))
  {
    var lenSq := DistSq(x1, y1, x2, y2);
    DistSqSymmetric(x1, y1, x2, y2);
    assert DistSq(x2, y2, x1, y1) == lenSq;
    var dot := DotToCentre(x1, y1, x2, y2, cx, cy) / lenSq;
    assert LineCircle(x1, y1, x2, y2, cx, cy, r) ==
      (LinePointAt(dot, lenSq) && PointCircle(Lerp(x1, x2, dot), Lerp(y1, y2, dot), cx, cy, r));
  }

  /**
   * When `lineCircle` reports a collision, a point of the line through the
   * segment that passes `linePoint` lies in the circle.
   */
  lemma LineCircleSound(x1: real, y1: real, x2: real, y2: real, cx: real, cy: real, r: real)
    requires LineCircle(x1, y1, x2, y2, cx, cy, r)
    ensures exists t :: LinePointAt(t, DistSq(x1, y1, x2, y2)) && PointCircle(Lerp(x1, x2, t), Lerp(y1, y2, t), cx, cy, r)
  {
    if PointCircle(x1, y1, cx, cy, r) {
      HitAt(x1, y1, x2, y2, cx, cy, r, 0.0);
    } else if PointCircle(x2, y2, cx, cy, r) {
      HitAt(x1, y1, x2, y2, cx, cy, r, 1.0);
    } else {
      DistSqSymmetric(x1, y1, x2, y2);
      LineCircleAtProjection(x1, y1, x2, y2, cx, cy, r);
      HitAt(x1, y1, x2, y2, cx, cy, r, DotToCentre(x1, y1, x2, y2, cx, cy) / DistSq(x1, y1, x2, y2));
    }
  }

  /** The point at `t`, on the segment or at its projection, witnesses a collision. */
  lemma HitAt(x1: real, y1: real, x2: real, y2: real, cx: real, cy: real, r: real, t: real)
    requires t == 0.0 ==> PointCircle(x1, y1, cx, cy, r)
    requires t == 1.0 ==> PointCircle(x2, y2, cx, cy, r)
    requires t != 0.0 && t != 1.0 ==>
      LinePointAt(t, DistSq(x1, y1, x2, y2)) && PointCircle(Lerp(x1, x2, t), Lerp(y1, y2, t), cx, cy, r)
    ensures exists t :: LinePointAt(t, DistSq(x1, y1, x2, y2)) && PointCircle(Lerp(x1, x2, t), Lerp(y1, y2, t), cx, cy, r)
  {
    if t == 0.0 {
      LinePointAtOnSegment(0.0, DistSq(x1, y1, x2, y2));
      assert Lerp(x1, x2, 0.0) == x1 && Lerp(y1, y2, 0.0) == y1;
    } else if t == 1.0 {
      LinePointAtOnSegment(1.0, DistSq(x1, y1, x2, y2));
      assert Lerp(x1, x2, 1.0) == x2 && Lerp(y1, y2, 1.0) == y2;
    }
  }

  /**
   * `lineCircle` finds every collision of the segment itself: when some
   * point of the segment lies in the circle, it reports a collision.
   */
  lemma LineCircleComplete(x1: real, y1: real, x2: real, y2: real, cx: real, cy: real, r: real, t: real)
    requires InUnit(t) && PointCircle(Lerp(x1, x2, t), Lerp(y1, y2, t), cx, cy, r)
    ensures LineCircle(x1, y1, x2, y2, cx, cy, r)
  {
    if !PointCircle(x1, y1, cx, cy, r) && !PointCircle(x2, y2, cx, cy, r) {
      assert DistSq(x1, y1, x2, y2) != 0.0 by {
        if DistSq(x1, y1, x2, y2) == 0.0 {
          ZeroLengthLerp(x1, y1, x2, y2, t);
          assert false;
        }
      }
      LineCircleAtProjection(x1, y1, x2, y2, cx, cy, r);
      ProjectionInCircle(x1, y1, x2, y2, cx, cy, r, t, DotToCentre(x1, y1, x2, y2, cx, cy) / DistSq(x1, y1, x2, y2));
    }
  }

  /** Every point of a segment of zero length is its first end. */
  lemma ZeroLengthLerp(x1: real, y1: real, x2: real, y2: real, t: real)
    requires DistSq(x1, y1, x2, y2) == 0.0
    ensures Lerp(x1, x2, t) == x1 && Lerp(y1, y2, t) == y1
  {
    assert x2 - x1 == 0.0 && y2 - y1 == 0.0;
  }

  /** When a point of the segment is in the circle and neither end is, the projection passes both tests. */
  lemma ProjectionInCircle(x1: real, y1: real, x2: real, y2: real, cx: real, cy: real, r: real, t: real, dot: real)
    requires InUnit(t) && PointCircle(Lerp(x1, x2, t), Lerp(y1, y2, t), cx, cy, r)
    requires !PointCircle(x1, y1, cx, cy, r) && !PointCircle(x2, y2, cx, cy, r)
    requires dot * DistSq(x1, y1, x2, y2) == DotToCentre(x1, y1, x2, y2, cx, cy)
    ensures LinePointAt(dot, DistSq(x1, y1, x2, y2)) && PointCircle(Lerp(x1, x2, dot), Lerp(y1, y2, dot), cx, cy, r)
  {
    ProjectionOnSegment(x1, y1, x2, y2, cx, cy, r, t, dot);
    LinePointAtOnSegment(dot, DistSq(x1, y1, x2, y2));
    ProjectionNearest(x1, y1, x2, y2, cx, cy, t, dot);
    PointCircleCloser(Lerp(x1, x2, dot), Lerp(y1, y2, dot), Lerp(x1, x2, t), Lerp(y1, y2, t), cx, cy, r);
  }

  /** No point of the line is closer to the centre than the projection. */
  lemma ProjectionNearest(x1: real, y1: real, x2: real, y2: real, cx: real, cy: real, t: real, u: real)
    requires u * DistSq(x1, y1, x2, y2) == DotToCentre(x1, y1, x2, y2, cx, cy)
    ensures DistSqAt(x1, y1, x2, y2, cx, cy, u) <= DistSqAt(x1, y1, x2, y2, cx, cy, t)
  {
    ProjectionClosest(x1, y1, x2, y2, cx, cy, t, u);
    SquareFacts(t - u);
    ProductMonotone(0.0, DistSq(x1, y1, x2, y2), 0.0, Sq(t - u));
  }

  /** A parameter no further from the projection than `t` gives a point no further from the centre. */
  lemma CloserToProjection(x1: real, y1: real, x2: real, y2: real, cx: real, cy: real, t: real, e: real, u: real)
    requires u * DistSq(x1, y1, x2, y2) == DotToCentre(x1, y1, x2, y2, cx, cy)
    requires Sq(e - u) <= Sq(t - u)
    ensures DistSqAt(x1, y1, x2, y2, cx, cy, e) <= DistSqAt(x1, y1, x2, y2, cx, cy, t)
  {
    var lenSq := DistSq(x1, y1, x2, y2);
    ProjectionClosest(x1, y1, x2, y2, cx, cy, t, u);
    ProjectionClosest(x1, y1, x2, y2, cx, cy, e, u);
    SquareFacts(e - u);
    ProductMonotone(lenSq, lenSq, Sq(e - u), Sq(t - u));
  }

  /**
   * If neither end is in the circle but a point of the segment is, the
   * projection lies on the segment.
   */
  lemma ProjectionOnSegment(x1: real, y1: real, x2: real, y2: real, cx: real, cy: real, r: real, t: real, dot: real)
    requires InUnit(t) && PointCircle(Lerp(x1, x2, t), Lerp(y1, y2, t), cx, cy, r)
    requires !PointCircle(x1, y1, cx, cy, r) && !PointCircle(x2, y2, cx, cy, r)
    requires dot * DistSq(x1, y1, x2, y2) == DotToCentre(x1, y1, x2, y2, cx, cy)
    ensures InUnit(dot)
  {
    assert DistSqAt(x1, y1, x2, y2, cx, cy, t) <= Sq(r);
    if dot < 0.0 {
      SquareMonotone(0.0 - dot, t - dot);
      CloserToProjection(x1, y1, x2, y2, cx, cy, t, 0.0, dot);
      assert false;
    } else if dot > 1.0 {
      SquareMonotone(dot - 1.0, dot - t);
      SquareFacts(dot - 1.0);
      SquareFacts(dot - t);
      assert 1.0 - dot == -(dot - 1.0) && t - dot == -(dot - t);
      CloserToProjection(x1, y1, x2, y2, cx, cy, t, 1.0, dot);
      assert false;
    }
  }

  /** Swapping the two ends of the second segment does not change the result. */
  lemma LineLineSecondReversed(x1: real, y1: real, x2: real, y2: real, x3: real, y3: real, x4: real, y4: real)
    ensures LineLine(x1, y1, x2, y2, x4, y4, x3, y3) == LineLine(x1, y1, x2, y2, x3, y3, x4, y4)
  {
    LineLineSymmetric(x1, y1, x2, y2, x4, y4, x3, y3);
    LineLineReversed(x4, y4, x3, y3, x1, y1, x2, y2);
    LineLineSymmetric(x3, y3, x4, y4, x1, y1, x2, y2);
  }

  /** The projections from the two ends add up to the squared length. */
  lemma DotFromBothEnds(x1: real, y1: real, x2: real, y2: real, cx: real, cy: real)
    ensures DotToCentre(x1, y1, x2, y2, cx, cy) + DotToCentre(x2, y2, x1, y1, cx, cy) == DistSq(x1, y1, x2, y2)
  {
    var dx, dy := x2 - x1, y2 - y1;
    calc {
      DotToCentre(x1, y1, x2, y2, cx, cy) + DotToCentre(x2, y2, x1, y1, cx, cy);
    ==
      (cx - x1) * dx + (cy - y1) * dy + (cx - x2) * (-dx) + (cy - y2) * (-dy);
    ==
      (x2 - x1) * dx + (y2 - y1) * dy;
    ==
      dx * dx + dy * dy;
    ==
      Sq(dx) + Sq(dy);
    }
  }

  /** `Excess` is the same at `t` and at `1 - t`. */
  lemma ExcessMirror(t: real)
    ensures Excess(1.0 - t) == Excess(t)
  {
    assert 1.0 - (1.0 - t) == t;
  }

  /** Seen from the other end, the projection has parameter `1 - dot`. */
  lemma ProjectionMirror(x1: real, y1: real, x2: real, y2: real, cx: real, cy: real)
    requires DistSq(x1, y1, x2, y2) != 0.0
    ensures DotToCentre(x2, y2, x1, y1, cx, cy) / DistSq(x1, y1, x2, y2) ==
      1.0 - DotToCentre(x1, y1, x2, y2, cx, cy) / DistSq(x1, y1, x2, y2)
  {
    var lenSq := DistSq(x1, y1, x2, y2);
    var fore, aft := DotToCentre(x1, y1, x2, y2, cx, cy), DotToCentre(x2, y2, x1, y1, cx, cy);
    DotFromBothEnds(x1, y1, x2, y2, cx, cy);
    QuotientOfRest(lenSq, fore, aft);
  }

  /** The point at `1 - t` from the other end is the point at `t`. */
  lemma LerpMirror(a: real, b: real, t: real)
    ensures Lerp(b, a, 1.0 - t) == Lerp(a, b, t)
  {
  }

  /** Testing the point at `back = 1 - dot` from the other end is testing the point at `dot`. */
  lemma MirroredTest(x1: real, y1: real, x2: real, y2: real, cx: real, cy: real, r: real, dot: real, back: real, lenSq: real)
    requires back == 1.0 - dot
    ensures (LinePointAt(back, lenSq) && PointCircle(Lerp(x2, x1, back), Lerp(y2, y1, back), cx, cy, r)) ==
      (LinePointAt(dot, lenSq) && PointCircle(Lerp(x1, x2, dot), Lerp(y1, y2, dot), cx, cy, r))
  {
    assert LinePointAt(back, lenSq) == LinePointAt(dot, lenSq) by {
      ExcessMirror(dot);
    }
    assert Lerp(x2, x1, back) == Lerp(x1, x2, dot) by {
      LerpMirror(x1, x2, dot);
    }
    assert Lerp(y2, y1, back) == Lerp(y1, y2, dot) by {
      LerpMirror(y1, y2, dot);
    }
  }

  /** Swapping the two ends of the segment does not change `lineCircle`. */
  lemma LineCircleReversed(x1: real, y1: real, x2: real, y2: real, cx: real, cy: real, r: real)
    ensures LineCircle(x2, y2, x1, y1, cx, cy, r) == LineCircle(x1, y1, x2, y2, cx, cy, r)
  {
    DistSqSymmetric(x1, y1, x2, y2);
    if !PointCircle(x1, y1, cx, cy, r) && !PointCircle(x2, y2, cx, cy, r) && DistSq(x1, y1, x2, y2) != 0.0 {
      ReversedAtProjection(x1, y1, x2, y2, cx, cy, r);
    }
  }

  /** Past the end test, both directions test the same projected point. */
  lemma ReversedAtProjection(x1: real, y1: real, x2: real, y2: real, cx: real, cy: real, r: real)
    requires !PointCircle(x1, y1, cx, cy, r) && !PointCircle(x2, y2, cx, cy, r)
    requires DistSq(x1, y1, x2, y2) != 0.0
    ensures LineCircle(x2, y2, x1, y1, cx, cy, r) == LineCircle(x1, y1, x2, y2, cx, cy, r)
  {
    var lenSq := DistSq(x1, y1, x2, y2);
    DistSqSymmetric(x1, y1, x2, y2);
    var dot := DotToCentre(x1, y1, x2, y2, cx, cy) / lenSq;
    var back := DotToCentre(x2, y2, x1, y1, cx, cy) / DistSq(x2, y2, x1, y1);
    calc {
      LineCircle(x2, y2, x1, y1, cx, cy, r);
    == { LineCircleAtProjection(x2, y2, x1, y1, cx, cy, r); }
      LinePointAt(back, DistSq(x2, y2, x1, y1)) && PointCircle(Lerp(x2, x1, back), Lerp(y2, y1, back), cx, cy, r);
    == { ProjectionMirror(x1, y1, x2, y2, cx, cy); MirroredTest(x1, y1, x2, y2, cx, cy, r, dot, back, lenSq); }
      LinePointAt(dot, lenSq) && PointCircle(Lerp(x1, x2, dot), Lerp(y1, y2, dot), cx, cy, r);
    == { LineCircleAtProjection(x1, y1, x2, y2, cx, cy, r); }
      LineCircle(x1, y1, x2, y2, cx, cy, r);
    }
  }


  lemma QuotientOfRest(l: real, f: real, g: real)
    requires l != 0.0 && f + g == l
    ensures g / l == 1.0 - f / l
  {
    var a, b := f / l, g / l;
    assert a * l == f && b * l == g;
    calc { (a + b - 1.0) * l; == a * l + b * l - l; == 0.0; }
    ZeroFactor(a + b - 1.0, l);
  }

  lemma ZeroFactor(x: real, l: real)
    requires l != 0.0 && x * l == 0.0
    ensures x == 0.0
  {
    if x != 0.0 {
      SquareFacts(x);
      SquareFacts(l);
      SqOfProduct(x, l);
      assert false;
    }
  }

  lemma QuotientTimes(a: real, b: real)
    requires b != 0.0
    ensures (a / b) * b == a
  {
  }
}

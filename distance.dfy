/**
 * Euclidean distance without square roots.
 *
 * Every distance test of the collision library has the shape
 * `Math.sqrt(dx*dx + dy*dy) <= r`. Reals have no square root here, so the
 * model keeps the squared distance and compares it with the squared bound;
 * RootCompare proves that this is the same test for every non-negative root.
 */
module Distance {

  /** `a * a`; kept as a function so that facts about squares stay facts about one term. */
  function Sq(a: real): real
  {
    a * a
  }

  /** Square of the distance between (x1, y1) and (x2, y2): what `dist` takes the root of. */
  function DistSq(x1: real, y1: real, x2: real, y2: real): (d: real)
    ensures d >= 0.0
    ensures d == 0.0 <==> x1 == x2 && y1 == y2
  {
    SquareFacts(x2 - x1);
    SquareFacts(y2 - y1);
    Sq(x2 - x1) + Sq(y2 - y1)
  }

  /** `s` is what `Math.sqrt(d)` returns, in exact arithmetic. */
  predicate IsRoot(s: real, d: real)
  {
    s >= 0.0 && Sq(s) == d
  }

  /** `Math.sqrt(d) <= r`, stated without the root. */
  predicate WithinRadius(d: real, r: real)
  {
    r >= 0.0 && d <= Sq(r)
  }

  lemma SquareFacts(a: real)
    ensures Sq(a) >= 0.0
    ensures a != 0.0 ==> Sq(a) > 0.0
    ensures Sq(-a) == Sq(a)
  {
    if a < 0.0 {
      calc { Sq(a); == (-a) * (-a); > 0.0; }
    } else if a > 0.0 {
      calc { Sq(a); == a * a; > 0.0; }
    } else {
      calc { Sq(a); == 0.0 * 0.0; == 0.0; }
    }
  }

  lemma ProductBelowSquare(a: real, b: real)
    requires 0.0 <= a < b
    ensures a * a <= a * b
    ensures a * b < b * b
  {
  }

  /** Squaring is monotone on the non-negative reals, strictly so. */
  lemma SquareMonotone(a: real, b: real)
    requires 0.0 <= a <= b
    ensures Sq(a) <= Sq(b)
    ensures a < b ==> Sq(a) < Sq(b)
  {
    if a < b {
      calc {
        Sq(a);
      ==
        a * a;
      <= { ProductBelowSquare(a, b); }
        a * b;
      < { ProductBelowSquare(a, b); }
        b * b;
      ==
        Sq(b);
      }
    }
  }

  /** Comparing a root with a bound is comparing the square with the bound's square. */
  lemma RootCompare(s: real, d: real, r: real)
    requires IsRoot(s, d)
    ensures s <= r <==> WithinRadius(d, r)
  {
    if s <= r {
      SquareMonotone(s, r);
    } else if r >= 0.0 {
      SquareMonotone(r, s);
    }
  }

  /** A non-negative real has at most one non-negative root. */
  lemma RootUnique(s: real, t: real, d: real)
    requires IsRoot(s, d) && IsRoot(t, d)
    ensures s == t
  {
    if s < t {
      SquareMonotone(s, t);
    } else if t < s {
      SquareMonotone(t, s);
    }
  }

  lemma SqOfProduct(a: real, b: real)
    ensures Sq(a * b) == Sq(a) * Sq(b)
  {
    calc { Sq(a * b); == (a * b) * (a * b); == (a * a) * (b * b); == Sq(a) * Sq(b); }
  }

  lemma SqOfSum(a: real, b: real)
    ensures Sq(a + b) == Sq(a) + 2.0 * (a * b) + Sq(b)
  {
    calc { Sq(a + b); == (a + b) * (a + b); == a * a + 2.0 * (a * b) + b * b; == Sq(a) + 2.0 * (a * b) + Sq(b); }
  }

  /** Lagrange's identity in two dimensions: |u|^2 |v|^2 = (u . v)^2 + (u x v)^2. */
  lemma Lagrange(ux: real, uy: real, vx: real, vy: real)
    ensures (Sq(ux) + Sq(uy)) * (Sq(vx) + Sq(vy)) == Sq(ux * vx + uy * vy) + Sq(ux * vy - uy * vx)
  {
    calc {
      (Sq(ux) + Sq(uy)) * (Sq(vx) + Sq(vy));
    ==
      (ux * ux + uy * uy) * (vx * vx + vy * vy);
    ==
      (ux * vx + uy * vy) * (ux * vx + uy * vy) + (ux * vy - uy * vx) * (ux * vy - uy * vx);
    ==
      Sq(ux * vx + uy * vy) + Sq(ux * vy - uy * vx);
    }
  }

  lemma ProductMonotone(a: real, b: real, c: real, d: real)
    requires 0.0 <= a <= b && 0.0 <= c <= d
    ensures a * c <= b * d
  {
    calc { a * c; <= b * c; <= b * d; }
  }

  /** The squared dot product is at most the product of the squared lengths. */
  lemma DotSquareBound(ux: real, uy: real, vx: real, vy: real)
    ensures Sq(ux * vx + uy * vy) <= (Sq(ux) + Sq(uy)) * (Sq(vx) + Sq(vy))
  {
    Lagrange(ux, uy, vx, vy);
    SquareFacts(ux * vy - uy * vx);
  }

  /** A non-negative bound on the square bounds the value. */
  lemma BelowRootOf(x: real, y: real)
    requires y >= 0.0 && Sq(x) <= Sq(y)
    ensures x <= y
  {
    if x > y {
      SquareMonotone(y, x);
    }
  }

  /** Cauchy-Schwarz: a vector of length at most r1 and one of length at most r2 have a dot product at most r1 * r2. */
  lemma DotBound(ux: real, uy: real, vx: real, vy: real, r1: real, r2: real)
    requires r1 >= 0.0 && r2 >= 0.0
    requires Sq(ux) + Sq(uy) <= Sq(r1) && Sq(vx) + Sq(vy) <= Sq(r2)
    ensures ux * vx + uy * vy <= r1 * r2
  {
    var u, v := Sq(ux) + Sq(uy), Sq(vx) + Sq(vy);
    assert u >= 0.0 && v >= 0.0 by {
      SquareFacts(ux);
      SquareFacts(uy);
      SquareFacts(vx);
      SquareFacts(vy);
    }
    calc {
      Sq(ux * vx + uy * vy);
    <= { DotSquareBound(ux, uy, vx, vy); }
      u * v;
    <= { ProductMonotone(u, Sq(r1), v, Sq(r2)); }
      Sq(r1) * Sq(r2);
    == { SqOfProduct(r1, r2); }
      Sq(r1 * r2);
    }
    ProductMonotone(0.0, r1, 0.0, r2);
    BelowRootOf(ux * vx + uy * vy, r1 * r2);
  }

  /** The triangle inequality, squared: |u + v| <= r1 + r2 when |u| <= r1 and |v| <= r2. */
  lemma TriangleSquared(ux: real, uy: real, vx: real, vy: real, r1: real, r2: real)
    requires r1 >= 0.0 && r2 >= 0.0
    requires Sq(ux) + Sq(uy) <= Sq(r1) && Sq(vx) + Sq(vy) <= Sq(r2)
    ensures Sq(ux + vx) + Sq(uy + vy) <= Sq(r1 + r2)
  {
    DotBound(ux, uy, vx, vy, r1, r2);
    calc {
      Sq(ux + vx) + Sq(uy + vy);
    == { SqOfSum(ux, vx); SqOfSum(uy, vy); }
      (Sq(ux) + Sq(uy)) + 2.0 * (ux * vx + uy * vy) + (Sq(vx) + Sq(vy));
    <=
      Sq(r1) + 2.0 * (r1 * r2) + Sq(r2);
    == { SqOfSum(r1, r2); }
      Sq(r1 + r2);
    }
  }

  /** Scaling a vector of length at most s by k >= 0 gives one of length at most k * s. */
  lemma ScaledWithin(k: real, dx: real, dy: real, s: real, r: real)
    requires k >= 0.0 && Sq(dx) + Sq(dy) <= Sq(s) && k * s == r
    ensures Sq(k * dx) + Sq(k * dy) <= Sq(r)
  {
    SquareFacts(k);
    SquareFacts(dx);
    SquareFacts(dy);
    calc {
      Sq(k * dx) + Sq(k * dy);
    == { SqOfProduct(k, dx); SqOfProduct(k, dy); }
      Sq(k) * (Sq(dx) + Sq(dy));
    <= { ProductMonotone(Sq(k), Sq(k), Sq(dx) + Sq(dy), Sq(s)); }
      Sq(k) * Sq(s);
    == { SqOfProduct(k, s); }
      Sq(r);
    }
  }

  /** The distance does not depend on the order of the two points. */
  lemma DistSqSymmetric(x1: real, y1: real, x2: real, y2: real)
    ensures DistSq(x1, y1, x2, y2) == DistSq(x2, y2, x1, y1)
  {
    SquareFacts(x2 - x1);
    SquareFacts(y2 - y1);
    assert x1 - x2 == -(x2 - x1) && y1 - y2 == -(y2 - y1);
  }
}

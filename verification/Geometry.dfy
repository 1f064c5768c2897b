/** Line clipping and point-to-segment distance of src/geometry.c, over exact reals. */
module Geometry {
  import opened Reals

  // ---------------------------------------------------------------- clipping

  /** The half-plane that one clipt call clips against, for the parameter t of a segment. */
  predicate HalfPlane(d: real, n: real, t: real) {
    Times(t, d) >= n
  }

  /** Dividing a constraint on t by its coefficient. */
  lemma SolveForT(d: real, n: real, t: real)
    requires d != 0.0
    ensures d > 0.0 ==> (HalfPlane(d, n, t) <==> t >= Over(n, d))
    ensures d < 0.0 ==> (HalfPlane(d, n, t) <==> t <= Over(n, d))
  {
    hide Times, Over;
    var q := Over(n, d);
    OverTimes(n, d);
    if d > 0.0 {
      Scale(d, q, t);
    } else {
      Scale(-d, t, q);
      TimesSigns(q, d);
      TimesSigns(t, d);
    }
  }

  /**
   clipt: [te, tl] becomes its intersection with the half-plane. The answer is false exactly when the
   intersection is empty, and then the interval may be left as it was.
   */
  method Clipt(d: real, n: real, te: real, tl: real) returns (ac: bool, te': real, tl': real)
    requires te <= tl
    ensures ac <==> exists t :: te <= t <= tl && HalfPlane(d, n, t)
    ensures ac ==> te' <= tl'
    ensures ac ==> forall t :: te' <= t <= tl' <==> te <= t <= tl && HalfPlane(d, n, t)
  {
    te', tl' := te, tl;
    ac := true;
    if d > 0.0 {
      var t := n / d;
      if t > tl {
        ac := false;
      } else if t > te {
        te' := t;
      }
    } else if d < 0.0 {
      var t := n / d;
      if t < te {
        ac := false;
      } else if t < tl {
        tl' := t;
      }
    } else {
      if n > 0.0 { ac := false; }
    }
    forall t ensures d != 0.0 ==> (HalfPlane(d, n, t) <==> if d > 0.0 then t >= n / d else t <= n / d) {
      if d != 0.0 { SolveForT(d, n, t); }
    }
    if ac { assert te <= te' <= tl && HalfPlane(d, n, te'); }
  }

  predicate InRectangle(x: real, y: real, xg1: real, yg1: real, xg2: real, yg2: real) {
    xg1 <= x <= xg2 && yg1 <= y <= yg2
  }

  /** The segment point at parameter t lies in the closed rectangle. */
  predicate PointInRectangle(x0: real, y0: real, x1: real, y1: real, t: real, xg1: real, yg1: real, xg2: real,
                             yg2: real)
  {
    InRectangle(x0 + Times(t, x1 - x0), y0 + Times(t, y1 - y0), xg1, yg1, xg2, yg2)
  }

  /** clip_pointxy. */
  method ClipPoint(x: real, y: real, xg1: real, yg1: real, xg2: real, yg2: real) returns (inside: bool)
    ensures inside <==> InRectangle(x, y, xg1, yg1, xg2, yg2)
  {
    inside := x >= xg1 && x <= xg2 && y >= yg1 && y <= yg2;
  }

  /** The four half-planes are the rectangle. */
  lemma FourHalfPlanes(x0: real, y0: real, x1: real, y1: real, t: real, xg1: real, yg1: real, xg2: real, yg2: real)
    ensures var dx, dy := x1 - x0, y1 - y0;
      PointInRectangle(x0, y0, x1, y1, t, xg1, yg1, xg2, yg2) <==>
        HalfPlane(dx, xg1 - x0, t) && HalfPlane(-dx, x0 - xg2, t) && HalfPlane(dy, yg1 - y0, t)
          && HalfPlane(-dy, y0 - yg2, t)
  {
    assert t * -(x1 - x0) == -(t * (x1 - x0));
    assert t * -(y1 - y0) == -(t * (y1 - y0));
  }

  /** line_crosses_rectangle: exact for every segment and every rectangle, degenerate or inverted. */
  method LineCrossesRectangle(x0: real, y0: real, x1: real, y1: real, xg1: real, yg1: real, xg2: real, yg2: real)
    returns (crosses: bool)
    ensures crosses <==> exists t :: 0.0 <= t <= 1.0 && PointInRectangle(x0, y0, x1, y1, t, xg1, yg1, xg2, yg2)
  {
    var te, tl := 0.0, 1.0;
    var dx, dy := x1 - x0, y1 - y0;
    var inside := ClipPoint(x1, y1, xg1, yg1, xg2, yg2);
    if dx == 0.0 && dy == 0.0 && inside {
      assert PointInRectangle(x0, y0, x1, y1, 0.0, xg1, yg1, xg2, yg2);
      return true;
    }
    crosses := ClipFourSides(dx, dy, xg1 - x0, x0 - xg2, yg1 - y0, y0 - yg2);
    forall t
      ensures PointInRectangle(x0, y0, x1, y1, t, xg1, yg1, xg2, yg2)
        <==> InFourSides(dx, dy, xg1 - x0, x0 - xg2, yg1 - y0, y0 - yg2, t)
    {
      FourHalfPlanes(x0, y0, x1, y1, t, xg1, yg1, xg2, yg2);
    }
    hide Times;
    if crosses {
      var t :| 0.0 <= t <= 1.0 && InFourSides(dx, dy, xg1 - x0, x0 - xg2, yg1 - y0, y0 - yg2, t);
      assert PointInRectangle(x0, y0, x1, y1, t, xg1, yg1, xg2, yg2);
    }
  }

  predicate InFourSides(dx: real, dy: real, left: real, right: real, low: real, high: real, t: real) {
    HalfPlane(dx, left, t) && HalfPlane(-dx, right, t) && HalfPlane(dy, low, t) && HalfPlane(-dy, high, t)
  }

  /** The nested calls of clipt in line_crosses_rectangle. */
  method ClipFourSides(dx: real, dy: real, left: real, right: real, low: real, high: real) returns (crosses: bool)
    ensures crosses <==> exists t :: 0.0 <= t <= 1.0 && InFourSides(dx, dy, left, right, low, high, t)
  {
    hide Times;
    var te, tl := 0.0, 1.0;
    crosses, te, tl := Clipt(dx, left, te, tl);
    if crosses {
      crosses, te, tl := Clipt(-dx, right, te, tl);
      if crosses {
        crosses, te, tl := Clipt(dy, low, te, tl);
        if crosses {
          crosses, te, tl := Clipt(-dy, high, te, tl);
          if crosses {
            assert HalfPlane(-dy, high, te);
            assert HalfPlane(dy, low, te);
            assert HalfPlane(-dx, right, te);
            assert HalfPlane(dx, left, te);
            assert InFourSides(dx, dy, left, right, low, high, te);
          }
        }
      }
    }
  }

  // ---------------------------------------------------------------- distance

  function Dot(px: real, py: real, qx: real, qy: real): real {
    Times(px, qx) + Times(py, qy)
  }

  /** Square of the distance from (xp, yp) to the segment point at parameter t. */
  function SquaredAt(x1: real, y1: real, x2: real, y2: real, xp: real, yp: real, t: real): real {
    SquaredFrom(x1 - xp, y1 - yp, x2 - x1, y2 - y1, t)
  }

  /** Squared length of p + t * d. */
  function SquaredFrom(px: real, py: real, dx: real, dy: real, t: real): real {
    var xsep, ysep := px + Times(t, dx), py + Times(t, dy);
    Dot(xsep, ysep, xsep, ysep)
  }

  /** That is the distance of school geometry. */
  lemma SquaredAtIsDistance(x1: real, y1: real, x2: real, y2: real, xp: real, yp: real, t: real)
    ensures var x, y := x1 + t * (x2 - x1), y1 + t * (y2 - y1);
      SquaredAt(x1, y1, x2, y2, xp, yp, t) == (x - xp) * (x - xp) + (y - yp) * (y - yp)
  {
  }

  function Clamp01(t: real): real {
    if (if t > 0.0 then t else 0.0) < 1.0 then (if t > 0.0 then t else 0.0) else 1.0
  }

  function Quadratic(c: real, b: real, a: real, t: real): real {
    c + 2.0 * Times(b, t) + Times(a, Times(t, t))
  }

  /** With a > 0, a quadratic written around its vertex. */
  lemma AroundVertex(a: real, b: real, c: real, t: real)
    requires a > 0.0
    ensures var v := -b / a; Quadratic(c, b, a, t) == Times(a, Times(t - v, t - v)) + (c - Times(a, Times(v, v)))
  {
    var v := -b / a;
    assert a * v == -b;
    assert (t - v) * (t - v) == t * t - 2.0 * (v * t) + v * v;
    assert a * ((t - v) * (t - v)) == a * (t * t) - 2.0 * (a * (v * t)) + a * (v * v);
    assert a * (v * t) == (a * v) * t;
  }

  lemma DifferenceOfSquares(p: real, q: real)
    ensures Times(q - p, q + p) == Times(q, q) - Times(p, p)
  {
  }

  lemma SquareGrowsWithDistance(p: real, q: real)
    requires (0.0 <= p <= q) || (q <= p <= 0.0)
    ensures Times(p, p) <= Times(q, q)
  {
    hide Times;
    ProductSign(q - p, q + p);
    DifferenceOfSquares(p, q);
  }

  /** No parameter in [0, 1] beats the clamped vertex. */
  lemma ClampedVertexIsNearest(a: real, b: real, c: real, t: real)
    requires a > 0.0 && 0.0 <= t <= 1.0
    ensures Quadratic(c, b, a, Clamp01(-b / a)) <= Quadratic(c, b, a, t)
  {
    hide Quadratic, Times;
    var v := -b / a;
    var s := Clamp01(v);
    AroundVertex(a, b, c, s);
    AroundVertex(a, b, c, t);
    SquareGrowsWithDistance(s - v, t - v);
    var p, q := Times(s - v, s - v), Times(t - v, t - v);
    Scale(a, p, q);
    TimesOrder(a, p, 0.0);
    TimesOrder(a, q, 0.0);
  }

  /** The squared distance is a quadratic in the parameter. */
  lemma AsQuadratic(px: real, py: real, dx: real, dy: real, t: real)
    ensures SquaredFrom(px, py, dx, dy, t)
         == Quadratic(Dot(px, py, px, py), Dot(px, py, dx, dy), Dot(dx, dy, dx, dy), t)
  {
    hide Times;
    OneAxis(px, dx, t);
    OneAxis(py, dy, t);
    Distribute(Times(px, dx), Times(py, dy), t);
    Distribute(Times(dx, dx), Times(dy, dy), Times(t, t));
  }

  lemma OneAxis(p: real, d: real, t: real)
    ensures Times(p + Times(t, d), p + Times(t, d))
      == Times(p, p) + 2.0 * Times(Times(p, d), t) + Times(Times(d, d), Times(t, t))
  {
  }

  lemma LengthSign(dx: real, dy: real)
    ensures Dot(dx, dy, dx, dy) >= 0.0 && (Dot(dx, dy, dx, dy) == 0.0 ==> dx == 0.0 && dy == 0.0)
  {
    hide Times;
    ProductSign(dx, dx);
    ProductSign(dy, dy);
  }

  /** Parameter of the nearest point. Equal endpoints give 0/0 in the source; the macros max and min
      turn that NaN into 0. */
  function Nearest(px: real, py: real, dx: real, dy: real): real {
    var frac := Dot(dx, dy, dx, dy);
    if frac == 0.0 then 0.0 else Clamp01(-Dot(px, py, dx, dy) / frac)
  }

  lemma NearestIsNearest(px: real, py: real, dx: real, dy: real, t: real)
    requires 0.0 <= t <= 1.0
    ensures SquaredFrom(px, py, dx, dy, Nearest(px, py, dx, dy)) <= SquaredFrom(px, py, dx, dy, t)
  {
    hide Clamp01, Dot, Quadratic, SquaredFrom;
    LengthSign(dx, dy);
    var a, s := Dot(dx, dy, dx, dy), Nearest(px, py, dx, dy);
    if a != 0.0 {
      ClampedVertexIsNearest(a, Dot(px, py, dx, dy), Dot(px, py, px, py), t);
      AsQuadratic(px, py, dx, dy, s);
      AsQuadratic(px, py, dx, dy, t);
    } else {
      SamePoint(px, py, s, t);
    }
  }

  lemma SamePoint(px: real, py: real, s: real, t: real)
    ensures SquaredFrom(px, py, 0.0, 0.0, s) == SquaredFrom(px, py, 0.0, 0.0, t)
  {
    TimesSigns(s, 0.0);
    TimesSigns(t, 0.0);
  }

  /** distance_line_point, up to its final square root: `squared` is what the source takes the root of. */
  method SquaredDistanceLinePoint(x1: real, y1: real, x2: real, y2: real, xp: real, yp: real) returns (squared: real)
    ensures exists t :: 0.0 <= t <= 1.0 && squared == SquaredAt(x1, y1, x2, y2, xp, yp, t)
    ensures forall t :: 0.0 <= t <= 1.0 ==> squared <= SquaredAt(x1, y1, x2, y2, xp, yp, t)
  {
    hide Dot, Times;
    var dx1p, dx21, dy1p, dy21 := x1 - xp, x2 - x1, y1 - yp, y2 - y1;
    var frac := Dot(dx21, dy21, dx21, dy21);
    var lambda2 := 0.0;
    if frac != 0.0 {
      var lambda := -Dot(dx1p, dy1p, dx21, dy21) / frac;
      lambda2 := if lambda > 0.0 then lambda else 0.0;
      lambda2 := if lambda2 < 1.0 then lambda2 else 1.0;
    }
    var xsep, ysep := dx1p + Times(lambda2, dx21), dy1p + Times(lambda2, dy21);
    squared := Dot(xsep, ysep, xsep, ysep);
    assert squared == SquaredFrom(dx1p, dy1p, dx21, dy21, lambda2) == SquaredAt(x1, y1, x2, y2, xp, yp, lambda2);
    forall t | 0.0 <= t <= 1.0 ensures squared <= SquaredAt(x1, y1, x2, y2, xp, yp, t) {
      hide SquaredFrom;
      NearestIsNearest(dx1p, dy1p, dx21, dy21, t);
    }
  }
}

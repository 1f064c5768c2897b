/** Multiplication and division of reals under names, so that proofs can hide them where only laws matter. */
module Reals {

  function Times(a: real, b: real): real {
    a * b
  }

  function Over(a: real, b: real): real
    requires b != 0.0
  {
    a / b
  }

  lemma TimesSigns(p: real, q: real)
    ensures Times(-p, -q) == Times(p, q) && Times(-p, q) == -Times(p, q) && Times(p, -q) == -Times(p, q)
    ensures Times(0.0, q) == 0.0 && Times(p, 0.0) == 0.0
  {
  }

  lemma TimesOrder(p: real, q: real, r: real)
    ensures Times(p, q) == Times(q, p)
    ensures Times(p, Times(q, r)) == Times(Times(p, q), r)
  {
  }

  lemma Distribute(p: real, q: real, d: real)
    ensures Times(p + q, d) == Times(p, d) + Times(q, d)
    ensures Times(p - q, d) == Times(p, d) - Times(q, d)
    ensures Times(d, p + q) == Times(d, p) + Times(d, q)
    ensures Times(d, p - q) == Times(d, p) - Times(d, q)
  {
  }

  lemma PositiveProduct(p: real, q: real)
    requires p > 0.0 && q > 0.0
    ensures Times(p, q) > 0.0
  {
  }

  lemma ProductSign(p: real, q: real)
    requires (p >= 0.0 && q >= 0.0) || (p <= 0.0 && q <= 0.0)
    ensures Times(p, q) >= 0.0 && (p != 0.0 && q != 0.0 ==> Times(p, q) > 0.0)
  {
    hide Times;
    TimesSigns(p, q);
    if p > 0.0 && q > 0.0 { PositiveProduct(p, q); }
    if p < 0.0 && q < 0.0 { PositiveProduct(-p, -q); }
  }

  /** Multiplying by a positive factor keeps the order. */
  lemma Scale(a: real, p: real, q: real)
    requires a > 0.0
    ensures p <= q <==> Times(p, a) <= Times(q, a)
    ensures p < q <==> Times(p, a) < Times(q, a)
  {
    hide Times;
    Distribute(q, p, a);
    Distribute(p, q, a);
    TimesSigns(p, a);
    if p < q { PositiveProduct(q - p, a); }
    if q < p { PositiveProduct(p - q, a); }
  }

  lemma OverTimes(a: real, b: real)
    requires b != 0.0
    ensures Times(Over(a, b), b) == a && Over(Times(a, b), b) == a
  {
  }

  lemma OverMoves(a: real, b: real, c: real)
    requires c != 0.0
    ensures Over(Times(a, b), c) == Times(a, Over(b, c)) == Times(Over(a, c), b)
    ensures Over(-a, c) == -Over(a, c)
  {
    hide Times, Over;
    var q, r := Over(b, c), Over(a, c);
    OverTimes(b, c);
    OverTimes(a, c);
    OverTimes(Times(a, q), c);
    OverTimes(Times(r, b), c);
    OverTimes(-r, c);
    TimesOrder(a, q, c);
    TimesOrder(r, b, c);
    TimesOrder(b, c, r);
    TimesOrder(r, c, b);
    TimesSigns(r, c);
  }

  lemma OverPositive(a: real, b: real)
    requires a > 0.0 && b > 0.0
    ensures Over(a, b) > 0.0
  {
  }
}

/** The integer arithmetic behind one step of the Newton reciprocal. */
module NewtonStep {
  import opened Limbs

  /** r approximates the reciprocal of a at the scale w = b^(2n). */
  ghost predicate IsRecip(a: int, r: int, w: int) {
    a * r < w < a * (r + 2)
  }

  /** The correction u K P, at the scale of t: never more than the exact correction. */
  lemma CorrectionBelow(a: int, xh: int, tm: int, u: int, k: int, p: int, t: int)
    requires a >= 0 && p >= 0 && a * xh >= 0 && u * k <= tm * xh && tm * p <= t
    ensures (a * u) * (k * p) <= (a * xh) * t
  {
    var ap := a * p;
    MulMono(0, a, p);
    MulMono(u * k, tm * xh, ap);
    assert (u * k) * ap == (a * u) * (k * p);
    assert (tm * xh) * ap == (a * xh) * (tm * p);
    MulMono(tm * p, t, a * xh);
  }

  lemma CorrectionAbove(a: int, xh: int, tm: int, u1: int, k: int, p: int, t: int)
    requires a >= 0 && p >= 0 && a * xh >= 0 && tm * xh <= u1 * k && t <= tm * p + p
    ensures (a * xh) * (t - p) <= (a * u1) * (k * p)
  {
    var ap := a * p;
    MulMono(0, a, p);
    MulMono(tm * xh, u1 * k, ap);
    assert (u1 * k) * ap == (a * u1) * (k * p);
    assert (tm * xh) * ap == (a * xh) * (tm * p);
    MulMono(t - p, tm * p, a * xh);
  }

  lemma Squares(w: int, t: int)
    ensures (w - t) * w + (w - t) * t == w * w - t * t
  {
    Distrib(w - t, w, t);
    Distrib(w, w, t);
    Distrib(t, w, t);
  }

  lemma CancelLess(x: int, y: int, q: int)
    requires q > 0 && x * q < y * q
    ensures x < y
  {
    if x >= y {
      MulMono(y, x, q);
    }
  }

  lemma ScaledProduct(a: int, xh: int, p: int, u: int, q: int)
    ensures (a * (xh * p + u)) * q == (a * xh) * (p * q) + (a * u) * q
  {
    Distrib(a, xh * p, u);
    Distrib(q, a * (xh * p), a * u);
    Assoc(a, xh, p);
    Assoc(a * xh, p, q);
  }

  /** The step never overshoots. */
  lemma NewtonUpper(a: int, xh: int, t: int, p: int, k: int, q: int, tm: int, u: int)
    requires a >= 0 && p > 0 && q > 0 && q == k * p && 0 < t <= p * q && a * xh == p * q - t
    requires tm * p <= t && u * k <= tm * xh
    ensures a * (xh * p + u) < (p * q) * p
  {
    var w := p * q;
    ScaledProduct(a, xh, p, u, q);
    CorrectionBelow(a, xh, tm, u, k, p, t);
    Squares(w, t);
    MulPositive(t, t);
    assert (w * p) * q == w * w by { Assoc(w, p, q); }
    CancelLess(a * (xh * p + u), w * p, q);
  }

  /** ... and what it misses is small when t is below 2a. */
  lemma NewtonLower(a: int, xh: int, t: int, p: int, k: int, q: int, tm: int, u: int)
    requires a >= 0 && p > 0 && q > 0 && q == k * p && 0 < t <= p * q && a * xh == p * q - t
    requires t <= tm * p + p && tm * xh <= (u + 1) * k
    requires t * t + (p * q) * p <= a * q
    ensures (p * q) * p < a * (xh * p + u + 2)
  {
    var w := p * q;
    var z := a * (xh * p + (u + 1));
    ScaledProduct(a, xh, p, u + 1, q);
    CorrectionAbove(a, xh, tm, u + 1, k, p, t);
    NewtonLoss(a, xh, t, p, q, w, (a * (u + 1)) * q);
    assert (w * p) * q == w * w by { Assoc(w, p, q); }
    Distrib(a, xh * p + (u + 1), 1);
    Distrib(q, z, a);
    MulPositive(t, p);
    assert xh * p + (u + 1) + 1 == xh * p + u + 2;
    CancelLess(w * p, z + a, q);
  }

  lemma NewtonLoss(a: int, xh: int, t: int, p: int, q: int, w: int, c: int)
    requires a * xh == w - t && (a * xh) * (t - p) <= c && t * t + w * p <= a * q
    ensures w * w + t * p <= (a * xh) * w + c + a * q
  {
    Squares(w, t);
    Distrib(w - t, t, p);
    Distrib(p, w, t);
  }

  /** The size condition: with a at least half of p * h, t < 2a and h >= 6p, the loss fits. */
  lemma LossFits(a: int, t: int, p: int, h: int)
    requires 0 < t < 2 * a && p > 0 && a < p * h <= 2 * a && 6 * p <= h
    ensures t * t + (p * (h * h)) * p <= a * (h * h)
  {
    var n := p * h;
    assert (p * (h * h)) * p == n * n by { Assoc(p, h, h); Assoc(n, h, p); }
    MulMono(6 * p, h, h);
    Assoc(6, p, h);
    LossTerms(a, t, n, h * h);
  }

  lemma LossTerms(a: int, t: int, n: int, q: int)
    requires 0 < t < 2 * a && a < n <= 2 * a && 6 * n <= q
    ensures t * t + n * n <= a * q
  {
    FirstLoss(a, t, n);
    SecondLoss(a, n);
    MulMono(6 * n, q, a);
    Scaled(a, 6, n);
  }

  lemma FirstLoss(a: int, t: int, n: int)
    requires 0 < t < 2 * a && a < n
    ensures t * t <= 4 * (a * n)
  {
    MulMono(t, 2 * a, t);
    Scaled(t, 2, a);
    MulMono(t, 2 * a, a);
    Scaled(a, 2, a);
    MulMono(a, n, a);
  }

  lemma SecondLoss(a: int, n: int)
    requires 0 < n <= 2 * a
    ensures n * n <= 2 * (a * n)
  {
    MulMono(n, 2 * a, n);
    Scaled(n, 2, a);
  }

  lemma Scaled(x: int, k: int, y: int)
    ensures x * (k * y) == k * (x * y) && (k * y) * x == k * (x * y) && x * y == y * x
  {
  }

  /** A reciprocal at the scale n * n of a number just below n lies in [n, 2n). */
  lemma RecipTop(a: int, r: int, n: int)
    requires 0 < a < n <= 2 * a && IsRecip(a, r, n * n)
    ensures n <= r < 2 * n
  {
    assert (n - 1) * (n + 1) == n * n - 1;
    assert a * (2 * n) == (2 * a) * n;
    if r < n {
      MulMono(r + 2, n + 1, a);
      MulMono(a, n - 1, n + 1);
    }
    if r >= 2 * n {
      MulMono(2 * n, r, a);
      MulMono(n, 2 * a, n);
    }
  }
}

/** Subquadratic division: multiplication by an approximate inverse, then a few increments. */
module LimbDivlarge {
  import opened Limbs
  import opened LimbKernels
  import opened LimbUnary
  import opened LimbProduct
  import opened LimbDivnorm
  import opened LimbRecip
  import opened NewtonStep

  // ---- the quotient estimate, in integers: w = b^(2n), e the scale at which the product is cut

  /** q e <= inv a' never overshoots. */
  lemma CutBelow(a: int, inv: int, e: int, d: int, q: int, w: int)
    requires a >= 0 && d >= 0 && inv * d <= w && q * e <= inv * a
    ensures (q * e) * d <= w * a
  {
    MulMono(q * e, inv * a, d);
    MulMono(inv * d, w, a);
    assert (inv * a) * d == (inv * d) * a;
  }

  /** ... and loses at most three. */
  lemma CutAbove(a: int, inv: int, e: int, d: int, q: int, w: int)
    requires 0 <= a <= e && d >= 0 && w <= d * (inv + 2) && inv * a <= (q + 1) * e
    ensures w * a <= ((q + 3) * e) * d
  {
    MulMono(w, d * (inv + 2), a);
    Distrib(d, inv, 2);
    Distrib(a, d * inv, d * 2);
    MulMono(inv * a, (q + 1) * e, d);
    assert (d * inv) * a == (inv * a) * d;
    MulMono(a, e, 2 * d);
    assert (d * 2) * a == a * (2 * d);
    Distrib(e, q + 1, 2);
    Distrib(d, (q + 1) * e, 2 * e);
    assert (2 * e) * d == e * (2 * d);
  }

  lemma CancelLeq(x: int, y: int, q: int)
    requires q > 0 && x * q <= y * q
    ensures x <= y
  {
    if x > y {
      MulStrict(y, x, q);
    }
  }

  /** The divisor was extended by m: w = e m s. */
  lemma ExtendedBelow(x: int, e: int, d: int, m: int, s: int, a: int, w: int)
    requires (x * e) * (d * m) <= w * a && w == (e * m) * s && w > 0 && s >= 0
    ensures x * d <= a * s
  {
    MulMono((x * e) * (d * m), w * a, s);
    assert ((x * e) * (d * m)) * s == (x * d) * ((e * m) * s);
    assert (w * a) * s == (a * s) * w;
    CancelLeq(x * d, a * s, w);
  }

  lemma ExtendedAbove(x: int, e: int, d: int, m: int, s: int, a: int, w: int)
    requires w * a <= (x * e) * (d * m) && w == (e * m) * s && w > 0 && s >= 0
    ensures a * s <= x * d
  {
    MulMono(w * a, (x * e) * (d * m), s);
    assert ((x * e) * (d * m)) * s == (x * d) * ((e * m) * s);
    assert (w * a) * s == (a * s) * w;
    CancelLeq(a * s, x * d, w);
  }

  /** The divisor was cut by m and rounded up to d': w m = e s. */
  lemma CutDivisorBelow(x: int, e: int, d: int, d': int, m: int, s: int, a: int, w: int)
    requires (x * e) * d' <= w * a && w * m == e * s && e > 0 && m >= 0 && x >= 0 && d <= d' * m
    ensures x * d <= a * s
  {
    MulMono((x * e) * d', w * a, m);
    assert ((x * e) * d') * m == (x * e) * (d' * m);
    assert (w * a) * m == (a * s) * e;
    MulMono(0, x, e);
    MulMono(d, d' * m, x * e);
    assert (x * e) * d == (x * d) * e;
    CancelLeq(x * d, a * s, e);
  }

  lemma CutDivisorAbove(x: int, e: int, d: int, d': int, m: int, s: int, a: int, w: int)
    requires w * a <= (x * e) * d' && w * m == e * s && e > 0 && m >= 0 && x >= 0 && d' * m <= d + m
    ensures a * s <= x * d + x * m
  {
    MulMono(w * a, (x * e) * d', m);
    assert ((x * e) * d') * m == (x * e) * (d' * m);
    assert (w * a) * m == (a * s) * e;
    MulMono(0, x, e);
    MulMono(d' * m, d + m, x * e);
    assert (x * e) * (d + m) == (x * d + x * m) * e;
    CancelLeq(a * s, x * d + x * m, e);
  }

  // ---- the estimate at the sizes of mp_divnorm_large

  /** inv approximates the inverse of dv, which is the divisor d brought to n limbs: extended by zeros, or cut
      and rounded up. */
  ghost predicate Inverse(b: nat, d: nat, nb: nat, n: nat, dv: nat, inv: nat) {
    && inv * dv <= Pow(b, 2 * n) <= dv * (inv + 2)
    && if n >= nb then dv == d * Pow(b, n - nb) else d <= dv * Pow(b, nb - n) <= d + Pow(b, nb - n)
  }

  /** The number of limbs of the inverse. */
  function InverseSize(nq: nat, nb: nat): nat {
    if nq < nb then nq + 1 else nq
  }

  lemma PowMono(b: nat, m: nat, n: nat)
    requires b > 0 && m <= n
    ensures Pow(b, m) <= Pow(b, n)
  {
    hide Pow;
    PowAdd(b, m, n - m);
    PowPositive(b, n - m);
    MulMono(1, Pow(b, n - m), Pow(b, m));
  }

  /** Five times b^(nb - 1) is at most the divisor. */
  lemma DivisorAbove(b: nat, nb: nat, d: nat)
    requires 10 <= b && nb > 0 && Pow(b, nb) <= 2 * d
    ensures 5 * Pow(b, nb - 1) <= d
  {
    MulMono(10, b, Pow(b, nb - 1));
  }

  lemma EstimateExtended(b: nat, nb: nat, nq: nat, n: nat, d: nat, dv: nat, inv: nat, a: nat, ah: nat, q: nat)
    requires 10 <= b && nb > 0 && nq > 0 && n == InverseSize(nq, nb) && n >= nb && Pow(b, nb) <= 2 * d
    requires Inverse(b, d, nb, n, dv, inv) && ah < Pow(b, n + 1)
    requires n <= nq + nb - 1
      && ah * Pow(b, nq + nb - n - 1) <= a < ah * Pow(b, nq + nb - n - 1) + Pow(b, nq + nb - n - 1)
    requires q * Pow(b, 2 * n + 1 - nq) <= inv * ah < (q + 1) * Pow(b, 2 * n + 1 - nq)
    ensures q * d <= a < (q + 5) * d
  {
    hide Pow;
    var e, m, s, w := Pow(b, 2 * n + 1 - nq), Pow(b, n - nb), Pow(b, nq + nb - n - 1), Pow(b, 2 * n);
    PowAdd(b, 2 * n + 1 - nq, n - nb);
    PowAdd(b, 2 * n + 1 - nq + (n - nb), nq + nb - n - 1);
    PowPositive(b, 2 * n);
    PowMono(b, n + 1, 2 * n + 1 - nq);
    CutBelow(ah, inv, e, dv, q, w);
    ExtendedBelow(q, e, d, m, s, ah, w);
    CutAbove(ah, inv, e, dv, q, w);
    ExtendedAbove(q + 3, e, d, m, s, ah, w);
    DivisorAbove(b, nb, d);
    PowMono(b, nq + nb - n - 1, nb - 1);
    Distrib(d, q + 3, 2);
  }

  lemma EstimateCut(b: nat, nb: nat, nq: nat, n: nat, d: nat, dv: nat, inv: nat, a: nat, ah: nat, q: nat)
    requires 10 <= b && nb > 0 && nq > 0 && n == InverseSize(nq, nb) && n < nb && Pow(b, nb) <= 2 * d
    requires Inverse(b, d, nb, n, dv, inv) && ah < Pow(b, n + 1) && a < Pow(b, nq + nb)
    requires ah * Pow(b, nb - 2) <= a < ah * Pow(b, nb - 2) + Pow(b, nb - 2)
    requires q * Pow(b, n + 2) <= inv * ah < (q + 1) * Pow(b, n + 2)
    ensures q * d <= a < (q + 5) * d
  {
    hide Pow;
    var e, m, s, w := Pow(b, n + 2), Pow(b, nb - n), Pow(b, nb - 2), Pow(b, 2 * n);
    PowAdd(b, 2 * n, nb - n);
    PowAdd(b, n + 2, nb - 2);
    PowPositive(b, n + 2);
    PowMono(b, n + 1, n + 2);
    CutBelow(ah, inv, e, dv, q, w);
    CutDivisorBelow(q, e, d, dv, m, s, ah, w);
    CutAbove(ah, inv, e, dv, q, w);
    CutDivisorAbove(q + 3, e, d, dv, m, s, ah, w);
    DivisorAbove(b, nb, d);
    PowMono(b, nb - 2, nb - 1);
    CutLoss(b, nb, nq, d, a, q);
    Distrib(d, q + 3, 2);
  }

  /** What the rounded divisor costs. */
  lemma CutLoss(b: nat, nb: nat, nq: nat, d: nat, a: nat, q: nat)
    requires 10 <= b && nq + 1 <= nb && Pow(b, nb) <= 2 * d && a < Pow(b, nq + nb) && q * d <= a
    ensures (q + 3) * Pow(b, nb - nq - 1) <= d
  {
    hide Pow;
    var p := Pow(b, nq);
    PowPositive(b, nq);
    PowAdd(b, nq, nb);
    MulMono(Pow(b, nb), 2 * d, p);
    assert p * (2 * d) == (2 * p) * d;
    if q >= 2 * p {
      MulMono(2 * p, q, d);
    }
    MulMono(q + 3, 5 * p, Pow(b, nb - nq - 1));
    PowAdd(b, nq, nb - nq - 1);
    assert (5 * p) * Pow(b, nb - nq - 1) == 5 * (p * Pow(b, nb - nq - 1));
    DivisorAbove(b, nb, d);
  }

  // ---- the inverse

  lemma ExtendedValue(b: nat, t: seq<nat>, y: seq<nat>)
    requires Normalised(b, y) && |y| <= |t| && Digits(b, t)
    requires t[|t| - |y|..] == y && forall i :: 0 <= i < |t| - |y| ==> t[i] == 0
    ensures Normalised(b, t) && Val(b, t) == Val(b, y) * Pow(b, |t| - |y|)
  {
    hide Val, Pow;
    var m := |t| - |y|;
    ValSplit(b, t, m);
    ValZeros(b, t[..m]);
    assert t[|t| - 1] == y[|y| - 1] by { assert t[|t| - 1] == t[m..][|y| - 1]; }
  }

  /** A larger number of the same length has no smaller top limb. */
  lemma TopGrows(b: nat, s: seq<nat>, t: seq<nat>)
    requires b > 0 && |s| == |t| > 0 && Digits(b, s) && Digits(b, t) && Val(b, s) <= Val(b, t)
    ensures s[|s| - 1] <= t[|s| - 1]
  {
    hide Val, Pow;
    var n := |s| - 1;
    ValTop(b, s);
    ValTop(b, t);
    if t[n] < s[n] {
      MulMono(t[n] + 1, s[n], Pow(b, n));
      Distrib(Pow(b, n), t[n], 1);
    }
  }

  lemma CutValue(b: nat, y: seq<nat>, n: nat, t: seq<nat>, k: nat)
    requires Normalised(b, y) && 0 < n < |y| && |t| == n && Digits(b, t) && k <= 1
    requires Val(b, t) + Pow(b, n) * k == Val(b, y[|y| - n..]) + 1
    ensures if k != 0 then Val(b, t) == 0 else Normalised(b, t)
    ensures var dv := if k != 0 then Pow(b, n) else Val(b, t);
      Val(b, y) <= dv * Pow(b, |y| - n) <= Val(b, y) + Pow(b, |y| - n)
  {
    hide Val, Pow;
    var yh, m := y[|y| - n..], Pow(b, |y| - n);
    ValBound(b, yh);
    ValSplit(b, y, |y| - n);
    ValBound(b, y[..|y| - n]);
    Distrib(m, Val(b, yh), 1);
    if k == 0 {
      assert Pow(b, n) * k == 0;
      TopGrows(b, yh, t);
      assert yh[n - 1] == y[|y| - 1];
    } else {
      assert Pow(b, n) * k == Pow(b, n);
    }
  }

  /** The divisor at n limbs: extended by zeros, or cut and incremented; full says that the increment carried
      out, so that the number is b^n. */
  method ScaledDivisor(b: nat, y: seq<nat>, n: nat) returns (t: array<nat>, full: bool)
    requires Normalised(b, y) && n > 0
    ensures fresh(t) && t.Length == n && Digits(b, t[..])
    ensures full ==> n < |y| && Val(b, t[..]) == 0
    ensures !full ==> Normalised(b, t[..])
    ensures n >= |y| ==> Val(b, t[..]) == Val(b, y) * Pow(b, n - |y|)
    ensures n < |y| ==> var dv := if full then Pow(b, n) else Val(b, t[..]);
      Val(b, y) <= dv * Pow(b, |y| - n) <= Val(b, y) + Pow(b, |y| - n)
  {
    hide Val, Pow, SameOutside;
    var nb := |y|;
    t := new nat[n](_ => 0);
    full := false;
    if n >= nb {
      ghost var s := t[..];
      CopyLimbs(b, t, n - nb, y);
      assert forall i :: 0 <= i < n - nb ==> t[..][i] == 0 by { SameSlice(s, t[..], n - nb, n, 0, n - nb); }
      assert t[..][n - nb..] == y;
      ExtendedValue(b, t[..], y);
    } else {
      CopyLimbs(b, t, 0, y[nb - n..]);
      ghost var s := t[..];
      assert t[0..n] == s == y[nb - n..];
      var k := MpAddUi(b, t, 0, 1, n);
      full := k != 0;
      assert t[0..n] == t[..];
      CutValue(b, y, n, t[..], k);
    }
  }

  /** The inverse of the scaled divisor: by mp_recip, or b^n when the scaled divisor is b^n. */
  method ApproximateInverse(b: nat, y: seq<nat>, n: nat) returns (inv: array<nat>, ghost dv: nat)
    requires 6 <= b && Normalised(b, y) && n > 0
    ensures fresh(inv) && inv.Length == n + 1 && Digits(b, inv[..])
    ensures Inverse(b, Val(b, y), |y|, n, dv, Val(b, inv[..]))
  {
    hide Val, Pow, SameOutside, IsRecip, Normalised;
    var t, full := ScaledDivisor(b, y, n);
    inv := new nat[n + 1](_ => 0);
    if full {
      inv[n] := 1;
      ValUnit(b, inv[..], n);
      dv := Pow(b, n);
      PowDouble(b, n);
      Distrib(dv, dv, 2);
    } else {
      MpRecip(b, inv, 0, t[..]);
      dv := Val(b, t[..]);
      assert inv[..][0..n + 1] == inv[..];
      RecipWeak(dv, Val(b, inv[..]), Pow(b, 2 * n));
    }
  }

  lemma RecipWeak(a: nat, r: nat, w: nat)
    requires IsRecip(a, r, w)
    ensures r * a <= w <= a * (r + 2)
  {
  }

  /** The top nq + 1 limbs of the product with the inverse: the quotient, too small by less than five. */
  method EstimateQuotient(b: nat, x: seq<nat>, y: seq<nat>) returns (q: seq<nat>)
    requires 10 <= b && Normalised(b, y) && Digits(b, x) && |y| < |x|
    ensures |q| == |x| - |y| + 1 && Digits(b, q)
    ensures Val(b, q) * Val(b, y) <= Val(b, x) < (Val(b, q) + 5) * Val(b, y)
  {
    hide Val, Pow, SameOutside, Inverse;
    var na, nb := |x|, |y|;
    var nq := na - nb;
    var n := InverseSize(nq, nb);
    var inv, dv := ApproximateInverse(b, y, n);
    var t := new nat[2 * (n + 1)](_ => 0);
    MpMul(b, t, 0, inv[..], x[na - (n + 1)..]);
    assert t[0..2 * (n + 1)] == t[..];
    q := t[2 * n + 1 - nq..];
    EstimateFromLimbs(b, x, y, n, dv, Val(b, inv[..]), t[..]);
  }

  lemma EstimateFromLimbs(b: nat, x: seq<nat>, y: seq<nat>, n: nat, dv: nat, inv: nat, t: seq<nat>)
    requires 10 <= b && Normalised(b, y) && Digits(b, x) && |y| < |x| && n == InverseSize(|x| - |y|, |y|)
    requires |t| == 2 * (n + 1) && Digits(b, t) && Val(b, t) == inv * Val(b, x[|x| - (n + 1)..])
    requires Inverse(b, Val(b, y), |y|, n, dv, inv)
    ensures var q := Val(b, t[2 * n + 1 - (|x| - |y|)..]); q * Val(b, y) <= Val(b, x) < (q + 5) * Val(b, y)
  {
    hide Val, Pow, Inverse, Digits;
    var na, nb := |x|, |y|;
    var nq, s, e := na - nb, na - (n + 1), 2 * n + 1 - (na - nb);
    HighPart(b, x, s);
    HighPart(b, t, e);
    ValBound(b, x);
    NormalisedBounds(b, y);
    EstimateSizes(b, nb, nq, n, Val(b, y), dv, inv, Val(b, x), Val(b, x[s..]), Val(b, t[e..]), s, e);
  }

  lemma EstimateSizes(b: nat, nb: nat, nq: nat, n: nat, d: nat, dv: nat, inv: nat, a: nat, ah: nat, q: nat, s: nat,
      e: nat)
    requires 10 <= b && nb > 0 && nq > 0 && n == InverseSize(nq, nb) && Pow(b, nb) <= 2 * d
    requires Inverse(b, d, nb, n, dv, inv) && ah < Pow(b, n + 1) && a < Pow(b, nq + nb)
    requires s == nq + nb - n - 1 && e == 2 * n + 1 - nq
    requires ah * Pow(b, s) <= a < ah * Pow(b, s) + Pow(b, s) && q * Pow(b, e) <= inv * ah < (q + 1) * Pow(b, e)
    ensures q * d <= a < (q + 5) * d
  {
    hide Val, Pow, Inverse;
    if n >= nb {
      EstimateExtended(b, nb, nq, n, d, dv, inv, a, ah, q);
    } else {
      EstimateCut(b, nb, nq, n, d, dv, inv, a, ah, q);
    }
  }

  // ---- the remainder and the increments

  /** A difference computed on the low limbs only is the whole difference when that fits. */
  lemma LowDifference(p: int, a: int, ah: int, al: int, t: int, th: int, tl: int, v: int, k: int)
    requires a == al + p * ah && t == tl + p * th && v - p * k == al - tl && 0 <= v < p && 0 <= a - t < p
    ensures v == a - t
  {
    var j := ah - th - k;
    Distrib(p, ah - th, k);
    Distrib(p, ah, th);
    assert a - t == v + p * j;
    if j >= 1 {
      MulMono(1, j, p);
    } else if j <= -1 {
      MulMono(j, -1, p);
    }
  }

  /** The quotient is below 2 b^nq. */
  lemma QuotientBelow(b: nat, nb: nat, nq: nat, d: nat, a: nat, q: nat)
    requires b > 0 && 0 < Pow(b, nb) <= 2 * d && a < Pow(b, nq + nb) && q * d <= a
    ensures q < 2 * Pow(b, nq)
  {
    hide Pow;
    var p := Pow(b, nq);
    PowAdd(b, nq, nb);
    MulMono(Pow(b, nb), 2 * d, p);
    assert p * (2 * d) == (2 * p) * d;
    if q >= 2 * p {
      MulMono(2 * p, q, d);
    }
  }

  lemma QuotientTop(b: nat, q: seq<nat>, nq: nat)
    requires 1 < b && nq < |q| && Val(b, q[..nq + 1]) < 2 * Pow(b, nq)
    ensures q[nq] <= 1
  {
    hide Val, Pow;
    ValPrefix(b, q, nq);
    if q[nq] >= 2 {
      MulMono(2, q[nq], Pow(b, nq));
    }
  }

  /** a[off..off + nb + 1] = a - q y on the low limbs */
  method SubtractProduct(b: nat, a: array<nat>, off: nat, na: nat, q: seq<nat>, y: seq<nat>)
    requires 5 < b && Normalised(b, y) && |y| < na && off + na <= a.Length && Digits(b, a[..])
    requires |q| == na - |y| + 1 && Digits(b, q)
    requires Val(b, q) * Val(b, y) <= Val(b, a[off..off + na]) < (Val(b, q) + 5) * Val(b, y)
    modifies a
    ensures Digits(b, a[..]) && SameOutside(old(a[..]), a[..], off, off + na)
    ensures Val(b, a[off..off + |y| + 1]) == old(Val(b, a[off..off + na])) - Val(b, q) * Val(b, y)
  {
    hide Val, Pow, SameOutside;
    var nb := |y|;
    ghost var s := a[..];
    var t := new nat[na + 1](_ => 0);
    MpMul(b, t, 0, q, y);
    var ts := t[..];
    assert t[0..na + 1] == ts;
    var k := MpSub(b, a, off, ts[..nb + 1], 0);
    ghost var u := a[..];
    assert a[off..off + nb + 1] == u[off..off + nb + 1];
    FitsAbove(b, y, Val(b, s[off..off + na]), Val(b, q));
    LowLimbs(b, s, u, off, nb + 1, na, ts, k);
    SameOutsideWider(s, u, off, off + nb + 1, off, off + na);
  }

  /** The subtraction of ts, on the m low limbs of the segment only. */
  lemma LowLimbs(b: nat, s: seq<nat>, u: seq<nat>, off: nat, m: nat, na: nat, ts: seq<nat>, k: nat)
    requires b > 0 && m <= na && off + na <= |s| == |u| && Digits(b, u) && m <= |ts|
    requires Val(b, u[off..off + m]) - Pow(b, m) * k == Val(b, s[off..off + m]) - Val(b, ts[..m])
    requires 0 <= Val(b, s[off..off + na]) - Val(b, ts) < Pow(b, m)
    ensures Val(b, u[off..off + m]) == Val(b, s[off..off + na]) - Val(b, ts)
  {
    hide Val, Pow;
    SliceSplit(b, s, off, off + m, off + na);
    ValSplit(b, ts, m);
    ValBound(b, u[off..off + m]);
    LowDifference(Pow(b, m), Val(b, s[off..off + na]), Val(b, s[off + m..off + na]), Val(b, s[off..off + m]),
      Val(b, ts), Val(b, ts[m..]), Val(b, ts[..m]), Val(b, u[off..off + m]), k);
  }

  lemma FitsAbove(b: nat, y: seq<nat>, a: nat, q: nat)
    requires 5 < b && Normalised(b, y) && a < (q + 5) * Val(b, y)
    ensures a - q * Val(b, y) < Pow(b, |y| + 1)
  {
    hide Val, Pow;
    NormalisedBounds(b, y);
    Distrib(Val(b, y), q, 5);
    PowNext(b, |y|);
    MulMono(5, b, Pow(b, |y|));
  }

  /** One increment: a number of nb + 1 limbs that is at least the divisor loses the divisor. */
  method SubtractDivisor(b: nat, a: array<nat>, off: nat, y: seq<nat>)
    requires 1 < b && Digits(b, y) && off + |y| < a.Length && Digits(b, a[..])
      && Val(b, a[off..off + |y| + 1]) >= Val(b, y)
    modifies a
    ensures Digits(b, a[..]) && SameOutside(old(a[..]), a[..], off, off + |y| + 1)
    ensures Val(b, a[off..off + |y| + 1]) == old(Val(b, a[off..off + |y| + 1])) - Val(b, y)
  {
    hide Val, Pow, SameOutside;
    var nb := |y|;
    ghost var s := a[..];
    var k := MpSub(b, a, off, y, 0);
    ghost var t := a[..];
    SameAt(s, t, off, off + nb);
    WindowSplit(b, s, off, nb);
    WindowSplit(b, t, off, nb);
    var top := a[off + nb];
    assert a[off..off + nb] == t[off..off + nb];
    BorrowFits(Pow(b, nb), Val(b, s[off..off + nb]), top, Val(b, y), Val(b, t[off..off + nb]), k);
    WrapOnce(b, top - k);
    a[off + nb] := (top - k) % b;
    assert a[..] == t[off + nb := top - k];
    Replaced(b, s, t, a[..], off, nb, top - k);
    WindowSplit(b, a[..], off, nb);
    assert a[off..off + nb + 1] == a[..][off..off + nb + 1];
  }

  lemma BorrowFits(p: nat, lo: nat, hi: nat, d: nat, lo': nat, k: nat)
    requires lo + p * hi >= d && lo' - p * k == lo - d && lo' < p
    ensures k <= hi && lo' + p * (hi - k) == lo + p * hi - d
  {
    Distrib(p, hi, k);
    if k > hi {
      MulMono(hi - k, -1, p);
    }
  }

  /** The increment loop of mp_divnorm_large: while the remainder is not below the divisor, subtract it and
      count it in the quotient. */
  method IncrementQuotient(b: nat, q: array<nat>, a: array<nat>, off: nat, na: nat, y: seq<nat>, ghost total: nat)
    returns (ghost increments: nat)
    requires 2 < b && Normalised(b, y) && |y| < na && off + na <= a.Length && na - |y| < q.Length && q != a
    requires Digits(b, q[..]) && Digits(b, a[..]) && total < Pow(b, na)
    requires Val(b, q[..na - |y| + 1]) * Val(b, y) + Val(b, a[off..off + |y| + 1]) == total
    requires total < (Val(b, q[..na - |y| + 1]) + 5) * Val(b, y)
    modifies q, a
    ensures Digits(b, q[..]) && Digits(b, a[..]) && q[na - |y| + 1..] == old(q[na - |y| + 1..])
    ensures SameOutside(old(a[..]), a[..], off, off + na)
    ensures Val(b, a[off..off + |y|]) < Val(b, y) && q[na - |y|] <= 1
    ensures Val(b, q[..na - |y| + 1]) * Val(b, y) + Val(b, a[off..off + |y|]) == total
    ensures increments < 5
  {
    hide Val, Pow, SameOutside;
    var nb, nq := |y|, na - |y|;
    ghost var s, q0, d := a[..], q[..], Val(b, y);
    ghost var e := Val(b, q0[..nq + 1]);
    increments := 0;
    NormalisedBounds(b, y);
    SameOutsideRefl(s, off, off + na);
    assert q[..nq + 1] == q0[..nq + 1] && a[off..off + nb + 1] == s[off..off + nb + 1];
    while true
      invariant Digits(b, q[..]) && Digits(b, a[..]) && q[nq + 1..] == q0[nq + 1..]
        && SameOutside(s, a[..], off, off + na)
      invariant Val(b, q[..][..nq + 1]) == e + increments
      invariant (e + increments) * d + Val(b, a[..][off..off + nb + 1]) == total
      decreases Val(b, a[..][off..off + nb + 1])
    {
      ghost var t, p := a[..], q[..];
      WindowSplit(b, t, off, nb);
      if a[off + nb] == 0 {
        var c := MpCmp(b, a[off..off + nb], y);
        if c < 0 {
          break;
        }
      }
      assert Val(b, t[off..off + nb + 1]) >= d by { AboveDivisor(b, nb, Val(b, t[off..off + nb]), t[off + nb], d); }
      SubtractDivisor(b, a, off, y);
      SameOutsideGrows(s, t, a[..], off, off + nb + 1, off, off + na);
      var k := MpAddUi(b, q, 0, 1, nq + 1);
      Distrib(d, e + increments, 1);
      QuotientBelow(b, nb, nq, d, total, e + increments + 1);
      NoOverflow(b, p, q[..], nq, k);
      increments := increments + 1;
    }
    FewIncrements(e, increments, d, total);
    assert q[..][..nq + 1] == q[..nq + 1] && a[..][off..off + nb] == a[off..off + nb];
    QuotientBelow(b, nb, nq, d, total, e + increments);
    QuotientTop(b, q[..], nq);
  }

  lemma AboveDivisor(b: nat, nb: nat, lo: nat, hi: nat, d: nat)
    requires d < Pow(b, nb) && (hi == 0 ==> lo >= d)
    ensures lo + Pow(b, nb) * hi >= d
  {
    if hi > 0 {
      MulMono(1, hi, Pow(b, nb));
    }
  }

  lemma NoOverflow(b: nat, p: seq<nat>, q: seq<nat>, nq: nat, k: nat)
    requires 2 < b && nq < |p| == |q| && SameOutside(p, q, 0, nq + 1) && Digits(b, q)
    requires Val(b, q[0..nq + 1]) + Pow(b, nq + 1) * k == Val(b, p[0..nq + 1]) + 1
    requires Val(b, p[..nq + 1]) + 1 < 2 * Pow(b, nq)
    ensures Val(b, q[..nq + 1]) == Val(b, p[..nq + 1]) + 1 && q[nq + 1..] == p[nq + 1..]
  {
    hide Val, Pow;
    assert p[0..nq + 1] == p[..nq + 1] && q[0..nq + 1] == q[..nq + 1];
    PowNext(b, nq);
    NoTop(b, Pow(b, nq), k, Val(b, p[..nq + 1]) + 1);
  }

  lemma FewIncrements(e: nat, k: nat, d: nat, total: nat)
    requires (e + k) * d <= total < (e + 5) * d
    ensures k < 5
  {
    if k >= 5 {
      MulMono(e + 5, e + k, d);
    }
  }

  /** mp_divnorm_large */
  method DivnormLarge(b: nat, q: array<nat>, a: array<nat>, off: nat, na: nat, y: seq<nat>)
    returns (ghost increments: nat)
    requires 10 <= b && Normalised(b, y) && |y| < na && off + na <= a.Length && na - |y| < q.Length && q != a
    requires Digits(b, q[..]) && Digits(b, a[..])
    modifies q, a
    ensures Digits(b, q[..]) && Digits(b, a[..]) && q[na - |y| + 1..] == old(q[na - |y| + 1..])
    ensures SameOutside(old(a[..]), a[..], off, off + na)
    ensures Val(b, a[off..off + |y|]) < Val(b, y) && q[na - |y|] <= 1
    ensures old(Val(b, a[off..off + na])) == Val(b, q[..na - |y| + 1]) * Val(b, y) + Val(b, a[off..off + |y|])
    ensures increments < 5
  {
    hide Val, Pow, SameOutside, Normalised;
    var nb, nq := |y|, na - |y|;
    ghost var s, q0 := a[..], q[..];
    ghost var total := Val(b, s[off..off + na]);
    ValBound(b, s[off..off + na]);
    var est := EstimateQuotient(b, a[off..off + na], y);
    CopyLimbs(b, q, 0, est);
    ghost var q1 := q[..];
    assert q1[..nq + 1] == est && q1[nq + 1..] == q0[nq + 1..] by { CopiedPrefix(q0, q1, est); }
    SubtractProduct(b, a, off, na, est, y);
    ghost var t := a[..];
    assert q[..nq + 1] == est;
    increments := IncrementQuotient(b, q, a, off, na, y, total);
    SameOutsideTrans(s, t, a[..], off, off + na);
    assert q[nq + 1..] == q1[nq + 1..];
  }

  lemma CopiedPrefix(p: seq<nat>, q: seq<nat>, x: seq<nat>)
    requires |x| <= |p| == |q| && SameOutside(p, q, 0, 0 + |x|) && q[0..0 + |x|] == x
    ensures q[..|x|] == x && q[|x|..] == p[|x|..]
  {
  }

  const DIVNORM_LARGE_THRESHOLD := 50

  /** mp_divnorm */
  method MpDivnorm(b: nat, q: array<nat>, a: array<nat>, off: nat, na: nat, y: seq<nat>)
    requires 10 <= b && Normalised(b, y) && |y| <= na && off + na <= a.Length && na - |y| < q.Length && q != a
    requires Digits(b, q[..]) && Digits(b, a[..])
    modifies q, a
    ensures Digits(b, q[..]) && Digits(b, a[..]) && q[na - |y| + 1..] == old(q[na - |y| + 1..])
    ensures SameOutside(old(a[..]), a[..], off, off + na)
    ensures Val(b, a[off..off + |y|]) < Val(b, y) && q[na - |y|] <= 1
    ensures old(Val(b, a[off..off + na])) == Val(b, q[..na - |y| + 1]) * Val(b, y) + Val(b, a[off..off + |y|])
  {
    hide Val, Pow, SameOutside;
    if |y| > 1 && na - |y| >= DIVNORM_LARGE_THRESHOLD && |y| >= DIVNORM_LARGE_THRESHOLD {
      ghost var _ := DivnormLarge(b, q, a, off, na, y);
    } else {
      DivnormBase(b, q, a, off, na, y);
    }
  }
}

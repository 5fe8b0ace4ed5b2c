/** Newton reciprocal of a normalised number. */
module LimbRecip {
  import opened Limbs
  import opened LimbKernels
  import opened LimbUnary
  import opened LimbProduct
  import opened LimbDivnorm
  import opened NewtonStep

  /** A divisor: top limb at least b / 2. */
  ghost predicate Normalised(b: nat, a: seq<nat>) {
    1 < b && a != [] && Digits(b, a) && b <= 2 * a[|a| - 1]
  }

  lemma NormalisedBounds(b: nat, a: seq<nat>)
    requires Normalised(b, a)
    ensures 0 < Val(b, a) < Pow(b, |a|) <= 2 * Val(b, a)
  {
    hide Val, Pow;
    ValBound(b, a);
    ValTop(b, a);
    PowNext(b, |a| - 1);
    PowPositive(b, |a|);
    DoubleTop(b, Pow(b, |a| - 1), a[|a| - 1]);
  }

  /** The n + 1 limbs at off are the reciprocal of a, and the top limb is 1. */
  ghost predicate Recip(b: nat, a: seq<nat>, r: seq<nat>, off: nat) {
    && off + |a| < |r| && IsRecip(Val(b, a), Val(b, r[off..off + |a| + 1]), Pow(b, 2 * |a|)) && r[off + |a|] == 1
  }

  /** A number in [b^n, 2 b^n) has top limb 1. */
  lemma TopIsOne(b: nat, s: seq<nat>, off: nat, n: nat)
    requires 1 < b && off + n < |s| && Digits(b, s) && Pow(b, n) <= Val(b, s[off..off + n + 1]) < 2 * Pow(b, n)
    ensures s[off + n] == 1
  {
    hide Val, Pow;
    WindowSplit(b, s, off, n);
    var p := Pow(b, n);
    if s[off + n] >= 2 {
      MulMono(2, s[off + n], p);
    }
  }

  // ---- the base case: division of b^(2n)

  /** The quotient of n * n by a, less one when the division is exact. */
  lemma BaseIsRecip(a: int, w: int, q: int, r: int)
    requires a > 0 && w == q * a + r && 0 <= r < a
    ensures IsRecip(a, if r == 0 then q - 1 else q, w)
  {
    Distrib(a, q, 1);
    Distrib(a, q, 2);
  }

  lemma PowDouble(b: nat, n: nat)
    ensures Pow(b, 2 * n) == Pow(b, n) * Pow(b, n)
  {
    PowAdd(b, n, n);
  }

  /** b^n written as n zero limbs and a one */
  lemma ValUnit(b: nat, s: seq<nat>, n: nat)
    requires |s| == n + 1 && s[n] == 1 && forall i :: 0 <= i < n ==> s[i] == 0
    ensures Val(b, s) == Pow(b, n)
  {
    assert s[..n + 1] == s;
    ValPrefix(b, s, n);
    ValZeros(b, s[..n]);
  }

  /** The quotient of b^(2n) by a fits in n + 1 limbs. */
  lemma QuotientShort(b: nat, a: seq<nat>, t: seq<nat>, r: nat)
    requires 2 < b && Normalised(b, a) && |t| == |a| + 2 && Val(b, t) * Val(b, a) + r == Pow(b, 2 * |a|)
    ensures Val(b, t[..|a| + 1]) == Val(b, t)
  {
    hide Val, Pow;
    var n := |a|;
    NormalisedBounds(b, a);
    PowDouble(b, n);
    assert t[..n + 2] == t;
    ValPrefix(b, t, n + 1);
    PowNext(b, n);
    QuotientBound(Val(b, a), Pow(b, n), Val(b, t), r);
    NoTop(b, Pow(b, n), t[n + 1], Val(b, t));
  }

  lemma QuotientBound(a: int, p: int, q: int, r: int)
    requires 0 < a < p <= 2 * a && q * a + r == p * p && r >= 0
    ensures q <= 2 * p
  {
    MulMono(p, 2 * a, p);
    assert (2 * a) * p == (2 * p) * a;
    if q > 2 * p {
      MulStrict(2 * p, q, a);
    }
  }

  lemma NoTop(b: nat, p: nat, top: nat, v: nat)
    requires 2 < b && p > 0 && v <= 2 * p && (b * p) * top <= v
    ensures top == 0
  {
    if top >= 1 {
      MulMono(1, top, b * p);
      MulMono(3, b, p);
    }
  }

  /** b^(2n) divided by a, and whether the division is exact */
  method UnitQuotient(b: nat, a: seq<nat>) returns (q: seq<nat>, exact: bool)
    requires 2 < b && Normalised(b, a)
    ensures |q| == |a| + 1 && Digits(b, q) && Val(b, q) > 0
    ensures IsRecip(Val(b, a), if exact then Val(b, q) - 1 else Val(b, q), Pow(b, 2 * |a|))
  {
    hide Val, Pow, IsRecip, SameOutside, Left;
    var n := |a|;
    var u := new nat[2 * n + 1](_ => 0);
    u[2 * n] := 1;
    ValUnit(b, u[..], 2 * n);
    var t := new nat[n + 2](_ => 0);
    assert u[0..2 * n + 1] == u[..];
    DivnormBase(b, t, u, 0, 2 * n + 1, a);
    assert t[..n + 2] == t[..];
    q := t[..n + 1];
    var nz := MpScanNz(b, u[0..n]);
    exact := !nz;
    assert t[..][..n + 1] == q;
    UnitRecip(b, a, t[..], Val(b, u[0..n]));
  }

  lemma UnitRecip(b: nat, a: seq<nat>, t: seq<nat>, r: nat)
    requires 2 < b && Normalised(b, a) && |t| == |a| + 2 && Val(b, t) * Val(b, a) + r == Pow(b, 2 * |a|)
      && r < Val(b, a)
    ensures var q := Val(b, t[..|a| + 1]); q > 0 && IsRecip(Val(b, a), if r == 0 then q - 1 else q, Pow(b, 2 * |a|))
  {
    hide *;
    NormalisedBounds(b, a);
    QuotientShort(b, a, t, r);
    BaseIsRecip(Val(b, a), Pow(b, 2 * |a|), Val(b, t), r);
    QuotientPositive(b, |a|, Val(b, a), Val(b, t), r);
  }

  lemma QuotientPositive(b: nat, n: nat, a: nat, q: nat, r: nat)
    requires 0 < a < Pow(b, n) && Pow(b, 2 * n) == q * a + r && r < a
    ensures q > 0
  {
    PowDouble(b, n);
    MulMono(1, Pow(b, n), Pow(b, n));
  }

  /** What IsRecip says of the limbs. */
  lemma RecipLimbs(b: nat, a: seq<nat>, r: seq<nat>, off: nat)
    requires Normalised(b, a) && off + |a| < |r| && Digits(b, r)
    requires IsRecip(Val(b, a), Val(b, r[off..off + |a| + 1]), Pow(b, 2 * |a|))
    ensures Recip(b, a, r, off) && Pow(b, |a|) <= Val(b, r[off..off + |a| + 1]) < 2 * Pow(b, |a|)
  {
    hide Val, Pow, IsRecip;
    NormalisedBounds(b, a);
    PowDouble(b, |a|);
    RecipTop(Val(b, a), Val(b, r[off..off + |a| + 1]), Pow(b, |a|));
    TopIsOne(b, r, off, |a|);
  }

  /** The branch n <= 2 of mp_recip (correct for every n) */
  method RecipBase(b: nat, r: array<nat>, off: nat, a: seq<nat>)
    requires 2 < b && Normalised(b, a) && off + |a| < r.Length && Digits(b, r[..])
    modifies r
    ensures Digits(b, r[..]) && SameOutside(old(r[..]), r[..], off, off + |a| + 1)
    ensures Recip(b, a, r[..], off)
  {
    hide Val, Pow, SameOutside, IsRecip, Normalised, Recip, Digits;
    var n := |a|;
    ghost var s := r[..];
    var q, exact := UnitQuotient(b, a);
    CopyLimbs(b, r, off, q);
    ghost var t := r[..];
    assert t[off..off + (n + 1)] == q;
    if exact {
      var k := MpSubUi(b, r, off, 1, n + 1);
      ghost var u := r[..];
      assert r[off..off + (n + 1)] == u[off..off + (n + 1)];
      DigitsSlice(b, u, off, off + (n + 1));
      ValBound(b, u[off..off + (n + 1)]);
      SubNoBorrow(b, n + 1, Val(b, u[off..off + (n + 1)]), k);
      SameOutsideTrans(s, t, u, off, off + (n + 1));
    }
    RecipLimbs(b, a, r[..], off);
  }

  // ---- one Newton step

  /** A number of m + 1 limbs has top limb 0 exactly when it is below b^m. */
  lemma TopIsZero(b: nat, s: seq<nat>, m: nat)
    requires b > 0 && |s| == m + 1 && Digits(b, s)
    ensures s[m] == 0 <==> Val(b, s) < Pow(b, m)
  {
    hide Val, Pow;
    ValTop(b, s);
    if s[m] >= 1 {
      MulMono(1, s[m], Pow(b, m));
    }
  }

  /** t -= a, where t is at least a and has h + 1 limbs more */
  method SubtractLong(b: nat, t: array<nat>, a: seq<nat>, h: nat)
    requires 1 < b && t.Length == |a| + h + 1 && Digits(b, t[..]) && Digits(b, a) && Val(b, t[..]) >= Val(b, a)
    modifies t
    ensures Digits(b, t[..]) && Val(b, t[..]) == old(Val(b, t[..])) - Val(b, a)
  {
    hide Val, Pow, SameOutside;
    var n := |a|;
    ghost var s := t[..];
    var c := MpSub(b, t, 0, a, 0);
    ghost var u := t[..];
    var k := MpSubUi(b, t, n, c, h + 1);
    ghost var v := t[..];
    assert t[0..n] == v[0..n];
    SameSlice(u, v, n, n + h + 1, 0, n);
    SameSlice(s, u, 0, n, n, n + h + 1);
    LongParts(b, s, n);
    LongParts(b, v, n);
    ValBound(b, v);
    LongBorrow(b, n, h, Val(b, s), Val(b, a), c, k, Val(b, s[n..n + h + 1]), Val(b, v[n..n + h + 1]), Val(b, s[0..n]),
      Val(b, v[0..n]), Val(b, v));
  }

  lemma LongParts(b: nat, s: seq<nat>, n: nat)
    requires n <= |s|
    ensures Val(b, s) == Val(b, s[0..n]) + Pow(b, n) * Val(b, s[n..|s|])
  {
    SliceSplit(b, s, 0, n, |s|);
    assert s[0..|s|] == s;
  }

  lemma LongBorrow(b: nat, n: nat, h: nat, s: nat, a: nat, c: nat, k: nat, sh: nat, vh: nat, sl: nat, vl: nat, v: nat)
    requires s == sl + Pow(b, n) * sh && v == vl + Pow(b, n) * vh && s >= a && v < Pow(b, n + h + 1)
    requires vl - Pow(b, n) * c == sl - a && vh - Pow(b, h + 1) * k == sh - c
    ensures v == s - a
  {
    hide Pow;
    PowAdd(b, n, h + 1);
    var p, w := Pow(b, n), Pow(b, h + 1);
    assert vh == sh - c + w * k;
    Distrib(p, sh - c, w * k);
    Distrib(p, sh, c);
    Assoc(p, w, k);
    assert v == s - a + Pow(b, n + h + 1) * k;
    if k >= 1 {
      MulMono(1, k, Pow(b, n + h + 1));
    }
  }

  /** t = b^m - t, for a number of m + 1 limbs below b^m */
  method ComplementLong(b: nat, t: array<nat>, m: nat)
    requires 1 < b && t.Length == m + 1 && Digits(b, t[..]) && 0 < Val(b, t[..]) < Pow(b, m)
    modifies t
    ensures Digits(b, t[..]) && Val(b, t[..]) == Pow(b, m) - old(Val(b, t[..]))
  {
    hide Val, Pow, SameOutside;
    ghost var s := t[..];
    assert t[0..m + 1] == s;
    var k := MpNeg(b, t, 0, m + 1, 0);
    ghost var u := t[..];
    assert t[0..m + 1] == u;
    PowNext(b, m);
    ValTop(b, u);
    TopOfNegation(b, Pow(b, m), Val(b, s), Val(b, u), k, u[m], Val(b, u[..m]));
    WrapOnce(b, t[m] + 1);
    t[m] := (t[m] + 1) % b;
    assert t[..][..m] == u[..m];
    ValTop(b, t[..]);
  }

  lemma TopOfNegation(b: nat, p: nat, s: nat, u: nat, k: nat, top: nat, low: nat)
    requires 1 < b && 0 < s < p && u - (b * p) * k == 0 - s && k <= 1 && u == low + p * top && low < p && top < b
    ensures top == b - 1 && low == p - s
  {
    assert k != 0;
    Distrib(p, b, 1);
    if top < b - 1 {
      MulMono(top, b - 2, p);
      Distrib(p, b, 2);
    }
  }

  /** One round: the approximation goes down by one and the product by a. */
  method LowerOnce(b: nat, r: array<nat>, o: nat, h: nat, a: seq<nat>, t: array<nat>, ghost s: seq<nat>)
    requires Normalised(b, a) && o + h + 1 <= r.Length && t.Length == |a| + h + 1 && r != t
    requires Digits(b, t[..]) && Digits(b, r[..]) && SameOutside(s, r[..], o, o + h + 1) && t[|a| + h] != 0
    requires Val(b, t[..]) == Val(b, a) * Val(b, r[..][o..o + h + 1])
    requires Pow(b, |a| + h) < Val(b, a) * (Val(b, r[..][o..o + h + 1]) + 2)
    modifies r, t
    ensures Digits(b, t[..]) && Digits(b, r[..]) && SameOutside(s, r[..], o, o + h + 1)
    ensures Val(b, r[..][o..o + h + 1]) < Val(b, old(r[..])[o..o + h + 1])
    ensures Val(b, t[..]) == Val(b, a) * Val(b, r[..][o..o + h + 1]) && Pow(b, h) <= Val(b, r[..][o..o + h + 1])
    ensures Pow(b, |a| + h) < Val(b, a) * (Val(b, r[..][o..o + h + 1]) + 2)
  {
    hide Val, Pow, SameOutside;
    ghost var n, av := |a|, Val(b, a);
    NormalisedBounds(b, a);
    ghost var u := r[..];
    ghost var x := Val(b, u[o..o + h + 1]);
    TopIsZero(b, t[..], n + h);
    LowerX(b, n, h, av, x);
    var k := MpSubUi(b, r, o, 1, h + 1);
    ghost var w := r[..];
    assert r[o..o + h + 1] == w[o..o + h + 1];
    ValBound(b, w[o..o + h + 1]);
    SubNoBorrow(b, h + 1, Val(b, w[o..o + h + 1]), k);
    SameOutsideTrans(s, u, w, o, o + h + 1);
    SubtractLong(b, t, a, h);
    Distrib(av, x, 1);
  }

  /** The product of a and xh, the r[o..o + h + 1] limbs, less b^(n + h), after xh was lowered until that is
      negative: the residual t of the Newton step. */
  method Residual(b: nat, r: array<nat>, o: nat, h: nat, a: seq<nat>) returns (t: array<nat>)
    requires Normalised(b, a) && o + h + 1 <= r.Length && Digits(b, r[..])
    requires Pow(b, h) <= Val(b, r[o..o + h + 1])
    requires Pow(b, |a| + h) < Val(b, a) * (Val(b, r[o..o + h + 1]) + 2)
    modifies r
    ensures fresh(t) && t.Length == |a| + h + 1 && Digits(b, t[..])
    ensures Digits(b, r[..]) && SameOutside(old(r[..]), r[..], o, o + h + 1)
    ensures 0 < Val(b, t[..]) == Pow(b, |a| + h) - Val(b, a) * Val(b, r[o..o + h + 1]) < 2 * Val(b, a)
    ensures Pow(b, h) <= Val(b, r[o..o + h + 1])
  {
    hide Val, Pow, SameOutside;
    var n := |a|;
    ghost var s, av := r[..], Val(b, a);
    t := new nat[n + h + 1](_ => 0);
    MpMul(b, t, 0, a, r[o..o + h + 1]);
    assert t[0..n + (h + 1)] == t[..];
    SameOutsideRefl(s, o, o + h + 1);
    NormalisedBounds(b, a);
    while t[n + h] != 0
      invariant Digits(b, t[..]) && Digits(b, r[..]) && SameOutside(s, r[..], o, o + h + 1)
      invariant Val(b, t[..]) == av * Val(b, r[..][o..o + h + 1]) && Pow(b, h) <= Val(b, r[..][o..o + h + 1])
      invariant Pow(b, n + h) < av * (Val(b, r[..][o..o + h + 1]) + 2)
      decreases Val(b, r[..][o..o + h + 1])
    {
      LowerOnce(b, r, o, h, a, t, s);
    }
    TopIsZero(b, t[..], n + h);
    ghost var x := Val(b, r[..][o..o + h + 1]);
    assert r[o..o + h + 1] == r[..][o..o + h + 1];
    PowPositive(b, h);
    MulPositive(av, x);
    ComplementLong(b, t, n + h);
    Distrib(av, x, 2);
  }

  /** A product of at least b^(n + h) says that xh is above b^h and may be lowered. */
  lemma LowerX(b: nat, n: nat, h: nat, a: nat, x: nat)
    requires b > 0 && 0 < a < Pow(b, n) && a * x >= Pow(b, n + h)
    ensures x > Pow(b, h) && Pow(b, n + h) < a * (x + 1) && a <= a * x && a * (x - 1) == a * x - a
  {
    hide Pow;
    PowAdd(b, n, h);
    var y := Pow(b, h);
    PowPositive(b, h);
    MulStrict(a, Pow(b, n), y);
    if x <= y {
      MulMono(x, y, a);
    }
    Distrib(a, x, 1);
    MulMono(1, x, a);
  }

  /** b^h is at least six times b^l when h is above l. */
  lemma PowGap(b: nat, l: nat, h: nat)
    requires 6 <= b && l < h
    ensures 6 * Pow(b, l) <= Pow(b, h)
  {
    hide Pow;
    PowAdd(b, l, h - l);
    PowNext(b, h - l - 1);
    PowPositive(b, h - l - 1);
    MulMono(1, Pow(b, h - l - 1), b);
    MulMono(6, Pow(b, h - l), Pow(b, l));
  }

  /** The scales of the step: p = b^l, q = b^(2h), k = b^(2h - l). */
  lemma StepScales(b: nat, n: nat, l: nat, h: nat)
    requires n == l + h && l < h
    ensures Pow(b, 2 * h) == Pow(b, h) * Pow(b, h) == Pow(b, 2 * h - l) * Pow(b, l)
    ensures Pow(b, n) == Pow(b, l) * Pow(b, h)
    ensures Pow(b, n + h) == Pow(b, l) * Pow(b, 2 * h)
    ensures Pow(b, 2 * n) == Pow(b, n + h) * Pow(b, l)
  {
    hide Pow;
    PowAdd(b, h, h);
    PowAdd(b, 2 * h - l, l);
    PowAdd(b, l, h);
    PowAdd(b, l, 2 * h);
    PowAdd(b, n + h, l);
  }

  /** One Newton step from xh, with the residual t and its high part tm. */
  lemma StepIsRecip(b: nat, n: nat, l: nat, h: nat, a: nat, xh: nat, t: nat, tm: nat, u: nat)
    requires 6 <= b && n == l + h && l < h && 0 < a < Pow(b, n) <= 2 * a
    requires 0 < t == Pow(b, n + h) - a * xh < 2 * a
    requires tm * Pow(b, l) <= t < tm * Pow(b, l) + Pow(b, l)
    requires u * Pow(b, 2 * h - l) <= tm * xh < (u + 1) * Pow(b, 2 * h - l)
    ensures IsRecip(a, xh * Pow(b, l) + u, Pow(b, 2 * n))
  {
    hide Pow;
    StepScales(b, n, l, h);
    PowGap(b, l, h);
    PowPositive(b, l);
    PowPositive(b, 2 * h);
    var p, q, k := Pow(b, l), Pow(b, 2 * h), Pow(b, 2 * h - l);
    assert a * xh >= 0 by { MulMono(0, a, xh); }
    LossFits(a, t, p, Pow(b, h));
    NewtonUpper(a, xh, t, p, k, q, tm, u);
    NewtonLower(a, xh, t, p, k, q, tm, u);
  }

  /** The correction read off the limbs of the product us: its limbs from 2h - l up to 3h. */
  lemma StepFromLimbs(b: nat, l: nat, h: nat, a: seq<nat>, xs: seq<nat>, t: seq<nat>, us: seq<nat>) returns (c: nat)
    requires 6 <= b && Normalised(b, a) && |a| == l + h && l < h && |us| == 3 * h + 2 && Digits(b, us)
    requires |t| == |a| + h + 1 && Digits(b, t) && Pow(b, h) <= Val(b, xs)
    requires 0 < Val(b, t) == Pow(b, |a| + h) - Val(b, a) * Val(b, xs) < 2 * Val(b, a)
    requires Val(b, us) == Val(b, t[l..]) * Val(b, xs)
    ensures c == Val(b, us[2 * h - l..2 * h]) + Pow(b, l) * Val(b, us[2 * h..3 * h])
    ensures IsRecip(Val(b, a), Val(b, xs) * Pow(b, l) + c, Pow(b, 2 * |a|))
    ensures Val(b, xs) * Pow(b, l) + c < 2 * Pow(b, |a|)
  {
    hide *;
    var n, k, x := |a|, 2 * h - l, Val(b, xs);
    c := Val(b, us[k..]);
    NormalisedBounds(b, a);
    HighPart(b, us, k);
    HighPart(b, t, l);
    StepIsRecip(b, n, l, h, Val(b, a), x, Val(b, t), Val(b, t[l..]), c);
    PowDouble(b, n);
    RecipTop(Val(b, a), x * Pow(b, l) + c, Pow(b, n));
    MulMono(Pow(b, h), x, Pow(b, l));
    PowAdd(b, l, h);
    CorrectionLimbs(b, l, h, us);
  }

  lemma CorrectionLimbs(b: nat, l: nat, h: nat, us: seq<nat>)
    requires b > 0 && l < h && |us| == 3 * h + 2 && Val(b, us[2 * h - l..]) < Pow(b, l + h)
    ensures Val(b, us[2 * h - l..]) == Val(b, us[2 * h - l..2 * h]) + Pow(b, l) * Val(b, us[2 * h..3 * h])
  {
    hide *;
    var k := 2 * h - l;
    assert us[k..] == us[k..3 * h + 2];
    SliceSplit(b, us, k, 3 * h, 3 * h + 2);
    SmallWindow(b, l + h, Val(b, us[k..3 * h]), Val(b, us[3 * h..3 * h + 2]), Pow(b, l + h));
    SliceSplit(b, us, k, 2 * h, 3 * h);
  }

  /** The limbs from s on are the quotient by b^s. */
  lemma HighPart(b: nat, x: seq<nat>, s: nat)
    requires b > 0 && Digits(b, x) && s <= |x|
    ensures var v := Val(b, x[s..]);
      && v * Pow(b, s) <= Val(b, x) < v * Pow(b, s) + Pow(b, s) == (v + 1) * Pow(b, s) && v < Pow(b, |x| - s)
  {
    hide Val, Pow;
    ValSplit(b, x, s);
    ValBound(b, x[..s]);
    ValBound(b, x[s..]);
    Distrib(Pow(b, s), Val(b, x[s..]), 1);
  }

  /** The h-limb addition does not carry: the top limb is at least 1 and the sum is below 2 b^n. */
  lemma NoCarryOut(b: nat, v: seq<nat>, w: seq<nat>, off: nat, l: nat, h: nat, lo: seq<nat>, xs: seq<nat>, up: nat,
      carry: nat)
    requires 1 < b && off + l + h < |v| == |w| && Digits(b, v) && Digits(b, w) && |lo| == l && v[off..off + l] == lo
    requires v[off + l..off + l + h + 1] == xs && SameOutside(v, w, off + l, off + l + h) && Pow(b, h) <= Val(b, xs)
    requires Val(b, w[off + l..off + l + h]) + Pow(b, h) * carry == Val(b, v[off + l..off + l + h]) + up
    requires Val(b, xs) * Pow(b, l) + (Val(b, lo) + Pow(b, l) * up) < 2 * Pow(b, l + h)
    ensures Val(b, w[off..off + l + h + 1]) == Val(b, xs) * Pow(b, l) + (Val(b, lo) + Pow(b, l) * up)
  {
    hide Val, Pow;
    var o, p, y := off + l, Pow(b, l), Pow(b, h);
    SameAt(v, w, o, o + h);
    SameSlice(v, w, o, o + h, off, o);
    WindowSplit(b, v, o, h);
    WindowSplit(b, w, o, h);
    SliceSplit(b, w, off, o, o + h + 1);
    PowAdd(b, l, h);
    if v[o + h] == 0 {
      assert false;
    }
    var wv, x := Val(b, w[o..o + h + 1]), Val(b, xs);
    assert wv + y * carry == x + up;
    CarryZero(p, y, wv, carry, x, up, Val(b, lo), v[o + h]);
  }

  lemma CarryZero(p: nat, y: nat, w: nat, carry: nat, x: nat, up: nat, lo: nat, top: nat)
    requires w + y * carry == x + up && top >= 1 && w >= y * top && x * p + (lo + p * up) < 2 * (p * y) && p > 0
    ensures lo + p * w == x * p + (lo + p * up)
  {
    MulMono(1, top, y);
    Distrib(p, w, y * carry);
    Distrib(p, x, up);
    MulMono(y, w, p);
    Assoc(p, y, carry);
    if carry >= 1 {
      MulMono(1, carry, p * y);
    }
  }

  /** The product of the residual with the approximation; c is what its upper limbs add. */
  method CorrectionProduct(b: nat, l: nat, h: nat, a: seq<nat>, xs: seq<nat>, t: seq<nat>)
    returns (us: seq<nat>, ghost c: nat)
    requires 6 <= b && Normalised(b, a) && |a| == l + h && l < h && |xs| == h + 1 && Digits(b, xs)
    requires |t| == |a| + h + 1 && Digits(b, t) && Pow(b, h) <= Val(b, xs)
    requires 0 < Val(b, t) == Pow(b, |a| + h) - Val(b, a) * Val(b, xs) < 2 * Val(b, a)
    ensures |us| == 3 * h + 2 && Digits(b, us)
    ensures c == Val(b, us[2 * h - l..2 * h]) + Pow(b, l) * Val(b, us[2 * h..3 * h])
    ensures IsRecip(Val(b, a), Val(b, xs) * Pow(b, l) + c, Pow(b, 2 * |a|))
    ensures Val(b, xs) * Pow(b, l) + c < 2 * Pow(b, |a|)
  {
    hide Val, Pow, SameOutside, IsRecip, Normalised;
    var u := new nat[3 * h + 2](_ => 0);
    MpMul(b, u, 0, t[l..], xs);
    us := u[..];
    assert u[0..3 * h + 2] == us;
    c := StepFromLimbs(b, l, h, a, xs, t, us);
  }

  /** The part of mp_recip after the residual: the product with xh, shifted, is added to xh. */
  method AddCorrection(b: nat, r: array<nat>, off: nat, l: nat, h: nat, a: seq<nat>, t: seq<nat>)
    requires 6 <= b && Normalised(b, a) && |a| == l + h && l < h && off + |a| < r.Length && Digits(b, r[..])
    requires |t| == |a| + h + 1 && Digits(b, t) && Pow(b, h) <= Val(b, r[off + l..off + l + h + 1])
    requires 0 < Val(b, t) == Pow(b, |a| + h) - Val(b, a) * Val(b, r[off + l..off + l + h + 1]) < 2 * Val(b, a)
    modifies r
    ensures Digits(b, r[..]) && SameOutside(old(r[..]), r[..], off, off + |a| + 1)
    ensures Recip(b, a, r[..], off)
  {
    hide Val, Pow, SameOutside, IsRecip, Normalised;
    var n, o := |a|, off + l;
    ghost var s := r[..];
    var xs := r[o..o + h + 1];
    var us;
    ghost var c;
    us, c := CorrectionProduct(b, l, h, a, xs, t);
    var k := 2 * h - l;
    CopyLimbs(b, r, off, us[k..k + l]);
    ghost var v := r[..];
    SameSlice(s, v, off, o, o, o + h + 1);
    var carry := MpAdd(b, r, o, us[2 * h..3 * h], 0);
    ghost var w := r[..];
    NoCarryOut(b, v, w, off, l, h, us[k..k + l], xs, Val(b, us[2 * h..3 * h]), carry);
    SameOutsideWider(s, v, off, o, off, off + n + 1);
    SameOutsideGrows(s, v, w, o, o + h, off, off + n + 1);
    RecipLimbs(b, a, w, off);
  }

  /** mp_recip */
  method MpRecip(b: nat, r: array<nat>, off: nat, a: seq<nat>)
    requires 6 <= b && Normalised(b, a) && off + |a| < r.Length && Digits(b, r[..])
    modifies r
    ensures Digits(b, r[..]) && SameOutside(old(r[..]), r[..], off, off + |a| + 1)
    ensures Recip(b, a, r[..], off)
    decreases |a|
  {
    hide Val, Pow, SameOutside, IsRecip;
    if |a| <= 2 {
      RecipBase(b, r, off, a);
    } else {
      var n := |a|;
      var l := (n - 1) / 2;
      var h := n - l;
      ghost var s := r[..];
      MpRecip(b, r, off + l, a[l..]);
      ghost var t := r[..];
      HighRecip(b, a, l, h, t, off + l);
      assert r[off + l..off + l + h + 1] == t[off + l..off + l + h + 1];
      var res := Residual(b, r, off + l, h, a);
      ghost var u := r[..];
      AddCorrection(b, r, off, l, h, a, res[..]);
      SameOutsideTrans(s, t, u, off + l, off + n + 1);
      SameOutsideWider(s, u, off + l, off + n + 1, off, off + n + 1);
      SameOutsideTrans(s, u, r[..], off, off + n + 1);
    }
  }

  /** The reciprocal of the high part, seen from the whole number. */
  lemma HighRecip(b: nat, a: seq<nat>, l: nat, h: nat, r: seq<nat>, o: nat)
    requires Normalised(b, a) && |a| == l + h && l < h && Digits(b, r) && Recip(b, a[l..], r, o)
    ensures Pow(b, h) <= Val(b, r[o..o + h + 1]) && Pow(b, |a| + h) < Val(b, a) * (Val(b, r[o..o + h + 1]) + 2)
  {
    hide Val, Pow;
    var ah, x := Val(b, a[l..]), Val(b, r[o..o + h + 1]);
    RecipLimbs(b, a[l..], r, o);
    ValSplit(b, a, l);
    PowAdd(b, l, 2 * h);
    PowPositive(b, l);
    MulStrict(Pow(b, 2 * h), ah * (x + 2), Pow(b, l));
    Assoc(Pow(b, l), ah, x + 2);
    MulMono(Pow(b, l) * ah, Val(b, a), x + 2);
  }
}

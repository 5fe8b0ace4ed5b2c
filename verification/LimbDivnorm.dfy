/** Schoolbook division: each quotient digit is estimated from two limbs and corrected at most twice. */
module LimbDivnorm {
  import opened Limbs
  import opened LimbKernels
  import opened LimbDivision
  import opened LimbUnary

  /** The estimate of a digit from the top limbs: hi and lo of the dividend, b1 of the divisor. */
  function Estimate(b: nat, hi: nat, lo: nat, b1: nat): int
    requires b > 0 && b1 > 0
  {
    if hi >= b1 then b - 1 else (hi * b + lo) / b1
  }

  /** The estimate is not too small. */
  lemma EstimateHigh(b: nat, hi: nat, lo: nat, b1: nat, p: nat, low: nat, r: nat, d: nat)
    requires b > 0 && b1 > 0 && p > 0 && low < p && d >= b1 * p && r == (hi * b + lo) * p + low && r < b * d
    ensures r < (Estimate(b, hi, lo, b1) + 1) * d
  {
    if hi < b1 {
      var t := hi * b + lo;
      QuotientAbove(t, b1);
      ScaleAbove(t, b1, t / b1 + 1, p, low, d);
    }
  }

  lemma QuotientAbove(t: nat, d: nat)
    requires d > 0
    ensures t < d * (t / d + 1) && 0 <= t / d
  {
    Distrib(d, t / d, 1);
  }

  lemma ScaleAbove(t: int, b1: int, q: int, p: int, low: int, d: int)
    requires t < b1 * q && p > 0 && low < p && d >= b1 * p && q >= 0
    ensures t * p + low < q * d
  {
    MulMono(t + 1, b1 * q, p);
    Distrib(p, t, 1);
    MulMono(b1 * p, d, q);
    Assoc(q, b1, p);
  }

  /** The estimate is too large by at most two. */
  lemma EstimateLow(b: nat, hi: nat, lo: nat, b1: nat, p: nat, low: nat, r: nat, d: nat)
    requires 1 < b <= 2 * b1 && b1 < b && lo < b && d <= b1 * p + p && r == (hi * b + lo) * p + low
    ensures 0 <= Estimate(b, hi, lo, b1) < b && (Estimate(b, hi, lo, b1) - 2) * d <= r
  {
    var q := Estimate(b, hi, lo, b1);
    var t := hi * b + lo;
    EstimateTop(b, hi, lo, b1);
    if q >= 2 {
      MulMono(d, b1 * p + p, q - 2);
      Distrib(p, b1, 1);
      Assoc(q - 2, b1 + 1, p);
      MulMono((q - 2) * (b1 + 1), t, p);
    } else {
      MulMono(q - 2, 0, d);
    }
  }

  lemma EstimateTop(b: nat, hi: nat, lo: nat, b1: nat)
    requires 1 < b <= 2 * b1 && b1 < b && lo < b
    ensures var q := Estimate(b, hi, lo, b1); 0 <= q < b && (q - 2) * (b1 + 1) <= hi * b + lo
  {
    var t := hi * b + lo;
    if hi >= b1 {
      MulMono(b1, hi, b);
      TopDigit(b, b - 1, b1, b1 * b);
    } else {
      QuotientFits(b, b1, hi, lo, t / b1, t % b1);
      TopDigit(b, t / b1, b1, t);
    }
  }

  lemma TopDigit(b: int, q: int, b1: int, t: int)
    requires 0 < b <= 2 * b1 && q < b && b1 * q <= t
    ensures (q - 2) * (b1 + 1) <= t
  {
    Distrib(q - 2, b1, 1);
    Distrib(b1, q, 2);
  }

  // ---- one digit

  /** The number of nb + 1 limbs at i: nb low limbs and a top limb. */
  lemma WindowSplit(b: nat, s: seq<nat>, i: nat, nb: nat)
    requires i + nb < |s| && b > 0 && Digits(b, s)
    ensures Val(b, s[i..i + nb + 1]) == Val(b, s[i..i + nb]) + Pow(b, nb) * s[i + nb]
    ensures Val(b, s[i..i + nb]) < Pow(b, nb)
  {
    SliceSnoc(b, s, i, nb);
    ValBound(b, s[i..i + nb]);
  }

  /** How the window and the divisor look to the estimate. */
  lemma WindowTop(b: nat, s: seq<nat>, i: nat, y: seq<nat>)
    requires |y| > 0 && i + |y| < |s| && b > 0 && Digits(b, s) && Digits(b, y)
    ensures var m := |y| - 1; var p := Pow(b, m);
      && Val(b, s[i..i + |y| + 1]) == (s[i + |y|] * b + s[i + m]) * p + Val(b, s[i..i + m])
      && Val(b, s[i..i + m]) < p && y[m] * p <= Val(b, y) <= y[m] * p + p
  {
    var m := |y| - 1;
    WindowSplit(b, s, i, |y|);
    WindowSplit(b, s, i, m);
    ValTop(b, y);
    var p := Pow(b, m);
    Distrib(p, s[i + |y|] * b, s[i + m]);
    assert Pow(b, |y|) * s[i + |y|] == (s[i + |y|] * b) * p by { Assoc(s[i + |y|], b, p); }
  }

  /** The estimate for a window below b * d lies between the digit and the digit plus two. */
  lemma EstimateGood(b: nat, s: seq<nat>, i: nat, y: seq<nat>)
    requires 1 < b && |y| > 0 && i + |y| < |s| && Digits(b, s) && Digits(b, y) && b <= 2 * y[|y| - 1]
    requires Val(b, s[i..i + |y| + 1]) < b * Val(b, y)
    ensures var q := Estimate(b, s[i + |y|], s[i + |y| - 1], y[|y| - 1]); var r := Val(b, s[i..i + |y| + 1]);
      0 <= q < b && (q - 2) * Val(b, y) <= r < (q + 1) * Val(b, y)
  {
    hide Val, Pow, Estimate;
    var m := |y| - 1;
    WindowTop(b, s, i, y);
    PowPositive(b, m);
    EstimateHigh(b, s[i + |y|], s[i + m], y[m], Pow(b, m), Val(b, s[i..i + m]), Val(b, s[i..i + |y| + 1]), Val(b, y));
    EstimateLow(b, s[i + |y|], s[i + m], y[m], Pow(b, m), Val(b, s[i..i + m]), Val(b, s[i..i + |y| + 1]), Val(b, y));
  }

  /** After the subtraction of the estimate the window holds r - q * d, plus b^(nb + 1) when that is negative,
      which the borrow tells. */
  lemma Subtracted(b: nat, p: nat, lo: nat, hi: nat, r: int, lo': nat, hi': nat, borrow: bool, l: nat, z: int)
    requires b > 0 && lo' < p && hi' < b && lo + p * hi == r && lo' - p * l == lo - (r - z)
    requires hi' == hi - l + (if borrow then b else 0)
    ensures lo' + p * hi' == z + (if borrow then p * b else 0)
    ensures borrow <==> z < 0
  {
    if borrow {
      Distrib(p, hi - l, b);
    }
    Distrib(p, hi, l);
    MulMono(0, hi', p);
    if borrow {
      MulMono(hi', b - 1, p);
      Distrib(p, b, 1);
    }
  }

  /** The source's computation of the estimate: by reciprocal when dInv is one, by a division otherwise. */
  function Digit(b: nat, hi: nat, lo: nat, b1: nat, dInv: int): (q: int)
    requires 1 < b <= 2 * b1 && b1 < b && lo < b && (dInv == 0 || dInv == Reciprocal(b, b1))
    ensures q == Estimate(b, hi, lo, b1)
  {
    if hi >= b1 then b - 1
    else if dInv != 0 then UDiv1NormExact(b, hi, lo, b1); UDiv1Norm(b, hi, lo, b1, dInv).0
    else (hi * b + lo) / b1
  }

  /** One addition of the divisor to a negative window z, stored as z + p * b. */
  lemma AddBack(b: nat, p: nat, lo: nat, hi: nat, lo': nat, c: nat, d: nat, z: int)
    requires lo + p * hi == z + p * b && lo' + p * c == lo + d && c <= 1 && hi < b && lo' < p && z < 0
    ensures lo' + p * (hi + c) == z + d + p * b
    ensures hi + c == b <==> z + d >= 0
  {
    Distrib(p, hi, c);
    if hi + c < b {
      MulMono(hi + c, b - 1, p);
      Distrib(p, b, 1);
    }
  }

  /** One digit of mp_divnorm: the loop body for index i.  dInv is 0 or the reciprocal of the top limb. */
  method DivDigit(b: nat, a: array<nat>, i: nat, y: seq<nat>, dInv: int) returns (q: nat, ghost addBacks: nat)
    requires 1 < b && |y| > 0 && i + |y| < a.Length && Digits(b, a[..]) && Digits(b, y) && b <= 2 * y[|y| - 1]
    requires dInv == 0 || dInv == Reciprocal(b, y[|y| - 1])
    requires Val(b, a[i..i + |y| + 1]) < b * Val(b, y)
    modifies a
    ensures Digits(b, a[..]) && SameOutside(old(a[..]), a[..], i, i + |y| + 1)
    ensures q < b && a[i + |y|] == 0 && Val(b, a[i..i + |y|]) < Val(b, y)
    ensures old(Val(b, a[i..i + |y| + 1])) == q * Val(b, y) + Val(b, a[i..i + |y|])
    ensures addBacks <= 2
  {
    hide Val, Pow, Estimate, SameOutside, Reciprocal, Digit;
    var nb := |y|;
    ghost var s, d := a[..], Val(b, y);
    ghost var r := Val(b, s[i..i + nb + 1]);
    EstimateGood(b, s, i, y);
    q := Digit(b, a[i + nb], a[i + nb - 1], y[nb - 1], dInv);
    var c := SubtractEstimate(b, a, i, y, q);
    ghost var t := a[..];
    q, addBacks := Correct(b, a, i, y, q, c, r);
    SameOutsideTrans(s, t, a[..], i, i + nb + 1);
  }

  /** The window loses q times the divisor; the borrow c says that this went below zero. */
  method SubtractEstimate(b: nat, a: array<nat>, i: nat, y: seq<nat>, q: nat) returns (c: bool)
    requires 1 < b && i + |y| < a.Length && Digits(b, a[..]) && Digits(b, y) && q < b
    modifies a
    ensures Digits(b, a[..]) && SameOutside(old(a[..]), a[..], i, i + |y| + 1)
    ensures c <==> old(Val(b, a[i..i + |y| + 1])) - q * Val(b, y) < 0
    ensures Val(b, a[i..i + |y|]) + Pow(b, |y|) * a[i + |y|]
         == old(Val(b, a[i..i + |y| + 1])) - q * Val(b, y) + (if c then Pow(b, |y|) * b else 0)
  {
    hide Val, Pow, SameOutside;
    var nb := |y|;
    ghost var s := a[..];
    var l := MpSubMul1(b, a, i, y, q);
    ghost var t := a[..];
    SameAt(s, t, i, i + nb);
    var v := a[i + nb];
    WrapOnce(b, v - l);
    var top: nat := (v - l) % b;
    c := top > v;
    a[i + nb] := top;
    assert a[..] == t[i + nb := top];
    EstimateTaken(b, s, t, a[..], i, nb, top, c, l, q, Val(b, y));
    assert a[i..i + nb] == a[..][i..i + nb];
  }

  lemma EstimateTaken(b: nat, s: seq<nat>, t: seq<nat>, u: seq<nat>, i: nat, nb: nat, top: nat, c: bool, l: nat, q: nat,
      y: nat)
    requires b > 0 && i + nb < |s| == |t| && Digits(b, s) && Digits(b, t) && top < b
    requires SameOutside(s, t, i, i + nb) && u == t[i + nb := top] && top == s[i + nb] - l + (if c then b else 0)
    requires Val(b, t[i..i + nb]) - Pow(b, nb) * l == Val(b, s[i..i + nb]) - y * q
    ensures SameOutside(s, u, i, i + nb + 1) && (c <==> Val(b, s[i..i + nb + 1]) - q * y < 0)
    ensures Val(b, u[i..i + nb]) + Pow(b, nb) * u[i + nb]
         == Val(b, s[i..i + nb + 1]) - q * y + (if c then Pow(b, nb) * b else 0)
  {
    hide *;
    WindowSplit(b, s, i, nb);
    WindowSplit(b, t, i, nb);
    Replaced(b, s, t, u, i, nb, top);
    var r := Val(b, s[i..i + nb + 1]);
    Subtracted(b, Pow(b, nb), Val(b, s[i..i + nb]), s[i + nb], r, Val(b, t[i..i + nb]), top, c, l, r - q * y);
  }

  /** The limb just above the changed segment. */
  lemma SameAt(s: seq<nat>, t: seq<nat>, lo: nat, hi: nat)
    requires SameOutside(s, t, lo, hi) && hi < |s|
    ensures |t| == |s| && t[hi] == s[hi]
  {
    assert s[hi..][0] == t[hi..][0];
  }

  lemma Replaced(b: nat, s: seq<nat>, t: seq<nat>, u: seq<nat>, i: nat, nb: nat, top: nat)
    requires i + nb < |s| && SameOutside(s, t, i, i + nb) && |t| == |s| && u == t[i + nb := top]
    ensures SameOutside(s, u, i, i + nb + 1) && u[i..i + nb] == t[i..i + nb]
  {
    hide SameOutside;
    WriteLimb(b, t, i, nb, top);
    SameOutsideWider(s, t, i, i + nb, i, i + nb + 1);
    SameOutsideGrows(s, t, u, i + nb, i + nb + 1, i, i + nb + 1);
  }

  /** The add-back loop: a window of value r - q * d, stored modulo b^(nb + 1), becomes r - q' * d in [0, d). */
  method Correct(b: nat, a: array<nat>, i: nat, y: seq<nat>, q0: nat, c: bool, ghost r: nat)
    returns (q: nat, ghost addBacks: nat)
    requires 1 < b && i + |y| < a.Length && Digits(b, a[..]) && Digits(b, y) && q0 < b && Val(b, y) > 0
    requires (q0 - 2) * Val(b, y) <= r < (q0 + 1) * Val(b, y)
    requires c <==> r - q0 * Val(b, y) < 0
    requires Val(b, a[i..i + |y|]) + Pow(b, |y|) * a[i + |y|] == r - q0 * Val(b, y) + (if c then Pow(b, |y|) * b else 0)
    modifies a
    ensures Digits(b, a[..]) && SameOutside(old(a[..]), a[..], i, i + |y| + 1)
    ensures q <= q0 && a[i + |y|] == 0 && Val(b, a[i..i + |y|]) < Val(b, y)
    ensures r == q * Val(b, y) + Val(b, a[i..i + |y|])
    ensures addBacks <= 2
  {
    hide Val, Pow, SameOutside;
    var nb := |y|;
    ghost var s, d, p := a[..], Val(b, y), Pow(b, nb);
    q, addBacks := q0, 0;
    SameOutsideRefl(s, i, i + nb + 1);
    ValBound(b, y);
    assert s[i..i + nb] == a[i..i + nb];
    if c {
      var done := false;
      CorrectionRange(q0, d, r, 0);
      while !done
        invariant Digits(b, a[..]) && SameOutside(s, a[..], i, i + nb + 1)
        invariant addBacks <= q0 && q == q0 - addBacks && addBacks <= 2
        invariant !done ==> Val(b, a[..][i..i + nb]) + p * a[i + nb] == r - q * d + p * b && r - q * d < 0
        invariant done ==> a[i + nb] == 0 && 0 <= r - q * d < d && Val(b, a[..][i..i + nb]) == r - q * d
        decreases !done, q
      {
        CorrectionRange(q0, d, r, addBacks);
        ghost var t, z := a[..], r - q * d;
        WindowSplit(b, t, i, nb);
        var k := MpAdd(b, a, i, y, 0);
        ghost var u := a[..];
        SameAt(t, u, i, i + nb);
        ValBound(b, u[i..i + nb]);
        assert a[i..i + nb] == u[i..i + nb];
        AddBack(b, p, Val(b, t[i..i + nb]), t[i + nb], Val(b, u[i..i + nb]), k, d, z);
        q, addBacks := q - 1, addBacks + 1;
        Distrib(d, q + 1, 1);
        if k != 0 {
          WrapOnce(b, a[i + nb] + 1);
          a[i + nb] := (a[i + nb] + 1) % b;
          if a[i + nb] == 0 {
            done := true;
          }
        }
        assert a[..] == u[i + nb := a[i + nb]];
        Replaced(b, t, u, a[..], i, nb, a[i + nb]);
        SameOutsideTrans(s, t, a[..], i, i + nb + 1);
      }
      assert a[i..i + nb] == a[..][i..i + nb];
    } else {
      Distrib(d, q0, 1);
      SmallWindow(b, nb, Val(b, s[i..i + nb]), s[i + nb], d);
    }
  }

  lemma SameOutsideRefl(s: seq<nat>, lo: nat, hi: nat)
    requires lo <= hi <= |s|
    ensures SameOutside(s, s, lo, hi)
  {
  }

  /** While the window is negative after k corrections, k is below two and the digit is positive. */
  lemma CorrectionRange(q0: nat, d: nat, r: nat, k: nat)
    requires d > 0 && (q0 - 2) * d <= r && r - (q0 - k) * d < 0
    ensures k < 2 && k < q0
  {
    if k >= 2 {
      MulMono(q0 - k, q0 - 2, d);
    }
    if k >= q0 {
      MulMono(q0 - k, 0, d);
    }
  }

  lemma SmallWindow(b: nat, nb: nat, lo: nat, hi: nat, d: nat)
    requires lo + Pow(b, nb) * hi < d <= Pow(b, nb)
    ensures hi == 0
  {
    if hi >= 1 {
      MulMono(1, hi, Pow(b, nb));
    }
  }

  // ---- the whole division

  /** mp_div1norm(q, a, n, d, r0): from the top limb down, by reciprocal or by division.  The source passes
      0 for r0 everywhere; byInverse is its choice n >= UDIV1NORM_THRESHOLD. */
  method MpDiv1Norm(b: nat, q: array<nat>, a: seq<nat>, d: nat, r0: nat, byInverse: bool) returns (r: nat)
    requires 1 < b <= 2 * d && d < b && r0 < d && Digits(b, a) && |a| <= q.Length && Digits(b, q[..])
    modifies q
    ensures Digits(b, q[..]) && q[|a|..] == old(q[|a|..])
    ensures r < d && r0 * Pow(b, |a|) + Val(b, a) == Val(b, q[..|a|]) * d + r
  {
    hide Val, Pow, Reciprocal;
    var dInv := Reciprocal(b, d);
    r := r0;
    var i := |a|;
    ghost var s := q[..];
    Div1Start(b, a, s, r0, d);
    while i > 0
      invariant 0 <= i <= |a| && r < d && Digits(b, q[..]) && q[|a|..] == s[|a|..]
      invariant DivState(r0, Pow(b, |a| - i), Val(b, a[i..]), Val(b, q[..][i..|a|]), d, r)
    {
      i := i - 1;
      ghost var t, old_r := q[..], r;
      DivLimb(b, r, a[i], d);
      if byInverse {
        UDiv1NormExact(b, r, a[i], d);
        var res := UDiv1Norm(b, r, a[i], d, dInv);
        q[i], r := res.0, res.1;
      } else {
        var n := r * b + a[i];
        q[i], r := n / d, n % d;
      }
      assert q[..] == t[i := q[i]];
      Div1Step(b, a, t, q[..], i, r0, old_r, r, d);
    }
    assert a[0..] == a && q[..][0..|a|] == q[..|a|];
  }

  /** r0 w + x divided by d: the quotient z, and r left. */
  ghost predicate DivState(r0: nat, w: nat, x: nat, z: nat, d: nat, r: nat) {
    r0 * w + x == z * d + r
  }

  /** The same for one limb x below r. */
  ghost predicate LimbState(r: nat, b: nat, x: nat, d: nat, q: nat, r': nat) {
    r * b + x == d * q + r'
  }

  lemma Div1Start(b: nat, a: seq<nat>, s: seq<nat>, r0: nat, d: nat)
    requires |a| <= |s|
    ensures DivState(r0, Pow(b, 0), Val(b, a[|a|..]), Val(b, s[|a|..|a|]), d, r0)
  {
  }

  lemma DivLimb(b: nat, r: nat, x: nat, d: nat)
    requires r < d && x < b
    ensures 0 <= (r * b + x) / d < b && 0 <= (r * b + x) % d < d
    ensures r * b + x == d * ((r * b + x) / d) + (r * b + x) % d
  {
    var n := r * b + x;
    QuotientFits(b, d, r, x, n / d, n % d);
  }

  lemma Div1Step(b: nat, a: seq<nat>, t: seq<nat>, q: seq<nat>, i: nat, r0: nat, r: nat, r': nat, d: nat)
    requires i < |a| <= |t| && |q| == |t| && q == t[i := q[i]] && LimbState(r, b, a[i], d, q[i], r')
    requires DivState(r0, Pow(b, |a| - i - 1), Val(b, a[i + 1..]), Val(b, t[i + 1..|a|]), d, r)
    ensures DivState(r0, Pow(b, |a| - i), Val(b, a[i..]), Val(b, q[i..|a|]), d, r')
  {
    hide *;
    FromLimb(b, a, a, i, |a|);
    FromLimb(b, t, q, i, |a|);
    assert a[i..|a|] == a[i..] && a[i + 1..|a|] == a[i + 1..];
    PowNext(b, |a| - i - 1);
    Div1Next(b, r0, Pow(b, |a| - i - 1), Val(b, a[i + 1..]), Val(b, t[i + 1..|a|]), d, r, a[i], q[i], r');
  }

  lemma Div1Next(b: nat, r0: nat, w: nat, x: nat, z: nat, d: nat, r: nat, ai: nat, qi: nat, r': nat)
    requires DivState(r0, w, x, z, d, r) && LimbState(r, b, ai, d, qi, r')
    ensures 0 <= b * w && 0 <= b * x && 0 <= b * z && DivState(r0, b * w, ai + b * x, qi + b * z, d, r')
  {
    MulMono(0, b, w);
    MulMono(0, b, x);
    MulMono(0, b, z);
    Div1Arith(b, r0, w, x, z, d, r, ai, qi, r');
  }

  lemma FromLimb(b: nat, t: seq<nat>, q: seq<nat>, i: nat, n: nat)
    requires i < n <= |t| && |q| == |t| && q == t[i := q[i]]
    ensures Val(b, q[i..n]) == q[i] + b * Val(b, t[i + 1..n])
  {
    hide Val, Pow, SameOutside;
    PrependLimb(b, t, i, n, q[i]);
  }

  lemma Div1Arith(b: int, r0: int, w: int, x: int, z: int, d: int, r: int, ai: int, qi: int, r': int)
    requires r0 * w + x == z * d + r && r * b + ai == d * qi + r'
    ensures r0 * (b * w) + (ai + b * x) == (qi + b * z) * d + r'
  {
    var u, v := r0 * w, z * d;
    assert b * (u + x) == b * (v + r);
    Distrib(b, u, x);
    Distrib(b, v, r);
    Distrib(d, qi, b * z);
    Assoc(b, z, d);
    Assoc(r0, b, w);
    Assoc(b, r0, w);
  }

  /** The loop of mp_divnorm that sets the first quotient limb, 0 or 1, and the subtraction after it. */
  method FirstDigit(b: nat, a: array<nat>, n: nat, y: seq<nat>) returns (q: nat)
    requires 1 < b && n + |y| <= a.Length && |y| > 0 && Digits(b, a[..]) && Digits(b, y) && b <= 2 * y[|y| - 1]
    modifies a
    ensures Digits(b, a[..]) && SameOutside(old(a[..]), a[..], n, n + |y|) && q <= 1
    ensures old(Val(b, a[n..n + |y|])) == q * Val(b, y) + Val(b, a[n..n + |y|]) && Val(b, a[n..n + |y|]) < Val(b, y)
  {
    hide Val, Pow, SameOutside;
    ghost var s := a[..];
    ghost var x := s[n..n + |y|];
    assert a[n..n + |y|] == x;
    q := 1;
    var j := |y|;
    while j > 0
      invariant 0 <= j <= |y| && q == 1 && x[j..] == y[j..]
    {
      j := j - 1;
      assert a[n + j] == x[j];
      if a[n + j] != y[j] {
        TopDiffers(b, x, y, j);
        if a[n + j] < y[j] {
          q := 0;
        }
        break;
      }
      assert x[j..] == [x[j]] + x[j + 1..] && y[j..] == [y[j]] + y[j + 1..];
    }
    assert j == 0 && q == 1 && x[0..] == y[0..] ==> x == y by { assert x[0..] == x && y[0..] == y; }
    assert q == 0 <==> Val(b, x) < Val(b, y);
    SameOutsideRefl(s, n, n + |y|);
    TopHalf(b, x, y);
    if q != 0 {
      var k := MpSub(b, a, n, y, 0);
      ValBound(b, a[n..n + |y|]);
      SubNoBorrow(b, |y|, Val(b, a[n..n + |y|]), k);
    }
  }

  /** Any number of the divisor's length is below twice the divisor. */
  lemma TopHalf(b: nat, x: seq<nat>, y: seq<nat>)
    requires b > 0 && |x| == |y| > 0 && Digits(b, x) && Digits(b, y) && b <= 2 * y[|y| - 1]
    ensures Val(b, x) < 2 * Val(b, y)
  {
    hide Val, Pow;
    ValBound(b, x);
    ValTop(b, y);
    PowNext(b, |y| - 1);
    DoubleTop(b, Pow(b, |y| - 1), y[|y| - 1]);
  }

  lemma DoubleTop(b: nat, p: nat, top: nat)
    requires b <= 2 * top
    ensures b * p <= 2 * (p * top)
  {
    MulMono(b, 2 * top, p);
    Assoc(2, top, p);
  }

  lemma SubNoBorrow(b: nat, n: nat, v: nat, k: nat)
    requires v < Pow(b, n) && v - Pow(b, n) * k >= 0
    ensures k == 0
  {
    if k >= 1 {
      MulMono(1, k, Pow(b, n));
    }
  }

  /** With the quotient limbs from i on known, the segment at off holds what is left of total. */
  ghost predicate Left(b: nat, a: seq<nat>, off: nat, i: nat, nb: nat, q: seq<nat>, n: nat, d: nat, total: nat)
    requires off + i + nb <= |a| && i <= n + 1 <= |q|
  {
    && Val(b, a[off + i..off + i + nb]) < d
    && Val(b, a[off..off + i + nb]) + Pow(b, i) * (Val(b, q[i..n + 1]) * d) == total
  }

  /** A remainder below d with one more limb under it is below b * d. */
  lemma WindowBound(b: nat, s: seq<nat>, off: nat, i: nat, nb: nat, q: seq<nat>, n: nat, d: nat, total: nat)
    requires off + i + nb < |s| && s[off + i] < b && i <= n < |q| && Left(b, s, off, i + 1, nb, q, n, d, total)
    ensures Val(b, s[off + i..off + i + nb + 1]) < b * d
  {
    hide Val, Pow;
    PrependLimb(b, s, off + i, off + i + nb + 1, s[off + i]);
    var v := Val(b, s[off + i + 1..off + i + 1 + nb]);
    MulMono(v + 1, d, b);
    Distrib(b, v, 1);
  }

  /** One digit more. */
  lemma DigitStep(b: nat, t: seq<nat>, u: seq<nat>, off: nat, i: nat, nb: nat, d: nat, q: seq<nat>, digit: nat, n: nat,
      total: nat)
    requires off + i + nb < |t| == |u| && SameOutside(t, u, off + i, off + i + nb + 1)
    requires i <= n < |q| && Left(b, t, off, i + 1, nb, q, n, d, total)
    requires Val(b, t[off + i..off + i + nb + 1]) == digit * d + Val(b, u[off + i..off + i + nb])
    requires Val(b, u[off + i..off + i + nb]) < d
    ensures Left(b, u, off, i, nb, q[i := digit], n, d, total)
  {
    hide *;
    LeftTotal(b, t, off, i + 1, nb, q, n, d, total);
    PrependLimb(b, q, i, n + 1, digit);
    SameSlice(t, u, off + i, off + i + nb + 1, off, off + i);
    SliceSplit(b, t, off, off + i, off + i + nb + 1);
    SliceSplit(b, u, off, off + i, off + i + nb);
    PowNext(b, i);
    DigitTotal(b, Pow(b, i), Val(b, t[off..off + i]), Val(b, t[off + i..off + i + nb + 1]),
      Val(b, u[off + i..off + i + nb]), digit, d,
      Val(b, q[i + 1..n + 1]), total);
    IsLeft(b, u, off, i, nb, q[i := digit], n, d, total);
  }

  lemma DigitTotal(b: int, p: int, lo: int, window: int, v: int, digit: int, d: int, w: int, total: int)
    requires window == digit * d + v && (lo + p * window) + (b * p) * (w * d) == total
    ensures (lo + p * v) + p * ((digit + b * w) * d) == total
  {
    DigitArith(b, p, digit, d, v, w);
  }

  lemma LeftTotal(b: nat, a: seq<nat>, off: nat, i: nat, nb: nat, q: seq<nat>, n: nat, d: nat, total: nat)
    requires off + i + nb <= |a| && i <= n + 1 <= |q| && Left(b, a, off, i, nb, q, n, d, total)
    ensures Val(b, a[off..off + i + nb]) + Pow(b, i) * (Val(b, q[i..n + 1]) * d) == total
  {
  }

  lemma IsLeft(b: nat, a: seq<nat>, off: nat, i: nat, nb: nat, q: seq<nat>, n: nat, d: nat, total: nat)
    requires off + i + nb <= |a| && i <= n + 1 <= |q| && Val(b, a[off + i..off + i + nb]) < d
    requires Val(b, a[off..off + i + nb]) + Pow(b, i) * (Val(b, q[i..n + 1]) * d) == total
    ensures Left(b, a, off, i, nb, q, n, d, total)
  {
  }

  lemma DigitArith(b: int, p: int, q: int, d: int, v: int, w: int)
    ensures p * v + p * ((q + b * w) * d) == p * (q * d + v) + (b * p) * (w * d)
  {
    Distrib(d, q, b * w);
    Assoc(b, w, d);
    Distrib(p, q * d, b * (w * d));
    Distrib(p, q * d, v);
    Assoc(p, b, w * d);
  }

  /** One round of the digit loop, for quotient limb i. */
  method NextDigit(b: nat, q: array<nat>, a: array<nat>, off: nat, i: nat, n: nat, y: seq<nat>, dInv: int,
      ghost total: nat)
    requires 1 < b && 0 < |y| && i < n < q.Length && off + n + |y| <= a.Length && q != a
    requires Digits(b, q[..]) && Digits(b, a[..]) && Digits(b, y) && b <= 2 * y[|y| - 1]
    requires dInv == 0 || dInv == Reciprocal(b, y[|y| - 1])
    requires Left(b, a[..], off, i + 1, |y|, q[..], n, Val(b, y), total)
    modifies q, a
    ensures Digits(b, q[..]) && Digits(b, a[..]) && q[i + 1..] == old(q[i + 1..])
    ensures SameOutside(old(a[..]), a[..], off + i, off + i + |y| + 1)
    ensures Left(b, a[..], off, i, |y|, q[..], n, Val(b, y), total)
  {
    hide *;
    ghost var t, q1 := a[..], q[..];
    DigitAt(b, t, off + i);
    WindowBound(b, t, off, i, |y|, q1, n, Val(b, y), total);
    var digit, _ := DivDigit(b, a, off + i, y, dInv);
    q[i] := digit;
    DigitStep(b, t, a[..], off, i, |y|, Val(b, y), q1, digit, n, total);
    assert q[..] == q1[i := digit];
    DigitsUpdate(b, q1, i, digit);
  }

  /** The digit loop of mp_divnorm on the na limbs at a + off, for a divisor of any length: quotient into q,
      remainder into the low limbs of the segment. */
  method DivnormDigits(b: nat, q: array<nat>, a: array<nat>, off: nat, na: nat, y: seq<nat>, byInverse: bool)
    requires 1 < b && 0 < |y| <= na && off + na <= a.Length && na - |y| < q.Length && q != a
    requires Digits(b, q[..]) && Digits(b, a[..]) && Digits(b, y) && b <= 2 * y[|y| - 1]
    modifies q, a
    ensures Digits(b, q[..]) && Digits(b, a[..]) && q[na - |y| + 1..] == old(q[na - |y| + 1..])
    ensures SameOutside(old(a[..]), a[..], off, off + na)
    ensures Val(b, a[off..off + |y|]) < Val(b, y) && q[na - |y|] <= 1
    ensures old(Val(b, a[off..off + na])) == Val(b, q[..na - |y| + 1]) * Val(b, y) + Val(b, a[off..off + |y|])
  {
    hide *;
    ghost var s, q0 := a[..], q[..];
    ghost var total := Val(b, s[off..off + na]);
    var nb, n := |y|, na - |y|;
    var dInv := if byInverse then Reciprocal(b, y[nb - 1]) else 0;
    var top := FirstDigit(b, a, off + n, y);
    q[n] := top;
    DigitsUpdate(b, q0, n, top);
    assert q[..] == q0[n := top];
    FirstStep(b, s, a[..], off, n, nb, Val(b, y), q[..], total);
    SameOutsideWider(s, a[..], off + n, off + na, off, off + na);
    var i := n;
    while i > 0
      invariant 0 <= i <= n && Digits(b, q[..]) && Digits(b, a[..]) && q[n] <= 1 && q[n + 1..] == q0[n + 1..]
      invariant SameOutside(s, a[..], off, off + na) && Left(b, a[..], off, i, nb, q[..], n, Val(b, y), total)
    {
      i := i - 1;
      ghost var t, q1 := a[..], q[..];
      NextDigit(b, q, a, off, i, n, y, dInv, total);
      AboveKept(q1, q[..], i + 1, n);
      SameOutsideGrows(s, t, a[..], off + i, off + i + nb + 1, off, off + na);
    }
    AllDigits(b, a[..], off, nb, q[..], n, Val(b, y), total);
    assert q[..][..n + 1] == q[..n + 1];
  }

  lemma AboveKept(p: seq<nat>, q: seq<nat>, i: nat, n: nat)
    requires i <= n < |p| == |q| && p[i..] == q[i..]
    ensures p[n] == q[n] && p[n + 1..] == q[n + 1..]
  {
    assert p[n] == p[i..][n - i] && q[n] == q[i..][n - i];
    assert p[n + 1..] == p[i..][n + 1 - i..] && q[n + 1..] == q[i..][n + 1 - i..];
  }

  lemma DigitAt(b: nat, s: seq<nat>, i: nat)
    requires Digits(b, s) && i < |s|
    ensures s[i] < b
  {
  }

  lemma DigitsUpdate(b: nat, s: seq<nat>, i: nat, d: nat)
    requires Digits(b, s) && i < |s| && d < b
    ensures Digits(b, s[i := d])
  {
  }

  lemma AllDigits(b: nat, a: seq<nat>, off: nat, nb: nat, q: seq<nat>, n: nat, d: nat, total: nat)
    requires off + nb <= |a| && n < |q| && Left(b, a, off, 0, nb, q, n, d, total)
    ensures Val(b, a[off..off + nb]) < d && total == Val(b, q[..n + 1]) * d + Val(b, a[off..off + nb])
  {
    assert q[0..n + 1] == q[..n + 1];
    PowZero(b);
  }

  lemma FirstStep(b: nat, s: seq<nat>, t: seq<nat>, off: nat, n: nat, nb: nat, d: nat, q: seq<nat>, total: nat)
    requires off + n + nb <= |s| && SameOutside(s, t, off + n, off + n + nb) && n < |q|
    requires |t| == |s| && Val(b, s[off + n..off + n + nb]) == q[n] * d + Val(b, t[off + n..off + n + nb])
    requires Val(b, t[off + n..off + n + nb]) < d && total == Val(b, s[off..off + n + nb])
    ensures Left(b, t, off, n, nb, q, n, d, total)
  {
    hide Val, Pow;
    SameSlice(s, t, off + n, off + n + nb, off, off + n);
    SliceSplit(b, s, off, off + n, off + n + nb);
    SliceSplit(b, t, off, off + n, off + n + nb);
    assert q[n..n + 1] == [q[n]];
    ValOne(b, q[n]);
    Distrib(Pow(b, n), q[n] * d, Val(b, t[off + n..off + n + nb]));
  }

  const UDIV1NORM_THRESHOLD := 3

  /** The top limb of the quotient is 0 or 1. */
  lemma TopQuotient(b: nat, q: seq<nat>, n: nat, d: nat, r: nat, a: nat)
    requires b > 0 && n < |q| && a < Pow(b, n + 1) && b <= 2 * d && a == Val(b, q[..n + 1]) * d + r
    ensures q[n] <= 1
  {
    hide Val, Pow;
    ValPrefix(b, q, n);
    PowNext(b, n);
    PowPositive(b, n);
    var p := Pow(b, n);
    MulMono(b, 2 * d, p);
    assert (2 * p) * d == (2 * d) * p;
    if q[n] >= 2 {
      MulMono(2, q[n], p);
      MulMono(2 * p, Val(b, q[..n + 1]), d);
    }
  }

  /** mp_divnorm below the threshold of mp_divnorm_large */
  method DivnormBase(b: nat, q: array<nat>, a: array<nat>, off: nat, na: nat, y: seq<nat>)
    requires 1 < b && 0 < |y| <= na && off + na <= a.Length && na - |y| < q.Length && q != a
    requires Digits(b, q[..]) && Digits(b, a[..]) && Digits(b, y) && b <= 2 * y[|y| - 1]
    modifies q, a
    ensures Digits(b, q[..]) && Digits(b, a[..]) && q[na - |y| + 1..] == old(q[na - |y| + 1..])
    ensures SameOutside(old(a[..]), a[..], off, off + na)
    ensures Val(b, a[off..off + |y|]) < Val(b, y) && q[na - |y|] <= 1
    ensures old(Val(b, a[off..off + na])) == Val(b, q[..na - |y| + 1]) * Val(b, y) + Val(b, a[off..off + |y|])
  {
    hide Val, Pow, SameOutside;
    if |y| == 1 {
      ghost var s := a[..];
      var x := a[off..off + na];
      var r := MpDiv1Norm(b, q, x, y[0], 0, na >= UDIV1NORM_THRESHOLD);
      a[off] := r;
      assert y == [y[0]] && a[off..off + 1] == [r];
      ValOne(b, y[0]);
      ValOne(b, r);
      ValBound(b, x);
      TopQuotient(b, q[..], na - 1, y[0], r, Val(b, x));
      assert q[..][..na] == q[..na];
      WriteLimb(b, s, off, 0, r);
      assert a[..] == s[off := r];
      SameOutsideWider(s, a[..], off, off + 1, off, off + na);
    } else {
      DivnormDigits(b, q, a, off, na, y, na - |y| >= UDIV1NORM_THRESHOLD);
    }
  }
}

/** The convolution theorem for transforms of length 2^k modulo m. */
module NttCyclic {
  import opened Limbs
  import opened NttPoly
  import opened NttStage
  import opened NttFft

  // ---- cyclic convolution

  /** y moved up by one place, cyclically. */
  function Rotate(y: seq<int>): seq<int> {
    if y == [] then [] else [y[|y| - 1]] + y[..|y| - 1]
  }

  /** a r + s, entry by entry */
  function Combine(a: int, r: seq<int>, s: seq<int>): (c: seq<int>)
    requires |r| == |s|
    ensures |c| == |r| && forall i :: 0 <= i < |r| ==> c[i] == s[i] + a * r[i]
  {
    seq(|r|, i requires 0 <= i < |r| => s[i] + a * r[i])
  }

  function Zeros(n: nat): (z: seq<int>)
    ensures |z| == n && forall i :: 0 <= i < n ==> z[i] == 0
  {
    seq(n, _ => 0)
  }

  /** The cyclic convolution: the sum of the rotations of y, weighted by x. */
  function Cyclic(x: seq<int>, y: seq<int>): (c: seq<int>)
    ensures |c| == |y|
  {
    if x == [] then Zeros(|y|) else Combine(x[0], y, Cyclic(x[1..], Rotate(y)))
  }

  /** Entry t of the convolution, written out: the sum of x[i] y[(t - i) mod n]. */
  function CyclicAt(x: seq<int>, y: seq<int>, t: int): int
    requires y != []
  {
    if x == [] then 0 else x[0] * y[t % |y|] + CyclicAt(x[1..], y, t - 1)
  }

  lemma {:induction false} CyclicIs(x: seq<int>, y: seq<int>, t: nat)
    requires t < |y|
    ensures Cyclic(x, y)[t] == CyclicAt(x, y, t)
  {
    hide Rotate;
    if x != [] {
      RotateLength(y);
      CyclicIs(x[1..], Rotate(y), t);
      RotatedAt(x[1..], y, t);
      DivUnique(t, |y|, 0, t);
    }
  }

  lemma {:induction false} RotatedAt(x: seq<int>, y: seq<int>, t: int)
    requires y != []
    ensures CyclicAt(x, Rotate(y), t) == CyclicAt(x, y, t - 1)
    decreases |x|
  {
    if x != [] {
      RotatedAt(x[1..], y, t - 1);
      RotatedIndex(y, t);
    }
  }

  lemma RotatedIndex(y: seq<int>, t: int)
    requires y != []
    ensures Rotate(y)[t % |y|] == y[(t - 1) % |y|]
  {
    var n := |y|;
    var q, r := t / n, t % n;
    assert t == q * n + r;
    if r == 0 {
      Distrib(n, q, 1);
      DivUnique(t - 1, n, q - 1, n - 1);
    } else {
      DivUnique(t - 1, n, q, r - 1);
    }
  }

  /** Rotating multiplies by z when z^n = 1. */
  lemma EvalRotate(m: int, y: seq<int>, z: int)
    requires y != [] && Cong(m, Power(z, |y|), 1)
    ensures Cong(m, Eval(Rotate(y), z), z * Eval(y, z))
  {
    hide *;
    var n := |y| - 1;
    RotateEval(y, z);
    PowerNext(z, n);
    RotateWord(m, y[n], Eval(y[..n], z), Power(z, n), z);
  }

  lemma RotateEval(y: seq<int>, z: int)
    requires y != []
    ensures var n := |y| - 1;
      Eval(y, z) == Eval(y[..n], z) + Power(z, n) * y[n] && Eval(Rotate(y), z) == y[n] + z * Eval(y[..n], z)
  {
    hide Power;
    var n := |y| - 1;
    assert y == y[..n] + [y[n]];
    EvalConcat(y[..n], [y[n]], z);
    EvalSingle(y[n], z);
    assert Rotate(y)[1..] == y[..n];
  }

  lemma RotateWord(m: int, last: int, e: int, q: int, z: int)
    requires Cong(m, z * q, 1)
    ensures Cong(m, last + z * e, z * (e + q * last))
  {
    hide Cong;
    Distrib(z, e, q * last);
    Assoc(z, q, last);
    CongSelf(m, last);
    CongSym(m, z * q, 1);
    CongMul(m, 1, last, z * q, last);
    OneTimes(last);
    CongSelf(m, z * e);
    CongAdd(m, last, z * e, (z * q) * last, z * e);
  }

  lemma {:induction false} EvalZeros(n: nat, z: int)
    ensures Eval(Zeros(n), z) == 0
  {
    if n > 0 {
      assert Zeros(n)[1..] == Zeros(n - 1);
      EvalZeros(n - 1, z);
    }
  }

  lemma RotateLength(y: seq<int>)
    ensures |Rotate(y)| == |y|
  {
  }

  /** The transform of a convolution is the product of the transforms. */
  lemma {:induction false} EvalCyclic(m: int, x: seq<int>, y: seq<int>, z: int)
    requires y != [] && Cong(m, Power(z, |y|), 1)
    ensures Cong(m, Eval(Cyclic(x, y), z), Eval(x, z) * Eval(y, z))
    decreases |x|
  {
    hide Cong, Power, Rotate;
    if x == [] {
      EvalZeros(|y|, z);
      CongSelf(m, 0);
    } else {
      RotateLength(y);
      var c, rest := Cyclic(x, y), Cyclic(x[1..], Rotate(y));
      assert c == Combine(x[0], y, rest);
      forall i | 0 <= i < |c|
        ensures Cong(m, c[i], rest[i] + x[0] * y[i])
      {
        CongSelf(m, c[i]);
      }
      EvalBlend(m, c, rest, y, x[0], z);
      EvalCyclic(m, x[1..], Rotate(y), z);
      EvalRotate(m, y, z);
      ProductStep(m, x[0], Eval(x[1..], z), Eval(y, z), Eval(Rotate(y), z), Eval(rest, z), Eval(c, z), z);
    }
  }

  lemma ProductStep(m: int, x0: int, xs: int, e: int, e': int, rest: int, c: int, z: int)
    requires Cong(m, rest, xs * e') && Cong(m, e', z * e) && Cong(m, c, rest + x0 * e)
    ensures Cong(m, c, (x0 + z * xs) * e)
  {
    hide Cong;
    CongSelf(m, xs);
    CongMul(m, xs, e', xs, z * e);
    CongTrans(m, rest, xs * e', xs * (z * e));
    CongSelf(m, x0 * e);
    CongAdd(m, rest, x0 * e, xs * (z * e), x0 * e);
    CongTrans(m, c, rest + x0 * e, xs * (z * e) + x0 * e);
    Distrib(e, x0, z * xs);
    assert xs * (z * e) == (z * xs) * e by { Assoc(xs, z, e); }
  }

  // ---- the sum of the powers of a root of unity

  /** 1 + u + ... + u^(n - 1) */
  function Geo(n: nat, u: int): int {
    if n == 0 then 0 else 1 + u * Geo(n - 1, u)
  }

  lemma {:induction false} GeoAdd(i: nat, j: nat, u: int)
    ensures Geo(i + j, u) == Geo(i, u) + Power(u, i) * Geo(j, u)
    decreases i
  {
    if i > 0 {
      GeoAdd(i - 1, j, u);
      Distrib(u, Geo(i - 1, u), Power(u, i - 1) * Geo(j, u));
      Assoc(u, Power(u, i - 1), Geo(j, u));
    }
  }

  lemma {:induction false} GeoOne(m: int, n: nat, u: int)
    requires Cong(m, u, 1)
    ensures Cong(m, Geo(n, u), n)
  {
    hide Cong;
    if n == 0 {
      CongSelf(m, 0);
    } else {
      GeoOne(m, n - 1, u);
      CongMul(m, u, Geo(n - 1, u), 1, n - 1);
      CongSelf(m, 1);
      CongAdd(m, 1, u * Geo(n - 1, u), 1, 1 * (n - 1));
    }
  }

  lemma {:induction false} GeoCong(m: int, n: nat, u: int, v: int)
    requires Cong(m, u, v)
    ensures Cong(m, Geo(n, u), Geo(n, v))
  {
    hide Cong;
    if n == 0 {
      CongSelf(m, 0);
    } else {
      GeoCong(m, n - 1, u, v);
      CongMul(m, u, Geo(n - 1, u), v, Geo(n - 1, v));
      CongSelf(m, 1);
      CongAdd(m, 1, u * Geo(n - 1, u), 1, v * Geo(n - 1, v));
    }
  }

  /** Doubling: Geo(2h) = Geo(h) (1 + u^h), zero as soon as a factor is. */
  lemma GeoDouble(m: int, h: nat, u: int)
    requires Cong(m, Power(u, h), -1) || Cong(m, Geo(h, u), 0)
    ensures Cong(m, Geo(2 * h, u), 0)
  {
    hide Cong, Power, Geo;
    GeoAdd(h, h, u);
    var g, p := Geo(h, u), Power(u, h);
    assert h + h == 2 * h;
    if Cong(m, p, -1) {
      CongSelf(m, g);
      CongMul(m, p, g, -1, g);
      CongAdd(m, g, p * g, g, -1 * g);
    } else {
      CongSelf(m, p);
      CongMul(m, p, g, p, 0);
      CongAdd(m, g, p * g, 0, p * 0);
    }
  }

  /** The powers of v^e sum to zero for every e that is not a multiple of 2^k, when v^(2^(k - 1)) = -1. */
  lemma {:induction false} GeoZero(m: int, v: int, k: nat, e: nat)
    requires 1 <= k && 0 < e < Pow(2, k) && Cong(m, Power(v, Pow(2, k - 1)), -1)
    ensures Cong(m, Geo(Pow(2, k), Power(v, e)), 0)
    decreases k
  {
    hide Cong, Power, Geo;
    var h, u := Pow(2, k - 1), Power(v, e);
    assert Pow(2, k) == 2 * h;
    if e % 2 == 1 {
      PowerMul(v, e, h);
      PowerMul(v, h, e);
      assert e * h == h * e;
      PowerCong(m, Power(v, h), -1, e);
      PowerOne(e);
    } else {
      assert k >= 2 by { SmallEven(k, e); }
      PowerMul(v, 2, e / 2);
      PowerMul(v, 2, Pow(2, k - 2));
      assert Pow(2, k - 1) == 2 * Pow(2, k - 2);
      GeoZero(m, Power(v, 2), k - 1, e / 2);
    }
    GeoDouble(m, h, u);
  }

  lemma SmallEven(k: nat, e: nat)
    requires 1 <= k && 0 < e < Pow(2, k) && e % 2 == 0
    ensures k >= 2
  {
    if k == 1 {
      PowOne();
    }
  }
}

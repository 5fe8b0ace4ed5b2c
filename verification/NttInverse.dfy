/** The inverse transform, and ntt_conv: the cyclic convolution of two buffers. */
module NttInverse {
  import opened Limbs
  import opened LimbKernels
  import opened NttPoly
  import opened NttStage
  import opened NttWord
  import opened NttFft
  import opened NttCyclic

  /** The values of the polynomial c at the powers of w. */
  function Values(c: seq<int>, w: int, n: nat): (v: seq<int>)
    ensures |v| == n && forall j :: 0 <= j < n ==> v[j] == Eval(c, Power(w, j))
  {
    seq(n, j requires 0 <= j < n => Eval(c, Power(w, j)))
  }

  /** The sum of c[i] (1 + u + ... + u^(n - 1)) over the coefficients, with u = w^i g. */
  function Weighted(c: seq<int>, w: int, n: nat, g: int): int {
    if c == [] then 0 else c[0] * Geo(n, g) + Weighted(c[1..], w, n, w * g)
  }

  lemma {:induction false} EvalOnes(y: seq<int>, z: int)
    requires forall i :: 0 <= i < |y| ==> y[i] == 1
    ensures Eval(y, z) == Geo(|y|, z)
  {
    if y != [] {
      EvalOnes(y[1..], z);
    }
  }

  function Ones(n: nat): (z: seq<int>)
    ensures |z| == n && forall i :: 0 <= i < n ==> z[i] == 1
  {
    seq(n, _ => 1)
  }

  function Twisted(v: seq<int>, w: int): (t: seq<int>)
    ensures |t| == |v| && forall j :: 0 <= j < |v| ==> t[j] == Power(w, j) * v[j]
  {
    seq(|v|, j requires 0 <= j < |v| => Power(w, j) * v[j])
  }

  /** Exchanging the two sums. */
  lemma {:induction false} ValuesEval(m: int, c: seq<int>, w: int, n: nat, g: int)
    ensures Cong(m, Eval(Values(c, w, n), g), Weighted(c, w, n, g))
    decreases |c|
  {
    hide Cong, Power, Geo;
    if c == [] {
      assert Values(c, w, n) == Zeros(n);
      EvalZeros(n, g);
      CongSelf(m, 0);
    } else {
      var v, rest := Values(c, w, n), Values(c[1..], w, n);
      var t := Twisted(rest, w);
      forall j | 0 <= j < n
        ensures Cong(m, v[j], t[j] + c[0] * Ones(n)[j])
      {
        CongSelf(m, v[j]);
      }
      EvalBlend(m, v, t, Ones(n), c[0], g);
      EvalOnes(Ones(n), g);
      forall j | 0 <= j < n
        ensures Cong(m, t[j], Power(w, j) * rest[j])
      {
        CongSelf(m, t[j]);
      }
      EvalTwisted(m, t, rest, w, g);
      ValuesEval(m, c[1..], w, n, w * g);
      CongTrans(m, Eval(t, g), Eval(rest, w * g), Weighted(c[1..], w, n, w * g));
      CongSelf(m, c[0] * Geo(n, g));
      CongAdd(m, Eval(t, g), c[0] * Geo(n, g), Weighted(c[1..], w, n, w * g), c[0] * Geo(n, g));
      CongTrans(m, Eval(v, g), Eval(t, g) + c[0] * Geo(n, g), Weighted(c[1..], w, n, w * g) + c[0] * Geo(n, g));
    }
  }

  /** w and w' are inverse roots of order 2^k. */
  ghost predicate InverseRoots(m: int, w: int, w': int, k: nat) {
    && 1 <= k && Cong(m, w * w', 1) && Cong(m, Power(w, Pow(2, k - 1)), -1) && Cong(m, Power(w', Pow(2, k - 1)), -1)
  }

  /** w^i w'^t, by which of the exponents is larger. */
  lemma MixedPower(m: int, w: int, w': int, i: nat, t: nat)
    requires Cong(m, w * w', 1)
    ensures Cong(m, Power(w, i) * Power(w', t), if i >= t then Power(w, i - t) else Power(w', t - i))
  {
    hide Cong, Power;
    var s := if i >= t then t else i;
    PowerProduct(w, w', s);
    PowerCong(m, w * w', 1, s);
    PowerOne(s);
    PowerAdd(w, i - s, s);
    PowerAdd(w', s, t - s);
    PowerZero(w);
    PowerZero(w');
    var x, y := Power(w, i - s), Power(w', t - s);
    MixArith(x, Power(w, s), Power(w', s), y);
    CongSelf(m, x * y);
    CongMul(m, x * y, Power(w, s) * Power(w', s), x * y, 1);
    assert (x * y) * 1 == x * y;
  }

  lemma PowerZero(w: int)
    ensures Power(w, 0) == 1
  {
  }

  lemma MixArith(x: int, a: int, b: int, y: int)
    ensures (x * a) * (b * y) == (x * y) * (a * b)
  {
    Assoc(x * a, b, y);
    Assoc(x, a, b);
    Assoc(x, a * b, y);
    Assoc(x, y, a * b);
  }

  /** The geometric sum at w^i w'^t is n for i = t and zero otherwise. */
  lemma Orthogonal(m: int, w: int, w': int, k: nat, i: nat, t: nat)
    requires InverseRoots(m, w, w', k) && i < Pow(2, k) && t < Pow(2, k)
    ensures Cong(m, Geo(Pow(2, k), Power(w, i) * Power(w', t)), if i == t then Pow(2, k) else 0)
  {
    hide Cong, Power, Geo, Pow;
    var n := Pow(2, k);
    MixedPower(m, w, w', i, t);
    var u, v := Power(w, i) * Power(w', t), if i >= t then Power(w, i - t) else Power(w', t - i);
    if i == t {
      PowerZero(w);
      GeoOne(m, n, u);
    } else {
      GeoCong(m, n, u, v);
      if i > t {
        GeoZero(m, w, k, i - t);
      } else {
        GeoZero(m, w', k, t - i);
      }
      CongTrans(m, Geo(n, u), Geo(n, v), 0);
    }
  }

  /** Only coefficient t is left. */
  lemma {:induction false} Picked(m: int, c: seq<int>, w: int, w': int, k: nat, t: nat, i: nat)
    requires InverseRoots(m, w, w', k) && |c| == Pow(2, k) && t < |c| && i <= |c|
    ensures Cong(m, Weighted(c[i..], w, |c|, Power(w, i) * Power(w', t)), if i <= t then |c| * c[t] else 0)
    decreases |c| - i
  {
    hide Cong, Power, Geo, Pow;
    var n := |c|;
    var g := Power(w, i) * Power(w', t);
    if i == n {
      CongSelf(m, 0);
    } else {
      Picked(m, c, w, w', k, t, i + 1);
      Orthogonal(m, w, w', k, i, t);
      PowerNext(w, i);
      Assoc(w, Power(w, i), Power(w', t));
      assert c[i..][0] == c[i] && c[i..][1..] == c[i + 1..];
      CongSelf(m, c[i]);
      CongMul(m, c[i], Geo(n, g), c[i], if i == t then n else 0);
      var rest := Weighted(c[i + 1..], w, n, w * g);
      CongAdd(m, c[i] * Geo(n, g), rest, c[i] * (if i == t then n else 0), if i + 1 <= t then n * c[t] else 0);
      PickArith(c[i], n, i == t);
    }
  }

  lemma PickArith(x: int, n: int, here: bool)
    ensures x * (if here then n else 0) == if here then n * x else 0
  {
  }

  /** The inverse transform of norm times the transform gives the coefficients back, times norm and the length. */
  lemma InverseCorrect(m: int, c: seq<int>, p: seq<int>, w: int, w': int, k: nat, norm: int, t: nat)
    requires InverseRoots(m, w, w', k) && |c| == |p| == Pow(2, k) && t < |c|
    requires forall j :: 0 <= j < |p| ==> Cong(m, p[j], norm * Eval(c, Power(w, j)))
    ensures Cong(m, Eval(p, Power(w', t)), norm * (|c| * c[t]))
  {
    hide Cong, Power, Pow, Eval;
    var n, g := |c|, Power(w', t);
    var v := Values(c, w, n);
    forall j | 0 <= j < |p|
      ensures Cong(m, p[j], Zeros(n)[j] + norm * v[j])
    {
    }
    EvalBlend(m, p, Zeros(n), v, norm, g);
    EvalZeros(n, g);
    ValuesEval(m, c, w, n, g);
    Picked(m, c, w, w', k, t, 0);
    assert c[0..] == c;
    PowerZero(w);
    OneTimes(g);
    CongTrans(m, Eval(v, g), Weighted(c, w, n, g), n * c[t]);
    CongSelf(m, norm);
    CongMul(m, norm, Eval(v, g), norm, n * c[t]);
    CongTrans(m, Eval(p, g), norm * Eval(v, g), norm * (n * c[t]));
  }

  // ---- ntt_vec_mul and ntt_conv

  /** The inverse of 2^k, by repeated multiplication with (m + 1) / 2: ntt_len_inv */
  method LengthInverse(b: nat, p: nat, m: nat, k: nat) returns (c: nat)
    requires Modulus(b, p, m) && m % 2 == 1
    ensures c < m && Cong(m, c * Pow(2, k), 1)
  {
    hide Cong, Pow, ModFast, InverseMod;
    var half := (m + 1) / 2;
    c := 1;
    var i := 0;
    HalfStart(m);
    while i < k
      invariant 0 <= i <= k && c < m && Cong(m, c * Pow(2, i), 1)
    {
      SmallProduct(b, p, m, c, half);
      ModFastCorrect(b, p, c * half, m);
      var d := ModFast(b, p, c * half, m, InverseMod(b, p, m));
      HalfStep(m, c, d, half, i);
      c, i := d, i + 1;
    }
  }

  lemma HalfStart(m: int)
    ensures Cong(m, 1 * Pow(2, 0), 1)
  {
    CongSelf(m, 1);
  }

  lemma HalfStep(m: nat, c: nat, d: int, half: nat, i: nat)
    requires 2 * half == m + 1 && Cong(m, d, c * half) && Cong(m, c * Pow(2, i), 1)
    ensures Cong(m, d * Pow(2, i + 1), 1)
  {
    hide Cong;
    var e := Pow(2, i);
    CongSelf(m, 2 * e);
    CongMul(m, d, 2 * e, c * half, 2 * e);
    assert (c * half) * (2 * e) == (c * e) * (2 * half) by { MixArith(c, half, 2, e); assert half * 2 == 2 * half; }
    CongBy(m, 2 * half, 1, 1);
    CongMul(m, c * e, 2 * half, 1, 1);
    CongTrans(m, d * (2 * e), (c * e) * (2 * half), 1);
  }

  /** Products of a reduced and an unreduced entry fit the range of mod_fast. */
  lemma SmallProduct(b: nat, p: nat, m: nat, x: nat, y: nat)
    requires Modulus(b, p, m) && x < m && y < 2 * m
    ensures x * y < b * p
  {
    MulMono(x, 2 * p, y);
    MulMono(y, 4 * p, 2 * p);
    if x == 0 || y == 0 {
      MulPositive(b, p);
    } else {
      MulStrict(x, 2 * p, y);
    }
    assert (2 * p) * (4 * p) == (8 * p) * p;
  }

  /** One entry: the product of the transforms and the norm. */
  lemma VecWord(b: nat, p: nat, m: nat, x: nat, y: nat, norm: nat)
    requires Modulus(b, p, m) && x < 2 * m && y < 2 * m && norm < m
    ensures var x' := if x >= m then x - m else x; var z := ModFast(b, p, x' * y, m, InverseMod(b, p, m));
      0 <= z < m && var r := MulFast3(b, z, norm, m, Inverse2(b, norm, m)); r < 2 * m && Cong(m, r, norm * (x * y))
  {
    hide Cong, ModFast, InverseMod, MulFast3, Inverse2;
    var x' := if x >= m then x - m else x;
    CongSelf(m, x);
    Reduced(m, x, x);
    SmallProduct(b, p, m, x', y);
    ModFastCorrect(b, p, x' * y, m);
    var z: nat := ModFast(b, p, x' * y, m, InverseMod(b, p, m));
    CongSelf(m, y);
    CongMul(m, x', y, x, y);
    CongTrans(m, z, x' * y, x * y);
    MulFast3Correct(b, z, norm, m);
    CongSelf(m, norm);
    CongMul(m, z, norm, x * y, norm);
    CongTrans(m, MulFast3(b, z, norm, m, Inverse2(b, norm, m)), z * norm, (x * y) * norm);
    NttFft.Swap(x * y, norm);
  }

  /** z is below 2m and congruent to norm x y. */
  ghost predicate Scaled(m: nat, norm: nat, x: nat, y: nat, z: nat) {
    z < 2 * m && Cong(m, z, norm * (x * y))
  }

  lemma ScaledIs(m: nat, norm: nat, x: nat, y: nat, z: nat)
    ensures Scaled(m, norm, x, y, z) <==> z < 2 * m && Cong(m, z, norm * (x * y))
  {
    hide Cong;
  }

  /** ntt_vec_mul */
  method VecMul(b: nat, p: nat, m: nat, tab1: array<nat>, tab2: seq<nat>, norm: nat)
    requires Modulus(b, p, m) && tab1.Length == |tab2| && Below(tab1[..], 2 * m) && Below(tab2, 2 * m) && norm < m
    modifies tab1
    ensures Below(tab1[..], 2 * m)
    ensures forall j :: 0 <= j < |tab2| ==> Cong(m, tab1[j], norm * (old(tab1[j]) * tab2[j]))
  {
    hide Cong, ModFast, InverseMod, MulFast3, Inverse2, Scaled;
    ghost var s := tab1[..];
    var i := 0;
    while i < |tab2|
      invariant 0 <= i <= |tab2|
      invariant forall j :: i <= j < |tab2| ==> tab1[j] == s[j]
      invariant forall j :: 0 <= j < i ==> Scaled(m, norm, s[j], tab2[j], tab1[j])
    {
      var a := tab1[i];
      VecWord(b, p, m, a, tab2[i], norm);
      if a >= m {
        a := a - m;
      }
      a := ModFast(b, p, a * tab2[i], m, InverseMod(b, p, m));
      tab1[i] := MulFast3(b, a, norm, m, Inverse2(b, norm, m));
      ScaledIs(m, norm, s[i], tab2[i], tab1[i]);
      i := i + 1;
    }
    forall j | 0 <= j < |tab2|
      ensures tab1[j] < 2 * m && Cong(m, tab1[j], norm * (s[j] * tab2[j]))
    {
      ScaledIs(m, norm, s[j], tab2[j], tab1[j]);
    }
  }

  /** The powers of a root of order n, to the n-th, are one. */
  lemma UnitPower(m: int, w: int, k: nat, j: nat)
    requires 1 <= k && Cong(m, Power(w, Pow(2, k - 1)), -1)
    ensures Cong(m, Power(Power(w, j), Pow(2, k)), 1)
  {
    hide Cong, Power;
    var h := Pow(2, k - 1);
    assert Pow(2, k) == 2 * h;
    PowerMul(w, j, 2 * h);
    PowerMul(w, h, 2 * j);
    assert j * (2 * h) == h * (2 * j);
    PowerCong(m, Power(w, h), -1, 2 * j);
    PowerOne(2 * j);
  }

  /** The product of the transforms is the transform of the convolution. */
  lemma ProductOfTransforms(m: nat, w: int, k: nat, x: seq<int>, y: seq<int>, tx: seq<int>, ty: seq<int>, p: seq<int>,
      norm: int, j: nat)
    requires 1 <= k && Cong(m, Power(w, Pow(2, k - 1)), -1) && |x| == |y| == Pow(2, k) && j < |x|
    requires IsTransform(m, w, x, tx) && IsTransform(m, w, y, ty) && |p| == |x| && Cong(m, p[j], norm * (tx[j] * ty[j]))
    ensures Cong(m, p[j], norm * Eval(Cyclic(x, y), Power(w, j)))
  {
    hide Cong, Power, Pow, Eval, Cyclic;
    var z := Power(w, j);
    UnitPower(m, w, k, j);
    EvalCyclic(m, x, y, z);
    CongMul(m, tx[j], ty[j], Eval(x, z), Eval(y, z));
    CongSym(m, Eval(Cyclic(x, y), z), Eval(x, z) * Eval(y, z));
    CongTrans(m, tx[j] * ty[j], Eval(x, z) * Eval(y, z), Eval(Cyclic(x, y), z));
    CongSelf(m, norm);
    CongMul(m, norm, tx[j] * ty[j], norm, Eval(Cyclic(x, y), z));
    CongTrans(m, p[j], norm * (tx[j] * ty[j]), norm * Eval(Cyclic(x, y), z));
  }

  /** ntt_conv for a length within one transform: buf1 becomes the cyclic convolution of buf1 and buf2 modulo m,
      times the length and the factor norm of ntt_vec_mul. */
  method ConvolveOnce(b: nat, p: nat, m: nat, roots: seq<nat>, inverses: seq<nat>, k: nat, norm: nat, buf1: array<nat>,
      buf2: array<nat>)
    requires Modulus(b, p, m) && norm < m && RootChain(m, roots, k) && RootChain(m, inverses, k)
      && Cong(m, roots[k] * inverses[k], 1)
    requires buf1 != buf2 && buf1.Length == buf2.Length == Pow(2, k)
    requires Below(buf1[..], 2 * m) && Below(buf2[..], 2 * m)
    modifies buf1, buf2
    ensures Below(buf1[..], 2 * m)
    ensures IsConvolution(m, norm, old(buf1[..]), old(buf2[..]), buf1[..])
  {
    hide Cong, Power, Pow, IsTransform, RootChain, Eval, Cyclic, CyclicAt, Below, IsConvolution;
    ghost var x, y := buf1[..], buf2[..];
    PowPositive(2, k);
    var tmp := new nat[Pow(2, k)];
    Fft(b, m, roots, k, buf1, tmp);
    ghost var tx := buf1[..];
    Fft(b, m, roots, k, buf2, tmp);
    ghost var ty := buf2[..];
    VecMul(b, p, m, buf1, buf2[..], norm);
    ghost var q := buf1[..];
    ProductArray(m, roots, k, x, y, tx, ty, q, norm);
    Fft(b, m, inverses, k, buf1, tmp);
    ConvolutionCorrect(m, roots, inverses, k, x, y, q, norm, buf1[..]);
  }

  /** r is norm times the length times the cyclic convolution of x and y, modulo m. */
  ghost predicate IsConvolution(m: nat, norm: int, x: seq<int>, y: seq<int>, r: seq<int>) {
    |x| == |y| == |r| > 0 && forall t :: 0 <= t < |r| ==> Cong(m, r[t], norm * (|x| * CyclicAt(x, y, t)))
  }

  lemma ProductArray(m: nat, roots: seq<nat>, k: nat, x: seq<int>, y: seq<int>, tx: seq<int>, ty: seq<int>, q: seq<int>,
      norm: int)
    requires RootChain(m, roots, k) && |x| == |y| == Pow(2, k) && |q| == |tx| == |ty| == |x|
    requires IsTransform(m, roots[k], x, tx) && IsTransform(m, roots[k], y, ty)
    requires forall j :: 0 <= j < |q| ==> Cong(m, q[j], norm * (tx[j] * ty[j]))
    ensures forall j :: 0 <= j < |q| ==> Cong(m, q[j], norm * Eval(Cyclic(x, y), Power(roots[k], j)))
  {
    hide Cong, Power, Pow, Eval, Cyclic, IsTransform;
    RootHalf(m, roots, k);
    forall j | 0 <= j < |q|
      ensures Cong(m, q[j], norm * Eval(Cyclic(x, y), Power(roots[k], j)))
    {
      ProductOfTransforms(m, roots[k], k, x, y, tx, ty, q, norm, j);
    }
  }

  lemma ConvolutionCorrect(m: nat, roots: seq<nat>, inverses: seq<nat>, k: nat, x: seq<int>, y: seq<int>, q: seq<int>,
      norm: int, r: seq<int>)
    requires RootChain(m, roots, k) && RootChain(m, inverses, k) && Cong(m, roots[k] * inverses[k], 1)
      && |x| == |y| == |q| == Pow(2, k) > 0
    requires IsTransform(m, inverses[k], q, r)
    requires forall j :: 0 <= j < |q| ==> Cong(m, q[j], norm * Eval(Cyclic(x, y), Power(roots[k], j)))
    ensures IsConvolution(m, norm, x, y, r)
  {
    hide Cong, Power, Pow, Eval, Cyclic, CyclicAt, RootChain;
    ChainLength(m, roots, k);
    ChainLength(m, inverses, k);
    RootHalf(m, roots, k);
    RootHalf(m, inverses, k);
    forall t | 0 <= t < |r|
      ensures Cong(m, r[t], norm * (|x| * CyclicAt(x, y, t)))
    {
      InverseCorrect(m, Cyclic(x, y), q, roots[k], inverses[k], k, norm, t);
      CyclicIs(x, y, t);
      CongTrans(m, r[t], Eval(q, Power(inverses[k], t)), norm * (|x| * Cyclic(x, y)[t]));
    }
  }
}

/** The cyclic convolution of digit strings that are short enough is their exact product. */
module NttExact {
  import opened Limbs
  import opened NttPoly
  import opened NttStage
  import opened NttFft
  import opened NttCyclic
  import opened NttSplit

  lemma {:induction false} EvalIsVal(s: seq<nat>, b: nat)
    ensures Eval(s, b) == Val(b, s)
  {
    if s != [] {
      EvalIsVal(s[1..], b);
    }
  }

  lemma CongZero(x: int, y: int)
    requires Cong(0, x, y)
    ensures x == y
  {
  }

  lemma {:induction false} CyclicOfZeros(x: seq<int>, y: seq<int>)
    requires forall i :: 0 <= i < |x| ==> x[i] == 0
    ensures Cyclic(x, y) == Zeros(|y|)
    decreases |x|
  {
    hide Rotate;
    if x != [] {
      RotateLength(y);
      CyclicOfZeros(x[1..], Rotate(y));
    }
  }

  lemma EvalAllZero(x: seq<int>, z: int)
    requires forall i :: 0 <= i < |x| ==> x[i] == 0
    ensures Eval(x, z) == 0
  {
    assert x == Zeros(|x|);
    EvalZeros(|x|, z);
  }

  /** Rotating is multiplying by z when the last coefficient is zero. */
  lemma RotateExact(y: seq<int>, z: int)
    requires y != [] && y[|y| - 1] == 0
    ensures Eval(Rotate(y), z) == z * Eval(y, z)
  {
    hide Eval, Power, Rotate;
    RotateEval(y, z);
    assert Power(z, |y| - 1) * 0 == 0;
  }

  lemma CombineEval(a: int, r: seq<int>, s: seq<int>, z: int)
    requires |r| == |s|
    ensures Eval(Combine(a, r, s), z) == Eval(s, z) + a * Eval(r, z)
  {
    hide Cong, Eval;
    var c := Combine(a, r, s);
    forall i | 0 <= i < |c|
      ensures Cong(0, c[i], s[i] + a * r[i])
    {
      CongSelf(0, c[i]);
    }
    EvalBlend(0, c, s, r, a, z);
    CongZero(Eval(c, z), Eval(s, z) + a * Eval(r, z));
  }

  /** Nothing wraps around: x has at most l digits and y ends in l - 1 zeros. */
  ghost predicate Fits(x: seq<int>, y: seq<int>, l: nat) {
    && (forall i :: l <= i < |x| ==> x[i] == 0)
    && (forall i :: 0 <= i < |y| && i + l > |y| ==> y[i] == 0)
  }

  lemma {:induction false} ExactCyclic(x: seq<int>, y: seq<int>, z: int, l: nat)
    requires y != [] && Fits(x, y, l)
    ensures Eval(Cyclic(x, y), z) == Eval(x, z) * Eval(y, z)
    decreases |x|
  {
    hide Rotate;
    RotateLength(y);
    if l <= 1 || x == [] {
      ShortExact(x, y, z);
    } else {
      var rest := Cyclic(x[1..], Rotate(y));
      RotateFits(x, y, l);
      ExactCyclic(x[1..], Rotate(y), z, l - 1);
      CombineEval(x[0], y, rest, z);
      RotateExact(y, z);
      ExactArith(x[0], Eval(x[1..], z), Eval(y, z), z);
    }
  }

  lemma ShortExact(x: seq<int>, y: seq<int>, z: int)
    requires y != [] && forall i :: 1 <= i < |x| ==> x[i] == 0
    ensures Eval(Cyclic(x, y), z) == Eval(x, z) * Eval(y, z)
  {
    hide Rotate;
    if x == [] {
      EvalZeros(|y|, z);
    } else {
      RotateLength(y);
      var rest := Cyclic(x[1..], Rotate(y));
      CyclicOfZeros(x[1..], Rotate(y));
      EvalAllZero(x[1..], z);
      EvalZeros(|y|, z);
      CombineEval(x[0], y, rest, z);
    }
  }

  lemma RotateFits(x: seq<int>, y: seq<int>, l: nat)
    requires x != [] && y != [] && Fits(x, y, l) && l >= 2
    ensures Fits(x[1..], Rotate(y), l - 1) && y[|y| - 1] == 0
  {
  }

  lemma ExactArith(x0: int, xs: int, e: int, z: int)
    ensures xs * (z * e) + x0 * e == (x0 + z * xs) * e
  {
    Distrib(e, x0, z * xs);
    Assoc(xs, z, e);
  }

  // ---- the coefficients

  lemma {:induction false} CyclicAtCong(m: int, x: seq<int>, y: seq<int>, x': seq<int>, y': seq<int>, t: int)
    requires |x| == |x'| && |y| == |y'| > 0
    requires forall i :: 0 <= i < |x| ==> Cong(m, x[i], x'[i])
    requires forall i :: 0 <= i < |y| ==> Cong(m, y[i], y'[i])
    ensures Cong(m, CyclicAt(x, y, t), CyclicAt(x', y', t))
    decreases |x|
  {
    hide Cong;
    if x == [] {
      CongSelf(m, 0);
    } else {
      CyclicAtCong(m, x[1..], y, x'[1..], y', t - 1);
      var i := t % |y|;
      CongMul(m, x[0], y[i], x'[0], y'[i]);
      CongAdd(m, x[0] * y[i], CyclicAt(x[1..], y, t - 1), x'[0] * y'[i], CyclicAt(x'[1..], y', t - 1));
    }
  }

  /** A sum of |x| products of digits below d. */
  lemma {:induction false} CyclicAtBound(x: seq<nat>, y: seq<nat>, t: int, d: nat)
    requires y != [] && d > 0 && (forall i :: 0 <= i < |x| ==> x[i] < d) && forall i :: 0 <= i < |y| ==> y[i] < d
    ensures 0 <= CyclicAt(x, y, t) && (x == [] ==> CyclicAt(x, y, t) == 0)
      && (x != [] ==> CyclicAt(x, y, t) < |x| * (d * d))
    decreases |x|
  {
    if x != [] {
      var i := t % |y|;
      CyclicAtBound(x[1..], y, t - 1, d);
      ProductBound(x[0], y[i], d);
      Distrib(d * d, |x| - 1, 1);
      assert |x| == 1 ==> (|x| - 1) * (d * d) == 0;
    }
  }

  lemma ProductBound(x: nat, y: nat, d: nat)
    requires x < d && y < d
    ensures 0 <= x * y < d * d
  {
    MulMono(0, x, y);
    MulMono(x, d, y);
    MulStrict(y, d, d);
  }

  lemma CyclicAtNat(x: seq<nat>, y: seq<nat>, t: int)
    requires y != []
    ensures CyclicAt(x, y, t) >= 0
  {
    var d := Largest(x + y) + 1;
    assert forall i :: 0 <= i < |x| ==> x[i] == (x + y)[i];
    assert forall i :: 0 <= i < |y| ==> y[i] == (x + y)[|x| + i];
    CyclicAtBound(x, y, t, d);
  }

  function Largest(s: seq<nat>): (r: nat)
    ensures forall i :: 0 <= i < |s| ==> s[i] <= r
  {
    if s == [] then 0 else
    var r := Largest(s[1..]);
    assert forall i :: 1 <= i < |s| ==> s[i] == s[1..][i - 1];
    if s[0] > r then s[0] else r
  }

  /** The coefficients of the cyclic product. */
  function Coefficients(x: seq<nat>, y: seq<nat>): (c: seq<nat>)
    ensures |c| == |y| && forall t :: 0 <= t < |y| ==> c[t] == CyclicAt(x, y, t)
  {
    seq(|y|, t requires 0 <= t < |y| => Coefficient(x, y, t))
  }

  function Coefficient(x: seq<nat>, y: seq<nat>, t: int): nat
    requires y != []
  {
    CyclicAtNat(x, y, t);
    CyclicAt(x, y, t)
  }

  lemma CoefficientsExact(x: seq<nat>, y: seq<nat>, b: nat, l: nat)
    requires y != [] && Fits(x, y, l)
    ensures Val(b, Coefficients(x, y)) == Val(b, x) * Val(b, y)
  {
    hide Eval, Val, Cyclic, CyclicAt;
    var c := Coefficients(x, y);
    forall t | 0 <= t < |y|
      ensures c[t] == Cyclic(x, y)[t]
    {
      CyclicIs(x, y, t);
    }
    assert c == Cyclic(x, y);
    ExactCyclic(x, y, b, l);
    EvalIsVal(c, b);
    EvalIsVal(x, b);
    EvalIsVal(y, b);
  }
}

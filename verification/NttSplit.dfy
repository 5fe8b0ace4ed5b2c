/** Long convolutions: the split of a transform of length n1 f into columns and rows. */
module NttSplit {
  import opened Limbs
  import opened NttPoly
  import opened NttStage
  import opened NttWord
  import opened NttFft
  import opened NttCyclic
  import opened NttInverse

  // ---- polynomials modulo X^f - g

  /** The polynomial x of n1 blocks of f coefficients, with X^f replaced by g. */
  function Folded(x: seq<int>, f: nat, n1: nat, g: int): (r: seq<int>)
    ensures |r| == f && forall j :: 0 <= j < f ==> r[j] == Eval(Column(x, f, n1, j), g)
  {
    seq(f, j requires 0 <= j < f => Eval(Column(x, f, n1, j), g))
  }

  lemma AtNext(f: nat, i: nat, j: nat)
    ensures At(f, i + 1, j) == At(f, i, j) + f && At(f, 0, j) == j && At(f, i, j) == At(f, i, 0) + j
  {
    Distrib(f, i, 1);
  }

  lemma ColumnNext(x: seq<int>, f: nat, n1: nat, j: nat, g: int)
    requires n1 > 0 && |x| == At(f, n1, 0) && j < f <= |x|
    ensures Eval(Column(x, f, n1, j), g) == x[j] + g * Eval(Column(x[f..], f, n1 - 1, j), g)
  {
    hide At;
    var c, d := Column(x, f, n1, j), Column(x[f..], f, n1 - 1, j);
    AtNext(f, 0, j);
    assert c[0] == x[j];
    assert c[1..] == d by {
      forall i | 0 <= i < n1 - 1
        ensures c[i + 1] == d[i]
      {
        AtNext(f, i, j);
      }
    }
  }

  /** Folding keeps the value wherever v^f = g. */
  lemma {:induction false} FoldEval(m: int, x: seq<int>, f: nat, n1: nat, g: int, v: int)
    requires |x| == At(f, n1, 0) && Cong(m, Power(v, f), g)
    ensures Cong(m, Eval(x, v), Eval(Folded(x, f, n1, g), v))
    decreases n1
  {
    hide Cong, Power, At, Column;
    AtNext(f, 0, 0);
    var r := Folded(x, f, n1, g);
    if n1 == 0 {
      assert r == Zeros(f) by {
        forall j | 0 <= j < f
          ensures r[j] == 0
        {
          EmptyColumn(x, f, j, g);
        }
      }
      EvalZeros(f, v);
      CongSelf(m, 0);
    } else {
      AtNext(f, n1 - 1, 0);
      var y, r' := x[f..], Folded(x[f..], f, n1 - 1, g);
      FoldEval(m, y, f, n1 - 1, g, v);
      forall j | 0 <= j < f
        ensures Cong(m, r[j], x[..f][j] + g * r'[j])
      {
        ColumnNext(x, f, n1, j, g);
        CongSelf(m, r[j]);
      }
      EvalBlend(m, r, x[..f], r', g, v);
      assert x == x[..f] + y;
      EvalConcat(x[..f], y, v);
      FoldStep(m, Eval(x[..f], v), Power(v, f), g, Eval(y, v), Eval(r', v), Eval(r, v));
    }
  }

  lemma EmptyColumn(x: seq<int>, f: nat, j: nat, g: int)
    ensures Eval(Column(x, f, 0, j), g) == 0
  {
    assert Column(x, f, 0, j) == [];
  }

  lemma FoldStep(m: int, e: int, p: int, g: int, ey: int, er: int, r: int)
    requires Cong(m, p, g) && Cong(m, ey, er) && Cong(m, r, e + g * er)
    ensures Cong(m, e + p * ey, r)
  {
    hide Cong;
    CongMul(m, p, ey, g, er);
    CongSelf(m, e);
    CongAdd(m, e, p * ey, e, g * er);
    CongSym(m, r, e + g * er);
    CongTrans(m, e + p * ey, e + g * er, r);
  }

  /** Row i of the split: the polynomial folded at w1^i, for w1 = w^f, and twisted by w^i. */
  function RowOf(x: seq<int>, f: nat, n1: nat, w: int, w1: int, i: nat): (r: seq<int>)
    ensures |r| == f
  {
    Twisted(Folded(x, f, n1, Power(w1, i)), Power(w, i))
  }

  lemma RowEntry(x: seq<int>, f: nat, n1: nat, w: int, w1: int, i: nat, j: nat)
    requires j < f
    ensures RowOf(x, f, n1, w, w1, i)[j] == Power(Power(w, i), j) * Eval(Column(x, f, n1, j), Power(w1, i))
  {
  }

  /** A row at an f-th root of unity z is the polynomial at w^i z. */
  lemma RowEval(m: int, x: seq<int>, f: nat, n1: nat, w: int, w1: int, i: nat, z: int)
    requires |x| == At(f, n1, 0) && Cong(m, w1, Power(w, f)) && Cong(m, Power(z, f), 1)
    ensures Cong(m, Eval(RowOf(x, f, n1, w, w1, i), z), Eval(x, Power(w, i) * z))
  {
    hide Cong, Power, At, Column, Eval;
    var g, v := Power(w1, i), Power(w, i) * z;
    var y, r := Folded(x, f, n1, g), RowOf(x, f, n1, w, w1, i);
    forall j | 0 <= j < f
      ensures Cong(m, r[j], Power(Power(w, i), j) * y[j])
    {
      CongSelf(m, r[j]);
    }
    EvalTwisted(m, r, y, Power(w, i), z);
    RowArgument(m, w, w1, f, i, z);
    FoldEval(m, x, f, n1, g, v);
    CongSym(m, Eval(x, v), Eval(y, v));
    CongTrans(m, Eval(r, z), Eval(y, v), Eval(x, v));
  }

  lemma RowArgument(m: int, w: int, w1: int, f: nat, i: nat, z: int)
    requires Cong(m, w1, Power(w, f)) && Cong(m, Power(z, f), 1)
    ensures Cong(m, Power(Power(w, i) * z, f), Power(w1, i))
  {
    hide Cong, Power;
    PowerProduct(Power(w, i), z, f);
    PowerMul(w, i, f);
    PowerMul(w, f, i);
    assert i * f == f * i;
    PowerCong(m, w1, Power(w, f), i);
    CongSym(m, Power(w1, i), Power(Power(w, f), i));
    CongMul(m, Power(Power(w, i), f), Power(z, f), Power(w1, i), 1);
    assert Power(w1, i) * 1 == Power(w1, i);
  }

  lemma {:induction false} EvalCong(m: int, x: seq<int>, y: seq<int>, z: int)
    requires |x| == |y| && forall i :: 0 <= i < |x| ==> Cong(m, x[i], y[i])
    ensures Cong(m, Eval(x, z), Eval(y, z))
  {
    hide Cong;
    if x == [] {
      CongSelf(m, 0);
    } else {
      EvalCong(m, x[1..], y[1..], z);
      CongSelf(m, z);
      CongMul(m, z, Eval(x[1..], z), z, Eval(y[1..], z));
      CongAdd(m, x[0], z * Eval(x[1..], z), y[0], z * Eval(y[1..], z));
    }
  }

  /** Rows a and b of x and y multiply to the row of the convolution, at every root. */
  lemma RowProduct(m: int, x: seq<int>, y: seq<int>, f: nat, n1: nat, w: int, w1: int, i: nat, a: seq<int>, b: seq<int>,
      z: int)
    requires |x| == |y| == At(f, n1, 0) > 0 && |a| == |b| == f > 0 && Cong(m, w1, Power(w, f))
      && Cong(m, Power(z, f), 1)
    requires Cong(m, Power(Power(w, i) * z, |x|), 1)
    requires forall j :: 0 <= j < f ==> Cong(m, a[j], RowOf(x, f, n1, w, w1, i)[j])
    requires forall j :: 0 <= j < f ==> Cong(m, b[j], RowOf(y, f, n1, w, w1, i)[j])
    ensures Cong(m, Eval(RowOf(Cyclic(x, y), f, n1, w, w1, i), z), Eval(Cyclic(a, b), z))
  {
    hide *;
    var v, c := Power(w, i) * z, Cyclic(x, y);
    var rx, ry, rc := RowOf(x, f, n1, w, w1, i), RowOf(y, f, n1, w, w1, i), RowOf(c, f, n1, w, w1, i);
    RowEval(m, x, f, n1, w, w1, i, z);
    RowEval(m, y, f, n1, w, w1, i, z);
    RowEval(m, c, f, n1, w, w1, i, z);
    EvalCong(m, a, rx, z);
    EvalCong(m, b, ry, z);
    CongTrans(m, Eval(a, z), Eval(rx, z), Eval(x, v));
    CongTrans(m, Eval(b, z), Eval(ry, z), Eval(y, v));
    CongMul(m, Eval(a, z), Eval(b, z), Eval(x, v), Eval(y, v));
    EvalCyclic(m, x, y, v);
    EvalCyclic(m, a, b, z);
    CongTrans(m, Eval(Cyclic(a, b), z), Eval(a, z) * Eval(b, z), Eval(x, v) * Eval(y, v));
    CongTrans(m, Eval(rc, z), Eval(c, v), Eval(x, v) * Eval(y, v));
    CongSym(m, Eval(Cyclic(a, b), z), Eval(x, v) * Eval(y, v));
    CongTrans(m, Eval(rc, z), Eval(x, v) * Eval(y, v), Eval(Cyclic(a, b), z));
  }

  /** The same transform: the same coefficients, up to the length. */
  lemma SameTransform(m: int, c: seq<int>, d: seq<int>, u: int, u': int, k: nat, t: nat)
    requires InverseRoots(m, u, u', k) && |c| == |d| == Pow(2, k) && t < |c|
    requires forall q :: 0 <= q < |c| ==> Cong(m, Eval(c, Power(u, q)), Eval(d, Power(u, q)))
    ensures Cong(m, |d| * d[t], |c| * c[t])
  {
    hide Cong, Power, Pow, Eval, InverseRoots;
    var p := Values(c, u, |c|);
    forall j | 0 <= j < |p|
      ensures Cong(m, p[j], 1 * Eval(c, Power(u, j))) && Cong(m, p[j], 1 * Eval(d, Power(u, j)))
    {
      CongSelf(m, p[j]);
      OneTimes(Eval(c, Power(u, j)));
      OneTimes(Eval(d, Power(u, j)));
    }
    InverseCorrect(m, c, p, u, u', k, 1, t);
    InverseCorrect(m, d, p, u, u', k, 1, t);
    OneTimes(|c| * c[t]);
    OneTimes(|d| * d[t]);
    var e := Eval(p, Power(u', t));
    CongSym(m, e, |d| * d[t]);
    CongTrans(m, |d| * d[t], e, |c| * c[t]);
  }

  /** The roots of the three lengths: w of order n1 f, w1 = w^f of order n1, u of order f = 2^k2. */
  ghost predicate SplitRoots(m: int, w: int, w1: int, u: int, k1: nat, k2: nat) {
    && 1 <= k1 && 1 <= k2 && Cong(m, w1, Power(w, Pow(2, k2))) && Cong(m, Power(w, Pow(2, k1 + k2 - 1)), -1)
    && Cong(m, Power(w1, Pow(2, k1 - 1)), -1) && Cong(m, Power(u, Pow(2, k2 - 1)), -1)
  }

  lemma SplitUnits(m: int, w: int, w1: int, u: int, k1: nat, k2: nat, i: nat, q: nat)
    requires SplitRoots(m, w, w1, u, k1, k2)
    ensures Cong(m, Power(Power(u, q), Pow(2, k2)), 1) && Cong(m, Power(Power(w, i) * Power(u, q), Pow(2, k1 + k2)), 1)
  {
    hide Cong, Power, Pow;
    var f, n1, z := Pow(2, k2), Pow(2, k1), Power(u, q);
    UnitPower(m, u, k2, q);
    UnitPower(m, w, k1 + k2, i);
    PowAdd(2, k2, k1);
    PowerProduct(Power(w, i), z, f * n1);
    PowerMul(z, f, n1);
    PowerCong(m, Power(z, f), 1, n1);
    PowerOne(n1);
    CongMul(m, Power(Power(w, i), f * n1), Power(z, f * n1), 1, 1);
  }

  /** The convolution of two rows is the row of the convolution, times f. */
  lemma RowConvolution(m: nat, x: seq<int>, y: seq<int>, w: int, w1: int, u: int, u': int, k1: nat, k2: nat, i: nat,
      a: seq<int>, b: seq<int>, norm: int, r: seq<int>, t: nat)
    requires SplitRoots(m, w, w1, u, k1, k2) && InverseRoots(m, u, u', k2)
    requires |x| == |y| == Pow(2, k1 + k2) == At(Pow(2, k2), Pow(2, k1), 0) > 0
    requires |a| == |b| == Pow(2, k2) > t && IsConvolution(m, norm, a, b, r)
    requires forall j :: 0 <= j < Pow(2, k2) ==> Cong(m, a[j], RowOf(x, Pow(2, k2), Pow(2, k1), w, w1, i)[j])
    requires forall j :: 0 <= j < Pow(2, k2) ==> Cong(m, b[j], RowOf(y, Pow(2, k2), Pow(2, k1), w, w1, i)[j])
    ensures Cong(m, r[t], norm * (Pow(2, k2) * RowOf(Cyclic(x, y), Pow(2, k2), Pow(2, k1), w, w1, i)[t]))
  {
    hide Cong, Power, Pow, Eval, InverseRoots, At, Cyclic, CyclicAt, RowOf, SplitRoots;
    var f, n1 := Pow(2, k2), Pow(2, k1);
    var rc, d := RowOf(Cyclic(x, y), f, n1, w, w1, i), Cyclic(a, b);
    forall q | 0 <= q < f
      ensures Cong(m, Eval(rc, Power(u, q)), Eval(d, Power(u, q)))
    {
      SplitUnits(m, w, w1, u, k1, k2, i, q);
      SplitRoot(m, w, w1, u, k1, k2);
      RowProduct(m, x, y, f, n1, w, w1, i, a, b, Power(u, q));
    }
    SameTransform(m, rc, d, u, u', k2, t);
    CyclicIs(a, b, t);
    CongSelf(m, norm);
    CongMul(m, norm, f * d[t], norm, f * rc[t]);
    CongTrans(m, r[t], norm * (f * d[t]), norm * (f * rc[t]));
  }

  lemma SplitRoot(m: int, w: int, w1: int, u: int, k1: nat, k2: nat)
    requires SplitRoots(m, w, w1, u, k1, k2)
    ensures Cong(m, w1, Power(w, Pow(2, k2)))
  {
  }

  /** Untwisting: w'^(ij) takes away w^(ij). */
  lemma Untwist(m: int, w: int, w': int, i: nat, j: nat, e: int, s: int, q: int, r: int)
    requires Cong(m, w * w', 1) && Cong(m, r, s * (Power(Power(w, i), j) * e)) && Cong(m, q, Power(Power(w', j), i) * r)
    ensures Cong(m, q, s * e)
  {
    hide Cong, Power;
    PowerMul(w, i, j);
    PowerMul(w', j, i);
    assert i * j == j * i;
    PowerProduct(w, w', i * j);
    PowerCong(m, w * w', 1, i * j);
    PowerOne(i * j);
    var g, g' := Power(w, i * j), Power(w', i * j);
    CongSelf(m, g');
    CongMul(m, g', r, g', s * (g * e));
    CongTrans(m, q, g' * r, g' * (s * (g * e)));
    assert g' * (s * (g * e)) == (g * g') * (s * e) by { UntwistArith(g, g', s, e); }
    CongSelf(m, s * e);
    CongMul(m, g * g', s * e, 1, s * e);
    OneTimes(s * e);
    CongTrans(m, q, (g * g') * (s * e), s * e);
  }

  lemma UntwistArith(g: int, g': int, s: int, e: int)
    ensures g' * (s * (g * e)) == (g * g') * (s * e)
  {
    Assoc(s, g, e);
    Assoc(g, s, e);
    Assoc(g', g, s * e);
  }

  /** The inverse columns of the rows of c give c back. */
  lemma ColumnsBack(m: int, c: seq<int>, w: int, w': int, w1: int, w1': int, k1: nat, f: nat, n1: nat, s: int, j: nat,
      q: seq<int>, r: seq<int>, a: nat)
    requires n1 == Pow(2, k1) && InverseRoots(m, w1, w1', k1) && Cong(m, w * w', 1) && |q| == |r| == n1 && j < f
      && a < n1
    requires forall i :: 0 <= i < n1 ==> Cong(m, r[i], s * RowOf(c, f, n1, w, w1, i)[j])
    requires forall i :: 0 <= i < n1 ==> Cong(m, q[i], Power(Power(w', j), i) * r[i])
    ensures Cong(m, Eval(q, Power(w1', a)), s * (n1 * Get(c, At(f, a, j))))
  {
    hide Cong, Power, Pow, Eval, InverseRoots, At, RowOf, Get;
    var col := Column(c, f, n1, j);
    forall i | 0 <= i < n1
      ensures Cong(m, q[i], s * Eval(col, Power(w1, i)))
    {
      RowEntry(c, f, n1, w, w1, i, j);
      Untwist(m, w, w', i, j, Eval(col, Power(w1, i)), s, q[i], r[i]);
    }
    InverseCorrect(m, col, q, w1, w1', k1, s, a);
  }
}

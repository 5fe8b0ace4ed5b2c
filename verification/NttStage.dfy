/** One stage of the transform: every column is halved. */
module NttStage {
  import opened Limbs
  import opened NttPoly

  /** The index of row i, column j, for rows of f entries. */
  function At(f: nat, i: nat, j: nat): nat {
    i * f + j
  }

  lemma AtBound(f: nat, nb: nat, i: nat, j: nat)
    requires i < nb && j < f
    ensures At(f, i, j) < nb * f
  {
    MulMono(i, nb - 1, f);
    Distrib(f, nb, 1);
  }

  /** Entry k of s. */
  function Get(s: seq<int>, k: nat): int {
    if k < |s| then s[k] else 0
  }

  /** Column j of s, of nb entries. */
  function Column(s: seq<int>, f: nat, nb: nat, j: nat): seq<int> {
    seq(nb, i requires 0 <= i < nb => Get(s, At(f, i, j)))
  }

  /** The columns of s transform to the transform of x: entry q f + j of the latter is entry q of column j. */
  ghost predicate Stage(m: int, w: int, x: seq<int>, s: seq<int>, f: nat, nb: nat) {
    forall j, q :: 0 <= j < f && 0 <= q < nb ==> ColumnAt(m, w, x, s, f, nb, j, q)
  }

  ghost predicate ColumnAt(m: int, w: int, x: seq<int>, s: seq<int>, f: nat, nb: nat, j: nat, q: nat) {
    Cong(m, Eval(Column(s, f, nb, j), Power(Power(w, f), q)), Eval(x, Power(w, At(f, q, j))))
  }

  /** Splitting a polynomial of 2h coefficients at a power of a root z of -1: z^h = -1. */
  lemma SplitEval(m: int, y: seq<int>, h: nat, v: int, q: nat)
    requires |y| == 2 * h && Cong(m, Power(v, h), -1)
    ensures Cong(m, Eval(y, Power(v, q)),
      Eval(y[..h], Power(v, q)) + (if q % 2 == 0 then 1 else -1) * Eval(y[h..], Power(v, q)))
  {
    hide Cong, Eval, Power;
    var z := Power(v, q);
    assert y == y[..h] + y[h..];
    EvalConcat(y[..h], y[h..], z);
    PowerMul(v, q, h);
    PowerMul(v, h, q);
    assert q * h == h * q;
    PowerCong(m, Power(v, h), -1, q);
    PowerOne(q);
    CongSelf(m, Eval(y[h..], z));
    var sign := if q % 2 == 0 then 1 else -1;
    CongMul(m, Power(z, h), Eval(y[h..], z), sign, Eval(y[h..], z));
    CongSelf(m, Eval(y[..h], z));
    CongAdd(m, Eval(y[..h], z), Power(z, h) * Eval(y[h..], z), Eval(y[..h], z), sign * Eval(y[h..], z));
  }

  /** The sums transform to the even entries. */
  lemma EvenHalf(m: int, y: seq<int>, h: nat, v: int, a: seq<int>, q: nat)
    requires |y| == 2 * h && |a| == h && Cong(m, Power(v, h), -1)
    requires forall i :: 0 <= i < h ==> Cong(m, a[i], y[i] + y[i + h])
    ensures Cong(m, Eval(a, Power(Power(v, 2), q)), Eval(y, Power(v, 2 * q)))
  {
    hide Cong, Eval, Power;
    var z := Power(v, 2 * q);
    PowerMul(v, 2, q);
    forall i | 0 <= i < |a|
      ensures Cong(m, a[i], y[..h][i] + 1 * y[h..][i])
    {
      assert y[h..][i] == y[i + h];
    }
    EvalBlend(m, a, y[..h], y[h..], 1, z);
    SplitEval(m, y, h, v, 2 * q);
    CongSym(m, Eval(y, z), Eval(y[..h], z) + 1 * Eval(y[h..], z));
    CongTrans(m, Eval(a, z), Eval(y[..h], z) + 1 * Eval(y[h..], z), Eval(y, z));
  }

  /** The twisted differences transform to the odd entries. */
  lemma OddHalf(m: int, y: seq<int>, h: nat, v: int, a: seq<int>, q: nat)
    requires |y| == 2 * h && |a| == h && Cong(m, Power(v, h), -1)
    requires forall i :: 0 <= i < h ==> Cong(m, a[i], Power(v, i) * (y[i] - y[i + h]))
    ensures Cong(m, Eval(a, Power(Power(v, 2), q)), Eval(y, Power(v, 2 * q + 1)))
  {
    hide Cong, Eval, Power;
    var t, z := Power(Power(v, 2), q), Power(v, 2 * q + 1);
    PowerMul(v, 2, q);
    PowerNext(v, 2 * q);
    var d := Differences(y, h);
    EvalTwisted(m, a, d, v, t);
    DifferenceEval(m, y, h, v, q);
    CongTrans(m, Eval(a, t), Eval(d, z), Eval(y, z));
  }

  function Differences(y: seq<int>, h: nat): (d: seq<int>)
    requires |y| == 2 * h
    ensures |d| == h && forall i :: 0 <= i < h ==> d[i] == y[i] - y[i + h]
  {
    seq(h, i requires 0 <= i < h => y[i] - y[i + h])
  }

  lemma DifferenceEval(m: int, y: seq<int>, h: nat, v: int, q: nat)
    requires |y| == 2 * h && Cong(m, Power(v, h), -1)
    ensures Cong(m, Eval(Differences(y, h), Power(v, 2 * q + 1)), Eval(y, Power(v, 2 * q + 1)))
  {
    hide Cong, Eval, Power;
    var z, d := Power(v, 2 * q + 1), Differences(y, h);
    forall i | 0 <= i < |d|
      ensures Cong(m, d[i], y[..h][i] + -1 * y[h..][i])
    {
      assert y[h..][i] == y[i + h];
      CongSelf(m, d[i]);
    }
    EvalBlend(m, d, y[..h], y[h..], -1, z);
    SplitEval(m, y, h, v, 2 * q + 1);
    var e := Eval(y[..h], z) + -1 * Eval(y[h..], z);
    CongSym(m, Eval(y, z), e);
    CongTrans(m, Eval(d, z), e, Eval(y, z));
  }

  lemma PowerNext(z: int, n: nat)
    ensures Power(z, n + 1) == z * Power(z, n)
  {
  }

  /** The stage of 2h rows of f entries becomes the stage of h rows of 2f entries: entry j of row i of t is the sum
      of entries j of rows i and i + h of s, entry f + j their difference times v^i, where v = w^f. */
  ghost predicate Butterflies(m: int, v: int, s: seq<int>, t: seq<int>, f: nat, h: nat) {
    forall i, j :: 0 <= i < h && 0 <= j < f ==> Butterfly(m, v, s, t, f, h, i, j)
  }

  ghost predicate Butterfly(m: int, v: int, s: seq<int>, t: seq<int>, f: nat, h: nat, i: nat, j: nat) {
    var x, y := Get(s, At(f, i, j)), Get(s, At(f, i + h, j));
    && Cong(m, Get(t, At(2 * f, i, j)), x + y)
    && Cong(m, Get(t, At(2 * f, i, f + j)), Power(v, i) * (x - y))
  }

  lemma StageStep(m: int, w: int, x: seq<int>, s: seq<int>, t: seq<int>, f: nat, h: nat)
    requires Stage(m, w, x, s, f, 2 * h) && Butterflies(m, Power(w, f), s, t, f, h)
      && Cong(m, Power(Power(w, f), h), -1)
    ensures Stage(m, w, x, t, 2 * f, h)
  {
    hide ColumnAt, Butterfly, Cong, Power;
    forall j, q | 0 <= j < 2 * f && 0 <= q < h
      ensures ColumnAt(m, w, x, t, 2 * f, h, j, q)
    {
      if j < f {
        EvenColumn(m, w, x, s, t, f, h, j, q);
      } else {
        OddColumn(m, w, x, s, t, f, h, j - f, q);
      }
    }
  }

  lemma EvenColumn(m: int, w: int, x: seq<int>, s: seq<int>, t: seq<int>, f: nat, h: nat, j: nat, q: nat)
    requires Stage(m, w, x, s, f, 2 * h) && Butterflies(m, Power(w, f), s, t, f, h)
      && Cong(m, Power(Power(w, f), h), -1) && j < f && q < h
    ensures ColumnAt(m, w, x, t, 2 * f, h, j, q)
  {
    hide Cong, Power, Eval, At, Get;
    var v, y, a := Power(w, f), Column(s, f, 2 * h, j), Column(t, 2 * f, h, j);
    forall i | 0 <= i < h
      ensures Cong(m, a[i], y[i] + y[i + h])
    {
      assert Butterfly(m, v, s, t, f, h, i, j);
    }
    EvenHalf(m, y, h, v, a, q);
    assert ColumnAt(m, w, x, s, f, 2 * h, j, 2 * q);
    PowerDouble(w, f);
    AtDouble(f, q, j);
    CongTrans(m, Eval(a, Power(Power(v, 2), q)), Eval(y, Power(v, 2 * q)), Eval(x, Power(w, At(f, 2 * q, j))));
  }

  lemma OddColumn(m: int, w: int, x: seq<int>, s: seq<int>, t: seq<int>, f: nat, h: nat, j: nat, q: nat)
    requires Stage(m, w, x, s, f, 2 * h) && Butterflies(m, Power(w, f), s, t, f, h)
      && Cong(m, Power(Power(w, f), h), -1) && j < f && q < h
    ensures ColumnAt(m, w, x, t, 2 * f, h, f + j, q)
  {
    hide Cong, Power, Eval, At, Get;
    var v, y, a := Power(w, f), Column(s, f, 2 * h, j), Column(t, 2 * f, h, f + j);
    forall i | 0 <= i < h
      ensures Cong(m, a[i], Power(v, i) * (y[i] - y[i + h]))
    {
      assert Butterfly(m, v, s, t, f, h, i, j);
    }
    OddHalf(m, y, h, v, a, q);
    assert ColumnAt(m, w, x, s, f, 2 * h, j, 2 * q + 1);
    PowerDouble(w, f);
    AtDouble(f, q, j);
    CongTrans(m, Eval(a, Power(Power(v, 2), q)), Eval(y, Power(v, 2 * q + 1)), Eval(x, Power(w, At(f, 2 * q + 1, j))));
  }

  lemma PowerDouble(w: int, f: nat)
    ensures Power(Power(w, f), 2) == Power(w, 2 * f)
  {
    PowerMul(w, f, 2);
  }

  lemma AtDouble(f: nat, q: nat, j: nat)
    ensures At(2 * f, q, j) == At(f, 2 * q, j) && At(2 * f, q, f + j) == At(f, 2 * q + 1, j)
  {
    assert q * (2 * f) == (2 * q) * f;
    Distrib(f, 2 * q, 1);
  }
}

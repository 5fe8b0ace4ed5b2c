/** Congruences, and polynomials evaluated at powers of a root of minus one. */
module NttPoly {
  import opened Limbs

  // ---- congruence modulo m

  ghost predicate Cong(m: int, x: int, y: int) {
    exists k: int :: x == y + m * k
  }

  lemma CongSelf(m: int, x: int)
    ensures Cong(m, x, x)
  {
    assert x == x + m * 0;
  }

  lemma CongBy(m: int, x: int, y: int, k: int)
    requires x == y + m * k
    ensures Cong(m, x, y)
  {
  }

  lemma CongSym(m: int, x: int, y: int)
    requires Cong(m, x, y)
    ensures Cong(m, y, x)
  {
    var k: int :| x == y + m * k;
    assert m * (0 - k) == 0 - m * k;
    CongBy(m, y, x, 0 - k);
  }

  lemma CongTrans(m: int, x: int, y: int, z: int)
    requires Cong(m, x, y) && Cong(m, y, z)
    ensures Cong(m, x, z)
  {
    var k: int :| x == y + m * k;
    var j: int :| y == z + m * j;
    Distrib(m, k, j);
    CongBy(m, x, z, k + j);
  }

  lemma CongAdd(m: int, x: int, y: int, x': int, y': int)
    requires Cong(m, x, x') && Cong(m, y, y')
    ensures Cong(m, x + y, x' + y') && Cong(m, x - y, x' - y')
  {
    var k: int :| x == x' + m * k;
    var j: int :| y == y' + m * j;
    Distrib(m, k, j);
    CongBy(m, x + y, x' + y', k + j);
    CongBy(m, x - y, x' - y', k - j);
  }

  lemma CongMul(m: int, x: int, y: int, x': int, y': int)
    requires Cong(m, x, x') && Cong(m, y, y')
    ensures Cong(m, x * y, x' * y')
  {
    var k: int :| x == x' + m * k;
    var j: int :| y == y' + m * j;
    CongMulArith(m, x, y, x', y', k, j);
    CongBy(m, x * y, x' * y', k * y + x' * j);
  }

  lemma CongMulArith(m: int, x: int, y: int, x': int, y': int, k: int, j: int)
    requires x == x' + m * k && y == y' + m * j
    ensures x * y == x' * y' + m * (k * y + x' * j)
  {
    Distrib(y, x', m * k);
    Distrib(x', y', m * j);
    Distrib(m, k * y, x' * j);
    Assoc(m, k, y);
    assert x' * (m * j) == m * (x' * j) by { Assoc(x', m, j); Assoc(m, x', j); }
  }

  // ---- powers

  function Power(z: int, n: nat): int {
    if n == 0 then 1 else z * Power(z, n - 1)
  }

  lemma {:induction false} PowerAdd(z: int, i: nat, j: nat)
    ensures Power(z, i + j) == Power(z, i) * Power(z, j)
    decreases i
  {
    if i > 0 {
      PowerAdd(z, i - 1, j);
      Assoc(z, Power(z, i - 1), Power(z, j));
    }
  }

  lemma {:induction false} PowerMul(z: int, i: nat, j: nat)
    ensures Power(Power(z, i), j) == Power(z, i * j)
    decreases j
  {
    if j > 0 {
      PowerMul(z, i, j - 1);
      Distrib(i, j - 1, 1);
      PowerAdd(z, i, i * (j - 1));
    }
  }

  lemma {:induction false} PowerProduct(x: int, y: int, n: nat)
    ensures Power(x * y, n) == Power(x, n) * Power(y, n)
  {
    if n > 0 {
      PowerProduct(x, y, n - 1);
      var p, q := Power(x, n - 1), Power(y, n - 1);
      assert (x * y) * (p * q) == (x * p) * (y * q)
        by { Assoc(x, y, p * q); Assoc(y, p, q); Assoc(p, y, q); Assoc(x, p, y * q); }
    }
  }

  lemma {:induction false} PowerCong(m: int, x: int, y: int, n: nat)
    requires Cong(m, x, y)
    ensures Cong(m, Power(x, n), Power(y, n))
  {
    if n == 0 {
      CongSelf(m, 1);
    } else {
      PowerCong(m, x, y, n - 1);
      CongMul(m, x, Power(x, n - 1), y, Power(y, n - 1));
    }
  }

  lemma {:induction false} PowerOne(n: nat)
    ensures Power(1, n) == 1 && Power(-1, n) == if n % 2 == 0 then 1 else -1
  {
    if n > 0 {
      PowerOne(n - 1);
    }
  }

  // ---- polynomials

  /** The polynomial with coefficients y, lowest first, at z. */
  function Eval(y: seq<int>, z: int): int {
    if y == [] then 0 else y[0] + z * Eval(y[1..], z)
  }

  lemma {:induction false} EvalConcat(x: seq<int>, y: seq<int>, z: int)
    ensures Eval(x + y, z) == Eval(x, z) + Power(z, |x|) * Eval(y, z)
  {
    if x == [] {
      assert x + y == y;
    } else {
      assert (x + y)[1..] == x[1..] + y;
      EvalConcat(x[1..], y, z);
      Distrib(z, Eval(x[1..], z), Power(z, |x| - 1) * Eval(y, z));
      Assoc(z, Power(z, |x| - 1), Eval(y, z));
    }
  }

  /** y is congruent, entry by entry, to u x + v times the entries of x'. */
  ghost predicate Blend(m: int, y: seq<int>, x: seq<int>, x': seq<int>, v: int) {
    |y| == |x| == |x'| && forall i :: 0 <= i < |y| ==> Cong(m, y[i], x[i] + v * x'[i])
  }

  lemma {:induction false} EvalBlend(m: int, y: seq<int>, x: seq<int>, x': seq<int>, v: int, z: int)
    requires Blend(m, y, x, x', v)
    ensures Cong(m, Eval(y, z), Eval(x, z) + v * Eval(x', z))
  {
    hide Cong;
    if y == [] {
      CongSelf(m, 0);
    } else {
      assert Cong(m, y[0], x[0] + v * x'[0]);
      forall i | 0 <= i < |y[1..]|
        ensures Cong(m, y[1..][i], x[1..][i] + v * x'[1..][i])
      {
        assert Cong(m, y[i + 1], x[i + 1] + v * x'[i + 1]);
      }
      EvalBlend(m, y[1..], x[1..], x'[1..], v, z);
      var p, q := Eval(x[1..], z), Eval(x'[1..], z);
      CongSelf(m, z);
      CongMul(m, z, Eval(y[1..], z), z, p + v * q);
      CongAdd(m, y[0], z * Eval(y[1..], z), x[0] + v * x'[0], z * (p + v * q));
      BlendArith(x[0], x'[0], v, z, p, q);
    }
  }

  lemma BlendArith(x: int, x': int, v: int, z: int, p: int, q: int)
    ensures (x + v * x') + z * (p + v * q) == (x + z * p) + v * (x' + z * q)
  {
    Distrib(z, p, v * q);
    Distrib(v, x', z * q);
    assert z * (v * q) == v * (z * q) by { Assoc(z, v, q); Assoc(v, z, q); }
  }

  /** Multiplying coefficient i by s c^i scales the argument, and the value by s. */
  lemma {:induction false} EvalTwist(m: int, y: seq<int>, x: seq<int>, c: int, t: int, s: int)
    requires |y| == |x| && forall i :: 0 <= i < |y| ==> Cong(m, y[i], s * (Power(c, i) * x[i]))
    ensures Cong(m, Eval(y, t), s * Eval(x, c * t))
  {
    hide Cong;
    if y == [] {
      CongSelf(m, 0);
    } else {
      assert Cong(m, y[0], s * (Power(c, 0) * x[0]));
      assert Power(c, 0) * x[0] == x[0];
      forall i | 0 <= i < |y[1..]|
        ensures Cong(m, y[1..][i], (s * c) * (Power(c, i) * x[1..][i]))
      {
        assert Cong(m, y[i + 1], s * (Power(c, i + 1) * x[i + 1]));
        assert s * ((c * Power(c, i)) * x[i + 1]) == (s * c) * (Power(c, i) * x[i + 1]) by {
          Assoc(c, Power(c, i), x[i + 1]);
          Assoc(s, c, Power(c, i) * x[i + 1]);
        }
      }
      EvalTwist(m, y[1..], x[1..], c, t, s * c);
      var p := Eval(x[1..], c * t);
      CongSelf(m, t);
      CongMul(m, t, Eval(y[1..], t), t, (s * c) * p);
      CongAdd(m, y[0], t * Eval(y[1..], t), s * x[0], t * ((s * c) * p));
      TwistArith(s, c, t, p, x[0]);
    }
  }

  lemma TwistArith(s: int, c: int, t: int, p: int, x: int)
    ensures s * x + t * ((s * c) * p) == s * (x + (c * t) * p)
  {
    Distrib(s, x, (c * t) * p);
    assert t * ((s * c) * p) == s * ((c * t) * p) by {
      Assoc(t, s * c, p);
      Assoc(s, c * t, p);
      assert t * (s * c) == s * (c * t) by { Assoc(t, s, c); Assoc(s, t, c); }
    }
  }

  lemma EvalTwisted(m: int, y: seq<int>, x: seq<int>, c: int, t: int)
    requires |y| == |x| && forall i :: 0 <= i < |y| ==> Cong(m, y[i], Power(c, i) * x[i])
    ensures Cong(m, Eval(y, t), Eval(x, c * t))
  {
    hide Cong, Eval, Power;
    forall i | 0 <= i < |y|
      ensures Cong(m, y[i], 1 * (Power(c, i) * x[i]))
    {
      OneTimes(Power(c, i) * x[i]);
    }
    EvalTwist(m, y, x, c, t, 1);
    OneTimes(Eval(x, c * t));
  }

  lemma OneTimes(x: int)
    ensures 1 * x == x
  {
  }
}

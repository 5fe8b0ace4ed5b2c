/** Schoolbook multiplication. */
module LimbProduct {
  import opened Limbs
  import opened LimbKernels

  /** mp_mul1(a + off, y, |y|, m, l0) */
  method MpMul1(b: nat, a: array<nat>, off: nat, y: seq<nat>, m: nat, l0: nat) returns (l: nat)
    requires off + |y| <= a.Length && Digits(b, a[..]) && Digits(b, y) && m < b && l0 < b
    modifies a
    ensures Digits(b, a[..]) && SameOutside(old(a[..]), a[..], off, off + |y|) && l < b
    ensures Val(b, a[off..off + |y|]) + Pow(b, |y|) * l == Val(b, y) * m + l0
  {
    hide Val, Pow;
    ghost var s := a[..];
    l := l0;
    var i := 0;
    AddStart(b, s, off, y, 0);
    while i < |y|
      invariant i <= |y| && l < b && Digits(b, a[..]) && SameOutside(s, a[..], off, off + i)
      invariant Val(b, a[..][off..off + i]) + Pow(b, i) * l == Val(b, y[..i]) * m + l0
    {
      ghost var u, l1 := a[..], l;
      var r := AddMulLimb(b, 0, y[i], m, l);
      a[off + i], l := r.0, r.1;
      assert a[..] == u[off + i := r.0];
      WriteLimb(b, u, off, i, r.0);
      Mul1Step(b, y, i, m, r.0, r.1, l1);
      SameOutsideWider(s, u, off, off + i, off, off + i + 1);
      SameOutsideWider(u, a[..], off + i, off + i + 1, off, off + i + 1);
      i := i + 1;
    }
    assert y[..|y|] == y && a[..][off..off + |y|] == a[off..off + |y|];
  }

  lemma Mul1Step(b: nat, y: seq<nat>, i: nat, m: nat, d: nat, l': nat, l: nat)
    requires i < |y| && d + b * l' == y[i] * m + l
    ensures Val(b, y[..i + 1]) * m == Val(b, y[..i]) * m + Pow(b, i) * d + Pow(b, i + 1) * l' - Pow(b, i) * l
  {
    hide Val;
    ValPrefix(b, y, i);
    Mul1Terms(b, Val(b, y[..i]), Pow(b, i), y[i], m, d, l', l);
  }

  lemma Mul1Terms(b: nat, v: int, p: int, y: int, m: int, d: int, l': int, l: int)
    requires d + b * l' == y * m + l
    ensures (v + p * y) * m == v * m + p * d + (b * p) * l' - p * l
  {
    CarryStep(b, p, d, l', y * m + l);
    Distrib(p, y * m, l);
    Distrib(m, v, p * y);
    Assoc(p, y, m);
  }

  /** mp_mul_basecase(a + off, x, |x|, y, |y|): the exact product */
  method MpMul(b: nat, a: array<nat>, off: nat, x: seq<nat>, y: seq<nat>)
    requires |y| > 0 && off + |x| + |y| <= a.Length && Digits(b, a[..]) && Digits(b, x) && Digits(b, y)
    modifies a
    ensures Digits(b, a[..]) && SameOutside(old(a[..]), a[..], off, off + |x| + |y|)
    ensures Val(b, a[off..off + |x| + |y|]) == Val(b, x) * Val(b, y)
  {
    hide Val, Pow, SameOutside;
    ghost var s := a[..];
    var n := |x|;
    var l := MpMul1(b, a, off, x, y[0], 0);
    ghost var t := a[..];
    a[off + n] := l;
    FirstRow(b, s, t, a[..], off, n, l, x, y);
    var i := 1;
    while i < |y|
      invariant 1 <= i <= |y| && Digits(b, a[..]) && SameOutside(s, a[..], off, off + i + n)
      invariant Val(b, a[..][off..off + i + n]) == Val(b, x) * Val(b, y[..i])
    {
      ghost var u := a[..];
      var r := MpAddMul1(b, a, off + i, x, y[i]);
      ghost var v := a[..];
      a[off + i + n] := r;
      NextRow(b, u, v, a[..], off, i, n, r, x, y);
      SameOutsideWider(s, u, off, off + i + n, off, off + i + 1 + n);
      SameOutsideTrans(s, u, a[..], off, off + i + 1 + n);
      i := i + 1;
    }
    assert y[..|y|] == y && a[..][off..off + |x| + |y|] == a[off..off + |x| + |y|];
  }

  lemma FirstRow(b: nat, s: seq<nat>, t: seq<nat>, u: seq<nat>, off: nat, n: nat, l: nat, x: seq<nat>, y: seq<nat>)
    requires off + n < |s| && |x| == n && |y| > 0 && SameOutside(s, t, off, off + n) && u == t[off + n := l]
    requires Val(b, t[off..off + n]) + Pow(b, n) * l == Val(b, x) * y[0]
    ensures SameOutside(s, u, off, off + 1 + n) && Val(b, u[off..off + 1 + n]) == Val(b, x) * Val(b, y[..1])
  {
    hide Val, Pow;
    WriteLimb(b, t, off, n, l);
    SameOutsideWider(s, t, off, off + n, off, off + n + 1);
    SameOutsideGrows(s, t, u, off + n, off + n + 1, off, off + n + 1);
    assert y[..1] == [y[0]];
    ValOne(b, y[0]);
  }

  lemma NextRow(b: nat, u: seq<nat>, v: seq<nat>, w: seq<nat>, off: nat, i: nat, n: nat, r: nat, x: seq<nat>,
      y: seq<nat>)
    requires off + i + n < |u| == |v| && |x| == n && i < |y| && SameOutside(u, v, off + i, off + i + n)
      && w == v[off + i + n := r]
    requires Val(b, v[off + i..off + i + n]) + Pow(b, n) * r == Val(b, u[off + i..off + i + n]) + Val(b, x) * y[i]
    requires Val(b, u[off..off + i + n]) == Val(b, x) * Val(b, y[..i])
    ensures SameOutside(u, w, off, off + i + 1 + n)
    ensures Val(b, w[off..off + i + 1 + n]) == Val(b, x) * Val(b, y[..i + 1])
  {
    hide Val, Pow, SameOutside;
    var lo, mid, hi := off + i, off + i + n, off + i + 1 + n;
    WriteLimb(b, v, lo, n, r);
    SameOutsideWider(u, v, lo, mid, lo, hi);
    SameOutsideGrows(u, v, w, mid, mid + 1, lo, hi);
    SameSlice(u, w, lo, hi, off, lo);
    SameOutsideWider(u, w, lo, hi, off, hi);
    SliceSplit(b, u, off, lo, mid);
    SliceSplit(b, w, off, lo, hi);
    RowValue(Pow(b, i), Val(b, u[off + i..off + i + n]), Val(b, x), y[i], Val(b, y[..i]));
    ValPrefix(b, y, i);
  }

  lemma RowValue(p: int, seg: int, x: int, yi: int, yv: int)
    ensures p * (seg + x * yi) + x * yv == p * seg + x * (yv + p * yi)
  {
    Distrib(p, seg, x * yi);
    Distrib(x, yv, p * yi);
    Assoc(p, x, yi);
    Assoc(x, p, yi);
  }
}

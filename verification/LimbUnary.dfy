/** The limb kernels with one long operand: a small number added or subtracted, negation, a right
    shift, comparison and the test for zero. */
module LimbUnary {
  import opened Limbs
  import opened LimbKernels

  /** Writing limb i of the segment [off, off + n) changes its value by that limb's change. */
  lemma SetLimb(b: nat, s: seq<nat>, off: nat, n: nat, i: nat, d: nat)
    requires i < n && off + n <= |s|
    ensures Val(b, s[off + i := d][off..off + n]) == Val(b, s[off..off + n]) + Pow(b, i) * (d - s[off + i])
    ensures SameOutside(s, s[off + i := d], off, off + n)
  {
    var x := s[off..off + n];
    var y := s[off + i := d][off..off + n];
    SetDigit(b, x, i, d);
    assert y == x[i := d];
  }

  lemma SetDigit(b: nat, x: seq<nat>, i: nat, d: nat)
    requires i < |x|
    ensures Val(b, x[i := d]) == Val(b, x) + Pow(b, i) * (d - x[i])
  {
    var y := x[i := d];
    ValSplit(b, x, i + 1);
    ValSplit(b, y, i + 1);
    assert y[i + 1..] == x[i + 1..] && y[..i] == x[..i];
    ValPrefix(b, x, i);
    ValPrefix(b, y, i);
    Distrib(Pow(b, i), d, x[i]);
  }

  /** mp_add_ui(a + off, c, n) */
  method MpAddUi(b: nat, a: array<nat>, off: nat, c: nat, n: nat) returns (k: nat)
    requires off + n <= a.Length && Digits(b, a[..]) && c < b
    modifies a
    ensures Digits(b, a[..]) && SameOutside(old(a[..]), a[..], off, off + n) && k <= c && (n > 0 ==> k <= 1)
    ensures Val(b, a[off..off + n]) + Pow(b, n) * k == old(Val(b, a[off..off + n])) + c
  {
    hide Val, Pow;
    ghost var s := a[..];
    k := c;
    var i := 0;
    PowZero(b);
    while i < n && k != 0
      invariant i <= n && k < b && k <= c && (i > 0 ==> k <= 1) && Digits(b, a[..])
        && SameOutside(s, a[..], off, off + n)
      invariant Val(b, a[..][off..off + n]) + Pow(b, i) * k == Val(b, s[off..off + n]) + c
    {
      ghost var t, k0 := a[..], k;
      var v := a[off + i];
      WrapOnce(b, v + k);
      var x: nat := (v + k) % b;
      k := if x < k then 1 else 0;
      a[off + i] := x;
      assert a[..] == t[off + i := x];
      SetLimb(b, t, off, n, i, x);
      AddUiCarry(b, i, x - v, k, k0);
      i := i + 1;
    }
    NoCarry(b, i, n, k);
    assert a[..][off..off + n] == a[off..off + n];
  }

  lemma PowZero(b: nat)
    ensures Pow(b, 0) == 1
  {
  }

  lemma AddUiCarry(b: nat, i: nat, x: int, k': nat, k: nat)
    requires x + b * k' == k
    ensures Pow(b, i) * x + Pow(b, i + 1) * k' == Pow(b, i) * k
  {
    CarryStep(b, Pow(b, i), x, k', k);
  }

  lemma NoCarry(b: nat, i: nat, n: nat, k: nat)
    requires i <= n && (i < n ==> k == 0)
    ensures Pow(b, i) * k == Pow(b, n) * k
  {
  }

  /** mp_sub_ui(a + off, c, n) */
  method MpSubUi(b: nat, a: array<nat>, off: nat, c: nat, n: nat) returns (k: nat)
    requires off + n <= a.Length && Digits(b, a[..]) && c < b
    modifies a
    ensures Digits(b, a[..]) && SameOutside(old(a[..]), a[..], off, off + n) && k <= c && (n > 0 ==> k <= 1)
    ensures Val(b, a[off..off + n]) - Pow(b, n) * k == old(Val(b, a[off..off + n])) - c
  {
    hide Val, Pow;
    ghost var s := a[..];
    k := c;
    var i := 0;
    PowZero(b);
    while i < n
      invariant i <= n && k < b && k <= c && (i > 0 ==> k <= 1) && Digits(b, a[..])
        && SameOutside(s, a[..], off, off + n)
      invariant Val(b, a[..][off..off + n]) - Pow(b, i) * k == Val(b, s[off..off + n]) - c
    {
      ghost var t, k0 := a[..], k;
      var v := a[off + i];
      WrapOnce(b, v - k);
      var x: nat := (v - k) % b;
      k := if x > v then 1 else 0;
      a[off + i] := x;
      assert a[..] == t[off + i := x];
      SetLimb(b, t, off, n, i, x);
      AddUiCarry(b, i, v - x, k, k0);
      MulNegate(Pow(b, i), v, x);
      i := i + 1;
      if k == 0 {
        break;
      }
    }
    NoCarry(b, i, n, k);
    assert a[..][off..off + n] == a[off..off + n];
  }

  lemma MulNegate(p: int, v: int, x: int)
    ensures p * (v - x) == 0 - p * (x - v)
  {
  }

  /** mp_neg(a + off, a + off, n, carry): the difference 0 - y - carry of every limb */
  method MpNeg(b: nat, a: array<nat>, off: nat, n: nat, carry: nat) returns (k: nat)
    requires b > 1 && off + n <= a.Length && Digits(b, a[..]) && carry <= 1
    modifies a
    ensures Digits(b, a[..]) && SameOutside(old(a[..]), a[..], off, off + n) && k <= 1
    ensures Val(b, a[off..off + n]) - Pow(b, n) * k == 0 - old(Val(b, a[off..off + n])) - carry
  {
    hide Val, Pow;
    ghost var s := a[..];
    k := carry;
    var i := 0;
    AddStart(b, s, off, [], k);
    while i < n
      invariant i <= n && k <= 1 && Digits(b, a[..]) && SameOutside(s, a[..], off, off + i)
      invariant Val(b, a[..][off..off + i]) - Pow(b, i) * k == 0 - Val(b, s[off..off + i]) - carry
    {
      ghost var t, k0 := a[..], k;
      assert a[off + i] == s[off + i] by { assert s[off + i..][0] == t[off + i..][0]; }
      var r := SubLimb(b, 0, a[off + i], k);
      a[off + i], k := r.0, r.1;
      assert a[..] == t[off + i := r.0];
      WriteLimb(b, t, off, i, r.0);
      NegStep(b, s, off, i, r.0, r.1, k0);
      SameOutsideWider(s, t, off, off + i, off, off + i + 1);
      SameOutsideWider(t, a[..], off + i, off + i + 1, off, off + i + 1);
      i := i + 1;
    }
    assert a[..][off..off + n] == a[off..off + n];
  }

  lemma NegStep(b: nat, s: seq<nat>, off: nat, i: nat, d: nat, k': nat, k: nat)
    requires off + i < |s| && d - b * k' == 0 - s[off + i] - k
    ensures 0 - Val(b, s[off..off + i + 1])
         == 0 - Val(b, s[off..off + i]) + Pow(b, i) * d - Pow(b, i + 1) * k' + Pow(b, i) * k
  {
    SliceSnoc(b, s, off, i);
    AddUiCarry(b, i, 0 - d - s[off + i], k', k) by { assert 0 - d - s[off + i] + b * k' == k; }
    Distrib(Pow(b, i), 0 - d, s[off + i]);
    MulNegate(Pow(b, i), 0, d);
  }

  /** One limb of mp_shr for p = 2^shift and b = p * h: the high part of x under the low part of l. */
  function ShrLimb(p: nat, h: nat, x: nat, l: nat): (r: nat)
    requires p > 0 && h > 0 && x < p * h
    ensures r < p * h && r * p + x % p == x + (p * h) * (l % p)
  {
    ShrBounds(p, h, x, l % p);
    ShrParts(p, h, x, l % p)
  }

  function ShrParts(p: nat, h: nat, x: nat, m: nat): nat
    requires p > 0
  {
    x / p + h * m
  }

  lemma ShrBounds(p: nat, h: nat, x: nat, m: nat)
    requires p > 0 && h > 0 && x < p * h && m < p
    ensures var r := ShrParts(p, h, x, m); r < p * h && r * p + x % p == x + (p * h) * m
  {
    var q := x / p;
    assert x == p * q + x % p;
    if q >= h {
      MulMono(h, q, p);
    }
    MulMono(m, p - 1, h);
    Distrib(h, p, 1);
    Distrib(p, q, h * m);
    assert (h * m) * p == (p * h) * m by { Assoc(p, h, m); }
  }

  /** mp_shr(a + off, a + off, n, shift, high): the value with the limb high above it is divided by
      p = 2^shift. */
  method MpShr(p: nat, h: nat, a: array<nat>, off: nat, n: nat, high: nat) returns (r: nat)
    requires p > 0 && h > 0 && off + n <= a.Length && Digits(p * h, a[..]) && high < p
    modifies a
    ensures Digits(p * h, a[..]) && SameOutside(old(a[..]), a[..], off, off + n) && r < p
    ensures Val(p * h, a[off..off + n]) * p + r == old(Val(p * h, a[off..off + n])) + Pow(p * h, n) * high
  {
    hide Val, Pow;
    ghost var s := a[..];
    ghost var b := p * h;
    var l: nat, i: nat := high, n;
    DivUnique(high, p, 0, high);
    ShrStart(b, s, off, n);
    while i > 0
      invariant i <= n && Digits(b, a[..]) && SameOutside(s, a[..], off + i, off + n)
      invariant Val(b, a[..][off + i..off + n]) * p + l % p == Val(b, s[off + i..off + n]) + Pow(b, n - i) * high
    {
      ghost var t, l0 := a[..], l;
      i := i - 1;
      assert a[off + i] == s[off + i] by { assert s[..off + i + 1][off + i] == t[..off + i + 1][off + i]; }
      var x := a[off + i];
      a[off + i] := ShrLimb(p, h, x, l);
      l := x;
      assert a[..] == t[off + i := a[off + i]];
      PrependLimb(b, t, off + i, off + n, a[off + i]);
      PrependLimb(b, s, off + i, off + n, s[off + i]);
      ShrStep(p, b, x, a[off + i], l0 % p, Val(b, t[off + i + 1..off + n]), Val(b, s[off + i + 1..off + n]),
        Pow(b, n - i - 1), high);
      PowNext(b, n - i - 1);
      SameOutsideWider(s, t, off + i + 1, off + n, off + i, off + n);
      SameOutsideWider(t, a[..], off + i, off + i + 1, off + i, off + n);
    }
    r := l % p;
    assert a[..][off..off + n] == a[off..off + n];
  }

  lemma ShrStart(b: nat, s: seq<nat>, off: nat, n: nat)
    requires off + n <= |s|
    ensures Val(b, s[off + n..off + n]) == 0 && Pow(b, 0) == 1
  {
  }

  lemma PowNext(b: nat, n: nat)
    ensures Pow(b, n + 1) == b * Pow(b, n)
  {
  }

  lemma PrependLimb(b: nat, s: seq<nat>, i: nat, j: nat, d: nat)
    requires i < j <= |s|
    ensures Val(b, s[i := d][i..j]) == d + b * Val(b, s[i + 1..j])
    ensures SameOutside(s, s[i := d], i, i + 1)
    ensures s[i := s[i]] == s
  {
    var t := s[i := d][i..j];
    assert t[1..] == s[i + 1..j];
  }

  lemma ShrStep(p: nat, b: nat, x: nat, y: nat, m: nat, v': nat, v: nat, w: nat, high: nat)
    requires p > 0 && y * p + x % p == x + b * m && v' * p + m == v + w * high
    ensures (y + b * v') * p + x % p == (x + b * v) + (b * w) * high
  {
    Distrib(p, y, b * v');
    Assoc(b, v', p);
    Assoc(b, w, high);
    Distrib(b, v' * p, m);
    Distrib(b, v, w * high);
  }

  /** mp_cmp */
  method MpCmp(b: nat, x: seq<nat>, y: seq<nat>) returns (c: int)
    requires b > 0 && |x| == |y| && Digits(b, x) && Digits(b, y)
    ensures c == if Val(b, x) < Val(b, y) then -1 else if Val(b, x) == Val(b, y) then 0 else 1
  {
    var i := |x|;
    while i > 0
      invariant 0 <= i <= |x| && x[i..] == y[i..]
    {
      i := i - 1;
      if x[i] != y[i] {
        TopDiffers(b, x, y, i);
        return if x[i] < y[i] then -1 else 1;
      }
      assert x[i..] == [x[i]] + x[i + 1..] && y[i..] == [y[i]] + y[i + 1..];
    }
    assert x == y;
    return 0;
  }

  /** Numbers that first differ in limb i, from the top, compare as these limbs. */
  lemma TopDiffers(b: nat, x: seq<nat>, y: seq<nat>, i: nat)
    requires b > 0 && i < |x| == |y| && x[i + 1..] == y[i + 1..] && x[i] != y[i] && Digits(b, x) && Digits(b, y)
    ensures Val(b, x) < Val(b, y) <==> x[i] < y[i]
    ensures Val(b, x) != Val(b, y)
  {
    if x[i] < y[i] {
      TopLess(b, x, y, i);
    } else {
      TopLess(b, y, x, i);
    }
  }

  lemma TopLess(b: nat, x: seq<nat>, y: seq<nat>, i: nat)
    requires b > 0 && i < |x| == |y| && x[i + 1..] == y[i + 1..] && x[i] < y[i] && Digits(b, x)
    ensures Val(b, x) < Val(b, y)
  {
    hide Val, Pow;
    ValSplit(b, x, i + 1);
    ValSplit(b, y, i + 1);
    ValPrefix(b, x, i);
    ValPrefix(b, y, i);
    ValBound(b, x[..i]);
    MulMono(x[i] + 1, y[i], Pow(b, i));
    Distrib(Pow(b, i), x[i], 1);
  }

  /** mp_scan_nz */
  method MpScanNz(b: nat, x: seq<nat>) returns (nz: bool)
    requires b > 0
    ensures nz <==> Val(b, x) != 0
  {
    var i := 0;
    while i < |x|
      invariant i <= |x| && forall j :: 0 <= j < i ==> x[j] == 0
    {
      if x[i] != 0 {
        if Val(b, x) == 0 {
          ValZeroOnly(b, x);
        }
        return true;
      }
      i := i + 1;
    }
    ValZeros(b, x);
    return false;
  }
}

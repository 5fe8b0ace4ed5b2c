/** The carry loops on limb arrays, in place on a segment [off, off + n) of an array.  A limb is a
    number below the base b and limb arithmetic wraps around at b. */
module LimbKernels {
  import opened Limbs

  /** t agrees with s outside [lo, hi). */
  ghost predicate SameOutside(s: seq<nat>, t: seq<nat>, lo: nat, hi: nat) {
    lo <= hi <= |s| == |t| && s[..lo] == t[..lo] && s[hi..] == t[hi..]
  }

  lemma SameOutsideTrans(s: seq<nat>, t: seq<nat>, u: seq<nat>, lo: nat, hi: nat)
    requires SameOutside(s, t, lo, hi) && SameOutside(t, u, lo, hi)
    ensures SameOutside(s, u, lo, hi)
  {
  }

  /** A change inside a part of the segment follows a change of the segment. */
  lemma SameOutsideGrows(s: seq<nat>, t: seq<nat>, u: seq<nat>, lo: nat, hi: nat, lo': nat, hi': nat)
    requires SameOutside(s, t, lo', hi') && SameOutside(t, u, lo, hi) && lo' <= lo <= hi <= hi' <= |t| == |u|
    ensures SameOutside(s, u, lo', hi')
  {
    hide *;
    SameOutsideWider(t, u, lo, hi, lo', hi');
    SameOutsideTrans(s, t, u, lo', hi');
  }

  lemma SameOutsideWider(s: seq<nat>, t: seq<nat>, lo: nat, hi: nat, lo': nat, hi': nat)
    requires SameOutside(s, t, lo, hi) && lo' <= lo && hi <= hi' <= |s|
    ensures SameOutside(s, t, lo', hi')
  {
    assert s[..lo'] == s[..lo][..lo'] && t[..lo'] == t[..lo][..lo'];
    assert s[hi'..] == s[hi..][hi' - hi..] && t[hi'..] == t[hi..][hi' - hi..];
  }

  /** A slice outside the changed segment is unchanged. */
  lemma SameSlice(s: seq<nat>, t: seq<nat>, lo: nat, hi: nat, i: nat, j: nat)
    requires SameOutside(s, t, lo, hi) && i <= j <= |s| && (j <= lo || hi <= i)
    ensures s[i..j] == t[i..j]
  {
    if j <= lo {
      assert s[i..j] == s[..lo][i..j] && t[i..j] == t[..lo][i..j];
    } else {
      forall k | i <= k < j
        ensures s[k] == t[k]
      {
        assert s[hi..][k - hi] == t[hi..][k - hi];
      }
    }
  }

  /** The value of a slice from its two parts. */
  lemma SliceSplit(b: nat, s: seq<nat>, i: nat, m: nat, j: nat)
    requires i <= m <= j <= |s|
    ensures Val(b, s[i..j]) == Val(b, s[i..m]) + Pow(b, m - i) * Val(b, s[m..j])
  {
    assert s[i..j] == s[i..m] + s[m..j];
    ValConcat(b, s[i..m], s[m..j]);
  }

  lemma DigitsSlice(b: nat, s: seq<nat>, i: nat, j: nat)
    requires Digits(b, s) && i <= j <= |s|
    ensures Digits(b, s[i..j])
  {
  }

  /** One limb is written at off + i. */
  lemma WriteLimb(b: nat, s: seq<nat>, off: nat, i: nat, d: nat)
    requires off + i < |s|
    ensures var t := s[off + i := d];
      && Val(b, t[off..off + i + 1]) == Val(b, s[off..off + i]) + Pow(b, i) * d
      && SameOutside(s, t, off + i, off + i + 1)
  {
    var t := s[off + i := d];
    assert t[off..off + i + 1] == s[off..off + i] + [d];
    ValSnoc(b, s[off..off + i], d);
  }

  lemma SliceSnoc(b: nat, s: seq<nat>, off: nat, i: nat)
    requires off + i < |s|
    ensures Val(b, s[off..off + i + 1]) == Val(b, s[off..off + i]) + Pow(b, i) * s[off + i]
  {
    assert s[off..off + i + 1] == s[off..off + i] + [s[off + i]];
    ValSnoc(b, s[off..off + i], s[off + i]);
  }

  /** p * (d + b * k') regrouped: the invariant step of every carry loop. */
  lemma CarryStep(b: nat, p: int, d: int, k': int, x: int)
    requires d + b * k' == x
    ensures p * d + (b * p) * k' == p * x
  {
    Distrib(p, d, b * k');
    assert p * (b * k') == (b * p) * k';
  }

  /** A copying loop. */
  method CopyLimbs(b: nat, a: array<nat>, off: nat, x: seq<nat>)
    requires off + |x| <= a.Length && Digits(b, a[..]) && Digits(b, x)
    modifies a
    ensures Digits(b, a[..]) && SameOutside(old(a[..]), a[..], off, off + |x|) && a[off..off + |x|] == x
  {
    var i := 0;
    while i < |x|
      invariant i <= |x| && Digits(b, a[..]) && a[..off] == old(a[..off]) && a[off + |x|..] == old(a[off + |x|..])
      invariant a[off..off + i] == x[..i]
    {
      a[off + i] := x[i];
      i := i + 1;
    }
  }

  // ---- addition and subtraction of two numbers

  /** One limb of mp_add: the sum and its two wrap-around tests. */
  function AddLimb(b: nat, x: nat, y: nat, k: nat): (r: (nat, nat))
    requires x < b && y < b && k <= 1
    ensures r.0 < b && r.1 <= 1 && r.0 + b * r.1 == x + y + k
  {
    var a := (x + y) % b;
    var k1 := a < x;
    assert a == if x + y < b then x + y else x + y - b by { WrapOnce(b, x + y); }
    var a' := (a + k) % b;
    assert a' == if a + k < b then a + k else a + k - b by { WrapOnce(b, a + k); }
    (a', if a' < k || k1 then 1 else 0)
  }

  lemma WrapOnce(b: int, x: int)
    requires 0 < b && -b <= x < 2 * b
    ensures x % b == if x < 0 then x + b else if x < b then x else x - b
  {
    if x < 0 {
      DivUnique(x, b, -1, x + b);
    } else if x < b {
      DivUnique(x, b, 0, x);
    } else {
      DivUnique(x, b, 1, x - b);
    }
  }

  /** One limb of mp_sub. */
  function SubLimb(b: nat, x: nat, y: nat, k: nat): (r: (nat, nat))
    requires b > 1 && x < b && y < b && k <= 1
    ensures r.0 < b && r.1 <= 1 && r.0 - b * r.1 == x - y - k
  {
    var a := (x - y) % b;
    var k1 := a > x;
    assert a == if x < y then x - y + b else x - y by { WrapOnce(b, x - y); }
    var v := (a - k) % b;
    assert v == if a < k then a - k + b else a - k by { WrapOnce(b, a - k); }
    (v, if v > a || k1 then 1 else 0)
  }

  /** mp_add(a + off, a + off, y, |y|, carry) */
  method MpAdd(b: nat, a: array<nat>, off: nat, y: seq<nat>, carry: nat) returns (k: nat)
    requires off + |y| <= a.Length && Digits(b, a[..]) && Digits(b, y) && carry <= 1
    modifies a
    ensures Digits(b, a[..]) && SameOutside(old(a[..]), a[..], off, off + |y|) && k <= 1
    ensures Val(b, a[off..off + |y|]) + Pow(b, |y|) * k == old(Val(b, a[off..off + |y|])) + Val(b, y) + carry
  {
    hide Val, Pow;
    ghost var s := a[..];
    k := carry;
    var i := 0;
    AddStart(b, s, off, y, k);
    while i < |y|
      invariant i <= |y| && k <= 1 && Digits(b, a[..]) && SameOutside(s, a[..], off, off + i)
      invariant Val(b, a[..][off..off + i]) + Pow(b, i) * k == Val(b, s[off..off + i]) + Val(b, y[..i]) + carry
    {
      ghost var t, k0 := a[..], k;
      assert a[off + i] == s[off + i] by { assert s[off + i..][0] == t[off + i..][0]; }
      var r := AddLimb(b, a[off + i], y[i], k);
      a[off + i], k := r.0, r.1;
      assert a[..] == t[off + i := r.0];
      WriteLimb(b, t, off, i, r.0);
      AddStep(b, s, off, y, i, r.0, r.1, k0);
      SameOutsideWider(s, t, off, off + i, off, off + i + 1);
      SameOutsideWider(t, a[..], off + i, off + i + 1, off, off + i + 1);
      i := i + 1;
    }
    assert y[..|y|] == y && a[..][off..off + |y|] == a[off..off + |y|];
  }

  lemma AddStart(b: nat, s: seq<nat>, off: nat, y: seq<nat>, k: int)
    requires off <= |s|
    ensures Val(b, s[off..off]) == 0 && Val(b, y[..0]) == 0 && Pow(b, 0) == 1
  {
  }

  lemma AddStep(b: nat, s: seq<nat>, off: nat, y: seq<nat>, i: nat, d: nat, k': nat, k: nat)
    requires i < |y| && off + i < |s| && d + b * k' == s[off + i] + y[i] + k
    ensures Val(b, s[off..off + i + 1]) + Val(b, y[..i + 1])
         == Val(b, s[off..off + i]) + Val(b, y[..i]) + Pow(b, i) * d + Pow(b, i + 1) * k' - Pow(b, i) * k
  {
    SliceSnoc(b, s, off, i);
    ValPrefix(b, y, i);
    CarryStep(b, Pow(b, i), d, k', s[off + i] + y[i] + k);
    Distrib(Pow(b, i), s[off + i], y[i] + k);
    Distrib(Pow(b, i), y[i], k);
  }

  /** mp_sub(a + off, a + off, y, |y|, carry) */
  method MpSub(b: nat, a: array<nat>, off: nat, y: seq<nat>, carry: nat) returns (k: nat)
    requires b > 1 && off + |y| <= a.Length && Digits(b, a[..]) && Digits(b, y) && carry <= 1
    modifies a
    ensures Digits(b, a[..]) && SameOutside(old(a[..]), a[..], off, off + |y|) && k <= 1
    ensures Val(b, a[off..off + |y|]) - Pow(b, |y|) * k == old(Val(b, a[off..off + |y|])) - Val(b, y) - carry
  {
    hide Val, Pow;
    ghost var s := a[..];
    k := carry;
    var i := 0;
    AddStart(b, s, off, y, k);
    while i < |y|
      invariant i <= |y| && k <= 1 && Digits(b, a[..]) && SameOutside(s, a[..], off, off + i)
      invariant Val(b, a[..][off..off + i]) - Pow(b, i) * k == Val(b, s[off..off + i]) - Val(b, y[..i]) - carry
    {
      ghost var t, k0 := a[..], k;
      assert a[off + i] == s[off + i] by { assert s[off + i..][0] == t[off + i..][0]; }
      var r := SubLimb(b, a[off + i], y[i], k);
      a[off + i], k := r.0, r.1;
      assert a[..] == t[off + i := r.0];
      WriteLimb(b, t, off, i, r.0);
      SubStep(b, s, off, y, i, r.0, r.1, k0);
      SameOutsideWider(s, t, off, off + i, off, off + i + 1);
      SameOutsideWider(t, a[..], off + i, off + i + 1, off, off + i + 1);
      i := i + 1;
    }
    assert y[..|y|] == y && a[..][off..off + |y|] == a[off..off + |y|];
  }

  lemma SubStep(b: nat, s: seq<nat>, off: nat, y: seq<nat>, i: nat, d: nat, k': nat, k: nat)
    requires i < |y| && off + i < |s| && d - b * k' == s[off + i] - y[i] - k
    ensures Val(b, s[off..off + i + 1]) - Val(b, y[..i + 1])
         == Val(b, s[off..off + i]) - Val(b, y[..i]) + Pow(b, i) * d - Pow(b, i + 1) * k' + Pow(b, i) * k
  {
    SliceSnoc(b, s, off, i);
    ValPrefix(b, y, i);
    CarryStep(b, Pow(b, i), d, 0 - k', s[off + i] - y[i] - k);
    Distrib(Pow(b, i), s[off + i], y[i] + k);
    Distrib(Pow(b, i), y[i], k);
    assert (b * Pow(b, i)) * (0 - k') == 0 - Pow(b, i + 1) * k';
  }

  // ---- multiplication by one limb

  /** tabr[] = taba[] * m + l, tabr[] += taba[] * m: one limb */
  lemma MulBound(b: nat, x: nat, m: nat, l: nat, y: nat)
    requires x < b && m < b && l < b && y < b
    ensures 0 <= x * m + l + y < b * b
  {
    MulMono(0, x, m);
    MulMono(x, b - 1, m);
    MulMono(m, b - 1, b - 1);
    Distrib(b - 1, b - 1, 1);
    Distrib(b, b - 1, 1);
  }

  lemma QuotientBelow(b: nat, t: nat)
    requires b > 0 && t < b * b
    ensures t / b < b && t % b + b * (t / b) == t
  {
    if t / b >= b {
      MulMono(b, t / b, b);
    }
  }

  /** One limb of mp_add_mul1 and of mp_mul1 (where y is 0). */
  function AddMulLimb(b: nat, y: nat, x: nat, m: nat, l: nat): (r: (nat, nat))
    requires x < b && m < b && l < b && y < b
    ensures r.0 < b && r.1 < b && r.0 + b * r.1 == y + (x * m + l)
  {
    var t := x * m + l + y;
    MulBound(b, x, m, l, y);
    QuotientBelow(b, t);
    (t % b, t / b)
  }

  /** mp_add_mul1(a + off, y, |y|, m) */
  method MpAddMul1(b: nat, a: array<nat>, off: nat, y: seq<nat>, m: nat) returns (l: nat)
    requires off + |y| <= a.Length && Digits(b, a[..]) && Digits(b, y) && m < b
    modifies a
    ensures Digits(b, a[..]) && SameOutside(old(a[..]), a[..], off, off + |y|) && l < b
    ensures Val(b, a[off..off + |y|]) + Pow(b, |y|) * l == old(Val(b, a[off..off + |y|])) + Val(b, y) * m
  {
    hide Val, Pow;
    ghost var s := a[..];
    l := 0;
    var i := 0;
    AddStart(b, s, off, y, 0);
    while i < |y|
      invariant i <= |y| && l < b && Digits(b, a[..]) && SameOutside(s, a[..], off, off + i)
      invariant Val(b, a[..][off..off + i]) + Pow(b, i) * l == Val(b, s[off..off + i]) + Val(b, y[..i]) * m
    {
      ghost var u, l0 := a[..], l;
      assert a[off + i] == s[off + i] by { assert s[off + i..][0] == u[off + i..][0]; }
      var r := AddMulLimb(b, a[off + i], y[i], m, l);
      a[off + i], l := r.0, r.1;
      assert a[..] == u[off + i := r.0];
      WriteLimb(b, u, off, i, r.0);
      MulStep(b, s, off, y, i, m, r.0, r.1, l0, 1);
      SameOutsideWider(s, u, off, off + i, off, off + i + 1);
      SameOutsideWider(u, a[..], off + i, off + i + 1, off, off + i + 1);
      i := i + 1;
    }
    assert y[..|y|] == y && a[..][off..off + |y|] == a[off..off + |y|];
  }

  /** sign is 1 when the product is added and -1 when it is subtracted. */
  lemma MulStep(b: nat, s: seq<nat>, off: nat, y: seq<nat>, i: nat, m: nat, d: nat, l': nat, l: nat, sign: int)
    requires i < |y| && off + i < |s| && d + b * (sign * l') == s[off + i] + sign * (y[i] * m + l)
    ensures Val(b, s[off..off + i + 1]) + sign * (Val(b, y[..i + 1]) * m)
         == Val(b, s[off..off + i]) + sign * (Val(b, y[..i]) * m) + Pow(b, i) * d
         + Pow(b, i + 1) * (sign * l') - Pow(b, i) * (sign * l)
  {
    var p := Pow(b, i);
    SliceSnoc(b, s, off, i);
    ValPrefix(b, y, i);
    CarryStep(b, p, d, sign * l', s[off + i] + sign * (y[i] * m + l));
    Distrib(p, s[off + i], sign * (y[i] * m + l));
    Distrib(sign, y[i] * m, l);
    Distrib(p, sign * (y[i] * m), sign * l);
    Distrib(m, Val(b, y[..i]), p * y[i]);
    Distrib(sign, Val(b, y[..i]) * m, (p * y[i]) * m);
    MulShuffle(p, sign, y[i], m);
  }

  lemma MulShuffle(p: int, sign: int, x: int, m: int)
    ensures p * (sign * (x * m)) == sign * ((p * x) * m)
  {
    Assoc(p, sign, x * m);
    Assoc(sign, p, x * m);
    Assoc(p, x, m);
  }

  /** One limb of mp_sub_mul1: the double-limb difference wraps at b * b. */
  function SubMulLimb(b: nat, y: nat, x: nat, m: nat, l: nat): (r: (nat, nat))
    requires x < b && m < b && l < b && y < b
    ensures r.0 < b && r.1 < b && r.0 + b * (-1 * r.1) == y + -1 * (x * m + l)
  {
    var t := (y - x * m - l) % (b * b);
    SubMulWrap(b, y, x, m, l);
    (t % b, (-(t / b)) % b)
  }

  lemma SubMulBounds(b: int, y: int, x: int, m: int, l: int)
    requires 0 <= x < b && 0 <= m < b && 0 <= l < b && 0 <= y < b
    ensures b - b * b <= y - x * m - l < b && b <= b * b
  {
    MulMono(x, b - 1, m);
    MulMono(m, b - 1, b - 1);
    assert (b - 1) * (b - 1) == b * b - 2 * b + 1;
    MulMono(1, b, b);
    assert x * m >= 0 by { MulMono(0, x, m); }
  }

  /** A negative double-limb value, wrapped, splits into its low limb and the borrow. */
  lemma BorrowSplit(b: int, bb: int, z: int, t: int)
    requires b > 0 && bb == b * b && b - bb <= z < 0 && t == z + bb
    ensures 0 < t / b < b && (-(t / b)) % b == b - t / b && t % b - b * (b - t / b) == z
  {
    var h := t / b;
    assert t == b * h + t % b;
    if h >= b {
      MulMono(b, h, b);
    }
    if h <= 0 {
      MulMono(h, 0, b);
    }
    DivUnique(-h, b, -1, b - h);
    Distrib(b, b, h);
  }

  lemma SubMulWrap(b: nat, y: nat, x: nat, m: nat, l: nat)
    requires x < b && m < b && l < b && y < b
    ensures b * b > 0
    ensures var t := (y - x * m - l) % (b * b); var d := t % b; var l' := (-(t / b)) % b;
      0 <= t && 0 <= d < b && 0 <= l' < b && d - b * l' == y - x * m - l
  {
    SubMulBounds(b, y, x, m, l);
    WrapSplit(b, b * b, y - x * m - l);
  }

  /** A value between -b^2 and b, reduced modulo b^2, splits into its low limb and the borrow. */
  lemma WrapSplit(b: nat, bb: nat, z: int)
    requires bb == b * b > 0 && b - bb <= z < b
    ensures var t := z % bb; b > 0 && 0 <= t % b < b && 0 <= (-(t / b)) % b < b && t % b - b * ((-(t / b)) % b) == z
  {
    if z < 0 {
      WrapNegative(b, bb, z);
    } else {
      WrapPositive(b, bb, z);
    }
  }

  lemma WrapNegative(b: nat, bb: nat, z: int)
    requires bb == b * b > 0 && b > 0 && b - bb <= z < 0
    ensures var t := z % bb; 0 <= t % b < b && 0 <= (-(t / b)) % b < b && t % b - b * ((-(t / b)) % b) == z
  {
    WrappedOnce(bb, z);
    BorrowSplit(b, bb, z, z % bb);
  }

  lemma WrappedOnce(m: int, z: int)
    requires 0 < m && -m <= z < 0
    ensures z % m == z + m
  {
    DivUnique(z, m, -1, z + m);
  }

  lemma WrapPositive(b: nat, bb: nat, z: int)
    requires bb == b * b > 0 && b > 0 && 0 <= z < b
    ensures var t := z % bb; 0 <= t % b < b && 0 <= (-(t / b)) % b < b && t % b - b * ((-(t / b)) % b) == z
  {
    MulMono(1, b, b);
    DivUnique(z, bb, 0, z);
    assert z % bb == z;
    DivUnique(z, b, 0, z);
    DivUnique(0, b, 0, 0);
  }

  /** mp_sub_mul1(a + off, y, |y|, m) */
  method MpSubMul1(b: nat, a: array<nat>, off: nat, y: seq<nat>, m: nat) returns (l: nat)
    requires off + |y| <= a.Length && Digits(b, a[..]) && Digits(b, y) && m < b
    modifies a
    ensures Digits(b, a[..]) && SameOutside(old(a[..]), a[..], off, off + |y|) && l < b
    ensures Val(b, a[off..off + |y|]) - Pow(b, |y|) * l == old(Val(b, a[off..off + |y|])) - Val(b, y) * m
  {
    hide Val, Pow;
    ghost var s := a[..];
    l := 0;
    var i := 0;
    AddStart(b, s, off, y, 0);
    while i < |y|
      invariant i <= |y| && l < b && Digits(b, a[..]) && SameOutside(s, a[..], off, off + i)
      invariant Val(b, a[..][off..off + i]) - Pow(b, i) * l == Val(b, s[off..off + i]) - Val(b, y[..i]) * m
    {
      ghost var u, l0 := a[..], l;
      assert a[off + i] == s[off + i] by { assert s[off + i..][0] == u[off + i..][0]; }
      var r := SubMulLimb(b, a[off + i], y[i], m, l);
      a[off + i], l := r.0, r.1;
      assert a[..] == u[off + i := r.0];
      WriteLimb(b, u, off, i, r.0);
      MulStep(b, s, off, y, i, m, r.0, r.1, l0, -1);
      MinusOne(Pow(b, i + 1), r.1);
      MinusOne(Pow(b, i), l0);
      SameOutsideWider(s, u, off, off + i, off, off + i + 1);
      SameOutsideWider(u, a[..], off + i, off + i + 1, off, off + i + 1);
      i := i + 1;
    }
    assert y[..|y|] == y && a[..][off..off + |y|] == a[off..off + |y|];
  }

  lemma MinusOne(p: int, x: int)
    ensures p * (-1 * x) == -(p * x)
  {
  }
}

/** Karatsuba square root of a number of 2n limbs. */
module LimbSqrt {
  import opened Limbs
  import opened LimbKernels
  import opened LimbUnary
  import opened LimbProduct
  import opened LimbDivnorm
  import opened LimbRecip
  import opened LimbDivlarge
  import opened SqrtWord

  /** q and u are the quotient and the remainder of r1 l + x1 by 2 s1. */
  ghost predicate Divided(r1: int, x1: int, l: int, s1: int, q: int, u: int) {
    r1 * l + x1 == (2 * s1) * q + u && 0 <= u < 2 * s1
  }

  /** s1 l + q with the remainder u l + x0 - q^2, corrected, is the root of total. */
  ghost predicate RootFrom(total: int, s1: int, l: int, q: int, u: int, x0: int) {
    var p := Corrected(s1 * l + q, u * l + x0 - q * q);
    IsSqrt(total, p.0, p.1)
  }

  /** total is hi, x1 and x0 in base l, and below w^2. */
  ghost predicate Parts(total: int, hi: int, x1: int, x0: int, l: int, w: int) {
    total == (hi * l + x1) * l + x0 && total < w * w
  }

  // ---- the quotient by 2 s1 from the quotient by s1

  /** s1 divides r1' l + x1 with quotient low + l * top and remainder u; r1 is r1' plus s1 when qh is set; the
      quotient is halved, its lost bit ql gives s1 back to the remainder. */
  lemma HalvedQuotient(num: int, s1: int, r1: int, r1': int, x1: int, l: int, qh: int, low: int, top: int, u: int,
      half: int, ql: int)
    requires r1 == r1' + qh * s1 && num == r1 * l + x1 && x1 + l * r1' == (low + l * top) * s1 + u
    requires half * 2 + ql == low + l * ((qh + top) % 2)
    ensures num == (2 * s1) * (half + l * ((qh + top) / 2)) + (u + ql * s1)
  {
    var qs := qh + top;
    HalfOf(qs);
    HalvedValue(l, qs / 2, qs % 2, qs, half, low, ql);
    WholeQuotient(num, s1, r1, r1', x1, l, qh, low, top, u);
    DoubledDivisor(s1, half + l * (qs / 2), ql, low + l * qs, num, u);
  }

  lemma HalfOf(x: int)
    ensures x == 2 * (x / 2) + x % 2
  {
  }

  lemma HalvedValue(l: int, d: int, m: int, qs: int, half: int, low: int, ql: int)
    requires qs == 2 * d + m && half * 2 + ql == low + l * m
    ensures low + l * qs == 2 * (half + l * d) + ql
  {
    Distrib(l, 2 * d, m);
    Assoc(l, 2, d);
    Assoc(2, l, d);
  }

  lemma WholeQuotient(num: int, s1: int, r1: int, r1': int, x1: int, l: int, qh: int, low: int, top: int, u: int)
    requires r1 == r1' + qh * s1 && num == r1 * l + x1 && x1 + l * r1' == (low + l * top) * s1 + u
    ensures num == (low + l * (qh + top)) * s1 + u
  {
    Distrib(l, r1', qh * s1);
    Distrib(l, top, qh);
    Distrib(s1, low + l * top, l * qh);
    Assoc(l, qh, s1);
  }

  lemma DoubledDivisor(s1: int, q: int, ql: int, whole: int, num: int, u: int)
    requires whole == 2 * q + ql && num == whole * s1 + u
    ensures num == (2 * s1) * q + (u + ql * s1)
  {
    Distrib(s1, 2 * q, ql);
    Assoc(2, q, s1);
    Assoc(2, s1, q);
  }

  /** r1, in h limbs and the bit qh, is reduced by the root when the bit is set; it then fits in h limbs. */
  method ReduceRemainder(b: nat, a: array<nat>, off: nat, root: seq<nat>, qh: nat, ghost r1: nat)
    requires 1 < b && off + |root| <= a.Length && Digits(b, a[..]) && Digits(b, root) && qh <= 1
    requires r1 == Val(b, a[off..off + |root|]) + Pow(b, |root|) * qh && r1 <= 2 * Val(b, root)
    modifies a
    ensures Digits(b, a[..]) && SameOutside(old(a[..]), a[..], off, off + |root|)
    ensures r1 == Val(b, a[off..off + |root|]) + qh * Val(b, root)
  {
    hide Val, Pow, SameOutside;
    ghost var s := a[..];
    SameOutsideRefl(s, off, off + |root|);
    if qh != 0 {
      var k := MpSub(b, a, off, root, 0);
      ValBound(b, root);
      ValBound(b, a[off..off + |root|]);
      Reduced(Pow(b, |root|), Val(b, root), r1, Val(b, s[off..off + |root|]), Val(b, a[off..off + |root|]), k);
    }
  }

  lemma Reduced(p: int, s1: int, r1: int, low: int, low': int, k: int)
    requires r1 == low + p && r1 <= 2 * s1 && s1 < p && 0 <= low' < p && 0 <= k <= 1 && low' - p * k == low - s1
      && 0 <= low
    ensures r1 == low' + s1
  {
    assert k != 0;
    assert p * k == p;
  }

  /** The quotient limbs, with the bit high above them, are halved into a[off..]; the lost bit is returned. */
  method HalveInto(b: nat, a: array<nat>, off: nat, x: seq<nat>, high: nat) returns (ql: nat)
    requires b > 0 && b % 2 == 0 && off + |x| <= a.Length && Digits(b, a[..]) && Digits(b, x) && high <= 1
    modifies a
    ensures Digits(b, a[..]) && SameOutside(old(a[..]), a[..], off, off + |x|) && ql <= 1
    ensures Val(b, a[off..off + |x|]) * 2 + ql == Val(b, x) + Pow(b, |x|) * high
  {
    hide Val, Pow, SameOutside;
    ghost var s := a[..];
    CopyLimbs(b, a, off, x);
    ghost var t := a[..];
    assert 2 * (b / 2) == b;
    ql := MpShr(2, b / 2, a, off, |x|, high);
    SameOutsideTrans(s, t, a[..], off, off + |x|);
  }

  /** The remainder gets the root back when the quotient was odd. */
  method RestoreRemainder(b: nat, a: array<nat>, off: nat, root: seq<nat>, ql: nat) returns (rh: nat)
    requires off + |root| <= a.Length && Digits(b, a[..]) && Digits(b, root) && ql <= 1
    modifies a
    ensures Digits(b, a[..]) && SameOutside(old(a[..]), a[..], off, off + |root|) && rh <= 1
    ensures Val(b, a[off..off + |root|]) + Pow(b, |root|) * rh == old(Val(b, a[off..off + |root|])) + ql * Val(b, root)
  {
    hide Val, Pow, SameOutside;
    SameOutsideRefl(a[..], off, off + |root|);
    rh := 0;
    if ql != 0 {
      rh := MpAdd(b, a, off, root, 0);
    }
  }

  lemma LimbFacts()
    ensures LIMB >= 10 && LIMB % 2 == 0
  {
  }

  /** The remainder, reduced below the root, and the next limbs are divided by the root; a1 is the array in between. */
  method DivideRemainder(b: nat, taba: array<nat>, ao: nat, l: nat, h: nat, tmp: array<nat>, root: seq<nat>, qh: nat,
      ghost r1: nat)
    returns (ghost a1: seq<nat>)
    requires 10 <= b && 0 < l <= h == |root| && ao + 2 * l + h <= taba.Length && l < tmp.Length && taba != tmp
      && qh <= 1
    requires Digits(b, taba[..]) && Digits(b, tmp[..]) && Digits(b, root) && b <= 2 * root[h - 1]
    requires r1 == Val(b, taba[ao + 2 * l..ao + 2 * l + h]) + Pow(b, h) * qh && r1 <= 2 * Val(b, root)
    modifies taba, tmp
    ensures Digits(b, taba[..]) && Digits(b, tmp[..]) && tmp[l] <= 1 && |a1| == taba.Length
    ensures SameOutside(old(taba[..]), a1, ao + 2 * l, ao + 2 * l + h)
      && SameOutside(a1, taba[..], ao + l, ao + 2 * l + h)
    ensures r1 == Val(b, a1[ao + 2 * l..ao + 2 * l + h]) + qh * Val(b, root)
    ensures Val(b, a1[ao + l..ao + 2 * l + h])
         == Val(b, tmp[..][..l + 1]) * Val(b, root) + Val(b, taba[..][ao + l..ao + l + h])
    ensures Val(b, taba[..][ao + l..ao + l + h]) < Val(b, root)
  {
    hide Val, Pow, SameOutside;
    ReduceRemainder(b, taba, ao + 2 * l, root, qh, r1);
    a1 := taba[..];
    MpDivnorm(b, tmp, taba, ao + l, l + h, root);
  }

  /** From the root s1 of the high part, in tabs[so + l..], and its remainder r1, in taba[ao + 2l..] and the bit
      qh: the quotient q of r1 b^l + x1 by 2 s1 goes to tabs[so..so + l] and the bit qTop, the remainder to
      taba[ao + l..] and the bit rh. */
  method HalveQuotient(b: nat, tabs: array<nat>, so: nat, taba: array<nat>, ao: nat, l: nat, h: nat, tmp: array<nat>,
      qh: nat, ghost r1: nat)
    returns (qTop: nat, rh: nat)
    requires b == LIMB && 0 < l <= h && so + l + h <= tabs.Length && ao + 2 * (l + h) <= taba.Length && l < tmp.Length
    requires tabs != taba && taba != tmp && tabs != tmp && Digits(b, tabs[..]) && Digits(b, taba[..])
      && Digits(b, tmp[..])
    requires b <= 2 * tabs[so + l + h - 1] && qh <= 1
    requires r1 == Val(b, taba[ao + 2 * l..ao + 2 * l + h]) + Pow(b, h) * qh
      && r1 <= 2 * Val(b, tabs[so + l..so + l + h])
    modifies tabs, taba, tmp
    ensures Digits(b, tabs[..]) && Digits(b, taba[..]) && Digits(b, tmp[..]) && qTop <= 1 && rh <= 1
    ensures SameOutside(old(tabs[..]), tabs[..], so, so + l)
      && SameOutside(old(taba[..]), taba[..], ao + l, ao + 2 * l + h)
    ensures var s1 := old(Val(b, tabs[so + l..so + l + h]));
      var q := Val(b, tabs[so..so + l]) + Pow(b, l) * qTop; var u := Val(b, taba[ao + l..ao + l + h]) + Pow(b, h) * rh;
      Divided(r1, old(Val(b, taba[ao + l..ao + 2 * l])), Pow(b, l), s1, q, u)
  {
    hide Val, Pow, SameOutside, LIMB, Divided;
    LimbFacts();
    var root := tabs[so + l..so + l + h];
    ghost var a0 := taba[..];
    ghost var a1 := DivideRemainder(b, taba, ao, l, h, tmp, root, qh, r1);
    ghost var a2, ts := taba[..], tmp[..];
    var qs := qh + tmp[l];
    var low := tmp[..l];
    var ql := HalveInto(b, tabs, so, low, qs % 2);
    qTop := qs / 2;
    rh := RestoreRemainder(b, taba, ao + l, root, ql);
    QuotientValues(b, a0, a1, a2, ao, l, h, root, ts, qh, r1, Val(b, tabs[so..so + l]), ql, qTop,
      Val(b, taba[ao + l..ao + l + h]) + Pow(b, h) * rh);
    QuotientFrame(a0, a1, a2, taba[..], ao + l, l, h);
  }

  lemma QuotientFrame(a0: seq<nat>, a1: seq<nat>, a2: seq<nat>, a3: seq<nat>, lo: nat, l: nat, h: nat)
    requires lo + l + h <= |a0| == |a1| == |a2| == |a3|
    requires SameOutside(a0, a1, lo + l, lo + l + h) && SameOutside(a1, a2, lo, lo + l + h)
      && SameOutside(a2, a3, lo, lo + h)
    ensures SameOutside(a0, a3, lo, lo + l + h)
  {
    hide *;
    SameOutsideWider(a0, a1, lo + l, lo + l + h, lo, lo + l + h);
    SameOutsideTrans(a0, a1, a2, lo, lo + l + h);
    SameOutsideGrows(a0, a2, a3, lo, lo + h, lo, lo + l + h);
  }

  lemma QuotientValues(b: nat, a0: seq<nat>, a1: seq<nat>, a2: seq<nat>, ao: nat, l: nat, h: nat, root: seq<nat>,
      ts: seq<nat>, qh: nat, r1: nat, half: nat, ql: nat, qTop: nat, u: nat)
    requires ao + 2 * l + h <= |a0| == |a1| == |a2| && |root| == h && l < |ts| && ql <= 1
    requires SameOutside(a0, a1, ao + 2 * l, ao + 2 * l + h)
    requires r1 == Val(b, a1[ao + 2 * l..ao + 2 * l + h]) + qh * Val(b, root)
    requires Val(b, a1[ao + l..ao + 2 * l + h]) == Val(b, ts[..l + 1]) * Val(b, root) + Val(b, a2[ao + l..ao + l + h])
    requires Val(b, a2[ao + l..ao + l + h]) < Val(b, root)
    requires half * 2 + ql == Val(b, ts[..l]) + Pow(b, l) * ((qh + ts[l]) % 2)
    requires qTop == (qh + ts[l]) / 2 && u == Val(b, a2[ao + l..ao + l + h]) + ql * Val(b, root)
    ensures Divided(r1, Val(b, a0[ao + l..ao + 2 * l]), Pow(b, l), Val(b, root), half + Pow(b, l) * qTop, u)
  {
    hide Val, Pow, SameOutside;
    SameSlice(a0, a1, ao + 2 * l, ao + 2 * l + h, ao + l, ao + 2 * l);
    SliceSplit(b, a1, ao + l, ao + 2 * l, ao + 2 * l + h);
    ValPrefix(b, ts, l);
    var x1 := Val(b, a0[ao + l..ao + 2 * l]);
    HalvedQuotient(r1 * Pow(b, l) + x1, Val(b, root), r1, Val(b, a1[ao + 2 * l..ao + 2 * l + h]), x1, Pow(b, l), qh,
      Val(b, ts[..l]), ts[l], Val(b, a2[ao + l..ao + l + h]), half, ql);
  }

  // ---- the square of the quotient is subtracted

  /** taba[ao..ao + n] and the bit rh hold u b^l + x0; q^2 is subtracted, where q = b^l if qTop is set and
      tabs[so..so + l] otherwise.  The top of taba is used for the square. */
  /** The square, computed above the remainder, is taken from its low limbs. */
  method SubtractLowSquare(b: nat, taba: array<nat>, ao: nat, l: nat, n: nat, q: seq<nat>) returns (c: nat)
    requires 1 < b && 0 < l && 2 * l <= n && ao + 2 * n <= taba.Length && Digits(b, taba[..]) && |q| == l
      && Digits(b, q)
    modifies taba
    ensures Digits(b, taba[..]) && SameOutside(old(taba[..]), taba[..], ao, ao + 2 * n) && c <= 1
    ensures taba[..][ao + 2 * l..ao + n] == old(taba[..])[ao + 2 * l..ao + n]
    ensures Val(b, taba[..][ao..ao + 2 * l]) - Pow(b, 2 * l) * c
      == Val(b, old(taba[..])[ao..ao + 2 * l]) - Val(b, q) * Val(b, q)
  {
    hide Val, Pow, SameOutside;
    ghost var a0 := taba[..];
    MpMul(b, taba, ao + n, q, q);
    ghost var a1 := taba[..];
    var sq := taba[ao + n..ao + n + 2 * l];
    c := MpSub(b, taba, ao, sq, 0);
    SquareFrame(a0, a1, taba[..], ao, l, n);
  }

  method SubtractSquare(b: nat, taba: array<nat>, ao: nat, l: nat, h: nat, q: seq<nat>, qTop: nat, rh0: nat)
    returns (rh: int)
    requires 1 < b && 0 < l <= h <= l + 1 && ao + 2 * (l + h) <= taba.Length && Digits(b, taba[..]) && |q| == l
      && Digits(b, q)
    requires qTop <= 1 && (qTop == 1 ==> Val(b, q) == 0) && rh0 <= 1
    modifies taba
    ensures Digits(b, taba[..]) && SameOutside(old(taba[..]), taba[..], ao, ao + 2 * (l + h)) && -1 <= rh <= 1
    ensures var qv := Val(b, q) + Pow(b, l) * qTop; var n := l + h;
      Val(b, taba[ao..ao + n]) + Pow(b, n) * rh == old(Val(b, taba[ao..ao + n])) + Pow(b, n) * rh0 - qv * qv
  {
    hide Val, Pow, SameOutside;
    var n := l + h;
    ghost var a0 := taba[..];
    var c := 1;
    ghost var a2 := a0;
    SameOutsideRefl(a0, ao, ao + 2 * n);
    if qTop == 0 {
      c := SubtractLowSquare(b, taba, ao, l, n, q);
      a2 := taba[..];
    }
    var k := MpSubUi(b, taba, ao + 2 * l, c, n - 2 * l);
    rh := rh0 - k;
    ghost var a3 := taba[..];
    SquareValue(b, a0, a2, a3, ao, l, n, Val(b, q), qTop, c, k, rh0);
    SameOutsideGrows(a0, a2, a3, ao + 2 * l, ao + n, ao, ao + 2 * n);
  }

  lemma SquareFrame(a0: seq<nat>, a1: seq<nat>, a2: seq<nat>, ao: nat, l: nat, n: nat)
    requires 2 * l <= n && ao + 2 * n <= |a0| == |a1| == |a2|
    requires SameOutside(a0, a1, ao + n, ao + n + l + l) && SameOutside(a1, a2, ao, ao + 2 * l)
    ensures SameOutside(a0, a2, ao, ao + 2 * n)
    ensures a0[ao..ao + 2 * l] == a1[ao..ao + 2 * l] && a0[ao + 2 * l..ao + n] == a2[ao + 2 * l..ao + n]
  {
    hide *;
    SameOutsideWider(a0, a1, ao + n, ao + n + l + l, ao, ao + 2 * n);
    SameOutsideGrows(a0, a1, a2, ao, ao + 2 * l, ao, ao + 2 * n);
    SameSlice(a0, a1, ao + n, ao + n + l + l, ao, ao + 2 * l);
    SameSlice(a0, a1, ao + n, ao + n + l + l, ao + 2 * l, ao + n);
    SameSlice(a1, a2, ao, ao + 2 * l, ao + 2 * l, ao + n);
  }

  lemma SquareValue(b: nat, a0: seq<nat>, a2: seq<nat>, a3: seq<nat>, ao: nat, l: nat, n: nat, q: nat, qTop: nat,
      c: nat, k: nat, rh0: nat)
    requires 2 * l <= n && ao + 2 * n <= |a0| == |a2| == |a3|
      && SameOutside(a2, a3, ao + 2 * l, ao + 2 * l + (n - 2 * l))
    requires a0[ao + 2 * l..ao + n] == a2[ao + 2 * l..ao + n]
    requires if qTop == 0 then Val(b, a2[ao..ao + 2 * l]) - Pow(b, 2 * l) * c == Val(b, a0[ao..ao + 2 * l]) - q * q
             else qTop == 1 && q == 0 && c == 1 && a2 == a0
    requires Val(b, a3[ao + 2 * l..ao + n]) - Pow(b, n - 2 * l) * k == Val(b, a2[ao + 2 * l..ao + n]) - c
    ensures var qv := q + Pow(b, l) * qTop;
      Val(b, a3[ao..ao + n]) + Pow(b, n) * (rh0 - k) == Val(b, a0[ao..ao + n]) + Pow(b, n) * rh0 - qv * qv
  {
    hide Val, Pow, SameOutside;
    var m, p, w := ao + 2 * l, Pow(b, 2 * l), Pow(b, n - 2 * l);
    SameSlice(a2, a3, m, ao + n, ao, m);
    SliceSplit(b, a0, ao, m, ao + n);
    SliceSplit(b, a3, ao, m, ao + n);
    PowAdd(b, 2 * l, n - 2 * l);
    PowDouble(b, l);
    var lo, hi := Val(b, a0[ao..m]), Val(b, a0[m..ao + n]);
    var lo', hi' := Val(b, a3[ao..m]), Val(b, a3[m..ao + n]);
    var qv := q + Pow(b, l) * qTop;
    assert qv * qv == lo - (lo' - p * c) by {
      if qTop == 1 {
        assert qv == Pow(b, l);
      } else {
        assert Pow(b, l) * qTop == 0;
      }
    }
    SquareBorrow(p, w, lo, hi, lo', hi', c, k, qv * qv, rh0);
  }

  lemma SquareBorrow(p: int, w: int, lo: int, hi: int, lo': int, hi': int, c: int, k: int, sq: int, rh0: int)
    requires sq == lo - (lo' - p * c) && hi' - w * k == hi - c
    ensures (lo' + p * hi') + (p * w) * (rh0 - k) == (lo + p * hi) + (p * w) * rh0 - sq
  {
    assert hi' == hi - c + w * k;
    Distrib(p, hi - c, w * k);
    Distrib(p, hi, c);
    Assoc(p, w, k);
    Distrib(p * w, rh0, k);
  }

  // ---- the correction and the recursion

  /** A root below b^n: the stored root, which lost k b^n, lost nothing. */
  lemma RootFits(p: nat, total: nat, s: int, r: int, stored: nat, k: int)
    requires IsSqrt(total, s, r) && total < p * p && stored < p && stored == s - p * k && 0 <= k
    ensures k == 0
  {
    RootRange(total, s, r, 0, p);
    if k >= 1 {
      MulMono(1, k, p);
    }
  }

  /** One more than the stored root below b^n: the wrap-around of the decrement undoes that of the increment. */
  lemma LoweredFits(p: nat, total: nat, s: int, r: int, stored: nat, lowered: nat, k: int, k': int)
    requires IsSqrt(total, s - 1, r) && total < p * p && stored == s - p * k && lowered - p * k' == stored - 1
      && lowered < p
    ensures lowered == s - 1
  {
    RootRange(total, s - 1, r, 0, p);
    Distrib(p, k', k);
    var j := k' - k;
    assert lowered == s - 1 + p * j;
    if j >= 1 {
      MulMono(1, j, p);
    } else if j <= -1 {
      MulMono(j, -1, p);
    }
  }

  /** The top of the remainder, 0 or 1. */
  lemma RemainderTop(p: nat, s: int, v: nat, rh: int)
    requires 0 <= v + p * rh <= 2 * s && s < p && v < p
    ensures 0 <= rh <= 1
  {
    if rh >= 2 {
      MulMono(2, rh, p);
    } else if rh <= -1 {
      MulMono(rh, -1, p);
    }
  }

  lemma SignOfTop(p: nat, v: nat, rh: int)
    requires v < p
    ensures rh < 0 <==> v + p * rh < 0
  {
    if rh < 0 {
      MulMono(rh, -1, p);
    } else {
      MulMono(0, rh, p);
    }
  }

  /** The root is lowered by one and the remainder grows by 2s + 1. */
  method LowerRootLimbs(b: nat, tabs: array<nat>, so: nat, taba: array<nat>, ao: nat, n: nat, ghost total: nat,
      ghost s: int, ghost r: int, ghost k: nat)
    returns (carry: nat)
    requires 2 < b && n > 0 && so + n <= tabs.Length && ao + n <= taba.Length && tabs != taba && Digits(b, tabs[..])
      && Digits(b, taba[..])
    requires total < Pow(b, n) * Pow(b, n) && Val(b, tabs[so..so + n]) == s - Pow(b, n) * k && IsSqrt(total, s - 1, r)
    modifies tabs, taba
    ensures Digits(b, tabs[..]) && Digits(b, taba[..])
    ensures SameOutside(old(tabs[..]), tabs[..], so, so + n) && SameOutside(old(taba[..]), taba[..], ao, ao + n)
    ensures Val(b, tabs[so..so + n]) == s - 1
    ensures Val(b, taba[ao..ao + n]) + Pow(b, n) * carry == old(Val(b, taba[ao..ao + n])) + 2 * (s - 1) + 1
  {
    hide Val, Pow, SameOutside, IsSqrt;
    ghost var p, s0, a0 := Pow(b, n), tabs[..], taba[..];
    var k1 := MpSubUi(b, tabs, so, 1, n);
    ghost var s1 := tabs[..];
    ValBound(b, s1[so..so + n]);
    LoweredFits(p, total, s, r, Val(b, s0[so..so + n]), Val(b, s1[so..so + n]), k, k1);
    var l2 := MpAddMul1(b, taba, ao, tabs[so..so + n], 2);
    ghost var a1 := taba[..];
    var l3 := MpAddUi(b, taba, ao, 1, n);
    SameOutsideTrans(a0, a1, taba[..], ao, ao + n);
    carry := l2 + l3;
    Distrib(p, l2, l3);
  }

  /** The last part of mp_sqrtrem_rec: a negative remainder lowers the root. */
  method CorrectRoot(b: nat, tabs: array<nat>, so: nat, taba: array<nat>, ao: nat, n: nat, rh0: int, ghost total: nat,
      ghost s: int, ghost k: nat)
    returns (rh: nat)
    requires 2 < b && n > 0 && so + n <= tabs.Length && ao + n <= taba.Length && tabs != taba && Digits(b, tabs[..])
      && Digits(b, taba[..])
    requires total < Pow(b, n) * Pow(b, n) && Val(b, tabs[so..so + n]) == s - Pow(b, n) * k
    requires var p := Corrected(s, Val(b, taba[ao..ao + n]) + Pow(b, n) * rh0); IsSqrt(total, p.0, p.1)
    modifies tabs, taba
    ensures Digits(b, tabs[..]) && Digits(b, taba[..])
    ensures SameOutside(old(tabs[..]), tabs[..], so, so + n) && SameOutside(old(taba[..]), taba[..], ao, ao + n)
    ensures IsSqrt(total, Val(b, tabs[so..so + n]), Val(b, taba[ao..ao + n]) + Pow(b, n) * rh) && rh <= 1
  {
    hide Val, Pow, SameOutside, IsSqrt;
    ghost var p, s0, a0 := Pow(b, n), tabs[..], taba[..];
    ghost var v := Val(b, a0[ao..ao + n]);
    SameOutsideRefl(s0, so, so + n);
    SameOutsideRefl(a0, ao, ao + n);
    ValBound(b, a0[ao..ao + n]);
    ValBound(b, s0[so..so + n]);
    SignOfTop(p, v, rh0);
    var top := rh0;
    if rh0 < 0 {
      var l2 := LowerRootLimbs(b, tabs, so, taba, ao, n, total, s, v + p * rh0 + 2 * (s - 1) + 1, k);
      top := rh0 + l2;
      Distrib(p, rh0, l2);
    } else {
      RootFits(p, total, s, v + p * rh0, Val(b, s0[so..so + n]), k);
    }
    ValBound(b, taba[ao..ao + n]);
    FinalTop(p, total, Val(b, tabs[so..so + n]), Val(b, taba[ao..ao + n]), top);
    rh := top;
  }

  lemma FinalTop(p: nat, total: nat, s: nat, v: nat, rh: int)
    requires IsSqrt(total, s, v + p * rh) && total < p * p && v < p
    ensures 0 <= rh <= 1
  {
    RootRange(total, s, v + p * rh, 0, p);
    RemainderTop(p, s, v, rh);
  }

  lemma KeptBelow(s0: seq<nat>, s1: seq<nat>, so: nat, l: nat, h: nat)
    requires so + l + h <= |s0| == |s1| && SameOutside(s0, s1, so + l, so + l + h)
    ensures s1[so..so + l] == s0[so..so + l]
  {
    SameSlice(s0, s1, so + l, so + l + h, so, so + l);
  }

  /** Root and remainder before the correction. */
  lemma FinishValues(b: nat, s0: seq<nat>, s1: seq<nat>, a0: seq<nat>, a1: seq<nat>, so: nat, ao: nat, l: nat, h: nat,
      qTop: nat, k: nat, rh0: nat, top: int, total: int)
    requires so + l + h <= |s0| == |s1| && ao + l + h <= |a0| == |a1| && SameOutside(s0, s1, so + l, so + l + h)
    requires Val(b, s1[so + l..so + l + h]) + Pow(b, h) * k == Val(b, s0[so + l..so + l + h]) + qTop
    requires var q := Val(b, s0[so..so + l]) + Pow(b, l) * qTop;
      && RootFrom(total, Val(b, s0[so + l..so + l + h]), Pow(b, l), q,
           Val(b, a0[ao + l..ao + l + h]) + Pow(b, h) * rh0, Val(b, a0[ao..ao + l]))
      && Val(b, a1[ao..ao + (l + h)]) + Pow(b, l + h) * top
           == Val(b, a0[ao..ao + (l + h)]) + Pow(b, l + h) * rh0 - q * q
    ensures var root := Val(b, s0[so + l..so + (l + h)]) * Pow(b, l) + (Val(b, s0[so..so + l]) + Pow(b, l) * qTop);
      && Val(b, s1[so..so + (l + h)]) == root - Pow(b, l + h) * k
      && var p := Corrected(root, Val(b, a1[ao..ao + (l + h)]) + Pow(b, l + h) * top); IsSqrt(total, p.0, p.1)
  {
    hide Val, Pow, SameOutside, IsSqrt, Corrected;
    assert so + (l + h) == so + l + h && ao + (l + h) == ao + l + h;
    RootSum(b, s0, s1, so, l, h, qTop, k);
    RemainderSum(b, a0, ao, l, h, rh0);
  }

  /** The root s1 b^l + q, the remainder u b^l + x0 - q^2 and their correction, from q and u. */
  method FinishRoot(b: nat, tabs: array<nat>, so: nat, taba: array<nat>, ao: nat, l: nat, h: nat, qTop: nat, rh0: nat,
      ghost total: nat)
    returns (rh: nat)
    requires 2 < b && 0 < l <= h <= l + 1 && so + l + h <= tabs.Length && ao + 2 * (l + h) <= taba.Length
      && tabs != taba
    requires Digits(b, tabs[..]) && Digits(b, taba[..]) && qTop <= 1 && rh0 <= 1
    requires qTop == 1 ==> Val(b, tabs[so..so + l]) == 0
    requires total < Pow(b, l + h) * Pow(b, l + h)
    requires var q := Val(b, tabs[so..so + l]) + Pow(b, l) * qTop;
      var u := Val(b, taba[ao + l..ao + l + h]) + Pow(b, h) * rh0;
      RootFrom(total, Val(b, tabs[so + l..so + l + h]), Pow(b, l), q, u, Val(b, taba[ao..ao + l]))
    modifies tabs, taba
    ensures Digits(b, tabs[..]) && Digits(b, taba[..]) && rh <= 1
    ensures SameOutside(old(tabs[..]), tabs[..], so, so + l + h)
      && SameOutside(old(taba[..]), taba[..], ao, ao + 2 * (l + h))
    ensures IsSqrt(total, Val(b, tabs[so..so + l + h]), Val(b, taba[ao..ao + l + h]) + Pow(b, l + h) * rh)
  {
    hide Val, Pow, SameOutside, IsSqrt, Corrected, RootFrom, Digits;
    var n := l + h;
    ghost var s0, a0 := tabs[..], taba[..];
    ghost var root := Val(b, s0[so + l..so + n]) * Pow(b, l) + (Val(b, s0[so..so + l]) + Pow(b, l) * qTop);
    var k := MpAddUi(b, tabs, so + l, qTop, h);
    ghost var s1 := tabs[..];
    KeptBelow(s0, s1, so, l, h);
    DigitsSlice(b, s1, so, so + l);
    var low := tabs[so..so + l];
    assert low == s1[so..so + l];
    var top := SubtractSquare(b, taba, ao, l, h, low, qTop, rh0);
    ghost var a1 := taba[..];
    FinishValues(b, s0, s1, a0, a1, so, ao, l, h, qTop, k, rh0, top, total);
    assert tabs[so..so + n] == s1[so..so + n] && taba[ao..ao + n] == a1[ao..ao + n];
    rh := CorrectRoot(b, tabs, so, taba, ao, n, top, total, root, k);
    SameOutsideWider(s0, s1, so + l, so + n, so, so + n);
    SameOutsideTrans(s0, s1, tabs[..], so, so + n);
    SameOutsideGrows(a0, a1, taba[..], ao, ao + n, ao, ao + 2 * n);
  }

  lemma RootSum(b: nat, s0: seq<nat>, s1: seq<nat>, so: nat, l: nat, h: nat, qTop: nat, k: nat)
    requires so + l + h <= |s0| == |s1| && SameOutside(s0, s1, so + l, so + l + h)
    requires Val(b, s1[so + l..so + l + h]) + Pow(b, h) * k == Val(b, s0[so + l..so + l + h]) + qTop
    ensures s1[so..so + l] == s0[so..so + l]
    ensures Val(b, s1[so..so + l + h])
         == Val(b, s0[so + l..so + l + h]) * Pow(b, l) + (Val(b, s0[so..so + l]) + Pow(b, l) * qTop) - Pow(b, l + h) * k
  {
    hide Val, Pow, SameOutside;
    SameSlice(s0, s1, so + l, so + l + h, so, so + l);
    SliceSplit(b, s1, so, so + l, so + l + h);
    PowAdd(b, l, h);
    var p, w, x := Pow(b, l), Pow(b, h), Val(b, s0[so + l..so + l + h]);
    assert Val(b, s1[so + l..so + l + h]) == x + qTop - w * k;
    Distrib(p, x + qTop, w * k);
    Distrib(p, x, qTop);
    Assoc(p, w, k);
  }

  lemma RemainderSum(b: nat, a: seq<nat>, ao: nat, l: nat, h: nat, rh: nat)
    requires ao + l + h <= |a|
    ensures Val(b, a[ao..ao + l + h]) + Pow(b, l + h) * rh
         == (Val(b, a[ao + l..ao + l + h]) + Pow(b, h) * rh) * Pow(b, l) + Val(b, a[ao..ao + l])
  {
    hide Val, Pow;
    SliceSplit(b, a, ao, ao + l, ao + l + h);
    PowAdd(b, l, h);
    var p, w, x := Pow(b, l), Pow(b, h), Val(b, a[ao + l..ao + l + h]);
    Distrib(p, x, w * rh);
    Assoc(p, w, rh);
  }

  /** The root of a number of 2h limbs with top limb at least b / 4 is normalised. */
  lemma RootNormalised(b: nat, a: seq<nat>, root: seq<nat>, r: nat)
    requires 1 < b && b % 2 == 0 && root != [] && |a| == 2 * |root| && Digits(b, a) && Digits(b, root)
      && b <= 4 * a[|a| - 1]
    requires IsSqrt(Val(b, a), Val(b, root), r)
    ensures b <= 2 * root[|root| - 1] && Pow(b, |root|) <= 2 * Val(b, root)
  {
    hide Val, Pow, IsSqrt;
    var h, x := |root|, root[|root| - 1];
    var p := Pow(b, h);
    ValTop(b, a);
    PowNext(b, 2 * h - 1);
    PowDouble(b, h);
    QuarterTop(b, Pow(b, 2 * h - 1), a[|a| - 1]);
    HalfPower(b, h);
    RootAboveHalf(Val(b, a), Val(b, root), r, p);
    ValTop(b, root);
    PowNext(b, h - 1);
    TopAboveHalf(b, Pow(b, h - 1), Val(b, root[..h - 1]), x);
  }

  lemma QuarterTop(b: nat, p: nat, top: nat)
    requires b <= 4 * top
    ensures b * p <= 4 * (p * top)
  {
    MulMono(b, 4 * top, p);
    Assoc(4, top, p);
  }

  lemma HalfPower(b: nat, h: nat)
    requires b % 2 == 0 && h > 0
    ensures Pow(b, h) == 2 * (Pow(b, h) / 2)
  {
    var c := b / 2;
    assert b * Pow(b, h - 1) == 2 * (c * Pow(b, h - 1));
  }

  lemma RootAboveHalf(a: nat, s: nat, r: nat, p: nat)
    requires IsSqrt(a, s, r) && p * p <= 4 * a && p == 2 * (p / 2)
    ensures p <= 2 * s
  {
    var c := p / 2;
    assert p * p == 4 * (c * c);
    if s < c {
      SquareGap(s, c);
    }
  }

  lemma TopAboveHalf(b: nat, p: nat, low: nat, top: nat)
    requires b * p <= 2 * (low + p * top) && low < p && b % 2 == 0
    ensures b <= 2 * top
  {
    assert p * (2 * top) == 2 * (p * top);
    Distrib(p, b, 2);
    if 2 * top <= b - 2 {
      MulMono(2 * top, b - 2, p);
    }
  }

  /** mp_sqrtrem_rec: square root and remainder of the 2n limbs at taba + ao; the root goes to the n limbs at
      tabs + so, the remainder to the n limbs at taba + ao and the returned bit. */
  method MpSqrtremRec(b: nat, tabs: array<nat>, so: nat, taba: array<nat>, ao: nat, n: nat, tmp: array<nat>)
    returns (rh: nat)
    requires b == LIMB && n > 0 && so + n <= tabs.Length && ao + 2 * n <= taba.Length && n / 2 < tmp.Length
    requires tabs != taba && taba != tmp && tabs != tmp && Digits(b, tabs[..]) && Digits(b, taba[..])
      && Digits(b, tmp[..])
    requires b <= 4 * taba[ao + 2 * n - 1]
    modifies tabs, taba, tmp
    ensures Digits(b, tabs[..]) && Digits(b, taba[..]) && Digits(b, tmp[..]) && rh <= 1
    ensures SameOutside(old(tabs[..]), tabs[..], so, so + n) && SameOutside(old(taba[..]), taba[..], ao, ao + 2 * n)
    ensures IsSqrt(old(Val(b, taba[ao..ao + 2 * n])), Val(b, tabs[so..so + n]),
      Val(b, taba[ao..ao + n]) + Pow(b, n) * rh)
    decreases n, 1
  {
    hide *;
    if n == 1 {
      rh := SqrtremBase(b, tabs, so, taba, ao);
    } else {
      rh := SqrtremSplit(b, tabs, so, taba, ao, n / 2, n - n / 2, tmp);
    }
  }

  /** mp_sqrtrem_rec for n = l + h > 1 */
  method SqrtremSplit(b: nat, tabs: array<nat>, so: nat, taba: array<nat>, ao: nat, l: nat, h: nat, tmp: array<nat>)
    returns (rh: nat)
    requires b == LIMB && 0 < l <= h <= l + 1 && so + l + h <= tabs.Length && ao + 2 * (l + h) <= taba.Length
      && l < tmp.Length
    requires tabs != taba && taba != tmp && tabs != tmp && Digits(b, tabs[..]) && Digits(b, taba[..])
      && Digits(b, tmp[..])
    requires b <= 4 * taba[ao + 2 * (l + h) - 1]
    modifies tabs, taba, tmp
    ensures Digits(b, tabs[..]) && Digits(b, taba[..]) && Digits(b, tmp[..]) && rh <= 1
    ensures SameOutside(old(tabs[..]), tabs[..], so, so + l + h)
      && SameOutside(old(taba[..]), taba[..], ao, ao + 2 * (l + h))
    ensures IsSqrt(old(Val(b, taba[ao..ao + 2 * (l + h)])), Val(b, tabs[so..so + l + h]),
      Val(b, taba[ao..ao + l + h]) + Pow(b, l + h) * rh)
    decreases l + h, 0
  {
    hide *;
    LimbFacts();
    ghost var s0, a0 := tabs[..], taba[..];
    ghost var top, mid := ao + 2 * (l + h), ao + 2 * l;
    var qh := MpSqrtremRec(b, tabs, so + l, taba, ao + 2 * l, h, tmp);
    ghost var s1, a1 := tabs[..], taba[..];
    AfterRecursion(b, a0, a1, s1, ao, so, l, h, qh);
    rh := ExtendRoot(b, tabs, so, taba, ao, l, h, tmp, qh, Val(b, a0[mid..top]), Val(b, a0[ao..top]));
    SameOutsideWider(s0, s1, so + l, so + l + h, so, so + l + h);
    SameOutsideTrans(s0, s1, tabs[..], so, so + l + h);
    SameOutsideWider(a0, a1, mid, top, ao, top);
    SameOutsideTrans(a0, a1, taba[..], ao, top);
  }

  lemma AfterRecursion(b: nat, a0: seq<nat>, a1: seq<nat>, s1: seq<nat>, ao: nat, so: nat, l: nat, h: nat, qh: nat)
    requires 1 < b && b % 2 == 0 && 0 < l <= h && ao + 2 * (l + h) <= |a0| == |a1| && so + l + h <= |s1|
    requires SameOutside(a0, a1, ao + 2 * l, ao + 2 * (l + h)) && Digits(b, a0) && Digits(b, s1)
      && b <= 4 * a0[ao + 2 * (l + h) - 1]
    requires IsSqrt(Val(b, a0[ao + 2 * l..ao + 2 * (l + h)]), Val(b, s1[so + l..so + l + h]),
      Val(b, a1[ao + 2 * l..ao + 2 * l + h]) + Pow(b, h) * qh)
    ensures Parts(Val(b, a0[ao..ao + 2 * (l + h)]), Val(b, a0[ao + 2 * l..ao + 2 * (l + h)]),
      Val(b, a1[ao + l..ao + 2 * l]),
      Val(b, a1[ao..ao + l]), Pow(b, l), Pow(b, l + h))
    ensures b <= 2 * s1[so + l + h - 1] && Pow(b, h) <= 2 * Val(b, s1[so + l..so + l + h])
  {
    hide Val, Pow, SameOutside, IsSqrt, Parts;
    RecursionValues(b, a0, a1, ao, l, h);
    RootNormalised(b, a0[ao + 2 * l..ao + 2 * (l + h)], s1[so + l..so + l + h],
      Val(b, a1[ao + 2 * l..ao + 2 * l + h]) + Pow(b, h) * qh);
  }

  /** The number in terms of its high part and the two low parts, which the recursion leaves alone. */
  lemma RecursionValues(b: nat, a0: seq<nat>, a1: seq<nat>, ao: nat, l: nat, h: nat)
    requires b > 0 && ao + 2 * (l + h) <= |a0| == |a1| && SameOutside(a0, a1, ao + 2 * l, ao + 2 * (l + h))
      && Digits(b, a0)
    ensures Parts(Val(b, a0[ao..ao + 2 * (l + h)]), Val(b, a0[ao + 2 * l..ao + 2 * (l + h)]),
      Val(b, a1[ao + l..ao + 2 * l]),
      Val(b, a1[ao..ao + l]), Pow(b, l), Pow(b, l + h))
  {
    hide Val, Pow, SameOutside;
    var n := l + h;
    SameSlice(a0, a1, ao + 2 * l, ao + 2 * n, ao + l, ao + 2 * l);
    SameSlice(a0, a1, ao + 2 * l, ao + 2 * n, ao, ao + l);
    SliceSplit(b, a0, ao, ao + l, ao + 2 * n);
    SliceSplit(b, a0, ao + l, ao + 2 * l, ao + 2 * n);
    ValBound(b, a0[ao..ao + 2 * n]);
    PowDouble(b, n);
  }

  lemma ExtendFrames(s0: seq<nat>, s1: seq<nat>, s2: seq<nat>, a0: seq<nat>, a1: seq<nat>, a2: seq<nat>, so: nat,
      ao: nat, l: nat, h: nat)
    requires so + l + h <= |s0| == |s1| == |s2| && ao + 2 * (l + h) <= |a0| == |a1| == |a2|
    requires SameOutside(s0, s1, so, so + l) && SameOutside(s1, s2, so, so + l + h)
    requires SameOutside(a0, a1, ao + l, ao + 2 * l + h) && SameOutside(a1, a2, ao, ao + 2 * (l + h))
    ensures SameOutside(s0, s2, so, so + l + h) && SameOutside(a0, a2, ao, ao + 2 * (l + h))
  {
    hide *;
    SameOutsideWider(s0, s1, so, so + l, so, so + l + h);
    SameOutsideTrans(s0, s1, s2, so, so + l + h);
    SameOutsideWider(a0, a1, ao + l, ao + 2 * l + h, ao, ao + 2 * (l + h));
    SameOutsideTrans(a0, a1, a2, ao, ao + 2 * (l + h));
  }

  /** mp_sqrtrem_rec after the recursive call. */
  method ExtendRoot(b: nat, tabs: array<nat>, so: nat, taba: array<nat>, ao: nat, l: nat, h: nat, tmp: array<nat>,
      qh: nat, ghost hi: nat, ghost total: nat)
    returns (rh: nat)
    requires b == LIMB && 0 < l <= h <= l + 1 && so + l + h <= tabs.Length && ao + 2 * (l + h) <= taba.Length
      && l < tmp.Length
    requires tabs != taba && taba != tmp && tabs != tmp && Digits(b, tabs[..]) && Digits(b, taba[..])
      && Digits(b, tmp[..])
    requires b <= 2 * tabs[so + l + h - 1] && Pow(b, h) <= 2 * Val(b, tabs[so + l..so + l + h]) && qh <= 1
    requires IsSqrt(hi, Val(b, tabs[so + l..so + l + h]), Val(b, taba[ao + 2 * l..ao + 2 * l + h]) + Pow(b, h) * qh)
    requires Parts(total, hi, Val(b, taba[ao + l..ao + 2 * l]), Val(b, taba[ao..ao + l]), Pow(b, l), Pow(b, l + h))
    modifies tabs, taba, tmp
    ensures Digits(b, tabs[..]) && Digits(b, taba[..]) && Digits(b, tmp[..]) && rh <= 1
    ensures SameOutside(old(tabs[..]), tabs[..], so, so + l + h)
      && SameOutside(old(taba[..]), taba[..], ao, ao + 2 * (l + h))
    ensures IsSqrt(total, Val(b, tabs[so..so + l + h]), Val(b, taba[ao..ao + l + h]) + Pow(b, l + h) * rh)
  {
    hide Val, Pow, SameOutside, IsSqrt, LIMB, Corrected, RootFrom, Divided, Parts, Digits;
    LimbFacts();
    ghost var s0, a0 := tabs[..], taba[..];
    ghost var root, r1 := Val(b, s0[so + l..so + l + h]), Val(b, a0[ao + 2 * l..ao + 2 * l + h]) + Pow(b, h) * qh;
    RemainderRange(hi, root, r1);
    var qTop, u1 := HalveQuotient(b, tabs, so, taba, ao, l, h, tmp, qh, r1);
    ghost var s1, a1 := tabs[..], taba[..];
    ExtendedStep(b, s0, s1, a0, a1, so, ao, l, h, qTop, u1, hi, r1, total, Pow(b, l + h));
    rh := FinishRoot(b, tabs, so, taba, ao, l, h, qTop, u1, total);
    ExtendFrames(s0, s1, tabs[..], a0, a1, taba[..], so, ao, l, h);
  }

  lemma RemainderRange(a: int, s: int, r: int)
    requires IsSqrt(a, s, r)
    ensures 0 <= r <= 2 * s
  {
  }

  lemma ExtendedStep(b: nat, s0: seq<nat>, s1: seq<nat>, a0: seq<nat>, a1: seq<nat>, so: nat, ao: nat, l: nat, h: nat,
      qTop: nat, u1: nat, hi: nat, r1: nat, total: nat, w: nat)
    requires b > 0 && 0 < l <= h && so + l + h <= |s0| == |s1| && ao + 2 * (l + h) <= |a0| == |a1| && Digits(b, a0)
      && qTop <= 1
    requires Parts(total, hi, Val(b, a0[ao + l..ao + 2 * l]), Val(b, a0[ao..ao + l]), Pow(b, l), w)
    requires SameOutside(s0, s1, so, so + l) && SameOutside(a0, a1, ao + l, ao + 2 * l + h)
    requires IsSqrt(hi, Val(b, s0[so + l..so + l + h]), r1) && Pow(b, h) <= 2 * Val(b, s0[so + l..so + l + h])
    requires var root := Val(b, s0[so + l..so + l + h]); var q := Val(b, s1[so..so + l]) + Pow(b, l) * qTop;
      var u := Val(b, a1[ao + l..ao + l + h]) + Pow(b, h) * u1;
      Divided(r1, Val(b, a0[ao + l..ao + 2 * l]), Pow(b, l), root, q, u)
    ensures s1[so + l..so + l + h] == s0[so + l..so + l + h]
    ensures qTop == 1 ==> Val(b, s1[so..so + l]) == 0
    ensures total < w * w
    ensures var q := Val(b, s1[so..so + l]) + Pow(b, l) * qTop;
      var u := Val(b, a1[ao + l..ao + l + h]) + Pow(b, h) * u1;
      RootFrom(total, Val(b, s1[so + l..so + l + h]), Pow(b, l), q, u, Val(b, a1[ao..ao + l]))
  {
    hide *;
    SameSlice(s0, s1, so, so + l, so + l, so + l + h);
    SameSlice(a0, a1, ao + l, ao + 2 * l + h, ao, ao + l);
    ValBound(b, a0[ao..ao + l]) by { DigitsSlice(b, a0, ao, ao + l); }
    ValBound(b, a0[ao + l..ao + 2 * l]) by { DigitsSlice(b, a0, ao + l, ao + 2 * l); }
    PowMono(b, l, h);
    PowPositive(b, l);
    var u := Val(b, a1[ao + l..ao + l + h]) + Pow(b, h) * u1;
    StepWithTop(total, hi, Val(b, a0[ao + l..ao + 2 * l]), Val(b, a0[ao..ao + l]), Pow(b, l), w,
      Val(b, s0[so + l..so + l + h]), r1, Val(b, s1[so..so + l]), qTop, u);
  }

  /** The step for a quotient given as a number below l and a top bit. */
  lemma StepWithTop(total: int, hi: int, x1: int, x0: int, l: int, w: int, s1: int, r1: int, low: nat, qTop: nat,
      u: int)
    requires Parts(total, hi, x1, x0, l, w)
    requires IsSqrt(hi, s1, r1) && 0 < l <= 2 * s1 && 0 <= x1 < l && 0 <= x0 < l && qTop <= 1
    requires Divided(r1, x1, l, s1, low + l * qTop, u)
    ensures qTop == 1 ==> low == 0
    ensures RootFrom(total, s1, l, low + l * qTop, u, x0) && total < w * w
  {
    hide IsSqrt, Corrected;
    CorrectedStep(hi, x1, x0, l, s1, r1, low + l * qTop, u);
  }

  /** mp_sqrtrem: the remainder's top limb is stored above its n low limbs. */
  method MpSqrtrem(tabs: array<nat>, taba: array<nat>, n: nat)
    requires n > 0 && n <= tabs.Length && 2 * n <= taba.Length && tabs != taba && Digits(LIMB, tabs[..])
      && Digits(LIMB, taba[..])
    requires LIMB <= 4 * taba[2 * n - 1]
    modifies tabs, taba
    ensures Digits(LIMB, tabs[..]) && Digits(LIMB, taba[..])
    ensures IsSqrt(old(Val(LIMB, taba[..2 * n])), Val(LIMB, tabs[..n]), Val(LIMB, taba[..n + 1]))
  {
    hide Val, Pow, SameOutside, IsSqrt, LIMB;
    LimbFacts();
    var tmp := new nat[n / 2 + 1](_ => 0);
    assert taba[0..2 * n] == taba[..2 * n];
    var rh := MpSqrtremRec(LIMB, tabs, 0, taba, 0, n, tmp);
    ghost var a := taba[..];
    assert taba[0..n] == a[..n] && tabs[0..n] == tabs[..n];
    taba[n] := rh;
    assert taba[..][..n] == a[..n] && taba[..][..n + 1] == taba[..n + 1];
    ValPrefix(LIMB, taba[..], n);
  }

  /** mp_sqrtrem2 on limb arrays */
  method SqrtremBase(b: nat, tabs: array<nat>, so: nat, taba: array<nat>, ao: nat) returns (rh: nat)
    requires b == LIMB && so < tabs.Length && ao + 2 <= taba.Length && tabs != taba && Digits(b, tabs[..])
      && Digits(b, taba[..])
    requires b <= 4 * taba[ao + 1]
    modifies tabs, taba
    ensures Digits(b, tabs[..]) && Digits(b, taba[..]) && rh <= 1
    ensures SameOutside(old(tabs[..]), tabs[..], so, so + 1) && SameOutside(old(taba[..]), taba[..], ao, ao + 2)
    ensures IsSqrt(old(Val(b, taba[ao..ao + 2])), Val(b, tabs[so..so + 1]), Val(b, taba[ao..ao + 1]) + Pow(b, 1) * rh)
  {
    hide Val, Pow, SameOutside, IsSqrt, Sqrtrem2;
    ghost var s0, a0 := tabs[..], taba[..];
    Sqrtrem2Correct(taba[ao + 1], taba[ao]);
    var p := Sqrtrem2(taba[ao + 1], taba[ao]);
    RootBounds(taba[ao + 1] * LIMB + taba[ao], p.0, p.1);
    var root: nat, low: nat := p.0, p.1 % LIMB;
    tabs[so] := root;
    taba[ao] := low;
    rh := p.1 / LIMB;
    TwoLimbs(b, a0, ao);
    WriteLimb(b, s0, so, 0, root);
    WriteLimb(b, a0, ao, 0, low);
    assert tabs[..] == s0[so := root] && taba[..] == a0[ao := low];
    SameOutsideWider(a0, taba[..], ao, ao + 1, ao, ao + 2);
    assert tabs[so..so + 1] == [root] && taba[ao..ao + 1] == [low];
    ValOne(b, root);
    ValOne(b, low);
    PowNext(b, 0);
    PowZero(b);
  }

  lemma RootBounds(a: int, s: int, r: int)
    requires IsSqrt(a, s, r) && s < LIMB
    ensures 0 <= s && 0 <= r < 2 * LIMB
  {
  }

  lemma TwoLimbs(b: nat, a: seq<nat>, ao: nat)
    requires ao + 2 <= |a|
    ensures Val(b, a[ao..ao + 2]) == a[ao + 1] * b + a[ao]
  {
    hide Val;
    PrependLimb(b, a, ao, ao + 2, a[ao]);
    assert a[ao + 1..ao + 2] == [a[ao + 1]];
    ValOne(b, a[ao + 1]);
  }
}

/** The limb loops of bf_add_internal: sum or difference of two aligned mantissas, cut to r_len limbs with a
    sticky flag for the rest. */
module FloatSum {
  import opened Limbs
  import opened LimbKernels
  import opened LimbUnary
  import opened RoundSpec
  import opened FloatBits
  import opened FloatRound
  import opened FloatDigits
  import opened FloatCancel

  /** The g low limbs of the second operand: as they are, or complemented for a difference. */
  function Operand(sub: bool, y: nat, k: nat): int {
    if sub then Two(k) - 1 - Rem(y, k) else Rem(y, k)
  }

  /** After the k low bits: their sum is the carry and z. */
  ghost predicate Partial(sub: bool, x: nat, y: nat, k: nat, carry: nat, z: nat) {
    && carry <= 1 && z < Two(k)
    && Rem(x, k) + Operand(sub, y, k) + (if sub then 1 else 0) == (if carry == 1 then Two(k) else 0) + z
  }

  lemma PartialStart(sub: bool, x: nat, y: nat)
    ensures Partial(sub, x, y, 0, if sub then 1 else 0, 0)
  {
    TwoZero();
  }

  /** One limb: the bits from k to k + w. */
  lemma PartialStep(w: nat, sub: bool, x: nat, y: nat, k: nat, carry: nat, z: nat, u: nat, carry': nat)
    requires Partial(sub, x, y, k, carry, z) && u < Two(w) && carry' <= 1
    requires var v1, v2 := Rem(Quot(x, k), w), Rem(Quot(y, k), w);
      u + (if carry' == 1 then Two(w) else 0) == v1 + (if sub then Two(w) - 1 - v2 else v2) + carry
    ensures Partial(sub, x, y, k + w, carry', z + Two(k) * u)
  {
    hide Two, Quot, Rem;
    var v1, v2, p := Rem(Quot(x, k), w), Rem(Quot(y, k), w), Two(k);
    NestedQuot(x, k, w);
    NestedQuot(y, k, w);
    TwoAdd(k, w);
    StepArith(p, Two(w), Two(k + w), Rem(x, k), Rem(y, k), v1, v2, carry, z, u, carry', sub);
  }

  lemma StepArith(p: nat, b: nat, pb: nat, x: nat, y: nat, v1: nat, v2: nat, carry: nat, z: nat, u: nat, carry': nat,
      sub: bool)
    requires pb == p * b && carry <= 1 && carry' <= 1 && z < p && u < b
    requires x + (if sub then p - 1 - y else y) + (if sub then 1 else 0) == (if carry == 1 then p else 0) + z
    requires u + (if carry' == 1 then b else 0) == v1 + (if sub then b - 1 - v2 else v2) + carry
    ensures z + p * u < pb
    ensures (x + p * v1) + (if sub then pb - 1 - (y + p * v2) else y + p * v2) + (if sub then 1 else 0)
         == (if carry' == 1 then pb else 0) + (z + p * u)
  {
    MulMono(u, b - 1, p);
    Distrib(p, b, 1);
    if sub {
      assert p * u == p * (v1 + (b - 1 - v2) + carry - (if carry' == 1 then b else 0));
      Distrib(p, v1 + (b - 1 - v2), carry);
      Distrib(p, v1, b - 1 - v2);
      Distrib(p, b - 1, v2);
      Distrib(p, v1 + (b - 1 - v2) + carry, if carry' == 1 then b else 0);
    } else {
      assert p * u == p * (v1 + v2 + carry - (if carry' == 1 then b else 0));
      Distrib(p, v1 + v2, carry);
      Distrib(p, v1, v2);
      Distrib(p, v1 + v2 + carry, if carry' == 1 then b else 0);
    }
  }

  /** A stretch of limbs that are zero in both operands: after one limb of it the carry stays and the flag is
      decided. */
  lemma PartialGap(w: nat, sub: bool, x: nat, y: nat, k: nat, k': nat, carry: nat, z: nat, u: nat, carry': nat)
    requires w > 0 && k + w <= k' && Rem(x, k') == Rem(x, k) && Rem(y, k') == Rem(y, k)
    requires Partial(sub, x, y, k, carry, z) && u < Two(w) && carry' <= 1
    requires u + (if carry' == 1 then Two(w) else 0) == (if sub then Two(w) - 1 else 0) + carry
    ensures exists z' :: Partial(sub, x, y, k', carry', z') && (z' != 0 <==> z != 0 || u != 0)
  {
    hide Two, Quot, Rem;
    TwoAdd(k, k' - k);
    BaseEven(w);
    BaseIs(w);
    ZeroBelow(w - 1);
    TwoMono(w, k' - k);
    MulMono(2, Two(k' - k), Two(k));
    var z' := if sub then (if carry == 1 then z else z + Two(k') - Two(k)) else (if carry == 1 then Two(k) else 0) + z;
    assert Partial(sub, x, y, k', carry', z');
  }

  // ---- the operands on the grid of t limbs

  /** Limb g from below of the first t limbs of a fraction. */
  lemma GridDigit(w: nat, m: nat, e: nat, t: nat, g: nat)
    requires g < t
    ensures Rem(Quot(Lead(m, e, Bits(w, t)), Bits(w, g)), w) == Digit(w, m, e, t - 1 - g)
  {
    hide Two, Quot, Rem, Lead, Bits;
    BitsAdd(w, g, t - g);
    LeadShorter(m, e, Bits(w, t - g), Bits(w, g));
  }

  /** Below the last limb of the fraction the grid is zero. */
  lemma GridBelow(m: nat, e: nat, n: nat, k: nat)
    requires k + e <= n
    ensures Rem(Lead(m, e, n), k) == 0
  {
    hide Two, Quot, Rem;
    BitsBelow(k, m, n - e);
  }

  /** Above its first bit too. */
  lemma GridAbove(m: nat, e: nat, d: nat, n: nat, k: nat)
    requires m < Two(e) && e + d <= n <= k + d
    ensures Rem(Lead(m, e + d, n), k) == Lead(m, e + d, n)
  {
    hide Two, Quot, Rem;
    TwoAdd(e, n - e - d);
    MulStrict(m, Two(e), Two(n - e - d));
    TwoMono(n - d, k);
    QuotSmall(Lead(m, e + d, n), k);
  }

  /** The limbs that bf_add_internal reads at index i of the result, and whether they lie inside an operand. */
  function FirstLimbAt(a: seq<nat>, rlen: nat, i: int): nat {
    Limbz(a, |a| - rlen + i)
  }

  function SecondLimbAt(w: nat, b: seq<nat>, d: nat, rlen: nat, i: int): nat
    requires w > 0
  {
    GetBits(w, b, w * (|b| - rlen + i) + d)
  }

  lemma ReadLimbs(w: nat, a: seq<nat>, b: seq<nat>, d: nat, t: nat, rlen: nat, i: int)
    requires w > 0 && Digits(Base(w), a) && Digits(Base(w), b) && rlen <= t && rlen - t <= i < rlen
    ensures var g := i + t - rlen; var k := Bits(w, t);
      && FirstLimbAt(a, rlen, i) == Rem(Quot(Lead(Val(Base(w), a), Bits(w, |a|), k), Bits(w, g)), w) < Two(w)
      && SecondLimbAt(w, b, d, rlen, i) == Rem(Quot(Lead(Val(Base(w), b), Bits(w, |b|) + d, k), Bits(w, g)), w) < Two(w)
  {
    hide *;
    var g := i + t - rlen;
    var j := t - 1 - g;
    assert |a| - rlen + i == |a| - 1 - j && |b| - rlen + i == |b| - 1 - j;
    LimbzDigit(w, a, j);
    GetBitsDigit(w, b, d, j);
    GridDigit(w, Val(Base(w), a), Bits(w, |a|), t, g);
    GridDigit(w, Val(Base(w), b), Bits(w, |b|) + d, t, g);
    ReadIs(w, a, b, d, rlen, i);
    RemBelow(Quot(Lead(Val(Base(w), a), Bits(w, |a|), Bits(w, t)), Bits(w, g)), w);
    RemBelow(Quot(Lead(Val(Base(w), b), Bits(w, |b|) + d, Bits(w, t)), Bits(w, g)), w);
  }

  lemma ReadIs(w: nat, a: seq<nat>, b: seq<nat>, d: nat, rlen: nat, i: int)
    requires w > 0
    ensures FirstLimbAt(a, rlen, i) == Limbz(a, |a| - rlen + i)
    ensures SecondLimbAt(w, b, d, rlen, i) == GetBits(w, b, w * (|b| - rlen + i) + d)
  {
    hide GetBits, Limbz;
  }

  /** The sum of two limbs, the second complemented for a difference. */
  function SumLimb(w: nat, v1: nat, v2: nat, sub: bool, carry: nat): (r: (nat, nat))
    requires v1 < Two(w) && v2 < Two(w) && carry <= 1
    ensures r.0 < Two(w) && r.1 <= 1
    ensures r.0 + (if r.1 == 1 then Two(w) else 0) == v1 + (if sub then Two(w) - 1 - v2 else v2) + carry
  {
    AddLimb(Two(w), v1, if sub then Two(w) - 1 - v2 else v2, carry)
  }

  lemma NonzeroSum(k: nat, z: nat, u: nat)
    ensures z + Two(k) * u != 0 <==> z != 0 || u != 0
  {
    if u > 0 {
      MulPositive(Two(k), u);
    }
  }

  /** The index i reads no limb of either operand. */
  predicate Outside(w: nat, la: nat, lb: nat, d: nat, rlen: nat, i: int) {
    var ap, bp := la - rlen + i, w * (lb - rlen + i) + d;
    !(0 <= ap < la) && !(bp + w > 0 && bp < Bits(w, lb))
  }

  lemma OutsideIs(w: nat, la: nat, lb: nat, d: nat, rlen: nat, i: int)
    ensures Outside(w, la, lb, d, rlen, i) <==>
      !(0 <= la - rlen + i < la || (w * (lb - rlen + i) + d + w > 0 && w * (lb - rlen + i) + d < Bits(w, lb)))
  {
  }

  /** The jump over a stretch outside both operands. */
  function NextInside(w: nat, la: nat, lb: nat, d: nat, rlen: nat, i: int): int
    requires w > 0
  {
    var ao, bo := la - rlen, w * (lb - rlen) + d;
    var i1 := if ao + i < 0 && -ao < 0 then -ao else 0;
    var i2 := (-bo) / w;
    if bo + w * i + w <= 0 && i2 < i1 then i2 else i1
  }

  /** The jump goes forward and only over zeros. */
  lemma GapBounds(w: nat, la: nat, lb: nat, d: nat, t: nat, rlen: nat, i: int)
    requires w > 0 && la <= t && Bits(w, lb) + d <= Bits(w, t) && rlen - t <= i < 0 && rlen <= t
      && Outside(w, la, lb, d, rlen, i)
    ensures var i' := NextInside(w, la, lb, d, rlen, i); var g, g' := i + t - rlen, i' + t - rlen;
      && i < i' <= 0 && g' + la <= t && Bits(w, g) + w <= Bits(w, g')
      && (Bits(w, g') + (Bits(w, lb) + d) <= Bits(w, t) || Bits(w, t) <= Bits(w, g) + d)
  {
    var i' := NextInside(w, la, lb, d, rlen, i);
    var ao, bo := la - rlen, w * (lb - rlen) + d;
    var bp := bo + w * i;
    assert w * (lb - rlen + i) == w * (lb - rlen) + w * i by { Distrib(w, lb - rlen, i); }
    var i2 := (-bo) / w;
    assert -bo == w * i2 + (-bo) % w;
    if bp + w <= 0 {
      if i2 <= i {
        MulMono(i2, i, w);
      }
      MulMono(i', i2, w);
    }
    BitsMono(w, i + t - rlen, i' + t - rlen);
    GridPositions(w, lb, t, rlen, i);
    GridPositions(w, lb, t, rlen, i');
  }

  lemma GridPositions(w: nat, lb: nat, t: nat, rlen: nat, i: int)
    requires rlen - t <= i
    ensures Bits(w, i + t - rlen) == w * i + Bits(w, t) - w * rlen && Bits(w, lb) - w * rlen == w * (lb - rlen)
  {
    Distrib(w, i + t, rlen);
    Distrib(w, i, t);
    Distrib(w, lb, rlen);
  }

  lemma GapIsZero(w: nat, a: seq<nat>, b: seq<nat>, d: nat, t: nat, rlen: nat, i: int, i': int)
    requires w > 0 && Digits(Base(w), a) && Digits(Base(w), b) && rlen <= t && |a| <= t
    requires Bits(w, |b|) + d <= Bits(w, t) && rlen - t <= i < 0
    requires Outside(w, |a|, |b|, d, rlen, i) && i' == NextInside(w, |a|, |b|, d, rlen, i)
    ensures i < i' <= 0 && Bits(w, i + t - rlen) + w <= Bits(w, i' + t - rlen)
    ensures var k, g, g' := Bits(w, t), Bits(w, i + t - rlen), Bits(w, i' + t - rlen);
      var x, y := Lead(Val(Base(w), a), Bits(w, |a|), k), Lead(Val(Base(w), b), Bits(w, |b|) + d, k);
      Rem(x, g') == Rem(x, g) && Rem(y, g') == Rem(y, g)
    ensures FirstLimbAt(a, rlen, i) == 0 && SecondLimbAt(w, b, d, rlen, i) == 0
  {
    hide *;
    GapBounds(w, |a|, |b|, d, t, rlen, i);
    var k, g, g' := Bits(w, t), Bits(w, i + t - rlen), Bits(w, i' + t - rlen);
    var m, m', e, e' := Val(Base(w), a), Val(Base(w), b), Bits(w, |a|), Bits(w, |b|);
    BitsAdd(w, i' + t - rlen, |a|);
    BitsLeq(w, i' + t - rlen + |a|, t);
    GridBelow(m, e, k, g);
    GridBelow(m, e, k, g');
    if g' + (e' + d) <= k {
      GridBelow(m', e' + d, k, g);
      GridBelow(m', e' + d, k, g');
    } else {
      ValBound(Base(w), b);
      BasePow(w, |b|);
      GridAbove(m', e', d, k, g);
      GridAbove(m', e', d, k, g');
    }
    ReadLimbs(w, a, b, d, t, rlen, i);
    SameRemZero(Lead(m, e, k), g, g', w);
    SameRemZero(Lead(m', e' + d, k), g, g', w);
  }

  lemma BitsLeq(w: nat, m: nat, n: nat)
    requires m <= n
    ensures Bits(w, m) <= Bits(w, n)
  {
    MulMono(m, n, w);
  }

  /** When nothing is set between k and k', the limb at k is zero. */
  lemma SameRemZero(x: nat, k: nat, k': nat, w: nat)
    requires k + w <= k' && Rem(x, k') == Rem(x, k)
    ensures Rem(Quot(x, k), w) == 0
  {
    hide Two, Quot, Rem;
    NestedQuot(x, k, k' - k);
    var y := Quot(x, k);
    MulZeroOnly(Two(k), Rem(y, k' - k));
    NestedQuot(y, w, k' - k - w);
  }

  lemma MulZeroOnly(p: nat, r: nat)
    requires p > 0 && p * r == 0
    ensures r == 0
  {
    if r > 0 {
      MulPositive(p, r);
    }
  }

  /** The loop below the result: carry and sticky flag. */
  method SumLow(w: nat, a: seq<nat>, b: seq<nat>, d: nat, t: nat, rlen: nat, sub: bool)
    returns (carry: nat, z: bool, ghost low: nat)
    requires w > 0 && Digits(Base(w), a) && Digits(Base(w), b) && rlen <= t && |a| <= t
      && Bits(w, |b|) + d <= Bits(w, t)
    ensures z <==> low != 0
    ensures var k := Bits(w, t);
      Partial(sub, Lead(Val(Base(w), a), Bits(w, |a|), k), Lead(Val(Base(w), b), Bits(w, |b|) + d, k),
      Bits(w, t - rlen), carry, low)
  {
    hide *;
    ghost var k := Bits(w, t);
    ghost var x, y := Lead(Val(Base(w), a), Bits(w, |a|), k), Lead(Val(Base(w), b), Bits(w, |b|) + d, k);
    carry, z, low := if sub then 1 else 0, false, 0;
    var i := rlen - t;
    PartialStart(sub, x, y);
    BitsOne(w);
    while i < 0
      invariant rlen - t <= i <= 0 && carry <= 1 && (z <==> low != 0)
      invariant Partial(sub, x, y, Bits(w, i + t - rlen), carry, low)
    {
      var v1, v2 := FirstLimbAt(a, rlen, i), SecondLimbAt(w, b, d, rlen, i);
      ReadLimbs(w, a, b, d, t, rlen, i);
      var ap, bp := |a| - rlen + i, w * (|b| - rlen + i) + d;
      var inside := 0 <= ap < |a| || (bp + w > 0 && bp < Bits(w, |b|));
      OutsideIs(w, |a|, |b|, d, rlen, i);
      var i0 := i;
      var r := SumLimb(w, v1, v2, sub, carry);
      if inside {
        i := i + 1;
        PartialStep(w, sub, x, y, Bits(w, i0 + t - rlen), carry, low, r.0, r.1);
        NextLimb(w, i + t - rlen);
        NonzeroSum(Bits(w, i0 + t - rlen), low, r.0);
        low := low + Two(Bits(w, i0 + t - rlen)) * r.0;
      } else {
        i := NextInside(w, |a|, |b|, d, rlen, i0);
        GapIsZero(w, a, b, d, t, rlen, i0, i);
        PartialGap(w, sub, x, y, Bits(w, i0 + t - rlen), Bits(w, i + t - rlen), carry, low, r.0, r.1);
        ghost var low' :| Partial(sub, x, y, Bits(w, i + t - rlen), r.1, low') && (low' != 0 <==> low != 0 || r.0 != 0);
        low := low';
      }
      carry, z := r.1, z || r.0 != 0;
    }
  }

  /** The loop over the limbs of the result. */
  method SumHigh(w: nat, a: seq<nat>, b: seq<nat>, d: nat, t: nat, rlen: nat, sub: bool, carry0: nat, ghost low: nat)
    returns (tab: array<nat>, carry: nat)
    requires w > 0 && Digits(Base(w), a) && Digits(Base(w), b) && rlen <= t
    requires var k := Bits(w, t);
      Partial(sub, Lead(Val(Base(w), a), Bits(w, |a|), k), Lead(Val(Base(w), b), Bits(w, |b|) + d, k),
      Bits(w, t - rlen), carry0, low)
    ensures fresh(tab) && tab.Length == rlen && Digits(Base(w), tab[..])
    ensures var k := Bits(w, t);
      Partial(sub, Lead(Val(Base(w), a), Bits(w, |a|), k), Lead(Val(Base(w), b), Bits(w, |b|) + d, k), k, carry,
        low + Two(Bits(w, t - rlen)) * Val(Base(w), tab[..]))
  {
    hide *;
    ghost var k := Bits(w, t);
    ghost var x, y := Lead(Val(Base(w), a), Bits(w, |a|), k), Lead(Val(Base(w), b), Bits(w, |b|) + d, k);
    tab := new nat[rlen](_ => 0);
    BaseIs(w);
    carry := carry0;
    var i := 0;
    NoneYet(w, tab[..], t - rlen, low);
    ZeroLimbs(w, tab[..]);
    PartialCarry(sub, x, y, Bits(w, t - rlen), carry, low);
    while i < rlen
      invariant 0 <= i <= rlen && carry <= 1 && Digits(Base(w), tab[..])
      invariant Partial(sub, x, y, Bits(w, i + t - rlen), carry,
        low + Two(Bits(w, t - rlen)) * Val(Base(w), tab[..][..i]))
    {
      ghost var s := tab[..];
      var v1, v2 := FirstLimbAt(a, rlen, i), SecondLimbAt(w, b, d, rlen, i);
      ReadLimbs(w, a, b, d, t, rlen, i);
      var r := SumLimb(w, v1, v2, sub, carry);
      PartialStep(w, sub, x, y, Bits(w, i + t - rlen), carry, low + Two(Bits(w, t - rlen)) * Val(Base(w), s[..i]), r.0,
        r.1);
      tab[i], carry := r.0, r.1;
      NextLimb(w, i + 1 + t - rlen);
      OneMore(w, s, tab[..], t - rlen, i, r.0, low);
      i := i + 1;
    }
    assert tab[..][..rlen] == tab[..];
  }

  lemma ZeroLimbs(w: nat, s: seq<nat>)
    requires forall i :: 0 <= i < |s| ==> s[i] == 0
    ensures Digits(Base(w), s)
  {
  }

  lemma PartialCarry(sub: bool, x: nat, y: nat, k: nat, carry: nat, z: nat)
    requires Partial(sub, x, y, k, carry, z)
    ensures carry <= 1 && z < Two(k)
  {
  }

  lemma NoneYet(w: nat, s: seq<nat>, g: nat, low: nat)
    ensures low + Two(Bits(w, g)) * Val(Base(w), s[..0]) == low
  {
  }

  lemma OneMore(w: nat, s: seq<nat>, s': seq<nat>, g: nat, i: nat, u: nat, low: nat)
    requires i < |s| == |s'| && s' == s[i := u] && Digits(Base(w), s) && u < Two(w)
    ensures Digits(Base(w), s')
    ensures low + Two(Bits(w, g)) * Val(Base(w), s'[..i + 1])
         == low + Two(Bits(w, g)) * Val(Base(w), s[..i]) + Two(Bits(w, i + g)) * u
  {
    hide Two, Bits, Val, Base, Pow;
    BaseIs(w);
    ValPrefix(Base(w), s', i);
    assert s'[..i] == s[..i];
    BasePow(w, i);
    BitsAdd(w, i, g);
    TwoAdd(Bits(w, i), Bits(w, g));
    OneMoreArith(Two(Bits(w, g)), Two(Bits(w, i)), Two(Bits(w, i + g)), Val(Base(w), s[..i]), u);
  }

  lemma OneMoreArith(p: nat, q: nat, pq: nat, v: nat, u: nat)
    requires pq == q * p
    ensures p * (v + q * u) == p * v + pq * u
  {
    Distrib(p, v, q * u);
    Assoc(p, q, u);
  }

  // ---- the whole sum

  lemma LeadBelow(m: nat, e: nat, k: nat)
    requires m < Two(e) && e <= k
    ensures Lead(m, e, k) < Two(k) && Rem(Lead(m, e, k), k) == Lead(m, e, k)
  {
    hide Two, Quot, Rem;
    TwoAdd(e, k - e);
    MulStrict(m, Two(e), Two(k - e));
    QuotSmall(Lead(m, e, k), k);
  }

  /** The carry out of the top: for a sum the next bit, for a difference of a larger and a smaller number always
      one. */
  lemma SumTotal(sub: bool, x: nat, y: nat, k: nat, carry: nat, s: nat)
    requires Partial(sub, x, y, k, carry, s) && x < Two(k) && y < Two(k) && Rem(x, k) == x && Rem(y, k) == y
      && (sub ==> x >= y)
    ensures if sub then carry == 1 && s == x - y else x + y == (if carry == 1 then Two(k) else 0) + s
  {
    hide Two, Rem;
  }
}

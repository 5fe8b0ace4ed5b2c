/** bf_mul and bf_div: the correctly rounded product and quotient. */
module FloatProduct {
  import opened Limbs
  import opened LimbKernels
  import opened LimbUnary
  import opened LimbProduct
  import opened LimbRecip
  import opened LimbDivlarge
  import opened RoundSpec
  import opened FloatBits
  import opened FloatRound
  import opened FloatDigits
  import opened FloatCancel
  import opened FloatSum
  import opened FloatUnits
  import opened BigFloat
  import opened FloatAdd
  import opened FloatExact

  // ---- products of reals with powers of two

  lemma LiftIsProduct(x: real, j: int)
    ensures Lifted(x, j) == x * Units(1, j)
  {
    hide Two;
    if j < 0 {
      var d := Two(-j) as real;
      assert x / d == x * (1.0 / d);
    }
  }

  lemma PowerProduct(j: int, k: int)
    ensures Units(1, j) * Units(1, k) == Units(1, j + k)
  {
    hide Units, Lifted;
    LiftIsProduct(Units(1, j), k);
    LiftUnits(1, j, k);
  }

  lemma LiftProduct(x: real, j: int, y: real, k: int)
    ensures Lifted(x, j) * Lifted(y, k) == Lifted(x * y, j + k)
  {
    hide Units, Lifted;
    LiftIsProduct(x, j);
    LiftIsProduct(y, k);
    LiftIsProduct(x * y, j + k);
    PowerProduct(j, k);
    FourFactors(x, Units(1, j), y, Units(1, k));
  }

  lemma FourFactors(a: real, b: real, c: real, d: real)
    ensures (a * b) * (c * d) == (a * c) * (b * d)
  {
    var e := c * d;
    assert (a * b) * e == a * (b * e);
    assert b * e == c * (b * d);
    assert a * (c * (b * d)) == (a * c) * (b * d);
  }

  lemma UnitsProduct(m: nat, j: int, n: nat, k: int)
    ensures Units(m, j) * Units(n, k) == Units(m * n, j + k)
  {
    hide Units, Lifted;
    LiftNat(m, j);
    LiftNat(n, k);
    MulMono(0, m, n);
    RealProduct(m, n, m * n);
    LiftNat(m * n, j + k);
    LiftedProduct(m as real, j, n as real, k, Units(m, j), Units(n, k), (m * n) as real);
  }

  lemma LiftedProduct(x: real, j: int, y: real, k: int, u: real, v: real, z: real)
    requires u == Lifted(x, j) && v == Lifted(y, k) && z == x * y
    ensures u * v == Lifted(z, j + k)
  {
    hide Lifted;
    LiftProduct(x, j, y, k);
    SameProduct(u, Lifted(x, j), v, Lifted(y, k));
  }

  lemma SameProduct(x: real, x': real, y: real, y': real)
    requires x == x' && y == y'
    ensures x * y == x' * y'
  {
  }

  lemma RealProduct(m: nat, n: nat, p: nat)
    requires p == m * n
    ensures m as real * n as real == p as real
  {
  }

  // ---- bf_mul

  /** bf_normalize_and_round of an exact number that is not zero */
  method RoundExact(w: nat, tab: array<nat>, expn: int, sign: bool, f: Format, mode: Mode) returns (r: BigFloat,
      flags: Flags, ghost g: Rounding)
    requires w > 0 && Digits(Base(w), tab[..]) && Val(Base(w), tab[..]) != 0 && (f.prec.Some? ==> f.prec.value > 0)
      && !f.radixPoint
    modifies tab
    ensures fresh(r) && r.w == w && r.sign == sign
    ensures Correct(f, mode, sign, old(Units(Val(Base(w), tab[..]), expn - Bits(w, tab.Length) - g.unit)), g, w, r.kind,
      r.expn, r.tab[..], flags)
  {
    hide Two, Bits, Val, Base, TopBit, Correct, Units, Sticky, RoundedReal, Outcome, HasBits, Effective, RoundedBits,
      IsExponent, Digits;
    ghost var v := Val(Base(w), tab[..]);
    ghost var shift;
    r, flags, shift, g := NormalizeAndRound(w, tab, expn, sign, f, mode);
    StickyZeroIs(v);
    WholeUnits(v, shift);
    CutRounds(mode, sign, v, 0, 0, shift, g.n, g.prec, g.r);
    CutBits(v, 0, 0, shift, g.n);
    IsCorrect(f, mode, sign, Units(v, shift), g, w, r.kind, r.expn, r.tab[..], flags, g.r != Two(shift) * v);
  }

  /** What the product of a and b is. */
  ghost predicate IsProduct(a: BigFloat, b: BigFloat, f: Format, mode: Mode, g: Rounding, x: real, r: BigFloat,
      flags: Flags, invalid: bool)
    reads a, a.tab, b, b.tab, r, r.tab
  {
    var sign := a.sign != b.sign;
    if a.kind == Finite && b.kind == Finite then
      && !invalid && r.sign == sign && Lifted(x, g.unit) == Absolute(a) * Absolute(b)
      && Correct(f, mode, sign, x, g, a.w, r.kind, r.expn, r.tab[..], flags)
    else if a.kind == NaN || b.kind == NaN then r.kind == NaN && !invalid && flags == NoFlags()
    else if (a.kind == Infinite && b.kind == Zero) || (a.kind == Zero && b.kind == Infinite) then
      r.kind == NaN && invalid && flags == NoFlags()
    else if a.kind == Infinite || b.kind == Infinite then r.kind == Infinite && r.sign == sign && !invalid
    && flags == NoFlags()
    else r.kind == Zero && r.sign == sign && !invalid && flags == NoFlags()
  }

  /** The product of two finite numbers; x is the exact product in units of 2^g.unit. */
  method MulFinite(a: BigFloat, b: BigFloat, f: Format, mode: Mode)
    returns (r: BigFloat, flags: Flags, ghost g: Rounding, ghost x: real)
    requires a.Valid() && b.Valid() && a.kind == Finite && b.kind == Finite && a.w == b.w
    requires (f.prec.Some? ==> f.prec.value > 0) && !f.radixPoint
    ensures fresh(r) && r.w == a.w && r.sign == (a.sign != b.sign) && Lifted(x, g.unit) == Absolute(a) * Absolute(b)
    ensures Correct(f, mode, r.sign, x, g, a.w, r.kind, r.expn, r.tab[..], flags)
  {
    hide Two, Bits, Val, Base, TopBit, Correct, Units, Lifted, Alone, Digits;
    var w, sign := a.w, a.sign != b.sign;
    TopBitFacts(w, a.tab[..]);
    TopBitFacts(w, b.tab[..]);
    var s, t := a.tab[..], b.tab[..];
    var tab := new nat[|s| + |t|](_ => 0);
    ZeroLimbs(w, tab[..]);
    ProductNonzero(w, s, t);
    MpMul(Base(w), tab, 0, s, t);
    assert tab[0..0 + |s| + |t|] == tab[..];
    ghost var v, j := Val(Base(w), tab[..]), a.expn + b.expn - Bits(w, |s| + |t|);
    r, flags, g := RoundExact(w, tab, a.expn + b.expn, sign, f, mode);
    x := Units(v, j - g.unit);
    LiftUnits(v, j - g.unit, g.unit);
    BitsAdd(w, |s|, |t|);
    AloneIs(a);
    AloneIs(b);
    UnitsProduct(Val(Base(w), s), a.expn - Bits(w, |s|), Val(Base(w), t), b.expn - Bits(w, |t|));
  }

  /** bf_mul */
  method Mul(a: BigFloat, b: BigFloat, f: Format, mode: Mode) returns (r: BigFloat, flags: Flags, invalid: bool,
      ghost g: Rounding, ghost x: real)
    requires a.Valid() && b.Valid() && a.w == b.w && (f.prec.Some? ==> f.prec.value > 0) && !f.radixPoint
    ensures fresh(r) && r.w == a.w && IsProduct(a, b, f, mode, g, x, r, flags, invalid)
  {
    hide Correct, Lifted, Alone, TopBit;
    var w, sign := a.w, a.sign != b.sign;
    flags, invalid, g, x := NoFlags(), false, Rounding(0, 0, 0, 0, 0), 0.0;
    if a.kind == Finite && b.kind == Finite {
      r, flags, g, x := MulFinite(a, b, f, mode);
      return;
    }
    var none := new nat[0];
    if a.kind == NaN || b.kind == NaN {
      r := new BigFloat(w, NaN, false, 0, none);
    } else if a.kind == Infinite || b.kind == Infinite {
      invalid := a.kind == Zero || b.kind == Zero;
      r := new BigFloat(w, if invalid then NaN else Infinite, sign, 0, none);
    } else {
      r := new BigFloat(w, Zero, sign, 0, none);
    }
  }

  lemma AloneIs(a: BigFloat)
    ensures Alone(a, 0) == Units(Val(Base(a.w), a.tab[..]), a.expn - Bits(a.w, a.tab.Length))
  {
  }

  lemma ZeroLimbs(w: nat, s: seq<nat>)
    requires forall i :: 0 <= i < |s| ==> s[i] == 0
    ensures Digits(Base(w), s)
  {
  }

  lemma ProductNonzero(w: nat, s: seq<nat>, t: seq<nat>)
    requires TopBit(w, s) && TopBit(w, t)
    ensures Val(Base(w), s) * Val(Base(w), t) != 0 && |t| > 0
  {
    hide Two, Val, Base, Bits;
    TopNonzero(w, s);
    TopNonzero(w, t);
    MulPositive(Val(Base(w), s), Val(Base(w), t));
  }

  /** bf_mul at infinite precision: the exact product p */
  method MulExact(a: BigFloat, b: BigFloat, f: Format, ghost p: real) returns (r: BigFloat)
    requires Numeric(a) && Numeric(b) && a.w == b.w && Unlimited(f) && p == Absolute(a) * Absolute(b) && InRange(f, p)
    ensures fresh(r) && r.w == a.w && Numeric(r) && r.sign == (a.sign != b.sign) && Absolute(r) == p
  {
    hide Two, Bits, Val, Base, TopBit, Correct, Units, Lifted, Alone, InRange;
    NoPrecision(f);
    var flags, invalid;
    ghost var g, x;
    r, flags, invalid, g, x := Mul(a, b, f, RNDZ);
    if a.kind == Finite && b.kind == Finite {
      assert Lifted(x, g.unit) == p;
      PartIsExact(f, RNDZ, r.sign, x, g, r, flags);
      AbsoluteIs(r);
    }
  }

  // ---- bf_div

  /** A number h + fraction, cut with a sticky bit, shifted and rounded. */
  lemma FractionRounds(mode: Mode, negative: bool, h: nat, f: real, low: nat, s: nat, n: nat, prec: int, r: nat)
    requires 0.0 <= f < 1.0 && (low != 0 <==> f != 0.0) && (low != 0 ==> prec + 2 + s <= n)
    requires RoundedBits(mode, negative, Two(s) * Sticky(h, low), n, prec, r)
    ensures var x := Scale(Two(s), h as real + f);
      RoundedReal(mode, negative, x, n, prec, r) && (r != Two(s) * Sticky(h, low) <==> r as real != x)
  {
    hide *;
    var x := Scale(Two(s), h as real + f);
    if low == 0 {
      StickyZeroIs(h);
      ScaleNat(Two(s), h);
      RoundedAgrees(mode, negative, Two(s) * h, n, prec, r);
    } else {
      StickyCut(mode, negative, h, f, s, n, prec, r, low, x);
    }
  }

  lemma FractionBits(h: nat, f: real, low: nat, s: nat, n: nat)
    requires 0.0 <= f < 1.0 && (low != 0 <==> f != 0.0) && (low != 0 ==> 3 + s <= n)
    requires Two(s) * Sticky(h, low) < Two(n) <= 2 * (Two(s) * Sticky(h, low))
    ensures HasBits(Scale(Two(s), h as real + f), n)
  {
    hide Two, Scale, Sticky;
    if low == 0 {
      StickyZeroIs(h);
      ScaleNat(Two(s), h);
    } else {
      TwoAdd(s, n - s);
      TwoAdd(s, n - s - 1);
      TwoNext(n - 1);
      TwoNext(n - s - 2);
      StickyRange(h, low, Two(s), Two(n - s - 2), Two(n - s - 1), Two(n - s));
      ScaleNat(Two(s), Two(n - s - 1));
      ScaleNat(Two(s), Two(n - s));
      TwoNext(n - s - 1);
      ScaleReal(Two(s), Two(n - s - 1) as real, h as real + f);
      ScaleReal(Two(s), Two(n - s) as real, h as real + f);
    }
  }

  /** The quotient of normalised numbers has all the bits of its n limbs. */
  lemma QuotientBits(u: nat, d: nat, h: nat, rem: nat, na: nat, nb: nat, n: nat)
    requires u == h * d + rem && rem < d && d < Two(nb) && Two(na) <= 2 * u && na == nb + n && n > 0
    ensures Two(n - 1) <= h
  {
    hide Two;
    TwoAdd(nb, n - 1);
    TwoNext(na - 1);
    if h < Two(n - 1) {
      MulMono(h + 1, Two(n - 1), d);
      Distrib(d, h, 1);
      MulMono(d, Two(nb), Two(n - 1));
    }
  }

  lemma KeptBits(h: nat, low: nat, s: nat, n: nat, k: nat)
    requires k > 0 && Two(k - 1) <= h && Two(s) * Sticky(h, low) < Two(n)
    ensures s + k <= n
  {
    hide Two, Sticky;
    StickyAbove(h, low);
    TwoAdd(s, k - 1);
    MulMono(Two(k - 1), Sticky(h, low), Two(s));
    if n < s + k {
      TwoMono(n, s + k - 1);
    }
  }

  /** The dividend above zero limbs. */
  lemma Padded(w: nat, a: seq<nat>, t: seq<nat>, d: nat)
    requires |t| == d + |a| && (forall i :: 0 <= i < d ==> t[i] == 0) && t[d..] == a && Digits(Base(w), a)
    ensures Digits(Base(w), t) && Val(Base(w), t) == Val(Base(w), a) * Two(Bits(w, d))
  {
    hide Two, Val, Base, Bits;
    forall i | 0 <= i < |t|
      ensures t[i] < Base(w)
    {
      if i >= d {
        assert t[i] == t[d..][i - d];
      }
    }
    ValSplit(Base(w), t, d);
    ValZeros(Base(w), t[..d]);
    BasePow(w, d);
  }

  lemma TopIsNormalised(w: nat, b: seq<nat>)
    requires w > 0 && TopBit(w, b)
    ensures Normalised(Base(w), b)
  {
    hide Two, Val, Pow;
    var n := |b| - 1;
    TopBitFacts(w, b);
    BaseIs(w);
    BasePow(w, n);
    BitsAdd(w, n, 1);
    BitsOne(w);
    TwoAdd(Bits(w, n), w);
    ValTop(Base(w), b);
    TopHalfBit(Two(Bits(w, n)), Base(w), b[n], Val(Base(w), b[..n]), Val(Base(w), b));
    BaseEven(w);
  }

  lemma TopHalfBit(p: nat, b: nat, x: nat, low: nat, v: nat)
    requires p > 0 && v == low + p * x && low < p && p * b <= 2 * v
    ensures b <= 2 * x + 1
  {
    Distrib(p, 2 * x, 2);
    assert p * (2 * x) == 2 * (p * x);
    if b >= 2 * x + 2 {
      MulMono(2 * x + 2, b, p);
    }
  }

  /** The quotient of two finite numbers, as limbs with a sticky bit: h and the fraction rem / d. */
  method QuotientLimbs(w: nat, a: seq<nat>, b: seq<nat>, n: nat) returns (q: array<nat>, ghost h: nat, ghost rem: nat)
    requires w >= 4 && TopBit(w, a) && TopBit(w, b) && |a| <= n
    ensures fresh(q) && q.Length == n + 1 && Digits(Base(w), q[..]) && Val(Base(w), q[..]) == Sticky(h, rem)
    ensures Val(Base(w), a) * Two(Bits(w, n + |b| - |a|)) == h * Val(Base(w), b) + rem && rem < Val(Base(w), b)
    ensures Two(Bits(w, n) - 1) <= h && n > 0
  {
    hide *;
    TopBitFacts(w, a);
    TopBitFacts(w, b);
    TopLength(w, a);
    TopLength(w, b);
    var nb := |b|;
    var na := n + nb;
    var d := na - |a|;
    var taba := new nat[na + 1](i requires 0 <= i <= na => if d <= i < na then a[i - d] else 0);
    assert taba[0..0 + na][d..] == a;
    Padded(w, a, taba[0..0 + na], d);
    q := new nat[n + 1](_ => 0);
    ZeroLimbs(w, q[..]);
    TopIsNormalised(w, b);
    WideBase(w);
    PaddedDigits(w, taba[..], na);
    MpDivnorm(Base(w), q, taba, 0, na, b);
    assert q[..na - nb + 1] == q[..] && taba[0..0 + nb] == taba[..nb];
    h, rem := Val(Base(w), q[..]), Val(Base(w), taba[..nb]);
    BitsMono(w, 0, n);
    BitsAdd(w, nb, n);
    PaddedTop(w, a, d, na);
    QuotientBits(Val(Base(w), a) * Two(Bits(w, d)), Val(Base(w), b), h, rem, Bits(w, na), Bits(w, nb), Bits(w, n));
    var nonzero := MpScanNz(Base(w), taba[..nb]);
    FoldSticky(w, q, nonzero, rem);
  }

  lemma WideBase(w: nat)
    requires w >= 4
    ensures 10 <= Base(w) && w > 0
  {
    hide Two;
    BaseIs(w);
    TwoMono(4, w);
    FourIsTwoTwo();
    TwoAdd(2, 2);
  }

  lemma PaddedDigits(w: nat, s: seq<nat>, n: nat)
    requires |s| == n + 1 && s[n] == 0 && Digits(Base(w), s[0..0 + n])
    ensures Digits(Base(w), s)
  {
    forall i | 0 <= i < n
      ensures s[i] < Base(w)
    {
      assert s[i] == s[0..0 + n][i];
    }
  }

  lemma PaddedTop(w: nat, a: seq<nat>, d: nat, na: nat)
    requires TopBit(w, a) && na == |a| + d
    ensures Two(Bits(w, na)) <= 2 * (Val(Base(w), a) * Two(Bits(w, d)))
  {
    hide Two, Val, Base, Bits;
    TopBitFacts(w, a);
    TwoSplit(w, |a|, d);
    MulMono(Two(Bits(w, |a|)), 2 * Val(Base(w), a), Two(Bits(w, d)));
    Assoc(2, Val(Base(w), a), Two(Bits(w, d)));
  }

  /** The quotient h + rem / d of two finite numbers is their quotient. */
  lemma QuotientValue(w: nat, va: nat, la: nat, ea: int, vb: nat, lb: nat, eb: int, n: nat, h: nat, rem: nat, s: nat)
    requires la <= n + lb && va * Two(Bits(w, n + lb - la)) == h * vb + rem && vb > 0
    ensures var x := Scale(Two(s), h as real + rem as real / vb as real);
      Lifted(x, ea - eb - Bits(w, n) - s) * Units(vb, eb - Bits(w, lb)) == Units(va, ea - Bits(w, la))
  {
    hide Two, Bits, Units, Lifted, Scale;
    var y := h as real + rem as real / vb as real;
    var x, j, k, dd := Scale(Two(s), y), ea - eb - Bits(w, n) - s, eb - Bits(w, lb), Bits(w, n + lb - la);
    BitsAdd(w, n, lb);
    BitsAdd(w, la, n + lb - la);
    LiftScale(y, s, j);
    LiftNat(vb, k);
    var u: nat := va * Two(dd);
    FractionTimes(h, rem, vb, u);
    LiftNat(u, j + s + k);
    QuotientScaled(x, j, y, s, vb as real, k, u as real);
    UnitsShift(va, j + s + k, dd);
  }

  lemma QuotientScaled(x: real, j: int, y: real, s: int, v: real, k: int, u: real)
    requires Lifted(x, j) == Lifted(y, j + s) && y * v == u
    ensures Lifted(x, j) * Lifted(v, k) == Lifted(u, j + s + k)
  {
    hide Lifted;
    LiftProduct(y, j + s, v, k);
  }

  lemma LiftScale(y: real, s: nat, j: int)
    ensures Lifted(Scale(Two(s), y), j) == Lifted(y, s + j)
  {
    hide Two, Units, Scale;
    LiftIsProduct(Scale(Two(s), y), j);
    LiftIsProduct(y, s);
    LiftIsProduct(y, s + j);
    PowerProduct(s, j);
    RealAssoc(y, Units(1, s), Units(1, j));
  }

  lemma RealAssoc(x: real, y: real, z: real)
    ensures (x * y) * z == x * (y * z)
  {
  }

  lemma FractionTimes(h: nat, rem: nat, d: nat, u: nat)
    requires u == h * d + rem && d > 0
    ensures (h as real + rem as real / d as real) * d as real == u as real
  {
    var z := d as real;
    assert (rem as real / z) * z == rem as real;
    assert (h as real + rem as real / z) * z == h as real * z + (rem as real / z) * z;
  }

  lemma QuotientFraction(rem: nat, d: nat)
    requires rem < d
    ensures var f := rem as real / d as real; 0.0 <= f < 1.0 && (rem != 0 <==> f != 0.0)
  {
    if rem > 0 {
      CutFraction(rem, d);
    }
  }

  /** The quotient of two finite numbers; x is the exact quotient in units of 2^g.unit. */
  method DivFinite(a: BigFloat, b: BigFloat, f: Format, mode: Mode)
    returns (r: BigFloat, flags: Flags, ghost g: Rounding, ghost x: real)
    requires a.Valid() && b.Valid() && a.kind == Finite && b.kind == Finite && a.w == b.w >= 4
    requires f.prec.Some? && f.prec.value > 0 && !f.radixPoint
    ensures fresh(r) && r.w == a.w && r.sign == (a.sign != b.sign) && Lifted(x, g.unit) * Absolute(b) == Absolute(a)
    ensures Correct(f, mode, r.sign, x, g, a.w, r.kind, r.expn, r.tab[..], flags)
  {
    hide Two, Bits, Val, Base, TopBit, Correct, Units, Lifted, Alone, Digits, Sticky, RoundedReal, Outcome, HasBits,
      Effective, RoundedBits, IsExponent, Scale;
    var w, sign, prec := a.w, a.sign != b.sign, f.prec.value;
    var precl := (prec + 2 + w - 1) / w;
    LimbCount(w, prec + 2);
    var n := if a.tab.Length > precl then a.tab.Length else precl;
    BitsLeq(w, precl, n);
    ghost var va, vb := Val(Base(w), a.tab[..]), Val(Base(w), b.tab[..]);
    var q, h, rem := QuotientLimbs(w, a.tab[..], b.tab[..], n);
    ghost var fr := rem as real / vb as real;
    QuotientFraction(rem, vb);
    QuotientNonzero(h, rem, Bits(w, n) - 1);
    BitsAdd(w, n, 1);
    BitsOne(w);
    ghost var shift;
    r, flags, shift, g := NormalizeAndRound(w, q, a.expn - b.expn + w, sign, f, mode);
    EffectiveBelow(f, g.n, g.unit + g.n);
    KeptBits(h, rem, shift, g.n, Bits(w, n));
    FractionRounds(mode, sign, h, fr, rem, shift, g.n, g.prec, g.r);
    FractionBits(h, fr, rem, shift, g.n);
    x := Scale(Two(shift), h as real + fr);
    IsCorrect(f, mode, sign, x, g, w, r.kind, r.expn, r.tab[..], flags, g.r != Two(shift) * Sticky(h, rem));
    QuotientValue(w, va, a.tab.Length, a.expn, vb, b.tab.Length, b.expn, n, h, rem, shift);
    AloneIs(a);
    AloneIs(b);
  }

  lemma QuotientNonzero(h: nat, rem: nat, k: nat)
    requires Two(k) <= h
    ensures Sticky(h, rem) != 0
  {
    TwoPos(k);
  }

  /** What the quotient of a and b is. */
  ghost predicate IsQuotient(a: BigFloat, b: BigFloat, f: Format, mode: Mode, g: Rounding, x: real, r: BigFloat,
      flags: Flags, invalid: bool, byZero: bool)
    reads a, a.tab, b, b.tab, r, r.tab
  {
    var sign := a.sign != b.sign;
    if a.kind == Finite && b.kind == Finite then
      && !invalid && !byZero && r.sign == sign && Lifted(x, g.unit) * Absolute(b) == Absolute(a)
      && Correct(f, mode, sign, x, g, a.w, r.kind, r.expn, r.tab[..], flags)
    else if a.kind == NaN || b.kind == NaN then r.kind == NaN && !invalid && !byZero && flags == NoFlags()
    else if a.kind == b.kind then r.kind == NaN && invalid && !byZero && flags == NoFlags()
    else if a.kind == Infinite || b.kind == Zero then
      r.kind == Infinite && r.sign == sign && !invalid && byZero == (a.kind != Infinite) && flags == NoFlags()
    else r.kind == Zero && r.sign == sign && !invalid && !byZero && flags == NoFlags()
  }

  /** bf_div: invalid and byZero are the other two status flags */
  method Div(a: BigFloat, b: BigFloat, f: Format, mode: Mode)
    returns (r: BigFloat, flags: Flags, invalid: bool, byZero: bool, ghost g: Rounding, ghost x: real)
    requires a.Valid() && b.Valid() && a.w == b.w >= 4 && f.prec.Some? && f.prec.value > 0 && !f.radixPoint
    ensures fresh(r) && r.w == a.w && IsQuotient(a, b, f, mode, g, x, r, flags, invalid, byZero)
  {
    hide Correct, Lifted, Alone, TopBit;
    var w, sign := a.w, a.sign != b.sign;
    flags, invalid, byZero, g, x := NoFlags(), false, false, Rounding(0, 0, 0, 0, 0), 0.0;
    var none := new nat[0];
    if a.kind == NaN || b.kind == NaN {
      r := new BigFloat(w, NaN, false, 0, none);
    } else if a.kind == Infinite && b.kind == Infinite {
      invalid := true;
      r := new BigFloat(w, NaN, false, 0, none);
    } else if a.kind == Infinite {
      r := new BigFloat(w, Infinite, sign, 0, none);
    } else if b.kind == Infinite {
      r := new BigFloat(w, Zero, sign, 0, none);
    } else if a.kind == Zero {
      invalid := b.kind == Zero;
      r := new BigFloat(w, if invalid then NaN else Zero, sign, 0, none);
    } else if b.kind == Zero {
      byZero := true;
      r := new BigFloat(w, Infinite, sign, 0, none);
    } else {
      r, flags, g, x := DivFinite(a, b, f, mode);
    }
  }
}

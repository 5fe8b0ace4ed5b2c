/** bf_rint and bf_divrem: the quotient rounded to an integer by every mode, and its remainder. */
module FloatDivrem {
  import opened Limbs
  import opened LimbUnary
  import opened RoundSpec
  import opened FloatBits
  import opened FloatRound
  import opened FloatDigits
  import opened FloatCancel
  import opened FloatUnits
  import opened BigFloat
  import opened FloatAdd
  import opened FloatExact
  import opened FloatProduct
  import opened FloatLogic

  // ---- results in the exponent range

  lemma OutcomeNumber(f: Format, mode: Mode, negative: bool, inexact: bool, r: nat, e: int, unit: int, q: BigFloat,
      flags: Flags)
    requires q.w > 0 && Outcome(f, mode, negative, inexact, r, e, false, unit, q.w, q.kind, q.expn, q.tab[..], flags)
    requires f.eMin <= e <= f.eMax
    ensures q.kind == Finite && q.expn == e && Numeric(q) && Absolute(q) == Units(r, unit)
  {
    hide Units, Two, Val, Base, Bits, TopBit, AllOnes;
    var v, j := Val(Base(q.w), q.tab[..]), e - Bits(q.w, q.tab.Length);
    UnitsShift(v, unit, j - unit);
  }

  /** The exponent bounds the magnitude. */
  lemma ExponentBounds(a: BigFloat)
    requires Numeric(a) && a.kind == Finite
    ensures Units(1, a.expn - 1) <= Absolute(a) < Units(1, a.expn)
  {
    hide Two, Bits, Units, Val, Base, TopBit;
    TopBitFacts(a.w, a.tab[..]);
    BitsMono(a.w, 0, a.tab.Length) by { TopLength(a.w, a.tab[..]); }
    var v, k := Val(Base(a.w), a.tab[..]), Bits(a.w, a.tab.Length);
    TwoNext(k - 1);
    UnitsMono(Two(k), v, a.expn - k);
    UnitsMono(Two(k - 1), v, a.expn - k);
    UnitsShift(1, a.expn - k, k);
    UnitsShift(1, a.expn - k, k - 1);
    assert 1 * Two(k) == Two(k) && 1 * Two(k - 1) == Two(k - 1);
  }

  // ---- bf_rint

  /** A magnitude of v 2^(e - n), rounded to e bits, is rounded at the radix point. */
  lemma RoundedAtPoint(mode: Mode, negative: bool, v: nat, n: nat, e: int, r: nat) returns (k: nat)
    requires RoundedBits(mode, negative, v, n, e, r)
    ensures Units(r, e - n) == k as real && IsRoundedReal(mode, negative, Units(v, e - n), 1, k)
  {
    hide Two, Units, IsRounded, IsRoundedReal;
    if e >= n {
      k := RoundedWhole(mode, negative, v, e - n);
    } else {
      k := RoundedCut(mode, negative, v, n - e, r);
    }
  }

  /** Without bits after the point nothing changes. */
  lemma RoundedWhole(mode: Mode, negative: bool, v: nat, j: nat) returns (k: nat)
    ensures Units(v, j) == k as real && IsRoundedReal(mode, negative, Units(v, j), 1, k)
  {
    hide Two, Units, IsRounded, IsRoundedReal;
    k := Two(j) * v;
    UnitsNat(v, j);
    RealAgrees(mode, negative, k, 1, k);
    ExactlyRounded(mode, negative, k);
  }

  /** A multiple of 2^j in units of 2^-j. */
  lemma RoundedCut(mode: Mode, negative: bool, v: nat, j: nat, r: nat) returns (k: nat)
    requires IsRounded(mode, negative, v, Two(j), r)
    ensures Units(r, 0 - j) == k as real && IsRoundedReal(mode, negative, Units(v, 0 - j), 1, k)
  {
    hide Two, Units, IsRounded, IsRoundedReal, Scale;
    var u := Two(j);
    k := RoundedMultiple(mode, negative, v, u, r);
    UnitsShift(k, 0 - j, j);
    UnitsNat(k, 0);
    UnitsScaled(v, 0 - j, 0, j);
    TwoZero();
    RoundedUnscaled(mode, negative, Units(v, 0 - j), u, v, k, r);
  }

  lemma RoundedUnscaled(mode: Mode, negative: bool, x: real, u: nat, v: nat, k: nat, r: nat)
    requires u > 0 && r == k * u && Scale(u, x) == v as real && IsRounded(mode, negative, v, u, r)
    ensures IsRoundedReal(mode, negative, x, 1, k)
  {
    hide IsRounded, IsRoundedReal, Scale;
    RealAgrees(mode, negative, v, u, r);
    assert u * 1 == u && u * k == r;
    ScaleRoundedReal(mode, negative, x, 1, k, u);
  }

  lemma ExactlyRounded(mode: Mode, negative: bool, k: nat)
    ensures IsRounded(mode, negative, k, 1, k)
  {
    assert k == k * 1;
  }

  lemma RoundedMultiple(mode: Mode, negative: bool, v: nat, u: nat, r: nat) returns (k: nat)
    requires IsRounded(mode, negative, v, u, r)
    ensures r == k * u
  {
    hide IsMultiple;
    k := MultipleOf(r, u);
  }

  lemma MultipleOf(r: nat, u: nat) returns (k: nat)
    requires IsMultiple(r, u)
    ensures r == k * u
  {
    k :| r == k * u;
  }

  /** bf_rint, on a copy: the number rounded to an integer by the mode, or infinity beyond the exponent range */
  method Rint(q: BigFloat, f: Format, mode: Mode) returns (r: BigFloat, ghost k: nat)
    requires Numeric(q) && q.kind == Finite && f.eMin <= 1 <= f.eMax && q.expn <= f.eMax
    ensures fresh(r) && r.w == q.w && r.sign == q.sign && IsRoundedReal(mode, q.sign, Absolute(q), 1, k)
    ensures if k as real < Units(1, f.eMax) then IsInteger(r, k) else r.kind == Infinite
  {
    hide Two, Bits, Val, Base, TopBit, Units, IsRounded, IsRoundedReal, Outcome, RoundedBits, IsExponent;
    var w, s := q.w, q.tab[..];
    var t := new nat[|s|](i requires 0 <= i < |s| => s[i]);
    assert t[..] == s;
    r := new BigFloat(w, Finite, q.sign, q.expn, t);
    var flags;
    ghost var res, e;
    var f0 := Format(Some(0), true, false, f.eMin, f.eMax);
    flags, res, e := r.Round(f0, mode);
    AloneIs(q);
    ghost var n, v := Bits(w, |s|), Val(Base(w), s);
    k := RoundedAtPoint(mode, q.sign, v, n, q.expn, res);
    if q.expn <= 0 {
      TopBitFacts(w, s);
      SmallOutcome(f0, mode, q.sign, v, n, q.expn, res, e, r, flags, k);
    } else {
      RintOutcome(f0, mode, q, res, n, e, r, flags, k);
    }
  }

  /** A number below one becomes zero or one. */
  lemma SmallOutcome(f: Format, mode: Mode, negative: bool, v: nat, n: nat, expn: int, res: nat, e: int, q: BigFloat,
      flags: Flags, k: nat)
    requires q.w > 0 && 1 <= f.eMax && v < Two(n) && expn <= 0 && Units(res, expn - n) == k as real
    requires Outcome(f, mode, negative, res != v, res, e, true, expn - n, q.w, q.kind, q.expn, q.tab[..], flags)
    requires IsRoundedReal(mode, negative, Units(v, expn - n), 1, k)
    ensures IsInteger(q, k) && k as real < Units(1, f.eMax)
  {
    hide Two, Units, Val, Base, Bits, TopBit;
    BelowOne(v, n, expn);
    ZeroUnits(expn - n);
    RoundedBelowOne(mode, negative, Units(v, expn - n), k);
    UnitsNat(1, 0);
    TwoZero();
    PowerTwice(0);
    PowerMono(1, f.eMax);
    if res != 0 {
      var j := q.expn - Bits(q.w, q.tab.Length);
      UnitsShift(Val(Base(q.w), q.tab[..]), expn - n, j - (expn - n));
    }
  }

  lemma BelowOne(v: nat, n: nat, e: int)
    requires v < Two(n) && e <= 0
    ensures Units(v, e - n) < 1.0
  {
    hide Two, Units;
    UnitsMono(Two(n), v, e - n);
    UnitsShift(1, e - n, n);
    assert 1 * Two(n) == Two(n);
    PowerMono(e, 0);
    UnitsNat(1, 0);
    TwoZero();
  }

  lemma RoundedBelowOne(mode: Mode, negative: bool, x: real, k: nat)
    requires IsRoundedReal(mode, negative, x, 1, k) && x < 1.0
    ensures k <= 1
  {
    hide IsMultiple;
  }

  lemma RintOutcome(f: Format, mode: Mode, q: BigFloat, res: nat, n: nat, e: int, r: BigFloat, flags: Flags, k: nat)
    requires Numeric(q) && q.kind == Finite && f.eMin <= 1 && 0 < q.expn <= f.eMax && n == Bits(q.w, q.tab.Length)
      && f.prec == Some(0)
    requires RoundedBits(mode, q.sign, Val(Base(q.w), q.tab[..]), n, q.expn, res) && IsExponent(res, q.expn - n, e)
    requires Outcome(f, mode, q.sign, res != Val(Base(q.w), q.tab[..]), res, e, false, q.expn - n, r.w, r.kind, r.expn,
      r.tab[..], flags)
    requires Units(res, q.expn - n) == k as real && r.w > 0
    ensures if k as real < Units(1, f.eMax) then IsInteger(r, k) else r.kind == Infinite
  {
    hide Two, Units, Val, Base, Bits, TopBit, RoundedBits, IsExponent, ToInfinity, Outcome;
    TopBitFacts(q.w, q.tab[..]);
    RintExponent(res, q.expn - n, e, k);
    var v := Val(Base(q.w), q.tab[..]);
    if e <= f.eMax {
      PowerMono(e, f.eMax);
      OutcomeNumber(f, mode, q.sign, res != v, res, e, q.expn - n, r, flags);
    } else {
      PowerMono(f.eMax, e - 1);
      if !ToInfinity(f, mode, q.sign) {
        TruncationKeeps(f, mode, q.sign, v, n, q.expn, res, q.expn, e);
      }
      OutcomeInfinite(f, mode, q.sign, res != v, res, e, q.expn - n, r, flags);
    }
  }

  lemma OutcomeInfinite(f: Format, mode: Mode, negative: bool, inexact: bool, r: nat, e: int, unit: int, q: BigFloat,
      flags: Flags)
    requires Outcome(f, mode, negative, inexact, r, e, false, unit, q.w, q.kind, q.expn, q.tab[..], flags)
    requires f.eMin <= e && f.eMax < e && ToInfinity(f, mode, negative)
    ensures q.kind == Infinite
  {
  }

  lemma RintExponent(r: nat, unit: int, e: int, k: nat)
    requires IsExponent(r, unit, e) && Units(r, unit) == k as real
    ensures e >= 1 && Units(1, e - 1) <= k as real < Units(1, e)
  {
    hide Two, Units;
    UnitsShift(1, unit, e - 1 - unit);
    UnitsShift(1, unit, e - unit);
    assert 1 * Two(e - unit) == Two(e - unit) && 1 * Two(e - 1 - unit) == Two(e - 1 - unit);
    UnitsMono(Two(e - 1 - unit), r, unit);
    UnitsMono(Two(e - unit), r, unit);
    UnitsPositive(e - 1);
    if e < 1 {
      PowerMono(e, 0);
      UnitsNat(1, 0);
      TwoZero();
    }
  }

  /** bf_rint toward zero, with room to spare */
  method Truncate(q: BigFloat, f: Format) returns (r: BigFloat, ghost k: nat)
    requires Numeric(q) && q.kind == Finite && f.eMin <= 1 <= f.eMax && q.expn <= f.eMax
    ensures fresh(r) && r.w == q.w && r.sign == q.sign && IsInteger(r, k) && k as real <= Absolute(q) < (k + 1) as real
  {
    hide Two, Bits, Units, Absolute, Numeric, IsMultiple, IsInteger;
    r, k := Rint(q, f, RNDZ);
    ExponentBounds(q);
    PowerMono(q.expn, f.eMax);
  }

  // ---- the truncated quotient

  /** Truncation to prec significant bits keeps every integer below x when prec covers the integer part. */
  lemma KeepsIntegers(x: real, n: nat, unit: int, prec: nat, r: nat, m: nat)
    requires HasBits(x, n) && RoundedReal(RNDZ, false, x, n, prec, r) && unit + n <= prec
      && m as real <= Lifted(x, unit)
    ensures Lifted(x, unit) >= Units(r, unit) >= m as real
  {
    hide Two, Units, Lifted, HasBits, IsMultiple;
    LiftNat(r, unit);
    LiftMono(r as real, x, unit);
    if prec < n {
      var u, d := Two(n - prec), -unit - (n - prec);
      var q := MultipleOf(r, u);
      UnitsNat(m, 0);
      TwoZero();
      var k := m * Two(d);
      TwoAdd(d, n - prec);
      Assoc(m, Two(d), u);
      UnitsShift(m, unit, -unit);
      LiftNat(k * u, unit);
      LiftMono((k * u) as real, x, unit);
      BelowMultiple(k, q, u, x);
      UnitsMono(k * u, r, unit);
    }
  }

  lemma BelowMultiple(k: nat, q: nat, u: nat, x: real)
    requires (k * u) as real <= x < (q * u) as real + u as real
    ensures k * u <= q * u
  {
    if k > q {
      MulMono(q + 1, k, u);
      Distrib(u, q, 1);
    }
  }

  /** The exponent of the quotient of a and b. */
  lemma QuotientExponent(a: BigFloat, b: BigFloat, x: real, unit: int, n: nat)
    requires Numeric(a) && Numeric(b) && a.kind == Finite && b.kind == Finite && HasBits(x, n)
    requires Lifted(x, unit) * Absolute(b) == Absolute(a)
    ensures unit + n <= a.expn - b.expn + 1 && Lifted(x, unit) > 0.0
  {
    hide Two, Units, Lifted, Absolute, Numeric;
    ExponentBounds(a);
    ExponentBounds(b);
    var y := Lifted(x, unit);
    HalfPositive(x, n);
    ZeroLift(unit);
    LiftMono(x, 0.0, unit);
    if unit + n > a.expn - b.expn + 1 {
      LiftMono(Two(n) as real, 2.0 * x, unit);
      LiftSum(x, x, unit);
      LiftNat(Two(n), unit);
      UnitsShift(1, unit, n);
      assert 1 * Two(n) == Two(n);
      PowerMono(a.expn - b.expn + 2, unit + n);
      PowerTwice(a.expn - b.expn + 1);
      UnitsPositive(b.expn - 1);
      RealMono(Units(1, a.expn - b.expn + 1), y, Absolute(b));
      UnitsPositive(a.expn - b.expn + 1);
      RealMono(Units(1, b.expn - 1), Absolute(b), Units(1, a.expn - b.expn + 1));
      PowerProduct(a.expn - b.expn + 1, b.expn - 1);
    }
  }

  lemma ZeroLift(j: int)
    ensures Lifted(0.0, j) == 0.0
  {
    hide Two;
  }

  lemma PowerTwice(j: int)
    ensures Units(1, j + 1) == Units(1, j) + Units(1, j)
  {
    hide Units, Two;
    UnitsShift(1, j, 1);
    TwoNext(0);
    TwoZero();
    UnitsSum(1, 1, j);
  }

  lemma UnitsPositive(j: int)
    ensures Units(1, j) > 0.0
  {
    hide Units;
    ZeroUnits(j);
    UnitsMono(1, 0, j);
  }

  lemma RealMono(x: real, y: real, z: real)
    requires x <= y && z >= 0.0
    ensures x * z <= y * z && z * x <= z * y
  {
  }

  /** Room for the results: the exponents of a, b, their quotient and the last bits of a and b are in the range. */
  ghost predicate Room(f: Format, a: BigFloat, b: BigFloat)
    reads a, a.tab, b, b.tab
  {
    && Unlimited(f) && f.eMin <= 1 && a.expn < f.eMax && b.expn < f.eMax && a.expn - b.expn + 2 < f.eMax && 2 < f.eMax
    && f.eMin < a.expn - Bits(a.w, a.tab.Length) && f.eMin < b.expn - Bits(b.w, b.tab.Length)
  }

  /** x is a multiple of 2^u. */
  ghost predicate OnGrid(x: real, u: int) {
    exists k: nat :: x == Units(k, u)
  }

  lemma IsOnGrid(k: nat, u: int)
    ensures OnGrid(Units(k, u), u)
  {
  }

  lemma FinerGrid(k: nat, j: int, u: int)
    requires u <= j
    ensures OnGrid(Units(k, j), u)
  {
    hide Units, Two;
    UnitsShift(k, u, j - u);
    IsOnGrid(k * Two(j - u), u);
  }

  lemma GridDifference(x: real, y: real, u: int)
    requires OnGrid(x, u) && OnGrid(y, u) && x >= y
    ensures OnGrid(x - y, u)
  {
    hide Units;
    var k: nat :| x == Units(k, u);
    var l: nat :| y == Units(l, u);
    UnitsMono(l, k, u);
    UnitsSum(k - l, l, u);
    IsOnGrid(k - l, u);
  }

  lemma GridInRange(f: Format, x: real, u: int, e: int)
    requires OnGrid(x, u) && f.eMin - 1 <= u && x < Units(1, e) && e <= f.eMax
    ensures InRange(f, x)
  {
    hide Units;
    var k: nat :| x == Units(k, u);
    ZeroUnits(u);
    PowerMono(e, f.eMax);
    if k > 0 {
      UnitsMono(1, k, u);
      PowerMono(f.eMin - 1, u);
    }
  }

  /** k v */
  ghost function Multiple(k: nat, v: real): real {
    k as real * v
  }

  /** The last bit of a or b, whichever is lower. */
  ghost function GridOf(a: BigFloat, b: BigFloat): int
    reads a, a.tab, b, b.tab
  {
    var i, j := a.expn - Bits(a.w, a.tab.Length), b.expn - Bits(b.w, b.tab.Length);
    if i < j then i else j
  }

  lemma OnCommonGrid(a: BigFloat, b: BigFloat, k: nat)
    requires a.kind == Finite && b.kind == Finite && a.w == b.w
    ensures OnGrid(Absolute(a), GridOf(a, b)) && OnGrid(Multiple(k, Absolute(b)), GridOf(a, b))
      && OnGrid(Absolute(b), GridOf(a, b))
  {
    hide Units, Val, Base, Bits, OnGrid;
    var va, vb, i, j := Val(Base(a.w), a.tab[..]), Val(Base(b.w), b.tab[..]), a.expn - Bits(a.w, a.tab.Length),
      b.expn - Bits(b.w, b.tab.Length);
    FinerGrid(va, i, GridOf(a, b));
    FinerGrid(vb, j, GridOf(a, b));
    UnitsNat(k, 0);
    TwoZero();
    UnitsProduct(k, 0, vb, j);
    MulMono(0, k, vb);
    var p: nat := k * vb;
    SameProduct(k as real, Units(k, 0), Absolute(b), Units(vb, j));
    assert Multiple(k, Absolute(b)) == Units(p, j);
    FinerGrid(p, j, GridOf(a, b));
  }

  /** The integer part k of the quotient of the magnitudes, from a division rounded toward zero and bf_rint. */
  method FloorQuotient(a: BigFloat, b: BigFloat, f: Format) returns (q: BigFloat, ghost k: nat)
    requires Numeric(a) && Numeric(b) && a.kind == Finite && b.kind == Finite && a.w == b.w >= 4 && !a.sign && !b.sign
      && Room(f, a, b)
    requires Absolute(a) >= Absolute(b)
    ensures fresh(q) && q.w == a.w && !q.sign && IsInteger(q, k)
    ensures Multiple(k, Absolute(b)) <= Absolute(a) < Multiple(k + 1, Absolute(b))
  {
    hide Two, Bits, Units, Lifted, Correct, Absolute, Numeric, Unlimited, Multiple;
    NumericFacts(a);
    NumericFacts(b);
    ghost var u, v := Absolute(a), Absolute(b);
    PositiveSize(b);
    var prec := if a.expn - b.expn + 1 > 2 then a.expn - b.expn + 1 else 2;
    var f1 := Format(Some(prec), false, false, f.eMin, f.eMax);
    var q1, flags, g, x := DivFinite(a, b, f1, RNDZ);
    ghost var y := Lifted(x, g.unit);
    QuotientFits(a, b, f1, x, g, prec, q1, flags);
    q, k := Truncate(q1, f);
    if y >= (k + 1) as real {
      KeepsIntegers(x, g.n, g.unit, prec, g.r, k + 1);
    }
    KeepsIntegers(x, g.n, g.unit, prec, g.r, 0) by { LiftNonnegative(x, g.unit, g.n); }
    BetweenMultiples(k, y, u, v);
  }

  lemma BetweenMultiples(k: nat, y: real, u: real, v: real)
    requires k as real <= y < (k + 1) as real && y * v == u && v > 0.0
    ensures Multiple(k, v) <= u < Multiple(k + 1, v)
  {
    ScaledBetween(k as real, (k + 1) as real, y, u, v);
  }

  lemma ScaledBetween(lo: real, hi: real, y: real, u: real, v: real)
    requires lo <= y < hi && y * v == u && v > 0.0
    ensures lo * v <= u < hi * v
  {
    var p, q, r := lo * v, y * v, hi * v;
    assert (y - lo) * v >= 0.0;
    assert (hi - y) * v > 0.0;
    assert q - p == (y - lo) * v && r - q == (hi - y) * v;
  }

  lemma LiftNonnegative(x: real, j: int, n: nat)
    requires HasBits(x, n)
    ensures 0.0 <= Lifted(x, j)
  {
    hide Two, Lifted;
    HalfPositive(x, n);
    ZeroLift(j);
    LiftMono(0.0, x, j);
  }

  lemma RealLess(x: real, y: real, z: real)
    requires x < y && z > 0.0
    ensures x * z < y * z
  {
  }

  lemma PositiveSize(a: BigFloat)
    requires Numeric(a) && a.kind == Finite
    ensures Absolute(a) > 0.0
  {
    hide Alone, TopBit;
    AlonePositive(a, 0);
  }

  /** The rounded quotient is a finite number; its precision covers the integer part. */
  lemma QuotientFits(a: BigFloat, b: BigFloat, f: Format, x: real, g: Rounding, prec: nat, q: BigFloat, flags: Flags)
    requires Numeric(a) && Numeric(b) && a.kind == Finite && b.kind == Finite && q.w == a.w == b.w
    requires Lifted(x, g.unit) * Absolute(b) == Absolute(a) && Absolute(a) >= Absolute(b)
    requires f == Format(Some(prec), false, false, f.eMin, f.eMax) && prec >= a.expn - b.expn + 1 && prec >= 2
    requires f.eMin <= 1 && a.expn - b.expn + 2 < f.eMax && 2 < f.eMax
    requires Correct(f, RNDZ, false, x, g, q.w, q.kind, q.expn, q.tab[..], flags)
    ensures HasBits(x, g.n) && RoundedReal(RNDZ, false, x, g.n, prec, g.r) && g.unit + g.n <= prec
    ensures Numeric(q) && q.kind == Finite && Absolute(q) == Units(g.r, g.unit) && q.expn < f.eMax
  {
    hide Two, Units, Lifted, HasBits, RoundedReal, Absolute, Numeric, IsExponent, Outcome;
    NumericFacts(a);
    QuotientExponent(a, b, x, g.unit, g.n);
    QuotientAtLeastOne(Lifted(x, g.unit), Absolute(a), Absolute(b)) by { PositiveSize(b); }
    KeepsIntegers(x, g.n, g.unit, prec, g.r, 1);
    QuotientBelow(a, b, x, g);
    QuotientInRange(f, g, a.expn - b.expn + 1);
    OutcomeNumber(f, RNDZ, false, g.r as real != x, g.r, g.e, g.unit, q, flags);
  }

  lemma QuotientAtLeastOne(y: real, u: real, v: real)
    requires y * v == u && u >= v > 0.0
    ensures 1.0 <= y
  {
    if y < 1.0 {
      RealLess(y, 1.0, v);
    }
  }

  lemma QuotientBelow(a: BigFloat, b: BigFloat, x: real, g: Rounding)
    requires HasBits(x, g.n) && g.unit + g.n <= a.expn - b.expn + 1 && Lifted(x, g.unit) >= Units(g.r, g.unit)
    ensures Units(g.r, g.unit) < Units(1, a.expn - b.expn + 1)
  {
    hide Two, Units, Lifted;
    LiftMono(Two(g.n) as real, x, g.unit);
    LiftNat(Two(g.n), g.unit);
    UnitsShift(1, g.unit, g.n);
    assert 1 * Two(g.n) == Two(g.n);
    PowerMono(g.unit + g.n, a.expn - b.expn + 1);
  }

  lemma QuotientInRange(f: Format, g: Rounding, e: int)
    requires IsExponent(g.r, g.unit, g.e) && Units(g.r, g.unit) >= 1.0 && Units(g.r, g.unit) < Units(1, e)
      && f.eMin <= 1 && e + 1 < f.eMax
    ensures f.eMin <= g.e < f.eMax
  {
    hide Two, Units;
    var f' := Format(None, false, false, f.eMin, f.eMax - 1);
    ZeroUnits(g.unit);
    PowerMono(f.eMin - 1, 0);
    UnitsNat(1, 0);
    TwoZero();
    PowerMono(e, f.eMax - 1);
    assert g.r > 0 by {
      if g.r == 0 {
        assert false;
      }
    }
    ExponentInRange(f', g.r, g.unit, g.e);
  }

  /** bf_tdivremu: a = k b + r with 0 <= r < b */
  method TruncDivRem(a: BigFloat, b: BigFloat, f: Format) returns (q: BigFloat, r: BigFloat, ghost k: nat)
    requires Numeric(a) && Numeric(b) && a.kind == Finite && b.kind == Finite && a.w == b.w >= 4 && !a.sign && !b.sign
      && Room(f, a, b)
    ensures fresh(q) && q.w == a.w && !q.sign && IsInteger(q, k)
    ensures (r == a || fresh(r)) && r != q && r.w == a.w && Numeric(r)
    ensures Value(r) == Absolute(a) - Multiple(k, Absolute(b)) && 0.0 <= Value(r) < Absolute(b)
    ensures r.kind == Zero ==> !r.sign
  {
    hide Two, Bits, Units, Absolute, Numeric, Unlimited, Above, SameMagnitude, InRange, OnGrid;
    NumericFacts(a);
    NumericFacts(b);
    ghost var u, v := Absolute(a), Absolute(b);
    PositiveSize(a);
    PositiveSize(b);
    var c := CmpMagnitude(a, b);
    OrderedSizes(a, b);
    if c < 0 {
      var none := new nat[0];
      q := new BigFloat(a.w, Zero, false, 0, none);
      ZeroIsInteger(q);
      r, k := a, 0;
      return;
    }
    q, k := FloorQuotient(a, b, f);
    NextMultipleOf(k, v);
    r := Remainder(a, b, q, f, k);
  }

  /** a - q b, exactly */
  method Remainder(a: BigFloat, b: BigFloat, q: BigFloat, f: Format, ghost k: nat) returns (r: BigFloat)
    requires Numeric(a) && Numeric(b) && a.kind == Finite && b.kind == Finite && q.w == a.w == b.w && !a.sign && !b.sign
      && Room(f, a, b)
    requires !q.sign && IsInteger(q, k) && Multiple(k, Absolute(b)) <= Absolute(a)
    ensures fresh(r) && r.w == a.w && Numeric(r) && Value(r) == Absolute(a) - Multiple(k, Absolute(b))
    ensures r.kind == Zero ==> !r.sign
  {
    hide Two, Bits, Units, Absolute, Numeric, Unlimited, InRange, OnGrid, Multiple;
    ghost var p := Multiple(k, Absolute(b));
    RoomIs(f, a, b);
    ProductRange(a, b, f, k, p);
    IntegerSize(q, k);
    MultipleIs(Absolute(q), k, Absolute(b));
    var t := MulExact(q, b, f, p);
    AbsoluteIs(a);
    assert Size(Value(a) + Signed(true, Absolute(t))) == Absolute(a) - p;
    r := AddExact(a, t, true, f, RNDZ);
  }

  lemma MultipleIs(x: real, k: nat, v: real)
    requires x == k as real
    ensures x * v == Multiple(k, v)
  {
  }

  lemma IntegerSize(q: BigFloat, k: nat)
    requires IsInteger(q, k)
    ensures Absolute(q) == k as real && Numeric(q)
  {
  }

  lemma ZeroIsInteger(q: BigFloat)
    requires q.w > 0 && q.kind == Zero
    ensures IsInteger(q, 0)
  {
  }

  lemma NextMultipleOf(k: nat, v: real)
    ensures Multiple(k + 1, v) == Multiple(k, v) + v
  {
  }

  lemma OrderedSizes(a: BigFloat, b: BigFloat)
    requires Numeric(a) && Numeric(b) && a.w == b.w && a.kind == Finite && b.kind == Finite
    ensures (Above(a, b) ==> Absolute(a) > Absolute(b)) && (Above(b, a) ==> Absolute(b) > Absolute(a))
    ensures SameMagnitude(a, b) ==> Absolute(a) == Absolute(b)
  {
    hide Above, SameMagnitude, Alone;
    OrderedValues(a, b);
    OrderedValues(b, a);
  }

  lemma MultipleNonnegative(b: BigFloat, k: nat)
    requires Numeric(b)
    ensures Multiple(k, Absolute(b)) >= 0.0
  {
    AbsoluteIs(b);
  }

  lemma RoomIs(f: Format, a: BigFloat, b: BigFloat)
    requires Room(f, a, b)
    ensures f.eMin - 1 <= GridOf(a, b) && f.eMin <= 1 && a.expn <= f.eMax && b.expn <= f.eMax && Unlimited(f)
  {
    hide Bits;
  }

  /** The product k b and the difference a - k b are in the range. */
  lemma ProductRange(a: BigFloat, b: BigFloat, f: Format, k: nat, p: real)
    requires Numeric(a) && Numeric(b) && a.kind == Finite && b.kind == Finite && a.w == b.w && Room(f, a, b)
    requires p == Multiple(k, Absolute(b)) && p <= Absolute(a)
    ensures InRange(f, p) && InRange(f, Absolute(a) - p)
  {
    hide Two, Bits, Units, Absolute, Numeric, InRange, OnGrid, Room;
    var u := GridOf(a, b);
    RoomIs(f, a, b);
    ExponentBounds(a);
    OnCommonGrid(a, b, k);
    MultipleNonnegative(b, k);
    GridInRange(f, p, u, a.expn);
    GridDifference(Absolute(a), p, u);
    GridInRange(f, Absolute(a) - p, u, a.expn);
  }

  // ---- bf_divrem

  /** The rounding mode of the quotient, with the Euclidean division beside the others. */
  datatype Rule = Rounded(mode: Mode) | Euclidean

  /** Whether the integer part is rounded up whenever there is a remainder: is_ceil */
  predicate Ceiling(rule: Rule, negative: bool, aSign: bool) {
    match rule
    case Euclidean => aSign
    case Rounded(RNDD) => negative
    case Rounded(RNDU) => !negative
    case Rounded(RNDA) => true
    case Rounded(_) => false
  }

  predicate ToNearest(rule: Rule) {
    rule == Rounded(RNDN) || rule == Rounded(RNDNA)
  }

  /** k or k + 1, from the remainder d and the divisor v. */
  ghost predicate Decides(rule: Rule, negative: bool, aSign: bool, k: nat, d: real, v: real, up: bool) {
    if d == 0.0 then !up
    else if ToNearest(rule) then up <==> 2.0 * d > v || (2.0 * d == v && (rule == Rounded(RNDNA) || k % 2 == 1))
    else up <==> Ceiling(rule, negative, aSign)
  }

  /** Q is the quotient x rounded to an integer. */
  lemma DecisionRounds(mode: Mode, negative: bool, aSign: bool, x: real, k: nat, d: real, v: real, up: bool)
    requires v > 0.0 && 0.0 <= d < v && x * v == Multiple(k, v) + d
      && Decides(Rounded(mode), negative, aSign, k, d, v, up)
    ensures IsRoundedReal(mode, negative, x, 1, if up then k + 1 else k)
  {
    var z := x - k as real;
    var q := if up then k + 1 else k;
    FractionOf(x, k, d, v, z);
    assert IsMultiple(q, 1) by { assert q == q * 1; }
    if mode == RNDN && 2.0 * z == 1.0 {
      assert q % 2 == 0;
      assert IsMultiple(q, 2) by { assert q == (q / 2) * 2; }
    }
  }

  lemma FractionOf(x: real, k: nat, d: real, v: real, z: real)
    requires v > 0.0 && 0.0 <= d < v && x * v == Multiple(k, v) + d && z == x - k as real
    ensures z * v == d && 0.0 <= z < 1.0 && (d == 0.0 <==> z == 0.0) && (2.0 * d > v <==> 2.0 * z > 1.0)
    ensures (2.0 * d == v <==> 2.0 * z == 1.0)
  {
    assert z * v == x * v - Multiple(k, v);
    if z < 0.0 {
      RealLess(z, 0.0, v);
    }
    if z >= 1.0 {
      RealMono(1.0, z, v);
    }
    HalfOrder(z, d, v);
  }

  lemma HalfOrder(z: real, d: real, v: real)
    requires v > 0.0 && z * v == d
    ensures (2.0 * d > v <==> 2.0 * z > 1.0) && (2.0 * d == v <==> 2.0 * z == 1.0)
  {
    assert (2.0 * z) * v == 2.0 * d;
    if 2.0 * z > 1.0 {
      RealLess(1.0, 2.0 * z, v);
    } else if 2.0 * z < 1.0 {
      RealLess(2.0 * z, 1.0, v);
    }
  }

  /** The lowest bit of an integer: get_bit at its radix point */
  method IsOdd(q: BigFloat, ghost k: nat) returns (odd: bool)
    requires IsInteger(q, k)
    ensures odd <==> k % 2 == 1
  {
    hide Two, Bits, Units, Val, Base, TopBit, BitSet, Digits;
    IntegerBelow(q, k);
    if q.kind == Zero {
      return false;
    }
    var offset := Bits(q.w, q.tab.Length) - q.expn;
    TopBitFacts(q.w, q.tab[..]);
    odd := GetBit(q.w, q.tab[..], offset);
    OddBit(Val(Base(q.w), q.tab[..]), offset, k);
  }

  lemma OddBit(v: nat, offset: int, k: nat)
    requires Units(v, -offset) == k as real
    ensures if offset >= 0 then BitSet(v, offset) <==> k % 2 == 1 else k % 2 == 0
  {
    hide Two, Quot, Rem, Units;
    IntegerMantissa(v, offset, k);
    if offset >= 0 {
      QuotIs(v, offset, k, 0);
    } else {
      TwoNext(-offset - 1);
      EvenProduct(v, Two(-offset - 1));
    }
  }

  lemma EvenProduct(v: nat, p: nat)
    ensures (v * (2 * p)) % 2 == 0
  {
    assert v * (2 * p) == 2 * (v * p);
    EvenShift(v * p, 0);
  }

  /** A float with the limbs of a, another sign and exponent. */
  method View(a: BigFloat, sign: bool, expn: int) returns (v: BigFloat)
    requires Numeric(a) && a.kind == Finite
    ensures fresh(v) && v.w == a.w && v.kind == Finite && v.sign == sign && v.expn == expn && v.tab == a.tab
      && Numeric(v)
    ensures expn == a.expn ==> Absolute(v) == Absolute(a)
    ensures expn == a.expn - 1 ==> Absolute(v) + Absolute(v) == Absolute(a)
  {
    hide Units, Val, Base, Bits, TopBit;
    v := new BigFloat(a.w, Finite, sign, expn, a.tab);
    ghost var m, j := Val(Base(a.w), a.tab[..]), a.expn - Bits(a.w, a.tab.Length);
    HalfUnits(m, j - 1);
  }

  lemma HalfUnits(m: nat, j: int)
    ensures Units(m, j) + Units(m, j) == Units(m, j + 1)
  {
    hide Units, Two;
    UnitsShift(m, j, 1);
    TwoNext(0);
    TwoZero();
    UnitsSum(m, m, j);
  }

  /** Whether the quotient is rounded away from zero: the test of bf_divrem on the remainder r */
  method RoundUp(rule: Rule, negative: bool, aSign: bool, q: BigFloat, r: BigFloat, b: BigFloat, ghost k: nat)
    returns (up: bool)
    requires IsInteger(q, k) && Numeric(r) && Numeric(b) && b.kind == Finite && r.w == b.w && Value(r) >= 0.0
    ensures Decides(rule, negative, aSign, k, Value(r), Absolute(b), up)
  {
    hide Two, Bits, Units, Absolute, Numeric, Above, SameMagnitude;
    NumericFacts(r);
    AbsoluteIs(r);
    if r.kind == Zero {
      ZeroValue(r);
      return false;
    }
    PositiveSize(r);
    if ToNearest(rule) {
      var half := View(b, false, b.expn - 1);
      NumericFacts(half);
      var c := CmpMagnitude(r, half);
      OrderedSizes(r, half);
      var odd := IsOdd(q, k);
      up := c > 0 || (c == 0 && (rule == Rounded(RNDNA) || odd));
    } else {
      up := Ceiling(rule, negative, aSign);
    }
  }

  /** The integer part of the quotient is below 2^e. */
  lemma QuotientSmall(a: BigFloat, b: BigFloat, k: nat) returns (e: nat)
    requires Numeric(a) && Numeric(b) && a.kind == Finite && b.kind == Finite && Multiple(k, Absolute(b)) <= Absolute(a)
    ensures e == (if a.expn - b.expn + 2 > 1 then a.expn - b.expn + 2 else 1) && k + 1 < Two(e)
  {
    hide Two, Units, Absolute, Numeric;
    e := if a.expn - b.expn + 2 > 1 then a.expn - b.expn + 2 else 1;
    ExponentBounds(a);
    ExponentBounds(b);
    UnitsPositive(b.expn - 1);
    TwoNext(e - 1);
    TwoPos(e - 1);
    if k >= Two(e - 1) {
      UnitsNat(1, e - 1);
      PowerMono(a.expn - b.expn + 1, e - 1);
      UnitsPositive(a.expn - b.expn + 1);
      MultipleAtLeast(k, Units(1, a.expn - b.expn + 1), Units(1, b.expn - 1), Absolute(b));
      PowerProduct(a.expn - b.expn + 1, b.expn - 1);
    }
  }

  lemma MultipleAtLeast(k: nat, p: real, q: real, v: real)
    requires k as real >= p && 0.0 < q <= v && p >= 0.0
    ensures Multiple(k, v) >= p * q
  {
    RealMono(p, k as real, q);
    RealMono(q, v, k as real);
  }

  /** The values of quotient and remainder with their signs. */
  lemma SignedDivision(n: nat, u: real, v: real, d: real, aSign: bool, bSign: bool)
    requires u == Multiple(n, v) + d
    ensures Signed(aSign, u) == Signed(aSign != bSign, n as real) * Signed(bSign, v) + Signed(aSign, d)
  {
    SignedProduct(n as real, v, aSign, bSign);
  }

  lemma SignedProduct(x: real, v: real, aSign: bool, bSign: bool)
    ensures Signed(aSign != bSign, x) * Signed(bSign, v) == Signed(aSign, x * v)
  {
    assert (0.0 - x) * v == 0.0 - x * v && x * (0.0 - v) == 0.0 - x * v && (0.0 - x) * (0.0 - v) == x * v;
  }

  /** What quotient and remainder satisfy, before the remainder is rounded. */
  ghost predicate IsDivision(rule: Rule, a: BigFloat, b: BigFloat, q: BigFloat, r: BigFloat, n: nat)
    reads a, a.tab, b, b.tab, q, q.tab, r, r.tab
  {
    && Numeric(r) && IsInteger(q, n) && Value(a) == Value(q) * Value(b) + Value(r)
    && match rule
       case Euclidean => 0.0 <= Value(r) < Absolute(b)
       case Rounded(mode) => Absolute(b) > 0.0 && IsRoundedReal(mode, a.sign != b.sign, Absolute(a) / Absolute(b), 1, n)
  }

  /** The part of Room that is about the quotient is needed: beyond it no quotient in the exponent range is right. */
  lemma QuotientNeedsRoom(rule: Rule, a: BigFloat, b: BigFloat, q: BigFloat, r: BigFloat, n: nat, eMax: nat)
    requires Numeric(a) && Numeric(b) && a.kind == Finite && b.kind == Finite && IsDivision(rule, a, b, q, r, n)
    requires a.expn - b.expn > eMax
    ensures q.kind == Finite && q.expn > eMax
  {
    hide Units, Two, Absolute, Numeric, IsDivision, Multiple;
    ExponentBounds(a);
    ExponentBounds(b);
    UnitsPositive(b.expn - 1);
    QuotientAbove(rule, a, b, q, r, n);
    IntegerParts(rule, a, b, q, r, n);
    UnitsNat(1, eMax);
    UnitsNat(n, 0);
    TwoZero();
    PowerMono(eMax + b.expn, a.expn - 1);
    PowerProduct(eMax, b.expn);
    if n < Two(eMax) {
      UnitsPositive(eMax);
      RealMono(Absolute(b), Units(1, b.expn), Units(1, eMax));
      MultipleBelow(n + 1, Units(1, eMax), Absolute(b));
    }
    UnitsPositive(eMax);
    ExponentAbove(q, eMax);
  }

  lemma MultipleBelow(k: nat, x: real, v: real)
    requires k as real <= x && v >= 0.0
    ensures Multiple(k, v) <= x * v
  {
    RealMono(k as real, x, v);
  }

  lemma ExponentAbove(q: BigFloat, j: int)
    requires Numeric(q) && Units(1, j) <= Absolute(q)
    ensures q.kind == Finite && q.expn > j
  {
    hide Units;
    UnitsPositive(j);
    if q.kind == Finite {
      ExponentBounds(q);
      if q.expn <= j {
        PowerMono(q.expn, j);
      }
    }
  }

  lemma IntegerParts(rule: Rule, a: BigFloat, b: BigFloat, q: BigFloat, r: BigFloat, n: nat)
    requires IsDivision(rule, a, b, q, r, n)
    ensures Numeric(q) && Absolute(q) == n as real
  {
    hide Absolute;
  }

  lemma EuclideanBelow(aSign: bool, u: real, qSign: bool, n: nat, bSign: bool, v: real, d: real)
    requires Signed(aSign, u) == Signed(qSign, n as real) * Signed(bSign, v) + d && 0.0 <= d < v
    ensures u < Multiple(n + 1, v)
  {
    hide Signed, Multiple;
    SignedMultiple(n, v, qSign, bSign);
    NextMultipleOf(n, v);
    SignIs(aSign, u);
    SignIs(qSign != bSign, Multiple(n, v));
  }

  lemma SignedMultiple(n: nat, v: real, qSign: bool, bSign: bool)
    requires v > 0.0
    ensures Signed(qSign, n as real) * Signed(bSign, v) == Signed(qSign != bSign, Multiple(n, v))
      && Multiple(n, v) >= 0.0
  {
    hide Signed;
    SignedProduct(n as real, v, qSign != bSign, bSign);
    MultipleIs(n as real, n, v);
    MultipleBelow(0, n as real, v);
    NoMultiple(v);
  }

  lemma NoMultiple(v: real)
    ensures Multiple(0, v) == 0.0
  {
  }

  lemma SignIs(negative: bool, x: real)
    ensures Signed(negative, x) == if negative then 0.0 - x else x
  {
  }

  lemma RatioBelow(mode: Mode, negative: bool, x: real, u: real, v: real, n: nat)
    requires v > 0.0 && x == u / v && IsRoundedReal(mode, negative, x, 1, n)
    ensures u < Multiple(n + 1, v)
  {
    hide Multiple;
    RoundedAbove(mode, negative, x, n);
    assert x * v == u;
    RealLess(x, (n + 1) as real, v);
    MultipleIs((n + 1) as real, n + 1, v);
  }

  lemma RoundedAbove(mode: Mode, negative: bool, x: real, n: nat)
    requires IsRoundedReal(mode, negative, x, 1, n)
    ensures x < (n + 1) as real
  {
    hide IsMultiple;
  }

  lemma QuotientAbove(rule: Rule, a: BigFloat, b: BigFloat, q: BigFloat, r: BigFloat, n: nat)
    requires IsDivision(rule, a, b, q, r, n) && Absolute(b) > 0.0
    ensures Absolute(a) < Multiple(n + 1, Absolute(b))
  {
    hide Absolute, Numeric, IsMultiple;
    match rule
    case Euclidean =>
      EuclideanBelow(a.sign, Absolute(a), q.sign, n, b.sign, Absolute(b), Value(r));
    case Rounded(mode) =>
      RatioBelow(mode, a.sign != b.sign, Absolute(a) / Absolute(b), Absolute(a), Absolute(b), n);
  }

  /** The quotient goes up only over a remainder that is not zero. */
  lemma RaisedNonzero(rule: Rule, negative: bool, aSign: bool, k: nat, r: BigFloat, v: real)
    requires Numeric(r) && Decides(rule, negative, aSign, k, Value(r), v, true)
    ensures r.kind == Finite
  {
    if r.kind == Zero {
      ZeroValue(r);
    }
  }

  /** The division of the magnitudes, rounded by the rule. */
  method DivMagnitudes(a: BigFloat, b: BigFloat, f: Format, rule: Rule, negative: bool, aSign: bool)
    returns (q: BigFloat, r: BigFloat, up: bool, ghost k: nat, ghost d: real)
    requires Numeric(a) && Numeric(b) && a.kind == Finite && b.kind == Finite && a.w == b.w >= 4 && !a.sign && !b.sign
      && Room(f, a, b)
    ensures fresh(q) && q.w == a.w && IsInteger(q, if up then k + 1 else k) && (r == a || fresh(r)) && r != q
      && Numeric(r) && r.w == a.w
    ensures 0.0 <= d < Absolute(b) && Absolute(a) == Multiple(k, Absolute(b)) + d
      && Decides(rule, negative, aSign, k, d, Absolute(b), up)
    ensures Value(r) == if up then d - Absolute(b) else d
    ensures r.kind == Zero ==> !r.sign
  {
    hide Two, Bits, Units, Absolute, Numeric, Decides, InRange, OnGrid, Multiple, Room, IsInteger;
    q, r, k := TruncDivRem(a, b, f);
    d := Value(r);
    up := RoundUp(rule, negative, aSign, q, r, b, k);
    if up {
      RoomIs(f, a, b);
      RoomForQuotient(f, a, b);
      ghost var e := QuotientSmall(a, b, k);
      StepRange(a, b, f, k, d);
      RaisedNonzero(rule, negative, aSign, k, r, Absolute(b));
      r := AddExact(r, b, true, f, RNDZ);
      IntegerSize(q, k);
      q := AddOneTo(q, false, f, k, e);
      ValueIsInteger(q, k + 1);
    }
  }

  lemma RoomForQuotient(f: Format, a: BigFloat, b: BigFloat)
    requires Room(f, a, b)
    ensures a.expn - b.expn + 2 <= f.eMax && 1 <= f.eMax
  {
    hide Bits;
  }

  lemma ValueIsInteger(q: BigFloat, n: nat)
    requires Numeric(q) && Value(q) == n as real
    ensures IsInteger(q, n)
  {
    hide Absolute, Numeric;
    AbsoluteIs(q);
  }

  /** The remainder less the divisor is in the range. */
  lemma StepRange(a: BigFloat, b: BigFloat, f: Format, k: nat, d: real)
    requires Numeric(a) && Numeric(b) && a.kind == Finite && b.kind == Finite && a.w == b.w && Room(f, a, b)
    requires d == Absolute(a) - Multiple(k, Absolute(b)) && 0.0 <= d < Absolute(b)
    ensures InRange(f, Absolute(b) - d) && Size(d + Signed(true, Absolute(b))) == Absolute(b) - d
  {
    hide Two, Bits, Units, Absolute, Numeric, InRange, OnGrid, Room, Multiple;
    var u := GridOf(a, b);
    RoomIs(f, a, b);
    ExponentBounds(b);
    OnCommonGrid(a, b, k);
    GridDifference(Absolute(a), Multiple(k, Absolute(b)), u);
    GridDifference(Absolute(b), d, u);
    GridInRange(f, Absolute(b) - d, u, b.expn);
  }

  /** bf_divrem on finite numbers, at infinite precision: a = q b + r exactly */
  method DivRemFinite(a: BigFloat, b: BigFloat, f: Format, rule: Rule) returns (q: BigFloat, r: BigFloat, ghost n: nat)
    requires Numeric(a) && Numeric(b) && a.kind == Finite && b.kind == Finite && a.w == b.w >= 4 && Room(f, a, b)
    ensures fresh(q) && fresh(r) && q.w == r.w == a.w && IsDivision(rule, a, b, q, r, n)
    ensures q.sign == (a.sign != b.sign) && (r.kind == Zero ==> r.sign == a.sign)
  {
    hide Two, Bits, Units, Absolute, Numeric, Decides, InRange, OnGrid, Multiple, IsInteger, IsRoundedReal;
    var negative := a.sign != b.sign;
    var a1 := View(a, false, a.expn);
    var b1 := View(b, false, b.expn);
    ghost var u, v := Absolute(a), Absolute(b);
    var up;
    ghost var k, d;
    q, r, up, k, d := DivMagnitudes(a1, b1, f, rule, negative, a.sign);
    n := if up then k + 1 else k;
    ghost var d' := Value(r);
    NextMultipleOf(k, v);
    SetSign(r, a.sign);
    SetQuotientSign(q, negative, n);
    PositiveSize(b);
    DivisionHolds(rule, a, b, q, r, k, n, d, d', up);
  }

  /** r->sign ^= sign */
  method SetSign(r: BigFloat, sign: bool)
    requires Numeric(r)
    modifies r`sign
    ensures Numeric(r) && Value(r) == Signed(sign, old(Value(r))) && r.sign == (old(r.sign) != sign)
  {
    hide Units, Val, Base, Bits, TopBit;
    r.sign := r.sign != sign;
  }

  /** q->sign = sign */
  method SetQuotientSign(q: BigFloat, sign: bool, ghost n: nat)
    requires IsInteger(q, n)
    modifies q`sign
    ensures IsInteger(q, n) && Value(q) == Signed(sign, n as real) && q.sign == sign
  {
    hide Units, Val, Base, Bits, TopBit;
    q.sign := sign;
  }

  lemma DivisionHolds(rule: Rule, a: BigFloat, b: BigFloat, q: BigFloat, r: BigFloat, k: nat, n: nat, d: real, d': real,
      up: bool)
    requires Numeric(a) && Numeric(b) && Numeric(r) && IsInteger(q, n) && n == (if up then k + 1 else k)
      && Absolute(b) > 0.0
    requires Value(q) == Signed(a.sign != b.sign, n as real) && Value(r) == Signed(a.sign, d')
      && d' == (if up then d - Absolute(b) else d)
    requires 0.0 <= d < Absolute(b) && Absolute(a) == Multiple(k, Absolute(b)) + d
    requires Decides(rule, a.sign != b.sign, a.sign, k, d, Absolute(b), up)
    ensures IsDivision(rule, a, b, q, r, n)
  {
    hide Absolute, Numeric, IsInteger, IsRoundedReal, Multiple, IsDivision, Signed, Decides;
    var u, v := Absolute(a), Absolute(b);
    NextMultipleOf(k, v);
    SignedDivision(n, u, v, d', a.sign, b.sign);
    ValueIs(a);
    ValueIs(b);
    if rule.Rounded? {
      DividedBack(u, v);
      DecisionRounds(rule.mode, a.sign != b.sign, a.sign, u / v, k, d, v, up);
    } else {
      EuclideanRange(a.sign != b.sign, a.sign, k, d, v, up, d');
    }
    IntoDivision(rule, a, b, q, r, n);
  }

  lemma ValueIs(a: BigFloat)
    ensures Value(a) == Signed(a.sign, Absolute(a))
  {
  }

  /** In the Euclidean mode the quotient goes up exactly when that makes the remainder positive. */
  lemma EuclideanRange(negative: bool, aSign: bool, k: nat, d: real, v: real, up: bool, d': real)
    requires 0.0 <= d < v && Decides(Euclidean, negative, aSign, k, d, v, up) && d' == (if up then d - v else d)
    ensures 0.0 <= Signed(aSign, d') < v
  {
  }

  lemma IntoDivision(rule: Rule, a: BigFloat, b: BigFloat, q: BigFloat, r: BigFloat, n: nat)
    requires Numeric(r) && IsInteger(q, n) && Value(a) == Value(q) * Value(b) + Value(r)
    requires rule.Euclidean? ==> 0.0 <= Value(r) < Absolute(b)
    requires rule.Rounded? ==>
      Absolute(b) > 0.0 && IsRoundedReal(rule.mode, a.sign != b.sign, Absolute(a) / Absolute(b), 1, n)
    ensures IsDivision(rule, a, b, q, r, n)
  {
    hide Absolute, Numeric, IsInteger, IsRoundedReal, Value;
  }

  lemma DividedBack(u: real, v: real)
    requires v > 0.0
    ensures (u / v) * v == u
  {
  }

  // ---- with special values, and the remainder rounded

  /** bf_divrem; n is the magnitude of the quotient and d the exact remainder of finite numbers */
  method DivRem(a: BigFloat, b: BigFloat, f: Format, rule: Rule, fr: Format, mode: Mode)
    returns (q: BigFloat, r: BigFloat, flags: Flags, invalid: bool, ghost n: nat,
      ghost exact: BigFloat, ghost g: Rounding)
    requires a.Valid() && b.Valid() && a.w == b.w >= 4 && (fr.prec.Some? ==> fr.prec.value > 0) && !fr.radixPoint
    requires a.kind == Finite && b.kind == Finite ==> Room(f, a, b)
    ensures fresh(q) && fresh(r) && q.w == r.w == a.w
    ensures a.kind != Finite || b.kind != Finite ==> q.kind == Zero && !q.sign
    ensures invalid <==> a.kind != NaN && b.kind != NaN && (a.kind == Infinite || b.kind == Zero)
    ensures a.kind == NaN || b.kind == NaN || invalid ==> r.kind == NaN && flags == NoFlags()
    ensures !invalid && a.kind == Zero && b.kind != NaN ==> r.kind == Zero && r.sign == a.sign && flags == NoFlags()
    ensures a.kind == Finite && b.kind == Infinite ==>
      r.sign == a.sign && Correct(fr, mode, a.sign, Alone(a, g.unit), g,
      a.w, r.kind, r.expn, r.tab[..], flags)
    ensures a.kind == Finite && b.kind == Finite ==>
      exact.w == a.w && IsDivision(rule, a, b, q, exact, n) && IsRoundingOf(exact, fr, mode, g, r, flags)
    ensures a.kind == Finite && b.kind == Finite ==>
      q.sign == (a.sign != b.sign) && r.sign == exact.sign && (exact.kind == Zero ==> r.sign == a.sign)
  {
    hide Correct, IsDivision, Room, TopBit, Alone;
    var none := new nat[0];
    flags, invalid, n, g := NoFlags(), false, 0, Rounding(0, 0, 0, 0, 0);
    if a.kind != Finite || b.kind != Finite {
      q := new BigFloat(a.w, Zero, false, 0, none);
      exact := q;
      if a.kind == NaN || b.kind == NaN {
        r := new BigFloat(a.w, NaN, false, 0, none);
      } else if a.kind == Infinite || b.kind == Zero {
        invalid := true;
        r := new BigFloat(a.w, NaN, false, 0, none);
      } else {
        r, flags, g := RoundNumber(a, fr, mode);
      }
      return;
    }
    var r1;
    q, r1, n := DivRemFinite(a, b, f, rule);
    exact := r1;
    DivisionNumeric(rule, a, b, q, r1, n);
    r, flags, g := RoundNumber(r1, fr, mode);
  }

  lemma DivisionNumeric(rule: Rule, a: BigFloat, b: BigFloat, q: BigFloat, r: BigFloat, n: nat)
    requires IsDivision(rule, a, b, q, r, n)
    ensures Numeric(r)
  {
  }

  /** r is the number a, rounded. */
  ghost predicate IsRoundingOf(a: BigFloat, f: Format, mode: Mode, g: Rounding, r: BigFloat, flags: Flags)
    reads a, a.tab, r, r.tab
  {
    && r.sign == a.sign
    && if a.kind == Finite then Correct(f, mode, a.sign, Alone(a, g.unit), g, a.w, r.kind, r.expn, r.tab[..], flags)
       else r.kind == Zero && flags == NoFlags()
  }

  /** bf_round of a zero or finite number, on a copy */
  method RoundNumber(a: BigFloat, f: Format, mode: Mode) returns (r: BigFloat, flags: Flags, ghost g: Rounding)
    requires Numeric(a) && (f.prec.Some? ==> f.prec.value > 0) && !f.radixPoint
    ensures fresh(r) && r.w == a.w && IsRoundingOf(a, f, mode, g, r, flags)
  {
    hide Correct, Alone, TopBit;
    if a.kind == Finite {
      r, flags, g := RoundAlone(a, a.sign, f, mode);
    } else {
      var none := new nat[0];
      r := new BigFloat(a.w, Zero, a.sign, 0, none);
      flags, g := NoFlags(), Rounding(0, 0, 0, 0, 0);
    }
  }

  /** At infinite precision the remainder is not rounded. */
  lemma UnroundedRemainder(a: BigFloat, f: Format, mode: Mode, g: Rounding, r: BigFloat, flags: Flags)
    requires Numeric(a) && r.w == a.w && Unlimited(f) && InRange(f, Absolute(a))
      && IsRoundingOf(a, f, mode, g, r, flags)
    ensures Numeric(r) && Value(r) == Value(a) && flags == NoFlags()
  {
    hide Correct, Alone, TopBit, InRange, Lifted;
    if a.kind == Finite {
      AloneLifted(a, g.unit);
      PartIsExact(f, mode, a.sign, Alone(a, g.unit), g, r, flags);
    }
  }
}

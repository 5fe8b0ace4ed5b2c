/** Values of floats as real numbers, and sums at infinite precision, which are exact. */
module FloatExact {
  import opened Limbs
  import opened LimbUnary
  import opened RoundSpec
  import opened FloatBits
  import opened FloatRound
  import opened FloatDigits
  import opened FloatCancel
  import opened FloatUnits
  import opened BigFloat
  import opened FloatAdd

  // ---- powers of two as reals

  /** x 2^j */
  ghost function Lifted(x: real, j: int): real {
    if j >= 0 then Scale(Two(j), x) else x / Two(-j) as real
  }

  lemma LiftScaled(x: real, j: int, p: nat, q: nat)
    requires p - q == j
    ensures Scale(Two(q), Lifted(x, j)) == Scale(Two(p), x)
  {
    hide Two, Scale;
    if j >= 0 {
      TwoAdd(q, j);
      ScaleScale(Two(j), Two(q), Two(p), x);
    } else {
      TwoAdd(-j, p);
      var z := x / Two(-j) as real;
      ScaleQuotient(Two(-j), x);
      ScaleScale(Two(-j), Two(p), Two(q), z);
    }
  }

  lemma ScaleQuotient(d: nat, x: real)
    requires d > 0
    ensures Scale(d, x / d as real) == x
  {
  }

  lemma LiftUnits(m: nat, i: int, j: int)
    ensures Lifted(Units(m, i), j) == Units(m, i + j)
  {
    hide Two, Scale, Units, Lifted;
    var q: nat := (if i < 0 then -i else i) + (if j < 0 then -j else j);
    var u := Units(m, i);
    LiftScaled(u, j, j + q, q);
    UnitsScaled(m, i, i + j + q, j + q);
    UnitsUnique(m, i + j, i + j + q, q, Lifted(u, j));
  }

  lemma LiftSum(x: real, y: real, j: int)
    ensures Lifted(x + y, j) == Lifted(x, j) + Lifted(y, j) && Lifted(x - y, j) == Lifted(x, j) - Lifted(y, j)
  {
    hide Two;
    var d := if j >= 0 then Two(j) else Two(-j);
    if j >= 0 {
      ScaleSum(d, x, y);
      ScaleSum(d, x - y, y);
    } else {
      QuotientSum(d as real, x, y);
    }
  }

  lemma QuotientSum(d: real, x: real, y: real)
    requires d > 0.0
    ensures (x + y) / d == x / d + y / d && (x - y) / d == x / d - y / d
  {
  }

  lemma LiftNat(n: nat, j: int)
    ensures Lifted(n as real, j) == Units(n, j)
  {
    hide Two, Scale;
    UnitsNat(n, 0);
    TwoZero();
    LiftUnits(n, 0, j);
  }

  lemma LiftMono(x: real, y: real, j: int)
    ensures Lifted(x, j) <= Lifted(y, j) <==> x <= y
  {
    hide Two, Scale;
    if j >= 0 {
      ScaleReal(Two(j), x, y);
    } else {
      QuotientOrder(Two(-j) as real, x, y);
    }
  }

  lemma QuotientOrder(d: real, x: real, y: real)
    requires d > 0.0
    ensures x / d <= y / d <==> x <= y
  {
    if x <= y {
      assert y / d - x / d == (y - x) / d;
      assert (y - x) / d >= 0.0;
    } else {
      assert x / d - y / d == (x - y) / d;
      assert (x - y) / d > 0.0;
    }
  }

  lemma UnitsMono(m: nat, n: nat, j: int)
    ensures Units(m, j) <= Units(n, j) <==> m <= n
  {
    hide Lifted, Units;
    LiftNat(m, j);
    LiftNat(n, j);
    LiftMono(m as real, n as real, j);
  }

  /** 2^i <= 2^j */
  lemma PowerMono(i: int, j: int)
    requires i <= j
    ensures Units(1, i) <= Units(1, j)
  {
    hide Units, Two;
    UnitsShift(1, i, j - i);
    UnitsMono(1, 1 * Two(j - i), i);
  }

  // ---- values

  ghost predicate Numeric(a: BigFloat)
    reads a, a.tab
  {
    a.Valid() && (a.kind == Zero || a.kind == Finite)
  }

  /** The magnitude of a zero or finite number. */
  ghost function Absolute(a: BigFloat): real
    reads a, a.tab
  {
    if a.kind == Finite then Alone(a, 0) else 0.0
  }

  ghost function Signed(negative: bool, x: real): real {
    if negative then 0.0 - x else x
  }

  ghost function Value(a: BigFloat): real
    reads a, a.tab
  {
    Signed(a.sign, Absolute(a))
  }

  /** The magnitude x is zero or its exponent is in the range of the format. */
  ghost predicate InRange(f: Format, x: real) {
    x == 0.0 || Units(1, f.eMin - 1) <= x < Units(1, f.eMax)
  }

  /** Infinite precision. */
  ghost predicate Unlimited(f: Format) {
    f.prec == None && !f.radixPoint
  }

  lemma AloneLifted(a: BigFloat, unit: int)
    ensures Lifted(Alone(a, unit), unit) == Alone(a, 0)
  {
    hide Lifted, Units, Val, Base, Bits;
    LiftUnits(Val(Base(a.w), a.tab[..]), a.expn - Bits(a.w, a.tab.Length) - unit, unit);
  }

  lemma SumLifted(a: BigFloat, b: BigFloat, sub: bool, unit: int)
    requires a.w == b.w
    ensures Lifted(SumOf(a, b, sub, unit), unit) == if sub then Alone(a, 0) - Alone(b, 0) else Alone(a, 0) + Alone(b, 0)
  {
    hide Lifted, Units, Val, Base, Bits;
    AloneLifted(a, unit);
    AloneLifted(b, unit);
    LiftSum(Alone(a, unit), Alone(b, unit), unit);
  }

  /** The exponent of a magnitude in the range is in the range. */
  lemma ExponentInRange(f: Format, r: nat, unit: int, e: int)
    requires IsExponent(r, unit, e) && InRange(f, Units(r, unit)) && r > 0
    ensures f.eMin <= e <= f.eMax
  {
    hide Units, Two;
    UnitsMono(0, r, unit);
    UnitsMono(r, 0, unit);
    ZeroUnits(unit);
    UnitsShift(1, unit, e - 1 - unit);
    UnitsShift(1, unit, e - unit);
    UnitsMono(1 * Two(e - 1 - unit), r, unit);
    UnitsMono(1 * Two(e - unit), r, unit);
    if e < f.eMin {
      PowerMono(e, f.eMin - 1);
    }
    if e > f.eMax {
      PowerMono(f.eMax, e - 1);
    }
  }

  lemma ZeroUnits(j: int)
    ensures Units(0, j) == 0.0
  {
  }

  /** At infinite precision a correct result within the range is the exact magnitude. */
  lemma ExactResult(f: Format, mode: Mode, negative: bool, x: real, g: Rounding, w: nat, kind: Kind, expn: int,
      s: seq<nat>, flags: Flags)
    requires w > 0 && Unlimited(f) && Correct(f, mode, negative, x, g, w, kind, expn, s, flags)
      && InRange(f, Lifted(x, g.unit))
    ensures kind == Finite && TopBit(w, s) && s[0] != 0 && flags == NoFlags()
    ensures Units(Val(Base(w), s), expn - Bits(w, |s|)) == Lifted(x, g.unit)
  {
    hide Units, Two, Lifted, Val, Base, TopBit, IsRoundedReal, IsExponent, AllOnes;
    HalfPositive(x, g.n);
    LiftNat(g.r, g.unit);
    PrecIsAll(f, g);
    ExponentInRange(f, g.r, g.unit, g.e);
    var v, j := Val(Base(w), s), expn - Bits(w, |s|);
    UnitsShift(v, g.unit, j - g.unit);
  }

  lemma PrecIsAll(f: Format, g: Rounding)
    requires Unlimited(f) && g.prec == Effective(f, g.n, g.unit + g.n) && g.n > 0
    ensures g.prec == g.n
  {
  }

  lemma HalfPositive(x: real, n: nat)
    requires HasBits(x, n)
    ensures x > 0.0 && (n == 0 ==> x < 1.0)
  {
    TwoPos(n);
    TwoZero();
  }

  // ---- exact sums

  /** A number with limbs s, with a value of its own sign. */
  lemma ValueOf(r: BigFloat, x: real)
    requires r.w > 0 && r.kind == Finite && TopBit(r.w, r.tab[..])
    requires Units(Val(Base(r.w), r.tab[..]), r.expn - Bits(r.w, r.tab.Length)) == x
    ensures Numeric(r) && Value(r) == Signed(r.sign, x)
  {
    hide Units, Val, Base, Bits, TopBit;
  }

  /** The comparison of magnitudes as reals. */
  lemma OrderedValues(a: BigFloat, b: BigFloat)
    requires a.w == b.w && a.kind == Finite && b.kind == Finite
    ensures Above(a, b) ==> Alone(a, 0) > Alone(b, 0)
    ensures SameMagnitude(a, b) ==> Alone(a, 0) == Alone(b, 0)
  {
    hide Two, Units, Val, Base, Bits;
    var m, n, k, l := Val(Base(a.w), a.tab[..]), Val(Base(b.w), b.tab[..]), Bits(a.w, a.tab.Length),
      Bits(b.w, b.tab.Length);
    if Above(a, b) {
      var d := a.expn - b.expn;
      UnitsShift(m, a.expn - k - (l + d), l + d);
      UnitsShift(n, a.expn - k - (l + d), k);
      UnitsMono(m * Two(l + d), n * Two(k), a.expn - k - (l + d));
    }
    if SameMagnitude(a, b) {
      UnitsShift(m, a.expn - k - l, l);
      UnitsShift(n, a.expn - k - l, k);
    }
  }

  /** bf_add_internal at infinite precision: the exact sum, the second operand with the sign bSign */
  method AddExact(a: BigFloat, b: BigFloat, bSign: bool, f: Format, mode: Mode) returns (r: BigFloat)
    requires Numeric(a) && Numeric(b) && a.w == b.w && Unlimited(f)
    requires InRange(f, Size(Value(a) + Signed(bSign, Absolute(b))))
    ensures fresh(r) && r.w == a.w && Numeric(r) && Value(r) == Value(a) + Signed(bSign, Absolute(b))
    ensures r.kind == Finite ==> r.tab[0] != 0
    ensures a.kind == Finite && r.kind == Zero ==> r.sign == (mode == RNDD)
  {
    hide *;
    NumericFacts(a);
    NumericFacts(b);
    NoPrecision(f);
    var flags, invalid;
    ghost var g;
    r, flags, invalid, g := AddInternal(a, b, bSign, f, mode);
    SumIsExact(a, b, bSign, f, mode, g, r, flags, invalid);
  }

  ghost function Size(x: real): real {
    if x < 0.0 then 0.0 - x else x
  }

  lemma ZeroValue(r: BigFloat)
    requires r.kind == Zero
    ensures Value(r) == 0.0
  {
  }

  lemma NumericFacts(a: BigFloat)
    requires Numeric(a)
    ensures a.Valid() && a.w > 0 && (a.kind == Zero || a.kind == Finite)
      && (a.kind == Finite ==> TopBit(a.w, a.tab[..]))
  {
  }

  lemma NoPrecision(f: Format)
    requires Unlimited(f)
    ensures (f.prec.Some? ==> f.prec.value > 0) && !f.radixPoint
  {
  }

  lemma AlonePositive(a: BigFloat, unit: int)
    requires a.w > 0 && TopBit(a.w, a.tab[..])
    ensures Alone(a, unit) > 0.0
  {
    hide Units, Val, Base, Bits, TopBit;
    TopNonzero(a.w, a.tab[..]);
    ZeroUnits(a.expn - Bits(a.w, a.tab.Length) - unit);
    UnitsMono(Val(Base(a.w), a.tab[..]), 0, a.expn - Bits(a.w, a.tab.Length) - unit);
  }

  lemma SumIsExact(a: BigFloat, b: BigFloat, bSign: bool, f: Format, mode: Mode, g: Rounding, r: BigFloat, flags: Flags,
      invalid: bool)
    requires Numeric(a) && Numeric(b) && a.w == b.w == r.w && Unlimited(f)
      && IsSum(a, b, bSign, f, mode, g, r, flags, invalid)
    requires InRange(f, Size(Value(a) + Signed(bSign, Absolute(b))))
    ensures Numeric(r) && Value(r) == Value(a) + Signed(bSign, Absolute(b)) && (r.kind == Finite ==> r.tab[0] != 0)
    ensures a.kind == Finite && r.kind == Zero ==> r.sign == (mode == RNDD)
  {
    hide Correct, InRange, Alone, SumOf, Lifted, Above, SameMagnitude, TopBit;
    var sub := a.sign != bSign;
    if a.kind == Finite && b.kind == Finite {
      PairIsExact(a, b, bSign, f, mode, g, r, flags, invalid);
    } else if a.kind == Finite {
      AloneLifted(a, g.unit);
      AlonePositive(a, 0);
      PartIsExact(f, mode, a.sign, Alone(a, g.unit), g, r, flags);
    } else if b.kind == Finite {
      AloneLifted(b, g.unit);
      AlonePositive(b, 0);
      PartIsExact(f, mode, bSign, Alone(b, g.unit), g, r, flags);
    }
  }

  lemma PartIsExact(f: Format, mode: Mode, negative: bool, x: real, g: Rounding, r: BigFloat, flags: Flags)
    requires r.w > 0 && Unlimited(f) && Correct(f, mode, negative, x, g, r.w, r.kind, r.expn, r.tab[..], flags)
    requires InRange(f, Lifted(x, g.unit)) && r.sign == negative
    ensures Numeric(r) && r.kind == Finite && Value(r) == Signed(negative, Lifted(x, g.unit)) && r.tab.Length > 0
      && r.tab[0] != 0
    ensures flags == NoFlags()
  {
    hide Correct, InRange, Lifted, TopBit, Unlimited, Value, Numeric, Units, Val, Base, Bits;
    ExactResult(f, mode, negative, x, g, r.w, r.kind, r.expn, r.tab[..], flags);
    ValueOf(r, Lifted(x, g.unit));
    assert r.tab[..][0] == r.tab[0] by { TopLength(r.w, r.tab[..]); }
  }

  lemma TopLength(w: nat, s: seq<nat>)
    requires TopBit(w, s)
    ensures |s| > 0
  {
  }

  lemma PairIsExact(a: BigFloat, b: BigFloat, bSign: bool, f: Format, mode: Mode, g: Rounding, r: BigFloat,
      flags: Flags, invalid: bool)
    requires Numeric(a) && Numeric(b) && a.kind == Finite && b.kind == Finite && a.w == b.w == r.w && Unlimited(f)
    requires IsSum(a, b, bSign, f, mode, g, r, flags, invalid)
      && InRange(f, Size(Value(a) + Signed(bSign, Absolute(b))))
    ensures Numeric(r) && Value(r) == Value(a) + Signed(bSign, Absolute(b)) && (r.kind == Finite ==> r.tab[0] != 0)
    ensures r.kind == Zero ==> r.sign == (mode == RNDD)
  {
    hide Correct, InRange, Alone, SumOf, Lifted, Above, SameMagnitude, TopBit, Unlimited;
    var sub := a.sign != bSign;
    AlonePositive(a, 0);
    AlonePositive(b, 0);
    OrderedValues(a, b);
    OrderedValues(b, a);
    OrderTotal(a, b);
    if SameMagnitude(a, b) && sub {
    } else if Above(b, a) {
      SumLifted(b, a, sub, g.unit);
      PartIsExact(f, mode, bSign, SumOf(b, a, sub, g.unit), g, r, flags);
    } else {
      SumLifted(a, b, sub, g.unit);
      PartIsExact(f, mode, a.sign, SumOf(a, b, sub, g.unit), g, r, flags);
    }
  }

  lemma OrderTotal(a: BigFloat, b: BigFloat)
    requires Numeric(a) && Numeric(b) && a.kind == Finite && b.kind == Finite && a.w == b.w
    ensures Above(a, b) || Above(b, a) || SameMagnitude(a, b)
  {
    hide Two, Bits, Val, Base, TopBit;
    if a.expn > b.expn {
      ExponentLarger(a.w, a.tab[..], b.tab[..], a.expn - b.expn);
    } else if a.expn < b.expn {
      ExponentLarger(b.w, b.tab[..], a.tab[..], b.expn - a.expn);
    }
  }

  /** bf_normalize_and_round at infinite precision: the exact number tab 2^(expn - bits), also when it is zero */
  method NormalizeExact(w: nat, tab: array<nat>, expn: int, sign: bool, f: Format) returns (r: BigFloat)
    requires w > 0 && Digits(Base(w), tab[..]) && Unlimited(f)
      && InRange(f, Units(Val(Base(w), tab[..]), expn - Bits(w, tab.Length)))
    modifies tab
    ensures fresh(r) && r.w == w && Numeric(r) && r.sign == sign
    ensures Absolute(r) == old(Units(Val(Base(w), tab[..]), expn - Bits(w, tab.Length)))
    ensures r.kind == Finite ==> r.tab[0] != 0
  {
    hide Two, Bits, Val, Base, TopBit, Correct, Units, Sticky, RoundedReal, Outcome, HasBits, Effective, RoundedBits,
      IsExponent, Digits, Alone, InRange;
    ghost var v, j := Val(Base(w), tab[..]), expn - Bits(w, tab.Length);
    var nonzero := MpScanNz(Base(w), tab[..]);
    if !nonzero {
      ZeroUnits(j);
      var none := new nat[0];
      r := new BigFloat(w, Zero, sign, 0, none);
      return;
    }
    NoPrecision(f);
    var flags;
    ghost var shift, g;
    r, flags, shift, g := NormalizeAndRound(w, tab, expn, sign, f, RNDZ);
    ExactlyRounded(w, v, shift, j, sign, f, g, r, flags);
  }

  lemma ExactlyRounded(w: nat, v: nat, shift: nat, j: int, sign: bool, f: Format, g: Rounding, r: BigFloat,
      flags: Flags)
    requires w > 0 && Unlimited(f) && g.unit == j - shift && g.prec == Effective(f, g.n, g.unit + g.n)
      && InRange(f, Units(v, j))
    requires r.w == w && r.sign == sign
    requires var u := Two(shift) * v;
      && u < Two(g.n) <= 2 * u && RoundedBits(RNDZ, sign, u, g.n, g.prec, g.r)
      && (g.prec > 0 ==> IsExponent(g.r, g.unit, g.e))
      && Outcome(f, RNDZ, sign, g.r != u, g.r, g.e, g.prec <= 0, g.unit, w, r.kind, r.expn, r.tab[..], flags)
    ensures Numeric(r) && r.kind == Finite && Absolute(r) == Units(v, j) && r.tab.Length > 0 && r.tab[0] != 0
  {
    hide Two, Bits, Val, Base, TopBit, Correct, Units, Sticky, RoundedReal, Outcome, HasBits, Effective, RoundedBits,
      IsExponent, InRange, Lifted, Unlimited;
    StickyZeroIs(v);
    WholeUnits(v, shift);
    CutRounds(RNDZ, sign, v, 0, 0, shift, g.n, g.prec, g.r);
    CutBits(v, 0, 0, shift, g.n);
    IsCorrect(f, RNDZ, sign, Units(v, shift), g, w, r.kind, r.expn, r.tab[..], flags, g.r != Two(shift) * v);
    LiftUnits(v, shift, g.unit);
    PartIsExact(f, RNDZ, sign, Units(v, shift), g, r, flags);
  }

  /** The magnitude is the size of the value. */
  lemma AbsoluteIs(a: BigFloat)
    requires Numeric(a)
    ensures Absolute(a) == Size(Value(a)) && Absolute(a) >= 0.0
  {
    hide Alone, TopBit;
    if a.kind == Finite {
      AlonePositive(a, 0);
    }
  }
}

/** What a rounded result is, said of real numbers alone: the exact magnitude, its exponent, the place of the last bit
    that the options leave, the rounding to that place, and the exponent range. Every operation that rounds is brought
    to this form. */
module FloatMeaning {
  import opened Limbs
  import opened RoundSpec
  import opened FloatBits
  import opened FloatRound
  import opened FloatCancel
  import opened FloatUnits
  import opened BigFloat
  import opened FloatAdd
  import opened FloatExact
  import opened FloatProduct
  import opened FloatDivrem
  import opened SqrtWord
  import opened FloatSqrt

  // ---- the statement

  /** 2^j */
  ghost function TwoTo(j: int): (t: real)
    ensures t > 0.0
    decreases if j >= 0 then j else -j
  {
    if j == 0 then 1.0 else if j > 0 then 2.0 * TwoTo(j - 1) else TwoTo(j + 1) / 2.0
  }

  /** The magnitude of limbs with an exponent, least significant limb first: 0.s 2^expn. */
  ghost function SizeOf(w: nat, s: seq<nat>, expn: int): real {
    Val(Pow(2, w), s) as real * TwoTo(expn - w * |s|)
  }

  /** y is k units, and it is the multiple of the unit that the mode chooses for x. */
  ghost predicate RoundsAt(mode: Mode, negative: bool, x: real, u: real, y: real, k: nat) {
    && y == k as real * u
    && match mode
       case RNDZ => y <= x < y + u
       case RNDA => x <= y < x + u
       case RNDD => if negative then x <= y < x + u else y <= x < y + u
       case RNDU => if negative then y <= x < y + u else x <= y < x + u
       case RNDN => x - u / 2.0 <= y <= x + u / 2.0 && (y == x - u / 2.0 || y == x + u / 2.0 ==> k % 2 == 0)
       case RNDNA => x - u / 2.0 < y <= x + u / 2.0
  }

  ghost predicate RoundsTo(mode: Mode, negative: bool, x: real, u: real, y: real) {
    exists k: nat :: RoundsAt(mode, negative, x, u, y, k)
  }

  /** The place of the last bit for a magnitude with exponent e: p bits from the radix point, or p bits from the top,
      but with gradual underflow no further down than for the least exponent. */
  ghost function LastPlace(f: Format, e: int): int
    requires f.prec.Some?
  {
    var p := f.prec.value;
    if f.radixPoint then 0 - p else if f.subnormal && e < f.eMin then f.eMin - p else e - p
  }

  /** The modes in which a number that is too large becomes infinite. */
  ghost predicate GoesUp(f: Format, mode: Mode, negative: bool) {
    f.prec == None || mode in {RNDN, RNDNA, RNDA} || (mode == RNDD && negative) || (mode == RNDU && !negative)
  }

  /** The result for the exact magnitude x > 0 with exponent e, which rounds to y. */
  ghost predicate MeantAt(f: Format, mode: Mode, negative: bool, x: real, e: int, y: real, w: nat, kind: Kind,
      expn: int,
      s: seq<nat>, flags: Flags)
  {
    && TwoTo(e - 1) <= x < TwoTo(e)
    && (if f.prec == None then y == x else RoundsTo(mode, negative, x, TwoTo(LastPlace(f, e)), y))
    && if f.prec.Some? && LastPlace(f, e) >= e then
         flags == Flags(true, true, false) && if y == 0.0 then kind == Zero else IsSize(w, kind, expn, s, y)
       else if y < TwoTo(f.eMin - 1) && !f.subnormal then
         kind == Zero && flags == Flags(true, true, false)
       else if y >= TwoTo(f.eMax) then
         && flags == Flags(true, false, true)
         && if GoesUp(f, mode, negative) then kind == Infinite
            else IsSize(w, kind, expn, s, TwoTo(f.eMax) - TwoTo(f.eMax - f.prec.value))
       else
         IsSize(w, kind, expn, s, y) && flags == Flags(y != x, y != x && y < TwoTo(f.eMin - 1), false)
  }

  ghost predicate IsSize(w: nat, kind: Kind, expn: int, s: seq<nat>, y: real) {
    kind == Finite && SizeOf(w, s, expn) == y
  }

  ghost predicate Meant(f: Format, mode: Mode, negative: bool, x: real, w: nat, kind: Kind, expn: int, s: seq<nat>,
      flags: Flags)
  {
    exists e: int, y: real :: MeantAt(f, mode, negative, x, e, y, w, kind, expn, s, flags)
  }

  // ---- powers of two

  lemma {:induction false} TwoToIs(j: int)
    ensures TwoTo(j) == Units(1, j)
    decreases if j >= 0 then j else -j
  {
    hide Units, Two;
    if j == 0 {
      UnitsNat(1, 0);
      TwoZero();
    } else if j > 0 {
      TwoToIs(j - 1);
      PowerTwice(j - 1);
    } else {
      TwoToIs(j + 1);
      PowerTwice(j);
    }
  }

  lemma UnitsIs(m: nat, j: int)
    ensures Units(m, j) == m as real * TwoTo(j)
  {
    hide Units, Lifted, TwoTo;
    LiftNat(m, j);
    LiftIsProduct(m as real, j);
    TwoToIs(j);
  }

  lemma TwoToMono(i: int, j: int)
    requires i <= j
    ensures TwoTo(i) <= TwoTo(j)
  {
    hide TwoTo, Units;
    TwoToIs(i);
    TwoToIs(j);
    PowerMono(i, j);
  }

  lemma SizeIs(w: nat, s: seq<nat>, expn: int)
    ensures SizeOf(w, s, expn) == Units(Val(Base(w), s), expn - Bits(w, |s|))
  {
    hide Val, Units, TwoTo, Pow;
    UnitsIs(Val(Base(w), s), expn - Bits(w, |s|));
  }

  // ---- the rounding

  /** A rounding to a multiple of a natural unit, scaled by a power of two. */
  lemma LiftRounded(mode: Mode, negative: bool, x: real, u: nat, r: nat, j: int)
    requires u > 0 && IsRoundedReal(mode, negative, x, u, r)
    ensures RoundsTo(mode, negative, Lifted(x, j), Units(u, j), Units(r, j))
  {
    hide Units, Lifted, IsMultiple;
    var k := UnitCount(r, u);
    UnitsMultiple(k, u, j);
    Comparisons(x, u as real, r as real, j);
    LiftNat(u, j);
    LiftNat(r, j);
    if mode == RNDN && IsMultiple(r, 2 * u) {
      EvenCount(k, u, r);
    }
    assert RoundsAt(mode, negative, Lifted(x, j), Units(u, j), Units(r, j), k);
  }

  lemma UnitCount(r: nat, u: nat) returns (k: nat)
    requires IsMultiple(r, u)
    ensures r == k * u
  {
    k :| r == k * u;
  }

  lemma EvenCount(k: nat, u: nat, r: nat)
    requires u > 0 && r == k * u && IsMultiple(r, 2 * u)
    ensures k % 2 == 0
  {
    var q: nat :| r == q * (2 * u);
    Assoc(q, 2, u);
    SameFactor(k, q * 2, u);
  }

  lemma SameFactor(k: int, l: int, u: int)
    requires u > 0 && k * u == l * u
    ensures k == l
  {
    if k < l {
      MulMono(k + 1, l, u);
      Distrib(u, k, 1);
    } else if l < k {
      MulMono(l + 1, k, u);
      Distrib(u, l, 1);
    }
  }

  lemma UnitsMultiple(k: nat, u: nat, j: int)
    ensures Units(k * u, j) == k as real * Units(u, j)
  {
    hide Units, TwoTo;
    UnitsIs(u, j);
    UnitsIs(k * u, j);
    RealAssoc(k as real, u as real, TwoTo(j));
  }

  lemma RealAssoc(x: real, y: real, z: real)
    ensures (x * y) * z == x * (y * z)
  {
  }

  /** Every comparison that a rounding makes survives the scaling. */
  lemma Comparisons(x: real, v: real, y: real, j: int)
    ensures var x', v', y' := Lifted(x, j), Lifted(v, j), Lifted(y, j);
      && (x' <= y' <==> x <= y) && (y' <= x' <==> y <= x)
      && (x' < y' + v' <==> x < y + v) && (y' < x' + v' <==> y < x + v)
      && (2.0 * x' <= 2.0 * y' + v' <==> 2.0 * x <= 2.0 * y + v)
      && (2.0 * y' <= 2.0 * x' + v' <==> 2.0 * y <= 2.0 * x + v)
      && (2.0 * x' == 2.0 * y' + v' <==> 2.0 * x == 2.0 * y + v)
      && (2.0 * y' == 2.0 * x' + v' <==> 2.0 * y == 2.0 * x + v)
  {
    hide Lifted;
    LiftMono(x, y, j);
    LiftMono(y, x, j);
    OneWay(x, v, y, j);
    OneWay(y, v, x, j);
  }

  lemma OneWay(x: real, v: real, y: real, j: int)
    ensures var x', v', y' := Lifted(x, j), Lifted(v, j), Lifted(y, j);
      && (x' < y' + v' <==> x < y + v)
      && (2.0 * x' <= 2.0 * y' + v' <==> 2.0 * x <= 2.0 * y + v)
      && (2.0 * y' + v' <= 2.0 * x' <==> 2.0 * y + v <= 2.0 * x)
  {
    hide Lifted;
    LiftSum(y, v, j);
    LiftMono(y + v, x, j);
    LiftSum(x, x, j);
    LiftSum(y, y, j);
    LiftSum(y + y, v, j);
    LiftMono(x + x, y + y + v, j);
    LiftMono(y + y + v, x + x, j);
  }

  /** A number whose bits all lie above the last place is not changed. */
  lemma NothingLost(mode: Mode, negative: bool, r: nat, unit: int, place: int)
    requires place <= unit
    ensures RoundsTo(mode, negative, Units(r, unit), TwoTo(place), Units(r, unit))
  {
    hide Units, Two, TwoTo;
    var k := r * Two(unit - place);
    UnitsShift(r, place, unit - place);
    UnitsIs(k, place);
    assert RoundsAt(mode, negative, Units(r, unit), TwoTo(place), Units(r, unit), k);
  }

  // ---- from the model's own form

  lemma LiftedExponent(x: real, n: nat, unit: int)
    requires HasBits(x, n)
    ensures TwoTo(unit + n - 1) <= Lifted(x, unit) < TwoTo(unit + n)
  {
    hide Lifted, Units, Two, TwoTo;
    LiftNat(Two(n), unit);
    UnitsShift(1, unit, n);
    assert 1 * Two(n) == Two(n);
    TwoToIs(unit + n);
    TwoToIs(unit + n - 1);
    PowerTwice(unit + n - 1);
    LiftSum(x, x, unit);
    LiftMono(Two(n) as real, x + x, unit);
    LiftMono(Two(n) as real, x, unit);
  }

  /** The unit of the model and the last place are the same. */
  lemma PlaceOf(f: Format, n: nat, e: int)
    requires f.prec.Some?
    ensures e - Effective(f, n, e) == LastPlace(f, e)
  {
  }

  lemma RoundedPlace(f: Format, mode: Mode, negative: bool, x: real, g: Rounding)
    requires HasBits(x, g.n) && g.prec == Effective(f, g.n, g.unit + g.n)
      && RoundedReal(mode, negative, x, g.n, g.prec, g.r)
    ensures var e := g.unit + g.n;
      if f.prec == None then Units(g.r, g.unit) == Lifted(x, g.unit)
      else RoundsTo(mode, negative, Lifted(x, g.unit), TwoTo(LastPlace(f, e)), Units(g.r, g.unit))
  {
    hide Units, Lifted, IsRoundedReal, Two, TwoTo, HasBits, RoundsTo;
    LiftNat(g.r, g.unit);
    if f.prec.Some? {
      PlaceOf(f, g.n, g.unit + g.n);
      if g.prec >= g.n {
        NothingLost(mode, negative, g.r, g.unit, g.unit + g.n - g.prec);
      } else {
        LiftRounded(mode, negative, x, Two(g.n - g.prec), g.r, g.unit);
        UnitsShift(1, g.unit, g.n - g.prec);
        assert 1 * Two(g.n - g.prec) == Two(g.n - g.prec);
        TwoToIs(g.unit + g.n - g.prec);
      }
    }
  }

  /** The exponent of the rounded number against the exponent range. */
  lemma RoundedExponent(r: nat, unit: int, e: int, j: int)
    requires IsExponent(r, unit, e)
    ensures Units(r, unit) < TwoTo(j) <==> e <= j
  {
    hide Units, Two, TwoTo;
    UnitsShift(1, unit, e - 1 - unit);
    UnitsShift(1, unit, e - unit);
    assert 1 * Two(e - unit) == Two(e - unit) && 1 * Two(e - 1 - unit) == Two(e - 1 - unit);
    UnitsMono(Two(e - 1 - unit), r, unit);
    UnitsMono(Two(e - unit), r, unit);
    TwoToIs(e - 1);
    TwoToIs(e);
    if e <= j {
      TwoToMono(e, j);
    } else {
      TwoToMono(j, e - 1);
    }
  }

  lemma NumberSize(w: nat, s: seq<nat>, e: int, r: nat, unit: int)
    requires IsNumber(w, s, e, r, unit)
    ensures SizeOf(w, s, e) == Units(r, unit)
  {
    hide Units, Two, Val, Base, Bits, TopBit, SizeOf;
    SizeIs(w, s, e);
    UnitsShift(Val(Base(w), s), unit, e - Bits(w, |s|) - unit);
  }

  lemma LargestIs(w: nat, s: seq<nat>, e: int, p: nat)
    requires AllOnes(w, s, p)
    ensures SizeOf(w, s, e) == TwoTo(e) - TwoTo(e - p)
  {
    hide Units, Two, Val, Base, Bits, SizeOf, TwoTo, Digits;
    var n := Bits(w, |s|);
    SizeIs(w, s, e);
    UnitsSum(Val(Base(w), s), Two(n - p), e - n);
    UnitsShift(1, e - n, n);
    UnitsShift(1, e - n, n - p);
    assert 1 * Two(n) == Two(n) && 1 * Two(n - p) == Two(n - p);
    TwoToIs(e);
    TwoToIs(e - p);
  }

  lemma GoesUpIs(f: Format, mode: Mode, negative: bool)
    ensures GoesUp(f, mode, negative) <==> ToInfinity(f, mode, negative)
  {
  }

  lemma ZeroSize(r: nat, unit: int)
    ensures Units(r, unit) == 0.0 <==> r == 0
  {
    hide Units;
    ZeroUnits(unit);
    UnitsMono(r, 0, unit);
    UnitsMono(0, r, unit);
  }

  lemma PrecIsPositive(x: real, n: nat, r: nat)
    requires HasBits(x, n) && r as real == x
    ensures n > 0
  {
    TwoZero();
  }

  /** A correct result of the model is the result that is meant. */
  lemma CorrectMeans(f: Format, mode: Mode, negative: bool, x: real, g: Rounding, w: nat, kind: Kind, expn: int,
      s: seq<nat>, flags: Flags)
    requires Correct(f, mode, negative, x, g, w, kind, expn, s, flags)
    ensures Meant(f, mode, negative, Lifted(x, g.unit), w, kind, expn, s, flags)
  {
    hide Units, Lifted, IsRoundedReal, Two, TwoTo, HasBits, RoundsTo, IsExponent, IsNumber, AllOnes, ToInfinity, GoesUp,
      SizeOf, LastPlace, Effective;
    var e, y := g.unit + g.n, Units(g.r, g.unit);
    LiftedExponent(x, g.n, g.unit);
    RoundedPlace(f, mode, negative, x, g);
    SmallIs(f, mode, negative, x, g);
    GoesUpIs(f, mode, negative);
    LiftNat(g.r, g.unit);
    LiftMono(g.r as real, x, g.unit);
    LiftMono(x, g.r as real, g.unit);
    ZeroSize(g.r, g.unit);
    if g.prec > 0 {
      RoundedExponent(g.r, g.unit, g.e, f.eMin - 1);
      RoundedExponent(g.r, g.unit, g.e, f.eMax);
    }
    OutcomeSizes(f, mode, negative, g.r as real != x, g.r, g.e, g.prec <= 0, g.unit, w, kind, expn, s, flags);
    assert MeantAt(f, mode, negative, Lifted(x, g.unit), e, y, w, kind, expn, s, flags);
  }

  /** No bit is left exactly when the last place is not below the exponent. */
  lemma SmallIs(f: Format, mode: Mode, negative: bool, x: real, g: Rounding)
    requires HasBits(x, g.n) && g.prec == Effective(f, g.n, g.unit + g.n)
      && RoundedReal(mode, negative, x, g.n, g.prec, g.r)
    ensures g.prec <= 0 <==> f.prec.Some? && LastPlace(f, g.unit + g.n) >= g.unit + g.n
  {
    hide IsRoundedReal;
    if f.prec.Some? {
      PlaceOf(f, g.n, g.unit + g.n);
    } else {
      PrecIsPositive(x, g.n, g.r);
    }
  }

  /** The limbs of every finite outcome. */
  lemma OutcomeSizes(f: Format, mode: Mode, negative: bool, inexact: bool, r: nat, e: int, small: bool, unit: int,
      w: nat,
      kind: Kind, expn: int, s: seq<nat>, flags: Flags)
    requires Outcome(f, mode, negative, inexact, r, e, small, unit, w, kind, expn, s, flags)
    ensures small && r != 0 ==> SizeOf(w, s, expn) == Units(r, unit)
    ensures !small && (e >= f.eMin || f.subnormal) && e > f.eMax && !ToInfinity(f, mode, negative) ==>
      SizeOf(w, s, expn) == TwoTo(f.eMax) - TwoTo(f.eMax - f.prec.value)
    ensures !small && (e >= f.eMin || f.subnormal) && e <= f.eMax ==> SizeOf(w, s, expn) == Units(r, unit)
  {
    hide Units, SizeOf, TwoTo, IsNumber, AllOnes;
    if small {
      if r != 0 {
        NumberSize(w, s, expn, r, unit);
      }
    } else if e >= f.eMin || f.subnormal {
      if e <= f.eMax {
        NumberSize(w, s, expn, r, unit);
      } else if !ToInfinity(f, mode, negative) {
        LargestIs(w, s, expn, f.prec.value);
      }
    }
  }

  /** With gradual underflow every finite result is a multiple of 2^(eMin - p). */
  lemma GradualGrid(f: Format, mode: Mode, negative: bool, x: real, w: nat, kind: Kind, expn: int, s: seq<nat>,
      flags: Flags) returns (l: nat)
    requires f.prec.Some? && f.prec.value > 0 && f.subnormal && !f.radixPoint && f.eMin <= f.eMax
    requires Meant(f, mode, negative, x, w, kind, expn, s, flags) && kind == Finite
    ensures SizeOf(w, s, expn) == Multiple(l, TwoTo(f.eMin - f.prec.value))
  {
    hide TwoTo, SizeOf, RoundsAt, Multiple;
    var e: int, y: real :| MeantAt(f, mode, negative, x, e, y, w, kind, expn, s, flags);
    var p, least := f.prec.value, f.eMin - f.prec.value;
    var k: nat :| RoundsAt(mode, negative, x, TwoTo(LastPlace(f, e)), y, k);
    if SizeOf(w, s, expn) == y {
      OnPlace(mode, negative, x, LastPlace(f, e), y, k);
      l := CoarserPlace(k, LastPlace(f, e), least);
    } else {
      l := LargestOnGrid(f.eMax, p, least);
    }
  }

  lemma OnPlace(mode: Mode, negative: bool, x: real, place: int, y: real, k: nat)
    requires RoundsAt(mode, negative, x, TwoTo(place), y, k)
    ensures y == Multiple(k, TwoTo(place))
  {
  }

  lemma CoarserPlace(k: nat, place: int, least: int) returns (l: nat)
    requires least <= place
    ensures Multiple(k, TwoTo(place)) == Multiple(l, TwoTo(least))
  {
    hide Units, Two, TwoTo;
    l := k * Two(place - least);
    UnitsShift(k, least, place - least);
    UnitsIs(k, place);
    UnitsIs(l, least);
  }

  lemma LargestOnGrid(e: int, p: nat, least: int) returns (l: nat)
    requires p > 0 && least <= e - p
    ensures TwoTo(e) - TwoTo(e - p) == Multiple(l, TwoTo(least))
  {
    hide Units, Two, TwoTo;
    var m := Two(p) - 1;
    UnitsSum(m, 1, e - p);
    UnitsShift(1, e - p, p);
    assert 1 * Two(p) == Two(p);
    TwoToIs(e);
    TwoToIs(e - p);
    UnitsIs(m, e - p);
    l := CoarserPlace(m, e - p, least);
  }

  // ---- the operations

  lemma AbsoluteSize(a: BigFloat)
    requires a.kind == Finite
    ensures Absolute(a) == SizeOf(a.w, a.tab[..], a.expn)
  {
    hide Units, Val, Base, Bits, SizeOf;
    AloneIs(a);
    SizeIs(a.w, a.tab[..], a.expn);
  }

  /** What BigFloat.Round promises is the rounding that is meant. */
  lemma RoundMeans(f: Format, mode: Mode, negative: bool, w: nat, s0: seq<nat>, e0: int, r: nat, e: int, kind: Kind,
      expn: int, s: seq<nat>, flags: Flags)
    requires TopBit(w, s0)
    requires var n := Bits(w, |s0|); var v := Val(Base(w), s0); var prec := Effective(f, n, e0);
      && RoundedBits(mode, negative, v, n, prec, r) && (prec > 0 ==> IsExponent(r, e0 - n, e))
      && Outcome(f, mode, negative, r != v, r, e, prec <= 0, e0 - n, w, kind, expn, s, flags)
    ensures Meant(f, mode, negative, SizeOf(w, s0, e0), w, kind, expn, s, flags)
  {
    hide Units, Lifted, Two, Val, Base, Bits, TopBit, Outcome, IsExponent, SizeOf, Meant, IsRounded, IsRoundedReal;
    var n, v := Bits(w, |s0|), Val(Base(w), s0);
    var prec := Effective(f, n, e0);
    var g := Rounding(e0 - n, n, r, e, prec);
    TopBitFacts(w, s0);
    if prec < n {
      RealAgrees(mode, negative, v, Two(n - prec), r);
    }
    LiftNat(v, e0 - n);
    SizeIs(w, s0, e0);
    CorrectMeans(f, mode, negative, v as real, g, w, kind, expn, s, flags);
  }

  /** The sum of finite numbers: zero with the sign of the mode, or the exact sum rounded, with its sign. */
  lemma SumMeans(a: BigFloat, b: BigFloat, bSign: bool, f: Format, mode: Mode, g: Rounding, r: BigFloat, flags: Flags,
      invalid: bool)
    requires Numeric(a) && Numeric(b) && a.kind == Finite && b.kind == Finite && a.w == b.w == r.w
    requires IsSum(a, b, bSign, f, mode, g, r, flags, invalid)
    ensures var z := Signed(a.sign, SizeOf(a.w, a.tab[..], a.expn)) + Signed(bSign, SizeOf(b.w, b.tab[..], b.expn));
      && !invalid
      && if z == 0.0 then r.kind == Zero && r.sign == (mode == RNDD) && flags == NoFlags()
         else r.sign == (z < 0.0) && Meant(f, mode, r.sign, Size(z), r.w, r.kind, r.expn, r.tab[..], flags)
  {
    hide Correct, Alone, SumOf, Lifted, Above, SameMagnitude, TopBit, Meant, SizeOf, Absolute;
    AbsoluteSize(a);
    AbsoluteSize(b);
    AlonePositive(a, 0);
    AlonePositive(b, 0);
    AbsoluteAlone(a);
    AbsoluteAlone(b);
    OrderedValues(a, b);
    OrderedValues(b, a);
    OrderTotal(a, b);
    var sub := a.sign != bSign;
    if SameMagnitude(a, b) && sub {
    } else if Above(b, a) {
      SumLifted(b, a, sub, g.unit);
      CorrectMeans(f, mode, bSign, SumOf(b, a, sub, g.unit), g, a.w, r.kind, r.expn, r.tab[..], flags);
    } else {
      SumLifted(a, b, sub, g.unit);
      CorrectMeans(f, mode, a.sign, SumOf(a, b, sub, g.unit), g, a.w, r.kind, r.expn, r.tab[..], flags);
    }
  }

  lemma AbsoluteAlone(a: BigFloat)
    requires a.kind == Finite
    ensures Absolute(a) == Alone(a, 0)
  {
    hide Alone;
  }

  /** The product p of finite numbers. */
  lemma ProductMeans(a: BigFloat, b: BigFloat, f: Format, mode: Mode, g: Rounding, x: real, r: BigFloat, flags: Flags,
      invalid: bool, p: real)
    requires a.kind == Finite && b.kind == Finite && a.w == r.w && IsProduct(a, b, f, mode, g, x, r, flags, invalid)
    requires p == SizeOf(a.w, a.tab[..], a.expn) * SizeOf(b.w, b.tab[..], b.expn)
    ensures !invalid && r.sign == (a.sign != b.sign)
    ensures Meant(f, mode, r.sign, p, r.w, r.kind, r.expn, r.tab[..], flags)
  {
    hide Correct, Lifted, Meant, SizeOf, Absolute;
    AbsoluteSize(a);
    AbsoluteSize(b);
    SameProduct(Absolute(a), SizeOf(a.w, a.tab[..], a.expn), Absolute(b), SizeOf(b.w, b.tab[..], b.expn));
    assert Lifted(x, g.unit) == p;
    CorrectMeans(f, mode, r.sign, x, g, r.w, r.kind, r.expn, r.tab[..], flags);
  }

  /** The quotient of finite numbers. */
  lemma QuotientMeans(a: BigFloat, b: BigFloat, f: Format, mode: Mode, g: Rounding, x: real, r: BigFloat, flags: Flags,
      invalid: bool, byZero: bool)
    requires Numeric(b) && a.kind == Finite && b.kind == Finite && a.w == r.w
    requires IsQuotient(a, b, f, mode, g, x, r, flags, invalid, byZero)
    ensures !invalid && !byZero && r.sign == (a.sign != b.sign) && SizeOf(b.w, b.tab[..], b.expn) > 0.0
    ensures Meant(f, mode, r.sign, SizeOf(a.w, a.tab[..], a.expn) / SizeOf(b.w, b.tab[..], b.expn), r.w, r.kind, r.expn,
      r.tab[..], flags)
  {
    hide Correct, Lifted, Meant, SizeOf, Absolute, Numeric;
    AbsoluteSize(a);
    AbsoluteSize(b);
    PositiveSize(b);
    QuotientOf(Lifted(x, g.unit), Absolute(b), Absolute(a));
    CorrectMeans(f, mode, r.sign, x, g, r.w, r.kind, r.expn, r.tab[..], flags);
  }

  lemma QuotientOf(x: real, v: real, u: real)
    requires v > 0.0 && x * v == u
    ensures x == u / v
  {
    var q := u / v;
    assert q * v == u;
    if x < q {
      RealLess(x, q, v);
    } else if x > q {
      RealLess(q, x, v);
    }
  }

  /** A single number, rounded: the remainder of a division. */
  lemma RoundingMeans(a: BigFloat, f: Format, mode: Mode, g: Rounding, r: BigFloat, flags: Flags)
    requires a.kind == Finite && a.w == r.w && IsRoundingOf(a, f, mode, g, r, flags)
    ensures r.sign == a.sign
      && Meant(f, mode, r.sign, SizeOf(a.w, a.tab[..], a.expn), r.w, r.kind, r.expn, r.tab[..], flags)
  {
    hide Correct, Lifted, Meant, SizeOf, Absolute, Alone;
    AbsoluteSize(a);
    AbsoluteAlone(a);
    AloneLifted(a, g.unit);
    CorrectMeans(f, mode, r.sign, Alone(a, g.unit), g, r.w, r.kind, r.expn, r.tab[..], flags);
  }

  // ---- the square root

  /** The argument of the model's root is the number in units of the square of the last bit. */
  lemma ArgumentIs(v: nat, len: nat, n: nat, ea: int, e0: int)
    requires e0 == (ea + 1) / 2
    ensures Argument(v, len, n, ea % 2 == 1) == Lifted(Units(v, ea - Bits(W, len)), -2 * (e0 - Bits(W, n)))
  {
    hide Lifted, Units, Two;
    var j := Bits(W, 2 * n) - Bits(W, len);
    LiftUnits(v, ea - Bits(W, len), -2 * (e0 - Bits(W, n)));
    ArgumentUnits(v, len, n, ea % 2 == 1);
    if ea % 2 == 1 {
      HalfUnits(v, j - 1);
    }
  }

  lemma ArgumentUnits(v: nat, len: nat, n: nat, odd: bool)
    ensures var u := Units(v, Bits(W, 2 * n) - Bits(W, len)); Argument(v, len, n, odd) == if odd then u / 2.0 else u
  {
    hide Two;
    assert Bits(W, 2 * n) - Bits(W, len) == if len <= 2 * n then Bits(W, 2 * n - len) else 0 - Bits(W, len - 2 * n);
  }

  /** The root of a positive number, for every real number that is its root. */
  lemma SqrtMeans(a: BigFloat, f: Format, mode: Mode, r: BigFloat, flags: Flags, res: nat, e: int, inexact: bool,
      root: real)
    requires a.kind == Finite && a.w == r.w == W && f.prec.Some? && f.prec.value > 0
    requires root >= 0.0 && root * root == SizeOf(a.w, a.tab[..], a.expn)
    requires var n := RootSize(f.prec.value); var e0 := (a.expn + 1) / 2; var unit := e0 - Bits(W, n);
      var prec := Effective(f, Bits(W, n), e0);
      var arg := Argument(Val(LIMB, a.tab[..]), a.tab.Length, n, a.expn % 2 == 1);
      && (prec > 0 ==> IsExponent(res, unit, e))
      && Outcome(f, mode, false, inexact, res, e, prec <= 0, unit, W, r.kind, r.expn, r.tab[..], flags)
      && forall x: real :: x >= 0.0 && Square(x) == arg ==> CorrectlyRounded(mode, x, Bits(W, n), prec, res, inexact)
    ensures Meant(f, mode, false, root, r.w, r.kind, r.expn, r.tab[..], flags)
  {
    hide Lifted, Units, Two, Val, Bits, Outcome, IsExponent, SizeOf, Meant, RoundedReal, HasBits, Effective, RootSize,
      Argument;
    var n, e0 := RootSize(f.prec.value), (a.expn + 1) / 2;
    var unit := e0 - Bits(W, n);
    var x := Lifted(root, 0 - unit);
    SizeIs(a.w, a.tab[..], a.expn);
    LimbIsBase();
    LiftProduct(root, 0 - unit, root, 0 - unit);
    ArgumentIs(Val(LIMB, a.tab[..]), a.tab.Length, n, a.expn, e0);
    ZeroLift(0 - unit);
    LiftMono(0.0, root, 0 - unit);
    LiftBack(root, unit);
    var g := Rounding(unit, Bits(W, n), res, e, Effective(f, Bits(W, n), e0));
    assert CorrectlyRounded(mode, x, Bits(W, n), g.prec, res, inexact);
    CorrectMeans(f, mode, false, x, g, r.w, r.kind, r.expn, r.tab[..], flags);
  }

  lemma LiftBack(x: real, j: int)
    ensures Lifted(Lifted(x, 0 - j), j) == x
  {
    hide Lifted, Units;
    LiftIsProduct(x, 0 - j);
    LiftIsProduct(Lifted(x, 0 - j), j);
    PowerProduct(0 - j, j);
    UnitsNat(1, 0);
    TwoZero();
    RealAssoc(x, Units(1, 0 - j), Units(1, j));
  }
}

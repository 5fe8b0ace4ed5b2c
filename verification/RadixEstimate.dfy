/** The estimate of a quotient from a rounded reciprocal, in the conversion of an integer to a radix. */
module RadixEstimate {
  import opened Limbs
  import opened LimbUnary
  import opened RoundSpec
  import opened FloatBits
  import opened FloatRound
  import opened FloatDigits
  import opened FloatCancel
  import opened FloatUnits
  import opened BigFloat
  import opened FloatAdd
  import opened FloatExact
  import opened FloatProduct
  import opened FloatLogic
  import opened FloatDivrem
  import opened NttChunks
  import opened NttSize

  // ---- integers and floats

  /** The float of an integer below 2^e. */
  method FromNat(w: nat, v: nat, f: Format, ghost e: nat) returns (r: BigFloat)
    requires w > 0 && Unlimited(f) && f.eMin <= 1 && v < Two(e) && e <= f.eMax
    ensures fresh(r) && r.w == w && !r.sign && IsInteger(r, v)
  {
    hide Two, Bits, Units, Val, Base, InRange, Unlimited, Absolute, Chunk;
    var l := CeilLog2(v + 1) / w + 1;
    LimbsFor(w, v, CeilLog2(v + 1));
    var s := Chunks(w, v, l);
    var t := new nat[l](i requires 0 <= i < l => s[i]);
    assert t[..] == s;
    ChunksValue(w, v, l);
    ChunksAreDigits(w, v, l);
    IntegerInRange(f, v, e);
    UnitsNat(v, 0);
    TwoZero();
    r := NormalizeExact(w, t, Bits(w, l), false, f);
  }

  lemma ChunksAreDigits(w: nat, v: nat, l: nat)
    ensures Digits(Base(w), Chunks(w, v, l))
  {
    hide Two, Chunk;
    BaseIs(w);
    forall i | 0 <= i < l
      ensures Chunks(w, v, l)[i] < Base(w)
    {
      ChunkBelow(w, v, i);
    }
  }

  lemma LimbsFor(w: nat, v: nat, c: nat)
    requires w > 0 && v < Two(c)
    ensures c / w + 1 > 0 && Rem(v, Bits(w, c / w + 1)) == v
  {
    hide Two, Rem, Quot;
    var l := c / w + 1;
    assert c == w * (c / w) + c % w;
    Distrib(w, c / w, 1);
    TwoMono(c, Bits(w, l));
    QuotSmall(v, Bits(w, l));
  }

  /** The integer of a float. */
  method ToNat(q: BigFloat, ghost n: nat) returns (v: nat)
    requires IsInteger(q, n)
    ensures v == n
  {
    hide Two, Bits, Units, Val, Base, TopBit, Quot, Rem;
    if q.kind == Zero {
      return 0;
    }
    var m, k := Val(Base(q.w), q.tab[..]), Bits(q.w, q.tab.Length) - q.expn;
    IntegerMantissa(m, k, n);
    if k >= 0 {
      QuotIs(m, k, n, 0);
      v := Quot(m, k);
    } else {
      MulMono(0, m, Two(-k));
      v := m * Two(-k);
    }
  }

  // ---- rounding to nearest

  /** A format with a precision p and an exponent range. */
  ghost predicate Plain(f: Format, p: nat) {
    f.prec == Some(p) && p > 0 && !f.radixPoint && !f.subnormal
  }

  ghost function Distance(x: real, y: real): real {
    if x < y then y - x else x - y
  }

  /** Rounding to nearest with p bits changes a number by at most a 2^p-th of it. */
  lemma NearestError(f: Format, p: nat, negative: bool, x: real, g: Rounding, w: nat, kind: Kind, expn: int,
      s: seq<nat>, flags: Flags)
    requires Plain(f, p) && Correct(f, RNDN, negative, x, g, w, kind, expn, s, flags)
    ensures Scale(Two(p), Distance(Units(g.r, g.unit), Lifted(x, g.unit))) <= Lifted(x, g.unit)
      && Lifted(x, g.unit) > 0.0
  {
    hide Two, Units, Lifted, Scale, Outcome, IsExponent, IsMultiple;
    var y := g.r as real;
    LiftNat(g.r, g.unit);
    HalfPositive(x, g.n);
    ZeroLift(g.unit);
    LiftMono(x, 0.0, g.unit);
    LiftDistance(y, x, g.unit);
    if p < g.n {
      HalfUnit(x, y, g.n, p);
    } else {
      ScaleNat(Two(p), 0);
    }
    LiftOfScale(Distance(y, x), p, g.unit);
    LiftMono(Scale(Two(p), Distance(y, x)), x, g.unit);
  }

  lemma HalfUnit(x: real, y: real, n: nat, p: nat)
    requires p < n && NearestReal(x, Two(n - p) as real, y) && Two(n) as real <= 2.0 * x
    ensures Scale(Two(p), Distance(y, x)) <= x
  {
    hide Two;
    TwoAdd(p, n - p);
    var u, c, d := Two(n - p) as real, Two(p) as real, Distance(y, x);
    assert c * u == Two(n) as real by { RealProduct(Two(p), Two(n - p), Two(n)); }
    assert 2.0 * d <= u;
    RealMono(2.0 * d, u, c);
    assert c * (2.0 * d) == 2.0 * (c * d);
  }

  lemma LiftDistance(x: real, y: real, j: int)
    ensures Lifted(Distance(x, y), j) == Distance(Lifted(x, j), Lifted(y, j))
  {
    hide Lifted;
    LiftSum(x, y, j);
    LiftSum(y, x, j);
    LiftMono(y, x, j);
  }

  lemma LiftOfScale(x: real, p: nat, j: int)
    ensures Lifted(Scale(Two(p), x), j) == Scale(Two(p), Lifted(x, j))
  {
    hide Two, Units, Lifted, Scale;
    LiftIsProduct(x, j);
    LiftIsProduct(Scale(Two(p), x), j);
    ScaleTimes(Two(p), x, Units(1, j), Lifted(x, j));
  }

  lemma ScaleTimes(c: nat, x: real, z: real, l: real)
    requires l == x * z
    ensures Scale(c, x) * z == Scale(c, l)
  {
  }

  /** A rounded number is within half of the exact one. */
  lemma WithinHalf(x: real, y: real, p: nat)
    requires Scale(Two(p), Distance(y, x)) <= x && p > 0 && x > 0.0
    ensures x <= 2.0 * y && y <= 2.0 * x
  {
    hide Two;
    TwoNext(p - 1);
    TwoPos(p - 1);
    var d := Distance(y, x);
    RealMono(2.0, Two(p) as real, d);
  }

  /** The rounded number is finite when twice and half the exact number are in the range. */
  lemma NearestFinite(f: Format, p: nat, negative: bool, x: real, g: Rounding, q: BigFloat, flags: Flags, i: int,
      j: int)
    requires q.w > 0 && Plain(f, p) && Correct(f, RNDN, negative, x, g, q.w, q.kind, q.expn, q.tab[..], flags)
    requires Units(1, i) <= Lifted(x, g.unit) <= Units(1, j) && f.eMin <= i && j + 1 < f.eMax
    ensures Numeric(q) && q.kind == Finite && Absolute(q) == Units(g.r, g.unit) && q.expn <= j + 2
  {
    hide Two, Units, Lifted, Scale, Outcome, Distance, IsExponent, HasBits, RoundedReal;
    NearestError(f, p, negative, x, g, q.w, q.kind, q.expn, q.tab[..], flags);
    WithinHalf(Lifted(x, g.unit), Units(g.r, g.unit), p);
    PowerTwice(i - 1);
    PowerTwice(j);
    ZeroUnits(g.unit);
    PowerMono(f.eMin - 1, i - 1);
    UnitsPositive(j);
    UnitsPositive(i - 1);
    PowerTwice(j + 1);
    var f' := Format(None, false, false, f.eMin, j + 2);
    UnitsMono(g.r, 0, g.unit);
    ExponentInRange(f', g.r, g.unit, g.e);
    OutcomeNumber(f, RNDN, negative, g.r as real != x, g.r, g.e, g.unit, q, flags);
  }

  // ---- the estimate

  /** 1 / b rounded to p bits. */
  method Inverse(w: nat, b: nat, p: nat, f: Format, ghost e: nat) returns (r: BigFloat, ghost x: real)
    requires w >= 4 && 0 < b < Two(e) && p > 0 && Unlimited(f) && f.eMin <= 0 - e && e + 2 < f.eMax
    ensures fresh(r) && r.w == w && Numeric(r) && r.kind == Finite && !r.sign
    ensures x * b as real == 1.0 && x > 0.0 && Scale(Two(p), Distance(Absolute(r), x)) <= x && Absolute(r) <= 2.0
    ensures Units(1, 0 - e - 1) <= Absolute(r)
  {
    hide Two, Units, Lifted, Scale, Distance, Correct, Absolute, Numeric, Unlimited;
    var one := SetOne(w, false);
    var d := FromNat(w, b, f, e);
    IntegerFloat(one, d, b);
    var f1 := Format(Some(p), false, false, f.eMin, f.eMax);
    var flags;
    ghost var g, y;
    r, flags, g, y := DivFinite(one, d, f1, RNDN);
    x := Lifted(y, g.unit);
    InverseSize(x, b, e);
    NearestError(f1, p, r.sign, y, g, w, r.kind, r.expn, r.tab[..], flags);
    NearestFinite(f1, p, r.sign, y, g, r, flags, 0 - e, 0);
    WithinHalf(x, Absolute(r), p);
    PowerTwice(0 - e - 1);
    UnitsNat(1, 0);
    TwoZero();
  }

  lemma IntegerFloat(one: BigFloat, d: BigFloat, b: nat)
    requires Numeric(one) && Absolute(one) == 1.0 && IsInteger(d, b) && b > 0
    ensures one.kind == Finite && d.kind == Finite && Numeric(d) && one.Valid() && d.Valid() && Absolute(d) == b as real
  {
    IntegerBelow(d, b);
  }

  lemma InverseSize(x: real, b: nat, e: nat)
    requires x * b as real == 1.0 && 0 < b < Two(e)
    ensures Units(1, 0 - e) <= x <= Units(1, 0) && x > 0.0
  {
    hide Two, Units;
    var v := b as real;
    if x <= 0.0 {
      RealMono(x, 0.0, v);
    }
    UnitsNat(1, 0);
    TwoZero();
    UnitsNat(1, e);
    PowerProduct(0 - e, e);
    var u := Units(1, 0 - e);
    assert u * Units(1, e) == 1.0;
    UnitsPositive(0 - e);
    if x > 1.0 {
      RealMono(1.0, v, x);
    }
    InverseAbove(x, v, u, Units(1, e));
  }

  lemma InverseAbove(x: real, v: real, u: real, t: real)
    requires x * v == 1.0 && u * t == 1.0 && 0.0 < v < t && u > 0.0
    ensures u <= x
  {
    RealLess(v, t, u);
    if x < u {
      RealLess(x, u, v);
    }
  }

  /** From the errors of the two roundings: the estimate is less than three away. */
  lemma EstimateClose(a: nat, b: nat, k: nat, x1: real, y1: real, x2: real, y2: real, p1: real, p2: real)
    requires b > 0 && x1 * b as real == 1.0 && x1 > 0.0 && p1 * Distance(y1, x1) <= x1 && x2 == a as real * y1
    requires p2 * Distance(y2, x2) <= x2
    requires k as real <= y2 < (k + 1) as real && a as real < p2 * b as real && 4.0 * p2 <= p1 && p2 >= 1.0
    ensures (k - 2) * b <= a < (k + 3) * b
  {
    var t := a as real * x1;
    QuotientOf(a, b, x1, t, p2);
    FirstError(a as real, x1, y1, x2, t, p1, p2);
    SecondError(x2, y2, t, p2);
    NearQuotient(a, b, k, t);
  }

  lemma QuotientOf(a: nat, b: nat, x: real, t: real, p: real)
    requires b > 0 && x * b as real == 1.0 && x > 0.0 && t == a as real * x && a as real < p * b as real
    ensures t * b as real == a as real && 0.0 <= t < p
  {
    var v, u := b as real, a as real;
    assert t * v == u * (x * v) by { assert t == u * x; assert (u * x) * v == u * (x * v); }
    RealMono(0.0, u, x);
    if t >= p {
      RealMono(p, t, v);
    }
  }

  /** |a y1 - a x1| <= 1/4 */
  lemma FirstError(a: real, x1: real, y1: real, x2: real, t: real, p1: real, p2: real)
    requires a >= 0.0 && x1 > 0.0 && p1 * Distance(y1, x1) <= x1 && x2 == a * y1 && t == a * x1 && 0.0 <= t < p2
    requires 4.0 * p2 <= p1 && p2 >= 1.0
    ensures 4.0 * Distance(x2, t) <= 1.0
  {
    var d := Distance(y1, x1);
    assert Distance(x2, t) == a * d by { ScaledDistance(a, y1, x1); }
    var c := a * d;
    assert p1 * c == a * (p1 * d) by { assert p1 * (a * d) == a * (p1 * d); }
    RealMono(p1 * d, x1, a);
    assert p1 * c <= t;
    RealMono(0.0, d, a);
    RealMono(4.0 * p2, p1, c);
    assert (4.0 * p2) * c == p2 * (4.0 * c);
    if 4.0 * c > 1.0 {
      RealLess(1.0, 4.0 * c, p2);
    }
  }

  lemma ScaledDistance(a: real, x: real, y: real)
    requires a >= 0.0
    ensures Distance(a * x, a * y) == a * Distance(x, y)
  {
    assert a * x - a * y == a * (x - y) && a * y - a * x == a * (y - x);
    if x < y {
      RealMono(x, y, a);
    } else {
      RealMono(y, x, a);
    }
  }

  lemma SecondError(x2: real, y2: real, t: real, p2: real)
    requires 4.0 * Distance(x2, t) <= 1.0 && 0.0 <= t < p2 && p2 >= 1.0 && p2 * Distance(y2, x2) <= x2
    ensures 2.0 * Distance(y2, t) <= 3.0
  {
    SecondBound(x2, Distance(y2, x2), t, p2);
  }

  lemma SecondBound(x: real, d: real, t: real, p: real)
    requires 4.0 * (x - t) <= 1.0 && t < p && p >= 1.0 && p * d <= x
    ensures 4.0 * d <= 5.0
  {
    if 4.0 * d > 5.0 {
      RealLess(5.0, 4.0 * d, p);
    }
  }

  lemma NearQuotient(a: nat, b: nat, k: nat, t: real)
    requires b > 0 && t * b as real == a as real && (k as real) - 2.0 <= t < k as real + 3.0
    ensures (k - 2) * b <= a < (k + 3) * b
  {
    MultipleBelow(k - 2, b, a, t);
    MultipleAbove(k + 3, b, a, t);
  }

  lemma MultipleBelow(m: int, b: nat, a: nat, t: real)
    requires b > 0 && t * b as real == a as real && m as real <= t
    ensures m * b <= a
  {
    RealMono(m as real, t, b as real);
    IntProduct(m, b);
  }

  lemma MultipleAbove(m: int, b: nat, a: nat, t: real)
    requires b > 0 && t * b as real == a as real && t < m as real
    ensures a < m * b
  {
    RealLess(t, m as real, b as real);
    IntProduct(m, b);
  }

  lemma IntProduct(m: int, b: nat)
    ensures (m * b) as real == m as real * b as real
  {
  }

  /** The product of a with the rounded inverse, rounded to p bits and cut to an integer. */
  method Product(w: nat, a: nat, y: BigFloat, p: nat, f: Format, ghost e: nat)
    returns (k: nat, ghost x2: real, ghost y2: real)
    requires w >= 4 && 0 < a < Two(e) && p > 0 && Unlimited(f) && f.eMin <= 0 - e - 1 && e + 4 < f.eMax
    requires Numeric(y) && y.kind == Finite && y.w == w && !y.sign && Units(1, 0 - e - 1) <= Absolute(y) <= 2.0
    ensures x2 == a as real * Absolute(y) && Scale(Two(p), Distance(y2, x2)) <= x2 && k as real <= y2 < (k + 1) as real
  {
    hide Two, Units, Lifted, Scale, Distance, Correct, Absolute, Numeric, Unlimited;
    var d := FromNat(w, a, f, e);
    IntegerFinite(d, a);
    NumericFacts(y);
    var f2 := Format(Some(p), false, false, f.eMin, f.eMax);
    var m, flags, g, z := MulFinite(d, y, f2, RNDN);
    x2 := Lifted(z, g.unit);
    y2 := Units(g.r, g.unit);
    ProductSize(a, Absolute(y), x2, e);
    NearestError(f2, p, m.sign, z, g, w, m.kind, m.expn, m.tab[..], flags);
    NearestFinite(f2, p, m.sign, z, g, m, flags, 0 - e - 1, e + 1);
    var q, n := Truncate(m, f);
    k := ToNat(q, n);
  }

  lemma IntegerFinite(d: BigFloat, a: nat)
    requires IsInteger(d, a) && a > 0
    ensures d.kind == Finite && Numeric(d) && d.Valid() && Absolute(d) == a as real
  {
    IntegerBelow(d, a);
  }

  lemma ProductSize(a: nat, y: real, x: real, e: nat)
    requires 0 < a < Two(e) && Units(1, 0 - e - 1) <= y <= 2.0 && x == a as real * y
    ensures Units(1, 0 - e - 1) <= x <= Units(1, e + 1)
  {
    hide Two, Units;
    UnitsPositive(0 - e - 1);
    UnitsNat(1, e);
    PowerTwice(e);
    ProductBetween(a as real, y, x, Units(1, e));
  }

  lemma ProductBetween(a: real, y: real, x: real, t: real)
    requires 1.0 <= a <= t && 0.0 <= y <= 2.0 && x == a * y
    ensures y <= x <= t + t
  {
    ProductNonnegative(a - 1.0, y);
    ProductNonnegative(2.0 - y, a);
    assert x - y == (a - 1.0) * y && a + a - x == (2.0 - y) * a;
  }

  lemma ProductNonnegative(x: real, y: real)
    requires x >= 0.0 && y >= 0.0
    ensures x * y >= 0.0
  {
  }

  /** The estimate of bf_integer_to_radix_rec for a / b, with p1 bits of the inverse and p2 bits of the product. */
  method EstimateQuotient(w: nat, a: nat, b: nat, p1: nat, p2: nat, f: Format, ghost e: nat) returns (q: nat)
    requires w >= 4 && a < Two(e) && 0 < b < Two(e) && p2 > 0 && p2 + 2 <= p1 && a < Two(p2) * b
    requires Unlimited(f) && f.eMin <= 0 - e - 1 && e + 4 < f.eMax
    ensures (q - 2) * b <= a < (q + 3) * b
  {
    hide Two, Units, Lifted, Correct, Absolute, Numeric, Unlimited, Distance;
    var inv, x1 := Inverse(w, b, p1, f, e);
    if a == 0 {
      return 0;
    }
    ghost var x2, y2;
    q, x2, y2 := Product(w, a, inv, p2, f, e);
    PrecisionSteps(p1, p2);
    RealBound(a, b, Two(p2));
    EstimateClose(a, b, q, x1, Absolute(inv), x2, y2, Two(p1) as real, Two(p2) as real);
  }

  lemma PrecisionSteps(p1: nat, p2: nat)
    requires p2 + 2 <= p1
    ensures 4.0 * Two(p2) as real <= Two(p1) as real && Two(p2) as real >= 1.0
  {
    hide Two;
    TwoMono(p2 + 2, p1);
    TwoAdd(p2, 2);
    FourIsTwoTwo();
    TwoPos(p2);
  }

  lemma RealBound(a: nat, b: nat, p: nat)
    requires a < p * b
    ensures a as real < p as real * b as real
  {
    IntProduct(p, b);
  }
}

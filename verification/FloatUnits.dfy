/** Magnitudes as reals, in units of a power of two, and the rounding of a cut sum. */
module FloatUnits {
  import opened Limbs
  import opened RoundSpec
  import opened FloatBits
  import opened FloatRound
  import opened FloatDigits
  import opened FloatCancel
  import opened BigFloat

  /** m 2^j */
  ghost function Units(m: nat, j: int): real {
    if j >= 0 then (m * Two(j)) as real else m as real / Two(-j) as real
  }

  /** Units(m, p - q) 2^q = m 2^p */
  lemma UnitsScaled(m: nat, j: int, p: nat, q: nat)
    requires p - q == j
    ensures Scale(Two(q), Units(m, j)) == (m * Two(p)) as real
  {
    hide Two, Scale;
    if j >= 0 {
      TwoAdd(j, q);
      ScaleNat(Two(q), m * Two(j));
      Assoc(m, Two(j), Two(q));
    } else {
      TwoAdd(-j, p);
      ScaleDivided(Two(q), Two(-j), Two(p), m);
    }
  }

  lemma ScaleDivided(c: nat, d: nat, e: nat, m: nat)
    requires d > 0 && c == d * e
    ensures Scale(c, m as real / d as real) == (m * e) as real
  {
    var z := m as real / d as real;
    assert z * d as real == m as real;
    ScaleScale(d, e, c, z);
    ScaleNat(e, m);
  }

  lemma ScaleScale(d: nat, e: nat, c: nat, z: real)
    requires c == d * e
    ensures Scale(c, z) == Scale(e, Scale(d, z))
  {
  }

  lemma UnitsUnique(m: nat, j: int, p: nat, q: nat, z: real)
    requires p - q == j && Scale(Two(q), z) == (m * Two(p)) as real
    ensures z == Units(m, j)
  {
    hide Two, Scale, Units;
    UnitsScaled(m, j, p, q);
    ScaleReal(Two(q), z, Units(m, j));
  }

  /** The same number counted in a finer unit. */
  lemma UnitsShift(m: nat, i: int, j: nat)
    ensures Units(m * Two(j), i) == Units(m, i + j)
  {
    hide Two, Scale, Units;
    var q: nat := if i >= 0 then 0 else -i;
    UnitsScaled(m * Two(j), i, i + q, q);
    TwoAdd(j, i + q);
    Assoc(m, Two(j), Two(i + q));
    UnitsUnique(m, i + j, i + j + q, q, Units(m * Two(j), i));
  }

  lemma UnitsSum(x: nat, y: nat, i: int)
    ensures Units(x + y, i) == Units(x, i) + Units(y, i)
  {
    hide Two, Scale, Units;
    var q: nat := if i >= 0 then 0 else -i;
    var p: nat := i + q;
    UnitsScaled(x, i, p, q);
    UnitsScaled(y, i, p, q);
    ScaleSum(Two(q), Units(x, i), Units(y, i));
    Distrib(Two(p), x, y);
    UnitsUnique(x + y, i, p, q, Units(x, i) + Units(y, i));
  }

  // ---- the rounding of a number cut with a sticky bit

  /** r is the real magnitude x rounded to prec of n bits. */
  ghost predicate RoundedReal(mode: Mode, negative: bool, x: real, n: nat, prec: int, r: nat) {
    if prec >= n then r as real == x else IsRoundedReal(mode, negative, x, Two(n - prec), r)
  }

  /** h 2^lb + low is cut to h with a sticky bit, shifted up by s and rounded: the result is the rounding of the
      whole number, in units of 2^(lb - s), when at least two more bits were kept or nothing was lost. */
  lemma CutRounds(mode: Mode, negative: bool, h: nat, low: nat, lb: nat, s: nat, n: nat, prec: int, r: nat)
    requires low < Two(lb) && (low != 0 ==> prec + 2 + s <= n)
    requires RoundedBits(mode, negative, Two(s) * Sticky(h, low), n, prec, r)
    ensures var x := Units(h * Two(lb) + low, s - lb);
      RoundedReal(mode, negative, x, n, prec, r) && (r != Two(s) * Sticky(h, low) <==> r as real != x)
  {
    hide *;
    var x := Units(h * Two(lb) + low, s - lb);
    if low == 0 {
      ExactCut(h, lb, s);
      StickyZeroIs(h);
      RoundedAgrees(mode, negative, Two(s) * h, n, prec, r);
    } else {
      var f := low as real / Two(lb) as real;
      CutFraction(low, Two(lb));
      CutIs(h, low, lb, s, f);
      StickyCut(mode, negative, h, f, s, n, prec, r, low, x);
    }
  }

  lemma StickyZeroIs(h: nat)
    ensures Sticky(h, 0) == h
  {
  }

  lemma ExactCut(h: nat, lb: nat, s: nat)
    ensures Units(h * Two(lb) + 0, s - lb) == (Two(s) * h) as real
  {
    hide *;
    UnitsShift(h, s - lb, lb);
    UnitsNat(h, s);
  }

  lemma UnitsNat(h: nat, s: nat)
    ensures Units(h, s) == (Two(s) * h) as real
  {
  }

  lemma RoundedAgrees(mode: Mode, negative: bool, v: nat, n: nat, prec: int, r: nat)
    requires RoundedBits(mode, negative, v, n, prec, r)
    ensures RoundedReal(mode, negative, v as real, n, prec, r) && (r != v <==> r as real != v as real)
  {
    hide IsRounded, IsRoundedReal, Two;
    if prec < n {
      RealAgrees(mode, negative, v, Two(n - prec), r);
    }
  }

  lemma CutFraction(low: nat, p: nat)
    requires 0 < low < p
    ensures var f := low as real / p as real; 0.0 < f < 1.0 && Scale(p, f) == low as real
  {
    var f := low as real / p as real;
    assert f * p as real == low as real;
    if f >= 1.0 {
      ScaleReal(p, 1.0, f);
    }
    if f <= 0.0 {
      ScaleReal(p, f, 0.0);
    }
  }

  lemma CutIs(h: nat, low: nat, lb: nat, s: nat, f: real)
    requires Scale(Two(lb), f) == low as real
    ensures Units(h * Two(lb) + low, s - lb) == Scale(Two(s), h as real + f)
  {
    hide Two, Scale, Units;
    var v := h * Two(lb) + low;
    var z := Scale(Two(s), h as real + f);
    ScaleSum(Two(lb), h as real, f);
    ScaleNat(Two(lb), h);
    ScaleSwap(Two(lb), Two(s), h as real + f);
    assert Scale(Two(lb), h as real + f) == v as real;
    ScaleNat(Two(s), v);
    UnitsUnique(v, s - lb, s, lb, z);
  }

  lemma ScaleSwap(c: nat, d: nat, z: real)
    ensures Scale(c, Scale(d, z)) == Scale(d, Scale(c, z))
  {
  }

  lemma StickyCut(mode: Mode, negative: bool, h: nat, f: real, s: nat, n: nat, prec: int, r: nat, low: nat, x: real)
    requires 0.0 < f < 1.0 && low != 0 && prec + 2 + s <= n
      && RoundedBits(mode, negative, Two(s) * Sticky(h, low), n, prec, r)
    requires x == Scale(Two(s), h as real + f)
    ensures RoundedReal(mode, negative, x, n, prec, r) && r != Two(s) * Sticky(h, low) && r as real != x
  {
    hide IsRounded, IsRoundedReal, Two, Scale, Sticky;
    var k := n - prec;
    var v := Sticky(h, low);
    var r0 := RoundedMultiple(mode, negative, Two(s) * v, s, k, r);
    TwoAdd(s, k - s);
    ScaleRounded(mode, negative, v, Two(k - s), r0, Two(s));
    TwoAdd(2, k - s - 2);
    FourIsTwoTwo();
    SameSticky(h, low);
    StickyReal(mode, negative, h, f, Two(k - s - 2), r0);
    ScaleRoundedReal(mode, negative, h as real + f, Two(k - s), r0, Two(s));
    NotExact(h, f, low, r0, k - s, s, x, r);
  }

  lemma FourIsTwoTwo()
    ensures Two(2) == 4
  {
  }

  lemma SameSticky(h: nat, low: nat)
    requires low != 0
    ensures Sticky(h, low) == Sticky(h, 1)
  {
  }

  /** A rounded number is a multiple of 2^s below the unit. */
  lemma RoundedMultiple(mode: Mode, negative: bool, v: nat, s: nat, k: nat, r: nat) returns (r0: nat)
    requires s + 2 <= k && IsRounded(mode, negative, v, Two(k), r)
    ensures r == Two(s) * r0 && r0 % 2 == 0
  {
    hide Two;
    var q: nat :| r == q * Two(k);
    TwoAdd(s, k - s);
    TwoNext(k - s - 1);
    r0 := q * Two(k - s);
    assert r0 == 2 * (q * Two(k - s - 1));
    Assoc(q, Two(s), Two(k - s));
    Assoc(Two(s), q, Two(k - s));
  }

  lemma NotExact(h: nat, f: real, low: nat, r0: nat, j: nat, s: nat, x: real, r: nat)
    requires 0.0 < f < 1.0 && low != 0 && r0 % 2 == 0 && x == Scale(Two(s), h as real + f) && r == Two(s) * r0
    ensures r != Two(s) * Sticky(h, low) && r as real != x
  {
    hide Two, Scale;
    ScaleNat(Two(s), r0);
    ScaleReal(Two(s), r0 as real, h as real + f);
    RealOrder(h, f, r0);
    if r == Two(s) * Sticky(h, low) {
      ScaleOrder(r0, Sticky(h, low), Two(s));
    }
  }

  /** The magnitude x has n bits before the point. */
  ghost predicate HasBits(x: real, n: nat) {
    Two(n) as real <= 2.0 * x && x < Two(n) as real
  }

  /** The sticky bit does not change the number of bits. */
  lemma CutBits(h: nat, low: nat, lb: nat, s: nat, n: nat)
    requires low < Two(lb) && (low != 0 ==> 3 + s <= n)
      && Two(s) * Sticky(h, low) < Two(n) <= 2 * (Two(s) * Sticky(h, low))
    ensures HasBits(Units(h * Two(lb) + low, s - lb), n)
  {
    hide Two, Scale, Units, Sticky;
    if low == 0 {
      ExactCut(h, lb, s);
      StickyZeroIs(h);
    } else {
      var f := low as real / Two(lb) as real;
      CutFraction(low, Two(lb));
      CutIs(h, low, lb, s, f);
      TwoAdd(s, n - s);
      TwoAdd(s, n - s - 1);
      TwoNext(n - 1);
      TwoNext(n - s - 2);
      StickyRange(h, low, Two(s), Two(n - s - 2), Two(n - s - 1), Two(n - s));
      ScaleNat(Two(s), Two(n - s - 1));
      ScaleNat(Two(s), Two(n - s));
      TwoNext(n - s - 1);
      ScaleReal(Two(s), Two(n - s - 1) as real, h as real + f);
      ScaleReal(Two(s), Two(n - s) as real, h as real + f);
    }
  }

  lemma StickyRange(h: nat, low: nat, p: nat, quarter: nat, half: nat, whole: nat)
    requires p > 0 && half == 2 * quarter && p * half <= p * Sticky(h, low) < p * whole
    ensures half <= h < whole
  {
    ScaleOrder(half, Sticky(h, low), p);
    ScaleOrder(whole, Sticky(h, low), p);
  }
}

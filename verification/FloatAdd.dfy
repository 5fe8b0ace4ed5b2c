/** bf_add and bf_sub: the sum, cut with a sticky bit and rounded, is the correctly rounded sum. */
module FloatAdd {
  import opened Limbs
  import opened LimbKernels
  import opened LimbUnary
  import opened RoundSpec
  import opened FloatBits
  import opened FloatRound
  import opened FloatDigits
  import opened FloatCancel
  import opened FloatSum
  import opened FloatNormalize
  import opened FloatUnits
  import opened BigFloat

  // ---- bf_cmpu

  lemma LeadSame(m: nat, e: nat, m': nat, e': nat, k: nat)
    requires m * Two(e') == m' * Two(e)
    ensures Lead(m, e, k) == Lead(m', e', k)
  {
    hide Two, Quot, Rem, Lead;
    var q := e + e';
    LeadShorter(m, e, k, q);
    LeadShorter(m', e', k, q);
    SameLong(m, e, m', e', k);
  }

  lemma SameLong(m: nat, e: nat, m': nat, e': nat, k: nat)
    requires m * Two(e') == m' * Two(e)
    ensures Lead(m', e', k + (e + e')) == Lead(m, e, k + (e + e'))
  {
    hide Two, Quot;
    TwoAdd(e', k);
    TwoAdd(e, k);
    Assoc(m, Two(e'), Two(k));
    Assoc(m', Two(e), Two(k));
  }

  /** More in the first k bits is more. */
  lemma LeadLarger(m: nat, e: nat, m': nat, e': nat, k: nat)
    requires Lead(m, e, k) > Lead(m', e', k)
    ensures Larger(m, e, m', e')
  {
    hide Two, Quot, Rem, Lead;
    if m * Two(e') == m' * Two(e) {
      LeadSame(m, e, m', e', k);
    } else if m * Two(e') < m' * Two(e) {
      LeadMono(m', e', m, e, k);
    }
  }

  /** All the bits equal: the same fraction. */
  lemma LeadEqual(m: nat, e: nat, m': nat, e': nat, k: nat)
    requires Lead(m, e, k) == Lead(m', e', k) && k >= e && k >= e'
    ensures m * Two(e') == m' * Two(e)
  {
    hide Two, Quot, Rem, Lead;
    if m * Two(e') < m' * Two(e) {
      LeadMono(m', e', m, e, k);
    } else if m' * Two(e) < m * Two(e') {
      LeadMono(m, e, m', e', k);
    }
  }

  /** Comparison of two mantissas with the same exponent, limb by limb from the top. */
  method CmpLimbs(w: nat, a: seq<nat>, b: seq<nat>) returns (c: int)
    requires w > 0 && Digits(Base(w), a) && Digits(Base(w), b)
    ensures c > 0 ==> Larger(Val(Base(w), a), Bits(w, |a|), Val(Base(w), b), Bits(w, |b|))
    ensures c < 0 ==> Larger(Val(Base(w), b), Bits(w, |b|), Val(Base(w), a), Bits(w, |a|))
    ensures c == 0 ==> Val(Base(w), a) * Two(Bits(w, |b|)) == Val(Base(w), b) * Two(Bits(w, |a|))
  {
    hide *;
    ghost var m, e, m', e' := Val(Base(w), a), Bits(w, |a|), Val(Base(w), b), Bits(w, |b|);
    var len := if |a| > |b| then |a| else |b|;
    var i := len;
    StartAhead(w, a, b, 0);
    while i > 0
      invariant 0 <= i <= len && Ahead(m, e, m', e', Bits(w, len - i), 0)
    {
      i := i - 1;
      var v1, v2 := Limbz(a, |a| - len + i), Limbz(b, |b| - len + i);
      ghost var j := len - 1 - i;
      LimbzDigit(w, a, j);
      LimbzDigit(w, b, j);
      LimbStep(w, m, e, m', e', j);
      if v1 != v2 {
        return if v1 < v2 then -1 else 1;
      }
    }
    BitsLeq(w, |a|, len);
    BitsLeq(w, |b|, len);
    AheadEqual(m, e, m', e', Bits(w, len));
    LeadEqual(m, e, m', e', Bits(w, len));
    return 0;
  }

  lemma AheadEqual(m: nat, e: nat, m': nat, e': nat, k: nat)
    requires Ahead(m, e, m', e', k, 0)
    ensures Lead(m, e, k) == Lead(m', e', k)
  {
  }

  /** The first different limb decides. */
  lemma LimbStep(w: nat, m: nat, e: nat, m': nat, e': nat, j: nat)
    requires Ahead(m, e, m', e', Bits(w, j), 0)
    ensures var x, y := Digit(w, m, e, j), Digit(w, m', e', j);
      && (x > y ==> Larger(m, e, m', e')) && (x < y ==> Larger(m', e', m, e))
      && (x == y ==> Ahead(m, e, m', e', Bits(w, j + 1), 0))
  {
    hide Two, Quot, Rem, Lead, Bits, Digit, Larger;
    LeadDigit(w, m, e, j, w);
    LeadDigit(w, m', e', j, w);
    ZeroShift(Digit(w, m, e, j));
    ZeroShift(Digit(w, m', e', j));
    BitsAdd(w, j, 1);
    BitsOne(w);
    var k := Bits(w, j) + w;
    if Digit(w, m, e, j) > Digit(w, m', e', j) {
      LeadLarger(m, e, m', e', k);
    } else if Digit(w, m, e, j) < Digit(w, m', e', j) {
      LeadLarger(m', e', m, e, k);
    }
  }

  /** A larger exponent is a larger number. */
  lemma ExponentLarger(w: nat, a: seq<nat>, b: seq<nat>, d: nat)
    requires w > 0 && d > 0 && TopBit(w, a) && TopBit(w, b)
    ensures Larger(Val(Base(w), a), Bits(w, |a|), Val(Base(w), b), Bits(w, |b|) + d)
  {
    hide Two, Bits, Val, Base, TopBit;
    TopBitFacts(w, a);
    TopBitFacts(w, b);
    var m, e, m', e' := Val(Base(w), a), Bits(w, |a|), Val(Base(w), b), Bits(w, |b|);
    TwoAdd(e', d);
    TwoNext(d - 1);
    TwoMono(0, d - 1);
    TwoZero();
    LargerArith(m, Two(e), m', Two(e'), Two(d));
  }

  lemma LargerArith(m: nat, p: nat, m': nat, p': nat, q: nat)
    requires p <= 2 * m && p > 0 && m' < p' && q >= 2
    ensures m' * p < m * (p' * q)
  {
    MulStrict(m', p', p);
    MulMono(p, 2 * m, p');
    MulMono(2, q, p');
    MulMono(p' * 2, p' * q, m);
    assert m * (p' * 2) == p' * (2 * m);
  }

  // ---- the sum of two finite numbers, the first not smaller

  /** The exact result on the grid of k bits. */
  ghost function Exact(sub: bool, x: nat, y: nat): int {
    if sub then x - y else x + y
  }

  /** The leading bits that a difference may lose. */
  method CancelledBits(w: nat, a: seq<nat>, b: seq<nat>, d: nat, sub: bool, ghost k: nat) returns (c: nat)
    requires w > 0 && TopBit(w, a) && TopBit(w, b) && k >= Bits(w, |a|) && k >= Bits(w, |b|) + d
    requires sub ==> Larger(Val(Base(w), a), Bits(w, |a|), Val(Base(w), b), Bits(w, |b|) + d)
    ensures var n := Exact(sub, Lead(Val(Base(w), a), Bits(w, |a|), k), Lead(Val(Base(w), b), Bits(w, |b|) + d, k));
      n > 0 && Two(k) <= n * Two(c + 1)
  {
    hide *;
    ghost var m, e, m', e' := Val(Base(w), a), Bits(w, |a|), Val(Base(w), b), Bits(w, |b|);
    ghost var x, y := Lead(m, e, k), Lead(m', e' + d, k);
    ExactIs(sub, x, y);
    TopBitFacts(w, a);
    TopBitFacts(w, b);
    if sub {
      if d <= 1 {
        c := CountCancelled(w, a, b, d);
        GapBound(m, e, m', e' + d, c, k);
      } else {
        c := 1;
        FarApart(m, e, m', e', d, k);
      }
      LeadMono(m, e, m', e' + d, k);
    } else {
      c := 0;
      TopHalfLead(m, e, k);
      SumAtLeast(x, y, k);
    }
  }

  lemma ExactIs(sub: bool, x: nat, y: nat)
    ensures Exact(sub, x, y) == if sub then x - y else x + y
  {
  }

  lemma TopHalfLead(m: nat, e: nat, k: nat)
    requires Two(e) <= 2 * m && e <= k
    ensures Two(k) <= 2 * Lead(m, e, k)
  {
    hide Two, Quot;
    TwoAdd(e, k - e);
    MulMono(Two(e), 2 * m, Two(k - e));
    Assoc(2, m, Two(k - e));
  }

  lemma SumAtLeast(x: nat, y: nat, k: nat)
    requires Two(k) <= 2 * x
    ensures x + y > 0 && Two(k) <= (x + y) * Two(0 + 1)
  {
    TwoNext(0);
    TwoZero();
  }

  /** Two or more binary places apart: at most one leading bit is lost. */
  lemma FarApart(m: nat, e: nat, m': nat, e': nat, d: nat, k: nat)
    requires d >= 2 && Two(e) <= 2 * m && m' < Two(e') && e <= k && e' + d <= k
    ensures Two(k) <= (Lead(m, e, k) - Lead(m', e' + d, k)) * Two(1 + 1)
  {
    hide Two, Quot;
    TopHalfLead(m, e, k);
    TwoAdd(e', k - e' - d);
    MulStrict(m', Two(e'), Two(k - e' - d));
    TwoMono(k - d, k - 2);
    TwoNext(k - 2);
    TwoNext(k - 1);
    FourIsTwoTwo();
  }

  /** The numbers of limbs: of the grid, and of the result. */
  function GridSize(w: nat, la: nat, lb: nat, d: nat): (t: nat)
    requires w > 0
    ensures t >= la && Bits(w, lb) + d <= Bits(w, t)
  {
    var n := lb + (d + w - 1) / w;
    GridCovers(w, lb, d);
    if la > n then BitsLeq(w, n, la); la else n
  }

  lemma GridCovers(w: nat, lb: nat, d: nat)
    requires w > 0
    ensures (d + w - 1) / w >= 0 && Bits(w, lb) + d <= Bits(w, lb + (d + w - 1) / w)
  {
    var q := (d + w - 1) / w;
    assert d + w - 1 == w * q + (d + w - 1) % w;
    Distrib(w, lb, q);
    if q < 0 {
      MulMono(q, -1, w);
    }
  }

  function ResultSize(w: nat, t: nat, c: nat, prec: Option<nat>): (l: nat)
    requires w > 0 && t > 0
    ensures 0 < l <= t && (l < t ==> prec.Some? && c + prec.value + 2 <= Bits(w, l))
  {
    match prec
    case None => t
    case Some(p) =>
      var l := (c + p + 2 + w - 1) / w;
      LimbCount(w, c + p + 2);
      if l < t then l else t
  }

  /** r->tab[0] |= (z != 0) */
  method FoldSticky(w: nat, tab: array<nat>, z: bool, ghost low: nat)
    requires w > 0 && tab.Length > 0 && Digits(Base(w), tab[..]) && (z <==> low != 0)
    modifies tab
    ensures Digits(Base(w), tab[..]) && Val(Base(w), tab[..]) == Sticky(old(Val(Base(w), tab[..])), low)
  {
    hide Val, Base, Two;
    ghost var s := tab[..];
    if z {
      tab[0] := if tab[0] % 2 == 0 then tab[0] + 1 else tab[0];
    }
    BaseIs(w);
    BaseEven(w);
    assert tab[..][1..] == s[1..];
    ValCons(Base(w), s);
    ValCons(Base(w), tab[..]);
    EvenBase(Two(w - 1), Base(w), s[0], Val(Base(w), s[1..]));
  }

  lemma EvenBase(h: nat, b: nat, x: nat, v: nat)
    requires b == 2 * h
    ensures (x + b * v) % 2 == x % 2
  {
    Assoc(2, h, v);
    EvenShift(h * v, x);
  }

  /** The carry of a sum becomes a new top limb. */
  method PushCarry(w: nat, tab: array<nat>, carry: bool) returns (t: array<nat>)
    requires w > 0 && tab.Length > 0 && Digits(Base(w), tab[..])
    ensures fresh(t) || t == tab
    ensures t.Length == (if carry then tab.Length + 1 else tab.Length) && Digits(Base(w), t[..])
    ensures Val(Base(w), t[..]) == Val(Base(w), tab[..]) + (if carry then Two(Bits(w, tab.Length)) else 0)
  {
    hide Val, Base, Two, Bits;
    if !carry {
      return tab;
    }
    var n := tab.Length;
    ghost var s := tab[..];
    t := new nat[n + 1](i requires 0 <= i <= n reads tab => if i < n then tab[i] else 1);
    assert t[..] == s + [1];
    ValSnoc(Base(w), s, 1);
    BasePow(w, n);
    BaseEven(w);
    TwoPos(w - 1);
  }

  /** The exact result, cut to rlen limbs and a carry, with a sticky bit for the low part. */
  method CutSum(w: nat, a: seq<nat>, b: seq<nat>, d: nat, t: nat, rlen: nat, sub: bool)
    returns (tab: array<nat>, carry: bool, ghost h: nat, ghost low: nat)
    requires w > 0 && TopBit(w, a) && TopBit(w, b) && 0 < rlen <= t && |a| <= t && Bits(w, |b|) + d <= Bits(w, t)
    requires sub ==> Larger(Val(Base(w), a), Bits(w, |a|), Val(Base(w), b), Bits(w, |b|) + d)
    ensures fresh(tab) && tab.Length == (if carry then rlen + 1 else rlen) && Digits(Base(w), tab[..])
    ensures Val(Base(w), tab[..]) == Sticky(h, low) && low < Two(Bits(w, t - rlen))
    ensures Exact(sub, Lead(Val(Base(w), a), Bits(w, |a|), Bits(w, t)),
      Lead(Val(Base(w), b), Bits(w, |b|) + d, Bits(w, t)))
         == h * Two(Bits(w, t - rlen)) + low
  {
    hide *;
    TopBitFacts(w, a);
    TopBitFacts(w, b);
    ghost var m, e, m', e', k := Val(Base(w), a), Bits(w, |a|), Val(Base(w), b), Bits(w, |b|) + d, Bits(w, t);
    ghost var x, y := Lead(m, e, k), Lead(m', e', k);
    var c0, z;
    c0, z, low := SumLow(w, a, b, d, t, rlen, sub);
    PartialCarry(sub, x, y, Bits(w, t - rlen), c0, low);
    var c;
    tab, c := SumHigh(w, a, b, d, t, rlen, sub, c0, low);
    ghost var hi := Val(Base(w), tab[..]);
    BitsLeq(w, |a|, t);
    TwoMono(Bits(w, |b|), e');
    LeadBelow(m, e, k);
    LeadBelow(m', e', k);
    if sub {
      LeadMono(m, e, m', e', k);
    }
    SumTotal(sub, x, y, k, c, low + Two(Bits(w, t - rlen)) * hi);
    ExactIs(sub, x, y);
    FoldSticky(w, tab, z, low);
    PartialCarry(sub, x, y, k, c, low + Two(Bits(w, t - rlen)) * hi);
    carry := !sub && c == 1;
    tab := PushCarry(w, tab, carry);
    h := hi + (if carry then Two(Bits(w, rlen)) else 0);
    CarryParts(w, t, rlen, hi, low, carry);
  }

  lemma CarryParts(w: nat, t: nat, rlen: nat, hi: nat, low: nat, carry: bool)
    requires w > 0 && 0 < rlen <= t
    ensures var top := if carry then Two(Bits(w, rlen)) else 0; var p := Two(Bits(w, t - rlen));
      && (if carry then Two(Bits(w, t)) else 0) + (low + p * hi) == (hi + top) * p + low
      && Sticky(hi, low) + top == Sticky(hi + top, low)
  {
    hide Two, Bits;
    TwoSplit(w, rlen, t - rlen);
    BitsMono(w, 0, rlen);
    TwoNext(Bits(w, rlen) - 1);
    var top := if carry then Two(Bits(w, rlen)) else 0;
    Distrib(Two(Bits(w, t - rlen)), hi, top);
    if carry {
      EvenShift(Two(Bits(w, rlen) - 1), hi);
    }
  }

  /** The bits kept: two more than the precision, whenever something was lost. */
  lemma KeptEnough(k: nat, lb: nat, rb: nat, h: nat, low: nat, c: nat, n: nat, s: nat, p: nat, total: nat)
    requires k == rb + lb && total == h * Two(lb) + low && low < Two(lb) && Two(k) <= total * Two(c + 1)
      && c + p + 2 <= rb
    requires Two(s) * Sticky(h, low) < Two(n)
    ensures p + 2 + s <= n
  {
    hide Two, Sticky;
    StickyAbove(h, low);
    TwoAdd(rb - c - 1, c + 1);
    TwoAdd(rb, lb);
    HighAtLeast(Two(rb - c - 1), Two(c + 1), Two(rb), Two(lb), Two(k), h, low, total);
    TwoMono(p + 1, rb - c - 1);
    TwoAdd(s, p + 1);
    MulMono(Two(p + 1), Sticky(h, low), Two(s));
    if n < p + 2 + s {
      TwoMono(n, s + p + 1);
    }
  }

  lemma StickyAbove(h: nat, low: nat)
    ensures h <= Sticky(h, low) && (h > 0 || low > 0 ==> Sticky(h, low) > 0)
  {
  }

  lemma HighAtLeast(g: nat, c: nat, r: nat, p: nat, k: nat, h: nat, low: nat, total: nat)
    requires r == g * c && k == r * p && total == h * p + low && low < p && k <= total * c && c > 0
    ensures h >= g
  {
    assert (g * p) * c == (g * c) * p;
    if h < g {
      MulMono(h + 1, g, p);
      Distrib(p, h, 1);
      MulStrict(total, g * p, c);
    }
  }

  /** The exact result in units of 2^unit: the sum of the operands. */
  ghost function Magnitude(w: nat, a: seq<nat>, ea: int, b: seq<nat>, eb: int, sub: bool, unit: int): real {
    var x, y := Units(Val(Base(w), a), ea - Bits(w, |a|) - unit), Units(Val(Base(w), b), eb - Bits(w, |b|) - unit);
    if sub then x - y else x + y
  }

  lemma MagnitudeIs(w: nat, a: seq<nat>, ea: int, b: seq<nat>, d: nat, sub: bool, k: nat, i: int, unit: int, total: nat)
    requires Bits(w, |a|) <= k && Bits(w, |b|) + d <= k && unit == ea - k - i
    requires total == Exact(sub, Lead(Val(Base(w), a), Bits(w, |a|), k), Lead(Val(Base(w), b), Bits(w, |b|) + d, k))
    ensures Magnitude(w, a, ea, b, ea - d, sub, unit) == Units(total, i)
  {
    hide Two, Units, Quot, Val, Base, Bits;
    var m, e, m', e' := Val(Base(w), a), Bits(w, |a|), Val(Base(w), b), Bits(w, |b|) + d;
    UnitsShift(m, i, k - e);
    UnitsShift(m', i, k - e');
    var x, y := Lead(m, e, k), Lead(m', e', k);
    if sub {
      UnitsSum(total, y, i);
    } else {
      UnitsSum(x, y, i);
    }
  }

  /** The result of an operation with the exact magnitude x, given in units of 2^unit: r is the rounded magnitude,
      e its exponent, n the number of bits of the normalised cut. */
  datatype Rounding = Rounding(unit: int, n: nat, r: nat, e: int, prec: int)

  ghost predicate Correct(f: Format, mode: Mode, negative: bool, x: real, g: Rounding, w: nat, kind: Kind, expn: int,
      s: seq<nat>, flags: Flags) {
    && HasBits(x, g.n) && g.prec == Effective(f, g.n, g.unit + g.n)
    && RoundedReal(mode, negative, x, g.n, g.prec, g.r) && (g.prec > 0 ==> IsExponent(g.r, g.unit, g.e))
    && Outcome(f, mode, negative, g.r as real != x, g.r, g.e, g.prec <= 0, g.unit, w, kind, expn, s, flags)
  }

  /** bf_normalize_and_round: the number tab 2^(expn - bits) is normalised, put into a new float and rounded. */
  method NormalizeAndRound(w: nat, tab: array<nat>, expn: int, sign: bool, f: Format, mode: Mode)
    returns (r: BigFloat, flags: Flags, ghost shift: nat, ghost g: Rounding)
    requires w > 0 && Digits(Base(w), tab[..]) && Val(Base(w), tab[..]) != 0 && (f.prec.Some? ==> f.prec.value > 0)
      && !f.radixPoint
    modifies tab
    ensures fresh(r) && r.w == w && r.sign == sign
    ensures g.unit == expn - Bits(w, tab.Length) - shift && g.prec == Effective(f, g.n, g.unit + g.n)
    ensures var v := Two(shift) * old(Val(Base(w), tab[..]));
      && v < Two(g.n) <= 2 * v && RoundedBits(mode, sign, v, g.n, g.prec, g.r)
      && (g.prec > 0 ==> IsExponent(g.r, g.unit, g.e))
      && Outcome(f, mode, sign, g.r != v, g.r, g.e, g.prec <= 0, g.unit, w, r.kind, r.expn, r.tab[..], flags)
  {
    hide *;
    ghost var v0, len := Val(Base(w), tab[..]), tab.Length;
    var l, s := Normalize(w, tab);
    shift := s;
    var t := new nat[l](i requires 0 <= i < l reads tab requires l <= tab.Length => tab[i]);
    assert t[..] == tab[..l];
    TopBitFacts(w, t[..]);
    var e0 := expn - Bits(w, tab.Length - l) - s;
    BitsAdd(w, l, tab.Length - l);
    r := new BigFloat(w, Finite, sign, e0, t);
    ghost var n := Bits(w, l);
    ghost var res, e;
    PositiveFits(f, mode, sign, e0);
    flags, res, e := r.Round(f, mode);
    g := Rounding(e0 - n, n, res, e, Effective(f, n, e0));
  }

  /** The sum or difference of the magnitudes of two finite numbers, the first not smaller (larger, for a
      difference). */
  method AddFinite(w: nat, a: seq<nat>, ea: int, b: seq<nat>, eb: int, sub: bool, sign: bool, f: Format, mode: Mode)
    returns (r: BigFloat, flags: Flags, ghost g: Rounding)
    requires w > 0 && TopBit(w, a) && TopBit(w, b) && ea >= eb && (f.prec.Some? ==> f.prec.value > 0) && !f.radixPoint
    requires sub ==> Larger(Val(Base(w), a), Bits(w, |a|), Val(Base(w), b), Bits(w, |b|) + (ea - eb))
    ensures fresh(r) && r.w == w && r.sign == sign
    ensures Correct(f, mode, sign, Magnitude(w, a, ea, b, eb, sub, g.unit), g, w, r.kind, r.expn, r.tab[..], flags)
  {
    hide *;
    TopBitFacts(w, a);
    TopBitFacts(w, b);
    var d := ea - eb;
    var t := GridSize(w, |a|, |b|, d);
    BitsLeq(w, |a|, t);
    var c := CancelledBits(w, a, b, d, sub, Bits(w, t));
    var rlen := ResultSize(w, t, c, f.prec);
    var tab, carry, h, low := CutSum(w, a, b, d, t, rlen, sub);
    ghost var total := Exact(sub, Lead(Val(Base(w), a), Bits(w, |a|), Bits(w, t)),
      Lead(Val(Base(w), b), Bits(w, |b|) + d, Bits(w, t)));
    var expn := if carry then ea + w else ea;
    BitsAdd(w, rlen, t - rlen);
    BitsAdd(w, rlen, 1);
    BitsOne(w);
    NonzeroCut(h, low, Two(Bits(w, t - rlen)), total);
    ghost var shift;
    r, flags, shift, g := NormalizeAndRound(w, tab, expn, sign, f, mode);
    ghost var lb: int := Bits(w, t - rlen);
    LossOnlyWhenCut(w, t, rlen, low);
    if low != 0 {
      KeptEnough(Bits(w, t), lb, Bits(w, rlen), h, low, c, g.n, shift, f.prec.value, total);
    }
    EffectiveBelow(f, g.n, g.unit + g.n);
    CutRounds(mode, sign, h, low, lb, shift, g.n, g.prec, g.r);
    CutBits(h, low, lb, shift, g.n);
    ghost var i: int := shift - lb;
    MagnitudeIs(w, a, ea, b, d, sub, Bits(w, t), i, g.unit, total);
    IsCorrect(f, mode, sign, Units(total, i), g, w, r.kind, r.expn, r.tab[..], flags,
      g.r != Two(shift) * Sticky(h, low));
  }

  lemma NonzeroCut(h: nat, low: nat, p: nat, total: nat)
    requires total == h * p + low && total > 0
    ensures Sticky(h, low) > 0
  {
    StickyAbove(h, low);
    MulZero(p, h);
  }

  lemma LossOnlyWhenCut(w: nat, t: nat, rlen: nat, low: nat)
    requires rlen <= t && low < Two(Bits(w, t - rlen))
    ensures low != 0 ==> rlen < t
  {
    BitsOne(w);
    TwoZero();
  }

  lemma EffectiveBelow(f: Format, n: nat, e: int)
    requires !f.radixPoint
    ensures f.prec.Some? ==> Effective(f, n, e) <= f.prec.value
  {
  }

  lemma IsCorrect(f: Format, mode: Mode, negative: bool, x: real, g: Rounding, w: nat, kind: Kind, expn: int,
      s: seq<nat>, flags: Flags, inexact: bool)
    requires HasBits(x, g.n) && g.prec == Effective(f, g.n, g.unit + g.n)
    requires RoundedReal(mode, negative, x, g.n, g.prec, g.r) && (g.prec > 0 ==> IsExponent(g.r, g.unit, g.e))
    requires Outcome(f, mode, negative, inexact, g.r, g.e, g.prec <= 0, g.unit, w, kind, expn, s, flags)
      && (inexact <==> g.r as real != x)
    ensures Correct(f, mode, negative, x, g, w, kind, expn, s, flags)
  {
    hide HasBits, RoundedReal, IsExponent, Outcome;
    assert inexact == (g.r as real != x);
  }

  // ---- bf_add_internal

  function Rank(k: Kind): nat {
    match k
    case Zero => 0
    case Finite => 1
    case Infinite => 2
    case NaN => 3
  }

  /** |a| > |b| for finite numbers. */
  ghost predicate Above(a: BigFloat, b: BigFloat)
    reads a, a.tab, b, b.tab
  {
    a.expn >= b.expn && Larger(Val(Base(a.w), a.tab[..]), Bits(a.w, a.tab.Length), Val(Base(b.w), b.tab[..]),
      Bits(b.w, b.tab.Length) + (a.expn - b.expn))
  }

  /** |a| = |b| for finite numbers. */
  ghost predicate SameMagnitude(a: BigFloat, b: BigFloat)
    reads a, a.tab, b, b.tab
  {
    a.expn == b.expn && Val(Base(a.w), a.tab[..]) * Two(Bits(b.w, b.tab.Length))
      == Val(Base(b.w), b.tab[..]) * Two(Bits(a.w, a.tab.Length))
  }

  /** bf_cmpu */
  method CmpMagnitude(a: BigFloat, b: BigFloat) returns (c: int)
    requires a.Valid() && b.Valid() && a.w == b.w
    ensures a.kind != Finite || b.kind != Finite ==>
      c == (if Rank(a.kind) < Rank(b.kind) then -1 else if Rank(a.kind) == Rank(b.kind) then 0 else 1)
    ensures a.kind == Finite && b.kind == Finite ==>
      (c > 0 ==> Above(a, b)) && (c < 0 ==> Above(b, a)) && (c == 0 ==> SameMagnitude(a, b))
  {
    hide Two, Bits, Val, Base, TopBit, Larger;
    if a.kind != Finite || b.kind != Finite {
      return if Rank(a.kind) < Rank(b.kind) then -1 else if Rank(a.kind) == Rank(b.kind) then 0 else 1;
    }
    TopBitFacts(a.w, a.tab[..]);
    TopBitFacts(b.w, b.tab[..]);
    if a.expn != b.expn {
      if a.expn < b.expn {
        ExponentLarger(b.w, b.tab[..], a.tab[..], b.expn - a.expn);
        return -1;
      }
      ExponentLarger(a.w, a.tab[..], b.tab[..], a.expn - b.expn);
      return 1;
    }
    c := CmpLimbs(a.w, a.tab[..], b.tab[..]);
  }

  /** What the sum of a and b, with the sign of b given, is. */
  ghost predicate IsSum(a: BigFloat, b: BigFloat, bSign: bool, f: Format, mode: Mode, g: Rounding, r: BigFloat,
      flags: Flags, invalid: bool)
    reads a, a.tab, b, b.tab, r, r.tab
  {
    var sub := a.sign != bSign;
    if a.kind == NaN || b.kind == NaN then r.kind == NaN && !invalid && flags == NoFlags()
    else if a.kind == Infinite && b.kind == Infinite && sub then r.kind == NaN && invalid && flags == NoFlags()
    else if a.kind == Infinite then r.kind == Infinite && r.sign == a.sign && !invalid && flags == NoFlags()
    else if b.kind == Infinite then r.kind == Infinite && r.sign == bSign && !invalid && flags == NoFlags()
    else if a.kind == Zero && b.kind == Zero then
      r.kind == Zero && r.sign == (if sub then mode == RNDD else a.sign) && !invalid && flags == NoFlags()
    else if b.kind == Zero then
      && !invalid && r.sign == a.sign
      && Correct(f, mode, a.sign, Alone(a, g.unit), g, a.w, r.kind, r.expn, r.tab[..], flags)
    else if a.kind == Zero then
      !invalid && r.sign == bSign && Correct(f, mode, bSign, Alone(b, g.unit), g, a.w, r.kind, r.expn, r.tab[..], flags)
    else if SameMagnitude(a, b) && sub then r.kind == Zero && r.sign == (mode == RNDD) && !invalid && flags == NoFlags()
    else if Above(b, a) then
      && !invalid && r.sign == bSign
      && Correct(f, mode, bSign, SumOf(b, a, sub, g.unit), g, a.w, r.kind, r.expn, r.tab[..], flags)
    else
      && !invalid && r.sign == a.sign
      && Correct(f, mode, a.sign, SumOf(a, b, sub, g.unit), g, a.w, r.kind, r.expn, r.tab[..], flags)
  }

  ghost function Alone(a: BigFloat, unit: int): real
    reads a, a.tab
  {
    Units(Val(Base(a.w), a.tab[..]), a.expn - Bits(a.w, a.tab.Length) - unit)
  }

  ghost function SumOf(a: BigFloat, b: BigFloat, sub: bool, unit: int): real
    reads a, a.tab, b, b.tab
  {
    Magnitude(a.w, a.tab[..], a.expn, b.tab[..], b.expn, sub, unit)
  }

  lemma OrderExclusive(a: BigFloat, b: BigFloat)
    ensures Above(a, b) ==> !Above(b, a) && !SameMagnitude(a, b) && !SameMagnitude(b, a)
    ensures SameMagnitude(a, b) <==> SameMagnitude(b, a)
  {
    hide Two, Bits, Val, Base;
  }

  /** bf_add_internal: the second operand takes the sign bSign */
  method AddInternal(a: BigFloat, b: BigFloat, bSign: bool, f: Format, mode: Mode)
    returns (r: BigFloat, flags: Flags, invalid: bool, ghost g: Rounding)
    requires a.Valid() && b.Valid() && a.w == b.w && (f.prec.Some? ==> f.prec.value > 0) && !f.radixPoint
    ensures fresh(r) && r.w == a.w && IsSum(a, b, bSign, f, mode, g, r, flags, invalid)
  {
    hide Two, Bits, Val, Base, TopBit, Larger, Correct, Above, SameMagnitude, Alone, SumOf, Magnitude;
    var w, sub := a.w, a.sign != bSign;
    var c := CmpMagnitude(a, b);
    OrderExclusive(a, b);
    OrderExclusive(b, a);
    flags, invalid, g := NoFlags(), false, Rounding(0, 0, 0, 0, 0);
    var x, y, xSign := a, b, a.sign;
    if c < 0 {
      x, y, xSign := b, a, bSign;
    }
    var none := new nat[0];
    if c == 0 && sub && x.kind != Infinite && x.kind != NaN {
      r := new BigFloat(w, Zero, mode == RNDD, 0, none);
    } else if x.kind != Finite || y.kind != Finite {
      if x.kind == NaN {
        r := new BigFloat(w, NaN, false, 0, none);
      } else if x.kind == Infinite {
        invalid := y.kind == Infinite && sub;
        r := new BigFloat(w, if invalid then NaN else Infinite, xSign, 0, none);
      } else if x.kind == Zero {
        r := new BigFloat(w, Zero, xSign, 0, none);
      } else {
        r, flags, g := RoundAlone(x, xSign, f, mode);
      }
    } else {
      r, flags, g := AddPair(x, y, sub, xSign, f, mode);
    }
  }

  /** A finite number and a zero: the number is copied and rounded. */
  method RoundAlone(x: BigFloat, sign: bool, f: Format, mode: Mode)
    returns (r: BigFloat, flags: Flags, ghost g: Rounding)
    requires x.Valid() && x.kind == Finite && (f.prec.Some? ==> f.prec.value > 0) && !f.radixPoint
    ensures fresh(r) && r.w == x.w && r.sign == sign
      && Correct(f, mode, sign, Alone(x, g.unit), g, x.w, r.kind, r.expn, r.tab[..], flags)
  {
    hide Two, Bits, Val, Base, TopBit, Correct, Units, Sticky, RoundedReal, Outcome, HasBits, Effective, RoundedBits,
      IsExponent, Digits;
    var w, s := x.w, x.tab[..];
    TopBitFacts(w, s);
    var tab := new nat[|s|](i requires 0 <= i < |s| => s[i]);
    assert tab[..] == s;
    ghost var v := Val(Base(w), s);
    TopNonzero(w, s);
    ghost var shift;
    r, flags, shift, g := NormalizeAndRound(w, tab, x.expn, sign, f, mode);
    StickyZeroIs(v);
    WholeUnits(v, shift);
    CutRounds(mode, sign, v, 0, 0, shift, g.n, g.prec, g.r);
    CutBits(v, 0, 0, shift, g.n);
    IsCorrect(f, mode, sign, Units(v, shift), g, w, r.kind, r.expn, r.tab[..], flags, g.r != Two(shift) * v);
  }

  lemma TopNonzero(w: nat, s: seq<nat>)
    requires TopBit(w, s)
    ensures Val(Base(w), s) != 0
  {
    hide Two, Val, Base;
    TwoPos(Bits(w, |s|));
  }

  lemma WholeUnits(v: nat, s: nat)
    ensures v * Two(0) + 0 == v && 0 < Two(0) && s - 0 == s
  {
    TwoZero();
  }

  /** Two finite numbers, the first not smaller. */
  method AddPair(x: BigFloat, y: BigFloat, sub: bool, sign: bool, f: Format, mode: Mode) returns (r: BigFloat,
      flags: Flags, ghost g: Rounding)
    requires x.Valid() && y.Valid() && x.kind == Finite && y.kind == Finite && x.w == y.w
    requires (f.prec.Some? ==> f.prec.value > 0) && !f.radixPoint
    requires Above(x, y) || (SameMagnitude(x, y) && !sub)
    ensures fresh(r) && r.w == x.w && r.sign == sign
    ensures Correct(f, mode, sign, SumOf(x, y, sub, g.unit), g, x.w, r.kind, r.expn, r.tab[..], flags)
  {
    hide Two, Bits, Val, Base, TopBit, Larger, Correct, Magnitude;
    r, flags, g := AddFinite(x.w, x.tab[..], x.expn, y.tab[..], y.expn, sub, sign, f, mode);
  }

  /** bf_add */
  method Add(a: BigFloat, b: BigFloat, f: Format, mode: Mode)
    returns (r: BigFloat, flags: Flags, invalid: bool, ghost g: Rounding)
    requires a.Valid() && b.Valid() && a.w == b.w && (f.prec.Some? ==> f.prec.value > 0) && !f.radixPoint
    ensures fresh(r) && r.w == a.w && IsSum(a, b, b.sign, f, mode, g, r, flags, invalid)
  {
    r, flags, invalid, g := AddInternal(a, b, b.sign, f, mode);
  }

  /** bf_sub */
  method Sub(a: BigFloat, b: BigFloat, f: Format, mode: Mode)
    returns (r: BigFloat, flags: Flags, invalid: bool, ghost g: Rounding)
    requires a.Valid() && b.Valid() && a.w == b.w && (f.prec.Some? ==> f.prec.value > 0) && !f.radixPoint
    ensures fresh(r) && r.w == a.w && IsSum(a, b, !b.sign, f, mode, g, r, flags, invalid)
  {
    r, flags, invalid, g := AddInternal(a, b, !b.sign, f, mode);
  }
}

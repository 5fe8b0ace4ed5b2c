/** Floating-point numbers with a mantissa of limbs, and their rounding with the exponent range. */
module BigFloat {
  import opened Limbs
  import opened LimbKernels
  import opened LimbUnary
  import opened RoundSpec
  import opened FloatBits
  import opened FloatRound

  datatype Kind = Zero | Finite | Infinite | NaN

  datatype Flags = Flags(inexact: bool, underflow: bool, overflow: bool)

  function NoFlags(): Flags {
    Flags(false, false, false)
  }

  /** The options of a rounding: precision (none when infinite) counted from the top bit or, with radixPoint, from
      the radix point; the exponent range; gradual underflow. */
  datatype Format = Format(prec: Option<nat>, radixPoint: bool, subnormal: bool, eMin: int, eMax: int)

  datatype Option<T> = None | Some(value: T)

  /** The number of bits to keep, of a number of n bits with exponent expn; any number of at least n stands for
      an infinite precision. */
  function Effective(f: Format, n: nat, expn: int): int {
    match f.prec
    case None => n
    case Some(p) => if f.radixPoint then expn + p else if expn < f.eMin && f.subnormal then p - (f.eMin - expn) else p
  }

  // ---- rounding below the top bit

  /** The rounding of a number of n bits, with its top bit set, to a multiple of 2^(n - prec) when prec is not
      positive: zero or one unit. */
  lemma SmallRounds(v: nat, n: nat, prec: int, mode: Mode, negative: bool, bit1: bool, bit0: bool)
    requires n > 0 && prec <= 0 && v < Two(n) <= 2 * v
    requires bit1 <==> prec == 0
    requires bit0 <==> (if prec < 0 then v != 0 else Rem(v, n - 1) != 0)
    ensures var u := Two(n - prec);
      IsRounded(mode, negative, v, u, if AddOne(mode, negative, bit1, bit0, false) then u else 0)
    ensures v != 0 && v < Two(n - prec)
  {
    hide Two, Rem, IsRounded, AddOne, Quot;
    TwoNext(n - 1);
    TwoNext(n - prec - 1);
    var half := Two(n - prec - 1);
    if prec == 0 {
      QuotRem(v, n - 1);
      TopBitQuot(v, n);
      AddOneCorrect(mode, negative, 0, half, true, Rem(v, n - 1));
    } else {
      TwoAdd(n, -prec - 1);
      MulMono(1, Two(-prec - 1), Two(n));
      AddOneCorrect(mode, negative, 0, half, false, v);
    }
    RoundedZero(mode, negative, 2 * half, bit1, bit0);
  }

  lemma TopBitQuot(v: nat, n: nat)
    requires n > 0 && v < Two(n) <= 2 * v
    ensures Quot(v, n - 1) == 1
  {
    hide Two, Quot, Rem;
    TwoNext(n - 1);
    QuotRem(v, n - 1);
    QuotIs(v, n - 1, 1, v - Two(n - 1));
  }

  lemma RoundedZero(mode: Mode, negative: bool, u: nat, bit1: bool, bit0: bool)
    ensures RoundedTo(mode, negative, 0, u, bit1, bit0) == if AddOne(mode, negative, bit1, bit0, false) then u else 0
  {
  }

  // ---- numbers

  /** The limbs s with exponent e have the value of the magnitude r in units of 2^unit. */
  ghost predicate Denotes(w: nat, s: seq<nat>, e: int, r: nat, unit: int) {
    e - Bits(w, |s|) >= unit && Val(Base(w), s) * Two(e - Bits(w, |s|) - unit) == r
  }

  /** r is the magnitude v of n bits, rounded to prec bits. */
  ghost predicate RoundedBits(mode: Mode, negative: bool, v: nat, n: nat, prec: int, r: nat) {
    if prec >= n then r == v else IsRounded(mode, negative, v, Two(n - prec), r)
  }

  /** Rounding toward infinity on overflow, by mode and sign: bf_set_overflow. */
  predicate ToInfinity(f: Format, mode: Mode, negative: bool) {
    f.prec == None || mode == RNDN || mode == RNDNA || mode == RNDA || (mode == RNDD && negative)
      || (mode == RNDU && !negative)
  }

  /** A result with exponent e becomes the largest finite number. */
  predicate BecomesLargest(f: Format, mode: Mode, negative: bool, e: int) {
    e > f.eMax && (e >= f.eMin || f.subnormal) && !ToInfinity(f, mode, negative)
  }

  /** Precision 0 from the radix point, and a number that becomes the largest finite number: it would have no limb, and
      bf_set_overflow writes its first limb all the same. */
  predicate OverflowsEmpty(f: Format, mode: Mode, negative: bool, expn: int) {
    f.prec == Some(0) && f.radixPoint && expn > 0 && BecomesLargest(f, mode, negative, expn)
  }

  lemma PositiveFits(f: Format, mode: Mode, negative: bool, expn: int)
    requires f.prec.Some? ==> f.prec.value > 0
    ensures !OverflowsEmpty(f, mode, negative, expn)
  {
  }

  /** The limbs of the largest finite number of prec bits. */
  function LargestSize(w: nat, prec: nat): nat
    requires w > 0
  {
    (prec + w - 1) / w
  }

  /** The modes that overflow to the largest finite number truncate, and a truncated number keeps its exponent. */
  lemma TruncationKeeps(f: Format, mode: Mode, negative: bool, v: nat, n: nat, prec: int, r: nat, expn: int, e: int)
    requires !ToInfinity(f, mode, negative) && prec > 0 && v < Two(n) <= 2 * v
    requires RoundedBits(mode, negative, v, n, prec, r) && IsExponent(r, expn - n, e)
    ensures e == expn
  {
    hide Two, IsMultiple;
    if n == 0 {
      TwoZero();
    } else {
      TwoNext(n - 1);
      if prec < n {
        TopKept(v, n, n - prec, r);
      }
      var d := e - (expn - n);
      if d > n {
        TwoMono(n, d - 1);
      }
      if d < n {
        TwoMono(d, n - 1);
      }
    }
  }

  lemma TopKept(v: nat, n: nat, j: nat, r: nat)
    requires 0 < j < n && v < Two(n) <= 2 * v && IsMultiple(r, Two(j)) && r <= v < r + Two(j)
    ensures Two(n - 1) <= r
  {
    hide Two;
    var u := Two(j);
    var q: nat :| r == q * u;
    TwoAdd(n - 1 - j, j);
    TwoNext(n - 1);
    if q < Two(n - 1 - j) {
      MulMono(q + 1, Two(n - 1 - j), u);
      Distrib(u, q, 1);
    }
  }

  /** The rounding stores into a number without limbs exactly when the options and the exponent say so beforehand. */
  lemma EmptyExactly(f: Format, mode: Mode, negative: bool, w: nat, v: nat, n: nat, expn: int, r: nat, e: int)
    requires w > 0 && v < Two(n) <= 2 * v && Effective(f, n, expn) > 0
    requires RoundedBits(mode, negative, v, n, Effective(f, n, expn), r) && IsExponent(r, expn - n, e)
    ensures BecomesLargest(f, mode, negative, e) && LargestSize(w, f.prec.value) == 0 <==>
      OverflowsEmpty(f, mode, negative, expn)
  {
    hide Two, RoundedBits, IsExponent;
    if !ToInfinity(f, mode, negative) {
      TruncationKeeps(f, mode, negative, v, n, Effective(f, n, expn), r, expn, e);
      if f.prec.value > 0 {
        LimbCount(w, f.prec.value);
      } else {
        assert LargestSize(w, 0) == 0;
      }
    }
  }

  /** At a finite precision a number overflows to infinity in exactly the modes that round up a number just below a
      multiple of the unit: never toward zero, and in the directed modes only on the side they point to. */
  lemma OverflowByMode(f: Format, mode: Mode, negative: bool)
    requires f.prec.Some?
    ensures ToInfinity(f, mode, negative) <==> IsRounded(mode, negative, 3, 4, 4)
    ensures mode == RNDZ || (mode == RNDD && !negative) || (mode == RNDU && negative) <==>
      !ToInfinity(f, mode, negative)
  {
    assert 4 == 1 * 4;
  }

  /** e is the exponent of the magnitude r in units of 2^unit: 2^(e - 1) <= r 2^unit < 2^e. */
  ghost predicate IsExponent(r: nat, unit: int, e: int) {
    e > unit && Two(e - 1 - unit) <= r < Two(e - unit)
  }

  /** The result of a rounding to the magnitude r with exponent e, inexact or not; small says that no bit was to be
      kept. */
  ghost predicate Outcome(f: Format, mode: Mode, negative: bool, inexact: bool, r: nat, e: int, small: bool, unit: int,
                          w: nat, kind: Kind, expn: int, s: seq<nat>, flags: Flags)
  {
    if small then
      && flags == Flags(true, true, false)
      && if r == 0 then kind == Zero else kind == Finite && IsNumber(w, s, expn, r, unit)
    else if e < f.eMin && !f.subnormal then
      flags == Flags(true, true, false) && kind == Zero
    else if e > f.eMax then
      && flags == Flags(true, false, true)
      && if ToInfinity(f, mode, negative) then kind == Infinite
         else kind == Finite && expn == f.eMax && AllOnes(w, s, f.prec.value)
    else
      && flags == Flags(inexact, e < f.eMin && inexact, false)
      && kind == Finite && expn == e && IsNumber(w, s, e, r, unit)
  }

  /** Canonical limbs for r: the top bit is set and the lowest limb is not zero. */
  ghost predicate IsNumber(w: nat, s: seq<nat>, e: int, r: nat, unit: int) {
    TopBit(w, s) && s[0] != 0 && Denotes(w, s, e, r, unit)
  }

  lemma OutcomeFlushed(f: Format, mode: Mode, negative: bool, inexact: bool, r: nat, e: int, unit: int, w: nat,
      expn: int, s: seq<nat>)
    requires e < f.eMin && !f.subnormal
    ensures Outcome(f, mode, negative, inexact, r, e, false, unit, w, Zero, expn, s, Flags(true, true, false))
  {
  }

  lemma OutcomeOver(f: Format, mode: Mode, negative: bool, inexact: bool, r: nat, e: int, unit: int, w: nat,
      kind: Kind, expn: int, s: seq<nat>)
    requires e > f.eMax && (e >= f.eMin || f.subnormal)
    requires if ToInfinity(f, mode, negative) then kind == Infinite
             else kind == Finite && expn == f.eMax && AllOnes(w, s, f.prec.value)
    ensures Outcome(f, mode, negative, inexact, r, e, false, unit, w, kind, expn, s, Flags(true, false, true))
  {
    hide AllOnes;
  }

  lemma OutcomeKept(f: Format, mode: Mode, negative: bool, inexact: bool, r: nat, e: int, unit: int, w: nat,
      s: seq<nat>)
    requires e <= f.eMax && (e >= f.eMin || f.subnormal) && TopBit(w, s) && |s| > 0 && s[0] != 0
      && Denotes(w, s, e, r, unit)
    ensures Outcome(f, mode, negative, inexact, r, e, false, unit, w, Finite, e, s,
      Flags(inexact, e < f.eMin && inexact, false))
  {
    hide TopBit, Denotes;
  }

  lemma ExponentOf(w: nat, s: seq<nat>, e: int, r: nat, unit: int)
    requires w > 0 && TopBit(w, s) && Denotes(w, s, e, r, unit)
    ensures IsExponent(r, unit, e)
  {
    hide Val, Two, Base, Bits, TopBit;
    TopBitFacts(w, s);
    BitsMono(w, 0, |s|);
    var n, v := Bits(w, |s|), Val(Base(w), s);
    var d := e - n - unit;
    TwoAdd(n, d);
    TwoNext(n + d - 1);
    TwoNext(n - 1);
    TwoAdd(n - 1, d);
    MulStrict(v, Two(n), Two(d));
    MulMono(Two(n - 1), v, Two(d));
  }

  lemma DenotesScaled(w: nat, s: seq<nat>, l: nat, carry: bool, e: int)
    requires |s| <= l
    ensures Denotes(w, s, if carry then e + 1 else e, Scaled(w, s, l, carry), e - Bits(w, l))
  {
    hide Val, Two, Base, Bits;
    BitsAdd(w, |s|, l - |s|);
    var d, v := Bits(w, l - |s|), Val(Base(w), s);
    if carry {
      TwoNext(d);
      assert v * (2 * Two(d)) == 2 * (v * Two(d));
    }
  }

  class BigFloat {
    const w: nat
    var kind: Kind
    var sign: bool
    var expn: int
    var tab: array<nat>

    constructor (w: nat, kind: Kind, sign: bool, expn: int, tab: array<nat>)
      requires w > 0 && (kind == Finite ==> TopBit(w, tab[..]))
      ensures Valid() && this.w == w && this.kind == kind && this.sign == sign && this.expn == expn && this.tab == tab
    {
      this.w, this.kind, this.sign, this.expn, this.tab := w, kind, sign, expn, tab;
    }

    ghost predicate Valid()
      reads this, tab
    {
      w > 0 && (kind == Finite ==> TopBit(w, tab[..]))
    }

    /** Canonical: also no zero limb at the bottom. */
    ghost predicate Canonical()
      reads this, tab
    {
      w > 0 && (kind == Finite ==> TopBit(w, tab[..]) && tab[0] != 0)
    }

    /** bf_resize to a shorter length */
    method Resize(len: nat)
      requires 0 < len <= tab.Length
      modifies this`tab
      ensures fresh(tab) && tab[..] == old(tab[..len])
    {
      var s := tab[..len];
      var t := new nat[len](i requires 0 <= i < len => s[i]);
      tab := t;
      assert tab[..] == s;
    }

    /** __bf_round for a precision of at most 0: nothing is left, or one unit. */
    method RoundSmall(prec: int, mode: Mode) returns (flags: Flags, ghost r: nat)
      requires Valid() && kind == Finite && prec <= 0
      modifies this
      ensures Canonical() && sign == old(sign) && flags == Flags(true, true, false)
      ensures var n := Bits(w, old(tab.Length)); var v := old(Val(Base(w), tab[..]));
        && IsRounded(mode, sign, v, Two(n - prec), r) && r != v
        && (if r == 0 then kind == Zero
            else kind == Finite && fresh(tab) && IsNumber(w, tab[..], expn, r, old(expn) - n))
    {
      hide Val, Two, Base, Bits, Quot, Rem, IsRounded, AddOne, BitSet;
      var n := Bits(w, tab.Length);
      ghost var v, s := Val(Base(w), tab[..]), tab[..];
      TopBitFacts(w, s);
      BitsMono(w, 0, |s|);
      var bit0 := ScanBitNz(w, tab[..], n - 1 - (if prec + 1 > 0 then prec + 1 else 0));
      var bit1 := GetBit(w, tab[..], n - 1 - prec);
      var odd := GetBit(w, tab[..], n - 1 - (prec - 1));
      SmallBits(v, n, prec);
      SmallRounds(v, n, prec, mode, sign, bit1, bit0);
      var add := AddOne(mode, sign, bit1, bit0, odd);
      flags := Flags(true, true, false);
      if add {
        r := Two(n - prec);
        var t := new nat[1];
        t[0] := Two(w - 1);
        tab, expn := t, expn + 1 - prec;
        assert tab[..] == [Two(w - 1)];
        OneLimb(w, expn, old(expn), n, prec);
      } else {
        kind, r := Zero, 0;
      }
    }

    /** bf_set_overflow: infinity, or the largest finite number */
    method SetOverflow(f: Format, mode: Mode) returns (flags: Flags)
      requires w > 0 && (f.prec == Some(0) ==> ToInfinity(f, mode, sign))
      modifies this
      ensures sign == old(sign) && flags == Flags(true, false, true)
      ensures if ToInfinity(f, mode, sign) then kind == Infinite
              else kind == Finite && expn == f.eMax && fresh(tab) && AllOnes(w, tab[..], f.prec.value)
    {
      flags := Flags(true, false, true);
      if ToInfinity(f, mode, sign) {
        kind := Infinite;
      } else {
        var prec := f.prec.value;
        var l := LargestSize(w, prec);
        LimbCount(w, prec);
        UnitBelow(w, Bits(w, l) - prec);
        var t := new nat[l](_ => Base(w) - 1);
        t[0] := Base(w) - Two(Bits(w, l) - prec);
        OnesValue(w, t[..], prec);
        kind, tab, expn := Finite, t, f.eMax;
      }
    }

    /** __bf_round for a positive precision */
    method RoundKept(f: Format, mode: Mode, prec: nat) returns (flags: Flags, ghost r: nat, ghost e: int)
      requires Valid() && kind == Finite && !OverflowsEmpty(f, mode, sign, expn) && prec > 0
      requires prec == Effective(f, Bits(w, tab.Length), expn)
      modifies this, tab
      ensures sign == old(sign)
      ensures var n := Bits(w, old(tab.Length)); var v := old(Val(Base(w), tab[..]));
        && RoundedBits(mode, sign, v, n, prec, r) && IsExponent(r, old(expn) - n, e)
        && Outcome(f, mode, sign, r != v, r, e, false, old(expn) - n, w, kind, expn, tab[..], flags)
    {
      hide Val, Two, Base, Bits, Quot, Rem, IsRounded, TopBit, Denotes, Scaled, IsExponent, AllOnes, BecomesLargest,
        OverflowsEmpty, Effective, Outcome, ToInfinity;
      ghost var v, e0, n := Val(Base(w), tab[..]), expn, Bits(w, tab.Length);
      ghost var s := tab[..];
      var l := tab.Length;
      var len, carry, inexact := RoundLimbs(w, tab, prec, mode, sign);
      r := Scaled(w, tab[..len], l, carry);
      e := if carry then expn + 1 else expn;
      DenotesScaled(w, tab[..len], l, carry, e0);
      ExponentOf(w, tab[..len], e, r, e0 - n);
      if carry {
        expn := expn + 1;
      }
      flags := Flags(inexact, false, false);
      if expn < f.eMin && !f.subnormal {
        flags := Flags(true, true, false);
        kind := Zero;
        OutcomeFlushed(f, mode, sign, r != v, r, e, e0 - n, w, expn, tab[..]);
        return;
      }
      if expn > f.eMax {
        CanOverflow(f, mode, sign, w, s, e0, prec, r, e);
        flags := SetOverflow(f, mode);
        OutcomeOver(f, mode, sign, r != v, r, e, e0 - n, w, kind, expn, tab[..]);
        return;
      }
      if expn < f.eMin && inexact {
        flags := flags.(underflow := true);
      }
      Resize(len);
      assert tab[..][0] == tab[0];
      OutcomeKept(f, mode, sign, inexact, r, e, e0 - n, w, tab[..]);
    }

    /** __bf_round: r is the rounded magnitude in units of the last bit of the mantissa, e its exponent */
    method Round(f: Format, mode: Mode) returns (flags: Flags, ghost r: nat, ghost e: int)
      requires Valid() && kind == Finite && !OverflowsEmpty(f, mode, sign, expn)
      modifies this, tab
      ensures sign == old(sign)
      ensures var n := Bits(w, old(tab.Length)); var v := old(Val(Base(w), tab[..]));
        var prec := Effective(f, n, old(expn));
        && RoundedBits(mode, sign, v, n, prec, r) && (prec > 0 ==> IsExponent(r, old(expn) - n, e))
        && Outcome(f, mode, sign, r != v, r, e, prec <= 0, old(expn) - n, w, kind, expn, tab[..], flags)
    {
      hide Val, Two, Base, Bits, Quot, Rem, IsRounded, TopBit, Denotes, Scaled, IsExponent, AllOnes;
      ghost var s := tab[..];
      var n := Bits(w, tab.Length);
      TopBitFacts(w, s);
      var prec := Effective(f, n, expn);
      if prec <= 0 {
        flags, r := RoundSmall(prec, mode);
        e := 0;
        NotAtLeast(w, s, prec);
        return;
      }
      flags, r, e := RoundKept(f, mode, prec);
    }
  }

  /** The largest number of prec bits, in limbs: ones from the top. */
  ghost predicate AllOnes(w: nat, s: seq<nat>, prec: nat) {
    && s != [] && Bits(w, |s|) - w < prec <= Bits(w, |s|) && Digits(Base(w), s)
    && Val(Base(w), s) == Two(Bits(w, |s|)) - Two(Bits(w, |s|) - prec)
  }

  /** Outside the excluded case a number that becomes the largest finite number has a limb. */
  lemma CanOverflow(f: Format, mode: Mode, negative: bool, w: nat, s: seq<nat>, expn: int, prec: int, r: nat, e: int)
    requires w > 0 && TopBit(w, s) && prec > 0 && prec == Effective(f, Bits(w, |s|), expn)
    requires RoundedBits(mode, negative, Val(Base(w), s), Bits(w, |s|), prec, r)
      && IsExponent(r, expn - Bits(w, |s|), e)
    requires e > f.eMax && (e >= f.eMin || f.subnormal) && !OverflowsEmpty(f, mode, negative, expn)
    ensures f.prec == Some(0) ==> ToInfinity(f, mode, negative)
  {
    hide Two, Val, Base, Bits, TopBit, RoundedBits, IsExponent;
    TopBitFacts(w, s);
    EmptyExactly(f, mode, negative, w, Val(Base(w), s), Bits(w, |s|), expn, r, e);
  }

  lemma LimbCount(w: nat, prec: nat)
    requires w > 0 && prec > 0
    ensures var l := LargestSize(w, prec); l > 0 && Bits(w, l) - w < prec <= Bits(w, l)
  {
    var l := LargestSize(w, prec);
    assert prec + w - 1 == w * l + (prec + w - 1) % w;
    MulZero(w, l);
  }

  lemma {:induction false} OnesAbove(b: nat, s: seq<nat>)
    requires b > 0 && forall i :: 0 <= i < |s| ==> s[i] == b - 1
    ensures Val(b, s) == Pow(b, |s|) - 1
  {
    if s != [] {
      OnesAbove(b, s[1..]);
      Distrib(b, Pow(b, |s| - 1), 1);
    }
  }

  lemma OnesValue(w: nat, s: seq<nat>, prec: nat)
    requires w > 0 && s != [] && Bits(w, |s|) - w < prec <= Bits(w, |s|)
    requires forall i :: 0 < i < |s| ==> s[i] == Base(w) - 1
    requires s[0] == Base(w) - Two(Bits(w, |s|) - prec)
    ensures AllOnes(w, s, prec)
  {
    hide Two, Base, Bits, Val, Pow;
    var b, l, j := Base(w), |s|, Bits(w, |s|) - prec;
    UnitBelow(w, j);
    OnesAbove(b, s[1..]);
    ValCons(b, s);
    PowNext(b, l - 1);
    Distrib(b, Pow(b, l - 1), 1);
    BasePow(w, l);
  }

  lemma NotAtLeast(w: nat, s: seq<nat>, prec: int)
    requires w > 0 && s != [] && prec <= 0
    ensures prec < Bits(w, |s|)
  {
    BitsMono(w, 0, |s|);
  }

  /** The bits that decide below the top bit. */
  lemma SmallBits(v: nat, n: nat, prec: int)
    requires n > 0 && prec <= 0 && v < Two(n) <= 2 * v
    ensures prec == 0 ==> BitSet(v, n - 1)
    ensures Rem(v, n) == v && (n == 1 ==> Rem(v, n - 1) == 0)
  {
    hide Two, Rem, Quot;
    TopBitQuot(v, n);
    QuotIs(v, n, 0, v);
    TwoZero();
    QuotRem(v, n - 1);
  }

  /** A limb with its top bit set alone. */
  lemma OneLimb(w: nat, e: int, e0: int, n: nat, prec: int)
    requires w > 0 && prec <= 0 && w <= n && e == e0 + 1 - prec
    ensures TopBit(w, [Two(w - 1)]) && Denotes(w, [Two(w - 1)], e, Two(n - prec), e0 - n) && Two(w - 1) > 0
  {
    hide Two;
    ValOne(Base(w), Two(w - 1));
    UnitBelow(w, w - 1);
    BaseIs(w);
    TwoNext(w - 1);
    TwoAdd(w - 1, n + 1 - prec - w);
  }
}

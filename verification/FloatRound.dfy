/** __bf_round on the limbs of a mantissa, in place. */
module FloatRound {
  import opened Limbs
  import opened LimbKernels
  import opened LimbUnary
  import opened LimbDivnorm
  import opened RoundSpec
  import opened FloatBits

  lemma MulZero(x: int, v: int)
    ensures v == 0 ==> x * v == 0
  {
  }

  lemma TimesBit(x: int, c: nat)
    requires c <= 1
    ensures x * c == if c != 0 then x else 0
  {
  }

  // ---- dropping the low bits

  /** Limb pos without its low bits and the limbs above it: the number without its k low bits. */
  lemma MaskedValue(w: nat, s: seq<nat>, pos: nat, j: nat, s': seq<nat>)
    requires pos < |s| && j < w && Digits(Base(w), s) && s' == s[pos := Two(j) * Quot(s[pos], j)]
    ensures Two(Bits(w, pos)) * Val(Base(w), s'[pos..])
      == Two(Bits(w, pos) + j) * Quot(Val(Base(w), s), Bits(w, pos) + j)
    ensures s'[pos] <= s[pos]
  {
    hide Val, Two, Base, Quot, Rem, Bits;
    var b, x, hi := Base(w), Quot(s[pos], j), Val(Base(w), s[pos + 1..]);
    CutAt(w, s, pos, j);
    assert s'[pos..][0] == s'[pos] && s'[pos..][1..] == s[pos + 1..];
    ValCons(b, s'[pos..]);
    QuotRem(s[pos], j);
    BaseIs(w);
    TwoAdd(j, w - j);
    TwoAdd(Bits(w, pos), j);
    MaskArith(Two(Bits(w, pos)), Two(j), Two(w - j), x, hi);
  }

  lemma MaskArith(t: nat, p: nat, e: nat, x: nat, hi: nat)
    ensures t * (p * x + (p * e) * hi) == (t * p) * (x + e * hi)
  {
    Assoc(p, e, hi);
    Distrib(p, x, e * hi);
    Assoc(t, p, x + e * hi);
  }

  /** The limbs from pos on, less the zero limbs at the bottom, moved down: the trailing part of __bf_round. */
  method DropZeros(b: nat, a: array<nat>, pos: nat) returns (len: nat)
    requires b > 0 && pos < a.Length && Digits(b, a[..]) && Val(b, a[pos..]) != 0
    modifies a
    ensures 0 < len <= a.Length - pos && Digits(b, a[..]) && a[0] != 0
    ensures Val(b, a[..len]) * Pow(b, a.Length - pos - len) == old(Val(b, a[pos..]))
  {
    hide Val, Pow, SameOutside, Bits;
    ghost var s := a[..];
    var l := a.Length;
    var i := pos;
    assert s[pos..] == a[pos..];
    ZeroPrefix(b, s, pos, pos);
    while a[i] == 0
      invariant pos <= i < l && a[..] == s
      invariant Val(b, s[i..]) * Pow(b, i - pos) == Val(b, s[pos..]) && Val(b, s[i..]) != 0
      decreases l - i
    {
      ZeroLimb(b, s, pos, i);
      i := i + 1;
    }
    len := l - i;
    if i > 0 {
      CopyLimbs(b, a, 0, a[i..]);
      assert a[0..0 + len] == s[i..];
    }
    assert a[..len] == s[i..];
    assert a[0] == a[..len][0];
  }

  lemma ZeroPrefix(b: nat, s: seq<nat>, pos: nat, i: nat)
    requires pos <= i <= |s| && i == pos
    ensures Val(b, s[i..]) * Pow(b, i - pos) == Val(b, s[pos..])
  {
  }

  lemma ZeroLimb(b: nat, s: seq<nat>, pos: nat, i: nat)
    requires pos <= i < |s| && s[i] == 0 && Val(b, s[i..]) * Pow(b, i - pos) == Val(b, s[pos..]) && Val(b, s[i..]) != 0
    ensures i + 1 < |s| && Val(b, s[i + 1..]) * Pow(b, i + 1 - pos) == Val(b, s[pos..]) && Val(b, s[i + 1..]) != 0
  {
    hide Val, Pow, Bits;
    assert s[i..][1..] == s[i + 1..];
    ValCons(b, s[i..]);
    PowNext(b, i - pos);
    var v := Val(b, s[i + 1..]);
    MulZero(b, v);
    if i + 1 == |s| {
      ValZeros(b, s[i + 1..]);
    }
    assert (b * v) * Pow(b, i - pos) == v * (b * Pow(b, i - pos)) by { Assoc(v, b, Pow(b, i - pos)); }
  }

  /** The bits from k on are kept, the number is shortened: the last part of __bf_round. */
  method KeepBits(w: nat, a: array<nat>, k: int) returns (len: nat)
    requires w > 0 && a.Length > 0 && Digits(Base(w), a[..]) && k < Bits(w, a.Length)
    requires Quot(Val(Base(w), a[..]), if k < 0 then 0 else k) != 0
    modifies a
    ensures 0 < len <= a.Length && Digits(Base(w), a[..]) && a[0] != 0
    ensures var k0 := if k < 0 then 0 else k;
      Val(Base(w), a[..len]) * Two(Bits(w, a.Length - len)) == Two(k0) * Quot(old(Val(Base(w), a[..])), k0)
  {
    hide Val, Two, Base, Quot, Rem, Bits;
    ghost var s, b := a[..], Base(w);
    var l := a.Length;
    var pos := 0;
    if k >= 0 {
      pos := k / w;
      var shift := k % w;
      Position(w, l, k);
      a[pos] := Two(shift) * Quot(a[pos], shift);
      MaskedValue(w, s, pos, shift, a[..]);
      MaskedNonzero(w, pos, Val(b, a[..][pos..]), k, Val(b, s));
    } else {
      WholeValue(w, s);
      assert a[..][0..] == s;
    }
    assert a[..][pos..] == a[pos..];
    ghost var kept := Val(b, a[pos..]);
    len := DropZeros(Base(w), a, pos);
    KeptScale(w, l, pos, len, Val(b, a[..len]), kept);
  }

  lemma MaskedNonzero(w: nat, pos: nat, v: nat, k: nat, n: nat)
    requires Two(Bits(w, pos)) * v == Two(k) * Quot(n, k) && Quot(n, k) != 0
    ensures v != 0
  {
    hide Two, Quot, Bits;
    MulPositive(Two(k), Quot(n, k));
    MulZero(Two(Bits(w, pos)), v);
  }

  lemma WholeValue(w: nat, s: seq<nat>)
    ensures Two(Bits(w, 0)) == 1 && Two(0) * Quot(Val(Base(w), s), 0) == Val(Base(w), s)
  {
    TwoZero();
  }

  lemma KeptScale(w: nat, l: nat, pos: nat, len: nat, v: nat, kept: nat)
    requires pos + len <= l && v * Pow(Base(w), l - pos - len) == kept
    ensures v * Two(Bits(w, l - len)) == Two(Bits(w, pos)) * kept
  {
    hide Two, Base, Pow, Bits;
    BasePow(w, l - pos - len);
    BitsAdd(w, l - pos - len, pos);
    TwoAdd(Bits(w, l - pos - len), Bits(w, pos));
    Assoc(v, Two(Bits(w, l - pos - len)), Two(Bits(w, pos)));
  }

  // ---- adding one unit

  /** v is lo plus p times hi */
  ghost predicate Sum(v: int, lo: int, p: int, hi: int) {
    v == lo + p * hi
  }

  /** The limbs from pos on gain 2^j: the number gains 2^k. */
  lemma UnitAdded(w: nat, s: seq<nat>, t: seq<nat>, pos: nat, j: nat, carry: bool)
    requires pos <= |s| == |t| && Val(Base(w), s[..pos]) == Val(Base(w), t[..pos])
    requires Val(Base(w), t[pos..]) + (if carry then Pow(Base(w), |s| - pos) else 0) == Val(Base(w), s[pos..]) + Two(j)
    ensures Val(Base(w), t) + (if carry then Two(Bits(w, |s|)) else 0) == Val(Base(w), s) + Two(Bits(w, pos) + j)
  {
    hide *;
    var p := Two(Bits(w, pos));
    HighSplit(w, s, pos);
    HighSplit(w, t, pos);
    UnitScale(Bits(w, pos), j);
    UnitArith(Val(Base(w), s), Val(Base(w), t), Val(Base(w), s[..pos]), p, Two(Bits(w, |s|)), Pow(Base(w), |s| - pos),
      Val(Base(w), s[pos..]), Val(Base(w), t[pos..]), Two(j), Two(Bits(w, pos) + j), carry);
  }

  lemma UnitScale(e: nat, j: nat)
    ensures Sum(Two(e + j), 0, Two(e), Two(j))
  {
    TwoAdd(e, j);
  }

  lemma UnitArith(v: int, v': int, lo: int, p: int, pe: int, e: int, x: int, y: int, u: int, pu: int, c: bool)
    requires Sum(v, lo, p, x) && Sum(v', lo, p, y) && Sum(pe, 0, p, e) && Sum(pu, 0, p, u)
      && y + (if c then e else 0) == x + u
    ensures v' + (if c then pe else 0) == v + pu
  {
    Distrib(p, y, if c then e else 0);
    Distrib(p, x, u);
  }

  /** A number cut at limb pos. */
  lemma HighSplit(w: nat, s: seq<nat>, pos: nat)
    requires pos <= |s|
    ensures Sum(Val(Base(w), s), Val(Base(w), s[..pos]), Two(Bits(w, pos)), Val(Base(w), s[pos..]))
    ensures Pow(Base(w), |s| - pos) == Two(Bits(w, |s| - pos))
    ensures Sum(Two(Bits(w, |s|)), 0, Two(Bits(w, pos)), Pow(Base(w), |s| - pos))
    ensures Digits(Base(w), s) ==> Val(Base(w), s[..pos]) < Two(Bits(w, pos))
  {
    hide Val, Pow, Two, Base, Bits;
    ValSplit(Base(w), s, pos);
    BasePow(w, pos);
    BasePow(w, |s| - pos);
    TwoSplit(w, pos, |s| - pos);
    if Digits(Base(w), s) {
      ValBound(Base(w), s[..pos]);
    }
  }

  lemma TwoSplit(w: nat, m: nat, n: nat)
    ensures Two(Bits(w, m + n)) == Two(Bits(w, m)) * Two(Bits(w, n))
  {
    hide Two, Bits;
    BitsAdd(w, m, n);
    TwoAdd(Bits(w, m), Bits(w, n));
  }

  /** After a carry out of the top the number below is small, and shifting a one in makes it the power of two
      below, plus something that is dropped. */
  lemma CarriedOut(w: nat, t: seq<nat>, u: seq<nat>, pos: nat, j: nat, bit: nat)
    requires w > 0 && pos < |t| == |u| && j < w && Digits(Base(w), t)
      && Val(Base(w), t[..pos]) == Val(Base(w), u[..pos])
    requires Val(Base(w), t) < Two(Bits(w, pos) + j) && bit <= 1
    requires Val(Base(w), u[pos..]) * 2 + bit == Val(Base(w), t[pos..]) + Pow(Base(w), |t| - pos)
    ensures Bits(w, |t|) >= Bits(w, pos) + j + 1
      && Quot(Val(Base(w), u), Bits(w, pos) + j) == Two(Bits(w, |t|) - 1 - (Bits(w, pos) + j))
  {
    hide *;
    var b, k, m := Base(w), Bits(w, pos) + j, Bits(w, |t| - pos);
    BitsMono(w, 0, |t| - pos);
    BitsAdd(w, pos, |t| - pos);
    HighSplit(w, t, pos);
    HighSplit(w, u, pos);
    CarriedParts(Bits(w, pos), j, m, Val(b, t[pos..]), Val(b, u[pos..]), Val(b, t[..pos]), bit, Val(b, t), Val(b, u));
  }

  lemma CarriedParts(e: nat, j: nat, m: nat, part: nat, part': nat, lo: nat, bit: nat, v: nat, v': nat)
    requires j < m && lo < Two(e) && v < Two(e + j) && bit <= 1 && part' * 2 + bit == part + Two(m)
    requires Sum(v, lo, Two(e), part) && Sum(v', lo, Two(e), part')
    ensures Quot(v', e + j) == Two(e + m - 1 - (e + j))
  {
    hide Two, Quot;
    TwoAdd(e, j);
    TwoNext(m - 1);
    TwoAdd(e, m - 1);
    TwoAdd(e + j, e + m - 1 - (e + j));
    var half := Two(m - 1);
    PartSmall(Two(e), Two(j), part, lo);
    var x := part' - half;
    Distrib(Two(e), half, x);
    DroppedSmall(Two(e), Two(j), x, lo);
    QuotIs(v', e + j, Two(e + m - 1 - (e + j)), lo + Two(e) * x);
  }

  lemma PartSmall(p: nat, e: nat, part: nat, lo: nat)
    requires lo + p * part < p * e
    ensures part < e
  {
    if part >= e {
      MulMono(e, part, p);
    }
  }

  lemma DroppedSmall(p: nat, e: nat, x: int, lo: nat)
    requires lo < p && 0 <= x < e
    ensures 0 <= lo + p * x < p * e
  {
    MulMono(x, e - 1, p);
    MulMono(0, x, p);
    Distrib(p, e, 1);
  }

  /** One unit 2^k is added; when that carries out of the top the number is halved. */
  method AddUnit(w: nat, a: array<nat>, k: nat) returns (carry: bool)
    requires w > 0 && Digits(Base(w), a[..]) && k < Bits(w, a.Length)
    modifies a
    ensures Digits(Base(w), a[..])
    ensures carry <==> old(Val(Base(w), a[..])) + Two(k) >= Two(Bits(w, a.Length))
    ensures Quot(Val(Base(w), a[..]), k) == if carry then Two(Bits(w, a.Length) - 1 - k)
      else Quot(old(Val(Base(w), a[..])), k) + 1
  {
    hide Val, Pow, Two, Base, Quot, Rem, SameOutside, Bits;
    var l, b := a.Length, Base(w);
    var pos, j := k / w, k % w;
    Position(w, l, k);
    ghost var s := a[..];
    UnitBelow(w, j);
    assert s[pos..] == a[pos..l];
    var c := MpAddUi(b, a, pos, Two(j), l - pos);
    ghost var t := a[..];
    PrefixKept(s, t, pos, l);
    assert t[pos..] == a[pos..l];
    carry := c != 0;
    TimesBit(Pow(b, l - pos), c);
    UnitAdded(w, s, t, pos, j, carry);
    CarryOut(w, s, t, k, carry);
    if carry {
      BaseEven(w);
      var bit := MpShr(2, Two(w - 1), a, pos, l - pos, 1);
      ghost var u := a[..];
      PrefixKept(t, u, pos, l);
      assert u[pos..] == a[pos..l];
      CarriedOut(w, t, u, pos, j, bit);
    }
  }

  lemma UnitBelow(w: nat, j: nat)
    requires j < w
    ensures Two(j) < Base(w)
  {
    hide Two, Bits;
    BaseIs(w);
    TwoAdd(j, w - j);
    TwoNext(w - j - 1);
    MulMono(2, Two(w - j), Two(j));
  }

  lemma BaseEven(w: nat)
    requires w > 0
    ensures Base(w) == 2 * Two(w - 1)
  {
    TwoNext(w - 1);
  }

  lemma PrefixKept(s: seq<nat>, t: seq<nat>, lo: nat, hi: nat)
    requires SameOutside(s, t, lo, hi)
    ensures |s| == |t| && s[..lo] == t[..lo]
  {
  }

  /** A carry means that the sum reaches the power of the base; without one the quotient grows by one. */
  lemma CarryOut(w: nat, s: seq<nat>, t: seq<nat>, k: nat, c: bool)
    requires |s| == |t| && Digits(Base(w), s) && Digits(Base(w), t)
    requires Val(Base(w), t) + (if c then Two(Bits(w, |s|)) else 0) == Val(Base(w), s) + Two(k)
    ensures c <==> Val(Base(w), s) + Two(k) >= Two(Bits(w, |s|))
    ensures c ==> Val(Base(w), t) < Two(k)
    ensures !c ==> Quot(Val(Base(w), t), k) == Quot(Val(Base(w), s), k) + 1
  {
    hide Val, Two, Base, Quot, Rem, Bits;
    ValBound(Base(w), s);
    ValBound(Base(w), t);
    BasePow(w, |s|);
    if !c {
      QuotRem(Val(Base(w), s), k);
      Distrib(Two(k), Quot(Val(Base(w), s), k), 1);
      QuotIs(Val(Base(w), t), k, Quot(Val(Base(w), s), k) + 1, Rem(Val(Base(w), s), k));
    }
  }

  // ---- the whole rounding

  /** A number with its top bit set keeps at least that bit. */
  lemma TopKept(v: nat, n: nat, k: nat)
    requires k < n && Two(n) <= 2 * v
    ensures Two(n - 1 - k) <= Quot(v, k) && Two(k) * Two(n - 1 - k) == Two(n - 1) && Two(n) == 2 * Two(n - 1)
  {
    hide Two, Quot, Rem;
    TwoNext(n - 1);
    TwoAdd(k, n - 1 - k);
    QuotRem(v, k);
    var p, q, e := Two(k), Quot(v, k), Two(n - 1 - k);
    if q < e {
      MulMono(q + 1, e, p);
      Distrib(p, q, 1);
    }
  }

  /** When adding the unit carries out, the rounded number is the power of two. */
  lemma FullCarry(v: nat, n: nat, k: nat)
    requires k <= n && v < Two(n) && v + Two(k) >= Two(n)
    ensures Kept(v, k, true) == Two(n)
  {
    hide Two, Quot, Rem;
    TwoAdd(k, n - k);
    QuotRem(v, k);
    var p, q, e := Two(k), Quot(v, k), Two(n - k);
    if q >= e {
      MulMono(e, q, p);
    }
    if q + 2 <= e {
      MulMono(q + 2, e, p);
      Distrib(p, q, 2);
    }
  }

  /** Normalised limbs: the top bit is set. */
  ghost predicate TopBit(w: nat, s: seq<nat>) {
    s != [] && Digits(Base(w), s) && Two(Bits(w, |s|)) <= 2 * Val(Base(w), s)
  }

  lemma TopBitShort(w: nat, l: nat, len: nat, v: nat)
    requires len <= l && Two(Bits(w, l)) <= 2 * (v * Two(Bits(w, l - len)))
    ensures Two(Bits(w, len)) <= 2 * v
  {
    hide Two, Bits;
    TwoSplit(w, len, l - len);
    var p, e := Two(Bits(w, len)), Two(Bits(w, l - len));
    if 2 * v < p {
      MulStrict(2 * v, p, e);
      Assoc(2, v, e);
    }
  }

  /** The rounded magnitude at the scale of a number of l limbs, from the limbs left and the carry. */
  function Scaled(w: nat, s: seq<nat>, l: nat, carry: bool): nat
    requires |s| <= l
  {
    (if carry then 2 else 1) * (Val(Base(w), s) * Two(Bits(w, l - |s|)))
  }

  /** __bf_round on the mantissa, for a positive precision: the limbs are shortened to the returned length; carry
      says that the exponent grows by one. */
  method RoundLimbs(w: nat, a: array<nat>, prec: nat, mode: Mode, negative: bool)
    returns (len: nat, carry: bool, inexact: bool)
    requires w > 0 && prec > 0 && TopBit(w, a[..])
    modifies a
    ensures 0 < len <= a.Length && TopBit(w, a[..len]) && a[0] != 0
    ensures var v := old(Val(Base(w), a[..])); var n := Bits(w, a.Length);
      var r := Scaled(w, a[..len], a.Length, carry);
      && (prec >= n ==> r == v) && (prec < n ==> IsRounded(mode, negative, v, Two(n - prec), r))
      && (inexact <==> r != v)
  {
    hide *;
    ghost var v, s := Val(Base(w), a[..]), a[..];
    TopBitFacts(w, s);
    var n := Bits(w, a.Length);
    var add;
    add, inexact := RoundingAddend(w, a[..], prec, mode, negative);
    carry := false;
    if add {
      carry := AddUnit(w, a, n - prec);
    }
    ghost var v1 := Val(Base(w), a[..]);
    RoundedQuotient(n, v, v1, prec, add, carry);
    len := KeepBits(w, a, n - prec);
    assert a[..len] == a[..][..len];
    ShortTop(w, a[..], a.Length, len, carry);
  }

  lemma TopBitFacts(w: nat, s: seq<nat>)
    requires TopBit(w, s)
    ensures s != [] && Digits(Base(w), s) && Val(Base(w), s) < Two(Bits(w, |s|)) <= 2 * Val(Base(w), s)
  {
    ValBound(Base(w), s);
    BasePow(w, |s|);
  }

  /** The quotient that is kept: not zero, at least half the top, and what rounding asks for. */
  lemma RoundedQuotient(n: nat, v: nat, v1: nat, prec: nat, add: bool, carry: bool)
    requires prec > 0 && v < Two(n) <= 2 * v && (!add ==> v1 == v && !carry)
    requires add ==> prec < n && (carry <==> v + Two(n - prec) >= Two(n))
    requires add ==> Quot(v1, n - prec) == if carry then Two(n - 1 - (n - prec)) else Quot(v, n - prec) + 1
    ensures var k := if n < prec then 0 else n - prec; var r := Two(k) * Quot(v1, k);
      && Quot(v1, k) != 0 && Two(n) <= 2 * r
      && (if carry then 2 else 1) * r == if prec >= n then v else Kept(v, n - prec, add)
  {
    hide Two, Quot, Rem;
    if prec >= n {
      QuotZero(v);
    } else {
      var k := n - prec;
      TopKept(v, n, k);
      if carry {
        FullCarry(v, n, k);
      } else {
        MulMono(Two(n - 1 - k), Quot(v1, k), Two(k));
      }
    }
  }

  lemma QuotZero(v: nat)
    ensures Two(0) * Quot(v, 0) == v && Quot(v, 0) == v
  {
    TwoZero();
  }

  lemma ShortTop(w: nat, s: seq<nat>, l: nat, len: nat, carry: bool)
    requires 0 < len <= |s| == l && Digits(Base(w), s)
      && Two(Bits(w, l)) <= 2 * (Val(Base(w), s[..len]) * Two(Bits(w, l - len)))
    ensures TopBit(w, s[..len])
    ensures Scaled(w, s[..len], l, carry) == (if carry then 2 else 1) * (Val(Base(w), s[..len]) * Two(Bits(w, l - len)))
  {
    hide Val, Two, Base, Bits;
    TopBitShort(w, l, len, Val(Base(w), s[..len]));
  }
}

/** The normalisation of bf_normalize_and_round: zero limbs at the top are dropped and the top bit is shifted up. */
module FloatNormalize {
  import opened Limbs
  import opened LimbKernels
  import opened LimbUnary
  import opened RoundSpec
  import opened FloatBits
  import opened FloatRound
  import opened FloatDigits
  import opened FloatCancel

  /** One limb of the left shift: the low bits of x above the high bits of the limb below. */
  function ShlLimb(w: nat, shift: nat, x: nat, below: nat): (r: nat)
    requires shift <= w && x < Two(w) && below < Two(w)
    ensures r < Two(w) && r + Two(w) * Quot(x, w - shift) == Two(shift) * x + Quot(below, w - shift)
  {
    ShlBounds(w, shift, x, below);
    Two(shift) * Rem(x, w - shift) + Quot(below, w - shift)
  }

  lemma ShlBounds(w: nat, shift: nat, x: nat, below: nat)
    requires shift <= w && x < Two(w) && below < Two(w)
    ensures var r := Two(shift) * Rem(x, w - shift) + Quot(below, w - shift);
      r < Two(w) && r + Two(w) * Quot(x, w - shift) == Two(shift) * x + Quot(below, w - shift)
  {
    hide Two, Quot, Rem;
    QuotRem(x, w - shift);
    TwoAdd(shift, w - shift);
    QuotBelow(below, w - shift, shift);
    BelowSum(Two(shift), Two(w - shift), Two(w), Quot(below, w - shift), Rem(x, w - shift));
    Distrib(Two(shift), Two(w - shift) * Quot(x, w - shift), Rem(x, w - shift));
    Assoc(Two(shift), Two(w - shift), Quot(x, w - shift));
  }

  /** The l low limbs of a are shifted left by less than a limb; nothing is lost at the top. */
  method ShiftLeft(w: nat, a: array<nat>, l: nat, shift: nat)
    requires 0 < l <= a.Length && shift <= w && Digits(Base(w), a[..]) && a[l - 1] < Two(w - shift)
    modifies a
    ensures Digits(Base(w), a[..]) && Val(Base(w), a[..l]) == Two(shift) * old(Val(Base(w), a[..l]))
  {
    hide *;
    ghost var s := a[..];
    BaseIs(w);
    var i, v: nat := 0, 0;
    ShiftStart(w, s, shift);
    while i < l
      invariant 0 <= i <= l && v < Two(w) && Digits(Base(w), a[..]) && (i > 0 ==> v == s[i - 1])
      invariant forall j :: i <= j < l ==> a[j] == s[j]
      invariant Sum(Two(shift) * Val(Base(w), s[..i]), Val(Base(w), a[..][..i]), Pow(Base(w), i), Quot(v, w - shift))
    {
      ghost var t, v0 := a[..], v;
      var x := a[i];
      LimbBelow(w, t, i);
      a[i] := ShlLimb(w, shift, x, v);
      v := x;
      assert a[..] == t[i := a[i]];
      ShiftStep(w, s, t, a[..], i, shift, v0);
      DigitsSet(w, t, i, a[i]);
      i := i + 1;
    }
    assert a[..l] == a[..][..l] && s[..l] == old(a[..l]);
    ShiftEnd(w, s, a[..], l, shift, v);
  }

  lemma LimbBelow(w: nat, s: seq<nat>, i: nat)
    requires Digits(Base(w), s) && i < |s|
    ensures s[i] < Two(w)
  {
  }

  lemma DigitsSet(w: nat, s: seq<nat>, i: nat, u: nat)
    requires Digits(Base(w), s) && i < |s| && u < Two(w)
    ensures Digits(Base(w), s[i := u])
  {
  }

  lemma ShiftStart(w: nat, s: seq<nat>, shift: nat)
    requires shift <= w
    ensures Sum(Two(shift) * Val(Base(w), s[..0]), Val(Base(w), s[..0]), Pow(Base(w), 0), Quot(0, w - shift))
      && 0 < Two(w)
  {
    ZeroBits(w, w - shift);
    MulZero(Two(shift), Val(Base(w), s[..0]));
  }

  lemma ShiftStep(w: nat, s: seq<nat>, t: seq<nat>, t': seq<nat>, i: nat, shift: nat, v: nat)
    requires shift <= w && i < |s| == |t| == |t'| && t[i] == s[i] && t' == t[i := t'[i]] && s[i] < Two(w) && v < Two(w)
    requires t'[i] == ShlLimb(w, shift, s[i], v)
    requires Sum(Two(shift) * Val(Base(w), s[..i]), Val(Base(w), t[..i]), Pow(Base(w), i), Quot(v, w - shift))
    ensures Sum(Two(shift) * Val(Base(w), s[..i + 1]), Val(Base(w), t'[..i + 1]), Pow(Base(w), i + 1),
      Quot(s[i], w - shift))
  {
    hide Two, Quot, Rem, Val, Base, Pow, ShlLimb;
    ValPrefix(Base(w), s, i);
    ValPrefix(Base(w), t', i);
    assert t'[..i] == t[..i];
    PowNext(Base(w), i);
    BaseIs(w);
    ShiftArith(Two(shift), Val(Base(w), s[..i]), s[i], Pow(Base(w), i), Base(w), Val(Base(w), t[..i]), t'[i],
      Quot(v, w - shift), Quot(s[i], w - shift));
  }

  lemma ShiftArith(p: nat, v: nat, x: nat, q: nat, b: nat, v': nat, r: nat, c: nat, c': nat)
    requires p * v == v' + q * c && r + b * c' == p * x + c
    ensures p * (v + q * x) == (v' + q * r) + (b * q) * c'
  {
    Distrib(p, v, q * x);
    assert p * (q * x) == q * (p * x) by { Assoc(p, q, x); Assoc(q, p, x); }
    Distrib(q, r, b * c');
    Distrib(q, p * x, c);
    Assoc(q, b, c');
  }

  lemma ShiftEnd(w: nat, s: seq<nat>, t: seq<nat>, l: nat, shift: nat, v: nat)
    requires 0 < l <= |s| == |t| && shift <= w && v == s[l - 1] < Two(w - shift)
    requires Sum(Two(shift) * Val(Base(w), s[..l]), Val(Base(w), t[..l]), Pow(Base(w), l), Quot(v, w - shift))
    ensures Val(Base(w), t[..l]) == Two(shift) * Val(Base(w), s[..l])
  {
    hide Two, Quot, Rem, Val, Base, Pow;
    QuotSmall(v, w - shift);
    MulZero(Pow(Base(w), l), Quot(v, w - shift));
  }

  /** The number of limbs without the zero limbs at the top. */
  method StripZeros(b: nat, a: seq<nat>) returns (l: nat)
    requires b > 0 && Val(b, a) != 0
    ensures 0 < l <= |a| && a[l - 1] != 0 && Val(b, a[..l]) == Val(b, a)
  {
    l := |a|;
    assert a[..l] == a;
    while l > 0 && a[l - 1] == 0
      invariant 0 <= l <= |a| && Val(b, a[..l]) == Val(b, a)
    {
      ValPrefix(b, a, l - 1);
      l := l - 1;
    }
    if l == 0 {
      NoValue(b);
    }
  }

  /** The top limb x, shifted by its leading zeros, has its top bit set. */
  lemma ShiftedTop(w: nat, s: seq<nat>, l: nat, v: nat)
    requires w > 0 && 0 < l <= |s| && Digits(Base(w), s) && s[l - 1] != 0
    requires var shift := Clz(w, s[l - 1]); v == Two(shift) * Val(Base(w), s[..l])
    ensures Two(Bits(w, l)) <= 2 * v && Clz(w, s[l - 1]) < w && s[l - 1] < Two(w - Clz(w, s[l - 1]))
  {
    hide Two, Bits, Val, Base, Clz, Pow;
    var x := s[l - 1];
    var shift := Clz(w, x);
    BaseIs(w);
    TwoZero();
    ValPrefix(Base(w), s, l - 1);
    BasePow(w, l - 1);
    BitsAdd(w, l - 1, 1);
    BitsOne(w);
    TwoAdd(Bits(w, l - 1), w);
    TwoAdd(shift, w - shift);
    TwoNext(w - shift - 1);
    TopArith(Two(shift), Two(w - shift - 1), Two(w), Two(Bits(w, l - 1)), Two(Bits(w, l)), x, Val(Base(w), s[..l - 1]),
      Val(Base(w), s[..l]));
  }

  lemma TopArith(p: nat, h: nat, b: nat, q: nat, qb: nat, x: nat, low: nat, v: nat)
    requires b == p * (2 * h) && qb == q * b && x >= h && v == low + q * x
    ensures qb <= 2 * (p * v)
  {
    MulMono(h, x, q);
    MulMono(q * h, v, p);
    assert q * (p * (2 * h)) == 2 * (p * (q * h)) by {
      Assoc(q, p, 2 * h);
      Assoc(p, q, 2 * h);
      assert q * (2 * h) == 2 * (q * h);
      assert p * (2 * (q * h)) == 2 * (p * (q * h));
    }
  }

  /** The normalisation: l limbs are left, the number is multiplied by 2^shift. */
  method Normalize(w: nat, a: array<nat>) returns (l: nat, shift: nat)
    requires w > 0 && Digits(Base(w), a[..]) && Val(Base(w), a[..]) != 0
    modifies a
    ensures 0 < l <= a.Length && shift < w && TopBit(w, a[..l])
    ensures Val(Base(w), a[..l]) == Two(shift) * old(Val(Base(w), a[..]))
  {
    hide Val, Two, Base, Bits, Clz;
    ghost var s := a[..];
    l := StripZeros(Base(w), a[..]);
    shift := Clz(w, a[l - 1]);
    ShiftedTop(w, s, l, Two(shift) * Val(Base(w), s[..l]));
    assert a[..l] == s[..l];
    if shift != 0 {
      ShiftLeft(w, a, l, shift);
    } else {
      TwoZero();
    }
  }
}

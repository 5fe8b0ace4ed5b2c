/** The leading bits of a mantissa and its limbs at any bit position. */
module FloatDigits {
  import opened Limbs
  import opened LimbUnary
  import opened RoundSpec
  import opened FloatBits
  import opened FloatRound

  /** The integer part of m 2^(k - e): the first k bits of the fraction m / 2^e. */
  function Lead(m: nat, e: nat, k: nat): nat {
    if k >= e then m * Two(k - e) else Quot(m, e - k)
  }

  /** q bits fewer. */
  lemma LeadShorter(m: nat, e: nat, k: nat, q: nat)
    ensures Quot(Lead(m, e, k + q), q) == Lead(m, e, k)
  {
    hide Two, Quot, Rem;
    if k >= e {
      TwoAdd(k - e, q);
      Assoc(m, Two(k - e), Two(q));
      QuotIs(m * Two(k + q - e), q, m * Two(k - e), 0);
    } else if k + q >= e {
      var j, i := k + q - e, e - k;
      QuotRem(m, i);
      TwoAdd(i, j);
      TwoPos(j);
      ShiftedQuot(m, Quot(m, i), Rem(m, i), Two(i), Two(j), Two(q));
      QuotIs(m * Two(j), q, Quot(m, i), Rem(m, i) * Two(j));
    } else {
      var i := e - k - q;
      NestedQuot(m, i, q);
    }
  }

  lemma TwoPos(j: nat)
    ensures Two(j) > 0
  {
  }

  lemma ShiftedQuot(m: nat, q: nat, r: nat, p: nat, s: nat, t: nat)
    requires m == p * q + r && r < p && t == p * s && s > 0
    ensures m * s == t * q + r * s && r * s < t
  {
    Distrib(s, p * q, r);
    assert (p * q) * s == (p * s) * q;
    MulStrict(r, p, s);
  }

  lemma NestedQuot(m: nat, i: nat, j: nat)
    ensures Quot(Quot(m, i), j) == Quot(m, i + j)
    ensures Rem(m, i + j) == Rem(m, i) + Two(i) * Rem(Quot(m, i), j)
  {
    hide Two, Quot, Rem;
    var q := Quot(m, i);
    QuotRem(m, i);
    QuotRem(q, j);
    TwoAdd(i, j);
    Nested(m, q, Rem(m, i), Two(i), Quot(q, j), Rem(q, j), Two(j), Two(i + j));
    QuotIs(m, i + j, Quot(q, j), Rem(m, i) + Two(i) * Rem(q, j));
  }

  lemma Nested(m: nat, q: nat, r: nat, p: nat, q': nat, r': nat, p': nat, pp: nat)
    requires m == p * q + r && r < p && q == p' * q' + r' && r' < p' && pp == p * p'
    ensures m == pp * q' + (r + p * r') && r + p * r' < pp
  {
    Distrib(p, p' * q', r');
    Assoc(p, p', q');
    MulMono(r', p' - 1, p);
    Distrib(p, p', 1);
  }

  /** Limb j from the top of the fraction. */
  function Digit(w: nat, m: nat, e: nat, j: nat): nat {
    Rem(Lead(m, e, Bits(w, j + 1)), w)
  }

  /** q bits into limb j. */
  lemma LeadDigit(w: nat, m: nat, e: nat, j: nat, q: nat)
    requires q <= w
    ensures Lead(m, e, Bits(w, j) + q) == Lead(m, e, Bits(w, j)) * Two(q) + Quot(Digit(w, m, e, j), w - q)
    ensures Digit(w, m, e, j) < Two(w)
  {
    hide Two, Quot, Rem, Bits, Lead;
    BitsAdd(w, j, 1);
    BitsOne(w);
    var k := Bits(w, j);
    var x := Lead(m, e, k + w);
    LeadShorter(m, e, k, w);
    LeadShorter(m, e, k + q, w - q);
    QuotRem(x, w);
    NestedQuot(x, w - q, q);
    var y := Quot(x, w - q);
    QuotRem(y, q);
    RemQuot(x, w, w - q);
  }

  lemma BitsOne(w: nat)
    ensures Bits(w, 1) == w && Bits(w, 0) == 0
  {
  }

  /** The bits of x between j and w. */
  lemma RemQuot(x: nat, w: nat, j: nat)
    requires j <= w
    ensures Rem(Quot(x, j), w - j) == Quot(Rem(x, w), j)
  {
    hide Two, Quot, Rem;
    NestedQuot(x, j, w - j);
    QuotRem(x, j);
    QuotIs(Rem(x, w), j, Rem(Quot(x, j), w - j), Rem(x, j));
  }

  // ---- get_limbz and get_bits

  /** get_limbz: limb idx, zero outside */
  function Limbz(s: seq<nat>, idx: int): nat {
    if 0 <= idx < |s| then s[idx] else 0
  }

  /** get_bits: the w bits at bit position pos, zero outside */
  function GetBits(w: nat, s: seq<nat>, pos: int): nat
    requires w > 0
  {
    var i, p := pos / w, pos % w;
    if p == 0 then Limbz(s, i)
    else Quot(Limbz(s, i), p) + Two(w - p) * Rem(Limbz(s, i + 1), p)
  }

  /** The same bits of the number: a position below 0 shifts to the left. */
  function BitsAt(w: nat, v: nat, pos: int): nat {
    if pos >= 0 then Rem(Quot(v, pos), w) else Rem(v * Two(-pos), w)
  }

  lemma GetBitsCorrect(w: nat, s: seq<nat>, pos: int)
    requires w > 0 && Digits(Base(w), s)
    ensures GetBits(w, s, pos) == BitsAt(w, Val(Base(w), s), pos)
  {
    var i, p := pos / w, pos % w;
    PositionOf(w, pos);
    if i >= |s| {
      BitsAbove(w, s, i, p);
    } else if i >= 0 {
      BitsInside(w, s, i, p);
    } else if i < -1 || p == 0 {
      BitsBelow(w, Val(Base(w), s), -pos);
    } else {
      BitsUnder(w, s, p);
    }
  }

  /** Floor division by w: pos = w i + p. */
  lemma PositionOf(w: nat, pos: int)
    requires w > 0
    ensures var i := pos / w; var p := pos % w;
      && 0 <= p < w && (i >= 0 <==> pos >= 0) && (i >= 0 ==> pos == Bits(w, i) + p) && (i == -1 ==>
        pos == p - w) && (i < -1 || (i < 0 && p == 0) ==> pos <= 0 - w)
  {
    var i, p := pos / w, pos % w;
    assert pos == w * i + p;
    if i >= 0 {
      MulMono(0, i, w);
    } else {
      MulMono(i, -1, w);
      if i < -1 {
        MulMono(i, -2, w);
      }
    }
  }

  lemma QuotSmall(v: nat, k: nat)
    requires v < Two(k)
    ensures Quot(v, k) == 0 && Rem(v, k) == v
  {
    hide Two, Quot, Rem;
    QuotIs(v, k, 0, v);
  }

  lemma ZeroBits(w: nat, p: nat)
    ensures Quot(0, p) == 0 && Rem(0, w) == 0
  {
  }

  lemma BitsAbove(w: nat, s: seq<nat>, i: nat, p: nat)
    requires Digits(Base(w), s) && i >= |s|
    ensures Quot(Val(Base(w), s), Bits(w, i) + p) == 0 && Rem(0, w) == 0 && Quot(0, p) == 0 && Rem(0, p) == 0
  {
    hide Two, Quot, Rem, Bits, Val, Base;
    ValBound(Base(w), s);
    BasePow(w, |s|);
    BitsAdd(w, |s|, i - |s|);
    TwoAdd(Bits(w, |s|), Bits(w, i - |s|) + p);
    MulMono(1, Two(Bits(w, i - |s|) + p), Two(Bits(w, |s|)));
    QuotSmall(Val(Base(w), s), Bits(w, i) + p);
    ZeroBits(w, p);
    ZeroBits(p, p);
  }

  lemma BitsInside(w: nat, s: seq<nat>, i: nat, p: nat)
    requires Digits(Base(w), s) && i < |s| && p < w
    ensures Rem(Quot(Val(Base(w), s), Bits(w, i) + p), w)
         == if p == 0 then s[i] else Quot(s[i], p) + Two(w - p) * Rem(Limbz(s, i + 1), p)
  {
    hide Two, Quot, Rem, Bits, Val, Base;
    var v, b := Val(Base(w), s), Base(w);
    CutAt(w, s, i, p);
    BaseIs(w);
    LimbRest(w, s, i);
    var x := Limbz(s, i + 1);
    var y := (Val(b, s[i + 1..]) - x) / b;
    InsideParts(w, p, s[i], x, y, Val(b, s[i + 1..]));
    if p == 0 {
      ZeroQuot(s[i], w);
      ZeroQuot(x, w);
      MulZero(Two(w), Rem(x, 0));
    }
  }

  lemma ZeroQuot(x: nat, w: nat)
    ensures Quot(x, 0) == x && Rem(x, 0) == 0
  {
    TwoZero();
  }

  /** The limbs above i: limb i + 1 and a multiple of the base. */
  lemma LimbRest(w: nat, s: seq<nat>, i: nat)
    requires Digits(Base(w), s) && i < |s|
    ensures var v := Val(Base(w), s[i + 1..]); var x := Limbz(s, i + 1);
      && x < Base(w) && v >= x && v == x + Base(w) * ((v - x) / Base(w)) && s[i] < Base(w)
  {
    hide Val, Base;
    var t := s[i + 1..];
    if t == [] {
      NoValue(Base(w));
    } else {
      assert t[0] == s[i + 1];
      ValCons(Base(w), t);
      DivUnique(Base(w) * Val(Base(w), t[1..]), Base(w), Val(Base(w), t[1..]), 0);
    }
  }

  lemma NoValue(b: nat)
    ensures Val(b, []) == 0
  {
  }

  /** x0 >> p and the low p bits of x above it, below a multiple of 2^w. */
  lemma InsideParts(w: nat, p: nat, x0: nat, x: nat, y: nat, v: nat)
    requires p < w && x0 < Two(w) && v == x + Two(w) * y
    ensures Rem(Quot(x0, p) + Two(w - p) * v, w) == Quot(x0, p) + Two(w - p) * Rem(x, p)
  {
    hide Two, Quot, Rem;
    var e := w - p;
    QuotRem(x, p);
    TwoAdd(e, p);
    QuotRem(x0, p);
    QuotBelow(x0, p, e);
    InsideArith(Two(e), Two(p), Two(w), Quot(x, p), Rem(x, p), x, y, v);
    BelowSum(Two(e), Two(p), Two(w), Quot(x0, p), Rem(x, p));
    QuotIs(Quot(x0, p) + Two(e) * v, w, Quot(x, p) + Two(e) * y, Quot(x0, p) + Two(e) * Rem(x, p));
  }

  lemma QuotBelow(x: nat, p: nat, e: nat)
    requires x < Two(e + p)
    ensures Quot(x, p) < Two(e)
  {
    hide Two, Quot, Rem;
    QuotRem(x, p);
    TwoAdd(e, p);
    if Quot(x, p) >= Two(e) {
      MulMono(Two(e), Quot(x, p), Two(p));
    }
  }

  lemma InsideArith(e: nat, p: nat, b: nat, q: nat, r: nat, x: nat, y: nat, v: nat)
    requires x == p * q + r && b == e * p && v == x + b * y
    ensures e * v == b * (q + e * y) + e * r
  {
    Distrib(e, x, b * y);
    Distrib(e, p * q, r);
    Assoc(e, p, q);
    Distrib(b, q, e * y);
    assert e * (b * y) == b * (e * y) by { Assoc(e, b, y); Assoc(b, e, y); }
  }

  lemma BelowSum(e: nat, p: nat, b: nat, x: nat, r: nat)
    requires x < e && r < p && b == e * p
    ensures x + e * r < b
  {
    MulMono(r, p - 1, e);
    Distrib(e, p, 1);
  }

  /** A shift by a limb or more leaves nothing in the low limb. */
  lemma BitsBelow(w: nat, v: nat, k: nat)
    requires k >= w
    ensures Rem(v * Two(k), w) == 0
  {
    hide Two, Quot, Rem;
    TwoAdd(k - w, w);
    Assoc(v, Two(k - w), Two(w));
    QuotIs(v * Two(k), w, v * Two(k - w), 0);
  }

  /** The low p bits of limb 0 at the top of a limb. */
  lemma BitsUnder(w: nat, s: seq<nat>, p: nat)
    requires Digits(Base(w), s) && 0 < p < w
    ensures Rem(Val(Base(w), s) * Two(w - p), w) == Quot(0, p) + Two(w - p) * Rem(Limbz(s, 0), p)
  {
    hide Two, Quot, Rem, Val, Base;
    var v, b, x := Val(Base(w), s), Base(w), Limbz(s, 0);
    BaseIs(w);
    ZeroBits(w, p);
    if s == [] {
      NoValue(b);
      ZeroBits(p, p);
    } else {
      ValCons(b, s);
      ZeroBelow(w);
      InsideParts(w, p, 0, x, Val(b, s[1..]), v);
    }
  }

  lemma ZeroBelow(w: nat)
    ensures 0 < Two(w)
  {
  }
}

/** count_cancelled_bits: how many leading bits a subtraction may lose. */
module FloatCancel {
  import opened Limbs
  import opened LimbUnary
  import opened RoundSpec
  import opened FloatBits
  import opened FloatRound
  import opened FloatDigits
  import opened BitLogic

  /** clz of a limb of w bits */
  function Clz(w: nat, v: nat): (c: nat)
    ensures c <= w
    ensures v < Two(w) ==> v < Two(w - c)
    ensures c < w ==> v >= Two(w - c - 1)
    decreases w
  {
    if w == 0 || v >= Two(w - 1) then 0 else 1 + Clz(w - 1, v)
  }

  /** The leading bits of the exclusive or tell where two limbs first differ. */
  lemma FirstDifference(w: nat, x: nat, y: nat)
    requires y < x < Two(w)
    ensures var c := Clz(w, LimbOp(XOR, x, y)); c < w && Quot(x, w - c - 1) == Quot(y, w - c - 1) + 1
  {
    hide *;
    var z := LimbOp(XOR, x, y);
    OpBound(XOR, w, x, y);
    XorZero(x, y);
    var c := Clz(w, z);
    TwoZero();
    var k := w - c - 1;
    QuotSmall(z, k + 1);
    OpQuot(XOR, x, y, k + 1);
    XorZero(Quot(x, k + 1), Quot(y, k + 1));
    OpQuot(XOR, x, y, k);
    XorZero(Quot(x, k), Quot(y, k));
    QuotPositive(z, k);
    NestedQuot(x, k, 1);
    NestedQuot(y, k, 1);
    QuotOne(Quot(x, k));
    QuotOne(Quot(y, k));
    QuotMono(y, x, k);
  }

  lemma QuotPositive(z: nat, k: nat)
    requires z >= Two(k)
    ensures Quot(z, k) > 0
  {
    hide Two, Quot, Rem;
    QuotRem(z, k);
    MulZero(Two(k), Quot(z, k));
  }

  lemma QuotMono(x: nat, y: nat, k: nat)
    requires x <= y
    ensures Quot(x, k) <= Quot(y, k)
  {
    hide Two, Quot, Rem;
    QuotRem(x, k);
    QuotRem(y, k);
    var p, q, q' := Two(k), Quot(x, k), Quot(y, k);
    if q > q' {
      MulMono(q' + 1, q, p);
      Distrib(p, q', 1);
    }
  }

  // ---- the difference of two fractions, bit by bit

  /** The first k bits of the fraction m / 2^e exceed those of m' / 2^e' by delta. */
  ghost predicate Ahead(m: nat, e: nat, m': nat, e': nat, k: nat, delta: nat) {
    Lead(m, e, k) == Lead(m', e', k) + delta
  }

  /** The first k bits differ by at least two. */
  ghost predicate WellAhead(m: nat, e: nat, m': nat, e': nat, k: nat) {
    Lead(m, e, k) >= Lead(m', e', k) + 2
  }

  /** t bits into the field x of f bits that follows the first k bits. */
  ghost predicate FieldAt(m: nat, e: nat, k: nat, f: nat, x: nat, t: nat)
    requires t <= f
  {
    Lead(m, e, k + t) == Lead(m, e, k) * Two(t) + Quot(x, f - t)
  }

  /** The f bits of the fraction after the first k are the number x. */
  ghost predicate IsField(m: nat, e: nat, k: nat, f: nat, x: nat) {
    x < Two(f) && forall t :: 0 <= t <= f ==> FieldAt(m, e, k, f, x, t)
  }

  /** The number of leading pairs (0, 1) in a field: min(clz(x), clz(~y)), counted within the field. */
  function Borrows(f: nat, x: nat, y: nat): (t: nat)
    requires y < Two(f)
    ensures t <= f
  {
    var c, c' := Clz(f, x), Clz(f, Two(f) - 1 - y);
    if c < c' then c else c'
  }

  lemma BorrowsBounds(f: nat, x: nat, y: nat)
    requires x < Two(f) && y < Two(f)
    ensures var t := Borrows(f, x, y);
      && x < Two(f - t) && Two(f) - 1 - y < Two(f - t)
      && (t < f ==> x >= Two(f - t - 1) || Two(f) - 1 - y >= Two(f - t - 1))
  {
    hide Two, Clz;
    var c, c' := Clz(f, x), Clz(f, Two(f) - 1 - y);
    if c < c' {
      TwoMono(f - c', f - c);
    } else {
      TwoMono(f - c, f - c');
    }
  }

  /** They keep the difference at one; after them it is at least two. */
  lemma FieldCancels(m: nat, e: nat, m': nat, e': nat, k: nat, f: nat, x: nat, y: nat)
    requires Ahead(m, e, m', e', k, 1) && IsField(m, e, k, f, x) && IsField(m', e', k, f, y)
    ensures var t := Borrows(f, x, y);
      && Ahead(m, e, m', e', k + t, 1) && (t < f ==> WellAhead(m, e, m', e', k + t + 1))
  {
    hide Two, Quot, Rem, Clz, Lead, FieldAt, Borrows;
    var t := Borrows(f, x, y);
    BorrowsBounds(f, x, y);
    BorrowedBits(f, x, y, t);
    SameGap(m, e, m', e', k, f, x, y, t);
    if t < f {
      AfterBorrows(f, x, y, t);
      WiderGap(m, e, m', e', k, f, x, y, t + 1);
    }
  }

  lemma SameGap(m: nat, e: nat, m': nat, e': nat, k: nat, f: nat, x: nat, y: nat, t: nat)
    requires t <= f && Ahead(m, e, m', e', k, 1) && FieldAt(m, e, k, f, x, t) && FieldAt(m', e', k, f, y, t)
    requires Quot(x, f - t) == 0 && Quot(y, f - t) == Two(t) - 1
    ensures Ahead(m, e, m', e', k + t, 1)
  {
    hide Two, Quot, Lead;
    Distrib(Two(t), Lead(m', e', k), 1);
  }

  lemma WiderGap(m: nat, e: nat, m': nat, e': nat, k: nat, f: nat, x: nat, y: nat, t: nat)
    requires t <= f && Ahead(m, e, m', e', k, 1) && FieldAt(m, e, k, f, x, t) && FieldAt(m', e', k, f, y, t)
    requires Two(t) + Quot(x, f - t) >= Quot(y, f - t) + 2
    ensures WellAhead(m, e, m', e', k + t)
  {
    hide Two, Quot, Lead;
    Distrib(Two(t), Lead(m', e', k), 1);
  }

  lemma BorrowedBits(f: nat, x: nat, y: nat, t: nat)
    requires t <= f && x < Two(f - t) && y < Two(f) && Two(f) - 1 - y < Two(f - t)
    ensures Quot(x, f - t) == 0 && Quot(y, f - t) == Two(t) - 1
  {
    hide Two, Quot, Rem;
    QuotSmall(x, f - t);
    TwoAdd(f - t, t);
    Distrib(Two(f - t), Two(t), 1);
    QuotIs(y, f - t, Two(t) - 1, y - (Two(f) - Two(f - t)));
  }

  /** Below the borrows the next bits are not (0, 1). */
  lemma AfterBorrows(f: nat, x: nat, y: nat, t: nat)
    requires t < f && x < Two(f) && y < Two(f) && (x >= Two(f - t - 1) || Two(f) - 1 - y >= Two(f - t - 1))
    ensures Two(t + 1) + Quot(x, f - t - 1) >= Quot(y, f - t - 1) + 2
  {
    hide Two, Quot, Rem;
    var g := f - t - 1;
    TwoAdd(g, t + 1);
    QuotBelow(y, g, t + 1);
    if x >= Two(g) {
      QuotPositive(x, g);
    } else {
      QuotRem(y, g);
      var q := Quot(y, g);
      if q >= Two(t + 1) - 1 {
        MulMono(Two(t + 1) - 1, q, Two(g));
        Distrib(Two(g), Two(t + 1), 1);
      }
    }
  }

  // ---- order of fractions

  /** m / 2^e is larger than m' / 2^e'. */
  ghost predicate Larger(m: nat, e: nat, m': nat, e': nat) {
    m' * Two(e) < m * Two(e')
  }

  lemma LeadMono(m: nat, e: nat, m': nat, e': nat, k: nat)
    requires Larger(m, e, m', e')
    ensures Lead(m, e, k) >= Lead(m', e', k)
    ensures k >= e && k >= e' ==> Lead(m, e, k) > Lead(m', e', k)
  {
    hide Two, Quot, Rem, Lead, Larger;
    var q := e + e';
    LeadShorter(m, e, k, q);
    LeadShorter(m', e', k, q);
    LongerLead(m, e, m', e', k);
    QuotMono(Lead(m', e', k + q), Lead(m, e, k + q), q);
    if k >= e && k >= e' {
      ExactLead(m, e, k, q);
      ExactLead(m', e', k, q);
    }
  }

  lemma LongerLead(m: nat, e: nat, m': nat, e': nat, k: nat)
    requires Larger(m, e, m', e')
    ensures Lead(m', e', k + (e + e')) < Lead(m, e, k + (e + e'))
  {
    hide Two, Quot;
    TwoAdd(e', k);
    TwoAdd(e, k);
    Assoc(m, Two(e'), Two(k));
    Assoc(m', Two(e), Two(k));
    MulStrict(m' * Two(e), m * Two(e'), Two(k));
  }

  lemma ExactLead(m: nat, e: nat, k: nat, q: nat)
    requires k >= e
    ensures Lead(m, e, k + q) == Lead(m, e, k) * Two(q)
  {
    hide Two, Quot;
    TwoAdd(k - e, q);
    Assoc(m, Two(k - e), Two(q));
  }

  /** The bits that are left after n + 1 bits of difference at least two. */
  lemma GapBound(m: nat, e: nat, m': nat, e': nat, n: nat, k: nat)
    requires WellAhead(m, e, m', e', n + 1) && k >= e && k >= e' && Larger(m, e, m', e')
    ensures Two(k) <= (Lead(m, e, k) - Lead(m', e', k)) * Two(n + 1)
  {
    hide Two, Quot, Rem, Lead, Larger;
    var x, y := Lead(m, e, k), Lead(m', e', k);
    LeadMono(m, e, m', e', k);
    if n + 1 <= k {
      var q := k - (n + 1);
      LeadShorter(m, e, n + 1, q);
      LeadShorter(m', e', n + 1, q);
      QuotRem(x, q);
      QuotRem(y, q);
      TwoAdd(q, n + 1);
      GapArith(Two(q), Lead(m, e, n + 1), Lead(m', e', n + 1), Rem(x, q), Rem(y, q), x, y);
      MulMono(Two(q), x - y, Two(n + 1));
    } else {
      TwoMono(k, n + 1);
      MulMono(1, x - y, Two(n + 1));
    }
  }

  lemma GapArith(p: nat, h: nat, h': nat, r: nat, r': nat, x: nat, y: nat)
    requires x == p * h + r && y == p * h' + r' && r' < p && h >= h' + 2
    ensures x - y >= p
  {
    MulMono(h' + 2, h, p);
    Distrib(p, h', 2);
  }

  // ---- the limbs

  lemma LimbzDigit(w: nat, s: seq<nat>, j: nat)
    requires w > 0 && Digits(Base(w), s)
    ensures Limbz(s, |s| - 1 - j) == Digit(w, Val(Base(w), s), Bits(w, |s|), j)
  {
    hide *;
    GetBitsLimb(w, s, |s| - 1 - j);
    GetBitsDigit(w, s, 0, j);
  }

  lemma GetBitsLimb(w: nat, s: seq<nat>, x: int)
    requires w > 0
    ensures GetBits(w, s, w * x + 0) == Limbz(s, x)
  {
    DivUnique(w * x, w, x, 0);
  }

  lemma GetBitsDigit(w: nat, s: seq<nat>, d: nat, j: nat)
    requires w > 0 && Digits(Base(w), s)
    ensures GetBits(w, s, w * (|s| - 1 - j) + d) == Digit(w, Val(Base(w), s), Bits(w, |s|) + d, j)
  {
    GetBitsCorrect(w, s, w * (|s| - 1 - j) + d);
    BitsDigit(w, Val(Base(w), s), |s|, d, j);
  }

  lemma BitsDigit(w: nat, v: nat, l: nat, d: nat, j: nat)
    ensures BitsAt(w, v, w * (l - 1 - j) + d) == Digit(w, v, Bits(w, l) + d, j)
  {
    hide Two, Quot, Rem;
    assert w * (l - 1 - j) == w * l - w * (j + 1) by { Distrib(w, l, j + 1); }
    ZeroShift(v);
  }

  lemma ZeroShift(v: nat)
    ensures v * Two(0) == v && Quot(v, 0) == v
  {
    TwoZero();
  }

  lemma DigitField(w: nat, m: nat, e: nat, j: nat)
    ensures IsField(m, e, Bits(w, j), w, Digit(w, m, e, j))
  {
    hide Two, Quot, Rem, Lead, Bits, Digit;
    forall t | 0 <= t <= w
      ensures FieldAt(m, e, Bits(w, j), w, Digit(w, m, e, j), t)
    {
      LeadDigit(w, m, e, j, t);
    }
    LeadDigit(w, m, e, j, 0);
  }

  /** The last f bits of limb j. */
  lemma TrailingField(w: nat, m: nat, e: nat, j: nat, f: nat)
    requires f <= w
    ensures IsField(m, e, Bits(w, j) + (w - f), f, Rem(Digit(w, m, e, j), f))
  {
    hide Two, Quot, Rem, Lead, Bits, Digit;
    var v, p := Digit(w, m, e, j), w - f;
    QuotRem(v, f);
    var k, y := Bits(w, j) + p, Rem(v, f);
    forall t | 0 <= t <= f
      ensures FieldAt(m, e, k, f, y, t)
    {
      LeadDigit(w, m, e, j, p);
      LeadDigit(w, m, e, j, p + t);
      TwoAdd(p, t);
      NestedQuot(v, f - t, t);
      var z := Quot(v, f - t);
      QuotRem(z, t);
      RemQuot(v, f, f - t);
      TrailingArith(Lead(m, e, Bits(w, j)), Two(p), Two(t), Two(p + t), Quot(v, f), Rem(z, t), z);
    }
  }

  lemma TrailingArith(h: nat, p: nat, t: nat, pt: nat, q: nat, r: nat, z: nat)
    requires pt == p * t && z == t * q + r
    ensures h * pt + z == (h * p + q) * t + r
  {
    Assoc(h, p, t);
    Distrib(t, h * p, q);
  }

  lemma DigitBeyond(w: nat, m: nat, e: nat, j: nat)
    requires Bits(w, j) >= e
    ensures Digit(w, m, e, j) == 0
  {
    hide Two, Quot, Rem;
    BitsAdd(w, j, 1);
    BitsOne(w);
    BitsBelow(w, m, Bits(w, j + 1) - e);
  }

  // ---- count_cancelled_bits

  /** The limbs that can matter. */
  lemma Reach(w: nat, l: nat, l': nat, d: nat, j: nat)
    requires w > 0 && j >= l + l' + d
    ensures Bits(w, j) >= Bits(w, l) && Bits(w, j) >= Bits(w, l') + d
  {
    BitsAdd(w, l, j - l);
    BitsAdd(w, l', j - l');
    MulMono(1, w, j - l');
  }

  /** The first limb in which the fractions differ; x and y are the limbs. */
  method FirstLimb(w: nat, a: seq<nat>, b: seq<nat>, d: nat) returns (j: nat, x: nat, y: nat)
    requires w > 0 && Digits(Base(w), a) && Digits(Base(w), b)
    requires Larger(Val(Base(w), a), Bits(w, |a|), Val(Base(w), b), Bits(w, |b|) + d)
    ensures var m, e, m', e' := Val(Base(w), a), Bits(w, |a|), Val(Base(w), b), Bits(w, |b|) + d;
      && x == Digit(w, m, e, j) && y == Digit(w, m', e', j) && y < x < Two(w) && Ahead(m, e, m', e', Bits(w, j), 0)
  {
    hide *;
    ghost var m, e, m', e' := Val(Base(w), a), Bits(w, |a|), Val(Base(w), b), Bits(w, |b|) + d;
    j := 0;
    StartAhead(w, a, b, d);
    while true
      invariant Ahead(m, e, m', e', Bits(w, j), 0)
      decreases |a| + |b| + d - j
    {
      x := Limbz(a, |a| - 1 - j);
      y := GetBits(w, b, w * (|b| - 1 - j) + d);
      LimbzDigit(w, a, j);
      GetBitsDigit(w, b, d, j);
      LeadMono(m, e, m', e', Bits(w, j));
      LimbOrder(w, m, e, m', e', j);
      if x != y {
        return;
      }
      StillTogether(w, m, e, m', e', |a|, |b|, d, j);
      j := j + 1;
    }
  }

  lemma StartAhead(w: nat, a: seq<nat>, b: seq<nat>, d: nat)
    requires Digits(Base(w), a) && Digits(Base(w), b)
    ensures Ahead(Val(Base(w), a), Bits(w, |a|), Val(Base(w), b), Bits(w, |b|) + d, Bits(w, 0), 0)
  {
    hide *;
    BitsOne(w);
    ValBound(Base(w), a);
    ValBound(Base(w), b);
    BasePow(w, |a|);
    BasePow(w, |b|);
    TwoMono(Bits(w, |b|), Bits(w, |b|) + d);
    LeadNothing(Val(Base(w), a), Bits(w, |a|));
    LeadNothing(Val(Base(w), b), Bits(w, |b|) + d);
    AheadZero(Val(Base(w), a), Bits(w, |a|), Val(Base(w), b), Bits(w, |b|) + d);
  }

  lemma LeadNothing(m: nat, e: nat)
    requires m < Two(e)
    ensures Lead(m, e, 0) == 0
  {
    hide Two, Quot, Rem;
    TwoZero();
    QuotSmall(m, e);
  }

  lemma AheadZero(m: nat, e: nat, m': nat, e': nat)
    requires Lead(m, e, 0) == 0 && Lead(m', e', 0) == 0
    ensures Ahead(m, e, m', e', 0, 0)
  {
  }

  /** Up to limb j the same, the larger fraction has no smaller limb; the same limb keeps the fractions together. */
  lemma LimbOrder(w: nat, m: nat, e: nat, m': nat, e': nat, j: nat)
    requires Larger(m, e, m', e') && Ahead(m, e, m', e', Bits(w, j), 0)
    ensures var x, y := Digit(w, m, e, j), Digit(w, m', e', j);
      y <= x < Two(w) && (x == y ==> Ahead(m, e, m', e', Bits(w, j + 1), 0))
  {
    hide Two, Quot, Rem, Lead, Bits, Digit, Larger;
    LeadDigit(w, m, e, j, w);
    LeadDigit(w, m', e', j, w);
    LeadMono(m, e, m', e', Bits(w, j) + w);
    ZeroShift(Digit(w, m, e, j));
    ZeroShift(Digit(w, m', e', j));
    BitsAdd(w, j, 1);
    BitsOne(w);
  }

  lemma StillTogether(w: nat, m: nat, e: nat, m': nat, e': nat, l: nat, l': nat, d: nat, j: nat)
    requires w > 0 && e == Bits(w, l) && e' == Bits(w, l') + d && Larger(m, e, m', e')
      && Ahead(m, e, m', e', Bits(w, j), 0)
    ensures j < l + l' + d
  {
    hide Two, Quot, Rem, Lead, Bits, Larger;
    if j >= l + l' + d {
      Reach(w, l, l', d, j);
      LeadMono(m, e, m', e', Bits(w, j));
    }
  }

  /** count_cancelled_bits: n + 1 bits of the difference are at least two apart, so at most n leading bits of the
      difference are zero. */
  method CountCancelled(w: nat, a: seq<nat>, b: seq<nat>, d: nat) returns (n: nat)
    requires w > 0 && Digits(Base(w), a) && Digits(Base(w), b)
    requires Larger(Val(Base(w), a), Bits(w, |a|), Val(Base(w), b), Bits(w, |b|) + d)
    ensures WellAhead(Val(Base(w), a), Bits(w, |a|), Val(Base(w), b), Bits(w, |b|) + d, n + 1)
  {
    hide *;
    ghost var m, e, m', e' := Val(Base(w), a), Bits(w, |a|), Val(Base(w), b), Bits(w, |b|) + d;
    var j, x, y := FirstLimb(w, a, b, d);
    FirstDifference(w, x, y);
    var p := Clz(w, LimbOp(XOR, x, y)) + 1;
    n := Bits(w, j) + p;
    DifferOne(w, m, e, m', e', j, p);
    p := w - p;
    if p > 0 {
      TrailingField(w, m, e, j, p);
      TrailingField(w, m', e', j, p);
      RemBelow(y, p);
      FieldCancels(m, e, m', e', n, p, Rem(x, p), Rem(y, p));
      var p1 := Borrows(p, Rem(x, p), Rem(y, p));
      n := n + p1;
      if p1 != p {
        return;
      }
    }
    j := j + 1;
    NextLimb(w, j);
    while true
      invariant n == Bits(w, j) && Ahead(m, e, m', e', n, 1)
      decreases |a| + |b| + d - j
    {
      x := Limbz(a, |a| - 1 - j);
      y := GetBits(w, b, w * (|b| - 1 - j) + d);
      LimbzDigit(w, a, j);
      GetBitsDigit(w, b, d, j);
      DigitField(w, m, e, j);
      DigitField(w, m', e', j);
      FieldBelow(m, e, n, w, x);
      FieldBelow(m', e', n, w, y);
      FieldCancels(m, e, m', e', n, w, x, y);
      FullBorrow(w, x, y);
      if x != 0 || y != Two(w) - 1 {
        n := n + Borrows(w, x, y);
        break;
      }
      OnesInside(w, m', |a|, |b|, d, j);
      n := n + w;
      NextLimb(w, j + 1);
      j := j + 1;
    }
  }

  lemma DifferOne(w: nat, m: nat, e: nat, m': nat, e': nat, j: nat, p: nat)
    requires p <= w && Ahead(m, e, m', e', Bits(w, j), 0)
      && Quot(Digit(w, m, e, j), w - p) == Quot(Digit(w, m', e', j), w - p) + 1
    ensures Ahead(m, e, m', e', Bits(w, j) + p, 1)
  {
    hide Two, Quot, Rem, Lead, Bits, Digit;
    LeadDigit(w, m, e, j, p);
    LeadDigit(w, m', e', j, p);
  }

  lemma RemBelow(y: nat, p: nat)
    ensures Rem(y, p) < Two(p)
  {
  }

  lemma FieldBelow(m: nat, e: nat, k: nat, f: nat, y: nat)
    requires IsField(m, e, k, f, y)
    ensures y < Two(f)
  {
  }

  lemma NextLimb(w: nat, j: nat)
    requires j > 0
    ensures Bits(w, j) == Bits(w, j - 1) + w
  {
    BitsAdd(w, j - 1, 1);
    BitsOne(w);
  }

  /** All the pairs of a limb are (0, 1) exactly when the limbs are 0 and all ones. */
  lemma FullBorrow(w: nat, x: nat, y: nat)
    requires x < Two(w) && y < Two(w)
    ensures Borrows(w, x, y) == w <==> x == 0 && y == Two(w) - 1
  {
    hide Two, Clz, Borrows;
    BorrowsBounds(w, x, y);
    TwoZero();
    var t := Borrows(w, x, y);
    if t < w {
      ZeroBelow(w - t - 1);
    }
  }

  lemma OnesInside(w: nat, m: nat, l: nat, l': nat, d: nat, j: nat)
    requires w > 0 && Digit(w, m, Bits(w, l') + d, j) == Two(w) - 1
    ensures j < l + l' + d
  {
    hide Two, Digit, Bits, Base;
    BaseEven(w);
    BaseIs(w);
    ZeroBelow(w - 1);
    if j >= l + l' + d {
      Reach(w, l, l', d, j);
      DigitBeyond(w, m, Bits(w, l') + d, j);
    }
  }
}

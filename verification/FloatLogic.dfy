/** bf_logic_op: AND, OR and XOR of integers in infinite two's complement, on sign and magnitude. */
module FloatLogic {
  import opened Limbs
  import opened LimbUnary
  import opened RoundSpec
  import opened FloatBits
  import opened FloatRound
  import opened FloatDigits
  import opened FloatCancel
  import opened FloatUnits
  import opened BigFloat
  import opened FloatAdd
  import opened FloatExact
  import opened BitLogic

  // ---- two's complement

  /** Bit k of x in infinite two's complement. */
  ghost predicate IntBit(x: int, k: nat) {
    (x / Two(k)) % 2 == 1
  }

  /** x is n, or the complement of n. */
  ghost function Complemented(negative: bool, n: nat): int {
    if negative then -1 - n else n
  }

  /** z is the result of the operation on x and y: bit by bit on infinite two's complement. */
  ghost predicate IsLogic(op: Logic, x: int, y: int, z: int) {
    forall k: nat :: IntBit(z, k) <==> Combines(op, IntBit(x, k), IntBit(y, k))
  }

  lemma IntBitIs(negative: bool, n: nat, k: nat)
    ensures IntBit(Complemented(negative, n), k) <==> BitSet(n, k) != negative
  {
    hide Two, Quot, Rem;
    QuotRem(n, k);
    var p: int, q: int, r: int := Two(k), Quot(n, k), Rem(n, k);
    if negative {
      Distrib(p, -1, q);
      DivUnique(-1 - n, p, -1 - q, p - 1 - r);
    } else {
      DivUnique(n, p, q, r);
    }
  }

  /** Integers with the same bits are equal. */
  lemma BitsDetermine(x: int, y: int)
    requires forall k: nat :: IntBit(x, k) <==> IntBit(y, k)
    ensures x == y
  {
    hide Two, Quot, IntBit;
    var a, m := Split(x);
    var b, n := Split(y);
    var k := m + n;
    BelowPower(m, k);
    BelowPower(n, k);
    IntBitIs(a, m, k);
    IntBitIs(b, n, k);
    if m != n {
      var i := DifferentBit(m, n);
      IntBitIs(a, m, i);
      IntBitIs(b, n, i);
    }
  }

  lemma Split(x: int) returns (negative: bool, n: nat)
    ensures x == Complemented(negative, n)
  {
    negative := x < 0;
    n := if x < 0 then -1 - x else x;
  }

  lemma {:induction false} NatBelowTwo(m: nat)
    ensures m < Two(m)
  {
    if m > 0 {
      NatBelowTwo(m - 1);
      TwoNext(m - 1);
    } else {
      TwoZero();
    }
  }

  lemma BelowPower(m: nat, k: nat)
    requires m <= k
    ensures !BitSet(m, k)
  {
    hide Two, Quot, Rem;
    NatBelowTwo(m);
    TwoMono(m, k);
    QuotSmall(m, k);
  }

  lemma {:induction false} DifferentBit(m: nat, n: nat) returns (i: nat)
    requires m != n
    ensures BitSet(m, i) != BitSet(n, i)
  {
    hide Two, Quot;
    ZeroQuot(m, 0);
    ZeroQuot(n, 0);
    if m % 2 != n % 2 {
      i := 0;
    } else {
      var j := DifferentBit(m / 2, n / 2);
      QuotOne(m);
      QuotOne(n);
      NestedQuot(m, 1, j);
      NestedQuot(n, 1, j);
      i := 1 + j;
    }
  }

  // ---- the bits of a limb

  /** Bit j of limb i of n. */
  lemma LimbBit(w: nat, n: nat, i: nat, j: nat)
    requires j < w
    ensures BitSet(Rem(Quot(n, Bits(w, i)), w), j) <==> BitSet(n, Bits(w, i) + j)
    ensures Rem(Quot(n, Bits(w, i)), w) < Two(w)
  {
    hide Two, Quot, Rem, Bits;
    var x := Quot(n, Bits(w, i));
    QuotRem(x, w);
    RemQuot(x, w, j);
    NestedQuot(n, Bits(w, i), j);
    var y := Quot(x, j);
    QuotRem(y, w - j);
    TwoNext(w - j - 1);
    Assoc(2, Two(w - j - 1), Quot(y, w - j));
    EvenShift(Two(w - j - 1) * Quot(y, w - j), Rem(y, w - j));
  }

  /** A limb of ones, or zero. */
  function Mask(w: nat, ones: bool): nat {
    if ones then Base(w) - 1 else 0
  }

  lemma MaskBit(w: nat, ones: bool, j: nat)
    requires j < w
    ensures (BitSet(Mask(w, ones), j) <==> ones) && Mask(w, ones) < Two(w)
  {
    hide Two, Quot, Rem;
    BaseIs(w);
    if ones {
      TwoAdd(j, w - j);
      Distrib(Two(j), Two(w - j), 1);
      TwoPos(j);
      TwoPos(w - j);
      QuotIs(Two(w) - 1, j, Two(w - j) - 1, Two(j) - 1);
      TwoNext(w - j - 1);
    } else {
      ZeroBits(0, j);
    }
  }

  /** One limb of the loop. */
  function LogicLimb(w: nat, op: Logic, v1: nat, v2: nat, s1: bool, s2: bool, s: bool): nat {
    LimbOp(XOR, LimbOp(op, LimbOp(XOR, v1, Mask(w, s1)), LimbOp(XOR, v2, Mask(w, s2))), Mask(w, s))
  }

  lemma LogicLimbBit(w: nat, op: Logic, v1: nat, v2: nat, s1: bool, s2: bool, s: bool, j: nat)
    requires j < w && v1 < Two(w) && v2 < Two(w)
    ensures LogicLimb(w, op, v1, v2, s1, s2, s) < Two(w)
    ensures BitSet(LogicLimb(w, op, v1, v2, s1, s2, s), j) <==>
      (Combines(op, BitSet(v1, j) != s1, BitSet(v2, j) != s2) != s)
  {
    hide Two, Quot, LimbOp, Mask, BitSet;
    MaskBit(w, s1, j);
    MaskBit(w, s2, j);
    MaskBit(w, s, j);
    var x, y := LimbOp(XOR, v1, Mask(w, s1)), LimbOp(XOR, v2, Mask(w, s2));
    OpBound(XOR, w, v1, Mask(w, s1));
    OpBound(XOR, w, v2, Mask(w, s2));
    OpBound(op, w, x, y);
    OpBound(XOR, w, LimbOp(op, x, y), Mask(w, s));
    OpBit(XOR, v1, Mask(w, s1), j);
    OpBit(XOR, v2, Mask(w, s2), j);
    OpBit(op, x, y, j);
    OpBit(XOR, LimbOp(op, x, y), Mask(w, s), j);
  }

  // ---- integers as floats

  /** The float a is the integer of magnitude n. */
  ghost predicate IsInteger(a: BigFloat, n: nat)
    reads a, a.tab
  {
    Numeric(a) && Absolute(a) == n as real
  }

  lemma IntegerMantissa(v: nat, k: int, n: nat)
    requires Units(v, -k) == n as real
    ensures if k >= 0 then v == n * Two(k) else n == v * Two(-k)
  {
    hide Two, Scale, Units;
    if k >= 0 {
      UnitsScaled(v, -k, 0, k);
      TwoZero();
      ScaleNat(Two(k), n);
    } else {
      UnitsNat(v, -k);
    }
  }

  /** Limb i of the integer is where get_bits looks for it. */
  lemma IntegerLimb(w: nat, v: nat, k: int, n: nat, i: nat)
    requires Units(v, -k) == n as real
    ensures BitsAt(w, v, k + Bits(w, i)) == Rem(Quot(n, Bits(w, i)), w)
  {
    hide Two, Quot, Rem, Bits, Units;
    var z := Bits(w, i);
    IntegerMantissa(v, k, n);
    if k >= 0 {
      QuotIs(v, k, n, 0);
      NestedQuot(v, k, z);
    } else if k + z >= 0 {
      LeadShift(v, -k, z);
    } else {
      TwoAdd(-k - z, z);
      Assoc(v, Two(-k - z), Two(z));
      QuotIs(n, z, v * Two(-k - z), 0);
    }
  }

  lemma LeadShift(v: nat, d: nat, z: nat)
    requires d <= z
    ensures Quot(v * Two(d), z) == Quot(v, z - d)
  {
    hide Two, Quot, Rem;
    QuotIs(v * Two(d), d, v, 0);
    NestedQuot(v * Two(d), d, z - d);
  }

  /** get_bits at limb i of the integer */
  method GetLimb(a: BigFloat, i: nat, ghost n: nat) returns (x: nat)
    requires IsInteger(a, n)
    ensures x == Rem(Quot(n, Bits(a.w, i)), a.w)
  {
    hide Two, Quot, Rem, Bits, Units, Val, Base, GetBits, TopBit;
    if a.kind == Zero {
      ZeroBits(a.w, Bits(a.w, i));
      return 0;
    }
    var offset := Bits(a.w, a.tab.Length) - a.expn;
    x := GetBits(a.w, a.tab[..], offset + Bits(a.w, i));
    TopBitFacts(a.w, a.tab[..]);
    GetBitsCorrect(a.w, a.tab[..], offset + Bits(a.w, i));
    IntegerLimb(a.w, Val(Base(a.w), a.tab[..]), offset, n, i);
  }

  /** The exponent of an integer; that of zero is below every other. */
  function Exponent(a: BigFloat): int
    reads a
  {
    if a.kind == Finite then a.expn else 0
  }

  /** The magnitude is below 2^expn, and a finite integer is at least 1. */
  lemma IntegerBelow(a: BigFloat, n: nat)
    requires IsInteger(a, n)
    ensures (n == 0 <==> a.kind == Zero) && Exponent(a) >= 0 && n < Two(Exponent(a)) && (n > 0 ==> Exponent(a) > 0)
  {
    hide Two, Bits, Units, Val, Base, TopBit;
    TwoZero();
    if a.kind == Finite {
      TopBitFacts(a.w, a.tab[..]);
      AlonePositive(a, 0);
      var v, k := Val(Base(a.w), a.tab[..]), Bits(a.w, a.tab.Length);
      UnitsMono(Two(k), v, a.expn - k);
      UnitsShift(1, a.expn - k, k);
      assert 1 * Two(k) == Two(k);
      if a.expn <= 0 {
        PowerMono(a.expn, 0);
        UnitsNat(1, 0);
      } else {
        UnitsNat(1, a.expn);
        TwoPos(a.expn);
      }
    }
  }

  /** bf_set_si for 1 or -1 */
  method SetOne(w: nat, negative: bool) returns (r: BigFloat)
    requires w > 0
    ensures fresh(r) && r.w == w && Numeric(r) && r.sign == negative && Absolute(r) == 1.0
  {
    hide Two, Bits, Units, Val, Base, TopBit;
    var t := new nat[1];
    t[0] := Two(w - 1);
    assert t[..] == [Two(w - 1)];
    OneLimb(w, 1, 0, w, 0);
    r := new BigFloat(w, Finite, negative, 1, t);
    OneValue(w);
  }

  lemma OneValue(w: nat)
    requires w > 0
    ensures Units(Val(Base(w), [Two(w - 1)]), 1 - Bits(w, 1) - 0) == 1.0
  {
    hide Two, Units, Val, Base;
    ValOne(Base(w), Two(w - 1));
    BitsOne(w);
    assert 1 * Two(w - 1) == Two(w - 1);
    UnitsShift(1, 1 - w, w - 1);
    UnitsNat(1, 0);
    TwoZero();
  }

  /** Integers up to 2^eMax are in the range. */
  lemma IntegerInRange(f: Format, n: nat, e: nat)
    requires f.eMin <= 1 && n < Two(e) && e <= f.eMax
    ensures InRange(f, n as real)
  {
    hide Two, Units;
    UnitsNat(n, 0);
    TwoZero();
    if n > 0 {
      PowerMono(f.eMin - 1, 0);
      UnitsMono(1, n, 0);
      UnitsNat(1, e);
      PowerMono(e, f.eMax);
    }
  }

  /** bf_add_si with 1 or -1, on integers */
  method AddOneTo(a: BigFloat, negative: bool, f: Format, ghost x: int, ghost e: nat) returns (r: BigFloat)
    requires Numeric(a) && Value(a) == x as real && Unlimited(f) && f.eMin <= 1 && e <= f.eMax
    requires var y := if negative then x - 1 else x + 1; (if y < 0 then -y else y) < Two(e)
    ensures fresh(r) && r.w == a.w && Numeric(r) && Value(r) == (if negative then x - 1 else x + 1) as real
  {
    hide Two, Units, InRange, Absolute, Unlimited;
    NumericFacts(a);
    var one := SetOne(a.w, negative);
    ghost var y := if negative then x - 1 else x + 1;
    IntegerInRange(f, if y < 0 then -y else y, e);
    r := AddExact(a, one, negative, f, RNDZ);
  }

  // ---- bf_logic_op

  /** The complement of a negative operand is formed by adding one. */
  method Operand(a1: BigFloat, negative: bool, f: Format, ghost x: int, ghost e: nat)
    returns (a: BigFloat, ghost n: nat)
    requires Numeric(a1) && Value(a1) == x as real && Unlimited(f) && f.eMin <= 1 && e <= f.eMax
    requires (negative <==> x < 0) && (if x < 0 then -x else x) < Two(e)
    ensures a.w == a1.w && IsInteger(a, n) && x == Complemented(negative, n) && n < Two(e)
  {
    hide Two, Unlimited, Absolute;
    a := a1;
    if negative {
      a := AddOneTo(a1, false, f, x, e);
    }
    n := if negative then -1 - x else x;
    AbsoluteIs(a);
  }

  /** a1->sign, except that minus zero is positive */
  method OperandSign(a: BigFloat, ghost x: int) returns (negative: bool)
    requires Numeric(a) && Value(a) == x as real
    ensures negative <==> x < 0
  {
    hide Two, Absolute;
    ghost var n: nat := if x < 0 then -x else x;
    AbsoluteIs(a);
    IntegerBelow(a, n);
    NumericFacts(a);
    negative := Exponent(a) > 0 && a.sign;
  }

  /** An integer below 2^e has an exponent of at most e. */
  lemma ExponentAtMost(a: BigFloat, n: nat, e: nat)
    requires IsInteger(a, n) && n < Two(e)
    ensures Exponent(a) <= e
  {
    hide Two, Bits, Units, Val, Base, TopBit;
    IntegerBelow(a, n);
    if a.kind == Finite && a.expn > e {
      TopBitFacts(a.w, a.tab[..]);
      var v, k := Val(Base(a.w), a.tab[..]), Bits(a.w, a.tab.Length);
      UnitsMono(Two(k), 2 * v, a.expn - k);
      assert 1 * Two(k) == Two(k);
      UnitsShift(1, a.expn - k, k);
      UnitsSum(v, v, a.expn - k);
      UnitsNat(1, a.expn);
      TwoMono(e + 1, a.expn);
      TwoNext(e);
    }
  }

  /** The bits that the loop computes: l limbs are enough when the sign extends what is beyond them. */
  ghost predicate Enough(op: Logic, m: nat, n: nat, s1: bool, s2: bool, k: nat) {
    forall i :: i >= k ==> (Combines(op, BitSet(m, i) != s1, BitSet(n, i) != s2) <==> Combines(op, s1, s2))
  }

  lemma BitsBeyond(m: nat, e: nat, i: nat)
    requires m < Two(e) && e <= i
    ensures !BitSet(m, i)
  {
    hide Two, Quot;
    TwoMono(e, i);
    QuotSmall(m, i);
  }

  /** The length of the result in bits, before rounding up to limbs. */
  function ResultBits(op: Logic, e1: nat, e2: nat, s1: bool, s2: bool): nat {
    if op == AND && !(s1 && s2) then
      if !s1 && !s2 then (if e1 < e2 then e1 else e2) else if !s1 then e1 else e2
    else if e1 > e2 then e1 else e2
  }

  lemma ResultBitsEnough(op: Logic, m: nat, n: nat, e1: nat, e2: nat, s1: bool, s2: bool, k: nat)
    requires m < Two(e1) && n < Two(e2) && k >= ResultBits(op, e1, e2, s1, s2)
    ensures Enough(op, m, n, s1, s2, k)
  {
    hide Two, BitSet;
    forall i | i >= k
      ensures Combines(op, BitSet(m, i) != s1, BitSet(n, i) != s2) <==> Combines(op, s1, s2)
    {
      if i >= e1 {
        BitsBeyond(m, e1, i);
      }
      if i >= e2 {
        BitsBeyond(n, e2, i);
      }
    }
  }

  /** The loop over the limbs. */
  method LogicLimbs(a: BigFloat, b: BigFloat, op: Logic, s1: bool, s2: bool, s: bool, l: nat, ghost m: nat,
      ghost n: nat) returns (tab: array<nat>)
    requires IsInteger(a, m) && IsInteger(b, n) && a.w == b.w
    ensures fresh(tab) && tab.Length == l && Digits(Base(a.w), tab[..])
    ensures forall k :: 0 <= k < Bits(a.w, l) ==>
      (BitSet(Val(Base(a.w), tab[..]), k) <==> (Combines(op, BitSet(m, k) != s1, BitSet(n, k) != s2) != s))
  {
    hide Two, Bits, Val, Base, Quot, Rem, Absolute, BitSet, LogicLimb, Combines;
    var w := a.w;
    NumericFacts(a);
    tab := new nat[l](_ => 0);
    var i := 0;
    BaseIs(w);
    TwoPos(w);
    while i < l
      invariant 0 <= i <= l && Digits(Base(w), tab[..])
      invariant forall j :: 0 <= j < i ==> LimbDone(w, op, m, n, s1, s2, s, tab[j], j)
    {
      var v1 := GetLimb(a, i, m);
      var v2 := GetLimb(b, i, n);
      tab[i] := LogicLimb(w, op, v1, v2, s1, s2, s);
      OneLimbDone(w, op, m, n, s1, s2, s, i);
      i := i + 1;
    }
    forall k | 0 <= k < Bits(w, l)
      ensures BitSet(Val(Base(w), tab[..]), k) <==> (Combines(op, BitSet(m, k) != s1, BitSet(n, k) != s2) != s)
    {
      Position(w, l, k);
      assert LimbDone(w, op, m, n, s1, s2, s, tab[k / w], k / w);
      LimbBitDone(w, op, m, n, s1, s2, s, tab[..], k / w, k % w);
    }
  }

  /** Limb i of the result has the bits it should. */
  ghost predicate LimbDone(w: nat, op: Logic, m: nat, n: nat, s1: bool, s2: bool, s: bool, x: nat, i: nat) {
    forall j :: 0 <= j < w ==>
      (BitSet(x, j) <==> (Combines(op, BitSet(m, Bits(w, i) + j) != s1, BitSet(n, Bits(w, i) + j) != s2) != s))
  }

  lemma OneLimbDone(w: nat, op: Logic, m: nat, n: nat, s1: bool, s2: bool, s: bool, i: nat)
    requires w > 0
    ensures var x := LogicLimb(w, op, Rem(Quot(m, Bits(w, i)), w), Rem(Quot(n, Bits(w, i)), w), s1, s2, s);
      x < Base(w) && LimbDone(w, op, m, n, s1, s2, s, x, i)
  {
    hide Two, Bits, Quot, Rem, BitSet, LogicLimb, Combines;
    BaseIs(w);
    var v1, v2 := Rem(Quot(m, Bits(w, i)), w), Rem(Quot(n, Bits(w, i)), w);
    LimbBit(w, m, i, 0);
    LimbBit(w, n, i, 0);
    LogicLimbBit(w, op, v1, v2, s1, s2, s, 0);
    var x := LogicLimb(w, op, v1, v2, s1, s2, s);
    forall j | 0 <= j < w
      ensures BitSet(x, j) <==> (Combines(op, BitSet(m, Bits(w, i) + j) != s1, BitSet(n, Bits(w, i) + j) != s2) != s)
    {
      LimbBit(w, m, i, j);
      LimbBit(w, n, i, j);
      LogicLimbBit(w, op, v1, v2, s1, s2, s, j);
    }
  }

  lemma LimbBitDone(w: nat, op: Logic, m: nat, n: nat, s1: bool, s2: bool, s: bool, t: seq<nat>, i: nat, j: nat)
    requires i < |t| && j < w && Digits(Base(w), t) && LimbDone(w, op, m, n, s1, s2, s, t[i], i)
    ensures var k := Bits(w, i) + j;
      BitSet(Val(Base(w), t), k) <==> (Combines(op, BitSet(m, k) != s1, BitSet(n, k) != s2) != s)
  {
    hide Two, Bits, Val, Base, Quot, Combines;
    BitInLimb(w, t, i, j);
    assert BitSet(t[i], j) <==> Quot(t[i], j) % 2 == 1;
  }

  /** All the bits of the result. */
  lemma ResultBitsDone(op: Logic, x: int, y: int, m: nat, n: nat, s1: bool, s2: bool, t: nat, k: nat)
    requires x == Complemented(s1, m) && y == Complemented(s2, n) && Enough(op, m, n, s1, s2, k) && t < Two(k)
    requires forall i :: 0 <= i < k ==>
      (BitSet(t, i) <==> (Combines(op, BitSet(m, i) != s1, BitSet(n, i) != s2) != Combines(op, s1, s2)))
    ensures IsLogic(op, x, y, Complemented(Combines(op, s1, s2), t))
  {
    hide Two, BitSet, IntBit, Combines;
    forall i: nat
      ensures IntBit(Complemented(Combines(op, s1, s2), t), i) <==> Combines(op, IntBit(x, i), IntBit(y, i))
    {
      IntBitIs(s1, m, i);
      IntBitIs(s2, n, i);
      IntBitIs(Combines(op, s1, s2), t, i);
      if i >= k {
        BitsBeyond(t, k, i);
      }
    }
  }

  lemma BelowByBits(t: nat, e: nat)
    requires forall i: nat :: i >= e ==> !BitSet(t, i)
    ensures t < Two(e)
  {
    hide Two, Quot, Rem, BitSet;
    var q := Quot(t, e);
    QuotRem(t, e);
    if q != 0 {
      var i := DifferentBit(q, 0);
      ZeroBit(i);
      BitOfQuot(t, e, i);
    }
  }

  lemma ZeroBit(i: nat)
    ensures !BitSet(0, i)
  {
    hide Two, Quot;
    TwoPos(i);
    QuotSmall(0, i);
  }

  lemma BitOfQuot(t: nat, e: nat, i: nat)
    ensures BitSet(Quot(t, e), i) <==> BitSet(t, e + i)
  {
    hide Two, Quot;
    NestedQuot(t, e, i);
  }

  /** The result has no more bits than the longer operand. */
  lemma ResultBelow(op: Logic, x: int, y: int, m: nat, n: nat, s1: bool, s2: bool, t: nat, e: nat)
    requires x == Complemented(s1, m) && y == Complemented(s2, n) && m < Two(e) && n < Two(e)
    requires IsLogic(op, x, y, Complemented(Combines(op, s1, s2), t))
    ensures t < Two(e)
  {
    hide Two, BitSet, IntBit, Combines, Complemented;
    forall i: nat | i >= e
      ensures !BitSet(t, i)
    {
      IntBitIs(s1, m, i);
      IntBitIs(s2, n, i);
      IntBitIs(Combines(op, s1, s2), t, i);
      BitsBeyond(m, e, i);
      BitsBeyond(n, e, i);
    }
    BelowByBits(t, e);
  }

  /** bf_logic_op: z is the result of the operation on all the bits of x and y */
  method LogicOp(a1: BigFloat, b1: BigFloat, op: Logic, f: Format, ghost x: int, ghost y: int)
    returns (r: BigFloat, ghost z: int)
    requires Numeric(a1) && Numeric(b1) && a1.w == b1.w && Value(a1) == x as real && Value(b1) == y as real
    requires Unlimited(f) && f.eMin <= 1 && Exponent(a1) < f.eMax && Exponent(b1) < f.eMax
    ensures fresh(r) && r.w == a1.w && Numeric(r) && Value(r) == z as real
    ensures IsLogic(op, x, y, z) && (r.kind == Zero ==> !r.sign)
  {
    hide Two, Bits, Val, Base, Quot, Rem, Absolute, BitSet, Combines, IntBit, Unlimited, Complemented, ResultBits,
      Enough, Digits, IsLogic;
    var w := a1.w;
    NumericFacts(a1);
    var s1 := OperandSign(a1, x);
    var s2 := OperandSign(b1, y);
    ghost var e := LargerExponent(a1, b1, x, y);
    var a, b;
    ghost var m, n;
    a, m := Operand(a1, s1, f, x, e);
    b, n := Operand(b1, s2, f, y, e);
    var s := Combines(op, s1, s2);
    IntegerBelow(a, m);
    IntegerBelow(b, n);
    ExponentAtMost(a, m, e);
    ExponentAtMost(b, n, e);
    var bits := ResultBits(op, Exponent(a), Exponent(b), s1, s2);
    ResultBitsAtMost(op, Exponent(a), Exponent(b), s1, s2, e);
    var max := if bits > 1 then bits else 1;
    var l := (max + w - 1) / w;
    LimbCount(w, max);
    var tab := LogicLimbs(a, b, op, s1, s2, s, l, m, n);
    ghost var t := Val(Base(w), tab[..]);
    LimbsBelow(w, tab[..]);
    ResultBitsEnough(op, m, n, Exponent(a), Exponent(b), s1, s2, Bits(w, l));
    ResultBitsDone(op, x, y, m, n, s1, s2, t, Bits(w, l));
    z := Complemented(s, t);
    ResultBelow(op, x, y, m, n, s1, s2, t, e);
    r := FromLimbs(w, tab, s, f, e);
  }

  lemma NonzeroKind(r: BigFloat)
    requires Value(r) != 0.0
    ensures r.kind != Zero
  {
  }

  /** The limbs as the magnitude of a result; a negative result is complemented by subtracting one. */
  method FromLimbs(w: nat, tab: array<nat>, negative: bool, f: Format, ghost k: nat) returns (r: BigFloat)
    requires w > 0 && Digits(Base(w), tab[..]) && Unlimited(f) && f.eMin <= 1
    requires Val(Base(w), tab[..]) < Two(k) && k < f.eMax
    modifies tab
    ensures fresh(r) && r.w == w && Numeric(r) && Value(r) == Complemented(negative, old(Val(Base(w), tab[..]))) as real
    ensures r.kind == Zero ==> !r.sign
  {
    hide Two, Bits, Val, Base, Absolute, Unlimited, Digits;
    ghost var t := Val(Base(w), tab[..]);
    IntegerInRange(f, t, k);
    UnitsNat(t, 0);
    TwoZero();
    r := NormalizeExact(w, tab, Bits(w, tab.Length), negative, f);
    if negative {
      NextBelow(t, k);
      r := AddOneTo(r, true, f, 0 - t as int, k + 1);
      NonzeroKind(r);
    }
  }

  lemma LimbsBelow(w: nat, s: seq<nat>)
    requires Digits(Base(w), s)
    ensures Val(Base(w), s) < Two(Bits(w, |s|))
  {
    hide Two, Bits, Val, Base;
    ValBound(Base(w), s);
    BasePow(w, |s|);
  }

  lemma NextBelow(t: nat, k: nat)
    requires t < Two(k)
    ensures t + 1 < Two(k + 1)
  {
    TwoNext(k);
    TwoPos(k);
  }

  lemma ResultBitsAtMost(op: Logic, e1: nat, e2: nat, s1: bool, s2: bool, e: nat)
    requires e1 <= e && e2 <= e
    ensures ResultBits(op, e1, e2, s1, s2) <= e
  {
  }

  lemma LargerExponent(a: BigFloat, b: BigFloat, x: int, y: int) returns (e: nat)
    requires Numeric(a) && Numeric(b) && Value(a) == x as real && Value(b) == y as real
    ensures e == (if Exponent(a) > Exponent(b) then Exponent(a) else Exponent(b))
    ensures (if x < 0 then -x else x) < Two(e) && (if y < 0 then -y else y) < Two(e)
  {
    hide Two, Absolute;
    var n: nat, m: nat := if x < 0 then -x else x, if y < 0 then -y else y;
    AbsoluteIs(a);
    AbsoluteIs(b);
    IntegerBelow(a, n);
    IntegerBelow(b, m);
    e := if Exponent(a) > Exponent(b) then Exponent(a) else Exponent(b);
    TwoMono(Exponent(a), e);
    TwoMono(Exponent(b), e);
  }

  /** The result is the only integer with these bits. */
  lemma LogicUnique(op: Logic, x: int, y: int, z: int, z': int)
    requires IsLogic(op, x, y, z) && IsLogic(op, x, y, z')
    ensures z == z'
  {
    hide IntBit, Combines;
    BitsDetermine(z, z');
  }

  // ---- laws of the three operations, without a word about bits in the conclusions

  lemma BitOfHalf(x: int, k: nat)
    ensures IntBit(x / 2, k) <==> IntBit(x, k + 1)
  {
    hide Two;
    var p: int := Two(k);
    TwoNext(k);
    var q, r := (x / 2) / p, (x / 2) % p;
    assert x / 2 == p * q + r;
    HalvedTwice(x, p, q, r);
    DivUnique(x, 2 * p, q, 2 * r + x % 2);
  }

  lemma HalvedTwice(x: int, p: int, q: int, r: int)
    requires x / 2 == p * q + r
    ensures x == q * (2 * p) + (2 * r + x % 2)
  {
    Assoc(q, 2, p);
    Assoc(2, p, q);
    assert q * (2 * p) == 2 * (p * q);
  }

  lemma LowestBit(x: int)
    ensures IntBit(x, 0) <==> x % 2 == 1
  {
    TwoZero();
  }

  lemma LogicHalves(op: Logic, x: int, y: int, z: int)
    requires IsLogic(op, x, y, z)
    ensures IsLogic(op, x / 2, y / 2, z / 2) && (z % 2 == 1 <==> Combines(op, x % 2 == 1, y % 2 == 1))
  {
    hide IntBit, Combines;
    LowestBit(x);
    LowestBit(y);
    LowestBit(z);
    forall k: nat
      ensures IntBit(z / 2, k) <==> Combines(op, IntBit(x / 2, k), IntBit(y / 2, k))
    {
      BitOfHalf(x, k);
      BitOfHalf(y, k);
      BitOfHalf(z, k);
    }
  }

  lemma UniformBits(negative: bool, k: nat)
    ensures IntBit(if negative then -1 else 0, k) <==> negative
  {
    IntBitIs(negative, 0, k);
    ZeroBit(k);
  }

  /** On 0 and -1 the operation is that on the signs. */
  lemma LogicOfSigns(op: Logic, s: bool, t: bool, z: int)
    requires IsLogic(op, if s then -1 else 0, if t then -1 else 0, z)
    ensures z == if Combines(op, s, t) then -1 else 0
  {
    hide IntBit, Combines;
    var z' := if Combines(op, s, t) then -1 else 0;
    forall k: nat
      ensures IntBit(z, k) <==> IntBit(z', k)
    {
      UniformBits(s, k);
      UniformBits(t, k);
      UniformBits(Combines(op, s, t), k);
    }
    BitsDetermine(z, z');
  }

  /** The digits left of x above its sign. */
  function Extent(x: int): nat {
    if x >= 0 then x else -1 - x
  }

  /** or + and and xor + 2 and are the sum. */
  lemma {:induction false} LogicSums(x: int, y: int, o: int, a: int, r: int)
    requires IsLogic(OR, x, y, o) && IsLogic(AND, x, y, a) && IsLogic(XOR, x, y, r)
    ensures o + a == x + y && r + 2 * a == x + y
    decreases Extent(x) + Extent(y)
  {
    hide IsLogic;
    if Extent(x) == 0 && Extent(y) == 0 {
      LogicOfSigns(OR, x < 0, y < 0, o);
      LogicOfSigns(AND, x < 0, y < 0, a);
      LogicOfSigns(XOR, x < 0, y < 0, r);
    } else {
      LogicHalves(OR, x, y, o);
      LogicHalves(AND, x, y, a);
      LogicHalves(XOR, x, y, r);
      LogicSums(x / 2, y / 2, o / 2, a / 2, r / 2);
    }
  }

  lemma ComplementBit(x: int, k: nat)
    ensures IntBit(-1 - x, k) <==> !IntBit(x, k)
  {
    hide IntBit;
    var negative, n := Split(x);
    IntBitIs(negative, n, k);
    IntBitIs(!negative, n, k);
  }

  /** The complement of or is and of the complements. */
  lemma LogicDeMorgan(x: int, y: int, o: int, a: int)
    requires IsLogic(OR, x, y, o) && IsLogic(AND, -1 - x, -1 - y, a)
    ensures -1 - o == a
  {
    hide IntBit;
    forall k: nat
      ensures IntBit(-1 - o, k) <==> IntBit(a, k)
    {
      ComplementBit(x, k);
      ComplementBit(y, k);
      ComplementBit(o, k);
      assert IntBit(o, k) <==> Combines(OR, IntBit(x, k), IntBit(y, k));
      assert IntBit(a, k) <==> Combines(AND, IntBit(-1 - x, k), IntBit(-1 - y, k));
    }
    BitsDetermine(-1 - o, a);
  }
}

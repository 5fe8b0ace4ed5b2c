/** The logical operations on limbs, bit by bit. */
module BitLogic {
  import opened Limbs
  import opened FloatBits
  import opened FloatRound
  import opened FloatDigits

  datatype Logic = OR | XOR | AND

  predicate Combines(op: Logic, p: bool, q: bool) {
    match op
    case OR => p || q
    case XOR => p != q
    case AND => p && q
  }

  /** bf_logic_op1 */
  function LimbOp(op: Logic, x: nat, y: nat): nat {
    if x == 0 && y == 0 then 0
    else 2 * LimbOp(op, x / 2, y / 2) + (if Combines(op, x % 2 == 1, y % 2 == 1) then 1 else 0)
  }

  lemma QuotOne(x: nat)
    ensures Quot(x, 1) == x / 2
  {
    TwoNext(0);
    TwoZero();
  }

  lemma {:induction false} OpQuot(op: Logic, x: nat, y: nat, k: nat)
    ensures Quot(LimbOp(op, x, y), k) == LimbOp(op, Quot(x, k), Quot(y, k))
    decreases k
  {
    hide Two, Quot, Rem;
    var z := LimbOp(op, x, y);
    if k == 0 {
      ZeroQuot(x, 0);
      ZeroQuot(y, 0);
      ZeroQuot(z, 0);
    } else {
      OpQuot(op, x, y, k - 1);
      NestedQuot(x, k - 1, 1);
      NestedQuot(y, k - 1, 1);
      NestedQuot(z, k - 1, 1);
      QuotOne(Quot(x, k - 1));
      QuotOne(Quot(y, k - 1));
      QuotOne(Quot(z, k - 1));
    }
  }

  /** Bit k of the result is the operation on bits k. */
  lemma OpBit(op: Logic, x: nat, y: nat, k: nat)
    ensures BitSet(LimbOp(op, x, y), k) <==> Combines(op, BitSet(x, k), BitSet(y, k))
    ensures BitSet(LimbOp(op, x, y), k) <==>
      match op
      case OR => BitSet(x, k) || BitSet(y, k)
      case XOR => BitSet(x, k) != BitSet(y, k)
      case AND => BitSet(x, k) && BitSet(y, k)
  {
    hide Quot, LimbOp;
    OpQuot(op, x, y, k);
    LowBit(op, Quot(x, k), Quot(y, k));
  }

  lemma LowBit(op: Logic, x: nat, y: nat)
    ensures LimbOp(op, x, y) % 2 == 1 <==> Combines(op, x % 2 == 1, y % 2 == 1)
  {
  }

  lemma OpBound(op: Logic, w: nat, x: nat, y: nat)
    requires x < Two(w) && y < Two(w)
    ensures LimbOp(op, x, y) < Two(w)
  {
    hide Two, Quot, Rem;
    var z := LimbOp(op, x, y);
    QuotSmall(x, w);
    QuotSmall(y, w);
    OpQuot(op, x, y, w);
    QuotRem(z, w);
    MulZero(Two(w), Quot(z, w));
  }

  lemma {:induction false} XorZero(x: nat, y: nat)
    ensures LimbOp(XOR, x, y) == 0 <==> x == y
  {
    if x != 0 || y != 0 {
      XorZero(x / 2, y / 2);
    }
  }

  lemma {:induction false} OrZero(y: nat)
    ensures LimbOp(OR, 0, y) == y
  {
    if y != 0 {
      OrZero(y / 2);
    }
  }

  /** Bits that do not overlap are added. */
  lemma {:induction false} OrDisjoint(x: nat, y: nat, p: nat)
    requires x < Two(p)
    ensures LimbOp(OR, x, Two(p) * y) == x + Two(p) * y
    decreases p
  {
    hide Two;
    var t := Two(p) * y;
    if p == 0 {
      TwoZero();
      OrZero(t);
    } else {
      TwoNext(p - 1);
      Assoc(2, Two(p - 1), y);
      OrDisjoint(x / 2, y, p - 1);
      OrStep(x, t, Two(p - 1) * y);
    }
  }

  lemma OrStep(x: nat, t: nat, h: nat)
    requires t == 2 * h
    ensures LimbOp(OR, x, t) == 2 * LimbOp(OR, x / 2, h) + x % 2
  {
  }
}

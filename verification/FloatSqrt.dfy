/** bf_sqrt: the integer square root with a sticky bit is the correctly rounded square root. */
module FloatSqrt {
  import opened Limbs
  import opened LimbKernels
  import opened LimbUnary
  import opened LimbRecip
  import opened LimbDivnorm
  import opened LimbSqrt
  import opened SqrtWord
  import opened RoundSpec
  import opened FloatBits
  import opened FloatRound
  import opened BigFloat
  import opened FloatUnits

  const W: nat := 64

  lemma LimbIsBase()
    ensures Base(W) == LIMB && W > 0
  {
    TwoAdd(32, 32);
    TwoAdd(16, 16);
    TwoAdd(8, 8);
    assert Two(8) == 256;
  }

  // ---- the real square root and the integer one

  function Square(x: real): real {
    x * x
  }

  /** The real root of i + d lies between the integer root of i and the next integer, and on the former only when
      nothing is left. */
  lemma RealRoot(i: nat, d: real, s: nat, r: nat, x: real)
    requires IsSqrt(i, s, r) && 0.0 <= d < 1.0 && x >= 0.0 && Square(x) == i as real + d
    ensures 0.0 <= x - s as real < 1.0 && (x == s as real <==> r == 0 && d == 0.0)
  {
    hide Square;
    var y, z := s as real, (s + 1) as real;
    RealSquare(s);
    RealSquare(s + 1);
    LowerRoot(s + 1);
    if x < y {
      SquareGrows(x, y);
    }
    if z < x {
      SquareGrows(z, x);
    }
    if y < x {
      SquareGrows(y, x);
    }
  }

  lemma RealSquare(s: int)
    ensures Square(s as real) == (s * s) as real
  {
  }

  lemma SquareGrows(x: real, y: real)
    requires 0.0 <= x < y
    ensures Square(x) < Square(y)
  {
    hide Times, Square;
    var d := y - x;
    TimesPositive(d, d);
    TimesNonnegative(x, d);
    SquareParts(x, d, y);
  }

  function Times(x: real, y: real): real {
    x * y
  }

  lemma TimesPositive(x: real, y: real)
    requires 0.0 < x && 0.0 < y
    ensures 0.0 < Times(x, y)
  {
  }

  lemma TimesNonnegative(x: real, y: real)
    requires 0.0 <= x && 0.0 <= y
    ensures 0.0 <= Times(x, y)
  {
  }

  lemma SquareParts(x: real, d: real, y: real)
    requires y == x + d
    ensures Square(y) == Square(x) + 2.0 * Times(x, d) + Times(d, d)
  {
  }

  // ---- the argument of the integer square root

  /** The mantissa v of len limbs, halved when the exponent is odd, at the scale of 2n limbs. */
  ghost function Argument(v: nat, len: nat, n: nat, odd: bool): real {
    var x := if len <= 2 * n then (v * Two(Bits(W, 2 * n - len))) as real
      else v as real / Two(Bits(W, len - 2 * n)) as real;
    if odd then x / 2.0 else x
  }

  /** The argument in terms of the integer i of 2n limbs and the lost part: the limbs below, low, and the lost
      bit. */
  lemma ArgumentParts(v: nat, len: nat, n: nat, odd: bool, top: nat, low: nat, i: nat, bit: nat)
    requires len <= 2 * n ==> top == v * Two(Bits(W, 2 * n - len)) && low == 0
    requires len > 2 * n ==> v == top * Two(Bits(W, len - 2 * n)) + low && low < Two(Bits(W, len - 2 * n))
    requires if odd then top == 2 * i + bit && bit <= 1 else i == top && bit == 0
    ensures var d := Argument(v, len, n, odd) - i as real; 0.0 <= d < 1.0 && (d == 0.0 <==> low == 0 && bit == 0)
  {
    hide Two, Bits;
    var f := 0.0;
    if len > 2 * n {
      var k := Two(Bits(W, len - 2 * n));
      f := low as real / k as real;
      Fraction(v, top, k, low);
    }
  }

  lemma Fraction(v: nat, top: nat, k: nat, low: nat)
    requires k > 0 && v == top * k + low && low < k
    ensures var f := low as real / k as real;
      v as real / k as real == top as real + f && 0.0 <= f < 1.0 && (f == 0.0 <==> low == 0)
  {
    var z := k as real;
    assert v as real == top as real * z + low as real;
    assert (top as real * z) / z == top as real;
    assert (low as real / z) * z == low as real;
    FractionBelow(low as real / z, z, low as real);
  }

  lemma FractionBelow(f: real, z: real, low: real)
    requires f * z == low && 0.0 <= low < z
    ensures 0.0 <= f < 1.0 && (f == 0.0 <==> low == 0.0)
  {
    if f >= 1.0 {
      TimesNonnegative(f - 1.0, z);
    }
    if f < 0.0 {
      TimesPositive(0.0 - f, z);
    }
    if f > 0.0 {
      TimesPositive(f, z);
    }
  }

  /** The sticky bit of bf_sqrt. */
  lemma StickyRoot(i: nat, d: real, s: nat, r: nat, x: real, k: nat, mode: Mode, res: nat)
    requires IsSqrt(i, s, r) && 0.0 <= d < 1.0 && x >= 0.0 && Square(x) == i as real + d && k >= 2
    requires IsRounded(mode, false, Sticky(s, if r == 0 && d == 0.0 then 0 else 1), Two(k), res)
    ensures IsRoundedReal(mode, false, x, Two(k), res)
  {
    hide IsRounded, IsRoundedReal, Sticky, Two, IsSqrt, Square;
    RealRoot(i, d, s, r, x);
    TwoAdd(2, k - 2);
    FourIs();
    StickyReal(mode, false, s, x - s as real, Two(k - 2), res);
    assert s as real + (x - s as real) == x;
  }

  lemma FourIs()
    ensures Two(2) == 4
  {
  }

  // ---- bf_sqrt

  /** The top 2n limbs of a, with zeros below when a is shorter. */
  method TopLimbs(a: seq<nat>, n: nat) returns (t: array<nat>)
    requires TopBit(W, a) && n > 0
    ensures fresh(t) && t.Length == 2 * n && Digits(LIMB, t[..]) && LIMB <= 2 * t[2 * n - 1]
    ensures |a| <= 2 * n ==> Val(LIMB, t[..]) == Val(LIMB, a) * Two(Bits(W, 2 * n - |a|))
    ensures |a| > 2 * n ==> Val(LIMB, a) == Val(LIMB, t[..]) * Two(Bits(W, |a| - 2 * n)) + Val(LIMB, a[..|a| - 2 * n])
  {
    hide Val, Two, Bits, LIMB, SameOutside, Base;
    LimbIsBase();
    var len := |a|;
    var n1 := if 2 * n < len then 2 * n else len;
    t := new nat[2 * n](_ => 0);
    TopBitFacts(W, a);
    ghost var z := t[..];
    CopyLimbs(LIMB, t, 2 * n - n1, a[len - n1..]);
    CopiedTop(a, t[..], z, n1);
  }

  lemma CopiedTop(a: seq<nat>, t: seq<nat>, z: seq<nat>, n1: nat)
    requires TopBit(W, a) && 0 < n1 <= |t| == |z| && n1 <= |a| && (n1 == |t| || n1 == |a|)
    requires SameOutside(z, t, |t| - n1, |t|) && t[|t| - n1..] == a[|a| - n1..]
    requires forall i :: 0 <= i < |z| ==> z[i] == 0
    ensures LIMB <= 2 * t[|t| - 1]
    ensures |a| <= |t| ==> n1 == |a| && Val(LIMB, t) == Val(LIMB, a) * Two(Bits(W, |t| - |a|))
    ensures |a| > |t| ==> Val(LIMB, a) == Val(LIMB, t) * Two(Bits(W, |a| - |t|)) + Val(LIMB, a[..|a| - |t|])
  {
    hide *;
    TopLimb(a);
    assert t[|t| - 1] == t[|t| - n1..][n1 - 1] == a[|a| - n1..][n1 - 1];
    if |a| <= |t| {
      assert a[|a| - n1..] == a;
      PaddedZeros(t, z, |t| - |a|);
      PaddedValue(Val(LIMB, a), t, |t| - |a|);
    } else {
      assert t[|t| - n1..] == t;
      LimbIsBase();
      ValSplit(LIMB, a, |a| - |t|);
      BasePow(W, |a| - |t|);
    }
  }

  lemma PaddedZeros(t: seq<nat>, z: seq<nat>, m: nat)
    requires m <= |t| == |z| && SameOutside(z, t, m, |t|) && forall i :: 0 <= i < |z| ==> z[i] == 0
    ensures Val(LIMB, t[..m]) == 0
  {
    hide Val;
    forall i | 0 <= i < m
      ensures t[..m][i] == 0
    {
      assert t[..m][i] == z[..m][i];
    }
    ValZeros(LIMB, t[..m]);
  }

  lemma PaddedValue(v: nat, t: seq<nat>, m: nat)
    requires m <= |t| && Val(LIMB, t[..m]) == 0 && Val(LIMB, t[m..]) == v
    ensures Val(LIMB, t) == v * Two(Bits(W, m))
  {
    hide *;
    LimbIsBase();
    ValSplit(LIMB, t, m);
    BasePow(W, m);
  }

  lemma TopLimb(a: seq<nat>)
    requires TopBit(W, a)
    ensures LIMB <= 2 * a[|a| - 1]
  {
    hide Val, Two, Bits, LIMB, Base, Pow;
    LimbIsBase();
    LimbFacts();
    TopBitFacts(W, a);
    var m := |a| - 1;
    ValTop(LIMB, a);
    BasePow(W, |a|);
    PowNext(LIMB, m);
    TopAboveHalf(LIMB, Pow(LIMB, m), Val(LIMB, a[..m]), a[m]);
  }

  /** r->tab[0] |= 1 */
  method SetSticky(root: array<nat>)
    requires root.Length > 0 && Digits(LIMB, root[..])
    modifies root
    ensures Digits(LIMB, root[..]) && Val(LIMB, root[..]) == Sticky(old(Val(LIMB, root[..])), 1)
  {
    hide Val, LIMB;
    LimbFacts();
    ghost var s := root[..];
    root[0] := if root[0] % 2 == 0 then root[0] + 1 else root[0];
    assert root[..][1..] == s[1..];
    ValCons(LIMB, s);
    ValCons(LIMB, root[..]);
    Parity(LIMB, s[0], Val(LIMB, s[1..]));
  }

  lemma Parity(b: nat, x: nat, v: nat)
    requires b % 2 == 0
    ensures (x + b * v) % 2 == x % 2
  {
    Assoc(2, b / 2, v);
    EvenShift((b / 2) * v, x);
  }

  /** The integer square root of the argument, with its sticky bit. */
  method RootLimbs(a: seq<nat>, odd: bool, n: nat) returns (root: array<nat>, ghost i: nat, ghost s: nat, ghost r: nat)
    requires TopBit(W, a) && n > 0
    ensures fresh(root) && root.Length == n && TopBit(W, root[..]) && IsSqrt(i, s, r) && s < Two(Bits(W, n)) <= 2 * s
    ensures var d := Argument(Val(LIMB, a), |a|, n, odd) - i as real;
      0.0 <= d < 1.0 && Val(LIMB, root[..]) == Sticky(s, if r == 0 && d == 0.0 then 0 else 1)
  {
    hide *;
    LimbIsBase();
    var t := TopLimbs(a, n);
    ghost var top := Val(LIMB, t[..]);
    var bit := HalveArgument(t, n, odd);
    i := Val(LIMB, t[..]);
    root := new nat[n](_ => 0);
    ZeroDigits(root[..]);
    assert t[..2 * n] == t[..];
    MpSqrtrem(root, t, n);
    assert root[..n] == root[..];
    s, r := Val(LIMB, root[..]), Val(LIMB, t[..n + 1]);
    ghost var cut := if |a| > 2 * n then |a| - 2 * n else 0;
    RootTop(root[..], i, s, r, n);
    LostPart(a, n, odd, top, i, bit);
    var lost := bit != 0;
    if !lost {
      lost := MpScanNz(LIMB, t[..n + 1]);
    }
    if !lost {
      lost := MpScanNz(LIMB, if |a| > 2 * n then a[..|a| - 2 * n] else []);
    }
    NoLimbs();
    StickyOnly(s);
    if lost {
      SetSticky(root);
      RootTopSticky(root[..], s, n);
    }
  }

  lemma NoLimbs()
    ensures Val(LIMB, []) == 0
  {
  }

  lemma StickyOnly(s: nat)
    ensures Sticky(s, 0) == s && s <= Sticky(s, 1)
  {
  }

  lemma ZeroDigits(s: seq<nat>)
    requires forall i :: 0 <= i < |s| ==> s[i] == 0
    ensures Digits(LIMB, s)
  {
  }

  /** The argument is shifted right by one bit when the exponent is odd. */
  method HalveArgument(t: array<nat>, n: nat, odd: bool) returns (bit: nat)
    requires n > 0 && t.Length == 2 * n && Digits(LIMB, t[..]) && LIMB <= 2 * t[2 * n - 1]
    modifies t
    ensures Digits(LIMB, t[..]) && LIMB <= 4 * t[2 * n - 1] && bit <= 1
    ensures Val(LIMB, t[..]) < Pow(LIMB, n) * Pow(LIMB, n) <= 4 * Val(LIMB, t[..]) + 2
    ensures if odd then old(Val(LIMB, t[..])) == 2 * Val(LIMB, t[..]) + bit
      else Val(LIMB, t[..]) == old(Val(LIMB, t[..])) && bit == 0
  {
    hide Val, Pow, LIMB, SameOutside;
    LimbFacts();
    LimbQuarter();
    ghost var s := t[..];
    ArgumentTop(s, n);
    bit := 0;
    if odd {
      assert t[0..2 * n] == s;
      bit := MpShr(2, LIMB / 2, t, 0, 2 * n, 0);
      assert t[0..2 * n] == t[..];
      ValTop(LIMB, t[..]);
      PowNext(LIMB, 2 * n - 1);
      QuarterKept(LIMB, Pow(LIMB, 2 * n - 1), t[2 * n - 1], Val(LIMB, t[..][..2 * n - 1]), Val(LIMB, t[..]), bit);
    }
    ValBound(LIMB, t[..]);
    PowDouble(LIMB, n);
  }

  lemma LimbQuarter()
    ensures LIMB % 4 == 0 && LIMB == 2 * (LIMB / 2)
  {
  }

  lemma ArgumentTop(s: seq<nat>, n: nat)
    requires n > 0 && |s| == 2 * n && Digits(LIMB, s) && LIMB <= 2 * s[2 * n - 1]
    ensures Pow(LIMB, 2 * n) <= 2 * Val(LIMB, s)
  {
    hide Val, Pow, LIMB;
    LimbFacts();
    ValTop(LIMB, s);
    PowNext(LIMB, 2 * n - 1);
    DoubleTop(LIMB, Pow(LIMB, 2 * n - 1), s[2 * n - 1]);
  }

  lemma QuarterKept(b: nat, p: nat, x: nat, low: nat, v: nat, bit: nat)
    requires b % 4 == 0 && p > 0 && v == low + p * x && low < p && bit <= 1 && b * p <= 2 * (2 * v + bit)
    ensures b <= 4 * x
  {
    assert p * (4 * x) == 4 * (p * x);
    Distrib(p, b, 4);
    if 4 * x <= b - 4 {
      MulMono(4 * x, b - 4, p);
    }
  }

  /** The root has its top bit set. */
  lemma RootTop(root: seq<nat>, i: nat, s: nat, r: nat, n: nat)
    requires n > 0 && |root| == n && Digits(LIMB, root) && s == Val(LIMB, root) && IsSqrt(i, s, r)
    requires Pow(LIMB, n) * Pow(LIMB, n) <= 4 * i + 2
    ensures TopBit(W, root) && s < Two(Bits(W, n)) <= 2 * s
  {
    hide Val, Pow, LIMB, IsSqrt, Two, Base, Bits;
    LimbIsBase();
    LimbFacts();
    HalfPower(LIMB, n);
    RootAboveHalf2(i, s, r, Pow(LIMB, n));
    ValBound(LIMB, root);
    BasePow(W, n);
  }

  lemma RootAboveHalf2(a: nat, s: nat, r: nat, p: nat)
    requires IsSqrt(a, s, r) && p * p <= 4 * a + 2 && p == 2 * (p / 2)
    ensures p <= 2 * s
  {
    hide IsSqrt;
    var c := p / 2;
    assert p * p == 4 * (c * c);
    RootAboveHalf(a, s, r, p);
  }

  lemma RootTopSticky(root: seq<nat>, s: nat, n: nat)
    requires |root| == n && n > 0 && Digits(LIMB, root) && s <= Val(LIMB, root) && Two(Bits(W, n)) <= 2 * s
    ensures TopBit(W, root)
  {
    LimbIsBase();
  }

  /** What the sticky bit covers: the lost bit and the limbs below. */
  lemma LostPart(a: seq<nat>, n: nat, odd: bool, top: nat, i: nat, bit: nat)
    requires TopBit(W, a) && n > 0 && bit <= 1
    requires |a| <= 2 * n ==> top == Val(LIMB, a) * Two(Bits(W, 2 * n - |a|))
    requires |a| > 2 * n ==> Val(LIMB, a) == top * Two(Bits(W, |a| - 2 * n)) + Val(LIMB, a[..|a| - 2 * n])
    requires if odd then top == 2 * i + bit else i == top && bit == 0
    ensures var d := Argument(Val(LIMB, a), |a|, n, odd) - i as real;
      0.0 <= d < 1.0 && (d == 0.0 <==> bit == 0 && (|a| > 2 * n ==> Val(LIMB, a[..|a| - 2 * n]) == 0))
  {
    hide Val, Two, Bits, LIMB, Base, Argument;
    LimbIsBase();
    TopBitFacts(W, a);
    if |a| > 2 * n {
      ValBound(LIMB, a[..|a| - 2 * n]);
      BasePow(W, |a| - 2 * n);
      ArgumentParts(Val(LIMB, a), |a|, n, odd, top, Val(LIMB, a[..|a| - 2 * n]), i, bit);
    } else {
      ArgumentParts(Val(LIMB, a), |a|, n, odd, top, 0, i, bit);
    }
  }

  /** The number of limbs of the root. */
  function RootSize(prec: nat): (n: nat)
    ensures n > 0 && Bits(W, n) >= prec + 2
  {
    (2 * (prec + 2) + 2 * W - 1) / (2 * W)
  }

  /** The real root x has n bits and r is its rounding to prec of them. */
  ghost predicate CorrectlyRounded(mode: Mode, x: real, n: nat, prec: int, r: nat, inexact: bool) {
    HasBits(x, n) && RoundedReal(mode, false, x, n, prec, r) && (inexact <==> x != r as real)
  }

  /** A number with a sticky bit is not a multiple of four unless the bit is clear. */
  lemma ExactRoot(i: nat, d: real, s: nat, r: nat, x: real, k: nat, res: nat, mode: Mode)
    requires IsSqrt(i, s, r) && 0.0 <= d < 1.0 && x >= 0.0 && Square(x) == i as real + d && k >= 2
    requires IsRounded(mode, false, Sticky(s, if r == 0 && d == 0.0 then 0 else 1), Two(k), res)
    ensures res == Sticky(s, if r == 0 && d == 0.0 then 0 else 1) <==> x == res as real
  {
    hide Square, Two, IsSqrt;
    hide IsRounded;
    RealRoot(i, d, s, r, x);
    EvenRounded(mode, Sticky(s, if r == 0 && d == 0.0 then 0 else 1), k, res);
    StickyEven(s, res, x, r == 0 && d == 0.0);
  }

  lemma EvenRounded(mode: Mode, v: nat, k: nat, res: nat)
    requires IsRounded(mode, false, v, Two(k), res) && k >= 1
    ensures res % 2 == 0
  {
    hide Two;
    var q: nat :| res == q * Two(k);
    TwoNext(k - 1);
    Assoc(q, 2, Two(k - 1));
    EvenProduct(q * Two(k - 1), res);
  }

  lemma EvenProduct(h: nat, res: nat)
    requires res == 2 * h || res == h * 2
    ensures res % 2 == 0
  {
  }

  /** An even number is the sticky number of x exactly when it is x. */
  lemma StickyEven(s: nat, res: nat, x: real, exact: bool)
    requires res % 2 == 0 && 0.0 <= x - s as real < 1.0 && (x == s as real <==> exact)
    ensures res == Sticky(s, if exact then 0 else 1) <==> x == res as real
  {
  }

  /** bf_sqrt: unit is the exponent of the root's last bit, so that the number is Argument(..) 2^(2 unit). */
  method Sqrt(a: BigFloat, f: Format, mode: Mode) returns (r: BigFloat, flags: Flags, invalid: bool, ghost res: nat,
      ghost e: int, ghost inexact: bool)
    requires a.Valid() && a.w == W && f.prec.Some? && f.prec.value > 0 && !f.radixPoint
    ensures fresh(r) && r.w == W
    ensures invalid <==> a.sign && a.kind in {Finite, Infinite}
    ensures invalid || a.kind != Finite ==> flags == NoFlags()
    ensures invalid || a.kind == NaN ==> r.kind == NaN
    ensures !invalid && a.kind in {Zero, Infinite} ==> r.kind == a.kind && r.sign == a.sign
    ensures !invalid && a.kind == Finite ==>
      var n := RootSize(f.prec.value); var e0 := (a.expn + 1) / 2; var unit := e0 - Bits(W, n);
      var prec := Effective(f, Bits(W, n), e0);
      var arg := Argument(Val(LIMB, a.tab[..]), a.tab.Length, n, a.expn % 2 == 1);
      && prec + 2 <= Bits(W, n) && !r.sign && (prec > 0 ==> IsExponent(res, unit, e))
      && Outcome(f, mode, false, inexact, res, e, prec <= 0, unit, W, r.kind, r.expn, r.tab[..], flags)
      && RoundsRoot(mode, arg, Two(Bits(W, n) - prec), res) && (inexact <==> Square(res as real) != arg)
      && forall x: real :: x >= 0.0 && Square(x) == arg ==> CorrectlyRounded(mode, x, Bits(W, n), prec, res, inexact)
  {
    hide *;
    LimbIsBase();
    flags, invalid, res, e, inexact := NoFlags(), false, 0, 0, false;
    var none := new nat[0];
    if a.kind != Finite || a.sign {
      invalid := a.sign && (a.kind == Finite || a.kind == Infinite);
      r := new BigFloat(W, if invalid then NaN else a.kind, a.sign, 0, none);
      return;
    }
    var n := RootSize(f.prec.value);
    var e0 := (a.expn + 1) / 2;
    ValidTop(a);
    var odd := a.expn % 2 == 1;
    ghost var arg := Argument(Val(LIMB, a.tab[..]), a.tab.Length, n, odd);
    var root, i, s, rem := RootLimbs(a.tab[..], odd, n);
    ghost var v := Val(LIMB, root[..]);
    r := new BigFloat(W, Finite, false, e0, root);
    FormatFits(f, n, e0);
    PositiveFits(f, mode, false, e0);
    flags, res, e := r.Round(f, mode);
    inexact := res != v;
    RootRounded(arg, i, s, rem, v, Effective(f, Bits(W, n), e0), n, mode, res);
    RootBySquares(arg, i, s, rem, v, Effective(f, Bits(W, n), e0), n, mode, res);
  }

  lemma ValidTop(a: BigFloat)
    requires a.Valid() && a.kind == Finite
    ensures TopBit(a.w, a.tab[..])
  {
  }

  lemma FormatFits(f: Format, n: nat, e: int)
    requires f.prec.Some? && f.prec.value > 0 && !f.radixPoint && Bits(W, n) >= f.prec.value + 2
    ensures Effective(f, Bits(W, n), e) + 2 <= Bits(W, n)
  {
  }

  lemma RootRounded(arg: real, i: nat, s: nat, r: nat, v: nat, prec: int, n: nat, mode: Mode, res: nat)
    requires IsSqrt(i, s, r) && 0.0 <= arg - i as real < 1.0
      && v == Sticky(s, if r == 0 && arg - i as real == 0.0 then 0 else 1)
    requires s < Two(Bits(W, n)) <= 2 * s && prec + 2 <= Bits(W, n)
      && RoundedBits(mode, false, v, Bits(W, n), prec, res)
    ensures forall x: real :: x >= 0.0 && Square(x) == arg ==>
      CorrectlyRounded(mode, x, Bits(W, n), prec, res, res != v)
  {
    hide IsSqrt, Square, Two, IsRounded, IsRoundedReal, Sticky, Bits;
    forall x: real | x >= 0.0 && Square(x) == arg
      ensures CorrectlyRounded(mode, x, Bits(W, n), prec, res, res != v)
    {
      StickyRoot(i, arg - i as real, s, r, x, Bits(W, n) - prec, mode, res);
      ExactRoot(i, arg - i as real, s, r, x, Bits(W, n) - prec, res, mode);
      RealRoot(i, arg - i as real, s, r, x);
    }
  }

  // ---- the rounding, by squares

  /** res is the square root of arg rounded to a multiple of u, said without the root. */
  ghost predicate RoundsRoot(mode: Mode, arg: real, u: nat, res: nat) {
    var h := u / 2;
    && IsMultiple(res, u)
    && match mode
       case RNDZ => Square(res as real) <= arg < Square((res + u) as real)
       case RNDD => Square(res as real) <= arg < Square((res + u) as real)
       case RNDA => arg <= Square(res as real) && (res >= u ==> Square((res - u) as real) < arg)
       case RNDU => arg <= Square(res as real) && (res >= u ==> Square((res - u) as real) < arg)
       case RNDN => NearRoot(arg, res, h) && (RootTie(arg, res, h) ==> IsMultiple(res, 2 * u))
       case RNDNA => NearRoot(arg, res, h) && (RootTie(arg, res, h) ==> arg <= Square(res as real))
  }

  ghost predicate NearRoot(arg: real, res: nat, h: nat) {
    (res >= h ==> Square((res - h) as real) <= arg) && arg <= Square((res + h) as real)
  }

  ghost predicate RootTie(arg: real, res: nat, h: nat) {
    (res >= h && Square((res - h) as real) == arg) || arg == Square((res + h) as real)
  }

  /** The root cut with a sticky bit stands to every even number as the root itself. */
  ghost predicate Tells(v: nat, arg: real, t: nat) {
    (t <= v <==> Square(t as real) <= arg) && (v <= t <==> arg <= Square(t as real))
  }

  lemma EvenTells(arg: real, i: nat, s: nat, r: nat, v: nat, t: nat)
    requires IsSqrt(i, s, r) && 0.0 <= arg - i as real < 1.0
    requires v == Sticky(s, if r == 0 && arg - i as real == 0.0 then 0 else 1) && t % 2 == 0
    ensures Tells(v, arg, t)
  {
    SquareNat(t);
    SquareNat(s);
    SquareNat(s + 1);
    assert (s + 1) * (s + 1) == s * s + 2 * s + 1;
    if t <= s {
      SquaresMono(t, s);
    } else {
      SquaresMono(s + 1, t);
    }
    if t < s {
      SquaresMono(t + 1, s);
      assert (t + 1) * (t + 1) == t * t + 2 * t + 1;
    }
  }

  lemma SquareNat(t: nat)
    ensures Square(t as real) == (t * t) as real
  {
  }

  lemma SquaresMono(t: nat, s: nat)
    requires t <= s
    ensures t * t <= s * s
  {
    MulMono(t, s, t);
    MulMono(t, s, s);
  }

  lemma RootBySquares(arg: real, i: nat, s: nat, r: nat, v: nat, prec: int, n: nat, mode: Mode, res: nat)
    requires IsSqrt(i, s, r) && 0.0 <= arg - i as real < 1.0
      && v == Sticky(s, if r == 0 && arg - i as real == 0.0 then 0 else 1)
    requires prec + 2 <= Bits(W, n) && RoundedBits(mode, false, v, Bits(W, n), prec, res)
    ensures RoundsRoot(mode, arg, Two(Bits(W, n) - prec), res) && (res != v <==> Square(res as real) != arg)
  {
    hide IsSqrt, Square, Two, IsMultiple, Sticky, Bits, Tells;
    var k := Bits(W, n) - prec;
    var u, h := Two(k), Two(k - 1);
    TwoNext(k - 1);
    TwoNext(k - 2);
    MultipleEven(res, u, k);
    forall t: nat | t % 2 == 0
      ensures Tells(v, arg, t)
    {
      EvenTells(arg, i, s, r, v, t);
    }
    RoundsTold(mode, arg, v, h, res);
  }

  lemma MultipleEven(r: nat, u: nat, k: nat)
    requires IsMultiple(r, u) && u == Two(k) && k > 0
    ensures r % 2 == 0
  {
    hide Two;
    TwoNext(k - 1);
    var q: nat :| r == q * u;
    assert q * (2 * Two(k - 1)) == 2 * (q * Two(k - 1));
  }

  lemma RoundsTold(mode: Mode, arg: real, v: nat, h: nat, res: nat)
    requires h % 2 == 0 && h > 0 && res % 2 == 0 && IsRounded(mode, false, v, 2 * h, res)
    requires forall t: nat :: t % 2 == 0 ==> Tells(v, arg, t)
    ensures RoundsRoot(mode, arg, 2 * h, res) && (res != v <==> Square(res as real) != arg)
  {
    hide Tells, IsRounded, RoundsRoot;
    var u := 2 * h;
    EvenSums(res, h);
    EvenSums(res, u);
    assert Tells(v, arg, res) && Tells(v, arg, res + h) && Tells(v, arg, res + u);
    assert res >= h ==> Tells(v, arg, res - h);
    assert res >= u ==> Tells(v, arg, res - u);
    ToldAt(mode, arg, v, h, u, res);
  }

  lemma EvenSums(x: nat, y: nat)
    requires x % 2 == 0 && y % 2 == 0
    ensures (x + y) % 2 == 0 && (x >= y ==> (x - y) % 2 == 0) && (2 * y) % 2 == 0
  {
  }

  lemma ToldAt(mode: Mode, arg: real, v: nat, h: nat, u: nat, res: nat)
    requires u == 2 * h > 0 && IsRounded(mode, false, v, u, res)
    requires Tells(v, arg, res) && Tells(v, arg, res + h) && Tells(v, arg, res + u)
    requires (res >= h ==> Tells(v, arg, res - h)) && (res >= u ==> Tells(v, arg, res - u))
    ensures RoundsRoot(mode, arg, u, res) && (res != v <==> Square(res as real) != arg)
  {
    hide Square, IsMultiple;
  }
}

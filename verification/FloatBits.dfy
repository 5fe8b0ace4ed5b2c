/** Bits of a number of limbs of w bits, and rounding in place. */
module FloatBits {
  import opened Limbs
  import opened LimbKernels
  import opened LimbUnary
  import opened LimbDivnorm
  import opened RoundSpec

  /** 2^k */
  function Two(k: nat): (p: nat)
    ensures p > 0
  {
    PowPositive(2, k);
    Pow(2, k)
  }

  lemma TwoAdd(m: nat, n: nat)
    ensures Two(m + n) == Two(m) * Two(n)
  {
    PowAdd(2, m, n);
  }

  lemma TwoNext(n: nat)
    ensures Two(n + 1) == 2 * Two(n)
  {
  }

  lemma TwoMono(i: nat, j: nat)
    requires i <= j
    ensures Two(i) <= Two(j)
  {
    hide Two;
    TwoAdd(i, j - i);
    MulMono(1, Two(j - i), Two(i));
  }

  lemma TwoZero()
    ensures Two(0) == 1
  {
  }

  /** The base of limbs of w bits. */
  function Base(w: nat): (b: nat)
    ensures b > 0
  {
    Two(w)
  }

  /** The number of bits of n limbs. */
  function Bits(w: nat, n: nat): nat {
    w * n
  }

  lemma BitsAdd(w: nat, m: nat, n: nat)
    ensures Bits(w, m + n) == Bits(w, m) + Bits(w, n)
  {
    Distrib(w, m, n);
  }

  lemma BitsMono(w: nat, m: nat, n: nat)
    requires m < n && w > 0
    ensures Bits(w, m) + w <= Bits(w, n)
  {
    MulMono(m + 1, n, w);
    Distrib(w, m, 1);
  }

  lemma {:induction false} BasePow(w: nat, i: nat)
    ensures Pow(Base(w), i) == Two(Bits(w, i))
  {
    if i > 0 {
      BasePow(w, i - 1);
      TwoAdd(w, Bits(w, i - 1));
      Distrib(w, i - 1, 1);
    }
  }

  /** n without its k low bits */
  function Quot(n: nat, k: nat): nat {
    n / Two(k)
  }

  /** the k low bits of n */
  function Rem(n: nat, k: nat): nat {
    n % Two(k)
  }

  lemma QuotIs(n: nat, k: nat, q: nat, r: nat)
    requires n == Two(k) * q + r && r < Two(k)
    ensures Quot(n, k) == q && Rem(n, k) == r
  {
    DivUnique(n, Two(k), q, r);
  }

  lemma QuotRem(n: nat, k: nat)
    ensures n == Two(k) * Quot(n, k) + Rem(n, k) && Rem(n, k) < Two(k)
  {
  }

  /** Bit k = w i + j cuts the number after limb i's j low bits. */
  lemma CutAt(w: nat, s: seq<nat>, i: nat, j: nat)
    requires i < |s| && j <= w && Digits(Base(w), s)
    ensures var k := Bits(w, i) + j; var v := Val(Base(w), s);
      && Quot(v, k) == Quot(s[i], j) + Two(w - j) * Val(Base(w), s[i + 1..])
      && Rem(v, k) == Val(Base(w), s[..i]) + Two(Bits(w, i)) * Rem(s[i], j)
  {
    hide Val, Two, Base, Quot, Rem, Bits;
    var b, p, k := Base(w), Two(j), Bits(w, i) + j;
    BaseIs(w);
    TwoAdd(j, w - j);
    BasePow(w, i);
    TwoAdd(Bits(w, i), j);
    ValSplit(b, s, i);
    ValBound(b, s[..i]);
    ValFrom(b, s, i);
    QuotRem(s[i], j);
    CutArith(Two(Bits(w, i)), p, Two(k), b, Two(w - j), s[i], Quot(s[i], j), Rem(s[i], j), Val(b, s[i + 1..]),
      Val(b, s[..i]), Val(b, s[i..]), Val(b, s));
    QuotIs(Val(b, s), k, Quot(s[i], j) + Two(w - j) * Val(b, s[i + 1..]),
      Val(b, s[..i]) + Two(Bits(w, i)) * Rem(s[i], j));
  }

  lemma ValFrom(b: nat, s: seq<nat>, i: nat)
    requires i < |s|
    ensures Val(b, s[i..]) == s[i] + b * Val(b, s[i + 1..])
  {
    assert s[i..][0] == s[i] && s[i..][1..] == s[i + 1..];
    ValCons(b, s[i..]);
  }

  lemma BaseIs(w: nat)
    ensures Base(w) == Two(w)
  {
  }

  lemma ValCons(b: nat, s: seq<nat>)
    requires s != []
    ensures Val(b, s) == s[0] + b * Val(b, s[1..])
  {
  }

  lemma CutArith(t: nat, p: nat, tp: nat, b: nat, e: nat, x: nat, q: nat, r: nat, hi: nat, lo: nat, from: nat, v: nat)
    requires lo < t && x == p * q + r && r < p && tp == t * p && b == p * e && from == x + b * hi && v == lo + t * from
    ensures v == tp * (q + e * hi) + (lo + t * r)
    ensures lo + t * r < tp
  {
    Assoc(p, e, hi);
    Distrib(p, q, e * hi);
    Assoc(t, p, q + e * hi);
    Distrib(t, p * (q + e * hi), r);
    MulMono(r, p - 1, t);
    Distrib(t, p, 1);
  }

  /** Bit pos of n. */
  predicate BitSet(n: nat, pos: nat) {
    Quot(n, pos) % 2 == 1
  }

  /** get_bit: no bit outside the number */
  method GetBit(w: nat, s: seq<nat>, pos: int) returns (bit: bool)
    requires w > 0 && Digits(Base(w), s)
    ensures bit <==> 0 <= pos < Bits(w, |s|) && BitSet(Val(Base(w), s), pos)
  {
    hide *;
    if pos < 0 || pos >= Bits(w, |s|) {
      return false;
    }
    var i, j := pos / w, pos % w;
    Position(w, |s|, pos);
    bit := Quot(s[i], j) % 2 == 1;
    BitInLimb(w, s, i, j);
  }

  lemma Position(w: nat, l: nat, pos: nat)
    requires w > 0 && pos < Bits(w, l)
    ensures pos == Bits(w, pos / w) + pos % w && 0 <= pos / w < l && 0 <= pos % w < w
  {
    if pos / w >= l {
      MulMono(l, pos / w, w);
    }
  }

  lemma BitInLimb(w: nat, s: seq<nat>, i: nat, j: nat)
    requires i < |s| && j < w && Digits(Base(w), s)
    ensures BitSet(Val(Base(w), s), Bits(w, i) + j) <==> Quot(s[i], j) % 2 == 1
  {
    hide Val, Two, Base, Quot, Rem, Bits;
    CutAt(w, s, i, j);
    var hi := Val(Base(w), s[i + 1..]);
    TwoNext(w - j - 1);
    Assoc(2, Two(w - j - 1), hi);
    EvenShift(Two(w - j - 1) * hi, Quot(s[i], j));
  }

  /** scan_bit_nz: some bit up to bitPos is set */
  method ScanBitNz(w: nat, s: seq<nat>, bitPos: int) returns (nz: bool)
    requires w > 0 && Digits(Base(w), s) && bitPos < Bits(w, |s|)
    ensures bitPos < 0 ==> !nz
    ensures bitPos >= 0 ==> (nz <==> Rem(Val(Base(w), s), bitPos + 1) != 0)
  {
    hide *;
    if bitPos < 0 {
      return false;
    }
    var pos, j := bitPos / w, bitPos % w;
    Position(w, |s|, bitPos);
    var v := Rem(s[pos], j + 1);
    var low := MpScanNz(Base(w), s[..pos]);
    nz := v != 0 || low;
    LowBits(w, s, pos, j + 1);
  }

  lemma LowBits(w: nat, s: seq<nat>, i: nat, j: nat)
    requires i < |s| && j <= w && Digits(Base(w), s)
    ensures Rem(Val(Base(w), s), Bits(w, i) + j) == 0 <==> Val(Base(w), s[..i]) == 0 && Rem(s[i], j) == 0
  {
    hide Val, Two, Base, Quot, Rem, Bits;
    CutAt(w, s, i, j);
    if Rem(s[i], j) > 0 {
      MulPositive(Two(Bits(w, i)), Rem(s[i], j));
    }
  }

  // ---- rounding

  /** The number from the kept part, the first dropped bit and the rest. */
  lemma BitsOf(n: nat, k: nat)
    requires k > 0
    ensures Two(k) == 2 * Two(k - 1) > 0
    ensures var half := Two(k - 1); var q := Quot(n, k);
      && n == q * (2 * half) + (if BitSet(n, k - 1) then half else 0) + Rem(n, k - 1)
      && Rem(n, k - 1) < half && (BitSet(n, k) <==> q % 2 == 1)
  {
    hide Two, Quot, Rem, Bits;
    TwoNext(k - 1);
    var half := Two(k - 1);
    var g, low := Division(n, half);
    QuotIs(n, k - 1, g, low);
    HalfSplit(n, half, g / 2, g % 2, low);
    QuotIs(n, k, g / 2, (if g % 2 == 1 then half else 0) + low);
  }

  lemma HalfSplit(n: nat, half: nat, q: nat, bit: nat, low: nat)
    requires bit <= 1 && n == half * (2 * q + bit) + low
    ensures n == (2 * half) * q + ((if bit == 1 then half else 0) + low)
      && n == q * (2 * half) + (if bit == 1 then half else 0) + low
  {
    Distrib(half, 2 * q, bit);
    assert half * (2 * q) == (2 * half) * q;
  }

  /** bf_get_rnd_add on the limbs s, for a positive precision */
  method RoundingAddend(w: nat, s: seq<nat>, prec: nat, mode: Mode, negative: bool) returns (add: bool, inexact: bool)
    requires w > 0 && s != [] && Digits(Base(w), s) && prec > 0
    ensures prec >= Bits(w, |s|) ==> !add && !inexact
    ensures prec < Bits(w, |s|) ==> var k := Bits(w, |s|) - prec; var v := Val(Base(w), s); var r := Kept(v, k, add);
      IsRounded(mode, negative, v, Two(k), r) && (inexact <==> r != v)
  {
    hide *;
    var n := Bits(w, |s|);
    var bit0 := ScanBitNz(w, s, n - 1 - (prec + 1));
    var bit1 := GetBit(w, s, n - 1 - prec);
    var odd := GetBit(w, s, n - 1 - (prec - 1));
    add := Addend(mode, negative, bit1, bit0, odd);
    inexact := bit1 || bit0;
    if prec < n {
      AddendRounds(Val(Base(w), s), n - prec, mode, negative, bit1, bit0, odd);
    } else {
      NoAddend(mode, negative, odd);
    }
  }

  /** v cut to a multiple of 2^k, one more when add is set. */
  function Kept(v: nat, k: nat, add: bool): nat {
    (if add then Quot(v, k) + 1 else Quot(v, k)) * Two(k)
  }

  function Addend(mode: Mode, negative: bool, bit1: bool, bit0: bool, odd: bool): bool {
    AddOne(mode, negative, bit1, bit0, odd)
  }

  lemma NoAddend(mode: Mode, negative: bool, odd: bool)
    ensures !Addend(mode, negative, false, false, odd)
  {
  }

  lemma AddendRounds(v: nat, k: nat, mode: Mode, negative: bool, bit1: bool, bit0: bool, odd: bool)
    requires k > 0 && (bit1 <==> BitSet(v, k - 1)) && (odd <==> BitSet(v, k))
    requires bit0 <==> k > 1 && Rem(v, k - 1) != 0
    ensures var r := Kept(v, k, Addend(mode, negative, bit1, bit0, odd));
      IsRounded(mode, negative, v, Two(k), r) && ((bit1 || bit0) <==> r != v)
  {
    hide *;
    BitsOf(v, k);
    NothingBelow(v, k);
    RoundWith(mode, negative, v, Quot(v, k), Two(k), Two(k - 1), bit1, Rem(v, k - 1), bit0);
    KeptIs(v, k, mode, negative, bit1, bit0, odd);
  }

  lemma RoundWith(mode: Mode, negative: bool, v: nat, q: nat, u: nat, half: nat, bit1: bool, low: nat, bit0: bool)
    requires half > 0 && u == 2 * half && low < half && (bit0 <==> low != 0)
      && v == q * (2 * half) + (if bit1 then half else 0) + low
    ensures var r := RoundedTo(mode, negative, q, u, bit1, bit0);
      IsRounded(mode, negative, v, u, r) && ((bit1 || bit0) <==> r != v)
  {
    hide *;
    AddOneCorrect(mode, negative, q, half, bit1, low);
  }

  lemma NothingBelow(v: nat, k: nat)
    ensures k == 1 ==> Rem(v, k - 1) == 0
  {
    TwoZero();
  }

  lemma KeptIs(v: nat, k: nat, mode: Mode, negative: bool, bit1: bool, bit0: bool, odd: bool)
    requires odd <==> Quot(v, k) % 2 == 1
    ensures Kept(v, k, Addend(mode, negative, bit1, bit0, odd))
      == RoundedTo(mode, negative, Quot(v, k), Two(k), bit1, bit0)
  {
    hide Two, AddOne, Bits;
  }
}

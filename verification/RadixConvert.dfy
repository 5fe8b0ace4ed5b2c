/** Divide-and-conquer conversion of integers from and to a radix. An integer is held as its value; only the
    estimate of a quotient works on floats. */
module RadixConvert {
  import opened Limbs
  import opened LimbKernels
  import opened LimbUnary
  import opened FloatBits
  import opened FloatRound
  import opened FloatDigits
  import opened FloatCancel
  import opened BigFloat
  import opened FloatExact
  import opened NttSize
  import opened RadixSizes
  import opened RadixEstimate

  /** pow_tab: at each level nothing yet, or the power that every call at that level needs; stride 2 leaves room for the
      inverses */
  ghost predicate PowersRight(s: seq<nat>, stride: nat, radix: nat, n0: nat) {
    stride > 0 && forall l :: 0 <= l < |s| ==> EntryRight(s[l], stride, radix, n0, l)
  }

  ghost predicate EntryRight(x: nat, stride: nat, radix: nat, n0: nat, l: nat)
    requires stride > 0
  {
    x == 0 || (l % stride == 0 && x == Pow(radix, LowSize(n0, l / stride)))
  }

  /** The power for a level, computed at most once. */
  method PowerAt(powTab: array<nat>, stride: nat, radix: nat, n0: nat, level: nat) returns (b: nat)
    requires radix > 0 && PowersRight(powTab[..], stride, radix, n0) && stride * level < powTab.Length
    modifies powTab
    ensures PowersRight(powTab[..], stride, radix, n0) && b == Pow(radix, LowSize(n0, level)) && b > 0
  {
    hide Pow, LowSize;
    PowPositive(radix, LowSize(n0, level));
    DivUnique(stride * level, stride, level, 0);
    var i := stride * level;
    if powTab[i] == 0 {
      powTab[i] := Pow(radix, LowSize(n0, level));
    } else {
      assert EntryRight(powTab[..][i], stride, radix, n0, i);
    }
    b := powTab[i];
  }

  // ---- from a radix

  /** bf_integer_from_radix_rec: the value of the n digits */
  method FromRadixRec(tab: seq<nat>, n: nat, level: nat, n0: nat, radix: nat, powTab: array<nat>) returns (r: nat)
    requires 0 < n <= |tab| && radix > 0 && IsLevelSize(n, n0, level) && powTab.Length == CeilLog2(n0) + 2
    requires PowersRight(powTab[..], 1, radix, n0)
    modifies powTab
    ensures PowersRight(powTab[..], 1, radix, n0) && r == Val(radix, tab[..n])
    decreases n
  {
    hide Val, Pow, LowSize, IsLevelSize, PowersRight, CeilLog2;
    if n == 1 {
      assert tab[..1] == [tab[0]];
      ValOne(radix, tab[0]);
      return tab[0];
    }
    PartSizes(n, n0, level);
    LevelInside(n, n0, level);
    var n2 := LowSize(n0, level);
    var n1 := n - n2;
    var b := PowerAt(powTab, 1, radix, n0, level);
    var high := FromRadixRec(tab[n2..], n1, level + 1, n0, radix, powTab);
    var low := FromRadixRec(tab, n2, level + 1, n0, radix, powTab);
    assert tab[..n][..n2] == tab[..n2] && tab[..n][n2..] == tab[n2..][..n1];
    ValSplit(radix, tab[..n], n2);
    MulMono(0, high, b);
    r := high * b + low;
  }

  /** bf_integer_from_radix */
  method FromRadix(tab: seq<nat>, radix: nat) returns (r: nat)
    requires tab != [] && radix > 0
    ensures r == Val(radix, tab)
  {
    hide Val, Pow, IsLevelSize, CeilLog2;
    var n := |tab|;
    var powTab := new nat[CeilLog2(n) + 2](_ => 0);
    TopLevel(n);
    r := FromRadixRec(tab, n, 0, n, radix, powTab);
    assert tab[..n] == tab;
  }

  // ---- to a radix

  /** The loops that correct an estimate of a / b: at most two steps. */
  method CorrectQuotient(a: nat, b: nat, q0: nat) returns (q: nat, r: nat, ghost steps: nat)
    requires b > 0 && (q0 - 2) * b <= a < (q0 + 3) * b
    ensures a == q * b + r && r < b && steps <= 2
  {
    var rest: int, add: int := a - q0 * b, 0;
    steps := 0;
    Distrib(b, q0, 2);
    Distrib(b, q0, 3);
    while rest < 0
      invariant rest == a - q0 * b - add * b && 0 - 2 <= add <= 0 && steps == -add && rest >= (0 - 2 - add) * b
      invariant add < 0 ==> rest < b
      invariant add == 0 ==> rest == a - q0 * b
      decreases 0 - rest
    {
      StepDown(b, add, rest);
      rest := rest + b;
      add := add - 1;
      steps := steps + 1;
    }
    ghost var down := add;
    while rest >= b
      invariant rest == a - q0 * b - add * b && rest >= 0 && down <= add <= 2 && steps <= 2
        && (down < 0 ==> rest < b && add == down)
      invariant down == 0 ==> steps == add && rest < (3 - add) * b
      decreases rest
    {
      StepUp(b, add, rest);
      rest := rest - b;
      add := add + 1;
      steps := steps + 1;
    }
    Distrib(b, q0, add);
    QuotientNatural(a, b, q0 + add, rest);
    q, r := q0 + add, rest;
  }

  lemma StepDown(b: nat, add: int, rest: int)
    requires b > 0 && rest < 0 && rest >= (0 - 2 - add) * b && add <= 0
    ensures add > -2 && rest + b >= (0 - 2 - (add - 1)) * b && (add - 1) * b == add * b - b
  {
    if add <= -2 {
      MulMono(0, 0 - 2 - add, b);
    }
    Distrib(b, 0 - 2 - add, 1);
    Distrib(b, add, 1);
  }

  lemma StepUp(b: nat, add: int, rest: int)
    requires b > 0 && rest >= b
    ensures rest < (3 - add) * b ==> add < 2 && rest - b < (3 - (add + 1)) * b
    ensures (add + 1) * b == add * b + b
  {
    if add >= 2 {
      MulMono(3 - add, 1, b);
    }
    Distrib(b, 3 - add, 1);
    Distrib(b, add, 1);
  }

  lemma QuotientNatural(a: nat, b: nat, q: int, r: int)
    requires b > 0 && a == q * b + r && 0 <= r < b
    ensures q >= 0
  {
    if q < 0 {
      MulMono(q, -1, b);
    }
  }

  /** The exponent range has room for numbers below 2^e and their inverses. */
  ghost predicate Wide(f: Format, e: nat) {
    Unlimited(f) && f.eMin <= 0 - e - 1 && e + 4 < f.eMax
  }

  lemma PowerBelow(radix: nat, rb: nat, n: nat)
    requires radix <= Two(rb)
    ensures Pow(radix, n) <= Two(Bits(rb, n))
  {
    hide Two, Pow, Bits;
    BaseIs(rb);
    PowMonotone(radix, Two(rb), n);
    BasePow(rb, n);
  }

  lemma {:induction false} PowMonotone(x: nat, y: nat, n: nat)
    requires x <= y
    ensures Pow(x, n) <= Pow(y, n)
  {
    if n > 0 {
      PowMonotone(x, y, n - 1);
      MulMono(x, y, Pow(x, n - 1));
      MulMono(Pow(x, n - 1), Pow(y, n - 1), y);
    }
  }

  /** What the estimate needs: the sizes of dividend and divisor. */
  lemma EstimateSizes(a: nat, radix: nat, rb: nat, n: nat, n1: nat, n2: nat, n0: nat, e: nat)
    requires 1 < radix <= Two(rb) && n == n1 + n2 && 0 < n1 <= n2 + 1 && n <= n0 && a < Pow(radix, n)
      && e == Bits(rb, n0) + 1
    ensures a < Two(e) && Pow(radix, n2) < Two(e) && Bits(rb, n1) > 0 && Bits(rb, n1) + 2 <= Bits(rb, n2 + 1) + 2
    ensures a < Two(Bits(rb, n1)) * Pow(radix, n2)
  {
    hide Two, Pow, Bits;
    PowAdd(radix, n2, n1);
    PowerBelow(radix, rb, n);
    PowerBelow(radix, rb, n1);
    PowerBelow(radix, rb, n2);
    PowPositive(radix, n2);
    MulMono(Pow(radix, n1), Two(Bits(rb, n1)), Pow(radix, n2));
    BitsOrder(rb, n, n0);
    BitsOrder(rb, n2, n0);
    BitsOrder(rb, n1, n2 + 1);
    BitsPositive(rb, n1, radix);
    TwoMono(Bits(rb, n), Bits(rb, n0));
    TwoMono(Bits(rb, n2), Bits(rb, n0));
    TwoNext(Bits(rb, n0));
    TwoPos(Bits(rb, n0));
  }

  lemma BitsOrder(w: nat, m: nat, n: nat)
    requires m <= n
    ensures Bits(w, m) <= Bits(w, n)
  {
    MulMono(m, n, w);
  }

  lemma BitsPositive(rb: nat, n1: nat, radix: nat)
    requires 1 < radix <= Two(rb) && n1 > 0
    ensures Bits(rb, n1) > 0
  {
    hide Two;
    if rb == 0 {
      TwoZero();
    }
    MulPositive(rb, n1);
  }

  /** The quotient and remainder by the power of a level. */
  method SplitNumber(w: nat, a: nat, b: nat, radix: nat, rb: nat, n1: nat, n2: nat, n0: nat, f: Format,
      ghost e: nat) returns (q: nat, r: nat)
    requires w >= 4 && 1 < radix <= Two(rb) && b == Pow(radix, n2) && 0 < n1 <= n2 + 1 && n1 + n2 <= n0
      && a < Pow(radix, n1 + n2)
    requires e == Bits(rb, n0) + 1 && Wide(f, e)
    ensures a == q * b + r && r < b && q < Pow(radix, n1)
  {
    hide Two, Pow, Bits, Unlimited;
    PowPositive(radix, n2);
    EstimateSizes(a, radix, rb, n1 + n2, n1, n2, n0, e);
    var q0 := EstimateQuotient(w, a, b, Bits(rb, n2 + 1) + 2, Bits(rb, n1), f, e);
    ghost var steps;
    q, r, steps := CorrectQuotient(a, b, q0);
    PowAdd(radix, n1, n2);
    HighPart(a, b, q, r, Pow(radix, n1));
  }

  lemma HighPart(a: nat, b: nat, q: nat, r: nat, p: nat)
    requires a == q * b + r && a < p * b
    ensures q < p
  {
    if q >= p {
      MulMono(p, q, b);
    }
  }

  /** bf_integer_to_radix_rec: the n digits of a at out + off */
  method ToRadixRec(w: nat, out: array<nat>, off: nat, a: nat, n: nat, level: nat, n0: nat, radix: nat, rb: nat,
      powTab: array<nat>, f: Format, ghost e: nat)
    requires w >= 4 && 0 < n <= n0 && off + n <= out.Length && out != powTab && a < Pow(radix, n)
    requires 1 < radix <= Two(rb) && radix < Two(w) && e == Bits(rb, n0) + 1 && Wide(f, e)
    requires IsLevelSize(n, n0, level) && powTab.Length == (CeilLog2(n0) + 2) * 2
      && PowersRight(powTab[..], 2, radix, n0)
    modifies out, powTab
    ensures PowersRight(powTab[..], 2, radix, n0) && SameOutside(old(out[..]), out[..], off, off + n)
    ensures Digits(radix, out[off..off + n]) && Val(radix, out[off..off + n]) == a
    decreases n
  {
    hide Two, Val, Pow, Bits, LowSize, IsLevelSize, PowersRight, CeilLog2, Wide, Rem, Quot, SameOutside;
    ghost var s := out[..];
    if n == 1 {
      OneDigit(w, a, radix);
      out[off] := Rem(a, w);
      OneWritten(radix, s, out[..], off, a);
      return;
    }
    if n == 2 {
      TwoDigits(w, a, radix);
      var t := Rem(a, 2 * w);
      out[off] := t % radix;
      out[off + 1] := t / radix;
      TwoWritten(radix, s, out[..], off, a);
      return;
    }
    PartSizes(n, n0, level);
    LevelInside(n, n0, level);
    var n2 := LowSize(n0, level);
    var n1 := n - n2;
    var b := PowerAt(powTab, 2, radix, n0, level);
    var q, r := SplitNumber(w, a, b, radix, rb, n1, n2, n0, f, e);
    ToRadixRec(w, out, off + n2, q, n1, level + 1, n0, radix, rb, powTab, f, e);
    ghost var t := out[..];
    ToRadixRec(w, out, off, r, n2, level + 1, n0, radix, rb, powTab, f, e);
    PartsWritten(radix, s, t, out[..], off, n1, n2, q, r);
  }

  lemma OneDigit(w: nat, a: nat, radix: nat)
    requires a < Pow(radix, 1) && radix < Two(w)
    ensures Rem(a, w) == a && a < radix
  {
    hide Two, Rem, Quot;
    QuotSmall(a, w);
  }

  lemma TwoDigits(w: nat, a: nat, radix: nat)
    requires a < Pow(radix, 2) && 1 < radix < Two(w)
    ensures Rem(a, 2 * w) == a && a / radix < radix && a == a % radix + radix * (a / radix)
  {
    hide *;
    Square(radix);
    TwoAdd(w, w);
    SquareMono(radix, Two(w));
    QuotSmall(a, 2 * w);
    HighDigit(a, radix);
  }

  lemma Square(x: nat)
    ensures Pow(x, 2) == x * x
  {
    assert Pow(x, 1) == x * Pow(x, 0);
  }

  lemma SquareMono(x: nat, y: nat)
    requires x < y
    ensures x * x <= y * y
  {
    MulMono(x, y, x);
    MulMono(x, y, y);
  }

  lemma HighDigit(a: nat, radix: nat)
    requires a < radix * radix && radix > 0
    ensures a / radix < radix && a == a % radix + radix * (a / radix)
  {
    var q := a / radix;
    if q >= radix {
      MulMono(radix, q, radix);
    }
  }

  lemma OneWritten(radix: nat, s: seq<nat>, t: seq<nat>, off: nat, a: nat)
    requires off < |s| && t == s[off := a] && a < radix
    ensures SameOutside(s, t, off, off + 1) && Digits(radix, t[off..off + 1]) && Val(radix, t[off..off + 1]) == a
  {
    assert t[off..off + 1] == [a];
    ValOne(radix, a);
  }

  lemma TwoWritten(radix: nat, s: seq<nat>, t: seq<nat>, off: nat, a: nat)
    requires radix > 1 && off + 1 < |s| && t == s[off := a % radix][off + 1 := a / radix] && a / radix < radix
    requires a == a % radix + radix * (a / radix)
    ensures SameOutside(s, t, off, off + 2) && Digits(radix, t[off..off + 2]) && Val(radix, t[off..off + 2]) == a
  {
    var x, y := a % radix, a / radix;
    assert t[off..off + 2] == [x, y];
    assert [x, y][1..] == [y];
    ValOne(radix, y);
  }

  lemma PartsWritten(radix: nat, s: seq<nat>, t: seq<nat>, u: seq<nat>, off: nat, n1: nat, n2: nat, q: nat, r: nat)
    requires off + n1 + n2 <= |s| && SameOutside(s, t, off + n2, off + n2 + n1) && |t| == |s|
      && SameOutside(t, u, off, off + n2)
    requires |u| == |t| && Digits(radix, t[off + n2..off + n2 + n1]) && Val(radix, t[off + n2..off + n2 + n1]) == q
    requires Digits(radix, u[off..off + n2]) && Val(radix, u[off..off + n2]) == r
    ensures SameOutside(s, u, off, off + (n1 + n2)) && Digits(radix, u[off..off + (n1 + n2)])
    ensures Val(radix, u[off..off + (n1 + n2)]) == q * Pow(radix, n2) + r
  {
    hide Val, Pow, SameOutside;
    var m, e := off + n2, off + n2 + n1;
    SameOutsideWider(s, t, m, e, off, e);
    SameOutsideGrows(s, t, u, off, m, off, e);
    SameSlice(t, u, off, m, m, e);
    SliceSplit(radix, u, off, m, e);
    assert u[off..e] == u[off..m] + u[m..e];
  }

  /** bf_integer_to_radix: the n digits of a, for a < radix^n */
  method ToRadix(w: nat, a: nat, n: nat, radix: nat, f: Format) returns (out: array<nat>)
    requires w >= 4 && n > 0 && 1 < radix < Two(w) && a < Pow(radix, n) && Wide(f, Bits(CeilLog2(radix), n) + 1)
    ensures fresh(out) && out.Length == n && Digits(radix, out[..]) && Val(radix, out[..]) == a
  {
    hide Two, Val, Pow, Bits, IsLevelSize, CeilLog2, Wide;
    out := new nat[n](_ => 0);
    var powTab := new nat[(CeilLog2(n) + 2) * 2](_ => 0);
    TopLevel(n);
    ToRadixRec(w, out, 0, a, n, 0, n, radix, CeilLog2(radix), powTab, f, Bits(CeilLog2(radix), n) + 1);
    assert out[0..0 + n] == out[..];
  }

  /** from(to(a)) == a, for every integer that fits n digits. */
  method ToThenFrom(w: nat, a: nat, n: nat, radix: nat, f: Format) returns (b: nat)
    requires w >= 4 && n > 0 && 1 < radix < Two(w) && a < Pow(radix, n) && Wide(f, Bits(CeilLog2(radix), n) + 1)
    ensures b == a
  {
    hide *;
    var out := ToRadix(w, a, n, radix, f);
    b := FromRadix(out[..], radix);
  }

  /** to(from(s)) == s, for every digit string. */
  method FromThenTo(w: nat, s: seq<nat>, radix: nat, f: Format) returns (out: array<nat>)
    requires w >= 4 && s != [] && Digits(radix, s) && 1 < radix < Two(w) && Wide(f, Bits(CeilLog2(radix), |s|) + 1)
    ensures fresh(out) && out[..] == s
  {
    hide *;
    var a := FromRadix(s, radix);
    ValBound(radix, s);
    out := ToRadix(w, a, |s|, radix, f);
    DigitsUnique(radix, out[..], s);
  }

  /** The default exponent range of the source: 61 bits on 64-bit limbs. */
  function SourceFormat(): Format {
    Format(None, false, false, 3 - 0x1000000000000000, 0x1000000000000000)
  }

  /** It has room for every number of up to 2^53 limbs, in every radix that fits a limb. */
  lemma SourceWide(n: nat, radix: nat)
    requires radix < Two(64) && n <= 0x20000000000000
    ensures Wide(SourceFormat(), Bits(CeilLog2(radix), n) + 1)
  {
    hide Two, CeilLog2;
    var k := CeilLog2(radix);
    if k > 64 {
      TwoMono(64, k - 1);
    }
    MulMono(k, 64, n);
  }
}

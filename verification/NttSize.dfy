/** bf_get_fft_size: the number of moduli, the bits per digit and the length of the transform. */
module NttSize {
  import opened Limbs
  import opened FloatBits
  import opened FloatRound
  import opened FloatDigits

  /** ceil_log2 */
  function CeilLog2(a: nat): (r: nat)
    ensures a <= Two(r) && (r > 0 ==> Two(r - 1) < a)
  {
    if a <= 1 then TwoZero(); 0
    else var r := CeilLog2((a + 1) / 2); CeilStep(a, r); 1 + r
  }

  lemma CeilStep(a: nat, r: nat)
    requires a > 1 && (a + 1) / 2 <= Two(r) && (r > 0 ==> Two(r - 1) < (a + 1) / 2)
    ensures a <= Two(1 + r) && Two(r) < a
  {
    hide Two;
    TwoNext(r);
    if r > 0 {
      TwoNext(r - 1);
    } else {
      TwoZero();
    }
  }

  lemma CeilLog2Mono(a: nat, a': nat)
    requires a <= a'
    ensures CeilLog2(a) <= CeilLog2(a')
  {
    hide Two;
    var r, r' := CeilLog2(a), CeilLog2(a');
    if r > r' {
      TwoAdd(r', r - 1 - r');
      MulMono(1, Two(r - 1 - r'), Two(r'));
    }
  }

  /** The number of digits of dpl bits in len limbs. */
  function DigitCount(w: nat, len: nat, dpl: nat): (n: nat)
    requires dpl > 0
    ensures Bits(w, len) <= Bits(dpl, n) < Bits(w, len) + dpl
  {
    var x := Bits(w, len) + dpl - 1;
    assert x == dpl * (x / dpl) + x % dpl;
    x / dpl
  }

  lemma DigitCountMono(w: nat, len: nat, dpl: nat, dpl': nat)
    requires 0 < dpl <= dpl'
    ensures DigitCount(w, len, dpl') <= DigitCount(w, len, dpl)
  {
    hide Bits;
    var n, n' := DigitCount(w, len, dpl), DigitCount(w, len, dpl');
    if n' > n {
      WiderDigits(dpl, dpl', n, n');
    }
  }

  lemma WiderDigits(dpl: nat, dpl': nat, n: nat, n': nat)
    requires dpl <= dpl' && n < n'
    ensures Bits(dpl', n') >= Bits(dpl, n) + dpl'
  {
    MulMono(n + 1, n', dpl');
    MulMono(dpl, dpl', n);
    Distrib(dpl', n, 1);
  }

  /** The levels of the transform for digits of dpl bits. */
  function Levels(w: nat, len: nat, dpl: nat): nat
    requires dpl > 0
  {
    CeilLog2(DigitCount(w, len, dpl))
  }

  lemma LevelsMono(w: nat, len: nat, dpl: nat, dpl': nat)
    requires 0 < dpl <= dpl'
    ensures Levels(w, len, dpl') <= Levels(w, len, dpl)
  {
    hide Bits, Two;
    DigitCountMono(w, len, dpl, dpl');
    CeilLog2Mono(DigitCount(w, len, dpl'), DigitCount(w, len, dpl));
  }

  /** The first width that is tried for intBits bits below the product of the moduli. */
  function Cap(w: nat, intBits: nat): int {
    if (intBits - 4) / 2 < 3 * w - 4 then (intBits - 4) / 2 else 3 * w - 4
  }

  /** A width that leaves room for the coefficients. */
  predicate Feasible(w: nat, intBits: nat, rootExp: nat, len: nat, dpl: nat) {
    0 < dpl <= Cap(w, intBits) && Levels(w, len, dpl) <= rootExp && Levels(w, len, dpl) + 2 * dpl <= intBits
  }

  /** What a choice has to satisfy: the transform of 2^k digits holds the product, and no coefficient reaches
      2^intBits. */
  ghost predicate Suits(w: nat, intBits: nat, rootExp: nat, len: nat, dpl: nat, k: nat) {
    && 0 < dpl <= 3 * w - 4 && k <= rootExp && k + 2 * dpl <= intBits && Bits(w, len) <= Bits(dpl, Two(k))
    && (Bits(w, len) > 3 * w - 4 ==> k > 0)
  }

  lemma FeasibleSuits(w: nat, intBits: nat, rootExp: nat, len: nat, dpl: nat)
    requires Feasible(w, intBits, rootExp, len, dpl)
    ensures Suits(w, intBits, rootExp, len, dpl, Levels(w, len, dpl))
  {
    hide Two;
    var n, k := DigitCount(w, len, dpl), Levels(w, len, dpl);
    MulMono(n, Two(k), dpl);
    if k == 0 {
      TwoZero();
      MulMono(n, 1, dpl);
    }
  }

  /** The inner loop: the widest feasible digits for one number of moduli */
  method WidestDigits(w: nat, intBits: nat, rootExp: nat, len: nat) returns (dpl: nat, k: nat)
    requires w >= 3 && intBits >= 6
    ensures dpl > 0 ==> Feasible(w, intBits, rootExp, len, dpl) && k == Levels(w, len, dpl)
    ensures dpl == 0 ==> forall d :: 0 < d ==> !Feasible(w, intBits, rootExp, len, d)
  {
    hide Bits, Two, Levels;
    dpl := Cap(w, intBits);
    while true
      invariant 0 < dpl <= Cap(w, intBits) && forall d :: d > dpl ==> !Feasible(w, intBits, rootExp, len, d)
      decreases dpl
    {
      k := CeilLog2((Bits(w, len) + dpl - 1) / dpl);
      LevelsIs(w, len, dpl);
      if k > rootExp {
        forall d | 0 < d <= dpl
          ensures !Feasible(w, intBits, rootExp, len, d)
        {
          LevelsMono(w, len, d, dpl);
        }
        return 0, k;
      }
      if k + 2 * dpl <= intBits {
        return;
      }
      dpl := dpl - 1;
      if dpl == 0 {
        return;
      }
    }
  }

  lemma LevelsIs(w: nat, len: nat, dpl: nat)
    requires dpl > 0
    ensures (Bits(w, len) + dpl - 1) / dpl >= 0 && Levels(w, len, dpl) == CeilLog2((Bits(w, len) + dpl - 1) / dpl)
  {
    assert DigitCount(w, len, dpl) == (Bits(w, len) + dpl - 1) / dpl;
  }

  /** bf_get_fft_size; dpl is 0 where the source aborts. intBits[i] bits are below the product of the moduli from i
      on. */
  method GetFftSize(w: nat, intBits: seq<nat>, rootExp: nat, len: nat) returns (dpl: nat, nb: nat, k: nat)
    requires w >= 3 && |intBits| >= 3 && forall i :: 0 <= i <= |intBits| - 3 ==> intBits[i] >= 6
    ensures dpl > 0 ==> 3 <= nb <= |intBits| && Suits(w, intBits[|intBits| - nb], rootExp, len, dpl, k)
    ensures dpl == 0 ==> forall i, d :: 0 <= i <= |intBits| - 3 && 0 < d ==> !Feasible(w, intBits[i], rootExp, len, d)
  {
    hide Bits, Two, Levels, Feasible, Suits;
    var minCost, n := 0, 3;
    dpl, nb, k := 0, 4, 0;
    while n <= |intBits|
      invariant 3 <= n <= |intBits| + 1
      invariant dpl > 0 ==> 3 <= nb <= |intBits| && Suits(w, intBits[|intBits| - nb], rootExp, len, dpl, k)
      invariant dpl == 0 ==> forall i, d :: |intBits| - n < i <= |intBits| - 3 && 0 < d ==>
        !Feasible(w, intBits[i], rootExp, len, d)
    {
      var d, l := WidestDigits(w, intBits[|intBits| - n], rootExp, len);
      if d > 0 {
        FeasibleSuits(w, intBits[|intBits| - n], rootExp, len, d);
        var cost := ((l + 1) * Two(l)) * n;
        if dpl == 0 || cost < minCost {
          minCost, dpl, nb, k := cost, d, n, l;
        }
      }
      n := n + 1;
    }
    if dpl > 2 * w - 3 && Bits(2 * w - 3, Two(k)) >= Bits(w, len) {
      Narrower(w, intBits[|intBits| - nb], rootExp, len, dpl, k);
      dpl := 2 * w - 3;
    }
  }

  lemma Narrower(w: nat, intBits: nat, rootExp: nat, len: nat, dpl: nat, k: nat)
    requires w >= 3 && Suits(w, intBits, rootExp, len, dpl, k) && dpl > 2 * w - 3
      && Bits(2 * w - 3, Two(k)) >= Bits(w, len)
    ensures Suits(w, intBits, rootExp, len, 2 * w - 3, k)
  {
  }
}

/** mp_div1_dec and mp_div_dec: division of decimal limbs by one limb and by many. */
module DecDivision {
  import opened Limbs
  import opened LimbKernels
  import opened LimbUnary
  import opened LimbDivision
  import opened LimbDivnorm
  import opened DecKernels

  // ---- division by one limb

  /** 2^clz(d): the power of two that brings d to at least half a word. */
  function Normalizer(word: nat, d: nat): (p: nat)
    requires 0 < d < word && word % 2 == 0
    ensures p > 0 && d * p < word <= 2 * (d * p)
    decreases word - d
  {
    if 2 * d >= word then 1
    else
      var p := Normalizer(word, 2 * d);
      assert d * (2 * p) == (2 * d) * p;
      2 * p
  }

  function Times(x: nat, y: nat): nat {
    x * y
  }

  /** The double word n by the normalised divisor d, the remainder shifted back. */
  function UDivWords(word: nat, n: nat, d: nat, p: nat): (int, int)
    requires word > 0 && d > 0 && p > 0
  {
    var res := UDiv1Norm(word, n / word, n % word, d, Reciprocal(word, d));
    (res.0, res.1 / p)
  }

  /** Quotient and remainder of r b + x by d, with the reciprocal of the normalised divisor. */
  function UDivDec(word: nat, b: nat, r: nat, x: nat, d: nat): (int, int)
    requires 0 < d < word && word % 2 == 0
  {
    var p := Normalizer(word, d);
    UDivWords(word, Times(Times(r, b) + x, p), Times(d, p), p)
  }

  lemma UDivDecExact(word: nat, b: nat, r: nat, x: nat, d: nat)
    requires DecBase(word, b) && r < d < b && x < b
    ensures UDivDec(word, b, r, x, d) == ((r * b + x) / d, (r * b + x) % d)
  {
    hide UDiv1Norm, Reciprocal, DecBase, Normalizer, UDivWords;
    BaseFacts(word, b);
    MulMono(0, r, b);
    UDivWordsExact(word, b, r, x, d, Normalizer(word, d), Times(r, b) + x);
  }

  lemma UDivWordsExact(word: nat, b: nat, r: nat, x: nat, d: nat, p: nat, n: nat)
    requires 1 < b < word && r < d < b && x < b && p > 0 && d * p < word <= 2 * (d * p) && n == r * b + x
    ensures Times(d, p) > 0 && UDivWords(word, Times(n, p), Times(d, p), p) == (n / d, n % d)
  {
    hide UDiv1Norm, Reciprocal;
    var q, z := Divided(n, d);
    NormalizedWords(word, b, r, x, d, p, n);
    var t1, t0 := Divided(n * p, word);
    UDiv1NormExact(word, t1, t0, d * p);
    NormalizedQuotient(n, d, p, q, z);
    DivUnique(n, d, q, z);
    DivUnique(n * p, word, t1, t0);
  }

  lemma BaseFacts(word: nat, b: nat)
    requires DecBase(word, b)
    ensures word % 2 == 0 && b % 2 == 0 && 1 < b < word < 2 * b
  {
  }

  /** The high word of the shifted dividend is below the shifted divisor. */
  lemma NormalizedWords(word: nat, b: nat, r: nat, x: nat, d: nat, p: nat, n: nat)
    requires b < word && r < d && x < b && p > 0 && n == r * b + x && d > 0
    ensures 0 <= n * p && n * p / word < d * p
  {
    MulMono(r + 1, d, b);
    Distrib(b, r, 1);
    MulMono(0, r, b);
    MulStrict(n, d * b, p);
    MulMono(0, n, p);
    MulMono(b, word, d * p);
    assert (d * b) * p == (d * p) * b;
    var h, l := Divided(n * p, word);
    if h >= d * p {
      MulMono(d * p, h, word);
    }
  }

  lemma NormalizedQuotient(n: nat, d: nat, p: nat, q: nat, z: nat)
    requires n == q * d + z && z < d && p > 0
    ensures d * p > 0 && (n * p) / (d * p) == q && (n * p) % (d * p) / p == z
  {
    MulPositive(d, p);
    MulStrict(z, d, p);
    MulMono(0, z, p);
    Distrib(p, q * d, z);
    Assoc(q, d, p);
    DivUnique(n * p, d * p, q, z * p);
    DivUnique(z * p, p, z, 0);
  }

  /** mp_div1_dec(q, a, |a|, d, r0): halving, by reciprocal, or by division of double words */
  method MpDiv1Dec(word: nat, b: nat, q: array<nat>, a: seq<nat>, d: nat, r0: nat) returns (r: nat)
    requires DecBase(word, b) && r0 < d < b && Digits(b, a) && |a| <= q.Length
    modifies q
    ensures DigitsIn(b, q[..], 0, |a|) && q[|a|..] == old(q[|a|..])
    ensures r < d && r0 * Pow(b, |a|) + Val(b, a) == Val(b, q[..|a|]) * d + r
  {
    hide Val, Pow, UDivDec, DecBase;
    BaseFacts(word, b);
    if d == 2 {
      r := Halve(b, q, a, r0);
      return;
    }
    r := r0;
    var i := |a|;
    ghost var s := q[..];
    Div1Start(b, a, s, r0, d);
    while i > 0
      invariant 0 <= i <= |a| && r < d && DigitsIn(b, q[..], i, |a|) && q[|a|..] == s[|a|..]
      invariant DivState(r0, Pow(b, |a| - i), Val(b, a[i..]), Val(b, q[..][i..|a|]), d, r)
    {
      i := i - 1;
      ghost var t, old_r := q[..], r;
      DivLimb(b, r, a[i], d);
      if |a| >= UDIV1NORM_THRESHOLD {
        UDivDecExact(word, b, r, a[i], d);
        var res := UDivDec(word, b, r, a[i], d);
        q[i], r := res.0, res.1;
      } else {
        var n := r * b + a[i];
        q[i], r := n / d, n % d;
      }
      assert q[..] == t[i := q[i]];
      Div1Step(b, a, t, q[..], i, r0, old_r, r, d);
    }
    assert a[0..] == a && q[..][0..|a|] == q[..|a|];
  }

  /** The halving branch: the carry is half a base. */
  method Halve(b: nat, q: array<nat>, a: seq<nat>, r0: nat) returns (r: nat)
    requires b > 1 && b % 2 == 0 && r0 < 2 && Digits(b, a) && |a| <= q.Length
    modifies q
    ensures DigitsIn(b, q[..], 0, |a|) && q[|a|..] == old(q[|a|..])
    ensures r < 2 && r0 * Pow(b, |a|) + Val(b, a) == Val(b, q[..|a|]) * 2 + r
  {
    hide Val, Pow;
    var half := b / 2;
    r := if r0 != 0 then half else 0;
    var i := |a|;
    ghost var s := q[..];
    Div1Start(b, a, s, r0, 2);
    while i > 0
      invariant 0 <= i <= |a| && (r == 0 || r == half) && DigitsIn(b, q[..], i, |a|) && q[|a|..] == s[|a|..]
      invariant DivState(r0, Pow(b, |a| - i), Val(b, a[i..]), Val(b, q[..][i..|a|]), 2, if r != 0 then 1 else 0)
    {
      i := i - 1;
      ghost var t, bit := q[..], if r != 0 then 1 else 0;
      q[i] := a[i] / 2 + r;
      r := if a[i] % 2 == 1 then half else 0;
      assert q[..] == t[i := q[i]];
      Div1Step(b, a, t, q[..], i, r0, bit, if r != 0 then 1 else 0, 2);
    }
    assert a[0..] == a && q[..][0..|a|] == q[..|a|];
    if r != 0 {
      r := 1;
    }
  }

  // ---- one digit

  /** The low limbs of a window and its top limb. */
  lemma WindowParts(b: nat, s: seq<nat>, i: nat, nb: nat)
    requires b > 0 && DigitsIn(b, s, i, i + nb) && i + nb < |s|
    ensures Val(b, s[i..i + nb + 1]) == Val(b, s[i..i + nb]) + Pow(b, nb) * s[i + nb]
      && Val(b, s[i..i + nb]) < Pow(b, nb)
  {
    hide Val, Pow;
    SliceSnoc(b, s, i, nb);
    ValBound(b, s[i..i + nb]);
  }

  lemma EstimateGoodDec(b: nat, s: seq<nat>, i: nat, y: seq<nat>)
    requires 1 < b && |y| > 0 && DigitsIn(b, s, i, i + |y| + 1) && Digits(b, y) && b <= 2 * y[|y| - 1]
    requires Val(b, s[i..i + |y| + 1]) < b * Val(b, y)
    ensures var q := Estimate(b, s[i + |y|], s[i + |y| - 1], y[|y| - 1]); var r := Val(b, s[i..i + |y| + 1]);
      0 <= q < b && (q - 2) * Val(b, y) <= r < (q + 1) * Val(b, y) && Val(b, y) > 0
  {
    hide Val, Estimate;
    var w := s[i..i + |y| + 1];
    assert w[0..0 + |y| + 1] == w;
    EstimateGood(b, w, 0, y);
  }

  /** One digit of mp_div_dec. The limb above the remainder is left at 0 or at b. */
  method DivDigitDec(word: nat, b: nat, a: array<nat>, i: nat, y: seq<nat>) returns (q: nat, ghost addBacks: nat)
    requires DecBase(word, b) && |y| > 0 && DigitsIn(b, a[..], i, i + |y| + 1) && Digits(b, y) && b <= 2 * y[|y| - 1]
    requires Val(b, a[i..i + |y| + 1]) < b * Val(b, y)
    modifies a
    ensures DigitsIn(b, a[..], i, i + |y|) && SameOutside(old(a[..]), a[..], i, i + |y| + 1)
    ensures q < b && Val(b, a[i..i + |y|]) < Val(b, y)
    ensures old(Val(b, a[i..i + |y| + 1])) == q * Val(b, y) + Val(b, a[i..i + |y|])
    ensures addBacks <= 2
  {
    hide Val, Pow, Estimate, SameOutside, DecBase;
    BaseFacts(word, b);
    var nb := |y|;
    ghost var s := a[..];
    ghost var r := Val(b, s[i..i + nb + 1]);
    assert a[i..i + nb + 1] == s[i..i + nb + 1];
    EstimateGoodDec(b, s, i, y);
    q := Estimate(b, a[i + nb], a[i + nb - 1], y[nb - 1]);
    var c := SubtractDec(word, b, a, i, y, q);
    ghost var t := a[..];
    q, addBacks := CorrectDec(word, b, a, i, y, q, c, r);
    SameOutsideTrans(s, t, a[..], i, i + nb + 1);
  }

  /** The window loses q times the divisor; the borrow c says that this went below zero. */
  method SubtractDec(word: nat, b: nat, a: array<nat>, i: nat, y: seq<nat>, q: nat) returns (c: bool)
    requires DecBase(word, b) && DigitsIn(b, a[..], i, i + |y| + 1) && Digits(b, y) && q < b
    modifies a
    ensures DigitsIn(b, a[..], i, i + |y| + 1) && SameOutside(old(a[..]), a[..], i, i + |y| + 1)
    ensures c <==> old(Val(b, a[i..i + |y| + 1])) - q * Val(b, y) < 0
    ensures Val(b, a[i..i + |y|]) + Pow(b, |y|) * a[i + |y|]
         == old(Val(b, a[i..i + |y| + 1])) - q * Val(b, y) + (if c then Pow(b, |y|) * b else 0)
  {
    hide Val, Pow, SameOutside, DecBase, SubLimbDec;
    BaseFacts(word, b);
    var nb := |y|;
    ghost var s := a[..];
    var l := MpSubMul1Dec(word, b, a, i, y, q);
    ghost var t := a[..];
    SameAt(s, t, i, i + nb);
    var v := a[i + nb];
    var x := SubLimbDec(word, b, v, l, 0);
    var top := x.0;
    c := x.1 == 1;
    a[i + nb] := top;
    assert a[..] == t[i + nb := top];
    WindowLoses(b, s, t, a[..], i, nb, top, c, l, q, Val(b, y));
    assert a[i..i + nb] == a[..][i..i + nb];
  }

  lemma WindowLoses(b: nat, s: seq<nat>, t: seq<nat>, u: seq<nat>, i: nat, nb: nat, top: nat, c: bool, l: nat, q: nat,
      y: nat)
    requires b > 0 && i + nb < |s| == |t| && DigitsIn(b, s, i, i + nb) && DigitsIn(b, t, i, i + nb) && top < b
    requires SameOutside(s, t, i, i + nb) && u == t[i + nb := top] && top == s[i + nb] - l + (if c then b else 0)
    requires Val(b, t[i..i + nb]) - Pow(b, nb) * l == Val(b, s[i..i + nb]) - y * q
    ensures SameOutside(s, u, i, i + nb + 1) && (c <==> Val(b, s[i..i + nb + 1]) - q * y < 0)
    ensures Val(b, u[i..i + nb]) + Pow(b, nb) * u[i + nb]
         == Val(b, s[i..i + nb + 1]) - q * y + (if c then Pow(b, nb) * b else 0)
  {
    hide *;
    WindowParts(b, s, i, nb);
    WindowParts(b, t, i, nb);
    Replaced(b, s, t, u, i, nb, top);
    var r := Val(b, s[i..i + nb + 1]);
    Subtracted(b, Pow(b, nb), Val(b, s[i..i + nb]), s[i + nb], r, Val(b, t[i..i + nb]), top, c, l, r - q * y);
  }

  /** The add-back loop: it ends when the top limb reaches b, and leaves that value there. */
  method CorrectDec(word: nat, b: nat, a: array<nat>, i: nat, y: seq<nat>, q0: nat, c: bool,
      ghost r: nat) returns (q: nat, ghost addBacks: nat)
    requires 1 < b < word && DigitsIn(b, a[..], i, i + |y| + 1) && Digits(b, y) && q0 < b && Val(b, y) > 0
    requires (q0 - 2) * Val(b, y) <= r < (q0 + 1) * Val(b, y)
    requires c <==> r - q0 * Val(b, y) < 0
    requires Val(b, a[i..i + |y|]) + Pow(b, |y|) * a[i + |y|] == r - q0 * Val(b, y) + (if c then Pow(b, |y|) * b else 0)
    modifies a
    ensures DigitsIn(b, a[..], i, i + |y|) && SameOutside(old(a[..]), a[..], i, i + |y| + 1)
    ensures q <= q0 && Val(b, a[i..i + |y|]) < Val(b, y)
    ensures r == q * Val(b, y) + Val(b, a[i..i + |y|])
    ensures addBacks <= 2
  {
    hide Val, Pow, SameOutside;
    var nb := |y|;
    ghost var s, d, p := a[..], Val(b, y), Pow(b, nb);
    q, addBacks := q0, 0;
    SameOutsideRefl(s, i, i + nb + 1);
    ValBound(b, y);
    assert s[i..i + nb] == a[i..i + nb];
    if c {
      var done := false;
      CorrectionRange(q0, d, r, 0);
      while !done
        invariant DigitsIn(b, a[..], i, i + nb) && SameOutside(s, a[..], i, i + nb + 1)
        invariant addBacks <= q0 && q == q0 - addBacks && addBacks <= 2
        invariant !done ==> a[i + nb] < b && r - q * d < 0
        invariant !done ==> Val(b, a[..][i..i + nb]) + p * a[i + nb] == r - q * d + p * b
        invariant done ==> 0 <= r - q * d < d && Val(b, a[..][i..i + nb]) == r - q * d
        decreases !done, q
      {
        CorrectionRange(q0, d, r, addBacks);
        ghost var t, z := a[..], r - q * d;
        var k := MpAddDec(word, b, a, i, y, 0);
        ghost var u := a[..];
        SameAt(t, u, i, i + nb);
        WindowParts(b, u, i, nb);
        assert a[i..i + nb] == u[i..i + nb];
        AddBack(b, p, Val(b, t[i..i + nb]), t[i + nb], Val(b, u[i..i + nb]), k, d, z);
        q, addBacks := q - 1, addBacks + 1;
        Distrib(d, q + 1, 1);
        if k != 0 {
          a[i + nb] := a[i + nb] + 1;
          done := a[i + nb] == b;
        }
        assert a[..] == u[i + nb := a[i + nb]];
        Replaced(b, t, u, a[..], i, nb, a[i + nb]);
        SameOutsideTrans(s, t, a[..], i, i + nb + 1);
      }
      assert a[i..i + nb] == a[..][i..i + nb];
    } else {
      Distrib(d, q0, 1);
      SmallWindow(b, nb, Val(b, s[i..i + nb]), s[i + nb], d);
    }
  }

  // ---- all the digits

  /** The digit loop from limb start - 1 down. */
  method DigitLoop(word: nat, b: nat, q: array<nat>, a: array<nat>, start: nat, n: nat, y: seq<nat>, ghost total: nat)
    requires DecBase(word, b) && 0 < |y| && start <= n + 1 <= q.Length && q != a && Digits(b, y) && b <= 2 * y[|y| - 1]
    requires DigitsIn(b, q[..], start, n + 1) && DigitsIn(b, a[..], 0, start + |y|)
    requires Left(b, a[..], 0, start, |y|, q[..], n, Val(b, y), total)
    modifies q, a
    ensures DigitsIn(b, q[..], 0, n + 1) && DigitsIn(b, a[..], 0, |y|)
    ensures Val(b, a[..|y|]) < Val(b, y) && total == Val(b, q[..n + 1]) * Val(b, y) + Val(b, a[..|y|])
  {
    hide Val, Pow, Left, SameOutside, DecBase;
    var i, nb := start, |y|;
    while i > 0
      invariant 0 <= i <= start && DigitsIn(b, q[..], i, n + 1) && DigitsIn(b, a[..], 0, i + nb)
      invariant Left(b, a[..], 0, i, nb, q[..], n, Val(b, y), total)
    {
      i := i - 1;
      ghost var t, q1 := a[..], q[..];
      WindowBound(b, t, 0, i, nb, q1, n, Val(b, y), total);
      assert a[i..i + nb + 1] == t[0 + i..0 + i + nb + 1];
      var digit, _ := DivDigitDec(word, b, a, i, y);
      q[i] := digit;
      assert q[..] == q1[i := digit];
      assert a[i..i + nb] == a[..][0 + i..0 + i + nb];
      DigitStep(b, t, a[..], 0, i, nb, Val(b, y), q1, digit, n, total);
      LowKept(b, t, a[..], i, nb);
    }
    AllDigits(b, a[..], 0, nb, q[..], n, Val(b, y), total);
    assert q[..][..n + 1] == q[..n + 1] && a[..][0..0 + nb] == a[..nb];
  }

  /** The limbs below the window are still digits. */
  lemma LowKept(b: nat, t: seq<nat>, u: seq<nat>, i: nat, nb: nat)
    requires SameOutside(t, u, i, i + nb + 1) && DigitsIn(b, t, 0, i) && DigitsIn(b, u, i, i + nb)
    ensures DigitsIn(b, u, 0, i + nb)
  {
    forall j | 0 <= j < i
      ensures u[j] < b
    {
      assert u[..i][j] == t[..i][j];
    }
  }

  /** The first quotient limb of a normalised divisor, 0 or 1, and the subtraction after it. */
  method FirstDigitDec(word: nat, b: nat, a: array<nat>, n: nat, y: seq<nat>) returns (q: nat)
    requires DecBase(word, b) && |y| > 0 && DigitsIn(b, a[..], n, n + |y|) && Digits(b, y) && b <= 2 * y[|y| - 1]
    modifies a
    ensures DigitsIn(b, a[..], n, n + |y|) && SameOutside(old(a[..]), a[..], n, n + |y|) && q <= 1
    ensures old(Val(b, a[n..n + |y|])) == q * Val(b, y) + Val(b, a[n..n + |y|]) && Val(b, a[n..n + |y|]) < Val(b, y)
  {
    hide Val, Pow, SameOutside, DecBase;
    BaseFacts(word, b);
    ghost var s := a[..];
    ghost var x := s[n..n + |y|];
    assert a[n..n + |y|] == x;
    q := 1;
    var j := |y|;
    while j > 0
      invariant 0 <= j <= |y| && q == 1 && x[j..] == y[j..]
    {
      j := j - 1;
      assert a[n + j] == x[j];
      if a[n + j] != y[j] {
        TopDiffers(b, x, y, j);
        if a[n + j] < y[j] {
          q := 0;
        }
        break;
      }
      assert x[j..] == [x[j]] + x[j + 1..] && y[j..] == [y[j]] + y[j + 1..];
    }
    assert j == 0 && q == 1 && x[0..] == y[0..] ==> x == y by { assert x[0..] == x && y[0..] == y; }
    assert q == 0 <==> Val(b, x) < Val(b, y);
    SameOutsideRefl(s, n, n + |y|);
    TopHalf(b, x, y);
    if q != 0 {
      var k := MpSubDec(word, b, a, n, y, 0);
      ValBound(b, a[n..n + |y|]);
      SubNoBorrow(b, |y|, Val(b, a[n..n + |y|]), k);
    }
  }

  // ---- normalisation

  /** mult = b / (top + 1) brings the top limb to at least half the base. */
  lemma MultTop(b: nat, top: nat, mult: nat)
    requires b % 2 == 0 && 0 < top && 2 * top < b && mult == b / (top + 1)
    ensures b <= 2 * (top * mult) && mult * (top + 1) <= b && 1 < mult < b
  {
    var m, e := Divided(b, top + 1);
    MultArith(b, top, mult, e);
    MulMono(2, mult, top + 1);
    if mult <= 1 {
      MulMono(mult, 1, top + 1);
    }
  }

  lemma MultArith(b: nat, top: nat, mult: nat, e: nat)
    requires b % 2 == 0 && 0 < top && 2 * top < b && b == mult * (top + 1) + e && e <= top
    ensures b <= 2 * (top * mult)
  {
    var x := top * mult;
    MultProduct(b, top, mult, e);
    MulMono(e, top, top);
    MultFactors(b, top);
    if 2 * x <= b - 2 {
      MulMono(2 * x, b - 2, top + 1);
      Distrib(top + 1, b, 2);
      Distrib(b, top, 1);
      Distrib(2, top, 1);
    }
  }

  lemma MultProduct(b: nat, top: nat, mult: nat, e: nat)
    requires b == mult * (top + 1) + e
    ensures (2 * (top * mult)) * (top + 1) == 2 * (top * b) - 2 * (top * e)
  {
    Assoc(2, top * mult, top + 1);
    Assoc(top, mult, top + 1);
    Distrib(top, b, e);
  }

  lemma MultFactors(b: nat, top: nat)
    requires 0 < top && 2 * top < b
    ensures top * b - b - 2 * (top * top) + 2 * top >= 0
  {
    MulMono(0, b - 2 * top, top - 1);
    Distrib(top - 1, b, 2 * top);
    Distrib(b, top, 1);
    Distrib(2 * top, top, 1);
    assert top * (2 * top) == 2 * (top * top);
  }

  /** The scaled divisor fits its limbs, with a top limb of at least half the base. */
  lemma ScaledDivisor(b: nat, y: seq<nat>, z: seq<nat>, mult: nat, l: nat)
    requires 1 < b && |y| == |z| > 0 && Digits(b, y) && Digits(b, z) && b % 2 == 0
    requires var top := y[|y| - 1]; 0 < top && 2 * top < b && mult == b / (top + 1)
    requires Val(b, z) + Pow(b, |y|) * l == Val(b, y) * mult
    ensures l == 0 && b <= 2 * z[|z| - 1] && Val(b, z) == Val(b, y) * mult && 1 < mult < b
    ensures Pow(b, |y| - 1) * mult <= Val(b, z)
  {
    hide *;
    var n := |y| - 1;
    MultTop(b, y[n], mult);
    ValTop(b, y);
    ValTop(b, z);
    PowNext(b, n);
    PowPositive(b, n);
    ScaledTop(b, Pow(b, n), y[n], mult, Val(b, y[..n]), Val(b, y), z[n], Val(b, z[..n]), Val(b, z), l);
  }

  lemma ScaledTop(b: nat, p: nat, top: nat, mult: nat, low: nat, y: nat, top': nat, low': nat, z: nat, l: nat)
    requires p > 0 && mult > 0 && top > 0 && low < p && y == low + p * top && mult * (top + 1) <= b
      && b <= 2 * (top * mult)
    requires z == low' + p * top' && low' < p && z + (b * p) * l == y * mult
    ensures l == 0 && b <= 2 * top' && z == y * mult && p * mult <= z
  {
    ScaledBounds(b, p, top, mult, low, y);
    if l >= 1 {
      MulMono(1, l, b * p);
    }
    if top' < top * mult {
      MulMono(top' + 1, top * mult, p);
      Distrib(p, top', 1);
    }
    MulMono(1, top, p * mult);
  }

  lemma ScaledBounds(b: nat, p: nat, top: nat, mult: nat, low: nat, y: nat)
    requires p > 0 && mult > 0 && low < p && y == low + p * top && mult * (top + 1) <= b
    ensures p * (top * mult) <= y * mult < b * p && p * (top * mult) == (p * mult) * top
  {
    Distrib(mult, low, p * top);
    Assoc(p, top, mult);
    MulMono(0, low, mult);
    MulStrict(low, p, mult);
    MulMono(mult * (top + 1), b, p);
    Distrib(mult, top, 1);
    Distrib(p, mult * top, mult);
    assert (p * mult) * top == p * (top * mult) by { Assoc(p, mult, top); }
  }

  /** Dividing the scaled remainder gives the remainder. */
  lemma Unscaled(a: nat, q: nat, y: nat, mult: nat, r': nat, r: nat, z: nat)
    requires mult > 0 && a * mult == q * (y * mult) + r' && r' < y * mult && r' == r * mult + z && z < mult
    ensures a == q * y + r && r < y
  {
    Assoc(q, y, mult);
    Distrib(mult, q * y, r);
    Distrib(mult, a, q * y + r);
    var d := a - (q * y + r);
    if d >= 1 {
      MulMono(1, d, mult);
    }
    if d <= -1 {
      MulMono(d, -1, mult);
    }
    if r >= y {
      MulMono(y, r, mult);
    }
  }

  /** mp_div_dec: quotient into q, remainder into the low limbs of a */
  method MpDivDec(word: nat, b: nat, q: array<nat>, a: array<nat>, na: nat, y: seq<nat>)
    requires DecBase(word, b) && 0 < |y| <= na <= a.Length && na - |y| < q.Length && q != a && Digits(b, y)
      && y[|y| - 1] != 0
    requires DigitsIn(b, a[..], 0, na) && (2 * y[|y| - 1] < b ==> na < a.Length)
    modifies q, a
    ensures DigitsIn(b, q[..], 0, na - |y| + 1) && DigitsIn(b, a[..], 0, |y|)
    ensures Val(b, a[..|y|]) < Val(b, y)
      && old(Val(b, a[..na])) == Val(b, q[..na - |y| + 1]) * Val(b, y) + Val(b, a[..|y|])
  {
    hide Val, Pow, Left, SameOutside, DecBase;
    BaseFacts(word, b);
    var nb, n := |y|, na - |y|;
    ghost var s := a[..];
    ghost var total := Val(b, a[..na]);
    if y[nb - 1] >= b / 2 {
      var top := FirstDigitDec(word, b, a, n, y);
      ghost var t := a[..];
      q[n] := top;
      assert s[..na] == s[0..n + nb] && a[n..n + nb] == t[n..n + nb] && s[n..n + nb] == old(a[n..n + nb]);
      FirstStep(b, s, t, 0, n, nb, Val(b, y), q[..], total);
      LowDigits(b, s, t, n, nb);
      DigitLoop(word, b, q, a, n, n, y, total);
    } else {
      DivScaled(word, b, q, a, na, y);
    }
  }

  lemma LowDigits(b: nat, s: seq<nat>, t: seq<nat>, n: nat, nb: nat)
    requires SameOutside(s, t, n, n + nb) && DigitsIn(b, s, 0, n) && DigitsIn(b, t, n, n + nb)
    ensures DigitsIn(b, t, 0, n + nb)
  {
    forall j | 0 <= j < n
      ensures t[j] < b
    {
      assert t[..n][j] == s[..n][j];
    }
  }

  /** Both operands are scaled by mult, and the remainder is scaled back. */
  method DivScaled(word: nat, b: nat, q: array<nat>, a: array<nat>, na: nat, y: seq<nat>)
    requires DecBase(word, b) && 0 < |y| <= na < a.Length && na - |y| < q.Length && q != a && Digits(b, y)
    requires 0 < y[|y| - 1] < b / 2 && DigitsIn(b, a[..], 0, na)
    modifies q, a
    ensures DigitsIn(b, q[..], 0, na - |y| + 1) && DigitsIn(b, a[..], 0, |y|)
    ensures Val(b, a[..|y|]) < Val(b, y)
      && old(Val(b, a[..na])) == Val(b, q[..na - |y| + 1]) * Val(b, y) + Val(b, a[..|y|])
  {
    hide Val, Pow, Left, SameOutside, DecBase, DigitsIn;
    BaseFacts(word, b);
    var nb, n := |y|, na - |y|;
    ghost var v := Val(b, a[..na]);
    var mult := b / (y[nb - 1] + 1);
    MultTop(b, y[nb - 1], mult);
    var z := new nat[nb];
    var l := MpMul1Dec(word, b, z, y, mult, 0);
    WholeDigits(b, z[..], nb);
    assert z[..nb] == z[..];
    ScaledDivisor(b, y, z[..], mult, l);
    var x := a[..na];
    PrefixDigits(b, a[..], na);
    var high := MpMul1Dec(word, b, a, x, mult, 0);
    ghost var t := a[..];
    a[na] := high;
    assert a[..] == t[na := high];
    ScaledDividend(b, x, t, a[..], na, nb, mult, high, Val(b, z[..]), q[..]);
    DigitLoop(word, b, q, a, n + 1, n, z[..], v * mult);
    var rest := a[..nb];
    PrefixDigits(b, a[..], nb);
    var r := MpDiv1Dec(word, b, a, rest, mult, 0);
    Unscaled(v, Val(b, q[..n + 1]), Val(b, y), mult, Val(b, rest), Val(b, a[..nb]), r);
  }

  lemma WholeDigits(b: nat, s: seq<nat>, n: nat)
    requires DigitsIn(b, s, 0, n) && n == |s|
    ensures Digits(b, s)
  {
  }

  lemma PrefixDigits(b: nat, s: seq<nat>, n: nat)
    requires DigitsIn(b, s, 0, n)
    ensures n <= |s| && Digits(b, s[..n])
  {
  }

  /** Nothing of the quotient is known yet: the limbs above the first window are below the divisor. */
  lemma ScaledDividend(b: nat, x: seq<nat>, t: seq<nat>, u: seq<nat>, na: nat, nb: nat, mult: nat, high: nat, d: nat,
      q: seq<nat>)
    requires 1 < b && 0 < nb <= na < |t| && |x| == na && u == t[na := high] && high < b && DigitsIn(b, t, 0, na)
    requires Digits(b, x) && na - nb < |q|
    requires Val(b, t[..na]) + Pow(b, na) * high == Val(b, x) * mult && Pow(b, nb - 1) * mult <= d && mult > 0
    ensures DigitsIn(b, u, 0, na + 1) && Left(b, u, 0, na - nb + 1, nb, q, na - nb, d, Val(b, x) * mult)
    ensures DigitsIn(b, q, na - nb + 1, na - nb + 1)
  {
    hide Val, Pow;
    var n := na - nb + 1;
    SliceSnoc(b, u, 0, na);
    assert u[0..na] == t[..na] && u[0..na + 1] == u[..na + 1];
    SliceSplit(b, u, 0, n, na + 1);
    ValBound(b, x);
    PowAdd(b, n, nb - 1);
    PowPositive(b, n);
    assert n + (nb - 1) == na;
    assert n + nb == na + 1;
    TopBelow(Pow(b, n), Pow(b, nb - 1), Pow(b, na), Val(b, u[0..n]), Val(b, u[n..na + 1]), Val(b, x), mult, d);
    assert q[n..n] == [];
    NoQuotient(b, n, d);
    IsLeft(b, u, 0, n, nb, q, na - nb, d, Val(b, x) * mult);
  }

  lemma NoQuotient(b: nat, n: nat, d: nat)
    ensures Val(b, []) == 0 && Pow(b, n) * (Val(b, []) * d) == 0
  {
  }

  lemma TopBelow(p: nat, p': nat, pp: nat, lo: nat, hi: nat, x: nat, mult: nat, d: nat)
    requires p > 0 && pp == p * p' && lo + p * hi == x * mult && x < pp && mult > 0 && p' * mult <= d
    ensures hi < d
  {
    MulStrict(x, pp, mult);
    Assoc(p, p', mult);
    if hi >= p' * mult {
      MulMono(p' * mult, hi, p);
    }
  }
}

/** The carry loops on limbs of a decimal base: limbs are below the base b and arithmetic wraps around at the
    word size word. */
module DecKernels {
  import opened Limbs
  import opened LimbKernels
  import opened LimbProduct

  /** A base for decimal limbs: even, above half the even word, and its square fits a double word less one bit. */
  predicate DecBase(word: nat, b: nat) {
    word % 2 == 0 && b % 2 == 0 && b < word < 2 * b && b * b <= (word / 2) * word
  }

  /** The base of the source: 10^19 in 64 bits; the multiplier of divdq_base is the one of DivBase. */
  lemma SourceBase()
    ensures DecBase(0x10000000000000000, 10000000000000000000)
    ensures BaseInverse(0x10000000000000000, 10000000000000000000) == 17014118346046923173
  {
  }

  // ---- division by the base

  function BaseInverse(word: nat, b: nat): nat
    requires b > 0
  {
    (word / 2) * word / b
  }

  /** divdq_base: quotient and remainder of the double word t by the base, by multiplication */
  function DivBase(word: nat, b: nat, t: nat): (r: (nat, nat))
    requires DecBase(word, b) && t < (word / 2) * word
    ensures r.1 < b && t == r.0 * b + r.1
  {
    var h := word / 2;
    var q0 := (t / h) * BaseInverse(word, b) / word;
    BaseEstimate(word, b, t);
    Distrib(b, q0, 2);
    var z := t - q0 * b - 2 * b;
    var t0 := if z < 0 then 1 else 0;
    var z' := if z < 0 then z + b else z;
    var t1 := if z' < 0 then 1 else 0;
    Distrib(b, q0, 2 - t0 - t1);
    (q0 + 2 - t0 - t1, if z' < 0 then z' + b else z')
  }

  /** The estimate is at most two below the quotient. */
  lemma BaseEstimate(word: nat, b: nat, t: nat)
    requires DecBase(word, b) && t < (word / 2) * word
    ensures word / 2 > 0 && b > 0 && (t / (word / 2)) * BaseInverse(word, b) / word >= 0
    ensures 0 <= t - (t / (word / 2)) * BaseInverse(word, b) / word * b < 3 * b
  {
    hide BaseInverse;
    var h := word / 2;
    var t0, e := Divided(t, h);
    var c, f := Divided(h * word, b);
    var q, g := Divided(t0 * c, word);
    InverseIs(word, b, c);
    EstimateArith(word, h, b, t, t0, e, c, f, q, g);
  }

  lemma InverseIs(word: nat, b: nat, c: nat)
    requires b > 0 && c == (word / 2) * word / b
    ensures BaseInverse(word, b) == c
  {
  }

  lemma Divided(n: nat, d: nat) returns (q: nat, r: nat)
    requires d > 0
    ensures q == n / d && n == q * d + r && r < d
  {
    q, r := n / d, n % d;
  }

  lemma EstimateArith(word: nat, h: nat, b: nat, t: nat, t0: nat, e: nat, c: nat, f: nat, q: nat, g: nat)
    requires word == 2 * h && h < b && t == t0 * h + e && e < h && h * word == c * b + f && f < b
      && t0 * c == q * word + g && g < word
    requires t < h * word
    ensures 0 <= t - q * b < 3 * b
  {
    EstimateIdentity(word, h, b, t, t0, e, c, f, q, g);
    if t0 >= word {
      MulMono(word, t0, h);
    }
    EstimateTerms(word, b, e, t0, f, g);
    ScaledRange(word, b, 3, t - q * b, e * word + t0 * f + g * b);
  }

  lemma EstimateTerms(word: nat, b: nat, e: nat, t0: nat, f: nat, g: nat)
    requires e < b && t0 < word && f < b && g < word
    ensures 0 <= e * word + t0 * f + g * b < 3 * (b * word)
  {
    MulMono(0, t0, f);
    MulMono(0, g, b);
    MulMono(0, e, word);
    MulMono(t0, word, f);
    MulMono(f, b, word);
    MulMono(g, word, b);
    MulStrict(e, b, word);
  }

  lemma EstimateIdentity(word: nat, h: nat, b: nat, t: nat, t0: nat, e: nat, c: nat, f: nat, q: nat, g: nat)
    requires t == t0 * h + e && h * word == c * b + f && t0 * c == q * word + g
    ensures (t - q * b) * word == e * word + t0 * f + g * b
  {
    Distrib(word, t0 * h, e);
    Assoc(t0, h, word);
    Distrib(t0, c * b, f);
    Assoc(t0, c, b);
    Distrib(b, q * word, g);
    Distrib(word, t, q * b);
    assert (q * word) * b == (q * b) * word;
  }

  // ---- one limb

  /** One limb of mp_add_dec: the comparison with v tells the carry. */
  function AddLimbDec(word: nat, b: nat, v: nat, y: nat, k: nat): (r: (nat, nat))
    requires b < word && v < b && y < b && k <= 1
    ensures r.0 < b && r.1 <= 1 && r.0 + b * r.1 == v + y + k
  {
    WrapOnce(word, v + y + k - b);
    var a := (v + y + k - b) % word;
    if a <= v then (a, 1) else WrapOnce(word, a + b); ((a + b) % word, 0)
  }

  /** One limb of mp_sub_dec. */
  function SubLimbDec(word: nat, b: nat, v: nat, y: nat, k: nat): (r: (nat, nat))
    requires b < word && v < b && y < b && k <= 1
    ensures r.0 < b && r.1 <= 1 && r.0 - b * r.1 == v - y - k
  {
    WrapOnce(word, v - y - k);
    var a := (v - y - k) % word;
    if a > v then WrapOnce(word, a + b); ((a + b) % word, 1) else (a, 0)
  }

  /** A product of limbs with carries fits divdq_base. */
  lemma DoubleFits(word: nat, b: nat, x: nat, m: nat, l: nat)
    requires DecBase(word, b) && x < b && m < b && l < b
    ensures 0 <= x * m + l < (word / 2) * word && x * m + l <= (b - 1) * b
  {
    MulMono(0, x, m);
    MulMono(x, b - 1, m);
    MulMono(m, b - 1, b - 1);
    Distrib(b - 1, b - 1, 1);
    Distrib(b, b, 1);
  }

  /** One limb of mp_mul1_dec. */
  function MulLimbDec(word: nat, b: nat, x: nat, m: nat, l: nat): (r: (nat, nat))
    requires DecBase(word, b) && x < b && m < b && l < b
    ensures r.0 < b && r.1 < b && r.0 + b * r.1 == x * m + l
  {
    DoubleFits(word, b, x, m, l);
    var d := DivBase(word, b, x * m + l);
    HighBelow(b, x * m + l, d.0, d.1);
    (d.1, d.0)
  }

  lemma HighBelow(b: nat, t: nat, q: nat, r: nat)
    requires t == q * b + r && t <= (b - 1) * b && b > 0
    ensures q < b && (q == b - 1 ==> r == 0)
  {
    if q >= b {
      MulMono(b, q, b);
      MulStrict(b - 1, b, b);
    }
  }

  /** One limb of mp_sub_mul1_dec: the carry stays below the base. */
  function SubMulLimbDec(word: nat, b: nat, y: nat, x: nat, m: nat, l: nat): (r: (nat, nat))
    requires DecBase(word, b) && x < b && m < b && l < b && y < b
    ensures r.0 < b && r.1 < b && r.0 + b * (-1 * r.1) == y + -1 * (x * m + l)
  {
    DoubleFits(word, b, x, m, l);
    var d := DivBase(word, b, x * m + l);
    HighBelow(b, x * m + l, d.0, d.1);
    WrapOnce(word, y - d.1);
    var a := (y - d.1) % word;
    Distrib(b, d.0, 1);
    BorrowArith(b, d.0, d.1, y, a);
    if a > y then WrapOnce(word, a + b); ((a + b) % word, d.0 + 1) else (a, d.0)
  }

  lemma BorrowArith(b: int, q: int, r: int, y: int, a: int)
    ensures b * (-1 * q) == 0 - q * b && b * (-1 * (q + 1)) == 0 - q * b - b
  {
  }

  // ---- loops

  /** The limbs from lo up to hi are below the base. */
  ghost predicate DigitsIn(b: nat, s: seq<nat>, lo: nat, hi: nat) {
    hi <= |s| && forall i :: lo <= i < hi ==> s[i] < b
  }

  /** mp_add_dec(a + off, a + off, y, |y|, carry) */
  method MpAddDec(word: nat, b: nat, a: array<nat>, off: nat, y: seq<nat>, carry: nat) returns (k: nat)
    requires b < word && off + |y| <= a.Length && DigitsIn(b, a[..], off, off + |y|) && Digits(b, y) && carry <= 1
    modifies a
    ensures DigitsIn(b, a[..], off, off + |y|) && SameOutside(old(a[..]), a[..], off, off + |y|) && k <= 1
    ensures Val(b, a[off..off + |y|]) + Pow(b, |y|) * k == old(Val(b, a[off..off + |y|])) + Val(b, y) + carry
  {
    hide Val, Pow;
    ghost var s := a[..];
    k := carry;
    var i := 0;
    AddStart(b, s, off, y, k);
    while i < |y|
      invariant i <= |y| && k <= 1 && DigitsIn(b, a[..], off, off + |y|) && SameOutside(s, a[..], off, off + i)
      invariant Val(b, a[..][off..off + i]) + Pow(b, i) * k == Val(b, s[off..off + i]) + Val(b, y[..i]) + carry
    {
      ghost var t, k0 := a[..], k;
      assert a[off + i] == s[off + i] by { assert s[off + i..][0] == t[off + i..][0]; }
      var r := AddLimbDec(word, b, a[off + i], y[i], k);
      a[off + i], k := r.0, r.1;
      assert a[..] == t[off + i := r.0];
      WriteLimb(b, t, off, i, r.0);
      AddStep(b, s, off, y, i, r.0, r.1, k0);
      SameOutsideWider(s, t, off, off + i, off, off + i + 1);
      SameOutsideWider(t, a[..], off + i, off + i + 1, off, off + i + 1);
      i := i + 1;
    }
    assert y[..|y|] == y && a[..][off..off + |y|] == a[off..off + |y|];
  }

  /** mp_sub_dec(a + off, a + off, y, |y|, carry) */
  method MpSubDec(word: nat, b: nat, a: array<nat>, off: nat, y: seq<nat>, carry: nat) returns (k: nat)
    requires b < word && off + |y| <= a.Length && DigitsIn(b, a[..], off, off + |y|) && Digits(b, y) && carry <= 1
    modifies a
    ensures DigitsIn(b, a[..], off, off + |y|) && SameOutside(old(a[..]), a[..], off, off + |y|) && k <= 1
    ensures Val(b, a[off..off + |y|]) - Pow(b, |y|) * k == old(Val(b, a[off..off + |y|])) - Val(b, y) - carry
  {
    hide Val, Pow;
    ghost var s := a[..];
    k := carry;
    var i := 0;
    AddStart(b, s, off, y, k);
    while i < |y|
      invariant i <= |y| && k <= 1 && DigitsIn(b, a[..], off, off + |y|) && SameOutside(s, a[..], off, off + i)
      invariant Val(b, a[..][off..off + i]) - Pow(b, i) * k == Val(b, s[off..off + i]) - Val(b, y[..i]) - carry
    {
      ghost var t, k0 := a[..], k;
      assert a[off + i] == s[off + i] by { assert s[off + i..][0] == t[off + i..][0]; }
      var r := SubLimbDec(word, b, a[off + i], y[i], k);
      a[off + i], k := r.0, r.1;
      assert a[..] == t[off + i := r.0];
      WriteLimb(b, t, off, i, r.0);
      SubStep(b, s, off, y, i, r.0, r.1, k0);
      SameOutsideWider(s, t, off, off + i, off, off + i + 1);
      SameOutsideWider(t, a[..], off + i, off + i + 1, off, off + i + 1);
      i := i + 1;
    }
    assert y[..|y|] == y && a[..][off..off + |y|] == a[off..off + |y|];
  }

  /** mp_mul1_dec(a, y, |y|, m, l0) */
  method MpMul1Dec(word: nat, b: nat, a: array<nat>, y: seq<nat>, m: nat, l0: nat) returns (l: nat)
    requires DecBase(word, b) && |y| <= a.Length && Digits(b, y) && m < b && l0 < b
    modifies a
    ensures DigitsIn(b, a[..], 0, |y|) && SameOutside(old(a[..]), a[..], 0, |y|) && l < b
    ensures Val(b, a[..|y|]) + Pow(b, |y|) * l == Val(b, y) * m + l0
  {
    hide Val, Pow;
    ghost var s := a[..];
    l := l0;
    var i := 0;
    AddStart(b, s, 0, y, 0);
    while i < |y|
      invariant i <= |y| && l < b && DigitsIn(b, a[..], 0, i) && SameOutside(s, a[..], 0, i)
      invariant Val(b, a[..][0..i]) + Pow(b, i) * l == Val(b, y[..i]) * m + l0
    {
      ghost var u, l1 := a[..], l;
      var r := MulLimbDec(word, b, y[i], m, l);
      a[i], l := r.0, r.1;
      assert a[..] == u[i := r.0];
      WriteLimb(b, u, 0, i, r.0);
      Mul1Step(b, y, i, m, r.0, r.1, l1);
      SameOutsideWider(s, u, 0, i, 0, i + 1);
      SameOutsideWider(u, a[..], i, i + 1, 0, i + 1);
      i := i + 1;
    }
    assert y[..|y|] == y && a[..][0..|y|] == a[..|y|];
  }

  /** mp_sub_mul1_dec(a + off, y, |y|, m) */
  method MpSubMul1Dec(word: nat, b: nat, a: array<nat>, off: nat, y: seq<nat>, m: nat) returns (l: nat)
    requires DecBase(word, b) && off + |y| <= a.Length && DigitsIn(b, a[..], off, off + |y|) && Digits(b, y) && m < b
    modifies a
    ensures DigitsIn(b, a[..], off, off + |y|) && SameOutside(old(a[..]), a[..], off, off + |y|) && l < b
    ensures Val(b, a[off..off + |y|]) - Pow(b, |y|) * l == old(Val(b, a[off..off + |y|])) - Val(b, y) * m
  {
    hide Val, Pow;
    ghost var s := a[..];
    l := 0;
    var i := 0;
    AddStart(b, s, off, y, 0);
    while i < |y|
      invariant i <= |y| && l < b && DigitsIn(b, a[..], off, off + |y|) && SameOutside(s, a[..], off, off + i)
      invariant Val(b, a[..][off..off + i]) - Pow(b, i) * l == Val(b, s[off..off + i]) - Val(b, y[..i]) * m
    {
      ghost var u, l0 := a[..], l;
      assert a[off + i] == s[off + i] by { assert s[off + i..][0] == u[off + i..][0]; }
      var r := SubMulLimbDec(word, b, a[off + i], y[i], m, l);
      a[off + i], l := r.0, r.1;
      assert a[..] == u[off + i := r.0];
      WriteLimb(b, u, off, i, r.0);
      MulStep(b, s, off, y, i, m, r.0, r.1, l0, -1);
      MinusOne(Pow(b, i + 1), r.1);
      MinusOne(Pow(b, i), l0);
      SameOutsideWider(s, u, off, off + i, off, off + i + 1);
      SameOutsideWider(u, a[..], off + i, off + i + 1, off, off + i + 1);
      i := i + 1;
    }
    assert y[..|y|] == y && a[..][off..off + |y|] == a[off..off + |y|];
  }
}

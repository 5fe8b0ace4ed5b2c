/** Square root with remainder of one and of two limbs: the step that doubles the number of digits of a
    square root, a table for the first digits, and the word arithmetic around them. */
module SqrtWord {
  import opened Limbs

  /** s is the integer square root of a and r the remainder. */
  ghost predicate IsSqrt(a: int, s: int, r: int) {
    s >= 0 && a == s * s + r && 0 <= r <= 2 * s
  }

  lemma SqrtUnique(a: int, s: int, r: int, s': int, r': int)
    requires IsSqrt(a, s, r) && IsSqrt(a, s', r')
    ensures s == s' && r == r'
  {
    if s < s' {
      SquareGap(s, s');
    } else if s' < s {
      SquareGap(s', s);
    }
  }

  lemma SquareGap(x: int, y: int)
    requires 0 <= x < y
    ensures x * x + 2 * x + 1 <= y * y
  {
    MulMono(x + 1, y, x + 1);
    MulMono(x + 1, y, y);
    Distrib(x + 1, x, 1);
  }

  /** The expansion of the square of s1 * l + q. */
  lemma StepIdentity(hi: int, x1: int, x0: int, l: int, s1: int, r1: int, q: int, u: int)
    requires hi == s1 * s1 + r1 && r1 * l + x1 == (2 * s1) * q + u
    ensures (hi * l + x1) * l + x0 == (s1 * l + q) * (s1 * l + q) + (u * l + x0 - q * q)
  {
    var t := s1 * l;
    assert (t + q) * (t + q) == t * t + 2 * (t * q) + q * q;
    assert (r1 * l + x1) * l == ((2 * s1) * q + u) * l;
    assert ((2 * s1) * q) * l == 2 * (t * q);
    assert t * t == ((s1 * s1) * l) * l;
    Distrib(l, s1 * s1, r1);
    Distrib(l, (s1 * s1) * l, r1 * l + x1);
    Distrib(l, (2 * s1) * q, u);
  }

  /** The quotient of the step is at most l. */
  lemma StepQuotient(x1: int, l: int, s1: int, r1: int, q: int, u: int)
    requires 0 < l <= 2 * s1 && 0 <= x1 < l && 0 <= r1 <= 2 * s1 && r1 * l + x1 == (2 * s1) * q + u && 0 <= u < 2 * s1
    ensures 0 <= q <= l
  {
    MulMono(r1, 2 * s1, l);
    MulMono(0, r1, l);
    if q > l {
      MulMono(l + 1, q, 2 * s1);
      Distrib(2 * s1, l, 1);
    }
    if q < 0 {
      MulMono(q, -1, 2 * s1);
    }
  }

  /** The remainder before the correction is at most 2s, and one correction is enough. */
  lemma StepBounds(x0: int, l: int, s1: int, q: int, u: int)
    requires 0 < l <= 2 * s1 && 0 <= x0 < l && 0 <= u < 2 * s1 && 0 <= q <= l
    ensures var s := s1 * l + q; var r := u * l + x0 - q * q; r <= 2 * s && r + 2 * s - 1 >= 0
  {
    StepProducts(l, s1, u);
    MulMono(0, q, q);
    AlmostSquare(q, l);
    StepRange(x0, l, q, u * l, s1 * l, q * q, l * l);
  }

  lemma StepProducts(l: int, s1: int, u: int)
    requires 0 < l <= 2 * s1 && 0 <= u < 2 * s1
    ensures 0 <= u * l <= 2 * (s1 * l) - l && l * l <= 2 * (s1 * l)
  {
    MulMono(0, u, l);
    MulMono(u, 2 * s1 - 1, l);
    Distrib(l, 2 * s1, 1);
    MulMono(l, 2 * s1, l);
    Assoc(2, s1, l);
  }

  lemma StepRange(x0: int, l: int, q: int, ul: int, sl: int, qq: int, ll: int)
    requires 0 <= x0 < l && 0 <= q && 0 <= ul <= 2 * sl - l && ll <= 2 * sl && 0 <= qq && qq - 2 * q + 1 <= ll
    ensures var s := sl + q; var r := ul + x0 - qq; r <= 2 * s && r + 2 * s - 1 >= 0
  {
  }

  lemma AlmostSquare(q: int, l: int)
    requires 0 <= q <= l && l > 0
    ensures q * q - 2 * q + 1 <= l * l
  {
    MulMono(q, l, q);
    MulMono(q, l, l);
    if q == 0 {
      MulMono(1, l, l);
    }
  }

  /** Step: from the root of the high half hi to the root of (hi * l + x1) * l + x0. */
  lemma SqrtStep(hi: int, x1: int, x0: int, l: int, s1: int, r1: int, q: int, u: int)
    requires IsSqrt(hi, s1, r1) && 0 < l <= 2 * s1 && 0 <= x1 < l && 0 <= x0 < l
    requires r1 * l + x1 == (2 * s1) * q + u && 0 <= u < 2 * s1
    ensures 0 <= q <= l
    ensures var a := (hi * l + x1) * l + x0; var s := s1 * l + q; var r := u * l + x0 - q * q;
      if r < 0 then IsSqrt(a, s - 1, r + 2 * (s - 1) + 1) else IsSqrt(a, s, r)
  {
    StepIdentity(hi, x1, x0, l, s1, r1, q, u);
    StepQuotient(x1, l, s1, r1, q, u);
    StepBounds(x0, l, s1, q, u);
    MulMono(1, s1, l);
    LowerRoot(s1 * l + q);
  }

  lemma LowerRoot(s: int)
    ensures s * s == (s - 1) * (s - 1) + 2 * (s - 1) + 1
  {
  }

  // ---- the table of the square roots of 16-bit numbers

  /** sqrt_table, in rows of sixteen */
  const ROW0: seq<nat> := [128, 128, 129, 130, 131, 132, 133, 134, 135, 136, 137, 138, 139, 140, 141, 142]
  const ROW1: seq<nat> := [143, 144, 144, 145, 146, 147, 148, 149, 150, 150, 151, 152, 153, 154, 155, 155]
  const ROW2: seq<nat> := [156, 157, 158, 159, 160, 160, 161, 162, 163, 163, 164, 165, 166, 167, 167, 168]
  const ROW3: seq<nat> := [169, 170, 170, 171, 172, 173, 173, 174, 175, 176, 176, 177, 178, 178, 179, 180]
  const ROW4: seq<nat> := [181, 181, 182, 183, 183, 184, 185, 185, 186, 187, 187, 188, 189, 189, 190, 191]
  const ROW5: seq<nat> := [192, 192, 193, 193, 194, 195, 195, 196, 197, 197, 198, 199, 199, 200, 201, 201]
  const ROW6: seq<nat> := [202, 203, 203, 204, 204, 205, 206, 206, 207, 208, 208, 209, 209, 210, 211, 211]
  const ROW7: seq<nat> := [212, 212, 213, 214, 214, 215, 215, 216, 217, 217, 218, 218, 219, 219, 220, 221]
  const ROW8: seq<nat> := [221, 222, 222, 223, 224, 224, 225, 225, 226, 226, 227, 227, 228, 229, 229, 230]
  const ROW9: seq<nat> := [230, 231, 231, 232, 232, 233, 234, 234, 235, 235, 236, 236, 237, 237, 238, 238]
  const ROW10: seq<nat> := [239, 240, 240, 241, 241, 242, 242, 243, 243, 244, 244, 245, 245, 246, 246, 247]
  const ROW11: seq<nat> := [247, 248, 248, 249, 249, 250, 250, 251, 251, 252, 252, 253, 253, 254, 254, 255]

  const SQRT_TABLE: seq<seq<nat>> := [ROW0, ROW1, ROW2, ROW3, ROW4, ROW5, ROW6, ROW7, ROW8, ROW9, ROW10, ROW11]

  /** t is the root of every 16-bit number with top byte x, or one less. */
  predicate Fits(t: nat, x: nat) {
    t * t <= x * 256 && x * 256 + 255 < (t + 2) * (t + 2)
  }

  predicate RowFits(row: seq<nat>, base: nat) {
    && |row| == 16
    && Fits(row[0], base + 0) && Fits(row[1], base + 1) && Fits(row[2], base + 2) && Fits(row[3], base + 3)
    && Fits(row[4], base + 4) && Fits(row[5], base + 5) && Fits(row[6], base + 6) && Fits(row[7], base + 7)
    && Fits(row[8], base + 8) && Fits(row[9], base + 9) && Fits(row[10], base + 10) && Fits(row[11], base + 11)
    && Fits(row[12], base + 12) && Fits(row[13], base + 13) && Fits(row[14], base + 14) && Fits(row[15], base + 15)
  }

  lemma Rows0To2()
    ensures RowFits(ROW0, 64) && RowFits(ROW1, 80) && RowFits(ROW2, 96)
  {
  }

  lemma Rows3To5()
    ensures RowFits(ROW3, 112) && RowFits(ROW4, 128) && RowFits(ROW5, 144)
  {
  }

  lemma Rows6To8()
    ensures RowFits(ROW6, 160) && RowFits(ROW7, 176) && RowFits(ROW8, 192)
  {
  }

  lemma Rows9To11()
    ensures RowFits(ROW9, 208) && RowFits(ROW10, 224) && RowFits(ROW11, 240)
  {
  }

  lemma Rows()
    ensures |SQRT_TABLE| == 12
    ensures forall j :: 0 <= j < 12 ==> RowFits(SQRT_TABLE[j], 64 + 16 * j)
  {
    hide ROW0, ROW1, ROW2, ROW3, ROW4, ROW5, ROW6, ROW7, ROW8, ROW9, ROW10, ROW11, RowFits;
    Rows0To2();
    Rows3To5();
    Rows6To8();
    Rows9To11();
  }

  lemma TableFits(i: nat)
    requires i < 192
    ensures |SQRT_TABLE| == 12 && |SQRT_TABLE[i / 16]| == 16 && Fits(SQRT_TABLE[i / 16][i % 16], 64 + i)
  {
    Rows();
    hide SQRT_TABLE, Fits;
    assert RowFits(SQRT_TABLE[i / 16], 64 + 16 * (i / 16));
  }

  function TableEntry(i: nat): (t: nat)
    requires i < 192
    ensures Fits(t, 64 + i)
  {
    TableFits(i);
    SQRT_TABLE[i / 16][i % 16]
  }

  // ---- one limb

  /** The root of a 16-bit number with its top bit pair set, from the table. */
  function FirstRoot(v: nat): (int, int)
    requires 0x4000 <= v < 0x1_0000
  {
    var s := TableEntry(v / 256 - 64);
    var r := v - s * s;
    if r > 2 * s then (s + 1, r - (2 * s + 1)) else (s, r)
  }

  lemma FirstRootCorrect(v: nat)
    requires 0x4000 <= v < 0x1_0000
    ensures IsSqrt(v, FirstRoot(v).0, FirstRoot(v).1)
  {
    hide SQRT_TABLE, TableEntry, Fits, IsSqrt;
    TableRoot(TableEntry(v / 256 - 64), v);
  }

  lemma TableRoot(t: nat, v: nat)
    requires Fits(t, v / 256)
    ensures var r := v - t * t; if r > 2 * t then IsSqrt(v, t + 1, r - (2 * t + 1)) else IsSqrt(v, t, r)
  {
    assert (t + 1) * (t + 1) == t * t + 2 * t + 1;
    assert (t + 2) * (t + 2) == t * t + 4 * t + 4;
  }

  /** One iteration: the digits x1 and x0 below l are appended to a number with root s1 and remainder r1. */
  function SqrtIter(l: nat, s1: int, r1: int, x1: nat, x0: nat): (int, int)
    requires s1 > 0
  {
    var num := r1 * l + x1;
    Corrected(s1 * l + num / (2 * s1), num % (2 * s1) * l + x0 - (num / (2 * s1)) * (num / (2 * s1)))
  }

  /** A negative remainder lowers the root by one. */
  function Corrected(s: int, r: int): (int, int) {
    if r < 0 then (s - 1, r + 2 * (s - 1) + 1) else (s, r)
  }

  lemma SqrtIterCorrect(hi: int, l: nat, s1: int, r1: int, x1: nat, x0: nat)
    requires IsSqrt(hi, s1, r1) && 0 < l <= 2 * s1 && x1 < l && x0 < l
    ensures var p := SqrtIter(l, s1, r1, x1, x0); IsSqrt((hi * l + x1) * l + x0, p.0, p.1)
  {
    hide IsSqrt, Corrected;
    var num := r1 * l + x1;
    DivMod(num, 2 * s1);
    CorrectedStep(hi, x1, x0, l, s1, r1, num / (2 * s1), num % (2 * s1));
  }

  lemma DivMod(n: int, d: int)
    requires d > 0
    ensures n == d * (n / d) + n % d && 0 <= n % d < d
  {
  }

  lemma CorrectedStep(hi: int, x1: int, x0: int, l: int, s1: int, r1: int, q: int, u: int)
    requires IsSqrt(hi, s1, r1) && 0 < l <= 2 * s1 && 0 <= x1 < l && 0 <= x0 < l
    requires r1 * l + x1 == (2 * s1) * q + u && 0 <= u < 2 * s1
    ensures 0 <= q <= l
    ensures var p := Corrected(s1 * l + q, u * l + x0 - q * q); IsSqrt((hi * l + x1) * l + x0, p.0, p.1)
  {
    hide IsSqrt;
    SqrtStep(hi, x1, x0, l, s1, r1, q, u);
  }

  lemma RootRange(a: int, s: int, r: int, lo: int, hi: int)
    requires IsSqrt(a, s, r) && 0 <= lo && lo * lo <= a && 0 <= hi && a < hi * hi
    ensures lo <= s < hi
  {
    if s < lo {
      SquareGap(s, lo);
    }
    if s >= hi {
      MulMono(hi, s, hi);
      MulMono(hi, s, s);
    }
  }

  const WORD: nat := 0x1_0000_0000
  const LIMB: nat := 0x1_0000_0000_0000_0000

  /** The root of 32 bits with the top bit pair set: the table and one iteration. */
  function HalfRoot(w: nat): (int, int)
    requires 0x4000_0000 <= w < WORD
  {
    FirstRootRange(w / 0x1_0000);
    var p := FirstRoot(w / 0x1_0000);
    SqrtIter(256, p.0, p.1, w / 256 % 256, w % 256)
  }

  /** mp_sqrtrem1 */
  function Sqrtrem1(a: nat): (int, int)
    requires 0x4000_0000_0000_0000 <= a < LIMB
  {
    HalfRootCorrect(a / WORD);
    var p := HalfRoot(a / WORD);
    SqrtIter(0x1_0000, p.0, p.1, a / 0x1_0000 % 0x1_0000, a % 0x1_0000)
  }

  lemma FirstRootRange(v: nat)
    requires 0x4000 <= v < 0x1_0000
    ensures 128 <= FirstRoot(v).0 < 256
  {
    hide FirstRoot, IsSqrt;
    FirstRootCorrect(v);
    RootRange(v, FirstRoot(v).0, FirstRoot(v).1, 128, 256);
  }

  lemma ThreeParts(w: nat, l: nat)
    requires l > 0
    ensures ((w / l / l) * l + w / l % l) * l + w % l == w
  {
    DivMod(w, l);
    DivMod(w / l, l);
  }

  lemma HalfRootCorrect(w: nat)
    requires 0x4000_0000 <= w < WORD
    ensures IsSqrt(w, HalfRoot(w).0, HalfRoot(w).1) && 0x8000 <= HalfRoot(w).0 < 0x1_0000
  {
    hide FirstRoot, IsSqrt, SqrtIter;
    var h := w / 0x1_0000;
    var p := FirstRoot(h);
    FirstRootCorrect(h);
    FirstRootRange(h);
    SqrtIterCorrect(h, 256, p.0, p.1, w / 256 % 256, w % 256);
    ThreeParts(w, 256);
    assert w / 256 / 256 == h;
    RootRange(w, HalfRoot(w).0, HalfRoot(w).1, 0x8000, 0x1_0000);
  }

  lemma Sqrtrem1Correct(a: nat)
    requires 0x4000_0000_0000_0000 <= a < LIMB
    ensures IsSqrt(a, Sqrtrem1(a).0, Sqrtrem1(a).1) && 0x8000_0000 <= Sqrtrem1(a).0 < WORD
  {
    hide HalfRoot, IsSqrt, SqrtIter;
    var w := a / WORD;
    var p := HalfRoot(w);
    HalfRootCorrect(w);
    SqrtIterCorrect(w, 0x1_0000, p.0, p.1, a / 0x1_0000 % 0x1_0000, a % 0x1_0000);
    ThreeParts(a, 0x1_0000);
    assert a / 0x1_0000 / 0x1_0000 == w;
    RootRange(a, Sqrtrem1(a).0, Sqrtrem1(a).1, 0x8000_0000, WORD);
  }

  // ---- two limbs

  /** mp_sqrtrem2: the root is a limb, computed modulo LIMB; the double-limb remainder is signed. */
  function Sqrtrem2(a1: nat, a0: nat): (int, int)
    requires 0x4000_0000_0000_0000 <= a1 < LIMB
  {
    Sqrtrem1Correct(a1);
    var p := Sqrtrem1(a1);
    var num := p.1 * WORD + a0 / WORD;
    var q := num / (2 * p.0);
    WrappedRoot(p.0 * WORD + q, num % (2 * p.0) * WORD + a0 % WORD - (if q / WORD != 0 then LIMB else q * q))
  }

  function WrappedRoot(s: int, r: int): (int, int) {
    var s' := s % LIMB;
    if r < 0 then ((s' - 1) % LIMB, r + 2 * ((s' - 1) % LIMB) + 1) else (s', r)
  }

  /** The wrap-around does not show: a root of two limbs is one limb. */
  lemma WrappedRootCorrect(a: nat, s: int, r: int)
    requires a < LIMB * LIMB && IsSqrt(a, Corrected(s, r).0, Corrected(s, r).1)
    ensures WrappedRoot(s, r) == Corrected(s, r) && Corrected(s, r).0 < LIMB
  {
    hide IsSqrt;
    RootRange(a, Corrected(s, r).0, Corrected(s, r).1, 0, LIMB);
  }

  lemma Sqrtrem2Correct(a1: nat, a0: nat)
    requires 0x4000_0000_0000_0000 <= a1 < LIMB && a0 < LIMB
    ensures IsSqrt(a1 * LIMB + a0, Sqrtrem2(a1, a0).0, Sqrtrem2(a1, a0).1) && Sqrtrem2(a1, a0).0 < LIMB
  {
    hide Sqrtrem1, IsSqrt, WrappedRoot, Corrected;
    Sqrtrem1Correct(a1);
    var p := Sqrtrem1(a1);
    var num := p.1 * WORD + a0 / WORD;
    var q := num / (2 * p.0);
    DivMod(num, 2 * p.0);
    CorrectedStep(a1, a0 / WORD, a0 % WORD, WORD, p.0, p.1, q, num % (2 * p.0));
    assert (a1 * WORD + a0 / WORD) * WORD + a0 % WORD == a1 * LIMB + a0;
    FullQuotient(q);
    WrappedRootCorrect(a1 * LIMB + a0, p.0 * WORD + q, num % (2 * p.0) * WORD + a0 % WORD - q * q);
  }

  /** The square of q = WORD does not fit in a limb; the source subtracts LIMB instead. */
  lemma FullQuotient(q: int)
    requires 0 <= q <= WORD
    ensures (if q / WORD != 0 then LIMB else q * q) == q * q
  {
  }
}

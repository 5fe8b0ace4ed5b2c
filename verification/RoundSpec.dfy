/** Rounding of a number to a multiple of a unit. */
module RoundSpec {
  import opened Limbs

  /** The six deterministic rounding modes: nearest with ties to even, toward zero, down, up, nearest with ties
      away from zero, away from zero. */
  datatype Mode = RNDN | RNDZ | RNDD | RNDU | RNDNA | RNDA

  /** r is the magnitude n rounded to a multiple of u. */
  ghost predicate IsRounded(mode: Mode, negative: bool, n: nat, u: nat, r: nat) {
    && IsMultiple(r, u)
    && match mode
       case RNDZ => Truncates(n, u, r)
       case RNDA => Extends(n, u, r)
       case RNDD => if negative then Extends(n, u, r) else Truncates(n, u, r)
       case RNDU => if negative then Truncates(n, u, r) else Extends(n, u, r)
       case RNDN => Nearest(n, u, r) && (Tie(n, u, r) ==> IsMultiple(r, 2 * u))
       case RNDNA => Nearest(n, u, r) && (Tie(n, u, r) ==> n <= r)
  }

  ghost predicate IsMultiple(r: nat, u: nat) {
    exists q: nat :: r == q * u
  }

  ghost predicate Truncates(n: nat, u: nat, r: nat) {
    r <= n < r + u
  }

  ghost predicate Extends(n: nat, u: nat, r: nat) {
    n <= r < n + u
  }

  ghost predicate Nearest(n: nat, u: nat, r: nat) {
    2 * n <= 2 * r + u && 2 * r <= 2 * n + u
  }

  ghost predicate Tie(n: nat, u: nat, r: nat) {
    2 * n == 2 * r + u || 2 * r == 2 * n + u
  }

  /** A rounded number is determined by the mode. */
  lemma RoundedUnique(mode: Mode, negative: bool, n: nat, u: nat, r: nat, r': nat)
    requires u > 0 && IsRounded(mode, negative, n, u, r) && IsRounded(mode, negative, n, u, r')
    ensures r == r'
  {
    var q: nat :| r == q * u;
    var q': nat :| r' == q' * u;
    if r < r' {
      NextMultiple(q, q', u);
      if mode == RNDN {
        EvenMultiples(r, r', u);
      }
    } else if r' < r {
      NextMultiple(q', q, u);
      if mode == RNDN {
        EvenMultiples(r', r, u);
      }
    }
  }

  lemma NextMultiple(q: nat, q': nat, u: nat)
    requires u > 0 && q * u < q' * u
    ensures q * u + u <= q' * u
  {
    if q' <= q {
      MulMono(q', q, u);
    }
    MulMono(q + 1, q', u);
    Distrib(u, q, 1);
  }

  /** Neighbouring multiples of u are not both multiples of 2u. */
  lemma EvenMultiples(r: nat, r': nat, u: nat)
    requires u > 0 && r' == r + u
    ensures !(IsMultiple(r, 2 * u) && IsMultiple(r', 2 * u))
  {
    if IsMultiple(r, 2 * u) && IsMultiple(r', 2 * u) {
      var p: nat :| r == p * (2 * u);
      var p': nat :| r' == p' * (2 * u);
      NextMultiple(p, p', 2 * u);
    }
  }

  /** bf_get_rnd_add: whether one unit is added to the truncated number, from the first bit dropped, the rest of
      the dropped bits and the last bit kept. */
  function AddOne(mode: Mode, negative: bool, bit1: bool, bit0: bool, odd: bool): bool {
    match mode
    case RNDZ => false
    case RNDN => bit1 && (bit0 || odd)
    case RNDD => negative && (bit1 || bit0)
    case RNDU => !negative && (bit1 || bit0)
    case RNDA => bit1 || bit0
    case RNDNA => bit1
  }

  /** The truncated number q u, plus the unit. */
  function RoundedTo(mode: Mode, negative: bool, q: nat, u: nat, bit1: bool, bit0: bool): nat {
    (if AddOne(mode, negative, bit1, bit0, q % 2 == 1) then q + 1 else q) * u
  }

  /** Truncation plus that unit is the rounded number; it is exact when all the dropped bits are zero. */
  lemma AddOneCorrect(mode: Mode, negative: bool, q: nat, half: nat, bit1: bool, low: nat)
    requires half > 0 && low < half
    ensures var u := 2 * half; var n := q * u + (if bit1 then half else 0) + low;
      var r := RoundedTo(mode, negative, q, u, bit1, low != 0);
      && IsRounded(mode, negative, n, u, r) && (r == n <==> !bit1 && low == 0)
  {
    var u := 2 * half;
    var add := AddOne(mode, negative, bit1, low != 0, q % 2 == 1);
    var m := if add then q + 1 else q;
    Distrib(u, q, 1);
    assert IsMultiple(m * u, u);
    if mode == RNDN && bit1 && low == 0 {
      assert m == (m / 2) * 2;
      Assoc(m / 2, 2, u);
      assert m * u == (m / 2) * (2 * u);
      assert IsMultiple(m * u, 2 * u);
    }
  }

  // ---- sticky bits

  /** The magnitude h k + low with its low part folded into the last bit of h. */
  function Sticky(h: nat, low: nat): nat {
    if low != 0 && h % 2 == 0 then h + 1 else h
  }

  /** Rounding sees a number only through its quotient by half a unit and whether anything is left. */
  lemma SameRounding(mode: Mode, negative: bool, q: nat, half: nat, bit1: bool, low: nat, low': nat, r: nat)
    requires half > 0 && low < half && low' < half && (low == 0 <==> low' == 0)
    ensures var u := 2 * half; var n := q * u + (if bit1 then half else 0);
      IsRounded(mode, negative, n + low, u, r) <==> IsRounded(mode, negative, n + low', u, r)
  {
    hide *;
    var u := 2 * half;
    var n := q * u + (if bit1 then half else 0);
    AddOneCorrect(mode, negative, q, half, bit1, low);
    AddOneCorrect(mode, negative, q, half, bit1, low');
    var x := RoundedTo(mode, negative, q, u, bit1, low != 0);
    if IsRounded(mode, negative, n + low, u, r) {
      RoundedUnique(mode, negative, n + low, u, r, x);
    }
    if IsRounded(mode, negative, n + low', u, r) {
      RoundedUnique(mode, negative, n + low', u, r, x);
    }
  }

  /** A number may be cut at k and its lost part kept as a sticky bit when at least two bits stay below the
      rounding unit 4 c k. */
  lemma StickyRounds(mode: Mode, negative: bool, h: nat, k: nat, low: nat, c: nat, r: nat)
    requires k > 0 && c > 0 && low < k
    ensures IsRounded(mode, negative, h * k + low, 4 * c * k, r) <==>
      IsRounded(mode, negative, Sticky(h, low) * k, 4 * c * k, r)
  {
    hide IsRounded, Sticky;
    var m := 2 * c;
    var half := m * k;
    var g, hr := Division(h, m);
    var q, bit1 := g / 2, g % 2 == 1;
    var hr' := Sticky(hr, low);
    StickyParity(c, g, hr, low);
    StickyParts(k, m, h, low, q, bit1, hr);
    StickyParts(k, m, Sticky(h, low), 0, q, bit1, hr');
    StickySmall(k, m, hr, low);
    StickySmall(k, m, hr', 0);
    StickyZero(k, hr, low);
    MulPositive(m, k);
    SameRounding(mode, negative, q, half, bit1, hr * k + low, hr' * k, r);
    UnitIs(c, k);
  }

  lemma UnitIs(c: nat, k: nat)
    ensures 4 * c * k == 2 * ((2 * c) * k)
  {
  }

  lemma Division(h: nat, m: nat) returns (g: nat, hr: nat)
    requires m > 0
    ensures h == m * g + hr && hr < m
  {
    g, hr := h / m, h % m;
  }

  /** The sticky bit does not leave the part below 2c. */
  lemma StickyParity(c: nat, g: nat, hr: nat, low: nat)
    requires hr < 2 * c
    ensures Sticky((2 * c) * g + hr, low) == (2 * c) * g + Sticky(hr, low) && Sticky(hr, low) < 2 * c
  {
    Assoc(2, c, g);
    EvenShift(c * g, hr);
  }

  lemma EvenShift(x: nat, y: nat)
    ensures (2 * x + y) % 2 == y % 2
  {
  }

  lemma StickyParts(k: nat, m: nat, h: nat, low: nat, q: nat, bit1: bool, hr: nat)
    requires h == m * (2 * q + (if bit1 then 1 else 0)) + hr
    ensures h * k + low == q * (2 * (m * k)) + (if bit1 then m * k else 0) + (hr * k + low)
  {
    var g := 2 * q + (if bit1 then 1 else 0);
    Distrib(k, m * g, hr);
    Distrib(m, 2 * q, if bit1 then 1 else 0);
    Distrib(k, m * (2 * q), m * (if bit1 then 1 else 0));
    assert (m * (2 * q)) * k == q * (2 * (m * k));
  }

  lemma StickySmall(k: nat, m: nat, hr: nat, low: nat)
    requires low < k && hr < m
    ensures hr * k + low < m * k
  {
    MulMono(hr, m - 1, k);
    Distrib(k, m, 1);
  }

  lemma StickyZero(k: nat, hr: nat, low: nat)
    requires k > 0
    ensures hr * k + low == 0 <==> Sticky(hr, low) * k == 0
  {
    if hr > 0 {
      MulPositive(hr, k);
    }
    if Sticky(hr, low) > 0 {
      MulPositive(Sticky(hr, low), k);
    }
  }

  // ---- rounding of real magnitudes

  /** r is the real magnitude x rounded to a multiple of u. */
  ghost predicate IsRoundedReal(mode: Mode, negative: bool, x: real, u: nat, r: nat) {
    var y, v := r as real, u as real;
    && IsMultiple(r, u)
    && match mode
       case RNDZ => y <= x < y + v
       case RNDA => x <= y < x + v
       case RNDD => if negative then x <= y < x + v else y <= x < y + v
       case RNDU => if negative then y <= x < y + v else x <= y < x + v
       case RNDN => NearestReal(x, v, y) && (TieReal(x, v, y) ==> IsMultiple(r, 2 * u))
       case RNDNA => NearestReal(x, v, y) && (TieReal(x, v, y) ==> x <= y)
  }

  ghost predicate NearestReal(x: real, v: real, y: real) {
    2.0 * x <= 2.0 * y + v && 2.0 * y <= 2.0 * x + v
  }

  ghost predicate TieReal(x: real, v: real, y: real) {
    2.0 * x == 2.0 * y + v || 2.0 * y == 2.0 * x + v
  }

  /** Integers and reals agree. */
  lemma RealAgrees(mode: Mode, negative: bool, n: nat, u: nat, r: nat)
    ensures IsRoundedReal(mode, negative, n as real, u, r) <==> IsRounded(mode, negative, n, u, r)
  {
  }

  /** A real number strictly between two neighbouring integers rounds as half way between them. */
  lemma BetweenIntegers(mode: Mode, negative: bool, h: nat, f: real, m: nat, r: nat)
    requires 0.0 < f < 1.0
    ensures IsRoundedReal(mode, negative, h as real + f, 2 * m, r) <==>
      IsRounded(mode, negative, 2 * h + 1, 2 * (2 * m), 2 * r)
  {
    hide IsMultiple;
    ScaleMultiple(r, 2 * m, 2);
    ScaleMultiple(r, 2 * (2 * m), 2);
    RealOrder(h, f, r);
    RealOrder(h, f, r + 2 * m);
    RealOrder(h, f, r - 2 * m);
    RealOrder(h, f, r + m);
    RealOrder(h, f, r - m);
    assert (r + 2 * m) as real == r as real + (2 * m) as real && (r - 2 * m) as real == r as real - (2 * m) as real;
    assert 2.0 * (r + m) as real == 2.0 * r as real + (2 * m) as real
      && 2.0 * (r - m) as real == 2.0 * r as real - (2 * m) as real;
  }

  lemma RealOrder(h: int, f: real, k: int)
    requires 0.0 < f < 1.0
    ensures (k as real <= h as real + f <==> k <= h) && (h as real + f <= k as real <==> h < k)
      && k as real != h as real + f
  {
  }

  /** A real magnitude may be cut to an integer with a sticky bit when two bits stay below the rounding unit. */
  lemma StickyReal(mode: Mode, negative: bool, h: nat, f: real, c: nat, r: nat)
    requires 0.0 <= f < 1.0 && c > 0
    ensures IsRoundedReal(mode, negative, h as real + f, 4 * c, r)
       <==> IsRounded(mode, negative, Sticky(h, if f == 0.0 then 0 else 1), 4 * c, r)
  {
    hide IsRounded, IsRoundedReal;
    if f == 0.0 {
      RealAgrees(mode, negative, h, 4 * c, r);
      assert Sticky(h, 0) == h;
    } else {
      BetweenIntegers(mode, negative, h, f, 2 * c, r);
      StickyRounds(mode, negative, h, 2, 1, c, 2 * r);
      ScaleRounded(mode, negative, Sticky(h, 1), 4 * c, r, 2);
      assert 4 * c * 2 == 2 * (2 * (2 * c)) == 2 * (4 * c) && h * 2 + 1 == 2 * h + 1
        && Sticky(h, 1) * 2 == 2 * Sticky(h, 1);
    }
  }

  /** Rounding does not depend on the unit of measure. */
  lemma ScaleRounded(mode: Mode, negative: bool, n: nat, u: nat, r: nat, c: nat)
    requires c > 0
    ensures IsRounded(mode, negative, c * n, c * u, c * r) <==> IsRounded(mode, negative, n, u, r)
  {
    hide IsMultiple;
    ScaleMultiple(r, u, c);
    ScaleMultiple(r, 2 * u, c);
    assert c * (2 * u) == 2 * (c * u);
    ScaleOrder(r, n, c);
    ScaleOrder(n, r, c);
    ScaleOrder(r + u, n, c);
    ScaleOrder(n + u, r, c);
    ScaleOrder(2 * r + u, 2 * n, c);
    ScaleOrder(2 * n + u, 2 * r, c);
    ScaleSums(n, u, r, c);
  }

  lemma ScaleSums(n: nat, u: nat, r: nat, c: nat)
    ensures c * (r + u) == c * r + c * u && c * (n + u) == c * n + c * u
    ensures c * (2 * n) == 2 * (c * n) && c * (2 * r) == 2 * (c * r)
    ensures c * (2 * r + u) == 2 * (c * r) + c * u && c * (2 * n + u) == 2 * (c * n) + c * u
  {
    Distrib(c, r, u);
    Distrib(c, n, u);
    Distrib(c, 2 * r, u);
    Distrib(c, 2 * n, u);
  }

  lemma ScaleOrder(x: nat, y: nat, c: nat)
    requires c > 0
    ensures c * x <= c * y <==> x <= y
    ensures c * x == c * y <==> x == y
  {
    if x <= y {
      MulMono(x, y, c);
    } else {
      MulStrict(y, x, c);
    }
    if x < y {
      MulStrict(x, y, c);
    }
  }

  lemma ScaleMultiple(r: nat, u: nat, c: nat)
    requires c > 0
    ensures IsMultiple(r, u) <==> IsMultiple(c * r, c * u)
  {
    if IsMultiple(r, u) {
      var q: nat :| r == q * u;
      assert c * r == q * (c * u) by { Assoc(c, q, u); Assoc(q, c, u); }
    }
    if IsMultiple(c * r, c * u) {
      var q: nat :| c * r == q * (c * u);
      assert q * (c * u) == c * (q * u) by { Assoc(c, q, u); Assoc(q, c, u); }
      ScaleOrder(r, q * u, c);
    }
  }

  /** Rounding of reals does not depend on the unit of measure either. */
  lemma ScaleRoundedReal(mode: Mode, negative: bool, x: real, u: nat, r: nat, c: nat)
    requires c > 0
    ensures IsRoundedReal(mode, negative, Scale(c, x), c * u, c * r) <==> IsRoundedReal(mode, negative, x, u, r)
  {
    hide IsMultiple, Scale;
    var y, v := r as real, u as real;
    ScaleMultiple(r, u, c);
    ScaleMultiple(r, 2 * u, c);
    assert c * (2 * u) == 2 * (c * u);
    ScaleNat(c, r);
    ScaleNat(c, u);
    ScaleReal(c, y, x);
    ScaleReal(c, x, y);
    ScaleSum(c, y, v);
    ScaleSum(c, x, v);
    ScaleReal(c, y + v, x);
    ScaleReal(c, x + v, y);
    ScaleSum(c, x, x);
    ScaleSum(c, y, y);
    ScaleSum(c, y + y, v);
    ScaleSum(c, x + x, v);
    ScaleReal(c, x + x, y + y + v);
    ScaleReal(c, y + y, x + x + v);
    assert 2.0 * x == x + x && 2.0 * y == y + y;
    assert 2.0 * Scale(c, x) == Scale(c, x) + Scale(c, x) && 2.0 * Scale(c, y) == Scale(c, y) + Scale(c, y);
  }

  function Scale(c: nat, x: real): real {
    c as real * x
  }

  lemma ScaleNat(c: nat, r: nat)
    ensures Scale(c, r as real) == (c * r) as real
  {
  }

  lemma ScaleSum(c: nat, x: real, y: real)
    ensures Scale(c, x + y) == Scale(c, x) + Scale(c, y)
  {
  }

  lemma ScaleReal(c: nat, x: real, y: real)
    requires c > 0
    ensures (Scale(c, x) <= Scale(c, y) <==> x <= y) && (Scale(c, x) == Scale(c, y) <==> x == y)
  {
    hide Scale;
    ScaleSum(c, x, y - x);
    ScaleSum(c, y, x - y);
    if x < y {
      ScalePositive(c, y - x);
    } else if y < x {
      ScalePositive(c, x - y);
    }
    assert x + (y - x) == y && y + (x - y) == x;
  }

  lemma ScalePositive(c: nat, x: real)
    requires c > 0 && x > 0.0
    ensures Scale(c, x) > 0.0
  {
  }
}

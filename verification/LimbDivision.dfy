/** Schoolbook division: the estimate of a quotient digit, its correction, and the division of one
    double limb by multiplication with a reciprocal. */
module LimbDivision {
  import opened Limbs
  import opened LimbKernels

  // ---- division of two limbs by one, with a precomputed reciprocal

  /** udiv1norm_init: floor((b^2 - 1) / d) - b */
  function Reciprocal(b: nat, d: nat): int
    requires b > 0 && d > 0
  {
    ((b - 1 - d) * b + (b - 1)) / d
  }

  /** v = reciprocal + b is the quotient of b^2 - 1 by d. */
  lemma ReciprocalBounds(b: nat, d: nat) returns (v: int)
    requires d < b <= 2 * d
    ensures v == Reciprocal(b, d) + b && b * b - d <= v * d <= b * b - 1 && b <= v && Reciprocal(b, d) < b
  {
    var num := (b - 1 - d) * b + (b - 1);
    var m := Reciprocal(b, d);
    v := m + b;
    assert num == b * b - b * d - 1 by { Distrib(b, b - 1 - d, 1); Distrib(b, b, 1 + d); }
    assert num == d * m + num % d;
    Distrib(d, m, b);
    assert num >= 0 by { MulMono(0, b - 1 - d, b); }
    if m < 0 {
      MulMono(m, -1, d);
    }
    if m >= b {
      MulMono(b, m, d);
      MulMono(b, 2 * d, b);
    }
  }

  /** The estimate of the quotient: never too large, too small by at most one. */
  ghost predicate Near(n: int, d: int, q: int) {
    q * d <= n < (q + 2) * d
  }

  /** a0 below b / 2 */
  lemma NearLow(b: int, d: int, a1: int, a0: int, v: int, q: int)
    requires 0 < d < b <= 2 * d && 0 <= a1 < d && 0 <= a0 && 2 * a0 < b
    requires b * b - d <= v * d <= b * b - 1 && q * b <= v * a1 + a0 < q * b + b
    ensures Near(a1 * b + a0, d, q)
  {
    var x := v * a1 + a0;
    LowProducts(b, d, a1, a0, v);
    FromScaled(b, d, a1 * b + a0, q, x);
  }

  /** X d <= N b and N b < (X + b + 1) d turn into Near. */
  lemma FromScaled(b: int, d: int, n: int, q: int, x: int)
    requires b > 0 && d > 0 && q * b <= x < q * b + b
    requires x * d <= n * b && n * b < (x + b + 1) * d
    ensures Near(n, d, q)
  {
    MulMono(q * b, x, d);
    MulMono(x + b + 1, q * b + 2 * b, d);
    assert (q * b) * d == (q * d) * b;
    assert (q * b + 2 * b) * d == ((q + 2) * d) * b;
    if q * d > n {
      MulStrict(n, q * d, b);
    }
    if n >= (q + 2) * d {
      MulMono((q + 2) * d, n, b);
    }
  }

  lemma Expand3(v: int, c: int, e: int, d: int)
    ensures (v * c + e) * d == (v * d) * c + e * d
  {
  }

  /** (b^2 - d) c <= (v d) c <= (b^2 - 1) c, expanded. */
  lemma ScaledBounds(bb: int, d: int, vd: int, c: int)
    requires bb - d <= vd <= bb - 1 && c >= 0
    ensures bb * c - d * c <= vd * c <= bb * c - c
  {
    MulMono(bb - d, vd, c);
    MulMono(vd, bb - 1, c);
  }

  lemma LowTerms(b: int, d: int, a1: int, a0: int)
    requires 0 < d < b <= 2 * d && 0 <= a1 < d && 0 <= a0 && 2 * a0 < b
    ensures d * a1 <= d * d - d && a0 * d <= a0 * b && a0 * b - a0 * d <= b * d - d * d
  {
    MulMono(a1, d - 1, d);
    Distrib(d, d, 1);
    MulMono(d, b, a0);
    MulMono(a0, d, b - d);
    Distrib(a0, b, d);
    Distrib(d, b, d);
  }

  lemma LowProducts(b: int, d: int, a1: int, a0: int, v: int)
    requires 0 < d < b <= 2 * d && 0 <= a1 < d && 0 <= a0 && 2 * a0 < b
    requires b * b - d <= v * d <= b * b - 1
    ensures (v * a1 + a0) * d <= (a1 * b + a0) * b && (a1 * b + a0) * b < (v * a1 + a0 + b + 1) * d
  {
    Expand3(v, a1, a0, d);
    Expand3(v, a1, a0 + b + 1, d);
    Expand3(b, a1, a0, b);
    Distrib(d, a0, b + 1);
    ScaledBounds(b * b, d, v * d, a1);
    LowTerms(b, d, a1, a0);
  }

  /** a0 at least b / 2 */
  lemma NearHigh(b: int, d: int, a1: int, a0: int, v: int, q: int)
    requires 0 < d < b <= 2 * d && 0 <= a1 < d && a0 < b && 2 * a0 >= b
    requires b * b - d <= v * d <= b * b - 1
    requires q * b <= v * (a1 + 1) + a0 + d - 2 * b < q * b + b
    ensures Near(a1 * b + a0, d, q)
  {
    HighProducts(b, d, a1 + 1, a0, v);
    Distrib(b, a1, 1);
    FromScaled(b, d, a1 * b + a0, q, v * (a1 + 1) + a0 + d - 2 * b);
  }

  lemma HighTerms(b: int, d: int, c: int, a0: int)
    requires 0 < d < b <= 2 * d && 0 < c <= d && a0 < b && 2 * a0 >= b
    ensures d * c <= d * d && b * b - 2 * (b * d) + d * d <= a0 * b - a0 * d <= b * b - b - b * d + d
  {
    MulMono(c, d, d);
    HighTermsBelow(b, d, a0);
    HighTermsAbove(b, d, a0);
  }

  lemma HighTermsBelow(b: int, d: int, a0: int)
    requires d < b && b - d <= a0
    ensures b * b - 2 * (b * d) + d * d <= a0 * b - a0 * d
  {
    MulMono(b - d, a0, b - d);
    Distrib(a0, b, d);
    Distrib(b - d, b, d);
    Distrib(b, b, d);
    Distrib(d, b, d);
  }

  lemma HighTermsAbove(b: int, d: int, a0: int)
    requires d < b && a0 < b
    ensures a0 * b - a0 * d <= b * b - b - b * d + d
  {
    MulMono(a0, b - 1, b - d);
    Distrib(a0, b, d);
    Distrib(b - d, b, 1);
    Distrib(b, b, d);
  }

  lemma HighProducts(b: int, d: int, c: int, a0: int, v: int)
    requires 0 < d < b <= 2 * d && 0 < c <= d && a0 < b && 2 * a0 >= b
    requires b * b - d <= v * d <= b * b - 1
    ensures (v * c + (a0 + d - 2 * b)) * d <= (b * c + (a0 - b)) * b
    ensures (b * c + (a0 - b)) * b < (v * c + (a0 + d - b + 1)) * d
  {
    Expand3(v, c, a0 + d - 2 * b, d);
    Expand3(v, c, a0 + d - b + 1, d);
    Expand3(b, c, a0 - b, b);
    ScaledBounds(b * b, d, v * d, c);
    HighTerms(b, d, c, a0);
    HighLinear(b * c, (b * b) * c, (v * d) * c, d * c, c, b, d, a0);
  }

  lemma HighLinear(bc: int, bbc: int, vdc: int, dc: int, c: int, b: int, d: int, a0: int)
    requires bbc - dc <= vdc <= bbc - c && 0 < c && 0 < b
    requires dc <= d * d && b * b - 2 * (b * d) + d * d <= a0 * b - a0 * d <= b * b - b - b * d + d
    ensures vdc + (a0 + d - 2 * b) * d <= bbc + (a0 - b) * b
    ensures bbc + (a0 - b) * b < vdc + (a0 + d - b + 1) * d
  {
    Distrib(d, a0 + d, 2 * b);
    Distrib(d, a0, d);
    Distrib(d, a0 + d, b - 1);
    Distrib(d, b, 1);
    Distrib(b, a0, b);
  }

  /** udiv1norm: quotient and remainder of a1 * b + a0 by d, with limb and double-limb wrap-around.
      The sign of a0 as a signed limb is its comparison with b / 2. */
  function UDiv1Norm(b: nat, a1: nat, a0: nat, d: nat, dInv: int): (int, int)
    requires b > 0
  {
    var q := UDivGuess(b, a1, a0, d, dInv);
    var r := (a1 * b + a0 - q * d - d) % (b * b);
    var ah := r / b;
    ((q + 1 + ah) % b, (r % b + (if ah == 0 then 0 else d)) % b)
  }

  function UDivGuess(b: nat, a1: nat, a0: nat, d: nat, dInv: int): (q: int)
    requires b > 0
    ensures 0 <= q < b
  {
    if 2 * a0 >= b
    then HighLimb(b, dInv * ((a1 + 1) % b) + (a0 + d) % b, a1)
    else HighLimb(b, dInv * a1 + a0, a1)
  }

  /** The high limb of the double limb x, plus a1. */
  function HighLimb(b: nat, x: int, a1: nat): (q: int)
    requires b > 0
    ensures 0 <= q < b
    ensures 0 <= x < b * b && 0 <= x / b + a1 < b ==> q == x / b + a1
  {
    if 0 <= x < b * b && 0 <= x / b + a1 < b then
      DivUnique(x, b * b, 0, x);
      DivUnique(x / b + a1, b, 0, x / b + a1);
      ((x % (b * b)) / b + a1) % b
    else
      ((x % (b * b)) / b + a1) % b
  }

  /** m * c + e is a double limb that does not wrap, and its high limb plus a1 is at the scale of v = m + b. */
  lemma GuessScale(b: int, m: int, c: int, e: int, a1: int)
    requires 0 <= m < b && 0 <= c < b && 0 <= e < b
    ensures 0 <= m * c + e < b * b
    ensures var q := (m * c + e) / b + a1; q * b <= (m + b) * c + e - b * (c - a1) < q * b + b
  {
    MulMono(0, m, c);
    MulMono(m, b - 1, c);
    MulMono(c, b - 1, b - 1);
    Distrib(b - 1, b, 1);
    Distrib(b, b, 1);
    Distrib(b, (m * c + e) / b, a1);
    Distrib(c, m, b);
    Distrib(b, c, a1);
    assert m * c + e == b * ((m * c + e) / b) + (m * c + e) % b;
  }

  lemma GuessLow(b: nat, a1: nat, a0: nat, d: nat)
    requires 1 < b && d < b <= 2 * d && a1 < d && 2 * a0 < b
    ensures Near(a1 * b + a0, d, UDivGuess(b, a1, a0, d, Reciprocal(b, d)))
  {
    hide Near, Reciprocal, HighLimb;
    var v := ReciprocalBounds(b, d);
    NearLowGuess(b, a1, a0, d, v);
  }

  lemma NearLowGuess(b: nat, a1: nat, a0: nat, d: nat, v: int)
    requires 1 < b && d < b <= 2 * d && a1 < d && 2 * a0 < b
    requires b * b - d <= v * d <= b * b - 1 && b <= v < 2 * b
    ensures Near(a1 * b + a0, d, HighLimb(b, (v - b) * a1 + a0, a1))
  {
    hide *;
    var x := (v - b) * a1 + a0;
    LowScale(b, v, a1, a0, x);
    NearLow(b, d, a1, a0, v, x / b + a1);
    NearBounds(b, d, a1, a0, x / b + a1);
    GuessPositive(b, x, a1);
  }

  lemma LowScale(b: int, v: int, a1: int, a0: int, x: int)
    requires b <= v < 2 * b && 0 <= a1 < b && 0 <= a0 < b && x == (v - b) * a1 + a0
    ensures 0 <= x < b * b && (x / b + a1) * b <= v * a1 + a0 < (x / b + a1) * b + b
  {
    hide *;
    GuessScale(b, v - b, a1, a0, a1);
  }

  lemma GuessPositive(b: int, x: int, a1: int)
    requires b > 0 && x >= 0 && a1 >= 0
    ensures x / b + a1 >= 0
  {
  }

  lemma GuessHigh(b: nat, a1: nat, a0: nat, d: nat)
    requires 1 < b && d < b <= 2 * d && a1 < d && a0 < b && 2 * a0 >= b
    ensures Near(a1 * b + a0, d, UDivGuess(b, a1, a0, d, Reciprocal(b, d)))
  {
    hide Near, Reciprocal, HighLimb;
    var v := ReciprocalBounds(b, d);
    NearHighGuess(b, a1, a0, d, v);
    GuessWrapped(b, a1, a0, d);
  }

  lemma GuessWrapped(b: nat, a1: nat, a0: nat, d: nat)
    requires 1 < b && d < b <= 2 * d && a1 < d && a0 < b && 2 * a0 >= b
    ensures (a1 + 1) % b == a1 + 1 && (a0 + d) % b == a0 + d - b
  {
    WrapOnce(b, a1 + 1);
    WrapOnce(b, a0 + d);
  }

  lemma NearHighGuess(b: nat, a1: nat, a0: nat, d: nat, v: int)
    requires 1 < b && d < b <= 2 * d && a1 < d && a0 < b && 2 * a0 >= b
    requires b * b - d <= v * d <= b * b - 1 && b <= v < 2 * b
    ensures Near(a1 * b + a0, d, HighLimb(b, (v - b) * (a1 + 1) + (a0 + d - b), a1))
  {
    hide *;
    var x := (v - b) * (a1 + 1) + (a0 + d - b);
    GuessScale(b, v - b, a1 + 1, a0 + d - b, a1);
    var q := x / b + a1;
    NearHigh(b, d, a1, a0, v, q);
    NearBounds(b, d, a1, a0, q);
    GuessPositive(b, x, a1);
  }

  lemma NearBounds(b: int, d: int, a1: int, a0: int, q: int)
    requires 0 < d && 0 <= a1 < d && 0 <= a0 < b && Near(a1 * b + a0, d, q)
    ensures -1 <= q < b
  {
    MulMono(a1, d - 1, b);
    assert (d - 1) * b == d * b - b;
    if q >= b {
      MulMono(b, q, d);
    }
    if q < -1 {
      MulMono(q + 2, 0, d);
      MulMono(0, a1, b);
    }
  }

  /** The correction of udiv1norm: z is the remainder for the quotient q + 1. */
  lemma UDivCorrect(b: nat, n: int, d: nat, q: int, z: int)
    requires 1 < b && 0 < d < b && 0 <= q < b && 0 - d <= z < d && n == q * d + d + z && (z >= 0 ==> q + 1 < b)
    ensures var r := z % (b * b); var ah := r / b;
      && (q + 1 + ah) % b == n / d && (r % b + (if ah == 0 then 0 else d)) % b == n % d
  {
    MulMono(2, b, b);
    if z >= 0 {
      DivUnique(z, b * b, 0, z);
      DivUnique(z, b, 0, z);
      Distrib(d, q, 1);
      DivUnique(n, d, q + 1, z);
      DivUnique(q + 1, b, 0, q + 1);
    } else {
      DivUnique(z, b * b, -1, z + b * b);
      Distrib(b, b - 1, 1);
      DivUnique(z + b * b, b, b - 1, z + b);
      DivUnique(n, d, q, z + d);
      DivUnique(q + b, b, 1, q);
      DivUnique(z + b + d, b, 1, z + d);
    }
  }

  /** The reciprocal division is exact. */
  lemma UDiv1NormExact(b: nat, a1: nat, a0: nat, d: nat)
    requires 1 < b && d < b <= 2 * d && a1 < d && a0 < b
    ensures UDiv1Norm(b, a1, a0, d, Reciprocal(b, d)) == ((a1 * b + a0) / d, (a1 * b + a0) % d)
  {
    hide Reciprocal, UDivGuess;
    var q := UDivGuess(b, a1, a0, d, Reciprocal(b, d));
    if 2 * a0 >= b {
      GuessHigh(b, a1, a0, d);
    } else {
      GuessLow(b, a1, a0, d);
    }
    NearBounds(b, d, a1, a0, q);
    NearRemainder(b, d, a1, a0, q);
    UDivCorrect(b, a1 * b + a0, d, q, a1 * b + a0 - q * d - d);
  }

  lemma NearRemainder(b: int, d: int, a1: int, a0: int, q: int)
    requires 0 < d && 0 <= a1 < d && 0 <= a0 < b && Near(a1 * b + a0, d, q)
    ensures var z := a1 * b + a0 - q * d - d; -d <= z < d && (z >= 0 ==> q + 1 < b)
  {
    var n := a1 * b + a0;
    Distrib(d, q, 2);
    Distrib(d, q, 1);
    if n - q * d - d >= 0 {
      QuotientFits(b, d, a1, a0, q + 1, n - q * d - d);
    }
  }

  lemma QuotientFits(b: int, d: int, a1: int, a0: int, q: int, r: int)
    requires 0 < d && 0 <= a1 < d && 0 <= a0 < b && a1 * b + a0 == q * d + r && 0 <= r < d
    ensures 0 <= q < b
  {
    MulMono(a1, d - 1, b);
    assert (d - 1) * b == d * b - b;
    MulMono(0, a1, b);
    if q >= b {
      MulMono(b, q, d);
    }
    if q < 0 {
      MulMono(q, -1, d);
    }
  }
}

/** The modular operations of the transform: limbs of base b, moduli between p and 2p with b = 8p. */
module NttWord {
  import opened Limbs
  import opened LimbKernels
  import opened NttPoly

  /** A modulus of the transform. */
  predicate Modulus(b: nat, p: nat, m: nat) {
    b == 8 * p && 1 < p <= m < 2 * p
  }

  /** add_mod */
  function AddMod(x: nat, y: nat, m: nat): (r: nat)
    requires x < m && y < m
    ensures r < m && (r == x + y || r == x + y - m)
  {
    if x + y >= m then x + y - m else x + y
  }

  /** sub_mod: the difference wraps around at b */
  function SubMod(b: nat, x: nat, y: nat, m: nat): (r: nat)
    requires x < m && y < m && 2 * m <= b
    ensures r < m && (r == x - y || r == x - y + m)
  {
    WrapOnce(b, x - y);
    var z := (x - y) % b;
    if z > x then WrapOnce(b, z + m); (z + m) % b else z
  }

  function Div(n: nat, d: nat): nat
    requires d > 0
  {
    n / d
  }

  lemma DivRest(n: nat, d: nat)
    requires d > 0
    ensures 0 <= n - Div(n, d) * d < d
  {
  }

  /** init_mul_mod_fast2 */
  function Inverse2(b: nat, c: nat, m: nat): nat
    requires m > 0
  {
    Div(c * b, m)
  }

  /** x c less a multiple of m */
  function Shoup(b: nat, x: nat, c: nat, m: nat, cInv: nat): int
    requires b > 0
  {
    x * c - Div(x * cInv, b) * m
  }

  /** mul_mod_fast3: x c modulo m, or that plus m, from the precomputed Inverse2(c); limbs wrap around at b */
  function MulFast3(b: nat, x: nat, c: nat, m: nat, cInv: nat): nat
    requires b > 0
  {
    Shoup(b, x, c, m, cInv) % b
  }

  lemma MulFast3Correct(b: nat, x: nat, c: nat, m: nat)
    requires x < b && c < m && 2 * m <= b
    ensures var r := MulFast3(b, x, c, m, Inverse2(b, c, m)); r < 2 * m && Cong(m, r, x * c)
  {
    hide Cong, Shoup, Inverse2;
    ShoupCorrect(b, x, c, m);
    WrapOnce(b, Shoup(b, x, c, m, Inverse2(b, c, m)));
  }

  lemma ShoupCorrect(b: nat, x: nat, c: nat, m: nat)
    requires x < b && c < m && 0 < b
    ensures var z := Shoup(b, x, c, m, Inverse2(b, c, m)); 0 <= z < 2 * m && Cong(m, z, x * c)
  {
    hide Cong, Div;
    var i := Inverse2(b, c, m);
    var q := Div(x * i, b);
    DivRest(c * b, m);
    DivRest(x * i, b);
    ShoupArith(b, x, c, m, i, q, c * b - i * m, x * i - q * b);
    LessMultiple(m, x * c, q);
  }

  lemma LessMultiple(m: nat, x: int, q: int)
    ensures Cong(m, x - q * m, x)
  {
    assert m * (0 - q) == 0 - q * m;
    CongBy(m, x - q * m, x, 0 - q);
  }

  lemma ShoupIdentity(b: nat, x: nat, c: nat, m: nat, i: nat, q: nat, s: int, t: int)
    requires s == c * b - i * m && t == x * i - q * b
    ensures (x * c - q * m) * b == x * s + t * m
  {
    Distrib(b, x * c, q * m);
    Distrib(x, c * b, i * m);
    Distrib(m, x * i, q * b);
    Assoc(x, c, b);
    Assoc(x, i, m);
    assert (q * m) * b == (q * b) * m;
  }

  lemma ShoupArith(b: nat, x: nat, c: nat, m: nat, i: nat, q: nat, s: int, t: int)
    requires 0 < b && 0 < m && x < b && 0 <= s < m && 0 <= t < b && s == c * b - i * m && t == x * i - q * b
    ensures 0 <= x * c - q * m < 2 * m
  {
    ShoupIdentity(b, x, c, m, i, q, s, t);
    MulMono(0, s, x);
    MulMono(0, t, m);
    MulMono(x, b, s);
    MulMono(s, m, b);
    MulStrict(t, b, m);
    ScaledRange(b, m, 2, x * c - q * m, x * s + t * m);
  }

  /** mul_mod_fast2: reduced below m */
  function MulFast2(b: nat, x: nat, c: nat, m: nat, cInv: nat): int
    requires b > 0
  {
    var r := MulFast3(b, x, c, m, cInv);
    if r >= m then r - m else r
  }

  lemma MulFast2Correct(b: nat, x: nat, c: nat, m: nat)
    requires x < b && c < m && 2 * m <= b
    ensures var r := MulFast2(b, x, c, m, Inverse2(b, c, m)); 0 <= r < m && Cong(m, r, x * c)
  {
    hide Cong, MulFast3;
    MulFast3Correct(b, x, c, m);
    var r := MulFast3(b, x, c, m, Inverse2(b, c, m));
    Reduced(m, r, x * c);
  }

  lemma Reduced(m: nat, r: nat, x: int)
    requires r < 2 * m && Cong(m, r, x)
    ensures var r' := if r >= m then r - m else r; 0 <= r' < m && Cong(m, r', x)
  {
    hide Cong;
    if r >= m {
      CongBy(m, r - m, r, -1);
      CongTrans(m, r - m, r, x);
    }
  }

  /** init_mul_mod_fast */
  function InverseMod(b: nat, p: nat, m: nat): nat
    requires m > 0
  {
    Div(b * p, m)
  }

  /** The quotient of mod_fast. */
  function Barrett(b: nat, p: nat, r: nat, mInv: nat): nat
    requires b > 0 && p > 0
  {
    Div(Div(r, p) * mInv, b)
  }

  /** mod_fast: the remainder of a double limb below b p; the two corrections test the sign of the double limb */
  function ModFast(b: nat, p: nat, r: nat, m: nat, mInv: nat): int
    requires b > 0 && p > 0
  {
    var z := r - Barrett(b, p, r, mInv) * m - 2 * m;
    var z' := if z < 0 then z + m else z;
    if z' < 0 then z' + m else z'
  }

  lemma ModFastCorrect(b: nat, p: nat, r: nat, m: nat)
    requires Modulus(b, p, m) && r < b * p
    ensures var z := ModFast(b, p, r, m, InverseMod(b, p, m)); 0 <= z < m && Cong(m, z, r)
  {
    hide Cong, Barrett, InverseMod;
    var q := Barrett(b, p, r, InverseMod(b, p, m));
    BarrettBounds(b, p, r, m);
    var k := if r - q * m >= 2 * m then q + 2 else if r - q * m >= m then q + 1 else q;
    Distrib(m, q, 1);
    Distrib(m, q, 2);
    LessMultiple(m, r, k);
  }

  lemma BarrettBounds(b: nat, p: nat, r: nat, m: nat)
    requires 0 < p <= m && 0 < b && r < b * p
    ensures var q := Barrett(b, p, r, InverseMod(b, p, m)); 0 <= r - q * m < 3 * m
  {
    hide Div;
    var i, y := InverseMod(b, p, m), Div(r, p);
    var q := Div(y * i, b);
    DivRest(b * p, m);
    DivRest(r, p);
    DivRest(y * i, b);
    BarrettArith(b, p, r, m, i, y, q, b * p - i * m, r - y * p, y * i - q * b);
  }

  lemma BarrettIdentity(b: nat, p: nat, r: nat, m: nat, i: nat, y: nat, q: nat, s: int, t: int, u: int)
    requires s == b * p - i * m && t == r - y * p && u == y * i - q * b
    ensures (r - q * m) * b == y * s + u * m + t * b
  {
    var n := b * p;
    assert (q * m) * b == (q * b) * m;
    assert (y * p) * b == y * n by { Assoc(y, p, b); }
    Distrib(y, s, i * m);
    Assoc(y, i, m);
    Distrib(m, y * i, q * b);
    Distrib(b, r, y * p);
    Distrib(b, r, q * m);
  }

  lemma BarrettArith(b: nat, p: nat, r: nat, m: nat, i: nat, y: nat, q: nat, s: int, t: int, u: int)
    requires 0 < p <= m && 0 < b && r < b * p && s == b * p - i * m && t == r - y * p && u == y * i - q * b
    requires 0 <= s < m && 0 <= t < p && 0 <= u < b
    ensures 0 <= r - q * m < 3 * m
  {
    BarrettIdentity(b, p, r, m, i, y, q, s, t, u);
    HighBelow(b, p, r, y, t);
    MulMono(0, s, y);
    MulMono(0, u, m);
    MulMono(0, t, b);
    MulMono(y, b, s);
    MulMono(s, m, b);
    MulStrict(u, b, m);
    MulMono(t, m, b);
    ScaledRange(b, m, 3, r - q * m, y * s + u * m + t * b);
  }

  lemma HighBelow(b: nat, p: nat, r: nat, y: nat, t: int)
    requires t == r - y * p && 0 <= t && r < b * p
    ensures y < b
  {
    if y >= b {
      MulMono(b, y, p);
    }
  }
}

/** The Chinese remainder step of ntt_to_limb: residues to mixed-radix digits to limbs. */
module NttCrt {
  import opened Limbs
  import opened LimbKernels
  import opened LimbUnary
  import opened LimbProduct
  import opened NttPoly
  import opened NttWord

  // ---- the tables

  /** The product of the moduli. */
  function Product(mods: seq<nat>): nat {
    if mods == [] then 1 else mods[0] * Product(mods[1..])
  }

  /** ntt_mods: moduli of the transform in increasing order */
  ghost predicate Moduli(b: nat, p: nat, mods: seq<nat>) {
    && (forall j :: 0 <= j < |mods| ==> Modulus(b, p, mods[j]))
    && (forall j, k :: 0 <= j < k < |mods| ==> mods[j] < mods[k])
  }

  /** ntt_mods_cr: for each modulus in turn, its inverses modulo the later ones */
  ghost predicate InverseTable(mods: seq<nat>, cr: seq<nat>) {
    |mods| > 1 ==>
      && |cr| >= |mods| - 1
      && (forall k :: 1 <= k < |mods| ==> cr[k - 1] < mods[k] && Cong(mods[k], mods[0] * cr[k - 1], 1))
      && InverseTable(mods[1..], cr[|mods| - 1..])
  }

  /** Where the inverses of modulus j start in the table. */
  function Row(n: nat, j: nat): nat
    requires j <= n
    decreases j
  {
    if j == 0 then 0 else Row(n, j - 1) + (n - j)
  }

  lemma {:induction false} RowShift(n: nat, j: nat)
    requires j < n
    ensures Row(n, j + 1) == (n - 1) + Row(n - 1, j)
    decreases j
  {
    if j > 0 {
      RowShift(n, j - 1);
    }
  }

  /** The entry for the pair j, k. */
  lemma {:induction false} TableEntry(mods: seq<nat>, cr: seq<nat>, j: nat, k: nat)
    requires InverseTable(mods, cr) && j < k < |mods|
    ensures var l := Row(|mods|, j) + (k - j - 1); l < |cr| && cr[l] < mods[k] && Cong(mods[k], mods[j] * cr[l], 1)
    decreases j
  {
    if j > 0 {
      TableEntry(mods[1..], cr[|mods| - 1..], j - 1, k - 1);
      RowShift(|mods|, j - 1);
    }
  }

  // ---- mixed-radix digits

  /** c without its first j mixed-radix digits. */
  function Residual(mods: seq<nat>, c: nat, j: nat): nat
    requires j <= |mods| && forall i :: 0 <= i < |mods| ==> mods[i] > 0
  {
    if j == 0 then c else Div(Residual(mods, c, j - 1), mods[j - 1])
  }

  /** The residue of what is left after digit v. */
  lemma GarnerStep(m: nat, m': nat, x: int, v: nat, c: nat, i: int)
    requires m > 0 && v == c - Div(c, m) * m && Cong(m', x, c) && Cong(m', m * i, 1)
    ensures Cong(m', (x - v) * i, Div(c, m))
  {
    hide Cong, Div;
    var q := Div(c, m);
    CongSelf(m', v);
    CongAdd(m', x, v, c, v);
    CongSelf(m', i);
    CongMul(m', x - v, i, q * m, i);
    Assoc(q, m, i);
    CongSelf(m', q);
    CongMul(m', q, m * i, q, 1);
    CongTrans(m', (x - v) * i, q * (m * i), q * 1);
  }

  /** A reduced residue is the remainder. */
  lemma ResidueIs(m: nat, x: nat, c: nat)
    requires x < m && Cong(m, x, c)
    ensures x == c - Div(c, m) * m
  {
    var k: int :| x == c + m * k;
    assert c == (0 - k) * m + x;
    DivUnique(c, m, 0 - k, x);
  }

  /** The word of the inner loop: y[k] - y[j] + m does not wrap. */
  lemma GarnerWord(b: nat, p: nat, m: nat, m': nat, x: nat, v: nat, c: nat, i: nat)
    requires Modulus(b, p, m) && Modulus(b, p, m') && m < m' && x < m' && v < m && i < m'
    requires v == c - Div(c, m) * m && Cong(m', x, c) && Cong(m', m * i, 1)
    ensures 0 <= x - v + m' < b
    ensures var r := MulFast2(b, x - v + m', i, m', Inverse2(b, i, m')); 0 <= r < m' && Cong(m', r, Div(c, m))
  {
    hide Cong, Div, MulFast2, Inverse2;
    var x' := x + m';
    CongBy(m', x + m', x, 1);
    CongTrans(m', x', x, c);
    GarnerStep(m, m', x', v, c, i);
    MulFast2Correct(b, x - v + m', i, m');
    CongTrans(m', MulFast2(b, x - v + m', i, m', Inverse2(b, i, m')), (x' - v) * i, Div(c, m));
  }

  /** Entry k of the residues x after j rounds: digit k when k < j, and a residue of what is left otherwise. */
  ghost predicate Slot(mods: seq<nat>, c: nat, j: nat, k: nat, x: nat)
    requires j <= |mods| && k < |mods| && forall i :: 0 <= i < |mods| ==> mods[i] > 0
  {
    && x < mods[k]
    && if k < j then x == Residual(mods, c, k) - Residual(mods, c, k + 1) * mods[k]
    else Cong(mods[k], x, Residual(mods, c, j))
  }

  /** Chinese remainder to the mixed-radix representation */
  method Garner(b: nat, p: nat, mods: seq<nat>, cr: seq<nat>, y: array<nat>, ghost c: nat)
    requires mods != [] && Moduli(b, p, mods) && InverseTable(mods, cr) && y.Length == |mods|
    requires forall k :: 0 <= k < |mods| ==> y[k] < mods[k] && Cong(mods[k], y[k], c)
    modifies y
    ensures forall i :: 0 <= i < |mods| ==> mods[i] > 0
    ensures forall k :: 0 <= k < |mods| ==> Slot(mods, c, |mods|, k, y[k])
  {
    hide Cong, MulFast2, Inverse2, InverseTable, Residual, Slot, Row, Moduli;
    var n, l, j := |mods|, 0, 0;
    FirstRound(b, p, mods, c, y[..]);
    while j < n - 1
      invariant 0 <= j <= n - 1 && l == Row(n, j) && forall k :: 0 <= k < n ==> Slot(mods, c, j, k, y[k])
    {
      var k := j + 1;
      NextRow(n, j);
      forall i | 0 <= i < k
        ensures Slot(mods, c, j + 1, i, y[i])
      {
        DigitReady(mods, c, j, i, y[i]);
      }
      while k < n
        invariant j < k <= n && l == Row(n, j) + (k - j - 1)
        invariant forall i :: 0 <= i < k ==> Slot(mods, c, j + 1, i, y[i])
        invariant forall i :: k <= i < n ==> Slot(mods, c, j, i, y[i])
      {
        TableEntry(mods, cr, j, k);
        RoundWord(b, p, mods, c, y[k], y[j], cr[l], j, k);
        var d := y[k] as int - y[j] as int;
        y[k] := MulFast2(b, d + mods[k], cr[l], mods[k], Inverse2(b, cr[l], mods[k]));
        l := l + 1;
        k := k + 1;
      }
      j := j + 1;
    }
    forall i | 0 <= i < n
      ensures Slot(mods, c, n, i, y[i])
    {
      DigitReady(mods, c, n - 1, i, y[i]);
    }
  }

  lemma NextRow(n: nat, j: nat)
    requires j < n
    ensures Row(n, j + 1) == Row(n, j) + (n - j - 1)
  {
  }

  lemma FirstRound(b: nat, p: nat, mods: seq<nat>, c: nat, y: seq<nat>)
    requires Moduli(b, p, mods) && |y| == |mods| && forall k :: 0 <= k < |mods| ==>
      y[k] < mods[k] && Cong(mods[k], y[k], c)
    ensures forall i :: 0 <= i < |mods| ==> mods[i] > 0
    ensures forall k :: 0 <= k < |mods| ==> Slot(mods, c, 0, k, y[k])
    ensures Row(|mods|, 0) == 0
  {
    hide Cong;
  }

  /** After round j, digit j is there. */
  lemma DigitReady(mods: seq<nat>, c: nat, j: nat, k: nat, x: nat)
    requires k <= j < |mods| && (forall i :: 0 <= i < |mods| ==> mods[i] > 0) && Slot(mods, c, j, k, x)
    ensures Slot(mods, c, j + 1, k, x)
  {
    hide Cong, Div;
    if k == j {
      ResidueIs(mods[j], x, Residual(mods, c, j));
    }
  }

  lemma RoundWord(b: nat, p: nat, mods: seq<nat>, c: nat, x: nat, v: nat, i: nat, j: nat, k: nat)
    requires Moduli(b, p, mods) && j < k < |mods| && forall i :: 0 <= i < |mods| ==> mods[i] > 0
    requires Slot(mods, c, j + 1, j, v) && Slot(mods, c, j, k, x) && i < mods[k] && Cong(mods[k], mods[j] * i, 1)
    ensures 0 <= x - v + mods[k] < b
    ensures var r := MulFast2(b, x - v + mods[k], i, mods[k], Inverse2(b, i, mods[k]));
      0 <= r && Slot(mods, c, j + 1, k, r)
  {
    hide Cong, Div, MulFast2, Inverse2;
    GarnerWord(b, p, mods[j], mods[k], x, v, Residual(mods, c, j), i);
  }

  /** Nothing is left after all the digits of a number below the product. */
  lemma {:induction false} ResidualBelow(mods: seq<nat>, c: nat, j: nat)
    requires j <= |mods| && c < Product(mods) && forall i :: 0 <= i < |mods| ==> mods[i] > 0
    ensures Residual(mods, c, j) < Product(mods[j..])
    decreases j
  {
    hide Div;
    if j == 0 {
      assert mods[0..] == mods;
    } else {
      ResidualBelow(mods, c, j - 1);
      assert mods[j - 1..][1..] == mods[j..];
      var x, m := Residual(mods, c, j - 1), mods[j - 1];
      DivRest(x, m);
      QuotientBelow(x, m, Div(x, m), Product(mods[j..]));
    }
  }

  lemma QuotientBelow(x: nat, m: nat, q: nat, r: nat)
    requires 0 <= x - q * m && x < m * r
    ensures q < r
  {
    if q >= r {
      MulMono(r, q, m);
    }
  }

  lemma {:induction false} ProductBelow(b: nat, p: nat, mods: seq<nat>)
    requires Moduli(b, p, mods)
    ensures Product(mods) <= Pow(b, |mods|) && (mods != [] ==> 2 * Product(mods) <= Pow(b, |mods|))
  {
    if mods != [] {
      assert Modulus(b, p, mods[0]);
      forall j, k | 0 <= j < k < |mods[1..]|
        ensures mods[1..][j] < mods[1..][k]
      {
        assert mods[j + 1] < mods[k + 1];
      }
      ProductBelow(b, p, mods[1..]);
      MulMono(2 * mods[0], b, Product(mods[1..]));
      MulMono(Product(mods[1..]), Pow(b, |mods| - 1), b);
      Assoc(2, mods[0], Product(mods[1..]));
    }
  }

  // ---- back to limbs

  /** The last step adds the carry: u[..l] becomes u m + r + carry; the high limb is returned. */
  method AddCarry(b: nat, u: array<nat>, l: nat, m: nat, r0: nat, carry: seq<nat>) returns (r: nat)
    requires l <= u.Length && l <= |carry| && Digits(b, u[..]) && Digits(b, carry) && m < b && r0 < b
    modifies u
    ensures Digits(b, u[..]) && r < b && u[l..] == old(u[l..])
    ensures Val(b, u[..l]) + Pow(b, l) * r == old(Val(b, u[..l])) * m + r0 + Val(b, carry[..l])
  {
    hide Val, Pow;
    ghost var s := u[..];
    r := r0;
    var k := 0;
    AddStart(b, carry, 0, s, 0);
    while k < l
      invariant 0 <= k <= l && r < b && Digits(b, u[..]) && u[..][k..] == s[k..]
      invariant Val(b, u[..][..k]) + Pow(b, k) * r == Val(b, carry[0..k]) + Val(b, s[..k]) * m + r0
    {
      ghost var t, r1 := u[..], r;
      assert u[k] == s[k] by { assert u[..][k..][0] == s[k..][0]; }
      var x := AddMulLimb(b, carry[k], u[k], m, r);
      u[k], r := x.0, x.1;
      assert u[..] == t[k := x.0] && u[..][k + 1..] == t[k..][1..];
      ValPrefix(b, u[..], k);
      assert u[..][..k] == t[..k];
      MulStep(b, carry, 0, s, k, m, x.0, x.1, r1, 1);
      k := k + 1;
    }
    assert u[..][..l] == u[..l] && s[..l] == old(u[..l]) && u[..][l..] == u[l..] && carry[0..l] == carry[..l];
  }

  /** Digits y of the number c below the product of the moduli. */
  ghost predicate Mixed(mods: seq<nat>, c: nat, y: seq<nat>) {
    && |y| == |mods| >= 2 && c < Product(mods) && (forall i :: 0 <= i < |mods| ==> mods[i] > 0)
    && forall k :: 0 <= k < |mods| ==> Slot(mods, c, |mods|, k, y[k])
  }

  lemma LastDigit(mods: seq<nat>, c: nat, y: seq<nat>)
    requires Mixed(mods, c, y)
    ensures y[|y| - 1] == Residual(mods, c, |y| - 1)
  {
    hide Div, Residual;
    var n := |mods|;
    ResidualBelow(mods, c, n);
    assert mods[n..] == [];
    assert Slot(mods, c, n, n - 1, y[n - 1]);
    assert Residual(mods, c, n) * mods[n - 1] == 0;
  }

  lemma DigitIs(b: nat, p: nat, mods: seq<nat>, c: nat, y: seq<nat>, j: nat)
    requires Mixed(mods, c, y) && Moduli(b, p, mods) && j < |mods|
    ensures y[j] < b && mods[j] < b && Residual(mods, c, j) == Residual(mods, c, j + 1) * mods[j] + y[j]
      && Residual(mods, c, 0) == c
  {
    hide Div;
    assert Slot(mods, c, |mods|, j, y[j]);
    assert Modulus(b, p, mods[j]);
  }

  /** Back to the normal representation: u becomes c plus the carry. */
  method Expand(b: nat, p: nat, mods: seq<nat>, y: seq<nat>, carry: seq<nat>, u: array<nat>, ghost c: nat)
    requires Moduli(b, p, mods) && Mixed(mods, c, y) && |carry| == u.Length == |mods| && Digits(b, carry)
      && Digits(b, u[..])
    requires Val(b, carry) <= Product(mods)
    modifies u
    ensures Digits(b, u[..]) && Val(b, u[..]) == c + Val(b, carry)
  {
    hide Val, Pow, Residual, Slot, Moduli, Mixed, Product;
    var n := |mods|;
    MixedLength(mods, c, y);
    LastDigit(mods, c, y);
    DigitIs(b, p, mods, c, y, n - 1);
    u[0] := y[n - 1];
    var l, j := 1, n - 2;
    assert u[..1] == [y[n - 1]];
    ValOne(b, y[n - 1]);
    while j >= 1
      invariant 0 <= j <= n - 2 && l == n - 1 - j && Digits(b, u[..]) && Val(b, u[..l]) == Residual(mods, c, j + 1)
    {
      DigitIs(b, p, mods, c, y, j);
      var r := MpMul1(b, u, 0, u[..l], mods[j], y[j]);
      ghost var t := u[..];
      u[l] := r;
      assert u[..l + 1] == t[0..l] + [r];
      ValSnoc(b, t[0..l], r);
      l, j := l + 1, j - 1;
    }
    DigitIs(b, p, mods, c, y, 0);
    var r := AddCarry(b, u, l, mods[0], y[0], carry);
    ghost var t := u[..];
    ValTop(b, carry);
    CarryFits(b, p, mods, c, Val(b, u[..l]), r, carry[l], Val(b, carry[..l]), Val(b, carry));
    u[l] := (r + carry[l]) % b;
    assert u[..] == t[..l] + [r + carry[l]];
    ValSnoc(b, t[..l], r + carry[l]);
    Distrib(Pow(b, l), r, carry[l]);
  }

  lemma MixedLength(mods: seq<nat>, c: nat, y: seq<nat>)
    requires Mixed(mods, c, y)
    ensures |y| == |mods| >= 2 && c < Product(mods) && forall i :: 0 <= i < |mods| ==> mods[i] > 0
  {
  }

  /** The top limb does not wrap around. */
  lemma CarryFits(b: nat, p: nat, mods: seq<nat>, c: nat, low: nat, r: nat, top: nat, lowCarry: nat, carry: nat)
    requires Moduli(b, p, mods) && |mods| >= 2 && c < Product(mods) && carry <= Product(mods)
    requires low + Pow(b, |mods| - 1) * r == c + lowCarry && carry == lowCarry + Pow(b, |mods| - 1) * top
    ensures b > 0 && r + top < b && (r + top) % b == r + top
  {
    hide Pow, Product;
    ProductBelow(b, p, mods);
    PowNext(b, |mods| - 1);
    assert Modulus(b, p, mods[0]);
    var q := Pow(b, |mods| - 1);
    Distrib(q, r, top);
    if r + top >= b {
      MulMono(b, r + top, q);
    }
    DivUnique(r + top, b, 0, r + top);
  }
}

/** limb_to_ntt: a number cut into digits of dpl bits, each reduced modulo the moduli. */
module NttChunks {
  import opened Limbs
  import opened LimbUnary
  import opened RoundSpec
  import opened FloatBits
  import opened FloatRound
  import opened FloatDigits
  import opened NttPoly
  import opened NttWord
  import opened NttCrt
  import opened NttLimbs

  /** Digit i of v in base 2^dpl. */
  function Chunk(dpl: nat, v: nat, i: nat): nat {
    Rem(Quot(v, Bits(dpl, i)), dpl)
  }

  function Chunks(dpl: nat, v: nat, n: nat): (c: seq<nat>)
    ensures |c| == n && forall i :: 0 <= i < n ==> c[i] == Chunk(dpl, v, i)
  {
    seq(n, i requires 0 <= i < n => Chunk(dpl, v, i))
  }

  lemma {:induction false} ChunksValue(dpl: nat, v: nat, n: nat)
    ensures Val(Base(dpl), Chunks(dpl, v, n)) == Rem(v, Bits(dpl, n))
    decreases n
  {
    hide Two, Quot, Rem, Bits, Base, Val;
    var c := Chunks(dpl, v, n);
    if n == 0 {
      assert c == [];
      NoValue(Base(dpl));
      BitsOne(dpl);
      ZeroQuot(v, 0);
    } else {
      var d := Chunks(dpl, v, n - 1);
      ChunksValue(dpl, v, n - 1);
      assert c == d + [Chunk(dpl, v, n - 1)];
      ValSnoc(Base(dpl), d, Chunk(dpl, v, n - 1));
      BasePow(dpl, n - 1);
      BitsAdd(dpl, n - 1, 1);
      BitsOne(dpl);
      NestedQuot(v, Bits(dpl, n - 1), dpl);
    }
  }

  lemma ChunkBelow(dpl: nat, v: nat, i: nat)
    ensures Chunk(dpl, v, i) < Two(dpl)
  {
    hide Two, Quot, Bits;
  }

  /** No digits above the number. */
  lemma ChunkZero(dpl: nat, v: nat, i: nat, n: nat)
    requires v < Two(n) && n <= Bits(dpl, i)
    ensures Chunk(dpl, v, i) == 0
  {
    hide Two, Quot, Rem, Bits;
    var k := Bits(dpl, i);
    TwoAdd(n, k - n);
    MulMono(1, Two(k - n), Two(n));
    QuotSmall(v, k);
    ZeroBits(dpl, 0);
  }

  // ---- one digit

  /** The low shift bits of a limb, all of it when shift is 0: base_mask1 */
  function Masked(x: nat, shift: nat): nat {
    if shift == 0 then x else Rem(x, shift)
  }

  /** A remainder in parts. */
  lemma RemParts(x: nat, i: nat, d: nat)
    requires i <= d
    ensures Rem(x, d) == Rem(x, i) + Two(i) * Rem(Quot(x, i), d - i)
  {
    NestedQuot(x, i, d - i);
  }

  /** The digit x mod 2^dpl in two pieces, low below 2^(w - 1) and high for mod_fast; one piece when it is short. */
  ghost predicate Pieces(w: nat, x: nat, dpl: nat, high: nat, low: nat)
    requires w >= 3
  {
    && high < Two(w) * Two(w - 3)
    && if dpl <= 2 * w - 3 then high == Rem(x, dpl)
       else low < Two(w - 1) && Rem(x, dpl) == Two(w - 1) * high + low
  }

  lemma HighBound(w: nat, dpl: nat)
    requires w >= 3
    ensures Two(w) * Two(w - 3) == Two(2 * w - 3) && (dpl <= 2 * w - 3 ==> Two(dpl) <= Two(2 * w - 3))
    ensures dpl <= 3 * w - 4 ==> Two(dpl) <= Two(w - 1) * Two(2 * w - 3)
  {
    hide Two;
    TwoAdd(w, w - 3);
    assert w + (w - 3) == 2 * w - 3;
    if dpl <= 2 * w - 3 {
      TwoAdd(dpl, 2 * w - 3 - dpl);
      MulMono(1, Two(2 * w - 3 - dpl), Two(dpl));
    }
    if dpl <= 3 * w - 4 {
      TwoAdd(w - 1, 2 * w - 3);
      assert (w - 1) + (2 * w - 3) == 3 * w - 4;
      TwoAdd(dpl, 3 * w - 4 - dpl);
      MulMono(1, Two(3 * w - 4 - dpl), Two(dpl));
    }
  }

  /** At most one limb. */
  lemma ShortDigit(w: nat, x: nat, dpl: nat)
    requires w >= 3 && 0 < dpl <= w
    ensures Masked(Rem(x, w), dpl % w) == Rem(x, dpl)
  {
    hide Two, Quot, Rem;
    if dpl < w {
      DivUnique(dpl, w, 0, dpl);
      RemRem(x, w, dpl);
    } else {
      DivUnique(dpl, w, 1, 0);
    }
  }

  /** Up to two limbs. */
  lemma MiddleDigit(w: nat, x: nat, dpl: nat)
    requires w >= 3 && w < dpl <= 2 * w
    ensures Rem(x, w) + Two(w) * Masked(Rem(Quot(x, w), w), dpl % w) == Rem(x, dpl)
  {
    hide Two, Quot, Rem;
    RemParts(x, w, dpl);
    if dpl < 2 * w {
      DivUnique(dpl, w, 1, dpl - w);
      RemRem(Quot(x, w), w, dpl - w);
    } else {
      DivUnique(dpl, w, 2, 0);
    }
  }

  /** Up to three limbs. */
  lemma LongDigit(w: nat, x: nat, dpl: nat)
    requires w >= 3 && 2 * w < dpl < 3 * w
    ensures Rem(x, w) + Two(w) * Rem(Quot(x, w), w) + (Two(w) * Two(w)) * Masked(Rem(Quot(x, 2 * w), w), dpl % w)
      == Rem(x, dpl)
  {
    hide Two, Quot, Rem;
    DivUnique(dpl, w, 2, dpl - 2 * w);
    RemParts(x, w, dpl);
    var y := Quot(x, w);
    RemParts(y, w, dpl - w);
    NestedQuot(x, w, w);
    RemRem(Quot(x, 2 * w), w, dpl - 2 * w);
    Distrib(Two(w), Rem(y, w), Two(w) * Rem(Quot(y, w), dpl - 2 * w));
    Assoc(Two(w), Two(w), Rem(Quot(y, w), dpl - 2 * w));
  }

  /** The limbs a0, a1, a2 regrouped at bit w - 1. */
  lemma Regroup(w: nat, a0: nat, a1: nat, a2: nat)
    requires w >= 3
    ensures Two(w - 1) * (Quot(a0, w - 1) + 2 * a1 + Two(w + 1) * a2) + Rem(a0, w - 1)
      == a0 + Two(w) * a1 + (Two(w) * Two(w)) * a2
  {
    hide Two, Quot, Rem;
    QuotRem(a0, w - 1);
    TwoNext(w - 1);
    TwoNext(w);
    RegroupArith(Two(w - 1), Quot(a0, w - 1), a1, a2);
  }

  lemma RegroupArith(h: nat, q: nat, a1: nat, a2: nat)
    ensures h * (q + 2 * a1 + (2 * (2 * h)) * a2) == h * q + (2 * h) * a1 + ((2 * h) * (2 * h)) * a2
  {
    Distrib(h, q + 2 * a1, (2 * (2 * h)) * a2);
    Distrib(h, q, 2 * a1);
    assert h * (2 * a1) == (2 * h) * a1;
    Assoc(h, 2 * (2 * h), a2);
    assert h * (2 * (2 * h)) == (2 * h) * (2 * h);
  }

  lemma HighBelow(w: nat, x: nat, dpl: nat, high: nat, low: nat)
    requires w >= 3 && dpl <= 3 * w - 4 && Rem(x, dpl) == Two(w - 1) * high + low
    ensures high < Two(w) * Two(w - 3)
  {
    hide Two, Quot, Rem;
    QuotRem(x, dpl);
    HighBound(w, dpl);
    if high >= Two(2 * w - 3) {
      MulMono(Two(2 * w - 3), high, Two(w - 1));
    }
  }

  /** The digit at bit position pos, read with get_bits */
  method ReadDigit(w: nat, s: seq<nat>, pos: nat, dpl: nat) returns (a: nat, a0: nat)
    requires w >= 3 && Digits(Base(w), s) && 0 < dpl <= 3 * w - 4
    ensures Pieces(w, Quot(Val(Base(w), s), pos), dpl, a, a0)
  {
    hide Two, Quot, Rem, Bits, Base, Val, GetBits, Masked;
    ghost var v := Val(Base(w), s);
    ghost var x := Quot(v, pos);
    var shift := dpl % w;
    HighBound(w, dpl);
    Pick(w, s, pos, 0);
    Pick(w, s, pos, w);
    Pick(w, s, pos, 2 * w);
    ZeroQuot(x, 0);
    RemBelowTwo(x, dpl);
    a0 := GetBits(w, s, pos);
    if dpl <= w {
      ShortDigit(w, x, dpl);
      a := Masked(a0, shift);
    } else {
      var a1 := GetBits(w, s, pos + w);
      if dpl <= 2 * w - 3 {
        MiddleDigit(w, x, dpl);
        a := a0 + Two(w) * Masked(a1, shift);
      } else {
        var a2 := 0;
        if dpl > 2 * w {
          LongDigit(w, x, dpl);
          a2 := Masked(GetBits(w, s, pos + 2 * w), shift);
        } else {
          MiddleDigit(w, x, dpl);
          a1 := Masked(a1, shift);
          MulZero(Two(w) * Two(w), a2);
        }
        Regroup(w, a0, a1, a2);
        QuotRem(a0, w - 1);
        a := Quot(a0, w - 1) + 2 * a1 + Two(w + 1) * a2;
        a0 := Rem(a0, w - 1);
        HighBelow(w, x, dpl, a, a0);
      }
    }
  }

  lemma RemBelowTwo(x: nat, dpl: nat)
    ensures Rem(x, dpl) < Two(dpl)
  {
    hide Two;
  }

  lemma Pick(w: nat, s: seq<nat>, pos: nat, i: nat)
    requires w > 0 && Digits(Base(w), s)
    ensures GetBits(w, s, pos + i) == Rem(Quot(Quot(Val(Base(w), s), pos), i), w)
  {
    hide Two, Quot, Rem, Base, Val, GetBits;
    GetBitsCorrect(w, s, pos + i);
    NestedQuot(Val(Base(w), s), pos, i);
  }

  /** The residue of a digit from its pieces: mod_fast once or twice */
  method DigitResidue(w: nat, m: nat, dpl: nat, a: nat, a0: nat, ghost x: nat) returns (r: nat)
    requires w >= 3 && Modulus(Base(w), Two(w - 3), m) && Pieces(w, x, dpl, a, a0)
    ensures r < m && Cong(m, r, Rem(x, dpl))
  {
    hide Two, Quot, Rem, Base, Cong, ModFast, InverseMod;
    var b, p := Base(w), Two(w - 3);
    BaseIs(w);
    var mInv := InverseMod(b, p, m);
    ModFastCorrect(b, p, a, m);
    r := ModFast(b, p, a, m, mInv);
    if dpl > 2 * w - 3 {
      var h := Two(w - 1);
      SecondFits(w, m, r, a0);
      MulMono(0, r, h);
      var y: nat := r * h + a0;
      ModFastCorrect(b, p, y, m);
      SecondCong(m, a, r, h, a0, ModFast(b, p, y, m, mInv));
      r := ModFast(b, p, y, m, mInv);
    }
  }

  lemma SecondCong(m: nat, a: int, r: int, h: int, a0: int, z: int)
    requires Cong(m, r, a) && Cong(m, z, r * h + a0)
    ensures Cong(m, z, h * a + a0)
  {
    hide Cong;
    CongSelf(m, h);
    CongMul(m, r, h, a, h);
    CongSelf(m, a0);
    CongAdd(m, r * h, a0, a * h, a0);
    assert a * h == h * a;
    CongTrans(m, z, r * h + a0, h * a + a0);
  }

  lemma SecondFits(w: nat, m: nat, r: nat, a0: nat)
    requires w >= 3 && Modulus(Base(w), Two(w - 3), m) && r < m && a0 < Two(w - 1)
    ensures r * Two(w - 1) + a0 < Base(w) * Two(w - 3)
  {
    hide Two;
    var p, h := Two(w - 3), Two(w - 1);
    BaseIs(w);
    TwoNext(w - 1);
    TwoNext(w - 2);
    TwoNext(w - 3);
    ProductFits(p, h, r, a0);
  }

  lemma ProductFits(p: nat, h: nat, r: nat, a0: nat)
    requires r < 2 * p && a0 < h
    ensures r * h + a0 < (2 * h) * p
  {
    MulMono(r + 1, 2 * p, h);
    Distrib(h, r, 1);
    assert (2 * p) * h == (2 * h) * p;
  }

  // ---- limb_to_ntt

  /** The first i entries of a row are residues of c, the others zero. */
  ghost predicate RowUpTo(m: nat, c: seq<nat>, row: seq<nat>, i: nat) {
    && |row| == |c|
    && (forall k :: 0 <= k < i && k < |c| ==> row[k] < m && Cong(m, row[k], c[k]))
    && (forall k :: i <= k < |c| ==> row[k] == 0)
  }

  lemma RowSet(m: nat, c: seq<nat>, row: seq<nat>, i: nat, r: nat)
    requires RowUpTo(m, c, row, i) && i < |c| && r < m && Cong(m, r, c[i])
    ensures RowUpTo(m, c, row[i := r], i + 1)
  {
    hide Cong;
  }

  /** limb_to_ntt */
  method LimbToNtt(w: nat, mods: seq<nat>, s: seq<nat>, n: nat, dpl: nat) returns (rows: seq<seq<nat>>)
    requires w >= 3 && Moduli(Base(w), Two(w - 3), mods) && Digits(Base(w), s) && 0 < dpl <= 3 * w - 4
    ensures ResiduesOf(mods, Chunks(dpl, Val(Base(w), s), n), rows)
  {
    hide Two, Quot, Rem, Bits, Base, Val, Cong, Pieces, RowUpTo, Chunk;
    ghost var v := Val(Base(w), s);
    ghost var c := Chunks(dpl, v, n);
    var zeros: seq<nat> := seq(n, _ => 0);
    rows := seq(|mods|, _ => zeros);
    var len := (Bits(w, |s|) + dpl - 1) / dpl;
    LimbsCovered(w, |s|, dpl);
    var end := if n < len then n else len;
    var i := 0;
    EmptyRows(mods, c, rows);
    while i < end
      invariant 0 <= i <= end && |rows| == |mods| && forall j :: 0 <= j < |mods| ==> RowUpTo(mods[j], c, rows[j], i)
    {
      var a, a0 := ReadDigit(w, s, Bits(dpl, i), dpl);
      ChunkIs(dpl, v, i);
      var j := 0;
      while j < |mods|
        invariant 0 <= j <= |mods| && |rows| == |mods|
        invariant forall k :: 0 <= k < j ==> RowUpTo(mods[k], c, rows[k], i + 1)
        invariant forall k :: j <= k < |mods| ==> RowUpTo(mods[k], c, rows[k], i)
      {
        assert Modulus(Base(w), Two(w - 3), mods[j]);
        var r := DigitResidue(w, mods[j], dpl, a, a0, Quot(v, Bits(dpl, i)));
        RowSet(mods[j], c, rows[j], i, r);
        RowLength(mods[j], c, rows[j], i);
        var row: seq<nat> := rows[j];
        rows := rows[j := row[i := r]];
        j := j + 1;
      }
      i := i + 1;
    }
    forall j | 0 <= j < |mods|
      ensures |rows[j]| == |c| && IsRow(mods[j], c, rows[j])
    {
      assert Modulus(Base(w), Two(w - 3), mods[j]);
      RowComplete(w, s, dpl, mods[j], rows[j], end, n);
    }
  }

  lemma ChunkIs(dpl: nat, v: nat, i: nat)
    ensures Chunk(dpl, v, i) == Rem(Quot(v, Bits(dpl, i)), dpl)
  {
  }

  lemma RowLength(m: nat, c: seq<nat>, row: seq<nat>, i: nat)
    requires RowUpTo(m, c, row, i)
    ensures |row| == |c|
  {
  }

  lemma EmptyRows(mods: seq<nat>, c: seq<nat>, rows: seq<seq<nat>>)
    requires |rows| == |mods| && forall j :: 0 <= j < |rows| ==> |rows[j]| == |c| && forall k :: 0 <= k < |c| ==>
      rows[j][k] == 0
    ensures forall j :: 0 <= j < |mods| ==> RowUpTo(mods[j], c, rows[j], 0)
  {
  }

  /** The digits that are not read are zero. */
  lemma RowComplete(w: nat, s: seq<nat>, dpl: nat, m: nat, row: seq<nat>, end: nat, n: nat)
    requires Digits(Base(w), s) && m > 0 && end <= n && (end < n ==> Bits(dpl, end) >= Bits(w, |s|))
    requires RowUpTo(m, Chunks(dpl, Val(Base(w), s), n), row, end)
    ensures |row| == n && IsRow(m, Chunks(dpl, Val(Base(w), s), n), row)
  {
    hide Two, Quot, Rem, Bits, Base, Val, Cong, Chunk;
    var v := Val(Base(w), s);
    forall i | 0 <= i < n
      ensures row[i] < 2 * m && Cong(m, row[i], Chunks(dpl, v, n)[i])
    {
      if i >= end {
        ValBound(Base(w), s);
        BasePow(w, |s|);
        TwoPosition(dpl, i, end, 0);
        ChunkZero(dpl, v, i, Bits(w, |s|));
        CongSelf(m, 0);
      }
    }
  }
}

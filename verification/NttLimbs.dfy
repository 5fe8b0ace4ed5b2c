/** ntt_to_limb: coefficients recovered from their residues, carried and written as the bits of a number. */
module NttLimbs {
  import opened Limbs
  import opened LimbKernels
  import opened LimbUnary
  import opened RoundSpec
  import opened FloatBits
  import opened FloatRound
  import opened FloatDigits
  import opened BitLogic
  import opened NttPoly
  import opened NttWord
  import opened NttCrt

  // ---- remainders modulo 2^k

  lemma RemOf(x: nat, k: nat, y: nat, q: nat)
    requires x == y + Two(k) * q && y < Two(k)
    ensures Rem(x, k) == y
  {
    QuotIs(x, k, q, y);
  }

  lemma RemAdd(x: nat, y: nat, k: nat)
    ensures Rem(Rem(x, k) + y, k) == Rem(x + y, k) && Rem(x, k) <= x
  {
    hide Two, Quot, Rem;
    QuotRem(x, k);
    QuotRem(Rem(x, k) + y, k);
    var q, q' := Quot(x, k), Quot(Rem(x, k) + y, k);
    Distrib(Two(k), q, q');
    MulMono(0, q, Two(k));
    RemOf(x + y, k, Rem(Rem(x, k) + y, k), q + q');
  }

  /** Multiples of a higher power disappear. */
  lemma RemHigh(x: nat, y: nat, j: nat, k: nat)
    requires k <= j
    ensures Rem(x + Two(j) * y, k) == Rem(x, k)
  {
    hide Two, Quot, Rem;
    QuotRem(x, k);
    TwoAdd(k, j - k);
    Assoc(Two(k), Two(j - k), y);
    Distrib(Two(k), Quot(x, k), Two(j - k) * y);
    RemOf(x + Two(j) * y, k, Rem(x, k), Quot(x, k) + Two(j - k) * y);
  }

  lemma RemRem(x: nat, j: nat, k: nat)
    requires k <= j
    ensures Rem(Rem(x, j), k) == Rem(x, k)
  {
    hide Two, Quot, Rem;
    QuotRem(x, j);
    RemHigh(Rem(x, j), Quot(x, j), j, k);
  }

  // ---- put_bits

  /** A number below 2^(w i + p) has nothing above bit p of limb i. */
  lemma NothingAbove(w: nat, s: seq<nat>, i: nat, p: nat)
    requires w > 0 && Digits(Base(w), s) && i < |s| && p < w && Val(Base(w), s) < Two(Bits(w, i) + p)
    ensures s[i] < Two(p) && (i + 1 < |s| ==> s[i + 1] == 0)
  {
    hide Two, Bits, Quot, Rem, Val, Base;
    var t := s[i + 1..];
    QuotSmall(Val(Base(w), s), Bits(w, i) + p);
    CutAt(w, s, i, p);
    if Val(Base(w), t) > 0 {
      MulPositive(Two(w - p), Val(Base(w), t));
    }
    QuotRem(s[i], p);
    MulZero(Two(p), 0);
    ValZeroOnly(Base(w), t);
    if i + 1 < |s| {
      assert t[0] == s[i + 1];
    }
  }

  /** v shifted up by p bits, cut at the limb. */
  lemma ShiftedLimb(w: nat, v: nat, p: nat)
    requires p <= w && v < Two(w)
    ensures Two(p) * v == Two(w) * Quot(v, w - p) + Two(p) * Rem(v, w - p) && Two(p) * Rem(v, w - p) < Two(w)
    ensures Quot(v, w - p) < Two(p)
  {
    hide Two, Quot, Rem;
    QuotRem(v, w - p);
    TwoAdd(p, w - p);
    Distrib(Two(p), Two(w - p) * Quot(v, w - p), Rem(v, w - p));
    Assoc(Two(p), Two(w - p), Quot(v, w - p));
    MulStrict(Rem(v, w - p), Two(w - p), Two(p));
    QuotBelow(v, w - p, p);
  }

  /** The low limb of v << p. */
  function ShiftUp(w: nat, v: nat, p: nat): nat
    requires p <= w
  {
    Two(p) * Rem(v, w - p)
  }

  /** put_bits: v is ored in at bit position pos; what falls outside the array is lost */
  method PutBits(w: nat, tab: array<nat>, pos: nat, v: nat)
    requires w > 0 && Digits(Base(w), tab[..]) && v < Base(w) && Val(Base(w), tab[..]) < Two(pos)
    modifies tab
    ensures Digits(Base(w), tab[..])
      && Val(Base(w), tab[..]) == Rem(old(Val(Base(w), tab[..])) + Two(pos) * v, Bits(w, tab.Length))
  {
    hide Two, Bits, Quot, Rem, Val, Base, LimbOp, ShiftUp;
    ghost var s := tab[..];
    var i, p := pos / w, pos % w;
    PositionOf(w, pos);
    if i < tab.Length {
      tab[i] := LimbOp(OR, tab[i], ShiftUp(w, v, p));
      assert tab[..] == s[i := tab[i]];
    }
    ghost var s1 := tab[..];
    if p != 0 {
      i := i + 1;
      if i < tab.Length {
        tab[i] := LimbOp(OR, tab[i], Quot(v, w - p));
        assert tab[..] == s1[i := tab[i]];
      }
    }
    PutDone(w, s, pos / w, p, v);
    assert tab[..] == Put(w, s, pos / w, p, v);
  }

  /** The array after put_bits at bit p of limb i. */
  function Put(w: nat, s: seq<nat>, i: nat, p: nat, v: nat): (t: seq<nat>)
    requires p <= w
    ensures |t| == |s|
  {
    var s1 := if i < |s| then s[i := LimbOp(OR, s[i], ShiftUp(w, v, p))] else s;
    if p != 0 && i + 1 < |s| then s1[i + 1 := LimbOp(OR, s1[i + 1], Quot(v, w - p))] else s1
  }

  lemma PutDone(w: nat, s: seq<nat>, i: nat, p: nat, v: nat)
    requires w > 0 && Digits(Base(w), s) && v < Base(w) && p < w && Val(Base(w), s) < Two(Bits(w, i) + p)
    ensures Digits(Base(w), Put(w, s, i, p, v))
    ensures Val(Base(w), Put(w, s, i, p, v)) == Rem(Val(Base(w), s) + Two(Bits(w, i) + p) * v, Bits(w, |s|))
  {
    hide Two, Bits, Quot, Rem, Val, Base, LimbOp, Put;
    var b, n := Base(w), |s|;
    var t, q := Put(w, s, i, p, v), Quot(v, w - p);
    BaseIs(w);
    ShiftedLimb(w, v, p);
    BasePow(w, n);
    if i >= n {
      PutNothing(w, s, i, p, v);
      ValBound(b, s);
      TwoPosition(w, i, n, p);
      RemHigh(Val(b, s), v, Bits(w, i) + p, Bits(w, n));
      QuotSmall(Val(b, s), Bits(w, n));
    } else {
      PutValue(w, s, i, p, v);
      ValBound(b, t);
      TwoPlace(w, i, p);
      PutArith(Two(Bits(w, i)), Two(p), Two(w), Two(Bits(w, i) + p), Two(Bits(w, i + 1)), v, q, ShiftUp(w, v, p));
      RemOf(Val(b, s) + Two(Bits(w, i) + p) * v, Bits(w, n), Val(b, t), if i + 1 < n then 0 else q) by {
        if i + 1 < n {
          MulZero(Two(Bits(w, n)), 0);
        }
      }
    }
  }

  lemma PutNothing(w: nat, s: seq<nat>, i: nat, p: nat, v: nat)
    requires p <= w && i >= |s|
    ensures Put(w, s, i, p, v) == s
  {
  }

  lemma TwoPosition(w: nat, i: nat, n: nat, p: nat)
    requires i >= n
    ensures Bits(w, i) + p >= Bits(w, n)
  {
    MulMono(n, i, w);
  }

  lemma TwoPlace(w: nat, i: nat, p: nat)
    ensures Two(Bits(w, i) + p) == Two(Bits(w, i)) * Two(p) && Two(Bits(w, i + 1)) == Two(Bits(w, i)) * Two(w)
    ensures Pow(Base(w), i) == Two(Bits(w, i)) && Pow(Base(w), i + 1) == Two(Bits(w, i + 1))
  {
    hide Two, Bits, Pow;
    TwoAdd(Bits(w, i), p);
    TwoAdd(Bits(w, i), w);
    BitsAdd(w, i, 1);
    BitsOne(w);
    BasePow(w, i);
    BasePow(w, i + 1);
  }

  lemma PutArith(z: nat, p: nat, b: nat, zp: nat, zb: nat, v: nat, q: nat, x: nat)
    requires zp == z * p && zb == z * b && p * v == b * q + x
    ensures zp * v == z * x + zb * q
  {
    Assoc(z, p, v);
    Distrib(z, b * q, x);
    Assoc(z, b, q);
  }

  lemma PutValue(w: nat, s: seq<nat>, i: nat, p: nat, v: nat)
    requires w > 0 && Digits(Base(w), s) && v < Base(w) && p < w && i < |s| && Val(Base(w), s) < Two(Bits(w, i) + p)
    ensures Digits(Base(w), Put(w, s, i, p, v))
    ensures Val(Base(w), Put(w, s, i, p, v))
         == Val(Base(w), s) + Two(Bits(w, i)) * ShiftUp(w, v, p)
         + (if i + 1 < |s| then Two(Bits(w, i + 1)) * Quot(v, w - p) else 0)
  {
    hide *;
    var x, q := ShiftUp(w, v, p), Quot(v, w - p);
    PutWords(w, s, i, p, v);
    TwoPlace(w, i, p);
    BaseIs(w);
    PutTwo(Base(w), s, i, s[i] + x, q);
  }

  /** The words written, without the or. */
  lemma PutWords(w: nat, s: seq<nat>, i: nat, p: nat, v: nat)
    requires w > 0 && Digits(Base(w), s) && v < Base(w) && p < w && i < |s| && Val(Base(w), s) < Two(Bits(w, i) + p)
    ensures var x := s[i] + ShiftUp(w, v, p); var q := Quot(v, w - p);
      && x < Base(w) && q < Base(w) && (i + 1 < |s| ==> s[i + 1] == 0)
      && Put(w, s, i, p, v) == if i + 1 < |s| then s[i := x][i + 1 := q] else s[i := x]
  {
    hide *;
    BaseIs(w);
    NothingAbove(w, s, i, p);
    LowWord(w, s[i], v, p);
    HighWord(w, v, p);
    PutIs(w, s, i, p, v, s[i] + ShiftUp(w, v, p), Quot(v, w - p));
  }

  lemma LowWord(w: nat, x: nat, v: nat, p: nat)
    requires p <= w && x < Two(p)
    ensures LimbOp(OR, x, ShiftUp(w, v, p)) == x + ShiftUp(w, v, p) < Two(w)
  {
    hide *;
    ShiftUpIs(w, v, p);
    OrDisjoint(x, Rem(v, w - p), p);
    QuotRem(v, w - p);
    LimbSum(w, p, x, Rem(v, w - p));
  }

  lemma ShiftUpIs(w: nat, v: nat, p: nat)
    requires p <= w
    ensures ShiftUp(w, v, p) == Two(p) * Rem(v, w - p)
  {
    hide Two, Rem;
  }

  lemma HighWord(w: nat, v: nat, p: nat)
    requires p <= w && v < Two(w)
    ensures Quot(v, w - p) < Two(w) && LimbOp(OR, 0, Quot(v, w - p)) == Quot(v, w - p)
    ensures p == 0 ==> Quot(v, w - p) == 0
  {
    hide *;
    OrZero(Quot(v, w - p));
    QuotAtMost(w, v, p);
    if p == 0 {
      QuotSmall(v, w);
    }
  }

  lemma PutIs(w: nat, s: seq<nat>, i: nat, p: nat, v: nat, x: nat, q: nat)
    requires p < w && i < |s| && LimbOp(OR, s[i], ShiftUp(w, v, p)) == x && Quot(v, w - p) == q
    requires i + 1 < |s| ==> s[i + 1] == 0 && LimbOp(OR, 0, q) == q && (p == 0 ==> q == 0)
    ensures Put(w, s, i, p, v) == if i + 1 < |s| then s[i := x][i + 1 := q] else s[i := x]
  {
    hide Quot, LimbOp, ShiftUp;
  }

  lemma PutTwo(b: nat, s: seq<nat>, i: nat, x: nat, q: nat)
    requires Digits(b, s) && i < |s| && x < b && q < b && (i + 1 < |s| ==> s[i + 1] == 0)
    ensures var t := if i + 1 < |s| then s[i := x][i + 1 := q] else s[i := x];
      Digits(b, t) && Val(b, t) == Val(b, s) + Pow(b, i) * (x - s[i]) + if i + 1 < |s| then Pow(b, i + 1) * q else 0
  {
    hide Val, Pow;
    SetDigit(b, s, i, x);
    if i + 1 < |s| {
      SetDigit(b, s[i := x], i + 1, q);
    }
  }

  lemma QuotAtMost(w: nat, v: nat, p: nat)
    requires p <= w && v < Two(w)
    ensures Quot(v, w - p) < Two(w)
  {
    hide Two, Quot, Rem;
    QuotRem(v, w - p);
    MulMono(1, Two(w - p), Quot(v, w - p));
  }

  lemma LimbSum(w: nat, p: nat, x: nat, r: nat)
    requires p <= w && x < Two(p) && r < Two(w - p)
    ensures x + Two(p) * r < Two(w)
  {
    hide Two;
    TwoAdd(p, w - p);
    BelowSum(Two(p), Two(w - p), Two(w), x, r);
  }

  // ---- one coefficient

  /** (dpl - 1) / w, and the bits of the last limb that belong to the digit */
  lemma DigitSize(w: nat, dpl: nat)
    requires w > 0 && dpl > 0
    ensures var n1 := (dpl - 1) / w; var j := if dpl % w == 0 then w else dpl % w;
      n1 >= 0 && dpl == Bits(w, n1) + j && 0 < j <= w && (dpl % w == 0 ==> Bits(w, n1 + 1) == dpl)
  {
    var q, r := dpl / w, dpl % w;
    assert dpl == q * w + r;
    if r == 0 {
      Distrib(w, q, 1);
      DivUnique(dpl - 1, w, q - 1, w - 1);
      if q - 1 < 0 {
        MulMono(q, 0, w);
      }
    } else {
      DivUnique(dpl - 1, w, q, r - 1);
      if q < 0 {
        MulMono(q, -1, w);
      }
    }
  }

  /** The dpl low bits of u are written at pos. */
  method WriteDigit(w: nat, tab: array<nat>, pos0: nat, u: seq<nat>, dpl: nat)
    requires w > 0 && 0 < dpl <= Bits(w, |u|) && Digits(Base(w), u) && Digits(Base(w), tab[..])
      && Val(Base(w), tab[..]) < Two(pos0)
    modifies tab
    ensures Digits(Base(w), tab[..])
    ensures Val(Base(w), tab[..])
      == Rem(old(Val(Base(w), tab[..])) + Two(pos0) * Rem(Val(Base(w), u), dpl), Bits(w, tab.Length))
  {
    hide Two, Bits, Quot, Rem, Val, Base;
    var shift, n1 := dpl % w, (dpl - 1) / w;
    DigitSize(w, dpl);
    DigitInside(w, |u|, n1, dpl);
    ghost var v, n := Val(Base(w), tab[..]), Bits(w, tab.Length);
    var pos, j := pos0, 0;
    WriteStart(w, tab[..], u, pos0);
    while j < n1
      invariant 0 <= j <= n1 && pos == pos0 + Bits(w, j) && Digits(Base(w), tab[..])
      invariant Val(Base(w), tab[..]) == Rem(v + Two(pos0) * Val(Base(w), u[..j]), n)
    {
      WriteRoom(w, v, pos0, u, j, n);
      PutBits(w, tab, pos, u[j]);
      WriteNext(w, v, pos0, u, j, n);
      pos := pos + w;
      j := j + 1;
    }
    var last := if shift == 0 then u[n1] else Rem(u[n1], shift);
    WriteRoom(w, v, pos0, u, n1, n);
    WriteLast(w, v, pos0, u, n1, dpl, n, last);
    PutBits(w, tab, pos, last);
  }

  lemma DigitInside(w: nat, l: nat, n1: nat, dpl: nat)
    requires Bits(w, n1) < dpl <= Bits(w, l)
    ensures n1 < l
  {
    if n1 >= l {
      MulMono(l, n1, w);
    }
  }

  lemma WriteStart(w: nat, s: seq<nat>, u: seq<nat>, pos0: nat)
    requires Digits(Base(w), s)
    ensures Bits(w, 0) == 0 && Val(Base(w), s) == Rem(Val(Base(w), s) + Two(pos0) * Val(Base(w), u[..0]), Bits(w, |s|))
  {
    hide Two, Rem, Val, Base, Quot;
    NoValue(Base(w));
    MulZero(Two(pos0), 0);
    ValBound(Base(w), s);
    BasePow(w, |s|);
    QuotSmall(Val(Base(w), s), Bits(w, |s|));
  }

  /** What has been written is below the position. */
  lemma WriteRoom(w: nat, v: nat, pos0: nat, u: seq<nat>, j: nat, n: nat)
    requires v < Two(pos0) && j <= |u| && Digits(Base(w), u)
    ensures Rem(v + Two(pos0) * Val(Base(w), u[..j]), n) < Two(pos0 + Bits(w, j))
  {
    hide Two, Bits, Rem, Val, Base;
    var x := v + Two(pos0) * Val(Base(w), u[..j]);
    ValBound(Base(w), u[..j]);
    BasePow(w, j);
    TwoAdd(pos0, Bits(w, j));
    BelowSum(Two(pos0), Two(Bits(w, j)), Two(pos0 + Bits(w, j)), v, Val(Base(w), u[..j]));
    RemAdd(x, 0, n);
  }

  lemma WriteNext(w: nat, v: nat, pos0: nat, u: seq<nat>, j: nat, n: nat)
    requires j < |u|
    ensures Rem(Rem(v + Two(pos0) * Val(Base(w), u[..j]), n) + Two(pos0 + Bits(w, j)) * u[j],
      n) == Rem(v + Two(pos0) * Val(Base(w), u[..j + 1]), n)
    ensures Bits(w, j + 1) == Bits(w, j) + w
  {
    hide Two, Bits, Rem, Val, Base;
    RemAdd(v + Two(pos0) * Val(Base(w), u[..j]), Two(pos0 + Bits(w, j)) * u[j], n);
    ValPrefix(Base(w), u, j);
    BasePow(w, j);
    PlaceArith(pos0, Bits(w, j), Val(Base(w), u[..j]), u[j]);
    BitsAdd(w, j, 1);
    BitsOne(w);
  }

  lemma PlaceArith(p: nat, q: nat, x: nat, y: nat)
    ensures Two(p) * x + Two(p + q) * y == Two(p) * (x + Two(q) * y)
  {
    hide Two;
    TwoAdd(p, q);
    Distrib(Two(p), x, Two(q) * y);
    Assoc(Two(p), Two(q), y);
  }

  lemma WriteLast(w: nat, v: nat, pos0: nat, u: seq<nat>, n1: nat, dpl: nat, n: nat, last: nat)
    requires w > 0 && n1 < |u| && Digits(Base(w), u) && dpl == Bits(w, n1) + (if dpl % w == 0 then w else dpl % w)
    requires last == if dpl % w == 0 then u[n1] else Rem(u[n1], dpl % w)
    ensures last < Base(w)
    ensures Rem(Rem(v + Two(pos0) * Val(Base(w), u[..n1]), n) + Two(pos0 + Bits(w, n1)) * last,
      n) == Rem(v + Two(pos0) * Rem(Val(Base(w), u), dpl), n)
  {
    hide Two, Bits, Rem, Quot, Val, Base;
    var j := if dpl % w == 0 then w else dpl % w;
    BaseIs(w);
    CutAt(w, u, n1, j);
    QuotRem(u[n1], j);
    if dpl % w == 0 {
      QuotSmall(u[n1], w);
    }
    MulMono(0, Quot(u[n1], j), Two(j));
    RemAdd(v + Two(pos0) * Val(Base(w), u[..n1]), Two(pos0 + Bits(w, n1)) * last, n);
    PlaceArith(pos0, Bits(w, n1), Val(Base(w), u[..n1]), last);
  }

  // ---- the carry to the next coefficient

  /** u shifted down by less than a limb. */
  function ShiftedDown(w: nat, u: seq<nat>, shift: nat): (t: seq<nat>)
    requires shift <= w
    ensures |t| == |u|
  {
    seq(|u|, j requires 0 <= j < |u| => DownLimb(w, u, shift, j))
  }

  function DownLimb(w: nat, u: seq<nat>, shift: nat, j: nat): nat
    requires shift <= w && j < |u|
  {
    Quot(u[j], shift) + if j + 1 < |u| then Two(w - shift) * Rem(u[j + 1], shift) else 0
  }

  lemma {:induction false} ShiftedDownValue(w: nat, u: seq<nat>, shift: nat)
    requires shift <= w && u != []
    ensures Val(Base(w), ShiftedDown(w, u, shift)) == Quot(u[0], shift) + Two(w - shift) * Val(Base(w), u[1..])
  {
    hide Two, Rem, Quot, Val, Base;
    var t, b := ShiftedDown(w, u, shift), Base(w);
    ValCons(b, t);
    if |u| == 1 {
      assert t[1..] == [] && u[1..] == [];
      NoValue(b);
      MulZero(b, 0);
      MulZero(Two(w - shift), 0);
    } else {
      var v := u[1..];
      assert t[1..] == ShiftedDown(w, v, shift);
      ShiftedDownValue(w, v, shift);
      ValCons(b, v);
      QuotRem(v[0], shift);
      BaseIs(w);
      TwoAdd(w - shift, shift);
      DownArith(Two(w - shift), Two(shift), b, Quot(v[0], shift), Rem(v[0], shift), v[0], Val(b, v[1..]), Val(b, v));
    }
  }

  lemma DownArith(e: nat, p: nat, b: nat, q: nat, r: nat, x: nat, y: nat, v: nat)
    requires x == p * q + r && b == e * p && v == x + b * y
    ensures e * r + b * (q + e * y) == e * v
  {
    InsideArith(e, p, b, q, r, x, y, v);
  }

  lemma DownBelow(w: nat, u: seq<nat>, shift: nat, j: nat)
    requires shift <= w && j < |u| && Digits(Base(w), u)
    ensures DownLimb(w, u, shift, j) < Base(w)
  {
    hide Two, Rem, Quot;
    BaseIs(w);
    QuotBelow(u[j], shift, w - shift);
    TwoAdd(w - shift, shift);
    var r := if j + 1 < |u| then Rem(u[j + 1], shift) else 0;
    if j + 1 < |u| {
      QuotRem(u[j + 1], shift);
    }
    BelowSum(Two(w - shift), Two(shift), Two(w), Quot(u[j], shift), r);
    MulZero(Two(w - shift), 0);
  }

  /** The whole limbs of a digit. */
  function Whole(w: nat, dpl: nat): nat
    requires w > 0 && dpl > 0
  {
    DigitSize(w, dpl);
    if dpl % w == 0 then (dpl - 1) / w + 1 else (dpl - 1) / w
  }

  /** shift by dpl digits and set the carry */
  method NextCarry(w: nat, u: seq<nat>, carry: array<nat>, dpl: nat)
    requires w > 0 && 0 < dpl <= Bits(w, |u|) && Digits(Base(w), u) && carry.Length == |u|
    requires Digits(Base(w), carry[..]) && forall k :: 0 <= k < |u| && k + Whole(w, dpl) >= |u| ==> carry[k] == 0
    modifies carry
    ensures Digits(Base(w), carry[..]) && forall k :: 0 <= k < |u| && k + Whole(w, dpl) >= |u| ==> carry[k] == 0
    ensures Val(Base(w), carry[..]) == Quot(Val(Base(w), u), dpl)
  {
    hide Two, Bits, Quot, Rem, Val, Base;
    var n, shift, n1 := |u|, dpl % w, (dpl - 1) / w;
    DigitSize(w, dpl);
    DigitInside(w, n, n1, dpl);
    if shift == 0 {
      var j := n1 + 1;
      while j < n
        invariant n1 + 1 <= j <= n && Digits(Base(w), carry[..])
          && (forall k :: 0 <= k < n && k + n1 + 1 >= n ==> carry[k] == 0)
        invariant forall k :: n1 + 1 <= k < j ==> carry[k - (n1 + 1)] == u[k]
      {
        carry[j - (n1 + 1)] := u[j];
        j := j + 1;
      }
      CarryWhole(w, u, carry[..], n1, dpl);
    } else {
      var j := n1;
      while j < n - 1
        invariant n1 <= j <= n - 1 && Digits(Base(w), carry[..])
          && (forall k :: 0 <= k < n && k + n1 >= n ==> carry[k] == 0)
        invariant forall k :: n1 <= k < j ==> carry[k - n1] == DownLimb(w, u, shift, k)
      {
        DownBelow(w, u, shift, j);
        carry[j - n1] := Quot(u[j], shift) + Two(w - shift) * Rem(u[j + 1], shift);
        j := j + 1;
      }
      DownBelow(w, u, shift, n - 1);
      carry[n - 1 - n1] := Quot(u[n - 1], shift);
      CarryShifted(w, u, carry[..], n1, dpl, shift);
    }
  }

  lemma ZeroTail(b: nat, s: seq<nat>, k: nat)
    requires k <= |s| && forall i :: k <= i < |s| ==> s[i] == 0
    ensures Val(b, s) == Val(b, s[..k])
  {
    ValSplit(b, s, k);
    ValZeros(b, s[k..]);
    MulZero(Pow(b, k), 0);
  }

  lemma CarryWhole(w: nat, u: seq<nat>, s: seq<nat>, n1: nat, dpl: nat)
    requires w > 0 && n1 < |u| == |s| && dpl == Bits(w, n1) + w && Digits(Base(w), u)
    requires forall k :: 0 <= k < |s| && k + n1 + 1 >= |s| ==> s[k] == 0
    requires forall k :: n1 + 1 <= k < |u| ==> s[k - (n1 + 1)] == u[k]
    ensures Val(Base(w), s) == Quot(Val(Base(w), u), dpl)
  {
    hide Two, Bits, Quot, Rem, Val, Base;
    var n := |u|;
    ZeroTail(Base(w), s, n - n1 - 1);
    assert s[..n - n1 - 1] == u[n1 + 1..] by {
      assert forall k :: 0 <= k < n - n1 - 1 ==> s[k] == u[k + (n1 + 1)];
    }
    CutAt(w, u, n1, w);
    BaseIs(w);
    QuotSmall(u[n1], w);
    TwoZero();
    OneTimes(Val(Base(w), u[n1 + 1..]));
  }

  lemma CarryShifted(w: nat, u: seq<nat>, s: seq<nat>, n1: nat, dpl: nat, shift: nat)
    requires w > 0 && n1 < |u| == |s| && dpl == Bits(w, n1) + shift && 0 < shift <= w && Digits(Base(w), u)
    requires forall k :: 0 <= k < |s| && k + n1 >= |s| ==> s[k] == 0
    requires forall k :: n1 <= k < |u| ==> s[k - n1] == DownLimb(w, u, shift, k)
    ensures Val(Base(w), s) == Quot(Val(Base(w), u), dpl)
  {
    hide Two, Bits, Quot, Rem, Val, Base;
    var n, v := |u|, u[n1..];
    ZeroTail(Base(w), s, n - n1);
    assert s[..n - n1] == ShiftedDown(w, v, shift) by {
      forall k | 0 <= k < n - n1
        ensures s[k] == DownLimb(w, v, shift, k)
      {
        assert s[(k + n1) - n1] == DownLimb(w, u, shift, k + n1);
      }
    }
    ShiftedDownValue(w, v, shift);
    CutAt(w, u, n1, shift);
    assert v[1..] == u[n1 + 1..];
  }

  // ---- all the coefficients

  /** One row for each modulus, with the residues of the coefficients c, not fully reduced. */
  ghost predicate ResiduesOf(mods: seq<nat>, c: seq<nat>, rows: seq<seq<nat>>) {
    && |rows| == |mods|
    && forall j :: 0 <= j < |rows| ==> |rows[j]| == |c| && IsRow(mods[j], c, rows[j])
  }

  ghost predicate IsRow(m: nat, c: seq<nat>, row: seq<nat>)
    requires |row| == |c|
  {
    forall i :: 0 <= i < |c| ==> row[i] < 2 * m && Cong(m, row[i], c[i])
  }

  /** Column i of the rows, reduced: ntt_limb_to_int */
  method ReadColumn(mods: seq<nat>, rows: seq<seq<nat>>, i: nat, y: array<nat>, ghost c: seq<nat>)
    requires ResiduesOf(mods, c, rows) && i < |c| && y.Length == |mods|
    modifies y
    ensures forall k :: 0 <= k < |mods| ==> y[k] < mods[k] && Cong(mods[k], y[k], c[i])
  {
    hide Cong;
    var j := 0;
    while j < |mods|
      invariant 0 <= j <= |mods| && forall k :: 0 <= k < j ==> y[k] < mods[k] && Cong(mods[k], y[k], c[i])
    {
      var x := rows[j][i];
      assert IsRow(mods[j], c, rows[j]);
      Reduced(mods[j], x, c[i]);
      y[j] := if x >= mods[j] then x - mods[j] else x;
      j := j + 1;
    }
  }

  /** The carry of a digit stays below the product of the moduli. */
  lemma CarryBelow(t: nat, c: nat, carry: nat, dpl: nat, m: nat)
    requires t == c + carry && c < m && carry <= m && dpl > 0
    ensures Quot(t, dpl) <= m
  {
    hide Two, Quot, Rem;
    QuotRem(t, dpl);
    TwoNext(dpl - 1);
    TwoPos(dpl - 1);
    MulMono(2, Two(dpl), Quot(t, dpl));
  }

  /** What is written, and the carry above it, after i coefficients. */
  ghost predicate Written(w: nat, dpl: nat, c: seq<nat>, i: nat, written: nat, carry: nat, v: nat, l: nat)
    requires i <= |c|
  {
    && written < Two(Bits(dpl, i)) && v == Rem(written, Bits(w, l))
    && written + Two(Bits(dpl, i)) * carry == Val(Base(dpl), c[..i])
  }

  lemma WrittenRoom(w: nat, dpl: nat, c: seq<nat>, i: nat, written: nat, carry: nat, v: nat, l: nat)
    requires i <= |c| && Written(w, dpl, c, i, written, carry, v, l)
    ensures v < Two(Bits(dpl, i))
  {
    hide Two, Bits, Rem, Val, Base;
    RemAdd(written, 0, Bits(w, l));
  }

  lemma WrittenNext(w: nat, dpl: nat, c: seq<nat>, i: nat, written: nat, carry: nat, v: nat, l: nat, t: nat)
    requires i < |c| && Written(w, dpl, c, i, written, carry, v, l) && t == c[i] + carry
    ensures Written(w, dpl, c, i + 1, written + Two(Bits(dpl, i)) * Rem(t, dpl), Quot(t, dpl),
      Rem(v + Two(Bits(dpl, i)) * Rem(t, dpl), Bits(w, l)), l)
  {
    hide Two, Bits, Rem, Quot, Val, Base;
    var z := Bits(dpl, i);
    QuotRem(t, dpl);
    BitsAdd(dpl, i, 1);
    BitsOne(dpl);
    TwoAdd(z, dpl);
    BelowSum(Two(z), Two(dpl), Two(z + dpl), written, Rem(t, dpl));
    RemAdd(written, Two(z) * Rem(t, dpl), Bits(w, l));
    ValPrefix(Base(dpl), c, i);
    BasePow(dpl, i);
    PlaceArith(z, dpl, Rem(t, dpl), Quot(t, dpl));
    Distrib(Two(z), c[i], carry);
  }

  /** One coefficient: its residues in y, the carry from the ones below. */
  method OneCoefficient(w: nat, p: nat, mods: seq<nat>, cr: seq<nat>, dpl: nat, i: nat, y: array<nat>, u: array<nat>,
      carry: array<nat>, tab: array<nat>,
                        ghost c: seq<nat>, ghost written: nat)
    returns (ghost written': nat)
    requires w > 0 && Moduli(Base(w), p, mods) && InverseTable(mods, cr) && |mods| >= 2 && 0 < dpl <= Bits(w, |mods|)
    requires y.Length == u.Length == carry.Length == |mods| && y != u && y != carry && y != tab && u != carry
      && u != tab && carry != tab
    requires Digits(Base(w), u[..]) && Digits(Base(w), tab[..]) && i < |c| && c[i] < Product(mods)
    requires forall k :: 0 <= k < |mods| ==> y[k] < mods[k] && Cong(mods[k], y[k], c[i])
    requires Digits(Base(w), carry[..]) && Val(Base(w), carry[..]) <= Product(mods)
    requires forall k :: 0 <= k < |mods| && k + Whole(w, dpl) >= |mods| ==> carry[k] == 0
    requires Written(w, dpl, c, i, written, Val(Base(w), carry[..]), Val(Base(w), tab[..]), tab.Length)
    modifies y, u, carry, tab
    ensures Digits(Base(w), u[..]) && Digits(Base(w), tab[..]) && Digits(Base(w), carry[..])
      && Val(Base(w), carry[..]) <= Product(mods)
    ensures forall k :: 0 <= k < |mods| && k + Whole(w, dpl) >= |mods| ==> carry[k] == 0
    ensures Written(w, dpl, c, i + 1, written', Val(Base(w), carry[..]), Val(Base(w), tab[..]), tab.Length)
  {
    hide Two, Bits, Rem, Quot, Val, Base, Cong, Moduli, InverseTable, Product, Slot, Mixed, Written, Whole, Digits;
    ghost var k0, v0 := Val(Base(w), carry[..]), Val(Base(w), tab[..]);
    Garner(Base(w), p, mods, cr, y, c[i]);
    AsMixed(mods, c[i], y[..]);
    Expand(Base(w), p, mods, y[..], carry[..], u, c[i]);
    ghost var t := Val(Base(w), u[..]);
    WrittenRoom(w, dpl, c, i, written, k0, v0, tab.Length);
    WriteDigit(w, tab, Bits(dpl, i), u[..], dpl);
    NextCarry(w, u[..], carry, dpl);
    CarryBelow(t, c[i], k0, dpl, Product(mods));
    WrittenNext(w, dpl, c, i, written, k0, v0, tab.Length, t);
    written' := written + Two(Bits(dpl, i)) * Rem(t, dpl);
  }

  lemma AsMixed(mods: seq<nat>, c: nat, y: seq<nat>)
    requires |y| == |mods| >= 2 && c < Product(mods) && (forall i :: 0 <= i < |mods| ==> mods[i] > 0)
    requires forall k :: 0 <= k < |mods| ==> Slot(mods, c, |mods|, k, y[k])
    ensures Mixed(mods, c, y)
  {
  }

  /** ntt_to_limb: the sum of the coefficients c[i] 2^(dpl i), cut at the transform length and at the array */
  method ToLimbs(w: nat, p: nat, mods: seq<nat>, cr: seq<nat>, rows: seq<seq<nat>>, n: nat, dpl: nat, tab: array<nat>,
      ghost c: seq<nat>)
    requires w > 0 && Moduli(Base(w), p, mods) && InverseTable(mods, cr) && |mods| >= 2 && 0 < dpl <= Bits(w, |mods|)
    requires |c| == n && ResiduesOf(mods, c, rows) && forall i :: 0 <= i < n ==> c[i] < Product(mods)
    modifies tab
    ensures Digits(Base(w), tab[..])
      && Val(Base(w), tab[..]) == Rem(Rem(Val(Base(dpl), c), Bits(dpl, n)), Bits(w, tab.Length))
  {
    hide Two, Bits, Rem, Quot, Val, Base, Cong, Moduli, InverseTable, Product, ResiduesOf, Written, Whole;
    var carry := new nat[|mods|](_ => 0);
    var u := new nat[|mods|](_ => 0);
    var y := new nat[|mods|];
    forall k | 0 <= k < tab.Length {
      tab[k] := 0;
    }
    var i := 0;
    var len := (Bits(w, tab.Length) + dpl - 1) / dpl;
    LimbsCovered(w, tab.Length, dpl);
    var end := if n < len then n else len;
    ghost var written := 0;
    NothingWritten(w, dpl, c, carry[..], tab[..], Product(mods));
    while i < end
      invariant 0 <= i <= end && Digits(Base(w), u[..]) && Digits(Base(w), tab[..]) && Digits(Base(w), carry[..])
      invariant Val(Base(w), carry[..]) <= Product(mods)
      invariant forall k :: 0 <= k < |mods| && k + Whole(w, dpl) >= |mods| ==> carry[k] == 0
      invariant Written(w, dpl, c, i, written, Val(Base(w), carry[..]), Val(Base(w), tab[..]), tab.Length)
    {
      ReadColumn(mods, rows, i, y, c);
      written := OneCoefficient(w, p, mods, cr, dpl, i, y, u, carry, tab, c, written);
      i := i + 1;
    }
    AllWritten(w, dpl, c, end, written, Val(Base(w), carry[..]), Val(Base(w), tab[..]), tab.Length);
  }

  lemma LimbsCovered(w: nat, l: nat, dpl: nat)
    requires dpl > 0
    ensures var len := (Bits(w, l) + dpl - 1) / dpl; len >= 0 && Bits(dpl, len) >= Bits(w, l)
  {
    var x := Bits(w, l) + dpl - 1;
    assert x == dpl * (x / dpl) + x % dpl;
  }

  lemma NothingWritten(w: nat, dpl: nat, c: seq<nat>, carry: seq<nat>, s: seq<nat>, m: nat)
    requires (forall k :: 0 <= k < |carry| ==> carry[k] == 0) && forall k :: 0 <= k < |s| ==> s[k] == 0
    ensures Digits(Base(w), carry) && Digits(Base(w), s) && Val(Base(w), carry) <= m
    ensures Written(w, dpl, c, 0, 0, Val(Base(w), carry), Val(Base(w), s), |s|)
  {
    hide Two, Rem, Val, Base;
    ValZeros(Base(w), carry);
    ValZeros(Base(w), s);
    ZeroBits(Bits(w, |s|), 0);
    NoValue(Base(dpl));
    MulZero(Two(0), 0);
    assert c[..0] == [];
  }

  lemma AllWritten(w: nat, dpl: nat, c: seq<nat>, end: nat, written: nat, carry: nat, v: nat, l: nat)
    requires end <= |c| && (end < |c| ==> Bits(dpl, end) >= Bits(w, l)) && Written(w, dpl, c, end, written, carry, v, l)
    ensures v == Rem(Rem(Val(Base(dpl), c), Bits(dpl, |c|)), Bits(w, l))
  {
    hide Two, Rem, Val, Base, Bits;
    var x, z := Val(Base(dpl), c), Bits(dpl, end);
    ValSplit(Base(dpl), c, end);
    BasePow(dpl, end);
    Distrib(Two(z), carry, Val(Base(dpl), c[end..]));
    RemOf(x, z, written, carry + Val(Base(dpl), c[end..]));
    if end < |c| {
      TwoPosition(dpl, |c|, end, 0);
      RemRem(x, z, Bits(w, l));
      RemRem(x, Bits(dpl, |c|), Bits(w, l));
    }
  }
}

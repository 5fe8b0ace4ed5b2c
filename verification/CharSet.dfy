/** Code-point sets as lists of interval end points, and the two instructions that
    test membership by binary search. */
module CharSet {

  const UINT32_MAX: nat := 0xffff_ffff

  /** The set denoted by an end-point list: [p0, p1) + [p2, p3) + ... */
  predicate Member(points: seq<nat>, c: nat) {
    |points| >= 2 && (points[0] <= c < points[1] || Member(points[2..], c))
  }

  /** Strictly increasing and of even length: what cr_op, cr_union1 and cr_invert leave behind. */
  ghost predicate Canonical(points: seq<nat>) {
    && |points| % 2 == 0
    && (forall i, j :: 0 <= i < j < |points| ==> points[i] < points[j])
    && (forall i :: 0 <= i < |points| ==> points[i] <= UINT32_MAX)
  }

  type Pairs = seq<(nat, nat)>

  /** c lies in one of the closed intervals (low, high). */
  predicate InPairs(pairs: Pairs, c: nat) {
    pairs != [] && (pairs[0].0 <= c <= pairs[0].1 || InPairs(pairs[1..], c))
  }

  ghost predicate SortedPairs(pairs: Pairs) {
    && (forall i :: 0 <= i < |pairs| ==> pairs[i].0 <= pairs[i].1)
    && (forall i, j :: 0 <= i < j < |pairs| ==> pairs[i].1 < pairs[j].0)
  }

  /** The loop of the `range` and `range32` instructions. */
  function Search(pairs: Pairs, c: nat, lo: nat, hi: int): bool
    requires hi < |pairs|
    decreases hi - lo + 1
  {
    if lo > hi then false
    else
      var idx := (lo + hi) / 2;
      if c < pairs[idx].0 then Search(pairs, c, lo, idx - 1)
      else if c > pairs[idx].1 then Search(pairs, c, idx + 1, hi)
      else true
  }

  /** The `range` instruction: a last high end of 0xffff stands for infinity. */
  function Range16Has(pairs: Pairs, c: nat): bool {
    if |pairs| == 0 || c < pairs[0].0 then false
    else if c >= 0xffff && pairs[|pairs| - 1].1 == 0xffff then true
    else if c > pairs[|pairs| - 1].1 then false
    else Search(pairs, c, 0, |pairs| - 1)
  }

  /** The `range32` instruction. */
  function Range32Has(pairs: Pairs, c: nat): bool {
    if |pairs| == 0 || c < pairs[0].0 then false
    else if c > pairs[|pairs| - 1].1 then false
    else Search(pairs, c, 0, |pairs| - 1)
  }

  /** dbuf_put_u16 keeps the low 16 bits. */
  function U16(x: nat): nat { x % 0x1_0000 }

  /** x - 1 on uint32_t. */
  function Pred32(x: nat): nat { if x == 0 then UINT32_MAX else x - 1 }

  /** The operands that re_emit_range writes when it selects 16-bit ranges. */
  function Pairs16(points: seq<nat>): Pairs {
    if |points| < 2 then []
    else [(U16(points[0]), if Pred32(points[1]) == UINT32_MAX - 1 then 0xffff else U16(Pred32(points[1])))]
         + Pairs16(points[2..])
  }

  /** The operands that re_emit_range writes when it selects 32-bit ranges. */
  function Pairs32(points: seq<nat>): Pairs {
    if |points| < 2 then []
    else [(points[0], Pred32(points[1]))] + Pairs32(points[2..])
  }

  /** The last end point that is not infinity decides between 16-bit and 32-bit ranges. */
  predicate Fits16(points: seq<nat>)
    requires |points| >= 2
  {
    var high := points[|points| - 1];
    (if high == UINT32_MAX then points[|points| - 2] else high) <= 0xffff
  }

  lemma {:induction false} InPairsIndex(pairs: Pairs, c: nat)
    ensures InPairs(pairs, c) <==> exists i :: 0 <= i < |pairs| && pairs[i].0 <= c <= pairs[i].1
  {
    if pairs != [] {
      InPairsIndex(pairs[1..], c);
      if i :| 0 <= i < |pairs| && pairs[i].0 <= c <= pairs[i].1 {
        if i > 0 {
          assert pairs[1..][i - 1] == pairs[i];
        }
      }
    }
  }

  /** The binary search answers membership in some interval of a sorted list. */
  lemma {:induction false} SearchCorrect(pairs: Pairs, c: nat, lo: nat, hi: int)
    requires hi < |pairs| && SortedPairs(pairs)
    ensures Search(pairs, c, lo, hi) <==> exists i :: lo <= i <= hi && pairs[i].0 <= c <= pairs[i].1
    decreases hi - lo + 1
  {
    if lo <= hi {
      var idx := (lo + hi) / 2;
      if c < pairs[idx].0 {
        SearchCorrect(pairs, c, lo, idx - 1);
        NotAbove(pairs, c, idx);
      } else if c > pairs[idx].1 {
        SearchCorrect(pairs, c, idx + 1, hi);
        NotBelow(pairs, c, idx);
      } else {
        assert pairs[idx].0 <= c <= pairs[idx].1;
      }
    }
  }

  lemma NotAbove(pairs: Pairs, c: nat, idx: nat)
    requires SortedPairs(pairs) && idx < |pairs| && c < pairs[idx].0
    ensures forall i :: idx <= i < |pairs| ==> c < pairs[i].0
  {
  }

  lemma NotBelow(pairs: Pairs, c: nat, idx: nat)
    requires SortedPairs(pairs) && idx < |pairs| && c > pairs[idx].1
    ensures forall i :: 0 <= i <= idx ==> c > pairs[i].1
  {
  }

  /** Without the infinity rule, both instructions decide InPairs on sorted operands. */
  lemma SearchInPairs(pairs: Pairs, c: nat)
    requires SortedPairs(pairs)
    ensures Range32Has(pairs, c) == InPairs(pairs, c)
    ensures !(c >= 0xffff && pairs != [] && pairs[|pairs| - 1].1 == 0xffff) ==>
      Range16Has(pairs, c) == InPairs(pairs, c)
  {
    InPairsIndex(pairs, c);
    if pairs != [] {
      SearchCorrect(pairs, c, 0, |pairs| - 1);
      if i :| 0 <= i < |pairs| && pairs[i].0 <= c <= pairs[i].1 {
        assert pairs[0].0 <= pairs[i].0 && pairs[i].1 <= pairs[|pairs| - 1].1;
      }
    }
  }

  lemma CanonicalTail(points: seq<nat>)
    requires Canonical(points) && |points| >= 2
    ensures Canonical(points[2..])
    ensures points[0] < points[1]
    ensures |points| > 2 ==> points[1] < points[2..][0]
  {
    var rest := points[2..];
    forall i, j | 0 <= i < j < |rest|
      ensures rest[i] < rest[j]
    {
      assert rest[i] == points[i + 2] && rest[j] == points[j + 2];
    }
  }

  lemma SortedCons(p: (nat, nat), pairs: Pairs)
    requires SortedPairs(pairs) && p.0 <= p.1 && (pairs != [] ==> p.1 < pairs[0].0)
    ensures SortedPairs([p] + pairs)
  {
    var all := [p] + pairs;
    forall i, j | 0 <= i < j < |all|
      ensures all[i].1 < all[j].0
    {
      assert all[j] == pairs[j - 1];
      assert pairs[0].0 <= pairs[j - 1].0;
    }
  }

  lemma {:induction false} Pairs32Denotes(points: seq<nat>, c: nat)
    requires Canonical(points) && c < UINT32_MAX
    ensures SortedPairs(Pairs32(points)) && (InPairs(Pairs32(points), c) <==> Member(points, c))
    ensures |points| >= 2 ==> Pairs32(points)[0].0 == points[0]
  {
    if |points| >= 2 {
      CanonicalTail(points);
      Pairs32Denotes(points[2..], c);
      var p := (points[0], points[1] - 1);
      SortedCons(p, Pairs32(points[2..]));
      assert ([p] + Pairs32(points[2..]))[1..] == Pairs32(points[2..]);
    }
  }

  /** What Fits16 says about the first interval and the rest of the list. */
  lemma Fits16Tail(points: seq<nat>)
    requires Canonical(points) && |points| >= 2 && Fits16(points)
    ensures points[0] <= 0xffff
    ensures |points| == 2 && points[1] != UINT32_MAX ==> points[1] <= 0xffff
    ensures |points| > 2 ==> Fits16(points[2..]) && points[1] < 0xffff
    ensures |points| > 2 ==> points[2..][|points| - 3] == points[|points| - 1]
  {
    if |points| > 2 {
      assert points[1] < points[|points| - 2];
    }
  }

  /** The first 16-bit operand is not truncated. */
  lemma Pairs16Head(points: seq<nat>) returns (p: (nat, nat))
    requires Canonical(points) && |points| >= 2 && Fits16(points)
    ensures Pairs16(points) == [p] + Pairs16(points[2..])
    ensures p == (points[0], if points[1] == UINT32_MAX then 0xffff else points[1] - 1)
    ensures p.0 <= p.1 <= 0xffff && (p.1 == 0xffff <==> points[1] == UINT32_MAX)
  {
    hide Canonical, Fits16;
    HeadFits(points);
    p := (points[0], if points[1] == UINT32_MAX then 0xffff else points[1] - 1);
  }

  lemma HeadFits(points: seq<nat>)
    requires Canonical(points) && |points| >= 2 && Fits16(points)
    ensures points[0] < points[1] && points[0] <= 0xffff && (points[1] == UINT32_MAX || points[1] <= 0xffff)
  {
    CanonicalTail(points);
    Fits16Tail(points);
  }

  lemma InPairsCons(p: (nat, nat), pairs: Pairs, c: nat)
    ensures InPairs([p] + pairs, c) <==> p.0 <= c <= p.1 || InPairs(pairs, c)
  {
    assert ([p] + pairs)[1..] == pairs;
  }

  /** An end-point list with one interval in front. */
  lemma MemberCons(points: seq<nat>, c: nat)
    requires |points| >= 2
    ensures Member(points, c) <==> points[0] <= c < points[1] || Member(points[2..], c)
  {
  }

  /** The last end point of a list is that of its tail. */
  lemma LastOfTail(points: seq<nat>)
    requires Canonical(points) && |points| > 2
    ensures points[2..][|points[2..]| - 1] == points[|points| - 1] && points[1] < points[|points| - 1] <= UINT32_MAX
  {
  }

  /** 16-bit operands are sorted: below the last interval nothing is truncated. */
  lemma {:induction false} Pairs16Sorted(points: seq<nat>)
    requires Canonical(points) && |points| >= 2 && Fits16(points)
    ensures Pairs16(points) != [] && Pairs16(points)[0].0 == points[0]
    ensures SortedPairs(Pairs16(points))
    ensures Pairs16(points)[|Pairs16(points)| - 1].1 == 0xffff <==> points[|points| - 1] == UINT32_MAX
  {
    var p := Pairs16Head(points);
    var rest := points[2..];
    var pairs := Pairs16(rest);
    if rest != [] {
      Fits16Tail(points);
      CanonicalTail(points);
      Pairs16Sorted(rest);
      assert p.1 < pairs[0].0;
    }
    SortedCons(p, pairs);
    assert rest == [] ==> pairs == [];
  }

  lemma {:induction false} Pairs16Member(points: seq<nat>, c: nat)
    requires Canonical(points) && |points| >= 2 && Fits16(points) && c < UINT32_MAX
    ensures c < 0xffff ==> (InPairs(Pairs16(points), c) <==> Member(points, c))
    ensures c >= 0xffff && points[|points| - 1] != UINT32_MAX ==> !InPairs(Pairs16(points), c) && !Member(points, c)
    ensures c >= 0xffff && points[|points| - 1] == UINT32_MAX ==> Member(points, c)
  {
    hide Canonical, Fits16, Member, InPairs, Pairs16;
    CanonicalTail(points);
    Fits16Tail(points);
    var p := Pairs16Head(points);
    InPairsCons(p, Pairs16(points[2..]), c);
    MemberCons(points, c);
    CanonicalEven(points);
    if |points| > 2 {
      LastOfTail(points);
      Pairs16Member(points[2..], c);
    } else {
      NoneMember(points[2..], c);
    }
  }

  lemma CanonicalEven(points: seq<nat>)
    requires Canonical(points)
    ensures |points| % 2 == 0
  {
  }

  lemma NoneMember(points: seq<nat>, c: nat)
    requires |points| == 0
    ensures !Member(points, c) && !InPairs(Pairs16(points), c)
  {
  }

  /** 32-bit ranges accept exactly the members of the set. */
  lemma Range32Correct(points: seq<nat>, c: nat)
    requires Canonical(points) && c < UINT32_MAX
    ensures Range32Has(Pairs32(points), c) <==> Member(points, c)
  {
    Pairs32Denotes(points, c);
    SearchInPairs(Pairs32(points), c);
  }

  /** 16-bit ranges, with 0xffff as infinity, accept exactly the members of the set. */
  lemma Range16Correct(points: seq<nat>, c: nat)
    requires Canonical(points) && |points| >= 2 && Fits16(points) && c < UINT32_MAX
    ensures Range16Has(Pairs16(points), c) <==> Member(points, c)
  {
    var pairs := Pairs16(points);
    Pairs16Sorted(points);
    Pairs16Member(points, c);
    Fits16Tail(points);
    if !(c >= 0xffff && pairs[|pairs| - 1].1 == 0xffff) {
      SearchInPairs(pairs, c);
    }
  }
}

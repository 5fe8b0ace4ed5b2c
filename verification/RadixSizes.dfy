/** The sizes of the subproblems of the divide-and-conquer radix conversions. */
module RadixSizes {
  import opened Limbs
  import opened FloatBits
  import opened FloatRound
  import opened FloatDigits
  import opened FloatCancel
  import opened NttSize

  /** The size n2 of the low part at a level. */
  function LowSize(n0: nat, level: nat): nat {
    ((n0 * 2) / Two(level + 1) + 1) / 2
  }

  /** n is the floor or the ceiling of n0 / 2^level. */
  ghost predicate IsLevelSize(n: nat, n0: nat, level: nat) {
    n == Quot(n0, level) || (n == Quot(n0, level) + 1 && Rem(n0, level) != 0)
  }

  lemma TopLevel(n0: nat)
    ensures IsLevelSize(n0, n0, 0)
  {
    ZeroQuot(n0, 0);
  }

  /** The low part at a level: half the size, rounded. */
  lemma LowSizeIs(n0: nat, level: nat)
    ensures LowSize(n0, level) == if Rem(n0, level + 1) < Two(level) then Quot(n0, level + 1)
      else Quot(n0, level + 1) + 1
  {
    hide Two, Quot, Rem;
    var h, p, q, s := Two(level), Two(level + 1), Quot(n0, level + 1), Rem(n0, level + 1);
    TwoNext(level);
    QuotRem(n0, level + 1);
    if s < h {
      DivUnique(2 * n0, p, 2 * q, 2 * s) by { Assoc(2, p, q); assert (2 * q) * p == 2 * (p * q); }
    } else {
      DivUnique(2 * n0, p, 2 * q + 1, 2 * s - p) by { Distrib(p, 2 * q, 1); assert (2 * q) * p == 2 * (p * q); }
    }
  }

  /** n0 in units of 2^level, from its parts at the next level. */
  lemma NextLevelParts(n0: nat, level: nat)
    ensures var h := Two(level); var q := Quot(n0, level + 1); var s := Rem(n0, level + 1);
      && s < 2 * h
      && Quot(n0, level) == (if s < h then 2 * q else 2 * q + 1) && Rem(n0, level) == (if s < h then s else s - h)
  {
    hide Two, Quot, Rem;
    var h, q, s := Two(level), Quot(n0, level + 1), Rem(n0, level + 1);
    TwoNext(level);
    QuotRem(n0, level + 1);
    Assoc(2, h, q);
    assert (2 * h) * q == h * (2 * q);
    Distrib(h, 2 * q, 1);
    if s < h {
      QuotIs(n0, level, 2 * q, s);
    } else {
      QuotIs(n0, level, 2 * q + 1, s - h);
    }
  }

  /** Both parts of a subproblem have a size of the next level, and the high part is at most one longer. */
  lemma PartSizes(n: nat, n0: nat, level: nat)
    requires IsLevelSize(n, n0, level) && n >= 2
    ensures var n2 := LowSize(n0, level);
      0 < n2 < n && n - n2 <= n2 + 1 && IsLevelSize(n2, n0, level + 1) && IsLevelSize(n - n2, n0, level + 1)
  {
    hide Two, Quot, Rem, LowSize;
    LowSizeIs(n0, level);
    NextLevelParts(n0, level);
  }

  /** Where a power is needed, the level is inside the table of ceil_log2(n0) + 2 entries. */
  lemma LevelInside(n: nat, n0: nat, level: nat)
    requires IsLevelSize(n, n0, level) && n >= 2
    ensures level < CeilLog2(n0)
  {
    hide Two, Quot, Rem;
    QuotRem(n0, level);
    MulMono(1, Quot(n0, level), Two(level));
    var c := CeilLog2(n0);
    assert n0 > Two(level) by {
      if Quot(n0, level) >= 2 {
        MulMono(2, Quot(n0, level), Two(level));
        TwoPos(level);
      }
    }
    if c <= level {
      TwoMono(c, level);
    }
  }
}

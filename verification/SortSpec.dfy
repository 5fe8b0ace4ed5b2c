/** Segments of an array, rearrangements inside them, and comparators. */
module SortSpec {

  /** A comparison function, and whether a comparator follows it. */
  datatype Order<!T> = Order(cmp: (T, T) -> int, followed: bool)

  /** The comparator follows a comparison that orders its elements. */
  ghost predicate TotalPreorder<T(!new)>(ord: Order<T>) {
    && ord.followed
    && (forall x, y :: ord.cmp(x, y) < 0 <==> ord.cmp(y, x) > 0)
    && (forall x, y, z :: ord.cmp(x, y) <= 0 && ord.cmp(y, z) <= 0 ==> ord.cmp(x, z) <= 0)
  }

  ghost predicate Le<T>(ord: Order<T>, x: T, y: T) {
    ord.cmp(x, y) <= 0
  }

  predicate SameSign(c: int, d: int) {
    (c < 0 <==> d < 0) && (c > 0 <==> d > 0)
  }

  /** A comparator as the caller supplies it: any answer at all to the n-th question, so the same two elements may be
      answered differently at different times. */
  class Comparator<!T(!new)> {
    const answer: (nat, T, T) -> int
    var calls: nat

    constructor (answer: (nat, T, T) -> int)
      ensures this.answer == answer && calls == 0
    {
      this.answer, calls := answer, 0;
    }

    /** cmp(x, y, opaque) */
    method Compare(x: T, y: T) returns (c: int)
      modifies this
      ensures calls == old(calls) + 1 && c == answer(old(calls), x, y)
    {
      c := answer(calls, x, y);
      calls := calls + 1;
    }

    /** Every answer has the sign of the comparison, if it is marked as followed. */
    ghost predicate Obeys(ord: Order<T>) {
      ord.followed ==> forall n, x, y :: SameSign(answer(n, x, y), ord.cmp(x, y))
    }
  }

  /** t rearranges s inside [lo, hi) and agrees with it outside. */
  ghost predicate Permuted<T>(s: seq<T>, t: seq<T>, lo: nat, hi: nat) {
    && lo <= hi <= |s| == |t|
    && s[..lo] == t[..lo] && s[hi..] == t[hi..]
    && multiset(s[lo..hi]) == multiset(t[lo..hi])
  }

  ghost predicate SortedIn<T>(ord: Order<T>, s: seq<T>, lo: nat, hi: nat) {
    hi <= |s| && forall i, j :: lo <= i < j < hi ==> Le(ord, s[i], s[j])
  }

  lemma PermutedSelf<T>(s: seq<T>, lo: nat, hi: nat)
    requires lo <= hi <= |s|
    ensures Permuted(s, s, lo, hi)
  {
  }

  lemma PermutedTrans<T>(s: seq<T>, t: seq<T>, u: seq<T>, lo: nat, hi: nat)
    requires Permuted(s, t, lo, hi) && Permuted(t, u, lo, hi)
    ensures Permuted(s, u, lo, hi)
  {
  }

  lemma PermutedWider<T>(s: seq<T>, t: seq<T>, lo: nat, hi: nat, lo': nat, hi': nat)
    requires Permuted(s, t, lo, hi) && lo' <= lo && hi <= hi' <= |s|
    ensures Permuted(s, t, lo', hi')
  {
    SplitThree(s, lo', lo, hi, hi');
    SplitThree(t, lo', lo, hi, hi');
    assert s[lo'..lo] == s[..lo][lo'..] && t[lo'..lo] == t[..lo][lo'..];
    assert s[hi..hi'] == s[hi..][..hi' - hi] && t[hi..hi'] == t[hi..][..hi' - hi];
    assert s[..lo'] == s[..lo][..lo'] && t[..lo'] == t[..lo][..lo'];
    assert s[hi'..] == s[hi..][hi' - hi..] && t[hi'..] == t[hi..][hi' - hi..];
  }

  lemma SplitThree<T>(s: seq<T>, a: nat, b: nat, c: nat, d: nat)
    requires a <= b <= c <= d <= |s|
    ensures multiset(s[a..d]) == multiset(s[a..b]) + multiset(s[b..c]) + multiset(s[c..d])
  {
    assert s[a..d] == s[a..b] + s[b..c] + s[c..d];
  }

  /** Exchanging two elements. */
  function Swapped<T>(s: seq<T>, i: nat, j: nat): seq<T>
    requires i < |s| && j < |s|
  {
    s[i := s[j]][j := s[i]]
  }

  lemma SwapPermutes<T>(s: seq<T>, i: nat, j: nat, lo: nat, hi: nat)
    requires lo <= i < hi && lo <= j < hi && hi <= |s|
    ensures Permuted(s, Swapped(s, i, j), lo, hi)
  {
    var t := Swapped(s, i, j);
    var u := s[lo..hi];
    assert t[lo..hi] == u[i - lo := u[j - lo]][j - lo := u[i - lo]];
    SwapMultiset(u, i - lo, j - lo);
  }

  lemma SwapMultiset<T>(u: seq<T>, i: nat, j: nat)
    requires i < |u| && j < |u|
    ensures multiset(u[i := u[j]][j := u[i]]) == multiset(u)
  {
    var v := u[i := u[j]];
    assert multiset(v) == multiset(u) - multiset{u[i]} + multiset{u[j]};
    assert multiset(v[j := u[i]]) == multiset(v) - multiset{v[j]} + multiset{u[i]};
  }

  /** What holds of every element of a segment still holds after a rearrangement. */
  lemma PermutedKeeps<T>(s: seq<T>, t: seq<T>, lo: nat, hi: nat, j: nat) returns (i: nat)
    requires Permuted(s, t, lo, hi) && lo <= j < hi
    ensures lo <= i < hi && s[i] == t[j]
  {
    assert t[lo..hi][j - lo] == t[j];
    assert t[j] in multiset(t[lo..hi]);
    assert t[j] in multiset(s[lo..hi]);
    var k :| 0 <= k < |s[lo..hi]| && s[lo..hi][k] == t[j];
    i := lo + k;
  }

  lemma PermutedOutside<T>(s: seq<T>, t: seq<T>, lo: nat, hi: nat, j: nat)
    requires Permuted(s, t, lo, hi) && j < |s| && !(lo <= j < hi)
    ensures s[j] == t[j]
  {
    if j < lo {
      assert s[..lo][j] == t[..lo][j];
    } else {
      assert s[hi..][j - hi] == t[hi..][j - hi];
    }
  }

  // ---- cuts

  /** Everything before p is at most everything from p on. */
  ghost predicate Cut<T>(ord: Order<T>, s: seq<T>, p: nat) {
    forall i, j :: 0 <= i < p <= j < |s| ==> Le(ord, s[i], s[j])
  }

  /** Rearranging a segment keeps every cut that is not strictly inside it. */
  lemma CutKept<T>(ord: Order<T>, s: seq<T>, t: seq<T>, lo: nat, hi: nat, p: nat)
    requires Permuted(s, t, lo, hi) && Cut(ord, s, p) && !(lo < p < hi)
    ensures Cut(ord, t, p)
  {
    forall i, j | 0 <= i < p <= j < |t|
      ensures Le(ord, t[i], t[j])
    {
      var i', j' := i, j;
      if lo <= i < hi {
        i' := PermutedKeeps(s, t, lo, hi, i);
      } else {
        PermutedOutside(s, t, lo, hi, i);
      }
      if lo <= j < hi {
        j' := PermutedKeeps(s, t, lo, hi, j);
      } else {
        PermutedOutside(s, t, lo, hi, j);
      }
      assert s[i'] == t[i] && s[j'] == t[j];
      assert Le(ord, s[i'], s[j']);
    }
  }

  lemma AllCutsSorted<T>(ord: Order<T>, s: seq<T>, lo: nat, hi: nat)
    requires hi <= |s| && forall p :: lo < p < hi ==> Cut(ord, s, p)
    ensures SortedIn(ord, s, lo, hi)
  {
    forall i, j | lo <= i < j < hi
      ensures Le(ord, s[i], s[j])
    {
      assert Cut(ord, s, j);
    }
  }

  /** A sorted segment between two cuts has cuts everywhere inside. */
  lemma SortedCuts<T>(ord: Order<T>, s: seq<T>, lo: nat, hi: nat, p: nat)
    requires SortedIn(ord, s, lo, hi) && lo <= p <= hi && Cut(ord, s, lo) && Cut(ord, s, hi)
    ensures Cut(ord, s, p)
  {
    forall i, j | 0 <= i < p <= j < |s|
      ensures Le(ord, s[i], s[j])
    {
      if i < lo {
        assert Cut(ord, s, lo);
      } else if j >= hi {
        assert Cut(ord, s, hi);
      }
    }
  }
}

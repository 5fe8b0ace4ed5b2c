/** rqsort: three-way quicksort with an explicit stack, a depth limit with a heapsort fallback, and
    insertion sort for short segments.  Every method takes any comparator, also one that answers the
    same question differently each time; what a method says about order it says for comparators that follow a
    comparison which orders the elements. */
module Introsort {
  import opened SortSpec

  method Swap<T>(a: array<T>, i: nat, j: nat)
    requires i < a.Length && j < a.Length
    modifies a
    ensures a[..] == Swapped(old(a[..]), i, j)
  {
    ghost var s := a[..];
    a[i], a[j] := a[j], a[i];
    assert a[..] == s[i := s[j]][j := s[i]];
  }

  lemma SwapSymmetric<T>(s: seq<T>, i: nat, j: nat)
    requires i < |s| && j < |s|
    ensures Swapped(s, i, j) == Swapped(s, j, i)
  {
  }

  // ---- comparisons

  /** c is an answer to the comparison of x and y. */
  ghost predicate Answers<T>(ord: Order<T>, c: int, x: T, y: T) {
    ord.followed ==> SameSign(c, ord.cmp(x, y))
  }

  /** One call of the comparator. */
  method Ask<T(!new)>(o: Comparator<T>, ghost ord: Order<T>, x: T, y: T) returns (c: int)
    requires o.Obeys(ord)
    modifies o
    ensures Answers(ord, c, x, y) && (TotalPreorder(ord) ==> SameSign(c, ord.cmp(x, y)))
  {
    c := o.Compare(x, y);
  }

  // ---- insertion sort

  /** Sorted, apart from what is to the left of k. */
  ghost predicate SortedBut<T>(ord: Order<T>, s: seq<T>, lo: nat, hi: nat, k: nat) {
    hi <= |s| && forall i, j :: lo <= i < j < hi && j != k ==> Le(ord, s[i], s[j])
  }

  lemma SinkStep<T(!new)>(ord: Order<T>, s: seq<T>, lo: nat, hi: nat, k: nat)
    requires TotalPreorder(ord) && SortedBut(ord, s, lo, hi, k) && lo < k < hi && ord.cmp(s[k - 1], s[k]) > 0
    ensures SortedBut(ord, Swapped(s, k - 1, k), lo, hi, k - 1)
  {
  }

  lemma SinkDone<T(!new)>(ord: Order<T>, s: seq<T>, lo: nat, hi: nat, k: nat)
    requires TotalPreorder(ord) && SortedBut(ord, s, lo, hi, k) && lo <= k < hi
    requires k == lo || ord.cmp(s[k - 1], s[k]) <= 0
    ensures SortedIn(ord, s, lo, hi)
  {
    forall i | lo <= i < k
      ensures Le(ord, s[i], s[k])
    {
      if i < k - 1 {
        assert Le(ord, s[i], s[k - 1]);
      }
    }
  }

  lemma SinkStart<T>(ord: Order<T>, s: seq<T>, lo: nat, k: nat)
    requires SortedIn(ord, s, lo, k) && k < |s|
    ensures SortedBut(ord, s, lo, k + 1, k)
  {
  }

  /** While the element at pj sinks, the rest of what was sorted in s is sorted in t. */
  ghost predicate Sinking<T(!new)>(ord: Order<T>, s: seq<T>, t: seq<T>, lo: nat, pi: nat, pj: nat) {
    TotalPreorder(ord) && SortedIn(ord, s, lo, pi) ==> SortedBut(ord, t, lo, pi + 1, pj)
  }

  /** One comparison of the insertion, and the exchange after it. */
  method SinkOnce<T(!new)>(a: array<T>, lo: nat, pi: nat, pj: nat, o: Comparator<T>, ghost ord: Order<T>,
      ghost s: seq<T>) returns (moved: bool)
    requires o.Obeys(ord) && lo < pj <= pi < a.Length && Permuted(s, a[..], lo, pi + 1)
      && Sinking(ord, s, a[..], lo, pi, pj)
    modifies a, o
    ensures Permuted(s, a[..], lo, pi + 1) && Sinking(ord, s, a[..], lo, pi, if moved then pj - 1 else pj)
    ensures !moved && TotalPreorder(ord) ==> ord.cmp(a[pj - 1], a[pj]) <= 0
  {
    hide Permuted, SortedIn, SortedBut, TotalPreorder, Swapped;
    var c := Ask(o, ord, a[pj - 1], a[pj]);
    moved := c > 0;
    if moved {
      ghost var t := a[..];
      Swap(a, pj, pj - 1);
      SwapSymmetric(t, pj, pj - 1);
      SwapPermutes(t, pj - 1, pj, lo, pi + 1);
      PermutedTrans(s, t, a[..], lo, pi + 1);
      if TotalPreorder(ord) && SortedIn(ord, s, lo, pi) {
        SinkStep(ord, t, lo, pi + 1, pj);
      }
    }
  }

  /** Move the element at pi down to its place. */
  method Sink<T(!new)>(a: array<T>, lo: nat, pi: nat, o: Comparator<T>, ghost ord: Order<T>)
    requires o.Obeys(ord)
    requires lo <= pi < a.Length
    modifies a, o
    ensures Permuted(old(a[..]), a[..], lo, pi + 1)
    ensures TotalPreorder(ord) && SortedIn(ord, old(a[..]), lo, pi) ==> SortedIn(ord, a[..], lo, pi + 1)
  {
    hide Permuted, SortedIn, SortedBut, TotalPreorder, Sinking;
    ghost var s := a[..];
    PermutedSelf(s, lo, pi + 1);
    SinkingStart(ord, s, lo, pi);
    var pj, moved := pi, true;
    while pj > lo && moved
      invariant lo <= pj <= pi && Permuted(s, a[..], lo, pi + 1) && Sinking(ord, s, a[..], lo, pi, pj)
      invariant !moved && TotalPreorder(ord) ==> pj > lo && ord.cmp(a[pj - 1], a[pj]) <= 0
      decreases moved, pj
    {
      moved := SinkOnce(a, lo, pi, pj, o, ord, s);
      if moved {
        pj := pj - 1;
      }
    }
    SinkingDone(ord, s, a[..], lo, pi, pj);
  }

  lemma SinkingStart<T(!new)>(ord: Order<T>, s: seq<T>, lo: nat, pi: nat)
    requires pi < |s|
    ensures Sinking(ord, s, s, lo, pi, pi)
  {
    hide SortedIn, SortedBut, TotalPreorder;
    if SortedIn(ord, s, lo, pi) {
      SinkStart(ord, s, lo, pi);
    }
  }

  lemma SinkingDone<T(!new)>(ord: Order<T>, s: seq<T>, t: seq<T>, lo: nat, pi: nat, pj: nat)
    requires Sinking(ord, s, t, lo, pi, pj) && lo <= pj <= pi < |t|
    requires TotalPreorder(ord) && pj > lo ==> ord.cmp(t[pj - 1], t[pj]) <= 0
    ensures TotalPreorder(ord) && SortedIn(ord, s, lo, pi) ==> SortedIn(ord, t, lo, pi + 1)
  {
    hide SortedIn, SortedBut, TotalPreorder;
    if TotalPreorder(ord) && SortedIn(ord, s, lo, pi) {
      SinkDone(ord, t, lo, pi + 1, pj);
    }
  }

  method InsertionSort<T(!new)>(a: array<T>, lo: nat, hi: nat, o: Comparator<T>, ghost ord: Order<T>)
    requires o.Obeys(ord)
    requires lo <= hi <= a.Length
    modifies a, o
    ensures Permuted(old(a[..]), a[..], lo, hi)
    ensures TotalPreorder(ord) ==> SortedIn(ord, a[..], lo, hi)
  {
    ghost var s := a[..];
    PermutedSelf(s, lo, hi);
    var pi := lo + 1;
    while pi < hi
      invariant lo < pi && (pi <= hi || pi == lo + 1)
      invariant Permuted(s, a[..], lo, hi)
      invariant TotalPreorder(ord) && pi <= hi ==> SortedIn(ord, a[..], lo, pi)
    {
      ghost var t := a[..];
      Sink(a, lo, pi, o, ord);
      PermutedWider(t, a[..], lo, pi + 1, lo, hi);
      PermutedTrans(s, t, a[..], lo, hi);
      pi := pi + 1;
    }
  }

  // ---- heapsort

  function Parent(c: nat): nat
    requires c > 0
  {
    (c - 1) / 2
  }

  /** Nodes i.. of the heap h dominate their children, except possibly node r. */
  ghost predicate HeapBut<T>(ord: Order<T>, h: seq<T>, i: nat, r: nat) {
    forall c :: 0 < c < |h| && i <= Parent(c) && Parent(c) != r ==> Le(ord, h[c], h[Parent(c)])
  }

  ghost predicate Heap<T>(ord: Order<T>, h: seq<T>, i: nat) {
    forall c :: 0 < c < |h| && i <= Parent(c) ==> Le(ord, h[c], h[Parent(c)])
  }

  /** The parent of r dominates the children of r. */
  ghost predicate Shielded<T>(ord: Order<T>, h: seq<T>, i: nat, r: nat) {
    forall c :: 0 < c < |h| && Parent(c) == r && r > 0 && i <= Parent(r) ==> Le(ord, h[c], h[Parent(r)])
  }

  /** c is a child of r and dominates the children of r. */
  ghost predicate LargerChild<T>(ord: Order<T>, h: seq<T>, r: nat, c: nat) {
    0 < c < |h| && Parent(c) == r && forall d :: 0 < d < |h| && Parent(d) == r ==> Le(ord, h[d], h[c])
  }

  /** r goes below its larger child c. */
  lemma SiftStep<T(!new)>(ord: Order<T>, h: seq<T>, i: nat, r: nat, c: nat)
    requires TotalPreorder(ord) && HeapBut(ord, h, i, r) && Shielded(ord, h, i, r)
    requires i <= r && LargerChild(ord, h, r, c) && Le(ord, h[r], h[c])
    ensures HeapBut(ord, Swapped(h, r, c), i, c)
    ensures Shielded(ord, Swapped(h, r, c), i, c)
  {
    var g := Swapped(h, r, c);
    forall d | 0 < d < |g| && i <= Parent(d) && Parent(d) != c
      ensures Le(ord, g[d], g[Parent(d)])
    {
      if Parent(d) == r {
        assert g[r] == h[c];
      } else if d == r {
        assert Le(ord, h[c], h[Parent(r)]);
      } else {
        assert d != c;
      }
    }
    forall d | 0 < d < |g| && Parent(d) == c && i <= Parent(c)
      ensures Le(ord, g[d], g[Parent(c)])
    {
      assert d != r && Le(ord, h[d], h[c]);
    }
  }

  lemma SiftDone<T(!new)>(ord: Order<T>, h: seq<T>, i: nat, r: nat, c: nat)
    requires TotalPreorder(ord) && HeapBut(ord, h, i, r) && LargerChild(ord, h, r, c) && ord.cmp(h[r], h[c]) > 0
    ensures Heap(ord, h, i)
  {
    forall d | 0 < d < |h| && Parent(d) == r
      ensures Le(ord, h[d], h[r])
    {
      assert Le(ord, h[d], h[c]) && Le(ord, h[c], h[r]);
    }
  }

  lemma LeafDone<T>(ord: Order<T>, h: seq<T>, i: nat, r: nat)
    requires HeapBut(ord, h, i, r) && 2 * r + 1 >= |h|
    ensures Heap(ord, h, i)
  {
  }

  /** The root of a heap dominates every node. */
  lemma {:induction false} RootDominates<T(!new)>(ord: Order<T>, h: seq<T>, k: nat)
    requires TotalPreorder(ord) && Heap(ord, h, 0) && k < |h|
    ensures Le(ord, h[k], h[0])
  {
    if k == 0 {
      assert ord.cmp(h[0], h[0]) <= 0;
    } else {
      RootDominates(ord, h, Parent(k));
      assert Le(ord, h[k], h[Parent(k)]);
    }
  }

  lemma SwapInside<T>(s: seq<T>, lo: nat, hi: nat, i: nat, j: nat)
    requires lo <= hi <= |s| && i < hi - lo && j < hi - lo
    ensures Swapped(s, lo + i, lo + j)[lo..hi] == Swapped(s[lo..hi], i, j)
  {
  }

  lemma ChildrenOf<T(!new)>(ord: Order<T>, h: seq<T>, r: nat, c: nat)
    requires TotalPreorder(ord) && 2 * r + 1 < |h|
    requires c == (if 2 * r + 2 < |h| && ord.cmp(h[2 * r + 1], h[2 * r + 2]) <= 0 then 2 * r + 2 else 2 * r + 1)
    ensures LargerChild(ord, h, r, c)
  {
    assert ord.cmp(h[c], h[c]) <= 0;
    forall d | 0 < d < |h| && Parent(d) == r
      ensures Le(ord, h[d], h[c])
    {
      assert d == 2 * r + 1 || d == 2 * r + 2;
    }
  }

  lemma SiftStart<T>(ord: Order<T>, h: seq<T>, i: nat)
    requires Heap(ord, h, i + 1)
    ensures HeapBut(ord, h, i, i) && Shielded(ord, h, i, i)
  {
  }

  /** The larger child of r in the heap on [lo, lo + n). */
  method PickChild<T(!new)>(a: array<T>, lo: nat, r: nat, n: nat, o: Comparator<T>, ghost ord: Order<T>)
    returns (c: nat)
    requires o.Obeys(ord)
    requires 2 * r + 1 < n && lo + n <= a.Length
    modifies o
    ensures r < c < n && (TotalPreorder(ord) ==> LargerChild(ord, a[..][lo..lo + n], r, c))
  {
    hide TotalPreorder, LargerChild;
    c := 2 * r + 1;
    ghost var h := a[..][lo..lo + n];
    if c < n - 1 {
      var d := Ask(o, ord, a[lo + c], a[lo + c + 1]);
      if d <= 0 {
        c := c + 1;
      }
    }
    if TotalPreorder(ord) {
      ChildrenOf(ord, h, r, c);
    }
  }

  /** The inner loop of heapsortx: node i of the heap on [lo, lo + n) sinks to its place. */
  /** One exchange with the larger child. */
  lemma Sifted<T(!new)>(ord: Order<T>, s: seq<T>, t: seq<T>, u: seq<T>, lo: nat, hi: nat, i: nat, r: nat, c: nat,
      ordered: bool)
    requires lo <= hi <= |t| && i <= r < c < hi - lo && u == Swapped(t, lo + r, lo + c) && Permuted(s, t, lo, hi)
    requires ordered ==> TotalPreorder(ord) && HeapBut(ord, t[lo..hi], i, r) && Shielded(ord, t[lo..hi], i, r)
    requires ordered ==> LargerChild(ord, t[lo..hi], r, c) && ord.cmp(t[lo..hi][r], t[lo..hi][c]) <= 0
    ensures Permuted(s, u, lo, hi) && |u| == |t|
    ensures ordered ==> HeapBut(ord, u[lo..hi], i, c) && Shielded(ord, u[lo..hi], i, c)
  {
    hide *;
    SwapPermutes(t, lo + r, lo + c, lo, hi);
    PermutedLength(t, u, lo, hi);
    PermutedTrans(s, t, u, lo, hi);
    SwapInside(t, lo, hi, r, c);
    if ordered {
      SiftUnfold(ord, t[lo..hi], i, r, c);
    }
  }

  method SiftDown<T(!new)>(a: array<T>, lo: nat, i: nat, n: nat, o: Comparator<T>, ghost ord: Order<T>)
    requires o.Obeys(ord)
    requires i < n && lo + n <= a.Length
    modifies a, o
    ensures Permuted(old(a[..]), a[..], lo, lo + n)
    ensures TotalPreorder(ord) && Heap(ord, old(a[..])[lo..lo + n], i + 1) ==> Heap(ord, a[..][lo..lo + n], i)
  {
    hide *;
    ghost var s, hi := a[..], lo + n;
    ghost var ordered := TotalPreorder(ord) && Heap(ord, s[lo..hi], i + 1);
    PermutedSelf(s, lo, hi);
    if ordered {
      SiftStart(ord, s[lo..hi], i);
    }
    var r := i;
    while 2 * r + 1 < n
      invariant i <= r < n && Permuted(s, a[..], lo, hi)
      invariant ordered ==> HeapBut(ord, a[..][lo..hi], i, r) && Shielded(ord, a[..][lo..hi], i, r)
      decreases n - r
    {
      ghost var t, h := a[..], a[..][lo..hi];
      var c := PickChild(a, lo, r, n, o, ord);
      var d := Ask(o, ord, a[lo + r], a[lo + c]);
      if d > 0 {
        if ordered {
          SiftDone(ord, h, i, r, c);
        }
        return;
      }
      Swap(a, lo + r, lo + c);
      Sifted(ord, s, t, a[..], lo, hi, i, r, c, ordered);
      r := c;
    }
    if ordered {
      LeafDone(ord, a[..][lo..hi], i, r);
    }
  }

  lemma SiftUnfold<T(!new)>(ord: Order<T>, h: seq<T>, i: nat, r: nat, c: nat)
    requires TotalPreorder(ord) && HeapBut(ord, h, i, r) && Shielded(ord, h, i, r)
    requires i <= r < |h| && LargerChild(ord, h, r, c) && ord.cmp(h[r], h[c]) <= 0
    ensures c < |h| && HeapBut(ord, Swapped(h, r, c), i, c) && Shielded(ord, Swapped(h, r, c), i, c)
  {
    hide HeapBut, Shielded, TotalPreorder, Swapped;
    SiftStep(ord, h, i, r, c);
  }

  /** The first m elements form a heap, the others are sorted and dominate them. */
  ghost predicate HeapState<T>(ord: Order<T>, s: seq<T>, lo: nat, m: nat, n: nat) {
    && m <= n && lo + n <= |s| && Heap(ord, s[lo..lo + m], 0) && Above(ord, s, lo, lo + m, lo + n)
  }

  /** [mid, hi) is sorted and dominates [lo, mid). */
  ghost predicate Above<T>(ord: Order<T>, s: seq<T>, lo: nat, mid: nat, hi: nat) {
    && SortedIn(ord, s, mid, hi)
    && forall i, j :: lo <= i < mid <= j < hi ==> Le(ord, s[i], s[j])
  }

  /** The root is exchanged with the last element of the heap. */
  lemma PopRoot<T(!new)>(ord: Order<T>, s: seq<T>, lo: nat, m: nat, n: nat)
    requires TotalPreorder(ord) && HeapState(ord, s, lo, m, n) && m > 1
    ensures var t := Swapped(s, lo, lo + m - 1);
      Heap(ord, t[lo..lo + m - 1], 1) && Above(ord, t, lo, lo + m - 1, lo + n)
  {
    hide TotalPreorder, Heap, Above;
    PopHeap(ord, s[lo..lo + m]);
    SwapInside(s, lo, lo + m, 0, m - 1);
    assert Swapped(s, lo, lo + m - 1)[lo..lo + m][..m - 1] == Swapped(s, lo, lo + m - 1)[lo..lo + m - 1];
    PopAbove(ord, s, lo, m, n);
  }

  lemma PopHeap<T>(ord: Order<T>, h: seq<T>)
    requires Heap(ord, h, 0) && |h| > 1
    ensures Heap(ord, Swapped(h, 0, |h| - 1)[..|h| - 1], 1)
  {
    var g := Swapped(h, 0, |h| - 1)[..|h| - 1];
    forall c | 0 < c < |g| && 1 <= Parent(c)
      ensures Le(ord, g[c], g[Parent(c)])
    {
      assert g[c] == h[c] && g[Parent(c)] == h[Parent(c)];
    }
  }

  lemma PopAbove<T(!new)>(ord: Order<T>, s: seq<T>, lo: nat, m: nat, n: nat)
    requires TotalPreorder(ord) && HeapState(ord, s, lo, m, n) && m > 1
    ensures Above(ord, Swapped(s, lo, lo + m - 1), lo, lo + m - 1, lo + n)
  {
    forall k | lo <= k < lo + m
      ensures Le(ord, s[k], s[lo])
    {
      RootDominates(ord, s[lo..lo + m], k - lo);
    }
  }

  lemma AboveKept<T>(ord: Order<T>, s: seq<T>, t: seq<T>, lo: nat, mid: nat, hi: nat)
    requires Above(ord, s, lo, mid, hi) && Permuted(s, t, lo, mid) && mid <= hi
    ensures Above(ord, t, lo, mid, hi)
  {
    forall j | mid <= j < hi
      ensures s[j] == t[j]
    {
      PermutedOutside(s, t, lo, mid, j);
    }
    forall i, j | lo <= i < mid <= j < hi
      ensures Le(ord, t[i], t[j])
    {
      var i' := PermutedKeeps(s, t, lo, mid, i);
      assert Le(ord, s[i'], s[j]);
    }
  }

  lemma HeapStart<T>(ord: Order<T>, h: seq<T>)
    ensures Heap(ord, h, |h| / 2)
  {
  }

  /** heapsortx on [lo, lo + n) */
  method HeapSort<T(!new)>(a: array<T>, lo: nat, n: nat, o: Comparator<T>, ghost ord: Order<T>)
    requires o.Obeys(ord)
    requires lo + n <= a.Length
    modifies a, o
    ensures Permuted(old(a[..]), a[..], lo, lo + n)
    ensures TotalPreorder(ord) ==> SortedIn(ord, a[..], lo, lo + n)
  {
    hide Permuted, Heap, TotalPreorder, Above;
    ghost var s := a[..];
    PermutedSelf(s, lo, lo + n);
    if n > 1 {
      BuildHeap(a, lo, n, o, ord);
      ghost var t := a[..];
      EmptyAbove(ord, t, lo, lo + n);
      DrainHeap(a, lo, n, o, ord);
      PermutedTrans(s, t, a[..], lo, lo + n);
    }
  }

  lemma EmptyAbove<T>(ord: Order<T>, s: seq<T>, lo: nat, hi: nat)
    requires hi <= |s|
    ensures Above(ord, s, lo, hi, hi)
  {
  }

  method BuildHeap<T(!new)>(a: array<T>, lo: nat, n: nat, o: Comparator<T>, ghost ord: Order<T>)
    requires o.Obeys(ord)
    requires lo + n <= a.Length
    modifies a, o
    ensures Permuted(old(a[..]), a[..], lo, lo + n)
    ensures TotalPreorder(ord) ==> Heap(ord, a[..][lo..lo + n], 0)
  {
    hide Permuted, Heap, TotalPreorder;
    ghost var s, hi := a[..], lo + n;
    PermutedSelf(s, lo, hi);
    HeapStart(ord, s[lo..hi]);
    var i: nat := n / 2;
    while i > 0
      invariant i <= n / 2 && Permuted(s, a[..], lo, hi)
      invariant TotalPreorder(ord) ==> Heap(ord, a[..][lo..hi], i)
    {
      ghost var t := a[..];
      i := i - 1;
      SiftDown(a, lo, i, n, o, ord);
      PermutedTrans(s, t, a[..], lo, hi);
    }
  }

  method DrainHeap<T(!new)>(a: array<T>, lo: nat, n: nat, o: Comparator<T>, ghost ord: Order<T>)
    requires o.Obeys(ord)
    requires n > 1 && lo + n <= a.Length
    requires TotalPreorder(ord) ==> HeapState(ord, a[..], lo, n, n)
    modifies a, o
    ensures Permuted(old(a[..]), a[..], lo, lo + n)
    ensures TotalPreorder(ord) ==> SortedIn(ord, a[..], lo, lo + n)
  {
    hide Permuted, TotalPreorder, Swapped, HeapState, SortedIn;
    ghost var s, hi := a[..], lo + n;
    PermutedSelf(s, lo, hi);
    var i := n - 1;
    while i > 0
      invariant i < n && Permuted(s, a[..], lo, hi)
      invariant TotalPreorder(ord) ==> HeapState(ord, a[..], lo, i + 1, n)
    {
      ghost var t := a[..];
      DrainOne(a, lo, i, n, o, ord);
      PermutedTrans(s, t, a[..], lo, hi);
      i := i - 1;
    }
    if TotalPreorder(ord) {
      DrainedSorted(ord, a[..], lo, n);
    }
  }

  lemma DrainedSorted<T>(ord: Order<T>, s: seq<T>, lo: nat, n: nat)
    requires HeapState(ord, s, lo, 1, n)
    ensures SortedIn(ord, s, lo, lo + n)
  {
  }

  lemma HeapStateFrom<T>(ord: Order<T>, s: seq<T>, lo: nat, m: nat, n: nat)
    requires m <= n && lo + n <= |s| && Heap(ord, s[lo..lo + m], 0) && Above(ord, s, lo, lo + m, lo + n)
    ensures HeapState(ord, s, lo, m, n)
  {
  }

  method DrainOne<T(!new)>(a: array<T>, lo: nat, i: nat, n: nat, o: Comparator<T>, ghost ord: Order<T>)
    requires o.Obeys(ord)
    requires 0 < i < n && lo + n <= a.Length
    requires TotalPreorder(ord) ==> HeapState(ord, a[..], lo, i + 1, n)
    modifies a, o
    ensures Permuted(old(a[..]), a[..], lo, lo + n)
    ensures TotalPreorder(ord) ==> HeapState(ord, a[..], lo, i, n)
  {
    hide *;
    ghost var s := a[..];
    Swap(a, lo, lo + i);
    ghost var t := a[..];
    SiftDown(a, lo, 0, i, o, ord);
    Drained(ord, s, t, a[..], lo, i, n);
  }

  /** The largest element went to the end, and the rest is a heap again. */
  lemma Drained<T(!new)>(ord: Order<T>, s: seq<T>, t: seq<T>, u: seq<T>, lo: nat, i: nat, n: nat)
    requires 0 < i < n && lo + n <= |s| == |t| && t == Swapped(s, lo, lo + i) && Permuted(t, u, lo, lo + i)
    requires TotalPreorder(ord) ==> HeapState(ord, s, lo, i + 1, n)
    requires TotalPreorder(ord) && Heap(ord, t[lo..lo + i], 1) ==> Heap(ord, u[lo..lo + i], 0)
    ensures Permuted(s, u, lo, lo + n) && (TotalPreorder(ord) ==> HeapState(ord, u, lo, i, n))
  {
    hide *;
    SwapPermutes(s, lo, lo + i, lo, lo + n);
    PermutedLength(t, u, lo, lo + i);
    PermutedWider(t, u, lo, lo + i, lo, lo + n);
    PermutedTrans(s, t, u, lo, lo + n);
    if TotalPreorder(ord) {
      PopRoot(ord, s, lo, i + 1, n);
      AboveKept(ord, t, u, lo, lo + i, lo + n);
      HeapStateFrom(ord, u, lo, i, n);
    }
  }

  lemma PermutedLength<T>(s: seq<T>, t: seq<T>, lo: nat, hi: nat)
    requires Permuted(s, t, lo, hi)
    ensures |s| == |t|
  {
  }

  // ---- three-way partition around the pivot p

  ghost predicate AllEqual<T>(ord: Order<T>, s: seq<T>, p: T, lo: nat, hi: nat) {
    hi <= |s| && forall k :: lo <= k < hi && ord.followed ==> s[k] == p || ord.cmp(p, s[k]) == 0
  }

  ghost predicate AllLess<T>(ord: Order<T>, s: seq<T>, p: T, lo: nat, hi: nat) {
    hi <= |s| && forall k :: lo <= k < hi && ord.followed ==> ord.cmp(p, s[k]) > 0
  }

  ghost predicate AllGreater<T>(ord: Order<T>, s: seq<T>, p: T, lo: nat, hi: nat) {
    hi <= |s| && forall k :: lo <= k < hi && ord.followed ==> ord.cmp(p, s[k]) < 0
  }

  /** The five regions of the scan: equal, less, not yet seen, greater, equal. */
  ghost predicate Regions<T>(ord: Order<T>, s: seq<T>, p: T, lo: nat, plt: nat, pi: nat, pj: nat, pgt: nat, top: nat) {
    && lo < plt <= pi <= pj <= pgt <= top <= |s| && s[lo] == p
    && AllEqual(ord, s, p, lo, plt) && AllLess(ord, s, p, plt, pi)
    && AllGreater(ord, s, p, pj, pgt) && AllEqual(ord, s, p, pgt, top)
  }

  lemma RegionsBounds<T>(ord: Order<T>, s: seq<T>, p: T, lo: nat, plt: nat, pi: nat, pj: nat, pgt: nat, top: nat)
    requires Regions(ord, s, p, lo, plt, pi, pj, pgt, top)
    ensures lo < plt <= pi <= pj <= pgt <= top <= |s| && s[lo] == p
  {
  }

  lemma LeftStep<T>(ord: Order<T>, s: seq<T>, p: T, lo: nat, plt: nat, pi: nat, pj: nat, pgt: nat, top: nat, c: int)
    requires Regions(ord, s, p, lo, plt, pi, pj, pgt, top) && pi < pj && Answers(ord, c, p, s[pi])
    ensures c == 0 ==> Regions(ord, Swapped(s, plt, pi), p, lo, plt + 1, pi + 1, pj, pgt, top)
    ensures c > 0 ==> Regions(ord, s, p, lo, plt, pi + 1, pj, pgt, top)
  {
  }

  lemma RightStep<T>(ord: Order<T>, s: seq<T>, p: T, lo: nat, plt: nat, pi: nat, pj: nat, pgt: nat, top: nat, c: int)
    requires Regions(ord, s, p, lo, plt, pi, pj, pgt, top) && pi < pj && Answers(ord, c, p, s[pj - 1])
    ensures c == 0 ==> Regions(ord, Swapped(s, pgt - 1, pj - 1), p, lo, plt, pi, pj - 1, pgt - 1, top)
    ensures c < 0 ==> Regions(ord, s, p, lo, plt, pi, pj - 1, pgt, top)
  {
  }

  /** Without looking at it: the element before pj is one that belongs to the right. */
  lemma LastGreater<T>(ord: Order<T>, s: seq<T>, p: T, lo: nat, plt: nat, pi: nat, pgt: nat, top: nat)
    requires Regions(ord, s, p, lo, plt, pi, pi + 1, pgt, top) && Right(ord, s, p, pi)
    ensures Regions(ord, s, p, lo, plt, pi, pi, pgt, top)
  {
  }

  lemma CrossStep<T>(ord: Order<T>, s: seq<T>, p: T, lo: nat, plt: nat, pi: nat, pj: nat, pgt: nat, top: nat)
    requires Regions(ord, s, p, lo, plt, pi, pj + 1, pgt, top) && pi < pj && Right(ord, s, p, pi)
    requires Left(ord, s, p, pj)
    ensures Regions(ord, Swapped(s, pi, pj), p, lo, plt, pi + 1, pj, pgt, top)
  {
  }

  /** The scan from the left. */
  method ScanLeft<T(!new)>(a: array<T>, lo: nat, plt0: nat, pi0: nat, pj: nat, ghost pgt: nat, ghost top: nat,
      o: Comparator<T>, ghost ord: Order<T>, ghost p: T)
    returns (plt: nat, pi: nat)
    requires o.Obeys(ord)
    requires top <= a.Length && Regions(ord, a[..], p, lo, plt0, pi0, pj, pgt, top)
    modifies a, o
    ensures Permuted(old(a[..]), a[..], lo, top) && pi0 <= pi
    ensures Regions(ord, a[..], p, lo, plt, pi, pj, pgt, top) && (pi < pj ==> Right(ord, a[..], p, pi))
  {
    hide Permuted, AllEqual, AllLess, AllGreater, Swapped;
    ghost var s := a[..];
    PermutedSelf(s, lo, top);
    plt, pi := plt0, pi0;
    while pi < pj
      invariant pi0 <= pi && Regions(ord, a[..], p, lo, plt, pi, pj, pgt, top) && Permuted(s, a[..], lo, top)
      decreases pj - pi
    {
      ghost var t := a[..];
      var c := Ask(o, ord, a[lo], a[pi]);
      assert a[..] == t;
      if c < 0 {
        break;
      }
      LeftStep(ord, t, p, lo, plt, pi, pj, pgt, top, c);
      if c == 0 {
        Swap(a, plt, pi);
        SwapPermutes(t, plt, pi, lo, top);
        PermutedTrans(s, t, a[..], lo, top);
        plt := plt + 1;
      }
      pi := pi + 1;
    }
  }

  /** The element at k belongs to the right of the pivot. */
  ghost predicate Right<T>(ord: Order<T>, s: seq<T>, p: T, k: nat) {
    k < |s| && ord.followed ==> ord.cmp(p, s[k]) < 0
  }

  /** One comparison of the scan from the right: stop says that the element at pj belongs to the left. */
  method RightOne<T(!new)>(a: array<T>, lo: nat, ghost plt: nat, ghost pi: nat, pj: nat, pgt0: nat, ghost top: nat,
                           o: Comparator<T>, ghost ord: Order<T>, ghost p: T)
    returns (pgt: nat, stop: bool)
    requires o.Obeys(ord) && top <= a.Length && pi < pj && Regions(ord, a[..], p, lo, plt, pi, pj + 1, pgt0, top)
    requires Right(ord, a[..], p, pi)
    modifies a, o
    ensures Permuted(old(a[..]), a[..], lo, top) && Right(ord, a[..], p, pi)
    ensures if stop then pj < a.Length && Left(ord, a[..], p, pj)
      && Regions(ord, a[..], p, lo, plt, pi, pj + 1, pgt, top)
            else Regions(ord, a[..], p, lo, plt, pi, pj, pgt, top)
  {
    hide Permuted, Regions, TotalPreorder, Right, Left, Swapped;
    ghost var t := a[..];
    RegionsBounds(ord, t, p, lo, plt, pi, pj + 1, pgt0, top);
    PermutedSelf(t, lo, top);
    pgt := pgt0;
    var c := Ask(o, ord, a[lo], a[pj]);
    assert a[..] == t;
    stop := c > 0;
    if stop {
      IsLeft(ord, t, p, pj, c);
    } else {
      RightStep(ord, t, p, lo, plt, pi, pj + 1, pgt, top, c);
      if c == 0 {
        pgt := pgt - 1;
        Swap(a, pgt, pj);
        SwapPermutes(t, pgt, pj, lo, top);
        RightKept(ord, t, p, pi, pgt, pj);
      }
    }
  }

  /** The element at k belongs to the left of the pivot. */
  ghost predicate Left<T>(ord: Order<T>, s: seq<T>, p: T, k: nat) {
    k < |s| && ord.followed ==> ord.cmp(p, s[k]) > 0
  }

  lemma IsLeft<T>(ord: Order<T>, s: seq<T>, p: T, k: nat, c: int)
    requires k < |s| && c > 0 && Answers(ord, c, p, s[k])
    ensures Left(ord, s, p, k)
  {
  }

  lemma RightKept<T>(ord: Order<T>, s: seq<T>, p: T, k: nat, i: nat, j: nat)
    requires Right(ord, s, p, k) && k < j <= i < |s|
    ensures Right(ord, Swapped(s, i, j), p, k)
  {
  }

  /** The scan from the right, up to an element that belongs to the left. */
  method ScanRight<T(!new)>(a: array<T>, lo: nat, ghost plt: nat, pi: nat, pj0: nat, pgt0: nat, ghost top: nat,
                            o: Comparator<T>, ghost ord: Order<T>, ghost p: T)
    returns (pj: nat, pgt: nat, more: bool)
    requires o.Obeys(ord)
    requires top <= a.Length && Regions(ord, a[..], p, lo, plt, pi, pj0, pgt0, top)
      && (pi < pj0 ==> Right(ord, a[..], p, pi))
    modifies a, o
    ensures Permuted(old(a[..]), a[..], lo, top)
    ensures if more then pi < pj < pj0 && Right(ord, a[..], p, pi) && pj < a.Length && Left(ord, a[..], p, pj)
                         && Regions(ord, a[..], p, lo, plt, pi, pj + 1, pgt, top)
            else Regions(ord, a[..], p, lo, plt, pi, pi, pgt, top)
  {
    hide Permuted, Regions, Right, Left;
    ghost var s := a[..];
    RegionsBounds(ord, s, p, lo, plt, pi, pj0, pgt0, top);
    PermutedSelf(s, lo, top);
    pj, pgt := pj0, pgt0;
    while true
      invariant pj <= pj0 && Regions(ord, a[..], p, lo, plt, pi, pj, pgt, top) && Permuted(s, a[..], lo, top)
      invariant pi < pj ==> Right(ord, a[..], p, pi)
      decreases pj
    {
      ghost var t := a[..];
      RegionsBounds(ord, t, p, lo, plt, pi, pj, pgt, top);
      pj := pj - 1;
      if pi >= pj {
        if pi == pj {
          LastGreater(ord, t, p, lo, plt, pi, pgt, top);
        }
        return pj, pgt, false;
      }
      var stop;
      pgt, stop := RightOne(a, lo, plt, pi, pj, pgt, top, o, ord, p);
      PermutedTrans(s, t, a[..], lo, top);
      if stop {
        RegionsBounds(ord, a[..], p, lo, plt, pi, pj + 1, pgt, top);
        return pj, pgt, true;
      }
    }
  }

  /** m is the position of an element between the other two. */
  ghost predicate IsMedian<T>(ord: Order<T>, s: seq<T>, i: nat, j: nat, k: nat, m: nat)
    requires i < |s| && j < |s| && k < |s|
  {
    || (m == i && Between(ord, s[j], s[i], s[k]))
    || (m == j && Between(ord, s[i], s[j], s[k]))
    || (m == k && Between(ord, s[i], s[k], s[j]))
  }

  ghost predicate Between<T>(ord: Order<T>, x: T, y: T, z: T) {
    (Le(ord, x, y) && Le(ord, y, z)) || (Le(ord, z, y) && Le(ord, y, x))
  }

  /** med3: one of the three positions, that of a median when the comparator orders its elements */
  method Median<T(!new)>(a: array<T>, i: nat, j: nat, k: nat, o: Comparator<T>, ghost ord: Order<T>) returns (m: nat)
    requires o.Obeys(ord) && i < a.Length && j < a.Length && k < a.Length
    modifies o
    ensures m == i || m == j || m == k
    ensures TotalPreorder(ord) ==> IsMedian(ord, a[..], i, j, k, m)
  {
    hide TotalPreorder;
    ghost var s := a[..];
    var c := Ask(o, ord, a[i], a[j]);
    var d := Ask(o, ord, a[j], a[k]);
    if (c < 0 && d < 0) || (c >= 0 && d > 0) {
      m := j;
    } else {
      var e := Ask(o, ord, a[i], a[k]);
      m := if c < 0 then (if e < 0 then k else i) else (if e < 0 then i else k);
    }
    assert a[..] == s;
    if TotalPreorder(ord) {
      MedianIs(ord, s, i, j, k, m);
    }
  }

  lemma MedianIs<T(!new)>(ord: Order<T>, s: seq<T>, i: nat, j: nat, k: nat, m: nat)
    requires TotalPreorder(ord) && i < |s| && j < |s| && k < |s|
    requires m == (if ord.cmp(s[i], s[j]) < 0 then
                     (if ord.cmp(s[j], s[k]) < 0 then j else if ord.cmp(s[i], s[k]) < 0 then k else i)
                   else (if ord.cmp(s[j], s[k]) > 0 then j else if ord.cmp(s[i], s[k]) < 0 then i else k))
    ensures IsMedian(ord, s, i, j, k, m)
  {
    var x, y, z := s[i], s[j], s[k];
    assert (ord.cmp(x, y) < 0 <==> ord.cmp(y, x) > 0) && (ord.cmp(y, x) < 0 <==> ord.cmp(x, y) > 0);
    assert (ord.cmp(y, z) < 0 <==> ord.cmp(z, y) > 0) && (ord.cmp(z, y) < 0 <==> ord.cmp(y, z) > 0);
    assert (ord.cmp(x, z) < 0 <==> ord.cmp(z, x) > 0) && (ord.cmp(z, x) < 0 <==> ord.cmp(x, z) > 0);
  }

  /** Both scans until they meet. */
  method ScanBoth<T(!new)>(a: array<T>, lo: nat, top: nat, o: Comparator<T>, ghost ord: Order<T>) returns (plt: nat,
      pi: nat, pgt: nat, ghost p: T)
    requires o.Obeys(ord)
    requires lo + 1 < top <= a.Length
    modifies a, o
    ensures Permuted(old(a[..]), a[..], lo, top) && Regions(ord, a[..], p, lo, plt, pi, pi, pgt, top)
  {
    hide Permuted, AllEqual, AllLess, AllGreater, Swapped;
    ghost var s := a[..];
    p := a[lo];
    PermutedSelf(s, lo, top);
    RegionsStart(ord, s, lo, top);
    plt, pi, pgt := lo + 1, lo + 1, top;
    var pj, more := top, true;
    while more
      invariant Permuted(s, a[..], lo, top)
      invariant if more then Regions(ord, a[..], p, lo, plt, pi, pj, pgt, top)
        else Regions(ord, a[..], p, lo, plt, pi, pi, pgt, top)
      decreases more, pj
    {
      ghost var t := a[..];
      plt, pi := ScanLeft(a, lo, plt, pi, pj, pgt, top, o, ord, p);
      ghost var u := a[..];
      PermutedTrans(s, t, u, lo, top);
      pj, pgt, more := ScanRight(a, lo, plt, pi, pj, pgt, top, o, ord, p);
      ghost var v := a[..];
      PermutedTrans(s, u, v, lo, top);
      if more {
        CrossStep(ord, v, p, lo, plt, pi, pj, pgt, top);
        Swap(a, pi, pj);
        SwapPermutes(v, pi, pj, lo, top);
        PermutedTrans(s, v, a[..], lo, top);
        pi := pi + 1;
      }
    }
  }

  lemma RegionsStart<T>(ord: Order<T>, s: seq<T>, lo: nat, top: nat)
    requires lo < top <= |s|
    ensures Regions(ord, s, s[lo], lo, lo + 1, lo + 1, top, top, top)
  {
  }

  /** t is s with the blocks of length n at i and j exchanged. */
  ghost predicate BlocksSwapped<T>(s: seq<T>, t: seq<T>, i: nat, j: nat, n: nat) {
    && i + n <= j && j + n <= |s| == |t|
    && (forall k :: i <= k < i + n ==> t[k] == s[j + (k - i)])
    && (forall k :: j <= k < j + n ==> t[k] == s[i + (k - j)])
    && (forall k :: 0 <= k < |s| && !(i <= k < i + n) && !(j <= k < j + n) ==> t[k] == s[k])
  }

  method SwapBlock<T>(a: array<T>, i: nat, j: nat, n: nat, ghost lo: nat, ghost hi: nat)
    requires lo <= i && i + n <= j && j + n <= hi <= a.Length
    modifies a
    ensures BlocksSwapped(old(a[..]), a[..], i, j, n) && Permuted(old(a[..]), a[..], lo, hi)
  {
    hide Permuted, BlocksSwapped, Swapped;
    ghost var s := a[..];
    PermutedSelf(s, lo, hi);
    BlocksStart(s, i, j);
    var k := 0;
    while k < n
      invariant k <= n && BlocksSwapped(s, a[..], i, j, k) && Permuted(s, a[..], lo, hi)
    {
      ghost var t := a[..];
      Swap(a, i + k, j + k);
      BlocksStep(s, t, i, j, k);
      SwapPermutes(t, i + k, j + k, lo, hi);
      PermutedTrans(s, t, a[..], lo, hi);
      k := k + 1;
    }
  }

  lemma BlocksStart<T>(s: seq<T>, i: nat, j: nat)
    requires i <= j <= |s|
    ensures BlocksSwapped(s, s, i, j, 0)
  {
  }

  lemma BlocksStep<T>(s: seq<T>, t: seq<T>, i: nat, j: nat, k: nat)
    requires BlocksSwapped(s, t, i, j, k) && i + k < j && j + k < |s|
    ensures BlocksSwapped(s, Swapped(t, i + k, j + k), i, j, k + 1)
  {
  }

  /** Less, equal, greater. */
  ghost predicate ThreeWay<T>(ord: Order<T>, s: seq<T>, p: T, lo: nat, l: nat, g: nat, top: nat) {
    && lo <= l < g <= top <= |s|
    && AllLess(ord, s, p, lo, l) && AllEqual(ord, s, p, l, g) && AllGreater(ord, s, p, g, top)
  }

  /** The left equal block trades places with the end of the less block. */
  lemma GatherLeft<T>(ord: Order<T>, s: seq<T>, t: seq<T>, p: T, lo: nat, plt: nat, pi: nat, pgt: nat, top: nat,
      span: nat)
    requires Regions(ord, s, p, lo, plt, pi, pi, pgt, top)
    requires span == (if plt - lo > pi - plt then pi - plt else plt - lo) && BlocksSwapped(s, t, lo, pi - span, span)
    ensures AllLess(ord, t, p, lo, lo + (pi - plt)) && AllEqual(ord, t, p, lo + (pi - plt), pi)
    ensures AllGreater(ord, t, p, pi, pgt) && AllEqual(ord, t, p, pgt, top)
  {
  }

  /** The right equal block trades places with the start of the greater block. */
  lemma GatherRight<T>(ord: Order<T>, s: seq<T>, t: seq<T>, p: T, lo: nat, l: nat, pi: nat, pgt: nat, top: nat,
      span: nat)
    requires lo <= l < pi <= pgt <= top <= |s| && AllLess(ord, s, p, lo, l) && AllEqual(ord, s, p, l, pi)
    requires AllGreater(ord, s, p, pi, pgt) && AllEqual(ord, s, p, pgt, top)
    requires span == (if top - pgt > pgt - pi then pgt - pi else top - pgt) && BlocksSwapped(s, t, pi, top - span, span)
    ensures ThreeWay(ord, t, p, lo, l, top - (pgt - pi), top)
  {
  }

  /** Partition [lo, top) around a pivot taken from it. */
  method Partition<T(!new)>(a: array<T>, lo: nat, top: nat, o: Comparator<T>, ghost ord: Order<T>)
    returns (l: nat, g: nat, ghost p: T)
    requires o.Obeys(ord)
    requires lo + 6 < top <= a.Length
    modifies a, o
    ensures Permuted(old(a[..]), a[..], lo, top) && ThreeWay(ord, a[..], p, lo, l, g, top)
  {
    hide Permuted, AllEqual, AllLess, AllGreater, BlocksSwapped, Swapped, IsMedian;
    ghost var s := a[..];
    var m4 := (top - lo) / 4;
    var m := Median(a, lo + m4, lo + 2 * m4, lo + 3 * m4, o, ord);
    assert a[..] == s;
    Swap(a, lo, m);
    ghost var t := a[..];
    SwapPermutes(s, lo, m, lo, top);
    var plt, pi, pgt;
    plt, pi, pgt, p := ScanBoth(a, lo, top, o, ord);
    ghost var u := a[..];
    PermutedTrans(s, t, u, lo, top);
    l, g := Gather(a, lo, plt, pi, pgt, top, ord, p);
    PermutedTrans(s, u, a[..], lo, top);
  }

  method Gather<T>(a: array<T>, lo: nat, plt: nat, pi: nat, pgt: nat, top: nat, ghost ord: Order<T>, ghost p: T)
    returns (l: nat, g: nat)
    requires top <= a.Length && Regions(ord, a[..], p, lo, plt, pi, pi, pgt, top)
    modifies a
    ensures Permuted(old(a[..]), a[..], lo, top) && ThreeWay(ord, a[..], p, lo, l, g, top)
  {
    hide Permuted, AllEqual, AllLess, AllGreater, BlocksSwapped, ThreeWay;
    ghost var s := a[..];
    var span := if plt - lo > pi - plt then pi - plt else plt - lo;
    l := lo + (pi - plt);
    SwapBlock(a, lo, pi - span, span, lo, top);
    ghost var t := a[..];
    GatherLeft(ord, s, t, p, lo, plt, pi, pgt, top, span);
    span := if top - pgt > pgt - pi then pgt - pi else top - pgt;
    g := top - (pgt - pi);
    SwapBlock(a, pi, top - span, span, lo, top);
    GatherRight(ord, t, a[..], p, lo, l, pi, pgt, top, span);
    PermutedTrans(s, t, a[..], lo, top);
  }

  // ---- segments still to be sorted

  datatype Segment = Segment(base: nat, count: nat, depth: nat) {
    function End(): nat { base + count }
  }

  ghost predicate Apart(x: Segment, y: Segment) {
    x.End() <= y.base || y.End() <= x.base
  }

  /** The segments lie inside an array of length n and do not overlap. */
  ghost predicate Spans(segs: seq<Segment>, n: nat) {
    && (forall k :: 0 <= k < |segs| ==> segs[k].End() <= n)
    && (forall i, j :: 0 <= i < j < |segs| ==> Apart(segs[i], segs[j]))
  }

  ghost predicate Inside(segs: seq<Segment>, p: nat) {
    exists k :: 0 <= k < |segs| && segs[k].base < p < segs[k].End()
  }

  /** Both ends of every segment are cuts, and so is every position not strictly inside a segment. */
  ghost predicate Ordered<T>(ord: Order<T>, s: seq<T>, segs: seq<Segment>) {
    && (forall k :: 0 <= k < |segs| ==> Cut(ord, s, segs[k].base) && Cut(ord, s, segs[k].End()))
    && (forall p: nat :: p <= |s| ==> Cut(ord, s, p) || Inside(segs, p))
  }

  /** Between two cuts a three-way partition has cuts at both ends of the equal block and inside it. */
  lemma ThreeWayCuts<T(!new)>(ord: Order<T>, s: seq<T>, p: T, lo: nat, l: nat, g: nat, hi: nat, q: nat)
    requires TotalPreorder(ord) && ThreeWay(ord, s, p, lo, l, g, hi) && Cut(ord, s, lo) && Cut(ord, s, hi)
      && l <= q <= g
    ensures Cut(ord, s, q)
  {
    forall i, j | 0 <= i < q <= j < |s|
      ensures Le(ord, s[i], s[j])
    {
      if i < lo {
        assert Cut(ord, s, lo);
      } else if j >= hi {
        assert Cut(ord, s, hi);
      } else {
        assert ord.cmp(p, p) == 0;
        assert ord.cmp(s[i], p) <= 0 && ord.cmp(p, s[j]) <= 0;
      }
    }
  }

  lemma InsideSnoc(segs: seq<Segment>, x: Segment, p: nat)
    ensures Inside(segs + [x], p) <==> Inside(segs, p) || x.base < p < x.End()
  {
    if k :| 0 <= k < |segs| && segs[k].base < p < segs[k].End() {
      assert (segs + [x])[k] == segs[k];
    }
    assert (segs + [x])[|segs|] == x;
    if k :| 0 <= k < |segs + [x]| && (segs + [x])[k].base < p < (segs + [x])[k].End() {
      assert k < |segs| ==> segs[k] == (segs + [x])[k];
    }
  }

  /** Rearranging the last segment keeps the ends of all segments. */
  lemma EndsKept<T>(ord: Order<T>, s: seq<T>, t: seq<T>, segs: seq<Segment>, cur: Segment)
    requires Spans(segs + [cur], |s|) && Ordered(ord, s, segs + [cur]) && Permuted(s, t, cur.base, cur.End())
    ensures forall k :: 0 <= k < |segs| ==> Cut(ord, t, segs[k].base) && Cut(ord, t, segs[k].End())
    ensures Cut(ord, t, cur.base) && Cut(ord, t, cur.End())
  {
    var all := segs + [cur];
    assert all[|segs|] == cur;
    CutKept(ord, s, t, cur.base, cur.End(), cur.base);
    CutKept(ord, s, t, cur.base, cur.End(), cur.End());
    forall k | 0 <= k < |segs|
      ensures Cut(ord, t, segs[k].base) && Cut(ord, t, segs[k].End())
    {
      assert all[k] == segs[k] && Apart(all[k], all[|segs|]);
      CutKept(ord, s, t, cur.base, cur.End(), segs[k].base);
      CutKept(ord, s, t, cur.base, cur.End(), segs[k].End());
    }
  }

  /** A position outside the last segment stays as it is. */
  lemma OutsideKept<T>(ord: Order<T>, s: seq<T>, t: seq<T>, segs: seq<Segment>, cur: Segment, p: nat)
    requires Ordered(ord, s, segs + [cur]) && Permuted(s, t, cur.base, cur.End())
    requires p <= |s| && !(cur.base < p < cur.End())
    ensures Cut(ord, t, p) || Inside(segs, p)
  {
    InsideSnoc(segs, cur, p);
    if Cut(ord, s, p) {
      CutKept(ord, s, t, cur.base, cur.End(), p);
    }
  }

  /** The last segment is sorted. */
  lemma DropSorted<T>(ord: Order<T>, s: seq<T>, t: seq<T>, segs: seq<Segment>, cur: Segment)
    requires Spans(segs + [cur], |s|) && Ordered(ord, s, segs + [cur]) && Permuted(s, t, cur.base, cur.End())
    requires SortedIn(ord, t, cur.base, cur.End())
    ensures Ordered(ord, t, segs)
  {
    EndsKept(ord, s, t, segs, cur);
    forall p: nat | p <= |t|
      ensures Cut(ord, t, p) || Inside(segs, p)
    {
      if cur.base < p < cur.End() {
        SortedCuts(ord, t, cur.base, cur.End(), p);
      } else {
        OutsideKept(ord, s, t, segs, cur, p);
      }
    }
  }

  /** The last segment is partitioned; its outer parts take its place, in either order. */
  lemma SplitSegment<T(!new)>(ord: Order<T>, s: seq<T>, t: seq<T>, segs: seq<Segment>, cur: Segment, x: Segment,
      y: Segment, l: nat, g: nat, p: T)
    requires TotalPreorder(ord) && Spans(segs + [cur], |s|) && Ordered(ord, s, segs + [cur])
    requires Permuted(s, t, cur.base, cur.End()) && ThreeWay(ord, t, p, cur.base, l, g, cur.End())
    requires IsSplit(cur, x, y, l, g)
    ensures Ordered(ord, t, segs + [x] + [y])
  {
    hide ThreeWay, TotalPreorder, Cut, Inside;
    EndsKept(ord, s, t, segs, cur);
    ThreeWayCuts(ord, t, p, cur.base, l, g, cur.End(), l);
    ThreeWayCuts(ord, t, p, cur.base, l, g, cur.End(), g);
    forall q: nat | q <= |t|
      ensures Cut(ord, t, q) || Inside(segs + [x] + [y], q)
    {
      InsideSnoc(segs + [x], y, q);
      InsideSnoc(segs, x, q);
      if l <= q <= g {
        ThreeWayCuts(ord, t, p, cur.base, l, g, cur.End(), q);
      } else if !(cur.base < q < cur.End()) {
        OutsideKept(ord, s, t, segs, cur, q);
      }
    }
  }

  /** x and y are [base, l) and [g, end) of cur, in one order or the other. */
  ghost predicate IsSplit(cur: Segment, x: Segment, y: Segment, l: nat, g: nat) {
    && cur.base <= l < g <= cur.End()
    && ((x.base == cur.base && x.End() == l && y.base == g && y.End() == cur.End())
        || (y.base == cur.base && y.End() == l && x.base == g && x.End() == cur.End()))
  }

  lemma SplitSpans(segs: seq<Segment>, cur: Segment, x: Segment, y: Segment, l: nat, g: nat, n: nat)
    requires Spans(segs + [cur], n) && IsSplit(cur, x, y, l, g)
    ensures Spans(segs + [x] + [y], n)
  {
    var old_, all := segs + [cur], segs + [x] + [y];
    assert old_[|segs|] == cur;
    forall i, j | 0 <= i < j < |all|
      ensures Apart(all[i], all[j])
    {
      if i < |segs| {
        assert all[i] == old_[i] && Apart(old_[i], old_[|segs|]);
        if j < |segs| {
          assert all[j] == old_[j];
        }
      }
    }
    forall k | 0 <= k < |all|
      ensures all[k].End() <= n
    {
      if k < |segs| {
        assert all[k] == old_[k];
      }
    }
  }

  lemma SpansPrefix(segs: seq<Segment>, cur: Segment, n: nat)
    requires Spans(segs + [cur], n)
    ensures Spans(segs, n) && cur.End() <= n
  {
    var all := segs + [cur];
    assert all[|segs|] == cur;
    forall k | 0 <= k < |segs|
      ensures segs[k] == all[k]
    {
    }
  }

  /** Elements that are still to be sorted. */
  function Total(segs: seq<Segment>): nat {
    if segs == [] then 0 else Total(segs[..|segs| - 1]) + segs[|segs| - 1].count
  }

  const STACK: nat := 50

  /** Entry k of the stack was pushed at depth k or more, and no depth exceeds 50. */
  ghost predicate Deep(segs: seq<Segment>) {
    forall k :: 0 <= k < |segs| ==> k <= segs[k].depth <= STACK
  }

  /** Everything the loops keep: `all` are the segments still to be sorted. */
  ghost predicate Pending<T(!new)>(ord: Order<T>, s0: seq<T>, s: seq<T>, all: seq<Segment>) {
    && Permuted(s0, s, 0, |s|) && Spans(all, |s|) && (TotalPreorder(ord) ==> Ordered(ord, s, all))
  }

  lemma PendingSplit<T(!new)>(ord: Order<T>, s0: seq<T>, s: seq<T>, t: seq<T>, segs: seq<Segment>, cur: Segment,
      x: Segment, y: Segment,
                              l: nat, g: nat, p: T)
    requires Pending(ord, s0, s, segs + [cur]) && Permuted(s, t, cur.base, cur.End())
    requires ThreeWay(ord, t, p, cur.base, l, g, cur.End()) && IsSplit(cur, x, y, l, g)
    ensures Pending(ord, s0, t, segs + [x] + [y])
  {
    hide ThreeWay, TotalPreorder, Ordered, Spans, IsSplit;
    PermutedWider(s, t, cur.base, cur.End(), 0, |s|);
    PermutedTrans(s0, s, t, 0, |s|);
    SplitSpans(segs, cur, x, y, l, g, |s|);
    if TotalPreorder(ord) {
      SplitSegment(ord, s, t, segs, cur, x, y, l, g, p);
    }
  }

  lemma PendingDrop<T(!new)>(ord: Order<T>, s0: seq<T>, s: seq<T>, t: seq<T>, segs: seq<Segment>, cur: Segment)
    requires Pending(ord, s0, s, segs + [cur]) && Permuted(s, t, cur.base, cur.End())
    requires TotalPreorder(ord) ==> SortedIn(ord, t, cur.base, cur.End())
    ensures Pending(ord, s0, t, segs)
  {
    hide TotalPreorder, Ordered, Spans, SortedIn;
    PermutedWider(s, t, cur.base, cur.End(), 0, |s|);
    PermutedTrans(s0, s, t, 0, |s|);
    SpansPrefix(segs, cur, |s|);
    if TotalPreorder(ord) {
      DropSorted(ord, s, t, segs, cur);
    }
  }

  lemma PendingLast<T(!new)>(ord: Order<T>, s0: seq<T>, s: seq<T>, segs: seq<Segment>, cur: Segment)
    requires Pending(ord, s0, s, segs + [cur])
    ensures cur.End() <= |s|
  {
    SpansPrefix(segs, cur, |s|);
  }

  lemma TotalSnoc(segs: seq<Segment>, x: Segment)
    ensures Total(segs + [x]) == Total(segs) + x.count
  {
    assert (segs + [x])[..|segs|] == segs;
  }

  /** Partition the current segment, stack the larger part and go on with the smaller one. */
  method SplitStep<T(!new)>(a: array<T>, stack: array<Segment>, sp: nat, cur: Segment, o: Comparator<T>,
      ghost ord: Order<T>, ghost s0: seq<T>) returns (next: Segment)
    requires o.Obeys(ord)
    requires (a as object) != stack && stack.Length == STACK && sp <= cur.depth < STACK && cur.count > 6
    requires Deep(stack[..sp]) && Pending(ord, s0, a[..], stack[..sp] + [cur])
    modifies a, stack, o
    ensures Deep(stack[..sp + 1]) && Pending(ord, s0, a[..], stack[..sp + 1] + [next])
    ensures next.depth == cur.depth + 1 && next.count < cur.count
    ensures Total(stack[..sp + 1]) + next.count < old(Total(stack[..sp])) + cur.count
  {
    hide Permuted, Spans, Ordered, TotalPreorder, ThreeWay, Pending, Total;
    ghost var s, segs := a[..], stack[..sp];
    PendingLast(ord, s0, s, segs, cur);
    var l, g;
    ghost var p;
    l, g, p := Partition(a, cur.base, cur.End(), o, ord);
    ThreeWayBounds(ord, a[..], p, cur.base, l, g, cur.End());
    var left := Segment(cur.base, l - cur.base, cur.depth + 1);
    var right := Segment(g, cur.End() - g, cur.depth + 1);
    var push;
    if left.count > right.count {
      push, next := left, right;
    } else {
      push, next := right, left;
    }
    stack[sp] := push;
    assert stack[..sp + 1] == segs + [push];
    PendingSplit(ord, s0, s, a[..], segs, cur, push, next, l, g, p);
    TotalSnoc(segs, push);
  }

  lemma ThreeWayBounds<T>(ord: Order<T>, s: seq<T>, p: T, lo: nat, l: nat, g: nat, top: nat)
    requires ThreeWay(ord, s, p, lo, l, g, top)
    ensures lo <= l < g <= top <= |s|
  {
  }

  /** Sort the current segment, except for the parts that are stacked on the way. */
  method SortSegment<T(!new)>(a: array<T>, stack: array<Segment>, sp0: nat, cur0: Segment, o: Comparator<T>,
      ghost ord: Order<T>, ghost s0: seq<T>) returns (sp: nat)
    requires o.Obeys(ord)
    requires (a as object) != stack && stack.Length == STACK && sp0 <= cur0.depth <= STACK
    requires Deep(stack[..sp0]) && Pending(ord, s0, a[..], stack[..sp0] + [cur0])
    modifies a, stack, o
    ensures sp0 <= sp <= STACK && Deep(stack[..sp]) && Pending(ord, s0, a[..], stack[..sp])
    ensures Total(stack[..sp]) + (if sp > sp0 then 1 else 0) <= old(Total(stack[..sp0])) + cur0.count
  {
    hide Permuted, Spans, Ordered, TotalPreorder, Pending, Total, Deep, SortedIn;
    var cur := cur0;
    sp := sp0;
    while cur.count > 6
      invariant sp0 <= sp <= cur.depth <= STACK
      invariant Deep(stack[..sp]) && Pending(ord, s0, a[..], stack[..sp] + [cur])
      invariant Total(stack[..sp]) + cur.count + (if sp > sp0 then 1 else 0) <= old(Total(stack[..sp0])) + cur0.count
      decreases cur.count
    {
      if cur.depth + 1 > STACK {
        ghost var s := a[..];
        PendingLast(ord, s0, s, stack[..sp], cur);
        HeapSort(a, cur.base, cur.count, o, ord);
        PendingDrop(ord, s0, s, a[..], stack[..sp], cur);
        return;
      }
      cur := SplitStep(a, stack, sp, cur, o, ord, s0);
      sp := sp + 1;
    }
    ghost var s := a[..];
    PendingLast(ord, s0, s, stack[..sp], cur);
    InsertionSort(a, cur.base, cur.End(), o, ord);
    PendingDrop(ord, s0, s, a[..], stack[..sp], cur);
  }

  /** rqsort.  For any comparator, consistent or not, it terminates, permutes the array and never has more than 50
      segments stacked; for one that follows a comparison which orders the elements the array ends up sorted. */
  method Sort<T(!new)>(a: array<T>, o: Comparator<T>, ghost ord: Order<T>)
    requires o.Obeys(ord)
    modifies a, o
    ensures multiset(a[..]) == multiset(old(a[..]))
    ensures TotalPreorder(ord) ==> SortedIn(ord, a[..], 0, a.Length)
  {
    hide Permuted, Spans, Ordered, TotalPreorder, Pending, Total, SortedIn;
    ghost var s0 := a[..];
    if a.Length < 2 {
      ShortSorted(ord, s0);
      return;
    }
    var stack := new Segment[STACK](_ => Segment(0, 0, 0));
    stack[0] := Segment(0, a.Length, 0);
    var sp := 1;
    assert stack[..1] == [Segment(0, a.Length, 0)];
    PendingStart(ord, s0);
    while sp > 0
      invariant sp <= STACK && Deep(stack[..sp]) && Pending(ord, s0, a[..], stack[..sp])
      decreases Total(stack[..sp]), sp
    {
      sp := sp - 1;
      var cur := stack[sp];
      assert stack[..sp + 1] == stack[..sp] + [cur];
      assert stack[..sp + 1][sp] == cur && stack[..sp] == stack[..sp + 1][..sp];
      TotalSnoc(stack[..sp], cur);
      sp := SortSegment(a, stack, sp, cur, o, ord, s0);
    }
    assert stack[..0] == [];
    PendingEnd(ord, s0, a[..]);
  }

  lemma ShortSorted<T(!new)>(ord: Order<T>, s: seq<T>)
    requires |s| < 2
    ensures SortedIn(ord, s, 0, |s|)
  {
  }

  lemma PendingStart<T(!new)>(ord: Order<T>, s: seq<T>)
    ensures Pending(ord, s, s, [Segment(0, |s|, 0)])
  {
    var all := [Segment(0, |s|, 0)];
    PermutedSelf(s, 0, |s|);
    forall p: nat | p <= |s|
      ensures Cut(ord, s, p) || Inside(all, p)
    {
      assert all[0].base == 0 && all[0].End() == |s|;
    }
  }

  lemma PendingEnd<T(!new)>(ord: Order<T>, s0: seq<T>, s: seq<T>)
    requires Pending(ord, s0, s, [])
    ensures multiset(s) == multiset(s0) && (TotalPreorder(ord) ==> SortedIn(ord, s, 0, |s|))
  {
    assert s[0..|s|] == s && s0[0..|s|] == s0;
    if TotalPreorder(ord) {
      forall p: nat | 0 < p < |s|
        ensures Cut(ord, s, p)
      {
        assert !Inside([], p);
      }
      AllCutsSorted(ord, s, 0, |s|);
    }
  }
}

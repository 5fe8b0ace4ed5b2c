/** ntt_fft: the transform of 2^k entries between two buffers, with entries kept below 2m. */
module NttFft {
  import opened Limbs
  import opened LimbKernels
  import opened NttPoly
  import opened NttStage
  import opened NttWord

  ghost predicate Below(s: seq<nat>, m: nat) {
    forall i :: 0 <= i < |s| ==> s[i] < m
  }

  // ---- one butterfly

  /** The two results for entries x and y and the factor c, congruent to u. */
  lemma ButterflyWords(b: nat, m: nat, x: nat, y: nat, c: nat, u: int)
    requires 4 * m <= b && x < 2 * m && y < 2 * m && c < m && Cong(m, c, u)
    ensures var b0 := AddMod(x, y, 2 * m); var b1 := MulFast3(b, x - y + 2 * m, c, m, Inverse2(b, c, m));
      b0 < 2 * m && b1 < 2 * m && Cong(m, b0, x + y) && Cong(m, b1, u * (x - y))
  {
    hide Cong, MulFast3, Inverse2;
    var d := x - y + 2 * m;
    var b0, b1 := AddMod(x, y, 2 * m), MulFast3(b, d, c, m, Inverse2(b, c, m));
    SumWord(m, b0, x, y);
    MulFast3Correct(b, d, c, m);
    CongBy(m, d, x - y, 2);
    CongMul(m, d, c, x - y, u);
    CongTrans(m, b1, d * c, (x - y) * u);
    Swap(x - y, u);
  }

  lemma Swap(x: int, y: int)
    ensures x * y == y * x
  {
  }

  lemma SumWord(m: nat, r: nat, x: nat, y: nat)
    requires r == x + y || r == x + y - 2 * m
    ensures Cong(m, r, x + y)
  {
    hide Cong;
    if r == x + y {
      CongSelf(m, r);
    } else {
      CongBy(m, r, x + y, -2);
    }
  }

  lemma DifferenceWord(m: nat, r: nat, x: nat, y: nat)
    requires r == x - y || r == x - y + 2 * m
    ensures Cong(m, r, x - y)
  {
    hide Cong;
    if r == x - y {
      CongSelf(m, r);
    } else {
      CongBy(m, r, x - y, 2);
    }
  }

  // ---- one row of a stage

  /** The number of entries: 2h rows of f. */
  function Area(f: nat, h: nat): nat {
    2 * h * f
  }

  lemma RowBounds(f: nat, h: nat, i: nat, j: nat)
    requires i < h && j < f
    ensures var k, p, stride := At(f, i, 0), At(2 * f, i, 0), At(f, h, 0);
      && At(f, i, j) == k + j && At(f, i + h, j) == k + j + stride < Area(f, h)
      && At(2 * f, i, j) == p + j && At(2 * f, i, f + j) == p + f + j && p + 2 * f <= Area(f, h)
      && At(2 * f, i + 1, 0) == p + 2 * f
  {
    MulMono(i + 1, h, f);
    Distrib(f, i, 1);
    Distrib(f, i, h);
    assert i * (2 * f) == At(2 * f, i, 0) && (i + 1) * (2 * f) == 2 * ((i + 1) * f);
    assert 2 * h * f == 2 * (h * f);
  }

  /** The inner loop: row i of s against row i + h, with the factor c. */
  method RunRow(b: nat, m: nat, s: seq<nat>, out: array<nat>, f: nat, h: nat, i: nat, c: nat, ghost v: int)
    requires 0 < m && 4 * m <= b && i < h && 0 < f && |s| == Area(f, h) == out.Length && Below(s, 2 * m) && c < m
      && Cong(m, c, Power(v, i))
    modifies out
    ensures SameOutside(old(out[..]), out[..], At(2 * f, i, 0), At(2 * f, i, 0) + 2 * f)
    ensures forall j :: 0 <= j < f ==> Butterfly(m, v, s, out[..], f, h, i, j)
    ensures forall x :: At(2 * f, i, 0) <= x < At(2 * f, i, 0) + 2 * f ==> out[x] < 2 * m
  {
    hide Cong, Power, MulFast3, Inverse2, At, Butterfly, Area, Pair, AddMod;
    var cInv := Inverse2(b, c, m);
    var k, p, stride := At(f, i, 0), At(2 * f, i, 0), At(f, h, 0);
    RowBounds(f, h, i, 0);
    ghost var o := out[..];
    var j := 0;
    while j < f
      invariant 0 <= j <= f && out[..p] == o[..p] && out[p + 2 * f..] == o[p + 2 * f..]
      invariant forall j' :: 0 <= j' < j ==> Pair(b, m, s, out[..], k, p, stride, f, j', c)
    {
      RowBounds(f, h, i, j);
      ghost var t := out[..];
      var a0, a1 := s[k + j], s[k + j + stride];
      ButterflyWords(b, m, a0, a1, c, Power(v, i));
      out[p + j] := AddMod(a0, a1, 2 * m);
      out[p + j + f] := MulFast3(b, a0 - a1 + 2 * m, c, m, cInv);
      WroteTwo(o, t, out[..], p, f, j);
      PairNow(b, m, s, out[..], k, p, stride, f, j, c);
      PairsKept(b, m, s, t, out[..], k, p, stride, f, j, c);
      j := j + 1;
    }
    RowDone(b, m, s, out[..], f, h, i, c, v, k, p, stride);
    assert forall x :: p <= x < p + 2 * f ==> out[..][x] == out[x];
  }

  /** The pair j of a row has been written. */
  ghost predicate Pair(b: nat, m: nat, s: seq<nat>, t: seq<nat>, k: nat, p: nat, stride: nat, f: nat, j: nat, c: nat) {
    && 0 < m && 0 < b && k + j + stride < |s| && p + j + f < |t| && s[k + j] < 2 * m && s[k + j + stride] < 2 * m
    && t[p + j] == AddMod(s[k + j], s[k + j + stride], 2 * m)
    && t[p + j + f] == MulFast3(b, s[k + j] - s[k + j + stride] + 2 * m, c, m, Inverse2(b, c, m))
  }

  /** Two entries of a row were written. */
  lemma WroteTwo(o: seq<nat>, t: seq<nat>, t': seq<nat>, p: nat, f: nat, j: nat)
    requires j < f && p + 2 * f <= |o| == |t| == |t'| && t[..p] == o[..p] && t[p + 2 * f..] == o[p + 2 * f..]
    requires t' == t[p + j := t'[p + j]][p + j + f := t'[p + j + f]]
    ensures t'[..p] == o[..p] && t'[p + 2 * f..] == o[p + 2 * f..]
    ensures forall x :: 0 <= x < |t| && x != p + j && x != p + j + f ==> t'[x] == t[x]
  {
  }

  lemma PairNow(b: nat, m: nat, s: seq<nat>, t: seq<nat>, k: nat, p: nat, stride: nat, f: nat, j: nat, c: nat)
    requires 0 < m && 0 < b && k + j + stride < |s| && p + j + f < |t| && s[k + j] < 2 * m && s[k + j + stride] < 2 * m
    requires t[p + j] == AddMod(s[k + j], s[k + j + stride], 2 * m)
    requires t[p + j + f] == MulFast3(b, s[k + j] - s[k + j + stride] + 2 * m, c, m, Inverse2(b, c, m))
    ensures Pair(b, m, s, t, k, p, stride, f, j, c)
  {
    hide AddMod, MulFast3, Inverse2;
  }

  lemma PairsKept(b: nat, m: nat, s: seq<nat>, t: seq<nat>, t': seq<nat>, k: nat, p: nat, stride: nat, f: nat, j: nat,
      c: nat)
    requires j < f && Pair(b, m, s, t', k, p, stride, f, j, c) && |t| == |t'|
    requires forall j' :: 0 <= j' < j ==> Pair(b, m, s, t, k, p, stride, f, j', c)
    requires forall x :: 0 <= x < |t| && x != p + j && x != p + j + f ==> t'[x] == t[x]
    ensures forall j' :: 0 <= j' < j + 1 ==> Pair(b, m, s, t', k, p, stride, f, j', c)
  {
    hide MulFast3, Inverse2;
    forall j' | 0 <= j' < j
      ensures Pair(b, m, s, t', k, p, stride, f, j', c)
    {
      assert Pair(b, m, s, t, k, p, stride, f, j', c);
    }
  }

  lemma RowDone(b: nat, m: nat, s: seq<nat>, t: seq<nat>, f: nat, h: nat, i: nat, c: nat, v: int, k: nat, p: nat,
      stride: nat)
    requires 0 < m && 4 * m <= b && i < h && |s| == Area(f, h) == |t| && c < m && Cong(m, c, Power(v, i))
    requires k == At(f, i, 0) && p == At(2 * f, i, 0) && stride == At(f, h, 0)
    requires forall j :: 0 <= j < f ==> Pair(b, m, s, t, k, p, stride, f, j, c)
    ensures forall j :: 0 <= j < f ==> Butterfly(m, v, s, t, f, h, i, j)
    ensures 0 < f ==> p + 2 * f <= |t| && forall x :: p <= x < p + 2 * f ==> t[x] < 2 * m
  {
    hide Cong, Power, MulFast3, Inverse2, At, Butterfly, Pair, Area;
    forall j | 0 <= j < f
      ensures Butterfly(m, v, s, t, f, h, i, j)
    {
      PairIsButterfly(b, m, s, t, f, h, i, c, v, j, k, p, stride);
    }
    if 0 < f {
      RowBounds(f, h, i, 0);
    }
    forall x | p <= x < p + 2 * f
      ensures t[x] < 2 * m
    {
      RowBelow(b, m, s, t, f, h, i, c, v, k, p, stride, x);
    }
  }

  lemma RowBelow(b: nat, m: nat, s: seq<nat>, t: seq<nat>, f: nat, h: nat, i: nat, c: nat, v: int, k: nat, p: nat,
      stride: nat, x: int)
    requires 0 < m && 4 * m <= b && i < h && |s| == Area(f, h) == |t| && c < m && Cong(m, c, Power(v, i))
    requires k == At(f, i, 0) && p == At(2 * f, i, 0) && stride == At(f, h, 0)
    requires forall j :: 0 <= j < f ==> Pair(b, m, s, t, k, p, stride, f, j, c)
    requires p <= x < p + 2 * f
    ensures x < |t| && t[x] < 2 * m
  {
    hide Cong, Power, MulFast3, Inverse2, At, Butterfly, Pair, Area;
    if x < p + f {
      PairIsButterfly(b, m, s, t, f, h, i, c, v, x - p, k, p, stride);
    } else {
      PairIsButterfly(b, m, s, t, f, h, i, c, v, x - p - f, k, p, stride);
    }
  }

  lemma PairIsButterfly(b: nat, m: nat, s: seq<nat>, t: seq<nat>, f: nat, h: nat, i: nat, c: nat, v: int, j: nat,
      k: nat,
      p: nat, stride: nat)
    requires 0 < m && 4 * m <= b && i < h && j < f && |s| == Area(f, h) == |t| && c < m && Cong(m, c, Power(v, i))
    requires k == At(f, i, 0) && p == At(2 * f, i, 0) && stride == At(f, h, 0)
      && Pair(b, m, s, t, k, p, stride, f, j, c)
    ensures Butterfly(m, v, s, t, f, h, i, j)
    ensures p + j + f < |t| && t[p + j] < 2 * m && t[p + j + f] < 2 * m
  {
    hide Cong, Power, MulFast3, Inverse2, At, Area;
    RowBounds(f, h, i, j);
    ButterflyWords(b, m, s[k + j], s[k + j + stride], c, Power(v, i));
  }

  // ---- a stage

  /** The factors of a stage: congruent to the powers of the root. */
  ghost predicate Factors(m: nat, c: seq<nat>, v: int) {
    forall i :: 0 <= i < |c| ==> c[i] < m && Cong(m, c[i], Power(v, i))
  }

  /** get_trig: the powers of the root of the level */
  method Trig(b: nat, m: nat, root: nat, n: nat) returns (c: seq<nat>)
    requires 1 < m && 2 * m <= b && root < m
    ensures |c| == n && Factors(m, c, root)
  {
    hide Cong, Power, MulFast2, Inverse2;
    var x: nat := 1;
    c := [];
    FirstFactor(m, root);
    while |c| < n
      invariant |c| <= n && x < m && Cong(m, x, Power(root, |c|)) && Factors(m, c, root)
    {
      c := c + [x];
      MulFast2Correct(b, x, root, m);
      var y := MulFast2(b, x, root, m, Inverse2(b, root, m));
      NextFactor(m, x, y, root, |c| - 1);
      x := y;
    }
  }

  lemma FirstFactor(m: nat, v: int)
    ensures Cong(m, 1, Power(v, 0))
  {
    CongSelf(m, 1);
  }

  lemma NextFactor(m: nat, x: nat, y: int, v: int, n: nat)
    requires Cong(m, x, Power(v, n)) && Cong(m, y, x * v)
    ensures Cong(m, y, Power(v, n + 1))
  {
    hide Cong, Power;
    CongSelf(m, v);
    CongMul(m, x, v, Power(v, n), v);
    CongTrans(m, y, x * v, Power(v, n) * v);
    PowerNext(v, n);
    Swap(Power(v, n), v);
  }

  /** The rows of a stage. */
  method RunStage(b: nat, m: nat, s: seq<nat>, out: array<nat>, f: nat, h: nat, c: seq<nat>, ghost v: int)
    requires 0 < m && 4 * m <= b && 0 < f && |s| == Area(f, h) == out.Length && Below(s, 2 * m) && |c| >= h
      && Factors(m, c, v)
    modifies out
    ensures Below(out[..], 2 * m) && Butterflies(m, v, s, out[..], f, h)
  {
    hide Cong, Power, At, Butterfly, SameOutside, Area, RowsDone;
    var i := 0;
    NoRows(m, v, s, out[..], f, h);
    while i < h
      invariant 0 <= i <= h
      invariant RowsDone(m, v, s, out[..], f, h, i)
    {
      ghost var t := out[..];
      RunRow(b, m, s, out, f, h, i, c[i], v);
      RowBounds(f, h, i, 0);
      assert forall x :: At(2 * f, i, 0) <= x < At(2 * f, i, 0) + 2 * f ==> out[..][x] == out[x];
      RowsNext(m, v, s, t, out[..], f, h, i);
      i := i + 1;
    }
    AllRows(m, v, s, out[..], f, h);
  }

  ghost predicate RowsDone(m: nat, v: int, s: seq<nat>, t: seq<nat>, f: nat, h: nat, n: nat) {
    && (forall i, j :: 0 <= i < n && 0 <= j < f ==> Butterfly(m, v, s, t, f, h, i, j))
    && var e := At(2 * f, n, 0); e <= |t| && forall x :: 0 <= x < e ==> t[x] < 2 * m
  }

  lemma RowsNext(m: nat, v: int, s: seq<nat>, t: seq<nat>, t': seq<nat>, f: nat, h: nat, n: nat)
    requires n < h && 0 < f && |s| == Area(f, h) == |t| == |t'| && RowsDone(m, v, s, t, f, h, n)
    requires SameOutside(t, t', At(2 * f, n, 0), At(2 * f, n, 0) + 2 * f)
    requires forall j :: 0 <= j < f ==> Butterfly(m, v, s, t', f, h, n, j)
    requires forall x :: At(2 * f, n, 0) <= x < At(2 * f, n, 0) + 2 * f ==> t'[x] < 2 * m
    ensures RowsDone(m, v, s, t', f, h, n + 1)
  {
    hide Cong, Power, At, Butterfly, Area;
    var e := At(2 * f, n, 0);
    forall x | 0 <= x < e
      ensures t'[x] == t[x]
    {
      assert t'[..e][x] == t[..e][x];
    }
    forall i, j | 0 <= i < n + 1 && 0 <= j < f
      ensures Butterfly(m, v, s, t', f, h, i, j)
    {
      if i < n {
        EarlierRow(m, v, s, t, t', f, h, i, j, n, e);
      }
    }
    RowBounds(f, h, n, 0);
  }

  lemma EarlierRow(m: nat, v: int, s: seq<nat>, t: seq<nat>, t': seq<nat>, f: nat, h: nat, i: nat, j: nat, n: nat,
      e: nat)
    requires i < n < h && j < f && |s| == Area(f, h) == |t| == |t'| && e == At(2 * f, n, 0)
      && Butterfly(m, v, s, t, f, h, i, j)
    requires forall x :: 0 <= x < e ==> x < |t| && t'[x] == t[x]
    ensures Butterfly(m, v, s, t', f, h, i, j)
  {
    hide Cong, Power, At, Area;
    RowBounds(f, h, i, j);
    AtMono(2 * f, i + 1, n);
  }

  lemma AtMono(f: nat, i: nat, n: nat)
    requires i <= n
    ensures At(f, i, 0) <= At(f, n, 0)
  {
    MulMono(i, n, f);
  }

  lemma NoRows(m: nat, v: int, s: seq<nat>, t: seq<nat>, f: nat, h: nat)
    ensures RowsDone(m, v, s, t, f, h, 0)
  {
    hide Butterfly;
  }

  lemma AllRows(m: nat, v: int, s: seq<nat>, t: seq<nat>, f: nat, h: nat)
    requires |t| == Area(f, h) && RowsDone(m, v, s, t, f, h, h)
    ensures Below(t, 2 * m) && Butterflies(m, v, s, t, f, h)
  {
    hide Butterfly;
    assert At(2 * f, h, 0) == Area(f, h);
  }

  // ---- the last stage

  /** The last loop: no factor. */
  method RunLast(b: nat, m: nat, s: seq<nat>, out: array<nat>, f: nat, ghost v: int)
    requires 0 < m && 4 * m <= b && |s| == 2 * f == out.Length && Below(s, 2 * m)
    modifies out
    ensures Below(out[..], 2 * m) && Butterflies(m, v, s, out[..], f, 1)
  {
    hide Cong, Power, At, Butterfly;
    var k := 0;
    while k < f
      invariant 0 <= k <= f
      invariant forall j :: 0 <= j < k ==> LastPair(b, m, s, out[..], f, j)
    {
      ghost var t := out[..];
      var a0, a1 := s[k], s[k + f];
      out[k] := AddMod(a0, a1, 2 * m);
      out[k + f] := SubMod(b, a0, a1, 2 * m);
      forall j | 0 <= j < k
        ensures LastPair(b, m, s, out[..], f, j)
      {
        assert LastPair(b, m, s, t, f, j);
      }
      k := k + 1;
    }
    LastDone(b, m, s, out[..], f, v);
  }

  ghost predicate LastPair(b: nat, m: nat, s: seq<nat>, t: seq<nat>, f: nat, j: nat) {
    && 4 * m <= b && j + f < |s| && j + f < |t| && s[j] < 2 * m && s[j + f] < 2 * m
    && t[j] == AddMod(s[j], s[j + f], 2 * m) && t[j + f] == SubMod(b, s[j], s[j + f], 2 * m)
  }

  lemma LastDone(b: nat, m: nat, s: seq<nat>, t: seq<nat>, f: nat, v: int)
    requires 0 < m && |s| == 2 * f == |t| && forall j :: 0 <= j < f ==> LastPair(b, m, s, t, f, j)
    ensures Below(t, 2 * m) && Butterflies(m, v, s, t, f, 1)
  {
    hide Cong, Power, At, Butterfly;
    forall x | 0 <= x < |t|
      ensures t[x] < 2 * m
    {
      assert LastPair(b, m, s, t, f, if x < f then x else x - f);
    }
    forall i, j | 0 <= i < 1 && 0 <= j < f
      ensures Butterfly(m, v, s, t, f, 1, i, j)
    {
      LastButterfly(b, m, s, t, f, v, j);
    }
  }

  lemma LastButterfly(b: nat, m: nat, s: seq<nat>, t: seq<nat>, f: nat, v: int, j: nat)
    requires 0 < m && j < f && |s| == 2 * f == |t| && LastPair(b, m, s, t, f, j)
    ensures Butterfly(m, v, s, t, f, 1, 0, j)
  {
    hide Cong;
    SumWord(m, t[j], s[j], s[j + f]);
    DifferenceWord(m, t[j + f], s[j], s[j + f]);
    assert At(f, 0, j) == j && At(f, 0 + 1, j) == j + f && At(2 * f, 0, j) == j && At(2 * f, 0, f + j) == j + f;
    var x: int, y: int := s[j], s[j + f];
    OneTimes(x - y);
  }

  // ---- the transform

  /** The roots of all levels: roots[l] has order 2^l modulo m. */
  ghost predicate RootChain(m: nat, roots: seq<nat>, k: nat) {
    && 1 <= k < |roots| && (forall l :: 1 <= l <= k ==> roots[l] < m)
    && (forall l :: 1 <= l < k ==> Cong(m, roots[l], roots[l + 1] * roots[l + 1])) && Cong(m, roots[1], -1)
  }

  lemma {:induction false} RootPower(m: nat, roots: seq<nat>, k: nat, l: nat)
    requires RootChain(m, roots, k) && 1 <= l <= k
    ensures Cong(m, roots[l], Power(roots[k], Pow(2, k - l)))
    decreases k - l
  {
    hide Cong;
    var w := roots[k];
    if l == k {
      PowerIsOne(w);
      CongSelf(m, w);
    } else {
      RootPower(m, roots, k, l + 1);
      var e := Pow(2, k - l - 1);
      CongMul(m, roots[l + 1], roots[l + 1], Power(w, e), Power(w, e));
      PowerAdd(w, e, e);
      assert Pow(2, k - l) == e + e;
      CongTrans(m, roots[l], roots[l + 1] * roots[l + 1], Power(w, e) * Power(w, e));
    }
  }

  lemma PowerIsOne(w: int)
    ensures Power(w, Pow(2, 0)) == w
  {
    assert Power(w, 1) == w * Power(w, 0);
  }

  /** The top root to the power of half the length is minus one. */
  lemma RootHalf(m: nat, roots: seq<nat>, k: nat)
    requires RootChain(m, roots, k)
    ensures Cong(m, Power(roots[k], Pow(2, k - 1)), -1)
  {
    hide Cong;
    RootPower(m, roots, k, 1);
    CongSym(m, roots[1], Power(roots[k], Pow(2, k - 1)));
    CongTrans(m, Power(roots[k], Pow(2, k - 1)), roots[1], -1);
  }

  lemma FactorsOf(m: nat, c: seq<nat>, root: nat, v: int)
    requires Factors(m, c, root) && Cong(m, root, v)
    ensures Factors(m, c, v)
  {
    hide Cong, Power;
    forall i | 0 <= i < |c|
      ensures c[i] < m && Cong(m, c[i], Power(v, i))
    {
      PowerCong(m, root, v, i);
      CongTrans(m, c[i], Power(root, i), Power(v, i));
    }
  }

  /** t is the transform of x at the powers of w. */
  ghost predicate IsTransform(m: nat, w: int, x: seq<int>, t: seq<int>) {
    |t| == |x| && forall j :: 0 <= j < |t| ==> Cong(m, t[j], Eval(x, Power(w, j)))
  }

  lemma StageStart(m: nat, w: int, x: seq<int>)
    ensures Stage(m, w, x, x, 1, |x|)
  {
    hide Cong, Eval;
    forall j, q | 0 <= j < 1 && 0 <= q < |x|
      ensures ColumnAt(m, w, x, x, 1, |x|, j, q)
    {
      assert Column(x, 1, |x|, j) == x;
      assert Power(w, 1) == w * Power(w, 0);
      assert At(1, q, j) == q;
      CongSelf(m, Eval(x, Power(w, q)));
    }
  }

  lemma StageEnd(m: nat, w: int, x: seq<int>, t: seq<int>)
    requires |t| == |x| && Stage(m, w, x, t, |x|, 1)
    ensures IsTransform(m, w, x, t)
  {
    hide Cong;
    forall j | 0 <= j < |t|
      ensures Cong(m, t[j], Eval(x, Power(w, j)))
    {
      assert ColumnAt(m, w, x, t, |x|, 1, j, 0);
      assert Column(t, |x|, 1, j) == [t[j]];
      EvalSingle(t[j], Power(Power(w, |x|), 0));
      assert At(|x|, 0, j) == j;
    }
  }

  lemma EvalSingle(x: int, z: int)
    ensures Eval([x], z) == x
  {
    assert [x][1..] == [];
  }

  /** The halves of the length at level l. */
  lemma LevelSizes(k: nat, l: nat)
    requires 1 <= l <= k
    ensures var f, h := Pow(2, k - l), Pow(2, l - 1);
      && f > 0 && h > 0 && Pow(2, l) == 2 * h && Area(f, h) == Pow(2, k) && f * h == Pow(2, k - 1)
      && Pow(2, k - l + 1) == 2 * f
  {
    var f, h := Pow(2, k - l), Pow(2, l - 1);
    PowPositive(2, k - l);
    PowPositive(2, l - 1);
    PowAdd(2, k - l, l - 1);
    assert Pow(2, k) == 2 * Pow(2, k - 1);
    assert 2 * h * f == 2 * (f * h);
  }

  /** ntt_fft */
  method Fft(b: nat, m: nat, roots: seq<nat>, k: nat, buf: array<nat>, tmp: array<nat>)
    requires 1 < m && 4 * m <= b && RootChain(m, roots, k) && buf != tmp && buf.Length == tmp.Length == Pow(2, k)
      && Below(buf[..], 2 * m)
    modifies buf, tmp
    ensures Below(buf[..], 2 * m) && IsTransform(m, roots[k], old(buf[..]), buf[..])
  {
    hide Cong, Power, Pow, Stage, Butterflies, Below, Area, IsTransform, RootChain;
    ChainLength(m, roots, k);
    ghost var x, w := buf[..], roots[k];
    var tabIn, tabOut := buf, tmp;
    var f, nb, l := 1, Pow(2, k), k;
    StageStart(m, w, x);
    FirstLevel(k);
    while nb != 2
      invariant 1 <= l <= k && f == Pow(2, k - l) && nb == Pow(2, l)
        && ((tabIn == buf && tabOut == tmp) || (tabIn == tmp && tabOut == buf))
      invariant Below(tabIn[..], 2 * m) && Stage(m, w, x, tabIn[..], f, nb)
      decreases l
    {
      LevelSizes(k, l);
      ChainBounds(m, roots, k, l);
      nb := nb / 2;
      var trig := Trig(b, m, roots[l], nb);
      RootPower(m, roots, k, l);
      ghost var v := Power(w, f);
      FactorsOf(m, trig, roots[l], v);
      ghost var s := tabIn[..];
      RunStage(b, m, tabIn[..], tabOut, f, nb, trig, v);
      HalfIsMinusOne(m, roots, k, l);
      StageStep(m, w, x, s, tabOut[..], f, nb);
      NotLast(l);
      f, l := 2 * f, l - 1;
      tabIn, tabOut := tabOut, tabIn;
    }
    OnlyLast(l);
    LevelSizes(k, 1);
    PowOne();
    ghost var s := tabIn[..];
    RunLast(b, m, tabIn[..], buf, f, Power(w, f));
    HalfIsMinusOne(m, roots, k, 1);
    StageStep(m, w, x, s, buf[..], f, 1);
    StageEnd(m, w, x, buf[..]);
  }

  lemma ChainLength(m: nat, roots: seq<nat>, k: nat)
    requires RootChain(m, roots, k)
    ensures 1 <= k < |roots|
  {
  }

  lemma ChainBounds(m: nat, roots: seq<nat>, k: nat, l: nat)
    requires RootChain(m, roots, k) && 1 <= l <= k
    ensures 1 <= k < |roots| && roots[l] < m
  {
  }

  lemma FirstLevel(k: nat)
    ensures Pow(2, k - k) == 1
  {
  }

  lemma PowOne()
    ensures Pow(2, 0) == 1 && Pow(2, 1) == 2
  {
  }

  /** Powers of two: 2 only at level 1. */
  lemma OnlyLast(l: nat)
    requires Pow(2, l) == 2
    ensures l == 1
  {
    if l >= 2 {
      PowPositive(2, l - 2);
    }
  }

  lemma NotLast(l: nat)
    requires l >= 1 && Pow(2, l) != 2
    ensures l >= 2
  {
  }

  lemma HalfIsMinusOne(m: nat, roots: seq<nat>, k: nat, l: nat)
    requires RootChain(m, roots, k) && 1 <= l <= k
    ensures Cong(m, Power(Power(roots[k], Pow(2, k - l)), Pow(2, l - 1)), -1)
  {
    hide Cong, Power, Pow;
    PowerMul(roots[k], Pow(2, k - l), Pow(2, l - 1));
    LevelSizes(k, l);
    RootHalf(m, roots, k);
  }
}

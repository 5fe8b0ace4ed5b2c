/** ntt_fft_partial and ntt_conv for any length. */
module NttConvolve {
  import opened Limbs
  import opened NttPoly
  import opened NttStage
  import opened NttWord
  import opened NttFft
  import opened NttCyclic
  import opened NttInverse
  import opened NttSplit

  /** mul_trig: entry i is multiplied by c^i */
  method MulTrig(b: nat, p: nat, m: nat, buf: array<nat>, c: nat)
    requires Modulus(b, p, m) && c < m && Below(buf[..], 2 * m)
    modifies buf
    ensures Below(buf[..], 2 * m) && forall i :: 0 <= i < buf.Length ==> Cong(m, buf[i], Power(c, i) * old(buf[i]))
  {
    hide Cong, Power, ModFast, InverseMod, MulFast2, Inverse2;
    var c0: nat, i: nat := 1, 0;
    FirstFactor(m, c);
    while i < buf.Length
      invariant 0 <= i <= buf.Length && c0 < m && Cong(m, c0, Power(c, i))
      invariant forall j :: i <= j < buf.Length ==> buf[j] == old(buf[j])
      invariant forall j :: 0 <= j < i ==> buf[j] < 2 * m && Cong(m, buf[j], Power(c, j) * old(buf[j]))
    {
      TrigWord(b, p, m, buf[i], c0, c, i);
      buf[i] := ModFast(b, p, buf[i] * c0, m, InverseMod(b, p, m));
      c0 := MulFast2(b, c0, c, m, Inverse2(b, c, m));
      i := i + 1;
    }
  }

  lemma TrigWord(b: nat, p: nat, m: nat, x: nat, c0: nat, c: nat, i: nat)
    requires Modulus(b, p, m) && x < 2 * m && c0 < m && c < m && Cong(m, c0, Power(c, i))
    ensures var r := ModFast(b, p, x * c0, m, InverseMod(b, p, m)); 0 <= r < m && Cong(m, r, Power(c, i) * x)
    ensures var d := MulFast2(b, c0, c, m, Inverse2(b, c, m)); 0 <= d < m && Cong(m, d, Power(c, i + 1))
  {
    hide Cong, Power, ModFast, InverseMod, MulFast2, Inverse2;
    SmallProduct(b, p, m, c0, x);
    Swap(c0, x);
    ModFastCorrect(b, p, x * c0, m);
    CongSelf(m, x);
    CongMul(m, x, c0, x, Power(c, i));
    Swap(x, Power(c, i));
    CongTrans(m, ModFast(b, p, x * c0, m, InverseMod(b, p, m)), x * c0, Power(c, i) * x);
    MulFast2Correct(b, c0, c, m);
    NextFactor(m, c0, MulFast2(b, c0, c, m, Inverse2(b, c, m)), c, i);
  }

  // ---- columns

  /** The transform of a column, twisted by v before or after. */
  ghost predicate ColumnResult(m: nat, v: int, w1: int, inverse: bool, x: seq<int>, y: seq<int>) {
    && |x| == |y|
    && forall i :: 0 <= i < |y| ==>
         Cong(m, y[i], if inverse then Eval(Twisted(x, v), Power(w1, i)) else Power(v, i) * Eval(x, Power(w1, i)))
  }

  /** One column of ntt_fft_partial */
  method OneColumn(b: nat, p: nat, m: nat, roots: seq<nat>, k1: nat, c: nat, inverse: bool, col: array<nat>,
      ghost v: int)
    requires Modulus(b, p, m) && RootChain(m, roots, k1) && c < m && Cong(m, c, v) && col.Length == Pow(2, k1)
      && Below(col[..], 2 * m)
    modifies col
    ensures Below(col[..], 2 * m) && ColumnResult(m, v, roots[k1], inverse, old(col[..]), col[..])
  {
    hide Cong, Power, Pow, RootChain, Below, Eval, IsTransform;
    ChainLength(m, roots, k1);
    ghost var x := col[..];
    if inverse {
      MulTrig(b, p, m, col, c);
    }
    ghost var y := col[..];
    var tmp := new nat[Pow(2, k1)];
    Fft(b, m, roots, k1, col, tmp);
    ghost var z := col[..];
    if !inverse {
      MulTrig(b, p, m, col, c);
    }
    ColumnArgument(m, c, v, roots[k1], inverse, x, y, z, col[..]);
  }

  lemma ColumnArgument(m: nat, c: int, v: int, w1: int, inverse: bool, x: seq<int>, y: seq<int>, z: seq<int>,
      r: seq<int>)
    requires Cong(m, c, v) && |x| == |y| == |z| == |r| && IsTransform(m, w1, y, z)
    requires if inverse then forall i :: 0 <= i < |x| ==> Cong(m, y[i], Power(c, i) * x[i]) else y == x
    requires if inverse then r == z else forall i :: 0 <= i < |x| ==> Cong(m, r[i], Power(c, i) * z[i])
    ensures ColumnResult(m, v, w1, inverse, x, r)
  {
    hide Cong, Power, Eval;
    var n := |x|;
    if inverse {
      forall i | 0 <= i < n
        ensures Cong(m, y[i], Twisted(x, v)[i])
      {
        TwistCong(m, c, v, i, x[i], x[i], y[i]);
      }
      forall i | 0 <= i < n
        ensures Cong(m, r[i], Eval(Twisted(x, v), Power(w1, i)))
      {
        EvalCong(m, y, Twisted(x, v), Power(w1, i));
        CongTrans(m, r[i], Eval(y, Power(w1, i)), Eval(Twisted(x, v), Power(w1, i)));
      }
    } else {
      forall i | 0 <= i < n
        ensures Cong(m, r[i], Power(v, i) * Eval(x, Power(w1, i)))
      {
        TwistCong(m, c, v, i, z[i], Eval(x, Power(w1, i)), r[i]);
      }
    }
  }

  lemma TwistCong(m: int, c: int, v: int, i: nat, x: int, x': int, y: int)
    requires Cong(m, c, v) && Cong(m, y, Power(c, i) * x) && (x == x' || Cong(m, x, x'))
    ensures Cong(m, y, Power(v, i) * x')
  {
    hide Cong, Power;
    PowerCong(m, c, v, i);
    CongSelf(m, x);
    CongMul(m, Power(c, i), x, Power(v, i), x');
    CongTrans(m, y, Power(c, i) * x, Power(v, i) * x');
  }

  function Col(f: nat, x: nat): nat
    requires f > 0
  {
    x % f
  }

  lemma ColAt(f: nat, i: nat, j: nat, n1: nat)
    requires j < f && i < n1
    ensures Col(f, At(f, i, j)) == j && At(f, i, j) < At(f, n1, 0)
    ensures forall i' :: 0 <= i' < n1 && i' != i ==> At(f, i', j) != At(f, i, j)
  {
    DivUnique(At(f, i, j), f, i, j);
    MulMono(i + 1, n1, f);
    Distrib(f, i, 1);
    forall i' | 0 <= i' < n1 && i' != i
      ensures At(f, i', j) != At(f, i, j)
    {
      DivUnique(At(f, i', j), f, i', j);
    }
  }

  method GetColumn(s: seq<nat>, f: nat, n1: nat, j: nat, ghost m: nat) returns (col: array<nat>)
    requires j < f && |s| == At(f, n1, 0) && Below(s, m)
    ensures fresh(col) && col.Length == n1 && col[..] == Column(s, f, n1, j) && Below(col[..], m)
  {
    hide At;
    forall i | 0 <= i < n1
      ensures At(f, i, j) < |s|
    {
      ColAt(f, i, j, n1);
    }
    col := new nat[n1](i requires 0 <= i < n1 => s[At(f, i, j)]);
  }

  method PutColumn(buf: array<nat>, f: nat, n1: nat, j: nat, col: seq<nat>, ghost m: nat)
    requires j < f && buf.Length == At(f, n1, 0) && |col| == n1 && Below(buf[..], m) && Below(col, m)
    modifies buf
    ensures Below(buf[..], m) && Column(buf[..], f, n1, j) == col
    ensures forall j' :: 0 <= j' < f && j' != j ==> Column(buf[..], f, n1, j') == Column(old(buf[..]), f, n1, j')
  {
    hide At, Col;
    ghost var s := buf[..];
    var i := 0;
    while i < n1
      invariant 0 <= i <= n1 && Below(buf[..], m)
      invariant forall i' :: 0 <= i' < i ==> At(f, i', j) < buf.Length && buf[At(f, i', j)] == col[i']
      invariant forall x :: 0 <= x < buf.Length && Col(f, x) != j ==> buf[x] == s[x]
    {
      ColAt(f, i, j, n1);
      buf[At(f, i, j)] := col[i];
      i := i + 1;
    }
    assert Column(buf[..], f, n1, j) == col;
    forall j' | 0 <= j' < f && j' != j
      ensures Column(buf[..], f, n1, j') == Column(s, f, n1, j')
    {
      OtherColumn(s, buf[..], f, n1, j, j');
    }
  }

  lemma OtherColumn(s: seq<nat>, t: seq<nat>, f: nat, n1: nat, j: nat, j': nat)
    requires |s| == |t| == At(f, n1, 0) && j' < f && j != j' && forall x :: 0 <= x < |s| && Col(f, x) != j ==>
      t[x] == s[x]
    ensures Column(t, f, n1, j') == Column(s, f, n1, j')
  {
    hide At, Col;
    forall i | 0 <= i < n1
      ensures Get(t, At(f, i, j')) == Get(s, At(f, i, j'))
    {
      ColAt(f, i, j', n1);
    }
  }

  /** ntt_fft_partial for k2 > 0: all the columns */
  method FftPartial(b: nat, p: nat, m: nat, roots: seq<nat>, k1: nat, k2: nat, buf: array<nat>, inverse: bool)
    requires Modulus(b, p, m) && 1 <= k1 && 1 <= k2 && RootChain(m, roots, k1 + k2) && Below(buf[..], 2 * m)
    requires buf.Length == At(Pow(2, k2), Pow(2, k1), 0)
    modifies buf
    ensures Below(buf[..], 2 * m)
    ensures forall j :: 0 <= j < Pow(2, k2) ==>
      ColumnResult(m, Power(roots[k1 + k2], j), roots[k1], inverse, Column(old(buf[..]), Pow(2, k2), Pow(2, k1), j),
        Column(buf[..], Pow(2, k2), Pow(2, k1), j))
  {
    hide Cong, Power, Pow, RootChain, At, Column, ColumnResult, Below, ModFast, InverseMod;
    ghost var s := buf[..];
    var f, n1 := Pow(2, k2), Pow(2, k1);
    ShorterChain(m, roots, k1 + k2, k1);
    ChainBounds(m, roots, k1 + k2, k1 + k2);
    var c0: nat, c: nat, j: nat := roots[k1 + k2], 1, 0;
    FirstFactor(m, c0);
    while j < f
      invariant 0 <= j <= f && c < m && Cong(m, c, Power(c0, j)) && Below(buf[..], 2 * m)
      invariant forall j' :: 0 <= j' < j ==> ColumnResult(m, Power(c0, j'), roots[k1], inverse, Column(s, f, n1, j'),
        Column(buf[..], f, n1, j'))
      invariant forall j' :: j <= j' < f ==> Column(buf[..], f, n1, j') == Column(s, f, n1, j')
    {
      var col := GetColumn(buf[..], f, n1, j, 2 * m);
      OneColumn(b, p, m, roots, k1, c, inverse, col, Power(c0, j));
      PutColumn(buf, f, n1, j, col[..], 2 * m);
      ScaleWord(b, p, m, c, c0, j);
      c := ModFast(b, p, c * c0, m, InverseMod(b, p, m));
      j := j + 1;
    }
  }

  lemma ScaleWord(b: nat, p: nat, m: nat, c: nat, c0: nat, j: nat)
    requires Modulus(b, p, m) && c < m && c0 < m && Cong(m, c, Power(c0, j))
    ensures var r := ModFast(b, p, c * c0, m, InverseMod(b, p, m)); 0 <= r < m && Cong(m, r, Power(c0, j + 1))
  {
    hide Cong, Power, ModFast, InverseMod;
    SmallProduct(b, p, m, c, c0);
    ModFastCorrect(b, p, c * c0, m);
    NextFactor(m, c, ModFast(b, p, c * c0, m, InverseMod(b, p, m)), c0, j);
  }

  lemma ShorterChain(m: nat, roots: seq<nat>, k: nat, l: nat)
    requires RootChain(m, roots, k) && 1 <= l <= k
    ensures RootChain(m, roots, l)
  {
  }

  // ---- rows

  lemma RowInside(f: nat, n1: nat, i: nat, l: nat)
    requires i < n1 && l == At(f, n1, 0)
    ensures At(f, i, 0) + f <= l && At(f, i + 1, 0) == At(f, i, 0) + f
  {
    AtNext(f, i, 0);
    MulMono(i + 1, n1, f);
  }

  /** Row i of s, of f entries. */
  function RowAt<T>(s: seq<T>, f: nat, i: nat): seq<T>
    requires At(f, i, 0) + f <= |s|
  {
    s[At(f, i, 0)..At(f, i, 0) + f]
  }

  /** The first n rows have been convolved. */
  ghost predicate RowsConvolved(m: nat, norm: nat, x: seq<nat>, y: seq<nat>, r: seq<nat>, f: nat, n: nat) {
    && |x| == |y| == |r|
    && forall i :: 0 <= i < n ==>
    At(f, i, 0) + f <= |x| && IsConvolution(m, norm, RowAt(x, f, i), RowAt(y, f, i), RowAt(r, f, i))
  }

  /** The array of row i. */
  method GetRow(s: seq<nat>, f: nat, i: nat, ghost m: nat) returns (row: array<nat>)
    requires At(f, i, 0) + f <= |s| && Below(s, m)
    ensures fresh(row) && row.Length == f && row[..] == RowAt(s, f, i) && Below(row[..], m)
  {
    hide At;
    var t := RowAt(s, f, i);
    row := new nat[f](j requires 0 <= j < f => t[j]);
    assert row[..] == t;
  }

  method PutRow(buf: array<nat>, f: nat, i: nat, row: seq<nat>, ghost m: nat)
    requires At(f, i, 0) + f <= buf.Length && |row| == f && Below(buf[..], m) && Below(row, m)
    modifies buf
    ensures Below(buf[..], m) && RowAt(buf[..], f, i) == row
    ensures forall x :: 0 <= x < buf.Length && !(At(f, i, 0) <= x < At(f, i, 0) + f) ==> buf[x] == old(buf[x])
  {
    hide At;
    var off, j := At(f, i, 0), 0;
    while j < f
      invariant 0 <= j <= f && Below(buf[..], m) && forall x :: 0 <= x < j ==> buf[off + x] == row[x]
      invariant forall x :: 0 <= x < buf.Length && !(off <= x < off + f) ==> buf[x] == old(buf[x])
    {
      buf[off + j] := row[j];
      j := j + 1;
    }
    assert RowAt(buf[..], f, i) == row by {
      forall x | 0 <= x < f
        ensures RowAt(buf[..], f, i)[x] == row[x]
      {
        assert buf[off + x] == row[x];
      }
    }
  }

  /** Writing row n keeps the rows before it, and the rows after it are still those of x. */
  lemma NextRowDone(m: nat, norm: nat, x: seq<nat>, y: seq<nat>, r: seq<nat>, r': seq<nat>, f: nat, n: nat)
    requires RowsConvolved(m, norm, x, y, r, f, n) && |r'| == |r| && At(f, n, 0) + f <= |x|
    requires IsConvolution(m, norm, RowAt(x, f, n), RowAt(y, f, n), RowAt(r', f, n))
    requires forall z :: 0 <= z < |r| && !(At(f, n, 0) <= z < At(f, n, 0) + f) ==> r'[z] == r[z]
    ensures RowsConvolved(m, norm, x, y, r', f, n + 1)
  {
    hide At, IsConvolution;
    forall i | 0 <= i < n
      ensures At(f, i, 0) + f <= |x| && IsConvolution(m, norm, RowAt(x, f, i), RowAt(y, f, i), RowAt(r', f, i))
    {
      RowInside(f, n, i, At(f, n, 0));
      assert RowAt(r', f, i) == RowAt(r, f, i);
    }
  }

  // ---- ntt_conv

  /** The three lengths' roots, and their inverses. */
  lemma ChainSplit(m: nat, roots: seq<nat>, inverses: seq<nat>, k1: nat, k2: nat)
    requires 1 <= k1 && 1 <= k2 && RootChain(m, roots, k1 + k2) && RootChain(m, inverses, k1 + k2)
    requires Cong(m, roots[k1 + k2] * inverses[k1 + k2], 1)
    ensures RootChain(m, roots, k1) && RootChain(m, roots, k2) && RootChain(m, inverses, k1)
      && RootChain(m, inverses, k2)
    ensures SplitRoots(m, roots[k1 + k2], roots[k1], roots[k2], k1, k2)
    ensures InverseRoots(m, roots[k1], inverses[k1], k1) && InverseRoots(m, roots[k2], inverses[k2], k2)
  {
    hide Cong, Power, Pow;
    var k := k1 + k2;
    RootPower(m, roots, k, k1);
    RootHalf(m, roots, k);
    RootHalf(m, roots, k1);
    RootHalf(m, roots, k2);
    RootHalf(m, inverses, k1);
    RootHalf(m, inverses, k2);
    LevelInverse(m, roots, inverses, k, k1);
    LevelInverse(m, roots, inverses, k, k2);
  }

  lemma LevelInverse(m: nat, roots: seq<nat>, inverses: seq<nat>, k: nat, l: nat)
    requires RootChain(m, roots, k) && RootChain(m, inverses, k) && Cong(m, roots[k] * inverses[k], 1) && 1 <= l <= k
    ensures Cong(m, roots[l] * inverses[l], 1)
  {
    hide Cong, Power, Pow;
    var e, w, w' := Pow(2, k - l), roots[k], inverses[k];
    RootPower(m, roots, k, l);
    RootPower(m, inverses, k, l);
    CongMul(m, roots[l], inverses[l], Power(w, e), Power(w', e));
    PowerProduct(w, w', e);
    PowerCong(m, w * w', 1, e);
    PowerOne(e);
    CongTrans(m, roots[l] * inverses[l], Power(w, e) * Power(w', e), 1);
  }

  /** ntt_conv: transforms of up to trigMax levels, longer ones split into columns and rows */
  method Convolve(b: nat, p: nat, m: nat, roots: seq<nat>, inverses: seq<nat>, trigMax: nat, k: nat, norm: nat,
      buf1: array<nat>, buf2: array<nat>)
    requires Modulus(b, p, m) && norm < m && 1 <= trigMax
    requires RootChain(m, roots, k) && RootChain(m, inverses, k) && Cong(m, roots[k] * inverses[k], 1)
    requires buf1 != buf2 && buf1.Length == buf2.Length == Pow(2, k) && Below(buf1[..], 2 * m) && Below(buf2[..], 2 * m)
    modifies buf1, buf2
    ensures Below(buf1[..], 2 * m) && IsConvolution(m, norm, old(buf1[..]), old(buf2[..]), buf1[..])
    decreases k
  {
    hide Cong, Power, Pow, RootChain, Below, IsConvolution, At, ColumnResult, RowsConvolved, InverseRoots, SplitRoots;
    if k <= trigMax {
      ConvolveOnce(b, p, m, roots, inverses, k, norm, buf1, buf2);
      return;
    }
    var k1 := if k / 2 < trigMax then k / 2 else trigMax;
    var k2 := k - k1;
    var f, n1 := Pow(2, k2), Pow(2, k1);
    Sizes(k1, k2);
    ghost var x, y := buf1[..], buf2[..];
    FftPartial(b, p, m, roots, k1, k2, buf1, false);
    FftPartial(b, p, m, roots, k1, k2, buf2, false);
    ghost var tx, ty := buf1[..], buf2[..];
    ChainSplit(m, roots, inverses, k1, k2);
    ChainLength(m, roots, k);
    ChainLength(m, inverses, k);
    var i := 0;
    NoRowsDone(m, norm, tx, ty, f);
    while i < n1
      invariant 0 <= i <= n1 && Below(buf1[..], 2 * m) && RowsConvolved(m, norm, tx, ty, buf1[..], f, i)
        && buf2[..] == ty
      invariant forall z :: At(f, i, 0) <= z < buf1.Length ==> buf1[z] == tx[z]
    {
      RowInside(f, n1, i, buf1.Length);
      var row1 := GetRow(buf1[..], f, i, 2 * m);
      var row2 := GetRow(buf2[..], f, i, 2 * m);
      assert row1[..] == RowAt(tx, f, i) by { assert RowAt(buf1[..], f, i) == RowAt(tx, f, i); }
      InverseLevel(m, roots, inverses, k2);
      Convolve(b, p, m, roots, inverses, trigMax, k2, norm, row1, row2);
      ghost var r := buf1[..];
      PutRow(buf1, f, i, row1[..], 2 * m);
      NextRowDone(m, norm, tx, ty, r, buf1[..], f, i);
      i := i + 1;
    }
    ghost var r := buf1[..];
    FftPartial(b, p, m, inverses, k1, k2, buf1, true);
    SplitCorrect(m, roots, inverses, k1, k2, norm, x, y, tx, ty, r, buf1[..]);
  }

  lemma Sizes(k1: nat, k2: nat)
    ensures Pow(2, k1 + k2) == At(Pow(2, k2), Pow(2, k1), 0) == Pow(2, k1) * Pow(2, k2) > 0 && Pow(2, k1) > 0
      && Pow(2, k2) > 0
  {
    PowAdd(2, k1, k2);
    PowPositive(2, k1);
    PowPositive(2, k2);
    PowPositive(2, k1 + k2);
  }

  lemma NoRowsDone(m: nat, norm: nat, x: seq<nat>, y: seq<nat>, f: nat)
    requires |x| == |y|
    ensures RowsConvolved(m, norm, x, y, x, f, 0) && At(f, 0, 0) == 0
  {
  }

  lemma InverseLevel(m: nat, roots: seq<nat>, inverses: seq<nat>, k: nat)
    requires RootChain(m, roots, k) && RootChain(m, inverses, k) && InverseRoots(m, roots[k], inverses[k], k)
    ensures Cong(m, roots[k] * inverses[k], 1)
  {
  }

  /** Entry j of row i, after the forward columns, is that of the row of the polynomial. */
  lemma ForwardEntry(m: nat, w: int, w1: int, x: seq<int>, tx: seq<int>, f: nat, n1: nat, i: nat, j: nat)
    requires i < n1 && j < f && |tx| == At(f, n1, 0)
      && ColumnResult(m, Power(w, j), w1, false, Column(x, f, n1, j), Column(tx, f, n1, j))
    ensures At(f, i, 0) + f <= |tx| && Cong(m, RowAt(tx, f, i)[j], RowOf(x, f, n1, w, w1, i)[j])
  {
    hide Cong, Power, Eval, RowOf, At;
    RowInside(f, n1, i, |tx|);
    AtNext(f, i, j);
    assert Column(tx, f, n1, j)[i] == RowAt(tx, f, i)[j];
    RowEntry(x, f, n1, w, w1, i, j);
    PowerMul(w, i, j);
    PowerMul(w, j, i);
    assert i * j == j * i;
  }

  /** Entry j of row i, after the convolution of the rows. */
  lemma MiddleEntry(m: nat, roots: seq<nat>, inverses: seq<nat>, k1: nat, k2: nat, norm: nat, x: seq<nat>, y: seq<nat>,
      tx: seq<nat>, ty: seq<nat>, r: seq<nat>, i: nat, j: nat)
    requires 1 <= k1 && 1 <= k2 && k1 + k2 < |roots| && k1 + k2 < |inverses|
    requires SplitRoots(m, roots[k1 + k2], roots[k1], roots[k2], k1, k2) && InverseRoots(m, roots[k2], inverses[k2], k2)
    requires |x| == |y| == |tx| == |ty| == Pow(2, k1 + k2) && i < Pow(2, k1) && j < Pow(2, k2)
    requires forall j :: 0 <= j < Pow(2, k2) ==>
      ColumnResult(m, Power(roots[k1 + k2], j), roots[k1], false, Column(x, Pow(2, k2), Pow(2, k1), j),
        Column(tx, Pow(2, k2), Pow(2, k1), j))
    requires forall j :: 0 <= j < Pow(2, k2) ==>
      ColumnResult(m, Power(roots[k1 + k2], j), roots[k1], false, Column(y, Pow(2, k2), Pow(2, k1), j),
        Column(ty, Pow(2, k2), Pow(2, k1), j))
    requires RowsConvolved(m, norm, tx, ty, r, Pow(2, k2), Pow(2, k1))
    ensures |r| == |x| && Cong(m, Get(r, At(Pow(2, k2), i, j)),
                               (norm * Pow(2, k2)) * RowOf(Cyclic(x, y), Pow(2, k2), Pow(2, k1), roots[k1 + k2],
                               roots[k1], i)[j])
  {
    hide Cong, Power, Pow, RowOf, At, SplitRoots, InverseRoots, ColumnResult, Cyclic, IsConvolution, Column;
    var f, n1, w, w1 := Pow(2, k2), Pow(2, k1), roots[k1 + k2], roots[k1];
    Sizes(k1, k2);
    RowInside(f, n1, i, |x|);
    var a, b, c := RowAt(tx, f, i), RowAt(ty, f, i), RowAt(r, f, i);
    forall j | 0 <= j < f
      ensures Cong(m, a[j], RowOf(x, f, n1, w, w1, i)[j]) && Cong(m, b[j], RowOf(y, f, n1, w, w1, i)[j])
    {
      ForwardEntry(m, w, w1, x, tx, f, n1, i, j);
      ForwardEntry(m, w, w1, y, ty, f, n1, i, j);
    }
    RowConvolution(m, x, y, w, w1, roots[k2], inverses[k2], k1, k2, i, a, b, norm, c, j);
    AtNext(f, i, j);
    Assoc(norm, f, RowOf(Cyclic(x, y), f, n1, w, w1, i)[j]);
  }

  lemma SplitCorrect(m: nat, roots: seq<nat>, inverses: seq<nat>, k1: nat, k2: nat, norm: nat, x: seq<nat>, y: seq<nat>,
      tx: seq<nat>, ty: seq<nat>, r: seq<nat>, out: seq<nat>)
    requires 1 <= k1 && 1 <= k2 && k1 + k2 < |roots| && k1 + k2 < |inverses|
      && Cong(m, roots[k1 + k2] * inverses[k1 + k2], 1)
    requires SplitRoots(m, roots[k1 + k2], roots[k1], roots[k2], k1, k2)
    requires InverseRoots(m, roots[k1], inverses[k1], k1) && InverseRoots(m, roots[k2], inverses[k2], k2)
    requires |x| == |y| == |tx| == |ty| == |out| == Pow(2, k1 + k2)
    requires forall j :: 0 <= j < Pow(2, k2) ==>
      ColumnResult(m, Power(roots[k1 + k2], j), roots[k1], false, Column(x, Pow(2, k2), Pow(2, k1), j),
        Column(tx, Pow(2, k2), Pow(2, k1), j))
    requires forall j :: 0 <= j < Pow(2, k2) ==>
      ColumnResult(m, Power(roots[k1 + k2], j), roots[k1], false, Column(y, Pow(2, k2), Pow(2, k1), j),
        Column(ty, Pow(2, k2), Pow(2, k1), j))
    requires RowsConvolved(m, norm, tx, ty, r, Pow(2, k2), Pow(2, k1))
    requires forall j :: 0 <= j < Pow(2, k2) ==>
      ColumnResult(m, Power(inverses[k1 + k2], j), inverses[k1], true, Column(r, Pow(2, k2), Pow(2, k1), j),
        Column(out, Pow(2, k2), Pow(2, k1), j))
    ensures IsConvolution(m, norm, x, y, out)
  {
    hide Cong, Power, Pow, RowOf, At, SplitRoots, InverseRoots, ColumnResult, Cyclic, CyclicAt, RowsConvolved, Column,
      Get;
    var f, n1 := Pow(2, k2), Pow(2, k1);
    Sizes(k1, k2);
    forall t | 0 <= t < |out|
      ensures Cong(m, out[t], norm * (|x| * CyclicAt(x, y, t)))
    {
      var a, j := Place(f, n1, t);
      forall i | 0 <= i < n1
        ensures Cong(m, Get(r, At(f, i, j)), (norm * f) * RowOf(Cyclic(x, y), f, n1, roots[k1 + k2], roots[k1], i)[j])
      {
        MiddleEntry(m, roots, inverses, k1, k2, norm, x, y, tx, ty, r, i, j);
      }
      BackEntry(m, Cyclic(x, y), roots[k1 + k2], inverses[k1 + k2], roots[k1], inverses[k1], k1, f, n1, norm * f, a, j,
        r, out);
      CyclicIs(x, y, t);
      GetIn(out, t);
      GetIn(Cyclic(x, y), t);
      FactorArith(norm, f, n1, |x|, CyclicAt(x, y, t));
    }
  }

  lemma FactorArith(norm: int, f: int, n1: int, n: int, c: int)
    requires n == n1 * f
    ensures (norm * f) * (n1 * c) == norm * (n * c)
  {
    Assoc(norm, f, n1 * c);
    Assoc(f, n1, c);
  }

  lemma GetIn(s: seq<int>, t: nat)
    requires t < |s|
    ensures Get(s, t) == s[t]
  {
  }

  lemma Place(f: nat, n1: nat, t: nat) returns (a: nat, j: nat)
    requires f > 0 && t < At(f, n1, 0)
    ensures a < n1 && j < f && t == At(f, a, j)
  {
    a, j := t / f, t % f;
    assert t == a * f + j;
    if a >= n1 {
      MulMono(n1, a, f);
    }
  }

  /** The inverse columns. */
  lemma BackEntry(m: nat, c: seq<int>, w: int, w': int, w1: int, w1': int, k1: nat, f: nat, n1: nat, s: int, a: nat,
      j: nat, r: seq<int>, out: seq<int>)
    requires n1 == Pow(2, k1) && InverseRoots(m, w1, w1', k1) && Cong(m, w * w', 1) && j < f && a < n1
    requires forall i :: 0 <= i < n1 ==> Cong(m, Get(r, At(f, i, j)), s * RowOf(c, f, n1, w, w1, i)[j])
    requires ColumnResult(m, Power(w', j), w1', true, Column(r, f, n1, j), Column(out, f, n1, j))
    ensures Cong(m, Get(out, At(f, a, j)), s * (n1 * Get(c, At(f, a, j))))
  {
    hide Cong, Power, Pow, RowOf, At, InverseRoots, Get, Eval;
    var col := Column(r, f, n1, j);
    var q := Twisted(col, Power(w', j));
    forall i | 0 <= i < n1
      ensures Cong(m, col[i], s * RowOf(c, f, n1, w, w1, i)[j]) && Cong(m, q[i], Power(Power(w', j), i) * col[i])
    {
      CongSelf(m, q[i]);
    }
    ColumnsBack(m, c, w, w', w1, w1', k1, f, n1, s, j, q, col, a);
    assert Column(out, f, n1, j)[a] == Get(out, At(f, a, j));
    CongTrans(m, Get(out, At(f, a, j)), Eval(q, Power(w1', a)), s * (n1 * Get(c, At(f, a, j))));
  }
}

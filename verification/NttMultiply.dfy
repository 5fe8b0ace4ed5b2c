/** fft_mul and mp_mul: multiplication by convolutions modulo several primes is exact. */
module NttMultiply {
  import opened Limbs
  import opened LimbKernels
  import opened LimbProduct
  import opened FloatBits
  import opened FloatRound
  import opened FloatDigits
  import opened NttPoly
  import opened NttStage
  import opened NttWord
  import opened NttFft
  import opened NttCyclic
  import opened NttInverse
  import opened NttCrt
  import opened NttLimbs
  import opened NttChunks
  import opened NttConvolve
  import opened NttExact
  import opened NttSize

  /** The constant tables: moduli, their mutual inverses, the roots of unity of each in both directions, the bits
      below the products of the last moduli, and the largest level of a root. */
  datatype Tables = Tables(w: nat, mods: seq<nat>, cr: seq<nat>, roots: seq<seq<nat>>, inverses: seq<seq<nat>>,
    intBits: seq<nat>, rootExp: nat)

  ghost predicate GoodModulus(m: nat, roots: seq<nat>, inverses: seq<nat>, rootExp: nat) {
    m % 2 == 1 && RootChain(m, roots, rootExp) && RootChain(m, inverses, rootExp)
      && Cong(m, roots[rootExp] * inverses[rootExp], 1)
  }

  ghost predicate GoodTables(t: Tables) {
    && t.w >= 4 && |t.mods| == |t.roots| == |t.inverses| == |t.intBits| >= 3
    && Moduli(Base(t.w), Two(t.w - 3), t.mods) && InverseTable(t.mods, t.cr)
    && (forall j :: 0 <= j < |t.mods| ==> GoodModulus(t.mods[j], t.roots[j], t.inverses[j], t.rootExp))
    && (forall i :: 0 <= i <= |t.mods| - 3 ==> t.intBits[i] >= 6 && Two(t.intBits[i]) <= Product(t.mods[i..]))
  }

  /** No width of the digits fits a product of len limbs. */
  ghost predicate NoSize(t: Tables, len: nat)
    requires |t.intBits| == |t.mods|
  {
    forall i, d :: 0 <= i <= |t.mods| - 3 && 0 < d ==> !Feasible(t.w, t.intBits[i], t.rootExp, len, d)
  }

  // ---- the tables of the last moduli

  lemma {:induction false} TableSuffix(mods: seq<nat>, cr: seq<nat>, i: nat)
    requires InverseTable(mods, cr) && i < |mods|
    ensures Row(|mods|, i) <= |cr| && InverseTable(mods[i..], cr[Row(|mods|, i)..])
    decreases i
  {
    hide InverseTable, Row;
    RowFirst(|mods|);
    if i == 0 {
      assert mods[0..] == mods && cr[0..] == cr;
    } else {
      var n := |mods|;
      TableRest(mods, cr);
      TableSuffix(mods[1..], cr[n - 1..], i - 1);
      RowShift(n, i - 1);
      SuffixTwice(mods, 1, i - 1);
      SuffixTwice(cr, n - 1, Row(n - 1, i - 1));
    }
  }

  lemma RowFirst(n: nat)
    ensures Row(n, 0) == 0
  {
  }

  lemma TableRest(mods: seq<nat>, cr: seq<nat>)
    requires InverseTable(mods, cr) && |mods| > 1
    ensures |cr| >= |mods| - 1 && InverseTable(mods[1..], cr[|mods| - 1..])
  {
  }

  lemma SuffixTwice(s: seq<nat>, i: nat, j: nat)
    requires i + j <= |s|
    ensures s[i..][j..] == s[i + j..]
  {
  }

  lemma ModuliSuffix(b: nat, p: nat, mods: seq<nat>, i: nat)
    requires Moduli(b, p, mods) && i <= |mods|
    ensures Moduli(b, p, mods[i..])
  {
    forall j, k | 0 <= j < k < |mods[i..]|
      ensures mods[i..][j] < mods[i..][k]
    {
      assert mods[j + i] < mods[k + i];
    }
  }

  lemma LevelRoots(m: nat, roots: seq<nat>, inverses: seq<nat>, rootExp: nat, k: nat)
    requires GoodModulus(m, roots, inverses, rootExp) && 1 <= k <= rootExp
    ensures m % 2 == 1 && RootChain(m, roots, k) && RootChain(m, inverses, k) && Cong(m, roots[k] * inverses[k], 1)
  {
    hide Cong;
    LevelInverse(m, roots, inverses, rootExp, k);
  }

  // ---- one modulus

  method ToArray(s: seq<nat>) returns (a: array<nat>)
    ensures fresh(a) && a[..] == s
  {
    a := new nat[|s|](i requires 0 <= i < |s| => s[i]);
    assert a[..] == s;
  }

  lemma RowIsBelow(m: nat, c: seq<nat>, row: seq<nat>)
    requires |row| == |c| && IsRow(m, c, row)
    ensures Below(row, 2 * m)
  {
  }

  /** The product modulo m of the digit strings x and y, from their residues. */
  method ModularProduct(w: nat, m: nat, roots: seq<nat>, inverses: seq<nat>, trigMax: nat, k: nat, row1: seq<nat>,
      row2: seq<nat>, ghost x: seq<nat>, ghost y: seq<nat>)
    returns (r: seq<nat>)
    requires w >= 4 && Modulus(Base(w), Two(w - 3), m) && m % 2 == 1 && trigMax >= 1
    requires RootChain(m, roots, k) && RootChain(m, inverses, k) && Cong(m, roots[k] * inverses[k], 1)
    requires |row1| == |row2| == |x| == |y| == Two(k) && IsRow(m, x, row1) && IsRow(m, y, row2)
    ensures |r| == |y| && IsRow(m, Coefficients(x, y), r)
  {
    hide Two, Base, Cong, Power, RootChain, Below, IsConvolution, Coefficients, CyclicAt, IsRow;
    TwoIs(k);
    RowIsBelow(m, x, row1);
    RowIsBelow(m, y, row2);
    var norm := LengthInverse(Base(w), Two(w - 3), m, k);
    var buf1 := ToArray(row1);
    var buf2 := ToArray(row2);
    Convolve(Base(w), Two(w - 3), m, roots, inverses, trigMax, k, norm, buf1, buf2);
    r := buf1[..];
    ConvolvedRow(m, norm, x, y, row1, row2, r);
  }

  lemma TwoIs(k: nat)
    ensures Two(k) == Pow(2, k)
  {
  }

  lemma ConvolvedRow(m: nat, norm: nat, x: seq<nat>, y: seq<nat>, row1: seq<nat>, row2: seq<nat>, r: seq<nat>)
    requires |row1| == |row2| == |x| == |y| && IsRow(m, x, row1) && IsRow(m, y, row2)
    requires Cong(m, norm * |x|, 1) && IsConvolution(m, norm, row1, row2, r) && Below(r, 2 * m)
    ensures |r| == |y| && IsRow(m, Coefficients(x, y), r)
  {
    hide Cong, CyclicAt;
    forall t | 0 <= t < |y|
      ensures r[t] < 2 * m && Cong(m, r[t], Coefficients(x, y)[t])
    {
      var c := CyclicAt(row1, row2, t);
      CongSelf(m, c);
      CongMul(m, norm * |x|, c, 1, c);
      Assoc(norm, |x|, c);
      OneTimes(c);
      CongTrans(m, r[t], norm * (|x| * c), c);
      CyclicAtCong(m, row1, row2, x, y, t);
      CongTrans(m, r[t], c, CyclicAt(x, y, t));
    }
  }

  // ---- sizes

  /** The coefficients stay below the product of the moduli. */
  lemma CoefficientsBelow(dpl: nat, k: nat, x: seq<nat>, y: seq<nat>, bits: nat, product: nat)
    requires |x| == |y| == Two(k) && k + 2 * dpl <= bits && Two(bits) <= product
    requires (forall i :: 0 <= i < |x| ==> x[i] < Two(dpl)) && forall i :: 0 <= i < |y| ==> y[i] < Two(dpl)
    ensures forall t :: 0 <= t < |y| ==> Coefficients(x, y)[t] < product
  {
    hide Two, CyclicAt, Coefficients;
    TwoAdd(dpl, dpl);
    TwoAdd(k, 2 * dpl);
    TwoAdd(k + 2 * dpl, bits - k - 2 * dpl);
    MulMono(1, Two(bits - k - 2 * dpl), Two(k + 2 * dpl));
    forall t | 0 <= t < |y|
      ensures Coefficients(x, y)[t] < product
    {
      CyclicAtBound(x, y, t, Two(dpl));
      CoefficientIs(x, y, t);
    }
  }

  lemma CoefficientIs(x: seq<nat>, y: seq<nat>, t: nat)
    requires t < |y|
    ensures |Coefficients(x, y)| == |y| && Coefficients(x, y)[t] == CyclicAt(x, y, t)
  {
  }

  /** The digits of the two factors do not wrap around a transform that holds the product. */
  lemma ChunksFit(w: nat, dpl: nat, a: seq<nat>, b: seq<nat>, n: nat)
    requires w > 0 && dpl > 0 && Digits(Base(w), a) && Digits(Base(w), b) && Bits(w, |a| + |b|) <= Bits(dpl, n)
    ensures Fits(Chunks(dpl, Val(Base(w), a), n), Chunks(dpl, Val(Base(w), b), n), DigitCount(w, |a|, dpl))
  {
    hide Two, Quot, Rem, Base, Val, Bits, Chunk;
    var l, l' := DigitCount(w, |a|, dpl), DigitCount(w, |b|, dpl);
    BitsAdd(w, |a|, |b|);
    CountSum(dpl, l, l', n, Bits(w, |a|), Bits(w, |b|));
    forall i | l <= i < n
      ensures Chunk(dpl, Val(Base(w), a), i) == 0
    {
      BeyondLimbs(w, dpl, a, l, i);
    }
    forall i | 0 <= i < n && i + l > n
      ensures Chunk(dpl, Val(Base(w), b), i) == 0
    {
      BeyondLimbs(w, dpl, b, l', i);
    }
  }

  lemma CountSum(dpl: nat, l: nat, l': nat, n: nat, x: nat, y: nat)
    requires dpl > 0 && Bits(dpl, l) < x + dpl && Bits(dpl, l') < y + dpl && x + y <= Bits(dpl, n)
    ensures l + l' <= n + 1
  {
    if l + l' >= n + 2 {
      MulMono(n + 2, l + l', dpl);
      Distrib(dpl, l, l');
      Distrib(dpl, n, 2);
    }
  }

  lemma BeyondLimbs(w: nat, dpl: nat, s: seq<nat>, l: nat, i: nat)
    requires Digits(Base(w), s) && Bits(w, |s|) <= Bits(dpl, l) && l <= i
    ensures Chunk(dpl, Val(Base(w), s), i) == 0
  {
    hide Two, Quot, Rem, Base, Val, Bits, Chunk;
    ValBound(Base(w), s);
    BasePow(w, |s|);
    TwoPosition(dpl, i, l, 0);
    ChunkZero(dpl, Val(Base(w), s), i, Bits(w, |s|));
  }

  /** What ntt_to_limb writes is the product. */
  lemma ProductWritten(w: nat, dpl: nat, a: seq<nat>, b: seq<nat>, n: nat, c: seq<nat>, v: nat)
    requires w > 0 && dpl > 0 && n > 0 && Digits(Base(w), a) && Digits(Base(w), b) && Bits(w, |a| + |b|) <= Bits(dpl, n)
    requires c == Coefficients(Chunks(dpl, Val(Base(w), a), n), Chunks(dpl, Val(Base(w), b), n))
    requires v == Rem(Rem(Val(Base(dpl), c), Bits(dpl, n)), Bits(w, |a| + |b|))
    ensures v == Val(Base(w), a) * Val(Base(w), b)
  {
    hide Two, Quot, Rem, Base, Val, Bits, Chunk, Coefficients, Fits;
    var x, y := Val(Base(w), a), Val(Base(w), b);
    ChunksFit(w, dpl, a, b, n);
    CoefficientsExact(Chunks(dpl, x, n), Chunks(dpl, y, n), Base(dpl), DigitCount(w, |a|, dpl));
    ChunksValue(dpl, x, n);
    ChunksValue(dpl, y, n);
    BitsAdd(w, |a|, |b|);
    BelowPower(w, a, Bits(dpl, n));
    BelowPower(w, b, Bits(dpl, n));
    ProductBelowPower(w, a, b);
    RemRem(x * y, Bits(dpl, n), Bits(w, |a| + |b|));
    QuotSmall(x * y, Bits(w, |a| + |b|));
  }

  lemma BelowPower(w: nat, s: seq<nat>, k: nat)
    requires Digits(Base(w), s) && Bits(w, |s|) <= k
    ensures Rem(Val(Base(w), s), k) == Val(Base(w), s)
  {
    hide Two, Quot, Rem, Base, Val, Bits;
    ValBound(Base(w), s);
    BasePow(w, |s|);
    TwoAdd(Bits(w, |s|), k - Bits(w, |s|));
    MulMono(1, Two(k - Bits(w, |s|)), Two(Bits(w, |s|)));
    QuotSmall(Val(Base(w), s), k);
  }

  lemma ProductBelowPower(w: nat, a: seq<nat>, b: seq<nat>)
    requires Digits(Base(w), a) && Digits(Base(w), b)
    ensures 0 <= Val(Base(w), a) * Val(Base(w), b) < Two(Bits(w, |a| + |b|))
  {
    hide Two, Base, Val, Bits;
    var x, y := Val(Base(w), a), Val(Base(w), b);
    ValBound(Base(w), a);
    ValBound(Base(w), b);
    BasePow(w, |a|);
    BasePow(w, |b|);
    BitsAdd(w, |a|, |b|);
    TwoAdd(Bits(w, |a|), Bits(w, |b|));
    MulMono(0, x, y);
    MulMono(x, Two(Bits(w, |a|)), y);
    MulStrict(y, Two(Bits(w, |b|)), Two(Bits(w, |a|)));
  }

  // ---- fft_mul

  /** fft_mul: the exact product; it fails only where no size of transform fits, and the source aborts */
  method FftMul(t: Tables, trigMax: nat, a: seq<nat>, b: seq<nat>, res: array<nat>) returns (ok: bool)
    requires GoodTables(t) && trigMax >= 1 && |a| + |b| >= 3 && res.Length == |a| + |b| && Digits(Base(t.w), a)
      && Digits(Base(t.w), b)
    modifies res
    ensures ok ==> Digits(Base(t.w), res[..]) && Val(Base(t.w), res[..]) == Val(Base(t.w), a) * Val(Base(t.w), b)
    ensures !ok ==> NoSize(t, |a| + |b|)
  {
    hide Two, Quot, Rem, Base, Val, Bits, Cong, Chunk, Coefficients, RootChain, IsRow, InverseTable, Moduli, Product,
      Feasible, Modulus;
    var w, len := t.w, |a| + |b|;
    var dpl, nb, k := GetFftSize(w, t.intBits, t.rootExp, len);
    if dpl == 0 {
      return false;
    }
    var n, first := Two(k), |t.mods| - nb;
    SizeFacts(t, len, dpl, k, first);
    ModuliSuffix(Base(w), Two(w - 3), t.mods, first);
    TableSuffix(t.mods, t.cr, first);
    var mods, cr := t.mods[first..], t.cr[Row(|t.mods|, first)..];
    ghost var x, y := Chunks(dpl, Val(Base(w), a), n), Chunks(dpl, Val(Base(w), b), n);
    ghost var c := Coefficients(x, y);
    var rows1 := LimbToNtt(w, mods, a, n, dpl);
    var rows2 := [];
    var reduced := k >= 14;
    if !reduced {
      rows2 := LimbToNtt(w, mods, b, n, dpl);
    }
    var rows, j := [], 0;
    while j < nb
      invariant 0 <= j <= nb && |rows| == j && forall i :: 0 <= i < j ==> |rows[i]| == |y| && IsRow(mods[i], c, rows[i])
    {
      ModulusFacts(t, first, j);
      LevelRoots(mods[j], t.roots[first + j], t.inverses[first + j], t.rootExp, k);
      var row2;
      if reduced {
        ModulusAlone(Base(w), Two(w - 3), mods[j]);
        var one := LimbToNtt(w, [mods[j]], b, n, dpl);
        row2 := one[0];
      } else {
        row2 := rows2[j];
      }
      var r := ModularProduct(w, mods[j], t.roots[first + j], t.inverses[first + j], trigMax, k, rows1[j], row2, x, y);
      rows := rows + [r];
      j := j + 1;
    }
    DigitsBelow(dpl, Val(Base(w), a), n);
    DigitsBelow(dpl, Val(Base(w), b), n);
    CoefficientsBelow(dpl, k, x, y, t.intBits[first], Product(mods));
    ToLimbs(w, Two(w - 3), mods, cr, rows, n, dpl, res, c);
    ProductWritten(w, dpl, a, b, n, c, Val(Base(w), res[..]));
    return true;
  }

  lemma DigitsBelow(dpl: nat, v: nat, n: nat)
    ensures forall i :: 0 <= i < n ==> Chunks(dpl, v, n)[i] < Two(dpl)
  {
    hide Two, Chunk;
    forall i | 0 <= i < n
      ensures Chunks(dpl, v, n)[i] < Two(dpl)
    {
      ChunkBelow(dpl, v, i);
    }
  }

  lemma ModulusFacts(t: Tables, first: nat, j: nat)
    requires GoodTables(t) && first + j < |t.mods|
    ensures t.mods[first..][j] == t.mods[first + j] && Modulus(Base(t.w), Two(t.w - 3), t.mods[first + j])
    ensures GoodModulus(t.mods[first + j], t.roots[first + j], t.inverses[first + j], t.rootExp)
  {
  }

  lemma ModulusAlone(b: nat, p: nat, m: nat)
    requires Modulus(b, p, m)
    ensures Moduli(b, p, [m])
  {
  }

  lemma SizeFacts(t: Tables, len: nat, dpl: nat, k: nat, first: nat)
    requires GoodTables(t) && len >= 3 && 0 <= first <= |t.mods| - 3
      && Suits(t.w, t.intBits[first], t.rootExp, len, dpl, k)
    ensures dpl <= 3 * t.w - 4 && 1 <= k <= t.rootExp && k + 2 * dpl <= t.intBits[first]
      && Bits(t.w, len) <= Bits(dpl, Two(k))
    ensures dpl <= Bits(t.w, |t.mods| - first) && Two(t.intBits[first]) <= Product(t.mods[first..])
  {
    hide Two, Base, Product, InverseTable, Cong;
    var w, nb := t.w, |t.mods| - first;
    MulMono(3, len, w);
    ModuliSuffix(Base(w), Two(w - 3), t.mods, first);
    ProductBelow(Base(w), Two(w - 3), t.mods[first..]);
    BasePow(w, nb);
    TwoOrder(t.intBits[first], Bits(w, nb));
  }

  lemma TwoOrder(i: nat, j: nat)
    requires Two(i) <= Two(j)
    ensures i <= j
  {
    hide Two;
    if i > j {
      TwoAdd(j + 1, i - j - 1);
      TwoNext(j);
      MulMono(1, Two(i - j - 1), Two(j + 1));
    }
  }

  /** mp_mul: the schoolbook product below the threshold, the transform above it; both are exact */
  method Multiply(t: Tables, trigMax: nat, a: seq<nat>, b: seq<nat>, res: array<nat>) returns (ok: bool)
    requires GoodTables(t) && trigMax >= 1 && |b| > 0 && res.Length == |a| + |b|
    requires Digits(Base(t.w), a) && Digits(Base(t.w), b) && Digits(Base(t.w), res[..])
    modifies res
    ensures ok ==> Digits(Base(t.w), res[..]) && Val(Base(t.w), res[..]) == Val(Base(t.w), a) * Val(Base(t.w), b)
    ensures !ok ==> NoSize(t, |a| + |b|)
  {
    hide Two, Base, Val, GoodTables, Feasible;
    if |a| >= 100 && |b| >= 100 {
      ok := FftMul(t, trigMax, a, b, res);
    } else {
      MpMul(Base(t.w), res, 0, a, b);
      assert res[0..0 + |a| + |b|] == res[..];
      ok := true;
    }
  }
}

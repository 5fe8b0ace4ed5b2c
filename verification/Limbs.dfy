/** Numbers as little-endian sequences of limbs in a base b. */
module Limbs {

  function Pow(b: nat, n: nat): nat {
    if n == 0 then 1 else b * Pow(b, n - 1)
  }

  lemma {:induction false} PowPositive(b: nat, n: nat)
    requires b > 0
    ensures Pow(b, n) > 0
  {
    if n > 0 {
      PowPositive(b, n - 1);
      MulPositive(b, Pow(b, n - 1));
    }
  }

  lemma MulPositive(x: nat, y: nat)
    requires x > 0 && y > 0
    ensures x * y > 0
  {
  }

  lemma {:induction false} PowAdd(b: nat, m: nat, n: nat)
    ensures Pow(b, m + n) == Pow(b, m) * Pow(b, n)
    decreases m
  {
    if m > 0 {
      PowAdd(b, m - 1, n);
      Assoc(b, Pow(b, m - 1), Pow(b, n));
    }
  }

  lemma Assoc(x: int, y: int, z: int)
    ensures x * (y * z) == (x * y) * z
  {
  }

  lemma Distrib(x: int, y: int, z: int)
    ensures x * (y + z) == x * y + x * z && (y + z) * x == y * x + z * x
    ensures x * (y - z) == x * y - x * z && (y - z) * x == y * x - z * x
  {
  }

  lemma MulMono(x: int, y: int, z: int)
    requires x <= y && z >= 0
    ensures x * z <= y * z && z * x <= z * y
  {
  }

  lemma MulStrict(x: int, y: int, z: int)
    requires x < y && z > 0
    ensures x * z < y * z && z * x < z * y
  {
  }

  /** Every entry is below the base. */
  ghost predicate Digits(b: nat, s: seq<nat>) {
    forall i :: 0 <= i < |s| ==> s[i] < b
  }

  function Val(b: nat, s: seq<nat>): nat {
    if s == [] then 0 else s[0] + b * Val(b, s[1..])
  }

  lemma {:induction false} ValConcat(b: nat, s: seq<nat>, t: seq<nat>)
    ensures Val(b, s + t) == Val(b, s) + Pow(b, |s|) * Val(b, t)
  {
    if s == [] {
      assert s + t == t;
    } else {
      assert (s + t)[1..] == s[1..] + t;
      ValConcat(b, s[1..], t);
      Distrib(b, Val(b, s[1..]), Pow(b, |s| - 1) * Val(b, t));
      Assoc(b, Pow(b, |s| - 1), Val(b, t));
    }
  }

  lemma ValOne(b: nat, x: nat)
    ensures Val(b, [x]) == x
  {
    assert [x][1..] == [];
  }

  lemma ValSnoc(b: nat, s: seq<nat>, x: nat)
    ensures Val(b, s + [x]) == Val(b, s) + Pow(b, |s|) * x
  {
    ValConcat(b, s, [x]);
    ValOne(b, x);
  }

  /** The value of a longer and of a shorter prefix. */
  lemma ValPrefix(b: nat, s: seq<nat>, i: nat)
    requires i < |s|
    ensures Val(b, s[..i + 1]) == Val(b, s[..i]) + Pow(b, i) * s[i]
  {
    assert s[..i + 1] == s[..i] + [s[i]];
    ValSnoc(b, s[..i], s[i]);
  }

  lemma ValSplit(b: nat, s: seq<nat>, i: nat)
    requires i <= |s|
    ensures Val(b, s) == Val(b, s[..i]) + Pow(b, i) * Val(b, s[i..])
  {
    assert s == s[..i] + s[i..];
    ValConcat(b, s[..i], s[i..]);
  }

  lemma {:induction false} ValBound(b: nat, s: seq<nat>)
    requires b > 0 && Digits(b, s)
    ensures Val(b, s) < Pow(b, |s|)
  {
    if s != [] {
      assert forall i :: 0 <= i < |s[1..]| ==> s[1..][i] == s[i + 1];
      ValBound(b, s[1..]);
      MulMono(Val(b, s[1..]) + 1, Pow(b, |s| - 1), b);
      Distrib(b, Val(b, s[1..]), 1);
    }
  }

  /** A number below b^n has its top digit and the rest. */
  lemma ValTop(b: nat, s: seq<nat>)
    requires s != [] && b > 0 && Digits(b, s)
    ensures var n := |s| - 1;
      && Val(b, s) == Val(b, s[..n]) + Pow(b, n) * s[n] && Val(b, s[..n]) < Pow(b, n)
  {
    var n := |s| - 1;
    assert s == s[..n] + [s[n]];
    ValSnoc(b, s[..n], s[n]);
    ValBound(b, s[..n]);
  }

  lemma {:induction false} ValZeros(b: nat, s: seq<nat>)
    requires forall i :: 0 <= i < |s| ==> s[i] == 0
    ensures Val(b, s) == 0
  {
    if s != [] {
      ValZeros(b, s[1..]);
    }
  }

  lemma {:induction false} ValZeroOnly(b: nat, s: seq<nat>)
    requires b > 0 && Val(b, s) == 0
    ensures forall i :: 0 <= i < |s| ==> s[i] == 0
  {
    if s != [] {
      if Val(b, s[1..]) > 0 {
        MulPositive(b, Val(b, s[1..]));
      }
      ValZeroOnly(b, s[1..]);
      assert forall i :: 0 < i < |s| ==> s[i] == s[1..][i - 1];
    }
  }

  /** Euclidean division is determined by its two properties. */
  lemma DivUnique(x: int, d: int, q: int, r: int)
    requires d > 0 && x == q * d + r && 0 <= r < d
    ensures q == x / d && r == x % d
  {
    var q', r' := x / d, x % d;
    assert x == q' * d + r';
    Distrib(d, q, q');
    if q < q' {
      MulMono(1, q' - q, d);
    } else if q' < q {
      MulMono(1, q - q', d);
    }
  }

  /** z b = v with 0 <= v < k m b */
  lemma ScaledRange(b: nat, m: nat, k: nat, z: int, v: int)
    requires b > 0 && z * b == v && 0 <= v < k * (m * b)
    ensures 0 <= z < k * m
  {
    Assoc(k, m, b);
    if z < 0 {
      MulMono(z, -1, b);
    }
    if z >= k * m {
      MulMono(k * m, z, b);
    }
  }

  /** Digit strings of the same length and value are the same. */
  lemma {:induction false} DigitsUnique(radix: nat, s: seq<nat>, t: seq<nat>)
    requires radix > 0 && |s| == |t| && Digits(radix, s) && Digits(radix, t) && Val(radix, s) == Val(radix, t)
    ensures s == t
  {
    if s != [] {
      var x, y := Val(radix, s[1..]), Val(radix, t[1..]);
      DivUnique(Val(radix, s), radix, x, s[0]);
      DivUnique(Val(radix, t), radix, y, t[0]);
      DigitsUnique(radix, s[1..], t[1..]);
      assert s == [s[0]] + s[1..] && t == [t[0]] + t[1..];
    }
  }
}

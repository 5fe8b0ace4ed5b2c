/** The roots of unity of the 64-bit configuration, by repeated squaring. */
module NttRoots {
  import opened Limbs
  import opened NttPoly
  import opened NttFft
  import opened NttInverse
  import opened NttConvolve
  import opened NttMultiply
  import opened NttConstants
  import opened FloatBits

  /** c^(2^n) modulo m */
  function Squared(m: nat, c: nat, n: nat): nat
    requires m > 0
    decreases n
  {
    if n == 0 then c else Squared(m, c * c % m, n - 1)
  }

  /** ntt_proot_pow: c at level k, and at every lower level the square of the entry above */
  function RootTable(m: nat, c: nat, k: nat): (s: seq<nat>)
    requires m > 0
    ensures |s| == k + 1
    decreases k
  {
    if k == 0 then [c] else RootTable(m, c * c % m, k - 1) + [c]
  }

  lemma {:induction false} TableEntries(m: nat, c: nat, k: nat, l: nat)
    requires m > 0 && l <= k
    ensures RootTable(m, c, k)[l] == Squared(m, c, k - l)
    decreases k
  {
    if l < k {
      TableEntries(m, c * c % m, k - 1, l);
    }
  }

  lemma {:induction false} SquaredNext(m: nat, c: nat, n: nat)
    requires m > 0
    ensures Squared(m, c, n + 1) == Squared(m, c, n) * Squared(m, c, n) % m
    decreases n
  {
    if n > 0 {
      SquaredNext(m, c * c % m, n - 1);
    }
  }

  lemma {:induction false} SquaredBelow(m: nat, c: nat, n: nat)
    requires 0 < m && c < m
    ensures Squared(m, c, n) < m
    decreases n
  {
    if n > 0 {
      SquaredBelow(m, c * c % m, n - 1);
    }
  }

  lemma RemainderCong(m: nat, x: nat)
    requires m > 0
    ensures Cong(m, x % m, x)
  {
    assert x % m == x + m * (0 - x / m);
    CongBy(m, x % m, x, 0 - x / m);
  }

  /** A table whose lowest entry is minus one is a chain of roots. */
  lemma TableIsChain(m: nat, c: nat, k: nat)
    requires 1 < m && c < m && 1 <= k && Squared(m, c, k - 1) == m - 1
    ensures RootChain(m, RootTable(m, c, k), k)
  {
    hide Cong, Squared, RootTable;
    var s := RootTable(m, c, k);
    forall l | 1 <= l <= k
      ensures s[l] < m
    {
      TableEntries(m, c, k, l);
      SquaredBelow(m, c, k - l);
    }
    forall l | 1 <= l < k
      ensures Cong(m, s[l], s[l + 1] * s[l + 1])
    {
      TableEntries(m, c, k, l);
      TableEntries(m, c, k, l + 1);
      SquaredNext(m, c, k - l - 1);
      MulMono(0, s[l + 1], s[l + 1]);
      RemainderCong(m, s[l + 1] * s[l + 1]);
    }
    TableEntries(m, c, k, 1);
    CongBy(m, s[1], -1, 1);
  }

  /** The power of a root by squaring. */
  lemma {:induction false} SquaredIsPower(m: nat, c: nat, n: nat)
    requires m > 0
    ensures Cong(m, Squared(m, c, n), Power(c, Pow(2, n)))
    decreases n
  {
    hide Cong;
    if n == 0 {
      PowerIsOne(c);
      CongSelf(m, c);
    } else {
      var d, e := c * c % m, Pow(2, n - 1);
      SquaredIsPower(m, d, n - 1);
      MulMono(0, c, c);
      RemainderCong(m, c * c);
      PowerCong(m, d, c * c, e);
      CongTrans(m, Squared(m, c, n), Power(d, e), Power(c * c, e));
      PowerProduct(c, c, e);
      PowerAdd(c, e, e);
      assert Pow(2, n) == e + e;
    }
  }

  /** The inverse of a root of minus one is a root of minus one. */
  lemma InverseSquared(m: nat, c: nat, d: nat, n: nat)
    requires 1 < m && d < m && Cong(m, c * d, 1) && Squared(m, c, n) == m - 1
    ensures Squared(m, d, n) == m - 1
  {
    hide Cong, Power, Squared;
    var e := Pow(2, n);
    var x, y := Power(c, e), Power(d, e);
    SquaredIsPower(m, c, n);
    SquaredIsPower(m, d, n);
    PowerProduct(c, d, e);
    PowerCong(m, c * d, 1, e);
    PowerOne(e);
    CongSym(m, m - 1, x);
    CongBy(m, m - 1, -1, 1);
    CongTrans(m, x, m - 1, -1);
    CongSelf(m, y);
    CongMul(m, x, y, -1, y);
    CongSym(m, x * y, -1 * y);
    CongTrans(m, -1 * y, x * y, 1);
    NegatedOne(m, y);
    CongTrans(m, Squared(m, d, n), y, -1);
    SquaredBelow(m, d, n);
    LastResidue(m, Squared(m, d, n));
  }

  lemma NegatedOne(m: nat, y: int)
    requires Cong(m, -1 * y, 1)
    ensures Cong(m, y, -1)
  {
    var k: int :| -1 * y == 1 + m * k;
    assert m * (0 - k) == 0 - m * k;
    CongBy(m, y, -1, 0 - k);
  }

  lemma LastResidue(m: nat, x: nat)
    requires 1 < m && x < m && Cong(m, x, -1)
    ensures x == m - 1
  {
    var k: int :| x == -1 + m * k;
    if k <= 0 {
      MulMono(k, 0, m);
    }
    if k >= 2 {
      MulMono(2, k, m);
    }
  }

  /** One squaring. */
  lemma Next(m: nat, n: nat, a: nat, b: nat)
    requires m > 0 && a * a % m == b
    ensures Squared(m, a, n + 1) == Squared(m, b, n)
  {
  }

  lemma Root1A()
    ensures Squared(0x28d8000000000001, 0x1b8ea61034a2bea7, 50) == Squared(0x28d8000000000001, 0x6d7161052ed33c7, 25)
  {
    hide Squared;
    var m := 0x28d8000000000001;
    Next(m, 49, 0x1b8ea61034a2bea7, 0x11bf2acc9c713d40);
    Next(m, 48, 0x11bf2acc9c713d40, 0x117ecd40b8f23ce3);
    Next(m, 47, 0x117ecd40b8f23ce3, 0x45ca06b7dd55768);
    Next(m, 46, 0x45ca06b7dd55768, 0x2063daa5f3ab2b8f);
    Next(m, 45, 0x2063daa5f3ab2b8f, 0x1a8676cd7378a4a2);
    Next(m, 44, 0x1a8676cd7378a4a2, 0x78addfbaf5d977);
    Next(m, 43, 0x78addfbaf5d977, 0x1af47adc2454618d);
    Next(m, 42, 0x1af47adc2454618d, 0xd47e59d2827ff15);
    Next(m, 41, 0xd47e59d2827ff15, 0x66b730a50ae367d);
    Next(m, 40, 0x66b730a50ae367d, 0x27c9981f5b3ed347);
    Next(m, 39, 0x27c9981f5b3ed347, 0x765065a915fa984);
    Next(m, 38, 0x765065a915fa984, 0xb1428bc341579c0);
    Next(m, 37, 0xb1428bc341579c0, 0x1ee40846a81bd08);
    Next(m, 36, 0x1ee40846a81bd08, 0xce74593826adfd0);
    Next(m, 35, 0xce74593826adfd0, 0x4604dfcc67800f8);
    Next(m, 34, 0x4604dfcc67800f8, 0x250ce92091a519ae);
    Next(m, 33, 0x250ce92091a519ae, 0x9ad967836a0d03d);
    Next(m, 32, 0x9ad967836a0d03d, 0xf79df39b7a793dd);
    Next(m, 31, 0xf79df39b7a793dd, 0x1020b13077495562);
    Next(m, 30, 0x1020b13077495562, 0x808861f0e23310c);
    Next(m, 29, 0x808861f0e23310c, 0x1881d30f64dde1b2);
    Next(m, 28, 0x1881d30f64dde1b2, 0xba18994b0308683);
    Next(m, 27, 0xba18994b0308683, 0x2bc9718ea5abba3);
    Next(m, 26, 0x2bc9718ea5abba3, 0x1ba0869095d3d799);
    Next(m, 25, 0x1ba0869095d3d799, 0x6d7161052ed33c7);
  }

  lemma Root1B()
    ensures Squared(0x28d8000000000001, 0x6d7161052ed33c7, 25) == Squared(0x28d8000000000001, 0x28d8000000000000, 0)
  {
    hide Squared;
    var m := 0x28d8000000000001;
    Next(m, 24, 0x6d7161052ed33c7, 0x25ee3bd9c046a388);
    Next(m, 23, 0x25ee3bd9c046a388, 0x524cb3892ce2ac);
    Next(m, 22, 0x524cb3892ce2ac, 0x21e3892da47bfed1);
    Next(m, 21, 0x21e3892da47bfed1, 0x1a6a218533869415);
    Next(m, 20, 0x1a6a218533869415, 0x1e40f499a11e5c2f);
    Next(m, 19, 0x1e40f499a11e5c2f, 0x1eea26409f9fadd8);
    Next(m, 18, 0x1eea26409f9fadd8, 0x29490b7904c808c);
    Next(m, 17, 0x29490b7904c808c, 0x381b45240bee56d);
    Next(m, 16, 0x381b45240bee56d, 0xbe930411abbd7ef);
    Next(m, 15, 0xbe930411abbd7ef, 0x1b2cc404c1f00eab);
    Next(m, 14, 0x1b2cc404c1f00eab, 0x1b758c419b9072ed);
    Next(m, 13, 0x1b758c419b9072ed, 0x931dd93b729b453);
    Next(m, 12, 0x931dd93b729b453, 0x224524552b855f94);
    Next(m, 11, 0x224524552b855f94, 0x1020098506d09868);
    Next(m, 10, 0x1020098506d09868, 0x19865c9022733918);
    Next(m, 9, 0x19865c9022733918, 0x1480b64fff3cb853);
    Next(m, 8, 0x1480b64fff3cb853, 0x16070c056f2e8ff4);
    Next(m, 7, 0x16070c056f2e8ff4, 0x1620b4151aecbd96);
    Next(m, 6, 0x1620b4151aecbd96, 0x3420ab6137bbd61);
    Next(m, 5, 0x3420ab6137bbd61, 0x2719ec745b89fb2d);
    Next(m, 4, 0x2719ec745b89fb2d, 0x276d1af9b2668e7b);
    Next(m, 3, 0x276d1af9b2668e7b, 0x225c203ea7b1acc0);
    Next(m, 2, 0x225c203ea7b1acc0, 0x240936938e1ab821);
    Next(m, 1, 0x240936938e1ab821, 0x22ddbb3c2ad555da);
    Next(m, 0, 0x22ddbb3c2ad555da, 0x28d8000000000000);
  }

  lemma Root1()
    ensures Squared(0x28d8000000000001, 0x1b8ea61034a2bea7, 50) == 0x28d8000000000000
  {
    hide Squared;
    Root1A();
    Root1B();
    SquaredZero(0x28d8000000000001, 0x28d8000000000000);
  }

  lemma Root2A()
    ensures Squared(0x2a88000000000001, 0x21a9762de58206fb, 50) == Squared(0x2a88000000000001, 0x23cbffd3ac83c407, 25)
  {
    hide Squared;
    var m := 0x2a88000000000001;
    Next(m, 49, 0x21a9762de58206fb, 0xc115151fccaa3b6);
    Next(m, 48, 0xc115151fccaa3b6, 0x1933cae903d6df84);
    Next(m, 47, 0x1933cae903d6df84, 0x18ced8f84565af47);
    Next(m, 46, 0x18ced8f84565af47, 0x10d701bec133727f);
    Next(m, 45, 0x10d701bec133727f, 0xf78a7db7410d9f9);
    Next(m, 44, 0xf78a7db7410d9f9, 0x16e656d8509df599);
    Next(m, 43, 0x16e656d8509df599, 0x188bef80e2704c11);
    Next(m, 42, 0x188bef80e2704c11, 0x1c318b73df288f7a);
    Next(m, 41, 0x1c318b73df288f7a, 0x262a41498b083a7);
    Next(m, 40, 0x262a41498b083a7, 0x95660e210288c6a);
    Next(m, 39, 0x95660e210288c6a, 0xd97b8fe678e8d34);
    Next(m, 38, 0xd97b8fe678e8d34, 0xa46e05bdca82f31);
    Next(m, 37, 0xa46e05bdca82f31, 0x13f1190692921afa);
    Next(m, 36, 0x13f1190692921afa, 0x110b6c5ed7a45289);
    Next(m, 35, 0x110b6c5ed7a45289, 0x29d6f683253995cf);
    Next(m, 34, 0x29d6f683253995cf, 0xfd60a2a200f9c26);
    Next(m, 33, 0xfd60a2a200f9c26, 0x2738a11d5cd1c02c);
    Next(m, 32, 0x2738a11d5cd1c02c, 0x13391b2515ab46f8);
    Next(m, 31, 0x13391b2515ab46f8, 0x13e82823a00faf4b);
    Next(m, 30, 0x13e82823a00faf4b, 0x2453b59951f862eb);
    Next(m, 29, 0x2453b59951f862eb, 0x20208e091c61e871);
    Next(m, 28, 0x20208e091c61e871, 0x19109e9184890ca7);
    Next(m, 27, 0x19109e9184890ca7, 0x16a696d4620b5233);
    Next(m, 26, 0x16a696d4620b5233, 0x112c70cff4f937c8);
    Next(m, 25, 0x112c70cff4f937c8, 0x23cbffd3ac83c407);
  }

  lemma Root2B()
    ensures Squared(0x2a88000000000001, 0x23cbffd3ac83c407, 25) == Squared(0x2a88000000000001, 0x2a88000000000000, 0)
  {
    hide Squared;
    var m := 0x2a88000000000001;
    Next(m, 24, 0x23cbffd3ac83c407, 0x28ed6ee4f7941100);
    Next(m, 23, 0x28ed6ee4f7941100, 0x1f7efd54d99ae8f3);
    Next(m, 22, 0x1f7efd54d99ae8f3, 0xf9234a42f60ed3d);
    Next(m, 21, 0xf9234a42f60ed3d, 0x16361632299e1269);
    Next(m, 20, 0x16361632299e1269, 0x8dfc85ec8f66421);
    Next(m, 19, 0x8dfc85ec8f66421, 0x162affd6d19e3f6d);
    Next(m, 18, 0x162affd6d19e3f6d, 0x1ba70f27ded992c5);
    Next(m, 17, 0x1ba70f27ded992c5, 0xc74896769ae521);
    Next(m, 16, 0xc74896769ae521, 0x78c95dc9fe7d84e);
    Next(m, 15, 0x78c95dc9fe7d84e, 0x26f15b9d4656e9fe);
    Next(m, 14, 0x26f15b9d4656e9fe, 0x211501d49e89e6db);
    Next(m, 13, 0x211501d49e89e6db, 0x13d5227e55bcd481);
    Next(m, 12, 0x13d5227e55bcd481, 0x2b4e46443b48209);
    Next(m, 11, 0x2b4e46443b48209, 0x9b98236f89da2c7);
    Next(m, 10, 0x9b98236f89da2c7, 0x25b15c692eacff82);
    Next(m, 9, 0x25b15c692eacff82, 0x12fe079fb471ccf6);
    Next(m, 8, 0x12fe079fb471ccf6, 0x1c7f25769cdefca6);
    Next(m, 7, 0x1c7f25769cdefca6, 0x19458bb7142589e2);
    Next(m, 6, 0x19458bb7142589e2, 0x1044bb49e3593fb);
    Next(m, 5, 0x1044bb49e3593fb, 0xa951fcee81e1917);
    Next(m, 4, 0xa951fcee81e1917, 0x10ae703a3f62fd23);
    Next(m, 3, 0x10ae703a3f62fd23, 0xbac4480425c3eec);
    Next(m, 2, 0xbac4480425c3eec, 0x146bd875e06a2fc4);
    Next(m, 1, 0x146bd875e06a2fc4, 0x236e45c7a9102530);
    Next(m, 0, 0x236e45c7a9102530, 0x2a88000000000000);
  }

  lemma Root2()
    ensures Squared(0x2a88000000000001, 0x21a9762de58206fb, 50) == 0x2a88000000000000
  {
    hide Squared;
    Root2A();
    Root2B();
    SquaredZero(0x2a88000000000001, 0x2a88000000000000);
  }

  lemma Root3A()
    ensures Squared(0x2ed8000000000001, 0x2ca782f0756a8ea, 50) == Squared(0x2ed8000000000001, 0x2883edd0b24d7431, 25)
  {
    hide Squared;
    var m := 0x2ed8000000000001;
    Next(m, 49, 0x2ca782f0756a8ea, 0x7f8af468fa96c01);
    Next(m, 48, 0x7f8af468fa96c01, 0x2893e1a955313b47);
    Next(m, 47, 0x2893e1a955313b47, 0x119875c71c305e20);
    Next(m, 46, 0x119875c71c305e20, 0xfea39f4f588e372);
    Next(m, 45, 0xfea39f4f588e372, 0x3616ec68cc63a53);
    Next(m, 44, 0x3616ec68cc63a53, 0x1dd280e8ca562289);
    Next(m, 43, 0x1dd280e8ca562289, 0x89b4335356f5ba9);
    Next(m, 42, 0x89b4335356f5ba9, 0x46e97af40d727e);
    Next(m, 41, 0x46e97af40d727e, 0xc73b3b44a90e273);
    Next(m, 40, 0xc73b3b44a90e273, 0x61dfe8ca6992956);
    Next(m, 39, 0x61dfe8ca6992956, 0x1d3e5bdaac52234d);
    Next(m, 38, 0x1d3e5bdaac52234d, 0x1575c284b0956e53);
    Next(m, 37, 0x1575c284b0956e53, 0x15be952d05199cd2);
    Next(m, 36, 0x15be952d05199cd2, 0x1847a2dddac12664);
    Next(m, 35, 0x1847a2dddac12664, 0x962b718917de5a0);
    Next(m, 34, 0x962b718917de5a0, 0x1d0441ae2fbb4b0e);
    Next(m, 33, 0x1d0441ae2fbb4b0e, 0x10bc206b633195d3);
    Next(m, 32, 0x10bc206b633195d3, 0xd4e22f9033841f);
    Next(m, 31, 0xd4e22f9033841f, 0x2ba776ed50d8b268);
    Next(m, 30, 0x2ba776ed50d8b268, 0x2783d493568cb20b);
    Next(m, 29, 0x2783d493568cb20b, 0x292654bbfb073949);
    Next(m, 28, 0x292654bbfb073949, 0xb0aea6ed03a0b36);
    Next(m, 27, 0xb0aea6ed03a0b36, 0x1f4c53ba8b9be4fe);
    Next(m, 26, 0x1f4c53ba8b9be4fe, 0x1186c4d8d6712ea1);
    Next(m, 25, 0x1186c4d8d6712ea1, 0x2883edd0b24d7431);
  }

  lemma Root3B()
    ensures Squared(0x2ed8000000000001, 0x2883edd0b24d7431, 25) == Squared(0x2ed8000000000001, 0x2ed8000000000000, 0)
  {
    hide Squared;
    var m := 0x2ed8000000000001;
    Next(m, 24, 0x2883edd0b24d7431, 0x133a9d8b542f301b);
    Next(m, 23, 0x133a9d8b542f301b, 0x1345aa59bc4d4ab9);
    Next(m, 22, 0x1345aa59bc4d4ab9, 0x15517f78be3ba004);
    Next(m, 21, 0x15517f78be3ba004, 0x167add39f82a332c);
    Next(m, 20, 0x167add39f82a332c, 0x126cd52ee5f02406);
    Next(m, 19, 0x126cd52ee5f02406, 0x2f285446e0e92d);
    Next(m, 18, 0x2f285446e0e92d, 0x2644ab2c4cd4e358);
    Next(m, 17, 0x2644ab2c4cd4e358, 0xc2993c49ed39235);
    Next(m, 16, 0xc2993c49ed39235, 0x9fc2f6fc81e4e61);
    Next(m, 15, 0x9fc2f6fc81e4e61, 0x185e1567702365d4);
    Next(m, 14, 0x185e1567702365d4, 0x15c2be1efb484f5a);
    Next(m, 13, 0x15c2be1efb484f5a, 0x3173e6d0fed32fb);
    Next(m, 12, 0x3173e6d0fed32fb, 0x2c1a707e395ae3bc);
    Next(m, 11, 0x2c1a707e395ae3bc, 0x2c985ac26b3d5b61);
    Next(m, 10, 0x2c985ac26b3d5b61, 0x2956b4b2229d8a8b);
    Next(m, 9, 0x2956b4b2229d8a8b, 0x2e5f530afca3420d);
    Next(m, 8, 0x2e5f530afca3420d, 0x3d58c348242857b);
    Next(m, 7, 0x3d58c348242857b, 0x11120bcfa53759b0);
    Next(m, 6, 0x11120bcfa53759b0, 0xf680f483975f033);
    Next(m, 5, 0xf680f483975f033, 0x22f1a7a7bbadcd3b);
    Next(m, 4, 0x22f1a7a7bbadcd3b, 0x1970ef6c9cbcd317);
    Next(m, 3, 0x1970ef6c9cbcd317, 0x14bc81fbda4489b1);
    Next(m, 2, 0x14bc81fbda4489b1, 0x1fbd441fe5e70563);
    Next(m, 1, 0x1fbd441fe5e70563, 0x15ebb0edef885436);
    Next(m, 0, 0x15ebb0edef885436, 0x2ed8000000000000);
  }

  lemma Root3()
    ensures Squared(0x2ed8000000000001, 0x2ca782f0756a8ea, 50) == 0x2ed8000000000000
  {
    hide Squared;
    Root3A();
    Root3B();
    SquaredZero(0x2ed8000000000001, 0x2ed8000000000000);
  }

  lemma Root4A()
    ensures Squared(0x3508000000000001, 0x278384537a3e50a1, 50) == Squared(0x3508000000000001, 0x77bb40c803c1315, 25)
  {
    hide Squared;
    var m := 0x3508000000000001;
    Next(m, 49, 0x278384537a3e50a1, 0xd82aa94862db309);
    Next(m, 48, 0xd82aa94862db309, 0x17c5b1d8edc947b5);
    Next(m, 47, 0x17c5b1d8edc947b5, 0x1f0991d2b810c767);
    Next(m, 46, 0x1f0991d2b810c767, 0x158dad655569cce8);
    Next(m, 45, 0x158dad655569cce8, 0x343a21dd03b176d0);
    Next(m, 44, 0x343a21dd03b176d0, 0xbd704064191e73e);
    Next(m, 43, 0xbd704064191e73e, 0x30d37af324a91bf3);
    Next(m, 42, 0x30d37af324a91bf3, 0x10c457f05ef48610);
    Next(m, 41, 0x10c457f05ef48610, 0x336d9c346ad224cd);
    Next(m, 40, 0x336d9c346ad224cd, 0xc5ddfd400bd872);
    Next(m, 39, 0xc5ddfd400bd872, 0x1215afd41184f7b4);
    Next(m, 38, 0x1215afd41184f7b4, 0x1dca774d45bb85bb);
    Next(m, 37, 0x1dca774d45bb85bb, 0x2590abd47f6f2b7b);
    Next(m, 36, 0x2590abd47f6f2b7b, 0x3431c6d1a0e183d2);
    Next(m, 35, 0x3431c6d1a0e183d2, 0x2ba9d15184e56f91);
    Next(m, 34, 0x2ba9d15184e56f91, 0xa077f0e808f55e7);
    Next(m, 33, 0xa077f0e808f55e7, 0x10e4aca6fe02a647);
    Next(m, 32, 0x10e4aca6fe02a647, 0x27a6aad24167a986);
    Next(m, 31, 0x27a6aad24167a986, 0x2ad8532952214a5d);
    Next(m, 30, 0x2ad8532952214a5d, 0x197defb964696287);
    Next(m, 29, 0x197defb964696287, 0xb87fab71e36ea1a);
    Next(m, 28, 0xb87fab71e36ea1a, 0x1690822d1f88258f);
    Next(m, 27, 0x1690822d1f88258f, 0x1e52d2eacbc69b26);
    Next(m, 26, 0x1e52d2eacbc69b26, 0xeb3bb6912cb9ea0);
    Next(m, 25, 0xeb3bb6912cb9ea0, 0x77bb40c803c1315);
  }

  lemma Root4B()
    ensures Squared(0x3508000000000001, 0x77bb40c803c1315, 25) == Squared(0x3508000000000001, 0x3508000000000000, 0)
  {
    hide Squared;
    var m := 0x3508000000000001;
    Next(m, 24, 0x77bb40c803c1315, 0x2013203188e97741);
    Next(m, 23, 0x2013203188e97741, 0x18d07bde7b143666);
    Next(m, 22, 0x18d07bde7b143666, 0x334456414536a778);
    Next(m, 21, 0x334456414536a778, 0x8dc7997ac088ab6);
    Next(m, 20, 0x8dc7997ac088ab6, 0x1ac41ca88e35b838);
    Next(m, 19, 0x1ac41ca88e35b838, 0x11c342f956abb257);
    Next(m, 18, 0x11c342f956abb257, 0x7fc7ef283fe83b4);
    Next(m, 17, 0x7fc7ef283fe83b4, 0x24e0c3613c97a76a);
    Next(m, 16, 0x24e0c3613c97a76a, 0xf2aad0a6ea1df84);
    Next(m, 15, 0xf2aad0a6ea1df84, 0x113ef3259d22e0e7);
    Next(m, 14, 0x113ef3259d22e0e7, 0x80798a2565138f9);
    Next(m, 13, 0x80798a2565138f9, 0x33d53835ce5bc3ad);
    Next(m, 12, 0x33d53835ce5bc3ad, 0xf532653e3b244ce);
    Next(m, 11, 0xf532653e3b244ce, 0xc39b4ae0e71ff75);
    Next(m, 10, 0xc39b4ae0e71ff75, 0x2484f63c7f3a0060);
    Next(m, 9, 0x2484f63c7f3a0060, 0x2d85376e2b036871);
    Next(m, 8, 0x2d85376e2b036871, 0x2ac7b1f3aa076f6e);
    Next(m, 7, 0x2ac7b1f3aa076f6e, 0xc62d8c29ed3e71c);
    Next(m, 6, 0xc62d8c29ed3e71c, 0x22b72fb700b997ff);
    Next(m, 5, 0x22b72fb700b997ff, 0x477b150e0cdd0d0);
    Next(m, 4, 0x477b150e0cdd0d0, 0x82a9b91aafa024c);
    Next(m, 3, 0x82a9b91aafa024c, 0x1255b0fb439fed7f);
    Next(m, 2, 0x1255b0fb439fed7f, 0x12b6abe6c05ea197);
    Next(m, 1, 0x12b6abe6c05ea197, 0x1639a4efab5872e6);
    Next(m, 0, 0x1639a4efab5872e6, 0x3508000000000000);
  }

  lemma Root4()
    ensures Squared(0x3508000000000001, 0x278384537a3e50a1, 50) == 0x3508000000000000
  {
    hide Squared;
    Root4A();
    Root4B();
    SquaredZero(0x3508000000000001, 0x3508000000000000);
  }

  lemma Root5A()
    ensures Squared(0x3aa8000000000001, 0x106e13fee74ce0ab, 50) == Squared(0x3aa8000000000001, 0xa6b48a027ed9cb0, 25)
  {
    hide Squared;
    var m := 0x3aa8000000000001;
    Next(m, 49, 0x106e13fee74ce0ab, 0x2ab4e3986f2ee22c);
    Next(m, 48, 0x2ab4e3986f2ee22c, 0x99040fca134ac6b);
    Next(m, 47, 0x99040fca134ac6b, 0x117d12ab5ecb3741);
    Next(m, 46, 0x117d12ab5ecb3741, 0x7d5f7dc1c1f064c);
    Next(m, 45, 0x7d5f7dc1c1f064c, 0x34744e3bc14f85e3);
    Next(m, 44, 0x34744e3bc14f85e3, 0xfd68f624aa11dbb);
    Next(m, 43, 0xfd68f624aa11dbb, 0x18686bf84cb33e74);
    Next(m, 42, 0x18686bf84cb33e74, 0x3530cf4f724d4754);
    Next(m, 41, 0x3530cf4f724d4754, 0x500c9b305228d71);
    Next(m, 40, 0x500c9b305228d71, 0x13ea5d9520df4233);
    Next(m, 39, 0x13ea5d9520df4233, 0xdf5a5ca37b8046e);
    Next(m, 38, 0xdf5a5ca37b8046e, 0x396e257658ca538);
    Next(m, 37, 0x396e257658ca538, 0x6e738d90aaf4949);
    Next(m, 36, 0x6e738d90aaf4949, 0x154a5bd6583090cf);
    Next(m, 35, 0x154a5bd6583090cf, 0x16605fa7ea67abaa);
    Next(m, 34, 0x16605fa7ea67abaa, 0x29528a36b3b3ad3e);
    Next(m, 33, 0x29528a36b3b3ad3e, 0xb445908ec80a80);
    Next(m, 32, 0xb445908ec80a80, 0x38cd2dec35b1a093);
    Next(m, 31, 0x38cd2dec35b1a093, 0x37a3654336860829);
    Next(m, 30, 0x37a3654336860829, 0x16d4e6036332f01f);
    Next(m, 29, 0x16d4e6036332f01f, 0x21deac0f1b7c42e3);
    Next(m, 28, 0x21deac0f1b7c42e3, 0x37d19eb869380dee);
    Next(m, 27, 0x37d19eb869380dee, 0x35f275215541e0fa);
    Next(m, 26, 0x35f275215541e0fa, 0x37a7a16e0d67f70b);
    Next(m, 25, 0x37a7a16e0d67f70b, 0xa6b48a027ed9cb0);
  }

  lemma Root5B()
    ensures Squared(0x3aa8000000000001, 0xa6b48a027ed9cb0, 25) == Squared(0x3aa8000000000001, 0x3aa8000000000000, 0)
  {
    hide Squared;
    var m := 0x3aa8000000000001;
    Next(m, 24, 0xa6b48a027ed9cb0, 0x1af75487599c3922);
    Next(m, 23, 0x1af75487599c3922, 0x17aee30790b9e2b3);
    Next(m, 22, 0x17aee30790b9e2b3, 0x1de18789eb23e9e0);
    Next(m, 21, 0x1de18789eb23e9e0, 0xf54a92367f882db);
    Next(m, 20, 0xf54a92367f882db, 0x1e99135084ab55df);
    Next(m, 19, 0x1e99135084ab55df, 0x2c8dcbb44789fc3d);
    Next(m, 18, 0x2c8dcbb44789fc3d, 0x1bbbb5ff84595c2b);
    Next(m, 17, 0x1bbbb5ff84595c2b, 0x210be1ecd56e9b43);
    Next(m, 16, 0x210be1ecd56e9b43, 0x31cf0e77383bda15);
    Next(m, 15, 0x31cf0e77383bda15, 0x230389d03a9741a9);
    Next(m, 14, 0x230389d03a9741a9, 0x2c01d728b756e204);
    Next(m, 13, 0x2c01d728b756e204, 0x1b1a6ae0e8214e50);
    Next(m, 12, 0x1b1a6ae0e8214e50, 0x3a19a8749981d638);
    Next(m, 11, 0x3a19a8749981d638, 0x38236c52f5edb34c);
    Next(m, 10, 0x38236c52f5edb34c, 0x2d6d4ea45938d2da);
    Next(m, 9, 0x2d6d4ea45938d2da, 0x2af11c7b4888771b);
    Next(m, 8, 0x2af11c7b4888771b, 0x2e7b6c570b501118);
    Next(m, 7, 0x2e7b6c570b501118, 0x339a275f79ea4bbd);
    Next(m, 6, 0x339a275f79ea4bbd, 0x376da315b593dc22);
    Next(m, 5, 0x376da315b593dc22, 0xb831418ae2216ee);
    Next(m, 4, 0xb831418ae2216ee, 0x1acd71a3bfdfd8de);
    Next(m, 3, 0x1acd71a3bfdfd8de, 0x226a78b52d57311);
    Next(m, 2, 0x226a78b52d57311, 0x341060b345a6187d);
    Next(m, 1, 0x341060b345a6187d, 0x190871e7f52cc53);
    Next(m, 0, 0x190871e7f52cc53, 0x3aa8000000000000);
  }

  lemma Root5()
    ensures Squared(0x3aa8000000000001, 0x106e13fee74ce0ab, 50) == 0x3aa8000000000000
  {
    hide Squared;
    Root5A();
    Root5B();
    SquaredZero(0x3aa8000000000001, 0x3aa8000000000000);
  }

  lemma SquaredZero(m: nat, c: nat)
    requires m > 0
    ensures Squared(m, c, 0) == c
  {
  }

  /** ntt_proot */
  function Proot(): seq<nat> {
    [0x1b8ea61034a2bea7, 0x21a9762de58206fb, 0x2ca782f0756a8ea, 0x278384537a3e50a1, 0x106e13fee74ce0ab]
  }

  function ProotInverse(): seq<nat> {
    [0x233513af133e13b8, 0x1d13140d1c6f75f1, 0x12cde57f97e3eeda, 0xd6149e23cbe654f, 0x36cd204f522a1379]
  }

  /** A modulus with its two roots. */
  lemma GoodRoots(m: nat, c: nat, d: nat)
    requires 1 < m && m % 2 == 1 && c < m && d < m && c * d % m == 1 && Squared(m, c, 50) == m - 1
    ensures GoodModulus(m, RootTable(m, c, RootExp), RootTable(m, d, RootExp), RootExp)
  {
    hide Cong, Squared, RootTable, RootChain;
    MulMono(0, c, d);
    OneAbove(m, c, d);
    InverseSquared(m, c, d, 50);
    TableIsChain(m, c, RootExp);
    TableIsChain(m, d, RootExp);
    LastEntry(m, c, RootExp);
    LastEntry(m, d, RootExp);
  }

  lemma LastEntry(m: nat, c: nat, k: nat)
    requires m > 0
    ensures RootTable(m, c, k)[k] == c
  {
  }

  /** The tables that ntt_static_init computes. */
  function RootTables(roots: seq<nat>): seq<seq<nat>>
    requires |roots| == 5
  {
    var m := Mods();
    [RootTable(m[0], roots[0], RootExp), RootTable(m[1], roots[1], RootExp), RootTable(m[2], roots[2], RootExp),
     RootTable(m[3], roots[3], RootExp), RootTable(m[4], roots[4], RootExp)]
  }

  lemma GoodRoots1()
    ensures GoodModulus(0x28d8000000000001, RootTable(0x28d8000000000001, 0x1b8ea61034a2bea7, RootExp),
      RootTable(0x28d8000000000001, 0x233513af133e13b8, RootExp), RootExp)
  {
    hide Squared, RootTable, GoodModulus;
    Root1();
    GoodRoots(0x28d8000000000001, 0x1b8ea61034a2bea7, 0x233513af133e13b8);
  }

  lemma GoodRoots2()
    ensures GoodModulus(0x2a88000000000001, RootTable(0x2a88000000000001, 0x21a9762de58206fb, RootExp),
      RootTable(0x2a88000000000001, 0x1d13140d1c6f75f1, RootExp), RootExp)
  {
    hide Squared, RootTable, GoodModulus;
    Root2();
    GoodRoots(0x2a88000000000001, 0x21a9762de58206fb, 0x1d13140d1c6f75f1);
  }

  lemma GoodRoots3()
    ensures GoodModulus(0x2ed8000000000001, RootTable(0x2ed8000000000001, 0x2ca782f0756a8ea, RootExp),
      RootTable(0x2ed8000000000001, 0x12cde57f97e3eeda, RootExp), RootExp)
  {
    hide Squared, RootTable, GoodModulus;
    Root3();
    GoodRoots(0x2ed8000000000001, 0x2ca782f0756a8ea, 0x12cde57f97e3eeda);
  }

  lemma GoodRoots4()
    ensures GoodModulus(0x3508000000000001, RootTable(0x3508000000000001, 0x278384537a3e50a1, RootExp),
      RootTable(0x3508000000000001, 0xd6149e23cbe654f, RootExp), RootExp)
  {
    hide Squared, RootTable, GoodModulus;
    Root4();
    GoodRoots(0x3508000000000001, 0x278384537a3e50a1, 0xd6149e23cbe654f);
  }

  lemma GoodRoots5()
    ensures GoodModulus(0x3aa8000000000001, RootTable(0x3aa8000000000001, 0x106e13fee74ce0ab, RootExp),
      RootTable(0x3aa8000000000001, 0x36cd204f522a1379, RootExp), RootExp)
  {
    hide Squared, RootTable, GoodModulus;
    Root5();
    GoodRoots(0x3aa8000000000001, 0x106e13fee74ce0ab, 0x36cd204f522a1379);
  }

  /** The multiplication of the 64-bit configuration rests on no assumption about its constants: they are what fft_mul
      needs, and a size of transform exists for every product of up to 2^52 limbs. */
  lemma SourceIsGood(len: nat)
    ensures var t := SourceTables(RootTables(Proot()), RootTables(ProotInverse()));
      GoodTables(t) && (len <= Two(52) ==> !NoSize(t, len))
  {
    hide Squared, RootTable, GoodModulus, GoodTables, NoSize, Two;
    GoodRoots1();
    GoodRoots2();
    GoodRoots3();
    GoodRoots4();
    GoodRoots5();
    ConstantsAreGood(RootTables(Proot()), RootTables(ProotInverse()), len);
  }
}

/** The moduli of the 64-bit configuration and what they promise to the multiplication. */
module NttConstants {
  import opened Limbs
  import opened FloatBits
  import opened FloatRound
  import opened NttPoly
  import opened NttWord
  import opened NttCrt
  import opened NttSize
  import opened NttMultiply

  /** ntt_mods */
  function Mods(): seq<nat> {
    [0x28d8000000000001, 0x2a88000000000001, 0x2ed8000000000001, 0x3508000000000001, 0x3aa8000000000001]
  }

  /** ntt_mods_cr */
  function Inverses(): seq<nat> {
    [0x08a9ed097b425eea, 0x18a44aaaaaaaaab3, 0x2493f57f57f57f5d, 0x126b8d0649a7f8d4,
     0x09d80ed7303b5ccc, 0x25b8bcf3cf3cf3d5, 0x2ce6ce63398ce638,
     0x0e31fad40a57eb59, 0x02a3529fd4a7f52f,
     0x3a5493e93e93e94a]
  }

  /** ntt_int_bits */
  function IntBits(): seq<nat> {
    [307, 246, 185, 123, 61]
  }

  const RootExp: nat := 51

  lemma Powers()
    ensures Two(61) == 2305843009213693952 && Two(64) == 18446744073709551616
    ensures Two(185) == 49039857307708443467467104868809893875799651909875269632
    ensures Two(246) == 113078212145816597093331040047546785012958969400039613319782796882727665664
    ensures Two(307) == 260740604970814219042361048116400404614587954389239840081425977517360806369707098391474864128
  {
    hide Two;
    TwoZero();
    TwoNext(0);
    TwoAdd(1, 1);
    TwoAdd(2, 2);
    TwoAdd(4, 4);
    TwoAdd(8, 8);
    TwoAdd(16, 16);
    TwoAdd(32, 16);
    TwoAdd(48, 8);
    TwoAdd(56, 4);
    TwoAdd(60, 1);
    TwoAdd(60, 4);
    TwoAdd(61, 60);
    TwoAdd(121, 64);
    TwoAdd(185, 61);
    TwoAdd(246, 61);
  }

  /** The moduli are in the range of the modular operations and in increasing order. */
  lemma ModsAreModuli()
    ensures Moduli(Base(64), Two(61), Mods())
  {
    hide Two;
    Powers();
    BaseIs(64);
  }

  /** x y is one above a multiple of m. */
  lemma OneAbove(m: nat, x: nat, y: nat)
    requires m > 1 && x * y % m == 1
    ensures Cong(m, x * y, 1)
  {
    CongBy(m, x * y, 1, x * y / m);
  }

  /** The table holds the inverses of the moduli. */
  lemma InversesAreInverse()
    ensures InverseTable(Mods(), Inverses())
  {
    hide Cong;
    OneAbove(0x2a88000000000001, 0x28d8000000000001, 0x08a9ed097b425eea);
    OneAbove(0x2ed8000000000001, 0x28d8000000000001, 0x18a44aaaaaaaaab3);
    OneAbove(0x3508000000000001, 0x28d8000000000001, 0x2493f57f57f57f5d);
    OneAbove(0x3aa8000000000001, 0x28d8000000000001, 0x126b8d0649a7f8d4);
    OneAbove(0x2ed8000000000001, 0x2a88000000000001, 0x09d80ed7303b5ccc);
    OneAbove(0x3508000000000001, 0x2a88000000000001, 0x25b8bcf3cf3cf3d5);
    OneAbove(0x3aa8000000000001, 0x2a88000000000001, 0x2ce6ce63398ce638);
    OneAbove(0x3508000000000001, 0x2ed8000000000001, 0x0e31fad40a57eb59);
    OneAbove(0x3aa8000000000001, 0x2ed8000000000001, 0x02a3529fd4a7f52f);
    OneAbove(0x3aa8000000000001, 0x3508000000000001, 0x3a5493e93e93e94a);
    var m, c := Mods(), Inverses();
    assert InverseTable(m[4..], c[10..]);
    assert InverseTable(m[3..], c[9..]) by { assert m[3..][1..] == m[4..] && c[9..][1..] == c[10..]; }
    assert InverseTable(m[2..], c[7..]) by { assert m[2..][1..] == m[3..] && c[7..][2..] == c[9..]; }
    assert InverseTable(m[1..], c[4..]) by { assert m[1..][1..] == m[2..] && c[4..][3..] == c[7..]; }
  }

  /** The products of the last moduli reach the promised number of bits. */
  lemma ProductsReach(i: nat)
    requires i <= 2
    ensures Two(IntBits()[i]) <= Product(Mods()[i..])
  {
    hide Two, Product;
    Powers();
    LastProducts(Mods());
  }

  lemma LastProducts(m: seq<nat>)
    requires |m| == 5
    ensures Product(m[2..]) == m[2] * (m[3] * m[4]) && Product(m[1..]) == m[1] * (m[2] * (m[3] * m[4]))
    ensures Product(m[0..]) == m[0] * (m[1] * (m[2] * (m[3] * m[4])))
  {
    assert m[4..][1..] == [] && m[3..][1..] == m[4..] && m[2..][1..] == m[3..] && m[1..][1..] == m[2..]
      && m[0..][1..] == m[1..];
    assert Product(m[4..]) == m[4];
  }

  /** Every product of up to 2^52 limbs has a size of transform. */
  lemma SizeExists(len: nat)
    requires len <= Two(52)
    ensures Feasible(64, IntBits()[0], RootExp, len, 128)
  {
    hide Two, Bits, CeilLog2;
    var n := DigitCount(64, len, 128);
    TwoNext(51);
    CountBound(len, n);
    CeilLog2Mono(n, Two(51));
    CeilOfTwo(51);
  }

  lemma CountBound(len: nat, n: nat)
    requires Bits(128, n) < Bits(64, len) + 128 && len <= 2 * Two(51)
    ensures n <= Two(51)
  {
  }

  lemma CeilOfTwo(k: nat)
    ensures CeilLog2(Two(k)) <= k
  {
    hide Two;
    var r := CeilLog2(Two(k));
    if r > k {
      TwoAdd(k, r - 1 - k);
      MulMono(1, Two(r - 1 - k), Two(k));
    }
  }

  /** The tables of the 64-bit configuration, with the roots that ntt_static_init computes. */
  function SourceTables(roots: seq<seq<nat>>, inverses: seq<seq<nat>>): Tables {
    Tables(64, Mods(), Inverses(), roots, inverses, IntBits(), RootExp)
  }

  /** With roots of unity, the constants meet every requirement of fft_mul, and a size is found for every product of up
      to 2^52 limbs. */
  lemma ConstantsAreGood(roots: seq<seq<nat>>, inverses: seq<seq<nat>>, len: nat)
    requires |roots| == |inverses| == 5 && forall j :: 0 <= j < 5 ==>
      GoodModulus(Mods()[j], roots[j], inverses[j], RootExp)
    ensures GoodTables(SourceTables(roots, inverses))
      && (len <= Two(52) ==> !NoSize(SourceTables(roots, inverses), len))
  {
    hide Two, GoodModulus, Feasible, InverseTable, Moduli, Product, Base, Mods, Inverses, IntBits;
    Lengths();
    ModsAreModuli();
    InversesAreInverse();
    forall i | 0 <= i <= 2
      ensures IntBits()[i] >= 6 && Two(IntBits()[i]) <= Product(Mods()[i..])
    {
      ProductsReach(i);
    }
    if len <= Two(52) {
      SizeExists(len);
    }
  }

  lemma Lengths()
    ensures |Mods()| == |IntBits()| == 5 && forall i :: 0 <= i <= 2 ==> IntBits()[i] >= 6
  {
  }
}

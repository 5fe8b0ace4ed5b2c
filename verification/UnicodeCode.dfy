/** What the bytes of a property table and of its index mean: an encoder for both, written from run lengths, and the
    proof that expanding and looking up what it writes gives the runs back. */
module UnicodeCode {
  import opened CharSet
  import opened CharRange
  import opened UnicodeTable

  // ---- entries

  /** One entry: two runs of up to 8 in one byte, or one run in one, two or three bytes. */
  datatype Item = Two(a: nat, b: nat) | Short(n: nat) | Middle(n: nat) | Long(n: nat)

  predicate Fits(i: Item) {
    match i
    case Two(a, b) => 1 <= a <= 8 && 1 <= b <= 8
    case Short(n) => 1 <= n <= 0x80
    case Middle(n) => 1 <= n <= 0x2000
    case Long(n) => 1 <= n <= 0x20_0000
  }

  /** Most significant byte first, each run less one, above a tag that says how many bytes there are. */
  function ItemBytes(i: Item): (s: seq<byte>)
    requires Fits(i)
    ensures |s| > 0
  {
    match i
    case Two(a, b) => [8 * (a - 1) + (b - 1)]
    case Short(n) => [128 + (n - 1)]
    case Middle(n) => [64 + (n - 1) / 256, (n - 1) % 256]
    case Long(n) => [96 + (n - 1) / 65536, (n - 1) / 256 % 256, (n - 1) % 256]
  }

  function ItemRuns(i: Item): seq<nat> {
    match i
    case Two(a, b) => [a, b]
    case Short(n) => [n]
    case Middle(n) => [n]
    case Long(n) => [n]
  }

  predicate AllFit(items: seq<Item>) {
    forall k :: 0 <= k < |items| ==> Fits(items[k])
  }

  function Bytes(items: seq<Item>): seq<byte>
    requires AllFit(items)
  {
    if items == [] then [] else ItemBytes(items[0]) + Bytes(items[1..])
  }

  function Runs(items: seq<Item>): seq<nat> {
    if items == [] then [] else ItemRuns(items[0]) + Runs(items[1..])
  }

  /** The end points of every second run, from code point c on; the first one counts if bit is set. */
  function RunPoints(runs: seq<nat>, c: nat, bit: bool): seq<nat> {
    if runs == [] then [] else (if bit then [c, c + runs[0]] else []) + RunPoints(runs[1..], c + runs[0], !bit)
  }

  // ---- decoding what was encoded

  /** Item i stands at position p. */
  ghost predicate ItemAt(table: seq<byte>, p: nat, i: Item) {
    Fits(i) && p + |ItemBytes(i)| <= |table| && table[p..p + |ItemBytes(i)|] == ItemBytes(i)
  }

  lemma ItemDecoded(table: seq<byte>, p: nat, i: Item)
    requires ItemAt(table, p, i)
    ensures Fits(i) && p < |table| && EntrySize(U8(table, p)) == |ItemBytes(i)| && (U8(table, p) < 64 <==> i.Two?)
    ensures i.Two? ==> U8(table, p) / 8 + 1 == i.a && U8(table, p) % 8 + 1 == i.b
    ensures !i.Two? ==> RunLength(table, p) == i.n
  {
    var s := ItemBytes(i);
    var t := table[p..p + |s|];
    assert t[0] == table[p];
    match i
    case Two(a, b) => OctalDigits(a - 1, b - 1);
    case Short(n) =>
    case Middle(n) => assert t[1] == table[p + 1];
    case Long(n) =>
      assert t[1] == table[p + 1] && t[2] == table[p + 2];
      ThreeBytes(n - 1);
  }

  lemma OctalDigits(x: nat, y: nat)
    requires x < 8 && y < 8
    ensures (8 * x + y) / 8 == x && (8 * x + y) % 8 == y && 8 * x + y < 64
  {
  }

  lemma ThreeBytes(m: nat)
    ensures m / 65536 * 65536 + m / 256 % 256 * 256 + m % 256 == m
  {
    assert m / 256 / 256 == m / 65536;
  }

  lemma ItemStep(table: seq<byte>, d: Decoder, i: Item)
    requires ItemAt(table, d.p, i) && Entries(table, d.p)
    ensures d.p < |table| && Next(table, d).p == d.p + |ItemBytes(i)|
    ensures EntryPoints(table, d) == RunPoints(ItemRuns(i), d.code, d.bit)
    ensures Next(table, d).code == d.code + Sum(ItemRuns(i)) && Next(table, d).bit == (d.bit != !i.Two?)
  {
    hide *;
    ItemDecoded(table, d.p, i);
    RunsOf(i);
    if i.Two? {
      PairStep(table, d, i.a, i.b);
      TwoRuns(i.a, i.b, d.code, d.bit);
    } else {
      EntryFits(table, d.p);
      SingleStep(table, d, i.n);
      OneRun(i.n, d.code, d.bit);
    }
  }

  lemma RunsOf(i: Item)
    requires Fits(i)
    ensures ItemRuns(i) == if i.Two? then [i.a, i.b] else [i.n]
    ensures i.Two? ==> |ItemBytes(i)| == 1
  {
  }

  lemma PairStep(table: seq<byte>, d: Decoder, x: nat, y: nat)
    requires Entries(table, d.p) && d.p < |table| && U8(table, d.p) < 64
    requires x == U8(table, d.p) / 8 + 1 && y == U8(table, d.p) % 8 + 1
    ensures Next(table, d) == Decoder(d.p + 1, d.code + (x + y), d.bit)
    ensures EntryPoints(table, d)
      == (if d.bit then [d.code, d.code + x] else []) + (if !d.bit then [d.code + x, d.code + x + y] else [])
  {
    hide Entries, U8;
  }

  lemma SingleStep(table: seq<byte>, d: Decoder, n: nat)
    requires Entries(table, d.p) && d.p < |table| && U8(table, d.p) >= 64
    requires d.p + EntrySize(U8(table, d.p)) <= |table| && RunLength(table, d.p) == n
    ensures Next(table, d) == Decoder(d.p + EntrySize(U8(table, d.p)), d.code + n, !d.bit)
    ensures EntryPoints(table, d) == if d.bit then [d.code, d.code + n] else []
  {
    hide Entries, RunLength, EntrySize, U8;
  }

  lemma TwoRuns(a: nat, b: nat, c: nat, bit: bool)
    ensures Sum([a, b]) == a + b
    ensures RunPoints([a, b], c, bit)
      == (if bit then [c, c + a] else []) + (if !bit then [c + a, c + a + b] else [])
  {
    OneRun(b, c + a, !bit);
    assert [a, b][1..] == [b];
  }

  lemma OneRun(n: nat, c: nat, bit: bool)
    ensures RunPoints([n], c, bit) == (if bit then [c, c + n] else []) && Sum([n]) == n
  {
    assert [n][1..] == [];
  }

  function Sum(runs: seq<nat>): nat {
    if runs == [] then 0 else runs[0] + Sum(runs[1..])
  }

  lemma {:induction false} BytesAreEntries(pre: seq<byte>, items: seq<Item>)
    requires AllFit(items)
    ensures Entries(pre + Bytes(items), |pre|)
    decreases |items|
  {
    if items != [] {
      BytesSplit(pre, items);
      BytesAreEntries(pre + ItemBytes(items[0]), items[1..]);
      ItemDecoded(pre + Bytes(items), |pre|, items[0]);
    }
  }

  lemma Middle3(a: seq<byte>, b: seq<byte>, c: seq<byte>)
    ensures a + (b + c) == (a + b) + c && |a| + |b| <= |a + (b + c)| && (a + (b + c))[|a|..|a| + |b|] == b
  {
  }

  lemma BytesSplit(pre: seq<byte>, items: seq<Item>)
    requires AllFit(items) && items != []
    ensures Fits(items[0]) && AllFit(items[1..]) && ItemAt(pre + Bytes(items), |pre|, items[0])
    ensures pre + Bytes(items) == (pre + ItemBytes(items[0])) + Bytes(items[1..])
  {
    hide ItemBytes, Fits;
    var b, rest := ItemBytes(items[0]), Bytes(items[1..]);
    assert Bytes(items) == b + rest;
    Middle3(pre, b, rest);
  }

  lemma {:induction false} RunPointsConcat(s: seq<nat>, t: seq<nat>, c: nat, bit: bool)
    ensures RunPoints(s + t, c, bit) == RunPoints(s, c, bit) + RunPoints(t, c + Sum(s), bit != (|s| % 2 == 1))
    decreases |s|
  {
    if s == [] {
      assert s + t == t;
    } else {
      assert (s + t)[1..] == s[1..] + t;
      RunPointsConcat(s[1..], t, c + s[0], !bit);
    }
  }

  lemma {:induction false} PointsFrom(pre: seq<byte>, items: seq<Item>, c: nat, bit: bool)
    requires AllFit(items)
    ensures Entries(pre + Bytes(items), |pre|)
    ensures Points(pre + Bytes(items), Decoder(|pre|, c, bit)) == RunPoints(Runs(items), c, bit)
    decreases |items|
  {
    hide *;
    var table := pre + Bytes(items);
    var d := Decoder(|pre|, c, bit);
    BytesAreEntries(pre, items);
    if items == [] {
      NoBytes();
      PointsDone(table, d);
    } else {
      BytesSplit(pre, items);
      RunsSplit(items);
      ItemStep(table, d, items[0]);
      PointsStep(table, d);
      PointsFrom(pre + ItemBytes(items[0]), items[1..], c + Sum(ItemRuns(items[0])), bit != !items[0].Two?);
      RunPointsConcat(ItemRuns(items[0]), Runs(items[1..]), c, bit);
    }
  }

  lemma NoBytes()
    ensures Bytes([]) == [] && Runs([]) == [] && forall c, bit :: RunPoints([], c, bit) == []
  {
  }

  lemma RunsSplit(items: seq<Item>)
    requires items != []
    ensures Runs(items) == ItemRuns(items[0]) + Runs(items[1..])
    ensures |ItemRuns(items[0])| % 2 == 1 <==> !items[0].Two?
  {
  }

  /** Expanding an encoded table gives exactly the runs at the odd places. */
  lemma PointsOfRuns(items: seq<Item>)
    requires AllFit(items)
    ensures Entries(Bytes(items), 0) && Points(Bytes(items), START) == RunPoints(Runs(items), 0, false)
  {
    assert [] + Bytes(items) == Bytes(items);
    PointsFrom([], items, 0, false);
  }

  predicate Encodable(runs: seq<nat>) {
    forall k :: 0 <= k < |runs| ==> 1 <= runs[k] <= 0x20_0000
  }

  /** Two short runs share an entry, any other takes the shortest that holds it. */
  function FirstItem(runs: seq<nat>): Item
    requires runs != []
  {
    var n := runs[0];
    if |runs| > 1 && n <= 8 && runs[1] <= 8 then Two(n, runs[1])
    else if n <= 0x80 then Short(n)
    else if n <= 0x2000 then Middle(n)
    else Long(n)
  }

  function Taken(runs: seq<nat>): (k: nat)
    requires runs != []
    ensures 0 < k <= |runs|
  {
    if FirstItem(runs).Two? then 2 else 1
  }

  function Encode(runs: seq<nat>): seq<Item>
    decreases |runs|
  {
    if runs == [] then [] else [FirstItem(runs)] + Encode(runs[Taken(runs)..])
  }

  /** Every list of runs has an encoding. */
  lemma {:induction false} EncodeRuns(runs: seq<nat>)
    requires Encodable(runs)
    ensures AllFit(Encode(runs)) && Runs(Encode(runs)) == runs
    decreases |runs|
  {
    hide Encodable, FirstItem, Taken, ItemRuns, Fits, AllFit, Runs;
    NoBytes();
    if runs == [] {
      NoneFit();
    } else {
      var k := Taken(runs);
      FirstFits(runs);
      EncodeRuns(runs[k..]);
      FitsFirst(FirstItem(runs), Encode(runs[k..]));
      assert runs[..k] + runs[k..] == runs;
    }
  }

  lemma NoneFit()
    ensures AllFit([])
  {
  }

  lemma FirstFits(runs: seq<nat>)
    requires Encodable(runs) && runs != []
    ensures Fits(FirstItem(runs)) && ItemRuns(FirstItem(runs)) == runs[..Taken(runs)] && Encodable(runs[Taken(runs)..])
  {
  }

  lemma FitsFirst(i: Item, items: seq<Item>)
    requires Fits(i) && AllFit(items)
    ensures AllFit([i] + items) && Runs([i] + items) == ItemRuns(i) + Runs(items)
  {
    assert ([i] + items)[1..] == items;
  }

  // ---- membership

  /** c lies in the run at place k of runs that begin at c0, and that run counts. */
  ghost predicate Covers(runs: seq<nat>, c0: nat, bit: bool, k: nat, c: nat) {
    k < |runs| && (k % 2 == 1) != bit && c0 + Sum(runs[..k]) <= c < c0 + Sum(runs[..k]) + runs[k]
  }

  /** c lies in a run at an odd place. */
  ghost predicate InOddRun(runs: seq<nat>, c: nat) {
    exists k :: 0 <= k < |runs| && k % 2 == 1 && Sum(runs[..k]) <= c < Sum(runs[..k]) + runs[k]
  }

  lemma CoversFirst(runs: seq<nat>, c0: nat, bit: bool, c: nat)
    requires runs != []
    ensures Covers(runs, c0, bit, 0, c) <==> bit && c0 <= c < c0 + runs[0]
  {
    assert runs[..0] == [];
  }

  lemma CoversNext(runs: seq<nat>, c0: nat, bit: bool, k: nat, c: nat)
    requires runs != []
    ensures Covers(runs, c0, bit, k + 1, c) <==> Covers(runs[1..], c0 + runs[0], !bit, k, c)
  {
    if k + 1 < |runs| {
      assert runs[..k + 1][1..] == runs[1..][..k];
    }
  }

  lemma {:induction false} RunMember(runs: seq<nat>, c0: nat, bit: bool, c: nat)
    ensures Member(RunPoints(runs, c0, bit), c) <==> exists k: nat :: Covers(runs, c0, bit, k, c)
    decreases |runs|
  {
    hide Covers, Member;
    if runs == [] {
      NoRuns(c0, bit, c);
    } else {
      var n, rest := runs[0], runs[1..];
      var c1, other := c0 + n, !bit;
      RunMember(rest, c1, other, c);
      FirstRun(n, rest, c0, bit, c);
      assert runs == [n] + rest;
      CoversFirst(runs, c0, bit, c);
      if k: nat :| Covers(runs, c0, bit, k, c) {
        if k > 0 {
          CoversNext(runs, c0, bit, k - 1, c);
        }
      }
      if k: nat :| Covers(rest, c1, other, k, c) {
        CoversNext(runs, c0, bit, k, c);
      }
    }
  }

  lemma NoRuns(c0: nat, bit: bool, c: nat)
    ensures !Member(RunPoints([], c0, bit), c) && forall k: nat :: !Covers([], c0, bit, k, c)
  {
  }

  lemma FirstRun(n: nat, rest: seq<nat>, c0: nat, bit: bool, c: nat)
    ensures Member(RunPoints([n] + rest, c0, bit), c) <==>
      (bit && c0 <= c < c0 + n) || Member(RunPoints(rest, c0 + n, !bit), c)
  {
    hide Member;
    assert ([n] + rest)[1..] == rest;
    var points := RunPoints(rest, c0 + n, !bit);
    if bit {
      PairMember(c0, c0 + n, c);
      MemberConcat([c0, c0 + n], points, c);
    } else {
      assert [] + points == points;
    }
  }

  /** What a lookup in an encoded table answers: whether c lies in a run at an odd place. */
  lemma LookupOfRuns(items: seq<Item>, c: nat)
    requires AllFit(items)
    ensures Entries(Bytes(items), 0) && (Member(Points(Bytes(items), START), c) <==> InOddRun(Runs(items), c))
  {
    hide Member, Entries, Points;
    PointsOfRuns(items);
    RunMember(Runs(items), 0, false, c);
    OddRuns(Runs(items), c);
  }

  lemma OddRuns(runs: seq<nat>, c: nat)
    ensures InOddRun(runs, c) <==> exists k: nat :: Covers(runs, 0, false, k, c)
  {
    if k :| 0 <= k < |runs| && k % 2 == 1 && Sum(runs[..k]) <= c < Sum(runs[..k]) + runs[k] {
      assert Covers(runs, 0, false, k, c);
    }
  }

  // ---- the index

  /** A state named by the index: a position in the table and its code point. */
  datatype Place = Place(pos: nat, code: nat)

  /** Block i + 1 of 32 bytes has its first entry less than 8 bytes after its start. */
  predicate PlaceFits(e: Place, i: nat) {
    32 * (i + 1) <= e.pos < 32 * (i + 1) + 8 && e.code < 2097152
  }

  /** Least significant byte first. */
  function ThreeLow(v: nat): seq<byte>
    requires v < 16777216
  {
    [v % 256, v / 256 % 256, v / 65536]
  }

  function PlaceBytes(e: Place, i: nat): seq<byte>
    requires PlaceFits(e, i)
  {
    ThreeLow(e.code + 2097152 * (e.pos - 32 * (i + 1)))
  }

  function IndexBytes(places: seq<Place>, i: nat, end: nat): (s: seq<byte>)
    requires end < 2097152 && forall k :: 0 <= k < |places| ==> PlaceFits(places[k], i + k)
    ensures |s| == 3 * (|places| + 1)
    decreases |places|
  {
    if places == [] then ThreeLow(end) else PlaceBytes(places[0], i) + IndexBytes(places[1..], i + 1, end)
  }

  lemma {:induction false} IndexAt(places: seq<Place>, i: nat, end: nat, k: nat)
    requires end < 2097152 && (forall j :: 0 <= j < |places| ==> PlaceFits(places[j], i + j)) && k <= |places|
    ensures var s := IndexBytes(places, i, end);
      s[3 * k..3 * k + 3] == if k < |places| then PlaceBytes(places[k], i + k) else ThreeLow(end)
    decreases |places|
  {
    hide PlaceBytes, ThreeLow;
    var s := IndexBytes(places, i, end);
    if places == [] {
      assert s[0..3] == s;
    } else if k == 0 {
      assert s[0..3] == PlaceBytes(places[0], i);
    } else {
      var t := IndexBytes(places[1..], i + 1, end);
      IndexAt(places[1..], i + 1, end, k - 1);
      assert s == PlaceBytes(places[0], i) + t;
      assert s[3 * k..3 * k + 3] == t[3 * (k - 1)..3 * (k - 1) + 3];
    }
  }

  lemma Le24Is(index: seq<byte>, k: nat, v: nat)
    requires 3 * k + 3 <= |index| && v < 16777216 && index[3 * k..3 * k + 3] == ThreeLow(v)
    ensures Le24(index, k) == v
  {
    var s := index[3 * k..3 * k + 3];
    assert s[0] == index[3 * k] && s[1] == index[3 * k + 1] && s[2] == index[3 * k + 2];
    ThreeBytes(v);
  }

  lemma EntryIs(index: seq<byte>, i: nat, e: Place)
    requires 3 * i + 3 <= |index| && PlaceFits(e, i) && index[3 * i..3 * i + 3] == PlaceBytes(e, i)
    ensures Entry(index, i) == Decoder(e.pos, e.code, false)
  {
    var off := e.pos - 32 * (i + 1);
    Le24Is(index, i, e.code + 2097152 * off);
    assert (e.code + 2097152 * off) / 2097152 == off && (e.code + 2097152 * off) % 2097152 == e.code;
  }

  /** An encoded index whose places are states on the way through the table is well formed. */
  lemma IndexOfPlaces(table: seq<byte>, places: seq<Place>)
    requires Entries(table, 0) && End(table, START) < 2097152
    requires forall k :: 0 <= k < |places| ==> PlaceFits(places[k], k)
    requires forall k :: 0 <= k < |places| ==> Passes(table, START, Decoder(places[k].pos, places[k].code, false))
    ensures WellFormedIndex(table, IndexBytes(places, 0, End(table, START)), |places| + 1)
  {
    hide Passes, Entries, End, Entry, Le24, IndexBytes, PlaceBytes, ThreeLow, WellFormedIndex;
    var end := End(table, START);
    var index := IndexBytes(places, 0, end);
    forall k | 0 <= k < |places|
      ensures Passes(table, START, Entry(index, k))
    {
      IndexAt(places, 0, end, k);
      EntryIs(index, k, places[k]);
    }
    IndexAt(places, 0, end, |places|);
    Le24Is(index, |places|, end);
    IntoIndex(table, index, |places| + 1);
  }

  lemma IntoIndex(table: seq<byte>, index: seq<byte>, n: nat)
    requires Entries(table, 0) && 0 < n && 3 * n <= |index|
    requires forall i :: 0 <= i < n - 1 ==> Passes(table, START, Entry(index, i))
    requires Le24(index, n - 1) == End(table, START) < 2097152
    ensures WellFormedIndex(table, index, n)
  {
    hide Passes, Entries, End, Entry, Le24;
  }
}

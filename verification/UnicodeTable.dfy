/** Property tables: run lengths in a compact byte code, looked up through a block index or expanded to a
    code-point set. */
module UnicodeTable {
  import opened CharSet
  import opened CharRange

  type byte = x: nat | x < 256

  // ---- the byte code

  /** A byte as a number. */
  function U8(table: seq<byte>, p: nat): nat
    requires p < |table|
  {
    table[p]
  }

  /** The number of bytes of the entry that starts with b. */
  function EntrySize(b: nat): nat {
    if b < 64 || b >= 0x80 then 1 else if b < 0x60 then 2 else 3
  }

  /** The bytes from p on split into entries. */
  predicate Entries(table: seq<byte>, p: nat)
    decreases |table| - p
  {
    p == |table| || (p < |table| && p + EntrySize(U8(table, p)) <= |table|
      && Entries(table, p + EntrySize(U8(table, p))))
  }

  /** The length of the single run of an entry that is not below 64. */
  function RunLength(table: seq<byte>, p: nat): nat
    requires p < |table| && p + EntrySize(U8(table, p)) <= |table| && U8(table, p) >= 64
  {
    var b := U8(table, p);
    if b >= 0x80 then b - 0x80 + 1
    else if b < 0x60 then (b - 0x40) * 0x100 + U8(table, p + 1) + 1
    else (b - 0x60) * 0x1_0000 + U8(table, p + 1) * 0x100 + U8(table, p + 2) + 1
  }

  /** A decoder state: next byte, next code point, status of the next run. */
  datatype Decoder = Decoder(p: nat, code: nat, bit: bool)

  /** The state after one entry, which holds two runs when its byte is below 64. */
  function Next(table: seq<byte>, d: Decoder): (e: Decoder)
    requires Entries(table, d.p) && d.p < |table|
    ensures d.p < e.p <= |table| && Entries(table, e.p) && d.code < e.code
  {
    var b := U8(table, d.p);
    if b < 64 then Decoder(d.p + 1, d.code + b / 8 + 1 + b % 8 + 1, d.bit)
    else Decoder(d.p + EntrySize(b), d.code + RunLength(table, d.p), !d.bit)
  }

  /** The end of the first run of an entry. */
  function Mid(table: seq<byte>, d: Decoder): nat
    requires Entries(table, d.p) && d.p < |table|
  {
    if U8(table, d.p) < 64 then d.code + U8(table, d.p) / 8 + 1 else Next(table, d).code
  }

  /** The intervals that unicode_prop1 adds for one entry. */
  function EntryPoints(table: seq<byte>, d: Decoder): seq<nat>
    requires Entries(table, d.p) && d.p < |table|
  {
    (if d.bit then [d.code, Mid(table, d)] else [])
    + if U8(table, d.p) < 64 && !d.bit then [Mid(table, d), Next(table, d).code] else []
  }

  /** All the intervals from d on. */
  function Points(table: seq<byte>, d: Decoder): seq<nat>
    requires Entries(table, d.p)
    decreases |table| - d.p
  {
    if d.p >= |table| then [] else EntryPoints(table, d) + Points(table, Next(table, d))
  }

  /** The code point at which the runs end. */
  function End(table: seq<byte>, d: Decoder): nat
    requires Entries(table, d.p)
    decreases |table| - d.p
  {
    if d.p >= |table| then d.code else End(table, Next(table, d))
  }

  /** Decoding from d passes through e. */
  predicate Passes(table: seq<byte>, d: Decoder, e: Decoder)
    requires Entries(table, d.p)
    decreases |table| - d.p
  {
    d == e || (d.p < |table| && Passes(table, Next(table, d), e))
  }

  // ---- membership by entry

  lemma MemberConcat(s: seq<nat>, t: seq<nat>, c: nat)
    requires |s| % 2 == 0
    ensures Member(s + t, c) <==> Member(s, c) || Member(t, c)
  {
    if s == [] {
      assert s + t == t;
    } else {
      assert (s + t)[2..] == s[2..] + t;
      MemberConcat(s[2..], t, c);
    }
  }

  lemma EntryMember(table: seq<byte>, d: Decoder, c: nat)
    requires Entries(table, d.p) && d.p < |table|
    ensures |EntryPoints(table, d)| % 2 == 0
    ensures Member(EntryPoints(table, d), c) <==> d.code <= c < Next(table, d).code && (c < Mid(table, d) <==> d.bit)
    ensures d.code < Mid(table, d) <= Next(table, d).code
  {
    var mid, end := Mid(table, d), Next(table, d).code;
    PairMember(d.code, mid, c);
    PairMember(mid, end, c);
    assert [d.code, mid] + [] == [d.code, mid] && [] + [mid, end] == [mid, end];
  }

  lemma {:induction false} NoneBefore(table: seq<byte>, d: Decoder, c: nat)
    requires Entries(table, d.p) && c < d.code
    ensures !Member(Points(table, d), c)
    decreases |table| - d.p
  {
    if d.p < |table| {
      EntryMember(table, d, c);
      MemberConcat(EntryPoints(table, d), Points(table, Next(table, d)), c);
      NoneBefore(table, Next(table, d), c);
    }
  }

  lemma {:induction false} NoneAfter(table: seq<byte>, d: Decoder, c: nat)
    requires Entries(table, d.p) && c >= End(table, d)
    ensures !Member(Points(table, d), c)
    decreases |table| - d.p
  {
    if d.p < |table| {
      var e := Next(table, d);
      EndAbove(table, e);
      EntryMember(table, d, c);
      MemberConcat(EntryPoints(table, d), Points(table, e), c);
      NoneAfter(table, e, c);
    }
  }

  lemma {:induction false} EndAbove(table: seq<byte>, d: Decoder)
    requires Entries(table, d.p)
    ensures d.code <= End(table, d)
    decreases |table| - d.p
  {
    if d.p < |table| {
      EndAbove(table, Next(table, d));
    }
  }

  /** The entry that covers c decides. */
  lemma Decides(table: seq<byte>, d: Decoder, c: nat)
    requires Entries(table, d.p) && d.p < |table| && d.code <= c
    ensures c < Next(table, d).code ==> (Member(Points(table, d), c) <==> (c < Mid(table, d) <==> d.bit))
    ensures c >= Next(table, d).code ==> (Member(Points(table, d), c) <==> Member(Points(table, Next(table, d)), c))
  {
    EntryMember(table, d, c);
    MemberConcat(EntryPoints(table, d), Points(table, Next(table, d)), c);
    if c < Next(table, d).code {
      NoneBefore(table, Next(table, d), c);
    }
  }

  /** From a state that decoding passes through, the answer for later code points is the same. */
  lemma {:induction false} SameFrom(table: seq<byte>, d: Decoder, e: Decoder, c: nat)
    requires Entries(table, d.p) && Passes(table, d, e) && e.code <= c
    ensures Entries(table, e.p) && d.code <= e.code && End(table, d) == End(table, e)
    ensures Member(Points(table, d), c) <==> Member(Points(table, e), c)
    decreases |table| - d.p
  {
    if d != e {
      SameFrom(table, Next(table, d), e, c);
      Decides(table, d, c);
    }
  }

  const START := Decoder(0, 0, false)

  // ---- unicode_prop1

  /** The loop body of unicode_prop1: one entry, run by run. */
  method ExpandEntry(cr: CharRange, table: seq<byte>, d: Decoder) returns (e: Decoder)
    requires Entries(table, d.p) && d.p < |table|
    modifies cr
    ensures cr.points == old(cr.points) + EntryPoints(table, d) && e == Next(table, d)
  {
    hide Entries;
    EntryFits(table, d.p);
    var p, c, bit := d.p, d.code, d.bit;
    var c0 := c;
    var b := U8(table, p);
    p := p + 1;
    if b < 64 {
      c := c + b / 8 + 1;
      if bit {
        cr.AddInterval(c0, c);
      }
      bit := !bit;
      c0 := c;
      c := c + b % 8 + 1;
    } else if b >= 0x80 {
      c := c + b - 0x80 + 1;
    } else if b < 0x60 {
      c := c + (b - 0x40) * 0x100 + U8(table, p) + 1;
      p := p + 1;
    } else {
      c := c + (b - 0x60) * 0x1_0000 + U8(table, p) * 0x100 + U8(table, p + 1) + 1;
      p := p + 2;
    }
    if bit {
      cr.AddInterval(c0, c);
    }
    e := Decoder(p, c, !bit);
  }

  /** unicode_prop1 */
  method ExpandTable(cr: CharRange, table: seq<byte>)
    requires Entries(table, 0)
    modifies cr
    ensures cr.points == old(cr.points) + Points(table, START)
  {
    hide Points, Entries, Next, EntryPoints;
    ghost var s := cr.points;
    var d := START;
    while d.p < |table|
      invariant d.p <= |table| && Entries(table, d.p)
      invariant cr.points + Points(table, d) == s + Points(table, START)
      decreases |table| - d.p
    {
      ghost var s', tail := cr.points, Points(table, Next(table, d));
      PointsStep(table, d);
      assert s' + (EntryPoints(table, d) + tail) == (s' + EntryPoints(table, d)) + tail;
      d := ExpandEntry(cr, table, d);
    }
    PointsDone(table, d);
  }

  lemma EntryFits(table: seq<byte>, p: nat)
    requires Entries(table, p) && p < |table|
    ensures p + EntrySize(U8(table, p)) <= |table|
  {
  }

  lemma PointsStep(table: seq<byte>, d: Decoder)
    requires Entries(table, d.p) && d.p < |table|
    ensures Points(table, d) == EntryPoints(table, d) + Points(table, Next(table, d))
  {
  }

  lemma PointsDone(table: seq<byte>, d: Decoder)
    requires Entries(table, d.p) && d.p == |table|
    ensures Points(table, d) == []
  {
  }

  // ---- the index

  const BLOCK := 32
  const CODE_MASK := 0x20_0000

  /** get_le24 of entry i */
  function Le24(index: seq<byte>, i: nat): nat
    requires 3 * i + 2 < |index|
  {
    U8(index, 3 * i) + 0x100 * U8(index, 3 * i + 1) + 0x1_0000 * U8(index, 3 * i + 2)
  }

  /** The decoder state that index entry i names. */
  function Entry(index: seq<byte>, i: nat): Decoder
    requires 3 * i + 2 < |index|
  {
    var v := Le24(index, i);
    Decoder((i + 1) * BLOCK + v / CODE_MASK, v % CODE_MASK, false)
  }

  /** Every entry but the last names a state on the way; the last is the end of the runs. */
  ghost predicate WellFormedIndex(table: seq<byte>, index: seq<byte>, n: nat) {
    && Entries(table, 0) && 0 < n && 3 * n <= |index|
    && (forall i :: 0 <= i < n - 1 ==> Passes(table, START, Entry(index, i)))
    && Le24(index, n - 1) == End(table, START) < CODE_MASK
  }

  /** get_index_pos: the state from which to look for c, none when c is beyond the table */
  method IndexPos(c: nat, table: seq<byte>, index: seq<byte>, n: nat) returns (pos: int, code: nat)
    requires WellFormedIndex(table, index, n)
    ensures pos < 0 <==> c >= End(table, START)
    ensures pos >= 0 ==> code <= c && Passes(table, START, Decoder(pos, code, false))
  {
    code := 0;
    var v := Le24(index, 0);
    if c < v % CODE_MASK {
      FirstCovers(table, index, n, c);
      return 0, 0;
    }
    var hi := n - 1;
    if c >= Le24(index, hi) {
      return -1, 0;
    }
    var lo := 0;
    while hi - lo > 1
      invariant 0 <= lo < hi <= n - 1 && Le24(index, lo) % CODE_MASK <= c
    {
      var idx := (hi + lo) / 2;
      v := Le24(index, idx);
      if c < v % CODE_MASK {
        hi := idx;
      } else {
        lo := idx;
      }
    }
    v := Le24(index, lo);
    assert Passes(table, START, Entry(index, lo));
    return (lo + 1) * BLOCK + v / CODE_MASK, v % CODE_MASK;
  }

  /** The first entry's code point does not lie beyond the end. */
  lemma FirstCovers(table: seq<byte>, index: seq<byte>, n: nat, c: nat)
    requires WellFormedIndex(table, index, n) && c < Le24(index, 0) % CODE_MASK
    ensures c < End(table, START)
  {
    if n > 1 {
      var e := Entry(index, 0);
      SameFrom(table, START, e, e.code);
      EndAbove(table, e);
    }
  }

  /** lre_is_in_table */
  method IsInTable(c: nat, table: seq<byte>, index: seq<byte>, n: nat) returns (found: bool)
    requires WellFormedIndex(table, index, n)
    ensures found <==> Member(Points(table, START), c)
  {
    hide Member, Points, Entries, End, Passes, WellFormedIndex;
    IndexEntries(table, index, n);
    var pos: int, code: nat := IndexPos(c, table, index, n);
    if pos < 0 {
      NoneAfter(table, START, c);
      return false;
    }
    var p: nat, bit := pos, false;
    SameFrom(table, START, Decoder(p, code, bit), c);
    EntriesInside(table, p);
    while true
      invariant 0 <= p <= |table| && Entries(table, p) && code <= c < End(table, Decoder(p, code, bit))
      invariant Member(Points(table, START), c) <==> Member(Points(table, Decoder(p, code, bit)), c)
      decreases |table| - p
    {
      ghost var d := Decoder(p, code, bit);
      EndStep(table, d, c);
      EntryFits(table, p);
      Decides(table, d, c);
      var b := U8(table, p);
      p := p + 1;
      if b < 64 {
        code := code + b / 8 + 1;
        if c < code {
          return bit;
        }
        bit := !bit;
        code := code + b % 8 + 1;
      } else if b >= 0x80 {
        code := code + b - 0x80 + 1;
      } else if b < 0x60 {
        code := code + (b - 0x40) * 0x100 + U8(table, p) + 1;
        p := p + 1;
      } else {
        code := code + (b - 0x60) * 0x1_0000 + U8(table, p) * 0x100 + U8(table, p + 1) + 1;
        p := p + 2;
      }
      if c < code {
        return bit;
      }
      bit := !bit;
      assert Decoder(p, code, bit) == Next(table, d);
    }
  }

  lemma EntriesInside(table: seq<byte>, p: nat)
    requires Entries(table, p)
    ensures p <= |table|
  {
  }

  lemma IndexEntries(table: seq<byte>, index: seq<byte>, n: nat)
    requires WellFormedIndex(table, index, n)
    ensures Entries(table, 0)
  {
  }

  /** Before the end there is an entry, and the end stays the same. */
  lemma EndStep(table: seq<byte>, d: Decoder, c: nat)
    requires Entries(table, d.p) && d.p <= |table| && d.code <= c < End(table, d)
    ensures d.p < |table| && End(table, Next(table, d)) == End(table, d)
  {
  }
}

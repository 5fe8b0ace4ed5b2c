/** The subject string of a match and the macros that move over it.

    A subject is a sequence of code units.  When `wide` is set the units are
    UTF-16 and a surrogate pair is one character; otherwise every unit is a
    character by itself.  Positions count units. */
module RegexText {

  datatype Text = Text(units: seq<nat>, wide: bool)

  predicate IsHigh(u: nat) { 0xd800 <= u < 0xdc00 }

  predicate IsLow(u: nat) { 0xdc00 <= u < 0xe000 }

  function Decode(hi: nat, lo: nat): nat { hi % 0x400 * 0x400 + lo % 0x400 + 0x10000 }

  /** Do the units at p and p + 1 form a surrogate pair that ends before `end`? */
  predicate PairIn(t: Text, p: nat, end: nat) {
    t.wide && p + 1 < end && p + 1 < |t.units| && IsHigh(t.units[p]) && IsLow(t.units[p + 1])
  }

  /** GET_CHAR: the position after the character at p, looking no further than `end`. */
  function NextIn(t: Text, p: nat, end: nat): nat {
    if PairIn(t, p, end) then p + 2 else p + 1
  }

  /** GET_CHAR: the character at p. */
  function CharIn(t: Text, p: nat, end: nat): nat {
    if PairIn(t, p, end) then Decode(t.units[p], t.units[p + 1])
    else if p < |t.units| then t.units[p] else 0
  }

  /** PREV_CHAR and GET_PREV_CHAR: the position before the character that ends at p,
      looking no further back than `start`. */
  function PrevIn(t: Text, p: nat, start: nat): nat {
    if 2 <= p && start <= p - 2 && PairIn(t, p - 2, p) then p - 2 else if p == 0 then 0 else p - 1
  }

  /** PEEK_PREV_CHAR and GET_PREV_CHAR: the character that ends at p. */
  function PrevCharIn(t: Text, p: nat, start: nat): nat {
    if 2 <= p && start <= p - 2 && PairIn(t, p - 2, p) then Decode(t.units[p - 2], t.units[p - 1])
    else if 0 < p <= |t.units| then t.units[p - 1] else 0
  }

  function Next(t: Text, p: nat): nat { NextIn(t, p, |t.units|) }

  function CharAt(t: Text, p: nat): nat { CharIn(t, p, |t.units|) }

  function Prev(t: Text, p: nat): nat { PrevIn(t, p, 0) }

  function PrevChar(t: Text, p: nat): nat { PrevCharIn(t, p, 0) }

  /** p is a position of the subject and does not split a surrogate pair. */
  predicate Aligned(t: Text, p: nat) {
    p <= |t.units| && !(0 < p && PairIn(t, p - 1, |t.units|))
  }

  /** k repetitions of PREV_CHAR. */
  function PrevN(t: Text, p: nat, k: nat): nat
    decreases k
  {
    if k == 0 then p else PrevN(t, Prev(t, p), k - 1)
  }

  /** Stepping forward from anywhere lands on an aligned position. */
  lemma NextAligned(t: Text, p: nat)
    requires p < |t.units|
    ensures Aligned(t, Next(t, p)) && p < Next(t, p) <= |t.units|
  {
  }

  lemma PrevAligned(t: Text, p: nat)
    requires 0 < p && Aligned(t, p)
    ensures Aligned(t, Prev(t, p)) && Prev(t, p) < p
    ensures Next(t, Prev(t, p)) == p
    ensures PrevChar(t, p) == CharAt(t, Prev(t, p))
  {
  }

  /** PREV_CHAR undoes GET_CHAR exactly from the positions that do not split a pair. */
  lemma PrevUndoesNext(t: Text, p: nat)
    requires p < |t.units|
    ensures Prev(t, Next(t, p)) == p <==> Aligned(t, p)
  {
    if Aligned(t, p) {
    } else {
      assert PairIn(t, p - 1, |t.units|);
      assert IsLow(t.units[p]) && !IsHigh(t.units[p]);
      assert Next(t, p) == p + 1;
      assert PairIn(t, p - 1, p + 1);
    }
  }

  lemma {:induction false} PrevNSplit(t: Text, p: nat, j: nat, k: nat)
    ensures PrevN(t, p, j + k) == PrevN(t, PrevN(t, p, j), k)
    decreases j
  {
    if j != 0 {
      PrevNSplit(t, Prev(t, p), j - 1, k);
    }
  }
}

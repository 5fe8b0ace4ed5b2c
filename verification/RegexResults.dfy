/** Characters, positions, assertions and back references: the reference matcher does with them what the meaning of a
    pattern says. */
module RegexResults {
  import opened CharSet
  import opened RegexText
  import opened RegexCode
  import opened RegexPattern
  import opened RegexProgress
  import opened RegexAtoms
  import opened RegexOrder
  import opened RegexMeaning

  // ---- characters and positions

  lemma BetweenIs(t: Text, p: nat)
    ensures Between(t, p) <==> Aligned(t, p)
  {
  }

  lemma SpellsIs(t: Text, p: nat, q: nat, c: nat)
    ensures Spells(t, p, q, c) <==> p < |t.units| && q == RegexText.Next(t, p) && c == CharAt(t, p)
  {
    if p < |t.units| && LeadsPair(t, p) {
      PairCode(t.units[p], t.units[p + 1]);
    }
  }

  lemma PairCode(hi: nat, lo: nat)
    requires 0xd800 <= hi <= 0xdbff && 0xdc00 <= lo <= 0xdfff
    ensures Decode(hi, lo) == 0x10000 + (hi - 0xd800) * 0x400 + (lo - 0xdc00) >= 0x10000
  {
    assert hi % 0x400 == hi - 0xd800 && lo % 0x400 == lo - 0xdc00;
  }

  lemma {:induction false} ClassIs(points: seq<nat>, c: nat)
    ensures Member(points, c) <==> exists i: nat :: InInterval(points, i, c)
  {
    if |points| >= 2 {
      var rest := points[2..];
      ClassIs(rest, c);
      if Member(rest, c) {
        var i: nat :| InInterval(rest, i, c);
        assert InInterval(points, i + 1, c);
      }
      if points[0] <= c < points[1] {
        assert InInterval(points, 0, c);
      }
      if i: nat :| InInterval(points, i, c) {
        if i > 0 {
          assert InInterval(rest, i - 1, c);
        }
      }
    }
  }

  lemma AcceptsIs(s: OneChar, c: nat)
    ensures Accepts(s, c) <==> OneHas(s, c)
  {
    if s.Class? {
      ClassIs(s.points, c);
    }
  }

  /** Before an aligned position there is one character that ends there. */
  lemma SpellsBack(t: Text, p: nat, q: nat, c: nat)
    requires Aligned(t, q)
    ensures Spells(t, p, q, c) && Between(t, p) <==> q > 0 && p == Prev(t, q) && c == PrevChar(t, q)
  {
    SpellsIs(t, p, q, c);
    BetweenIs(t, p);
    if q > 0 {
      PrevAligned(t, q);
      if Aligned(t, p) && p < |t.units| && RegexText.Next(t, p) == q {
        PrevUndoesNext(t, p);
      }
    }
  }

  lemma LineUnits(u: nat)
    ensures EndsLine(u) <==> IsLineTerminator(u)
    ensures InWord(u) <==> IsWordChar(u)
    ensures u >= 0xd800 && u != 0x2028 && u != 0x2029 ==> !IsLineTerminator(u) && !IsWordChar(u)
  {
  }

  /** Line ends and words are decided by the unit next to the position, a pair being neither. */
  lemma UnitBefore(t: Text, p: nat)
    requires 0 < p <= |t.units|
    ensures IsLineTerminator(PrevChar(t, p)) <==> EndsLine(t.units[p - 1])
    ensures IsWordChar(PrevChar(t, p)) <==> InWord(t.units[p - 1])
  {
    LineUnits(PrevChar(t, p));
    LineUnits(t.units[p - 1]);
    if p >= 2 && PairIn(t, p - 2, p) {
      PairCode(t.units[p - 2], t.units[p - 1]);
    }
  }

  lemma UnitAfter(t: Text, p: nat)
    requires p < |t.units|
    ensures IsLineTerminator(CharAt(t, p)) <==> EndsLine(t.units[p])
    ensures IsWordChar(CharAt(t, p)) <==> InWord(t.units[p])
  {
    LineUnits(CharAt(t, p));
    LineUnits(t.units[p]);
    if PairIn(t, p, |t.units|) {
      PairCode(t.units[p], t.units[p + 1]);
    }
  }

  lemma AssertsIs(e: Subject, a: Assertion, p: nat)
    requires p <= |e.text.units|
    ensures Asserts(e, a, p) <==> Holds(e, a, p)
  {
    hide IsLineTerminator, IsWordChar, EndsLine, InWord, PrevChar, CharAt;
    if p > 0 {
      UnitBefore(e.text, p);
    }
    if p < |e.text.units| {
      UnitAfter(e.text, p);
    }
  }

  lemma ParensIs(r: Pattern)
    ensures Parens(r) == Groups(r)
  {
  }

  // ---- back references

  lemma CodeUnique(hi: nat, lo: nat, hi': nat, lo': nat)
    requires 0xd800 <= hi <= 0xdbff && 0xdc00 <= lo <= 0xdfff && 0xd800 <= hi' <= 0xdbff && 0xdc00 <= lo' <= 0xdfff
    ensures Decode(hi, lo) == Decode(hi', lo') ==> hi == hi' && lo == lo'
  {
    PairCode(hi, lo);
    PairCode(hi', lo');
  }

  /** Characters with the same code have the same units. */
  lemma SameUnits(t: Text, p: nat, q: nat)
    requires ValidText(t) && p < |t.units| && q < |t.units| && CharAt(t, p) == CharAt(t, q)
    ensures PairIn(t, p, |t.units|) <==> PairIn(t, q, |t.units|)
    ensures t.units[p] == t.units[q] && (PairIn(t, p, |t.units|) ==> t.units[p + 1] == t.units[q + 1])
  {
    hide Decode;
    if PairIn(t, p, |t.units|) {
      PairCode(t.units[p], t.units[p + 1]);
    }
    if PairIn(t, q, |t.units|) {
      PairCode(t.units[q], t.units[q + 1]);
    }
    if PairIn(t, p, |t.units|) && PairIn(t, q, |t.units|) {
      CodeUnique(t.units[p], t.units[p + 1], t.units[q], t.units[q + 1]);
    }
  }

  lemma SameSteps(t: Text, p: nat, q: nat)
    requires ValidText(t) && p < |t.units| && q < |t.units| && CharAt(t, p) == CharAt(t, q)
    ensures var p', q' := RegexText.Next(t, p), RegexText.Next(t, q);
      p' - p == q' - q && p' <= |t.units| && q' <= |t.units| && t.units[p..p'] == t.units[q..q']
  {
    hide Decode;
    SameUnits(t, p, q);
  }

  /** A capture that ends between characters is read like the text. */
  lemma InsideForward(t: Text, s: nat, e: nat)
    requires Aligned(t, s) && Aligned(t, e) && s < e
    ensures CharIn(t, s, e) == CharAt(t, s) && NextIn(t, s, e) == RegexText.Next(t, s) <= e
  {
    hide Decode;
  }

  /** The slices from s and p of the same length, the second ending between characters. */
  ghost predicate SameSlice(t: Text, s: nat, e: nat, p: nat, q: nat) {
    s <= e <= |t.units| && p <= q <= |t.units| && e - s == q - p && t.units[s..e] == t.units[p..q] && Aligned(t, q)
  }

  lemma {:induction false} RefForwardIs(t: Text, s: nat, e: nat, p: nat, q: nat)
    requires ValidText(t) && Aligned(t, s) && Aligned(t, e) && Aligned(t, p) && s <= e
    ensures RefForward(t, s, e, p) == Some(q) <==> SameSlice(t, s, e, p, q)
    decreases e - s
  {
    if s == e {
      assert t.units[s..e] == [];
    } else if p < |t.units| {
      InsideForward(t, s, e);
      RegexText.NextAligned(t, s);
      RegexText.NextAligned(t, p);
      var s', p' := RegexText.Next(t, s), RegexText.Next(t, p);
      if CharAt(t, s) == CharAt(t, p) {
        SameSteps(t, s, p);
        RefForwardIs(t, s', e, p', q);
        SliceAfter(t, s, s', e, p, p', q);
      } else if SameSlice(t, s, e, p, q) {
        FirstSame(t, s, e, p, q);
      }
    }
  }

  lemma SliceAfter(t: Text, s: nat, s': nat, e: nat, p: nat, p': nat, q: nat)
    requires s <= s' <= e <= |t.units| && p <= p' <= |t.units| && s' - s == p' - p && t.units[s..s'] == t.units[p..p']
    ensures SameSlice(t, s', e, p', q) <==> SameSlice(t, s, e, p, q)
  {
    if s' <= e <= |t.units| && p' <= q <= |t.units| && e - s == q - p {
      assert t.units[s..e] == t.units[s..s'] + t.units[s'..e];
      assert t.units[p..q] == t.units[p..p'] + t.units[p'..q];
      if t.units[s..e] == t.units[p..q] {
        assert t.units[s'..e] == t.units[s..e][s' - s..] && t.units[p'..q] == t.units[p..q][p' - p..];
      }
    }
  }

  /** Equal slices begin with the same character. */
  lemma FirstSame(t: Text, s: nat, e: nat, p: nat, q: nat)
    requires Aligned(t, s) && Aligned(t, e) && Aligned(t, p) && s < e && SameSlice(t, s, e, p, q)
    ensures CharAt(t, s) == CharAt(t, p)
  {
    var u, v := t.units[s..e], t.units[p..q];
    assert u[0] == t.units[s] && v[0] == t.units[p];
    if e - s > 1 {
      assert u[1] == t.units[s + 1] && v[1] == t.units[p + 1];
    }
  }

  lemma InsideBackward(t: Text, s: nat, e: nat)
    requires Aligned(t, s) && Aligned(t, e) && s < e
    ensures PrevCharIn(t, e, s) == PrevChar(t, e) && PrevIn(t, e, s) == Prev(t, e) >= s
  {
    hide Decode;
  }

  ghost predicate SameSliceBack(t: Text, s: nat, e: nat, q: nat, p: nat) {
    s <= e <= |t.units| && q <= p <= |t.units| && e - s == p - q && t.units[s..e] == t.units[q..p] && Aligned(t, q)
  }

  lemma {:induction false} RefBackwardIs(t: Text, s: nat, e: nat, p: nat, q: nat)
    requires ValidText(t) && Aligned(t, s) && Aligned(t, e) && Aligned(t, p) && s <= e
    ensures RefBackward(t, e, s, p) == Some(q) <==> SameSliceBack(t, s, e, q, p)
    decreases e
  {
    if s == e {
      assert t.units[s..e] == [];
    } else if p > 0 {
      InsideBackward(t, s, e);
      PrevAligned(t, e);
      PrevAligned(t, p);
      var e', p' := Prev(t, e), Prev(t, p);
      if PrevChar(t, e) == PrevChar(t, p) {
        SameSteps(t, e', p');
        RefBackwardIs(t, s, e', p', q);
        SliceBefore(t, s, e', e, q, p', p);
      } else if SameSliceBack(t, s, e, q, p) {
        LastSame(t, s, e, q, p);
      }
    }
  }

  lemma SliceBefore(t: Text, s: nat, e': nat, e: nat, q: nat, p': nat, p: nat)
    requires s <= e' <= e <= |t.units| && p' <= p <= |t.units| && e - e' == p - p' && t.units[e'..e] == t.units[p'..p]
    ensures SameSliceBack(t, s, e', q, p') <==> SameSliceBack(t, s, e, q, p)
  {
    if q <= p' && e - s == p - q {
      assert t.units[s..e] == t.units[s..e'] + t.units[e'..e];
      assert t.units[q..p] == t.units[q..p'] + t.units[p'..p];
      if t.units[s..e] == t.units[q..p] {
        assert t.units[s..e'] == t.units[s..e][..e' - s] && t.units[q..p'] == t.units[q..p][..p' - q];
      }
    }
  }

  lemma LastSame(t: Text, s: nat, e: nat, q: nat, p: nat)
    requires Aligned(t, s) && Aligned(t, e) && Aligned(t, p) && s < e && SameSliceBack(t, s, e, q, p)
    ensures PrevChar(t, e) == PrevChar(t, p)
  {
    var u, v := t.units[s..e], t.units[q..p];
    var n := |u|;
    assert u[n - 1] == t.units[e - 1] && v[n - 1] == t.units[p - 1];
    if n > 1 {
      assert u[n - 2] == t.units[e - 2] && v[n - 2] == t.units[p - 2];
    }
  }

  lemma RepeatsIs(t: Text, caps: Captures, k: nat, back: bool, p: nat, q: nat)
    requires ValidText(t) && Aligned(t, p) && CapturesInside(t, caps)
    ensures Repeats(t, caps, k, back, p, q) <==> RefEnd(t, caps, k, back, p) == Some(q)
  {
    if 2 * k + 1 < |caps| && caps[2 * k].Some? && caps[2 * k + 1].Some? {
      var s, e := caps[2 * k].value, caps[2 * k + 1].value;
      BetweenIs(t, q);
      if s < e {
        if back {
          RefBackwardIs(t, s, e, p, q);
        } else {
          RefForwardIs(t, s, e, p, q);
        }
      }
    }
  }
}

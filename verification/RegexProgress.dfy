/** Matching only ever moves in its direction, and consuming patterns move strictly. */
module RegexProgress {
  import opened RegexText
  import opened RegexCode
  import opened RegexPattern
  import opened RegexCodegen

  /** Every capture is a position of the text that splits no pair. */
  ghost predicate CapturesInside(t: Text, caps: Captures) {
    forall k :: 0 <= k < |caps| && caps[k].Some? ==> Aligned(t, caps[k].value)
  }

  lemma SaveInside(t: Text, caps: Captures, k: nat, p: nat)
    requires Aligned(t, p)
    ensures CapturesInside(t, caps) ==> CapturesInside(t, Save(caps, k, p))
  {
  }

  lemma {:induction false} ResetInside(t: Text, caps: Captures, first: nat, last: nat)
    ensures CapturesInside(t, caps) ==> CapturesInside(t, Reset(caps, first, last))
    decreases last + 1 - first
  {
    if first <= last && 2 * first + 1 < |caps| {
      ResetInside(t, caps[2 * first := None][2 * first + 1 := None], first + 1, last);
    }
  }

  /** x is a state that a match begun at st may end in. */
  ghost predicate Onward(e: Subject, back: bool, st: State, x: State) {
    && Aligned(e.text, x.pos)
    && |x.caps| == |st.caps|
    && (CapturesInside(e.text, st.caps) ==> CapturesInside(e.text, x.caps))
    && Left(e.text, back, x.pos) <= Left(e.text, back, st.pos)
  }

  ghost predicate AllOnward(e: Subject, back: bool, st: State, xs: seq<State>) {
    forall x :: x in xs ==> Onward(e, back, st, x)
  }

  ghost predicate AllPast(e: Subject, back: bool, st: State, xs: seq<State>) {
    forall x :: x in xs ==> Left(e.text, back, x.pos) < Left(e.text, back, st.pos)
  }

  lemma {:induction false} RefForwardOnward(t: Text, q: nat, end: nat, p: nat)
    requires Aligned(t, p)
    ensures RefForward(t, q, end, p).Some? ==>
      Aligned(t, RefForward(t, q, end, p).value) && p <= RefForward(t, q, end, p).value
    decreases end - q
  {
    if q < end && p < |t.units| && CharIn(t, q, end) == CharAt(t, p) {
      NextAligned(t, p);
      RefForwardOnward(t, NextIn(t, q, end), end, Next(t, p));
    }
  }

  lemma {:induction false} RefBackwardOnward(t: Text, q: nat, start: nat, p: nat)
    requires Aligned(t, p)
    ensures RefBackward(t, q, start, p).Some? ==>
      Aligned(t, RefBackward(t, q, start, p).value) && RefBackward(t, q, start, p).value <= p
    decreases q
  {
    if q > start && p > 0 && PrevCharIn(t, q, start) == PrevChar(t, p) {
      PrevAligned(t, p);
      RefBackwardOnward(t, PrevIn(t, q, start), start, Prev(t, p));
    }
  }

  lemma RefOnward(e: Subject, k: nat, back: bool, st: State)
    requires Aligned(e.text, st.pos)
    ensures RefEnd(e.text, st.caps, k, back, st.pos).Some? ==>
      Onward(e, back, st, st.(pos := RefEnd(e.text, st.caps, k, back, st.pos).value))
  {
    if 2 * k + 1 < |st.caps| && st.caps[2 * k].Some? && st.caps[2 * k + 1].Some? {
      RefForwardOnward(e.text, st.caps[2 * k].value, st.caps[2 * k + 1].value, st.pos);
      RefBackwardOnward(e.text, st.caps[2 * k + 1].value, st.caps[2 * k].value, st.pos);
    }
  }

  lemma OneOnward(e: Subject, s: OneChar, back: bool, st: State)
    requires Aligned(e.text, st.pos)
    ensures AllOnward(e, back, st, OneMatches(e, s, back, st))
    ensures AllPast(e, back, st, OneMatches(e, s, back, st))
  {
    if back && st.pos > 0 {
      PrevAligned(e.text, st.pos);
    } else if !back && st.pos < |e.text.units| {
      NextAligned(e.text, st.pos);
    }
  }

  /** Mapping keeps a list onward if it does so from each element. */
  lemma MapOnward(e: Subject, back: bool, st: State, f: State -> seq<State>, xs: seq<State>)
    requires AllOnward(e, back, st, xs)
    requires forall x :: x in xs ==> AllOnward(e, back, x, f(x))
    ensures AllOnward(e, back, st, FlatMap(f, xs))
  {
    forall y | y in FlatMap(f, xs)
      ensures Onward(e, back, st, y)
    {
      var x := FlatMapFrom(f, xs, y);
      assert AllOnward(e, back, x, f(x));
      assert Onward(e, back, x, y) && Onward(e, back, st, x);
    }
  }

  /** If either half moves strictly, so does the whole. */
  lemma MapPast(e: Subject, back: bool, st: State, f: State -> seq<State>, xs: seq<State>)
    requires AllOnward(e, back, st, xs)
    requires forall x :: x in xs ==> AllOnward(e, back, x, f(x))
    requires AllPast(e, back, st, xs) || forall x :: x in xs ==> AllPast(e, back, x, f(x))
    ensures AllPast(e, back, st, FlatMap(f, xs))
  {
    forall y | y in FlatMap(f, xs)
      ensures Left(e.text, back, y.pos) < Left(e.text, back, st.pos)
    {
      var x := FlatMapFrom(f, xs, y);
      assert AllOnward(e, back, x, f(x));
      assert Onward(e, back, x, y) && Onward(e, back, st, x);
    }
  }

  lemma {:induction false} MatchesOnward(e: Subject, r: Pattern, back: bool, cc: nat, st: State)
    requires Aligned(e.text, st.pos)
    ensures AllOnward(e, back, st, Matches(e, r, back, cc, st))
    decreases r, 0, 0, 0
  {
    hide CapturesInside, MatchesAll, Repeat, RepeatAll, RepeatAfter, Close, RefEnd, Left, Holds, OneMatches, Reset;
    match r
    case Empty =>
    case One(s) => OneOnward(e, s, back, st);
    case Assert(a) =>
    case BackRef(k) => RefOnward(e, k, back, st);
    case Cat(a, b) =>
      if back {
        MatchesOnward(e, b, back, cc + Groups(a), st);
        MatchesAllOnward(e, a, back, cc, st, Matches(e, b, back, cc + Groups(a), st));
      } else {
        MatchesOnward(e, a, back, cc, st);
        MatchesAllOnward(e, b, back, cc + Groups(a), st, Matches(e, a, back, cc, st));
      }
    case Alt(a, b) =>
      MatchesOnward(e, a, back, cc, st);
      MatchesOnward(e, b, back, cc + Groups(a), st);
    case Group(a) =>
      GroupOnward(e, a, back, cc, st);
    case Look(behind, negative, a) =>
      MatchesOnward(e, a, behind, cc, st);
      var inner := Matches(e, a, behind, cc, st);
      assert inner != [] ==> inner[0] in inner && Onward(e, behind, st, inner[0]);
    case Quant(a, min, max, greedy) =>
      EnterInside(e.text, a, cc, min, st);
      RepeatOnward(e, a, back, cc, min, max, greedy, Enter(a, cc, min, st));
  }

  lemma EnterInside(t: Text, a: Pattern, cc: nat, min: nat, st: State)
    ensures CapturesInside(t, st.caps) ==> CapturesInside(t, Enter(a, cc, min, st).caps)
  {
    if Groups(a) > 0 {
      ResetInside(t, st.caps, cc, cc + Groups(a) - 1);
    }
  }

  lemma CloseOnward(e: Subject, k: nat, back: bool, x: State)
    requires Aligned(e.text, x.pos)
    ensures Onward(e, back, x, CloseOne(k, back, x))
  {
    hide CapturesInside, Left;
    SaveInside(e.text, x.caps, if back then 2 * k else 2 * k + 1, x.pos);
  }

  lemma {:induction false} GroupOnward(e: Subject, a: Pattern, back: bool, cc: nat, st: State)
    requires Aligned(e.text, st.pos)
    ensures AllOnward(e, back, st, Matches(e, Group(a), back, cc, st))
    decreases a, 1, 0, 0
  {
    hide CapturesInside;
    var open := st.(caps := Save(st.caps, if back then 2 * cc + 1 else 2 * cc, st.pos));
    var f := x => [CloseOne(cc, back, x)];
    var xs := Matches(e, a, back, cc + 1, open);
    MatchesOnward(e, a, back, cc + 1, open);
    CloseIsMap(cc, back, f, xs);
    forall x | x in xs
      ensures AllOnward(e, back, x, f(x))
    {
      assert Onward(e, back, open, x);
      CloseOnward(e, cc, back, x);
    }
    MapOnward(e, back, open, f, xs);
    SaveInside(e.text, st.caps, if back then 2 * cc + 1 else 2 * cc, st.pos);
  }

  lemma {:induction false} MatchesAllOnward(e: Subject, r: Pattern, back: bool, cc: nat, st: State, xs: seq<State>)
    requires AllOnward(e, back, st, xs)
    ensures AllOnward(e, back, st, MatchesAll(e, r, back, cc, xs))
    decreases r, 1, 0, 0
  {
    var f := x => Matches(e, r, back, cc, x);
    forall x | x in xs
      ensures AllOnward(e, back, x, f(x))
    {
      assert Onward(e, back, st, x);
      MatchesOnward(e, r, back, cc, x);
    }
    MatchesAllIsMap(e, r, back, cc, f, xs);
    MapOnward(e, back, st, f, xs);
  }

  lemma {:induction false} RepeatOnward(e: Subject, a: Pattern, back: bool, cc: nat, min: nat, max: nat, greedy: bool,
      st: State)
    requires Aligned(e.text, st.pos)
    ensures AllOnward(e, back, st, Repeat(e, a, back, cc, min, max, greedy, st))
    decreases a, 1, if max >= INF then min else max, if max >= INF then Left(e.text, back, st.pos) else 0, 2
  {
    if max > 0 {
      AgainOnward(e, a, back, cc, min, max, greedy, st);
    }
  }

  /** The part of Repeat that runs the atom. */
  function Again(e: Subject, a: Pattern, back: bool, cc: nat, min: nat, max: nat, greedy: bool, st: State): seq<State>
    requires max > 0
  {
    RepeatAll(e, a, back, cc, min, max, greedy, st, Matches(e, a, back, cc, st))
  }

  lemma {:induction false} AgainOnward(e: Subject, a: Pattern, back: bool, cc: nat, min: nat, max: nat, greedy: bool,
      st: State)
    requires Aligned(e.text, st.pos) && max > 0
    ensures AllOnward(e, back, st, Again(e, a, back, cc, min, max, greedy, st))
    decreases a, 1, if max >= INF then min else max, if max >= INF then Left(e.text, back, st.pos) else 0, 1
  {
    var xs := Matches(e, a, back, cc, st);
    var f := x => RepeatAfter(e, a, back, cc, min, max, greedy, st, x);
    MatchesOnward(e, a, back, cc, st);
    forall x | x in xs
      ensures AllOnward(e, back, x, f(x))
    {
      AfterOnward(e, a, back, cc, min, max, greedy, st, x);
    }
    RepeatAllIsMap(e, a, back, cc, min, max, greedy, st, f, xs);
    MapOnward(e, back, st, f, xs);
  }

  lemma {:induction false} AfterOnward(e: Subject, a: Pattern, back: bool, cc: nat, min: nat, max: nat, greedy: bool,
      st: State, x: State)
    requires Onward(e, back, st, x) && max > 0
    ensures AllOnward(e, back, x, RepeatAfter(e, a, back, cc, min, max, greedy, st, x))
    decreases a, 1, if max >= INF then min else max, if max >= INF then Left(e.text, back, st.pos) else 0, 0
  {
    if !(max >= INF && min == 0 && Left(e.text, back, x.pos) >= Left(e.text, back, st.pos)) {
      RepeatOnward(e, a, back, cc, Less0(min), Less(max), greedy, x);
    }
  }

  // ---- patterns that always consume

  /** Either the pattern consumes syntactically or re_check_advance says so of its code. */
  predicate Advances(r: Pattern, back: bool, cc: nat) {
    Consumes(r) || AdvanceScan(CodeOf(r, back, cc), -2) == 1
  }

  lemma CatAdvances(a: Pattern, b: Pattern, back: bool, cc: nat)
    requires Advances(Cat(a, b), back, cc)
    ensures Advances(a, back, cc) || Advances(b, back, cc + Groups(a))
  {
    hide CodeOf, AdvanceScan, WellFormed, Guarded, Groups;
    CatUnfolds(a, b, back, cc);
    var ca := CodeOf(a, back, cc);
    var cb := CodeOf(b, back, cc + Groups(a));
    AdvanceScanConcat(ca, cb, -2);
    AdvanceScanConcat(cb, ca, -2);
    AdvanceScanDecided(ca, -2);
    AdvanceScanDecided(cb, -2);
    AdvanceScanDecided(cb, AdvanceScan(ca, -2));
    AdvanceScanDecided(ca, AdvanceScan(cb, -2));
  }

  lemma GroupAdvances(a: Pattern, back: bool, cc: nat)
    requires Advances(Group(a), back, cc)
    ensures Advances(a, back, cc + 1)
  {
    hide Size;
    var ca := CodeOf(a, back, cc + 1);
    var tail := [SaveOp(!back, cc)];
    var code := [SaveOp(back, cc)] + ca + tail;
    assert code[1..] == ca + tail;
    AdvanceScanConcat(ca, tail, -2);
    AdvanceScanDecided(ca, -2);
    assert tail[1..] == [];
  }

  /** A branch in front leaves the verdict unknown. */
  lemma ScanBranch(code: Code)
    requires code != [] && AdvanceStep(code[0], -2) == 0
    ensures AdvanceScan(code, -2) == 0
  {
    AdvanceScanDecided(code[1..], 0);
  }

  lemma ScanThenBranch(ca: Code, code: Code)
    requires code != [] && AdvanceStep(code[0], -2) == 0
    ensures AdvanceScan(ca + code, -2) == 1 ==> AdvanceScan(ca, -2) == 1
  {
    AdvanceScanConcat(ca, code, -2);
    AdvanceScanDecided(ca, -2);
    AdvanceScanDecided(code, AdvanceScan(ca, -2));
    ScanBranch(code);
  }

  lemma UpToScan(ca: Code, n: nat, greedy: bool)
    ensures AdvanceScan(UpToCode(ca, n, greedy), -2) == 0
  {
    var code := UpToCode(ca, n, greedy);
    assert code[0] == PushI32(n) && code[1..][0] == SplitOp(greedy, Size(ca) + 5);
    ScanBranch(code[1..]);
  }

  lemma OptionalScan(ca: Code, max: nat, greedy: bool, check: bool)
    ensures AdvanceScan(OptionalCode(ca, max, greedy, check), -2) != 1
  {
    if max == 1 || max >= INF {
      ScanBranch(OptionalCode(ca, max, greedy, check));
    } else if max > 0 {
      UpToScan(ca, max, greedy);
    }
  }

  lemma MoreScan(ca: Code, min: nat, max: nat, greedy: bool, check: bool)
    ensures AdvanceScan(MoreCode(ca, min, max, greedy, check), -2) != 1
  {
    if max >= INF {
      ScanBranch(StarCode(ca, greedy, check));
    } else if max > min {
      UpToScan(ca, max - min, greedy);
    }
  }

  lemma ExactlyScan(ca: Code, n: nat)
    ensures AdvanceScan(ExactlyCode(ca, n), -2) == 1 ==> AdvanceScan(ca, -2) == 1
  {
    if n != 1 {
      var tail := [Loop(-(Size(ca) + 5)), Drop];
      assert ExactlyCode(ca, n)[1..] == ca + tail;
      ScanThenBranch(ca, tail);
    }
  }

  /** If a quantifier's code advances then it runs its atom at least once and the atom advances. */
  lemma QuantScan(ca: Code, cc: nat, groups: nat, min: nat, max: nat, greedy: bool)
    requires AdvanceScan(QuantCode(ca, cc, groups, min, max, greedy), -2) == 1
    ensures min > 0 && AdvanceScan(ca, -2) == 1
  {
    var check := NeedsCheck(ca, greedy);
    if IsSimple(ca, max, greedy) {
      ScanBranch(QuantCode(ca, cc, groups, min, max, greedy));
      assert false;
    } else if min == 0 {
      var reset := ResetCode(cc, groups);
      AdvanceScanConcat(reset, OptionalCode(ca, max, greedy, check), -2);
      assert reset != [] ==> reset[1..] == [];
      assert AdvanceScan(reset, -2) == -2;
      OptionalScan(ca, max, greedy, check);
      assert false;
    } else if min == 1 && max >= INF && !check {
      ScanThenBranch(ca, [SplitOp(!greedy, -(Size(ca) + 5))]);
    } else {
      var first := ExactlyCode(ca, min);
      var more := MoreCode(ca, min, max, greedy, check);
      AdvanceScanConcat(first, more, -2);
      AdvanceScanDecided(first, -2);
      AdvanceScanDecided(more, AdvanceScan(first, -2));
      MoreScan(ca, min, max, greedy, check);
      ExactlyScan(ca, min);
    }
  }

  lemma AltScan(a: Pattern, b: Pattern, back: bool, cc: nat)
    requires Advances(Alt(a, b), back, cc)
    ensures Consumes(a) && Consumes(b)
  {
    ScanBranch(CodeOf(Alt(a, b), back, cc));
  }

  lemma LookScan(behind: bool, negative: bool, a: Pattern, back: bool, cc: nat)
    ensures !Advances(Look(behind, negative, a), back, cc)
  {
    ScanBranch(CodeOf(Look(behind, negative, a), back, cc));
  }

  lemma AtomScan(i: Instr)
    requires IsAssertOp(i) || IsSaveOp(i)
    ensures AdvanceScan([i], -2) == -2
  {
    assert [i][1..] == [];
  }

  /** Soundness of re_check_advance: when it answers 1, every match consumes a character. */
  lemma {:induction false} MatchesPast(e: Subject, r: Pattern, back: bool, cc: nat, st: State)
    requires Aligned(e.text, st.pos) && WellFormed(r) && Advances(r, back, cc)
    ensures AllPast(e, back, st, Matches(e, r, back, cc, st))
    decreases r, 0
  {
    hide Left, Aligned, Onward, QuantCode;
    match r
    case Empty =>
    case One(s) => OneOnward(e, s, back, st);
    case Assert(a) => AtomScan(EmitAssert(a));
    case BackRef(k) => AtomScan(if back then BackwardBackReference(k) else BackReference(k));
    case Cat(a, b) =>
      CatAdvances(a, b, back, cc);
      var xs := if back then Matches(e, b, back, cc + Groups(a), st) else Matches(e, a, back, cc, st);
      if back {
        MatchesOnward(e, b, back, cc + Groups(a), st);
        if Advances(a, back, cc) {
          SecondPast(e, a, back, cc, st, xs);
        } else {
          MatchesPast(e, b, back, cc + Groups(a), st);
          FirstPast(e, a, back, cc, st, xs);
        }
      } else {
        MatchesOnward(e, a, back, cc, st);
        if Advances(a, back, cc) {
          MatchesPast(e, a, back, cc, st);
          FirstPast(e, b, back, cc + Groups(a), st, xs);
        } else {
          SecondPast(e, b, back, cc + Groups(a), st, xs);
        }
      }
    case Alt(a, b) =>
      AltScan(a, b, back, cc);
      MatchesPast(e, a, back, cc, st);
      MatchesPast(e, b, back, cc + Groups(a), st);
    case Group(a) =>
      GroupAdvances(a, back, cc);
      GroupPast(e, a, back, cc, st);
    case Look(behind, negative, a) =>
      LookScan(behind, negative, a, back, cc);
    case Quant(a, min, max, greedy) =>
      if !Consumes(r) {
        QuantScan(CodeOf(a, back, cc), cc, Groups(a), min, max, greedy);
      }
      AgainPast(e, a, back, cc, min, max, greedy, st);
  }

  lemma FirstPast(e: Subject, r: Pattern, back: bool, cc: nat, st: State, xs: seq<State>)
    requires AllOnward(e, back, st, xs) && AllPast(e, back, st, xs)
    ensures AllPast(e, back, st, MatchesAll(e, r, back, cc, xs))
  {
    var f := x => Matches(e, r, back, cc, x);
    forall x | x in xs
      ensures AllOnward(e, back, x, f(x))
    {
      MatchesOnward(e, r, back, cc, x);
    }
    MatchesAllIsMap(e, r, back, cc, f, xs);
    MapPast(e, back, st, f, xs);
  }

  lemma {:induction false} SecondPast(e: Subject, r: Pattern, back: bool, cc: nat, st: State, xs: seq<State>)
    requires AllOnward(e, back, st, xs) && WellFormed(r) && Advances(r, back, cc)
    ensures AllPast(e, back, st, MatchesAll(e, r, back, cc, xs))
    decreases r, 1
  {
    var f := x => Matches(e, r, back, cc, x);
    forall x | x in xs
      ensures AllOnward(e, back, x, f(x)) && AllPast(e, back, x, f(x))
    {
      MatchesOnward(e, r, back, cc, x);
      MatchesPast(e, r, back, cc, x);
    }
    MatchesAllIsMap(e, r, back, cc, f, xs);
    MapPast(e, back, st, f, xs);
  }

  lemma {:induction false} GroupPast(e: Subject, a: Pattern, back: bool, cc: nat, st: State)
    requires Aligned(e.text, st.pos) && WellFormed(a) && Advances(a, back, cc + 1)
    ensures AllPast(e, back, st, Matches(e, Group(a), back, cc, st))
    decreases a, 1
  {
    hide Advances, CodeOf, WellFormed, Left, Aligned, CapturesInside;
    var open := st.(caps := Save(st.caps, if back then 2 * cc + 1 else 2 * cc, st.pos));
    var xs := Matches(e, a, back, cc + 1, open);
    var f := x => [CloseOne(cc, back, x)];
    MatchesOnward(e, a, back, cc + 1, open);
    MatchesPast(e, a, back, cc + 1, open);
    CloseIsMap(cc, back, f, xs);
    forall x | x in xs
      ensures AllOnward(e, back, x, f(x))
    {
      assert Onward(e, back, open, x);
      CloseOnward(e, cc, back, x);
    }
    MapPast(e, back, open, f, xs);
  }

  lemma {:induction false} AgainPast(e: Subject, a: Pattern, back: bool, cc: nat, min: nat, max: nat, greedy: bool,
      st: State)
    requires Aligned(e.text, st.pos) && WellFormed(a) && Advances(a, back, cc) && max > 0
    ensures AllPast(e, back, st, Again(e, a, back, cc, min, max, greedy, st))
    decreases a, 1
  {
    var xs := Matches(e, a, back, cc, st);
    var f := x => RepeatAfter(e, a, back, cc, min, max, greedy, st, x);
    MatchesOnward(e, a, back, cc, st);
    MatchesPast(e, a, back, cc, st);
    forall x | x in xs
      ensures AllOnward(e, back, x, f(x))
    {
      AfterOnward(e, a, back, cc, min, max, greedy, st, x);
    }
    RepeatAllIsMap(e, a, back, cc, min, max, greedy, st, f, xs);
    MapPast(e, back, st, f, xs);
  }
}

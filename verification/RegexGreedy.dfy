/** simple_greedy_quant refines the generic greedy loop: it delivers the same states in the same
    order, stepping backwards over characters instead of remembering every position. */
module RegexGreedy {
  import opened CharSet
  import opened RegexText
  import opened RegexCode
  import opened RegexPattern
  import opened RegexCodegen
  import opened RegexProgress
  import opened RegexVM
  import opened RegexSim
  import opened RegexAtoms
  import opened RegexBlocks

  /** Straight-line execution of characters and assertions. */
  function RunLinear(e: Subject, code: Code, pos: nat): Inner {
    if code == [] then Ends(pos)
    else if IsCharOp(code[0]) then
      if pos >= |e.text.units| || !OpAccepts(code[0], CharAt(e.text, pos)) then Fails
      else RunLinear(e, code[1..], Next(e.text, pos))
    else if IsAssertOp(code[0]) then
      if OpHolds(e, code[0], pos) then RunLinear(e, code[1..], pos) else Fails
    else Wrong
  }

  lemma {:induction false} AtBound(code: Code, pc: int)
    ensures At(code, pc).Some? ==> pc < Size(code)
    decreases |code|
  {
    if code != [] && pc > 0 {
      AtBound(code[1..], pc - InstrSize(code[0]));
    }
  }

  lemma {:induction false} InnerIsLinear(e: Env, pc: nat, code: Code, pos: nat)
    requires CodeAt(e.prog, pc, code) && At(e.prog, pc + Size(code)) == Some(Match) && SimpleCount(code) >= 0
    ensures RunInner(e, pc, pos) == RunLinear(e.subject, code, pos)
    decreases |code|
  {
    AtBound(e.prog, pc);
    if code != [] {
      var i := code[0];
      if IsCharOp(i) {
        InnerIsLinear(e, pc + InstrSize(i), code[1..], Next(e.subject.text, pos));
      } else {
        InnerIsLinear(e, pc + InstrSize(i), code[1..], pos);
      }
    }
  }

  lemma {:induction false} LinearConcat(e: Subject, a: Code, b: Code, pos: nat)
    requires SimpleCount(a) >= 0
    ensures RunLinear(e, a + b, pos)
      == (match RunLinear(e, a, pos) case Ends(p) => RunLinear(e, b, p) case other => other)
    decreases |a|
  {
    if a == [] {
      assert a + b == b;
    } else {
      assert (a + b)[1..] == a[1..] + b;
      LinearConcat(e, a[1..], b, if IsCharOp(a[0]) then Next(e.text, pos) else pos);
    }
  }

  /** Stepping back over as many characters as the code holds undoes it, from an aligned position. */
  lemma {:induction false} LinearBack(e: Subject, code: Code, pos: nat)
    requires SimpleCount(code) >= 0 && Aligned(e.text, pos)
    ensures RunLinear(e, code, pos).Ends? || RunLinear(e, code, pos).Fails?
    ensures match RunLinear(e, code, pos)
      case Ends(p) => Aligned(e.text, p) && pos <= p && PrevN(e.text, p, SimpleCount(code)) == pos
                      && (SimpleCount(code) > 0 ==> pos < p)
      case _ => true
    decreases |code|
  {
    if code != [] {
      if IsCharOp(code[0]) {
        if pos < |e.text.units| {
          var next := Next(e.text, pos);
          NextAligned(e.text, pos);
          PrevUndoesNext(e.text, pos);
          LinearBack(e, code[1..], next);
          if RunLinear(e, code[1..], next).Ends? {
            PrevNSplit(e.text, RunLinear(e, code[1..], next).pos, SimpleCount(code[1..]), 1);
            assert PrevN(e.text, next, 1) == PrevN(e.text, Prev(e.text, next), 0);
          }
        }
      } else {
        LinearBack(e, code[1..], pos);
      }
    }
  }

  // ---- simple code comes from patterns that match in at most one way

  function AsList(st: State, r: Inner): seq<State> {
    match r
    case Ends(p) => [st.(pos := p)]
    case _ => []
  }

  lemma SimpleHead(code: Code)
    requires code != [] && !IsCharOp(code[0]) && !IsAssertOp(code[0])
    ensures SimpleCount(code) == -1
  {
  }

  /** Does the code begin with an instruction that is neither a character nor an assertion? */
  predicate BeginsOtherwise(code: Code) {
    code != [] && !IsCharOp(code[0]) && !IsAssertOp(code[0])
  }

  lemma OptionalHead(ca: Code, max: nat, greedy: bool, check: bool)
    requires max > 0
    ensures BeginsOtherwise(OptionalCode(ca, max, greedy, check))
  {
    hide Size;
  }

  lemma MoreHead(ca: Code, max: nat, greedy: bool, check: bool)
    requires 1 <= max <= INF
    ensures if max > 1 then BeginsOtherwise(MoreCode(ca, 1, max, greedy, check))
      else MoreCode(ca, 1, max, greedy, check) == []
  {
    hide Size;
  }

  lemma ExactlyHead(ca: Code, min: nat)
    ensures if min != 1 then BeginsOtherwise(ExactlyCode(ca, min)) else ExactlyCode(ca, min) == ca
  {
    hide Size;
  }

  /** Of all quantifiers only {0,0} and lazy {1,1} leave simple code behind. */
  lemma QuantSimple(ca: Code, cc: nat, groups: nat, min: nat, max: nat, greedy: bool)
    requires min <= max <= INF && SimpleCount(QuantCode(ca, cc, groups, min, max, greedy)) >= 0
    ensures (max == 0 && groups == 0) || (min == 1 && max == 1 && QuantCode(ca, cc, groups, min, max, greedy) == ca)
  {
    hide Size, SimpleCount, StarCode, UpToCode, OptionalCode, MoreCode, ExactlyCode;
    var code := QuantCode(ca, cc, groups, min, max, greedy);
    var check := NeedsCheck(ca, greedy);
    if IsSimple(ca, max, greedy) {
      SimpleHead(code);
    } else if min == 0 {
      SimpleCountConcat(ResetCode(cc, groups), OptionalCode(ca, max, greedy, check));
      if groups > 0 {
        SimpleHead(ResetCode(cc, groups));
      } else if max > 0 {
        OptionalHead(ca, max, greedy, check);
        SimpleHead(OptionalCode(ca, max, greedy, check));
      }
    } else if min == 1 && max >= INF && !check {
      var tail := [SplitOp(!greedy, -(Size(ca) + 5))];
      SimpleHead(tail);
      SimpleCountConcat(ca, tail);
    } else {
      SimpleCountConcat(ExactlyCode(ca, min), MoreCode(ca, min, max, greedy, check));
      ExactlyHead(ca, min);
      if min != 1 {
        SimpleHead(ExactlyCode(ca, min));
      } else {
        MoreHead(ca, max, greedy, check);
        if max > 1 {
          SimpleHead(MoreCode(ca, min, max, greedy, check));
        } else {
          assert code == ca + [];
        }
      }
    }
  }

  /** In a lookbehind no code with characters is simple. */
  lemma {:induction false} BackwardNotSimple(a: Pattern, cc: nat)
    requires WellFormed(a)
    ensures SimpleCount(CodeOf(a, true, cc)) <= 0
  {
    hide QuantCode, Size, EmitOne;
    match a
    case Empty =>
    case One(s) => SimpleHead(CodeOf(a, true, cc));
    case Assert(k) => assert CodeOf(a, true, cc)[1..] == [];
    case BackRef(k) => SimpleHead(CodeOf(a, true, cc));
    case Cat(l, r) =>
      BackwardNotSimple(l, cc);
      BackwardNotSimple(r, cc + Groups(l));
      SimpleCountConcat(CodeOf(r, true, cc + Groups(l)), CodeOf(l, true, cc));
    case Alt(l, r) => SimpleHead(CodeOf(a, true, cc));
    case Group(l) => SimpleHead(CodeOf(a, true, cc));
    case Look(_, _, l) => SimpleHead(CodeOf(a, true, cc));
    case Quant(l, min, max, greedy) =>
      if SimpleCount(CodeOf(a, true, cc)) >= 0 {
        QuantSimple(CodeOf(l, true, cc), cc, Groups(l), min, max, greedy);
        BackwardNotSimple(l, cc);
        QuantZero(CodeOf(l, true, cc), cc, Groups(l), min, max, greedy);
      }
  }

  lemma QuantZero(ca: Code, cc: nat, groups: nat, min: nat, max: nat, greedy: bool)
    requires min <= max
    ensures max == 0 && groups == 0 ==> QuantCode(ca, cc, groups, min, max, greedy) == []
  {
  }

  lemma {:induction false} SimpleGroups(a: Pattern, cc: nat)
    requires WellFormed(a) && SimpleCount(CodeOf(a, false, cc)) >= 0
    ensures Groups(a) == 0
  {
    hide QuantCode, Size, EmitOne;
    match a
    case Cat(l, r) =>
      SimpleCountConcat(CodeOf(l, false, cc), CodeOf(r, false, cc + Groups(l)));
      SimpleGroups(l, cc);
      SimpleGroups(r, cc + Groups(l));
    case Alt(l, r) => SimpleHead(CodeOf(a, false, cc));
    case Group(l) => SimpleHead(CodeOf(a, false, cc));
    case Look(_, _, l) => SimpleHead(CodeOf(a, false, cc));
    case Quant(l, min, max, greedy) =>
      QuantSimple(CodeOf(l, false, cc), cc, Groups(l), min, max, greedy);
      if max != 0 {
        SimpleGroups(l, cc);
      }
    case _ =>
  }

  lemma OneLinear(e: Subject, s: OneChar, st: State)
    requires WellFormed(One(s)) && ValidText(e.text)
    ensures OneMatches(e, s, false, st) == AsList(st, RunLinear(e, [EmitOne(s)], st.pos))
  {
    EmitOneIsCharOp(s);
    assert [EmitOne(s)][1..] == [];
    if st.pos < |e.text.units| {
      CharBound(e.text, st.pos);
      EmitOneAccepts(s, CharAt(e.text, st.pos));
    }
  }

  lemma AssertLinear(e: Subject, k: Assertion, pos: nat)
    ensures RunLinear(e, [EmitAssert(k)], pos) == if Holds(e, k, pos) then Ends(pos) else Fails
  {
    assert [EmitAssert(k)][1..] == [];
    assert IsAssertOp(EmitAssert(k)) && !IsCharOp(EmitAssert(k));
  }

  /** Running simple code is matching the pattern it was emitted for. */
  lemma {:induction false} SimpleMatches(e: Subject, a: Pattern, cc: nat, st: State)
    requires WellFormed(a) && ValidText(e.text) && SimpleCount(CodeOf(a, false, cc)) >= 0
    ensures Matches(e, a, false, cc, st) == AsList(st, RunLinear(e, CodeOf(a, false, cc), st.pos))
    decreases a
  {
    match a
    case Empty =>
    case One(s) => OneLinear(e, s, st);
    case Assert(k) => AssertLinear(e, k, st.pos);
    case Cat(l, r) => CatLinear(e, l, r, cc, st);
    case Quant(l, min, max, greedy) => QuantLinear(e, l, min, max, greedy, cc, st);
    case _ => SimpleHead(CodeOf(a, false, cc));
  }

  lemma {:induction false} CatLinear(e: Subject, l: Pattern, r: Pattern, cc: nat, st: State)
    requires WellFormed(l) && WellFormed(r) && ValidText(e.text) && SimpleCount(CodeOf(Cat(l, r), false, cc)) >= 0
    ensures Matches(e, Cat(l, r), false, cc, st) == AsList(st, RunLinear(e, CodeOf(Cat(l, r), false, cc), st.pos))
    decreases Cat(l, r), 0
  {
    hide WellFormed, SimpleCount, RunLinear, Groups, CodeOf, Matches, MatchesAll, Guarded;
    var ca, cb := CodeOf(l, false, cc), CodeOf(r, false, cc + Groups(l));
    CatUnfolds(l, r, false, cc);
    MatchesCat(e, l, r, false, cc, st);
    SimpleCountConcat(ca, cb);
    SimpleMatches(e, l, cc, st);
    LinearConcat(e, ca, cb, st.pos);
    var first := RunLinear(e, ca, st.pos);
    assert Matches(e, Cat(l, r), false, cc, st) == MatchesAll(e, r, false, cc + Groups(l), AsList(st, first));
    AllOfAtMostOne(e, r, cc + Groups(l), st, first);
    if first.Ends? {
      SimpleMatches(e, r, cc + Groups(l), st.(pos := first.pos));
    }
  }

  lemma AllOfAtMostOne(e: Subject, r: Pattern, cc: nat, st: State, first: Inner)
    ensures MatchesAll(e, r, false, cc, AsList(st, first)) ==
      if first.Ends? then Matches(e, r, false, cc, st.(pos := first.pos)) else []
  {
    if first.Ends? {
      assert AsList(st, first)[1..] == [];
    }
  }

  lemma {:induction false} QuantLinear(e: Subject, l: Pattern, min: nat, max: nat, greedy: bool, cc: nat, st: State)
    requires WellFormed(Quant(l, min, max, greedy)) && ValidText(e.text)
    requires SimpleCount(CodeOf(Quant(l, min, max, greedy), false, cc)) >= 0
    ensures Matches(e, Quant(l, min, max, greedy), false, cc, st)
            == AsList(st, RunLinear(e, CodeOf(Quant(l, min, max, greedy), false, cc), st.pos))
    decreases Quant(l, min, max, greedy), 0
  {
    var ca := CodeOf(l, false, cc);
    QuantSimple(ca, cc, Groups(l), min, max, greedy);
    if max == 0 {
      QuantZero(ca, cc, Groups(l), min, max, greedy);
    } else {
      SimpleMatches(e, l, cc, st);
      OnceList(e, l, cc, greedy, st);
    }
  }

  lemma OnceList(e: Subject, l: Pattern, cc: nat, greedy: bool, st: State)
    requires |Matches(e, l, false, cc, st)| <= 1
    ensures Repeat(e, l, false, cc, 1, 1, greedy, st) == Matches(e, l, false, cc, st)
  {
    var xs := Matches(e, l, false, cc, st);
    if xs != [] {
      assert xs[1..] == [] && xs == [xs[0]];
      assert RepeatAll(e, l, false, cc, 1, 1, greedy, st, xs[1..]) == [];
      assert RepeatAfter(e, l, false, cc, 1, 1, greedy, st, xs[0]) == [xs[0]];
    }
  }

  // ---- the results of a greedy repetition, last iteration first

  /** Step back n characters, k times. */
  function BackTo(t: Text, n: nat, p: nat, k: nat): nat
    decreases k
  {
    if k == 0 then p else BackTo(t, n, PrevN(t, p, n), k - 1)
  }

  /** st at p, then at n characters before p, ..., k + 1 states in all. */
  function Descend(t: Text, n: nat, st: State, p: nat, k: nat): seq<State>
    decreases k
  {
    [st.(pos := p)] + if k == 0 then [] else Descend(t, n, st, PrevN(t, p, n), k - 1)
  }

  lemma DescendZero(t: Text, n: nat, st: State, p: nat)
    ensures Descend(t, n, st, p, 0) == [st.(pos := p)]
  {
  }

  lemma {:induction false} BackToSnoc(t: Text, n: nat, p: nat, k: nat)
    ensures BackTo(t, n, p, k + 1) == PrevN(t, BackTo(t, n, p, k), n)
    decreases k
  {
    if k > 0 {
      BackToSnoc(t, n, PrevN(t, p, n), k - 1);
    }
  }

  lemma {:induction false} DescendSnoc(t: Text, n: nat, st: State, p: nat, k: nat)
    ensures Descend(t, n, st, p, k + 1) == Descend(t, n, st, p, k) + [st.(pos := BackTo(t, n, p, k + 1))]
    decreases k
  {
    if k > 0 {
      DescendSnoc(t, n, st, PrevN(t, p, n), k - 1);
    }
  }

  lemma {:induction false} DescendSame(t: Text, n: nat, st: State, x: State, p: nat, k: nat)
    requires st.caps == x.caps
    ensures Descend(t, n, st, p, k) == Descend(t, n, x, p, k)
    decreases k
  {
    if k > 0 {
      DescendSame(t, n, st, x, PrevN(t, p, n), k - 1);
    }
  }

  // ---- the counting loop

  /** The code of a simple atom, closed by its own match instruction. */
  ghost predicate SimpleAt(e: Env, a: Pattern, cc: nat, pc: nat) {
    var ca := CodeOf(a, false, cc);
    && WellFormed(a) && ValidText(e.subject.text) && SimpleCount(ca) > 0
    && CodeAt(e.prog, pc, ca) && At(e.prog, pc + Size(ca)) == Some(Match)
  }

  function Chars(a: Pattern, cc: nat): nat {
    var n := SimpleCount(CodeOf(a, false, cc));
    if n < 0 then 0 else n
  }

  /** One nested run is one match of the atom; stepping back undoes it. */
  lemma InnerMatches(e: Env, a: Pattern, cc: nat, pc: nat, st: State) returns (r: Inner)
    requires SimpleAt(e, a, cc, pc) && Aligned(e.subject.text, st.pos)
    ensures r == RunInner(e, pc, st.pos) && !r.Wrong?
    ensures Matches(e.subject, a, false, cc, st) == AsList(st, r)
    ensures r.Ends? ==>
      Aligned(e.subject.text, r.pos) && st.pos < r.pos && PrevN(e.subject.text, r.pos, Chars(a, cc)) == st.pos
  {
    var ca := CodeOf(a, false, cc);
    r := RunInner(e, pc, st.pos);
    InnerIsLinear(e, pc, ca, st.pos);
    SimpleMatches(e.subject, a, cc, st);
    LinearBack(e.subject, ca, st.pos);
  }

  function Rest(max: nat, q: nat): nat {
    if max >= INF then INF else if q <= max then max - q else 0
  }

  /** Repeat when the atom matches in one way, to a later position. */
  lemma RepeatOnce(e: Subject, a: Pattern, cc: nat, min: nat, max: nat, st: State, x: State)
    requires Matches(e, a, false, cc, st) == [x] && Left(e.text, false, x.pos) < Left(e.text, false, st.pos) && max > 0
    ensures var more := Repeat(e, a, false, cc, Less0(min), Less(max), true, x);
      Repeat(e, a, false, cc, min, max, true, st) == if min > 0 then more else more + [st]
  {
    assert [x][1..] == [];
    assert RepeatAll(e, a, false, cc, min, max, true, st, [x]) ==
      RepeatAfter(e, a, false, cc, min, max, true, st, x) + RepeatAll(e, a, false, cc, min, max, true, st, [x][1..]);
  }

  /** What the counting loop returns when q0 iterations are already made, and the states it stands for. */
  ghost predicate Counts(e: Env, a: Pattern, cc: nat, pc: nat, max: nat, q0: nat, min: nat, st: State, q: nat, p: nat) {
    var t := e.subject.text;
    var n := Chars(a, cc);
    && CountInner(e, pc, max, q0, st.pos) == Some((q, p)) && q0 <= q
    && BackTo(t, n, p, q - q0) == st.pos && Aligned(t, p)
    && Repeat(e.subject, a, false, cc, min, Rest(max, q0), true, st) ==
       if q - q0 < min then [] else Descend(t, n, st, p, q - q0 - min)
  }

  lemma {:induction false} CountRepeat(e: Env, a: Pattern, cc: nat, pc: nat, max: nat, q0: nat, min: nat,
      st: State) returns (q: nat, p: nat)
    requires SimpleAt(e, a, cc, pc) && Aligned(e.subject.text, st.pos)
    requires max <= INF && (max < INF ==> q0 < max) && min <= Rest(max, q0)
    ensures Counts(e, a, cc, pc, max, q0, min, st, q, p)
    decreases Left(e.subject.text, false, st.pos)
  {
    hide SimpleAt, Chars, CodeOf, Matches, MatchesAll, RepeatAfter, Step, Exec, Groups, Guarded, QuantCode;
    var r := InnerMatches(e, a, cc, pc, st);
    if r.Fails? {
      q, p := q0, st.pos;
      assert RepeatAll(e.subject, a, false, cc, min, Rest(max, q0), true, st, []) == [];
    } else {
      var x := st.(pos := r.pos);
      RepeatOnce(e.subject, a, cc, min, Rest(max, q0), st, x);
      if q0 + 1 >= max && max != INF {
        q, p := q0 + 1, r.pos;
        CountLast(e, a, cc, pc, max, q0, min, st, p);
      } else {
        q, p := CountRepeat(e, a, cc, pc, max, q0 + 1, Less0(min), x);
        CountUnfold(e, pc, max, q0, st.pos, x.pos);
        assert Less(Rest(max, q0)) == Rest(max, q0 + 1);
        CountMore(e, a, cc, pc, max, q0, min, st, x, q, p);
      }
    }
  }

  /** The count has reached the maximum. */
  lemma CountLast(e: Env, a: Pattern, cc: nat, pc: nat, max: nat, q0: nat, min: nat, st: State, p: nat)
    requires RunInner(e, pc, st.pos) == Ends(p) && q0 + 1 == max < INF && min <= 1
    requires PrevN(e.subject.text, p, Chars(a, cc)) == st.pos && Aligned(e.subject.text, p)
    requires var more := Repeat(e.subject, a, false, cc, 0, 0, true, st.(pos := p));
      Repeat(e.subject, a, false, cc, min, 1, true, st) == if min > 0 then more else more + [st]
    ensures Counts(e, a, cc, pc, max, q0, min, st, q0 + 1, p)
  {
    var t, n := e.subject.text, Chars(a, cc);
    assert BackTo(t, n, p, 1) == BackTo(t, n, PrevN(t, p, n), 0);
    assert Descend(t, n, st, p, 1) == [st.(pos := p)] + Descend(t, n, st, PrevN(t, p, n), 0);
  }

  /** The states of r iterations from st, in terms of those of r - 1 iterations from x. */
  lemma DescendMore(t: Text, n: nat, st: State, x: State, p: nat, r: nat)
    requires r > 0 && st.caps == x.caps && BackTo(t, n, p, r - 1) == x.pos && PrevN(t, x.pos, n) == st.pos
    ensures BackTo(t, n, p, r) == st.pos
    ensures Descend(t, n, x, p, r - 1) + [st] == Descend(t, n, st, p, r)
  {
    BackToSnoc(t, n, p, r - 1);
    DescendSame(t, n, st, x, p, r - 1);
    DescendSnoc(t, n, st, p, r - 1);
  }

  lemma CountUnfold(e: Env, pc: nat, max: nat, q0: nat, pos: nat, next: nat)
    requires RunInner(e, pc, pos) == Ends(next) && (q0 + 1 < max || max == INF)
    requires Left(e.subject.text, false, next) < Left(e.subject.text, false, pos)
    ensures CountInner(e, pc, max, q0, pos) == CountInner(e, pc, max, q0 + 1, next)
  {
  }

  /** One more iteration in front of those already counted. */
  lemma CountMore(e: Env, a: Pattern, cc: nat, pc: nat, max: nat, q0: nat, min: nat, st: State, x: State, q: nat,
      p: nat)
    requires CountInner(e, pc, max, q0, st.pos) == CountInner(e, pc, max, q0 + 1, x.pos)
    requires x.caps == st.caps && PrevN(e.subject.text, x.pos, Chars(a, cc)) == st.pos
    requires Counts(e, a, cc, pc, max, q0 + 1, Less0(min), x, q, p)
    requires var more := Repeat(e.subject, a, false, cc, Less0(min), Rest(max, q0 + 1), true, x);
      Repeat(e.subject, a, false, cc, min, Rest(max, q0), true, st) == if min > 0 then more else more + [st]
    ensures Counts(e, a, cc, pc, max, q0, min, st, q, p)
  {
    hide Repeat, CountInner, Chars, Rest, Aligned, Descend, BackTo, PrevN;
    var t, n := e.subject.text, Chars(a, cc);
    DescendMore(t, n, st, x, p, q - q0);
    if 0 < min <= q - q0 {
      DescendSame(t, n, st, x, p, q - q0 - min);
    }
  }

  // ---- the greedy frame

  function GreedyFrame(pc: int, st: State, p: nat, k: nat, stack: seq<nat>): Frame {
    Frame(Greedy(k), pc + 1, p, st.caps, stack)
  }

  /** Failing into a greedy frame delivers the remaining positions one by one. */
  lemma {:induction false} FrameYields(e: Env, pc: int, off: int, min: nat, max: nat, n: nat, st: State, p: nat, k: nat,
      stack: seq<nat>, fs: seq<Frame>)
    requires At(e.prog, pc) == Some(SimpleGreedyQuant(off, min, max, n)) && k > 0
    ensures var t := e.subject.text;
      Yields(e, Unwind(fs + [GreedyFrame(pc, st, p, k, stack)]), pc + 17 + off, stack, fs,
      Descend(t, n, st, PrevN(t, p, n), k - 1))
    decreases k
  {
    var t := e.subject.text;
    var end := pc + 17 + off;
    var f := GreedyFrame(pc, st, p, k, stack);
    var c := Unwind(fs + [f]);
    var p' := PrevN(t, p, n);
    var x := st.(pos := p');
    assert ButTop(fs + [f]) == fs;
    if k == 1 {
      assert Step(e, c) == At0(end, x, stack, fs);
      YieldsOne(e, end, stack, fs, x);
      YieldsStep(e, c, end, stack, fs, [x]);
      DescendZero(t, n, st, p');
    } else {
      var g := GreedyFrame(pc, st, p', k - 1, stack);
      var d := At0(end, x, stack, fs + [g]);
      assert Step(e, c) == d;
      FrameYields(e, pc, off, min, max, n, st, p', k - 1, stack, fs);
      YieldsOne(e, end, stack, fs + [g], x);
      assert Choices([g]);
      var rest := Descend(t, n, st, PrevN(t, p', n), k - 2);
      YieldsAppend(e, d, end, stack, fs, [g], [x], rest);
      YieldsStep(e, c, end, stack, fs, [x] + rest);
    }
  }

  /** simple_greedy_quant delivers the matches of the greedy quantifier, in order. */
  lemma SimpleYields(e: Env, a: Pattern, cc: nat, min: nat, max: nat, pc: nat, la: nat, stack: seq<nat>, st: State,
      fs: seq<Frame>)
    requires SimpleAt(e, a, cc, pc + 17) && Aligned(e.subject.text, st.pos) && min <= max <= INF && max > 0
    requires At(e.prog, pc) == Some(SimpleGreedyQuant(la + 1, min, max, Chars(a, cc)))
    ensures Yields(e, At0(pc, st, stack, fs), pc + 18 + la, stack, fs,
      Repeat(e.subject, a, false, cc, min, max, true, st))
  {
    var q, p := CountRepeat(e, a, cc, pc + 17, max, 0, min, st);
    CountedYields(e, a, cc, min, max, pc, la, stack, st, fs, q, p);
  }

  lemma CountedYields(e: Env, a: Pattern, cc: nat, min: nat, max: nat, pc: nat, la: nat, stack: seq<nat>, st: State,
      fs: seq<Frame>, q: nat, p: nat)
    requires Counts(e, a, cc, pc + 17, max, 0, min, st, q, p) && max <= INF
    requires At(e.prog, pc) == Some(SimpleGreedyQuant(la + 1, min, max, Chars(a, cc)))
    ensures Yields(e, At0(pc, st, stack, fs), pc + 18 + la, stack, fs,
      Repeat(e.subject, a, false, cc, min, max, true, st))
  {
    hide Yields, CountInner, Repeat, Descend, BackTo, Chars, Aligned;
    assert Rest(max, 0) == max;
    SimpleStep(e, pc, la + 1, min, max, Chars(a, cc), st, stack, fs, q, p);
    if q < min {
      YieldsNone(e, At0(pc, st, stack, fs), pc + 18 + la, stack, fs);
    } else {
      FoundYields(e, pc, la + 1, min, max, Chars(a, cc), st, stack, fs, q, p);
    }
  }

  lemma FoundYields(e: Env, pc: nat, off: int, min: nat, max: nat, n: nat, st: State, stack: seq<nat>, fs: seq<Frame>,
      q: nat, p: nat)
    requires At(e.prog, pc) == Some(SimpleGreedyQuant(off, min, max, n)) && min <= q
    requires Step(e, At0(pc, st, stack, fs)) ==
      if q == min then At0(pc + 17 + off, st.(pos := p), stack, fs)
      else At0(pc + 17 + off, st.(pos := p), stack, fs + [GreedyFrame(pc, st, p, q - min, stack)])
    ensures Yields(e, At0(pc, st, stack, fs), pc + 17 + off, stack, fs, Descend(e.subject.text, n, st, p, q - min))
  {
    var end := pc + 17 + off;
    var c := At0(pc, st, stack, fs);
    var x := st.(pos := p);
    if q == min {
      DescendZero(e.subject.text, n, st, p);
      YieldsOne(e, end, stack, fs, x);
      YieldsStep(e, c, end, stack, fs, [x]);
    } else {
      var g := GreedyFrame(pc, st, p, q - min, stack);
      FrameYields(e, pc, off, min, max, n, st, p, q - min, stack, fs);
      YieldsOne(e, end, stack, fs + [g], x);
      assert Choices([g]);
      var rest := Descend(e.subject.text, n, st, PrevN(e.subject.text, p, n), q - min - 1);
      YieldsAppend(e, At0(end, x, stack, fs + [g]), end, stack, fs, [g], [x], rest);
      YieldsStep(e, c, end, stack, fs, [x] + rest);
    }
  }

  lemma SimpleStep(e: Env, pc: nat, off: int, min: nat, max: nat, n: nat, st: State, stack: seq<nat>, fs: seq<Frame>,
      q: nat, p: nat)
    requires At(e.prog, pc) == Some(SimpleGreedyQuant(off, min, max, n))
      && CountInner(e, pc + 17, max, 0, st.pos) == Some((q, p))
    ensures Step(e, At0(pc, st, stack, fs)) ==
      if q < min then Unwind(fs)
      else if q == min then At0(pc + 17 + off, st.(pos := p), stack, fs)
      else At0(pc + 17 + off, st.(pos := p), stack, fs + [GreedyFrame(pc, st, p, q - min, stack)])
  {
  }
}

/** When a lazy unbounded quantifier halts.  The compiler emits no zero-advance check for it, so a
    run can repeat an empty iteration for ever.  This module characterises when that happens for
    `a*?` in front of something that never matches, which makes the machine explore every iteration. */
module RegexLazy {
  import opened CharSet
  import opened RegexText
  import opened RegexCode
  import opened RegexPattern
  import opened RegexCodegen
  import opened RegexProgress
  import opened RegexLayout
  import opened RegexVM
  import opened RegexSim
  import opened RegexAtoms
  import opened RegexBlocks
  import opened RegexLoops
  import opened RegexCorrect
  import opened RegexTheorem
  import opened RegexChecked

  /** a*?[] */
  function Lazy(a: Pattern): Pattern {
    Cat(Quant(a, 0, INF, false), One(Class([])))
  }

  /** Iterating the atom from st stops after fewer than n rounds, whatever is chosen. */
  ghost predicate Calm(e: Env, m: Atom, n: nat, st: State)
    decreases n
  {
    n > 0 && forall y :: y in Once(e, m, st) ==> Calm(e, m, n - 1, y)
  }

  ghost predicate Settles(e: Env, m: Atom, st: State) {
    exists n: nat :: Calm(e, m, n, st)
  }

  lemma {:induction false} CalmMore(e: Env, m: Atom, n: nat, k: nat, st: State)
    requires Calm(e, m, n, st) && n <= k
    ensures Calm(e, m, k, st)
    decreases n
  {
    forall y | y in Once(e, m, st)
      ensures Calm(e, m, k - 1, y)
    {
      CalmMore(e, m, n - 1, k - 1, y);
    }
  }

  /** One bound serves a whole list. */
  lemma {:induction false} CalmList(e: Env, m: Atom, xs: seq<State>) returns (n: nat)
    requires forall x :: x in xs ==> Settles(e, m, x)
    ensures forall x :: x in xs ==> Calm(e, m, n, x)
  {
    if xs == [] {
      n := 0;
    } else {
      var k := CalmList(e, m, xs[1..]);
      assert xs[0] in xs;
      var j: nat :| Calm(e, m, j, xs[0]);
      n := if j < k then k else j;
      forall x | x in xs
        ensures Calm(e, m, n, x)
      {
        if x == xs[0] {
          CalmMore(e, m, j, n, x);
        } else {
          assert x in xs[1..];
          CalmMore(e, m, k, n, x);
        }
      }
    }
  }

  /** If every round settles, so does the start. */
  lemma SettlesBack(e: Env, m: Atom, st: State)
    requires forall y :: y in Once(e, m, st) ==> Settles(e, m, y)
    ensures Settles(e, m, st)
  {
    var n := CalmList(e, m, Once(e, m, st));
    assert Calm(e, m, n + 1, st);
  }

  /** S: split_goto_first E; atom; goto S; E: something that fails at once. */
  ghost predicate LazyAt(e: Env, m: Atom, pc: int, la: nat) {
    && At(e.prog, pc) == Some(SplitOp(false, la + 5))
    && At(e.prog, pc + 5 + la) == Some(Goto(-(la + 10)))
    && At(e.prog, pc + 10 + la) == Some(Char32(UINT32_MAX))
    && ValidText(e.subject.text) && AtomRuns(e, m, pc + 5, pc + 5 + la, [])
  }

  /** The exit is tried, fails, and the body is entered. */
  lemma LazyEnter(e: Env, m: Atom, pc: int, la: nat, st: State, fs: seq<Frame>)
    requires LazyAt(e, m, pc, la)
    ensures Steps(e, At0(pc, st, [], fs), 3) == At0(pc + 5, st, [], fs)
  {
    var c := At0(pc, st, [], fs);
    var gs := fs + [ChoiceFrame(pc + 5, st, [])];
    SplitStep(e, pc, false, la + 5, st, [], fs);
    FailStep(e, pc + 10 + la, st, gs);
    assert ButTop(gs) == fs;
    assert Step(e, Unwind(gs)) == At0(pc + 5, st, [], fs);
    ThreeSteps(e, c);
  }

  lemma ThreeSteps(e: Env, c: Config)
    ensures Steps(e, c, 3) == Step(e, Step(e, Step(e, c)))
  {
    hide Step;
    assert Steps(e, c, 3) == Steps(e, Step(e, c), 2);
    assert Steps(e, Step(e, c), 2) == Steps(e, Step(e, Step(e, c)), 1);
    assert Steps(e, Step(e, Step(e, c)), 1) == Steps(e, Step(e, Step(e, Step(e, c))), 0);
  }

  /** No subject holds the character 0xffffffff. */
  lemma FailStep(e: Env, pc: int, st: State, fs: seq<Frame>)
    requires At(e.prog, pc) == Some(Char32(UINT32_MAX)) && ValidText(e.subject.text)
    ensures Step(e, At0(pc, st, [], fs)) == Unwind(fs)
  {
    if st.pos < |e.subject.text.units| {
      CharBound(e.subject.text, st.pos);
    }
  }

  lemma BackStep(e: Env, m: Atom, pc: int, la: nat, st: State, fs: seq<Frame>)
    requires LazyAt(e, m, pc, la)
    ensures Step(e, At0(pc + 5 + la, st, [], fs)) == At0(pc, st, [], fs)
  {
  }

  /** From a state that settles, the loop fails back to where it was entered. */
  lemma {:induction false} CalmUnwinds(e: Env, m: Atom, pc: int, la: nat, n: nat, st: State, fs: seq<Frame>)
    requires LazyAt(e, m, pc, la) && Fit(e, st) && Calm(e, m, n, st)
    ensures Reaches(e, At0(pc, st, [], fs), Unwind(fs))
    decreases n
  {
    hide LazyAt, Yields, Steps, Step, Once;
    var xs := Once(e, m, st);
    var mid := pc + 5 + la;
    var d := At0(pc + 5, st, [], fs);
    LazyBody(e, m, pc, la, st, fs);
    var f := (x: State) => [];
    forall x: State, gs: seq<Frame> | x in xs
      ensures Yields(e, Run(mid, x.pos, x.caps, [], gs), 0, [], gs, f(x))
    {
      OnceFit(e, m, st, x);
      CalmUnwinds(e, m, pc, la, n - 1, x, gs);
      BackStep(e, m, pc, la, x, gs);
      ReachesStep(e, At0(mid, x, [], gs), Unwind(gs));
      YieldsEmpty(e, At0(mid, x, [], gs), 0, [], gs);
    }
    YieldsThen(e, d, mid, [], 0, [], fs, xs, f);
    FlatMapEmpty(f, xs);
    EmptyYields(e, d, 0, [], fs);
    LazyEnters(e, m, pc, la, st, fs);
    ReachesTrans(e, At0(pc, st, [], fs), d, Unwind(fs));
  }

  lemma LazyEnters(e: Env, m: Atom, pc: int, la: nat, st: State, fs: seq<Frame>)
    requires LazyAt(e, m, pc, la)
    ensures Reaches(e, At0(pc, st, [], fs), At0(pc + 5, st, [], fs))
  {
    hide LazyAt, Steps;
    LazyEnter(e, m, pc, la, st, fs);
  }

  lemma LazyBody(e: Env, m: Atom, pc: int, la: nat, st: State, fs: seq<Frame>)
    requires LazyAt(e, m, pc, la) && Fit(e, st)
    ensures Yields(e, At0(pc + 5, st, [], fs), pc + 5 + la, [], fs, Once(e, m, st))
  {
    hide Yields;
    UseRuns(e, m.a, m.back, m.cc, pc + 5, pc + 5 + la, [], st, fs);
  }

  lemma YieldsEmpty(e: Env, c: Config, end: int, stack: seq<nat>, base: seq<Frame>)
    requires Reaches(e, c, Unwind(base))
    ensures Yields(e, c, end, stack, base, [])
  {
  }

  lemma EmptyYields(e: Env, c: Config, end: int, stack: seq<nat>, base: seq<Frame>)
    requires Yields(e, c, end, stack, base, [])
    ensures Reaches(e, c, Unwind(base))
  {
  }

  lemma {:induction false} FlatMapEmpty(f: State -> seq<State>, xs: seq<State>)
    requires forall x :: f(x) == []
    ensures FlatMap(f, xs) == []
  {
    if xs != [] {
      FlatMapEmpty(f, xs[1..]);
    }
  }

  /** The first result that does not settle is reached: those before it fail. */
  lemma {:induction false} FirstUnsettled(e: Env, m: Atom, pc: int, la: nat, c: Config, xs: seq<State>,
      base: seq<Frame>) returns (y: State, gs: seq<Frame>)
    requires LazyAt(e, m, pc, la) && Yields(e, c, pc + 5 + la, [], base, xs)
    requires forall x :: x in xs ==> Fit(e, x)
    requires exists x :: x in xs && !Settles(e, m, x)
    ensures y in xs && !Settles(e, m, y) && Reaches(e, c, At0(pc, y, [], gs))
    decreases |xs|
  {
    hide LazyAt, Settles, Reaches, Step;
    var mid := pc + 5 + la;
    var fs :| Choices(fs) && YieldsVia(e, c, mid, [], base, xs, fs);
    var d := At0(mid, xs[0], [], base + fs);
    BackStep(e, m, pc, la, xs[0], base + fs);
    ReachesSelf(e, At0(pc, xs[0], [], base + fs));
    ReachesStep(e, d, At0(pc, xs[0], [], base + fs));
    ReachesTrans(e, c, d, At0(pc, xs[0], [], base + fs));
    if !Settles(e, m, xs[0]) {
      y, gs := xs[0], base + fs;
    } else {
      SettledUnwinds(e, m, pc, la, xs[0], base + fs);
      y, gs := FirstUnsettled(e, m, pc, la, Unwind(base + fs), xs[1..], base);
      ReachesTrans(e, c, At0(pc, xs[0], [], base + fs), Unwind(base + fs));
      ReachesTrans(e, c, Unwind(base + fs), At0(pc, y, [], gs));
    }
  }

  lemma SettledUnwinds(e: Env, m: Atom, pc: int, la: nat, st: State, fs: seq<Frame>)
    requires LazyAt(e, m, pc, la) && Fit(e, st) && Settles(e, m, st)
    ensures Reaches(e, At0(pc, st, [], fs), Unwind(fs))
  {
    hide LazyAt, Fit, Reaches;
    var n: nat :| Calm(e, m, n, st);
    CalmUnwinds(e, m, pc, la, n, st, fs);
  }

  /** A loop that does not settle comes back to its head, in at least one step, without settling. */
  lemma Recurs(e: Env, m: Atom, pc: int, la: nat, st: State, fs: seq<Frame>) returns (y: State, gs: seq<Frame>, k: nat)
    requires LazyAt(e, m, pc, la) && Fit(e, st) && !Settles(e, m, st)
    ensures k > 0 && Steps(e, At0(pc, st, [], fs), k) == At0(pc, y, [], gs) && Fit(e, y) && !Settles(e, m, y)
  {
    hide LazyAt, Settles, Step, Once, Yields, Fit;
    var xs := Once(e, m, st);
    var d := At0(pc + 5, st, [], fs);
    if forall y :: y in xs ==> Settles(e, m, y) {
      SettlesBack(e, m, st);
    }
    forall x | x in xs
      ensures Fit(e, x)
    {
      OnceFit(e, m, st, x);
    }
    LazyBody(e, m, pc, la, st, fs);
    y, gs := FirstUnsettled(e, m, pc, la, d, xs, fs);
    var n: nat :| Steps(e, d, n) == At0(pc, y, [], gs);
    LazyEnter(e, m, pc, la, st, fs);
    StepsAdd(e, At0(pc, st, [], fs), 3, n);
    k := 3 + n;
  }

  /** A loop that does not settle never halts. */
  lemma {:induction false} NeverDone(e: Env, m: Atom, pc: int, la: nat, st: State, fs: seq<Frame>, n: nat)
    requires LazyAt(e, m, pc, la) && Fit(e, st) && !Settles(e, m, st)
    ensures !Steps(e, At0(pc, st, [], fs), n).Done?
    decreases n
  {
    hide LazyAt, Settles, Step, Fit;
    var y, gs, k := Recurs(e, m, pc, la, st, fs);
    var c := At0(pc, st, [], fs);
    if k <= n {
      StepsAdd(e, c, k, n - k);
      NeverDone(e, m, pc, la, y, gs, n - k);
    } else {
      StepsAdd(e, c, n, k - n);
      if Steps(e, c, n).Done? {
        StaysDone(e, Steps(e, c, n), k - n);
      }
    }
  }

  ghost predicate Halts(e: Env, c: Config) {
    exists n: nat :: Steps(e, c, n).Done?
  }

  /** The loop halts exactly when iterating its atom settles. */
  lemma LoopHalts(e: Env, m: Atom, pc: int, la: nat, st: State)
    requires LazyAt(e, m, pc, la) && Fit(e, st)
    ensures Halts(e, At0(pc, st, [], [])) <==> Settles(e, m, st)
  {
    hide LazyAt, Settles, Fit;
    var c := At0(pc, st, [], []);
    if Settles(e, m, st) {
      SettledUnwinds(e, m, pc, la, st, []);
      var n: nat :| Steps(e, c, n) == Unwind([]);
      StepsAdd(e, c, n, 1);
      assert Steps(e, Unwind([]), 1) == Steps(e, Step(e, Unwind([])), 0);
      assert Steps(e, c, n + 1).Done?;
    } else {
      forall n: nat
        ensures !Steps(e, c, n).Done?
      {
        NeverDone(e, m, pc, la, st, [], n);
      }
    }
  }

  // ---- the whole program

  /** The program of `a*?[]`, sticky, with the header that the compiler computes for it. */
  ghost predicate LazyCompiled(e: Env, a: Pattern) {
    && e.prog == Program(Lazy(a), true) && e.captures == 1 + Groups(a) && Peak(e.prog) <= e.stackSize
    && WellFormed(a) && Guarded(a, false, 1) && ValidText(e.subject.text)
  }

  function ResetLen(a: Pattern): nat {
    if Groups(a) > 0 then 3 else 0
  }

  lemma LazyCode(ca: Code, groups: nat)
    ensures QuantCode(ca, 1, groups, 0, INF, false) == ResetCode(1, groups) + StarCode(ca, false, false)
  {
    hide Size, StarCode;
  }

  lemma LazyParts(a: Pattern)
    ensures var reset := ResetCode(1, Groups(a)); var star := StarCode(CodeOf(a, false, 1), false, false);
      Program(Lazy(a), true) == [SaveStart(0)] + (reset + star + [Char32(UINT32_MAX)]) + [SaveEnd(0), Match]
  {
    hide *;
    LazyCodeOf(a);
    StickyProgram(Lazy(a));
  }

  lemma StickyProgram(r: Pattern)
    ensures Program(r, true) == [SaveStart(0)] + CodeOf(r, false, 1) + [SaveEnd(0), Match]
  {
    hide CodeOf;
    assert SearchCode(true) + [SaveStart(0)] == [SaveStart(0)];
  }

  lemma LazyCodeOf(a: Pattern)
    ensures CodeOf(Lazy(a), false, 1)
      == ResetCode(1, Groups(a)) + StarCode(CodeOf(a, false, 1), false, false) + [Char32(UINT32_MAX)]
  {
    hide Size, StarCode, QuantCode, ResetCode, Groups, CodeOf, EmitOne, WellFormed, Guarded;
    var q := Quant(a, 0, INF, false);
    CatUnfolds(q, One(Class([])), false, 1);
    LazyQuant(a);
    EmptyClass(1 + Groups(q));
    LazyCode(CodeOf(a, false, 1), Groups(a));
  }

  lemma LazyQuant(a: Pattern)
    ensures CodeOf(Quant(a, 0, INF, false), false, 1) == QuantCode(CodeOf(a, false, 1), 1, Groups(a), 0, INF, false)
  {
    hide QuantCode, Groups, Size;
  }

  lemma EmptyClass(cc: nat)
    ensures CodeOf(One(Class([])), false, cc) == [Char32(UINT32_MAX)]
  {
  }

  lemma LazyLayout(e: Env, a: Pattern)
    requires LazyCompiled(e, a)
    ensures At(e.prog, 0) == Some(SaveStart(0)) && (Groups(a) > 0 ==> At(e.prog, 2) == Some(SaveReset(1, Groups(a))))
    ensures var star := StarCode(CodeOf(a, false, 1), false, false);
      && CodeAt(e.prog, 2 + ResetLen(a), star) && Peak(star) <= e.stackSize
      && At(e.prog, 2 + ResetLen(a) + Size(star)) == Some(Char32(UINT32_MAX))
  {
    hide CodeAt, Peak, Net, Size, CodeOf, StarCode, Program, WellFormed, Guarded, Groups;
    var star := StarCode(CodeOf(a, false, 1), false, false);
    var reset, last := ResetCode(1, Groups(a)), [Char32(UINT32_MAX)];
    var tail := [SaveEnd(0), Match];
    LazyParts(a);
    PlacedCodeAt([], e.prog, []);
    assert [] + e.prog + [] == e.prog && Size([]) == 0 by { SizeNil(); }
    NetZero(a, false, 1);
    StarStack(CodeOf(a, false, 1), false, false);
    Three(e.prog, 0, [SaveStart(0)], reset + star + last, tail);
    Three(e.prog, 2, reset, star, last);
    Single(e.prog, 0, SaveStart(0));
    ResetLayout(e, Atom(a, false, 1), 2);
    Single(e.prog, 2 + ResetLen(a) + Size(star), Char32(UINT32_MAX));
  }

  lemma LazyIsAt(e: Env, a: Pattern)
    requires LazyCompiled(e, a)
    ensures LazyAt(e, Atom(a, false, 1), 2 + ResetLen(a), Len(a, false, 1))
  {
    hide CodeAt, Peak, Net, Size, CodeOf, StarCode, Runs, Program, Guarded, WellFormed, At, Placed, Groups;
    var m := Atom(a, false, 1);
    var pc := 2 + ResetLen(a);
    LazyLayout(e, a);
    StarPlaced(e, m, false, false, pc, 0);
    Correct(e, a, false, 1, pc + 5, []);
  }

  /** The state in which the loop is entered: group 0 is open. */
  function LazyStart(e: Env, a: Pattern, p: nat): State {
    Enter(a, 1, 0, State(p, Save(NoCaptures(e.captures), 0, p)))
  }

  lemma LazyPrefix(e: Env, a: Pattern, p: nat)
    requires LazyCompiled(e, a)
    ensures Reaches(e, Start(e, p), At0(2 + ResetLen(a), LazyStart(e, a, p), [], []))
  {
    hide CodeAt, Peak, Net, Size, CodeOf, StarCode, Program;
    LazyLayout(e, a);
    var st := State(p, Save(NoCaptures(e.captures), 0, p));
    var d := At0(2 + ResetLen(a), LazyStart(e, a, p), [], []);
    ReachesSelf(e, d);
    if Groups(a) > 0 {
      ResetStep(e, Atom(a, false, 1), 2, st, [], []);
      ReachesStep(e, At0(2, st, [], []), d);
    }
    assert Step(e, Start(e, p)) == At0(2, st, [], []);
    ReachesStep(e, Start(e, p), d);
  }

  lemma HaltsLater(e: Env, c: Config, d: Config)
    requires Reaches(e, c, d)
    ensures Halts(e, c) <==> Halts(e, d)
  {
    hide Step;
    var m: nat :| Steps(e, c, m) == d;
    if n: nat :| Steps(e, d, n).Done? {
      StepsAdd(e, c, m, n);
    }
    if n: nat :| Steps(e, c, n).Done? {
      if n <= m {
        StepsAdd(e, c, n, m - n);
        StaysDone(e, Steps(e, c, n), m - n);
        assert Steps(e, d, 0).Done?;
      } else {
        StepsAdd(e, c, m, n - m);
      }
    }
  }

  /** `a*?[]` halts from p exactly when iterating a from there settles. */
  lemma LazyHalts(e: Env, a: Pattern, p: nat)
    requires LazyCompiled(e, a) && Aligned(e.subject.text, p)
    ensures Halts(e, Start(e, p)) <==> Settles(e, Atom(a, false, 1), LazyStart(e, a, p))
  {
    hide Halts, Settles, LazyAt, Reaches, Program, CodeOf, Peak, Guarded, WellFormed;
    var st := LazyStart(e, a, p);
    LazyIsAt(e, a);
    LazyPrefix(e, a, p);
    HaltsLater(e, Start(e, p), At0(2 + ResetLen(a), st, [], []));
    LoopHalts(e, Atom(a, false, 1), 2 + ResetLen(a), Len(a, false, 1), st);
  }

  // ---- a condition that can be evaluated

  lemma {:induction false} CapsKept(e: Subject, r: Pattern, back: bool, cc: nat, st: State, y: State)
    requires Groups(r) == 0 && y in Matches(e, r, back, cc, st)
    ensures y.caps == st.caps
    decreases r, 1, 0, 0
  {
    hide MatchesAll, Repeat, RepeatAll, RepeatAfter, RefEnd, Holds, Close, Next, Prev, OneHas, CharAt, PrevChar;
    match r
    case Cat(a, b) => CatCapsKept(e, r, back, cc, st, y);
    case Alt(a, b) =>
      if y in Matches(e, a, back, cc, st) {
        CapsKept(e, a, back, cc, st, y);
      } else {
        CapsKept(e, b, back, cc + Groups(a), st, y);
      }
    case Look(behind, negative, a) =>
      var inner := Matches(e, a, behind, cc, st);
      if inner != [] {
        CapsKept(e, a, behind, cc, st, inner[0]);
      }
    case Quant(a, min, max, greedy) => RepeatCapsKept(e, a, back, cc, min, max, greedy, st, y);
    case _ =>
  }

  lemma {:induction false} CatCapsKept(e: Subject, r: Pattern, back: bool, cc: nat, st: State, y: State)
    requires r.Cat? && Groups(r) == 0 && y in Matches(e, r, back, cc, st)
    ensures y.caps == st.caps
    decreases r, 0, 0, 0
  {
    var a, b := if back then r.right else r.left, if back then r.left else r.right;
    var ca, cb := if back then cc + Groups(r.left) else cc, if back then cc else cc + Groups(r.left);
    var f := x => Matches(e, b, back, cb, x);
    var xs := Matches(e, a, back, ca, st);
    MatchesAllIsMap(e, b, back, cb, f, xs);
    var x := FlatMapFrom(f, xs, y);
    CapsKept(e, a, back, ca, st, x);
    CapsKept(e, b, back, cb, x, y);
  }

  lemma {:induction false} RepeatCapsKept(e: Subject, a: Pattern, back: bool, cc: nat, min: nat, max: nat, greedy: bool,
      st: State, y: State)
    requires Groups(a) == 0 && y in Repeat(e, a, back, cc, min, max, greedy, st)
    ensures y.caps == st.caps
    decreases a, 2, if max >= INF then min else max, if max >= INF then Left(e.text, back, st.pos) else 0
  {
    if max > 0 && y in Again(e, a, back, cc, min, max, greedy, st) {
      var f := x => RepeatAfter(e, a, back, cc, min, max, greedy, st, x);
      RepeatAllIsMap(e, a, back, cc, min, max, greedy, st, f, Matches(e, a, back, cc, st));
      var x := FlatMapFrom(f, Matches(e, a, back, cc, st), y);
      CapsKept(e, a, back, cc, st, x);
      if !(max >= INF && min == 0 && Left(e.text, back, x.pos) >= Left(e.text, back, st.pos)) {
        RepeatCapsKept(e, a, back, cc, Less0(min), Less(max), greedy, x, y);
      }
    }
  }

  /** No position reachable by iterating the atom has an empty match of it. */
  ghost predicate NeverEmpty(e: Env, m: Atom, st: State)
    decreases LeftOf(e, m, st)
  {
    forall y :: y in Once(e, m, st) ==> LeftOf(e, m, y) < LeftOf(e, m, st) && NeverEmpty(e, m, y)
  }

  lemma {:induction false} NeverEmptyCalm(e: Env, m: Atom, st: State)
    requires NeverEmpty(e, m, st)
    ensures Calm(e, m, LeftOf(e, m, st) + 1, st)
    decreases LeftOf(e, m, st)
  {
    forall y | y in Once(e, m, st)
      ensures Calm(e, m, LeftOf(e, m, st), y)
    {
      NeverEmptyCalm(e, m, y);
      CalmMore(e, m, LeftOf(e, m, y) + 1, LeftOf(e, m, st), y);
    }
  }

  lemma {:induction false} CalmNeverEmpty(e: Env, m: Atom, n: nat, st: State)
    requires Groups(m.a) == 0 && Fit(e, st) && Calm(e, m, n, st)
    ensures NeverEmpty(e, m, st)
    decreases n
  {
    forall y | y in Once(e, m, st)
      ensures LeftOf(e, m, y) < LeftOf(e, m, st) && NeverEmpty(e, m, y)
    {
      OnceFit(e, m, st, y);
      CapsKept(e.subject, m.a, m.back, m.cc, st, y);
      if y == st {
        NotItsOwn(e, m, n, st);
      }
      CalmNeverEmpty(e, m, n - 1, y);
    }
  }

  /** A state that the atom maps to itself never settles. */
  lemma {:induction false} NotItsOwn(e: Env, m: Atom, n: nat, st: State)
    requires st in Once(e, m, st)
    ensures !Calm(e, m, n, st)
    decreases n
  {
    if n > 0 {
      NotItsOwn(e, m, n - 1, st);
    }
  }

  /** For an atom without capture groups: `a*?[]` halts from p exactly when no iteration of a that can
      be reached from p is empty. */
  lemma LazyHaltsIffNeverEmpty(e: Env, a: Pattern, p: nat)
    requires LazyCompiled(e, a) && Groups(a) == 0 && Aligned(e.subject.text, p)
    ensures Halts(e, Start(e, p)) <==> NeverEmpty(e, Atom(a, false, 1), LazyStart(e, a, p))
  {
    hide Halts, Program, CodeOf, Peak, Guarded, WellFormed, NeverEmpty, Calm, Once;
    var m, st := Atom(a, false, 1), LazyStart(e, a, p);
    LazyHalts(e, a, p);
    if NeverEmpty(e, m, st) {
      NeverEmptyCalm(e, m, st);
    }
    if n: nat :| Calm(e, m, n, st) {
      CalmNeverEmpty(e, m, n, st);
    }
  }

  /** The program that the compiler emits for `(?:)*?[]` is one of those that LazyHalts is about. */
  lemma EmptyLazyCompiled(e: Env)
    requires Emitted(e, Lazy(Empty), true) && ValidText(e.subject.text)
    ensures LazyCompiled(e, Empty)
  {
    hide Program, Peak;
    assert Groups(Lazy(Empty)) == Groups(Quant(Empty, 0, INF, false)) + Groups(One(Class([])));
  }

  /** The empty pattern repeated lazily: no subject and no position makes it halt. */
  lemma EmptyLazyDiverges(e: Env, p: nat)
    requires Emitted(e, Lazy(Empty), true) && ValidText(e.subject.text) && Aligned(e.subject.text, p)
    ensures !Halts(e, Start(e, p))
  {
    hide Halts, Program, CodeOf, Peak, Guarded;
    EmptyLazyCompiled(e);
    var m, st := Atom(Empty, false, 1), LazyStart(e, Empty, p);
    LazyHaltsIffNeverEmpty(e, Empty, p);
    assert st in Once(e, m, st);
  }
}

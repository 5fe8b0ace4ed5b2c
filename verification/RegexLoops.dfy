/** The loops emitted for quantifiers deliver the repetitions that the reference matcher lists. */
module RegexLoops {
  import opened RegexText
  import opened RegexCode
  import opened RegexPattern
  import opened RegexCodegen
  import opened RegexProgress
  import opened RegexVM
  import opened RegexSim
  import opened RegexBlocks

  /** What the loops need of the atom. */
  datatype Atom = Atom(a: Pattern, back: bool, cc: nat)

  ghost function Rep(e: Env, m: Atom, min: nat, max: nat, greedy: bool, st: State): seq<State> {
    Repeat(e.subject, m.a, m.back, m.cc, min, max, greedy, st)
  }

  ghost function After(e: Env, m: Atom, min: nat, max: nat, greedy: bool, st: State, x: State): seq<State>
    requires max > 0
  {
    RepeatAfter(e.subject, m.a, m.back, m.cc, min, max, greedy, st, x)
  }

  ghost function Once(e: Env, m: Atom, st: State): seq<State> {
    Matches(e.subject, m.a, m.back, m.cc, st)
  }

  ghost predicate AtomRuns(e: Env, m: Atom, pc: int, end: int, stack: seq<nat>) {
    Runs(e, m.a, m.back, m.cc, pc, end, stack)
  }

  ghost function LeftOf(e: Env, m: Atom, st: State): nat {
    Left(e.subject.text, m.back, st.pos)
  }

  /** Run the atom once and let every result go on to deliver the remaining repetitions. */
  lemma AgainYields(e: Env, m: Atom, pc: int, mid: int, midStack: seq<nat>, end: int, stack: seq<nat>,
                    min: nat, max: nat, greedy: bool, st: State, fs: seq<Frame>)
    requires Fit(e, st) && max > 0 && AtomRuns(e, m, pc, mid, midStack)
    requires forall x: State, gs: seq<Frame> :: x in Once(e, m, st) ==>
      Yields(e, At0(mid, x, midStack, gs), end, stack, gs, After(e, m, min, max, greedy, st, x))
    ensures Yields(e, At0(pc, st, midStack, fs), end, stack, fs,
                   Again(e.subject, m.a, m.back, m.cc, min, max, greedy, st))
  {
    var xs := Once(e, m, st);
    var f := x => After(e, m, min, max, greedy, st, x);
    UseRuns(e, m.a, m.back, m.cc, pc, mid, midStack, st, fs);
    forall x: State, gs: seq<Frame> | x in xs
      ensures Yields(e, Run(mid, x.pos, x.caps, midStack, gs), end, stack, gs, f(x))
    {
      assert Yields(e, At0(mid, x, midStack, gs), end, stack, gs, After(e, m, min, max, greedy, st, x));
    }
    YieldsThen(e, At0(pc, st, midStack, fs), mid, midStack, end, stack, fs, xs, f);
    RepeatAllIsMap(e.subject, m.a, m.back, m.cc, min, max, greedy, st, f, xs);
  }

  lemma OnceFit(e: Env, m: Atom, st: State, x: State)
    requires Fit(e, st) && x in Once(e, m, st)
    ensures Fit(e, x) && LeftOf(e, m, x) <= LeftOf(e, m, st)
    ensures x.pos != st.pos ==> LeftOf(e, m, x) < LeftOf(e, m, st)
  {
    MatchesOnward(e.subject, m.a, m.back, m.cc, st);
    assert Onward(e.subject, m.back, st, x);
  }

  lemma OncePast(e: Env, m: Atom, st: State, x: State)
    requires Fit(e, st) && x in Once(e, m, st) && WellFormed(m.a) && Advances(m.a, m.back, m.cc)
    ensures LeftOf(e, m, x) < LeftOf(e, m, st)
  {
    MatchesPast(e.subject, m.a, m.back, m.cc, st);
  }

  /** The frames under the loop body and under the exit of a split. */
  function BodyFrames(greedy: bool, exit: int, st: State, stack: seq<nat>, fs: seq<Frame>): seq<Frame> {
    if greedy then fs + [ChoiceFrame(exit, st, stack)] else fs
  }

  function ExitFrames(greedy: bool, body: int, st: State, stack: seq<nat>, fs: seq<Frame>): seq<Frame> {
    if greedy then fs else fs + [ChoiceFrame(body, st, stack)]
  }

  /** The loop body first or the exit first, as the quantifier is greedy or lazy. */
  lemma ChoiceYields(e: Env, m: Atom, c: Config, greedy: bool, body: int, exit: int, st: State, stack: seq<nat>,
      fs: seq<Frame>,
                     end: int, out: seq<nat>, max: nat)
    requires max > 0
    requires var bs := BodyFrames(greedy, exit, st, stack, fs); var xs := ExitFrames(greedy, body, st, stack, fs);
      && Step(e, c) == (if greedy then At0(body, st, stack, bs) else At0(exit, st, stack, xs))
      && Yields(e, At0(body, st, stack, bs), end, out, bs, Again(e.subject, m.a, m.back, m.cc, 0, max, greedy, st))
      && Yields(e, At0(exit, st, stack, xs), end, out, xs, [st])
    ensures Yields(e, c, end, out, fs, Rep(e, m, 0, max, greedy, st))
  {
    var again := Again(e.subject, m.a, m.back, m.cc, 0, max, greedy, st);
    if greedy {
      YieldsSplit(e, c, body, exit, st, stack, fs, end, out, again, [st]);
    } else {
      YieldsSplit(e, c, exit, body, st, stack, fs, end, out, [st], again);
    }
  }

  lemma SplitStep(e: Env, pc: int, greedy: bool, off: int, st: State, stack: seq<nat>, fs: seq<Frame>)
    requires At(e.prog, pc) == Some(SplitOp(greedy, off))
    ensures Step(e, At0(pc, st, stack, fs)) ==
      if greedy then At0(pc + 5, st, stack, fs + [ChoiceFrame(pc + 5 + off, st, stack)])
      else At0(pc + 5 + off, st, stack, fs + [ChoiceFrame(pc + 5, st, stack)])
  {
  }

  // ---- S: split E; [push_char_pos]; atom; (bne_char_pos | goto) S; E:

  /** The layout of StarCode at pc, and what is known of the atom inside it. */
  ghost predicate StarAt(e: Env, m: Atom, greedy: bool, check: bool, pc: int, la: nat, stack: seq<nat>) {
    var z := if check then 1 else 0;
    var back := -(la + 10 + z);
    && At(e.prog, pc) == Some(SplitOp(greedy, la + 5 + z))
    && (check ==> At(e.prog, pc + 5) == Some(PushCharPos) && |stack| < e.stackSize)
    && At(e.prog, pc + 5 + z + la) == Some(if check then BneCharPos(back) else Goto(back))
    && (check ==> forall p: nat :: AtomRuns(e, m, pc + 6, pc + 6 + la, stack + [p]))
    && (!check ==> AtomRuns(e, m, pc + 5, pc + 5 + la, stack) && WellFormed(m.a) && Advances(m.a, m.back, m.cc))
  }

  lemma {:induction false} StarYields(e: Env, m: Atom, greedy: bool, check: bool, pc: int, la: nat, stack: seq<nat>,
      st: State, fs: seq<Frame>)
    requires Fit(e, st) && StarAt(e, m, greedy, check, pc, la, stack)
    ensures Yields(e, At0(pc, st, stack, fs), pc + 10 + (if check then 1 else 0) + la, stack, fs,
      Rep(e, m, 0, INF, greedy, st))
    decreases LeftOf(e, m, st), 2
  {
    var z := if check then 1 else 0;
    var end := pc + 10 + z + la;
    SplitStep(e, pc, greedy, la + 5 + z, st, stack, fs);
    StarBody(e, m, greedy, check, pc, la, stack, st, BodyFrames(greedy, end, st, stack, fs));
    YieldsOne(e, end, stack, ExitFrames(greedy, pc + 5, st, stack, fs), st);
    ChoiceYields(e, m, At0(pc, st, stack, fs), greedy, pc + 5, end, st, stack, fs, end, stack, INF);
  }

  lemma {:induction false} StarBody(e: Env, m: Atom, greedy: bool, check: bool, pc: int, la: nat, stack: seq<nat>,
      st: State, fs: seq<Frame>)
    requires Fit(e, st) && StarAt(e, m, greedy, check, pc, la, stack)
    ensures Yields(e, At0(pc + 5, st, stack, fs), pc + 10 + (if check then 1 else 0) + la, stack, fs,
                   Again(e.subject, m.a, m.back, m.cc, 0, INF, greedy, st))
    decreases LeftOf(e, m, st), 1
  {
    var z := if check then 1 else 0;
    var end := pc + 10 + z + la;
    var mid := pc + 5 + z + la;
    var midStack := if check then stack + [st.pos] else stack;
    forall x: State, gs: seq<Frame> | x in Once(e, m, st)
      ensures Yields(e, At0(mid, x, midStack, gs), end, stack, gs, After(e, m, 0, INF, greedy, st, x))
    {
      StarNext(e, m, greedy, check, pc, la, stack, st, x, gs);
    }
    if check {
      AgainYields(e, m, pc + 6, mid, midStack, end, stack, 0, INF, greedy, st, fs);
      assert Step(e, At0(pc + 5, st, stack, fs)) == At0(pc + 6, st, midStack, fs);
      YieldsStep(e, At0(pc + 5, st, stack, fs), end, stack, fs,
        Again(e.subject, m.a, m.back, m.cc, 0, INF, greedy, st));
    } else {
      AgainYields(e, m, pc + 5, mid, midStack, end, stack, 0, INF, greedy, st, fs);
    }
  }

  /** The end of one iteration: back to the split, or out if nothing was consumed. */
  lemma {:induction false} StarNext(e: Env, m: Atom, greedy: bool, check: bool, pc: int, la: nat, stack: seq<nat>,
      st: State, x: State, gs: seq<Frame>)
    requires Fit(e, st) && StarAt(e, m, greedy, check, pc, la, stack) && x in Once(e, m, st)
    ensures var z := if check then 1 else 0; var midStack := if check then stack + [st.pos] else stack;
      Yields(e, At0(pc + 5 + z + la, x, midStack, gs), pc + 10 + z + la, stack, gs, After(e, m, 0, INF, greedy, st, x))
    decreases LeftOf(e, m, st), 0
  {
    var z := if check then 1 else 0;
    var end := pc + 10 + z + la;
    var mid := pc + 5 + z + la;
    OnceFit(e, m, st, x);
    if check {
      var c := At0(mid, x, stack + [st.pos], gs);
      BneStep(e, mid, -(la + 11), st.pos, x, stack, gs);
      if x.pos != st.pos {
        StarYields(e, m, greedy, check, pc, la, stack, x, gs);
        YieldsStep(e, c, end, stack, gs, Rep(e, m, 0, INF, greedy, x));
      } else {
        YieldsOne(e, end, stack, gs, x);
        YieldsStep(e, c, end, stack, gs, [x]);
      }
    } else {
      OncePast(e, m, st, x);
      var c := At0(mid, x, stack, gs);
      assert Step(e, c) == At0(pc, x, stack, gs);
      StarYields(e, m, greedy, check, pc, la, stack, x, gs);
      YieldsStep(e, c, end, stack, gs, Rep(e, m, 0, INF, greedy, x));
    }
  }

  lemma BneStep(e: Env, pc: int, off: int, p: nat, x: State, stack: seq<nat>, fs: seq<Frame>)
    requires At(e.prog, pc) == Some(BneCharPos(off))
    ensures Step(e, At0(pc, x, stack + [p], fs)) == At0(if p != x.pos then pc + 5 + off else pc + 5, x, stack, fs)
  {
    assert ButTop(stack + [p]) == stack;
  }

  // ---- counted loops

  lemma LoopStep(e: Env, pc: int, off: int, k: nat, x: State, stack: seq<nat>, fs: seq<Frame>)
    requires At(e.prog, pc) == Some(Loop(off)) && k > 0
    ensures Step(e, At0(pc, x, stack + [k], fs)) ==
      if k > 1 then At0(pc + 5 + off, x, stack + [k - 1], fs) else At0(pc + 5, x, stack + [0], fs)
  {
    assert ButTop(stack + [k]) == stack;
  }

  lemma DropStep(e: Env, pc: int, k: nat, x: State, stack: seq<nat>, fs: seq<Frame>)
    requires At(e.prog, pc) == Some(Drop)
    ensures Step(e, At0(pc, x, stack + [k], fs)) == At0(pc + 1, x, stack, fs)
  {
    assert ButTop(stack + [k]) == stack;
  }

  lemma DropYields(e: Env, pc: int, k: nat, x: State, stack: seq<nat>, fs: seq<Frame>)
    requires At(e.prog, pc) == Some(Drop)
    ensures Yields(e, At0(pc, x, stack + [k], fs), pc + 1, stack, fs, [x])
  {
    DropStep(e, pc, k, x, stack, fs);
    YieldsOne(e, pc + 1, stack, fs, x);
    YieldsStep(e, At0(pc, x, stack + [k], fs), pc + 1, stack, fs, [x]);
  }

  /** S: split L; atom; loop S; L: drop */
  ghost predicate UpToAt(e: Env, m: Atom, greedy: bool, pc: int, la: nat, stack: seq<nat>) {
    && At(e.prog, pc) == Some(SplitOp(greedy, la + 5))
    && At(e.prog, pc + 5 + la) == Some(Loop(-(la + 10)))
    && At(e.prog, pc + 10 + la) == Some(Drop)
    && forall n: nat :: AtomRuns(e, m, pc + 5, pc + 5 + la, stack + [n])
  }

  lemma {:induction false} UpToYields(e: Env, m: Atom, greedy: bool, pc: int, la: nat, stack: seq<nat>, k: nat,
      st: State, fs: seq<Frame>)
    requires Fit(e, st) && UpToAt(e, m, greedy, pc, la, stack) && 0 < k < INF
    ensures Yields(e, At0(pc, st, stack + [k], fs), pc + 11 + la, stack, fs, Rep(e, m, 0, k, greedy, st))
    decreases k, 1
  {
    var exit := pc + 10 + la;
    var now := stack + [k];
    var bs := BodyFrames(greedy, exit, st, now, fs);
    SplitStep(e, pc, greedy, la + 5, st, now, fs);
    var mid, end := pc + 5 + la, pc + 11 + la;
    forall x: State, gs: seq<Frame> | x in Once(e, m, st)
      ensures Yields(e, At0(mid, x, now, gs), end, stack, gs, After(e, m, 0, k, greedy, st, x))
    {
      UpToNext(e, m, greedy, pc, la, stack, k, st, x, gs);
    }
    AgainYields(e, m, pc + 5, mid, now, end, stack, 0, k, greedy, st, bs);
    DropYields(e, exit, k, st, stack, ExitFrames(greedy, pc + 5, st, now, fs));
    ChoiceYields(e, m, At0(pc, st, now, fs), greedy, pc + 5, exit, st, now, fs, pc + 11 + la, stack, k);
  }

  lemma {:induction false} UpToNext(e: Env, m: Atom, greedy: bool, pc: int, la: nat, stack: seq<nat>, k: nat, st: State,
      x: State, gs: seq<Frame>)
    requires Fit(e, st) && UpToAt(e, m, greedy, pc, la, stack) && 0 < k < INF && x in Once(e, m, st)
    ensures Yields(e, At0(pc + 5 + la, x, stack + [k], gs), pc + 11 + la, stack, gs, After(e, m, 0, k, greedy, st, x))
    decreases k, 0
  {
    var c := At0(pc + 5 + la, x, stack + [k], gs);
    OnceFit(e, m, st, x);
    LoopStep(e, pc + 5 + la, -(la + 10), k, x, stack, gs);
    if k > 1 {
      UpToYields(e, m, greedy, pc, la, stack, k - 1, x, gs);
      YieldsStep(e, c, pc + 11 + la, stack, gs, Rep(e, m, 0, k - 1, greedy, x));
    } else {
      DropYields(e, pc + 10 + la, 0, x, stack, gs);
      YieldsStep(e, c, pc + 11 + la, stack, gs, [x]);
      RepZero(e, m, greedy, x);
    }
  }

  lemma RepZero(e: Env, m: Atom, greedy: bool, x: State)
    ensures Rep(e, m, 0, 0, greedy, x) == [x]
  {
  }

  /** Code that delivers the optional repetitions. */
  ghost predicate RestRuns(e: Env, m: Atom, pc: int, end: int, stack: seq<nat>, rest: nat, greedy: bool) {
    forall x: State, gs: seq<Frame> :: Fit(e, x) ==>
      Yields(e, At0(pc, x, stack, gs), end, stack, gs, Rep(e, m, 0, rest, greedy, x))
  }

  function Total(k: nat, rest: nat): nat {
    if rest >= INF then INF else k + rest
  }

  /** atom; rest */
  lemma OnceThenRest(e: Env, m: Atom, greedy: bool, pc: int, la: nat, stack: seq<nat>, end: int, rest: nat, st: State,
      fs: seq<Frame>)
    requires Fit(e, st) && AtomRuns(e, m, pc, pc + la, stack) && RestRuns(e, m, pc + la, end, stack, rest, greedy)
    requires rest <= INF && Total(1, rest) <= INF && (rest < INF ==> 1 + rest < INF)
    ensures Yields(e, At0(pc, st, stack, fs), end, stack, fs, Rep(e, m, 1, Total(1, rest), greedy, st))
  {
    var max, mid := Total(1, rest), pc + la;
    forall x: State, gs: seq<Frame> | x in Once(e, m, st)
      ensures Yields(e, At0(mid, x, stack, gs), end, stack, gs, After(e, m, 1, max, greedy, st, x))
    {
      OnceFit(e, m, st, x);
      assert Yields(e, At0(mid, x, stack, gs), end, stack, gs, Rep(e, m, 0, rest, greedy, x));
    }
    AgainYields(e, m, pc, pc + la, stack, end, stack, 1, max, greedy, st, fs);
  }

  /** A: atom; loop A; drop; rest */
  ghost predicate ExactlyAt(e: Env, m: Atom, greedy: bool, pc: int, la: nat, stack: seq<nat>, end: int, rest: nat) {
    && At(e.prog, pc + la) == Some(Loop(-(la + 5)))
    && At(e.prog, pc + la + 5) == Some(Drop)
    && (forall n: nat :: AtomRuns(e, m, pc, pc + la, stack + [n]))
    && RestRuns(e, m, pc + la + 6, end, stack, rest, greedy)
  }

  lemma {:induction false} ExactlyYields(e: Env, m: Atom, greedy: bool, pc: int, la: nat, stack: seq<nat>, end: int,
      rest: nat, k: nat, st: State, fs: seq<Frame>)
    requires Fit(e, st) && ExactlyAt(e, m, greedy, pc, la, stack, end, rest)
    requires k > 0 && rest <= INF && (rest < INF ==> k + rest < INF)
    ensures Yields(e, At0(pc, st, stack + [k], fs), end, stack, fs, Rep(e, m, k, Total(k, rest), greedy, st))
    decreases k, 1
  {
    var now := stack + [k];
    var max, mid := Total(k, rest), pc + la;
    assert AtomRuns(e, m, pc, mid, now);
    forall x: State, gs: seq<Frame> | x in Once(e, m, st)
      ensures Yields(e, At0(mid, x, now, gs), end, stack, gs, After(e, m, k, max, greedy, st, x))
    {
      ExactlyNext(e, m, greedy, pc, la, stack, end, rest, k, st, x, gs);
    }
    AgainYields(e, m, pc, pc + la, now, end, stack, k, max, greedy, st, fs);
  }

  lemma {:induction false} ExactlyNext(e: Env, m: Atom, greedy: bool, pc: int, la: nat, stack: seq<nat>, end: int,
      rest: nat, k: nat, st: State, x: State, gs: seq<Frame>)
    requires Fit(e, st) && ExactlyAt(e, m, greedy, pc, la, stack, end, rest)
    requires k > 0 && rest <= INF && (rest < INF ==> k + rest < INF) && x in Once(e, m, st)
    ensures Yields(e, At0(pc + la, x, stack + [k], gs), end, stack, gs, After(e, m, k, Total(k, rest), greedy, st, x))
    decreases k, 0
  {
    hide Yields, Matches, Step, Once;
    var c := At0(pc + la, x, stack + [k], gs);
    OnceFit(e, m, st, x);
    LoopStep(e, pc + la, -(la + 5), k, x, stack, gs);
    assert After(e, m, k, Total(k, rest), greedy, st, x) == Rep(e, m, k - 1, Less(Total(k, rest)), greedy, x);
    if k > 1 {
      ExactlyYields(e, m, greedy, pc, la, stack, end, rest, k - 1, x, gs);
      YieldsStep(e, c, end, stack, gs, Rep(e, m, k - 1, Total(k - 1, rest), greedy, x));
    } else {
      var r := Rep(e, m, 0, rest, greedy, x);
      assert Yields(e, At0(pc + la + 6, x, stack, gs), end, stack, gs, r);
      DropStep(e, pc + la + 5, 0, x, stack, gs);
      YieldsStep(e, At0(pc + la + 5, x, stack + [0], gs), end, stack, gs, r);
      YieldsStep(e, c, end, stack, gs, r);
    }
  }

  // ---- split E; atom; E:

  lemma OptionYields(e: Env, m: Atom, greedy: bool, pc: int, la: nat, stack: seq<nat>, st: State, fs: seq<Frame>)
    requires Fit(e, st) && At(e.prog, pc) == Some(SplitOp(greedy, la)) && AtomRuns(e, m, pc + 5, pc + 5 + la, stack)
    ensures Yields(e, At0(pc, st, stack, fs), pc + 5 + la, stack, fs, Rep(e, m, 0, 1, greedy, st))
  {
    var end := pc + 5 + la;
    SplitStep(e, pc, greedy, la, st, stack, fs);
    forall x: State, gs: seq<Frame> | x in Once(e, m, st)
      ensures Yields(e, At0(end, x, stack, gs), end, stack, gs, After(e, m, 0, 1, greedy, st, x))
    {
      YieldsOne(e, end, stack, gs, x);
      RepZero(e, m, greedy, x);
      assert After(e, m, 0, 1, greedy, st, x) == Rep(e, m, 0, 0, greedy, x);
    }
    AgainYields(e, m, pc + 5, end, stack, end, stack, 0, 1, greedy, st, BodyFrames(greedy, end, st, stack, fs));
    YieldsOne(e, end, stack, ExitFrames(greedy, pc + 5, st, stack, fs), st);
    ChoiceYields(e, m, At0(pc, st, stack, fs), greedy, pc + 5, end, st, stack, fs, end, stack, 1);
  }

  // ---- A: atom; split A

  lemma {:induction false} RepeatAllSame(e: Subject, a: Pattern, back: bool, cc: nat, greedy: bool, st: State,
      xs: seq<State>)
    requires AllPast(e, back, st, xs)
    ensures RepeatAll(e, a, back, cc, 0, INF, greedy, st, xs) == RepeatAll(e, a, back, cc, 1, INF, greedy, st, xs)
    decreases |xs|
  {
    if xs != [] {
      RepeatAllSame(e, a, back, cc, greedy, st, xs[1..]);
      assert xs[0] in xs;
    }
  }

  ghost predicate PlusAt(e: Env, m: Atom, greedy: bool, pc: int, la: nat, stack: seq<nat>) {
    && At(e.prog, pc + la) == Some(SplitOp(!greedy, -(la + 5)))
    && AtomRuns(e, m, pc, pc + la, stack) && WellFormed(m.a) && Advances(m.a, m.back, m.cc)
  }

  lemma {:induction false} PlusYields(e: Env, m: Atom, greedy: bool, pc: int, la: nat, stack: seq<nat>, st: State,
      fs: seq<Frame>)
    requires Fit(e, st) && PlusAt(e, m, greedy, pc, la, stack)
    ensures Yields(e, At0(pc, st, stack, fs), pc + la + 5, stack, fs, Rep(e, m, 1, INF, greedy, st))
    decreases LeftOf(e, m, st), 1
  {
    var mid, end := pc + la, pc + la + 5;
    forall x: State, gs: seq<Frame> | x in Once(e, m, st)
      ensures Yields(e, At0(mid, x, stack, gs), end, stack, gs, After(e, m, 1, INF, greedy, st, x))
    {
      OnceFit(e, m, st, x);
      OncePast(e, m, st, x);
      PlusNext(e, m, greedy, pc, la, stack, x, gs);
    }
    AgainYields(e, m, pc, pc + la, stack, pc + la + 5, stack, 1, INF, greedy, st, fs);
  }

  lemma {:induction false} PlusNext(e: Env, m: Atom, greedy: bool, pc: int, la: nat, stack: seq<nat>, x: State,
      gs: seq<Frame>)
    requires Fit(e, x) && PlusAt(e, m, greedy, pc, la, stack)
    ensures Yields(e, At0(pc + la, x, stack, gs), pc + la + 5, stack, gs, Rep(e, m, 0, INF, greedy, x))
    decreases LeftOf(e, m, x), 2
  {
    hide Yields, Advances, Step;
    var end := pc + la + 5;
    SplitStep(e, pc + la, !greedy, -(la + 5), x, stack, gs);
    MatchesPast(e.subject, m.a, m.back, m.cc, x);
    RepeatAllSame(e.subject, m.a, m.back, m.cc, greedy, x, Once(e, m, x));
    PlusYields(e, m, greedy, pc, la, stack, x, BodyFrames(greedy, end, x, stack, gs));
    YieldsOne(e, end, stack, ExitFrames(greedy, pc, x, stack, gs), x);
    ChoiceYields(e, m, At0(pc + la, x, stack, gs), greedy, pc, end, x, stack, gs, end, stack, INF);
  }
}

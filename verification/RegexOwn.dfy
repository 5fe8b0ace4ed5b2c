/** When a greedy unbounded quantifier halts whose atom refers back to a capture of its own. The compiler emits no
    zero-advance check for it either. The machine follows the preferred match of the atom again and again; it halts
    exactly when that chain ends. */
module RegexOwn {
  import opened RegexText
  import opened RegexCode
  import opened RegexPattern
  import opened RegexCodegen
  import opened RegexLayout
  import opened RegexVM
  import opened RegexSim
  import opened RegexAtoms
  import opened RegexBlocks
  import opened RegexLoops
  import opened RegexCorrect
  import opened RegexTheorem
  import opened RegexChecked
  import opened RegexLazy

  /** Taking the preferred match of the atom from st ends after fewer than n rounds. */
  ghost predicate EndsIn(e: Env, m: Atom, n: nat, st: State)
    decreases n
  {
    n > 0 && (Once(e, m, st) != [] ==> EndsIn(e, m, n - 1, Once(e, m, st)[0]))
  }

  ghost predicate ChainEnds(e: Env, m: Atom, st: State) {
    exists n: nat :: EndsIn(e, m, n, st)
  }

  lemma ChainNext(e: Env, m: Atom, st: State)
    requires !ChainEnds(e, m, st)
    ensures Once(e, m, st) != [] && !ChainEnds(e, m, Once(e, m, st)[0])
  {
    hide Once, ChainEnds;
    if Once(e, m, st) == [] || ChainEnds(e, m, Once(e, m, st)[0]) {
      ChainBack(e, m, st);
    }
  }

  lemma ChainBack(e: Env, m: Atom, st: State)
    requires Once(e, m, st) == [] || ChainEnds(e, m, Once(e, m, st)[0])
    ensures ChainEnds(e, m, st)
  {
    hide Once;
    var xs := Once(e, m, st);
    if xs == [] {
      assert EndsIn(e, m, 1, st);
    } else {
      var n: nat :| EndsIn(e, m, n, xs[0]);
      assert EndsIn(e, m, n + 1, st);
    }
  }

  /** S: split_next_first E; atom; goto S; E: save_end 0; match */
  ghost predicate GreedyAt(e: Env, m: Atom, pc: int, la: nat) {
    && At(e.prog, pc) == Some(SplitOp(true, la + 5))
    && At(e.prog, pc + 5 + la) == Some(Goto(-(la + 10)))
    && At(e.prog, pc + 10 + la) == Some(SaveEnd(0)) && At(e.prog, pc + 12 + la) == Some(Match) && e.captures > 0
    && AtomRuns(e, m, pc + 5, pc + 5 + la, [])
  }

  lemma EnterBody(e: Env, m: Atom, pc: int, la: nat, st: State, fs: seq<Frame>)
    requires GreedyAt(e, m, pc, la) && Fit(e, st)
    ensures var gs := fs + [ChoiceFrame(pc + 10 + la, st, [])];
      && Step(e, At0(pc, st, [], fs)) == At0(pc + 5, st, [], gs)
      && Yields(e, At0(pc + 5, st, [], gs), pc + 5 + la, [], gs, Once(e, m, st))
  {
    hide Yields, Step;
    var gs := fs + [ChoiceFrame(pc + 10 + la, st, [])];
    SplitStep(e, pc, true, la + 5, st, [], fs);
    UseRuns(e, m.a, m.back, m.cc, pc + 5, pc + 5 + la, [], st, gs);
  }

  /** No more matches of the atom: the exit is taken and the whole pattern matches. */
  lemma LeaveLoop(e: Env, m: Atom, pc: int, la: nat, st: State, fs: seq<Frame>)
    requires GreedyAt(e, m, pc, la) && Fit(e, st) && Choices(fs) && Once(e, m, st) == []
    ensures Halts(e, At0(pc, st, [], fs))
  {
    hide Yields, Step, GreedyAt, Once, Reaches, Halts;
    var gs := fs + [ChoiceFrame(pc + 10 + la, st, [])];
    EnterBody(e, m, pc, la, st, fs);
    EmptyYields(e, At0(pc + 5, st, [], gs), pc + 5 + la, [], gs);
    ReachesStep(e, At0(pc, st, [], fs), Unwind(gs));
    ExitHalts(e, m, pc, la, st, fs, gs);
    HaltsLater(e, At0(pc, st, [], fs), Unwind(gs));
  }

  lemma ExitHalts(e: Env, m: Atom, pc: int, la: nat, st: State, fs: seq<Frame>, gs: seq<Frame>)
    requires GreedyAt(e, m, pc, la) && Choices(fs) && gs == fs + [ChoiceFrame(pc + 10 + la, st, [])]
    ensures Halts(e, Unwind(gs))
  {
    var c0, c1, c2, c3 := Unwind(gs), At0(pc + 10 + la, st, [], fs),
      Run(pc + 12 + la, st.pos, Save(st.caps, 1, st.pos), [], fs), Accept(Save(st.caps, 1, st.pos), fs);
    assert ButTop(gs) == fs;
    assert Step(e, c0) == c1 && Step(e, c1) == c2 && Step(e, c2) == c3;
    AcceptDrops(e, c3.caps, [], fs);
    assert [] + fs == fs;
    AcceptHalts(e, c3.caps);
    HaltsLater(e, c3, Accept(c3.caps, []));
    ReachesSelf(e, c3);
    ReachesStep(e, c2, c3);
    ReachesStep(e, c1, c3);
    ReachesStep(e, c0, c3);
    HaltsLater(e, c0, c3);
  }

  lemma AcceptHalts(e: Env, caps: Captures)
    ensures Halts(e, Accept(caps, []))
  {
    assert Steps(e, Accept(caps, []), 1) == Steps(e, Step(e, Accept(caps, [])), 0);
    assert Steps(e, Accept(caps, []), 1).Done?;
  }

  /** One round: back at the head with the preferred match. */
  lemma Round(e: Env, m: Atom, pc: int, la: nat, st: State, fs: seq<Frame>) returns (gs: seq<Frame>, k: nat)
    requires GreedyAt(e, m, pc, la) && Fit(e, st) && Choices(fs) && Once(e, m, st) != []
    ensures Choices(gs) && k > 0 && Steps(e, At0(pc, st, [], fs), k) == At0(pc, Once(e, m, st)[0], [], gs)
      && Fit(e, Once(e, m, st)[0])
  {
    hide GreedyAt, Once, Step, Fit;
    var xs, mid := Once(e, m, st), pc + 5 + la;
    var hs := fs + [ChoiceFrame(pc + 10 + la, st, [])];
    EnterBody(e, m, pc, la, st, fs);
    OnceFit(e, m, st, xs[0]);
    var ts :| Choices(ts) && YieldsVia(e, At0(pc + 5, st, [], hs), mid, [], hs, xs, ts);
    gs := hs + ts;
    var n: nat :| Steps(e, At0(pc + 5, st, [], hs), n) == At0(mid, xs[0], [], gs);
    GotoHead(e, m, pc, la, xs[0], gs);
    StepsAdd(e, At0(pc + 5, st, [], hs), n, 1);
    OneStep(e, At0(mid, xs[0], [], gs));
    k := n + 2;
    assert Steps(e, At0(pc, st, [], fs), k) == Steps(e, Step(e, At0(pc, st, [], fs)), k - 1);
  }

  lemma OneStep(e: Env, c: Config)
    ensures Steps(e, c, 1) == Step(e, c)
  {
    hide Step;
    assert Steps(e, c, 1) == Steps(e, Step(e, c), 0);
  }

  lemma GotoHead(e: Env, m: Atom, pc: int, la: nat, st: State, fs: seq<Frame>)
    requires GreedyAt(e, m, pc, la)
    ensures Step(e, At0(pc + 5 + la, st, [], fs)) == At0(pc, st, [], fs)
  {
  }

  lemma {:induction false} EndingHalts(e: Env, m: Atom, pc: int, la: nat, n: nat, st: State, fs: seq<Frame>)
    requires GreedyAt(e, m, pc, la) && Fit(e, st) && Choices(fs) && EndsIn(e, m, n, st)
    ensures Halts(e, At0(pc, st, [], fs))
    decreases n
  {
    hide GreedyAt, Once, Step, Halts, Fit, Choices, Steps;
    if Once(e, m, st) == [] {
      LeaveLoop(e, m, pc, la, st, fs);
    } else {
      var gs, k := Round(e, m, pc, la, st, fs);
      EndingHalts(e, m, pc, la, n - 1, Once(e, m, st)[0], gs);
      assert Reaches(e, At0(pc, st, [], fs), At0(pc, Once(e, m, st)[0], [], gs));
      HaltsLater(e, At0(pc, st, [], fs), At0(pc, Once(e, m, st)[0], [], gs));
    }
  }

  lemma {:induction false} EndlessRuns(e: Env, m: Atom, pc: int, la: nat, st: State, fs: seq<Frame>, n: nat)
    requires GreedyAt(e, m, pc, la) && Fit(e, st) && Choices(fs) && !ChainEnds(e, m, st)
    ensures !Steps(e, At0(pc, st, [], fs), n).Done?
    decreases n
  {
    hide GreedyAt, Once, Step, Fit, Choices, ChainEnds;
    ChainNext(e, m, st);
    var gs, k := Round(e, m, pc, la, st, fs);
    var c := At0(pc, st, [], fs);
    if k <= n {
      StepsAdd(e, c, k, n - k);
      EndlessRuns(e, m, pc, la, Once(e, m, st)[0], gs, n - k);
    } else {
      StepsAdd(e, c, n, k - n);
      if Steps(e, c, n).Done? {
        StaysDone(e, Steps(e, c, n), k - n);
      }
    }
  }

  lemma GreedyLoopHalts(e: Env, m: Atom, pc: int, la: nat, st: State)
    requires GreedyAt(e, m, pc, la) && Fit(e, st)
    ensures Halts(e, At0(pc, st, [], [])) <==> ChainEnds(e, m, st)
  {
    hide GreedyAt, Fit;
    var c := At0(pc, st, [], []);
    if n: nat :| EndsIn(e, m, n, st) {
      EndingHalts(e, m, pc, la, n, st, []);
    } else {
      forall n: nat
        ensures !Steps(e, c, n).Done?
      {
        EndlessRuns(e, m, pc, la, st, [], n);
      }
    }
  }

  // ---- the whole program

  /** The program of `a*`, sticky, for an atom that reads a capture of its own. */
  ghost predicate OwnCompiled(e: Env, a: Pattern) {
    && e.prog == Program(Quant(a, 0, INF, true), true) && e.captures == 1 + Groups(a) && Peak(e.prog) <= e.stackSize
    && WellFormed(a) && Guarded(a, false, 1) && ValidText(e.subject.text) && CheckAdvance(CodeOf(a, false, 1)) == -1
  }

  lemma {:induction false} SimpleWritesNothing(code: Code)
    requires SimpleCount(code) >= 0
    ensures AllWrites(code) == {}
  {
    if code != [] {
      SimpleWritesNothing(code[1..]);
    }
  }

  lemma OwnCode(a: Pattern)
    requires CheckAdvance(CodeOf(a, false, 1)) == -1
    ensures CodeOf(Quant(a, 0, INF, true), false, 1)
      == ResetCode(1, Groups(a)) + StarCode(CodeOf(a, false, 1), true, false)
  {
    hide *;
    OwnUnfolds(a);
    OwnQuant(CodeOf(a, false, 1), Groups(a));
  }

  lemma OwnUnfolds(a: Pattern)
    ensures CodeOf(Quant(a, 0, INF, true), false, 1) == QuantCode(CodeOf(a, false, 1), 1, Groups(a), 0, INF, true)
  {
    hide QuantCode, Groups, Size;
  }

  lemma OwnQuant(ca: Code, groups: nat)
    requires CheckAdvance(ca) == -1
    ensures QuantCode(ca, 1, groups, 0, INF, true) == ResetCode(1, groups) + StarCode(ca, true, false)
  {
    hide StarCode, Size, AdvanceScan;
    if SimpleCount(ca) >= 0 {
      SimpleWritesNothing(ca);
    }
  }

  lemma OwnLayout(e: Env, a: Pattern)
    requires OwnCompiled(e, a)
    ensures At(e.prog, 0) == Some(SaveStart(0)) && (Groups(a) > 0 ==> At(e.prog, 2) == Some(SaveReset(1, Groups(a))))
    ensures var star := StarCode(CodeOf(a, false, 1), true, false); var end := 2 + ResetLen(a) + Size(star);
      && CodeAt(e.prog, 2 + ResetLen(a), star) && Peak(star) <= e.stackSize
      && At(e.prog, end) == Some(SaveEnd(0)) && At(e.prog, end + 2) == Some(Match)
  {
    hide CodeAt, Peak, Net, Size, CodeOf, StarCode, Program, WellFormed, Guarded, Groups, CheckAdvance;
    var star, reset, tail := StarCode(CodeOf(a, false, 1), true, false), ResetCode(1, Groups(a)), [SaveEnd(0), Match];
    OwnCode(a);
    StickyProgram(Quant(a, 0, INF, true));
    assert e.prog == [SaveStart(0)] + (reset + star) + tail;
    PlacedCodeAt([], e.prog, []);
    assert [] + e.prog + [] == e.prog && Size([]) == 0 by { SizeNil(); }
    NetZero(a, false, 1);
    StarStack(CodeOf(a, false, 1), true, false);
    Three(e.prog, 0, [SaveStart(0)], reset + star, tail);
    CodeAtConcat(e.prog, 2, reset, star);
    SizeConcat(reset, star);
    NetPeakConcat(reset, star);
    Single(e.prog, 0, SaveStart(0));
    ResetLayout(e, Atom(a, false, 1), 2);
    Double(e.prog, 2 + ResetLen(a) + Size(star), SaveEnd(0), Match);
  }

  lemma OwnIsAt(e: Env, a: Pattern)
    requires OwnCompiled(e, a)
    ensures GreedyAt(e, Atom(a, false, 1), 2 + ResetLen(a), Len(a, false, 1))
  {
    hide CodeAt, Peak, Net, Size, CodeOf, StarCode, Runs, Program, Guarded, WellFormed, CheckAdvance, At, Placed,
      Groups;
    var m := Atom(a, false, 1);
    var pc := 2 + ResetLen(a);
    OwnLayout(e, a);
    StarPlaced(e, m, true, false, pc, 0);
    Correct(e, a, false, 1, pc + 5, []);
  }

  lemma OwnPrefix(e: Env, a: Pattern, p: nat)
    requires OwnCompiled(e, a)
    ensures Reaches(e, Start(e, p), At0(2 + ResetLen(a), LazyStart(e, a, p), [], []))
  {
    hide CodeAt, Peak, Net, Size, CodeOf, StarCode, Program, CheckAdvance;
    OwnLayout(e, a);
    var st := State(p, Save(NoCaptures(e.captures), 0, p));
    var d := At0(2 + ResetLen(a), LazyStart(e, a, p), [], []);
    ReachesSelf(e, d);
    if Groups(a) > 0 {
      ResetStep(e, Atom(a, false, 1), 2, st, [], []);
      ReachesStep(e, At0(2, st, [], []), d);
    }
    assert Step(e, Start(e, p)) == At0(2, st, [], []);
    ReachesStep(e, Start(e, p), d);
  }

  /** `a*` over an atom that reads a capture of its own halts from p exactly when the chain of preferred matches of a
      ends. */
  lemma OwnHalts(e: Env, a: Pattern, p: nat)
    requires OwnCompiled(e, a) && Aligned(e.subject.text, p)
    ensures Halts(e, Start(e, p)) <==> ChainEnds(e, Atom(a, false, 1), LazyStart(e, a, p))
  {
    hide Halts, ChainEnds, GreedyAt, Reaches, Program, CodeOf, Peak, Guarded, WellFormed, CheckAdvance;
    var st := LazyStart(e, a, p);
    OwnIsAt(e, a);
    OwnPrefix(e, a, p);
    HaltsLater(e, Start(e, p), At0(2 + ResetLen(a), st, [], []));
    GreedyLoopHalts(e, Atom(a, false, 1), 2 + ResetLen(a), Len(a, false, 1), st);
  }

  /** A preferred match that repeats itself never ends. */
  lemma {:induction false} FixedPoint(e: Env, m: Atom, st: State, n: nat)
    requires Once(e, m, st) != [] && Once(e, m, st)[0] == st
    ensures !EndsIn(e, m, n, st)
    decreases n
  {
    if n > 0 {
      FixedPoint(e, m, st, n - 1);
    }
  }

  /** ()\1 */
  function OwnReference(): Pattern {
    Cat(Group(Empty), BackRef(1))
  }

  lemma OwnReferenceOnce(e: Env, p: nat, caps: Captures)
    requires |caps| >= 4
    ensures Once(e, Atom(OwnReference(), false, 1), State(p, caps)) == [State(p, Save(Save(caps, 2, p), 3, p))]
  {
    var st, open := State(p, caps), State(p, Save(caps, 2, p));
    var x := State(p, Save(Save(caps, 2, p), 3, p));
    assert Matches(e.subject, Empty, false, 2, open) == [open];
    assert Close(1, false, [open]) == [x] by { assert [open][1..] == []; }
    assert Matches(e.subject, Group(Empty), false, 1, st) == [x];
    assert Matches(e.subject, BackRef(1), false, 2, x) == [x];
    MatchesCat(e.subject, Group(Empty), BackRef(1), false, 1, st);
    assert MatchesAll(e.subject, BackRef(1), false, 2, [x]) == [x] by { assert [x][1..] == []; }
  }

  lemma OwnReferenceCode()
    ensures CodeOf(OwnReference(), false, 1) == [SaveStart(1), SaveEnd(1), BackReference(1)]
      && Groups(OwnReference()) == 1
    ensures WellFormed(OwnReference()) && Guarded(OwnReference(), false, 1)
  {
    hide CodeOf, WellFormed, Guarded, Groups;
    OwnReferenceLeaves();
    GroupUnfolds(Empty, false, 1);
    CatUnfolds(Group(Empty), BackRef(1), false, 1);
  }

  lemma OwnReferenceLeaves()
    ensures CodeOf(Empty, false, 2) == [] && Groups(Empty) == 0 && WellFormed(Empty) && Guarded(Empty, false, 2)
    ensures CodeOf(BackRef(1), false, 2) == [BackReference(1)] && Groups(BackRef(1)) == 0
    ensures WellFormed(BackRef(1)) && Guarded(BackRef(1), false, 2)
  {
  }

  /** The analysis sees that capture 1 is written and read. */
  lemma OwnReferenceAdvance()
    ensures CheckAdvance([SaveStart(1), SaveEnd(1), BackReference(1)]) == -1
  {
    hide AdvanceScan;
    var code := [SaveStart(1), SaveEnd(1), BackReference(1)];
    assert AllWrites(code) == Writes(code[0]) + AllWrites(code[1..]);
    assert AllReads(code[1..][1..]) == Reads(code[1..][1..][0]) + AllReads(code[1..][1..][1..]);
    assert AllReads(code) == Reads(code[0]) + AllReads(code[1..]);
    assert AllReads(code[1..]) == Reads(code[1..][0]) + AllReads(code[1..][1..]);
    assert 1 in AllWrites(code) * AllReads(code);
  }

  /** The program that the compiler emits for (?:()\1)* is one of those that OwnHalts is about. */
  lemma OwnReferenceCompiled(e: Env)
    requires Emitted(e, Quant(OwnReference(), 0, INF, true), true) && ValidText(e.subject.text)
    ensures OwnCompiled(e, OwnReference())
  {
    hide Program, Peak, CodeOf, CheckAdvance, Guarded, WellFormed;
    OwnReferenceCode();
    OwnReferenceAdvance();
  }

  /** (?:()\1)* runs for ever, on every text and from every position. */
  lemma OwnReferenceDiverges(e: Env, p: nat)
    requires Emitted(e, Quant(OwnReference(), 0, INF, true), true) && ValidText(e.subject.text)
      && Aligned(e.subject.text, p)
    ensures !Halts(e, Start(e, p))
  {
    hide Halts, Program, CodeOf, Peak, Guarded, CheckAdvance, Once;
    OwnReferenceCompiled(e);
    var m, st := Atom(OwnReference(), false, 1), LazyStart(e, OwnReference(), p);
    OwnHalts(e, OwnReference(), p);
    assert |st.caps| == 4;
    OwnReferenceOnce(e, p, st.caps);
    var x := State(p, Save(Save(st.caps, 2, p), 3, p));
    OwnReferenceOnce(e, p, x.caps);
    assert Save(Save(x.caps, 2, p), 3, p) == x.caps;
    if n: nat :| EndsIn(e, m, n, st) {
      FixedPoint(e, m, x, n - 1);
    }
  }
}

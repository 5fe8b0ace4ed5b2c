/** Compiler correctness: wherever its code is placed, a pattern's code delivers exactly the matches
    that the reference matcher lists, in the same order. */
module RegexCorrect {
  import opened RegexText
  import opened RegexCode
  import opened RegexPattern
  import opened RegexCodegen
  import opened RegexProgress
  import opened RegexLayout
  import opened RegexVM
  import opened RegexSim
  import opened RegexAtoms
  import opened RegexBlocks
  import opened RegexLoops
  import opened RegexGreedy

  /** What is asked of a pattern, the capture numbers it uses and the stack it runs on. */
  ghost predicate Ready(e: Env, r: Pattern, back: bool, cc: nat, depth: nat) {
    && WellFormed(r) && Guarded(r, back, cc) && ValidText(e.subject.text)
    && cc + Groups(r) <= e.captures && depth + Peak(CodeOf(r, back, cc)) <= e.stackSize
  }

  ghost predicate Placed(e: Env, r: Pattern, back: bool, cc: nat, pc: nat, depth: nat) {
    Ready(e, r, back, cc, depth) && CodeAt(e.prog, pc, CodeOf(r, back, cc))
  }

  function Len(r: Pattern, back: bool, cc: nat): nat {
    Size(CodeOf(r, back, cc))
  }

  /** Compiler correctness for one pattern. */
  lemma {:induction false} Correct(e: Env, r: Pattern, back: bool, cc: nat, pc: nat, stack: seq<nat>)
    requires Placed(e, r, back, cc, pc, |stack|)
    ensures Runs(e, r, back, cc, pc, pc + Len(r, back, cc), stack)
    decreases r, 9
  {
    match r
    case Cat(a, b) => CatRuns(e, r, back, cc, pc, stack);
    case Alt(a, b) => AltRuns(e, r, back, cc, pc, stack);
    case Group(a) => GroupRuns(e, r, back, cc, pc, stack);
    case Look(_, _, a) => LookRuns(e, r, back, cc, pc, stack);
    case Quant(_, _, _, _) => QuantRuns(e, r, back, cc, pc, stack);
    case _ => LeafRuns(e, r, back, cc, pc, stack);
  }

  lemma LeafRuns(e: Env, r: Pattern, back: bool, cc: nat, pc: nat, stack: seq<nat>)
    requires Placed(e, r, back, cc, pc, |stack|) && (r.Empty? || r.One? || r.Assert? || r.BackRef?)
    ensures Runs(e, r, back, cc, pc, pc + Len(r, back, cc), stack)
  {
    hide Yields;
    forall st: State, fs: seq<Frame> | Fit(e, st)
      ensures Yields(e, At0(pc, st, stack, fs), pc + Len(r, back, cc), stack, fs, Matches(e.subject, r, back, cc, st))
    {
      match r
      case Empty => YieldsOne(e, pc, stack, fs, st);
      case One(s) => OneYields(e, s, back, cc, pc, stack, st, fs);
      case Assert(a) =>
        Single(e.prog, pc, EmitAssert(a));
        AssertYields(e, a, pc, st, stack, fs);
      case BackRef(k) =>
        Single(e.prog, pc, if back then BackwardBackReference(k) else BackReference(k));
        RefYields(e, k, back, pc, st, stack, fs);
    }
  }

  lemma OneYields(e: Env, s: OneChar, back: bool, cc: nat, pc: nat, stack: seq<nat>, st: State, fs: seq<Frame>)
    requires CodeAt(e.prog, pc, CodeOf(One(s), back, cc)) && WellFormed(One(s)) && ValidText(e.subject.text)
      && Fit(e, st)
    ensures Yields(e, At0(pc, st, stack, fs), pc + Len(One(s), back, cc), stack, fs, OneMatches(e.subject, s, back, st))
  {
    var i := EmitOne(s);
    Single(e.prog, pc, i);
    if back {
      assert [StepBack, i, StepBack] == [StepBack] + [i] + [StepBack];
      Wrapped(e.prog, pc, StepBack, [i], StepBack);
      Single(e.prog, pc + 1, i);
      OneBackward(e, s, pc, st, stack, fs);
    } else {
      OneForward(e, s, pc, st, stack, fs);
    }
  }

  /** Code of a, then code of b. */
  lemma TwoYields(e: Env, a: Pattern, cca: nat, b: Pattern, ccb: nat, back: bool, pc: int, mid: int, end: int,
      stack: seq<nat>, st: State, fs: seq<Frame>)
    requires Runs(e, a, back, cca, pc, mid, stack) && Runs(e, b, back, ccb, mid, end, stack) && Fit(e, st)
    ensures Yields(e, At0(pc, st, stack, fs), end, stack, fs,
      MatchesAll(e.subject, b, back, ccb, Matches(e.subject, a, back, cca, st)))
  {
    var xs := Matches(e.subject, a, back, cca, st);
    UseRuns(e, a, back, cca, pc, mid, stack, st, fs);
    MatchesOnward(e.subject, a, back, cca, st);
    forall x | x in xs
      ensures Fit(e, x)
    {
      FitOnward(e, back, st, xs, x);
    }
    SeqYields(e, At0(pc, st, stack, fs), xs, b, ccb, back, mid, end, stack, fs);
  }

  lemma CatCode(e: Env, ca: Code, cb: Code, pc: nat, depth: nat)
    requires CodeAt(e.prog, pc, ca + cb) && depth + Peak(ca + cb) <= e.stackSize && Net(ca) == 0
    ensures CodeAt(e.prog, pc, ca) && CodeAt(e.prog, pc + Size(ca), cb) && Size(ca + cb) == Size(ca) + Size(cb)
    ensures depth + Peak(ca) <= e.stackSize && depth + Peak(cb) <= e.stackSize
  {
    CodeAtConcat(e.prog, pc, ca, cb);
    SizeConcat(ca, cb);
    NetPeakConcat(ca, cb);
  }

  lemma CatPlaced(e: Env, a: Pattern, b: Pattern, back: bool, cc: nat, pc: nat, depth: nat)
    requires Placed(e, Cat(a, b), back, cc, pc, depth)
    ensures var ccb := cc + Groups(a); var la := Len(a, back, cc); var lb := Len(b, back, ccb);
      && Placed(e, a, back, cc, if back then pc + lb else pc, depth)
      && Placed(e, b, back, ccb, if back then pc else pc + la, depth)
      && Len(Cat(a, b), back, cc) == la + lb
  {
    hide CodeAt, Size, Peak, Net, CodeOf, WellFormed, Guarded, Groups;
    CatUnfolds(a, b, back, cc);
    var ca, cb := CodeOf(a, back, cc), CodeOf(b, back, cc + Groups(a));
    NetZero(a, back, cc);
    NetZero(b, back, cc + Groups(a));
    if back {
      CatCode(e, cb, ca, pc, depth);
    } else {
      CatCode(e, ca, cb, pc, depth);
    }
  }

  lemma {:induction false} CatRuns(e: Env, r: Pattern, back: bool, cc: nat, pc: nat, stack: seq<nat>)
    requires r.Cat? && Placed(e, r, back, cc, pc, |stack|)
    ensures Runs(e, r, back, cc, pc, pc + Len(r, back, cc), stack)
    decreases r, 0
  {
    hide *;
    var a, b := r.left, r.right;
    var ccb := cc + Groups(a);
    var la, lb := Len(a, back, cc), Len(b, back, ccb);
    CatPlaced(e, a, b, back, cc, pc, |stack|);
    Correct(e, a, back, cc, if back then pc + lb else pc, stack);
    Correct(e, b, back, ccb, if back then pc else pc + la, stack);
    CatCompose(e, a, b, back, cc, pc, if back then pc + lb else pc + la, pc + la + lb, stack);
  }

  lemma CatCompose(e: Env, a: Pattern, b: Pattern, back: bool, cc: nat, pc: int, mid: int, end: int, stack: seq<nat>)
    requires Runs(e, a, back, cc, if back then mid else pc, if back then end else mid, stack)
    requires Runs(e, b, back, cc + Groups(a), if back then pc else mid, if back then mid else end, stack)
    ensures Runs(e, Cat(a, b), back, cc, pc, end, stack)
  {
    hide *;
    forall st: State, fs: seq<Frame> | Fit(e, st)
      ensures Yields(e, At0(pc, st, stack, fs), end, stack, fs, Matches(e.subject, Cat(a, b), back, cc, st))
    {
      MatchesCat(e.subject, a, b, back, cc, st);
      if back {
        TwoYields(e, b, cc + Groups(a), a, cc, back, pc, mid, end, stack, st, fs);
      } else {
        TwoYields(e, a, cc, b, cc + Groups(a), back, pc, mid, end, stack, st, fs);
      }
    }
    RunsFromYields(e, Cat(a, b), back, cc, pc, end, stack);
  }

  lemma AltPlaced(e: Env, a: Pattern, b: Pattern, back: bool, cc: nat, pc: nat, depth: nat)
    requires Placed(e, Alt(a, b), back, cc, pc, depth)
    ensures var ccb := cc + Groups(a); var la := Len(a, back, cc); var lb := Len(b, back, ccb);
      && Placed(e, a, back, cc, pc + 5, depth) && Placed(e, b, back, ccb, pc + 10 + la, depth)
      && At(e.prog, pc) == Some(SplitNextFirst(la + 5)) && At(e.prog, pc + 5 + la) == Some(Goto(lb))
      && Len(Alt(a, b), back, cc) == 10 + la + lb
  {
    hide CodeAt, Size, Peak, Net, CodeOf, WellFormed, Guarded, Groups;
    AltUnfolds(a, b, back, cc);
    NetZero(a, back, cc);
    NetZero(b, back, cc + Groups(a));
    AltLayout(e.prog, pc, CodeOf(a, back, cc), CodeOf(b, back, cc + Groups(a)));
  }

  lemma {:induction false} AltRuns(e: Env, r: Pattern, back: bool, cc: nat, pc: nat, stack: seq<nat>)
    requires r.Alt? && Placed(e, r, back, cc, pc, |stack|)
    ensures Runs(e, r, back, cc, pc, pc + Len(r, back, cc), stack)
    decreases r, 0
  {
    hide *;
    var a, b := r.left, r.right;
    var ccb := cc + Groups(a);
    var la, lb := Len(a, back, cc), Len(b, back, ccb);
    AltPlaced(e, a, b, back, cc, pc, |stack|);
    Correct(e, a, back, cc, pc + 5, stack);
    Correct(e, b, back, ccb, pc + 10 + la, stack);
    AltCompose(e, a, b, back, cc, pc, la, lb, stack);
  }

  lemma AltCompose(e: Env, a: Pattern, b: Pattern, back: bool, cc: nat, pc: int, la: nat, lb: nat, stack: seq<nat>)
    requires Runs(e, a, back, cc, pc + 5, pc + 5 + la, stack)
    requires Runs(e, b, back, cc + Groups(a), pc + 10 + la, pc + 10 + la + lb, stack)
    requires At(e.prog, pc) == Some(SplitNextFirst(la + 5)) && At(e.prog, pc + 5 + la) == Some(Goto(lb))
    ensures Runs(e, Alt(a, b), back, cc, pc, pc + (10 + la + lb), stack)
  {
    hide *;
    var end := pc + (10 + la + lb);
    forall st: State, fs: seq<Frame> | Fit(e, st)
      ensures Yields(e, At0(pc, st, stack, fs), end, stack, fs, Matches(e.subject, Alt(a, b), back, cc, st))
    {
      MatchesAlt(e.subject, a, b, back, cc, st);
      UseRuns(e, a, back, cc, pc + 5, pc + 5 + la, stack, st, fs + [ChoiceFrame(pc + 10 + la, st, stack)]);
      UseRuns(e, b, back, cc + Groups(a), pc + 10 + la, end, stack, st, fs);
      AltYields(e, pc, la, lb, stack, st, fs, Matches(e.subject, a, back, cc, st),
        Matches(e.subject, b, back, cc + Groups(a), st));
    }
    RunsFromYields(e, Alt(a, b), back, cc, pc, end, stack);
  }

  lemma GroupPlaced(e: Env, a: Pattern, back: bool, cc: nat, pc: nat, depth: nat)
    requires Placed(e, Group(a), back, cc, pc, depth)
    ensures Placed(e, a, back, cc + 1, pc + 2, depth) && Len(Group(a), back, cc) == 4 + Len(a, back, cc + 1)
      && cc < e.captures
    ensures At(e.prog, pc) == Some(SaveOp(back, cc))
      && At(e.prog, pc + 2 + Len(a, back, cc + 1)) == Some(SaveOp(!back, cc))
  {
    hide CodeAt, Size, Peak, Net, CodeOf, WellFormed, Guarded, Groups, At;
    GroupUnfolds(a, back, cc);
    NetZero(a, back, cc + 1);
    Wrapped(e.prog, pc, SaveOp(back, cc), CodeOf(a, back, cc + 1), SaveOp(!back, cc));
  }

  lemma {:induction false} GroupRuns(e: Env, r: Pattern, back: bool, cc: nat, pc: nat, stack: seq<nat>)
    requires r.Group? && Placed(e, r, back, cc, pc, |stack|)
    ensures Runs(e, r, back, cc, pc, pc + Len(r, back, cc), stack)
    decreases r, 0
  {
    hide *;
    GroupPlaced(e, r.body, back, cc, pc, |stack|);
    Correct(e, r.body, back, cc + 1, pc + 2, stack);
    GroupCompose(e, r.body, back, cc, pc, Len(r.body, back, cc + 1), stack);
  }

  lemma OpenFit(e: Env, k: nat, back: bool, st: State)
    requires Fit(e, st)
    ensures Fit(e, OpenOne(k, back, st))
  {
  }

  lemma GroupMatches(e: Subject, a: Pattern, back: bool, cc: nat, st: State)
    ensures Matches(e, Group(a), back, cc, st) == Close(cc, back, Matches(e, a, back, cc + 1, OpenOne(cc, back, st)))
  {
    hide Close;
  }

  lemma GroupCompose(e: Env, a: Pattern, back: bool, cc: nat, pc: int, la: nat, stack: seq<nat>)
    requires Runs(e, a, back, cc + 1, pc + 2, pc + 2 + la, stack) && cc < e.captures
    requires At(e.prog, pc) == Some(SaveOp(back, cc)) && At(e.prog, pc + 2 + la) == Some(SaveOp(!back, cc))
    ensures Runs(e, Group(a), back, cc, pc, pc + (4 + la), stack)
  {
    hide Yields, Matches, Fit, At0, Close;
    var end := pc + (4 + la);
    forall st: State, fs: seq<Frame> | Fit(e, st)
      ensures Yields(e, At0(pc, st, stack, fs), end, stack, fs, Matches(e.subject, Group(a), back, cc, st))
    {
      var open := OpenOne(cc, back, st);
      OpenFit(e, cc, back, st);
      GroupMatches(e.subject, a, back, cc, st);
      UseRuns(e, a, back, cc + 1, pc + 2, pc + 2 + la, stack, open, fs);
      GroupYields(e, back, cc, pc, la, stack, st, fs, Matches(e.subject, a, back, cc + 1, open));
    }
  }

  lemma LookPlaced(e: Env, behind: bool, negative: bool, a: Pattern, back: bool, cc: nat, pc: nat, depth: nat)
    requires Placed(e, Look(behind, negative, a), back, cc, pc, depth)
    ensures var la := Len(a, behind, cc);
      && Placed(e, a, behind, cc, pc + 5, depth) && Len(Look(behind, negative, a), back, cc) == 6 + la
      && At(e.prog, pc) == Some(if negative then NegativeLookahead(la + 1) else Lookahead(la + 1))
      && At(e.prog, pc + 5 + la) == Some(Match)
  {
    hide CodeAt, Size, Peak, Net, CodeOf, WellFormed, Guarded, Groups, At;
    var la := Len(a, behind, cc);
    var look := if negative then NegativeLookahead(la + 1) else Lookahead(la + 1);
    LookUnfolds(behind, negative, a, back, cc);
    NetZero(a, behind, cc);
    Wrapped(e.prog, pc, look, CodeOf(a, behind, cc), Match);
  }

  lemma {:induction false} LookRuns(e: Env, r: Pattern, back: bool, cc: nat, pc: nat, stack: seq<nat>)
    requires r.Look? && Placed(e, r, back, cc, pc, |stack|)
    ensures Runs(e, r, back, cc, pc, pc + Len(r, back, cc), stack)
    decreases r, 0
  {
    hide *;
    LookPlaced(e, r.behind, r.negative, r.body, back, cc, pc, |stack|);
    Correct(e, r.body, r.behind, cc, pc + 5, stack);
    LookCompose(e, r.behind, r.negative, r.body, back, cc, pc, Len(r.body, r.behind, cc), stack);
  }

  lemma LookMatches(e: Subject, behind: bool, negative: bool, a: Pattern, back: bool, cc: nat, st: State)
    ensures Matches(e, Look(behind, negative, a), back, cc, st)
         == LookResult(negative, st, Matches(e, a, behind, cc, st))
  {
  }

  lemma LookCompose(e: Env, behind: bool, negative: bool, a: Pattern, back: bool, cc: nat, pc: int, la: nat,
      stack: seq<nat>)
    requires Runs(e, a, behind, cc, pc + 5, pc + 5 + la, stack)
    requires At(e.prog, pc) == Some(if negative then NegativeLookahead(la + 1) else Lookahead(la + 1))
    requires At(e.prog, pc + 5 + la) == Some(Match)
    ensures Runs(e, Look(behind, negative, a), back, cc, pc, pc + (6 + la), stack)
  {
    hide Yields, Matches, Fit, At0, LookResult;
    var end := pc + (6 + la);
    forall st: State, fs: seq<Frame> | Fit(e, st)
      ensures Yields(e, At0(pc, st, stack, fs), end, stack, fs,
        Matches(e.subject, Look(behind, negative, a), back, cc, st))
    {
      LookMatches(e.subject, behind, negative, a, back, cc, st);
      var gs := fs + [LookFrame(negative, pc + 6 + la, st, stack)];
      UseRuns(e, a, behind, cc, pc + 5, pc + 5 + la, stack, st, gs);
      LookYields(e, negative, pc, la, stack, st, fs, Matches(e.subject, a, behind, cc, st));
    }
  }

  // ---- quantifiers

  /** An unbounded loop without a zero-advance check has an atom that advances. */
  lemma NoCheckAdvances(a: Pattern, back: bool, cc: nat, min: nat, max: nat, greedy: bool)
    requires Guarded(Quant(a, min, max, greedy), back, cc) && max >= INF && !NeedsCheck(CodeOf(a, back, cc), greedy)
    ensures Advances(a, back, cc)
  {
  }

  /** An atom that may be compiled, leaving aside the stack it needs. */
  ghost predicate Sound(e: Env, m: Atom) {
    && WellFormed(m.a) && Guarded(m.a, m.back, m.cc) && ValidText(e.subject.text)
    && m.cc + Groups(m.a) <= e.captures
  }

  /** The atom under one more stack entry, whatever that entry is. */
  lemma {:induction false} AtomAbove(e: Env, m: Atom, pc: nat, stack: seq<nat>)
    requires Placed(e, m.a, m.back, m.cc, pc, |stack| + 1)
    ensures forall n: nat :: AtomRuns(e, m, pc, pc + Len(m.a, m.back, m.cc), stack + [n])
    decreases m.a, 10
  {
    forall n: nat
      ensures AtomRuns(e, m, pc, pc + Len(m.a, m.back, m.cc), stack + [n])
    {
      Correct(e, m.a, m.back, m.cc, pc, stack + [n]);
    }
  }

  lemma StarPlaced(e: Env, m: Atom, greedy: bool, check: bool, pc: nat, depth: nat)
    requires var code := StarCode(CodeOf(m.a, m.back, m.cc), greedy, check);
      CodeAt(e.prog, pc, code) && depth + Peak(code) <= e.stackSize
    requires Sound(e, m)
    ensures var z := if check then 1 else 0; var la := Len(m.a, m.back, m.cc);
      && Placed(e, m.a, m.back, m.cc, pc + 5 + z, depth + z)
      && At(e.prog, pc) == Some(SplitOp(greedy, la + 5 + z))
      && (check ==> At(e.prog, pc + 5) == Some(PushCharPos) && depth < e.stackSize)
      && At(e.prog, pc + 5 + z + la) == Some(StarLast(la, check))
      && Size(StarCode(CodeOf(m.a, m.back, m.cc), greedy, check)) == la + 10 + z
  {
    hide CodeAt, Size, Peak, Net;
    NetZero(m.a, m.back, m.cc);
    StarStack(CodeOf(m.a, m.back, m.cc), greedy, check);
    StarLayout(e.prog, pc, CodeOf(m.a, m.back, m.cc), greedy, check);
  }

  lemma {:induction false} StarRest(e: Env, m: Atom, greedy: bool, check: bool, pc: nat, stack: seq<nat>)
    requires var code := StarCode(CodeOf(m.a, m.back, m.cc), greedy, check);
      CodeAt(e.prog, pc, code) && |stack| + Peak(code) <= e.stackSize
    requires Sound(e, m) && (!check ==> Advances(m.a, m.back, m.cc))
    ensures RestRuns(e, m, pc, pc + Size(StarCode(CodeOf(m.a, m.back, m.cc), greedy, check)), stack, INF, greedy)
    decreases m.a, 11
  {
    hide CodeOf, CodeAt, Size, Peak, Net, Guarded, Runs, RestRuns;
    StarPlaced(e, m, greedy, check, pc, |stack|);
    if check {
      AtomAbove(e, m, pc + 6, stack);
    } else {
      Correct(e, m.a, m.back, m.cc, pc + 5, stack);
    }
    StarCompose(e, m, greedy, check, pc, Len(m.a, m.back, m.cc), stack);
  }

  lemma StarCompose(e: Env, m: Atom, greedy: bool, check: bool, pc: int, la: nat, stack: seq<nat>)
    requires StarAt(e, m, greedy, check, pc, la, stack)
    ensures RestRuns(e, m, pc, pc + (la + 10 + if check then 1 else 0), stack, INF, greedy)
  {
    var end := pc + (la + 10 + if check then 1 else 0);
    forall x: State, gs: seq<Frame> | Fit(e, x)
      ensures Yields(e, At0(pc, x, stack, gs), end, stack, gs, Rep(e, m, 0, INF, greedy, x))
    {
      StarYields(e, m, greedy, check, pc, la, stack, x, gs);
    }
  }

  lemma PushStep(e: Env, pc: int, n: nat, st: State, stack: seq<nat>, fs: seq<Frame>)
    requires At(e.prog, pc) == Some(PushI32(n)) && |stack| < e.stackSize
    ensures Step(e, At0(pc, st, stack, fs)) == At0(pc + 5, st, stack + [n], fs)
  {
  }

  lemma {:induction false} UpToRest(e: Env, m: Atom, greedy: bool, n: nat, pc: nat, stack: seq<nat>)
    requires var code := UpToCode(CodeOf(m.a, m.back, m.cc), n, greedy);
      CodeAt(e.prog, pc, code) && |stack| + Peak(code) <= e.stackSize
    requires Sound(e, m) && 0 < n < INF
    ensures RestRuns(e, m, pc, pc + Size(UpToCode(CodeOf(m.a, m.back, m.cc), n, greedy)), stack, n, greedy)
    decreases m.a, 11
  {
    hide CodeOf, CodeAt, Size, Peak, Net, Guarded, Runs, RestRuns;
    NetZero(m.a, m.back, m.cc);
    UpToLayout(e.prog, pc, CodeOf(m.a, m.back, m.cc), n, greedy);
    AtomAbove(e, m, pc + 10, stack);
    UpToCompose(e, m, greedy, n, pc, Len(m.a, m.back, m.cc), stack);
  }

  lemma UpToCompose(e: Env, m: Atom, greedy: bool, n: nat, pc: int, la: nat, stack: seq<nat>)
    requires UpToAt(e, m, greedy, pc + 5, la, stack) && 0 < n < INF
    requires At(e.prog, pc) == Some(PushI32(n)) && |stack| < e.stackSize
    ensures RestRuns(e, m, pc, pc + (la + 16), stack, n, greedy)
  {
    var end := pc + (la + 16);
    forall x: State, gs: seq<Frame> | Fit(e, x)
      ensures Yields(e, At0(pc, x, stack, gs), end, stack, gs, Rep(e, m, 0, n, greedy, x))
    {
      UpToYields(e, m, greedy, pc + 5, la, stack, n, x, gs);
      PushStep(e, pc, n, x, stack, gs);
      YieldsStep(e, At0(pc, x, stack, gs), end, stack, gs, Rep(e, m, 0, n, greedy, x));
    }
  }

  lemma {:induction false} OptionalRest(e: Env, m: Atom, max: nat, greedy: bool, check: bool, pc: nat, stack: seq<nat>)
    requires var code := OptionalCode(CodeOf(m.a, m.back, m.cc), max, greedy, check);
      CodeAt(e.prog, pc, code) && |stack| + Peak(code) <= e.stackSize
    requires Sound(e, m) && max <= INF && (max >= INF && !check ==> Advances(m.a, m.back, m.cc))
    ensures RestRuns(e, m, pc, pc + Size(OptionalCode(CodeOf(m.a, m.back, m.cc), max, greedy, check)), stack, max,
      greedy)
    decreases m.a, 12
  {
    hide CodeAt, Net, WellFormed, Guarded, Runs, StarCode, UpToCode, Yields;
    var ca := CodeOf(m.a, m.back, m.cc);
    NetZero(m.a, m.back, m.cc);
    if max == 0 {
      EmptyRest(e, m, greedy, pc, stack);
    } else if max == 1 {
      Prefixed(e.prog, pc, SplitOp(greedy, Size(ca)), ca);
      Correct(e, m.a, m.back, m.cc, pc + 5, stack);
      var end := pc + 5 + Size(ca);
      forall x: State, gs: seq<Frame> | Fit(e, x)
        ensures Yields(e, At0(pc, x, stack, gs), end, stack, gs, Rep(e, m, 0, 1, greedy, x))
      {
        OptionYields(e, m, greedy, pc, Size(ca), stack, x, gs);
      }
    } else if max >= INF {
      StarRest(e, m, greedy, check, pc, stack);
    } else {
      UpToRest(e, m, greedy, max, pc, stack);
    }
  }

  lemma EmptyRest(e: Env, m: Atom, greedy: bool, pc: nat, stack: seq<nat>)
    ensures RestRuns(e, m, pc, pc, stack, 0, greedy)
  {
    forall x: State, gs: seq<Frame> | Fit(e, x)
      ensures Yields(e, At0(pc, x, stack, gs), pc, stack, gs, Rep(e, m, 0, 0, greedy, x))
    {
      RepZero(e, m, greedy, x);
      YieldsOne(e, pc, stack, gs, x);
    }
  }

  lemma {:induction false} MoreRest(e: Env, m: Atom, min: nat, max: nat, greedy: bool, check: bool, pc: nat,
      stack: seq<nat>)
    requires var code := MoreCode(CodeOf(m.a, m.back, m.cc), min, max, greedy, check);
      CodeAt(e.prog, pc, code) && |stack| + Peak(code) <= e.stackSize
    requires Sound(e, m) && 0 < min <= max <= INF && (max >= INF && !check ==> Advances(m.a, m.back, m.cc))
    ensures RestRuns(e, m, pc, pc + Size(MoreCode(CodeOf(m.a, m.back, m.cc), min, max, greedy, check)), stack,
                     if max >= INF then INF else max - min, greedy)
    decreases m.a, 12
  {
    if max >= INF {
      StarRest(e, m, greedy, check, pc, stack);
    } else if max > min {
      UpToRest(e, m, greedy, max - min, pc, stack);
    } else {
      EmptyRest(e, m, greedy, pc, stack);
    }
  }

  // ---- the four shapes of quantifier code

  function QCode(m: Atom, min: nat, max: nat, greedy: bool): Code {
    QuantCode(CodeOf(m.a, m.back, m.cc), m.cc, Groups(m.a), min, max, greedy)
  }

  ghost predicate QuantAt(e: Env, m: Atom, min: nat, max: nat, greedy: bool, pc: nat, depth: nat) {
    && CodeAt(e.prog, pc, QCode(m, min, max, greedy)) && depth + Peak(QCode(m, min, max, greedy)) <= e.stackSize
    && Sound(e, m) && min <= max <= INF
    && (max >= INF && !NeedsCheck(CodeOf(m.a, m.back, m.cc), greedy) ==> Advances(m.a, m.back, m.cc))
  }

  ghost predicate QuantRun(e: Env, m: Atom, min: nat, max: nat, greedy: bool, pc: int, end: int, stack: seq<nat>) {
    Runs(e, Quant(m.a, min, max, greedy), m.back, m.cc, pc, end, stack)
  }

  /** simple_greedy_quant; atom; match */
  lemma SimpleRuns(e: Env, m: Atom, min: nat, max: nat, pc: nat, stack: seq<nat>)
    requires QuantAt(e, m, min, max, true, pc, |stack|) && IsSimple(CodeOf(m.a, m.back, m.cc), max, true)
    ensures QuantRun(e, m, min, max, true, pc, pc + Size(QCode(m, min, max, true)), stack)
  {
    SimplePlaced(e, m, min, max, pc, |stack|);
    SimpleGroups(m.a, m.cc);
    SimpleCompose(e, m.a, m.cc, min, max, pc, Len(m.a, false, m.cc), stack);
  }

  lemma SimplePlaced(e: Env, m: Atom, min: nat, max: nat, pc: nat, depth: nat)
    requires QuantAt(e, m, min, max, true, pc, depth) && IsSimple(CodeOf(m.a, m.back, m.cc), max, true)
    ensures !m.back && SimpleAt(e, m.a, m.cc, pc + 17)
    ensures At(e.prog, pc) == Some(SimpleGreedyQuant(Len(m.a, false, m.cc) + 1, min, max, Chars(m.a, m.cc)))
    ensures Size(QCode(m, min, max, true)) == Len(m.a, false, m.cc) + 18
  {
    hide CodeOf, CodeAt, Size, Peak, Advances, CheckAdvance, SimpleCount, WellFormed, Guarded;
    if m.back {
      BackwardNotSimple(m.a, m.cc);
    }
    var ca := CodeOf(m.a, m.back, m.cc);
    Wrapped(e.prog, pc, SimpleGreedyQuant(Size(ca) + 1, min, max, SimpleCount(ca)), ca, Match);
  }

  lemma SimpleCompose(e: Env, a: Pattern, cc: nat, min: nat, max: nat, pc: nat, la: nat, stack: seq<nat>)
    requires SimpleAt(e, a, cc, pc + 17) && min <= max <= INF && max > 0 && Groups(a) == 0
    requires At(e.prog, pc) == Some(SimpleGreedyQuant(la + 1, min, max, Chars(a, cc)))
    ensures Runs(e, Quant(a, min, max, true), false, cc, pc, pc + (la + 18), stack)
  {
    hide Yields, SimpleAt;
    var end := pc + (la + 18);
    forall st: State, fs: seq<Frame> | Fit(e, st)
      ensures Yields(e, At0(pc, st, stack, fs), end, stack, fs,
        Matches(e.subject, Quant(a, min, max, true), false, cc, st))
    {
      SimpleYields(e, a, cc, min, max, pc, la, stack, st, fs);
    }
  }

  /** [save_reset]; optional repetitions */
  lemma {:induction false} ZeroRuns(e: Env, m: Atom, max: nat, greedy: bool, pc: nat, stack: seq<nat>)
    requires QuantAt(e, m, 0, max, greedy, pc, |stack|) && !IsSimple(CodeOf(m.a, m.back, m.cc), max, greedy)
    ensures QuantRun(e, m, 0, max, greedy, pc, pc + Size(QCode(m, 0, max, greedy)), stack)
    decreases m.a, 13
  {
    hide CodeOf, CodeAt, Size, Peak, Net, Advances, CheckAdvance, SimpleCount, WellFormed, Guarded, Runs, OptionalCode,
      RestRuns;
    var ca := CodeOf(m.a, m.back, m.cc);
    var check := NeedsCheck(ca, greedy);
    var reset, code := ResetCode(m.cc, Groups(m.a)), OptionalCode(ca, max, greedy, check);
    ResetLayout(e, m, pc);
    CatCode(e, reset, code, pc, |stack|);
    OptionalRest(e, m, max, greedy, check, pc + Size(reset), stack);
    ZeroCompose(e, m, max, greedy, pc, pc + Size(reset), pc + (Size(reset) + Size(code)), stack);
  }

  lemma ResetLayout(e: Env, m: Atom, pc: nat)
    ensures var reset := ResetCode(m.cc, Groups(m.a));
      && Net(reset) == 0 && Size(reset) == (if Groups(m.a) > 0 then 3 else 0)
      && (Groups(m.a) > 0 && CodeAt(e.prog, pc, reset) ==>
      At(e.prog, pc) == Some(SaveReset(m.cc, m.cc + Groups(m.a) - 1)))
  {
    if Groups(m.a) > 0 {
      Single(e.prog, pc, SaveReset(m.cc, m.cc + Groups(m.a) - 1));
    }
  }

  lemma ResetStep(e: Env, m: Atom, pc: int, st: State, stack: seq<nat>, fs: seq<Frame>)
    requires Groups(m.a) > 0 && At(e.prog, pc) == Some(SaveReset(m.cc, m.cc + Groups(m.a) - 1))
      && m.cc + Groups(m.a) <= e.captures
    ensures Step(e, At0(pc, st, stack, fs)) == At0(pc + 3, Enter(m.a, m.cc, 0, st), stack, fs)
  {
  }

  lemma ZeroCompose(e: Env, m: Atom, max: nat, greedy: bool, pc: int, mid: int, end: int, stack: seq<nat>)
    requires m.cc + Groups(m.a) <= e.captures && RestRuns(e, m, mid, end, stack, max, greedy)
    requires if Groups(m.a) > 0 then mid == pc + 3
      && At(e.prog, pc) == Some(SaveReset(m.cc, m.cc + Groups(m.a) - 1)) else mid == pc
    ensures QuantRun(e, m, 0, max, greedy, pc, end, stack)
  {
    hide Yields, Repeat;
    var r := Quant(m.a, 0, max, greedy);
    forall st: State, fs: seq<Frame> | Fit(e, st)
      ensures Yields(e, At0(pc, st, stack, fs), end, stack, fs, Matches(e.subject, r, m.back, m.cc, st))
    {
      var x := Enter(m.a, m.cc, 0, st);
      assert Fit(e, x);
      assert Yields(e, At0(mid, x, stack, fs), end, stack, fs, Rep(e, m, 0, max, greedy, x));
      if Groups(m.a) > 0 {
        ResetStep(e, m, pc, st, stack, fs);
        YieldsStep(e, At0(pc, st, stack, fs), end, stack, fs, Rep(e, m, 0, max, greedy, x));
      }
    }
  }

  /** atom; split back */
  lemma {:induction false} PlusRuns(e: Env, m: Atom, greedy: bool, pc: nat, stack: seq<nat>)
    requires var ca := CodeOf(m.a, m.back, m.cc);
      QuantAt(e, m, 1, INF, greedy, pc, |stack|) && !IsSimple(ca, INF, greedy) && !NeedsCheck(ca, greedy)
    ensures QuantRun(e, m, 1, INF, greedy, pc, pc + Size(QCode(m, 1, INF, greedy)), stack)
    decreases m.a, 13
  {
    hide CodeOf, CodeAt, Size, Peak, Net, Advances, CheckAdvance, SimpleCount, WellFormed, Guarded, Runs;
    var ca := CodeOf(m.a, m.back, m.cc);
    NetZero(m.a, m.back, m.cc);
    Suffixed(e.prog, pc, ca, SplitOp(!greedy, -(Size(ca) + 5)));
    Correct(e, m.a, m.back, m.cc, pc, stack);
    PlusCompose(e, m, greedy, pc, Size(ca), stack);
  }

  lemma PlusCompose(e: Env, m: Atom, greedy: bool, pc: int, la: nat, stack: seq<nat>)
    requires PlusAt(e, m, greedy, pc, la, stack)
    ensures QuantRun(e, m, 1, INF, greedy, pc, pc + (la + 5), stack)
  {
    hide Yields, Repeat, PlusAt;
    var r := Quant(m.a, 1, INF, greedy);
    var end := pc + (la + 5);
    forall st: State, fs: seq<Frame> | Fit(e, st)
      ensures Yields(e, At0(pc, st, stack, fs), end, stack, fs, Matches(e.subject, r, m.back, m.cc, st))
    {
      PlusYields(e, m, greedy, pc, la, stack, st, fs);
    }
  }

  /** mandatory repetitions; optional repetitions */
  lemma {:induction false} SomeRuns(e: Env, m: Atom, min: nat, max: nat, greedy: bool, pc: nat, stack: seq<nat>)
    requires var ca := CodeOf(m.a, m.back, m.cc);
      && QuantAt(e, m, min, max, greedy, pc, |stack|) && !IsSimple(ca, max, greedy) && min > 0
      && !(min == 1 && max >= INF && !NeedsCheck(ca, greedy))
    ensures QuantRun(e, m, min, max, greedy, pc, pc + Size(QCode(m, min, max, greedy)), stack)
    decreases m.a, 13
  {
    hide CodeOf, CodeAt, Size, Peak, Net, Advances, CheckAdvance, SimpleCount, WellFormed, Guarded, Runs, ExactlyCode,
      MoreCode, RestRuns;
    var ca := CodeOf(m.a, m.back, m.cc);
    var check := NeedsCheck(ca, greedy);
    var first, more := ExactlyCode(ca, min), MoreCode(ca, min, max, greedy, check);
    var rest := if max >= INF then INF else max - min;
    NetZero(m.a, m.back, m.cc);
    ExactlyNet(ca, min);
    CatCode(e, first, more, pc, |stack|);
    MoreRest(e, m, min, max, greedy, check, pc + Size(first), stack);
    ExactlyRuns(e, m, min, rest, greedy, pc, pc + (Size(first) + Size(more)), stack);
  }

  lemma ExactlyNet(ca: Code, n: nat)
    requires Net(ca) == 0
    ensures Net(ExactlyCode(ca, n)) == 0
  {
    if n != 1 {
      ExactlyLayout([], 0, ca, n);
    }
  }

  lemma {:induction false} ExactlyRuns(e: Env, m: Atom, min: nat, rest: nat, greedy: bool, pc: nat, end: nat,
      stack: seq<nat>)
    requires var first := ExactlyCode(CodeOf(m.a, m.back, m.cc), min);
      && CodeAt(e.prog, pc, first) && |stack| + Peak(first) <= e.stackSize
      && RestRuns(e, m, pc + Size(first), end, stack, rest, greedy)
    requires Sound(e, m) && min > 0 && rest <= INF && (rest < INF ==> min + rest < INF)
    ensures QuantRun(e, m, min, Total(min, rest), greedy, pc, end, stack)
    decreases m.a, 11
  {
    hide CodeOf, CodeAt, Size, Peak, Net, WellFormed, Guarded, Runs, RestRuns;
    var ca := CodeOf(m.a, m.back, m.cc);
    NetZero(m.a, m.back, m.cc);
    if min == 1 {
      Correct(e, m.a, m.back, m.cc, pc, stack);
      FirstCompose(e, m, rest, greedy, pc, Size(ca), end, stack);
    } else {
      ExactlyLayout(e.prog, pc, ca, min);
      AtomAbove(e, m, pc + 5, stack);
      ExactlyCompose(e, m, min, rest, greedy, pc, Size(ca), end, stack);
    }
  }

  lemma FirstCompose(e: Env, m: Atom, rest: nat, greedy: bool, pc: int, la: nat, end: int, stack: seq<nat>)
    requires AtomRuns(e, m, pc, pc + la, stack) && RestRuns(e, m, pc + la, end, stack, rest, greedy)
    requires rest <= INF && (rest < INF ==> 1 + rest < INF)
    ensures QuantRun(e, m, 1, Total(1, rest), greedy, pc, end, stack)
  {
    hide Yields, Repeat, AtomRuns, RestRuns;
    var r := Quant(m.a, 1, Total(1, rest), greedy);
    forall st: State, fs: seq<Frame> | Fit(e, st)
      ensures Yields(e, At0(pc, st, stack, fs), end, stack, fs, Matches(e.subject, r, m.back, m.cc, st))
    {
      OnceThenRest(e, m, greedy, pc, la, stack, end, rest, st, fs);
    }
  }

  lemma ExactlyCompose(e: Env, m: Atom, min: nat, rest: nat, greedy: bool, pc: int, la: nat, end: int, stack: seq<nat>)
    requires ExactlyAt(e, m, greedy, pc + 5, la, stack, end, rest) && |stack| < e.stackSize
    requires At(e.prog, pc) == Some(PushI32(min)) && min > 0 && rest <= INF && (rest < INF ==> min + rest < INF)
    ensures QuantRun(e, m, min, Total(min, rest), greedy, pc, end, stack)
  {
    hide Yields, Repeat, ExactlyAt;
    var max := Total(min, rest);
    var r := Quant(m.a, min, max, greedy);
    forall st: State, fs: seq<Frame> | Fit(e, st)
      ensures Yields(e, At0(pc, st, stack, fs), end, stack, fs, Matches(e.subject, r, m.back, m.cc, st))
    {
      ExactlyYields(e, m, greedy, pc + 5, la, stack, end, rest, min, st, fs);
      PushStep(e, pc, min, st, stack, fs);
      YieldsStep(e, At0(pc, st, stack, fs), end, stack, fs, Rep(e, m, min, max, greedy, st));
    }
  }

  lemma QuantPlaced(e: Env, r: Pattern, back: bool, cc: nat, pc: nat, depth: nat)
    requires r.Quant? && Placed(e, r, back, cc, pc, depth)
    ensures QuantAt(e, Atom(r.body, back, cc), r.min, r.max, r.greedy, pc, depth)
    ensures CodeOf(r, back, cc) == QCode(Atom(r.body, back, cc), r.min, r.max, r.greedy)
  {
    hide CodeAt, Size, Peak, QuantCode, Advances, CheckAdvance;
    if r.max >= INF && !NeedsCheck(CodeOf(r.body, back, cc), r.greedy) {
      NoCheckAdvances(r.body, back, cc, r.min, r.max, r.greedy);
    }
  }

  lemma {:induction false} QuantRuns(e: Env, r: Pattern, back: bool, cc: nat, pc: nat, stack: seq<nat>)
    requires r.Quant? && Placed(e, r, back, cc, pc, |stack|)
    ensures Runs(e, r, back, cc, pc, pc + Len(r, back, cc), stack)
    decreases r, 0
  {
    hide Placed, CodeOf, CodeAt, Size, Peak, Runs, Advances, CheckAdvance, SimpleCount, QCode, NeedsCheck, IsSimple;
    var m := Atom(r.body, back, cc);
    var ca := CodeOf(r.body, back, cc);
    QuantPlaced(e, r, back, cc, pc, |stack|);
    if IsSimple(ca, r.max, r.greedy) {
      IsSimpleGreedy(ca, r.max, r.greedy);
      SimpleRuns(e, m, r.min, r.max, pc, stack);
    } else if r.min == 0 {
      ZeroRuns(e, m, r.max, r.greedy, pc, stack);
    } else if r.min == 1 && r.max >= INF && !NeedsCheck(ca, r.greedy) {
      PlusRuns(e, m, r.greedy, pc, stack);
    } else {
      SomeRuns(e, m, r.min, r.max, r.greedy, pc, stack);
    }
  }

  lemma IsSimpleGreedy(ca: Code, max: nat, greedy: bool)
    requires IsSimple(ca, max, greedy)
    ensures greedy
  {
  }
}

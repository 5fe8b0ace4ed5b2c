/** How the code for composite patterns delivers results, given that its parts do. */
module RegexBlocks {
  import opened RegexText
  import opened RegexCode
  import opened RegexPattern
  import opened RegexCodegen
  import opened RegexProgress
  import opened RegexVM
  import opened RegexSim

  /** A state that a run may be in: aligned, with one entry per capture end. */
  ghost predicate Fit(e: Env, st: State) {
    Aligned(e.subject.text, st.pos) && |st.caps| == 2 * e.captures
  }

  function At0(pc: int, st: State, stack: seq<nat>, fs: seq<Frame>): Config {
    Run(pc, st.pos, st.caps, stack, fs)
  }

  /** The code from pc to end, run with this operand stack, delivers the matches of r. */
  ghost predicate Runs(e: Env, r: Pattern, back: bool, cc: nat, pc: int, end: int, stack: seq<nat>) {
    forall st: State, fs: seq<Frame> :: Fit(e, st) ==>
      Yields(e, At0(pc, st, stack, fs), end, stack, fs, Matches(e.subject, r, back, cc, st))
  }

  lemma RunsFromYields(e: Env, r: Pattern, back: bool, cc: nat, pc: int, end: int, stack: seq<nat>)
    requires forall st: State, fs: seq<Frame> :: Fit(e, st) ==>
      Yields(e, At0(pc, st, stack, fs), end, stack, fs, Matches(e.subject, r, back, cc, st))
    ensures Runs(e, r, back, cc, pc, end, stack)
  {
  }

  lemma UseRuns(e: Env, r: Pattern, back: bool, cc: nat, pc: int, end: int, stack: seq<nat>, st: State, fs: seq<Frame>)
    requires Runs(e, r, back, cc, pc, end, stack) && Fit(e, st)
    ensures Yields(e, At0(pc, st, stack, fs), end, stack, fs, Matches(e.subject, r, back, cc, st))
  {
  }

  lemma FitOnward(e: Env, back: bool, st: State, xs: seq<State>, x: State)
    requires Fit(e, st) && AllOnward(e.subject, back, st, xs) && x in xs
    ensures Fit(e, x)
  {
    assert Onward(e.subject, back, st, x);
  }

  lemma {:induction false} FlatMapUnit(f: State -> seq<State>, xs: seq<State>)
    requires forall x :: f(x) == [x]
    ensures FlatMap(f, xs) == xs
  {
    if xs != [] {
      FlatMapUnit(f, xs[1..]);
    }
  }

  /** Every delivered state passes through one more instruction. */
  lemma YieldsJump(e: Env, c: Config, mid: int, midStack: seq<nat>, end: int, stack: seq<nat>, base: seq<Frame>,
      xs: seq<State>)
    requires Yields(e, c, mid, midStack, base, xs)
    requires forall x, fs :: x in xs ==> Step(e, At0(mid, x, midStack, fs)) == At0(end, x, stack, fs)
    ensures Yields(e, c, end, stack, base, xs)
  {
    var f := (x: State) => [x];
    forall x: State, fs: seq<Frame> | x in xs
      ensures Yields(e, Run(mid, x.pos, x.caps, midStack, fs), end, stack, fs, f(x))
    {
      assert Step(e, At0(mid, x, midStack, fs)) == At0(end, x, stack, fs);
      YieldsOne(e, end, stack, fs, x);
      YieldsStep(e, At0(mid, x, midStack, fs), end, stack, fs, [x]);
    }
    YieldsThen(e, c, mid, midStack, end, stack, base, xs, f);
    FlatMapUnit(f, xs);
  }

  /** A split tries p1 first and resumes at p2. */
  lemma YieldsSplit(e: Env, c: Config, p1: int, p2: int, st: State, old_: seq<nat>, base: seq<Frame>,
                    end: int, stack: seq<nat>, xs: seq<State>, ys: seq<State>)
    requires Step(e, c) == At0(p1, st, old_, base + [Frame(OnFail, p2, st.pos, st.caps, old_)])
    requires Yields(e, Step(e, c), end, stack, base + [Frame(OnFail, p2, st.pos, st.caps, old_)], xs)
    requires Yields(e, At0(p2, st, old_, base), end, stack, base, ys)
    ensures Yields(e, c, end, stack, base, xs + ys)
  {
    var f := Frame(OnFail, p2, st.pos, st.caps, old_);
    assert ButTop(base + [f]) == base;
    YieldsStep(e, Unwind(base + [f]), end, stack, base, ys);
    assert Choices([f]);
    YieldsAppend(e, Step(e, c), end, stack, base, [f], xs, ys);
    YieldsStep(e, c, end, stack, base, xs + ys);
  }

  /** Two pieces of code in sequence. */
  lemma SeqYields(e: Env, c: Config, xs: seq<State>, b: Pattern, ccb: nat, back: bool, mid: int, end: int,
      stack: seq<nat>, fs: seq<Frame>)
    requires Yields(e, c, mid, stack, fs, xs) && Runs(e, b, back, ccb, mid, end, stack)
    requires forall x :: x in xs ==> Fit(e, x)
    ensures Yields(e, c, end, stack, fs, MatchesAll(e.subject, b, back, ccb, xs))
  {
    var f := x => Matches(e.subject, b, back, ccb, x);
    forall x: State, gs: seq<Frame> | x in xs
      ensures Yields(e, Run(mid, x.pos, x.caps, stack, gs), end, stack, gs, f(x))
    {
      UseRuns(e, b, back, ccb, mid, end, stack, x, gs);
    }
    YieldsThen(e, c, mid, stack, end, stack, fs, xs, f);
    MatchesAllIsMap(e.subject, b, back, ccb, f, xs);
  }

  lemma GotoYields(e: Env, c: Config, mid: int, off: int, stack: seq<nat>, base: seq<Frame>, xs: seq<State>)
    requires At(e.prog, mid) == Some(Goto(off)) && Yields(e, c, mid, stack, base, xs)
    ensures Yields(e, c, mid + 5 + off, stack, base, xs)
  {
    forall x: State, fs: seq<Frame> | x in xs
      ensures Step(e, At0(mid, x, stack, fs)) == At0(mid + 5 + off, x, stack, fs)
    {
    }
    YieldsJump(e, c, mid, stack, mid + 5 + off, stack, base, xs);
  }

  function ChoiceFrame(pc: int, st: State, stack: seq<nat>): Frame {
    Frame(OnFail, pc, st.pos, st.caps, stack)
  }

  /** split_next_first L; a; goto E; L: b; E: */
  lemma AltYields(e: Env, pc: int, la: nat, lb: nat, stack: seq<nat>, st: State, fs: seq<Frame>, xs: seq<State>,
      ys: seq<State>)
    requires At(e.prog, pc) == Some(SplitNextFirst(la + 5)) && At(e.prog, pc + 5 + la) == Some(Goto(lb))
    requires var gs := fs + [ChoiceFrame(pc + 10 + la, st, stack)];
             Yields(e, At0(pc + 5, st, stack, gs), pc + 5 + la, stack, gs, xs)
    requires Yields(e, At0(pc + 10 + la, st, stack, fs), pc + 10 + la + lb, stack, fs, ys)
    ensures Yields(e, At0(pc, st, stack, fs), pc + 10 + la + lb, stack, fs, xs + ys)
  {
    var gs := fs + [ChoiceFrame(pc + 10 + la, st, stack)];
    var d := At0(pc + 5, st, stack, gs);
    assert Step(e, At0(pc, st, stack, fs)) == d;
    GotoYields(e, d, pc + 5 + la, lb, stack, gs, xs);
    YieldsSplit(e, At0(pc, st, stack, fs), pc + 5, pc + 10 + la, st, stack, fs, pc + 10 + la + lb, stack, xs, ys);
  }

  function OpenOne(k: nat, back: bool, st: State): State {
    st.(caps := Save(st.caps, if back then 2 * k + 1 else 2 * k, st.pos))
  }

  /** save open; a; save close */
  lemma GroupYields(e: Env, back: bool, cc: nat, pc: int, la: nat, stack: seq<nat>, st: State, fs: seq<Frame>,
      xs: seq<State>)
    requires cc < e.captures
    requires At(e.prog, pc) == Some(SaveOp(back, cc)) && At(e.prog, pc + 2 + la) == Some(SaveOp(!back, cc))
    requires Yields(e, At0(pc + 2, OpenOne(cc, back, st), stack, fs), pc + 2 + la, stack, fs, xs)
    ensures Yields(e, At0(pc, st, stack, fs), pc + 4 + la, stack, fs, Close(cc, back, xs))
  {
    var c := At0(pc, st, stack, fs);
    var d := At0(pc + 2, OpenOne(cc, back, st), stack, fs);
    assert Step(e, c) == d;
    CloseYields(e, back, cc, d, pc + 2 + la, stack, fs, xs);
    YieldsStep(e, c, pc + 4 + la, stack, fs, Close(cc, back, xs));
  }

  lemma CloseYields(e: Env, back: bool, cc: nat, d: Config, mid: int, stack: seq<nat>, fs: seq<Frame>, xs: seq<State>)
    requires cc < e.captures && At(e.prog, mid) == Some(SaveOp(!back, cc)) && Yields(e, d, mid, stack, fs, xs)
    ensures Yields(e, d, mid + 2, stack, fs, Close(cc, back, xs))
  {
    var f := x => [CloseOne(cc, back, x)];
    forall x: State, gs: seq<Frame> | x in xs
      ensures Yields(e, Run(mid, x.pos, x.caps, stack, gs), mid + 2, stack, gs, f(x))
    {
      CloseStep(e, back, cc, mid, x, stack, gs);
    }
    YieldsThen(e, d, mid, stack, mid + 2, stack, fs, xs, f);
    CloseIsMap(cc, back, f, xs);
  }

  lemma CloseStep(e: Env, back: bool, cc: nat, pc: int, x: State, stack: seq<nat>, gs: seq<Frame>)
    requires cc < e.captures && At(e.prog, pc) == Some(SaveOp(!back, cc))
    ensures Yields(e, At0(pc, x, stack, gs), pc + 2, stack, gs, [CloseOne(cc, back, x)])
  {
    var y := CloseOne(cc, back, x);
    assert Step(e, At0(pc, x, stack, gs)) == At0(pc + 2, y, stack, gs);
    YieldsOne(e, pc + 2, stack, gs, y);
    YieldsStep(e, At0(pc, x, stack, gs), pc + 2, stack, gs, [y]);
  }

  // ---- lookahead and lookbehind

  /** A successful match drops every choice point above the enclosing lookahead. */
  lemma {:induction false} AcceptDrops(e: Env, caps: Captures, base: seq<Frame>, fs: seq<Frame>)
    requires Choices(fs)
    ensures Reaches(e, Accept(caps, base + fs), Accept(caps, base))
    decreases |fs|
  {
    if fs == [] {
      assert base + fs == base;
      ReachesSelf(e, Accept(caps, base));
    } else {
      var f := fs[|fs| - 1];
      assert f in fs;
      assert ButTop(base + fs) == base + ButTop(fs);
      AcceptDrops(e, caps, base, ButTop(fs));
      assert Step(e, Accept(caps, base + fs)) == Accept(caps, base + ButTop(fs));
      ReachesStep(e, Accept(caps, base + fs), Accept(caps, base));
    }
  }

  /** The body of a lookahead either unwinds or accepts above the lookahead's own frame. */
  lemma LookBody(e: Env, c: Config, mid: int, stack: seq<nat>, base: seq<Frame>, xs: seq<State>)
    requires At(e.prog, mid) == Some(Match) && Yields(e, c, mid, stack, base, xs)
    ensures if xs == [] then Reaches(e, c, Unwind(base)) else Reaches(e, c, Accept(xs[0].caps, base))
  {
    if xs != [] {
      var fs :| Choices(fs) && YieldsVia(e, c, mid, stack, base, xs, fs);
      var d := At0(mid, xs[0], stack, base + fs);
      AcceptDrops(e, xs[0].caps, base, fs);
      ReachesStep(e, d, Accept(xs[0].caps, base));
      ReachesTrans(e, c, d, Accept(xs[0].caps, base));
    }
  }

  function LookFrame(negative: bool, pc: int, st: State, stack: seq<nat>): Frame {
    Frame(if negative then NotAhead else Ahead, pc, st.pos, st.caps, stack)
  }

  /** What a lookahead makes of the matches of its body. */
  function LookResult(negative: bool, st: State, xs: seq<State>): seq<State> {
    if negative then (if xs == [] then [st] else [])
    else if xs == [] then [] else [st.(caps := xs[0].caps)]
  }

  /** lookahead E; a; match; E: */
  lemma LookYields(e: Env, negative: bool, pc: int, la: nat, stack: seq<nat>, st: State, fs: seq<Frame>, xs: seq<State>)
    requires At(e.prog, pc) == Some(if negative then NegativeLookahead(la + 1) else Lookahead(la + 1))
    requires At(e.prog, pc + 5 + la) == Some(Match)
    requires var gs := fs + [LookFrame(negative, pc + 6 + la, st, stack)];
             Yields(e, At0(pc + 5, st, stack, gs), pc + 5 + la, stack, gs, xs)
    ensures Yields(e, At0(pc, st, stack, fs), pc + 6 + la, stack, fs, LookResult(negative, st, xs))
  {
    var c := At0(pc, st, stack, fs);
    var gs := fs + [LookFrame(negative, pc + 6 + la, st, stack)];
    var d := At0(pc + 5, st, stack, gs);
    assert Step(e, c) == d;
    LookBody(e, d, pc + 5 + la, stack, gs, xs);
    LookExit(e, negative, fs, pc + 6 + la, stack, st, xs, d);
    YieldsStep(e, c, pc + 6 + la, stack, fs, LookResult(negative, st, xs));
  }

  lemma LookExit(e: Env, negative: bool, fs: seq<Frame>, end: int, stack: seq<nat>, st: State, xs: seq<State>,
      d: Config)
    requires var gs := fs + [LookFrame(negative, end, st, stack)];
             if xs == [] then Reaches(e, d, Unwind(gs)) else Reaches(e, d, Accept(xs[0].caps, gs))
    ensures Yields(e, d, end, stack, fs, LookResult(negative, st, xs))
  {
    var gs := fs + [LookFrame(negative, end, st, stack)];
    assert ButTop(gs) == fs;
    var m := if xs == [] then Unwind(gs) else Accept(xs[0].caps, gs);
    var out := LookResult(negative, st, xs);
    if out == [] {
      assert Step(e, m) == Unwind(fs);
      ReachesSelf(e, Unwind(fs));
      ReachesStep(e, m, Unwind(fs));
    } else {
      assert Step(e, m) == At0(end, out[0], stack, fs);
      YieldsOne(e, end, stack, fs, out[0]);
      YieldsStep(e, m, end, stack, fs, out);
    }
    YieldsReach(e, d, m, end, stack, fs, out);
  }
}

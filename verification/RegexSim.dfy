/** How a piece of code delivers a list of results: the machine reaches the end of the code once for
    each result, in order, and each time it is made to fail it goes on to the next one. */
module RegexSim {
  import opened RegexText
  import opened RegexCode
  import opened RegexPattern
  import opened RegexVM

  ghost predicate Reaches(e: Env, c: Config, d: Config) {
    exists n: nat :: Steps(e, c, n) == d
  }

  lemma ReachesSelf(e: Env, c: Config)
    ensures Reaches(e, c, c)
  {
    assert Steps(e, c, 0) == c;
  }

  lemma ReachesTrans(e: Env, c: Config, d: Config, f: Config)
    requires Reaches(e, c, d) && Reaches(e, d, f)
    ensures Reaches(e, c, f)
  {
    var m: nat :| Steps(e, c, m) == d;
    var n: nat :| Steps(e, d, n) == f;
    StepsAdd(e, c, m, n);
  }

  lemma ReachesStep(e: Env, c: Config, d: Config)
    requires Reaches(e, Step(e, c), d)
    ensures Reaches(e, c, d)
  {
    var n: nat :| Steps(e, Step(e, c), n) == d;
    assert Steps(e, c, n + 1) == d;
  }

  /** Only choice points: nothing here survives a `match` inside a lookahead. */
  ghost predicate Choices(fs: seq<Frame>) {
    forall f :: f in fs ==> f.kind.OnFail? || f.kind.Greedy?
  }

  /** From c the machine delivers `sts` at `end`, in order, with operand stack `stack`, above the
      frames `base`; failing after the last one unwinds `base`. */
  ghost predicate Yields(e: Env, c: Config, end: int, stack: seq<nat>, base: seq<Frame>, sts: seq<State>)
    decreases |sts|
  {
    if sts == [] then Reaches(e, c, Unwind(base))
    else exists fs: seq<Frame> :: Choices(fs) && YieldsVia(e, c, end, stack, base, sts, fs)
  }

  ghost predicate YieldsVia(e: Env, c: Config, end: int, stack: seq<nat>, base: seq<Frame>, sts: seq<State>,
      fs: seq<Frame>)
    requires sts != []
    decreases |sts|, 0
  {
    && Reaches(e, c, Run(end, sts[0].pos, sts[0].caps, stack, base + fs))
    && Yields(e, Unwind(base + fs), end, stack, base, sts[1..])
  }

  lemma YieldsOne(e: Env, end: int, stack: seq<nat>, base: seq<Frame>, st: State)
    ensures Yields(e, Run(end, st.pos, st.caps, stack, base), end, stack, base, [st])
  {
    var c := Run(end, st.pos, st.caps, stack, base);
    assert base + [] == base;
    ReachesSelf(e, c);
    ReachesSelf(e, Unwind(base));
    assert [st][1..] == [];
    assert Choices([]);
    assert YieldsVia(e, c, end, stack, base, [st], []);
  }

  lemma YieldsReach(e: Env, c: Config, d: Config, end: int, stack: seq<nat>, base: seq<Frame>, sts: seq<State>)
    requires Reaches(e, c, d) && Yields(e, d, end, stack, base, sts)
    ensures Yields(e, c, end, stack, base, sts)
  {
    if sts == [] {
      ReachesTrans(e, c, d, Unwind(base));
    } else {
      var fs :| Choices(fs) && YieldsVia(e, d, end, stack, base, sts, fs);
      ReachesTrans(e, c, d, Run(end, sts[0].pos, sts[0].caps, stack, base + fs));
      assert YieldsVia(e, c, end, stack, base, sts, fs);
    }
  }

  lemma YieldsStep(e: Env, c: Config, end: int, stack: seq<nat>, base: seq<Frame>, sts: seq<State>)
    requires Yields(e, Step(e, c), end, stack, base, sts)
    ensures Yields(e, c, end, stack, base, sts)
  {
    ReachesSelf(e, Step(e, c));
    ReachesStep(e, c, Step(e, c));
    YieldsReach(e, c, Step(e, c), end, stack, base, sts);
  }

  /** First the results of one piece of code, then, on failure, those of another. */
  lemma {:induction false} YieldsAppend(e: Env, c: Config, end: int, stack: seq<nat>, base: seq<Frame>, fs: seq<Frame>,
      xs: seq<State>, ys: seq<State>)
    requires Choices(fs) && Yields(e, c, end, stack, base + fs, xs)
    requires Yields(e, Unwind(base + fs), end, stack, base, ys)
    ensures Yields(e, c, end, stack, base, xs + ys)
    decreases |xs|
  {
    if xs == [] {
      assert xs + ys == ys;
      YieldsReach(e, c, Unwind(base + fs), end, stack, base, ys);
    } else {
      var gs :| Choices(gs) && YieldsVia(e, c, end, stack, base + fs, xs, gs);
      assert (base + fs) + gs == base + (fs + gs);
      YieldsAppend(e, Unwind(base + fs + gs), end, stack, base, fs, xs[1..], ys);
      assert (xs + ys)[1..] == xs[1..] + ys;
      assert YieldsVia(e, c, end, stack, base, xs + ys, fs + gs);
    }
  }

  /** From `mid`, each of xs goes on to deliver f of it at `end`. */
  ghost predicate Continues(e: Env, mid: int, midStack: seq<nat>, end: int, stack: seq<nat>, xs: seq<State>,
      f: State -> seq<State>) {
    forall x: State, fs: seq<Frame> :: x in xs ==>
      Yields(e, Run(mid, x.pos, x.caps, midStack, fs), end, stack, fs, f(x))
  }

  /** Code in sequence. */
  lemma {:induction false} YieldsThen(e: Env, c: Config, mid: int, midStack: seq<nat>, end: int, stack: seq<nat>,
      base: seq<Frame>,
                                      xs: seq<State>, f: State -> seq<State>)
    requires Yields(e, c, mid, midStack, base, xs)
    requires Continues(e, mid, midStack, end, stack, xs, f)
    ensures Yields(e, c, end, stack, base, FlatMap(f, xs))
    decreases |xs|
  {
    if xs != [] {
      var fs :| Choices(fs) && YieldsVia(e, c, mid, midStack, base, xs, fs);
      var d := Run(mid, xs[0].pos, xs[0].caps, midStack, base + fs);
      assert Yields(e, d, end, stack, base + fs, f(xs[0]));
      YieldsReach(e, c, d, end, stack, base + fs, f(xs[0]));
      YieldsThen(e, Unwind(base + fs), mid, midStack, end, stack, base, xs[1..], f);
      YieldsAppend(e, c, end, stack, base, fs, f(xs[0]), FlatMap(f, xs[1..]));
    }
  }
}

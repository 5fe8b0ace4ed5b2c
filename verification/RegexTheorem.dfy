/** Whole programs: what a run of the compiled pattern returns. */
module RegexTheorem {
  import opened RegexText
  import opened RegexCode
  import opened RegexPattern
  import opened RegexCodegen
  import opened RegexLayout
  import opened RegexVM
  import opened RegexSim
  import opened RegexAtoms
  import opened RegexBlocks
  import opened RegexCorrect

  /** No capture is set. */
  function NoCaptures(n: nat): Captures {
    seq(2 * n, _ => None)
  }

  /** The whole pattern is capture group 0. */
  function MatchesAt(e: Subject, r: Pattern, p: nat): seq<State> {
    Matches(e, Group(r), false, 0, State(p, NoCaptures(1 + Groups(r))))
  }

  /** Reference answer: the preferred match at the first position, from p on, that has one. */
  function Find(e: Subject, r: Pattern, sticky: bool, p: nat): Option<Captures>
    decreases Left(e.text, false, p)
  {
    var ms := MatchesAt(e, r, p);
    if ms != [] then Some(ms[0].caps)
    else if sticky || p >= |e.text.units| then None
    else Find(e, r, sticky, Next(e.text, p))
  }

  /** All matches at p, then at the following positions. */
  function Candidates(e: Subject, r: Pattern, sticky: bool, p: nat): seq<State>
    decreases Left(e.text, false, p)
  {
    MatchesAt(e, r, p) + if sticky || p >= |e.text.units| then [] else Candidates(e, r, sticky, Next(e.text, p))
  }

  lemma {:induction false} FindIsFirst(e: Subject, r: Pattern, sticky: bool, p: nat)
    ensures var xs := Candidates(e, r, sticky, p);
      Find(e, r, sticky, p) == if xs == [] then None else Some(xs[0].caps)
    decreases Left(e.text, false, p)
  {
    if !sticky && p < |e.text.units| {
      FindIsFirst(e, r, sticky, Next(e.text, p));
    }
  }

  /** A program and header that lre_compile could have produced for r. */
  ghost predicate Compiled(e: Env, r: Pattern, sticky: bool) {
    && e.prog == Program(r, sticky) && e.captures == 1 + Groups(r) && Peak(e.prog) <= e.stackSize
    && WellFormed(r) && Guarded(r, false, 1) && ValidText(e.subject.text)
  }

  function SearchLen(sticky: bool): nat {
    if sticky then 0 else 11
  }

  lemma ProgramParts(r: Pattern, sticky: bool)
    ensures Program(r, sticky) == SearchCode(sticky) + CodeOf(Group(r), false, 0) + [Match]
  {
  }

  lemma SearchLayout(prog: Code, sticky: bool)
    ensures Size(SearchCode(sticky)) == SearchLen(sticky) && Net(SearchCode(sticky)) == 0
      && Peak(SearchCode(sticky)) == 0
    ensures !sticky && CodeAt(prog, 0, SearchCode(sticky)) ==>
      At(prog, 0) == Some(SplitGotoFirst(6)) && At(prog, 5) == Some(Any) && At(prog, 6) == Some(Goto(-11))
  {
    if !sticky {
      assert SearchCode(sticky) == [SplitGotoFirst(6)] + [Any] + [Goto(-11)];
      Single(prog, 5, Any);
      Wrapped(prog, 0, SplitGotoFirst(6), [Any], Goto(-11));
    }
  }

  /** Where the parts of a program lie. */
  lemma ProgramLayout(e: Env, r: Pattern, sticky: bool)
    requires Compiled(e, r, sticky)
    ensures Placed(e, Group(r), false, 0, SearchLen(sticky), 0)
    ensures At(e.prog, SearchLen(sticky) + Len(Group(r), false, 0)) == Some(Match)
    ensures !sticky ==>
      At(e.prog, 0) == Some(SplitGotoFirst(6)) && At(e.prog, 5) == Some(Any) && At(e.prog, 6) == Some(Goto(-11))
  {
    hide CodeAt, Peak, Net, Size, CodeOf, WellFormed, Guarded, Groups, Program, At;
    var code := CodeOf(Group(r), false, 0);
    GroupUnfolds(r, false, 0);
    ProgramParts(r, sticky);
    PlacedCodeAt([], e.prog, []);
    assert [] + e.prog + [] == e.prog && Size([]) == 0 by { SizeNil(); }
    Three(e.prog, 0, SearchCode(sticky), code, [Match]);
    SearchLayout(e.prog, sticky);
    NetZero(Group(r), false, 0);
    Single(e.prog, SearchLen(sticky) + Size(code), Match);
  }

  lemma SizeNil()
    ensures Size([]) == 0
  {
  }

  /** The machine delivers every candidate, in order, at the final match instruction. */
  lemma {:induction false} SearchYields(e: Env, r: Pattern, sticky: bool, p: nat, fs: seq<Frame>)
    requires Compiled(e, r, sticky) && Aligned(e.subject.text, p)
    ensures var end := SearchLen(sticky) + Len(Group(r), false, 0);
      Yields(e, At0(0, State(p, NoCaptures(e.captures)), [], fs), end, [], fs, Candidates(e.subject, r, sticky, p))
    decreases Left(e.subject.text, false, p)
  {
    hide Compiled, Yields, Placed, Matches, Runs, CodeOf, Size, Len, Step;
    var st := State(p, NoCaptures(e.captures));
    var here := SearchLen(sticky);
    var end := here + Len(Group(r), false, 0);
    ProgramLayout(e, r, sticky);
    Correct(e, Group(r), false, 0, here, []);
    CapturesOf(e, r, sticky);
    if sticky {
      UseRuns(e, Group(r), false, 0, here, end, [], st, fs);
      assert Candidates(e.subject, r, sticky, p) == MatchesAt(e.subject, r, p);
    } else {
      var gs := fs + [ChoiceFrame(5, st, [])];
      UseRuns(e, Group(r), false, 0, here, end, [], st, gs);
      var later := if p >= |e.subject.text.units| then []
        else Candidates(e.subject, r, sticky, Next(e.subject.text, p));
      if p < |e.subject.text.units| {
        NextAligned(e.subject.text, p);
        SearchYields(e, r, sticky, Next(e.subject.text, p), fs);
      }
      AdvanceYields(e, st, fs, end, later);
      FirstSplit(e, st, fs);
      YieldsSplit(e, At0(0, st, [], fs), 11, 5, st, [], fs, end, [], MatchesAt(e.subject, r, p), later);
    }
  }

  lemma CapturesOf(e: Env, r: Pattern, sticky: bool)
    requires Compiled(e, r, sticky)
    ensures e.captures == 1 + Groups(r)
  {
  }

  lemma FirstSplit(e: Env, st: State, fs: seq<Frame>)
    requires At(e.prog, 0) == Some(SplitGotoFirst(6))
    ensures Step(e, At0(0, st, [], fs)) == At0(11, st, [], fs + [ChoiceFrame(5, st, [])])
  {
  }

  /** any; goto 0 */
  lemma AdvanceYields(e: Env, st: State, fs: seq<Frame>, end: int, later: seq<State>)
    requires At(e.prog, 5) == Some(Any) && At(e.prog, 6) == Some(Goto(-11))
    requires if st.pos >= |e.subject.text.units| then later == []
             else Yields(e, At0(0, st.(pos := Next(e.subject.text, st.pos)), [], fs), end, [], fs, later)
    ensures Yields(e, At0(5, st, [], fs), end, [], fs, later)
  {
    hide Yields;
    var c := At0(5, st, [], fs);
    if st.pos >= |e.subject.text.units| {
      YieldsNone(e, c, end, [], fs);
    } else {
      var x := st.(pos := Next(e.subject.text, st.pos));
      assert Step(e, At0(6, x, [], fs)) == At0(0, x, [], fs);
      YieldsStep(e, At0(6, x, [], fs), end, [], fs, later);
      YieldsStep(e, c, end, [], fs, later);
    }
  }

  function Start(e: Env, p: nat): Config {
    Run(0, p, NoCaptures(e.captures), [], [])
  }

  function Answer(found: Option<Captures>): Config {
    match found
    case Some(caps) => Done(true, caps)
    case None => Done(false, [])
  }

  /** The compiled program, run from any aligned position, halts with the reference answer. */
  lemma ExecCorrect(e: Env, r: Pattern, sticky: bool, p: nat)
    requires Compiled(e, r, sticky) && Aligned(e.subject.text, p)
    ensures Reaches(e, Start(e, p), Answer(Find(e.subject, r, sticky, p)))
  {
    hide Compiled, Yields, Placed, Reaches, Find, Candidates, CodeOf, Size, Len;
    var xs := Candidates(e.subject, r, sticky, p);
    var end := SearchLen(sticky) + Len(Group(r), false, 0);
    ProgramLayout(e, r, sticky);
    SearchYields(e, r, sticky, p, []);
    FindIsFirst(e.subject, r, sticky, p);
    LookBody(e, Start(e, p), end, [], [], xs);
    var last := if xs == [] then Unwind([]) else Accept(xs[0].caps, []);
    ReachesSelf(e, Step(e, last));
    ReachesStep(e, last, Step(e, last));
    ReachesTrans(e, Start(e, p), last, Step(e, last));
  }

  lemma {:induction false} StaysDone(e: Env, c: Config, n: nat)
    requires c.Done? || c.Stuck?
    ensures Steps(e, c, n) == c
    decreases n
  {
    if n != 0 {
      StaysDone(e, c, n - 1);
    }
  }
}

/** The instructions for single characters, assertions and back references deliver what the
    reference matcher lists. */
module RegexAtoms {
  import opened CharSet
  import opened RegexText
  import opened RegexCode
  import opened RegexPattern
  import opened RegexCodegen
  import opened RegexVM
  import opened RegexSim

  /** Code units have 16 bits. */
  ghost predicate ValidText(t: Text) {
    forall k :: 0 <= k < |t.units| ==> t.units[k] < 0x1_0000
  }

  lemma CharBound(t: Text, p: nat)
    requires ValidText(t) && p < |t.units|
    ensures CharAt(t, p) < UINT32_MAX
  {
  }

  lemma EmitRangeAccepts(points: seq<nat>, c: nat)
    requires Canonical(points) && c < UINT32_MAX
    ensures IsCharOp(EmitRange(points)) && (OpAccepts(EmitRange(points), c) <==> Member(points, c))
  {
    if |points| >= 2 {
      if Fits16(points) {
        Range16Correct(points, c);
      } else {
        Range32Correct(points, c);
      }
    }
  }

  /** The instruction emitted for a single-character pattern accepts exactly its characters. */
  lemma EmitOneAccepts(s: OneChar, c: nat)
    requires WellFormed(One(s)) && c < UINT32_MAX
    ensures IsCharOp(EmitOne(s)) && (OpAccepts(EmitOne(s), c) <==> OneHas(s, c))
  {
    if s.Class? {
      EmitRangeAccepts(s.points, c);
    }
  }

  lemma EmitOneIsCharOp(s: OneChar)
    ensures IsCharOp(EmitOne(s))
  {
  }

  /** An instruction that fails delivers nothing. */
  lemma YieldsNone(e: Env, c: Config, end: int, stack: seq<nat>, base: seq<Frame>)
    requires Step(e, c) == Unwind(base)
    ensures Yields(e, c, end, stack, base, [])
  {
    ReachesSelf(e, Unwind(base));
    ReachesStep(e, c, Unwind(base));
  }

  /** An instruction that goes straight to the end delivers one state. */
  lemma YieldsNext(e: Env, c: Config, end: int, stack: seq<nat>, base: seq<Frame>, st: State)
    requires Step(e, c) == Run(end, st.pos, st.caps, stack, base)
    ensures Yields(e, c, end, stack, base, [st])
  {
    YieldsOne(e, end, stack, base, st);
    YieldsStep(e, c, end, stack, base, [st]);
  }

  lemma CharStep(e: Env, s: OneChar, pc: int, st: State, stack: seq<nat>, base: seq<Frame>)
    requires At(e.prog, pc) == Some(EmitOne(s)) && WellFormed(One(s)) && ValidText(e.subject.text)
    ensures var t := e.subject.text;
            Step(e, Run(pc, st.pos, st.caps, stack, base)) ==
            if st.pos < |t.units| && OneHas(s, CharAt(t, st.pos))
            then Run(pc + InstrSize(EmitOne(s)), Next(t, st.pos), st.caps, stack, base)
            else Unwind(base)
  {
    EmitOneIsCharOp(s);
    if st.pos < |e.subject.text.units| {
      CharBound(e.subject.text, st.pos);
      EmitOneAccepts(s, CharAt(e.subject.text, st.pos));
    }
  }

  lemma OneForward(e: Env, s: OneChar, pc: int, st: State, stack: seq<nat>, base: seq<Frame>)
    requires At(e.prog, pc) == Some(EmitOne(s)) && WellFormed(One(s)) && ValidText(e.subject.text)
    ensures Yields(e, Run(pc, st.pos, st.caps, stack, base), pc + InstrSize(EmitOne(s)), stack, base,
                   OneMatches(e.subject, s, false, st))
  {
    var c := Run(pc, st.pos, st.caps, stack, base);
    var end := pc + InstrSize(EmitOne(s));
    CharStep(e, s, pc, st, stack, base);
    if OneMatches(e.subject, s, false, st) == [] {
      YieldsNone(e, c, end, stack, base);
    } else {
      YieldsNext(e, c, end, stack, base, st.(pos := Next(e.subject.text, st.pos)));
    }
  }

  /** prev; char; prev */
  lemma OneBackward(e: Env, s: OneChar, pc: int, st: State, stack: seq<nat>, base: seq<Frame>)
    requires At(e.prog, pc) == Some(StepBack) && At(e.prog, pc + 1) == Some(EmitOne(s))
    requires At(e.prog, pc + 1 + InstrSize(EmitOne(s))) == Some(StepBack)
    requires WellFormed(One(s)) && ValidText(e.subject.text) && Aligned(e.subject.text, st.pos)
    ensures Yields(e, Run(pc, st.pos, st.caps, stack, base), pc + 2 + InstrSize(EmitOne(s)), stack, base,
                   OneMatches(e.subject, s, true, st))
  {
    hide Yields, EmitOne, WellFormed, OneHas, ValidText;
    var t := e.subject.text;
    var c := Run(pc, st.pos, st.caps, stack, base);
    var end := pc + 2 + InstrSize(EmitOne(s));
    if st.pos == 0 {
      YieldsNone(e, c, end, stack, base);
    } else {
      PrevAligned(t, st.pos);
      var before := st.(pos := Prev(t, st.pos));
      var c1 := Run(pc + 1, before.pos, st.caps, stack, base);
      CharStep(e, s, pc + 1, before, stack, base);
      if OneHas(s, CharAt(t, before.pos)) {
        var c2 := Run(pc + 1 + InstrSize(EmitOne(s)), st.pos, st.caps, stack, base);
        YieldsNext(e, c2, end, stack, base, before);
        YieldsStep(e, c1, end, stack, base, [before]);
        YieldsStep(e, c, end, stack, base, [before]);
      } else {
        YieldsNone(e, c1, end, stack, base);
        YieldsStep(e, c, end, stack, base, []);
      }
    }
  }

  lemma AssertYields(e: Env, a: Assertion, pc: int, st: State, stack: seq<nat>, base: seq<Frame>)
    requires At(e.prog, pc) == Some(EmitAssert(a))
    ensures Yields(e, Run(pc, st.pos, st.caps, stack, base), pc + 1, stack, base,
                   if Holds(e.subject, a, st.pos) then [st] else [])
  {
    var c := Run(pc, st.pos, st.caps, stack, base);
    assert IsAssertOp(EmitAssert(a)) && InstrSize(EmitAssert(a)) == 1;
    if Holds(e.subject, a, st.pos) {
      YieldsNext(e, c, pc + 1, stack, base, st);
    } else {
      YieldsNone(e, c, pc + 1, stack, base);
    }
  }

  lemma RefYields(e: Env, k: nat, back: bool, pc: int, st: State, stack: seq<nat>, base: seq<Frame>)
    requires At(e.prog, pc) == Some(if back then BackwardBackReference(k) else BackReference(k))
    requires |st.caps| == 2 * e.captures
    ensures Yields(e, Run(pc, st.pos, st.caps, stack, base), pc + 2, stack, base,
                   Matches(e.subject, BackRef(k), back, 0, st))
  {
    var c := Run(pc, st.pos, st.caps, stack, base);
    match RefEnd(e.subject.text, st.caps, k, back, st.pos)
    case Some(p) => YieldsNext(e, c, pc + 2, stack, base, st.(pos := p));
    case None => YieldsNone(e, c, pc + 2, stack, base);
  }
}

/** Every compiled program passes the static check of its operand stack, whether or not it halts. */
module RegexChecked {
  import opened RegexText
  import opened RegexCode
  import opened RegexPattern
  import opened RegexCodegen
  import opened RegexLayout
  import opened RegexVM
  import opened RegexGreedy
  import opened RegexTheorem
  import opened RegexDepth

  // ---- code in its place

  /** The code lies at pc, the scan has the shape s there, something follows it, and the stack has room for it. */
  ghost predicate Here(e: Env, pc: nat, code: Code, s: Shape) {
    CodeAt(e.prog, pc, code) && ShapeAt(e.prog, pc, []) == Some(s) && pc + Size(code) < Size(e.prog)
      && |s| + Peak(code) <= e.stackSize
  }

  /** The code passes the check wherever it is placed. */
  ghost predicate GoodCode(e: Env, code: Code) {
    forall pc: nat, s: Shape :: Here(e, pc, code, s) ==> Checked(e, pc, code, s)
  }

  /** The code leaves every stack as it found it. */
  ghost predicate Neutral(code: Code) {
    Net(code) == 0 && forall s: Shape :: After(code, s) == s
  }

  /** Two parts, the first of which leaves a stack of depth |s| + Net(a). */
  lemma HereConcat(e: Env, pc: nat, a: Code, b: Code, s: Shape)
    requires Here(e, pc, a + b, s) && |After(a, s)| == |s| + Net(a)
    ensures Here(e, pc, a, s) && Here(e, pc + Size(a), b, After(a, s))
  {
    hide CodeAt, ShapeAt, Peak, Net, Size, After;
    CodeAtConcat(e.prog, pc, a, b);
    SizeConcat(a, b);
    NetPeakConcat(a, b);
    ShapeAlong(e.prog, pc, a, s);
  }

  lemma HereSingle(e: Env, pc: nat, i: Instr, b: Code, s: Shape)
    requires Here(e, pc, [i] + b, s) && |Effect(i, s)| == |s| + Delta(i)
    ensures Here(e, pc, [i], s) && Here(e, pc + InstrSize(i), b, Effect(i, s)) && At(e.prog, pc) == Some(i)
    ensures pc + InstrSize(i) + Size(b) < Size(e.prog)
  {
    hide CodeAt, ShapeAt, Peak, Net, Size;
    Single(e.prog, pc, i);
    AfterSingle(i, s);
    HereConcat(e, pc, [i], b, s);
  }

  lemma AfterSingle(i: Instr, s: Shape)
    ensures After([i], s) == Effect(i, s)
  {
    assert [i][1..] == [];
  }

  lemma CheckedSingle(e: Env, pc: nat, i: Instr, s: Shape)
    requires InstrOk(e, i, pc + InstrSize(i), s)
    ensures Checked(e, pc, [i], s)
  {
    hide InstrOk;
    assert [i][1..] == [];
  }

  /** One instruction in front of good or checked code. */
  lemma CheckedCons(e: Env, pc: nat, i: Instr, b: Code, s: Shape)
    requires InstrOk(e, i, pc + InstrSize(i), s) && Checked(e, pc + InstrSize(i), b, Effect(i, s))
    ensures Checked(e, pc, [i] + b, s) && After([i] + b, s) == After(b, Effect(i, s))
  {
    hide InstrOk, Checked;
    CheckedSingle(e, pc, i, s);
    CheckedConcat(e, pc, [i], b, s);
    AfterConcat([i], b, s);
    AfterSingle(i, s);
    Single([], 0, i);
  }

  /** The end of code that is in its place is a place a jump may go to. */
  lemma LeadsEnd(e: Env, pc: nat, code: Code, s: Shape)
    requires Here(e, pc, code, s)
    ensures Leads(e, pc + Size(code), After(code, s)) && Leads(e, pc, s)
  {
    hide CodeAt, ShapeAt, Peak, Size, After;
    ShapeAlong(e.prog, pc, code, s);
    CoversSelf(s);
    CoversSelf(After(code, s));
  }

  lemma GoodHere(e: Env, pc: nat, code: Code, s: Shape)
    requires GoodCode(e, code) && Here(e, pc, code, s)
    ensures Checked(e, pc, code, s)
  {
    hide Here, Checked;
  }

  lemma IsGoodCode(e: Env, code: Code)
    requires forall pc: nat, s: Shape :: Here(e, pc, code, s) ==> Checked(e, pc, code, s)
    ensures GoodCode(e, code)
  {
    hide Here, Checked;
  }

  lemma NeutralIs(code: Code, s: Shape)
    requires Neutral(code)
    ensures After(code, s) == s && Net(code) == 0
  {
    hide After, Net;
  }

  // ---- neutral code

  lemma NeutralConcat(a: Code, b: Code)
    requires Neutral(a) && Neutral(b)
    ensures Neutral(a + b)
  {
    hide After, Net, Peak;
    NetPeakConcat(a, b);
    forall s: Shape
      ensures After(a + b, s) == s
    {
      AfterConcat(a, b, s);
    }
  }

  lemma NeutralSingle(i: Instr)
    requires Delta(i) == 0 && !i.Loop?
    ensures Neutral([i])
  {
    hide After, Net, Peak;
    Single([], 0, i);
    forall s: Shape
      ensures After([i], s) == s
    {
      AfterSingle(i, s);
    }
  }

  lemma NeutralWrapped(i: Instr, ca: Code, j: Instr)
    requires Delta(i) == 0 && !i.Loop? && Delta(j) == 0 && !j.Loop? && Neutral(ca)
    ensures Neutral([i] + ca + [j])
  {
    hide Neutral;
    NeutralSingle(i);
    NeutralSingle(j);
    NeutralConcat([i], ca);
    NeutralConcat([i] + ca, [j]);
  }

  lemma NeutralEmpty()
    ensures Neutral([])
  {
  }

  /** push; a; b..., with pushes and pops that cancel: checked on the shape after each part. */
  lemma NeutralStar(ca: Code, greedy: bool, check: bool)
    requires Neutral(ca)
    ensures Neutral(StarCode(ca, greedy, check))
  {
    hide After, Net, Peak, StarCode;
    StarStack(ca, greedy, check);
    StarParts(ca, greedy, check);
    var head, last := StarHead(Size(ca), greedy, check), StarLast(Size(ca), check);
    forall s: Shape
      ensures After(StarCode(ca, greedy, check), s) == s
    {
      AfterConcat(head + ca, [last], s);
      AfterConcat(head, ca, s);
      if check {
        AfterDouble(head[0], PushCharPos, s);
        assert ButTop(s + [false]) == s;
      } else {
        AfterSingle(head[0], s);
      }
      AfterSingle(last, After(head, s));
    }
  }

  lemma AfterDouble(i: Instr, j: Instr, s: Shape)
    ensures After([i, j], s) == Effect(j, Effect(i, s))
  {
    assert [i, j][1..] == [j];
    AfterSingle(j, Effect(i, s));
  }

  lemma NeutralUpTo(ca: Code, n: nat, greedy: bool)
    requires Neutral(ca)
    ensures Neutral(UpToCode(ca, n, greedy))
  {
    hide After, Net, Peak;
    UpToLayout([], 0, ca, n, greedy);
    var len: int := Size(ca);
    var head, tail := [PushI32(n), SplitOp(greedy, len + 5)], [Loop(-(len + 10)), Drop];
    forall s: Shape
      ensures After(UpToCode(ca, n, greedy), s) == s
    {
      AfterConcat(head + ca, tail, s);
      AfterConcat(head, ca, s);
      AfterDouble(PushI32(n), SplitOp(greedy, len + 5), s);
      AfterDouble(Loop(-(len + 10)), Drop, s + [n > 0]);
      assert ButTop(s + [n > 0]) == s && ButTop(s + [false]) == s;
    }
  }

  lemma NeutralExactly(ca: Code, n: nat)
    requires Neutral(ca)
    ensures Neutral(ExactlyCode(ca, n))
  {
    hide After, Net, Peak;
    if n != 1 {
      ExactlyLayout([], 0, ca, n);
      var len: int := Size(ca);
      var tail := [Loop(-(len + 5)), Drop];
      forall s: Shape
        ensures After(ExactlyCode(ca, n), s) == s
      {
        AfterConcat([PushI32(n)] + ca, tail, s);
        AfterConcat([PushI32(n)], ca, s);
        AfterSingle(PushI32(n), s);
        AfterDouble(Loop(-(len + 5)), Drop, s + [n > 0]);
        assert ButTop(s + [n > 0]) == s && ButTop(s + [false]) == s;
      }
    }
  }

  lemma NeutralQuant(ca: Code, cc: nat, groups: nat, min: nat, max: nat, greedy: bool)
    requires Neutral(ca)
    ensures Neutral(QuantCode(ca, cc, groups, min, max, greedy))
  {
    hide Neutral, StarCode, UpToCode;
    var check := NeedsCheck(ca, greedy);
    NeutralEmpty();
    if IsSimple(ca, max, greedy) {
      NeutralWrapped(SimpleGreedyQuant(Size(ca) + 1, min, max, SimpleCount(ca)), ca, Match);
    } else if min == 0 {
      if groups > 0 {
        NeutralSingle(SaveReset(cc, cc + groups - 1));
      }
      if max == 1 {
        NeutralSingle(SplitOp(greedy, Size(ca)));
        NeutralConcat([SplitOp(greedy, Size(ca))], ca);
      } else if max >= INF {
        NeutralStar(ca, greedy, check);
      } else {
        NeutralUpTo(ca, max, greedy);
      }
      NeutralConcat(ResetCode(cc, groups), OptionalCode(ca, max, greedy, check));
    } else if min == 1 && max >= INF && !check {
      NeutralSingle(SplitOp(!greedy, -(Size(ca) + 5)));
      NeutralConcat(ca, [SplitOp(!greedy, -(Size(ca) + 5))]);
    } else {
      NeutralExactly(ca, min);
      if max >= INF {
        NeutralStar(ca, greedy, check);
      } else if max > min {
        NeutralUpTo(ca, max - min, greedy);
      }
      NeutralConcat(ExactlyCode(ca, min), MoreCode(ca, min, max, greedy, check));
    }
  }

  lemma NeutralAlt(ca: Code, cb: Code)
    requires Neutral(ca) && Neutral(cb)
    ensures Neutral([SplitNextFirst(Size(ca) + 5)] + ca + [Goto(Size(cb))] + cb)
  {
    hide Neutral;
    NeutralWrapped(SplitNextFirst(Size(ca) + 5), ca, Goto(Size(cb)));
    NeutralConcat([SplitNextFirst(Size(ca) + 5)] + ca + [Goto(Size(cb))], cb);
  }

  lemma NeutralOne(s: OneChar, back: bool, cc: nat)
    ensures Neutral(CodeOf(One(s), back, cc))
  {
    hide Neutral;
    assert Delta(EmitOne(s)) == 0 && !EmitOne(s).Loop?;
    NeutralSingle(EmitOne(s));
    if back {
      assert [StepBack, EmitOne(s), StepBack] == [StepBack] + [EmitOne(s)] + [StepBack];
      NeutralWrapped(StepBack, [EmitOne(s)], StepBack);
    }
  }

  /** Emitted code leaves the operand stack, and what is known of its counters, as it found them. */
  lemma {:induction false} PatternNeutral(r: Pattern, back: bool, cc: nat)
    ensures Neutral(CodeOf(r, back, cc))
    decreases r, 1
  {
    hide Neutral, QuantCode;
    match r
    case Empty => NeutralEmpty();
    case One(s) => NeutralOne(s, back, cc);
    case Assert(a) => NeutralSingle(EmitAssert(a));
    case BackRef(k) => NeutralSingle(if back then BackwardBackReference(k) else BackReference(k));
    case Cat(_, _) => PairNeutral(r, back, cc);
    case Alt(_, _) => PairNeutral(r, back, cc);
    case Group(a) =>
      PatternNeutral(a, back, cc + 1);
      NeutralWrapped(SaveOp(back, cc), CodeOf(a, back, cc + 1), SaveOp(!back, cc));
    case Look(behind, negative, a) =>
      PatternNeutral(a, behind, cc);
      var ca := CodeOf(a, behind, cc);
      NeutralWrapped(if negative then NegativeLookahead(Size(ca) + 1) else Lookahead(Size(ca) + 1), ca, Match);
    case Quant(a, min, max, greedy) =>
      PatternNeutral(a, back, cc);
      NeutralQuant(CodeOf(a, back, cc), cc, Groups(a), min, max, greedy);
  }

  lemma {:induction false} PairNeutral(r: Pattern, back: bool, cc: nat)
    requires r.Cat? || r.Alt?
    ensures Neutral(CodeOf(r, back, cc))
    decreases r, 0
  {
    hide Neutral, CodeOf, Groups;
    PairUnfolds(r, back, cc);
    PatternNeutral(r.left, back, cc);
    PatternNeutral(r.right, back, cc + Groups(r.left));
    var ca, cb := CodeOf(r.left, back, cc), CodeOf(r.right, back, cc + Groups(r.left));
    if r.Alt? {
      NeutralAlt(ca, cb);
    } else {
      NeutralConcat(if back then cb else ca, if back then ca else cb);
    }
  }

  // ---- good code

  lemma GoodConcat(e: Env, a: Code, b: Code)
    requires GoodCode(e, a) && GoodCode(e, b) && Neutral(a)
    ensures GoodCode(e, a + b)
  {
    hide Here, Checked, Neutral, GoodCode;
    forall pc: nat, s: Shape | Here(e, pc, a + b, s)
      ensures Checked(e, pc, a + b, s)
    {
      NeutralIs(a, s);
      HereConcat(e, pc, a, b, s);
      GoodHere(e, pc, a, s);
      GoodHere(e, pc + Size(a), b, s);
      CheckedConcat(e, pc, a, b, s);
    }
    IsGoodCode(e, a + b);
  }

  lemma GoodEmpty(e: Env)
    ensures GoodCode(e, [])
  {
  }

  /** Instructions without jumps or operands on the stack. */
  predicate Simple(e: Env, i: Instr) {
    || IsCharOp(i) || IsAssertOp(i) || i.BackReference? || i.BackwardBackReference? || i.StepBack?
    || (i.SaveStart? && i.i < e.captures) || (i.SaveEnd? && i.i < e.captures) || (i.SaveReset? && i.last < e.captures)
  }

  lemma GoodSimple(e: Env, i: Instr)
    requires Simple(e, i)
    ensures GoodCode(e, [i])
  {
    hide Checked, CodeAt, ShapeAt, Leads;
    forall pc: nat, s: Shape | Here(e, pc, [i], s)
      ensures Checked(e, pc, [i], s)
    {
      Single(e.prog, pc, i);
      CheckedSingle(e, pc, i, s);
    }
  }

  lemma GoodOne(e: Env, s: OneChar, back: bool, cc: nat)
    ensures GoodCode(e, CodeOf(One(s), back, cc))
  {
    hide GoodCode, Neutral;
    GoodSimple(e, EmitOne(s));
    if back {
      GoodSimple(e, StepBack);
      NeutralSingle(StepBack);
      NeutralSingle(EmitOne(s));
      GoodConcat(e, [StepBack], [EmitOne(s)]);
      NeutralConcat([StepBack], [EmitOne(s)]);
      GoodConcat(e, [StepBack] + [EmitOne(s)], [StepBack]);
      assert [StepBack, EmitOne(s), StepBack] == [StepBack] + [EmitOne(s)] + [StepBack];
    }
  }

  /** A choice in front of code, whose jump skips the code. */
  lemma GoodForward(e: Env, next: bool, ca: Code)
    requires GoodCode(e, ca) && Neutral(ca)
    ensures GoodCode(e, [SplitOp(next, Size(ca))] + ca)
  {
    hide Here, Checked, Neutral, GoodCode, Leads;
    var i := SplitOp(next, Size(ca));
    forall pc: nat, s: Shape | Here(e, pc, [i] + ca, s)
      ensures Checked(e, pc, [i] + ca, s)
    {
      HereSingle(e, pc, i, ca, s);
      NeutralIs(ca, s);
      LeadsEnd(e, pc + 5, ca, s);
      GoodHere(e, pc + 5, ca, s);
      CheckedCons(e, pc, i, ca, s);
    }
    IsGoodCode(e, [i] + ca);
  }

  /** A choice behind code, whose jump goes back to its start. */
  lemma GoodBackward(e: Env, next: bool, ca: Code)
    requires GoodCode(e, ca) && Neutral(ca)
    ensures GoodCode(e, ca + [SplitOp(next, -(Size(ca) + 5))])
  {
    hide Here, Checked, Neutral, GoodCode, Leads;
    var i := SplitOp(next, -(Size(ca) + 5));
    forall pc: nat, s: Shape | Here(e, pc, ca + [i], s)
      ensures Checked(e, pc, ca + [i], s)
    {
      NeutralIs(ca, s);
      HereConcat(e, pc, ca, [i], s);
      LeadsEnd(e, pc, ca, s);
      EndInside(e, pc + Size(ca), i, s);
      GoodHere(e, pc, ca, s);
      CheckedSingle(e, pc + Size(ca), i, s);
      CheckedConcat(e, pc, ca, [i], s);
    }
    IsGoodCode(e, ca + [i]);
  }

  lemma EndInside(e: Env, pc: nat, i: Instr, s: Shape)
    requires Here(e, pc, [i], s)
    ensures pc + InstrSize(i) < Size(e.prog) && At(e.prog, pc) == Some(i) && |s| + Max(0, Delta(i)) <= e.stackSize
  {
    Single(e.prog, pc, i);
  }

  lemma GoodAlt(e: Env, ca: Code, cb: Code)
    requires GoodCode(e, ca) && Neutral(ca) && GoodCode(e, cb) && Neutral(cb)
    ensures GoodCode(e, [SplitNextFirst(Size(ca) + 5)] + ca + [Goto(Size(cb))] + cb)
  {
    hide Here, Checked, Neutral, GoodCode, Leads, Size, After, InnerRuns, CodeAt, ShapeAt, Peak, Net, At;
    var i, j := SplitNextFirst(Size(ca) + 5), Goto(Size(cb));
    var code, rest := [i] + ca + [j] + cb, ca + ([j] + cb);
    assert code == [i] + rest;
    forall pc: nat, s: Shape | Here(e, pc, code, s)
      ensures Checked(e, pc, code, s)
    {
      NeutralIs(ca, s);
      NeutralIs(cb, s);
      HereSingle(e, pc, i, rest, s);
      HereConcat(e, pc + 5, ca, [j] + cb, s);
      HereSingle(e, pc + 5 + Size(ca), j, cb, s);
      LeadsEnd(e, pc + 10 + Size(ca), cb, s);
      GoodHere(e, pc + 5, ca, s);
      GoodHere(e, pc + 10 + Size(ca), cb, s);
      CheckedCons(e, pc + 5 + Size(ca), j, cb, s);
      CheckedConcat(e, pc + 5, ca, [j] + cb, s);
      SizeConcat(ca, [j] + cb);
      SizeOf(j, cb);
      CheckedCons(e, pc, i, rest, s);
    }
    IsGoodCode(e, code);
  }

  lemma SizeOf(i: Instr, b: Code)
    ensures Size([i] + b) == InstrSize(i) + Size(b)
  {
    SizeConcat([i], b);
    Single([], 0, i);
  }

  lemma GoodLook(e: Env, negative: bool, ca: Code)
    requires GoodCode(e, ca) && Neutral(ca)
    ensures GoodCode(e, [if negative then NegativeLookahead(Size(ca) + 1) else Lookahead(Size(ca) + 1)] + ca + [Match])
  {
    hide Here, Checked, Neutral, GoodCode, Leads, Size, After, InnerRuns, CodeAt, ShapeAt, Peak, Net, At;
    var i := if negative then NegativeLookahead(Size(ca) + 1) else Lookahead(Size(ca) + 1);
    var code, rest := [i] + ca + [Match], ca + [Match];
    assert code == [i] + rest;
    forall pc: nat, s: Shape | Here(e, pc, code, s)
      ensures Checked(e, pc, code, s)
    {
      NeutralIs(ca, s);
      HereSingle(e, pc, i, rest, s);
      HereConcat(e, pc + 5, ca, [Match], s);
      LeadsEnd(e, pc + 5 + Size(ca), [Match], s);
      AfterSingle(Match, s);
      SizeConcat(ca, [Match]);
      Single([], 0, Match);
      GoodHere(e, pc + 5, ca, s);
      CheckedSingle(e, pc + 5 + Size(ca), Match, s);
      CheckedConcat(e, pc + 5, ca, [Match], s);
      CheckedCons(e, pc, i, rest, s);
    }
    IsGoodCode(e, code);
  }

  lemma GoodGroup(e: Env, first: Instr, ca: Code, last: Instr)
    requires GoodCode(e, ca) && Neutral(ca) && Simple(e, first) && Simple(e, last)
    ensures GoodCode(e, [first] + ca + [last])
  {
    hide Neutral, GoodCode;
    GoodSimple(e, first);
    GoodSimple(e, last);
    NeutralSingle(first);
    GoodConcat(e, [first], ca);
    NeutralConcat([first], ca);
    GoodConcat(e, [first] + ca, [last]);
  }

  // ---- loops

  lemma GoodStar(e: Env, ca: Code, greedy: bool, check: bool)
    requires GoodCode(e, ca) && Neutral(ca)
    ensures GoodCode(e, StarCode(ca, greedy, check))
  {
    hide Here, Checked, Neutral, GoodCode, Leads, StarCode;
    var code := StarCode(ca, greedy, check);
    forall pc: nat, s: Shape | Here(e, pc, code, s)
      ensures Checked(e, pc, code, s)
    {
      if check {
        CheckedStarHere(e, pc, ca, greedy, s);
      } else {
        PlainStarHere(e, pc, ca, greedy, s);
      }
    }
    IsGoodCode(e, code);
  }

  lemma PlainStarHere(e: Env, pc: nat, ca: Code, greedy: bool, s: Shape)
    requires GoodCode(e, ca) && Neutral(ca) && Here(e, pc, StarCode(ca, greedy, false), s)
    ensures Checked(e, pc, StarCode(ca, greedy, false), s)
  {
    hide Here, Checked, Neutral, GoodCode, Leads, Size, After, InnerRuns, CodeAt, ShapeAt, Peak, Net, At;
    var len: int := Size(ca);
    var i, j := SplitOp(greedy, len + 5), Goto(-(len + 10));
    var code, rest := StarCode(ca, greedy, false), ca + [j];
    assert code == [i] + rest;
    NeutralIs(ca, s);
    LeadsEnd(e, pc, code, s);
    HereSingle(e, pc, i, rest, s);
    HereConcat(e, pc + 5, ca, [j], s);
    LeadsEnd(e, pc + 5 + Size(ca), [j], s);
    AfterSingle(j, s);
    Single([], 0, j);
    EndInside(e, pc + 5 + Size(ca), j, s);
    GoodHere(e, pc + 5, ca, s);
    CheckedSingle(e, pc + 5 + Size(ca), j, s);
    CheckedConcat(e, pc + 5, ca, [j], s);
    SizeConcat(ca, [j]);
    CheckedCons(e, pc, i, rest, s);
  }

  lemma CheckedStarHere(e: Env, pc: nat, ca: Code, greedy: bool, s: Shape)
    requires GoodCode(e, ca) && Neutral(ca) && Here(e, pc, StarCode(ca, greedy, true), s)
    ensures Checked(e, pc, StarCode(ca, greedy, true), s)
  {
    hide Here, Checked, Neutral, GoodCode, Leads, Size, After, InnerRuns, CodeAt, ShapeAt, Peak, Net, At;
    var len: int := Size(ca);
    var i, j := SplitOp(greedy, len + 6), BneCharPos(-(len + 11));
    var code, rest := StarCode(ca, greedy, true), [PushCharPos] + (ca + [j]);
    assert code == [i] + rest;
    LeadsEnd(e, pc, code, s);
    HereSingle(e, pc, i, rest, s);
    StarBody(e, pc + 5, ca, j, s);
    CheckedCons(e, pc, i, rest, s);
  }

  /** push_char_pos; atom; bne_char_pos, for a jump that agrees. */
  lemma StarBody(e: Env, pc: nat, ca: Code, j: Instr, s: Shape)
    requires GoodCode(e, ca) && Neutral(ca) && Here(e, pc, [PushCharPos] + (ca + [j]), s)
    requires j.BneCharPos? && Leads(e, pc + 6 + Size(ca) + j.off, s)
    ensures Checked(e, pc, [PushCharPos] + (ca + [j]), s) && Leads(e, pc + 6 + Size(ca), s)
  {
    hide Here, Checked, Neutral, GoodCode, Leads, Size, After, InnerRuns, CodeAt, ShapeAt, Peak, Net, At;
    var t, tail := s + [false], ca + [j];
    assert ButTop(t) == s;
    NeutralIs(ca, t);
    HereSingle(e, pc, PushCharPos, tail, s);
    EndInside(e, pc, PushCharPos, s);
    HereConcat(e, pc + 1, ca, [j], t);
    LeadsEnd(e, pc + 1 + Size(ca), [j], t);
    AfterSingle(j, t);
    Single([], 0, j);
    EndInside(e, pc + 1 + Size(ca), j, t);
    GoodHere(e, pc + 1, ca, t);
    CheckedSingle(e, pc + 1 + Size(ca), j, t);
    CheckedConcat(e, pc + 1, ca, [j], t);
    CheckedCons(e, pc, PushCharPos, tail, s);
  }

  /** The end of a counted loop: the counter is not known to be positive behind it. */
  lemma LoopTail(e: Env, pc: nat, off: int, s: Shape)
    requires Here(e, pc, [Loop(off), Drop], s + [true]) && Leads(e, pc + 5 + off, s + [true])
    ensures Checked(e, pc, [Loop(off), Drop], s + [true]) && Leads(e, pc + 5, s + [true])
  {
    hide Checked, CodeAt, ShapeAt;
    var l, t := Loop(off), s + [true];
    assert [l, Drop] == [l] + [Drop];
    assert ButTop(t) + [false] == s + [false];
    HereSingle(e, pc, l, [Drop], t);
    EndInside(e, pc + 5, Drop, s + [false]);
    LeadsEnd(e, pc + 5, [Drop], s + [false]);
    WeakerLeads(e, pc + 5, s);
    CheckedSingle(e, pc + 5, Drop, s + [false]);
    CheckedCons(e, pc, l, [Drop], t);
  }

  lemma WeakerLeads(e: Env, pc: int, s: Shape)
    requires ShapeAt(e.prog, pc, []) == Some(s + [false]) && 0 <= pc < Size(e.prog)
    ensures Leads(e, pc, s + [true])
  {
  }

  lemma GoodUpTo(e: Env, ca: Code, n: nat, greedy: bool)
    requires GoodCode(e, ca) && Neutral(ca) && n > 0
    ensures GoodCode(e, UpToCode(ca, n, greedy))
  {
    hide Here, Checked, Neutral, GoodCode, Leads, Size, After, InnerRuns, CodeAt, ShapeAt, Peak, Net, At;
    var len: int := Size(ca);
    var p, i, tail := PushI32(n), SplitOp(greedy, len + 5), [Loop(-(len + 10)), Drop];
    var code, rest := UpToCode(ca, n, greedy), [i] + (ca + tail);
    assert code == [p] + rest;
    forall pc: nat, s: Shape | Here(e, pc, code, s)
      ensures Checked(e, pc, code, s)
    {
      var t := s + [true];
      NeutralIs(ca, t);
      HereSingle(e, pc, p, rest, s);
      EndInside(e, pc, p, s);
      HereSingle(e, pc + 5, i, ca + tail, t);
      LeadsEnd(e, pc + 5, rest, t);
      HereConcat(e, pc + 10, ca, tail, t);
      GoodHere(e, pc + 10, ca, t);
      LoopTail(e, pc + 10 + Size(ca), -(len + 10), s);
      CheckedConcat(e, pc + 10, ca, tail, t);
      SizeConcat(ca, tail);
      CheckedCons(e, pc + 5, i, ca + tail, t);
      SizeOf(i, ca + tail);
      CheckedCons(e, pc, p, rest, s);
    }
    IsGoodCode(e, code);
  }

  lemma GoodExactly(e: Env, ca: Code, n: nat)
    requires GoodCode(e, ca) && Neutral(ca) && n > 0
    ensures GoodCode(e, ExactlyCode(ca, n))
  {
    hide Here, Checked, Neutral, GoodCode, Leads;
    if n != 1 {
      var len: int := Size(ca);
      var p, tail := PushI32(n), [Loop(-(len + 5)), Drop];
      var code, rest := ExactlyCode(ca, n), ca + tail;
      assert code == [p] + rest;
      forall pc: nat, s: Shape | Here(e, pc, code, s)
        ensures Checked(e, pc, code, s)
      {
        var t := s + [true];
        NeutralIs(ca, t);
        HereSingle(e, pc, p, rest, s);
        EndInside(e, pc, p, s);
        LeadsEnd(e, pc + 5, rest, t);
        HereConcat(e, pc + 5, ca, tail, t);
        GoodHere(e, pc + 5, ca, t);
        LoopTail(e, pc + 5 + Size(ca), -(len + 5), s);
        CheckedConcat(e, pc + 5, ca, tail, t);
        CheckedCons(e, pc, p, rest, s);
      }
      IsGoodCode(e, code);
    }
  }

  // ---- simple quantifiers

  lemma {:induction false} LinearProgress(e: Subject, code: Code, pos: nat)
    requires SimpleCount(code) >= 0
    ensures !RunLinear(e, code, pos).Wrong?
    ensures RunLinear(e, code, pos).Ends? ==> RunLinear(e, code, pos).pos >= pos
    ensures RunLinear(e, code, pos).Ends? && SimpleCount(code) > 0 ==>
      pos < |e.text.units| && RunLinear(e, code, pos).pos > pos
    decreases |code|
  {
    if code != [] {
      LinearProgress(e, code[1..], if IsCharOp(code[0]) then Next(e.text, pos) else pos);
    }
  }

  /** The counting loop comes to an end on any text, from any position. */
  lemma {:induction false} CountEnds(e: Env, pc: nat, ca: Code, max: nat, q: nat, pos: nat)
    requires CodeAt(e.prog, pc, ca) && At(e.prog, pc + Size(ca)) == Some(Match) && SimpleCount(ca) > 0
    ensures CountInner(e, pc, max, q, pos).Some?
    decreases Left(e.subject.text, false, pos)
  {
    hide CodeAt, At, Size, RunInner, RunLinear;
    InnerIsLinear(e, pc, ca, pos);
    LinearProgress(e.subject, ca, pos);
    var r := RunInner(e, pc, pos);
    if r.Ends? {
      CountEnds(e, pc, ca, max, q + 1, r.pos);
    }
  }

  lemma GoodSimpleQuant(e: Env, ca: Code, min: nat, max: nat)
    requires GoodCode(e, ca) && Neutral(ca) && SimpleCount(ca) > 0
    ensures GoodCode(e, [SimpleGreedyQuant(Size(ca) + 1, min, max, SimpleCount(ca))] + ca + [Match])
  {
    hide Here, Checked, Neutral, GoodCode, Leads, Size, After, CodeAt, ShapeAt, Peak, Net, At, CountInner;
    var i := SimpleGreedyQuant(Size(ca) + 1, min, max, SimpleCount(ca));
    var code, rest := [i] + ca + [Match], ca + [Match];
    assert code == [i] + rest;
    forall pc: nat, s: Shape | Here(e, pc, code, s)
      ensures Checked(e, pc, code, s)
    {
      NeutralIs(ca, s);
      HereSingle(e, pc, i, rest, s);
      HereConcat(e, pc + 17, ca, [Match], s);
      LeadsEnd(e, pc + 17 + Size(ca), [Match], s);
      AfterSingle(Match, s);
      Single([], 0, Match);
      EndInside(e, pc + 17 + Size(ca), Match, s);
      HereCode(e, pc + 17, ca, s);
      InnerRunsHere(e, pc + 17, ca);
      GoodHere(e, pc + 17, ca, s);
      CheckedSingle(e, pc + 17 + Size(ca), Match, s);
      CheckedConcat(e, pc + 17, ca, [Match], s);
      CheckedCons(e, pc, i, rest, s);
    }
    IsGoodCode(e, code);
  }

  lemma HereCode(e: Env, pc: nat, code: Code, s: Shape)
    requires Here(e, pc, code, s)
    ensures CodeAt(e.prog, pc, code)
  {
  }

  lemma InnerRunsHere(e: Env, pc: nat, ca: Code)
    requires CodeAt(e.prog, pc, ca) && At(e.prog, pc + Size(ca)) == Some(Match) && SimpleCount(ca) > 0
    ensures InnerRuns(e, pc)
  {
    hide CodeAt, At, Size, CountInner;
    forall max: nat, q: nat, pos: nat
      ensures CountInner(e, pc, max, q, pos).Some?
    {
      CountEnds(e, pc, ca, max, q, pos);
    }
  }

  lemma GoodQuant(e: Env, ca: Code, cc: nat, groups: nat, min: nat, max: nat, greedy: bool)
    requires GoodCode(e, ca) && Neutral(ca) && cc + groups <= e.captures
    ensures GoodCode(e, QuantCode(ca, cc, groups, min, max, greedy))
  {
    hide Neutral, GoodCode, StarCode, UpToCode;
    var check := NeedsCheck(ca, greedy);
    GoodEmpty(e);
    NeutralEmpty();
    if IsSimple(ca, max, greedy) {
      GoodSimpleQuant(e, ca, min, max);
    } else if min == 0 {
      if groups > 0 {
        GoodSimple(e, SaveReset(cc, cc + groups - 1));
        NeutralSingle(SaveReset(cc, cc + groups - 1));
      }
      if max == 1 {
        GoodForward(e, greedy, ca);
      } else if max >= INF {
        GoodStar(e, ca, greedy, check);
      } else if max > 0 {
        GoodUpTo(e, ca, max, greedy);
      }
      GoodConcat(e, ResetCode(cc, groups), OptionalCode(ca, max, greedy, check));
    } else if min == 1 && max >= INF && !check {
      GoodBackward(e, !greedy, ca);
    } else {
      GoodExactly(e, ca, min);
      NeutralExactly(ca, min);
      if max >= INF {
        GoodStar(e, ca, greedy, check);
      } else if max > min {
        GoodUpTo(e, ca, max - min, greedy);
      }
      GoodConcat(e, ExactlyCode(ca, min), MoreCode(ca, min, max, greedy, check));
    }
  }

  /** The code of every pattern passes the check. */
  lemma {:induction false} PatternGood(e: Env, r: Pattern, back: bool, cc: nat)
    requires cc + Groups(r) <= e.captures
    ensures GoodCode(e, CodeOf(r, back, cc))
    decreases r, 1
  {
    hide GoodCode, Neutral, QuantCode;
    match r
    case Empty => GoodEmpty(e);
    case One(s) => GoodOne(e, s, back, cc);
    case Assert(a) => GoodSimple(e, EmitAssert(a));
    case BackRef(k) => GoodSimple(e, if back then BackwardBackReference(k) else BackReference(k));
    case Cat(_, _) => PairGood(e, r, back, cc);
    case Alt(_, _) => PairGood(e, r, back, cc);
    case Group(a) =>
      PatternGood(e, a, back, cc + 1);
      PatternNeutral(a, back, cc + 1);
      GoodGroup(e, SaveOp(back, cc), CodeOf(a, back, cc + 1), SaveOp(!back, cc));
    case Look(behind, negative, a) =>
      PatternGood(e, a, behind, cc);
      PatternNeutral(a, behind, cc);
      GoodLook(e, negative, CodeOf(a, behind, cc));
    case Quant(a, min, max, greedy) =>
      PatternGood(e, a, back, cc);
      PatternNeutral(a, back, cc);
      GoodQuant(e, CodeOf(a, back, cc), cc, Groups(a), min, max, greedy);
  }

  lemma {:induction false} PairGood(e: Env, r: Pattern, back: bool, cc: nat)
    requires cc + Groups(r) <= e.captures && (r.Cat? || r.Alt?)
    ensures GoodCode(e, CodeOf(r, back, cc))
    decreases r, 0
  {
    hide GoodCode, Neutral, CodeOf, Groups;
    var a, b := r.left, r.right;
    PairUnfolds(r, back, cc);
    PatternGood(e, a, back, cc);
    PatternGood(e, b, back, cc + Groups(a));
    PatternNeutral(a, back, cc);
    PatternNeutral(b, back, cc + Groups(a));
    var ca, cb := CodeOf(a, back, cc), CodeOf(b, back, cc + Groups(a));
    if r.Alt? {
      GoodAlt(e, ca, cb);
    } else {
      GoodConcat(e, if back then cb else ca, if back then ca else cb);
    }
  }

  lemma PairUnfolds(r: Pattern, back: bool, cc: nat)
    requires r.Cat? || r.Alt?
    ensures var ca := CodeOf(r.left, back, cc); var cb := CodeOf(r.right, back, cc + Groups(r.left));
      CodeOf(r, back, cc) == if r.Alt? then [SplitNextFirst(Size(ca) + 5)] + ca + [Goto(Size(cb))] + cb
                             else if back then cb + ca else ca + cb
    ensures Groups(r) == Groups(r.left) + Groups(r.right)
  {
    hide *;
    if r.Alt? {
      AltUnfolds(r.left, r.right, back, cc);
    } else {
      CatUnfolds(r.left, r.right, back, cc);
    }
  }

  // ---- whole programs

  /** A program and header that lre_compile produces for r, whatever r is. */
  ghost predicate Emitted(e: Env, r: Pattern, sticky: bool) {
    e.prog == Program(r, sticky) && e.captures == 1 + Groups(r) && Peak(e.prog) <= e.stackSize
  }

  lemma CompiledIsEmitted(e: Env, r: Pattern, sticky: bool)
    requires Compiled(e, r, sticky)
    ensures Emitted(e, r, sticky)
  {
  }

  lemma GoodSearch(e: Env, sticky: bool, rest: Code)
    requires e.prog == SearchCode(sticky) + rest && Size(rest) > 0
    ensures Checked(e, 0, SearchCode(sticky), []) && After(SearchCode(sticky), []) == []
  {
    hide *;
    if sticky {
      NoSearch();
      CheckedEmpty(e);
    } else {
      GoodLoop(e, rest);
    }
  }

  lemma NoSearch()
    ensures SearchCode(true) == []
  {
  }

  lemma GoodLoop(e: Env, rest: Code)
    requires e.prog == SearchCode(false) + rest && Size(rest) > 0
    ensures Checked(e, 0, SearchCode(false), []) && After(SearchCode(false), []) == []
  {
    hide Leads, CodeAt, ShapeAt, Size, Peak, Net, At, Checked, After, InstrOk;
    SizeConcat(SearchCode(false), rest);
    SearchLayout(e.prog, false);
    PlacedCodeAt([], SearchCode(false), rest);
    assert [] + SearchCode(false) + rest == e.prog;
    EmptySize();
    StartShape(e.prog);
    ShapeAlong(e.prog, 0, SearchCode(false), []);
    SearchAfter(SplitGotoFirst(6), Any, Goto(-11));
    assert SearchCode(false) == [SplitGotoFirst(6)] + ([Any] + [Goto(-11)]);
    SearchLeads(e);
    SearchChecked(e);
  }

  lemma SearchChecked(e: Env)
    requires Leads(e, 11, []) && Leads(e, 0, [])
    ensures Checked(e, 0, [SplitGotoFirst(6)] + ([Any] + [Goto(-11)]), [])
  {
    hide Leads, Checked, After, InstrOk, Size;
    SearchInstrs(e);
    CheckedSingle(e, 6, Goto(-11), []);
    CheckedCons(e, 5, Any, [Goto(-11)], []);
    CheckedCons(e, 0, SplitGotoFirst(6), [Any] + [Goto(-11)], []);
  }

  lemma SearchInstrs(e: Env)
    requires Leads(e, 11, []) && Leads(e, 0, [])
    ensures InstrOk(e, SplitGotoFirst(6), 5, []) && InstrOk(e, Any, 6, []) && InstrOk(e, Goto(-11), 11, [])
  {
    hide ShapeAt, Size;
  }

  lemma EmptySize()
    ensures Size([]) == 0
  {
  }

  lemma CheckedEmpty(e: Env)
    ensures Checked(e, 0, [], []) && After([], []) == []
  {
  }

  lemma SearchAfter(a: Instr, b: Instr, c: Instr)
    requires a.SplitGotoFirst? && b.Any? && c.Goto?
    ensures After([a] + ([b] + [c]), []) == []
  {
    AfterConcat([a], [b] + [c], []);
    AfterConcat([b], [c], []);
    AfterSingle(a, []);
    AfterSingle(b, []);
    AfterSingle(c, []);
  }

  lemma SearchLeads(e: Env)
    requires ShapeAt(e.prog, 11, []) == Some([]) && 11 < Size(e.prog)
    ensures Leads(e, 11, []) && Leads(e, 0, [])
  {
  }

  /** The check of compute_stack_size is sound for every pattern. */
  lemma ProgramSound(e: Env, r: Pattern, sticky: bool)
    requires Emitted(e, r, sticky)
    ensures Sound(e)
  {
    hide *;
    var head, code := SearchCode(sticky), CodeOf(Group(r), false, 0);
    EmittedIs(e, r, sticky);
    ProgramParts(r, sticky);
    SearchLayout(e.prog, sticky);
    assert e.prog == head + (code + [Match]);
    SizeConcat(code, [Match]);
    Single([], 0, Match);
    MatchSize();
    GoodSearch(e, sticky, code + [Match]);
    PatternGood(e, Group(r), false, 0);
    PatternNeutral(Group(r), false, 0);
    NeutralIs(code, []);
    ProgramHere(e, head, code);
    GoodHere(e, Size(head), code, []);
    MatchOk(e, Size(head) + Size(code) + 1);
    CheckedSingle(e, Size(head) + Size(code), Match, []) by { MatchSize(); }
    CheckedConcat(e, Size(head), code, [Match], []);
    CheckedConcat(e, 0, head, code + [Match], []);
    IsSound(e);
  }

  lemma MatchSize()
    ensures InstrSize(Match) == 1
  {
  }

  lemma MatchOk(e: Env, next: int)
    ensures InstrOk(e, Match, next, [])
  {
  }

  lemma IsSound(e: Env)
    requires Checked(e, 0, e.prog, [])
    ensures Sound(e)
  {
  }

  lemma EmittedIs(e: Env, r: Pattern, sticky: bool)
    requires Emitted(e, r, sticky)
    ensures e.prog == Program(r, sticky) && 0 + Groups(Group(r)) <= e.captures && Peak(e.prog) <= e.stackSize
  {
  }

  lemma ProgramHere(e: Env, head: Code, code: Code)
    requires e.prog == head + (code + [Match]) && After(head, []) == [] && Peak(e.prog) <= e.stackSize && Net(head) == 0
    ensures Here(e, Size(head), code, [])
  {
    hide *;
    var rest := code + [Match];
    assert head + code + [Match] == e.prog;
    PlacedCodeAt(head, code, [Match]);
    PlacedCodeAt([], head, rest);
    assert [] + head + rest == e.prog;
    EmptySize();
    StartShape(e.prog);
    ShapeAlong(e.prog, 0, head, []);
    SizeConcat(head, rest);
    SizeConcat(code, [Match]);
    MatchSize();
    Single([], 0, Match);
    PeakParts(head, code, e.stackSize);
    IsHere(e, Size(head), code, []);
  }

  lemma PeakParts(head: Code, code: Code, stackSize: nat)
    requires Net(head) == 0 && Peak(head + (code + [Match])) <= stackSize
    ensures Peak(code) <= stackSize
  {
    hide Net, Peak;
    NetPeakConcat(head, code + [Match]);
    NetPeakConcat(code, [Match]);
  }

  lemma IsHere(e: Env, pc: nat, code: Code, s: Shape)
    requires CodeAt(e.prog, pc, code) && ShapeAt(e.prog, pc, []) == Some(s) && pc + Size(code) < Size(e.prog)
    requires |s| + Peak(code) <= e.stackSize
    ensures Here(e, pc, code, s)
  {
  }

  lemma StartShape(prog: Code)
    ensures ShapeAt(prog, 0, []) == Some([])
  {
  }

  /** What the static depth says of a configuration: the stack has the depth of the instruction to be executed, within
      the header's stack size, and every saved frame has the depth of the place where it resumes. */
  ghost predicate DepthHolds(e: Env, c: Config) {
    match c
    case Run(pc, _, _, stack, frames) => Depth(e.prog, pc) == Some(|stack|) && |stack| <= e.stackSize
      && FramesDeep(e, frames)
    case Unwind(frames) => FramesDeep(e, frames)
    case Accept(_, frames) => FramesDeep(e, frames)
    case Done(_, _) => true
    case Stuck => false
  }

  ghost predicate FramesDeep(e: Env, frames: seq<Frame>) {
    forall k :: 0 <= k < |frames| ==> FrameDeep(e, frames[k])
  }

  ghost predicate FrameDeep(e: Env, f: Frame) {
    match f.kind
    case Greedy(_) =>
      (match At(e.prog, f.pc - 1)
       case Some(SimpleGreedyQuant(off, _, _, _)) => Depth(e.prog, f.pc + 16 + off) == Some(|f.stack|)
       case _ => false)
    case _ => Depth(e.prog, f.pc) == Some(|f.stack|)
  }

  lemma FitsDepth(e: Env, pc: int, stack: seq<nat>)
    requires Sound(e) && Fits(e, pc, stack)
    ensures Depth(e.prog, pc) == Some(|stack|)
  {
    hide Checked;
    ShapeIsDepth(e, 0, e.prog, [], pc);
  }

  /** The depth never exceeds the peak of the linear analysis. */
  lemma {:induction false} DepthBelowPeak(code: Code, pc: int)
    requires Depth(code, pc).Some?
    ensures Depth(code, pc).value <= Peak(code)
    decreases |code|
  {
    if pc != 0 {
      DepthBelowPeak(code[1..], pc - InstrSize(code[0]));
    }
  }

  lemma FineDepth(e: Env, c: Config)
    requires Sound(e) && Fine(e, c) && Peak(e.prog) <= e.stackSize
    ensures DepthHolds(e, c)
  {
    hide Sound, Fits, Depth, Peak;
    if c.Run? {
      FitsDepth(e, c.pc, c.stack);
      DepthBelowPeak(e.prog, c.pc);
    }
    if c.Run? || c.Unwind? || c.Accept? {
      forall k | 0 <= k < |c.frames|
        ensures FrameDeep(e, c.frames[k])
      {
        FrameFitsDepth(e, c.frames[k]);
      }
    }
  }

  lemma FrameFitsDepth(e: Env, f: Frame)
    requires Sound(e) && FrameFits(e, f)
    ensures FrameDeep(e, f)
  {
    hide Sound, Fits, Depth;
    match f.kind
    case Greedy(_) => FitsDepth(e, f.pc + 16 + At(e.prog, f.pc - 1).value.off, f.stack);
    case _ => FitsDepth(e, f.pc, f.stack);
  }

  /** The linear stack analysis is sound: for every pattern, every text and every start, in every run of any length,
      also one that does not halt, the machine is never stuck and the operand stack has the static depth of the
      instruction. */
  lemma StackDepth(e: Env, r: Pattern, sticky: bool, p: nat, k: nat)
    requires Emitted(e, r, sticky)
    ensures DepthHolds(e, Steps(e, Start(e, p), k))
  {
    hide Sound, Fine, DepthHolds;
    ProgramSound(e, r, sticky);
    StartFine(e, r, sticky, p);
    FineSteps(e, Start(e, p), k);
    FineDepth(e, Steps(e, Start(e, p), k));
  }

  lemma StartFine(e: Env, r: Pattern, sticky: bool, p: nat)
    requires Emitted(e, r, sticky)
    ensures Fine(e, Start(e, p))
  {
    hide CodeOf, SearchCode;
    SizeConcat(SearchCode(sticky) + [SaveStart(0)] + CodeOf(r, false, 1), [SaveEnd(0), Match]);
    Double([], 0, SaveEnd(0), Match);
  }

  /** Every intermediate configuration is one that the machine is defined on: every jump lands on an instruction, no
      counter runs below zero, and no access to the operand stack or the captures is out of bounds. */
  lemma NeverStuck(e: Env, r: Pattern, sticky: bool, p: nat, k: nat)
    requires Emitted(e, r, sticky)
    ensures !Steps(e, Start(e, p), k).Stuck?
  {
    hide Emitted, FramesDeep;
    StackDepth(e, r, sticky, p, k);
  }

  /** Where an instruction may continue besides the next one. */
  function Target(i: Instr, next: int): Option<int> {
    if i.Goto? || i.SplitGotoFirst? || i.SplitNextFirst? || i.Lookahead? || i.NegativeLookahead? || i.Loop?
       || i.BneCharPos? || i.SimpleGreedyQuant?
    then Some(next + i.off) else None
  }

  /** All jumps into an instruction agree: the target has the depth that the jump leaves, and so has the next
      instruction. */
  lemma JumpsAgree(e: Env, r: Pattern, sticky: bool, pc: int, i: Instr)
    requires Emitted(e, r, sticky) && At(e.prog, pc) == Some(i)
    ensures Depth(e.prog, pc).Some? && 0 <= Depth(e.prog, pc).value <= e.stackSize
    ensures Depth(e.prog, pc + InstrSize(i)) == Some(Depth(e.prog, pc).value + Delta(i))
    ensures Target(i, pc + InstrSize(i)).Some? ==>
      var t := Target(i, pc + InstrSize(i)).value;
      At(e.prog, t).Some? && Depth(e.prog, t) == Some(Depth(e.prog, pc).value + Delta(i))
  {
    hide Sound, Depth, Peak, InstrOk, Leads, ShapeAt, InnerRuns;
    ProgramSound(e, r, sticky);
    var s := InstrShape(e.prog, pc, i, []);
    SoundAt(e, pc, i, s);
    DepthBelowPeak(e.prog, pc);
    ShapeNext(e.prog, pc, i, s, []);
    SoundDepth(e, pc + InstrSize(i));
    EffectDepth(e, i, pc + InstrSize(i), s);
    if Target(i, pc + InstrSize(i)).Some? {
      var t := Target(i, pc + InstrSize(i)).value;
      TargetLeads(e, i, pc + InstrSize(i), s);
      LeadsDepth(e, t, if i.BneCharPos? && s != [] then ButTop(s) else s);
    }
  }

  /** The shape at an instruction. */
  lemma {:induction false} InstrShape(prog: Code, pc: int, i: Instr, s: Shape) returns (t: Shape)
    requires At(prog, pc) == Some(i)
    ensures ShapeAt(prog, pc, s) == Some(t)
    decreases |prog|
  {
    if pc == 0 {
      t := s;
    } else {
      t := InstrShape(prog[1..], pc - InstrSize(prog[0]), i, Effect(prog[0], s));
    }
  }

  lemma SoundAt(e: Env, pc: int, i: Instr, s: Shape)
    requires Sound(e) && At(e.prog, pc) == Some(i) && ShapeAt(e.prog, pc, []) == Some(s)
    ensures InstrOk(e, i, pc + InstrSize(i), s) && Depth(e.prog, pc) == Some(|s|)
  {
    hide Checked, InstrOk;
    CheckedAt(e, 0, e.prog, [], pc, i, s);
    ShapeIsDepth(e, 0, e.prog, [], pc);
  }

  lemma SoundDepth(e: Env, pc: int)
    requires Sound(e) && ShapeAt(e.prog, pc, []).Some?
    ensures Depth(e.prog, pc) == Some(|ShapeAt(e.prog, pc, []).value|)
  {
    hide Checked;
    ShapeIsDepth(e, 0, e.prog, [], pc);
  }

  lemma TargetLeads(e: Env, i: Instr, next: int, s: Shape)
    requires InstrOk(e, i, next, s) && Target(i, next).Some?
    ensures Leads(e, Target(i, next).value, if i.BneCharPos? && s != [] then ButTop(s) else s)
      && (i.BneCharPos? ==> s != [])
  {
    hide Leads;
  }

  lemma LeadsDepth(e: Env, pc: int, s: Shape)
    requires Sound(e) && Leads(e, pc, s)
    ensures At(e.prog, pc).Some? && Depth(e.prog, pc) == Some(|s|)
  {
    hide Sound, ShapeAt, Depth;
    SoundDepth(e, pc);
    ShapeHasInstr(e.prog, pc, []);
  }
}

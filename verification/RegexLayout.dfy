/** Where the parts of emitted code lie in a program, and how much operand stack they need. */
module RegexLayout {
  import opened RegexCode
  import opened RegexPattern
  import opened RegexCodegen

  lemma Single(prog: Code, pc: nat, i: Instr)
    ensures CodeAt(prog, pc, [i]) <==> At(prog, pc) == Some(i)
    ensures Size([i]) == InstrSize(i) && Net([i]) == Delta(i) && Peak([i]) == Max(0, Delta(i))
  {
    assert [i][1..] == [];
  }

  lemma Double(prog: Code, pc: nat, i: Instr, j: Instr)
    ensures CodeAt(prog, pc, [i, j]) <==> At(prog, pc) == Some(i) && At(prog, pc + InstrSize(i)) == Some(j)
    ensures Size([i, j]) == InstrSize(i) + InstrSize(j) && Net([i, j]) == Delta(i) + Delta(j)
    ensures Peak([i, j]) == Max(0, Delta(i) + Max(0, Delta(j)))
  {
    assert [i, j][1..] == [j];
    Single(prog, pc + InstrSize(i), j);
  }

  /** Code in three parts. */
  lemma Three(prog: Code, pc: nat, a: Code, b: Code, c: Code)
    ensures CodeAt(prog, pc, a + b + c) <==>
      CodeAt(prog, pc, a) && CodeAt(prog, pc + Size(a), b) && CodeAt(prog, pc + Size(a) + Size(b), c)
    ensures Size(a + b + c) == Size(a) + Size(b) + Size(c)
    ensures Net(a + b + c) == Net(a) + Net(b) + Net(c)
    ensures Peak(a + b + c) == Max(Max(Peak(a), Net(a) + Peak(b)), Net(a) + Net(b) + Peak(c))
  {
    CodeAtConcat(prog, pc, a + b, c);
    CodeAtConcat(prog, pc, a, b);
    SizeConcat(a + b, c);
    SizeConcat(a, b);
    NetPeakConcat(a + b, c);
    NetPeakConcat(a, b);
  }

  /** The instructions in front of and behind the atom of a StarCode. */
  function StarHead(len: nat, greedy: bool, check: bool): Code {
    if check then [SplitOp(greedy, len + 6), PushCharPos] else [SplitOp(greedy, len + 5)]
  }

  function StarLast(len: nat, check: bool): Instr {
    if check then BneCharPos(-(len + 11)) else Goto(-(len + 10))
  }

  lemma StarParts(ca: Code, greedy: bool, check: bool)
    ensures StarCode(ca, greedy, check) == StarHead(Size(ca), greedy, check) + ca + [StarLast(Size(ca), check)]
  {
  }

  lemma StarLayout(prog: Code, pc: nat, ca: Code, greedy: bool, check: bool)
    ensures var z := if check then 1 else 0; var len := Size(ca);
      && Size(StarCode(ca, greedy, check)) == len + 10 + z
      && (CodeAt(prog, pc, StarCode(ca, greedy, check)) ==>
          && At(prog, pc) == Some(SplitOp(greedy, len + 5 + z))
          && (check ==> At(prog, pc + 5) == Some(PushCharPos))
          && CodeAt(prog, pc + 5 + z, ca)
          && At(prog, pc + 5 + z + len) == Some(StarLast(len, check)))
  {
    hide Net, Peak;
    var head, last := StarHead(Size(ca), greedy, check), StarLast(Size(ca), check);
    StarParts(ca, greedy, check);
    Three(prog, pc, head, ca, [last]);
    if check {
      Double(prog, pc, head[0], PushCharPos);
    } else {
      Single(prog, pc, head[0]);
    }
    Single(prog, pc + Size(head) + Size(ca), last);
  }

  lemma StarStack(ca: Code, greedy: bool, check: bool)
    requires Net(ca) == 0
    ensures Net(StarCode(ca, greedy, check)) == 0
      && Peak(StarCode(ca, greedy, check)) == (if check then 1 else 0) + Peak(ca)
  {
    var head, last := StarHead(Size(ca), greedy, check), StarLast(Size(ca), check);
    StarParts(ca, greedy, check);
    Three([], 0, head, ca, [last]);
    if check {
      Double([], 0, head[0], PushCharPos);
    } else {
      Single([], 0, head[0]);
    }
    Single([], 0, last);
  }

  lemma UpToLayout(prog: Code, pc: nat, ca: Code, n: nat, greedy: bool)
    ensures var len := Size(ca);
      && Size(UpToCode(ca, n, greedy)) == len + 16
      && (CodeAt(prog, pc, UpToCode(ca, n, greedy)) ==>
          && At(prog, pc) == Some(PushI32(n)) && At(prog, pc + 5) == Some(SplitOp(greedy, len + 5))
          && CodeAt(prog, pc + 10, ca)
          && At(prog, pc + 10 + len) == Some(Loop(-(len + 10))) && At(prog, pc + 15 + len) == Some(Drop))
    ensures Net(ca) == 0 ==> Net(UpToCode(ca, n, greedy)) == 0 && Peak(UpToCode(ca, n, greedy)) == 1 + Peak(ca)
  {
    var len: int := Size(ca);
    hide Size, Net, Peak, CodeAt, At;
    var head := [PushI32(n), SplitOp(greedy, len + 5)];
    var tail := [Loop(-(len + 10)), Drop];
    Three(prog, pc, head, ca, tail);
    Double(prog, pc, PushI32(n), SplitOp(greedy, len + 5));
    Double(prog, pc + 10 + len, Loop(-(len + 10)), Drop);
  }

  lemma ExactlyLayout(prog: Code, pc: nat, ca: Code, n: nat)
    requires n != 1
    ensures var len := Size(ca);
      && Size(ExactlyCode(ca, n)) == len + 11
      && (CodeAt(prog, pc, ExactlyCode(ca, n)) ==>
          && At(prog, pc) == Some(PushI32(n)) && CodeAt(prog, pc + 5, ca)
          && At(prog, pc + 5 + len) == Some(Loop(-(len + 5))) && At(prog, pc + 10 + len) == Some(Drop))
    ensures Net(ca) == 0 ==> Net(ExactlyCode(ca, n)) == 0 && Peak(ExactlyCode(ca, n)) == 1 + Peak(ca)
  {
    var len: int := Size(ca);
    hide Size, Net, Peak, CodeAt, At;
    var tail := [Loop(-(len + 5)), Drop];
    Three(prog, pc, [PushI32(n)], ca, tail);
    Single(prog, pc, PushI32(n));
    Double(prog, pc + 5 + len, Loop(-(len + 5)), Drop);
  }

  /** One instruction, a body, one instruction. */
  lemma Wrapped(prog: Code, pc: nat, i: Instr, ca: Code, j: Instr)
    requires Delta(i) == 0 && Delta(j) == 0
    ensures Size([i] + ca + [j]) == InstrSize(i) + Size(ca) + InstrSize(j)
    ensures CodeAt(prog, pc, [i] + ca + [j]) ==>
      At(prog, pc) == Some(i) && CodeAt(prog, pc + InstrSize(i), ca)
      && At(prog, pc + InstrSize(i) + Size(ca)) == Some(j)
    ensures Net(ca) == 0 ==> Net([i] + ca + [j]) == 0 && Peak([i] + ca + [j]) == Peak(ca)
  {
    Three(prog, pc, [i], ca, [j]);
    Single(prog, pc, i);
    Single(prog, pc + InstrSize(i) + Size(ca), j);
  }

  lemma Prefixed(prog: Code, pc: nat, i: Instr, ca: Code)
    requires Delta(i) == 0
    ensures Size([i] + ca) == InstrSize(i) + Size(ca)
    ensures CodeAt(prog, pc, [i] + ca) ==> At(prog, pc) == Some(i) && CodeAt(prog, pc + InstrSize(i), ca)
    ensures Net([i] + ca) == Net(ca) && Peak([i] + ca) == Peak(ca)
  {
    CodeAtConcat(prog, pc, [i], ca);
    SizeConcat([i], ca);
    NetPeakConcat([i], ca);
    Single(prog, pc, i);
  }

  lemma Suffixed(prog: Code, pc: nat, ca: Code, j: Instr)
    requires Delta(j) == 0
    ensures Size(ca + [j]) == Size(ca) + InstrSize(j)
    ensures CodeAt(prog, pc, ca + [j]) ==> CodeAt(prog, pc, ca) && At(prog, pc + Size(ca)) == Some(j)
    ensures Net(ca) == 0 ==> Net(ca + [j]) == 0 && Peak(ca + [j]) == Peak(ca)
  {
    CodeAtConcat(prog, pc, ca, [j]);
    SizeConcat(ca, [j]);
    NetPeakConcat(ca, [j]);
    Single(prog, pc + Size(ca), j);
  }

  lemma AltLayout(prog: Code, pc: nat, ca: Code, cb: Code)
    ensures var code := [SplitNextFirst(Size(ca) + 5)] + ca + [Goto(Size(cb))] + cb;
      && Size(code) == 10 + Size(ca) + Size(cb)
      && (CodeAt(prog, pc, code) ==>
          && At(prog, pc) == Some(SplitNextFirst(Size(ca) + 5)) && CodeAt(prog, pc + 5, ca)
          && At(prog, pc + 5 + Size(ca)) == Some(Goto(Size(cb))) && CodeAt(prog, pc + 10 + Size(ca), cb))
      && (Net(ca) == 0 && Net(cb) == 0 ==> Net(code) == 0 && Peak(code) == Max(Peak(ca), Peak(cb)))
  {
    var i, j := SplitNextFirst(Size(ca) + 5), Goto(Size(cb));
    var front := [i] + ca + [j];
    Wrapped(prog, pc, i, ca, j);
    CodeAtConcat(prog, pc, front, cb);
    SizeConcat(front, cb);
    NetPeakConcat(front, cb);
  }

  // ---- operand stack of quantifiers

  lemma OptionalStack(ca: Code, max: nat, greedy: bool, check: bool)
    requires Net(ca) == 0
    ensures Net(OptionalCode(ca, max, greedy, check)) == 0
    ensures Peak(OptionalCode(ca, max, greedy, check)) ==
      if max == 0 then 0 else if max == 1 then Peak(ca) else if max >= INF then (if check then 1 else 0) + Peak(ca)
        else 1 + Peak(ca)
  {
    if max == 1 {
      Prefixed([], 0, SplitOp(greedy, Size(ca)), ca);
    } else if max >= INF {
      StarStack(ca, greedy, check);
    } else if max > 0 {
      UpToLayout([], 0, ca, max, greedy);
    }
  }

  lemma MoreStack(ca: Code, min: nat, max: nat, greedy: bool, check: bool)
    requires Net(ca) == 0
    ensures Net(MoreCode(ca, min, max, greedy, check)) == 0
    ensures Peak(MoreCode(ca, min, max, greedy, check)) ==
      if max >= INF then (if check then 1 else 0) + Peak(ca) else if max > min then 1 + Peak(ca) else 0
  {
    if max >= INF {
      StarStack(ca, greedy, check);
    } else if max > min {
      UpToLayout([], 0, ca, max - min, greedy);
    }
  }

  lemma QuantNet(ca: Code, cc: nat, groups: nat, min: nat, max: nat, greedy: bool)
    requires Net(ca) == 0
    ensures Net(QuantCode(ca, cc, groups, min, max, greedy)) == 0
  {
    var check := NeedsCheck(ca, greedy);
    if IsSimple(ca, max, greedy) {
      Wrapped([], 0, SimpleGreedyQuant(Size(ca) + 1, min, max, SimpleCount(ca)), ca, Match);
    } else if min == 0 {
      OptionalStack(ca, max, greedy, check);
      NetPeakConcat(ResetCode(cc, groups), OptionalCode(ca, max, greedy, check));
      if groups > 0 {
        Single([], 0, SaveReset(cc, cc + groups - 1));
      }
    } else if min == 1 && max >= INF && !check {
      Suffixed([], 0, ca, SplitOp(!greedy, -(Size(ca) + 5)));
    } else {
      MoreStack(ca, min, max, greedy, check);
      NetPeakConcat(ExactlyCode(ca, min), MoreCode(ca, min, max, greedy, check));
      if min != 1 {
        ExactlyLayout([], 0, ca, min);
      }
    }
  }

  lemma AltNet(ca: Code, cb: Code)
    requires Net(ca) == 0 && Net(cb) == 0
    ensures Net([SplitNextFirst(Size(ca) + 5)] + ca + [Goto(Size(cb))] + cb) == 0
  {
    AltLayout([], 0, ca, cb);
  }

  lemma WrappedNet(i: Instr, ca: Code, j: Instr)
    requires Delta(i) == 0 && Delta(j) == 0 && Net(ca) == 0
    ensures Net([i] + ca + [j]) == 0
  {
    Wrapped([], 0, i, ca, j);
  }

  lemma CatNet(ca: Code, cb: Code)
    requires Net(ca) == 0 && Net(cb) == 0
    ensures Net(ca + cb) == 0
  {
    NetPeakConcat(ca, cb);
  }

  /** Emitted code leaves the operand stack as it found it. */
  lemma {:induction false} NetZero(r: Pattern, back: bool, cc: nat)
    ensures Net(CodeOf(r, back, cc)) == 0
    decreases r, 1
  {
    match r
    case Empty =>
    case One(s) => OneNet(s, back, cc);
    case Assert(a) => Single([], 0, EmitAssert(a));
    case BackRef(k) => Single([], 0, if back then BackwardBackReference(k) else BackReference(k));
    case Cat(_, _) => PairNet(r, back, cc);
    case Alt(_, _) => PairNet(r, back, cc);
    case Group(_) => BodyNet(r, back, cc);
    case Look(_, _, _) => BodyNet(r, back, cc);
    case Quant(a, min, max, greedy) =>
      NetZero(a, back, cc);
      QuantNet(CodeOf(a, back, cc), cc, Groups(a), min, max, greedy);
  }

  lemma {:induction false} PairNet(r: Pattern, back: bool, cc: nat)
    requires r.Cat? || r.Alt?
    ensures Net(CodeOf(r, back, cc)) == 0
    decreases r, 0
  {
    hide Net, Size;
    var ca, cb := CodeOf(r.left, back, cc), CodeOf(r.right, back, cc + Groups(r.left));
    NetZero(r.left, back, cc);
    NetZero(r.right, back, cc + Groups(r.left));
    if r.Alt? {
      AltNet(ca, cb);
    } else if back {
      CatNet(cb, ca);
    } else {
      CatNet(ca, cb);
    }
  }

  lemma {:induction false} BodyNet(r: Pattern, back: bool, cc: nat)
    requires r.Group? || r.Look?
    ensures Net(CodeOf(r, back, cc)) == 0
    decreases r, 0
  {
    if r.Group? {
      NetZero(r.body, back, cc + 1);
      WrappedNet(SaveOp(back, cc), CodeOf(r.body, back, cc + 1), SaveOp(!back, cc));
    } else {
      NetZero(r.body, r.behind, cc);
      var ca := CodeOf(r.body, r.behind, cc);
      WrappedNet(if r.negative then NegativeLookahead(Size(ca) + 1) else Lookahead(Size(ca) + 1), ca, Match);
    }
  }

  lemma OneNet(s: OneChar, back: bool, cc: nat)
    ensures Net(CodeOf(One(s), back, cc)) == 0
  {
    assert Delta(EmitOne(s)) == 0;
    Single([], 0, EmitOne(s));
    if back {
      assert [StepBack, EmitOne(s), StepBack] == [StepBack] + [EmitOne(s)] + [StepBack];
      WrappedNet(StepBack, [EmitOne(s)], StepBack);
    }
  }
}

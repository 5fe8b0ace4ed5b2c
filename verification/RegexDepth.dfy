/** The static operand-stack depth of every instruction of a compiled program, for every pattern. */
module RegexDepth {
  import opened RegexText
  import opened RegexCode
  import opened RegexPattern
  import opened RegexCodegen
  import opened RegexLayout
  import opened RegexVM

  // ---- the linear analysis

  /** The operand stack before an instruction, bottom first: true marks a counter that is not zero. */
  type Shape = seq<bool>

  /** The shape after an instruction that follows its predecessor in the code. */
  function Effect(i: Instr, s: Shape): Shape {
    match i
    case PushI32(n) => s + [n > 0]
    case PushCharPos => s + [false]
    case Drop => if s == [] then s else ButTop(s)
    case BneCharPos(_) => if s == [] then s else ButTop(s)
    case Loop(_) => if s == [] then s else ButTop(s) + [false]
    case _ => s
  }

  function After(code: Code, s: Shape): Shape {
    if code == [] then s else After(code[1..], Effect(code[0], s))
  }

  /** The shape at byte pc of the code, by one scan from its start, where the shape is s. */
  function ShapeAt(code: Code, pc: int, s: Shape): Option<Shape>
    decreases |code|
  {
    if pc == 0 then Some(s)
    else if code == [] || pc < 0 then None
    else ShapeAt(code[1..], pc - InstrSize(code[0]), Effect(code[0], s))
  }

  /** The depth at byte pc: the net effect of the code before it. */
  function Depth(code: Code, pc: int): Option<int>
    decreases |code|
  {
    if pc == 0 then Some(0)
    else if code == [] || pc < 0 then None
    else match Depth(code[1..], pc - InstrSize(code[0]))
      case None => None
      case Some(d) => Some(Delta(code[0]) + d)
  }

  /** Depth in terms of the code before pc. */
  lemma {:induction false} DepthIsNet(a: Code, b: Code)
    ensures Depth(a + b, Size(a)) == Some(Net(a))
  {
    if a != [] {
      assert (a + b)[1..] == a[1..] + b;
      DepthIsNet(a[1..], b);
    }
  }

  /** The peak is the greatest depth that the code reaches, and it reaches it. */
  lemma {:induction false} PeakIsGreatest(code: Code) returns (k: nat)
    ensures k <= |code| && Net(code[..k]) == Peak(code)
    ensures forall j :: 0 <= j <= |code| ==> Net(code[..j]) <= Peak(code)
  {
    k := 0;
    if code != [] {
      var rest := code[1..];
      var k' := PeakIsGreatest(rest);
      forall j | 0 < j <= |code|
        ensures Net(code[..j]) == Delta(code[0]) + Net(rest[..j - 1])
      {
        assert code[..j][1..] == rest[..j - 1];
      }
      if Peak(code) > 0 {
        k := k' + 1;
      }
    }
  }

  lemma {:induction false} AfterConcat(a: Code, b: Code, s: Shape)
    ensures After(a + b, s) == After(b, After(a, s))
    decreases |a|
  {
    if a == [] {
      assert a + b == b;
    } else {
      assert (a + b)[1..] == a[1..] + b;
      AfterConcat(a[1..], b, Effect(a[0], s));
    }
  }

  /** What an instruction at byte pc has, the scan has there, and after it. */
  lemma {:induction false} ShapeNext(prog: Code, pc: int, i: Instr, t: Shape, s: Shape)
    requires At(prog, pc) == Some(i) && ShapeAt(prog, pc, s) == Some(t)
    ensures ShapeAt(prog, pc + InstrSize(i), s) == Some(Effect(i, t))
    decreases |prog|
  {
    if pc != 0 {
      ShapeNext(prog[1..], pc - InstrSize(prog[0]), i, t, Effect(prog[0], s));
    }
  }

  lemma {:induction false} ShapeAlong(prog: Code, pc: nat, code: Code, s: Shape)
    requires CodeAt(prog, pc, code) && ShapeAt(prog, pc, []) == Some(s)
    ensures ShapeAt(prog, pc + Size(code), []) == Some(After(code, s))
    decreases |code|
  {
    if code != [] {
      ShapeNext(prog, pc, code[0], s, []);
      ShapeAlong(prog, pc + InstrSize(code[0]), code[1..], Effect(code[0], s));
    }
  }

  /** Where the scan has a shape inside the program, an instruction starts. */
  lemma {:induction false} ShapeHasInstr(prog: Code, pc: int, s: Shape)
    requires ShapeAt(prog, pc, s).Some? && pc < Size(prog)
    ensures At(prog, pc).Some?
    decreases |prog|
  {
    if pc != 0 {
      ShapeHasInstr(prog[1..], pc - InstrSize(prog[0]), Effect(prog[0], s));
    }
  }

  // ---- checked code

  /** A stack of shape s may be taken where t is expected. */
  predicate Covers(s: Shape, t: Shape) {
    |s| == |t| && forall k :: 0 <= k < |t| && t[k] ==> s[k]
  }

  /** A jump to pc with shape s agrees with the scan there. */
  ghost predicate Leads(e: Env, pc: int, s: Shape) {
    0 <= pc < Size(e.prog) && ShapeAt(e.prog, pc, []).Some? && Covers(s, ShapeAt(e.prog, pc, []).value)
  }

  /** The atom of a simple quantifier at pc can be counted. */
  ghost predicate InnerRuns(e: Env, pc: int) {
    pc >= 0 && forall max: nat, q: nat, pos: nat :: CountInner(e, pc, max, q, pos).Some?
  }

  /** An instruction before byte next, with shape s: its operands are there and its jumps agree. */
  ghost predicate InstrOk(e: Env, i: Instr, next: int, s: Shape) {
    && (!i.Match? ==> next < Size(e.prog))
    && match i
       case Goto(off) => Leads(e, next + off, s)
       case SplitGotoFirst(off) => Leads(e, next + off, s)
       case SplitNextFirst(off) => Leads(e, next + off, s)
       case Lookahead(off) => Leads(e, next + off, s)
       case NegativeLookahead(off) => Leads(e, next + off, s)
       case Loop(off) => s != [] && s[|s| - 1] && Leads(e, next + off, s)
       case BneCharPos(off) => s != [] && Leads(e, next + off, ButTop(s))
       case Drop => s != []
       case PushI32(_) => |s| < e.stackSize
       case PushCharPos => |s| < e.stackSize
       case SaveStart(k) => k < e.captures
       case SaveEnd(k) => k < e.captures
       case SaveReset(_, last) => last < e.captures
       case SimpleGreedyQuant(off, _, _, _) => Leads(e, next + off, s) && InnerRuns(e, next)
       case _ => true
  }

  ghost predicate Checked(e: Env, pc: nat, code: Code, s: Shape)
    decreases |code|
  {
    code != [] ==>
      && InstrOk(e, code[0], pc + InstrSize(code[0]), s)
      && Checked(e, pc + InstrSize(code[0]), code[1..], Effect(code[0], s))
  }

  lemma {:induction false} CheckedConcat(e: Env, pc: nat, a: Code, b: Code, s: Shape)
    ensures Checked(e, pc, a + b, s) <==> Checked(e, pc, a, s) && Checked(e, pc + Size(a), b, After(a, s))
    decreases |a|
  {
    hide InstrOk;
    if a == [] {
      assert a + b == b;
    } else {
      assert (a + b)[1..] == a[1..] + b;
      CheckedConcat(e, pc + InstrSize(a[0]), a[1..], b, Effect(a[0], s));
    }
  }

  /** The instruction at byte pc of checked code. */
  lemma {:induction false} CheckedAt(e: Env, base: nat, code: Code, s: Shape, pc: int, i: Instr, t: Shape)
    requires Checked(e, base, code, s) && At(code, pc) == Some(i) && ShapeAt(code, pc, s) == Some(t)
    ensures InstrOk(e, i, base + pc + InstrSize(i), t)
    decreases |code|
  {
    hide InstrOk;
    if pc != 0 {
      CheckedAt(e, base + InstrSize(code[0]), code[1..], Effect(code[0], s), pc - InstrSize(code[0]), i, t);
    }
  }

  /** The shapes have the depths of the linear analysis. */
  lemma {:induction false} ShapeIsDepth(e: Env, base: nat, code: Code, s: Shape, pc: int)
    requires Checked(e, base, code, s) && ShapeAt(code, pc, s).Some?
    ensures Depth(code, pc) == Some(|ShapeAt(code, pc, s).value| - |s|)
    decreases |code|
  {
    hide Leads, InnerRuns;
    if pc != 0 {
      EffectDepth(e, code[0], base + InstrSize(code[0]), s);
      ShapeIsDepth(e, base + InstrSize(code[0]), code[1..], Effect(code[0], s), pc - InstrSize(code[0]));
    }
  }

  lemma EffectDepth(e: Env, i: Instr, next: int, s: Shape)
    requires InstrOk(e, i, next, s)
    ensures |Effect(i, s)| == |s| + Delta(i)
  {
    hide Leads, InnerRuns;
  }

  // ---- runs

  /** A stack of the shape t. */
  predicate Agrees(stack: seq<nat>, t: Shape) {
    |stack| == |t| && forall k :: 0 <= k < |t| && t[k] ==> stack[k] > 0
  }

  /** A run may go on at pc with this stack. */
  ghost predicate Fits(e: Env, pc: int, stack: seq<nat>) {
    0 <= pc < Size(e.prog) && ShapeAt(e.prog, pc, []).Some? && Agrees(stack, ShapeAt(e.prog, pc, []).value)
  }

  /** Where a frame resumes. */
  ghost predicate FrameFits(e: Env, f: Frame) {
    match f.kind
    case Greedy(_) =>
      (match At(e.prog, f.pc - 1)
       case Some(SimpleGreedyQuant(off, _, _, _)) => Fits(e, f.pc + 16 + off, f.stack)
       case _ => false)
    case _ => Fits(e, f.pc, f.stack)
  }

  ghost predicate FramesFit(e: Env, frames: seq<Frame>) {
    forall k :: 0 <= k < |frames| ==> FrameFits(e, frames[k])
  }

  /** The invariant of every run. */
  ghost predicate Fine(e: Env, c: Config) {
    match c
    case Run(pc, _, _, stack, frames) => Fits(e, pc, stack) && FramesFit(e, frames)
    case Unwind(frames) => FramesFit(e, frames)
    case Accept(_, frames) => FramesFit(e, frames)
    case Done(_, _) => true
    case Stuck => false
  }

  /** A whole program that passes the check. */
  ghost predicate Sound(e: Env) {
    Checked(e, 0, e.prog, [])
  }

  lemma LeadsFits(e: Env, pc: int, s: Shape, stack: seq<nat>)
    requires Leads(e, pc, s) && Agrees(stack, s)
    ensures Fits(e, pc, stack)
  {
  }

  lemma FramesPush(e: Env, frames: seq<Frame>, f: Frame)
    requires FramesFit(e, frames) && FrameFits(e, f)
    ensures FramesFit(e, frames + [f])
  {
    hide FrameFits;
  }

  lemma FramesPop(e: Env, frames: seq<Frame>)
    requires FramesFit(e, frames) && frames != []
    ensures FramesFit(e, ButTop(frames)) && FrameFits(e, frames[|frames| - 1])
  {
    hide FrameFits;
  }

  /** The instruction at a position that fits. */
  lemma InstrAt(e: Env, pc: int, stack: seq<nat>) returns (i: Instr, s: Shape)
    requires Sound(e) && Fits(e, pc, stack)
    ensures At(e.prog, pc) == Some(i) && ShapeAt(e.prog, pc, []) == Some(s) && Agrees(stack, s)
    ensures InstrOk(e, i, pc + InstrSize(i), s) && (!i.Match? ==> Leads(e, pc + InstrSize(i), Effect(i, s)))
  {
    hide InstrOk, Agrees;
    s := ShapeAt(e.prog, pc, []).value;
    ShapeHasInstr(e.prog, pc, []);
    i := At(e.prog, pc).value;
    CheckedAt(e, 0, e.prog, [], pc, i, s);
    ShapeNext(e.prog, pc, i, s, []);
    NextInside(e, i, pc + InstrSize(i), s);
    CoversSelf(Effect(i, s));
  }

  lemma NextInside(e: Env, i: Instr, next: int, s: Shape)
    requires InstrOk(e, i, next, s)
    ensures !i.Match? ==> next < Size(e.prog)
  {
  }

  lemma CoversSelf(s: Shape)
    ensures Covers(s, s)
  {
  }

  /** Instructions that only move on, or fail. */
  lemma PlainStep(e: Env, i: Instr, next: int, pos: nat, caps: Captures, stack: seq<nat>, frames: seq<Frame>, s: Shape)
    requires InstrOk(e, i, next, s) && Leads(e, next, Effect(i, s)) && Agrees(stack, s) && FramesFit(e, frames)
    requires IsCharOp(i) || IsAssertOp(i) || IsSaveOp(i) || i.StepBack?
    ensures Fine(e, Exec(e, i, next, pos, caps, stack, frames))
  {
    hide Leads, FramesFit, Fits, Agrees, InnerRuns;
    assert Effect(i, s) == s;
    LeadsFits(e, next, s, stack);
  }

  lemma StackStep(e: Env, i: Instr, next: int, pos: nat, caps: Captures, stack: seq<nat>, frames: seq<Frame>, s: Shape)
    requires InstrOk(e, i, next, s) && Leads(e, next, Effect(i, s)) && Agrees(stack, s) && FramesFit(e, frames)
    requires i.PushI32? || i.PushCharPos? || i.Drop? || i.Loop? || i.BneCharPos?
    ensures Fine(e, Exec(e, i, next, pos, caps, stack, frames))
  {
    hide Leads, FramesFit, Fits, InnerRuns;
    match i
    case PushI32(n) => LeadsFits(e, next, Effect(i, s), stack + [n]);
    case PushCharPos => LeadsFits(e, next, Effect(i, s), stack + [pos]);
    case Drop => LeadsFits(e, next, Effect(i, s), ButTop(stack));
    case BneCharPos(off) =>
      LeadsFits(e, next, Effect(i, s), ButTop(stack));
      LeadsFits(e, next + off, ButTop(s), ButTop(stack));
    case Loop(off) =>
      assert Top(stack) > 0;
      var down := ButTop(stack) + [Top(stack) - 1];
      if Top(stack) > 1 {
        LeadsFits(e, next + off, s, down);
      } else {
        LeadsFits(e, next, Effect(i, s), down);
      }
  }

  lemma JumpStep(e: Env, i: Instr, next: int, pos: nat, caps: Captures, stack: seq<nat>, frames: seq<Frame>, s: Shape)
    requires InstrOk(e, i, next, s) && Leads(e, next, s) && Agrees(stack, s) && FramesFit(e, frames)
    requires i.Goto? || i.SplitGotoFirst? || i.SplitNextFirst? || i.Lookahead? || i.NegativeLookahead?
    ensures Fine(e, Exec(e, i, next, pos, caps, stack, frames))
  {
    hide Leads, FramesFit, Fits, InnerRuns, Agrees;
    LeadsFits(e, next, s, stack);
    LeadsFits(e, next + i.off, s, stack);
    FramesPush(e, frames, Frame(OnFail, next + i.off, pos, caps, stack));
    FramesPush(e, frames, Frame(OnFail, next, pos, caps, stack));
    FramesPush(e, frames, Frame(Ahead, next + i.off, pos, caps, stack));
    FramesPush(e, frames, Frame(NotAhead, next + i.off, pos, caps, stack));
  }

  lemma GreedyStep(e: Env, i: Instr, pc: int, pos: nat, caps: Captures, stack: seq<nat>, frames: seq<Frame>, s: Shape)
    requires At(e.prog, pc) == Some(i) && i.SimpleGreedyQuant? && InstrOk(e, i, pc + InstrSize(i), s)
    requires Agrees(stack, s) && FramesFit(e, frames)
    ensures Fine(e, Exec(e, i, pc + InstrSize(i), pos, caps, stack, frames))
  {
    hide Leads, FramesFit, Fits, Agrees, CountInner;
    var next := pc + InstrSize(i);
    LeadsFits(e, next + i.off, s, stack);
    assert CountInner(e, next, i.max, 0, pos).Some?;
    var q, p := CountInner(e, next, i.max, 0, pos).value.0, CountInner(e, next, i.max, 0, pos).value.1;
    if q > i.min {
      FramesPush(e, frames, Frame(Greedy(q - i.min), next - 16, p, caps, stack));
    }
  }

  lemma RunStep(e: Env, c: Config)
    requires Sound(e) && Fine(e, c) && c.Run?
    ensures Fine(e, Step(e, c))
  {
    hide InstrOk, Leads, FramesFit, Fits, Agrees, Exec, Sound;
    var i, s := InstrAt(e, c.pc, c.stack);
    var next := c.pc + InstrSize(i);
    if IsCharOp(i) || IsAssertOp(i) || IsSaveOp(i) || i.StepBack? {
      PlainStep(e, i, next, c.pos, c.caps, c.stack, c.frames, s);
    } else if i.PushI32? || i.PushCharPos? || i.Drop? || i.Loop? || i.BneCharPos? {
      StackStep(e, i, next, c.pos, c.caps, c.stack, c.frames, s);
    } else if i.SimpleGreedyQuant? {
      GreedyStep(e, i, c.pc, c.pos, c.caps, c.stack, c.frames, s);
    } else if i.Match? {
      MatchStep(e, next, c.pos, c.caps, c.stack, c.frames);
    } else {
      JumpStep(e, i, next, c.pos, c.caps, c.stack, c.frames, s);
    }
  }

  lemma MatchStep(e: Env, next: int, pos: nat, caps: Captures, stack: seq<nat>, frames: seq<Frame>)
    requires FramesFit(e, frames)
    ensures Fine(e, Exec(e, Match, next, pos, caps, stack, frames))
  {
    hide FramesFit;
  }

  lemma FrameStep(e: Env, c: Config)
    requires Fine(e, c) && (c.Unwind? || c.Accept?)
    ensures Fine(e, Step(e, c))
  {
    hide FramesFit, Fits;
    if c.frames != [] {
      FramesPop(e, c.frames);
      var f, rest := c.frames[|c.frames| - 1], ButTop(c.frames);
      match f.kind
      case Greedy(count) =>
        var off, chars := At(e.prog, f.pc - 1).value.off, At(e.prog, f.pc - 1).value.chars;
        FramesPush(e, rest, f.(kind := Greedy(if count <= 1 then 0 else count - 1), pos :=
          PrevN(e.subject.text, f.pos, chars)));
      case _ =>
    }
  }

  /** One step keeps the invariant. */
  lemma FineStep(e: Env, c: Config)
    requires Sound(e) && Fine(e, c)
    ensures Fine(e, Step(e, c))
  {
    hide Sound, FramesFit, Fits;
    match c
    case Run(_, _, _, _, _) => RunStep(e, c);
    case Unwind(_) => FrameStep(e, c);
    case Accept(_, _) => FrameStep(e, c);
    case _ =>
  }

  lemma {:induction false} FineSteps(e: Env, c: Config, k: nat)
    requires Sound(e) && Fine(e, c)
    ensures Fine(e, Steps(e, c, k))
    decreases k
  {
    hide Sound, Fine;
    if k != 0 {
      FineStep(e, c);
      FineSteps(e, Step(e, c), k - 1);
    }
  }
}

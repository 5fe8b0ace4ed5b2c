/** One step of the backtracking machine. */
module RegexVM {
  import opened CharSet
  import opened RegexText
  import opened RegexCode
  import opened RegexPattern

  /** Everything that stays fixed during a run. `captures` and `stackSize` come from the program header. */
  datatype Env = Env(subject: Subject, prog: Code, captures: nat, stackSize: nat)

  datatype FrameKind = OnFail | Ahead | NotAhead | Greedy(count: nat)

  /** A saved state: where to resume, and the captures and operand stack to restore. */
  datatype Frame = Frame(kind: FrameKind, pc: int, pos: nat, caps: Captures, stack: seq<nat>)

  datatype Config =
    | Run(pc: int, pos: nat, caps: Captures, stack: seq<nat>, frames: seq<Frame>)
    | Unwind(frames: seq<Frame>)                    // the `recurse` loop with ret = 0
    | Accept(caps: Captures, frames: seq<Frame>)    // the `recurse` loop with ret = 1
    | Done(matched: bool, caps: Captures)
    | Stuck                                         // an assertion, a jump or an array bound is violated

  /** Does a one-character instruction accept c? */
  predicate OpAccepts(i: Instr, c: nat)
    requires IsCharOp(i)
  {
    match i
    case Char(k) => c == k
    case Char32(k) => c == k
    case Dot => !IsLineTerminator(c)
    case Any => true
    case Range(pairs) => Range16Has(pairs, c)
    case Range32(pairs) => Range32Has(pairs, c)
  }

  predicate OpHolds(e: Subject, i: Instr, p: nat)
    requires IsAssertOp(i)
  {
    match i
    case LineStart => Holds(e, AtLineStart, p)
    case LineEnd => Holds(e, AtLineEnd, p)
    case WordBoundary => Holds(e, AtWordBoundary, p)
    case NotWordBoundary => Holds(e, NotAtWordBoundary, p)
  }

  /** A simple quantifier runs its atom by a nested call that may not backtrack. */
  datatype Inner = Ends(pos: nat) | Fails | Wrong

  function RunInner(e: Env, pc: int, pos: nat): Inner
    requires pc >= 0
    decreases Size(e.prog) - pc
  {
    match At(e.prog, pc)
    case None => Wrong
    case Some(i) =>
      if pc >= Size(e.prog) then Wrong
      else if i.Match? then Ends(pos)
      else if IsCharOp(i) then
        if pos >= |e.subject.text.units| || !OpAccepts(i, CharAt(e.subject.text, pos)) then Fails
        else RunInner(e, pc + InstrSize(i), Next(e.subject.text, pos))
      else if IsAssertOp(i) then
        if OpHolds(e.subject, i, pos) then RunInner(e, pc + InstrSize(i), pos) else Fails
      else Wrong
  }

  /** The counting loop of simple_greedy_quant: iterations made and the final position. */
  function CountInner(e: Env, pc: int, max: nat, q: nat, pos: nat): Option<(nat, nat)>
    requires pc >= 0
    decreases Left(e.subject.text, false, pos)
  {
    match RunInner(e, pc, pos)
    case Wrong => None
    case Fails => Some((q, pos))
    case Ends(p) =>
      if q + 1 >= max && max != INF then Some((q + 1, p))
      else if Left(e.subject.text, false, p) >= Left(e.subject.text, false, pos) then None
      else CountInner(e, pc, max, q + 1, p)
  }

  function Top(s: seq<nat>): nat
    requires s != []
  {
    s[|s| - 1]
  }

  function ButTop<T>(s: seq<T>): seq<T>
    requires s != []
  {
    s[..|s| - 1]
  }

  /** next is the byte after instruction i. */
  function Exec(e: Env, i: Instr, next: int, pos: nat, caps: Captures, stack: seq<nat>, frames: seq<Frame>): Config {
    var t := e.subject.text;
    if IsCharOp(i) then
      if pos >= |t.units| || !OpAccepts(i, CharAt(t, pos)) then Unwind(frames)
      else Run(next, Next(t, pos), caps, stack, frames)
    else if IsAssertOp(i) then
      if OpHolds(e.subject, i, pos) then Run(next, pos, caps, stack, frames) else Unwind(frames)
    else match i
    case Match => Accept(caps, frames)
    case Goto(off) => Run(next + off, pos, caps, stack, frames)
    case SplitNextFirst(off) =>
      Run(next, pos, caps, stack, frames + [Frame(OnFail, next + off, pos, caps, stack)])
    case SplitGotoFirst(off) =>
      Run(next + off, pos, caps, stack, frames + [Frame(OnFail, next, pos, caps, stack)])
    case Lookahead(off) =>
      Run(next, pos, caps, stack, frames + [Frame(Ahead, next + off, pos, caps, stack)])
    case NegativeLookahead(off) =>
      Run(next, pos, caps, stack, frames + [Frame(NotAhead, next + off, pos, caps, stack)])
    case SaveStart(k) => if k >= e.captures then Stuck else Run(next, pos, Save(caps, 2 * k, pos), stack, frames)
    case SaveEnd(k) => if k >= e.captures then Stuck else Run(next, pos, Save(caps, 2 * k + 1, pos), stack, frames)
    case SaveReset(first, last) =>
      if last >= e.captures then Stuck else Run(next, pos, Reset(caps, first, last), stack, frames)
    case PushI32(n) => if |stack| >= e.stackSize then Stuck else Run(next, pos, caps, stack + [n], frames)
    case PushCharPos => if |stack| >= e.stackSize then Stuck else Run(next, pos, caps, stack + [pos], frames)
    case Drop => if stack == [] then Stuck else Run(next, pos, caps, ButTop(stack), frames)
    case Loop(off) =>
      if stack == [] || Top(stack) == 0 then Stuck
      else if Top(stack) - 1 != 0 then Run(next + off, pos, caps, ButTop(stack) + [Top(stack) - 1], frames)
      else Run(next, pos, caps, ButTop(stack) + [0], frames)
    case BneCharPos(off) =>
      if stack == [] then Stuck
      else if Top(stack) != pos then Run(next + off, pos, caps, ButTop(stack), frames)
      else Run(next, pos, caps, ButTop(stack), frames)
    case BackReference(k) =>
      if k >= e.captures then Unwind(frames)
      else (match RefEnd(t, caps, k, false, pos)
            case None => Unwind(frames)
            case Some(p) => Run(next, p, caps, stack, frames))
    case BackwardBackReference(k) =>
      if k >= e.captures then Unwind(frames)
      else (match RefEnd(t, caps, k, true, pos)
            case None => Unwind(frames)
            case Some(p) => Run(next, p, caps, stack, frames))
    case StepBack => if pos == 0 then Unwind(frames) else Run(next, Prev(t, pos), caps, stack, frames)
    case SimpleGreedyQuant(off, min, max, _) =>
      if next < 0 then Stuck
      else (match CountInner(e, next, max, 0, pos)
            case None => Stuck
            case Some((q, p)) =>
              if q < min then Unwind(frames)
              else if q > min then Run(next + off, p, caps, stack,
              frames + [Frame(Greedy(q - min), next - 16, p, caps, stack)])
              else Run(next + off, p, caps, stack, frames))
  }

  /** Backtrack into the topmost frame with ret = 0. */
  function Resume(e: Env, frames: seq<Frame>): Config
    requires frames != []
  {
    var f := frames[|frames| - 1];
    var rest := ButTop(frames);
    match f.kind
    case OnFail => Run(f.pc, f.pos, f.caps, f.stack, rest)
    case NotAhead => Run(f.pc, f.pos, f.caps, f.stack, rest)
    case Ahead => Unwind(rest)
    case Greedy(count) =>
      match At(e.prog, f.pc - 1)
      case Some(SimpleGreedyQuant(off, _, _, chars)) =>
        var p := PrevN(e.subject.text, f.pos, chars);
        var pc := f.pc + 16 + off;
        if count <= 1 then Run(pc, p, f.caps, f.stack, rest)
        else Run(pc, p, f.caps, f.stack, rest + [f.(kind := Greedy(count - 1), pos := p)])
      case _ => Stuck
  }

  /** Leave the topmost frame with ret = 1 and the current captures. */
  function Leave(caps: Captures, frames: seq<Frame>): Config
    requires frames != []
  {
    var f := frames[|frames| - 1];
    var rest := ButTop(frames);
    match f.kind
    case OnFail => Accept(caps, rest)
    case Greedy(_) => Accept(caps, rest)
    case Ahead => Run(f.pc, f.pos, caps, f.stack, rest)
    case NotAhead => Unwind(rest)
  }

  function Step(e: Env, c: Config): Config {
    match c
    case Run(pc, pos, caps, stack, frames) =>
      (match At(e.prog, pc)
       case None => Stuck
       case Some(i) => Exec(e, i, pc + InstrSize(i), pos, caps, stack, frames))
    case Unwind(frames) => if frames == [] then Done(false, []) else Resume(e, frames)
    case Accept(caps, frames) => if frames == [] then Done(true, caps) else Leave(caps, frames)
    case Done(_, _) => c
    case Stuck => c
  }

  function Steps(e: Env, c: Config, n: nat): Config
    decreases n
  {
    if n == 0 then c else Steps(e, Step(e, c), n - 1)
  }

  lemma {:induction false} StepsAdd(e: Env, c: Config, m: nat, n: nat)
    ensures Steps(e, c, m + n) == Steps(e, Steps(e, c, m), n)
    decreases m
  {
    if m != 0 {
      StepsAdd(e, Step(e, c), m - 1, n);
    }
  }
}

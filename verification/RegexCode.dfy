/** The instructions of the regular expression machine, addressed by byte offset, and the
    three linear analyses that the compiler runs over emitted code. */
module RegexCode {
  import opened CharSet

  /** INT32_MAX stands for an unbounded repetition count. */
  const INF: nat := 0x7fff_ffff

  const CAPTURE_COUNT_MAX: nat := 255
  const STACK_SIZE_MAX: nat := 255

  datatype Option<+T> = None | Some(value: T)

  datatype Instr =
    | Char(c: nat)
    | Char32(c: nat)
    | Dot
    | Any
    | LineStart
    | LineEnd
    | Goto(off: int)
    | SplitGotoFirst(off: int)
    | SplitNextFirst(off: int)
    | Match
    | SaveStart(i: nat)
    | SaveEnd(i: nat)
    | SaveReset(first: nat, last: nat)
    | Loop(off: int)
    | PushI32(n: nat)
    | Drop
    | WordBoundary
    | NotWordBoundary
    | BackReference(i: nat)
    | BackwardBackReference(i: nat)
    | Range(pairs: Pairs)
    | Range32(pairs: Pairs)
    | Lookahead(off: int)
    | NegativeLookahead(off: int)
    | PushCharPos
    | BneCharPos(off: int)
    | StepBack
    | SimpleGreedyQuant(off: int, min: nat, max: nat, chars: nat)

  type Code = seq<Instr>

  /** Bytes of one instruction, operands included. */
  function InstrSize(i: Instr): nat
    ensures InstrSize(i) > 0
  {
    match i
    case Char(_) => 3
    case Char32(_) => 5
    case Goto(_) => 5
    case SplitGotoFirst(_) => 5
    case SplitNextFirst(_) => 5
    case SaveStart(_) => 2
    case SaveEnd(_) => 2
    case SaveReset(_, _) => 3
    case Loop(_) => 5
    case PushI32(_) => 5
    case BackReference(_) => 2
    case BackwardBackReference(_) => 2
    case Range(pairs) => 3 + 4 * |pairs|
    case Range32(pairs) => 3 + 8 * |pairs|
    case Lookahead(_) => 5
    case NegativeLookahead(_) => 5
    case BneCharPos(_) => 5
    case SimpleGreedyQuant(_, _, _, _) => 17
    case _ => 1
  }

  function Size(code: Code): nat {
    if code == [] then 0 else InstrSize(code[0]) + Size(code[1..])
  }

  /** The instruction that starts at byte pc, if one does. */
  function At(code: Code, pc: int): Option<Instr>
    decreases |code|
  {
    if code == [] || pc < 0 then None
    else if pc == 0 then Some(code[0])
    else At(code[1..], pc - InstrSize(code[0]))
  }

  /** The program holds the fragment `code` from byte pc on. */
  ghost predicate CodeAt(prog: Code, pc: nat, code: Code)
    decreases |code|
  {
    code == [] || (At(prog, pc) == Some(code[0]) && CodeAt(prog, pc + InstrSize(code[0]), code[1..]))
  }

  lemma {:induction false} SizeConcat(a: Code, b: Code)
    ensures Size(a + b) == Size(a) + Size(b)
  {
    if a == [] {
      assert a + b == b;
    } else {
      assert (a + b)[1..] == a[1..] + b;
      SizeConcat(a[1..], b);
    }
  }

  lemma {:induction false} AtConcat(a: Code, b: Code, k: nat)
    ensures At(a + b, Size(a) + k) == At(b, k)
  {
    if a == [] {
      assert a + b == b;
    } else {
      assert (a + b)[1..] == a[1..] + b;
      AtConcat(a[1..], b, k);
    }
  }


  /** Code is position independent: a fragment is found wherever it is placed. */
  lemma {:induction false} PlacedCodeAt(pre: Code, code: Code, post: Code)
    ensures CodeAt(pre + code + post, Size(pre), code)
    decreases |code|
  {
    if code != [] {
      var prog := pre + code + post;
      assert prog == pre + (code + post);
      AtConcat(pre, code + post, 0);
      var pre' := pre + [code[0]];
      SizeConcat(pre, [code[0]]);
      assert Size([code[0]]) == InstrSize(code[0]) + Size([code[0]][1..]);
      assert prog == pre' + code[1..] + post;
      PlacedCodeAt(pre', code[1..], post);
    }
  }

  lemma {:induction false} CodeAtConcat(prog: Code, pc: nat, a: Code, b: Code)
    ensures CodeAt(prog, pc, a + b) <==> CodeAt(prog, pc, a) && CodeAt(prog, pc + Size(a), b)
    decreases |a|
  {
    if a == [] {
      assert a + b == b;
    } else {
      assert (a + b)[1..] == a[1..] + b;
      CodeAtConcat(prog, pc + InstrSize(a[0]), a[1..], b);
    }
  }

  // ---- re_check_advance

  /** Instructions that test and consume one character. */
  predicate IsCharOp(i: Instr) {
    i.Char? || i.Char32? || i.Dot? || i.Any? || i.Range? || i.Range32?
  }

  predicate IsAssertOp(i: Instr) {
    i.LineStart? || i.LineEnd? || i.WordBoundary? || i.NotWordBoundary?
  }

  predicate IsSaveOp(i: Instr) {
    i.SaveStart? || i.SaveEnd? || i.SaveReset? || i.BackReference? || i.BackwardBackReference?
  }

  /** What one instruction does to the verdict: -2 is undecided, 1 advances, 0 is unknown. */
  function AdvanceStep(i: Instr, ret: int): int {
    if ret != -2 then ret
    else if IsCharOp(i) then 1
    else if IsAssertOp(i) || IsSaveOp(i) || i.PushI32? || i.PushCharPos? || i.Drop? || i.StepBack? then ret
    else 0
  }

  function AdvanceScan(code: Code, ret: int): int {
    if code == [] then ret else AdvanceScan(code[1..], AdvanceStep(code[0], ret))
  }

  /** { first, ..., last - 1 } */
  function Span(first: nat, last: nat): set<nat>
    decreases last - first
  {
    if first >= last then {} else {first} + Span(first + 1, last)
  }

  /** The captures an instruction writes, as the analysis sees them: the last capture of a
      reset is not counted. */
  function Writes(i: Instr): set<nat> {
    match i
    case SaveStart(k) => {k}
    case SaveEnd(k) => {k}
    case SaveReset(first, last) => Span(first, last)
    case _ => {}
  }

  function Reads(i: Instr): set<nat> {
    match i
    case BackReference(k) => {k}
    case BackwardBackReference(k) => {k}
    case _ => {}
  }

  function AllWrites(code: Code): set<nat> {
    if code == [] then {} else Writes(code[0]) + AllWrites(code[1..])
  }

  function AllReads(code: Code): set<nat> {
    if code == [] then {} else Reads(code[0]) + AllReads(code[1..])
  }

  /** 1: always advances.  0: may not advance.  -1: reads a capture that it writes itself. */
  function CheckAdvance(code: Code): int {
    if AllWrites(code) * AllReads(code) != {} then -1
    else if AdvanceScan(code, -2) == 1 then 1
    else 0
  }

  lemma {:induction false} AdvanceScanConcat(a: Code, b: Code, ret: int)
    ensures AdvanceScan(a + b, ret) == AdvanceScan(b, AdvanceScan(a, ret))
    decreases |a|
  {
    if a == [] {
      assert a + b == b;
    } else {
      assert (a + b)[1..] == a[1..] + b;
      AdvanceScanConcat(a[1..], b, AdvanceStep(a[0], ret));
    }
  }

  lemma {:induction false} AdvanceScanDecided(code: Code, ret: int)
    ensures ret != -2 ==> AdvanceScan(code, ret) == ret
    ensures ret == -2 ==> AdvanceScan(code, ret) in {-2, 0, 1}
  {
    if code != [] {
      AdvanceScanDecided(code[1..], AdvanceStep(code[0], ret));
    }
  }

  // ---- re_is_simple_quantifier

  /** -1 if the code does more than test characters and assertions, else the number of characters. */
  function SimpleCount(code: Code): int {
    if code == [] then 0
    else
      var rest := SimpleCount(code[1..]);
      if IsCharOp(code[0]) then (if rest < 0 then -1 else rest + 1)
      else if IsAssertOp(code[0]) then rest
      else -1
  }

  lemma {:induction false} SimpleCountConcat(a: Code, b: Code)
    ensures SimpleCount(a + b) == if SimpleCount(a) < 0
      || SimpleCount(b) < 0 then -1 else SimpleCount(a) + SimpleCount(b)
    ensures SimpleCount(a) >= -1
  {
    if a == [] {
      assert a + b == b;
      SimpleCountRange(b);
    } else {
      assert (a + b)[1..] == a[1..] + b;
      SimpleCountConcat(a[1..], b);
    }
  }

  lemma {:induction false} SimpleCountRange(a: Code)
    ensures SimpleCount(a) >= -1
  {
    if a != [] {
      SimpleCountRange(a[1..]);
    }
  }

  // ---- compute_stack_size

  function Delta(i: Instr): int {
    if i.PushI32? || i.PushCharPos? then 1 else if i.Drop? || i.BneCharPos? then -1 else 0
  }

  /** Operand stack effect of running straight through the code. */
  function Net(code: Code): int {
    if code == [] then 0 else Delta(code[0]) + Net(code[1..])
  }

  function Max(x: int, y: int): int { if x < y then y else x }

  /** The highest operand stack level on the way through the code, relative to its start. */
  function Peak(code: Code): nat {
    if code == [] then 0 else Max(0, Delta(code[0]) + Peak(code[1..]))
  }

  lemma {:induction false} NetPeakConcat(a: Code, b: Code)
    ensures Net(a + b) == Net(a) + Net(b)
    ensures Peak(a + b) == Max(Peak(a), Net(a) + Peak(b))
  {
    if a == [] {
      assert a + b == b;
    } else {
      assert (a + b)[1..] == a[1..] + b;
      NetPeakConcat(a[1..], b);
    }
  }
}

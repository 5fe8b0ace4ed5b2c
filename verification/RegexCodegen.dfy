/** The code that the compiler emits for each pattern, as a function of the pattern. */
module RegexCodegen {
  import opened CharSet
  import opened RegexText
  import opened RegexCode
  import opened RegexPattern

  /** re_emit_range; an empty set becomes a character that no subject contains. */
  function EmitRange(points: seq<nat>): Instr {
    if |points| < 2 then Char32(UINT32_MAX)
    else if Fits16(points) then Range(Pairs16(points))
    else Range32(Pairs32(points))
  }

  function EmitOne(s: OneChar): Instr {
    match s
    case Lit(c) => if c <= 0xffff then Char(c) else Char32(c)
    case NotLineEnd => Dot
    case AnyChar => Any
    case Class(points) => EmitRange(points)
  }

  function EmitAssert(a: Assertion): Instr {
    match a
    case AtLineStart => LineStart
    case AtLineEnd => LineEnd
    case AtWordBoundary => WordBoundary
    case NotAtWordBoundary => NotWordBoundary
  }

  /** REOP_save_start + end */
  function SaveOp(end: bool, k: nat): Instr {
    if end then SaveEnd(k) else SaveStart(k)
  }

  /** REOP_split_goto_first + next */
  function SplitOp(next: bool, off: int): Instr {
    if next then SplitNextFirst(off) else SplitGotoFirst(off)
  }

  /** Does the generic loop guard against iterations that consume nothing? */
  predicate NeedsCheck(ca: Code, greedy: bool) {
    greedy && CheckAdvance(ca) == 0
  }

  /** Does the quantifier compile to one simple_greedy_quant instruction? */
  predicate IsSimple(ca: Code, max: nat, greedy: bool) {
    greedy && max > 0 && SimpleCount(ca) > 0
  }

  function PushPos(check: bool): Code {
    if check then [PushCharPos] else []
  }

  /** split L; [push_char_pos]; atom; (bne_char_pos | goto) split; L: */
  function StarCode(ca: Code, greedy: bool, check: bool): Code {
    var len := Size(ca);
    var z := if check then 1 else 0;
    [SplitOp(greedy, len + 5 + z)] + PushPos(check) + ca
    + [if check then BneCharPos(-(len + 10 + z)) else Goto(-(len + 10 + z))]
  }

  /** push_i32 n; S: split L; atom; loop S; L: drop */
  function UpToCode(ca: Code, n: nat, greedy: bool): Code {
    var len := Size(ca);
    [PushI32(n), SplitOp(greedy, len + 5)] + ca + [Loop(-(len + 10)), Drop]
  }

  /** push_i32 n; A: atom; loop A; drop */
  function ExactlyCode(ca: Code, n: nat): Code {
    if n == 1 then ca else [PushI32(n)] + ca + [Loop(-(Size(ca) + 5)), Drop]
  }

  function ResetCode(cc: nat, groups: nat): Code {
    if groups > 0 then [SaveReset(cc, cc + groups - 1)] else []
  }

  /** A quantifier whose minimum is 0, after the captures are reset. */
  function OptionalCode(ca: Code, max: nat, greedy: bool, check: bool): Code {
    if max == 0 then []
    else if max == 1 then [SplitOp(greedy, Size(ca))] + ca
    else if max >= INF then StarCode(ca, greedy, check)
    else UpToCode(ca, max, greedy)
  }

  /** What follows the mandatory iterations when the minimum is not 0. */
  function MoreCode(ca: Code, min: nat, max: nat, greedy: bool, check: bool): Code {
    if max >= INF then StarCode(ca, greedy, check)
    else if max > min then UpToCode(ca, max - min, greedy)
    else []
  }

  function QuantCode(ca: Code, cc: nat, groups: nat, min: nat, max: nat, greedy: bool): Code {
    var check := NeedsCheck(ca, greedy);
    if IsSimple(ca, max, greedy) then
      [SimpleGreedyQuant(Size(ca) + 1, min, max, SimpleCount(ca))] + ca + [Match]
    else if min == 0 then ResetCode(cc, groups) + OptionalCode(ca, max, greedy, check)
    else if min == 1 && max >= INF && !check then ca + [SplitOp(!greedy, -(Size(ca) + 5))]
    else ExactlyCode(ca, min) + MoreCode(ca, min, max, greedy, check)
  }

  /** `cc` is the number of the pattern's first group; `back` is set inside a lookbehind. */
  function CodeOf(r: Pattern, back: bool, cc: nat): Code {
    match r
    case Empty => []
    case One(s) => if back then [StepBack, EmitOne(s), StepBack] else [EmitOne(s)]
    case Assert(a) => [EmitAssert(a)]
    case BackRef(k) => if back then [BackwardBackReference(k)] else [BackReference(k)]
    case Cat(a, b) =>
      var ca := CodeOf(a, back, cc);
      var cb := CodeOf(b, back, cc + Groups(a));
      if back then cb + ca else ca + cb
    case Alt(a, b) =>
      var ca := CodeOf(a, back, cc);
      var cb := CodeOf(b, back, cc + Groups(a));
      [SplitNextFirst(Size(ca) + 5)] + ca + [Goto(Size(cb))] + cb
    case Group(a) => [SaveOp(back, cc)] + CodeOf(a, back, cc + 1) + [SaveOp(!back, cc)]
    case Look(behind, negative, a) =>
      var ca := CodeOf(a, behind, cc);
      [if negative then NegativeLookahead(Size(ca) + 1) else Lookahead(Size(ca) + 1)] + ca + [Match]
    case Quant(a, min, max, greedy) => QuantCode(CodeOf(a, back, cc), cc, Groups(a), min, max, greedy)
  }

  /** The search loop in front of a non-sticky program: split_goto_first 6; any; goto -11. */
  function SearchCode(sticky: bool): Code {
    if sticky then [] else [SplitGotoFirst(6), Any, Goto(-11)]
  }

  function Program(r: Pattern, sticky: bool): Code {
    SearchCode(sticky) + [SaveStart(0)] + CodeOf(r, false, 1) + [SaveEnd(0), Match]
  }

  /** Syntactically, every match of the pattern consumes a character. */
  predicate Consumes(r: Pattern) {
    match r
    case One(_) => true
    case Cat(a, b) => Consumes(a) || Consumes(b)
    case Alt(a, b) => Consumes(a) && Consumes(b)
    case Group(a) => Consumes(a)
    case Quant(a, min, _, _) => min > 0 && Consumes(a)
    case _ => false
  }

  /** The compiler guards unbounded repetitions against empty iterations, except lazy ones and
      those whose atom refers back to a capture of its own.  There the atom itself must consume. */
  predicate Guarded(r: Pattern, back: bool, cc: nat) {
    match r
    case Cat(a, b) => Guarded(a, back, cc) && Guarded(b, back, cc + Groups(a))
    case Alt(a, b) => Guarded(a, back, cc) && Guarded(b, back, cc + Groups(a))
    case Group(a) => Guarded(a, back, cc + 1)
    case Look(behind, _, a) => Guarded(a, behind, cc)
    case Quant(a, _, max, greedy) =>
      && Guarded(a, back, cc)
      && (max >= INF && (!greedy || CheckAdvance(CodeOf(a, back, cc)) == -1) ==> Consumes(a))
    case _ => true
  }

  lemma CatUnfolds(a: Pattern, b: Pattern, back: bool, cc: nat)
    ensures var ca := CodeOf(a, back, cc); var cb := CodeOf(b, back, cc + Groups(a));
      CodeOf(Cat(a, b), back, cc) == if back then cb + ca else ca + cb
    ensures WellFormed(Cat(a, b)) == (WellFormed(a) && WellFormed(b))
    ensures Guarded(Cat(a, b), back, cc) == (Guarded(a, back, cc) && Guarded(b, back, cc + Groups(a)))
    ensures Groups(Cat(a, b)) == Groups(a) + Groups(b)
  {
    hide QuantCode, Size, EmitOne, EmitAssert, CheckAdvance, Consumes, Canonical;
  }

  lemma AltUnfolds(a: Pattern, b: Pattern, back: bool, cc: nat)
    ensures var ca := CodeOf(a, back, cc); var cb := CodeOf(b, back, cc + Groups(a));
      CodeOf(Alt(a, b), back, cc) == [SplitNextFirst(Size(ca) + 5)] + ca + [Goto(Size(cb))] + cb
    ensures WellFormed(Alt(a, b)) == (WellFormed(a) && WellFormed(b))
    ensures Guarded(Alt(a, b), back, cc) == (Guarded(a, back, cc) && Guarded(b, back, cc + Groups(a)))
    ensures Groups(Alt(a, b)) == Groups(a) + Groups(b)
  {
    hide QuantCode, Size, EmitOne, EmitAssert, CheckAdvance, Consumes, Canonical;
  }

  lemma LookUnfolds(behind: bool, negative: bool, a: Pattern, back: bool, cc: nat)
    ensures var ca := CodeOf(a, behind, cc);
      CodeOf(Look(behind, negative, a), back, cc)
      == [if negative then NegativeLookahead(Size(ca) + 1) else Lookahead(Size(ca) + 1)] + ca + [Match]
    ensures WellFormed(Look(behind, negative, a)) == WellFormed(a)
    ensures Guarded(Look(behind, negative, a), back, cc) == Guarded(a, behind, cc)
    ensures Groups(Look(behind, negative, a)) == Groups(a)
  {
    hide QuantCode, Size, EmitOne, EmitAssert, CheckAdvance, Consumes, Canonical;
  }

  lemma GroupUnfolds(a: Pattern, back: bool, cc: nat)
    ensures CodeOf(Group(a), back, cc) == [SaveOp(back, cc)] + CodeOf(a, back, cc + 1) + [SaveOp(!back, cc)]
    ensures WellFormed(Group(a)) == WellFormed(a) && Guarded(Group(a), back, cc) == Guarded(a, back, cc + 1)
    ensures Groups(Group(a)) == 1 + Groups(a)
  {
  }
}

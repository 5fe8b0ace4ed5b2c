/** The patterns for which the compiled program always halts, by shape: no back reference, and under a lazy
    unbounded quantifier only atoms that consume a character. */
module RegexFragment {
  import opened CharSet
  import opened RegexCode
  import opened RegexPattern
  import opened RegexCodegen
  import opened RegexVM
  import opened RegexSim
  import opened RegexText
  import opened RegexTheorem
  import opened RegexAtoms

  predicate RefFree(r: Pattern) {
    match r
    case BackRef(_) => false
    case Cat(a, b) => RefFree(a) && RefFree(b)
    case Alt(a, b) => RefFree(a) && RefFree(b)
    case Group(a) => RefFree(a)
    case Look(_, _, a) => RefFree(a)
    case Quant(a, _, _, _) => RefFree(a)
    case _ => true
  }

  predicate LazyConsumes(r: Pattern) {
    match r
    case Cat(a, b) => LazyConsumes(a) && LazyConsumes(b)
    case Alt(a, b) => LazyConsumes(a) && LazyConsumes(b)
    case Group(a) => LazyConsumes(a)
    case Look(_, _, a) => LazyConsumes(a)
    case Quant(a, _, max, greedy) => LazyConsumes(a) && (max >= INF && !greedy ==> Consumes(a))
    case _ => true
  }

  predicate ReadsNone(code: Code) {
    forall i :: 0 <= i < |code| ==> Reads(code[i]) == {}
  }

  lemma {:induction false} NoReads(code: Code)
    requires ReadsNone(code)
    ensures AllReads(code) == {}
  {
    if code != [] {
      assert forall i :: 0 <= i < |code[1..]| ==> code[1..][i] == code[i + 1];
      NoReads(code[1..]);
    }
  }

  lemma ReadsConcat(a: Code, b: Code)
    requires ReadsNone(a) && ReadsNone(b)
    ensures ReadsNone(a + b)
  {
  }

  lemma StarReads(ca: Code, greedy: bool, check: bool)
    requires ReadsNone(ca)
    ensures ReadsNone(StarCode(ca, greedy, check))
  {
    hide Size;
    var head := [SplitOp(greedy, Size(ca) + 5 + (if check then 1 else 0))] + PushPos(check);
    ReadsConcat(head, ca);
  }

  lemma UpToReads(ca: Code, n: nat, greedy: bool)
    requires ReadsNone(ca)
    ensures ReadsNone(UpToCode(ca, n, greedy)) && ReadsNone(ExactlyCode(ca, n))
  {
    hide Size;
    ReadsConcat([PushI32(n), SplitOp(greedy, Size(ca) + 5)], ca);
    ReadsConcat([PushI32(n)], ca);
  }

  lemma OptionalReads(ca: Code, min: nat, max: nat, greedy: bool, check: bool)
    requires ReadsNone(ca)
    ensures ReadsNone(OptionalCode(ca, max, greedy, check)) && ReadsNone(MoreCode(ca, min, max, greedy, check))
  {
    hide Size, StarCode, UpToCode;
    StarReads(ca, greedy, check);
    UpToReads(ca, max, greedy);
    if max > min {
      UpToReads(ca, max - min, greedy);
    }
    ReadsConcat([SplitOp(greedy, Size(ca))], ca);
  }

  lemma QuantReads(ca: Code, cc: nat, groups: nat, min: nat, max: nat, greedy: bool)
    requires ReadsNone(ca)
    ensures ReadsNone(QuantCode(ca, cc, groups, min, max, greedy))
  {
    hide Size, SimpleCount, NeedsCheck, ReadsNone, OptionalCode, MoreCode, ExactlyCode;
    var check := NeedsCheck(ca, greedy);
    OptionalReads(ca, min, max, greedy, check);
    UpToReads(ca, min, greedy);
    if IsSimple(ca, max, greedy) {
      PlainReads(SimpleGreedyQuant(Size(ca) + 1, min, max, SimpleCount(ca)));
      PlainReads(Match);
      ReadsConcat([SimpleGreedyQuant(Size(ca) + 1, min, max, SimpleCount(ca))], ca);
      ReadsConcat([SimpleGreedyQuant(Size(ca) + 1, min, max, SimpleCount(ca))] + ca, [Match]);
    } else if min == 0 {
      ResetReads(cc, groups);
      ReadsConcat(ResetCode(cc, groups), OptionalCode(ca, max, greedy, check));
    } else if min == 1 && max >= INF && !check {
      PlainReads(SplitOp(!greedy, -(Size(ca) + 5)));
      ReadsConcat(ca, [SplitOp(!greedy, -(Size(ca) + 5))]);
    } else {
      ReadsConcat(ExactlyCode(ca, min), MoreCode(ca, min, max, greedy, check));
    }
  }

  lemma PlainReads(i: Instr)
    requires Reads(i) == {}
    ensures ReadsNone([i])
  {
  }

  lemma ResetReads(cc: nat, groups: nat)
    ensures ReadsNone(ResetCode(cc, groups))
  {
  }

  lemma {:induction false} RefFreeReads(r: Pattern, back: bool, cc: nat)
    requires RefFree(r)
    ensures ReadsNone(CodeOf(r, back, cc))
  {
    hide Size, QuantCode, Groups;
    match r
    case Cat(a, b) =>
      RefFreeReads(a, back, cc);
      RefFreeReads(b, back, cc + Groups(a));
    case Alt(a, b) =>
      RefFreeReads(a, back, cc);
      RefFreeReads(b, back, cc + Groups(a));
    case Group(a) => RefFreeReads(a, back, cc + 1);
    case Look(behind, _, a) => RefFreeReads(a, behind, cc);
    case Quant(a, min, max, greedy) =>
      RefFreeReads(a, back, cc);
      QuantReads(CodeOf(a, back, cc), cc, Groups(a), min, max, greedy);
    case _ =>
  }

  lemma {:induction false} FragmentGuarded(r: Pattern, back: bool, cc: nat)
    requires RefFree(r) && LazyConsumes(r)
    ensures Guarded(r, back, cc)
  {
    hide CodeOf;
    match r
    case Cat(a, b) =>
      FragmentGuarded(a, back, cc);
      FragmentGuarded(b, back, cc + Groups(a));
    case Alt(a, b) =>
      FragmentGuarded(a, back, cc);
      FragmentGuarded(b, back, cc + Groups(a));
    case Group(a) => FragmentGuarded(a, back, cc + 1);
    case Look(behind, _, a) => FragmentGuarded(a, behind, cc);
    case Quant(a, _, _, _) =>
      FragmentGuarded(a, back, cc);
      RefFreeReads(a, back, cc);
      NoReads(CodeOf(a, back, cc));
    case _ =>
  }

  /** Every pattern of the fragment, compiled, halts on every text with the answer of the reference matcher. */
  lemma FragmentCorrect(e: Env, r: Pattern, sticky: bool, p: nat)
    requires WellFormed(r) && RefFree(r) && LazyConsumes(r) && ValidText(e.subject.text) && Aligned(e.subject.text, p)
    requires e.prog == Program(r, sticky) && e.captures == 1 + Groups(r) && Peak(e.prog) <= e.stackSize
    ensures Reaches(e, Start(e, p), Answer(Find(e.subject, r, sticky, p)))
  {
    hide *;
    FragmentGuarded(r, false, 1);
    CompiledIs(e, r, sticky);
    ExecCorrect(e, r, sticky, p);
  }

  lemma CompiledIs(e: Env, r: Pattern, sticky: bool)
    requires WellFormed(r) && Guarded(r, false, 1) && ValidText(e.subject.text)
    requires e.prog == Program(r, sticky) && e.captures == 1 + Groups(r) && Peak(e.prog) <= e.stackSize
    ensures Compiled(e, r, sticky)
  {
  }
}

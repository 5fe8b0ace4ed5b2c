/** The one-pass compiler: it appends to a code buffer, inserts instructions in front of code already
    emitted, patches jumps and copies atoms. */
module RegexCompiler {
  import opened CharSet
  import opened RegexCode
  import opened RegexPattern
  import opened RegexCodegen
  import opened RegexTheorem

  /** re_check_advance */
  method ComputeCheckAdvance(code: Code) returns (ret: int)
    ensures ret == CheckAdvance(code)
  {
    ret := -2;
    var pos := 0;
    var hasBackReference := false;
    var written, referenced: set<nat> := {}, {};
    while pos < |code|
      invariant 0 <= pos <= |code|
      invariant AdvanceScan(code[pos..], ret) == AdvanceScan(code, -2)
      invariant written + AllWrites(code[pos..]) == AllWrites(code)
      invariant referenced + AllReads(code[pos..]) == AllReads(code)
      invariant hasBackReference <==> referenced != {}
    {
      var i := code[pos];
      assert code[pos..][1..] == code[pos + 1..];
      if IsCharOp(i) {
        if ret == -2 {
          ret := 1;
        }
      } else if i.SaveStart? || i.SaveEnd? {
        written := written + {i.i};
      } else if i.SaveReset? {
        written := written + Span(i.first, i.last);
      } else if i.BackReference? || i.BackwardBackReference? {
        referenced := referenced + {i.i};
        hasBackReference := true;
      } else if IsAssertOp(i) || i.PushI32? || i.PushCharPos? || i.Drop? || i.StepBack? {
      } else if ret == -2 {
        ret := 0;
      }
      pos := pos + 1;
    }
    assert code[pos..] == [];
    AdvanceScanDecided(code, -2);
    if hasBackReference && written * referenced != {} {
      return -1;
    }
    if ret == -2 {
      ret := 0;
    }
  }

  /** re_is_simple_quantifier */
  method ComputeSimpleCount(code: Code) returns (count: int)
    ensures count == SimpleCount(code)
  {
    count := 0;
    var pos := 0;
    assert code[0..] == code;
    SimpleCountRange(code);
    while pos < |code|
      invariant 0 <= pos <= |code| && count >= 0
      invariant SimpleCount(code) == if SimpleCount(code[pos..]) < 0 then -1 else count + SimpleCount(code[pos..])
    {
      assert code[pos..][1..] == code[pos + 1..];
      if IsCharOp(code[pos]) {
        count := count + 1;
      } else if !IsAssertOp(code[pos]) {
        return -1;
      }
      pos := pos + 1;
    }
    assert code[pos..] == [];
  }

  /** compute_stack_size: -1 when more than 255 entries are needed. */
  method ComputeStackSize(code: Code) returns (max: int)
    ensures max == if Peak(code) > STACK_SIZE_MAX then -1 else Peak(code)
  {
    var size := 0;
    max := 0;
    var pos := 0;
    while pos < |code|
      invariant 0 <= pos <= |code| && 0 <= max <= STACK_SIZE_MAX && size <= max
      invariant Peak(code) == Max(max, size + Peak(code[pos..]))
    {
      assert code[pos..][1..] == code[pos + 1..];
      if code[pos].PushI32? || code[pos].PushCharPos? {
        size := size + 1;
        if size > max {
          if size > STACK_SIZE_MAX {
            return -1;
          }
          max := size;
        }
      } else if code[pos].Drop? || code[pos].BneCharPos? {
        size := size - 1;
      }
      pos := pos + 1;
    }
    assert code[pos..] == [];
  }

  /** re_emit_goto: the operand that makes an instruction emitted at the end of `code` jump to the
      instruction with index `target`. */
  function JumpTo(code: Code, target: nat): int
    requires target <= |code|
  {
    Size(code[..target]) - (Size(code) + 5)
  }

  lemma JumpOverSuffix(pre: Code, post: Code)
    ensures JumpTo(pre + post, |pre|) == -(Size(post) + 5)
  {
    assert (pre + post)[..|pre|] == pre;
    SizeConcat(pre, post);
  }

  class Compiler {
    var code: Code
    var captureCount: nat

    constructor ()
      ensures code == [] && captureCount == 1
    {
      code := [];
      captureCount := 1;
    }

    method Emit(i: Instr)
      modifies this`code
      ensures code == old(code) + [i]
    {
      code := code + [i];
    }

    /** dbuf_insert and the write into the gap */
    method Insert(pos: nat, i: Instr)
      requires pos <= |code|
      modifies this`code
      ensures code == old(code[..pos] + [i] + code[pos..])
    {
      code := code[..pos] + [i] + code[pos..];
    }

    /** In front of the atom at the end of the buffer: split, [push_char_pos]; behind it: a jump back. */
    method WrapStar(start: nat, greedy: bool, check: bool)
      requires start <= |code|
      modifies this`code
      ensures code == old(code[..start] + StarCode(code[start..], greedy, check))
    {
      hide Size;
      ghost var pre, ca := code[..start], code[start..];
      var len := Size(code[start..]);
      if check {
        Insert(start, PushCharPos);
      }
      Insert(start, SplitOp(greedy, len + 5 + if check then 1 else 0));
      ghost var body := [SplitOp(greedy, len + 5 + if check then 1 else 0)] + PushPos(check) + ca;
      assert code == pre + body;
      JumpOverSuffix(pre, body);
      StarBodySize(ca, greedy, check);
      var off := JumpTo(code, start);
      Emit(if check then BneCharPos(off) else Goto(off));
      assert code == pre + (body + [if check then BneCharPos(off) else Goto(off)]);
    }

    /** push_i32, split in front of the atom at the end of the buffer; loop, drop behind it. */
    method WrapUpTo(start: nat, n: nat, greedy: bool)
      requires start <= |code|
      modifies this`code
      ensures code == old(code[..start] + UpToCode(code[start..], n, greedy))
    {
      hide Size, JumpTo;
      ghost var pre, ca := code[..start], code[start..];
      var len := Size(code[start..]);
      Insert(start, SplitOp(greedy, len + 5));
      Insert(start, PushI32(n));
      ghost var body := [SplitOp(greedy, len + 5)] + ca;
      assert code == (pre + [PushI32(n)]) + body;
      JumpOverSuffix(pre + [PushI32(n)], body);
      PrefixSize(SplitOp(greedy, len + 5), ca);
      var off := JumpTo(code, start + 1);
      Emit(Loop(off));
      Emit(Drop);
      assert code == pre + ([PushI32(n), SplitOp(greedy, len + 5)] + ca + [Loop(off), Drop]);
    }

    /** push_i32 in front of the atom at the end of the buffer; loop, drop behind it. */
    method WrapExactly(start: nat, n: nat)
      requires start <= |code| && n != 1
      modifies this`code
      ensures code == old(code[..start] + ExactlyCode(code[start..], n))
    {
      hide Size;
      ghost var pre, ca := code[..start], code[start..];
      Insert(start, PushI32(n));
      assert code == (pre + [PushI32(n)]) + ca;
      JumpOverSuffix(pre + [PushI32(n)], ca);
      var off := JumpTo(code, start + 1);
      Emit(Loop(off));
      Emit(Drop);
      assert code == pre + ([PushI32(n)] + ca + [Loop(off), Drop]);
    }

    /** split, [push_char_pos], a copy of the atom, a jump back, at the end of the buffer. */
    method AppendStar(atom: nat, count: nat, greedy: bool, check: bool)
      requires atom + count <= |code|
      modifies this`code
      ensures code == old(code + StarCode(code[atom..atom + count], greedy, check))
    {
      hide Size;
      ghost var pre, ca := code, code[atom..atom + count];
      var start := |code|;
      var len := Size(code[atom..atom + count]);
      Emit(SplitOp(greedy, len + 5 + if check then 1 else 0));
      if check {
        Emit(PushCharPos);
      }
      assert code[atom..atom + count] == ca;
      code := code + code[atom..atom + count];
      ghost var body := [SplitOp(greedy, len + 5 + if check then 1 else 0)] + PushPos(check) + ca;
      assert code == pre + body;
      JumpOverSuffix(pre, body);
      StarBodySize(ca, greedy, check);
      var off := JumpTo(code, start);
      Emit(if check then BneCharPos(off) else Goto(off));
      assert code == pre + (body + [if check then BneCharPos(off) else Goto(off)]);
    }

    /** push_i32, split, a copy of the atom, loop, drop, at the end of the buffer. */
    method AppendUpTo(atom: nat, count: nat, n: nat, greedy: bool)
      requires atom + count <= |code|
      modifies this`code
      ensures code == old(code + UpToCode(code[atom..atom + count], n, greedy))
    {
      hide Size;
      ghost var pre, ca := code, code[atom..atom + count];
      var len := Size(code[atom..atom + count]);
      Emit(PushI32(n));
      var start := |code|;
      Emit(SplitOp(greedy, len + 5));
      assert code[atom..atom + count] == ca;
      code := code + code[atom..atom + count];
      ghost var body := [SplitOp(greedy, len + 5)] + ca;
      assert code == (pre + [PushI32(n)]) + body;
      JumpOverSuffix(pre + [PushI32(n)], body);
      PrefixSize(SplitOp(greedy, len + 5), ca);
      var off := JumpTo(code, start);
      Emit(Loop(off));
      Emit(Drop);
      assert code == pre + ([PushI32(n), SplitOp(greedy, len + 5)] + ca + [Loop(off), Drop]);
    }

    /** A quantifier whose minimum is 0, on the atom at the end of the buffer. */
    method QuantifyOptional(start: nat, lastCaptureCount: nat, max: nat, greedy: bool, check: bool)
      requires start <= |code| && lastCaptureCount <= captureCount
      modifies this`code
      ensures code == old(code[..start] + (ResetCode(lastCaptureCount, captureCount - lastCaptureCount)
                                           + OptionalCode(code[start..], max, greedy, check)))
    {
      hide OptionalCode, ResetCode;
      ghost var pre, ca := code[..start], code[start..];
      ghost var reset := ResetCode(lastCaptureCount, captureCount - lastCaptureCount);
      var at := InsertReset(start, lastCaptureCount);
      assert code[..at] == pre + reset && code[at..] == ca;
      WrapOptional(at, max, greedy, check);
    }

    /** save_reset, when the atom has captures; the atom then starts at the returned index. */
    method InsertReset(start: nat, lastCaptureCount: nat) returns (at: nat)
      requires start <= |code| && lastCaptureCount <= captureCount
      modifies this`code
      ensures var reset := ResetCode(lastCaptureCount, captureCount - lastCaptureCount);
        at == start + |reset| && code == old(code[..start]) + reset + old(code[start..])
    {
      at := start;
      if lastCaptureCount != captureCount {
        Insert(at, SaveReset(lastCaptureCount, captureCount - 1));
        at := at + 1;
      }
    }

    /** The code of at most max rounds, around the atom at the end of the buffer. */
    method WrapOptional(at: nat, max: nat, greedy: bool, check: bool)
      requires at <= |code|
      modifies this`code
      ensures code == old(code[..at] + OptionalCode(code[at..], max, greedy, check))
    {
      hide Size, StarCode, UpToCode;
      if max == 0 {
        code := code[..at];
      } else if max == 1 {
        Insert(at, SplitOp(greedy, Size(code[at..])));
      } else if max >= INF {
        WrapStar(at, greedy, check);
      } else {
        WrapUpTo(at, max, greedy);
      }
    }

    /** A quantifier whose minimum is not 0, on the atom at the end of the buffer. */
    method QuantifyAtLeast(start: nat, min: nat, max: nat, greedy: bool, check: bool)
      requires start <= |code| && 0 < min <= max && !(min == 1 && max >= INF && !check)
      modifies this`code
      ensures code == old(code[..start]
        + (ExactlyCode(code[start..], min) + MoreCode(code[start..], min, max, greedy, check)))
    {
      hide Size, StarCode, UpToCode;
      ghost var pre, ca := code[..start], code[start..];
      var count := |code| - start;
      var atom := start;
      if min != 1 {
        WrapExactly(start, min);
        atom := atom + 1;
      }
      ghost var first := ExactlyCode(ca, min);
      assert code == pre + first;
      AtomInside(pre, ca, min);
      if max >= INF {
        AppendStar(atom, count, greedy, check);
      } else if max > min {
        AppendUpTo(atom, count, max - min, greedy);
      }
      assert code == (pre + first) + MoreCode(ca, min, max, greedy, check);
    }

    /** The quantifier part of re_parse_term, on the atom at the end of the buffer. */
    method Quantify(start: nat, lastCaptureCount: nat, min: nat, max: nat, greedy: bool)
      requires start <= |code| && lastCaptureCount <= captureCount && min <= max <= INF
      modifies this`code
      ensures code == old(code[..start]
        + QuantCode(code[start..], lastCaptureCount, captureCount - lastCaptureCount, min, max, greedy))
    {
      hide Size, ResetCode, OptionalCode, ExactlyCode, MoreCode, CheckAdvance, SimpleCount;
      ghost var pre, ca := code[..start], code[start..];
      var check := false;
      if greedy {
        if max > 0 {
          var len := ComputeSimpleCount(code[start..]);
          if len > 0 {
            Emit(Match);
            assert code[start..] == ca + [Match];
            SuffixSize(ca, Match);
            Insert(start, SimpleGreedyQuant(Size(code[start..]), min, max, len));
            assert code == pre + ([SimpleGreedyQuant(Size(ca) + 1, min, max, len)] + ca + [Match]);
            return;
          }
        }
        var advance := ComputeCheckAdvance(code[start..]);
        check := advance == 0;
      }
      assert !IsSimple(ca, max, greedy) && check == NeedsCheck(ca, greedy);
      if min == 0 {
        QuantifyOptional(start, lastCaptureCount, max, greedy, check);
      } else if min == 1 && max >= INF && !check {
        assert code == pre + ca;
        JumpOverSuffix(pre, ca);
        Emit(SplitOp(!greedy, JumpTo(code, start)));
        assert code == pre + (ca + [SplitOp(!greedy, -(Size(ca) + 5))]);
      } else {
        QuantifyAtLeast(start, min, max, greedy, check);
      }
    }

    /** re_parse_term, re_parse_alternative and re_parse_disjunction on a parsed pattern.  Fails on the
        group that would be number 255 and on a class with too many intervals. */
    method Compile(r: Pattern, back: bool) returns (ok: bool)
      requires WellFormed(r) && captureCount <= CAPTURE_COUNT_MAX
      modifies this
      ensures ok <==> old(captureCount) + Groups(r) <= CAPTURE_COUNT_MAX && ShortClasses(r)
      ensures ok ==>
        code == old(code) + CodeOf(r, back, old(captureCount)) && captureCount == old(captureCount) + Groups(r)
      ensures captureCount <= CAPTURE_COUNT_MAX
      decreases r, 1
    {
      ok := true;
      match r
      case Empty =>
      case One(s) =>
        ok := CompileOne(s, back);
      case Assert(a) =>
        Emit(EmitAssert(a));
      case BackRef(k) =>
        Emit(if back then BackwardBackReference(k) else BackReference(k));
      case Cat(_, _) =>
        ok := CompileCat(r, back);
      case Alt(_, _) =>
        ok := CompileAlt(r, back);
      case Group(_) =>
        ok := CompileGroup(r, back);
      case Look(_, _, _) =>
        ok := CompileLook(r, back);
      case Quant(a, min, max, greedy) =>
        var start, lastCaptureCount := |code|, captureCount;
        ok := Compile(a, back);
        if ok {
          assert code[..start] == old(code) && code[start..] == CodeOf(a, back, lastCaptureCount);
          Quantify(start, lastCaptureCount, min, max, greedy);
        }
    }

    method CompileOne(s: OneChar, back: bool) returns (ok: bool)
      modifies this`code
      ensures ok <==> ShortClasses(One(s))
      ensures ok ==> code == old(code) + CodeOf(One(s), back, captureCount)
    {
      ghost var pre := code;
      if s.Class? && |s.points| / 2 >= 65535 {
        return false;
      }
      if back {
        Emit(StepBack);
      }
      Emit(EmitOne(s));
      if back {
        Emit(StepBack);
      }
      assert code == pre + CodeOf(One(s), back, captureCount);
      return true;
    }

    /** Terms in sequence; in a lookbehind each new term is rotated in front of the previous ones. */
    method CompileCat(r: Pattern, back: bool) returns (ok: bool)
      requires r.Cat? && WellFormed(r) && captureCount <= CAPTURE_COUNT_MAX
      modifies this
      ensures ok <==> old(captureCount) + Groups(r) <= CAPTURE_COUNT_MAX && ShortClasses(r)
      ensures ok ==>
        code == old(code) + CodeOf(r, back, old(captureCount)) && captureCount == old(captureCount) + Groups(r)
      ensures captureCount <= CAPTURE_COUNT_MAX
      decreases r, 0
    {
      hide Size, CodeOf, WellFormed, Groups, ShortClasses;
      PairParts(r, back, captureCount);
      ghost var pre := code;
      var start := |code|;
      ok := Compile(r.left, back);
      if !ok {
        return;
      }
      ghost var ca := CodeOf(r.left, back, old(captureCount));
      var termStart := |code|;
      ok := Compile(r.right, back);
      if !ok {
        return;
      }
      ghost var cb := CodeOf(r.right, back, old(captureCount) + Groups(r.left));
      assert code == pre + ca + cb;
      if back {
        assert code[..start] == pre && code[start..termStart] == ca && code[termStart..] == cb;
        code := code[..start] + code[termStart..] + code[start..termStart];
        assert code == pre + (cb + ca);
      } else {
        assert code == pre + (ca + cb);
      }
    }

    /** A split is inserted in front of the first alternative and the goto behind it is patched afterwards. */
    method CompileAlt(r: Pattern, back: bool) returns (ok: bool)
      requires r.Alt? && WellFormed(r) && captureCount <= CAPTURE_COUNT_MAX
      modifies this
      ensures ok <==> old(captureCount) + Groups(r) <= CAPTURE_COUNT_MAX && ShortClasses(r)
      ensures ok ==>
        code == old(code) + CodeOf(r, back, old(captureCount)) && captureCount == old(captureCount) + Groups(r)
      ensures captureCount <= CAPTURE_COUNT_MAX
      decreases r, 0
    {
      hide Size, CodeOf, WellFormed, Groups, ShortClasses;
      PairParts(r, back, captureCount);
      ghost var pre := code;
      var start := |code|;
      ok := Compile(r.left, back);
      if !ok {
        return;
      }
      ghost var ca := CodeOf(r.left, back, old(captureCount));
      assert code[..start] == pre && code[start..] == ca;
      var split := SplitNextFirst(Size(code[start..]) + 5);
      Insert(start, split);
      var pos := |code|;
      Emit(Goto(0));
      ghost var front := pre + [split] + ca;
      assert code == front + [Goto(0)];
      ok := Compile(r.right, back);
      if !ok {
        return;
      }
      ghost var cb := CodeOf(r.right, back, old(captureCount) + Groups(r.left));
      assert code[pos + 1..] == cb;
      code := code[pos := Goto(Size(code[pos + 1..]))];
      assert code == front + [Goto(Size(cb))] + cb;
      assert code == pre + ([split] + ca + [Goto(Size(cb))] + cb);
    }

    method CompileGroup(r: Pattern, back: bool) returns (ok: bool)
      requires r.Group? && WellFormed(r) && captureCount <= CAPTURE_COUNT_MAX
      modifies this
      ensures ok <==> old(captureCount) + Groups(r) <= CAPTURE_COUNT_MAX && ShortClasses(r)
      ensures ok ==>
        code == old(code) + CodeOf(r, back, old(captureCount)) && captureCount == old(captureCount) + Groups(r)
      ensures captureCount <= CAPTURE_COUNT_MAX
      decreases r, 0
    {
      hide CodeOf, Groups, WellFormed, Guarded;
      GroupUnfolds(r.body, back, captureCount);
      if captureCount >= CAPTURE_COUNT_MAX {
        return false;
      }
      ghost var pre := code;
      var captureIndex := captureCount;
      captureCount := captureCount + 1;
      Emit(SaveOp(back, captureIndex));
      ok := Compile(r.body, back);
      if ok {
        Emit(SaveOp(!back, captureIndex));
        assert code == pre + CodeOf(r, back, captureIndex);
      }
    }

    /** The lookahead operand is patched once the end of its body is known. */
    method CompileLook(r: Pattern, back: bool) returns (ok: bool)
      requires r.Look? && WellFormed(r) && captureCount <= CAPTURE_COUNT_MAX
      modifies this
      ensures ok <==> old(captureCount) + Groups(r) <= CAPTURE_COUNT_MAX && ShortClasses(r)
      ensures ok ==>
        code == old(code) + CodeOf(r, back, old(captureCount)) && captureCount == old(captureCount) + Groups(r)
      ensures captureCount <= CAPTURE_COUNT_MAX
      decreases r, 0
    {
      hide Size, CodeOf, WellFormed, Groups, ShortClasses;
      LookParts(r, back, captureCount);
      ghost var pre := code;
      var pos := |code|;
      Emit(if r.negative then NegativeLookahead(0) else Lookahead(0));
      ok := Compile(r.body, r.behind);
      if ok {
        ghost var ca := CodeOf(r.body, r.behind, old(captureCount));
        Emit(Match);
        assert code[pos + 1..] == ca + [Match];
        SuffixSize(ca, Match);
        var off := Size(code[pos + 1..]);
        code := code[pos := if r.negative then NegativeLookahead(off) else Lookahead(off)];
        assert code == pre + ([if r.negative then NegativeLookahead(off) else Lookahead(off)] + ca + [Match]);
      }
    }
  }

  /** The atom inside the code of its first min rounds. */
  lemma AtomInside(pre: Code, ca: Code, min: nat)
    ensures var code := pre + ExactlyCode(ca, min); var at := if min == 1 then |pre| else |pre| + 1;
      at + |ca| <= |code| && code[at..at + |ca|] == ca
  {
    hide Size;
    var at, tail: Code := pre, [];
    if min != 1 {
      at, tail := pre + [PushI32(min)], [Loop(-(Size(ca) + 5)), Drop];
    }
    assert pre + ExactlyCode(ca, min) == at + ca + tail;
  }

  lemma PairParts(r: Pattern, back: bool, cc: nat)
    requires r.Cat? || r.Alt?
    ensures WellFormed(r) <==> WellFormed(r.left) && WellFormed(r.right)
    ensures ShortClasses(r) <==> ShortClasses(r.left) && ShortClasses(r.right)
    ensures Groups(r) == Groups(r.left) + Groups(r.right)
    ensures var ca := CodeOf(r.left, back, cc); var cb := CodeOf(r.right, back, cc + Groups(r.left));
      CodeOf(r, back, cc) == if r.Cat? then (if back then cb + ca else ca + cb)
                             else [SplitNextFirst(Size(ca) + 5)] + ca + [Goto(Size(cb))] + cb
  {
    PairCode(r, back, cc);
    hide Size, CodeOf;
  }

  lemma PairCode(r: Pattern, back: bool, cc: nat)
    requires r.Cat? || r.Alt?
    ensures var ca := CodeOf(r.left, back, cc); var cb := CodeOf(r.right, back, cc + Groups(r.left));
      CodeOf(r, back, cc) == if r.Cat? then (if back then cb + ca else ca + cb)
                             else [SplitNextFirst(Size(ca) + 5)] + ca + [Goto(Size(cb))] + cb
  {
    hide Size, Groups;
  }

  lemma LookParts(r: Pattern, back: bool, cc: nat)
    requires r.Look?
    ensures (WellFormed(r) <==> WellFormed(r.body)) && (ShortClasses(r) <==> ShortClasses(r.body))
      && Groups(r) == Groups(r.body)
    ensures var ca := CodeOf(r.body, r.behind, cc);
      CodeOf(r, back, cc) == [if r.negative then NegativeLookahead(Size(ca) + 1) else Lookahead(Size(ca) + 1)] + ca
      + [Match]
  {
    LookCode(r, back, cc);
    hide Size, CodeOf;
  }

  lemma LookCode(r: Pattern, back: bool, cc: nat)
    requires r.Look?
    ensures var ca := CodeOf(r.body, r.behind, cc);
      CodeOf(r, back, cc) == [if r.negative then NegativeLookahead(Size(ca) + 1) else Lookahead(Size(ca) + 1)] + ca
      + [Match]
  {
    hide Size, Groups;
  }

  /** No class needs more intervals than the 16-bit count of a range instruction can hold. */
  predicate ShortClasses(r: Pattern) {
    match r
    case One(Class(points)) => |points| / 2 < 65535
    case Cat(a, b) => ShortClasses(a) && ShortClasses(b)
    case Alt(a, b) => ShortClasses(a) && ShortClasses(b)
    case Group(a) => ShortClasses(a)
    case Look(_, _, a) => ShortClasses(a)
    case Quant(a, _, _, _) => ShortClasses(a)
    case _ => true
  }

  lemma SuffixSize(ca: Code, i: Instr)
    ensures Size(ca + [i]) == Size(ca) + InstrSize(i)
  {
    SizeConcat(ca, [i]);
    PrefixSize(i, []);
    assert [i] + [] == [i];
  }

  lemma PrefixSize(i: Instr, ca: Code)
    ensures Size([i] + ca) == InstrSize(i) + Size(ca)
  {
    assert ([i] + ca)[1..] == ca;
  }

  lemma StarBodySize(ca: Code, greedy: bool, check: bool)
    ensures var z := if check then 1 else 0;
      Size([SplitOp(greedy, Size(ca) + 5 + z)] + PushPos(check) + ca) == Size(ca) + 5 + z
  {
    var z := if check then 1 else 0;
    var i := SplitOp(greedy, Size(ca) + 5 + z);
    if check {
      assert [i] + PushPos(check) + ca == [i] + ([PushCharPos] + ca);
      PrefixSize(PushCharPos, ca);
      PrefixSize(i, [PushCharPos] + ca);
    } else {
      assert [i] + PushPos(check) + ca == [i] + ca;
      PrefixSize(i, ca);
    }
  }

  /** A compiled pattern: the code and the two counts of its header. */
  datatype Bytecode = Bytecode(code: Code, captureCount: nat, stackSize: nat)

  /** lre_compile, from the parsed pattern on. */
  method Compile(r: Pattern, sticky: bool) returns (res: Option<Bytecode>)
    requires WellFormed(r)
    ensures res.Some? <==>
      1 + Groups(r) <= CAPTURE_COUNT_MAX && ShortClasses(r) && Peak(Program(r, sticky)) <= STACK_SIZE_MAX
    ensures res.Some? ==> res.value == Bytecode(Program(r, sticky), 1 + Groups(r), Peak(Program(r, sticky)))
  {
    hide CodeOf, Groups, ShortClasses, WellFormed, Peak;
    var s := new Compiler();
    if !sticky {
      s.Emit(SplitGotoFirst(6));
      s.Emit(Any);
      s.Emit(Goto(-11));
    }
    s.Emit(SaveStart(0));
    assert s.code == SearchCode(sticky) + [SaveStart(0)];
    var ok := s.Compile(r, false);
    if !ok {
      return None;
    }
    s.Emit(SaveEnd(0));
    s.Emit(Match);
    assert s.code == Program(r, sticky);
    var stackSize := ComputeStackSize(s.code);
    if stackSize < 0 {
      return None;
    }
    return Some(Bytecode(s.code, s.captureCount, stackSize));
  }
}

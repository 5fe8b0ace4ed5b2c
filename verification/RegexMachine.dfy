/** The backtracking machine as it runs: program counter, subject pointer, capture and operand stack
    arrays and the stack of saved states, all updated in place. */
module RegexMachine {
  import opened CharSet
  import opened RegexText
  import opened RegexCode
  import opened RegexPattern
  import opened RegexVM
  import opened RegexSim
  import opened RegexTheorem
  import opened RegexAnswer
  import opened RegexChecked

  /** The loop of the range instructions.  The first interval has been tested already, which keeps
      the unsigned index from wrapping below 0. */
  method BinarySearch(pairs: Pairs, c: nat) returns (found: bool)
    requires pairs != [] && pairs[0].0 <= c
    ensures found == Search(pairs, c, 0, |pairs| - 1)
  {
    var idxMin: nat, idxMax: nat := 0, |pairs| - 1;
    while idxMin <= idxMax
      invariant idxMax < |pairs| && idxMin <= |pairs|
      invariant Search(pairs, c, 0, |pairs| - 1) == Search(pairs, c, idxMin, idxMax)
      decreases idxMax + 1 - idxMin
    {
      var idx := (idxMin + idxMax) / 2;
      if c < pairs[idx].0 {
        idxMax := idx - 1;
      } else if c > pairs[idx].1 {
        idxMin := idx + 1;
      } else {
        return true;
      }
    }
    return false;
  }

  /** Does a one-character instruction accept c? */
  method TestChar(i: Instr, c: nat) returns (ok: bool)
    requires IsCharOp(i)
    ensures ok == OpAccepts(i, c)
  {
    match i
    case Char(k) => ok := c == k;
    case Char32(k) => ok := c == k;
    case Dot => ok := !IsLineTerminator(c);
    case Any => ok := true;
    case Range(pairs) =>
      if |pairs| == 0 || c < pairs[0].0 {
        return false;
      }
      if c >= 0xffff && pairs[|pairs| - 1].1 == 0xffff {
        return true;
      }
      if c > pairs[|pairs| - 1].1 {
        return false;
      }
      ok := BinarySearch(pairs, c);
    case Range32(pairs) =>
      if |pairs| == 0 || c < pairs[0].0 || c > pairs[|pairs| - 1].1 {
        return false;
      }
      ok := BinarySearch(pairs, c);
  }

  /** The comparison loop of back_reference. */
  method CompareForward(t: Text, start: nat, end: nat, from: nat) returns (res: Option<nat>)
    ensures res == RefForward(t, start, end, from)
  {
    var q: nat, p: nat := start, from;
    while q < end
      invariant RefForward(t, q, end, p) == RefForward(t, start, end, from)
      decreases end - q
    {
      if p >= |t.units| || CharIn(t, q, end) != CharAt(t, p) {
        return None;
      }
      q, p := NextIn(t, q, end), Next(t, p);
    }
    return Some(p);
  }

  /** The comparison loop of backward_back_reference. */
  method CompareBackward(t: Text, start: nat, end: nat, from: nat) returns (res: Option<nat>)
    ensures res == RefBackward(t, end, start, from)
  {
    var q: nat, p: nat := end, from;
    while q > start
      invariant RefBackward(t, q, start, p) == RefBackward(t, end, start, from)
      decreases q
    {
      if p == 0 || PrevCharIn(t, q, start) != PrevChar(t, p) {
        return None;
      }
      q, p := PrevIn(t, q, start), Prev(t, p);
    }
    return Some(p);
  }

  /** The nested call of a simple quantifier: no_recurse is set, so it never backtracks. */
  method RunSimple(e: Env, start: nat, from: nat) returns (res: Inner)
    ensures res == RunInner(e, start, from)
  {
    var pc: nat, pos: nat := start, from;
    while true
      invariant RunInner(e, pc, pos) == RunInner(e, start, from)
      decreases Size(e.prog) - pc
    {
      var at := At(e.prog, pc);
      if at.None? || pc >= Size(e.prog) {
        return Wrong;
      }
      var i := at.value;
      if i.Match? {
        return Ends(pos);
      } else if IsCharOp(i) {
        if pos >= |e.subject.text.units| {
          return Fails;
        }
        var ok := TestChar(i, CharAt(e.subject.text, pos));
        if !ok {
          return Fails;
        }
        pos := Next(e.subject.text, pos);
      } else if IsAssertOp(i) {
        if !OpHolds(e.subject, i, pos) {
          return Fails;
        }
      } else {
        return Wrong;
      }
      pc := pc + InstrSize(i);
    }
  }

  /** The loop of simple_greedy_quant that counts iterations. */
  method CountSimple(e: Env, pc: nat, max: nat, from: nat) returns (res: Option<(nat, nat)>)
    ensures res == CountInner(e, pc, max, 0, from)
  {
    var q: nat, pos: nat := 0, from;
    while true
      invariant CountInner(e, pc, max, q, pos) == CountInner(e, pc, max, 0, from)
      decreases Left(e.subject.text, false, pos)
    {
      var r := RunSimple(e, pc, pos);
      if r.Wrong? {
        return None;
      } else if r.Fails? {
        return Some((q, pos));
      }
      if q + 1 >= max && max != INF {
        return Some((q + 1, r.pos));
      }
      if Left(e.subject.text, false, r.pos) >= Left(e.subject.text, false, pos) {
        return None;
      }
      q, pos := q + 1, r.pos;
    }
  }

  /** Step back over n characters. */
  method StepBackN(t: Text, from: nat, n: nat) returns (p: nat)
    ensures p == PrevN(t, from, n)
  {
    p := from;
    var i := 0;
    while i < n
      invariant i <= n && PrevN(t, p, n - i) == PrevN(t, from, n)
    {
      p := Prev(t, p);
      i := i + 1;
    }
  }

  /** What one instruction leads to. */
  datatype Outcome = Continue | NoMatch | Matched

  class Machine {
    const env: Env
    var pc: int
    var cptr: nat
    const capture: array<Option<nat>>
    const stack: array<nat>
    var stackLen: nat
    var frames: seq<Frame>

    /** The arrays have the sizes announced by the program header and saved states fit into them. */
    ghost predicate Valid()
      reads this
    {
      && capture.Length == 2 * env.captures && stack.Length == env.stackSize && stackLen <= stack.Length
      && forall f :: f in frames ==> |f.caps| == capture.Length && |f.stack| <= stack.Length
    }

    ghost function Now(): Config
      requires Valid()
      reads this, capture, stack
    {
      Run(pc, cptr, capture[..], stack[..stackLen], frames)
    }

    constructor (e: Env, start: nat)
      ensures Valid() && env == e && Now() == Start(e, start) && fresh(capture) && fresh(stack)
    {
      env := e;
      pc, cptr, stackLen, frames := 0, start, 0, [];
      capture := new Option<nat>[2 * e.captures](_ => None);
      stack := new nat[e.stackSize];
    }

    /** push_state */
    method PushState(kind: FrameKind, at: int)
      requires Valid()
      modifies this`frames
      ensures Valid() && frames == old(frames) + [Frame(kind, at, cptr, capture[..], stack[..stackLen])]
    {
      frames := frames + [Frame(kind, at, cptr, capture[..], stack[..stackLen])];
    }

    /** memcpy of the saved captures */
    method RestoreCaptures(f: Frame)
      requires Valid() && |f.caps| == capture.Length
      modifies capture
      ensures capture[..] == f.caps
    {
      forall i | 0 <= i < capture.Length {
        capture[i] := f.caps[i];
      }
    }

    /** memcpy of the saved operand stack */
    method RestoreStack(f: Frame)
      requires Valid() && |f.stack| <= stack.Length
      modifies stack, this`stackLen
      ensures Valid() && stackLen == |f.stack| && stack[..stackLen] == f.stack
    {
      stackLen := |f.stack|;
      forall i | 0 <= i < stackLen {
        stack[i] := f.stack[i];
      }
    }

    /** save_reset */
    method ResetCaptures(first: nat, last: nat)
      requires Valid() && last < env.captures
      modifies capture
      ensures capture[..] == Reset(old(capture[..]), first, last)
    {
      var val := first;
      while val <= last
        invariant Reset(capture[..], val, last) == Reset(old(capture[..]), first, last)
        decreases last + 1 - val
      {
        ghost var before := capture[..];
        capture[2 * val] := None;
        capture[2 * val + 1] := None;
        assert capture[..] == before[2 * val := None][2 * val + 1 := None];
        val := val + 1;
      }
    }

    /** Instructions that look at the subject and nothing else. */
    method ExecTest(i: Instr) returns (out: Outcome)
      requires Valid() && (IsCharOp(i) || IsAssertOp(i) || i.StepBack?)
      modifies this`cptr
      ensures var c := Exec(env, i, pc, old(cptr), capture[..], stack[..stackLen], frames);
        if out.Continue? then c == Now() else out.NoMatch? && c == Unwind(frames)
    {
      var t := env.subject.text;
      if IsCharOp(i) {
        if cptr >= |t.units| {
          return NoMatch;
        }
        var ok := TestChar(i, CharAt(t, cptr));
        if !ok {
          return NoMatch;
        }
        cptr := Next(t, cptr);
      } else if IsAssertOp(i) {
        if !OpHolds(env.subject, i, cptr) {
          return NoMatch;
        }
      } else {
        if cptr == 0 {
          return NoMatch;
        }
        cptr := Prev(t, cptr);
      }
      return Continue;
    }

    /** Jumps and the instructions that save a state. */
    method ExecBranch(i: Instr)
      requires Valid() && (i.Goto? || i.SplitNextFirst? || i.SplitGotoFirst? || i.Lookahead? || i.NegativeLookahead?)
      modifies this`pc, this`frames
      ensures Valid() && Now() == Exec(env, i, old(pc), cptr, capture[..], stack[..stackLen], old(frames))
    {
      if i.Goto? {
        pc := pc + i.off;
      } else if i.Lookahead? || i.NegativeLookahead? {
        ExecLook(i);
      } else {
        ExecSplit(i);
      }
    }

    method ExecSplit(i: Instr)
      requires Valid() && (i.SplitNextFirst? || i.SplitGotoFirst?)
      modifies this`pc, this`frames
      ensures Valid() && Now() == Exec(env, i, old(pc), cptr, capture[..], stack[..stackLen], old(frames))
    {
      if i.SplitNextFirst? {
        PushState(OnFail, pc + i.off);
      } else {
        PushState(OnFail, pc);
        pc := pc + i.off;
      }
    }

    method ExecLook(i: Instr)
      requires Valid() && (i.Lookahead? || i.NegativeLookahead?)
      modifies this`frames
      ensures Valid() && Now() == Exec(env, i, pc, cptr, capture[..], stack[..stackLen], old(frames))
    {
      PushState(if i.Lookahead? then Ahead else NotAhead, pc + i.off);
    }

    method ExecSave(i: Instr)
      requires Valid() && (i.SaveStart? || i.SaveEnd? || i.SaveReset?)
      requires !Exec(env, i, pc, cptr, capture[..], stack[..stackLen], frames).Stuck?
      modifies capture
      ensures Now() == Exec(env, i, pc, cptr, old(capture[..]), stack[..stackLen], frames)
    {
      ghost var before := capture[..];
      match i
      case SaveStart(k) =>
        capture[2 * k] := Some(cptr);
        assert capture[..] == before[2 * k := Some(cptr)];
      case SaveEnd(k) =>
        capture[2 * k + 1] := Some(cptr);
        assert capture[..] == before[2 * k + 1 := Some(cptr)];
      case SaveReset(first, last) => ResetCaptures(first, last);
    }

    method ExecStack(i: Instr)
      requires Valid() && (i.PushI32? || i.PushCharPos? || i.Drop? || i.Loop? || i.BneCharPos?)
      requires !Exec(env, i, pc, cptr, capture[..], stack[..stackLen], frames).Stuck?
      modifies stack, this`stackLen, this`pc
      ensures Valid() && Now() == Exec(env, i, old(pc), cptr, capture[..], old(stack[..stackLen]), frames)
    {
      hide Exec;
      if i.PushI32? || i.PushCharPos? {
        ExecPush(i);
      } else if i.Loop? {
        ExecLoop(i);
      } else {
        ExecPop(i);
      }
    }

    method ExecPush(i: Instr)
      requires Valid() && (i.PushI32? || i.PushCharPos?)
      requires !Exec(env, i, pc, cptr, capture[..], stack[..stackLen], frames).Stuck?
      modifies stack, this`stackLen
      ensures Valid() && Now() == Exec(env, i, pc, cptr, capture[..], old(stack[..stackLen]), frames)
    {
      ghost var before := stack[..stackLen];
      match i
      case PushI32(n) =>
        stack[stackLen] := n;
        stackLen := stackLen + 1;
        assert stack[..stackLen] == before + [n];
      case PushCharPos =>
        stack[stackLen] := cptr;
        stackLen := stackLen + 1;
        assert stack[..stackLen] == before + [cptr];
    }

    method ExecPop(i: Instr)
      requires Valid() && (i.Drop? || i.BneCharPos?)
      requires !Exec(env, i, pc, cptr, capture[..], stack[..stackLen], frames).Stuck?
      modifies this`stackLen, this`pc
      ensures Valid() && Now() == Exec(env, i, old(pc), cptr, capture[..], old(stack[..stackLen]), frames)
    {
      ghost var before := stack[..stackLen];
      match i
      case Drop =>
        stackLen := stackLen - 1;
        assert stack[..stackLen] == ButTop(before);
      case BneCharPos(off) =>
        stackLen := stackLen - 1;
        assert stack[..stackLen] == ButTop(before);
        if stack[stackLen] != cptr {
          pc := pc + off;
        }
    }

    method ExecLoop(i: Instr)
      requires Valid() && i.Loop?
      requires !Exec(env, i, pc, cptr, capture[..], stack[..stackLen], frames).Stuck?
      modifies stack, this`pc
      ensures Valid() && Now() == Exec(env, i, old(pc), cptr, capture[..], old(stack[..stackLen]), frames)
    {
      ghost var before := stack[..stackLen];
      stack[stackLen - 1] := stack[stackLen - 1] - 1;
      assert stack[..stackLen] == ButTop(before) + [Top(before) - 1];
      if stack[stackLen - 1] != 0 {
        pc := pc + i.off;
      }
    }

    method ExecReference(i: Instr) returns (out: Outcome)
      requires Valid() && (i.BackReference? || i.BackwardBackReference?)
      modifies this`cptr
      ensures var c := Exec(env, i, pc, old(cptr), capture[..], stack[..stackLen], frames);
        if out.Continue? then c == Now() else out.NoMatch? && c == Unwind(frames)
    {
      var k := i.i;
      if k >= env.captures {
        return NoMatch;
      }
      var start, end := capture[2 * k], capture[2 * k + 1];
      if start.None? || end.None? {
        return Continue;
      }
      var res;
      if i.BackReference? {
        res := CompareForward(env.subject.text, start.value, end.value, cptr);
      } else {
        res := CompareBackward(env.subject.text, start.value, end.value, cptr);
      }
      if res.None? {
        return NoMatch;
      }
      cptr := res.value;
      return Continue;
    }

    method ExecSimple(i: Instr) returns (out: Outcome)
      requires Valid() && i.SimpleGreedyQuant?
      requires !Exec(env, i, pc, cptr, capture[..], stack[..stackLen], frames).Stuck?
      modifies this`pc, this`cptr, this`frames
      ensures Valid()
      ensures var c := Exec(env, i, old(pc), old(cptr), capture[..], stack[..stackLen], old(frames));
        if out.Continue? then c == Now() else out.NoMatch? && c == Unwind(frames)
    {
      var inner := pc;
      var res := CountSimple(env, inner, i.max, cptr);
      var q := res.value.0;
      if q < i.min {
        return NoMatch;
      }
      cptr := res.value.1;
      if q > i.min {
        PushState(Greedy(q - i.min), inner - 16);
      }
      pc := inner + i.off;
      return Continue;
    }

    /** Fetch and execute one instruction. */
    method ExecOne() returns (out: Outcome)
      requires Valid() && !Step(env, Now()).Stuck?
      modifies this, capture, stack
      ensures Valid()
      ensures match out
        case Continue => Now() == Step(env, old(Now()))
        case NoMatch => Unwind(frames) == Step(env, old(Now()))
        case Matched => Accept(capture[..], frames) == Step(env, old(Now()))
    {
      hide Exec;
      var i := At(env.prog, pc).value;
      pc := pc + InstrSize(i);
      out := Continue;
      if i.Match? {
        MatchAccepts(env, pc, cptr, capture[..], stack[..stackLen], frames);
        out := Matched;
      } else if IsCharOp(i) || IsAssertOp(i) || i.StepBack? {
        out := ExecTest(i);
      } else if i.Goto? || i.SplitNextFirst? || i.SplitGotoFirst? || i.Lookahead? || i.NegativeLookahead? {
        ExecBranch(i);
      } else if i.SaveStart? || i.SaveEnd? || i.SaveReset? {
        ExecSave(i);
      } else if i.SimpleGreedyQuant? {
        out := ExecSimple(i);
      } else if i.BackReference? || i.BackwardBackReference? {
        out := ExecReference(i);
      } else {
        ExecStack(i);
      }
    }

    /** Resume the topmost state after a failure; false if that state is a lookahead, which fails too. */
    method PopOnFail() returns (resumed: bool)
      requires Valid() && frames != [] && !Resume(env, frames).Stuck?
      modifies this, capture, stack
      ensures Valid() && (if resumed then Now() else Unwind(frames)) == Resume(env, old(frames))
      ensures !resumed ==> |frames| < |old(frames)|
    {
      var f := frames[|frames| - 1];
      assert f in frames;
      if f.kind.Ahead? {
        frames := ButTop(frames);
        return false;
      }
      RestoreCaptures(f);
      RestoreStack(f);
      pc, cptr := f.pc, f.pos;
      if f.kind.Greedy? {
        var i := At(env.prog, f.pc - 1).value;
        cptr := StepBackN(env.subject.text, cptr, i.chars);
        pc := f.pc + 16 + i.off;
        frames := frames[|frames| - 1 :=
          f.(kind := Greedy(if f.kind.count <= 1 then 0 else f.kind.count - 1), pos := cptr)];
        if f.kind.count <= 1 {
          frames := ButTop(frames);
        }
      } else {
        frames := ButTop(frames);
      }
      return true;
    }

    /** Leave the topmost state after a match; true if that state is a lookahead, which has succeeded. */
    method PopOnMatch() returns (resumed: bool, ret: bool)
      requires Valid() && frames != []
      modifies this, stack
      ensures Valid()
      ensures (if resumed then Now() else if ret then Accept(capture[..], frames) else Unwind(frames))
        == Leave(capture[..], old(frames))
      ensures |frames| < |old(frames)|
    {
      var f := frames[|frames| - 1];
      assert f in frames;
      frames := ButTop(frames);
      if f.kind.Ahead? {
        RestoreStack(f);
        pc, cptr := f.pc, f.pos;
        return true, true;
      }
      return false, !f.kind.NotAhead?;
    }

    /** The configuration of the `recurse` loop. */
    ghost function Recursing(ret: bool): Config
      reads this, capture
    {
      if ret then Accept(capture[..], frames) else Unwind(frames)
    }

    /** The `recurse` loop: unwind saved states until one resumes or none is left. */
    method Recurse(matched: bool) returns (resumed: bool, ret: bool, ghost n: nat)
      requires Valid() && Safe(env, Recursing(matched))
      modifies this, capture, stack
      ensures Valid()
      ensures if resumed then Steps(env, old(Recursing(matched)), n) == Now()
              else Steps(env, old(Recursing(matched)), n) == Done(ret, if ret then capture[..] else [])
    {
      hide Step, Resume, Leave;
      ghost var c0 := Recursing(matched);
      ret, n := matched, 0;
      while frames != []
        invariant Valid() && Steps(env, c0, n) == Recursing(ret)
        decreases |frames|
      {
        ghost var c := Recursing(ret);
        SafeStep(env, c0, n);
        RecursingStep(env, c);
        if ret {
          resumed, ret := PopOnMatch();
        } else {
          resumed := PopOnFail();
        }
        n := n + 1;
        if resumed {
          return;
        }
      }
      LastStep(env, c0, n, Recursing(ret));
      return false, ret, n + 1;
    }
  }

  lemma MatchAccepts(e: Env, next: int, pos: nat, caps: Captures, stack: seq<nat>, frames: seq<Frame>)
    ensures Exec(e, Match, next, pos, caps, stack, frames) == Accept(caps, frames)
  {
  }

  /** No run from c gets stuck. */
  ghost predicate Safe(e: Env, c: Config) {
    forall n: nat :: !Steps(e, c, n).Stuck?
  }

  lemma SafeStep(e: Env, c: Config, n: nat)
    requires Safe(e, c)
    ensures Steps(e, c, n + 1) == Step(e, Steps(e, c, n)) && !Step(e, Steps(e, c, n)).Stuck?
  {
    StepsAdd(e, c, n, 1);
    assert Steps(e, Steps(e, c, n), 1) == Steps(e, Step(e, Steps(e, c, n)), 0);
    assert !Steps(e, c, n + 1).Stuck?;
  }

  lemma RecursingStep(e: Env, c: Config)
    requires (c.Unwind? || c.Accept?) && c.frames != []
    ensures Step(e, c) == if c.Unwind? then Resume(e, c.frames) else Leave(c.caps, c.frames)
  {
  }

  lemma LastStep(e: Env, c0: Config, n: nat, c: Config)
    requires Safe(e, c0) && Steps(e, c0, n) == c && (c == Unwind([]) || (c.Accept? && c.frames == []))
    ensures Steps(e, c0, n + 1) == Done(c.Accept?, if c.Accept? then c.caps else [])
  {
    SafeStep(e, c0, n);
  }

  /** lre_exec: runs the machine to the end.  The answer is that of the reference matcher, which is the one that the
      meaning of the pattern gives. */
  method Execute(e: Env, ghost r: Pattern, ghost sticky: bool, start: nat) returns (ret: bool, captures: Captures)
    requires Compiled(e, r, sticky) && Aligned(e.subject.text, start)
    ensures ret == Find(e.subject, r, sticky, start).Some?
    ensures ret ==> Find(e.subject, r, sticky, start) == Some(captures)
    ensures IsAnswer(e.subject, r, sticky, start, if ret then Some(captures) else None)
  {
    hide Compiled, Step, Find, Reaches, IsAnswer;
    FoundMeans(e, r, sticky, start);
    var m := new Machine(e, start);
    ghost var c0 := Start(e, start);
    ghost var total: int := HaltsIn(e, r, sticky, start);
    ghost var k: nat := 0;
    while true
      invariant m.Valid() && m.env == e && fresh(m.capture) && fresh(m.stack)
      invariant Steps(e, c0, k) == m.Now()
      decreases total - k
    {
      NotYet(e, c0, k, total);
      SafeStep(e, c0, k);
      var out := m.ExecOne();
      k := k + 1;
      if !out.Continue? {
        ghost var c := m.Recursing(out.Matched?);
        SafeLater(e, c0, k);
        ghost var n;
        var resumed;
        resumed, ret, n := m.Recurse(out.Matched?);
        StepsAdd(e, c0, k, n);
        k := k + n;
        if !resumed {
          SameEnd(e, c0, k, total);
          return ret, m.capture[..];
        }
      }
    }
  }

  lemma HaltsIn(e: Env, r: Pattern, sticky: bool, start: nat) returns (n: nat)
    requires Compiled(e, r, sticky) && Aligned(e.subject.text, start)
    ensures Steps(e, Start(e, start), n) == Answer(Find(e.subject, r, sticky, start))
    ensures Safe(e, Start(e, start))
  {
    hide Compiled, Find, Step, Emitted;
    CompiledIsEmitted(e, r, sticky);
    ExecCorrect(e, r, sticky, start);
    n :| Steps(e, Start(e, start), n) == Answer(Find(e.subject, r, sticky, start));
    forall k: nat
      ensures !Steps(e, Start(e, start), k).Stuck?
    {
      NeverStuck(e, r, sticky, start, k);
    }
  }

  /** A configuration that is still running comes before the last one. */
  lemma NotYet(e: Env, c: Config, k: nat, n: nat)
    requires !Steps(e, c, k).Done? && Steps(e, c, n).Done?
    ensures k < n
  {
    if n <= k {
      StepsAdd(e, c, n, k - n);
      StaysDone(e, Steps(e, c, n), k - n);
    }
  }

  lemma SameEnd(e: Env, c: Config, k: nat, n: nat)
    requires Steps(e, c, k).Done? && Steps(e, c, n).Done?
    ensures Steps(e, c, k) == Steps(e, c, n)
  {
    var lo, hi := if k <= n then k else n, if k <= n then n else k;
    StepsAdd(e, c, lo, hi - lo);
    StaysDone(e, Steps(e, c, lo), hi - lo);
  }

  lemma SafeLater(e: Env, c: Config, k: nat)
    requires Safe(e, c)
    ensures Safe(e, Steps(e, c, k))
  {
    forall n: nat
      ensures !Steps(e, Steps(e, c, k), n).Stuck?
    {
      StepsAdd(e, c, k, n);
      assert !Steps(e, c, k + n).Stuck?;
    }
  }
}

/** Compiling and running together. */
module RegexMatch {
  import opened RegexText
  import opened RegexCode
  import opened RegexPattern
  import opened RegexCodegen
  import opened RegexVM
  import opened RegexAtoms
  import opened RegexTheorem
  import opened RegexAnswer
  import opened RegexCompiler
  import opened RegexMachine

  datatype Answered = CompileError | NotFound | Found(captures: Captures)

  /** lre_compile followed by lre_exec. */
  method Match(r: Pattern, sticky: bool, subject: Subject, start: nat) returns (res: Answered)
    requires WellFormed(r) && Guarded(r, false, 1) && ValidText(subject.text) && Aligned(subject.text, start)
    ensures res.CompileError? <==>
      1 + Groups(r) > CAPTURE_COUNT_MAX || !ShortClasses(r) || Peak(Program(r, sticky)) > STACK_SIZE_MAX
    ensures !res.CompileError? ==>
      Find(subject, r, sticky, start) == if res.Found? then Some(res.captures) else None
    ensures !res.CompileError? ==>
      IsAnswer(subject, r, sticky, start, if res.Found? then Some(res.captures) else None)
  {
    hide Groups, ShortClasses, Peak, Program, WellFormed, Guarded, Find, Aligned, IsAnswer;
    var bc := Compile(r, sticky);
    if bc.None? {
      return CompileError;
    }
    var e := Env(subject, bc.value.code, bc.value.captureCount, bc.value.stackSize);
    var ret, captures := Execute(e, r, sticky, start);
    return if ret then Found(captures) else NotFound;
  }
}

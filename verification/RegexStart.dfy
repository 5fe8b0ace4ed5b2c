/** Where a run may start: lre_exec takes any start position, and inside a surrogate pair the machine does not do what
    the reference matcher does. */
module RegexStart {
  import opened RegexText
  import opened RegexCode
  import opened RegexPattern
  import opened RegexCodegen
  import opened RegexLayout
  import opened RegexVM
  import opened RegexSim
  import opened RegexAtoms
  import opened RegexTheorem
  import RegexMachine

  /** (?<=h) */
  function Behind(h: nat): Pattern {
    Look(true, false, One(Lit(h)))
  }

  function BehindCode(h: nat): Code {
    [SaveStart(0), Lookahead(6), StepBack, Char(h), StepBack, Match, SaveEnd(0), Match]
  }

  /** The program that tests for h behind the start. */
  function BehindEnv(t: Text, h: nat): Env {
    Env(Subject(t, false), Program(Behind(h), true), 1, 0)
  }

  lemma BehindProgram(h: nat)
    requires h <= 0xffff
    ensures Program(Behind(h), true) == BehindCode(h)
  {
    var one := CodeOf(One(Lit(h)), true, 1);
    assert one == [StepBack, Char(h), StepBack];
    assert Size([StepBack]) == 1 && Size([Char(h), StepBack]) == 4;
    assert Size(one) == 5;
    assert CodeOf(Behind(h), false, 1) == [Lookahead(6)] + one + [Match];
  }

  lemma BehindCompiled(t: Text, h: nat)
    requires ValidText(t) && h <= 0xffff
    ensures Compiled(BehindEnv(t, h), Behind(h), true)
  {
    BehindProgram(h);
    NoPushes(BehindCode(h));
  }

  lemma {:induction false} NoPushes(code: Code)
    requires forall k :: 0 <= k < |code| ==> Delta(code[k]) <= 0
    ensures Peak(code) == 0
  {
    if code != [] {
      NoPushes(code[1..]);
    }
  }

  lemma BehindAt(h: nat)
    ensures var c := BehindCode(h);
      At(c, 0) == Some(SaveStart(0)) && At(c, 2) == Some(Lookahead(6)) && At(c, 7) == Some(StepBack)
      && At(c, 8) == Some(Char(h))
  {
    var c := BehindCode(h);
    assert At(c, 2) == At(c[1..], 0);
    assert At(c, 7) == At(c[1..], 5) == At(c[1..][1..], 0);
    assert At(c, 8) == At(c[1..], 6) == At(c[1..][1..], 1) == At(c[1..][1..][1..], 0);
  }

  /** Stepping back into the pair and reading forward reads the whole pair, which is not its first unit. */
  lemma BehindFails(t: Text, p: nat)
    requires ValidText(t) && 0 < p && PairIn(t, p - 1, |t.units|)
    ensures var e := BehindEnv(t, t.units[p - 1]); Steps(e, Start(e, p), 6) == Done(false, [])
  {
    var h := t.units[p - 1];
    var e := BehindEnv(t, h);
    BehindProgram(h);
    BehindAt(h);
    var caps := Save(NoCaptures(1), 0, p);
    var fs := [Frame(Ahead, 13, p, caps, [])];
    var c1, c2, c3 := Run(2, p, caps, [], []), Run(7, p, caps, [], fs), Run(8, p - 1, caps, [], fs);
    assert Step(e, Start(e, p)) == c1;
    assert Step(e, c1) == c2 by { assert [] + fs == fs; }
    assert Prev(t, p) == p - 1;
    assert Step(e, c2) == c3;
    assert CharAt(t, p - 1) != h;
    assert Step(e, c3) == Unwind(fs);
    assert Step(e, Unwind(fs)) == Unwind([]);
    assert Step(e, Unwind([])) == Done(false, []);
    SixSteps(e, Start(e, p), c1, c2, c3, Unwind(fs), Unwind([]), Done(false, []));
  }

  lemma SixSteps(e: Env, c0: Config, c1: Config, c2: Config, c3: Config, c4: Config, c5: Config, c6: Config)
    requires Step(e, c0) == c1 && Step(e, c1) == c2 && Step(e, c2) == c3 && Step(e, c3) == c4 && Step(e, c4) == c5
      && Step(e, c5) == c6
    ensures Steps(e, c0, 6) == c6
  {
    hide Step;
    assert Steps(e, c3, 3) == c6;
  }

  lemma BehindFound(t: Text, p: nat)
    requires 0 < p && PairIn(t, p - 1, |t.units|)
    ensures Find(Subject(t, false), Behind(t.units[p - 1]), true, p).Some?
  {
    var e, h := Subject(t, false), t.units[p - 1];
    var st := State(p, Save(NoCaptures(1), 0, p));
    assert PrevChar(t, p) == h;
    assert Matches(e, One(Lit(h)), true, 1, st) != [];
    assert Matches(e, Behind(h), false, 1, st) != [];
    assert Groups(Behind(h)) == Groups(One(Lit(h))) == 0;
    assert Matches(e, Group(Behind(h)), false, 0, State(p, NoCaptures(1)))
      == Close(0, false, Matches(e, Behind(h), false, 1, st));
  }

  /** A run that ends in one result does not end in another. */
  lemma OneResult(e: Env, c: Config, m: nat, d: Config)
    requires Steps(e, c, m).Done? && d.Done? && Reaches(e, c, d)
    ensures Steps(e, c, m) == d
  {
    var n: nat :| Steps(e, c, n) == d;
    RegexMachine.SameEnd(e, c, m, n);
  }

  lemma BehindWrong(t: Text, p: nat)
    requires ValidText(t) && 0 < p && PairIn(t, p - 1, |t.units|)
    ensures var e := BehindEnv(t, t.units[p - 1]);
      !Reaches(e, Start(e, p), Answer(Find(e.subject, Behind(t.units[p - 1]), true, p)))
  {
    hide Reaches, Find, Program, Step;
    var e := BehindEnv(t, t.units[p - 1]);
    var d := Answer(Find(e.subject, Behind(t.units[p - 1]), true, p));
    BehindFails(t, p);
    BehindFound(t, p);
    if Reaches(e, Start(e, p), d) {
      OneResult(e, Start(e, p), 6, d);
    }
  }

  /** Every compiled program, run from p over the text t, returns the reference answer. */
  ghost predicate AllCorrect(t: Text, p: nat) {
    forall e, r, sticky :: Compiled(e, r, sticky) && e.subject.text == t ==>
      Reaches(e, Start(e, p), Answer(Find(e.subject, r, sticky, p)))
  }

  /** The start positions from which every program is right are exactly those that do not split a surrogate pair. */
  lemma StartsExactly(t: Text, p: nat)
    requires ValidText(t) && p <= |t.units|
    ensures AllCorrect(t, p) <==> Aligned(t, p)
  {
    hide Compiled, Reaches, Find, Program;
    if Aligned(t, p) {
      forall e, r, sticky | Compiled(e, r, sticky) && e.subject.text == t
        ensures Reaches(e, Start(e, p), Answer(Find(e.subject, r, sticky, p)))
      {
        ExecCorrect(e, r, sticky, p);
      }
    } else {
      var h := t.units[p - 1];
      BehindCompiled(t, h);
      BehindWrong(t, p);
    }
  }
}

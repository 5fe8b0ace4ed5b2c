/** What the reference answer means: the first position with a result, and the preferred result there. */
module RegexAnswer {
  import opened RegexText
  import opened RegexCode
  import opened RegexPattern
  import opened RegexCodegen
  import opened RegexVM
  import opened RegexSim
  import opened RegexProgress
  import opened RegexAtoms
  import opened RegexTheorem
  import opened RegexOrder
  import opened RegexMeaning
  import opened RegexResults
  import opened RegexListing
  import opened RegexRepeats
  import opened RegexGroups

  /** A match begins at s: only the start of the whole match is set. */
  function Begin(r: Pattern, s: nat): State {
    State(s, seq(2 * (1 + Parens(r)), k => if k == 0 then Some(s) else None))
  }

  ghost predicate HasResult(e: Subject, r: Pattern, s: nat) {
    exists y, tr :: Means(e, r, false, 1, Begin(r, s), y, tr)
  }

  /** The preferred result at s runs to caps[1], with caps as the entries. */
  ghost predicate Results(e: Subject, r: Pattern, s: nat, caps: Captures) {
    exists y, tr :: Prefers(e, r, false, 1, Begin(r, s), y, tr) && 1 < |y.caps| && caps == y.caps[1 := Some(y.pos)]
  }

  /** The start of the match is the first position between characters, from p on, that has a result; when sticky it is
      p. The entries are those of the preferred result there: entry 0 is the start and entry 1 the end of the match,
      and the entries of a group are unset, or bracket a stretch of the text that its body matches. */
  ghost predicate IsAnswer(e: Subject, r: Pattern, sticky: bool, p: nat, found: Option<Captures>) {
    match found
    case None => forall s :: p <= s && Between(e.text, s) && (sticky ==> s == p) ==> !HasResult(e, r, s)
    case Some(caps) =>
      && |caps| == 2 * (1 + Parens(r)) && caps[0].Some? && caps[1].Some?
      && var s := caps[0].value;
         && p <= s <= caps[1].value <= |e.text.units| && Between(e.text, s) && (sticky ==> s == p)
         && Results(e, r, s, caps)
         && (forall q :: p <= q < s && Between(e.text, q) ==> !HasResult(e, r, q))
         && (forall k :: 1 <= k <= Parens(r) ==> UnsetOrSpans(e, r, k, caps))
  }

  ghost predicate UnsetOrSpans(e: Subject, r: Pattern, k: nat, caps: Captures) {
    && 2 * k + 1 < |caps|
    && var c, d := caps[2 * k], caps[2 * k + 1];
       || (c.None? && d.None?)
       || (c.Some? && d.Some? && c.value <= d.value <= |e.text.units|
           && Spans(e, r, false, 1, k, c.value, d.value))
  }

  /** The first of the matches at a position, as a preferred result. */
  lemma AtPosition(e: Subject, r: Pattern, s: nat)
    requires ValidText(e.text) && Aligned(e.text, s)
    ensures var ms := MatchesAt(e, r, s);
      if ms == [] then !HasResult(e, r, s) else HasResult(e, r, s) && Results(e, r, s, ms[0].caps)
  {
    hide Matches, Means, Listed, Lists, Good, Close, CloseOne, Aligned;
    var st, xs := Begin(r, s), Matches(e, r, false, 1, Begin(r, s));
    BeginGood(e, r, s);
    BeginIs(e, r, s);
    MatchesListed(e, r, false, 1, st);
    var ts := TracesOf(Of(e, r, false, 1, st), xs);
    ListShape(Of(e, r, false, 1, st), xs, ts);
    if xs == [] {
      NoResult(e, r, s, ts);
      CloseNone();
    } else {
      PrefersIs(e, r, false, 1, st, xs[0], ts[0], xs, ts);
      ResultsGood(e, r, false, 1, st, 1 + Groups(r));
      GoodAligned(e, xs[0], 1 + Groups(r));
      Preferred(e, r, s, xs[0], ts[0]);
      CloseFirst(xs);
    }
  }

  lemma BeginGood(e: Subject, r: Pattern, s: nat)
    requires ValidText(e.text) && Aligned(e.text, s)
    ensures Good(e, Begin(r, s), 1 + Groups(r))
  {
    ParensIs(r);
  }

  lemma BeginIs(e: Subject, r: Pattern, s: nat)
    ensures MatchesAt(e, r, s) == Close(0, false, Matches(e, r, false, 1, Begin(r, s)))
  {
    hide Matches, Close;
    ParensIs(r);
    var blank := State(s, NoCaptures(1 + Groups(r)));
    GroupIs(e, r, false, 0, blank);
    assert blank.caps[Near(0, false) := Some(s)] == Begin(r, s).caps;
  }

  lemma NoResult(e: Subject, r: Pattern, s: nat, ts: seq<Trace>)
    requires Lists(Of(e, r, false, 1, Begin(r, s)), [], ts)
    ensures !HasResult(e, r, s)
  {
    hide Means;
    forall y, tr
      ensures !Means(e, r, false, 1, Begin(r, s), y, tr)
    {
      assert !Of(e, r, false, 1, Begin(r, s))(y, tr);
    }
  }

  lemma Preferred(e: Subject, r: Pattern, s: nat, y: State, tr: Trace)
    requires Prefers(e, r, false, 1, Begin(r, s), y, tr) && 1 < |y.caps|
    ensures HasResult(e, r, s) && Results(e, r, s, y.caps[1 := Some(y.pos)])
  {
    hide Takes, Asserts, Repeats, Loops;
  }

  lemma CloseNone()
    ensures Close(0, false, []) == []
  {
  }

  lemma CloseFirst(xs: seq<State>)
    requires xs != [] && 1 < |xs[0].caps|
    ensures Close(0, false, xs) != [] && Close(0, false, xs)[0].caps == xs[0].caps[1 := Some(xs[0].pos)]
  {
  }

  /** The entries of the preferred result. */
  lemma ResultEntries(e: Subject, r: Pattern, s: nat, caps: Captures)
    requires Results(e, r, s, caps) && CapturesInside(e.text, caps)
    ensures |caps| == 2 * (1 + Parens(r)) && caps[0] == Some(s)
    ensures caps[1].Some? && s <= caps[1].value <= |e.text.units|
    ensures forall k :: 1 <= k <= Parens(r) ==> UnsetOrSpans(e, r, k, caps)
  {
    hide Means, Prefers, Spans;
    var y, tr :| Prefers(e, r, false, 1, Begin(r, s), y, tr) && 1 < |y.caps| && caps == y.caps[1 := Some(y.pos)];
    PrefersMeans(e, r, Begin(r, s), y, tr);
    MeansKeeps(e, r, false, 1, Begin(r, s), y, tr);
    forall k | 1 <= k <= Parens(r)
      ensures UnsetOrSpans(e, r, k, caps)
    {
      GroupsTold(e, r, false, 1, Begin(r, s), y, tr, k);
      if caps[2 * k].Some? && caps[2 * k + 1].Some? {
        SpansOrdered(e, r, false, 1, k, caps[2 * k].value, caps[2 * k + 1].value);
      }
    }
  }

  lemma PrefersMeans(e: Subject, r: Pattern, st: State, y: State, tr: Trace)
    requires Prefers(e, r, false, 1, st, y, tr)
    ensures Means(e, r, false, 1, st, y, tr)
  {
    hide Takes, Asserts, Repeats, Loops;
  }

  lemma FoundInside(e: Subject, r: Pattern, s: nat)
    requires Aligned(e.text, s)
    ensures forall x :: x in MatchesAt(e, r, s) ==> CapturesInside(e.text, x.caps)
  {
    hide Matches;
    MatchesOnward(e, Group(r), false, 0, State(s, NoCaptures(1 + Groups(r))));
  }

  /** The next position between characters. */
  lemma NothingBetween(t: Text, p: nat, q: nat)
    requires Aligned(t, p) && p < |t.units| && Between(t, q) && p < q
    ensures RegexText.Next(t, p) <= q
  {
  }

  /** The reference answer is the answer that the meaning of the pattern gives. */
  lemma {:induction false} FindMeans(e: Subject, r: Pattern, sticky: bool, p: nat)
    requires ValidText(e.text) && Aligned(e.text, p)
    ensures IsAnswer(e, r, sticky, p, Find(e, r, sticky, p))
    decreases Left(e.text, false, p)
  {
    hide MatchesAt, Means, HasResult, Results, UnsetOrSpans, CapturesInside;
    var ms := MatchesAt(e, r, p);
    AtPosition(e, r, p);
    BetweenIs(e.text, p);
    if ms != [] {
      FoundInside(e, r, p);
      ResultEntries(e, r, p, ms[0].caps);
    } else if sticky || p >= |e.text.units| {
      forall s | p <= s && Between(e.text, s) && (sticky ==> s == p)
        ensures !HasResult(e, r, s)
      {
      }
    } else {
      var q := RegexText.Next(e.text, p);
      NextAligned(e.text, p);
      FindMeans(e, r, false, q);
      Further(e, r, p, q, Find(e, r, false, q));
    }
  }

  lemma Further(e: Subject, r: Pattern, p: nat, q: nat, found: Option<Captures>)
    requires Aligned(e.text, p) && p < |e.text.units| && q == RegexText.Next(e.text, p) && p < q
    requires !HasResult(e, r, p) && IsAnswer(e, r, false, q, found)
    ensures IsAnswer(e, r, false, p, found)
  {
    hide Means, HasResult, Results, UnsetOrSpans, Aligned, Next, Between;
    forall s | p <= s && Between(e.text, s)
      ensures s == p || q <= s
    {
      if p < s {
        NothingBetween(e.text, p, s);
      }
    }
  }

  /** The meaning of a pattern determines the answer. */
  lemma AnswerUnique(e: Subject, r: Pattern, sticky: bool, p: nat, f: Option<Captures>, g: Option<Captures>)
    requires IsAnswer(e, r, sticky, p, f) && IsAnswer(e, r, sticky, p, g)
    ensures f == g
  {
    hide Means, HasResult, Results, UnsetOrSpans, Between;
    if f.Some? {
      ResultsExist(e, r, f.value[0].value, f.value);
    }
    if g.Some? {
      ResultsExist(e, r, g.value[0].value, g.value);
    }
    if f.Some? && g.Some? {
      ResultsUnique(e, r, f.value[0].value, f.value, g.value);
    }
  }

  lemma ResultsExist(e: Subject, r: Pattern, s: nat, caps: Captures)
    requires Results(e, r, s, caps)
    ensures HasResult(e, r, s)
  {
    hide Means, Prefers;
    var y, tr :| Prefers(e, r, false, 1, Begin(r, s), y, tr) && 1 < |y.caps| && caps == y.caps[1 := Some(y.pos)];
    PrefersMeans(e, r, Begin(r, s), y, tr);
  }

  lemma ResultsUnique(e: Subject, r: Pattern, s: nat, c: Captures, d: Captures)
    ensures Results(e, r, s, c) && Results(e, r, s, d) ==> c == d
  {
    hide Means, Prefers;
    if Results(e, r, s, c) && Results(e, r, s, d) {
      var y, t :| Prefers(e, r, false, 1, Begin(r, s), y, t) && 1 < |y.caps| && c == y.caps[1 := Some(y.pos)];
      var z, u :| Prefers(e, r, false, 1, Begin(r, s), z, u) && 1 < |z.caps| && d == z.caps[1 := Some(z.pos)];
      PrefersOne(e, r, Begin(r, s), y, t, z, u);
    }
  }

  lemma PrefersOne(e: Subject, r: Pattern, st: State, y: State, t: Trace, z: State, u: Trace)
    requires Prefers(e, r, false, 1, st, y, t) && Prefers(e, r, false, 1, st, z, u)
    ensures y == z
  {
    hide Means;
    if !(y == z && t == u) {
      NotBeforeItself(t, u);
    }
  }

  /** The compiled program halts with the answer that the meaning of the pattern gives. */
  lemma ExecMeans(e: Env, r: Pattern, sticky: bool, p: nat, found: Option<Captures>)
    requires Compiled(e, r, sticky) && Aligned(e.subject.text, p) && IsAnswer(e.subject, r, sticky, p, found)
    ensures Reaches(e, Start(e, p), Answer(found))
  {
    hide Reaches, IsAnswer, Find, Program, Peak, Guarded, WellFormed;
    ExecCorrect(e, r, sticky, p);
    FindMeans(e.subject, r, sticky, p);
    AnswerUnique(e.subject, r, sticky, p, found, Find(e.subject, r, sticky, p));
  }

  /** Whatever is found is the answer. */
  lemma FoundMeans(e: Env, r: Pattern, sticky: bool, p: nat)
    requires Compiled(e, r, sticky) && Aligned(e.subject.text, p)
    ensures IsAnswer(e.subject, r, sticky, p, Find(e.subject, r, sticky, p))
  {
    hide IsAnswer, Find, Program, Peak, Guarded, WellFormed;
    FindMeans(e.subject, r, sticky, p);
  }
}

/** The listing of repeated atoms, and with it the theorem for all patterns. */
module RegexRepeats {
  import opened RegexText
  import opened RegexCode
  import opened RegexPattern
  import opened RegexProgress
  import opened RegexOrder
  import opened RegexMeaning
  import opened RegexResults
  import opened RegexListing

  // ---- entry

  lemma {:induction false} ResetIs(caps: Captures, first: nat, last: int, k: nat)
    requires last >= 0 && 2 * last + 1 < |caps| && k < |caps|
    ensures Reset(caps, first, last)[k] == if 2 * first <= k < 2 * last + 2 then None else caps[k]
    decreases last + 1 - first
  {
    if first <= last {
      ResetIs(caps[2 * first := None][2 * first + 1 := None], first + 1, last, k);
    }
  }

  lemma ClearedIs(a: Pattern, cc: nat, min: nat, st: State)
    requires 2 * (cc + Groups(a)) <= |st.caps|
    ensures Enter(a, cc, min, st) == if min == 0 then Cleared(st, 2 * cc, 2 * (cc + Parens(a))) else st
  {
    ParensIs(a);
    forall k: nat | k < |st.caps|
      ensures Enter(a, cc, min, st).caps[k]
        == if min == 0 && 2 * cc <= k < 2 * (cc + Groups(a)) then None else st.caps[k]
    {
      if min == 0 && Groups(a) > 0 {
        ResetIs(st.caps, cc, cc + Groups(a) - 1, k);
      }
    }
    if min == 0 {
      assert Enter(a, cc, min, st).caps == Cleared(st, 2 * cc, 2 * (cc + Parens(a))).caps;
    }
  }

  lemma EnterGood(e: Subject, a: Pattern, cc: nat, min: nat, st: State, room: nat)
    requires Good(e, st, room)
    ensures Good(e, Enter(a, cc, min, st), room)
  {
    EnterInside(e.text, a, cc, min, st);
  }

  // ---- iterations

  ghost function LoopOf(e: Subject, a: Pattern, back: bool, cc: nat, min: nat, max: nat, greedy: bool, st: State): Rel {
    (x: State, t: Trace) => Loops(e, a, back, cc, min, max, greedy, st, x, t)
  }

  /** What follows an iteration from p that ended in m. */
  ghost function After(e: Subject, a: Pattern, back: bool, cc: nat, min: nat, max: nat, greedy: bool, p: nat): Then {
    (m: State, x: State, t: Trace) => Continues(e, a, back, cc, min, max, greedy, p, m, x, t)
  }

  ghost function Just(st: State): Rel {
    (x: State, t: Trace) => x == st && t == []
  }

  /** One iteration, and what follows it. */
  ghost predicate RunsOnce(e: Subject, a: Pattern, back: bool, cc: nat, min: nat, max: nat, greedy: bool, st: State,
      x: State, t: Trace) {
    exists y, u, v :: Means(e, a, back, cc, st, y, u) && t == [Go(greedy)] + (u + v)
      && Continues(e, a, back, cc, min, max, greedy, st.pos, y, x, v)
  }

  /** To loop is to stop or to run once more. */
  lemma LoopUnfolds(e: Subject, a: Pattern, back: bool, cc: nat, min: nat, max: nat, greedy: bool, st: State, x: State,
      t: Trace)
    ensures Loops(e, a, back, cc, min, max, greedy, st, x, t) <==>
      || (max > 0 && RunsOnce(e, a, back, cc, min, max, greedy, st, x, t))
      || ((min == 0 || max == 0) && Prefixed(Just(st), [Stop(greedy)], x, t))
  {
    hide Means, Continues;
    assert [Stop(greedy)] + [] == [Stop(greedy)];
    assert Just(st)(st, []);
  }

  lemma OnceIsBound(e: Subject, a: Pattern, back: bool, cc: nat, min: nat, max: nat, greedy: bool, st: State,
      xs: seq<State>, ts: seq<Trace>, x: State, t: Trace)
    requires Lists(Of(e, a, back, cc, st), xs, ts)
    ensures RunsOnce(e, a, back, cc, min, max, greedy, st, x, t) <==>
      Prefixed(BindOf(After(e, a, back, cc, min, max, greedy, st.pos), xs, ts), [Go(greedy)], x, t)
  {
    hide Means, Continues, Go;
    var B, R, c := After(e, a, back, cc, min, max, greedy, st.pos), Of(e, a, back, cc, st), [Go(greedy)];
    if RunsOnce(e, a, back, cc, min, max, greedy, st, x, t) {
      var y, u, v :| Means(e, a, back, cc, st, y, u) && t == c + (u + v)
        && Continues(e, a, back, cc, min, max, greedy, st.pos, y, x, v);
      assert R(y, u);
      var i :| 0 <= i < |xs| && i < |ts| && xs[i] == y && ts[i] == u;
      assert B(xs[i], x, v) && Bound(B, xs, ts, x, u + v) && BindOf(B, xs, ts)(x, u + v);
    }
    if Prefixed(BindOf(B, xs, ts), c, x, t) {
      var w :| BindOf(B, xs, ts)(x, w) && t == c + w;
      assert Bound(B, xs, ts, x, w);
      var i, v :| 0 <= i < |xs| && i < |ts| && B(xs[i], x, v) && w == ts[i] + v;
      assert R(xs[i], ts[i]) && Means(e, a, back, cc, st, xs[i], ts[i]);
    }
  }

  lemma JustListed(st: State)
    ensures Listed(Just(st), [st])
  {
    hide Lists;
    ListOne(Just(st), st, []);
  }

  /** From the results of one iteration to those of the loop. */
  lemma LoopListed(e: Subject, a: Pattern, back: bool, cc: nat, min: nat, max: nat, greedy: bool, st: State,
      xs: seq<State>, ts: seq<Trace>, again: seq<State>)
    requires max > 0 && Lists(Of(e, a, back, cc, st), xs, ts)
    requires Listed(BindOf(After(e, a, back, cc, min, max, greedy, st.pos), xs, ts), again)
    ensures Listed(LoopOf(e, a, back, cc, min, max, greedy, st),
      if min > 0 then again else if greedy then again + [st] else [st] + again)
  {
    hide Lists, Prefixed, Loops, RunsOnce, Listed;
    var L, B := LoopOf(e, a, back, cc, min, max, greedy, st), After(e, a, back, cc, min, max, greedy, st.pos);
    forall x, t
      ensures L(x, t) <==>
        || Prefixed(BindOf(B, xs, ts), [Go(greedy)], x, t)
        || (min == 0 && Prefixed(Just(st), [Stop(greedy)], x, t))
    {
      LoopUnfolds(e, a, back, cc, min, max, greedy, st, x, t);
      OnceIsBound(e, a, back, cc, min, max, greedy, st, xs, ts, x, t);
    }
    JustListed(st);
    if min > 0 {
      PrefixListed(BindOf(B, xs, ts), [Go(greedy)], again, L);
    } else if greedy {
      ChoiceListed(BindOf(B, xs, ts), again, Just(st), [st], L);
    } else {
      ChoiceListed(Just(st), [st], BindOf(B, xs, ts), again, L);
    }
  }

  lemma PrefixListed(R: Rel, c: Trace, xs: seq<State>, L: Rel)
    requires Listed(R, xs) && forall x, t :: L(x, t) <==> Prefixed(R, c, x, t)
    ensures Listed(L, xs)
  {
    hide Lists;
    var ts := TracesOf(R, xs);
    var us := ListPrefix(R, c, xs, ts);
    ListSame(PrefixOf(R, c), L, xs, us);
  }

  // ---- the theorem

  /** The reference matcher lists all results of a pattern, nothing else, in the order of their choices. */
  lemma {:induction false} MatchesListed(e: Subject, r: Pattern, back: bool, cc: nat, st: State)
    requires Good(e, st, cc + Groups(r))
    ensures Listed(Of(e, r, back, cc, st), Matches(e, r, back, cc, st))
    decreases r, 0, 1
  {
    hide Good, Matches, Means, Listed;
    GoodAligned(e, st, cc + Groups(r));
    match r
    case Empty => SingleIsListed(e, r, back, cc, st);
    case One(s) => OneListed(e, s, back, cc, st);
    case Assert(a) => SingleIsListed(e, r, back, cc, st);
    case BackRef(k) => SingleIsListed(e, r, back, cc, st);
    case Cat(a, b) => CatListed(e, a, b, back, cc, st);
    case Alt(a, b) =>
      GoodLess(e, st, cc + Groups(r), cc + Groups(a));
      MatchesListed(e, a, back, cc, st);
      MatchesListed(e, b, back, cc + Groups(a), st);
      AltListed(e, a, b, back, cc, st);
    case Group(a) =>
      GoodLess(e, st, cc + Groups(r), cc + 1);
      var open := State(st.pos, st.caps[Near(cc, back) := Some(st.pos)]);
      OpenGood(e, back, cc, st, cc + Groups(r));
      MatchesListed(e, a, back, cc + 1, open);
      GroupListed(e, a, back, cc, st);
    case Look(behind, negative, a) =>
      MatchesListed(e, a, behind, cc, st);
      LookListed(e, behind, negative, a, back, cc, st);
    case Quant(a, min, max, greedy) =>
      EnterGood(e, a, cc, min, st, cc + Groups(a));
      RepeatListed(e, a, back, cc, min, max, greedy, Enter(a, cc, min, st));
      QuantListed(e, a, min, max, greedy, back, cc, st);
  }

  lemma GoodLess(e: Subject, st: State, room: nat, less: nat)
    requires Good(e, st, room) && less <= room
    ensures Good(e, st, less)
  {
  }

  lemma SingleIsListed(e: Subject, r: Pattern, back: bool, cc: nat, st: State)
    requires Good(e, st, cc + Groups(r)) && (r.Empty? || r.Assert? || r.BackRef?)
    ensures Listed(Of(e, r, back, cc, st), Matches(e, r, back, cc, st))
  {
    hide Good, Matches, Means, Listed;
    GoodLess(e, st, cc + Groups(r), 0);
    SingleListed(e, r, back, cc, st);
  }

  lemma {:induction false} CatListed(e: Subject, a: Pattern, b: Pattern, back: bool, cc: nat, st: State)
    requires Good(e, st, cc + Groups(a) + Groups(b))
    ensures Listed(Of(e, Cat(a, b), back, cc, st), Matches(e, Cat(a, b), back, cc, st))
    decreases Cat(a, b), 0, 0
  {
    hide Good, Matches, Means, Listed, MatchesAll, InTurn;
    var R, d := Of(e, Cat(a, b), back, cc, st), cc + Groups(a);
    ParensIs(a);
    forall x, t
      ensures R(x, t) <==> if back then InTurn(e, b, d, a, cc, back, st, x, t)
        else InTurn(e, a, cc, b, d, back, st, x, t)
    {
      CatMeans(e, a, b, back, cc, st, x, t);
    }
    MatchesCat(e, a, b, back, cc, st);
    if back {
      MatchesListed(e, b, back, d, st);
      ResultsGood(e, b, back, d, st, d + Groups(b));
      forall m | m in Matches(e, b, back, d, st)
        ensures Listed(Of(e, a, back, cc, m), Matches(e, a, back, cc, m))
      {
        GoodLess(e, m, d + Groups(b), d);
        MatchesListed(e, a, back, cc, m);
      }
      TurnListed(e, b, d, a, cc, back, st, R);
    } else {
      GoodLess(e, st, d + Groups(b), d);
      MatchesListed(e, a, back, cc, st);
      ResultsGood(e, a, back, cc, st, d + Groups(b));
      forall m | m in Matches(e, a, back, cc, st)
        ensures Listed(Of(e, b, back, d, m), Matches(e, b, back, d, m))
      {
        MatchesListed(e, b, back, d, m);
      }
      TurnListed(e, a, cc, b, d, back, st, R);
    }
  }

  lemma AltListed(e: Subject, a: Pattern, b: Pattern, back: bool, cc: nat, st: State)
    requires Listed(Of(e, a, back, cc, st), Matches(e, a, back, cc, st))
    requires Listed(Of(e, b, back, cc + Groups(a), st), Matches(e, b, back, cc + Groups(a), st))
    ensures Listed(Of(e, Alt(a, b), back, cc, st), Matches(e, Alt(a, b), back, cc, st))
  {
    hide Matches, Means, Listed, Prefixed;
    ParensIs(a);
    var R, S, U := Of(e, a, back, cc, st), Of(e, b, back, cc + Groups(a), st), Of(e, Alt(a, b), back, cc, st);
    forall x, t
      ensures U(x, t) <==> Prefixed(R, [0], x, t) || Prefixed(S, [1], x, t)
    {
      AltMeans(e, a, b, back, cc, st, x, t);
    }
    MatchesAlt(e, a, b, back, cc, st);
    ChoiceListed(R, Matches(e, a, back, cc, st), S, Matches(e, b, back, cc + Groups(a), st), U);
  }

  lemma QuantListed(e: Subject, a: Pattern, min: nat, max: nat, greedy: bool, back: bool, cc: nat, st: State)
    requires Good(e, st, cc + Groups(a))
    requires var s := Enter(a, cc, min, st);
      Listed(LoopOf(e, a, back, cc, min, max, greedy, s), Repeat(e, a, back, cc, min, max, greedy, s))
    ensures Listed(Of(e, Quant(a, min, max, greedy), back, cc, st),
      Matches(e, Quant(a, min, max, greedy), back, cc, st))
  {
    hide Matches, Means, Listed, Repeat, Good, Enter, Loops;
    GoodAligned(e, st, cc + Groups(a));
    var s, R := Enter(a, cc, min, st), Of(e, Quant(a, min, max, greedy), back, cc, st);
    forall x, t
      ensures R(x, t) <==> LoopOf(e, a, back, cc, min, max, greedy, s)(x, t)
    {
      QuantMeans(e, a, min, max, greedy, back, cc, st, x, t);
    }
    QuantIs(e, a, min, max, greedy, back, cc, st);
    SameListed(LoopOf(e, a, back, cc, min, max, greedy, s), R, Repeat(e, a, back, cc, min, max, greedy, s));
  }

  lemma QuantIs(e: Subject, a: Pattern, min: nat, max: nat, greedy: bool, back: bool, cc: nat, st: State)
    ensures Matches(e, Quant(a, min, max, greedy), back, cc, st)
      == Repeat(e, a, back, cc, min, max, greedy, Enter(a, cc, min, st))
  {
    hide MatchesAll, Repeat, RepeatAll, RepeatAfter, Close, OneMatches, RefEnd, Holds, Reset, Enter;
  }

  lemma QuantMeans(e: Subject, a: Pattern, min: nat, max: nat, greedy: bool, back: bool, cc: nat, st: State, x: State,
      t: Trace)
    requires 2 * (cc + Groups(a)) <= |st.caps|
    ensures Means(e, Quant(a, min, max, greedy), back, cc, st, x, t) <==>
      Loops(e, a, back, cc, min, max, greedy, Enter(a, cc, min, st), x, t)
  {
    hide Takes, Asserts, Repeats, Prefers, Cleared, Enter;
    ClearedIs(a, cc, min, st);
  }

  lemma {:induction false} RepeatListed(e: Subject, a: Pattern, back: bool, cc: nat, min: nat, max: nat, greedy: bool,
      st: State)
    requires Good(e, st, cc + Groups(a))
    ensures Listed(LoopOf(e, a, back, cc, min, max, greedy, st), Repeat(e, a, back, cc, min, max, greedy, st))
    decreases a, 1, if max >= INF then min else max, if max >= INF then Left(e.text, back, st.pos) else 0, 1
  {
    hide Good, Matches, Means, Listed, Lists, RepeatAll, Loops;
    if max == 0 {
      NoLoop(e, a, back, cc, min, greedy, st);
    } else {
      var xs, room := Matches(e, a, back, cc, st), cc + Groups(a);
      MatchesListed(e, a, back, cc, st);
      var ts := TracesOf(Of(e, a, back, cc, st), xs);
      ListShape(Of(e, a, back, cc, st), xs, ts);
      var B := After(e, a, back, cc, min, max, greedy, st.pos);
      var f := x => RepeatAfter(e, a, back, cc, min, max, greedy, st, x);
      ResultsGood(e, a, back, cc, st, room);
      GoodAligned(e, st, room);
      MatchesOnward(e, a, back, cc, st);
      forall m | m in xs
        ensures Listed(Part(B, m), f(m))
      {
        AfterListed(e, a, back, cc, min, max, greedy, st, m);
      }
      var us := ListBind(B, f, xs, ts);
      RepeatAllIsMap(e, a, back, cc, min, max, greedy, st, f, xs);
      IsListed(BindOf(B, xs, ts), FlatMap(f, xs), us);
      LoopListed(e, a, back, cc, min, max, greedy, st, xs, ts, FlatMap(f, xs));
    }
  }

  lemma NoLoop(e: Subject, a: Pattern, back: bool, cc: nat, min: nat, greedy: bool, st: State)
    ensures Listed(LoopOf(e, a, back, cc, min, 0, greedy, st), [st])
  {
    hide Lists, Loops, Prefixed, Listed;
    var L := LoopOf(e, a, back, cc, min, 0, greedy, st);
    forall x, t
      ensures L(x, t) <==> Prefixed(Just(st), [Stop(greedy)], x, t)
    {
      LoopUnfolds(e, a, back, cc, min, 0, greedy, st, x, t);
    }
    JustListed(st);
    PrefixListed(Just(st), [Stop(greedy)], [st], L);
  }

  lemma GoesOn(e: Subject, a: Pattern, back: bool, cc: nat, min: nat, max: nat, greedy: bool, p: nat, m: State,
      x: State, t: Trace)
    requires max > 0
    ensures Continues(e, a, back, cc, min, max, greedy, p, m, x, t) <==>
      if max >= INF && min == 0 && m.pos == p then x == m && t == []
      else Loops(e, a, back, cc, Less0(min), Less(max), greedy, m, x, t)
  {
    hide Means;
  }

  lemma {:induction false} AfterListed(e: Subject, a: Pattern, back: bool, cc: nat, min: nat, max: nat, greedy: bool,
      st: State, m: State)
    requires max > 0 && Good(e, st, cc + Groups(a)) && Good(e, m, cc + Groups(a)) && Onward(e, back, st, m)
    ensures Listed(Part(After(e, a, back, cc, min, max, greedy, st.pos), m),
      RepeatAfter(e, a, back, cc, min, max, greedy, st, m))
    decreases a, 1, if max >= INF then min else max, if max >= INF then Left(e.text, back, st.pos) else 0, 0
  {
    hide Good, Repeat, Means, Listed, Loops, Continues, CapturesInside, Aligned;
    GoodAligned(e, st, cc + Groups(a));
    GoodAligned(e, m, cc + Groups(a));
    var P := Part(After(e, a, back, cc, min, max, greedy, st.pos), m);
    forall x, t
      ensures P(x, t) <==>
        if max >= INF && min == 0 && m.pos == st.pos then x == m && t == []
        else Loops(e, a, back, cc, Less0(min), Less(max), greedy, m, x, t)
    {
      GoesOn(e, a, back, cc, min, max, greedy, st.pos, m, x, t);
    }
    if max >= INF && min == 0 && m.pos == st.pos {
      JustListed(m);
      SameListed(Just(m), P, [m]);
    } else {
      var L := LoopOf(e, a, back, cc, Less0(min), Less(max), greedy, m);
      RepeatListed(e, a, back, cc, Less0(min), Less(max), greedy, m);
      SameListed(L, P, Repeat(e, a, back, cc, Less0(min), Less(max), greedy, m));
    }
  }
}

/** The reference matcher lists what the meaning of a pattern allows: nothing else, nothing less, and in the order of
    the choices. */
module RegexListing {
  import opened RegexText
  import opened RegexCode
  import opened RegexPattern
  import opened RegexProgress
  import opened RegexAtoms
  import opened RegexOrder
  import opened RegexMeaning
  import opened RegexResults

  /** A state in which r can start: between characters, its captures too, with room for its groups. */
  ghost predicate Good(e: Subject, st: State, room: nat) {
    ValidText(e.text) && Aligned(e.text, st.pos) && CapturesInside(e.text, st.caps) && 2 * room <= |st.caps|
  }

  ghost function Of(e: Subject, r: Pattern, back: bool, cc: nat, st: State): Rel {
    (x: State, t: Trace) => Means(e, r, back, cc, st, x, t)
  }

  ghost function From(e: Subject, r: Pattern, back: bool, cc: nat): Then {
    (m: State, x: State, t: Trace) => Means(e, r, back, cc, m, x, t)
  }

  lemma GoodOnward(e: Subject, back: bool, st: State, x: State, room: nat)
    requires Good(e, st, room) && Onward(e, back, st, x)
    ensures Good(e, x, room)
  {
  }

  /** All results of r from a good state are good. */
  lemma ResultsGood(e: Subject, r: Pattern, back: bool, cc: nat, st: State, room: nat)
    requires Good(e, st, room)
    ensures forall x :: x in Matches(e, r, back, cc, st) ==> Good(e, x, room)
  {
    hide Good, Onward, Matches;
    GoodAligned(e, st, room);
    MatchesOnward(e, r, back, cc, st);
    forall x | x in Matches(e, r, back, cc, st)
      ensures Good(e, x, room)
    {
      GoodOnward(e, back, st, x, room);
    }
  }

  lemma GoodAligned(e: Subject, st: State, room: nat)
    requires Good(e, st, room)
    ensures Aligned(e.text, st.pos) && st.pos <= |e.text.units| && 2 * room <= |st.caps|
  {
  }

  // ---- single results

  /** The one way that a single character can match. */
  ghost predicate OneStep(e: Subject, s: OneChar, back: bool, st: State, x: State, t: Trace) {
    && t == []
    && if back then
         st.pos > 0 && OneHas(s, PrevChar(e.text, st.pos)) && x == st.(pos := Prev(e.text, st.pos))
       else
         st.pos < |e.text.units| && OneHas(s, CharAt(e.text, st.pos)) && x == st.(pos := RegexText.Next(e.text, st.pos))
  }

  lemma OneForward(e: Subject, s: OneChar, cc: nat, st: State, x: State, t: Trace)
    requires Aligned(e.text, st.pos)
    ensures Means(e, One(s), false, cc, st, x, t) <==> OneStep(e, s, false, st, x, t)
  {
    hide Accepts, OneHas, Spells, Between, Aligned, CharAt, Next;
    var c := CharAt(e.text, st.pos);
    AcceptsIs(s, c);
    BetweenIs(e.text, x.pos);
    if st.pos < |e.text.units| {
      NextAligned(e.text, st.pos);
    }
    SpellsIs(e.text, st.pos, x.pos, c);
    forall d | Spells(e.text, st.pos, x.pos, d)
      ensures d == c && st.pos < |e.text.units| && x.pos == RegexText.Next(e.text, st.pos)
    {
      SpellsIs(e.text, st.pos, x.pos, d);
    }
  }

  lemma OneBackward(e: Subject, s: OneChar, cc: nat, st: State, x: State, t: Trace)
    requires Aligned(e.text, st.pos)
    ensures Means(e, One(s), true, cc, st, x, t) <==> OneStep(e, s, true, st, x, t)
  {
    hide Accepts, OneHas, Spells, Between, Aligned, PrevChar, Prev;
    var c := PrevChar(e.text, st.pos);
    AcceptsIs(s, c);
    SpellsBack(e.text, x.pos, st.pos, c);
    forall d | Spells(e.text, x.pos, st.pos, d) && Between(e.text, x.pos)
      ensures d == c && st.pos > 0 && x.pos == Prev(e.text, st.pos)
    {
      SpellsBack(e.text, x.pos, st.pos, d);
    }
  }

  lemma OneListed(e: Subject, s: OneChar, back: bool, cc: nat, st: State)
    requires Aligned(e.text, st.pos)
    ensures Listed(Of(e, One(s), back, cc, st), Matches(e, One(s), back, cc, st))
  {
    hide Means, OneHas, CharAt, PrevChar, Next, Prev, Aligned, Lists;
    var R := Of(e, One(s), back, cc, st);
    forall x, t
      ensures R(x, t) <==> OneStep(e, s, back, st, x, t)
    {
      if back {
        OneBackward(e, s, cc, st, x, t);
      } else {
        OneForward(e, s, cc, st, x, t);
      }
    }
    if OneMatches(e, s, back, st) == [] {
      ListNone(R);
    } else {
      ListOne(R, OneMatches(e, s, back, st)[0], []);
    }
  }

  lemma SingleListed(e: Subject, r: Pattern, back: bool, cc: nat, st: State)
    requires Good(e, st, 0) && (r.Empty? || r.Assert? || r.BackRef?)
    ensures Listed(Of(e, r, back, cc, st), Matches(e, r, back, cc, st))
  {
    hide Asserts, Holds, Repeats, RefEnd, Lists;
    var R := Of(e, r, back, cc, st);
    match r
    case Empty => ListOne(R, st, []);
    case Assert(a) =>
      AssertsIs(e, a, st.pos);
      if Holds(e, a, st.pos) {
        ListOne(R, st, []);
      } else {
        ListNone(R);
      }
    case BackRef(k) =>
      forall q: nat
        ensures Repeats(e.text, st.caps, k, back, st.pos, q) <==> RefEnd(e.text, st.caps, k, back, st.pos) == Some(q)
      {
        RepeatsIs(e.text, st.caps, k, back, st.pos, q);
      }
      match RefEnd(e.text, st.caps, k, back, st.pos)
      case Some(p) => ListOne(R, st.(pos := p), []);
      case None => ListNone(R);
  }

  // ---- sequences

  /** One part after the other. */
  ghost predicate InTurn(e: Subject, r: Pattern, c1: nat, s: Pattern, c2: nat, back: bool, st: State, x: State,
      t: Trace) {
    exists m, u, v :: t == u + v && Means(e, r, back, c1, st, m, u) && Means(e, s, back, c2, m, x, v)
  }

  lemma CatMeans(e: Subject, a: Pattern, b: Pattern, back: bool, cc: nat, st: State, x: State, t: Trace)
    ensures Means(e, Cat(a, b), back, cc, st, x, t) <==>
      if back then InTurn(e, b, cc + Parens(a), a, cc, back, st, x, t)
      else InTurn(e, a, cc, b, cc + Parens(a), back, st, x, t)
  {
    hide Takes, Asserts, Repeats, Prefers, Loops, Cleared;
  }

  lemma TurnIsBound(e: Subject, r: Pattern, c1: nat, s: Pattern, c2: nat, back: bool, st: State, xs: seq<State>,
      ts: seq<Trace>, x: State, t: Trace)
    requires Lists(Of(e, r, back, c1, st), xs, ts)
    ensures InTurn(e, r, c1, s, c2, back, st, x, t) <==> Bound(From(e, s, back, c2), xs, ts, x, t)
  {
    hide Means;
    if InTurn(e, r, c1, s, c2, back, st, x, t) {
      var m, u, v :| t == u + v && Means(e, r, back, c1, st, m, u) && Means(e, s, back, c2, m, x, v);
      assert Of(e, r, back, c1, st)(m, u);
      var i :| 0 <= i < |xs| && i < |ts| && xs[i] == m && ts[i] == u;
      assert From(e, s, back, c2)(xs[i], x, v);
    }
    if Bound(From(e, s, back, c2), xs, ts, x, t) {
      var i, v :| 0 <= i < |xs| && i < |ts| && From(e, s, back, c2)(xs[i], x, v) && t == ts[i] + v;
      assert Of(e, r, back, c1, st)(xs[i], ts[i]);
      assert Means(e, r, back, c1, st, xs[i], ts[i]) && Means(e, s, back, c2, xs[i], x, v);
    }
  }

  /** Results of s from each result of r. */
  lemma TurnListed(e: Subject, r: Pattern, c1: nat, s: Pattern, c2: nat, back: bool, st: State, R: Rel)
    requires Listed(Of(e, r, back, c1, st), Matches(e, r, back, c1, st))
    requires forall m :: m in Matches(e, r, back, c1, st) ==> Listed(Of(e, s, back, c2, m), Matches(e, s, back, c2, m))
    requires forall x, t :: R(x, t) <==> InTurn(e, r, c1, s, c2, back, st, x, t)
    ensures Listed(R, MatchesAll(e, s, back, c2, Matches(e, r, back, c1, st)))
  {
    hide Means, Matches, MatchesAll, Lists, InTurn, Bound;
    var xs := Matches(e, r, back, c1, st);
    var ts :| Lists(Of(e, r, back, c1, st), xs, ts);
    var B := From(e, s, back, c2);
    var f := x => Matches(e, s, back, c2, x);
    ListShape(Of(e, r, back, c1, st), xs, ts);
    forall m | m in xs
      ensures Listed(Part(B, m), f(m))
    {
      SameListed(Of(e, s, back, c2, m), Part(B, m), f(m));
    }
    var us := ListBind(B, f, xs, ts);
    MatchesAllIsMap(e, s, back, c2, f, xs);
    forall x, t
      ensures BindOf(B, xs, ts)(x, t) <==> R(x, t)
    {
      TurnIsBound(e, r, c1, s, c2, back, st, xs, ts, x, t);
    }
    ListSame(BindOf(B, xs, ts), R, FlatMap(f, xs), us);
  }

  lemma TracesOf(R: Rel, xs: seq<State>) returns (ts: seq<Trace>)
    requires Listed(R, xs)
    ensures Lists(R, xs, ts)
  {
    hide Lists;
    ts :| Lists(R, xs, ts);
  }

  lemma IsListed(R: Rel, xs: seq<State>, ts: seq<Trace>)
    requires Lists(R, xs, ts)
    ensures Listed(R, xs)
  {
    hide Lists;
  }

  lemma ListShape(R: Rel, xs: seq<State>, ts: seq<Trace>)
    requires Lists(R, xs, ts)
    ensures |xs| == |ts| && Sorted(ts)
  {
  }

  lemma SameListed(R: Rel, S: Rel, xs: seq<State>)
    requires Listed(R, xs) && forall y, t :: R(y, t) <==> S(y, t)
    ensures Listed(S, xs)
  {
    hide Lists;
    var ts :| Lists(R, xs, ts);
    ListSame(R, S, xs, ts);
  }

  // ---- alternatives

  lemma AltUnfolds(e: Subject, a: Pattern, b: Pattern, back: bool, cc: nat, st: State, x: State, t: Trace)
    ensures Means(e, Alt(a, b), back, cc, st, x, t) <==>
      || (t != [] && t[0] == 0 && Of(e, a, back, cc, st)(x, t[1..]))
      || (t != [] && t[0] == 1 && Of(e, b, back, cc + Parens(a), st)(x, t[1..]))
  {
    hide Takes, Asserts, Repeats, Prefers, Loops, Cleared;
  }

  lemma PrefixedIs(R: Rel, c: nat, x: State, t: Trace)
    ensures Prefixed(R, [c], x, t) <==> t != [] && t[0] == c && R(x, t[1..])
  {
    if t != [] && t[0] == c && R(x, t[1..]) {
      assert t == [c] + t[1..];
    }
    if Prefixed(R, [c], x, t) {
      var v :| R(x, v) && t == [c] + v;
      assert t[1..] == v;
    }
  }

  lemma AltMeans(e: Subject, a: Pattern, b: Pattern, back: bool, cc: nat, st: State, x: State, t: Trace)
    ensures Means(e, Alt(a, b), back, cc, st, x, t) <==>
      Prefixed(Of(e, a, back, cc, st), [0], x, t) || Prefixed(Of(e, b, back, cc + Parens(a), st), [1], x, t)
  {
    hide Means, Prefixed;
    AltUnfolds(e, a, b, back, cc, st, x, t);
    PrefixedIs(Of(e, a, back, cc, st), 0, x, t);
    PrefixedIs(Of(e, b, back, cc + Parens(a), st), 1, x, t);
  }

  /** Two lists, the second behind the first. */
  lemma ChoiceListed(R: Rel, xs: seq<State>, S: Rel, zs: seq<State>, U: Rel)
    requires Listed(R, xs) && Listed(S, zs)
    requires forall y, t :: U(y, t) <==> Prefixed(R, [0], y, t) || Prefixed(S, [1], y, t)
    ensures Listed(U, xs + zs)
  {
    hide Lists, Prefixed;
    var ts :| Lists(R, xs, ts);
    var us :| Lists(S, zs, us);
    var ts' := ListPrefix(R, [0], xs, ts);
    var us' := ListPrefix(S, [1], zs, us);
    BranchesApart(R, S, xs, zs, ts', us');
    ListUnion(PrefixOf(R, [0]), PrefixOf(S, [1]), xs, ts', zs, us');
    ListSame(UnionOf(PrefixOf(R, [0]), PrefixOf(S, [1])), U, xs + zs, ts' + us');
  }

  lemma BranchesApart(R: Rel, S: Rel, xs: seq<State>, zs: seq<State>, ts: seq<Trace>, us: seq<Trace>)
    requires Lists(PrefixOf(R, [0]), xs, ts) && Lists(PrefixOf(S, [1]), zs, us)
    ensures forall i, j :: 0 <= i < |ts| && 0 <= j < |us| ==> Before(ts[i], us[j])
  {
    forall i, j | 0 <= i < |ts| && 0 <= j < |us|
      ensures Before(ts[i], us[j])
    {
      assert PrefixOf(R, [0])(xs[i], ts[i]) && PrefixOf(S, [1])(zs[j], us[j]);
      var v :| R(xs[i], v) && ts[i] == [0] + v;
      var w :| S(zs[j], w) && us[j] == [1] + w;
      assert [0][..0] == [1][..0] && Before([0], [1]);
      BeforeConcat([0], [1], v, w);
    }
  }

  // ---- groups

  ghost function Near(cc: nat, back: bool): nat {
    if back then 2 * cc + 1 else 2 * cc
  }

  ghost function Far(cc: nat, back: bool): nat {
    if back then 2 * cc else 2 * cc + 1
  }

  lemma GroupMeans(e: Subject, a: Pattern, back: bool, cc: nat, st: State, x: State, t: Trace)
    requires 2 * cc + 1 < |st.caps|
    ensures Means(e, Group(a), back, cc, st, x, t) <==>
      exists y: State :: Means(e, a, back, cc + 1, State(st.pos, st.caps[Near(cc, back) := Some(st.pos)]), y, t)
        && Far(cc, back) < |y.caps| && x == State(y.pos, y.caps[Far(cc, back) := Some(y.pos)])
  {
    hide Takes, Asserts, Repeats, Prefers, Loops, Cleared;
  }

  /** Setting the far end of a group is a step with one result. */
  ghost function Closing(cc: nat, back: bool): Then {
    (m: State, x: State, t: Trace) =>
      t == [] && Far(cc, back) < |m.caps| && x == State(m.pos, m.caps[Far(cc, back) := Some(m.pos)])
  }

  lemma GroupIsBound(e: Subject, a: Pattern, back: bool, cc: nat, st: State, xs: seq<State>, ts: seq<Trace>, x: State,
      t: Trace)
    requires 2 * cc + 1 < |st.caps|
    requires Lists(Of(e, a, back, cc + 1, State(st.pos, st.caps[Near(cc, back) := Some(st.pos)])), xs, ts)
    ensures Means(e, Group(a), back, cc, st, x, t) <==> Bound(Closing(cc, back), xs, ts, x, t)
  {
    hide Means;
    GroupMeans(e, a, back, cc, st, x, t);
    var open := State(st.pos, st.caps[Near(cc, back) := Some(st.pos)]);
    var R := Of(e, a, back, cc + 1, open);
    if Means(e, Group(a), back, cc, st, x, t) {
      var y: State :| Means(e, a, back, cc + 1, open, y, t) && Far(cc, back) < |y.caps|
        && x == State(y.pos, y.caps[Far(cc, back) := Some(y.pos)]);
      assert R(y, t);
      var i :| 0 <= i < |xs| && i < |ts| && xs[i] == y && ts[i] == t;
      assert Closing(cc, back)(xs[i], x, []) && t == ts[i] + [];
    }
    if Bound(Closing(cc, back), xs, ts, x, t) {
      var i, u :| 0 <= i < |xs| && i < |ts| && Closing(cc, back)(xs[i], x, u) && t == ts[i] + u;
      assert t == ts[i] && R(xs[i], ts[i]);
      assert Means(e, a, back, cc + 1, open, xs[i], t);
    }
  }

  lemma GroupListed(e: Subject, a: Pattern, back: bool, cc: nat, st: State)
    requires Good(e, st, cc + 1)
    requires var open := State(st.pos, st.caps[Near(cc, back) := Some(st.pos)]);
      Listed(Of(e, a, back, cc + 1, open), Matches(e, a, back, cc + 1, open))
    ensures Listed(Of(e, Group(a), back, cc, st), Matches(e, Group(a), back, cc, st))
  {
    hide Means, Lists, Bound, Matches, Good, Listed, Close, CloseOne;
    GoodAligned(e, st, cc + 1);
    var open := State(st.pos, st.caps[Near(cc, back) := Some(st.pos)]);
    GroupIs(e, a, back, cc, st);
    var xs := Matches(e, a, back, cc + 1, open);
    var ts := TracesOf(Of(e, a, back, cc + 1, open), xs);
    ListShape(Of(e, a, back, cc + 1, open), xs, ts);
    var B, f := Closing(cc, back), x => [CloseOne(cc, back, x)];
    OpenGood(e, back, cc, st, cc + 1);
    ResultsGood(e, a, back, cc + 1, open, cc + 1);
    forall m | m in xs
      ensures Listed(Part(B, m), f(m))
    {
      CloseListed(e, back, cc, m);
    }
    var us := ListBind(B, f, xs, ts);
    CloseIsMap(cc, back, f, xs);
    forall x, t
      ensures BindOf(B, xs, ts)(x, t) <==> Of(e, Group(a), back, cc, st)(x, t)
    {
      GroupIsBound(e, a, back, cc, st, xs, ts, x, t);
    }
    ListSame(BindOf(B, xs, ts), Of(e, Group(a), back, cc, st), FlatMap(f, xs), us);
    IsListed(Of(e, Group(a), back, cc, st), FlatMap(f, xs), us);
  }

  lemma GroupIs(e: Subject, a: Pattern, back: bool, cc: nat, st: State)
    requires 2 * cc + 1 < |st.caps|
    ensures Matches(e, Group(a), back, cc, st)
      == Close(cc, back, Matches(e, a, back, cc + 1, State(st.pos, st.caps[Near(cc, back) := Some(st.pos)])))
  {
    hide Close, MatchesAll, Repeat, OneMatches, RefEnd, Holds;
    assert st.(caps := Save(st.caps, if back then 2 * cc + 1 else 2 * cc, st.pos))
      == State(st.pos, st.caps[Near(cc, back) := Some(st.pos)]);
  }

  lemma OpenGood(e: Subject, back: bool, cc: nat, st: State, room: nat)
    requires Good(e, st, room) && cc < room
    ensures Good(e, State(st.pos, st.caps[Near(cc, back) := Some(st.pos)]), room)
  {
  }

  lemma CloseListed(e: Subject, back: bool, cc: nat, m: State)
    requires Good(e, m, cc + 1)
    ensures Listed(Part(Closing(cc, back), m), [CloseOne(cc, back, m)])
  {
    hide Lists;
    ListOne(Part(Closing(cc, back), m), CloseOne(cc, back, m), []);
  }

  // ---- look-around

  lemma LookListed(e: Subject, behind: bool, negative: bool, a: Pattern, back: bool, cc: nat, st: State)
    requires Listed(Of(e, a, behind, cc, st), Matches(e, a, behind, cc, st))
    ensures Listed(Of(e, Look(behind, negative, a), back, cc, st), Matches(e, Look(behind, negative, a), back, cc, st))
  {
    hide Means, Lists;
    var R, S := Of(e, a, behind, cc, st), Of(e, Look(behind, negative, a), back, cc, st);
    var xs := Matches(e, a, behind, cc, st);
    var ts :| Lists(R, xs, ts);
    forall x, t
      ensures S(x, t) <==> t == [] && if negative then x == st && xs == []
        else xs != [] && x == State(st.pos, xs[0].caps)
    {
      LookMeans(e, behind, negative, a, back, cc, st, x, t, xs, ts);
    }
    LookPick(S, negative, st, xs);
  }

  lemma LookPick(S: Rel, negative: bool, st: State, xs: seq<State>)
    requires forall x, t :: S(x, t) <==> t == [] && if negative then x == st && xs == []
      else xs != [] && x == State(st.pos, xs[0].caps)
    ensures Listed(S, if negative then (if xs == [] then [st] else [])
      else if xs == [] then [] else [st.(caps := xs[0].caps)])
  {
    hide Lists;
    if negative {
      if xs == [] {
        ListOne(S, st, []);
      } else {
        ListNone(S);
      }
    } else if xs == [] {
      ListNone(S);
    } else {
      ListOne(S, st.(caps := xs[0].caps), []);
    }
  }

  lemma LookMeans(e: Subject, behind: bool, negative: bool, a: Pattern, back: bool, cc: nat, st: State, x: State,
      t: Trace, xs: seq<State>, ts: seq<Trace>)
    requires Lists(Of(e, a, behind, cc, st), xs, ts)
    ensures Means(e, Look(behind, negative, a), back, cc, st, x, t) <==>
      t == [] && if negative then x == st && xs == [] else xs != [] && x == State(st.pos, xs[0].caps)
  {
    hide Takes, Asserts, Repeats, Prefers, Loops, Cleared;
    var R := Of(e, a, behind, cc, st);
    if xs != [] {
      assert R(xs[0], ts[0]);
      PrefersIs(e, a, behind, cc, st, xs[0], ts[0], xs, ts);
    }
    forall y, u | Means(e, a, behind, cc, st, y, u)
      ensures xs != []
    {
      assert R(y, u);
    }
    forall y, u
      ensures Prefers(e, a, behind, cc, st, y, u) <==> xs != [] && y == xs[0] && u == ts[0]
    {
      PrefersIs(e, a, behind, cc, st, y, u, xs, ts);
    }
  }

  /** The preferred result is the first of the list. */
  lemma PrefersIs(e: Subject, r: Pattern, back: bool, cc: nat, st: State, y: State, u: Trace, xs: seq<State>,
      ts: seq<Trace>)
    requires Lists(Of(e, r, back, cc, st), xs, ts)
    ensures Prefers(e, r, back, cc, st, y, u) <==> xs != [] && y == xs[0] && u == ts[0]
  {
    hide Means;
    var R := Of(e, r, back, cc, st);
    assert Prefers(e, r, back, cc, st, y, u) <==> IsFirst(R, y, u) by {
      assert forall z, v :: R(z, v) <==> Means(e, r, back, cc, st, z, v);
    }
    if xs == [] {
      assert !R(y, u);
    } else {
      FirstOfList(R, xs, ts, y, u);
    }
  }
}

/** The halting condition of RegexOwn within a fixed number of rounds: the states that a match can be in are finitely
    many, so a chain of preferred matches either ends within that number or never. */
module RegexRounds {
  import opened RegexText
  import opened RegexCode
  import opened RegexPattern
  import opened RegexProgress
  import opened RegexVM
  import opened RegexBlocks
  import opened RegexLoops
  import opened RegexTheorem
  import opened RegexLazy
  import opened RegexOwn
  import Limbs

  /** Position and captures lie in the text. */
  ghost predicate Inside(e: Env, st: State) {
    Fit(e, st) && CapturesInside(e.subject.text, st.caps)
  }

  /** The states that are inside, counted in base |text| + 2. */
  function Rounds(e: Env): nat {
    Limbs.Pow(|e.subject.text.units| + 2, 1 + 2 * e.captures)
  }

  function Digit(c: Option<nat>): nat {
    if c.Some? then c.value + 1 else 0
  }

  function StateDigits(st: State): (s: seq<nat>)
    ensures |s| == 1 + |st.caps|
  {
    [st.pos] + seq(|st.caps|, i requires 0 <= i < |st.caps| => Digit(st.caps[i]))
  }

  function Number(e: Env, st: State): nat {
    Limbs.Val(|e.subject.text.units| + 2, StateDigits(st))
  }

  lemma NumberBelow(e: Env, st: State)
    requires Inside(e, st)
    ensures Limbs.Digits(|e.subject.text.units| + 2, StateDigits(st)) && Number(e, st) < Rounds(e)
  {
    Limbs.ValBound(|e.subject.text.units| + 2, StateDigits(st));
  }

  /** Different states have different numbers. */
  lemma NumberUnique(e: Env, x: State, y: State)
    requires Inside(e, x) && Inside(e, y) && Number(e, x) == Number(e, y)
    ensures x == y
  {
    var s, t := StateDigits(x), StateDigits(y);
    NumberBelow(e, x);
    NumberBelow(e, y);
    Limbs.DigitsUnique(|e.subject.text.units| + 2, s, t);
    assert x.pos == s[0] == t[0];
    forall i | 0 <= i < |x.caps|
      ensures x.caps[i] == y.caps[i]
    {
      assert s[i + 1] == Digit(x.caps[i]) && t[i + 1] == Digit(y.caps[i]);
    }
    assert x.caps == y.caps;
  }

  /** Different numbers below n are at most n. */
  lemma {:induction false} Pigeonhole(s: seq<nat>, n: nat)
    requires forall i :: 0 <= i < |s| ==> s[i] < n
    requires forall i, j :: 0 <= i < j < |s| ==> s[i] != s[j]
    ensures |s| <= n
    decreases n
  {
    if s != [] {
      assert s[0] < n;
      if i :| 0 <= i < |s| && s[i] == n - 1 {
        var t := s[..i] + s[i + 1..];
        assert forall k :: 0 <= k < |t| ==> t[k] == s[if k < i then k else k + 1];
        Pigeonhole(t, n - 1);
      } else {
        Pigeonhole(s, n - 1);
      }
    }
  }

  // ---- chains

  lemma {:induction false} EndsLater(e: Env, m: Atom, n: nat, k: nat, st: State)
    requires EndsIn(e, m, n, st) && n <= k
    ensures EndsIn(e, m, k, st)
    decreases n
  {
    hide Once;
    if Once(e, m, st) != [] {
      EndsLater(e, m, n - 1, k - 1, Once(e, m, st)[0]);
    }
  }

  /** The chain from st has exactly n states. */
  ghost predicate Rank(e: Env, m: Atom, n: nat, st: State) {
    n > 0 && EndsIn(e, m, n, st) && !EndsIn(e, m, n - 1, st)
  }

  lemma {:induction false} HasRank(e: Env, m: Atom, n: nat, st: State) returns (k: nat)
    requires EndsIn(e, m, n, st)
    ensures Rank(e, m, k, st)
    decreases n
  {
    if EndsIn(e, m, n - 1, st) {
      k := HasRank(e, m, n - 1, st);
    } else {
      k := n;
    }
  }

  lemma RankNext(e: Env, m: Atom, n: nat, st: State)
    requires Rank(e, m, n, st) && n > 1
    ensures Once(e, m, st) != [] && Rank(e, m, n - 1, Once(e, m, st)[0])
  {
    hide Once;
  }

  lemma NextInside(e: Env, m: Atom, st: State)
    requires Inside(e, st) && Once(e, m, st) != []
    ensures Inside(e, Once(e, m, st)[0])
  {
    var x := Once(e, m, st)[0];
    OnceFit(e, m, st, x);
    MatchesOnward(e.subject, m.a, m.back, m.cc, st);
    assert x in Matches(e.subject, m.a, m.back, m.cc, st);
    assert Onward(e.subject, m.back, st, x);
  }

  ghost predicate Descending(e: Env, m: Atom, n: nat, s: seq<State>) {
    |s| <= n && forall k :: 0 <= k < |s| ==> Inside(e, s[k]) && Rank(e, m, n - k, s[k])
  }

  /** The states of a chain. */
  lemma {:induction false} ChainStates(e: Env, m: Atom, n: nat, st: State) returns (s: seq<State>)
    requires Inside(e, st) && Rank(e, m, n, st)
    ensures |s| == n && Descending(e, m, n, s)
    decreases n
  {
    hide Once, Inside, Rank;
    if n == 1 {
      s := [st];
    } else {
      RankPositive(e, m, n, st);
      RankNext(e, m, n, st);
      NextInside(e, m, st);
      var t := ChainStates(e, m, n - 1, Once(e, m, st)[0]);
      s := [st] + t;
      forall k | 0 <= k < |s|
        ensures Inside(e, s[k]) && Rank(e, m, n - k, s[k])
      {
        if k > 0 {
          assert s[k] == t[k - 1];
        }
      }
    }
  }

  lemma RankPositive(e: Env, m: Atom, n: nat, st: State)
    requires Rank(e, m, n, st)
    ensures n > 0
  {
  }

  lemma RanksDiffer(e: Env, m: Atom, n: nat, k: nat, x: State, y: State)
    requires Rank(e, m, n, x) && Rank(e, m, k, y) && k < n
    ensures x != y
  {
    if x == y {
      EndsLater(e, m, k, n - 1, y);
    }
  }

  /** A chain that ends has at most as many states as there are. */
  lemma RankBound(e: Env, m: Atom, n: nat, st: State)
    requires Inside(e, st) && Rank(e, m, n, st)
    ensures n <= Rounds(e)
  {
    hide Rank, Inside, Rounds, Number;
    var s := ChainStates(e, m, n, st);
    var t := seq(n, i requires 0 <= i < n => Number(e, s[i]));
    forall i | 0 <= i < n
      ensures t[i] < Rounds(e)
    {
      NumberBelow(e, s[i]);
    }
    forall i, j | 0 <= i < j < n
      ensures t[i] != t[j]
    {
      RanksDiffer(e, m, n - i, n - j, s[i], s[j]);
      if t[i] == t[j] {
        NumberUnique(e, s[i], s[j]);
      }
    }
    Pigeonhole(t, Rounds(e));
  }

  /** A chain ends exactly when it ends within that many rounds. */
  lemma ChainEndsWithin(e: Env, m: Atom, st: State)
    requires Inside(e, st)
    ensures ChainEnds(e, m, st) <==> EndsIn(e, m, Rounds(e), st)
  {
    hide Inside, Rounds, EndsIn;
    if ChainEnds(e, m, st) {
      var n: nat :| EndsIn(e, m, n, st);
      var k := HasRank(e, m, n, st);
      RankBound(e, m, k, st);
      RankEnds(e, m, k, st);
      EndsLater(e, m, k, Rounds(e), st);
    }
  }

  lemma RankEnds(e: Env, m: Atom, n: nat, st: State)
    requires Rank(e, m, n, st)
    ensures EndsIn(e, m, n, st)
  {
  }

  lemma StartInside(e: Env, a: Pattern, p: nat)
    requires Aligned(e.subject.text, p)
    ensures Inside(e, LazyStart(e, a, p))
  {
    var caps := NoCaptures(e.captures);
    SaveInside(e.subject.text, caps, 0, p);
    EnterInside(e.subject.text, a, 1, 0, State(p, Save(caps, 0, p)));
  }

  /** `a*` over an atom that reads a capture of its own halts from p exactly when at most Rounds(e) preferred matches
      of a in a row lead to a state without one. */
  lemma OwnHaltsWithin(e: Env, a: Pattern, p: nat)
    requires OwnCompiled(e, a) && Aligned(e.subject.text, p)
    ensures Halts(e, Start(e, p)) <==> EndsIn(e, Atom(a, false, 1), Rounds(e), LazyStart(e, a, p))
  {
    hide Halts, ChainEnds, EndsIn, Rounds, Inside, OwnCompiled;
    OwnHalts(e, a, p);
    StartInside(e, a, p);
    ChainEndsWithin(e, Atom(a, false, 1), LazyStart(e, a, p));
  }
}

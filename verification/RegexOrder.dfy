/** Results in order of preference. A trace records the choices that lead to a result; the result of the lesser trace is
    preferred. A list of results is complete and in order for a relation between results and traces. */
module RegexOrder {
  import opened RegexPattern

  type Trace = seq<nat>

  /** At the first choice where they differ, s has the lesser one. Neither trace continues the other. */
  ghost predicate Before(s: Trace, t: Trace) {
    exists k: nat :: k < |s| && k < |t| && s[..k] == t[..k] && s[k] < t[k]
  }

  lemma BeforeConcat(s: Trace, t: Trace, u: Trace, v: Trace)
    requires Before(s, t)
    ensures Before(s + u, t + v)
  {
    var k: nat :| k < |s| && k < |t| && s[..k] == t[..k] && s[k] < t[k];
    assert (s + u)[..k] == s[..k] && (t + v)[..k] == t[..k];
  }

  lemma BeforeBehind(s: Trace, u: Trace, v: Trace)
    requires Before(u, v)
    ensures Before(s + u, s + v)
  {
    var k: nat :| k < |u| && k < |v| && u[..k] == v[..k] && u[k] < v[k];
    assert (s + u)[..|s| + k] == s + u[..k] && (s + v)[..|s| + k] == s + v[..k];
    assert (s + u)[|s| + k] == u[k] && (s + v)[|s| + k] == v[k];
  }

  lemma NotBeforeItself(s: Trace, t: Trace)
    requires Before(s, t)
    ensures !Before(t, s) && s != t
  {
    var k: nat :| k < |s| && k < |t| && s[..k] == t[..k] && s[k] < t[k];
    if l: nat :| l < |t| && l < |s| && t[..l] == s[..l] && t[l] < s[l] {
      CommonEntries(s, t, k, l);
    }
  }

  lemma CommonEntries(s: Trace, t: Trace, k: nat, l: nat)
    requires k < |s| && k < |t| && l < |s| && l < |t| && s[..k] == t[..k] && s[..l] == t[..l]
    ensures (k < l ==> s[k] == t[k]) && (l < k ==> s[l] == t[l])
  {
    if k < l {
      assert s[..l][k] == t[..l][k];
    } else if l < k {
      assert s[..k][l] == t[..k][l];
    }
  }

  ghost predicate Sorted(ts: seq<Trace>) {
    forall i, j :: 0 <= i < j < |ts| ==> Before(ts[i], ts[j])
  }

  type Rel = (State, Trace) -> bool

  /** The results xs with their traces ts are all that R allows, in order. */
  ghost predicate Lists(R: Rel, xs: seq<State>, ts: seq<Trace>) {
    && |xs| == |ts| && Sorted(ts)
    && (forall i :: 0 <= i < |xs| ==> R(xs[i], ts[i]))
    && (forall y, t :: R(y, t) ==> InLists(xs, ts, y, t))
  }

  ghost predicate InLists(xs: seq<State>, ts: seq<Trace>, y: State, t: Trace) {
    exists i :: 0 <= i < |xs| && i < |ts| && xs[i] == y && ts[i] == t
  }

  ghost predicate Listed(R: Rel, xs: seq<State>) {
    exists ts :: Lists(R, xs, ts)
  }

  /** The preferred result. */
  ghost predicate IsFirst(R: Rel, x: State, t: Trace) {
    R(x, t) && forall y, u :: R(y, u) ==> (y == x && u == t) || Before(t, u)
  }

  lemma FirstOfList(R: Rel, xs: seq<State>, ts: seq<Trace>, x: State, t: Trace)
    requires Lists(R, xs, ts) && xs != []
    ensures IsFirst(R, x, t) <==> x == xs[0] && t == ts[0]
  {
    assert R(xs[0], ts[0]);
    forall y, u | R(y, u)
      ensures (y == xs[0] && u == ts[0]) || Before(ts[0], u)
    {
      var i :| 0 <= i < |xs| && i < |ts| && xs[i] == y && ts[i] == u;
    }
    if IsFirst(R, x, t) && !(x == xs[0] && t == ts[0]) {
      NotBeforeItself(t, ts[0]);
    }
  }

  lemma ListNone(R: Rel)
    requires forall y, t :: !R(y, t)
    ensures Lists(R, [], [])
  {
  }

  lemma ListOne(R: Rel, x: State, t0: Trace)
    requires forall y, t :: R(y, t) <==> y == x && t == t0
    ensures Lists(R, [x], [t0])
  {
    assert forall y, t :: R(y, t) ==> [x][0] == y && [t0][0] == t;
  }

  lemma ListSame(R: Rel, S: Rel, xs: seq<State>, ts: seq<Trace>)
    requires Lists(R, xs, ts) && forall y, t :: R(y, t) <==> S(y, t)
    ensures Lists(S, xs, ts)
  {
  }

  /** u in front of every trace of R. */
  ghost predicate Prefixed(R: Rel, u: Trace, y: State, t: Trace) {
    exists v :: R(y, v) && t == u + v
  }

  ghost function PrefixOf(R: Rel, u: Trace): Rel {
    (y: State, t: Trace) => Prefixed(R, u, y, t)
  }

  lemma ListPrefix(R: Rel, u: Trace, xs: seq<State>, ts: seq<Trace>) returns (us: seq<Trace>)
    requires Lists(R, xs, ts)
    ensures Lists(PrefixOf(R, u), xs, us)
  {
    us := seq(|ts|, i requires 0 <= i < |ts| => u + ts[i]);
    forall i, j | 0 <= i < j < |us|
      ensures Before(us[i], us[j])
    {
      BeforeBehind(u, ts[i], ts[j]);
    }
    forall i | 0 <= i < |xs|
      ensures PrefixOf(R, u)(xs[i], us[i])
    {
      assert R(xs[i], ts[i]) && us[i] == u + ts[i];
    }
    forall y, t | PrefixOf(R, u)(y, t)
      ensures InLists(xs, us, y, t)
    {
      var v :| R(y, v) && t == u + v;
      var i :| 0 <= i < |xs| && i < |ts| && xs[i] == y && ts[i] == v;
      assert us[i] == t;
    }
  }

  ghost predicate Either(R: Rel, S: Rel, y: State, t: Trace) {
    R(y, t) || S(y, t)
  }

  ghost function UnionOf(R: Rel, S: Rel): Rel {
    (y: State, t: Trace) => Either(R, S, y, t)
  }

  lemma ListUnion(R: Rel, S: Rel, xs: seq<State>, ts: seq<Trace>, zs: seq<State>, us: seq<Trace>)
    requires Lists(R, xs, ts) && Lists(S, zs, us)
    requires forall i, j :: 0 <= i < |ts| && 0 <= j < |us| ==> Before(ts[i], us[j])
    ensures Lists(UnionOf(R, S), xs + zs, ts + us)
  {
    hide InLists, Sorted, Before;
    SortedUnion(ts, us);
    forall i | 0 <= i < |xs + zs|
      ensures UnionOf(R, S)((xs + zs)[i], (ts + us)[i])
    {
    }
    forall y, t | UnionOf(R, S)(y, t)
      ensures InLists(xs + zs, ts + us, y, t)
    {
      InUnion(xs, ts, zs, us, y, t);
    }
  }

  lemma SortedUnion(ts: seq<Trace>, us: seq<Trace>)
    requires Sorted(ts) && Sorted(us)
    requires forall i, j :: 0 <= i < |ts| && 0 <= j < |us| ==> Before(ts[i], us[j])
    ensures Sorted(ts + us)
  {
    hide Before;
    var bs, n := ts + us, |ts|;
    forall i, j | 0 <= i < j < |bs|
      ensures Before(bs[i], bs[j])
    {
      if n <= i {
        assert bs[i] == us[i - n] && bs[j] == us[j - n];
      } else if n <= j {
        assert bs[i] == ts[i] && bs[j] == us[j - n];
      } else {
        assert bs[i] == ts[i] && bs[j] == ts[j];
      }
    }
  }

  lemma InUnion(xs: seq<State>, ts: seq<Trace>, zs: seq<State>, us: seq<Trace>, y: State, t: Trace)
    requires |xs| == |ts| && |zs| == |us| && (InLists(xs, ts, y, t) || InLists(zs, us, y, t))
    ensures InLists(xs + zs, ts + us, y, t)
  {
    var all, bs := xs + zs, ts + us;
    if InLists(xs, ts, y, t) {
      var i :| 0 <= i < |xs| && i < |ts| && xs[i] == y && ts[i] == t;
      assert all[i] == y && bs[i] == t;
    } else {
      var i :| 0 <= i < |zs| && i < |us| && zs[i] == y && us[i] == t;
      assert all[|xs| + i] == y && bs[|ts| + i] == t;
    }
  }

  // ---- one result after another

  type Then = (State, State, Trace) -> bool

  ghost function Part(B: Then, x: State): Rel {
    (y: State, t: Trace) => B(x, y, t)
  }

  /** A result that B reaches from one of xs, the traces one after the other. */
  ghost predicate Bound(B: Then, xs: seq<State>, ts: seq<Trace>, y: State, t: Trace) {
    exists i, u :: 0 <= i < |xs| && i < |ts| && B(xs[i], y, u) && t == ts[i] + u
  }

  ghost function BindOf(B: Then, xs: seq<State>, ts: seq<Trace>): Rel {
    (y: State, t: Trace) => Bound(B, xs, ts, y, t)
  }

  lemma {:induction false} ListBind(B: Then, f: State -> seq<State>, xs: seq<State>, ts: seq<Trace>)
    returns (us: seq<Trace>)
    requires |xs| == |ts| && Sorted(ts) && forall x :: x in xs ==> Listed(Part(B, x), f(x))
    ensures Lists(BindOf(B, xs, ts), FlatMap(f, xs), us)
    decreases |xs|
  {
    if xs == [] {
      us := [];
      ListNone(BindOf(B, xs, ts));
    } else {
      var x, rest, tail := xs[0], xs[1..], ts[1..];
      assert Listed(Part(B, x), f(x));
      var vs :| Lists(Part(B, x), f(x), vs);
      var first := ListPrefix(Part(B, x), ts[0], f(x), vs);
      var others := ListBind(B, f, rest, tail);
      FirstBefore(B, x, f(x), rest, ts[0], tail, first, FlatMap(f, rest), others);
      ListUnion(PrefixOf(Part(B, x), ts[0]), BindOf(B, rest, tail), f(x), first, FlatMap(f, rest), others);
      us := first + others;
      forall y, t
        ensures UnionOf(PrefixOf(Part(B, x), ts[0]), BindOf(B, rest, tail))(y, t) <==> BindOf(B, xs, ts)(y, t)
      {
        BoundSplit(B, xs, ts, y, t);
      }
      ListSame(UnionOf(PrefixOf(Part(B, x), ts[0]), BindOf(B, rest, tail)), BindOf(B, xs, ts), FlatMap(f, xs), us);
    }
  }

  /** The results from the first state come before those from the others. */
  lemma FirstBefore(B: Then, x: State, fx: seq<State>, rest: seq<State>, t0: Trace, tail: seq<Trace>, first: seq<Trace>,
      zs: seq<State>, others: seq<Trace>)
    requires Lists(PrefixOf(Part(B, x), t0), fx, first) && Lists(BindOf(B, rest, tail), zs, others)
    requires forall j :: 0 <= j < |tail| ==> Before(t0, tail[j])
    ensures forall i, j :: 0 <= i < |first| && 0 <= j < |others| ==> Before(first[i], others[j])
  {
    forall i, j | 0 <= i < |first| && 0 <= j < |others|
      ensures Before(first[i], others[j])
    {
      assert PrefixOf(Part(B, x), t0)(fx[i], first[i]);
      var v :| Part(B, x)(fx[i], v) && first[i] == t0 + v;
      assert BindOf(B, rest, tail)(zs[j], others[j]);
      var k, u :| 0 <= k < |rest| && k < |tail| && B(rest[k], zs[j], u) && others[j] == tail[k] + u;
      BeforeConcat(t0, tail[k], v, u);
    }
  }

  lemma BoundSplit(B: Then, xs: seq<State>, ts: seq<Trace>, y: State, t: Trace)
    requires |xs| == |ts| > 0
    ensures Bound(B, xs, ts, y, t) <==> Prefixed(Part(B, xs[0]), ts[0], y, t) || Bound(B, xs[1..], ts[1..], y, t)
  {
    if Bound(B, xs, ts, y, t) {
      var i, u :| 0 <= i < |xs| && i < |ts| && B(xs[i], y, u) && t == ts[i] + u;
      if i == 0 {
        assert Part(B, xs[0])(y, u) && t == ts[0] + u;
      } else {
        assert B(xs[1..][i - 1], y, u) && t == ts[1..][i - 1] + u;
      }
    }
    if Prefixed(Part(B, xs[0]), ts[0], y, t) {
      var v :| Part(B, xs[0])(y, v) && t == ts[0] + v;
      assert B(xs[0], y, v);
    }
    if Bound(B, xs[1..], ts[1..], y, t) {
      var i, u :| 0 <= i < |xs[1..]| && i < |ts[1..]| && B(xs[1..][i], y, u) && t == ts[1..][i] + u;
      assert B(xs[i + 1], y, u) && t == ts[i + 1] + u;
    }
  }
}

/** The RepeatMatcher of section 21.2.2.5.1 of ECMA-262, 11th edition, beside the repetition that the engine implements:
    captures inside the atom are reset at every iteration, and an optional iteration that consumes nothing fails. */
module RegexStandard {
  import opened RegexText
  import opened RegexCode
  import opened RegexPattern
  import opened RegexCodegen
  import opened RegexProgress

  /** All matches of r from st by the standard, preferred first. */
  function StdMatches(e: Subject, r: Pattern, back: bool, cc: nat, st: State): seq<State>
    decreases r, 0, 0, 0, 0, 0
  {
    match r
    case Cat(a, b) =>
      if back then StdAll(e, a, back, cc, StdMatches(e, b, back, cc + Groups(a), st))
      else StdAll(e, b, back, cc + Groups(a), StdMatches(e, a, back, cc, st))
    case Alt(a, b) => StdMatches(e, a, back, cc, st) + StdMatches(e, b, back, cc + Groups(a), st)
    case Group(a) =>
      var open := st.(caps := Save(st.caps, if back then 2 * cc + 1 else 2 * cc, st.pos));
      Close(cc, back, StdMatches(e, a, back, cc + 1, open))
    case Look(behind, negative, a) =>
      var inner := StdMatches(e, a, behind, cc, st);
      if negative then (if inner == [] then [st] else [])
      else if inner == [] then [] else [st.(caps := inner[0].caps)]
    case Quant(a, min, max, greedy) => StdRepeat(e, a, back, cc, min, max, greedy, st)
    case _ => Matches(e, r, back, cc, st)
  }

  function StdAll(e: Subject, r: Pattern, back: bool, cc: nat, sts: seq<State>): seq<State>
    decreases r, 1, 0, 0, 0, |sts|
  {
    if sts == [] then [] else StdMatches(e, r, back, cc, sts[0]) + StdAll(e, r, back, cc, sts[1..])
  }

  /** RepeatMatcher: the atom starts with its captures reset, the rest of the pattern does not. */
  function StdRepeat(e: Subject, a: Pattern, back: bool, cc: nat, min: nat, max: nat, greedy: bool,
      x: State): seq<State>
    decreases a, 1, if max >= INF then min else max, if max >= INF then Left(e.text, back, x.pos) else 0, 2, 0
  {
    if max == 0 then [x]
    else
      var again := StdRepeatAll(e, a, back, cc, min, max, greedy, x, StdMatches(e, a, back, cc, Enter(a, cc, 0, x)));
      if min > 0 then again else if greedy then again + [x] else [x] + again
  }

  function StdRepeatAll(e: Subject, a: Pattern, back: bool, cc: nat, min: nat, max: nat, greedy: bool, x: State,
                        ys: seq<State>): seq<State>
    requires max > 0
    decreases a, 1, if max >= INF then min else max, if max >= INF then Left(e.text, back, x.pos) else 0, 1, |ys|
  {
    if ys == [] then []
    else
      StdRepeatAfter(e, a, back, cc, min, max, greedy, x, ys[0])
      + StdRepeatAll(e, a, back, cc, min, max, greedy, x, ys[1..])
  }

  /** The closure d: an optional iteration from x that ends in y where it began fails. No match goes back, so the second
      case adds nothing; it lets the recursion end. */
  function StdRepeatAfter(e: Subject, a: Pattern, back: bool, cc: nat, min: nat, max: nat, greedy: bool, x: State,
                          y: State): seq<State>
    requires max > 0
    decreases a, 1, if max >= INF then min else max, if max >= INF then Left(e.text, back, x.pos) else 0, 0, 0
  {
    if min == 0 && y.pos == x.pos then []
    else if min == 0 && max >= INF && Left(e.text, back, y.pos) >= Left(e.text, back, x.pos) then []
    else StdRepeat(e, a, back, cc, Less0(min), Less(max), greedy, y)
  }

  // ---- where the engine agrees with it

  /** Quantified atoms have no groups and always consume. */
  predicate PlainLoops(r: Pattern) {
    match r
    case Cat(a, b) => PlainLoops(a) && PlainLoops(b)
    case Alt(a, b) => PlainLoops(a) && PlainLoops(b)
    case Group(a) => PlainLoops(a)
    case Look(_, _, a) => PlainLoops(a)
    case Quant(a, _, _, _) => PlainLoops(a) && Groups(a) == 0 && Consumes(a)
    case _ => true
  }

  lemma {:induction false} StdAgrees(e: Subject, r: Pattern, back: bool, cc: nat, st: State)
    requires WellFormed(r) && PlainLoops(r) && Aligned(e.text, st.pos)
    ensures StdMatches(e, r, back, cc, st) == Matches(e, r, back, cc, st)
    decreases r, 0, 0, 0, 0, 0
  {
    match r
    case Cat(a, b) =>
      if back {
        StdAgrees(e, b, back, cc + Groups(a), st);
        StdAllAgrees(e, b, a, back, cc + Groups(a), cc, st);
      } else {
        StdAgrees(e, a, back, cc, st);
        StdAllAgrees(e, a, b, back, cc, cc + Groups(a), st);
      }
    case Alt(a, b) =>
      StdAgrees(e, a, back, cc, st);
      StdAgrees(e, b, back, cc + Groups(a), st);
    case Group(a) =>
      var open := st.(caps := Save(st.caps, if back then 2 * cc + 1 else 2 * cc, st.pos));
      StdAgrees(e, a, back, cc + 1, open);
    case Look(behind, negative, a) =>
      StdAgrees(e, a, behind, cc, st);
    case Quant(a, min, max, greedy) =>
      StdRepeatAgrees(e, a, back, cc, min, max, greedy, st);
    case _ =>
  }

  /** The second part of a sequence, from every match of the first. */
  lemma {:induction false} StdAllAgrees(e: Subject, a: Pattern, b: Pattern, back: bool, cca: nat, ccb: nat, st: State)
    requires WellFormed(b) && PlainLoops(b) && Aligned(e.text, st.pos)
    ensures StdAll(e, b, back, ccb, Matches(e, a, back, cca, st))
      == MatchesAll(e, b, back, ccb, Matches(e, a, back, cca, st))
    decreases b, 2, 0, 0, 0, 0
  {
    MatchesOnward(e, a, back, cca, st);
    StdListAgrees(e, b, back, ccb, st, Matches(e, a, back, cca, st));
  }

  lemma {:induction false} StdListAgrees(e: Subject, r: Pattern, back: bool, cc: nat, st: State, sts: seq<State>)
    requires WellFormed(r) && PlainLoops(r) && AllOnward(e, back, st, sts)
    ensures StdAll(e, r, back, cc, sts) == MatchesAll(e, r, back, cc, sts)
    decreases r, 1, 0, 0, 0, |sts|
  {
    if sts != [] {
      assert Onward(e, back, st, sts[0]);
      StdAgrees(e, r, back, cc, sts[0]);
      StdListAgrees(e, r, back, cc, st, sts[1..]);
    }
  }

  lemma {:induction false} StdRepeatAgrees(e: Subject, a: Pattern, back: bool, cc: nat, min: nat, max: nat,
      greedy: bool, x: State)
    requires WellFormed(a) && PlainLoops(a) && Groups(a) == 0 && Consumes(a) && Aligned(e.text, x.pos)
    ensures StdRepeat(e, a, back, cc, min, max, greedy, x) == Repeat(e, a, back, cc, min, max, greedy, x)
    decreases a, 1, if max >= INF then min else max, if max >= INF then Left(e.text, back, x.pos) else 0, 2, 0
  {
    if max > 0 {
      StdAgrees(e, a, back, cc, x);
      MatchesOnward(e, a, back, cc, x);
      MatchesPast(e, a, back, cc, x);
      StdAgainAgrees(e, a, back, cc, min, max, greedy, x, Matches(e, a, back, cc, x));
    }
  }

  lemma {:induction false} StdAgainAgrees(e: Subject, a: Pattern, back: bool, cc: nat, min: nat, max: nat, greedy: bool,
      x: State,
                                          ys: seq<State>)
    requires WellFormed(a) && PlainLoops(a) && Groups(a) == 0 && Consumes(a) && max > 0
    requires AllOnward(e, back, x, ys) && AllPast(e, back, x, ys)
    ensures StdRepeatAll(e, a, back, cc, min, max, greedy, x, ys) == RepeatAll(e, a, back, cc, min, max, greedy, x, ys)
    decreases a, 1, if max >= INF then min else max, if max >= INF then Left(e.text, back, x.pos) else 0, 1, |ys|
  {
    if ys != [] {
      var y := ys[0];
      assert Onward(e, back, x, y);
      StdRepeatAgrees(e, a, back, cc, Less0(min), Less(max), greedy, y);
      StdAgainAgrees(e, a, back, cc, min, max, greedy, x, ys[1..]);
    }
  }

  // ---- where it does not

  /** ()? */
  function OptionalNothing(): Pattern {
    Quant(Group(Empty), 0, 1, true)
  }

  /** The engine takes the empty iteration and keeps its capture, the standard rejects it, on every text. */
  lemma OptionalNothingDiffers(e: Subject, p: nat, caps: Captures)
    requires |caps| >= 4
    ensures Matches(e, OptionalNothing(), false, 1, State(p, caps))[..1] == [State(p, Save(Save(caps, 2, p), 3, p))]
    ensures StdMatches(e, OptionalNothing(), false, 1, State(p, caps)) == [State(p, caps)]
  {
    var st := State(p, caps);
    var x := Enter(Group(Empty), 1, 0, st);
    var y := State(p, Save(Save(caps, 2, p), 3, p));
    assert x == State(p, caps[2 := None][3 := None]);
    GroupNothing(e, x);
    assert Save(Save(x.caps, 2, p), 3, p) == y.caps;
    assert [y][1..] == [];
    assert RepeatAfter(e, Group(Empty), false, 1, 0, 1, true, x, y) == [y];
    assert RepeatAll(e, Group(Empty), false, 1, 0, 1, true, x, [y]) == [y];
    assert Repeat(e, Group(Empty), false, 1, 0, 1, true, x) == [y] + [x];
    assert StdRepeatAfter(e, Group(Empty), false, 1, 0, 1, true, st, y) == [];
    assert StdRepeatAll(e, Group(Empty), false, 1, 0, 1, true, st, [y]) == [];
  }

  lemma GroupNothing(e: Subject, x: State)
    ensures var y := State(x.pos, Save(Save(x.caps, 2, x.pos), 3, x.pos));
      Matches(e, Group(Empty), false, 1, x) == [y] && StdMatches(e, Group(Empty), false, 1, x) == [y]
  {
    var open := State(x.pos, Save(x.caps, 2, x.pos));
    assert Matches(e, Empty, false, 2, open) == StdMatches(e, Empty, false, 2, open) == [open];
    assert [open][1..] == [];
    assert Close(1, false, [open]) == [CloseOne(1, false, open)] + Close(1, false, []);
    assert Matches(e, Group(Empty), false, 1, x) == Close(1, false, [open]);
    assert StdMatches(e, Group(Empty), false, 1, x) == Close(1, false, [open]);
  }
}

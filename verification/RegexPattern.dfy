/** Patterns and the priority-ordered reference matcher.

    `Matches` lists every way a pattern can match from a state, the preferred way first.  It knows
    nothing of instructions, stacks or jumps.  It follows the matchers of section 21.2.2 of
    ECMA-262, 11th edition, except for two choices that the engine makes: the captures inside a
    quantified atom are reset once, on entry to a quantifier whose minimum is 0, and an optional
    iteration that consumes nothing ends the repetition instead of failing. */
module RegexPattern {
  import opened CharSet
  import opened RegexText
  import opened RegexCode

  /** What matches one character. */
  datatype OneChar = Lit(c: nat) | NotLineEnd | AnyChar | Class(points: seq<nat>)

  datatype Assertion = AtLineStart | AtLineEnd | AtWordBoundary | NotAtWordBoundary

  datatype Pattern =
    | Empty
    | One(one: OneChar)
    | Assert(a: Assertion)
    | BackRef(index: nat)
    | Cat(left: Pattern, right: Pattern)
    | Alt(left: Pattern, right: Pattern)
    | Group(body: Pattern)
    | Look(behind: bool, negative: bool, body: Pattern)
    | Quant(body: Pattern, min: nat, max: nat, greedy: bool)

  /** Number of capture groups; they are numbered in the order of their opening parentheses. */
  function Groups(r: Pattern): nat {
    match r
    case Cat(a, b) => Groups(a) + Groups(b)
    case Alt(a, b) => Groups(a) + Groups(b)
    case Group(a) => 1 + Groups(a)
    case Look(_, _, a) => Groups(a)
    case Quant(a, _, _, _) => Groups(a)
    case _ => 0
  }

  /** What the parser guarantees of the patterns it accepts. */
  ghost predicate WellFormed(r: Pattern) {
    match r
    case One(Lit(c)) => c <= 0x10ffff
    case One(Class(points)) => Canonical(points)
    case Cat(a, b) => WellFormed(a) && WellFormed(b)
    case Alt(a, b) => WellFormed(a) && WellFormed(b)
    case Group(a) => WellFormed(a)
    case Look(_, _, a) => WellFormed(a)
    case Quant(a, min, max, _) => WellFormed(a) && min <= max <= INF
    case _ => true
  }

  // ---- single characters and assertions

  predicate IsLineTerminator(c: nat) { c == 10 || c == 13 || c == 0x2028 || c == 0x2029 }

  predicate IsWordChar(c: nat) { 48 <= c <= 57 || 97 <= c <= 122 || 65 <= c <= 90 || c == 95 }

  predicate OneHas(s: OneChar, c: nat) {
    match s
    case Lit(k) => c == k
    case NotLineEnd => !IsLineTerminator(c)
    case AnyChar => true
    case Class(points) => Member(points, c)
  }

  /** A subject and the flag that lets ^ and $ match at line terminators. */
  datatype Subject = Subject(text: Text, multiLine: bool)

  predicate Holds(e: Subject, a: Assertion, p: nat) {
    var n := |e.text.units|;
    match a
    case AtLineStart => p == 0 || (e.multiLine && IsLineTerminator(PrevChar(e.text, p)))
    case AtLineEnd => p == n || (e.multiLine && IsLineTerminator(CharAt(e.text, p)))
    case AtWordBoundary => WordBefore(e, p) != WordAfter(e, p)
    case NotAtWordBoundary => WordBefore(e, p) == WordAfter(e, p)
  }

  predicate WordBefore(e: Subject, p: nat) { p != 0 && IsWordChar(PrevChar(e.text, p)) }

  predicate WordAfter(e: Subject, p: nat) { p < |e.text.units| && IsWordChar(CharAt(e.text, p)) }

  // ---- states

  /** Capture k occupies entries 2k (start) and 2k + 1 (end). */
  type Captures = seq<Option<nat>>

  datatype State = State(pos: nat, caps: Captures)

  function Save(caps: Captures, k: nat, p: nat): Captures {
    if k < |caps| then caps[k := Some(p)] else caps
  }

  /** Captures first..last undefined. */
  function Reset(caps: Captures, first: nat, last: nat): (r: Captures)
    ensures |r| == |caps|
    decreases last + 1 - first
  {
    if first > last || 2 * first + 1 >= |caps| then caps
    else Reset(caps[2 * first := None][2 * first + 1 := None], first + 1, last)
  }

  /** Characters left in the direction of matching: what a consuming match decreases. */
  function Left(t: Text, back: bool, p: nat): nat {
    if back then p else if p <= |t.units| then |t.units| - p else 0
  }

  // ---- back references

  function RefForward(t: Text, q: nat, end: nat, p: nat): Option<nat>
    decreases end - q
  {
    if q >= end then Some(p)
    else if p >= |t.units| then None
    else if CharIn(t, q, end) != CharAt(t, p) then None
    else RefForward(t, NextIn(t, q, end), end, Next(t, p))
  }

  function RefBackward(t: Text, q: nat, start: nat, p: nat): Option<nat>
    decreases q
  {
    if q <= start then Some(p)
    else if p == 0 then None
    else if PrevCharIn(t, q, start) != PrevChar(t, p) then None
    else RefBackward(t, PrevIn(t, q, start), start, Prev(t, p))
  }

  /** Where a repetition of capture k ends; an undefined capture matches the empty string. */
  function RefEnd(t: Text, caps: Captures, k: nat, back: bool, p: nat): Option<nat> {
    if 2 * k + 1 >= |caps| then None
    else if caps[2 * k].None? || caps[2 * k + 1].None? then Some(p)
    else if back then RefBackward(t, caps[2 * k + 1].value, caps[2 * k].value, p)
    else RefForward(t, caps[2 * k].value, caps[2 * k + 1].value, p)
  }

  // ---- the reference matcher

  function OneMatches(e: Subject, s: OneChar, back: bool, st: State): seq<State> {
    if back then
      if st.pos > 0 && OneHas(s, PrevChar(e.text, st.pos)) then [st.(pos := Prev(e.text, st.pos))] else []
    else
      if st.pos < |e.text.units| && OneHas(s, CharAt(e.text, st.pos)) then [st.(pos := Next(e.text, st.pos))] else []
  }

  /** Close group k on every state. */
  function Close(k: nat, back: bool, sts: seq<State>): seq<State> {
    if sts == [] then []
    else [CloseOne(k, back, sts[0])] + Close(k, back, sts[1..])
  }

  /** All matches of r from st, preferred first.  `cc` is the number of r's first group and `back`
      is set inside a lookbehind. */
  function Matches(e: Subject, r: Pattern, back: bool, cc: nat, st: State): seq<State>
    decreases r, 0, 0, 0, 0, 0
  {
    match r
    case Empty => [st]
    case One(s) => OneMatches(e, s, back, st)
    case Assert(a) => if Holds(e, a, st.pos) then [st] else []
    case BackRef(k) =>
      (match RefEnd(e.text, st.caps, k, back, st.pos)
       case Some(p) => [st.(pos := p)]
       case None => [])
    case Cat(a, b) =>
      if back then MatchesAll(e, a, back, cc, Matches(e, b, back, cc + Groups(a), st))
      else MatchesAll(e, b, back, cc + Groups(a), Matches(e, a, back, cc, st))
    case Alt(a, b) => Matches(e, a, back, cc, st) + Matches(e, b, back, cc + Groups(a), st)
    case Group(a) =>
      var open := st.(caps := Save(st.caps, if back then 2 * cc + 1 else 2 * cc, st.pos));
      Close(cc, back, Matches(e, a, back, cc + 1, open))
    case Look(behind, negative, a) =>
      var inner := Matches(e, a, behind, cc, st);
      if negative then (if inner == [] then [st] else [])
      else if inner == [] then [] else [st.(caps := inner[0].caps)]
    case Quant(a, min, max, greedy) =>
      Repeat(e, a, back, cc, min, max, greedy, Enter(a, cc, min, st))
  }

  /** Captures of the atom are reset on entry to a quantifier that may run it zero times. */
  function Enter(a: Pattern, cc: nat, min: nat, st: State): State {
    if min == 0 && Groups(a) > 0 then st.(caps := Reset(st.caps, cc, cc + Groups(a) - 1)) else st
  }

  lemma MatchesCat(e: Subject, a: Pattern, b: Pattern, back: bool, cc: nat, st: State)
    ensures Matches(e, Cat(a, b), back, cc, st)
         == if back then MatchesAll(e, a, back, cc, Matches(e, b, back, cc + Groups(a), st))
            else MatchesAll(e, b, back, cc + Groups(a), Matches(e, a, back, cc, st))
  {
    hide MatchesAll, Repeat, RepeatAll, RepeatAfter, Close, OneMatches, RefEnd, Holds, Reset;
  }

  lemma MatchesAlt(e: Subject, a: Pattern, b: Pattern, back: bool, cc: nat, st: State)
    ensures Matches(e, Alt(a, b), back, cc, st) == Matches(e, a, back, cc, st) + Matches(e, b, back, cc + Groups(a), st)
  {
    hide MatchesAll, Repeat, RepeatAll, RepeatAfter, Close, OneMatches, RefEnd, Holds, Reset;
  }

  function MatchesAll(e: Subject, r: Pattern, back: bool, cc: nat, sts: seq<State>): seq<State>
    decreases r, 1, 0, 0, 0, |sts|
  {
    if sts == [] then [] else Matches(e, r, back, cc, sts[0]) + MatchesAll(e, r, back, cc, sts[1..])
  }

  /** One fewer repetition; INF stays INF. */
  function Less(max: nat): nat {
    if max >= INF || max == 0 then max else max - 1
  }

  function Less0(min: nat): nat {
    if min == 0 then 0 else min - 1
  }

  /** Between min and max matches of `a` in a row. */
  function Repeat(e: Subject, a: Pattern, back: bool, cc: nat, min: nat, max: nat, greedy: bool, st: State): seq<State>
    decreases a, 1, if max >= INF then min else max, if max >= INF then Left(e.text, back, st.pos) else 0, 2, 0
  {
    if max == 0 then [st]
    else
      var again := RepeatAll(e, a, back, cc, min, max, greedy, st, Matches(e, a, back, cc, st));
      if min > 0 then again else if greedy then again + [st] else [st] + again
  }

  /** The matches of the remaining repetitions after the first one, begun at `st`, has ended in each of `sts`. */
  function RepeatAll(e: Subject, a: Pattern, back: bool, cc: nat, min: nat, max: nat, greedy: bool, st: State,
      sts: seq<State>): seq<State>
    requires max > 0
    decreases a, 1, if max >= INF then min else max, if max >= INF then Left(e.text, back, st.pos) else 0, 1, |sts|
  {
    if sts == [] then []
    else RepeatAfter(e, a, back, cc, min, max, greedy, st, sts[0])
         + RepeatAll(e, a, back, cc, min, max, greedy, st, sts[1..])
  }

  function RepeatAfter(e: Subject, a: Pattern, back: bool, cc: nat, min: nat, max: nat, greedy: bool, st: State,
      x: State): seq<State>
    requires max > 0
    decreases a, 1, if max >= INF then min else max, if max >= INF then Left(e.text, back, st.pos) else 0, 0, 0
  {
    if max >= INF && min == 0 && Left(e.text, back, x.pos) >= Left(e.text, back, st.pos) then [x]
    else Repeat(e, a, back, cc, Less0(min), Less(max), greedy, x)
  }

  // ---- the list-valued functions as maps over states

  function FlatMap(f: State -> seq<State>, xs: seq<State>): seq<State> {
    if xs == [] then [] else f(xs[0]) + FlatMap(f, xs[1..])
  }

  lemma {:induction false} FlatMapFrom(f: State -> seq<State>, xs: seq<State>, y: State) returns (x: State)
    requires y in FlatMap(f, xs)
    ensures x in xs && y in f(x)
  {
    if y in f(xs[0]) {
      x := xs[0];
    } else {
      x := FlatMapFrom(f, xs[1..], y);
    }
  }

  lemma {:induction false} MatchesAllIsMap(e: Subject, r: Pattern, back: bool, cc: nat, f: State -> seq<State>,
      sts: seq<State>)
    requires forall x :: f(x) == Matches(e, r, back, cc, x)
    ensures MatchesAll(e, r, back, cc, sts) == FlatMap(f, sts)
  {
    if sts != [] {
      MatchesAllIsMap(e, r, back, cc, f, sts[1..]);
    }
  }

  lemma {:induction false} RepeatAllIsMap(e: Subject, a: Pattern, back: bool, cc: nat, min: nat, max: nat, greedy: bool,
      st: State,
                                          f: State -> seq<State>, sts: seq<State>)
    requires max > 0 && forall x :: f(x) == RepeatAfter(e, a, back, cc, min, max, greedy, st, x)
    ensures RepeatAll(e, a, back, cc, min, max, greedy, st, sts) == FlatMap(f, sts)
  {
    if sts != [] {
      RepeatAllIsMap(e, a, back, cc, min, max, greedy, st, f, sts[1..]);
    }
  }

  function CloseOne(k: nat, back: bool, x: State): State {
    x.(caps := Save(x.caps, if back then 2 * k else 2 * k + 1, x.pos))
  }

  lemma {:induction false} CloseIsMap(k: nat, back: bool, f: State -> seq<State>, sts: seq<State>)
    requires forall x :: f(x) == [CloseOne(k, back, x)]
    ensures Close(k, back, sts) == FlatMap(f, sts)
  {
    if sts != [] {
      CloseIsMap(k, back, f, sts[1..]);
    }
  }
}

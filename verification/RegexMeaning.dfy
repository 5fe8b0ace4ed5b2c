/** What it means that a pattern matches: a relation between a state, the state after the match and the choices made,
    said of code units and positions alone. */
module RegexMeaning {
  import opened RegexText
  import opened RegexCode
  import opened RegexPattern
  import opened RegexOrder

  // ---- characters and positions

  /** The units at p and p + 1 are a high and a low surrogate of a wide text. */
  ghost predicate LeadsPair(t: Text, p: nat) {
    && t.wide && p + 1 < |t.units|
    && 0xd800 <= t.units[p] <= 0xdbff && 0xdc00 <= t.units[p + 1] <= 0xdfff
  }

  /** p is a position between characters. */
  ghost predicate Between(t: Text, p: nat) {
    p <= |t.units| && (p > 0 ==> !LeadsPair(t, p - 1))
  }

  /** The units from p to q are one character with code c. */
  ghost predicate Spells(t: Text, p: nat, q: nat, c: nat) {
    if p < |t.units| && LeadsPair(t, p) then
      q == p + 2 && c == 0x10000 + (t.units[p] - 0xd800) * 0x400 + (t.units[p + 1] - 0xdc00)
    else
      p < |t.units| && q == p + 1 && c == t.units[p]
  }

  ghost predicate Accepts(s: OneChar, c: nat) {
    match s
    case Lit(k) => c == k
    case NotLineEnd => c !in {0x0a, 0x0d, 0x2028, 0x2029}
    case AnyChar => true
    case Class(points) => exists i: nat :: InInterval(points, i, c)
  }

  ghost predicate InInterval(points: seq<nat>, i: nat, c: nat) {
    2 * i + 1 < |points| && points[2 * i] <= c < points[2 * i + 1]
  }

  /** One character that s accepts lies between p and q, which is before p when the match runs backward. */
  ghost predicate Takes(t: Text, s: OneChar, back: bool, p: nat, q: nat) {
    && Between(t, q)
    && exists c :: Accepts(s, c) && if back then Spells(t, q, p, c) else Spells(t, p, q, c)
  }

  ghost predicate EndsLine(u: nat) {
    u in {0x0a, 0x0d, 0x2028, 0x2029}
  }

  ghost predicate InWord(u: nat) {
    || '0' as nat <= u <= '9' as nat || 'A' as nat <= u <= 'Z' as nat || 'a' as nat <= u <= 'z' as nat
    || u == '_' as nat
  }

  ghost predicate Asserts(e: Subject, a: Assertion, p: nat) {
    var u, n := e.text.units, |e.text.units|;
    match a
    case AtLineStart => p == 0 || (e.multiLine && p <= n && EndsLine(u[p - 1]))
    case AtLineEnd => p == n || (e.multiLine && p < n && EndsLine(u[p]))
    case AtWordBoundary => (0 < p <= n && InWord(u[p - 1])) != (p < n && InWord(u[p]))
    case NotAtWordBoundary => (0 < p <= n && InWord(u[p - 1])) == (p < n && InWord(u[p]))
  }

  /** From p to q the text repeats what capture k holds; a capture that is not set or has no extent repeats nothing. */
  ghost predicate Repeats(t: Text, caps: Captures, k: nat, back: bool, p: nat, q: nat) {
    && 2 * k + 1 < |caps|
    && if caps[2 * k].None? || caps[2 * k + 1].None? || caps[2 * k].value >= caps[2 * k + 1].value then q == p
       else
         var s, e := caps[2 * k].value, caps[2 * k + 1].value;
         && e <= |t.units| && Between(t, q)
         && if back then q + (e - s) == p <= |t.units| && t.units[q..p] == t.units[s..e]
            else q == p + (e - s) <= |t.units| && t.units[p..q] == t.units[s..e]
  }

  /** Opening parentheses of groups. */
  function Parens(r: Pattern): nat {
    match r
    case Cat(a, b) => Parens(a) + Parens(b)
    case Alt(a, b) => Parens(a) + Parens(b)
    case Group(a) => 1 + Parens(a)
    case Look(_, _, a) => Parens(a)
    case Quant(a, _, _, _) => Parens(a)
    case _ => 0
  }

  // ---- the relation

  /** x is a result of matching r from st with the choices in tr; cc is the number of r's first group, and back is set
      when the match runs backward. */
  ghost predicate Means(e: Subject, r: Pattern, back: bool, cc: nat, st: State, x: State, tr: Trace)
    decreases r, 0
  {
    match r
    case Empty => x == st && tr == []
    case One(s) => tr == [] && x.caps == st.caps && Takes(e.text, s, back, st.pos, x.pos)
    case Assert(a) => x == st && tr == [] && Asserts(e, a, st.pos)
    case BackRef(k) => tr == [] && x.caps == st.caps && Repeats(e.text, st.caps, k, back, st.pos, x.pos)
    case Cat(a, b) =>
      var d := cc + Parens(a);
      if back then
        exists m, t, u :: tr == t + u && Means(e, b, back, d, st, m, t) && Means(e, a, back, cc, m, x, u)
      else
        exists m, t, u :: tr == t + u && Means(e, a, back, cc, st, m, t) && Means(e, b, back, d, m, x, u)
    case Alt(a, b) =>
      || (tr != [] && tr[0] == 0 && Means(e, a, back, cc, st, x, tr[1..]))
      || (tr != [] && tr[0] == 1 && Means(e, b, back, cc + Parens(a), st, x, tr[1..]))
    case Group(a) =>
      var near, far := if back then 2 * cc + 1 else 2 * cc, if back then 2 * cc else 2 * cc + 1;
      && 2 * cc + 1 < |st.caps|
      && exists y: State :: Means(e, a, back, cc + 1, State(st.pos, st.caps[near := Some(st.pos)]), y, tr)
           && far < |y.caps| && x == State(y.pos, y.caps[far := Some(y.pos)])
    case Look(behind, negative, a) =>
      && tr == []
      && if negative then x == st && forall y, t :: !Means(e, a, behind, cc, st, y, t)
         else exists y, t :: Prefers(e, a, behind, cc, st, y, t) && x == State(st.pos, y.caps)
    case Quant(a, min, max, greedy) =>
      Loops(e, a, back, cc, min, max, greedy, if min == 0 then Cleared(st, 2 * cc, 2 * (cc + Parens(a))) else st, x, tr)
  }

  /** On entry to a quantifier that may run no time, the entries of the groups inside it are cleared. */
  function Cleared(st: State, lo: nat, hi: nat): State {
    State(st.pos, seq(|st.caps|, k requires 0 <= k < |st.caps| => if lo <= k < hi then None else st.caps[k]))
  }

  /** From min to max iterations, the first choice being whether to go on or to stop. */
  ghost predicate Loops(e: Subject, a: Pattern, back: bool, cc: nat, min: nat, max: nat, greedy: bool, st: State,
      x: State, tr: Trace)
    decreases a, |tr| + 1, 0
  {
    || ((min == 0 || max == 0) && x == st && tr == [Stop(greedy)])
    || (max > 0
        && exists y, t, u :: Means(e, a, back, cc, st, y, t) && tr == [Go(greedy)] + (t + u)
             && Continues(e, a, back, cc, min, max, greedy, st.pos, y, x, u))
  }

  /** After an iteration that went from p to y: an optional iteration without limit that ends where it began is the
      last. */
  ghost predicate Continues(e: Subject, a: Pattern, back: bool, cc: nat, min: nat, max: nat, greedy: bool, p: nat,
      y: State, x: State, tr: Trace)
    decreases a, |tr| + 1, 1
  {
    if max >= 0x7fff_ffff && min == 0 && y.pos == p then x == y && tr == []
    else
      Loops(e, a, back, cc, if min == 0 then 0 else min - 1, if 0 < max < 0x7fff_ffff then max - 1 else max, greedy, y,
        x, tr)
  }

  /** To go on comes first when greedy, to stop comes first when lazy. */
  function Go(greedy: bool): nat { if greedy then 0 else 1 }

  function Stop(greedy: bool): nat { if greedy then 1 else 0 }

  /** The preferred result. */
  ghost predicate Prefers(e: Subject, r: Pattern, back: bool, cc: nat, st: State, x: State, tr: Trace)
    decreases r, 1
  {
    && Means(e, r, back, cc, st, x, tr)
    && forall y, t :: Means(e, r, back, cc, st, y, t) ==> (y == x && t == tr) || Before(tr, t)
  }
}

/** What a result says of the groups: entries of other groups are kept, and those of a group inside the pattern bracket
    a stretch of the text that the body of this group matched. */
module RegexGroups {
  import opened RegexText
  import opened RegexCode
  import opened RegexPattern
  import opened RegexOrder
  import opened RegexMeaning
  import opened RegexListing

  // ---- the cases of a result

  lemma CatParts(e: Subject, a: Pattern, b: Pattern, back: bool, cc: nat, st: State, x: State, tr: Trace)
    returns (m: State, t: Trace, u: Trace)
    requires Means(e, Cat(a, b), back, cc, st, x, tr)
    ensures Means(e, if back then b else a, back, if back then cc + Parens(a) else cc, st, m, t)
    ensures Means(e, if back then a else b, back, if back then cc else cc + Parens(a), m, x, u)
  {
    hide Means;
    CatMeans(e, a, b, back, cc, st, x, tr);
    if back {
      m, t, u :| tr == t + u && Means(e, b, back, cc + Parens(a), st, m, t) && Means(e, a, back, cc, m, x, u);
    } else {
      m, t, u :| tr == t + u && Means(e, a, back, cc, st, m, t) && Means(e, b, back, cc + Parens(a), m, x, u);
    }
  }

  lemma AltParts(e: Subject, a: Pattern, b: Pattern, back: bool, cc: nat, st: State, x: State, tr: Trace)
    returns (left: bool, t: Trace)
    requires Means(e, Alt(a, b), back, cc, st, x, tr)
    ensures Means(e, if left then a else b, back, if left then cc else cc + Parens(a), st, x, t)
  {
    hide Means;
    AltMeans(e, a, b, back, cc, st, x, tr);
    left := Prefixed(Of(e, a, back, cc, st), [0], x, tr);
    if left {
      t :| Of(e, a, back, cc, st)(x, t) && tr == [0] + t;
    } else {
      t :| Of(e, b, back, cc + Parens(a), st)(x, t) && tr == [1] + t;
    }
  }

  lemma GroupParts(e: Subject, a: Pattern, back: bool, cc: nat, st: State, x: State, tr: Trace) returns (y: State)
    requires Means(e, Group(a), back, cc, st, x, tr)
    ensures 2 * cc + 1 < |st.caps|
    ensures Means(e, a, back, cc + 1, State(st.pos, st.caps[Near(cc, back) := Some(st.pos)]), y, tr)
    ensures Far(cc, back) < |y.caps| && x == State(y.pos, y.caps[Far(cc, back) := Some(y.pos)])
  {
    assert 2 * cc + 1 < |st.caps| by {
      hide Takes, Asserts, Repeats, Prefers, Loops, Cleared;
    }
    hide Means;
    GroupMeans(e, a, back, cc, st, x, tr);
    y :| Means(e, a, back, cc + 1, State(st.pos, st.caps[Near(cc, back) := Some(st.pos)]), y, tr)
      && Far(cc, back) < |y.caps| && x == State(y.pos, y.caps[Far(cc, back) := Some(y.pos)]);
  }

  /** A look-around leaves the captures alone or takes those of a result of its body. */
  lemma LookParts(e: Subject, behind: bool, negative: bool, a: Pattern, back: bool, cc: nat, st: State, x: State,
      tr: Trace) returns (some: bool, y: State, t: Trace)
    requires Means(e, Look(behind, negative, a), back, cc, st, x, tr)
    ensures if some then Means(e, a, behind, cc, st, y, t) && x == State(st.pos, y.caps) else x == st
  {
    hide Takes, Asserts, Repeats, Loops, Cleared;
    some := !negative;
    y, t := st, [];
    if some {
      y, t :| Prefers(e, a, behind, cc, st, y, t) && x == State(st.pos, y.caps);
    }
  }

  lemma QuantLoops(e: Subject, a: Pattern, min: nat, max: nat, greedy: bool, back: bool, cc: nat, st: State, x: State,
      tr: Trace) returns (s: State)
    requires Means(e, Quant(a, min, max, greedy), back, cc, st, x, tr)
    ensures s == if min == 0 then Cleared(st, 2 * cc, 2 * (cc + Parens(a))) else st
    ensures Loops(e, a, back, cc, min, max, greedy, s, x, tr)
  {
    hide Takes, Asserts, Repeats, Prefers, Cleared;
    s := if min == 0 then Cleared(st, 2 * cc, 2 * (cc + Parens(a))) else st;
  }

  /** A loop has stopped, or has run once and ends there or goes on. */
  lemma LoopParts(e: Subject, a: Pattern, back: bool, cc: nat, min: nat, max: nat, greedy: bool, st: State, x: State,
      tr: Trace) returns (once: bool, more: bool, y: State, t: Trace, min': nat, max': nat, u: Trace)
    requires Loops(e, a, back, cc, min, max, greedy, st, x, tr)
    ensures if once then Means(e, a, back, cc, st, y, t) else x == st
    ensures once && !more ==> x == y
    ensures once && more ==> |u| < |tr| && Loops(e, a, back, cc, min', max', greedy, y, x, u)
  {
    hide Means;
    once := !(x == st && tr == [Stop(greedy)]);
    more, y, t, u, min', max' := false, st, [], [], if min == 0 then 0 else min - 1,
      if 0 < max < 0x7fff_ffff then max - 1 else max;
    if once {
      y, t, u :| Means(e, a, back, cc, st, y, t) && tr == [Go(greedy)] + (t + u)
        && Continues(e, a, back, cc, min, max, greedy, st.pos, y, x, u);
      more := !(max >= 0x7fff_ffff && min == 0 && y.pos == st.pos);
    }
  }

  // ---- entries of other groups

  /** Entries outside lo..hi are the same, and the position has not moved against the direction of the match. */
  ghost predicate Kept(back: bool, s: State, x: State, lo: nat, hi: nat) {
    && |x.caps| == |s.caps|
    && (forall k :: 0 <= k < |s.caps| && !(lo <= k < hi) ==> x.caps[k] == s.caps[k])
    && if back then x.pos <= s.pos else s.pos <= x.pos
  }

  lemma KeptBoth(back: bool, s: State, m: State, x: State, lo: nat, mid: nat, hi: nat, first: bool)
    requires Kept(back, s, m, if first then lo else mid, if first then mid else hi)
    requires Kept(back, m, x, if first then mid else lo, if first then hi else mid)
    requires lo <= mid <= hi
    ensures Kept(back, s, x, lo, hi)
  {
  }

  lemma KeptWider(back: bool, s: State, x: State, lo: nat, hi: nat, lo': nat, hi': nat)
    requires Kept(back, s, x, lo, hi) && lo' <= lo && hi <= hi'
    ensures Kept(back, s, x, lo', hi')
  {
  }

  lemma KeptAgain(back: bool, s: State, m: State, x: State, lo: nat, hi: nat)
    requires Kept(back, s, m, lo, hi) && Kept(back, m, x, lo, hi)
    ensures Kept(back, s, x, lo, hi)
  {
  }

  /** The entries of group k, set before and after the part that keeps them. */
  lemma KeptGroup(back: bool, cc: nat, st: State, y: State, hi: nat)
    requires 2 * cc + 1 < |st.caps| && 2 * cc + 2 <= hi
    requires Kept(back, State(st.pos, st.caps[Near(cc, back) := Some(st.pos)]), y, 2 * (cc + 1), hi)
    ensures |y.caps| == |st.caps|
    ensures Kept(back, st, State(y.pos, y.caps[Far(cc, back) := Some(y.pos)]), 2 * cc, hi)
  {
  }

  lemma KeptCleared(back: bool, st: State, x: State, lo: nat, hi: nat)
    ensures Kept(back, Cleared(st, lo, hi), x, lo, hi) ==> Kept(back, st, x, lo, hi)
  {
  }

  lemma KeptLeaf(e: Subject, r: Pattern, back: bool, cc: nat, st: State, x: State, tr: Trace)
    requires Means(e, r, back, cc, st, x, tr) && (r.Empty? || r.One? || r.Assert? || r.BackRef?)
    ensures x.caps == st.caps && Kept(back, st, x, 2 * cc, 2 * cc)
  {
    hide Accepts;
  }

  lemma KeptLook(behind: bool, back: bool, st: State, y: State, lo: nat, hi: nat)
    requires Kept(behind, st, y, lo, hi)
    ensures Kept(back, st, State(st.pos, y.caps), lo, hi)
  {
  }

  lemma KeptItself(back: bool, st: State, lo: nat, hi: nat)
    ensures Kept(back, st, st, lo, hi)
  {
  }

  lemma {:induction false} MeansKeeps(e: Subject, r: Pattern, back: bool, cc: nat, st: State, x: State, tr: Trace)
    requires Means(e, r, back, cc, st, x, tr)
    ensures Kept(back, st, x, 2 * cc, 2 * (cc + Parens(r)))
    decreases r, 0, 1
  {
    hide Means, Kept, Cleared;
    var lo, hi := 2 * cc, 2 * (cc + Parens(r));
    match r
    case Cat(a, b) => CatKeeps(e, a, b, back, cc, st, x, tr);
    case Alt(a, b) =>
      var left, t := AltParts(e, a, b, back, cc, st, x, tr);
      var c := if left then cc else cc + Parens(a);
      MeansKeeps(e, if left then a else b, back, c, st, x, t);
      KeptWider(back, st, x, 2 * c, 2 * (c + Parens(if left then a else b)), lo, hi);
    case Group(a) =>
      var y := GroupParts(e, a, back, cc, st, x, tr);
      MeansKeeps(e, a, back, cc + 1, State(st.pos, st.caps[Near(cc, back) := Some(st.pos)]), y, tr);
      KeptGroup(back, cc, st, y, hi);
    case Look(behind, negative, a) =>
      var some, y, t := LookParts(e, behind, negative, a, back, cc, st, x, tr);
      if some {
        MeansKeeps(e, a, behind, cc, st, y, t);
        KeptLook(behind, back, st, y, lo, hi);
      } else {
        KeptItself(back, st, lo, hi);
      }
    case Quant(a, min, max, greedy) =>
      var s := QuantLoops(e, a, min, max, greedy, back, cc, st, x, tr);
      LoopsKeep(e, a, back, cc, min, max, greedy, s, x, tr);
      KeptCleared(back, st, x, lo, hi);
    case _ => KeptLeaf(e, r, back, cc, st, x, tr);
  }

  lemma {:induction false} CatKeeps(e: Subject, a: Pattern, b: Pattern, back: bool, cc: nat, st: State, x: State,
      tr: Trace)
    requires Means(e, Cat(a, b), back, cc, st, x, tr)
    ensures Kept(back, st, x, 2 * cc, 2 * (cc + Parens(a) + Parens(b)))
    decreases Cat(a, b), 0, 0
  {
    hide Means, Kept;
    var m, t, u := CatParts(e, a, b, back, cc, st, x, tr);
    var d := cc + Parens(a);
    var r, r' := if back then b else a, if back then a else b;
    var c, c' := if back then d else cc, if back then cc else d;
    MeansKeeps(e, r, back, c, st, m, t);
    MeansKeeps(e, r', back, c', m, x, u);
    KeptBoth(back, st, m, x, 2 * cc, 2 * d, 2 * (d + Parens(b)), !back);
  }

  lemma {:induction false} LoopsKeep(e: Subject, a: Pattern, back: bool, cc: nat, min: nat, max: nat, greedy: bool,
      st: State, x: State, tr: Trace)
    requires Loops(e, a, back, cc, min, max, greedy, st, x, tr)
    ensures Kept(back, st, x, 2 * cc, 2 * (cc + Parens(a)))
    decreases a, 1, |tr|
  {
    hide Means, Loops, Kept;
    var once, more, y, t, min', max', u := LoopParts(e, a, back, cc, min, max, greedy, st, x, tr);
    if once {
      MeansKeeps(e, a, back, cc, st, y, t);
      if more {
        LoopsKeep(e, a, back, cc, min', max', greedy, y, x, u);
        KeptAgain(back, st, y, x, 2 * cc, 2 * (cc + Parens(a)));
      }
    } else {
      KeptItself(back, st, 2 * cc, 2 * (cc + Parens(a)));
    }
  }

  // ---- entries of the groups inside

  /** Group k of r, whose first group is cc, has a body that matches the text from p to q. */
  ghost predicate Spans(e: Subject, r: Pattern, back: bool, cc: nat, k: nat, p: nat, q: nat) {
    match r
    case Cat(a, b) => if k < cc + Parens(a) then Spans(e, a, back, cc, k, p, q)
                      else Spans(e, b, back, cc + Parens(a), k, p, q)
    case Alt(a, b) => if k < cc + Parens(a) then Spans(e, a, back, cc, k, p, q)
                      else Spans(e, b, back, cc + Parens(a), k, p, q)
    case Group(a) => if k == cc then BodySpans(e, a, back, cc + 1, p, q) else Spans(e, a, back, cc + 1, k, p, q)
    case Look(behind, _, a) => Spans(e, a, behind, cc, k, p, q)
    case Quant(a, _, _, _) => Spans(e, a, back, cc, k, p, q)
    case _ => false
  }

  ghost predicate BodySpans(e: Subject, a: Pattern, back: bool, cc: nat, p: nat, q: nat) {
    && p <= q
    && exists st, x, tr :: Means(e, a, back, cc, st, x, tr)
         && if back then st.pos == q && x.pos == p else st.pos == p && x.pos == q
  }

  lemma SpansOrdered(e: Subject, r: Pattern, back: bool, cc: nat, k: nat, p: nat, q: nat)
    requires Spans(e, r, back, cc, k, p, q)
    ensures p <= q
  {
    hide Means;
  }

  /** The entries of group k in x: those of s, none, or both ends of a stretch that its body matches. */
  ghost predicate Told(e: Subject, r: Pattern, back: bool, cc: nat, k: nat, s: Captures, x: Captures) {
    && |x| == |s| && 2 * k + 1 < |s|
    && var c, d := x[2 * k], x[2 * k + 1];
       || (c == s[2 * k] && d == s[2 * k + 1])
       || (c.None? && d.None?)
       || (c.Some? && d.Some? && Spans(e, r, back, cc, k, c.value, d.value))
  }

  /** A part that keeps the entries of group k before or after one that sets them. */
  lemma ToldBefore(e: Subject, r: Pattern, back: bool, cc: nat, k: nat, s: State, m: State, x: State, lo: nat, hi: nat)
    requires Kept(back, s, m, lo, hi) && (hi <= 2 * k || 2 * k + 1 < lo) && Told(e, r, back, cc, k, m.caps, x.caps)
    ensures Told(e, r, back, cc, k, s.caps, x.caps)
  {
  }

  lemma ToldAfter(e: Subject, r: Pattern, back: bool, cc: nat, k: nat, s: State, m: State, x: State, lo: nat, hi: nat)
    requires Kept(back, m, x, lo, hi) && (hi <= 2 * k || 2 * k + 1 < lo) && Told(e, r, back, cc, k, s.caps, m.caps)
    ensures Told(e, r, back, cc, k, s.caps, x.caps)
  {
  }

  lemma ToldSame(e: Subject, r: Pattern, back: bool, cc: nat, k: nat, s: State, x: State, lo: nat, hi: nat)
    requires Kept(back, s, x, lo, hi) && (hi <= 2 * k || 2 * k + 1 < lo) && 2 * k + 1 < |s.caps|
    ensures Told(e, r, back, cc, k, s.caps, x.caps)
  {
  }

  /** From a part of a pattern to the pattern. */
  lemma ToldWider(e: Subject, r: Pattern, back: bool, cc: nat, q: Pattern, back': bool, cc': nat, k: nat, s: Captures,
      x: Captures)
    requires Told(e, q, back', cc', k, s, x)
    requires forall c, d :: Spans(e, q, back', cc', k, c, d) ==> Spans(e, r, back, cc, k, c, d)
    ensures Told(e, r, back, cc, k, s, x)
  {
  }

  lemma ToldBody(e: Subject, a: Pattern, back: bool, cc: nat, st: State, y: State, hi: nat, tr: Trace)
    requires 2 * cc + 1 < |st.caps|
    requires var open := State(st.pos, st.caps[Near(cc, back) := Some(st.pos)]);
      Means(e, a, back, cc + 1, open, y, tr) && Kept(back, open, y, 2 * (cc + 1), hi)
    ensures |y.caps| == |st.caps| && Told(e, Group(a), back, cc, cc, st.caps, y.caps[Far(cc, back) := Some(y.pos)])
  {
    hide Means;
    BodyMatched(e, a, back, cc + 1, State(st.pos, st.caps[Near(cc, back) := Some(st.pos)]), y, tr);
  }

  lemma ToldInside(e: Subject, a: Pattern, back: bool, cc: nat, k: nat, st: State, y: State)
    requires cc < k && 2 * k + 1 < |st.caps|
    requires Told(e, a, back, cc + 1, k, st.caps[Near(cc, back) := Some(st.pos)], y.caps)
    ensures |y.caps| == |st.caps| && Told(e, Group(a), back, cc, k, st.caps, y.caps[Far(cc, back) := Some(y.pos)])
  {
    hide BodySpans;
  }

  lemma ToldCleared(e: Subject, r: Pattern, back: bool, cc: nat, k: nat, st: State, x: Captures, lo: nat, hi: nat)
    requires lo <= 2 * k && 2 * k + 2 <= hi && Told(e, r, back, cc, k, Cleared(st, lo, hi).caps, x)
    ensures Told(e, r, back, cc, k, st.caps, x)
  {
  }

  lemma ToldAgain(e: Subject, r: Pattern, back: bool, cc: nat, k: nat, s: Captures, m: Captures, x: Captures)
    requires Told(e, r, back, cc, k, s, m) && Told(e, r, back, cc, k, m, x)
    ensures Told(e, r, back, cc, k, s, x)
  {
  }

  /** Every group of a result is as it was, unset, or brackets a match of its body. */
  lemma {:induction false} GroupsTold(e: Subject, r: Pattern, back: bool, cc: nat, st: State, x: State, tr: Trace,
      k: nat)
    requires Means(e, r, back, cc, st, x, tr) && cc <= k < cc + Parens(r) && 2 * k + 1 < |st.caps|
    ensures Told(e, r, back, cc, k, st.caps, x.caps)
    decreases r, 0, 1
  {
    hide Means, BodySpans, Kept, Told, Cleared;
    match r
    case Cat(a, b) => CatTold(e, a, b, back, cc, st, x, tr, k);
    case Alt(a, b) =>
      var left, t := AltParts(e, a, b, back, cc, st, x, tr);
      var q, c := if left then a else b, if left then cc else cc + Parens(a);
      if c <= k < c + Parens(q) {
        GroupsTold(e, q, back, c, st, x, t, k);
        ToldWider(e, r, back, cc, q, back, c, k, st.caps, x.caps);
      } else {
        MeansKeeps(e, q, back, c, st, x, t);
        ToldSame(e, r, back, cc, k, st, x, 2 * c, 2 * (c + Parens(q)));
      }
    case Group(a) =>
      var y := GroupParts(e, a, back, cc, st, x, tr);
      var open := State(st.pos, st.caps[Near(cc, back) := Some(st.pos)]);
      if k == cc {
        MeansKeeps(e, a, back, cc + 1, open, y, tr);
        ToldBody(e, a, back, cc, st, y, 2 * (cc + Parens(r)), tr);
      } else {
        GroupsTold(e, a, back, cc + 1, open, y, tr, k);
        ToldInside(e, a, back, cc, k, st, y);
      }
    case Look(behind, negative, a) =>
      var some, y, t := LookParts(e, behind, negative, a, back, cc, st, x, tr);
      if some {
        GroupsTold(e, a, behind, cc, st, y, t, k);
        ToldWider(e, r, back, cc, a, behind, cc, k, st.caps, x.caps);
      } else {
        KeptItself(back, st, 0, 0);
        ToldSame(e, r, back, cc, k, st, x, 0, 0);
      }
    case Quant(a, min, max, greedy) =>
      var s := QuantLoops(e, a, min, max, greedy, back, cc, st, x, tr);
      ClearedSize(st, 2 * cc, 2 * (cc + Parens(a)));
      LoopsTold(e, a, back, cc, min, max, greedy, s, x, tr, k);
      ToldWider(e, r, back, cc, a, back, cc, k, s.caps, x.caps);
      if min == 0 {
        ToldCleared(e, r, back, cc, k, st, x.caps, 2 * cc, 2 * (cc + Parens(a)));
      }
    case _ =>
  }

  lemma ClearedSize(st: State, lo: nat, hi: nat)
    ensures |Cleared(st, lo, hi).caps| == |st.caps|
  {
  }

  lemma {:induction false} CatTold(e: Subject, a: Pattern, b: Pattern, back: bool, cc: nat, st: State, x: State,
      tr: Trace, k: nat)
    requires Means(e, Cat(a, b), back, cc, st, x, tr) && cc <= k < cc + Parens(a) + Parens(b) && 2 * k + 1 < |st.caps|
    ensures Told(e, Cat(a, b), back, cc, k, st.caps, x.caps)
    decreases Cat(a, b), 0, 0
  {
    hide Means, BodySpans, Kept, Told;
    var m, t, u := CatParts(e, a, b, back, cc, st, x, tr);
    var d := cc + Parens(a);
    var r, r' := if back then b else a, if back then a else b;
    var c, c' := if back then d else cc, if back then cc else d;
    MeansKeeps(e, r, back, c, st, m, t);
    MeansKeeps(e, r', back, c', m, x, u);
    KeptSize(back, st, m, 2 * c, 2 * (c + Parens(r)));
    if c <= k < c + Parens(r) {
      GroupsTold(e, r, back, c, st, m, t, k);
      ToldWider(e, Cat(a, b), back, cc, r, back, c, k, st.caps, m.caps);
      ToldAfter(e, Cat(a, b), back, cc, k, st, m, x, 2 * c', 2 * (c' + Parens(r')));
    } else {
      GroupsTold(e, r', back, c', m, x, u, k);
      ToldWider(e, Cat(a, b), back, cc, r', back, c', k, m.caps, x.caps);
      ToldBefore(e, Cat(a, b), back, cc, k, st, m, x, 2 * c, 2 * (c + Parens(r)));
    }
  }

  lemma KeptSize(back: bool, s: State, x: State, lo: nat, hi: nat)
    requires Kept(back, s, x, lo, hi)
    ensures |x.caps| == |s.caps|
  {
  }

  lemma BodyMatched(e: Subject, a: Pattern, back: bool, cc: nat, st: State, x: State, tr: Trace)
    requires Means(e, a, back, cc, st, x, tr) && if back then x.pos <= st.pos else st.pos <= x.pos
    ensures BodySpans(e, a, back, cc, if back then x.pos else st.pos, if back then st.pos else x.pos)
  {
    hide Means;
  }

  lemma {:induction false} LoopsTold(e: Subject, a: Pattern, back: bool, cc: nat, min: nat, max: nat, greedy: bool,
      st: State, x: State, tr: Trace, k: nat)
    requires Loops(e, a, back, cc, min, max, greedy, st, x, tr) && cc <= k < cc + Parens(a) && 2 * k + 1 < |st.caps|
    ensures Told(e, a, back, cc, k, st.caps, x.caps)
    decreases a, 1, |tr|
  {
    hide Means, Loops, Told, Kept;
    var once, more, y, t, min', max', u := LoopParts(e, a, back, cc, min, max, greedy, st, x, tr);
    if once {
      MeansKeeps(e, a, back, cc, st, y, t);
      KeptSize(back, st, y, 2 * cc, 2 * (cc + Parens(a)));
      GroupsTold(e, a, back, cc, st, y, t, k);
      if more {
        LoopsTold(e, a, back, cc, min', max', greedy, y, x, u, k);
        ToldAgain(e, a, back, cc, k, st.caps, y.caps, x.caps);
      }
    } else {
      KeptItself(back, st, 0, 0);
      ToldSame(e, a, back, cc, k, st, x, 0, 0);
    }
  }
}

/** Code-point sets as end-point lists that are merged, inverted and compacted in place. */
module CharRange {
  import opened CharSet

  // ---- the set an end-point list denotes, by parity

  /** The number of end points that are at most c is odd. */
  predicate In(points: seq<nat>, c: nat) {
    points != [] && (In(points[..|points| - 1], c) != (points[|points| - 1] <= c))
  }

  /** Nondecreasing: empty and touching intervals are allowed. */
  ghost predicate Ordered(points: seq<nat>) {
    forall i, j :: 0 <= i < j < |points| ==> points[i] <= points[j]
  }

  ghost predicate Bounded(points: seq<nat>, v: nat) {
    forall i :: 0 <= i < |points| ==> points[i] <= v
  }

  lemma InSnoc(points: seq<nat>, v: nat, c: nat)
    ensures In(points + [v], c) == (In(points, c) != (v <= c))
  {
    assert (points + [v])[..|points|] == points;
  }

  lemma {:induction false} InConcat(s: seq<nat>, t: seq<nat>, c: nat)
    ensures In(s + t, c) == (In(s, c) != In(t, c))
  {
    if t == [] {
      assert s + t == s;
    } else {
      var n := |t| - 1;
      InConcat(s, t[..n], c);
      InSnoc(s + t[..n], t[n], c);
      assert s + t == (s + t[..n]) + [t[n]];
    }
  }

  lemma InPair(x: nat, y: nat, c: nat)
    ensures In([x, y], c) == ((x <= c) != (y <= c))
  {
    InSnoc([x], y, c);
    InSnoc([], x, c);
    assert [] + [x] == [x] && [x] + [y] == [x, y];
  }

  lemma {:induction false} InAbove(points: seq<nat>, c: nat)
    requires Bounded(points, c)
    ensures In(points, c) <==> |points| % 2 == 1
  {
    if points != [] {
      InAbove(points[..|points| - 1], c);
    }
  }

  lemma {:induction false} InBelow(points: seq<nat>, c: nat)
    requires forall i :: 0 <= i < |points| ==> c < points[i]
    ensures !In(points, c)
  {
    if points != [] {
      InBelow(points[..|points| - 1], c);
    }
  }

  lemma NotInEmpty(c: nat)
    ensures !In([], c) && !Member([], c)
  {
  }

  lemma OrderedRest(points: seq<nat>)
    requires Ordered(points) && |points| >= 2
    ensures Ordered(points[2..]) && points[0] <= points[1] && forall i :: 0 <= i < |points[2..]| ==>
      points[1] <= points[2..][i]
  {
    assert forall i :: 0 <= i < |points[2..]| ==> points[2..][i] == points[i + 2];
  }

  lemma MemberFront(points: seq<nat>, c: nat)
    requires |points| >= 2
    ensures Member(points, c) <==> points[0] <= c < points[1] || Member(points[2..], c)
  {
  }

  /** For ordered lists of even length the parity is membership in one of the intervals. */
  lemma {:induction false} InIsMember(points: seq<nat>, c: nat)
    requires Ordered(points) && |points| % 2 == 0
    ensures In(points, c) <==> Member(points, c)
  {
    hide In, Member;
    if points == [] {
      NotInEmpty(c);
    } else {
      var x, y, rest := points[0], points[1], points[2..];
      assert points == [x, y] + rest;
      InConcat([x, y], rest, c);
      InPair(x, y, c);
      OrderedRest(points);
      InIsMember(rest, c);
      MemberFront(points, c);
      if c < y {
        InBelow(rest, c);
      }
    }
  }

  lemma PairMember(x: nat, y: nat, c: nat)
    ensures Member([x, y], c) <==> x <= c < y
  {
    assert [x, y][2..] == [];
  }

  lemma FirstInterval(s: seq<nat>, c: nat)
    requires |s| >= 2 && s[0] <= c < s[1]
    ensures Member(s, c)
  {
  }

  /** A canonical list is determined by its set. */
  lemma {:induction false} CanonicalUnique(s: seq<nat>, t: seq<nat>)
    requires Canonical(s) && Canonical(t) && forall c: nat :: Member(s, c) <==> Member(t, c)
    ensures s == t
  {
    if s == [] {
      if t != [] {
        FirstInterval(t, t[0]);
      }
    } else if t == [] {
      FirstInterval(s, s[0]);
    } else {
      SameStart(s, t);
      SameEnd(s, t);
      var s', t' := s[2..], t[2..];
      assert forall i :: 0 <= i < |s'| ==> s'[i] == s[i + 2];
      assert forall i :: 0 <= i < |t'| ==> t'[i] == t[i + 2];
      forall c: nat
        ensures Member(s', c) <==> Member(t', c)
      {
        RestMember(s, c);
        RestMember(t, c);
        assert Member(s, c) <==> Member(t, c);
      }
      CanonicalUnique(s', t');
      assert s == [s[0], s[1]] + s' && t == [t[0], t[1]] + t';
    }
  }

  lemma {:induction false} MemberRange(s: seq<nat>, c: nat)
    requires Canonical(s) && Member(s, c)
    ensures s[0] <= c
  {
    if !(s[0] <= c < s[1]) {
      var s' := s[2..];
      assert forall i :: 0 <= i < |s'| ==> s'[i] == s[i + 2];
      MemberRange(s', c);
    }
  }

  /** Members of the rest are the members above the first interval. */
  lemma RestMember(s: seq<nat>, c: nat)
    requires Canonical(s) && s != []
    ensures Member(s[2..], c) <==> Member(s, c) && c >= s[1]
    ensures c == s[1] ==> !Member(s, c)
  {
    var s' := s[2..];
    assert forall i :: 0 <= i < |s'| ==> s'[i] == s[i + 2];
    if Member(s', c) {
      MemberRange(s', c);
    }
  }

  lemma SameStart(s: seq<nat>, t: seq<nat>)
    requires Canonical(s) && Canonical(t) && s != [] && t != [] && forall c: nat :: Member(s, c) <==> Member(t, c)
    ensures s[0] == t[0]
  {
    FirstInterval(s, s[0]);
    FirstInterval(t, t[0]);
    MemberRange(t, s[0]);
    MemberRange(s, t[0]);
  }

  lemma SameEnd(s: seq<nat>, t: seq<nat>)
    requires Canonical(s) && Canonical(t) && s != [] && t != [] && forall c: nat :: Member(s, c) <==> Member(t, c)
    ensures s[1] == t[1]
  {
    SameStart(s, t);
    var x, y := s[1], t[1];
    RestMember(s, x);
    RestMember(t, y);
    if x < y {
      FirstInterval(t, x);
    } else if y < x {
      FirstInterval(s, y);
    }
  }

  // ---- cr_op, cr_compress, cr_invert

  datatype Op = Union | Inter | Xor

  /** The in/out status of a point from the statuses in the two operands. */
  predicate Combine(op: Op, x: bool, y: bool) {
    match op
    case Union => x || y
    case Inter => x && y
    case Xor => x != y
  }

  /** out is the merge of s and t: the same parity everywhere, nothing above v. */
  ghost predicate Merged(op: Op, s: seq<nat>, t: seq<nat>, out: seq<nat>, v: nat) {
    && (|out| % 2 == 1 <==> Combine(op, |s| % 2 == 1, |t| % 2 == 1))
    && Ordered(out) && Bounded(s, v) && Bounded(t, v) && Bounded(out, v)
    && forall c: nat :: In(out, c) <==> Combine(op, In(s, c), In(t, c))
  }

  /** One point is taken from s, or from t, or from both; it is added to out when the status changes. */
  lemma MergeStep(op: Op, s: seq<nat>, t: seq<nat>, out: seq<nat>, v: nat, s': seq<nat>, t': seq<nat>, w: nat,
      out': seq<nat>)
    requires Merged(op, s, t, out, v) && v <= w
    requires s' == s || s' == s + [w]
    requires t' == t || t' == t + [w]
    requires out' == if Combine(op, |s'| % 2 == 1, |t'| % 2 == 1) != (|out| % 2 == 1) then out + [w] else out
    ensures Merged(op, s', t', out', w)
  {
    hide In;
    forall c: nat
      ensures In(out', c) <==> Combine(op, In(s', c), In(t', c))
    {
      if w <= c {
        InAbove(s', c);
        InAbove(t', c);
        InAbove(out', c);
      } else {
        InSnoc(s, w, c);
        InSnoc(t, w, c);
        InSnoc(out, w, c);
      }
    }
  }

  /** Strictly increasing. */
  ghost predicate Increasing(points: seq<nat>) {
    forall i, j :: 0 <= i < j < |points| ==> points[i] < points[j]
  }

  /** out is what cr_compress keeps of the end points s: the same set, strictly increasing, below next. */
  ghost predicate Compressed(s: seq<nat>, out: seq<nat>) {
    && |out| % 2 == 0 && |out| <= |s| && Increasing(out) && (forall i :: 0 <= i < |out| ==> out[i] in s)
    && forall c: nat :: In(out, c) <==> In(s, c)
  }

  lemma DropEmpty(s: seq<nat>, out: seq<nat>, x: nat)
    requires Compressed(s, out)
    ensures Compressed(s + [x, x], out)
  {
    forall c: nat
      ensures In(out, c) <==> In(s + [x, x], c)
    {
      InConcat(s, [x, x], c);
      InPair(x, x, c);
    }
  }

  /** A chain of touching intervals: x, then equal pairs, then y. */
  ghost predicate Chain(s: seq<nat>) {
    |s| % 2 == 0 && |s| >= 2 && forall k :: 0 <= k && 2 * k + 2 < |s| ==> s[2 * k + 1] == s[2 * k + 2]
  }

  lemma {:induction false} ChainIn(s: seq<nat>, c: nat)
    requires Chain(s)
    ensures In(s, c) == In([s[0], s[|s| - 1]], c)
  {
    var n := |s|;
    if n == 2 {
      assert s == [s[0], s[1]];
    } else {
      var t := s[..n - 2];
      assert s == t + [s[n - 2], s[n - 1]];
      InConcat(t, [s[n - 2], s[n - 1]], c);
      assert forall k :: 0 <= k && 2 * k + 2 < |t| ==> t[2 * k + 1] == t[2 * k + 2];
      ChainIn(t, c);
      assert s[2 * (n / 2 - 2) + 1] == s[2 * (n / 2 - 2) + 2];
      InPair(s[0], s[n - 3], c);
      InPair(s[n - 2], s[n - 1], c);
      InPair(s[0], s[n - 1], c);
    }
  }

  lemma KeepChain(s: seq<nat>, out: seq<nat>, t: seq<nat>)
    requires Compressed(s, out) && Chain(t) && t[0] < t[|t| - 1]
    requires forall i :: 0 <= i < |out| ==> out[i] < t[0]
    ensures Compressed(s + t, out + [t[0], t[|t| - 1]])
  {
    var pair := [t[0], t[|t| - 1]];
    forall c: nat
      ensures In(out + pair, c) <==> In(s + t, c)
    {
      InConcat(s, t, c);
      ChainIn(t, c);
      InConcat(out, pair, c);
    }
  }

  /** cr_compress between two rounds: s[..i] is compressed into p[..k], p[i..] is still unread. */
  ghost predicate Compacting(s: seq<nat>, p: seq<nat>, i: nat, k: nat) {
    && k <= i <= |s| == |p| && i % 2 == 0 && |s| % 2 == 0
    && p[i..] == s[i..] && Compressed(s[..i], p[..k])
    && (i < |s| ==> forall m :: 0 <= m < k ==> p[m] < s[i])
  }

  lemma StartCompacting(s: seq<nat>)
    requires |s| % 2 == 0
    ensures Compacting(s, s, 0, 0)
  {
  }

  lemma EndCompacting(s: seq<nat>, p: seq<nat>, i: nat, k: nat)
    requires Compacting(s, p, i, k) && i + 1 >= |s|
    ensures Compressed(s, p[..k])
  {
    assert s[..i] == s;
  }

  lemma Unread(s: seq<nat>, p: seq<nat>, i: nat, k: nat)
    requires Compacting(s, p, i, k)
    ensures forall m :: i <= m < |s| ==> p[m] == s[m]
  {
    forall m | i <= m < |s|
      ensures p[m] == s[m]
    {
      assert p[i..][m - i] == s[i..][m - i];
    }
  }

  lemma SkipStep(s: seq<nat>, p: seq<nat>, i: nat, k: nat)
    requires Ordered(s) && Compacting(s, p, i, k) && i + 1 < |s| && s[i] == s[i + 1]
    ensures Compacting(s, p, i + 2, k)
  {
    hide Compressed;
    DropEmpty(s[..i], p[..k], s[i]);
    assert s[..i + 2] == s[..i] + [s[i], s[i]];
    assert p[i + 2..] == p[i..][2..] && s[i + 2..] == s[i..][2..];
  }

  lemma StartChain(s: seq<nat>, i: nat)
    requires i + 1 < |s|
    ensures Chain(s[i..i + 2])
  {
  }

  lemma GrowChain(s: seq<nat>, i: nat, j: nat)
    requires i <= j && j + 3 < |s| && Chain(s[i..j + 2]) && s[j + 1] == s[j + 2]
    ensures Chain(s[i..j + 4])
  {
    var t, u := s[i..j + 2], s[i..j + 4];
    forall k | 0 <= k && 2 * k + 2 < |u|
      ensures u[2 * k + 1] == u[2 * k + 2]
    {
      if 2 * k + 2 < |t| {
        assert t[2 * k + 1] == t[2 * k + 2];
      }
    }
  }

  lemma ChainStep(s: seq<nat>, p: seq<nat>, i: nat, k: nat, j: nat)
    requires Ordered(s) && Compacting(s, p, i, k) && i <= j && j % 2 == 0 && j + 1 < |s| && s[i] != s[i + 1]
    requires Chain(s[i..j + 2]) && (j + 3 < |s| ==> s[j + 1] != s[j + 2])
    ensures k + 1 < |p| && Compacting(s, p[k := s[i]][k + 1 := s[j + 1]], j + 2, k + 2)
  {
    hide Compressed, Chain;
    var t, out, p' := s[i..j + 2], p[..k], p[k := s[i]][k + 1 := s[j + 1]];
    KeepChain(s[..i], out, t);
    assert s[..j + 2] == s[..i] + t && p'[..k + 2] == out + [s[i], s[j + 1]];
    assert p'[j + 2..] == p[j + 2..] == p[i..][j + 2 - i..] && s[j + 2..] == s[i..][j + 2 - i..];
  }

  /** What the operations accept: ordered 32-bit end points, an even number of them. */
  ghost predicate EndPoints(points: seq<nat>) {
    Ordered(points) && |points| % 2 == 0 && Bounded(points, UINT32_MAX)
  }

  lemma EndPointsEven(points: seq<nat>)
    requires EndPoints(points)
    ensures Ordered(points) && |points| % 2 == 0
  {
  }

  lemma CanonicalEndPoints(points: seq<nat>)
    requires Canonical(points)
    ensures EndPoints(points)
  {
  }

  lemma CompressedBound(s: seq<nat>, out: seq<nat>, v: nat)
    requires Compressed(s, out) && Bounded(s, v)
    ensures Bounded(out, v)
  {
    forall i | 0 <= i < |out|
      ensures out[i] <= v
    {
      var j :| 0 <= j < |s| && s[j] == out[i];
    }
  }

  lemma CompressedCanonical(s: seq<nat>, out: seq<nat>)
    requires EndPoints(s) && Compressed(s, out)
    ensures Canonical(out) && forall c: nat :: Member(out, c) <==> Member(s, c)
  {
    CompressedBound(s, out, UINT32_MAX);
    forall c: nat
      ensures Member(out, c) <==> Member(s, c)
    {
      InIsMember(s, c);
      InIsMember(out, c);
    }
  }

  lemma MergedEndPoints(op: Op, a: seq<nat>, b: seq<nat>, merged: seq<nat>, v: nat)
    requires EndPoints(a) && EndPoints(b) && Merged(op, a, b, merged, v) && v <= UINT32_MAX
    ensures EndPoints(merged)
  {
  }

  lemma CombinedCorrect(op: Op, a: seq<nat>, b: seq<nat>, merged: seq<nat>, v: nat, out: seq<nat>)
    requires EndPoints(a) && EndPoints(b) && EndPoints(merged) && Merged(op, a, b, merged, v) && Compressed(merged, out)
    ensures Canonical(out) && forall c: nat :: Member(out, c) <==> Combine(op, Member(a, c), Member(b, c))
  {
    CompressedCanonical(merged, out);
    forall c: nat
      ensures Member(out, c) <==> Combine(op, Member(a, c), Member(b, c))
    {
      InIsMember(a, c);
      InIsMember(b, c);
      InIsMember(merged, c);
      assert In(merged, c) <==> Combine(op, In(a, c), In(b, c));
    }
  }

  /** The complement: 0 in front, UINT32_MAX at the end. */
  function Flanked(s: seq<nat>): seq<nat> {
    [0] + s + [UINT32_MAX]
  }

  lemma FlankedEndPoints(s: seq<nat>)
    requires EndPoints(s)
    ensures EndPoints(Flanked(s))
  {
  }

  lemma InvertedCorrect(s: seq<nat>, out: seq<nat>)
    requires EndPoints(s) && Compressed(Flanked(s), out)
    ensures Canonical(out) && forall c: nat :: Member(out, c) <==> c < UINT32_MAX && !Member(s, c)
  {
    FlankedEndPoints(s);
    CompressedCanonical(Flanked(s), out);
    forall c: nat
      ensures Member(out, c) <==> c < UINT32_MAX && !Member(s, c)
    {
      hide Ordered, Compressed, Canonical, Member;
      InIsMember(Flanked(s), c);
      InIsMember(s, c);
      InConcat([0] + s, [UINT32_MAX], c);
      InConcat([0], s, c);
      InSnoc([], 0, c);
      InSnoc([], UINT32_MAX, c);
      assert [] + [0] == [0] && [] + [UINT32_MAX] == [UINT32_MAX];
      if c >= UINT32_MAX {
        InAbove(s, c);
      }
    }
  }

  class CharRange {
    var points: seq<nat>

    constructor ()
      ensures points == []
    {
      points := [];
    }

    method AddPoint(v: nat)
      modifies this
      ensures points == old(points) + [v]
    {
      points := points + [v];
    }

    method AddInterval(c1: nat, c2: nat)
      modifies this
      ensures points == old(points) + [c1, c2]
    {
      points := points + [c1];
      points := points + [c2];
    }

    /** The merge loop of cr_op, on an empty range. */
    method Merge(a: seq<nat>, b: seq<nat>, op: Op)
      requires points == [] && EndPoints(a) && EndPoints(b)
      modifies this
      ensures exists v: nat :: v <= UINT32_MAX && Merged(op, a, b, points, v)
    {
      var i, j := 0, 0;
      ghost var v: nat := 0;
      while i < |a| || j < |b|
        invariant 0 <= i <= |a| && 0 <= j <= |b|
        invariant Merged(op, a[..i], b[..j], points, v) && v <= UINT32_MAX
        invariant (i < |a| ==> v <= a[i]) && (j < |b| ==> v <= b[j])
        decreases |a| - i + |b| - j
      {
        ghost var s, t := a[..i], b[..j];
        var w;
        if i < |a| && j < |b| && a[i] == b[j] {
          w := a[i];
          i, j := i + 1, j + 1;
        } else if i < |a| && (j >= |b| || a[i] < b[j]) {
          w := a[i];
          i := i + 1;
        } else {
          w := b[j];
          j := j + 1;
        }
        ghost var out := points;
        var isIn := Combine(op, i % 2 == 1, j % 2 == 1);
        if isIn != (|points| % 2 == 1) {
          AddPoint(w);
        }
        assert a[..i] == s || a[..i] == s + [w];
        assert b[..j] == t || b[..j] == t + [w];
        MergeStep(op, s, t, out, v, a[..i], b[..j], w, points);
        v := w;
      }
      assert a[..i] == a && b[..j] == b;
    }

    /** cr_compress: empty intervals are removed and touching ones merged, in place. */
    method Compress()
      requires Ordered(points) && |points| % 2 == 0
      modifies this
      ensures Compressed(old(points), points)
    {
      hide *;
      ghost var s := points;
      var len := |points|;
      var i, k := 0, 0;
      StartCompacting(s);
      while i + 1 < len
        invariant Compacting(s, points, i, k) && 0 <= k <= i <= len == |points| && i % 2 == 0
        decreases len - i
      {
        Unread(s, points, i, k);
        if points[i] == points[i + 1] {
          SkipStep(s, points, i, k);
          i := i + 2;
        } else {
          var j := i;
          ghost var pt := points;
          StartChain(s, i);
          while j + 3 < len && points[j + 1] == points[j + 2]
            invariant points == pt && i <= j && j + 1 < len && j % 2 == 0 && Chain(s[i..j + 2])
            decreases len - j
          {
            GrowChain(s, i, j);
            j := j + 2;
          }
          ChainStep(s, points, i, k, j);
          points := points[k := points[i]];
          points := points[k + 1 := points[j + 1]];
          k := k + 2;
          i := j + 2;
        }
      }
      EndCompacting(s, points, i, k);
      points := points[..k];
    }

    /** cr_op, on an empty range */
    method Combined(a: seq<nat>, b: seq<nat>, op: Op)
      requires points == [] && EndPoints(a) && EndPoints(b)
      modifies this
      ensures Canonical(points)
      ensures forall c: nat :: Member(points, c) <==>
        match op
        case Union => Member(a, c) || Member(b, c)
        case Inter => Member(a, c) && Member(b, c)
        case Xor => Member(a, c) != Member(b, c)
    {
      hide Canonical, Member, In, EndPoints, Merged, Compressed;
      Merge(a, b, op);
      ghost var v: nat :| v <= UINT32_MAX && Merged(op, a, b, points, v);
      ghost var merged := points;
      MergedEndPoints(op, a, b, merged, v);
      EndPointsEven(merged);
      Compress();
      CombinedCorrect(op, a, b, merged, v, points);
    }

    /** cr_union1 */
    method Union1(b: seq<nat>)
      requires EndPoints(points) && EndPoints(b)
      modifies this
      ensures Canonical(points) && forall c: nat :: Member(points, c) <==> old(Member(points, c)) || Member(b, c)
    {
      hide Canonical, Member, EndPoints;
      var a := points;
      points := [];
      Combined(a, b, Union);
    }

    /** cr_union_interval: the end point c2 + 1 is a 32-bit number */
    method UnionInterval(c1: nat, c2: nat)
      requires EndPoints(points) && c1 <= c2 < UINT32_MAX
      modifies this
      ensures Canonical(points) && forall c: nat :: Member(points, c) <==> old(Member(points, c)) || c1 <= c <= c2
    {
      hide Canonical, Member;
      var b := [c1, c2 + 1];
      forall c: nat
        ensures Member(b, c) <==> c1 <= c <= c2
      {
        PairMember(c1, c2 + 1, c);
      }
      Union1(b);
    }

    /** cr_invert */
    method Invert()
      requires EndPoints(points)
      modifies this
      ensures Canonical(points) && forall c: nat :: Member(points, c) <==> c < UINT32_MAX && !old(Member(points, c))
    {
      hide Canonical, Member, EndPoints, Compressed;
      ghost var s := points;
      points := [0] + points;
      points := points + [UINT32_MAX];
      FlankedEndPoints(s);
      EndPointsEven(points);
      Compress();
      InvertedCorrect(s, points);
    }
  }

  /** Inverting twice gives the list back, for a canonical list below UINT32_MAX. */
  method InvertTwice(r: CharRange)
    requires Canonical(r.points)
    modifies r
    ensures r.points == old(r.points)
  {
    hide Canonical, Member;
    ghost var s := r.points;
    CanonicalEndPoints(s);
    r.Invert();
    ghost var t := r.points;
    CanonicalEndPoints(t);
    r.Invert();
    forall c: nat
      ensures Member(r.points, c) <==> Member(s, c)
    {
      if Member(s, c) {
        MemberBelow(s, c);
      }
    }
    CanonicalUnique(r.points, s);
  }

  lemma {:induction false} MemberBelow(s: seq<nat>, c: nat)
    requires Canonical(s) && Member(s, c)
    ensures c < UINT32_MAX
  {
    if !(s[0] <= c < s[1]) {
      assert forall i :: 0 <= i < |s[2..]| ==> s[2..][i] == s[i + 2];
      MemberBelow(s[2..], c);
    }
  }

  /** Complement, union and complement again give the intersection, point for point. */
  method InterByUnion(a: seq<nat>, b: seq<nat>) returns (inter: CharRange, other: CharRange)
    requires EndPoints(a) && EndPoints(b)
    ensures fresh(inter) && fresh(other) && inter.points == other.points
  {
    hide Canonical, Member, EndPoints;
    inter := new CharRange();
    inter.Combined(a, b, Inter);
    var na := Complement(a);
    var nb := Complement(b);
    other := new CharRange();
    CanonicalEndPoints(na.points);
    CanonicalEndPoints(nb.points);
    other.Combined(na.points, nb.points, Union);
    CanonicalEndPoints(other.points);
    other.Invert();
    forall c: nat
      ensures Member(inter.points, c) <==> Member(other.points, c)
    {
      BelowEnd(a, c);
    }
    CanonicalUnique(inter.points, other.points);
  }

  /** What is in the union and not in the intersection gives the symmetric difference, point for point. */
  method XorByOthers(a: seq<nat>, b: seq<nat>) returns (xor: CharRange, other: CharRange)
    requires EndPoints(a) && EndPoints(b)
    ensures fresh(xor) && fresh(other) && xor.points == other.points
  {
    hide Canonical, Member, EndPoints;
    xor := new CharRange();
    xor.Combined(a, b, Xor);
    var union := new CharRange();
    var inter := new CharRange();
    union.Combined(a, b, Union);
    inter.Combined(a, b, Inter);
    CanonicalEndPoints(union.points);
    CanonicalEndPoints(inter.points);
    inter.Invert();
    CanonicalEndPoints(inter.points);
    other := new CharRange();
    other.Combined(union.points, inter.points, Inter);
    forall c: nat
      ensures Member(xor.points, c) <==> Member(other.points, c)
    {
      BelowEnd(a, c);
      BelowEnd(b, c);
    }
    CanonicalUnique(xor.points, other.points);
  }

  /** The complement of a list, in a range of its own. */
  method Complement(a: seq<nat>) returns (r: CharRange)
    requires EndPoints(a)
    ensures fresh(r) && Canonical(r.points)
    ensures forall c: nat :: Member(r.points, c) <==> c < UINT32_MAX && !Member(a, c)
  {
    hide Canonical, Member, EndPoints;
    r := new CharRange();
    r.points := a;
    r.Invert();
  }

  lemma {:induction false} BelowEnd(s: seq<nat>, c: nat)
    requires EndPoints(s)
    ensures Member(s, c) ==> c < UINT32_MAX
  {
    if |s| >= 2 {
      EndPointsTail(s);
      BelowEnd(s[2..], c);
    }
  }

  lemma EndPointsTail(s: seq<nat>)
    requires EndPoints(s) && |s| >= 2
    ensures EndPoints(s[2..]) && s[0] <= s[1] <= UINT32_MAX
  {
    assert forall i :: 0 <= i < |s[2..]| ==> s[2..][i] == s[i + 2];
  }
}

/**
 editDistance and unknownVerb of internal/meta/meta.go. The two-row loop is
 proved to compute the least number of single-byte insertions, deletions and
 substitutions turning one verb into the other, with edits defined on their own
 terms; the metric laws follow.
 */
module EditDistance {
  import opened Bytes

  // ---- edits ------------------------------------------------------------------

  datatype Edit = Insert(at: nat, c: char) | Delete(at: nat) | Substitute(at: nat, c: char)

  /** The string after one edit, or None when the edit does not fit. */
  function Apply(e: Edit, s: string): Option<string> {
    match e
    case Insert(at, c) => if at <= |s| then Some(s[..at] + [c] + s[at..]) else None
    case Delete(at) => if at < |s| then Some(s[..at] + s[at + 1..]) else None
    case Substitute(at, c) => if at < |s| then Some(s[..at] + [c] + s[at + 1..]) else None
  }

  function ApplyAll(es: seq<Edit>, s: string): Option<string>
    decreases |es|
  {
    if es == [] then Some(s)
    else
      match ApplyAll(es[..|es| - 1], s)
      case Some(t) => Apply(es[|es| - 1], t)
      case None => None
  }

  ghost predicate Turns(es: seq<Edit>, a: string, b: string) { ApplyAll(es, a) == Some(b) }

  /** `d` is the least number of edits turning `a` into `b`. */
  ghost predicate IsDistance(a: string, b: string, d: nat) {
    && (exists es :: Turns(es, a, b) && |es| == d)
    && (forall es | Turns(es, a, b) :: d <= |es|)
  }

  // ---- the recurrence ------------------------------------------------------------

  function Cost(x: char, y: char): nat { if x == y then 0 else 1 }

  function Least(a: nat, b: nat): nat { if a < b then a else b }

  function Lev(a: string, b: string): nat
    decreases |a| + |b|
  {
    if a == "" then |b|
    else if b == "" then |a|
    else
      var a', b' := a[..|a| - 1], b[..|b| - 1];
      Least(Lev(a', b) + 1, Least(Lev(a, b') + 1, Lev(a', b') + Cost(a[|a| - 1], b[|b| - 1])))
  }

  /** The recurrence, with the last bytes named. */
  lemma {:induction false} LevStep(a: string, x: char, b: string, y: char)
    ensures Lev(a + [x], b + [y])
            == Least(Lev(a, b + [y]) + 1, Least(Lev(a + [x], b) + 1, Lev(a, b) + Cost(x, y)))
  {
    hide Lev;
    var a', b' := a + [x], b + [y];
    assert a'[..|a'| - 1] == a && b'[..|b'| - 1] == b;
    LevUnfold(a', b');
  }

  lemma {:induction false} LevUnfold(a: string, b: string)
    requires a != "" && b != ""
    ensures Lev(a, b)
            == Least(Lev(a[..|a| - 1], b) + 1,
                     Least(Lev(a, b[..|b| - 1]) + 1, Lev(a[..|a| - 1], b[..|b| - 1]) + Cost(a[|a| - 1], b[|b| - 1])))
  {
  }

  lemma {:induction false} LevBounds(a: string, b: string)
    ensures |a| <= Lev(a, b) + |b| && |b| <= Lev(a, b) + |a| && Lev(a, b) <= |a| + |b|
    decreases |a| + |b|
  {
    if a != "" && b != "" {
      var a', b' := a[..|a| - 1], b[..|b| - 1];
      LevBounds(a', b);
      LevBounds(a, b');
      LevBounds(a', b');
    }
  }

  lemma {:induction false} LevSymmetric(a: string, b: string)
    ensures Lev(a, b) == Lev(b, a)
    decreases |a| + |b|
  {
    if a != "" && b != "" {
      var a', b' := a[..|a| - 1], b[..|b| - 1];
      LevSymmetric(a', b);
      LevSymmetric(a, b');
      LevSymmetric(a', b');
    }
  }

  lemma {:induction false} LevZero(a: string, b: string)
    ensures Lev(a, b) == 0 <==> a == b
    decreases |a| + |b|
  {
    if a != "" && b != "" {
      var a', b' := a[..|a| - 1], b[..|b| - 1];
      LevZero(a', b');
      assert a == a' + [a[|a| - 1]] && b == b' + [b[|b| - 1]];
    }
  }

  lemma {:induction false} Triangle(a: string, b: string, c: string)
    ensures Lev(a, c) <= Lev(a, b) + Lev(b, c)
    decreases |a| + |b| + |c|
  {
    LevBounds(a, b);
    LevBounds(b, c);
    LevBounds(a, c);
    if a != "" && b != "" && c != "" {
      var a', b', c' := a[..|a| - 1], b[..|b| - 1], c[..|c| - 1];
      if Lev(a, b) == Lev(a', b) + 1 {
        Triangle(a', b, c);
      } else if Lev(b, c) == Lev(b, c') + 1 {
        Triangle(a, b, c');
      } else if Lev(a, b) == Lev(a, b') + 1 {
        Triangle(a, b', c);
        Triangle(a, b', c');
      } else {
        Triangle(a', b', c);
        Triangle(a', b', c');
      }
    }
  }

  // ---- no fewer edits do ------------------------------------------------------------

  /** A common tail costs nothing. */
  lemma {:induction false} CommonTail(u: string, v: string, q: string)
    ensures Lev(u + q, v + q) <= Lev(u, v)
    decreases |q|
  {
    hide Lev;
    if q == "" {
      assert u + q == u && v + q == v;
    } else {
      var q', z := q[..|q| - 1], q[|q| - 1];
      CommonTail(u, v, q');
      LevStep(u + q', z, v + q', z);
      assert u + q == (u + q') + [z] && v + q == (v + q') + [z];
    }
  }

  lemma {:induction false} OneEdit(e: Edit, s: string)
    requires Apply(e, s).Some?
    ensures Lev(s, Apply(e, s).value) <= 1
  {
    hide Lev;
    var p := s[..e.at];
    match e
    case Insert(at, c) =>
      assert s == p + s[at..];
      LevAppend(p, c);
      CommonTail(p, p + [c], s[at..]);
    case Delete(at) =>
      assert s == (p + [s[at]]) + s[at + 1..];
      LevAppend(p, s[at]);
      LevSymmetric(p, p + [s[at]]);
      CommonTail(p + [s[at]], p, s[at + 1..]);
    case Substitute(at, c) =>
      assert s == (p + [s[at]]) + s[at + 1..];
      LevStep(p, s[at], p, c);
      LevZero(p, p);
      CommonTail(p + [s[at]], p + [c], s[at + 1..]);
  }

  lemma {:induction false} LevAppend(p: string, c: char)
    ensures Lev(p, p + [c]) <= 1
  {
    LevZero(p, p);
    assert (p + [c])[..|p|] == p;
  }

  lemma {:induction false} EditsBound(es: seq<Edit>, a: string, b: string)
    requires Turns(es, a, b)
    ensures Lev(a, b) <= |es|
    decreases |es|
  {
    if es == [] {
      LevZero(a, b);
    } else {
      var t := ApplyAll(es[..|es| - 1], a).value;
      EditsBound(es[..|es| - 1], a, t);
      OneEdit(es[|es| - 1], t);
      Triangle(a, t, b);
    }
  }

  // ---- that many suffice ---------------------------------------------------------------

  /** Edits of a prefix leave what follows it alone. */
  lemma {:induction false} EditsKeepTail(es: seq<Edit>, a: string, b: string, z: string)
    requires Turns(es, a, b)
    ensures Turns(es, a + z, b + z)
    decreases |es|
  {
    if es != [] {
      var t, e := ApplyAll(es[..|es| - 1], a).value, es[|es| - 1];
      EditsKeepTail(es[..|es| - 1], a, t, z);
      assert (t + z)[..e.at] == t[..e.at];
      if e.Insert? {
        assert (t + z)[e.at..] == t[e.at..] + z;
        assert t[..e.at] + [e.c] + (t[e.at..] + z) == (t[..e.at] + [e.c] + t[e.at..]) + z;
      } else if e.Delete? {
        assert (t + z)[e.at + 1..] == t[e.at + 1..] + z;
        assert t[..e.at] + (t[e.at + 1..] + z) == (t[..e.at] + t[e.at + 1..]) + z;
      } else {
        assert (t + z)[e.at + 1..] == t[e.at + 1..] + z;
        assert t[..e.at] + [e.c] + (t[e.at + 1..] + z) == (t[..e.at] + [e.c] + t[e.at + 1..]) + z;
      }
    }
  }

  lemma OneMore(es: seq<Edit>, a: string, t: string, e: Edit, b: string)
    requires Turns(es, a, t) && Apply(e, t) == Some(b)
    ensures Turns(es + [e], a, b)
  {
    assert (es + [e])[..|es|] == es;
  }

  lemma InsertLast(es: seq<Edit>, a: string, b: string, y: char)
    requires Turns(es, a, b)
    ensures Turns(es + [Insert(|b|, y)], a, b + [y])
  {
    assert b[..|b|] + [y] + b[|b|..] == b + [y];
    OneMore(es, a, b, Insert(|b|, y), b + [y]);
  }

  lemma DeleteLast(es: seq<Edit>, a: string, x: char, b: string)
    requires Turns(es, a, b)
    ensures Turns(es + [Delete(|b|)], a + [x], b)
  {
    EditsKeepTail(es, a, b, [x]);
    assert (b + [x])[..|b|] + (b + [x])[|b| + 1..] == b;
    OneMore(es, a + [x], b + [x], Delete(|b|), b);
  }

  lemma SubstituteLast(es: seq<Edit>, a: string, x: char, b: string, y: char)
    requires Turns(es, a, b)
    ensures Turns(es + [Substitute(|b|, y)], a + [x], b + [y])
  {
    EditsKeepTail(es, a, b, [x]);
    assert (b + [x])[..|b|] + [y] + (b + [x])[|b| + 1..] == b + [y];
    OneMore(es, a + [x], b + [x], Substitute(|b|, y), b + [y]);
  }

  lemma NoEdits(a: string)
    ensures Turns([], a, a)
  {
  }

  lemma {:induction false} BestEdits(a: string, b: string) returns (es: seq<Edit>)
    ensures Turns(es, a, b) && |es| == Lev(a, b)
    decreases |a| + |b|, 1
  {
    hide Lev, Turns;
    LevEnds(a, b);
    if a == "" && b == "" {
      NoEdits(a);
      es := [];
    } else if a == "" {
      var b', y := b[..|b| - 1], b[|b| - 1];
      assert b == b' + [y];
      LevEnds(a, b');
      es := BestEdits(a, b');
      InsertLast(es, a, b', y);
      es := es + [Insert(|b'|, y)];
    } else if b == "" {
      var a', x := a[..|a| - 1], a[|a| - 1];
      assert a == a' + [x];
      LevEnds(a', b);
      es := BestEdits(a', b);
      DeleteLast(es, a', x, b);
      es := es + [Delete(|b|)];
    } else {
      es := BestLast(a[..|a| - 1], a[|a| - 1], b[..|b| - 1], b[|b| - 1]);
      assert a == a[..|a| - 1] + [a[|a| - 1]] && b == b[..|b| - 1] + [b[|b| - 1]];
    }
  }

  lemma {:induction false} BestLast(a: string, x: char, b: string, y: char) returns (es: seq<Edit>)
    ensures Turns(es, a + [x], b + [y]) && |es| == Lev(a + [x], b + [y])
    decreases |a| + |b| + 2, 0
  {
    hide Lev, Turns;
    LevStep(a, x, b, y);
    if Lev(a + [x], b + [y]) == Lev(a + [x], b) + 1 {
      es := BestEdits(a + [x], b);
      InsertLast(es, a + [x], b, y);
      es := es + [Insert(|b|, y)];
    } else if Lev(a + [x], b + [y]) == Lev(a, b + [y]) + 1 {
      es := BestEdits(a, b + [y]);
      DeleteLast(es, a, x, b + [y]);
      es := es + [Delete(|b + [y]|)];
    } else {
      es := BestEdits(a, b);
      if x == y {
        EditsKeepTail(es, a, b, [x]);
      } else {
        SubstituteLast(es, a, x, b, y);
        es := es + [Substitute(|b|, y)];
      }
    }
  }

  lemma {:induction false} LevEnds(a: string, b: string)
    ensures a == "" ==> Lev(a, b) == |b|
    ensures b == "" ==> Lev(a, b) == |a|
  {
  }

  /** The recurrence is the least number of edits, and no other number is. */
  lemma LevIsDistance(a: string, b: string)
    ensures IsDistance(a, b, Lev(a, b))
    ensures forall d: nat | IsDistance(a, b, d) :: d == Lev(a, b)
  {
    var best := BestEdits(a, b);
    forall es | Turns(es, a, b)
      ensures Lev(a, b) <= |es|
    {
      EditsBound(es, a, b);
    }
  }

  /** Least edit counts form a metric: symmetric, zero only on equal strings, triangle. */
  lemma DistanceIsMetric(a: string, b: string, c: string, ab: nat, ba: nat, bc: nat, ac: nat)
    requires IsDistance(a, b, ab) && IsDistance(b, a, ba) && IsDistance(b, c, bc) && IsDistance(a, c, ac)
    ensures ab == ba && (ab == 0 <==> a == b) && ac <= ab + bc
  {
    LevIsDistance(a, b);
    LevIsDistance(b, a);
    LevIsDistance(b, c);
    LevIsDistance(a, c);
    LevSymmetric(a, b);
    LevZero(a, b);
    Triangle(a, b, c);
  }

  // ---- the two-row loop --------------------------------------------------------------

  /** prev[j] and cur[j] are the distances of a[..i] to b[..j]. */
  ghost predicate Row(row: array<nat>, a: string, b: string, upTo: nat)
    reads row
  {
    row.Length == |b| + 1 && upTo <= row.Length && forall j | 0 <= j < upTo :: row[j] == Lev(a, b[..j])
  }

  lemma {:induction false} LevCell(a: string, i: nat, b: string, j: nat)
    requires 0 < i <= |a| && 0 < j <= |b|
    ensures Lev(a[..i], b[..j])
            == Least(Lev(a[..i - 1], b[..j]) + 1,
                     Least(Lev(a[..i], b[..j - 1]) + 1, Lev(a[..i - 1], b[..j - 1]) + Cost(a[i - 1], b[j - 1])))
  {
    hide Lev;
    assert a[..i] == a[..i - 1] + [a[i - 1]] && b[..j] == b[..j - 1] + [b[j - 1]];
    LevStep(a[..i - 1], a[i - 1], b[..j - 1], b[j - 1]);
  }

  method ComputeDistance(a: string, b: string) returns (d: nat)
    ensures d == Lev(a, b) && IsDistance(a, b, d)
  {
    hide Lev, IsDistance;
    var prev := new nat[|b| + 1];
    for j := 0 to |b| + 1
      invariant forall k | 0 <= k < j :: prev[k] == k
    {
      prev[j] := j;
    }
    LevEmpty(a, b);
    assert a[..0] == "";
    for i := 1 to |a| + 1
      invariant Row(prev, a[..i - 1], b, |b| + 1)
    {
      var cur := new nat[|b| + 1];
      cur[0] := i;
      LevEmpty(a[..i], b);
      assert b[..0] == "";
      for j := 1 to |b| + 1
        invariant Row(prev, a[..i - 1], b, |b| + 1)
        invariant Row(cur, a[..i], b, j)
      {
        LevCell(a, i, b, j);
        var cost := 1;
        if a[i - 1] == b[j - 1] {
          cost := 0;
        }
        cur[j] := Least(prev[j] + 1, Least(cur[j - 1] + 1, prev[j - 1] + cost));
      }
      prev := cur;
    }
    assert a[..|a|] == a && b[..|b|] == b;
    d := prev[|b|];
    LevIsDistance(a, b);
  }

  lemma LevEmpty(a: string, b: string)
    ensures Lev(a, "") == |a|
    ensures forall j | 0 <= j <= |b| :: Lev("", b[..j]) == j
  {
  }

  // ---- suggestions ------------------------------------------------------------------------

  const VERBS: seq<string> := ["l", "d", "dt", "dn", "du", "df", "?", "q"]

  /** Verb `k` is within two edits, no verb is nearer, and none before it is as near. */
  ghost predicate Nearest(verb: string, k: nat) {
    && k < |VERBS| && Lev(verb, VERBS[k]) <= 2
    && (forall j | 0 <= j < |VERBS| :: Lev(verb, VERBS[k]) <= Lev(verb, VERBS[j]))
    && (forall j | 0 <= j < k :: Lev(verb, VERBS[k]) < Lev(verb, VERBS[j]))
  }

  /** What an unknown verb is answered with: the first of the nearest verbs, if any is near. */
  ghost predicate Suggests(verb: string, best: Option<string>) {
    match best
    case None => forall j | 0 <= j < |VERBS| :: Lev(verb, VERBS[j]) > 2
    case Some(v) => exists k | 0 <= k < |VERBS| :: Nearest(verb, k) && VERBS[k] == v
  }

  /** A suggestion is made exactly when some verb lies within two edits. */
  lemma SuggestsNear(verb: string, best: Option<string>)
    requires Suggests(verb, best)
    ensures best.Some? <==> exists k :: 0 <= k < |VERBS| && Lev(verb, VERBS[k]) <= 2
    ensures best.Some? ==> best.value in VERBS && IsDistance(verb, best.value, Lev(verb, best.value))
  {
    hide Lev, IsDistance;
    if best.Some? {
      LevIsDistance(verb, best.value);
    }
  }

  method UnknownVerb(verb: string) returns (best: Option<string>)
    ensures Suggests(verb, best)
  {
    hide Lev, IsDistance;
    best := None;
    var dist: nat := 3; // so only verbs within two edits are taken
    ghost var at: nat := 0;
    for k := 0 to |VERBS|
      invariant forall j | 0 <= j < k :: dist <= Lev(verb, VERBS[j])
      invariant best.None? ==> dist == 3
      invariant best.Some? ==> at < k && best.value == VERBS[at] && dist == Lev(verb, VERBS[at]) <= 2
      invariant best.Some? ==> forall j | 0 <= j < at :: dist < Lev(verb, VERBS[j])
    {
      var d := ComputeDistance(verb, VERBS[k]);
      if d < dist {
        best, dist, at := Some(VERBS[k]), d, k;
      }
    }
    assert best.Some? ==> Nearest(verb, at);
  }
}

/**
 The redactor of internal/mcp/redact.go: every registered secret is replaced in
 turn by a marker. A later replacement works on text that already holds
 markers, so a secret that overlaps the marker can be put together again by one.
 The others never are: which secrets scrubbing removes in every registry, and
 what else it does to a text, is proved here.
 */
module Redact {
  import opened Bytes

  const MARKER: string := "[redacted]"

  const MIN_LEN: nat := 4

  /** strings.ReplaceAll(s, v, MARKER): leftmost occurrences first, not overlapping. */
  function ReplaceAll(s: string, v: string): string
    requires v != ""
    decreases |s|
  {
    match Index(s, v, 0)
    case None => s
    case Some(k) => s[..k] + MARKER + ReplaceAll(s[k + |v|..], v)
  }

  lemma ReplaceStep(s: string, v: string)
    requires v != ""
    ensures ReplaceAll(s, v)
            == match Index(s, v, 0)
               case None => s
               case Some(k) => s[..k] + MARKER + ReplaceAll(s[k + |v|..], v)
  {
    hide Index;
  }

  predicate NonEmpty(values: seq<string>) { forall k | 0 <= k < |values| :: values[k] != "" }

  function ScrubAll(values: seq<string>, s: string): string
    requires NonEmpty(values)
    decreases |values|
  {
    if values == [] then s else ReplaceAll(ScrubAll(values[..|values| - 1], s), values[|values| - 1])
  }

  ghost predicate Contains(s: string, u: string) { exists k :: OccursAt(s, u, k) }

  // ---- overlap with the marker ---------------------------------------------------

  /** Some non-empty end of `a` is a beginning of `b`. */
  predicate Hooks(a: string, b: string) {
    exists n | 0 < n <= Min(|a|, |b|) :: a[|a| - n..] == b[..n]
  }

  /** The secret and the marker share no byte in any placement. */
  ghost predicate Clear(v: string) {
    v != "" && !Contains(MARKER, v) && !Contains(v, MARKER) && !Hooks(v, MARKER) && !Hooks(MARKER, v)
  }

  /** An occurrence of a clear secret in p + MARKER + q lies in p or in q. */
  lemma ClearOfMarker(p: string, q: string, u: string, k: int)
    requires Clear(u) && OccursAt(p + MARKER + q, u, k)
    ensures (k + |u| <= |p| && OccursAt(p, u, k)) || (|p| + |MARKER| <= k && OccursAt(q, u, k - |p| - |MARKER|))
  {
    hide Hooks, Contains;
    var s := p + MARKER + q;
    assert forall i | 0 <= i < |u| :: u[i] == s[k..k + |u|][i] == s[k + i];
    if k + |u| <= |p| {
      assert p[k..k + |u|] == u;
    } else if |p| + |MARKER| <= k {
      var j := k - |p| - |MARKER|;
      assert q[j..j + |u|] == u;
    } else {
      TouchesMarker(p, q, u, k);
    }
  }

  lemma OnOneSide(p: string, q: string, u: string)
    requires Clear(u) && Contains(p + MARKER + q, u)
    ensures Contains(p, u) || Contains(q, u)
  {
    hide Clear;
    var k :| OccursAt(p + MARKER + q, u, k);
    ClearOfMarker(p, q, u, k);
    assert OccursAt(p, u, k) || OccursAt(q, u, k - |p| - |MARKER|);
  }

  lemma TouchesMarker(p: string, q: string, u: string, k: int)
    requires 0 <= k && k + |u| <= |p| + |MARKER| + |q| && |p| < k + |u| && k < |p| + |MARKER|
    requires forall i | 0 <= i < |u| :: u[i] == (p + MARKER + q)[k + i]
    ensures !Clear(u)
  {
    var s, m := p + MARKER + q, |MARKER|;
    assert forall i | 0 <= i < m :: s[|p| + i] == MARKER[i];
    if k <= |p| {
      if |p| + m <= k + |u| {
        assert u[|p| - k..|p| - k + m] == MARKER;
        assert OccursAt(u, MARKER, |p| - k);
      } else {
        var n := k + |u| - |p|;
        assert u[|u| - n..] == MARKER[..n];
      }
    } else {
      var i := k - |p|;
      if k + |u| <= |p| + m {
        assert MARKER[i..i + |u|] == u;
        assert OccursAt(MARKER, u, i);
      } else {
        assert MARKER[m - (m - i)..] == u[..m - i];
      }
    }
  }

  // ---- a text with secrets cut out ---------------------------------------------------

  /** A text as pieces with secrets between them. */
  datatype Woven = Last(piece: string) | Cut(piece: string, secret: string, rest: Woven)

  function Original(w: Woven): string {
    match w
    case Last(p) => p
    case Cut(p, v, rest) => p + v + Original(rest)
  }

  function Shown(w: Woven): string {
    match w
    case Last(p) => p
    case Cut(p, _, rest) => p + MARKER + Shown(rest)
  }

  predicate CutsOnly(w: Woven, values: seq<string>) {
    w.Cut? ==> w.secret in values && CutsOnly(w.rest, values)
  }

  ghost predicate Free(w: Woven, u: string) {
    !Contains(w.piece, u) && (w.Cut? ==> Free(w.rest, u))
  }

  function Cuts(s: string, v: string): Woven
    requires v != ""
    decreases |s|
  {
    match Index(s, v, 0)
    case None => Last(s)
    case Some(k) => Cut(s[..k], v, Cuts(s[k + |v|..], v))
  }

  function Append(a: Woven, u: string, b: Woven): Woven {
    match a
    case Last(p) => Cut(p, u, b)
    case Cut(p, v, rest) => Cut(p, v, Append(rest, u, b))
  }

  /** Every piece of `w` cut at the occurrences of `v`. */
  function CutMore(w: Woven, v: string): Woven
    requires v != ""
  {
    match w
    case Last(p) => Cuts(p, v)
    case Cut(p, u, rest) => Append(Cuts(p, v), u, CutMore(rest, v))
  }

  lemma {:induction false} AppendTexts(a: Woven, u: string, b: Woven, values: seq<string>, x: string)
    ensures Original(Append(a, u, b)) == Original(a) + u + Original(b)
    ensures Shown(Append(a, u, b)) == Shown(a) + MARKER + Shown(b)
    ensures CutsOnly(a, values) && u in values && CutsOnly(b, values) ==> CutsOnly(Append(a, u, b), values)
    ensures Free(a, x) && Free(b, x) ==> Free(Append(a, u, b), x)
    decreases a
  {
    hide Contains;
    if a.Cut? {
      AppendTexts(a.rest, u, b, values, x);
      Assoc(a.piece, a.secret, Original(a.rest), u, Original(b));
      Assoc(a.piece, MARKER, Shown(a.rest), MARKER, Shown(b));
    }
  }

  lemma Assoc(a: string, b: string, c: string, d: string, e: string)
    ensures a + b + (c + d + e) == (a + b + c) + d + e
  {
  }

  lemma PartContains(s: string, a: nat, b: nat, u: string)
    requires a <= b <= |s| && Contains(s[a..b], u)
    ensures Contains(s, u)
  {
    var k :| OccursAt(s[a..b], u, k);
    SliceOfSlice(s, a, b, k, k + |u|);
    assert OccursAt(s, u, a + k);
  }

  /** One secret: the pieces hold none of it, and replacing it shows the pieces. */
  lemma {:induction false} CutsTexts(s: string, v: string, x: string)
    requires v != ""
    ensures Original(Cuts(s, v)) == s && Shown(Cuts(s, v)) == ReplaceAll(s, v)
    ensures CutsOnly(Cuts(s, v), [v]) && Free(Cuts(s, v), v)
    ensures !Contains(s, x) ==> Free(Cuts(s, v), x)
    decreases |s|
  {
    hide Contains, Index;
    match Index(s, v, 0)
    case None =>
      NotFound(s, v);
    case Some(k) =>
      var rest := s[k + |v|..];
      CutsTexts(rest, v, x);
      FoundFirst(s, v, k);
      assert s == s[..k] + v + rest;
      assert s[..k] == s[0..k] && rest == s[k + |v|..|s|];
      if !Contains(s, x) {
        if Contains(s[..k], x) { PartContains(s, 0, k, x); }
        if Contains(rest, x) { PartContains(s, k + |v|, |s|, x); }
      }
  }

  lemma NotFound(s: string, v: string)
    requires Index(s, v, 0).None?
    ensures !Contains(s, v)
  {
    IndexFirst(s, v, 0);
  }

  lemma FoundFirst(s: string, v: string, k: nat)
    requires v != "" && Index(s, v, 0) == Some(k)
    ensures OccursAt(s, v, k) && s[k..k + |v|] == v && !Contains(s[..k], v)
  {
    IndexFirst(s, v, 0);
    if Contains(s[..k], v) {
      var j :| OccursAt(s[..k], v, j);
      assert s[..k] == s[0..k];
      SliceOfSlice(s, 0, k, j, j + |v|);
      assert OccursAt(s, v, j);
    }
  }

  // ---- markers already in the text ------------------------------------------------------

  /** A clear secret is replaced on each side of a marker on its own. */
  lemma {:induction false} Across(p: string, q: string, v: string)
    requires Clear(v)
    ensures ReplaceAll(p + MARKER + q, v) == ReplaceAll(p, v) + MARKER + ReplaceAll(q, v)
    decreases |p|
  {
    hide Contains, Clear, Index, Hooks, ReplaceAll;
    var s := p + MARKER + q;
    ClearIsSome(v);
    FirstAcross(p, q, v);
    ReplaceStep(s, v);
    ReplaceStep(p, v);
    match Index(p, v, 0)
    case Some(k) =>
      var rest := p[k + |v|..];
      assert s[k + |v|..] == rest + MARKER + q && s[..k] == p[..k];
      Across(rest, q, v);
      Assoc(p[..k], MARKER, ReplaceAll(rest, v), MARKER, ReplaceAll(q, v));
    case None =>
      ReplaceStep(q, v);
      if Index(q, v, 0).Some? {
        var j := Index(q, v, 0).value;
        CutLater(p, MARKER, q, j, |v|, ReplaceAll(q[j + |v|..], v));
      }
  }

  /** Cutting p + m + q inside q. */
  lemma CutLater(p: string, m: string, q: string, j: nat, n: nat, r: string)
    requires j + n <= |q|
    ensures var s, k := p + m + q, |p| + |m| + j;
            s[..k] + m + r == p + m + (q[..j] + m + r) && s[k + n..] == q[j + n..]
  {
    var s, k := p + m + q, |p| + |m| + j;
    assert s[..k] == p + m + q[..j];
    Assoc(p, m, q[..j], m, r);
  }

  lemma ClearIsSome(v: string)
    requires Clear(v)
    ensures v != ""
  {
  }

  lemma IndexIs(s: string, v: string, k: nat)
    requires OccursAt(s, v, k) && forall j | 0 <= j < k :: !OccursAt(s, v, j)
    ensures Index(s, v, 0) == Some(k)
  {
    IndexFirst(s, v, 0);
  }

  lemma OccursBeside(p: string, q: string, v: string, k: int)
    ensures OccursAt(p, v, k) ==> OccursAt(p + MARKER + q, v, k)
    ensures OccursAt(q, v, k) ==> OccursAt(p + MARKER + q, v, |p| + |MARKER| + k)
  {
    var s, m := p + MARKER + q, |p| + |MARKER|;
    if OccursAt(p, v, k) {
      assert s[k..k + |v|] == p[k..k + |v|];
    }
    if OccursAt(q, v, k) {
      assert s[m + k..m + k + |v|] == q[k..k + |v|];
    }
  }

  /** The first occurrence in p + MARKER + q is the first in p, or else the first in q. */
  lemma FirstAcross(p: string, q: string, v: string)
    requires Clear(v)
    ensures var m := |p| + |MARKER|;
            Index(p + MARKER + q, v, 0)
            == match Index(p, v, 0)
               case Some(k) => Some(k)
               case None => match Index(q, v, 0) case Some(j) => Some(m + j) case None => None
  {
    hide Contains, Clear, Index, Hooks, OccursAt;
    var s, m := p + MARKER + q, |p| + |MARKER|;
    IndexFirst(s, v, 0);
    IndexFirst(p, v, 0);
    IndexFirst(q, v, 0);
    if Index(p, v, 0).Some? {
      OccursBeside(p, q, v, Index(p, v, 0).value);
    }
    if Index(q, v, 0).Some? {
      OccursBeside(p, q, v, Index(q, v, 0).value);
    }
    if Index(s, v, 0).Some? {
      ClearOfMarker(p, q, v, Index(s, v, 0).value);
    }
  }

  lemma {:induction false} CutMoreTexts(w: Woven, v: string, values: seq<string>, x: string)
    requires Clear(v) && CutsOnly(w, values)
    ensures Original(CutMore(w, v)) == Original(w)
    ensures Shown(CutMore(w, v)) == ReplaceAll(Shown(w), v)
    ensures CutsOnly(CutMore(w, v), values + [v]) && Free(CutMore(w, v), v)
    ensures Free(w, x) ==> Free(CutMore(w, v), x)
    decreases w
  {
    hide Contains, Clear, Cuts, ReplaceAll;
    ClearIsSome(v);
    CutsTexts(w.piece, v, x);
    OnlyMore(Cuts(w.piece, v), [v], values + [v]);
    if w.Cut? {
      CutMoreTexts(w.rest, v, values, x);
      AppendTexts(Cuts(w.piece, v), w.secret, CutMore(w.rest, v), values + [v], x);
      AppendTexts(Cuts(w.piece, v), w.secret, CutMore(w.rest, v), values + [v], v);
      Across(w.piece, Shown(w.rest), v);
    }
  }

  lemma {:induction false} OnlyMore(w: Woven, few: seq<string>, more: seq<string>)
    requires CutsOnly(w, few) && forall v | v in few :: v in more
    ensures CutsOnly(w, more)
    decreases w
  {
    if w.Cut? {
      OnlyMore(w.rest, few, more);
    }
  }

  // ---- nothing registered gets through -----------------------------------------------------

  /** What is shown holds a clear secret only inside a piece. */
  lemma {:induction false} FreeShows(w: Woven, u: string)
    requires Clear(u) && Free(w, u)
    ensures !Contains(Shown(w), u)
    decreases w
  {
    hide Clear, Hooks, Contains;
    if w.Cut? {
      FreeShows(w.rest, u);
      if Contains(Shown(w), u) {
        OnOneSide(w.piece, Shown(w.rest), u);
      }
    }
  }

  /** Scrubbing cuts registered secrets out of the text, one marker for each, and nothing
      else: the rest is kept, in order, and holds no registered secret. The first value
      works on text without markers and may be any; the others have to be clear. */
  lemma {:induction false} ScrubIsCut(values: seq<string>, s: string) returns (w: Woven)
    requires NonEmpty(values) && forall k | 1 <= k < |values| :: Clear(values[k])
    ensures Original(w) == s && Shown(w) == ScrubAll(values, s)
    ensures CutsOnly(w, values)
    ensures forall k | 0 <= k < |values| :: Free(w, values[k])
    decreases |values|
  {
    hide Contains, Clear, Cuts, ReplaceAll;
    if values == [] {
      w := Last(s);
    } else if |values| == 1 {
      var v := values[0];
      w := Cuts(s, v);
      CutsTexts(s, v, v);
      OnlyMore(w, [v], values);
      OneValue(v, s);
      assert values == [v];
    } else {
      var n := |values| - 1;
      var before := values[..n];
      assert values == before + [values[n]];
      assert forall k | 0 <= k < n :: before[k] == values[k];
      var w0 := ScrubIsCut(before, s);
      w := CutMore(w0, values[n]);
      assert Clear(values[n]);
      CutMoreTexts(w0, values[n], before, values[n]);
      forall k | 0 <= k < |values|
        ensures Free(w, values[k])
      {
        if k < n {
          assert before[k] == values[k];
          CutMoreTexts(w0, values[n], before, values[k]);
        }
      }
    }
  }

  lemma OneValue(v: string, s: string)
    requires v != ""
    ensures NonEmpty([v]) && ScrubAll([v], s) == ReplaceAll(s, v)
  {
    hide ReplaceAll;
    assert [v][..0] == [];
  }

  /** Once a clear secret is out of a text, no replacement brings it back. */
  lemma KeepsOut(t: string, x: string, u: string)
    requires x != "" && Clear(u) && (x == u || !Contains(t, u))
    ensures !Contains(ReplaceAll(t, x), u)
  {
    hide Contains, Clear, Cuts, ReplaceAll;
    CutsTexts(t, x, u);
    FreeShows(Cuts(t, x), u);
  }

  /** A clear secret is never left, in any text, whatever else is registered before or after it. */
  lemma {:induction false} ScrubRemoves(values: seq<string>, s: string, u: string)
    requires NonEmpty(values) && u in values && Clear(u)
    ensures !Contains(ScrubAll(values, s), u)
    decreases |values|
  {
    hide Contains, Clear, ReplaceAll;
    var n := |values| - 1;
    if values[n] != u {
      ScrubRemoves(values[..n], s, u);
    }
    KeepsOut(ScrubAll(values[..n], s), values[n], u);
  }

  /** A secret that is part of the marker is put back by every replacement of it. */
  lemma MarkerHoldsSecret(v: string, s: string)
    requires v != "" && Contains(MARKER, v)
    ensures Contains(ReplaceAll(s, v), v) <==> Contains(s, v)
  {
    hide Contains, Index, ReplaceAll;
    ReplaceStep(s, v);
    if Index(s, v, 0).Some? {
      var k := Index(s, v, 0).value;
      FoundFirst(s, v, k);
      Somewhere(s, v, k);
      MiddleHolds(s[..k], MARKER, ReplaceAll(s[k + |v|..], v), v);
    } else {
      NotFound(s, v);
    }
  }

  lemma MiddleHolds(p: string, m: string, q: string, v: string)
    requires Contains(m, v)
    ensures Contains(p + m + q, v)
  {
    var r := p + m + q;
    var j :| OccursAt(m, v, j);
    assert r[|p| + j..|p| + j + |v|] == m[j..j + |v|];
    assert OccursAt(r, v, |p| + j);
  }

  /** One that begins with an end of the marker is put back in some text. */
  lemma MarkerEndsInSecret(v: string)
    requires v != "" && Hooks(MARKER, v)
    ensures exists s :: Contains(s, v) && Contains(ReplaceAll(s, v), v)
  {
    hide ReplaceAll, Index, Contains;
    var m := |MARKER|;
    var n :| 0 < n <= Min(m, |v|) && MARKER[m - n..] == v[..n];
    var w := v[n..];
    var s := v + w;
    assert s[0..|v|] == v && s[|v|..] == w && s[..0] == "";
    assert OccursAt(s, v, 0) && Contains(s, v) by { Somewhere(s, v, 0); }
    IndexIs(s, v, 0);
    ReplaceStep(s, v);
    IndexFirst(w, v, 0);
    ReplaceStep(w, v);
    EndPart(MARKER, n, v);
  }

  lemma Somewhere(s: string, v: string, k: int)
    requires OccursAt(s, v, k)
    ensures Contains(s, v)
  {
  }

  lemma EndPart(m: string, n: nat, v: string)
    requires 0 < n <= Min(|m|, |v|) && m[|m| - n..] == v[..n]
    ensures Contains("" + m + v[n..], v)
  {
    var r := "" + m + v[n..];
    assert r[|m| - n..|m| - n + |v|] == m[|m| - n..] + v[n..];
    assert OccursAt(r, v, |m| - n);
  }

  // ---- the secrets that come back ------------------------------------------------------------

  /** What registering keeps: every value is long enough, and none is there twice. */
  predicate ValidRegistry(values: seq<string>) {
    && (forall k | 0 <= k < |values| :: |values[k]| >= MIN_LEN)
    && (forall i, j | 0 <= i < j < |values| :: values[i] != values[j])
  }

  /** Some registry and some text let `v` through. */
  ghost predicate Leaks(v: string) {
    exists values, s :: v in values && ValidRegistry(values) && Contains(ScrubAll(values, s), v)
  }

  lemma Leak(values: seq<string>, s: string, v: string)
    requires v in values && ValidRegistry(values) && Contains(ScrubAll(values, s), v)
    ensures Leaks(v)
  {
  }

  function Run(c: char, n: nat): string { seq(n, _ => c) }

  /** The parts of a secret that holds a beginning of the marker: the whole marker, or an end of the secret. */
  predicate Holds(v: string, x: string, n: nat, y: string) {
    0 < n <= |MARKER| && (n == |MARKER| || y == "") && v == x + MARKER[..n] + y
  }

  lemma RunIs(c: char, n: nat)
    ensures |Run(c, n)| == n && forall k | 0 <= k < n :: Run(c, n)[k] == c
  {
  }

  lemma Misses(s: string, u: string, k: int, i: nat)
    requires 0 <= k && i < |u| && k + i < |s| && s[k + i] != u[i]
    ensures !OccursAt(s, u, k)
  {
    assert k + |u| <= |s| ==> s[k..k + |u|][i] == s[k + i];
  }

  /** With a run in place of the marker the secret is not in the text: the marker's first
      byte would stand in the run, or the secret past the end. */
  lemma RunHidesSecret(v: string, x: string, n: nat, y: string, w: string)
    requires Holds(v, x, n, y) && |w| >= |v| && forall i | 0 <= i < |w| :: w[i] != MARKER[0]
    ensures Index(x + w + y, v, 0).None?
  {
    var s := x + w + y;
    assert v[|x|] == MARKER[0];
    forall k
      ensures !OccursAt(s, v, k)
    {
      if 0 <= k < |w| {
        assert s[k + |x|] == w[k];
        Misses(s, v, k, |x|);
      }
    }
    IndexFirst(s, v, 0);
  }

  /** The run is first found right there. */
  lemma RunFoundFirst(x: string, y: string, c: char, w: string)
    requires |x| < |w| && |y| < |w| && (forall i | 0 <= i < |w| :: w[i] == c) && (x == "" || x[|x| - 1] != c)
    ensures Index(x + w + y, w, 0) == Some(|x|) && Index(y, w, 0).None?
  {
    var s := x + w + y;
    assert s[|x|..|x| + |w|] == w;
    forall j | 0 <= j < |x|
      ensures !OccursAt(s, w, j)
    {
      assert s[|x| - 1] == x[|x| - 1];
      Misses(s, w, j, |x| - 1 - j);
    }
    IndexIs(s, w, |x|);
    IndexFirst(y, w, 0);
  }

  lemma TwoValues(v: string, w: string, s: string)
    requires v != "" && w != ""
    ensures NonEmpty([v, w]) && ScrubAll([v, w], s) == ReplaceAll(ReplaceAll(s, v), w)
  {
    hide ReplaceAll;
    OneValue(v, s);
    assert [v, w][..1] == [v];
  }

  lemma MarkerBetween(v: string, x: string, n: nat, y: string)
    requires Holds(v, x, n, y)
    ensures Contains(x + MARKER + y, v)
  {
    var r := x + MARKER + y;
    assert r[0..|v|] == v by {
      if y == "" { assert r[..|v|] == x + MARKER[..n]; }
    }
    assert OccursAt(r, v, 0);
  }

  /** Scrubbing that text puts the marker where the run was, and the secret together again. */
  lemma MarkerCompletes(v: string, x: string, n: nat, y: string)
    requires |v| >= MIN_LEN && Holds(v, x, n, y)
    ensures Leaks(v)
  {
    hide Contains, Index, Leaks, ReplaceAll, ScrubAll;
    var c := if x != "" && x[|x| - 1] == 'x' then 'y' else 'x';
    var w := Run(c, |v| + MIN_LEN);
    var s := x + w + y;
    RunIs(c, |v| + MIN_LEN);
    RunHidesSecret(v, x, n, y, w);
    RunFoundFirst(x, y, c, w);
    ReplaceStep(s, v);
    ReplaceStep(s, w);
    ReplaceStep(y, w);
    assert s[..|x|] == x && s[|x| + |w|..] == y;
    TwoValues(v, w, s);
    MarkerBetween(v, x, n, y);
    Leak([v, w], s, v);
  }

  /** Every way to overlap the marker is a way back in. */
  lemma OverlapLeaks(v: string)
    requires |v| >= MIN_LEN && !Clear(v)
    ensures Leaks(v)
  {
    hide Contains, Leaks, Index, ReplaceAll, ScrubAll, Hooks, Clear;
    assert Contains(MARKER, v) || Contains(v, MARKER) || Hooks(v, MARKER) || Hooks(MARKER, v) by { HowUnclear(v); }
    if Contains(MARKER, v) {
      MarkerHoldsSecret(v, v);
      OneValue(v, v);
      Somewhere(v, v, 0);
      Leak([v], v, v);
    } else if Hooks(MARKER, v) {
      MarkerEndsInSecret(v);
      var s :| Contains(s, v) && Contains(ReplaceAll(s, v), v);
      OneValue(v, s);
      Leak([v], s, v);
    } else {
      var x, n, y := HeldPart(v);
      MarkerCompletes(v, x, n, y);
    }
  }

  lemma HowUnclear(v: string)
    requires v != "" && !Clear(v)
    ensures Contains(MARKER, v) || Contains(v, MARKER) || Hooks(v, MARKER) || Hooks(MARKER, v)
  {
    hide Contains, Hooks;
  }

  lemma HeldPart(v: string) returns (x: string, n: nat, y: string)
    requires Contains(v, MARKER) || Hooks(v, MARKER)
    ensures Holds(v, x, n, y)
  {
    if Contains(v, MARKER) {
      var k :| OccursAt(v, MARKER, k);
      x, n, y := v[..k], |MARKER|, v[k + |MARKER|..];
      assert MARKER[..n] == MARKER && v[k..k + n] == MARKER;
      assert v == v[..k] + v[k..k + n] + v[k + n..];
    } else {
      n :| 0 < n <= Min(|v|, |MARKER|) && v[|v| - n..] == MARKER[..n];
      x, y := v[..|v| - n], "";
      assert v == x + MARKER[..n] + y;
    }
  }

  /** Which secrets scrubbing removes in every registry and every text: exactly the clear ones. */
  lemma ClearExactly(v: string)
    requires |v| >= MIN_LEN
    ensures Clear(v) <==>
            forall values, s | v in values && ValidRegistry(values) :: !Contains(ScrubAll(values, s), v)
  {
    hide Contains, Clear;
    if Clear(v) {
      forall values, s | v in values && ValidRegistry(values)
        ensures !Contains(ScrubAll(values, s), v)
      {
        ScrubRemoves(values, s, v);
      }
    } else {
      OverlapLeaks(v);
      assert exists values, s :: v in values && ValidRegistry(values) && Contains(ScrubAll(values, s), v);
    }
  }

  // ---- the object ------------------------------------------------------------------------------

  class Redactor {
    var values: seq<string>

    ghost predicate Valid()
      reads this
    {
      ValidRegistry(values)
    }

    constructor ()
      ensures Valid() && values == []
    {
      values := [];
    }

    method Add(v: string)
      requires Valid()
      modifies this
      ensures Valid()
      ensures values == if |v| < MIN_LEN || v in old(values) then old(values) else old(values) + [v]
    {
      if |v| < MIN_LEN {
        return;
      }
      for k := 0 to |values|
        invariant v !in values[..k]
        invariant values == old(values)
      {
        if values[k] == v {
          return;
        }
      }
      assert values[..|values|] == values;
      values := values + [v];
    }

    /** The result is determined by the values, and holds none of those that are clear of the marker. */
    method Scrub(s: string) returns (r: string)
      requires Valid()
      ensures NonEmpty(values) && r == ScrubAll(values, s)
      ensures forall u | u in values && Clear(u) :: !Contains(r, u)
    {
      hide Contains, ReplaceAll, Clear;
      r := s;
      for k := 0 to |values|
        invariant NonEmpty(values[..k]) && r == ScrubAll(values[..k], s)
      {
        var v := values[k];
        assert values[..k + 1] == values[..k] + [v] && values[..k + 1][..k] == values[..k];
        r := ReplaceAll(r, v);
      }
      assert values[..|values|] == values;
      forall u | u in values && Clear(u)
        ensures !Contains(r, u)
      {
        ScrubRemoves(values, s, u);
      }
    }
  }
}

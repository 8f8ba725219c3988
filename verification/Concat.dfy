/**
 Splitting is a homomorphism on closed scripts. When the lexer reads the
 semicolon appended to `a` as a token (no literal or comment of `a` is still
 open), the statements of a;b are those of `a` followed by those of `b`.
 */
module Concat {
  import opened Bytes
  import opened Lexer
  import opened LexerWindow
  import opened Splitter
  import opened Resplit

  /** The last token of a + ";" is the appended semicolon. */
  predicate Closed(a: string, backtick: bool) {
    var toks := Spans(a + ";", 0, backtick);
    toks != [] && toks[|toks| - 1] == Span(Punct, |a|, |a| + 1)
  }

  // ---- the tokens of a;b -----------------------------------------------------

  lemma StepAtSemicolon(s: string, i: nat, backtick: bool)
    requires i < |s| && s[i] == ';'
    ensures StepAt(s, i, backtick) == (Some(Punct), i + 1)
  {
  }

  /** The step at `i` is the same for a lexer that stops at `n`, if it ends before `n`. */
  lemma SameStep(s: string, n: nat, i: nat, backtick: bool)
    requires i < n <= |s| && SafeCut(s, n) && StepAt(s[..n], i, backtick).1 < n
    ensures StepAt(s, i, backtick) == StepAt(s[..n], i, backtick)
  {
    hide StepAt, SafeCut;
    assert s[..n] == s[0..n];
    StepWindow(s, 0, n, i, backtick);
  }

  lemma Prepend(t: Span, x: seq<Span>, y: seq<Span>, z: seq<Span>)
    requires z == x + y
    ensures [t] + z == ([t] + x) + y
  {
  }

  /** Two lexers that read the same text up to a safe cut make the same steps up to any
      earlier position the shorter one visits. */
  lemma {:induction false} SamePrefix(s: string, n: nat, i: nat, p: nat, backtick: bool) returns (before: seq<Span>)
    requires i <= p < n <= |s| && SafeCut(s, n)
    requires Uncut(Spans(s[..n], i, backtick), p)
    ensures Spans(s[..n], i, backtick) == before + Spans(s[..n], p, backtick)
    ensures Spans(s, i, backtick) == before + Spans(s, p, backtick)
    ensures forall k | 0 <= k < |before| :: i <= before[k].start < before[k].end <= p
    decreases p - i
  {
    hide StepAt, Spans, SafeCut, Uncut;
    before := [];
    if i < p {
      var w := s[..n];
      SpansStep(s, i, backtick);
      SpansStep(w, i, backtick);
      var (kind, end) := StepAt(w, i, backtick);
      if kind.Some? {
        var t := Span(kind.value, i, end);
        UncutTail(t, Spans(w, end, backtick), p);
        SameStep(s, n, i, backtick);
        var later := SamePrefix(s, n, end, p, backtick);
        Prepend(t, later, Spans(w, p, backtick), Spans(w, end, backtick));
        Prepend(t, later, Spans(s, p, backtick), Spans(s, end, backtick));
        before := [t] + later;
      } else {
        SameStep(s, n, i, backtick);
        before := SamePrefix(s, n, end, p, backtick);
      }
    }
  }

  lemma {:induction false} ClippedSame(s: string, toks: seq<Span>, b: nat)
    requires b <= |s|
    requires forall k | 0 <= k < |toks| :: toks[k].start < toks[k].end <= b
    ensures Clipped(s, toks, 0, b) == toks
    decreases |toks|
  {
    if toks != [] {
      ClippedSame(s, toks[1..], b);
    }
  }

  /** In a closed script the appended semicolon is a token of a;b too. */
  lemma ClosedSplits(a: string, b: string, backtick: bool) returns (before: seq<Span>)
    requires Closed(a, backtick)
    ensures var s := a + ";" + b;
            Spans(s, 0, backtick) == before + ([Span(Punct, |a|, |a| + 1)] + Spans(s, |a| + 1, backtick))
    ensures forall k | 0 <= k < |before| :: before[k].start < before[k].end <= |a|
  {
    hide StepAt, Spans, Tiled;
    var x, s, n := a + ";", a + ";" + b, |a| + 1;
    assert s[..n] == x && s[|a|] == ';';
    var xs := Spans(x, 0, backtick);
    TokensTiled(x, 0, backtick);
    TiledOrdered(x, xs, 0);
    before := SamePrefix(s, n, 0, |a|, backtick);
    StepAtSemicolon(s, |a|, backtick);
    SpansStep(s, |a|, backtick);
  }

  /** What lies before the semicolon is what `a` lexes to on its own. */
  lemma PrefixSpans(s: string, n: nat, before: seq<Span>, rest: seq<Span>, backtick: bool)
    requires n <= |s| && Spans(s, 0, backtick) == before + rest
    requires forall k | 0 <= k < |before| :: before[k].start < before[k].end <= n
    requires forall k | 0 <= k < |rest| :: n <= rest[k].start
    ensures Spans(s[0..n], 0, backtick) == before
  {
    hide Spans, Clipped, SafeCut;
    var all := before + rest;
    assert forall k | 0 <= k < |all| :: all[k] == if k < |before| then before[k] else rest[k - |before|];
    WindowSpans(s, 0, n, 0, backtick);
    ClippedAppend(s, before, rest, 0, n);
    ClippedAfter(s, rest, 0, n);
    ClippedSame(s, before, n);
    assert before + [] == before;
  }

  /** A closed script's tokens are `a`'s, the semicolon, then `b`'s moved along. */
  lemma ConcatSpans(a: string, b: string, backtick: bool)
    requires Closed(a, backtick)
    ensures var s, n := a + ";" + b, |a| + 1;
            && Spans(s, 0, backtick) == Spans(a, 0, backtick) + [Span(Punct, |a|, n)] + Spans(s, n, backtick)
            && Spans(b, 0, backtick) == Clipped(s, Spans(s, n, backtick), n, |s|)
  {
    hide Spans, Clipped;
    var s, n := a + ";" + b, |a| + 1;
    assert s[0..|a|] == a && s[n..|s|] == b;
    var before := ClosedSplits(a, b, backtick);
    var semi, rest := Span(Punct, |a|, n), Spans(s, n, backtick);
    SpansInOrder(s, n, backtick);
    PrefixSpans(s, |a|, before, [semi] + rest, backtick);
    assert before + ([semi] + rest) == before + [semi] + rest;
    WindowSpans(s, n, |s|, n, backtick);
  }

  // ---- the statements of `a` -------------------------------------------------

  lemma {:induction false} SameTrimLeft(s: string, a: string, i: nat, j: nat)
    requires a <= s && i <= j <= |a|
    ensures TrimLeft(s, i, j) == TrimLeft(a, i, j)
    decreases j - i
  {
    if i < j && IsSpace(s[i]) {
      SameTrimLeft(s, a, i + 1, j);
    }
  }

  lemma {:induction false} SameTrimRight(s: string, a: string, i: nat, j: nat)
    requires a <= s && i <= j <= |a|
    ensures TrimRight(s, i, j) == TrimRight(a, i, j)
    decreases j - i
  {
    if i < j && IsSpace(s[j - 1]) {
      SameTrimRight(s, a, i, j - 1);
    }
  }

  lemma SameFlush(s: string, a: string, i: nat, j: nat, hasCode: bool)
    requires a <= s && i <= j <= |a|
    ensures Flush(s, i, j, hasCode) == Flush(a, i, j, hasCode)
  {
    SameTrimLeft(s, a, i, j);
    SameTrimRight(s, a, TrimLeft(a, i, j), j);
  }

  lemma SameNewline(s: string, a: string, i: nat, j: nat)
    requires a <= s && i <= j <= |a|
    ensures NewlineIn(s, i, j) == NewlineIn(a, i, j)
  {
    assert s[0..|a|] == a;
    IndexByteWindow(s, 0, |a|, '\n', i);
  }

  /** A meta-command stops at the semicolon: what follows it is not looked at. */
  lemma {:induction false} SameMetaTaken(s: string, a: string, toks: seq<Span>, rest: seq<Span>, end: nat)
    requires a <= s && end <= |a| && InOrder(a, toks, end) && InOrder(s, toks + rest, end)
    requires rest != [] && IsPunct(s, rest[0], ';')
    ensures MetaTaken(s, toks + rest, end) == MetaTaken(a, toks, end)
    ensures MetaEnd(s, toks + rest, end) == MetaEnd(a, toks, end)
    decreases |toks|
  {
    hide MetaTaken, NewlineIn, InOrder;
    MetaTakenStep(s, toks + rest, end);
    MetaTakenStep(a, toks, end);
    if toks == [] {
      assert toks + rest == rest;
    } else {
      assert (toks + rest)[1..] == toks[1..] + rest;
      SameNewline(s, a, end, toks[0].start);
      SameMetaTaken(s, a, toks[1..], rest, toks[0].end);
    }
    MetaEndIs(s, toks + rest, end);
    MetaEndIs(a, toks, end);
  }

  lemma SemicolonIsPunct(s: string, k: nat)
    requires k < |s| && s[k] == ';'
    ensures IsPunct(s, Span(Punct, k, k + 1), ';')
  {
  }

  lemma SamePunct(s: string, a: string, t: Span, c: char)
    requires a <= s && t.start < |a|
    ensures IsPunct(s, t, c) == IsPunct(a, t, c)
  {
  }

  /** At the closing semicolon. */
  lemma SplitAtSemicolon(s: string, a: string, semi: Span, rest: seq<Span>, start: nat, hasCode: bool)
    requires a <= s && start <= |a|
    requires semi == Span(Punct, |a|, |a| + 1) && |a| < |s| && s[|a|] == ';'
    requires InOrder(s, [semi] + rest, start) && InOrder(s, rest, |a| + 1) && InOrder(a, [], start)
    ensures SplitFrom(s, [semi] + rest, start, hasCode)
            == SplitFrom(a, [], start, hasCode) + SplitFrom(s, rest, |a| + 1, false)
  {
    hide SplitFrom, Flush, MetaTaken, MetaEnd, InOrder;
    var all := [semi] + rest;
    SplitStep(s, all, start, hasCode);
    assert all[1..] == rest;
    SplitEnd(a, start, hasCode);
    SameFlush(s, a, start, |a|, hasCode);
  }

  /** Up to the closing semicolon, a;b splits like `a` alone; then it starts afresh. */
  lemma {:induction false} SplitPrefix(s: string, a: string, toks: seq<Span>, semi: Span, rest: seq<Span>, start: nat, hasCode: bool)
    requires a <= s && start <= |a| && InOrder(a, toks, start)
    requires semi == Span(Punct, |a|, |a| + 1) && |a| < |s| && s[|a|] == ';'
    requires InOrder(s, toks + ([semi] + rest), start) && InOrder(s, rest, |a| + 1)
    ensures SplitFrom(s, toks + ([semi] + rest), start, hasCode)
            == SplitFrom(a, toks, start, hasCode) + SplitFrom(s, rest, |a| + 1, false)
    decreases |toks|
  {
    hide SplitFrom, Flush, MetaTaken, MetaEnd, InOrder, IsPunct;
    var all := toks + ([semi] + rest);
    if toks == [] {
      assert all == [semi] + rest;
      SplitAtSemicolon(s, a, semi, rest, start, hasCode);
    } else {
      var t := toks[0];
      SplitStep(s, all, start, hasCode);
      SplitStep(a, toks, start, hasCode);
      InOrderHead(a, toks, start);
      InOrderHead(s, all, start);
      assert all[0] == t && all[1..] == toks[1..] + ([semi] + rest);
      SamePunct(s, a, t, '\\');
      SamePunct(s, a, t, ';');
      SemicolonIsPunct(s, |a|);
      if !hasCode && IsPunct(s, t, '\\') {
        SameMetaTaken(s, a, toks[1..], [semi] + rest, t.end);
        var n, end := MetaTaken(a, toks[1..], t.end), MetaEnd(a, toks[1..], t.end);
        assert all[n + 1..] == toks[n + 1..] + ([semi] + rest);
        SameFlush(s, a, t.start, end, true);
        SplitPrefix(s, a, toks[n + 1..], semi, rest, end, false);
      } else if IsPunct(s, t, ';') {
        SameFlush(s, a, start, t.start, hasCode);
        SplitPrefix(s, a, toks[1..], semi, rest, t.end, false);
      } else {
        SplitPrefix(s, a, toks[1..], semi, rest, start, hasCode || t.kind != Comment);
      }
    }
  }

  // ---- the statements of `b` -------------------------------------------------

  /** Ranges measured from 0, as ranges measured `n` bytes earlier. */
  function Moved(rs: seq<Range>, n: nat): (r: seq<Range>)
    ensures |r| == |rs| && forall k | 0 <= k < |rs| :: r[k] == Range(rs[k].start + n, rs[k].end + n)
  {
    seq(|rs|, k requires 0 <= k < |rs| => Range(rs[k].start + n, rs[k].end + n))
  }

  lemma MovedAppend(x: seq<Range>, y: seq<Range>, n: nat)
    ensures Moved(x + y, n) == Moved(x, n) + Moved(y, n)
  {
  }

  lemma {:induction false} MovedTrimLeft(s: string, n: nat, i: nat, j: nat)
    requires n <= i <= j <= |s|
    ensures TrimLeft(s, i, j) == TrimLeft(s[n..|s|], i - n, j - n) + n
    decreases j - i
  {
    if i < j {
      assert s[n..|s|][i - n] == s[i];
      if IsSpace(s[i]) {
        MovedTrimLeft(s, n, i + 1, j);
      }
    }
  }

  lemma {:induction false} MovedTrimRight(s: string, n: nat, i: nat, j: nat)
    requires n <= i <= j <= |s|
    ensures TrimRight(s, i, j) == TrimRight(s[n..|s|], i - n, j - n) + n
    decreases j - i
  {
    if i < j {
      assert s[n..|s|][j - 1 - n] == s[j - 1];
      if IsSpace(s[j - 1]) {
        MovedTrimRight(s, n, i, j - 1);
      }
    }
  }

  lemma MovedFlush(s: string, n: nat, i: nat, j: nat, hasCode: bool)
    requires n <= i <= j <= |s|
    ensures Flush(s, i, j, hasCode) == Moved(Flush(s[n..|s|], i - n, j - n, hasCode), n)
  {
    MovedTrimLeft(s, n, i, j);
    MovedTrimRight(s, n, TrimLeft(s, i, j), j);
  }

  lemma MovedNewline(s: string, n: nat, i: nat, j: nat)
    requires n <= i <= j <= |s|
    ensures NewlineIn(s, i, j) == NewlineIn(s[n..|s|], i - n, j - n)
  {
    IndexByteWindow(s, n, |s|, '\n', i);
  }

  /** Tokens from `n` on, measured from `n`. */
  lemma ClippedHead(s: string, toks: seq<Span>, n: nat, from: nat)
    requires n <= from <= |s| && InOrder(s, toks, from)
    ensures InOrder(s[n..|s|], Clipped(s, toks, n, |s|), from - n)
    ensures toks == [] ==> Clipped(s, toks, n, |s|) == []
    ensures toks != [] ==>
              var c := Clipped(s, toks, n, |s|);
              && c != [] && c[1..] == Clipped(s, toks[1..], n, |s|)
              && c[0] == Span(toks[0].kind, toks[0].start - n, toks[0].end - n)
              && IsPunct(s, toks[0], ';') == IsPunct(s[n..|s|], c[0], ';')
              && IsPunct(s, toks[0], '\\') == IsPunct(s[n..|s|], c[0], '\\')
  {
    hide Clipped;
    ClippedNil(s, n, |s|);
    ClippedInOrder(s, toks, n, |s|, from);
    if toks != [] {
      assert toks == [toks[0]] + toks[1..];
      ClippedStep(s, toks[0], toks[1..], n, |s|);
      assert s[n..|s|][toks[0].start - n] == s[toks[0].start];
    }
  }

  lemma ClippedNil(s: string, a: nat, b: nat)
    requires a <= b <= |s|
    ensures Clipped(s, [], a, b) == []
  {
  }

  lemma {:induction false} MovedMeta(s: string, n: nat, toks: seq<Span>, end: nat)
    requires n <= end <= |s| && InOrder(s, toks, end)
    ensures InOrder(s[n..|s|], Clipped(s, toks, n, |s|), end - n)
    ensures MetaTaken(s[n..|s|], Clipped(s, toks, n, |s|), end - n) == MetaTaken(s, toks, end)
    ensures MetaEnd(s[n..|s|], Clipped(s, toks, n, |s|), end - n) == MetaEnd(s, toks, end) - n
    ensures Clipped(s, toks[MetaTaken(s, toks, end)..], n, |s|)
            == Clipped(s, toks, n, |s|)[MetaTaken(s, toks, end)..]
    decreases |toks|
  {
    hide MetaTaken, MetaEnd, NewlineIn, InOrder, Clipped, IsPunct;
    var b, c := s[n..|s|], Clipped(s, toks, n, |s|);
    ClippedHead(s, toks, n, end);
    MetaTakenStep(s, toks, end);
    MetaTakenStep(b, c, end - n);
    MetaEndStep(s, toks, end);
    MetaEndStep(b, c, end - n);
    if toks != [] {
      MovedNewline(s, n, end, toks[0].start);
      MovedMeta(s, n, toks[1..], toks[0].end);
      var m := MetaTaken(s, toks, end);
      if m > 0 {
        assert toks[m..] == toks[1..][m - 1..];
        assert c[m..] == c[1..][m - 1..];
      }
    }
  }

  lemma MetaEndStep(s: string, toks: seq<Span>, end: nat)
    requires InOrder(s, toks, end) && end <= |s|
    ensures toks != [] ==> end <= toks[0].start < toks[0].end <= |s| && InOrder(s, toks[1..], toks[0].end)
    ensures MetaEnd(s, toks, end)
            == if MetaTaken(s, toks, end) == 0 then end else MetaEnd(s, toks[1..], toks[0].end)
  {
    hide MetaTaken, NewlineIn, InOrder;
    MetaTakenStep(s, toks, end);
    MetaEndIs(s, toks, end);
    if toks != [] {
      MetaEndIs(s, toks[1..], toks[0].end);
    }
  }

  /** The tail of a script splits like the tail on its own, moved along. */
  lemma {:induction false} SplitMoved(s: string, n: nat, toks: seq<Span>, start: nat, hasCode: bool)
    requires n <= start <= |s| && InOrder(s, toks, start)
    ensures InOrder(s[n..|s|], Clipped(s, toks, n, |s|), start - n)
    ensures SplitFrom(s, toks, start, hasCode)
            == Moved(SplitFrom(s[n..|s|], Clipped(s, toks, n, |s|), start - n, hasCode), n)
    decreases |toks|
  {
    hide SplitFrom, Flush, MetaTaken, MetaEnd, InOrder, Clipped, IsPunct, Moved;
    var b, c := s[n..|s|], Clipped(s, toks, n, |s|);
    ClippedHead(s, toks, n, start);
    if toks == [] {
      SplitEnd(s, start, hasCode);
      SplitEnd(b, start - n, hasCode);
      MovedFlush(s, n, start, |s|, hasCode);
    } else {
      var t := toks[0];
      InOrderHead(s, toks, start);
      SplitStep(s, toks, start, hasCode);
      SplitStep(b, c, start - n, hasCode);
      if !hasCode && IsPunct(s, t, '\\') {
        var m, end := MetaTaken(s, toks[1..], t.end), MetaEnd(s, toks[1..], t.end);
        MovedMeta(s, n, toks[1..], t.end);
        assert toks[m + 1..] == toks[1..][m..] && c[m + 1..] == c[1..][m..];
        MovedFlush(s, n, t.start, end, true);
        SplitMoved(s, n, toks[m + 1..], end, false);
        MovedAppend(Flush(b, t.start - n, end - n, true), SplitFrom(b, c[m + 1..], end - n, false), n);
      } else if IsPunct(s, t, ';') {
        MovedFlush(s, n, start, t.start, hasCode);
        SplitMoved(s, n, toks[1..], t.end, false);
        MovedAppend(Flush(b, start - n, t.start - n, hasCode), SplitFrom(b, c[1..], t.end - n, false), n);
      } else {
        SplitMoved(s, n, toks[1..], start, hasCode || t.kind != Comment);
      }
    }
  }

  // ---- both halves -------------------------------------------------------------

  lemma TextsOfConcat(s: string, a: string, b: string, n: nat, p: seq<Range>, q: seq<Range>)
    requires a <= s && n <= |s| && b == s[n..|s|] && RangesWithin(a, p) && RangesWithin(b, q)
    ensures RangesWithin(s, p + Moved(q, n)) && Texts(s, p + Moved(q, n)) == Texts(a, p) + Texts(b, q)
  {
    var all := p + Moved(q, n);
    assert RangesWithin(s, all);
    forall k | 0 <= k < |all|
      ensures Texts(s, all)[k] == (Texts(a, p) + Texts(b, q))[k]
    {
      if k < |p| {
        assert s[p[k].start..p[k].end] == a[p[k].start..p[k].end];
      } else {
        var r := q[k - |p|];
        SliceOfSlice(s, n, |s|, r.start, r.end);
      }
    }
  }

  lemma SplitConcat(a: string, b: string, backtick: bool)
    requires Closed(a, backtick)
    ensures StatementTexts(a + ";" + b, backtick) == StatementTexts(a, backtick) + StatementTexts(b, backtick)
  {
    hide Spans, SplitFrom, InOrder, Moved, Texts;
    var s, n := a + ";" + b, |a| + 1;
    assert s[n..|s|] == b && a <= s && s[|a|] == ';';
    StatementsAre(s, backtick);
    StatementsAre(a, backtick);
    StatementsAre(b, backtick);
    ConcatSpans(a, b, backtick);
    var toks, rest, semi := Spans(a, 0, backtick), Spans(s, n, backtick), Span(Punct, |a|, n);
    assert toks + [semi] + rest == toks + ([semi] + rest);
    SpansInOrder(s, n, backtick);
    SplitPrefix(s, a, toks, semi, rest, 0, false);
    SplitMoved(s, n, rest, n, false);
    StatementsWellCut(a, backtick);
    WellCutPairwise(a, Statements(a, backtick), 0);
    StatementsWellCut(b, backtick);
    WellCutPairwise(b, Statements(b, backtick), 0);
    TextsOfConcat(s, a, b, n, Statements(a, backtick), Statements(b, backtick));
  }
}

/**
 Splitting loses no code. Every token of a script that is neither a comment nor
 a semicolon lies in a statement, whole except for trailing whitespace trimmed
 off an unterminated literal, and no statement holds a semicolon token.
 Statements are disjoint and in order (Splitter.StatementsWellCut), so the
 statement holding a token is unique and tokens keep their order.
 */
module Lossless {
  import opened Bytes
  import opened Lexer
  import opened LexerWindow
  import opened Splitter
  import opened Resplit

  predicate CodeToken(s: string, t: Span) { t.kind != Comment && !IsPunct(s, t, ';') }

  /** Statement `r` holds token `t`, up to trimmed whitespace at the end of `t`. */
  predicate Holds(s: string, r: Range, t: Span) {
    && r.start <= t.start < r.end <= |s|
    && t.end <= |s|
    && (t.end <= r.end || AllSpace(s, r.end, t.end))
  }

  predicate Kept(s: string, toks: seq<Span>, rs: seq<Range>) {
    forall k | 0 <= k < |toks| && CodeToken(s, toks[k]) :: exists j :: 0 <= j < |rs| && Holds(s, rs[j], toks[k])
  }

  /** No range covers the first byte of a semicolon token. */
  predicate NoSemicolon(s: string, toks: seq<Span>, rs: seq<Range>) {
    forall j, k | 0 <= j < |rs| && 0 <= k < |toks| && IsPunct(s, toks[k], ';') ::
      !(rs[j].start <= toks[k].start < rs[j].end)
  }

  lemma KeptAppend(s: string, x: seq<Span>, y: seq<Span>, p: seq<Range>, q: seq<Range>)
    requires Kept(s, x, p) && Kept(s, y, q)
    ensures Kept(s, x + y, p + q)
  {
    hide CodeToken, Holds;
    forall k | 0 <= k < |x + y| && CodeToken(s, (x + y)[k])
      ensures exists j :: 0 <= j < |p + q| && Holds(s, (p + q)[j], (x + y)[k])
    {
      if k < |x| {
        var j :| 0 <= j < |p| && Holds(s, p[j], x[k]);
        assert (p + q)[j] == p[j];
      } else {
        var j :| 0 <= j < |q| && Holds(s, q[j], y[k - |x|]);
        assert (p + q)[|p| + j] == q[j];
      }
    }
  }

  /** Two stretches, one after the other: nothing in one meets a semicolon of the other. */
  lemma NoSemicolonAppend(s: string, x: seq<Span>, y: seq<Span>, p: seq<Range>, q: seq<Range>, cut: nat)
    requires NoSemicolon(s, x, p) && NoSemicolon(s, y, q)
    requires forall k | 0 <= k < |x| :: x[k].start < cut
    requires forall k | 0 <= k < |y| :: cut <= y[k].start
    requires forall j | 0 <= j < |p| :: p[j].end <= cut
    requires forall j | 0 <= j < |q| :: cut <= q[j].start
    ensures NoSemicolon(s, x + y, p + q)
  {
    hide IsPunct;
  }

  lemma {:induction false} OnlyComments(s: string, toks: seq<Span>)
    requires !CodeAfter(toks, false)
    ensures forall k | 0 <= k < |toks| :: toks[k].kind == Comment
    decreases |toks|
  {
    if toks != [] {
      if toks[0].kind != Comment {
        CodeStays(toks[1..]);
      } else {
        OnlyComments(s, toks[1..]);
        assert forall k | 0 < k < |toks| :: toks[k] == toks[1..][k - 1];
      }
    }
  }

  lemma {:induction false} RunningNoSemicolon(s: string, toks: seq<Span>, hasCode: bool)
    requires Running(s, toks, hasCode)
    ensures forall k | 0 <= k < |toks| :: !IsPunct(s, toks[k], ';')
    decreases |toks|
  {
    if toks != [] {
      RunningNoSemicolon(s, toks[1..], hasCode || toks[0].kind != Comment);
      assert forall k | 0 < k < |toks| :: toks[k] == toks[1..][k - 1];
    }
  }

  lemma {:induction false} MetaNoSemicolon(s: string, toks: seq<Span>, end: nat)
    requires InOrder(s, toks, end) && end <= |s|
    ensures forall k | 0 <= k < MetaTaken(s, toks, end) :: !IsPunct(s, toks[k], ';')
    decreases |toks|
  {
    hide IsPunct, NewlineIn;
    MetaTakenStep(s, toks, end);
    if MetaTaken(s, toks, end) > 0 {
      MetaNoSemicolon(s, toks[1..], toks[0].end);
      assert forall k | 0 < k < |toks| :: toks[k] == toks[1..][k - 1];
    }
  }

  /** A stretch flushed as one statement keeps its tokens. */
  lemma FlushKeeps(s: string, from: nat, to: nat, pend: seq<Span>, toks: seq<Span>, backtick: bool)
    requires Fills(s, from, to, pend, toks, backtick)
    ensures Flush(s, from, to, true) == [Trim(s, from, to)]
    ensures Kept(s, pend, [Trim(s, from, to)])
  {
    hide Trim, Fills, IsPunct, CodeToken;
    FillsTrim(s, from, to, pend, toks, backtick);
    FillsBounds(s, from, to, pend, toks, backtick);
    var r := Trim(s, from, to);
    forall k | 0 <= k < |pend| && CodeToken(s, pend[k])
      ensures exists j :: 0 <= j < 1 && Holds(s, [r][j], pend[k])
    {
      assert Holds(s, [r][0], pend[k]);
    }
  }

  lemma FillsBounds(s: string, from: nat, to: nat, pend: seq<Span>, toks: seq<Span>, backtick: bool)
    requires Fills(s, from, to, pend, toks, backtick)
    ensures from <= to <= |s|
    ensures forall k | 0 <= k < |pend| :: pend[k].start < pend[k].end <= to
    ensures forall k | 0 <= k < |toks| :: to <= toks[k].start
  {
    hide Spans;
    SpansInOrder(s, from, backtick);
    assert forall k | 0 <= k < |pend| :: pend[k] == (pend + toks)[k];
  }

  lemma SemicolonFree(s: string, toks: seq<Span>, rs: seq<Range>)
    requires forall k | 0 <= k < |toks| :: !IsPunct(s, toks[k], ';')
    ensures NoSemicolon(s, toks, rs)
  {
  }

  /** What a flush does to the tokens pending when a semicolon, or the end, is met. */
  lemma PendingKept(s: string, start: nat, to: nat, pend: seq<Span>, toks: seq<Span>, backtick: bool)
    requires start <= to <= |s| && Spans(s, start, backtick) == pend + toks && Running(s, pend, false)
    requires to == if toks == [] then |s| else toks[0].start
    ensures var rs := Flush(s, start, to, CodeAfter(pend, false));
            && Kept(s, pend, rs) && NoSemicolon(s, pend, rs)
            && (forall j | 0 <= j < |rs| :: rs[j].end <= to)
            && (forall k | 0 <= k < |pend| :: pend[k].start < pend[k].end <= to)
            && (forall k | 0 <= k < |toks| :: to <= toks[k].start)
  {
    hide Trim, Spans, Running, IsPunct, Kept, NoSemicolon;
    var all := pend + toks;
    SpansInOrder(s, start, backtick);
    assert forall k | 0 <= k < |pend| :: pend[k] == all[k];
    assert forall k | 0 <= k < |toks| :: toks[k] == all[|pend| + k];
    RunningNoSemicolon(s, pend, false);
    SemicolonFree(s, pend, Flush(s, start, to, CodeAfter(pend, false)));
    if CodeAfter(pend, false) {
      RunningNil(s);
      assert Fills(s, start, to, pend, toks, backtick);
      FlushKeeps(s, start, to, pend, toks, backtick);
    } else {
      OnlyComments(s, pend);
      CommentsKept(s, pend, []);
    }
  }

  lemma CommentsKept(s: string, toks: seq<Span>, rs: seq<Range>)
    requires forall k | 0 <= k < |toks| :: toks[k].kind == Comment
    ensures Kept(s, toks, rs)
  {
  }

  /** The same for a meta-command and the tokens it takes in. */
  lemma MetaKept(s: string, toks: seq<Span>, backtick: bool)
    requires toks != [] && toks[0].start < toks[0].end <= |s| && InOrder(s, toks[1..], toks[0].end)
    requires Spans(s, toks[0].start, backtick) == toks && IsPunct(s, toks[0], '\\')
    ensures var n, end := MetaTaken(s, toks[1..], toks[0].end), MetaEnd(s, toks[1..], toks[0].end);
            var rs := Flush(s, toks[0].start, end, true);
            && Kept(s, toks[..n + 1], rs) && NoSemicolon(s, toks[..n + 1], rs)
            && (forall j | 0 <= j < |rs| :: rs[j].end <= end)
            && (forall k | 0 <= k <= n :: toks[k].start < toks[k].end <= end)
            && (forall k | n < k < |toks| :: end <= toks[k].start)
            && Spans(s, end, backtick) == toks[n + 1..]
  {
    hide Trim, Spans, MetaTaken, MetaEnd, InOrder, Fills, Flush, IsPunct, Kept, NoSemicolon;
    var n, end := MetaTaken(s, toks[1..], toks[0].end), MetaEnd(s, toks[1..], toks[0].end);
    var mid, rest := toks[..n + 1], toks[n + 1..];
    MetaEndIs(s, toks[1..], toks[0].end);
    assert end == toks[n].end;
    PrefixFills(s, toks, n + 1, backtick);
    FillsBounds(s, toks[0].start, end, mid, rest, backtick);
    FlushKeeps(s, toks[0].start, end, mid, rest, backtick);
    MetaFree(s, toks);
    Halves(toks, n + 1);
    SemicolonFree(s, mid, Flush(s, toks[0].start, end, true));
  }

  lemma Halves(toks: seq<Span>, n: nat)
    requires n <= |toks|
    ensures forall k | 0 <= k < n :: toks[k] == toks[..n][k]
    ensures forall k | n <= k < |toks| :: toks[k] == toks[n..][k - n]
  {
  }

  lemma MetaFree(s: string, toks: seq<Span>)
    requires toks != [] && toks[0].end <= |s| && InOrder(s, toks[1..], toks[0].end) && IsPunct(s, toks[0], '\\')
    ensures var mid := toks[..MetaTaken(s, toks[1..], toks[0].end) + 1];
            forall k | 0 <= k < |mid| :: !IsPunct(s, mid[k], ';')
  {
    hide MetaTaken, InOrder;
    MetaNoSemicolon(s, toks[1..], toks[0].end);
    var mid := toks[..MetaTaken(s, toks[1..], toks[0].end) + 1];
    forall k | 0 <= k < |mid|
      ensures !IsPunct(s, mid[k], ';')
    {
      assert mid[k] == if k == 0 then toks[0] else toks[1..][k - 1];
    }
  }

  /** The ranges of the rest of a script all begin where the rest begins, or later. */
  lemma RestAfter(s: string, toks: seq<Span>, start: nat, backtick: bool)
    requires start <= |s| && Spans(s, start, backtick) == toks
    ensures InOrder(s, toks, start)
    ensures forall j | 0 <= j < |SplitFrom(s, toks, start, false)| :: start <= SplitFrom(s, toks, start, false)[j].start
  {
    hide Spans, SplitFrom, Tiled;
    SpansInOrder(s, start, backtick);
    TokensTiled(s, start, backtick);
    TiledOrdered(s, toks, start);
    SplitWellCut(s, toks, start, false);
    WellCutPairwise(s, SplitFrom(s, toks, start, false), start);
  }

  /** Two stretches joined at `cut`. */
  lemma Join(s: string, x: seq<Span>, y: seq<Span>, p: seq<Range>, q: seq<Range>, cut: nat)
    requires Kept(s, x, p) && Kept(s, y, q) && NoSemicolon(s, x, p) && NoSemicolon(s, y, q)
    requires forall k | 0 <= k < |x| :: x[k].start < cut
    requires forall k | 0 <= k < |y| :: cut <= y[k].start
    requires forall j | 0 <= j < |p| :: p[j].end <= cut
    requires forall j | 0 <= j < |q| :: cut <= q[j].start
    ensures Kept(s, x + y, p + q) && NoSemicolon(s, x + y, p + q)
  {
    hide Kept, NoSemicolon;
    KeptAppend(s, x, y, p, q);
    NoSemicolonAppend(s, x, y, p, q, cut);
  }

  /** Comments in front of a meta-command belong to no statement, and need not. */
  lemma CommentsInFront(s: string, pend: seq<Span>, toks: seq<Span>, rs: seq<Range>)
    requires forall k | 0 <= k < |pend| :: pend[k].kind == Comment
    requires Kept(s, toks, rs) && NoSemicolon(s, toks, rs)
    ensures Kept(s, pend + toks, rs) && NoSemicolon(s, pend + toks, rs)
  {
    hide Kept;
    CommentsKept(s, pend, []);
    KeptAppend(s, pend, toks, [], rs);
    assert [] + rs == rs;
  }

  /** The closing semicolon itself is in no statement. */
  lemma SemicolonBehind(s: string, pend: seq<Span>, t: Span, p: seq<Range>)
    requires IsPunct(s, t, ';') && Kept(s, pend, p) && NoSemicolon(s, pend, p)
    requires forall j | 0 <= j < |p| :: p[j].end <= t.start
    ensures Kept(s, pend + [t], p) && NoSemicolon(s, pend + [t], p)
  {
    assert Kept(s, pend + [t], p) by {
      hide Holds;
      forall k | 0 <= k < |pend + [t]| && CodeToken(s, (pend + [t])[k])
        ensures exists j :: 0 <= j < |p| && Holds(s, p[j], (pend + [t])[k])
      {
        assert (pend + [t])[k] == pend[k];
      }
    }
  }

  lemma KeepMeta(s: string, pend: seq<Span>, toks: seq<Span>, n: nat, end: nat, q: seq<Range>, backtick: bool)
    requires toks != [] && toks[0].start < toks[0].end <= |s| && InOrder(s, toks[1..], toks[0].end)
    requires Spans(s, toks[0].start, backtick) == toks && IsPunct(s, toks[0], '\\')
    requires n == MetaTaken(s, toks[1..], toks[0].end) && end == MetaEnd(s, toks[1..], toks[0].end)
    requires Kept(s, toks[n + 1..], q) && NoSemicolon(s, toks[n + 1..], q)
    requires forall j | 0 <= j < |q| :: end <= q[j].start
    requires !CodeAfter(pend, false)
    ensures var rs := Flush(s, toks[0].start, end, true) + q;
            Kept(s, pend + toks, rs) && NoSemicolon(s, pend + toks, rs)
  {
    hide Spans, CodeAfter, Flush, MetaTaken, MetaEnd, InOrder, Kept, NoSemicolon, IsPunct;
    MetaKept(s, toks, backtick);
    Join(s, toks[..n + 1], toks[n + 1..], Flush(s, toks[0].start, end, true), q, end);
    assert toks[..n + 1] + toks[n + 1..] == toks;
    OnlyComments(s, pend);
    CommentsInFront(s, pend, toks, Flush(s, toks[0].start, end, true) + q);
  }

  lemma KeepSemicolon(s: string, start: nat, pend: seq<Span>, toks: seq<Span>, q: seq<Range>, backtick: bool)
    requires start <= |s| && Spans(s, start, backtick) == pend + toks && Running(s, pend, false)
    requires toks != [] && start <= toks[0].start < toks[0].end <= |s| && IsPunct(s, toks[0], ';')
    requires Spans(s, toks[0].start, backtick) == toks
    requires Kept(s, toks[1..], q) && NoSemicolon(s, toks[1..], q)
    requires forall j | 0 <= j < |q| :: toks[0].end <= q[j].start
    ensures var rs := Flush(s, start, toks[0].start, CodeAfter(pend, false)) + q;
            Kept(s, pend + toks, rs) && NoSemicolon(s, pend + toks, rs)
  {
    hide Spans, Running, CodeAfter, Flush, Kept, NoSemicolon, IsPunct;
    var t, p := toks[0], Flush(s, start, toks[0].start, CodeAfter(pend, false));
    PendingKept(s, start, t.start, pend, toks, backtick);
    SemicolonBehind(s, pend, t, p);
    RestStarts(s, toks, t.start, backtick);
    Join(s, pend + [t], toks[1..], p, q, t.end);
    assert pend + toks == (pend + [t]) + toks[1..];
  }

  /** The three ways the splitting loop goes on. */
  lemma SplitMeta(s: string, toks: seq<Span>, start: nat)
    requires start <= |s| && InOrder(s, toks, start) && toks != [] && IsPunct(s, toks[0], '\\')
    ensures toks[0].end <= |s| && InOrder(s, toks[1..], toks[0].end)
    ensures var n, end := MetaTaken(s, toks[1..], toks[0].end), MetaEnd(s, toks[1..], toks[0].end);
            && InOrder(s, toks[n + 1..], end)
            && SplitFrom(s, toks, start, false) == Flush(s, toks[0].start, end, true) + SplitFrom(s, toks[n + 1..], end, false)
  {
    hide Flush, MetaTaken, MetaEnd, SplitFrom, InOrder;
    SplitStep(s, toks, start, false);
  }

  lemma SplitSemicolon(s: string, toks: seq<Span>, start: nat, hasCode: bool)
    requires start <= |s| && InOrder(s, toks, start) && toks != [] && IsPunct(s, toks[0], ';')
    ensures start <= toks[0].start && toks[0].end <= |s| && InOrder(s, toks[1..], toks[0].end)
    ensures SplitFrom(s, toks, start, hasCode) == Flush(s, start, toks[0].start, hasCode) + SplitFrom(s, toks[1..], toks[0].end, false)
  {
    hide Flush, MetaTaken, MetaEnd, SplitFrom;
    SplitStep(s, toks, start, hasCode);
  }

  lemma SplitOn(s: string, toks: seq<Span>, start: nat, hasCode: bool)
    requires start <= |s| && InOrder(s, toks, start) && toks != []
    requires !IsPunct(s, toks[0], ';') && (hasCode || !IsPunct(s, toks[0], '\\'))
    ensures InOrder(s, toks[1..], start)
    ensures SplitFrom(s, toks, start, hasCode) == SplitFrom(s, toks[1..], start, hasCode || toks[0].kind != Comment)
  {
    hide Flush, MetaTaken, MetaEnd, SplitFrom, InOrder, IsPunct;
    SplitStep(s, toks, start, hasCode);
  }

  lemma {:induction false} KeepFrom(s: string, start: nat, pend: seq<Span>, toks: seq<Span>, backtick: bool)
    requires start <= |s| && Spans(s, start, backtick) == pend + toks && Running(s, pend, false)
    requires InOrder(s, toks, start)
    ensures Kept(s, pend + toks, SplitFrom(s, toks, start, CodeAfter(pend, false)))
    ensures NoSemicolon(s, pend + toks, SplitFrom(s, toks, start, CodeAfter(pend, false)))
    decreases |toks|
  {
    hide Trim, Spans, Running, CodeAfter, Flush, MetaTaken, MetaEnd, InOrder, SplitFrom, Kept, NoSemicolon, IsPunct;
    var hasCode := CodeAfter(pend, false);
    if toks == [] {
      SplitEnd(s, start, hasCode);
      PendingKept(s, start, |s|, pend, toks, backtick);
      assert pend + toks == pend;
    } else {
      var t := toks[0];
      InOrderHead(s, toks, start);
      SpansAt(s, start, pend, toks, backtick);
      RunningNil(s);
      if !hasCode && IsPunct(s, t, '\\') {
        SplitMeta(s, toks, start);
        var n, end := MetaTaken(s, toks[1..], t.end), MetaEnd(s, toks[1..], t.end);
        MetaKept(s, toks, backtick);
        RestAfter(s, toks[n + 1..], end, backtick);
        assert [] + toks[n + 1..] == toks[n + 1..];
        KeepFrom(s, end, [], toks[n + 1..], backtick);
        KeepMeta(s, pend, toks, n, end, SplitFrom(s, toks[n + 1..], end, false), backtick);
      } else if IsPunct(s, t, ';') {
        SplitSemicolon(s, toks, start, hasCode);
        RestAfter(s, toks[1..], t.end, backtick);
        assert [] + toks[1..] == toks[1..];
        KeepFrom(s, t.end, [], toks[1..], backtick);
        KeepSemicolon(s, start, pend, toks, SplitFrom(s, toks[1..], t.end, false), backtick);
      } else {
        SplitOn(s, toks, start, hasCode);
        RunningAppend(s, pend, t, false);
        assert pend + toks == (pend + [t]) + toks[1..];
        KeepFrom(s, start, pend + [t], toks[1..], backtick);
      }
    }
  }

  lemma RestStarts(s: string, toks: seq<Span>, at: nat, backtick: bool)
    requires at <= |s| && Spans(s, at, backtick) == toks && toks != []
    ensures forall k | 0 <= k < |toks| - 1 :: toks[0].end <= toks[1..][k].start
  {
    hide Spans;
    SpansInOrder(s, at, backtick);
  }

  /** Every code token of a script is in one of its statements; no semicolon token is in any. */
  lemma SplittingLosesNothing(script: string, backtick: bool)
    ensures Kept(script, Spans(script, 0, backtick), Statements(script, backtick))
    ensures NoSemicolon(script, Spans(script, 0, backtick), Statements(script, backtick))
  {
    hide Spans, SplitFrom, Kept, NoSemicolon;
    StatementsAre(script, backtick);
    RunningNil(script);
    assert [] + Spans(script, 0, backtick) == Spans(script, 0, backtick);
    KeepFrom(script, 0, [], Spans(script, 0, backtick), backtick);
  }

  /** Tokens keep their order: of two, the later is in no earlier statement. */
  lemma TokensInOrder(script: string, backtick: bool, i: nat, j: nat, a: nat, b: nat)
    requires i < j < |Spans(script, 0, backtick)|
    requires a < |Statements(script, backtick)| && b < |Statements(script, backtick)|
    requires Holds(script, Statements(script, backtick)[a], Spans(script, 0, backtick)[i])
    requires Holds(script, Statements(script, backtick)[b], Spans(script, 0, backtick)[j])
    ensures a <= b
  {
    hide Statements, Spans;
    StatementsWellCut(script, backtick);
    WellCutPairwise(script, Statements(script, backtick), 0);
    SpansInOrder(script, 0, backtick);
  }

  /** The statement holding a token is the only one. */
  lemma HoldsOnce(script: string, backtick: bool, t: Span, i: nat, j: nat)
    requires i < |Statements(script, backtick)| && j < |Statements(script, backtick)|
    requires Holds(script, Statements(script, backtick)[i], t) && Holds(script, Statements(script, backtick)[j], t)
    ensures i == j
  {
    hide Statements;
    StatementsWellCut(script, backtick);
    WellCutPairwise(script, Statements(script, backtick), 0);
  }
}

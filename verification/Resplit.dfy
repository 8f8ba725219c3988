/**
 Splitting is idempotent: every statement splitSQL cuts out of a script,
 meta-commands included, splits to itself and nothing else. The statement lexes
 on its own to the tokens it had in the script, the last one cut where trailing
 whitespace was trimmed off.
 */
module Resplit {
  import opened Bytes
  import opened Lexer
  import opened LexerWindow
  import opened Splitter

  // ---- runs of tokens that stay in one statement -----------------------------

  /** None of these tokens ends the statement or starts a meta-command. */
  predicate Running(s: string, toks: seq<Span>, hasCode: bool) {
    if toks == [] then true
    else
      && !IsPunct(s, toks[0], ';')
      && (hasCode || !IsPunct(s, toks[0], '\\'))
      && Running(s, toks[1..], hasCode || toks[0].kind != Comment)
  }

  /** Is there code once these tokens have been read? */
  predicate CodeAfter(toks: seq<Span>, hasCode: bool) {
    if toks == [] then hasCode else CodeAfter(toks[1..], hasCode || toks[0].kind != Comment)
  }

  lemma {:induction false} CodeStays(toks: seq<Span>)
    ensures CodeAfter(toks, true)
    decreases |toks|
  {
    if toks != [] {
      CodeStays(toks[1..]);
    }
  }

  lemma {:induction false} RunningAppend(s: string, toks: seq<Span>, t: Span, hasCode: bool)
    ensures CodeAfter(toks + [t], hasCode) == (CodeAfter(toks, hasCode) || t.kind != Comment)
    ensures Running(s, toks + [t], hasCode)
            == (Running(s, toks, hasCode) && !IsPunct(s, t, ';')
                && (CodeAfter(toks, hasCode) || !IsPunct(s, t, '\\')))
    decreases |toks|
  {
    if toks == [] {
      assert (toks + [t])[1..] == [];
    } else {
      assert (toks + [t])[1..] == toks[1..] + [t];
      RunningAppend(s, toks[1..], t, hasCode || toks[0].kind != Comment);
    }
  }

  lemma {:induction false} SplitRunning(s: string, toks: seq<Span>, start: nat, hasCode: bool)
    requires start <= |s| && InOrder(s, toks, start) && Running(s, toks, hasCode)
    ensures SplitFrom(s, toks, start, hasCode) == Flush(s, start, |s|, CodeAfter(toks, hasCode))
    decreases |toks|
  {
    if toks != [] {
      hide SplitFrom, Flush;
      SplitStep(s, toks, start, hasCode);
      SplitRunning(s, toks[1..], start, hasCode || toks[0].kind != Comment);
    }
  }

  // ---- a piece of the script lexed on its own --------------------------------

  lemma {:induction false} SkipSpace(s: string, i: nat, j: nat, backtick: bool)
    requires i <= j <= |s| && AllSpace(s, i, j)
    ensures Spans(s, i, backtick) == Spans(s, j, backtick)
    decreases j - i
  {
    hide StepAt, Spans;
    if i < j {
      SpansStep(s, i, backtick);
      SkipSpace(s, i + 1, j, backtick);
    }
  }

  lemma {:induction false} ClippedAfter(s: string, toks: seq<Span>, a: nat, b: nat)
    requires a <= b <= |s|
    requires forall k | 0 <= k < |toks| :: b <= toks[k].start
    ensures Clipped(s, toks, a, b) == []
    decreases |toks|
  {
    if toks != [] {
      ClippedAfter(s, toks[1..], a, b);
    }
  }

  /** The tokens of a run that lies between `from` and `to` and fills that stretch. */
  predicate Fills(s: string, from: nat, to: nat, pend: seq<Span>, toks: seq<Span>, backtick: bool) {
    && from <= to <= |s| && pend != []
    && Spans(s, from, backtick) == pend + toks
    && (forall k | 0 <= k < |pend| :: pend[k].end <= to)
    && (forall k | 0 <= k < |toks| :: to <= toks[k].start)
  }

  /** The trimmed stretch starts at its first token, ends in its last, and every token starts in it. */
  lemma FillsTrim(s: string, from: nat, to: nat, pend: seq<Span>, toks: seq<Span>, backtick: bool)
    requires Fills(s, from, to, pend, toks, backtick)
    ensures var r := Trim(s, from, to);
            && r.start == pend[0].start && r.start < r.end && r.end <= pend[|pend| - 1].end
            && forall k | 0 <= k < |pend| :: r.start <= pend[k].start < r.end && pend[k].start < pend[k].end
  {
    hide Trim, Spans, Tiled;
    var all, r := pend + toks, Trim(s, from, to);
    TokensTiled(s, from, backtick);
    TiledOrdered(s, all, from);
    assert forall k | 0 <= k < |pend| :: pend[k] == all[k];
    TiledHead(s, all, from);
    assert r.start == pend[0].start;
    assert forall k | 0 <= k < |pend| :: pend[k].start < r.end;
    assert forall k | |pend| <= k < |all| :: all[k] == toks[k - |pend|];
    TiledCovers(s, all, from, r.end - 1);
  }

  lemma TiledHead(s: string, toks: seq<Span>, from: nat)
    requires from <= |s| && toks != [] && Tiled(s, toks, from)
    ensures from <= toks[0].start < |s| && AllSpace(s, from, toks[0].start) && !IsSpace(s[toks[0].start])
  {
  }

  /** A trimmed stretch, lexed alone, has the tokens it had in the script. */
  lemma PieceSpans(s: string, from: nat, to: nat, pend: seq<Span>, toks: seq<Span>, backtick: bool)
    requires Fills(s, from, to, pend, toks, backtick)
    ensures var r := Trim(s, from, to);
            Spans(s[r.start..r.end], 0, backtick) == Clipped(s, pend, r.start, r.end)
  {
    hide Trim, Spans, Clipped, Tiled;
    var r := Trim(s, from, to);
    FillsTrim(s, from, to, pend, toks, backtick);
    SkipSpace(s, from, r.start, backtick);
    if r.end < to {
      assert IsSpace(s[r.end]);
      assert SafeCut(s, r.end);
    } else {
      var all := pend + toks;
      assert forall k | 0 <= k < |all| :: all[k] == if k < |pend| then pend[k] else toks[k - |pend|];
      assert Uncut(all, r.end);
    }
    WindowSpans(s, r.start, r.end, r.start, backtick);
    ClippedAppend(s, pend, toks, r.start, r.end);
    ClippedAfter(s, toks, r.start, r.end);
  }

  /** Does s[r] split into exactly itself? */
  predicate Resplits(s: string, r: Range, backtick: bool) {
    && r.start < r.end <= |s|
    && StatementTexts(s[r.start..r.end], backtick) == [s[r.start..r.end]]
  }

  lemma WholeTrim(w: string)
    requires w != [] && !IsSpace(w[0]) && !IsSpace(w[|w| - 1])
    ensures Flush(w, 0, |w|, true) == [Range(0, |w|)]
    ensures RangesWithin(w, [Range(0, |w|)]) && Texts(w, [Range(0, |w|)]) == [w]
  {
    TrimUnique(w, 0, |w|, Range(0, |w|));
    assert w[0..|w|] == w;
  }

  // ---- plain statements ------------------------------------------------------

  lemma {:induction false} RunningClipped(s: string, toks: seq<Span>, a: nat, b: nat, hasCode: bool)
    requires a <= b <= |s|
    requires forall k | 0 <= k < |toks| :: a <= toks[k].start < b && toks[k].start < toks[k].end
    ensures CodeAfter(Clipped(s, toks, a, b), hasCode) == CodeAfter(toks, hasCode)
    ensures Running(s[a..b], Clipped(s, toks, a, b), hasCode) == Running(s, toks, hasCode)
    decreases |toks|
  {
    if toks != [] {
      assert toks == [toks[0]] + toks[1..];
      ClippedStep(s, toks[0], toks[1..], a, b);
      assert Clipped(s, toks, a, b)[1..] == Clipped(s, toks[1..], a, b);
      assert s[a..b][toks[0].start - a] == s[toks[0].start];
      RunningClipped(s, toks[1..], a, b, hasCode || toks[0].kind != Comment);
    }
  }

  lemma FlushedResplits(s: string, from: nat, to: nat, pend: seq<Span>, toks: seq<Span>, backtick: bool)
    requires Fills(s, from, to, pend, toks, backtick)
    requires Running(s, pend, false) && CodeAfter(pend, false)
    ensures Flush(s, from, to, true) == [Trim(s, from, to)] && Resplits(s, Trim(s, from, to), backtick)
  {
    hide Trim, Spans, Clipped, Running, CodeAfter, SplitFrom;
    var r := Trim(s, from, to);
    var w := s[r.start..r.end];
    FillsTrim(s, from, to, pend, toks, backtick);
    PieceSpans(s, from, to, pend, toks, backtick);
    RunningClipped(s, pend, r.start, r.end, false);
    SpansInOrder(w, 0, backtick);
    SplitRunning(w, Spans(w, 0, backtick), 0, false);
    assert w[0] == s[r.start] && w[|w| - 1] == s[r.end - 1];
    WholeTrim(w);
  }

  lemma FirstTwo(s: string, toks: seq<Span>, from: nat)
    requires InOrder(s, toks, from)
    ensures |toks| > 1 ==> toks[0].end <= toks[1].start
  {
  }

  // ---- meta-commands ---------------------------------------------------------

  lemma {:induction false} ClippedInOrder(s: string, toks: seq<Span>, a: nat, b: nat, end: nat)
    requires a <= end <= b <= |s| && InOrder(s, toks, end)
    requires forall k | 0 <= k < |toks| :: toks[k].start < b
    ensures InOrder(s[a..b], Clipped(s, toks, a, b), end - a) && |Clipped(s, toks, a, b)| == |toks|
    decreases |toks|
  {
    if toks != [] {
      assert toks == [toks[0]] + toks[1..];
      ClippedStep(s, toks[0], toks[1..], a, b);
      InOrderDrop(s, toks, end, 1);
      var c := Clipped(s, toks, a, b);
      if toks[0].end <= b {
        ClippedInOrder(s, toks[1..], a, b, toks[0].end);
        assert forall k | 0 < k < |c| :: c[k] == Clipped(s, toks[1..], a, b)[k - 1];
      } else {
        FirstTwo(s, toks, end);
        assert toks[1..] == [];
      }
    }
  }

  /** A meta-command takes in all of `toks` iff it takes in the first and then the rest. */
  lemma MetaTakenAll(s: string, toks: seq<Span>, end: nat)
    requires InOrder(s, toks, end) && toks != [] && end <= |s|
    ensures toks[0].end <= |s| && InOrder(s, toks[1..], toks[0].end)
    ensures MetaTaken(s, toks, end) == |toks|
            <==> !NewlineIn(s, end, toks[0].start) && !IsPunct(s, toks[0], ';')
                 && MetaTaken(s, toks[1..], toks[0].end) == |toks| - 1
  {
    InOrderDrop(s, toks, end, 1);
  }

  /** What a meta-command asks of the next token reads the same in a window. */
  lemma MetaHeadClipped(s: string, t: Span, rest: seq<Span>, a: nat, b: nat, end: nat)
    requires a <= end <= t.start < b <= |s| && t.start < t.end
    ensures var w, c := s[a..b], Clipped(s, [t] + rest, a, b);
            && c != [] && c[1..] == Clipped(s, rest, a, b)
            && c[0] == Span(t.kind, t.start - a, (Min(t.end, b) - a) as nat)
            && NewlineIn(w, end - a, c[0].start) == NewlineIn(s, end, t.start)
            && IsPunct(w, c[0], ';') == IsPunct(s, t, ';')
  {
    hide Clipped, IndexByte;
    ClippedStep(s, t, rest, a, b);
    assert s[a..b][t.start - a] == s[t.start];
    IndexByteWindow(s, a, b, '\n', end);
  }

  lemma {:induction false} MetaTakenClipped(s: string, toks: seq<Span>, a: nat, b: nat, end: nat)
    requires a <= end <= b <= |s| && InOrder(s, toks, end)
    requires forall k | 0 <= k < |toks| :: toks[k].start < b
    requires MetaTaken(s, toks, end) == |toks|
    ensures InOrder(s[a..b], Clipped(s, toks, a, b), end - a)
    ensures MetaTaken(s[a..b], Clipped(s, toks, a, b), end - a) == |toks| == |Clipped(s, toks, a, b)|
    decreases |toks|
  {
    hide Clipped, NewlineIn, MetaTaken, IsPunct;
    ClippedInOrder(s, toks, a, b, end);
    var w, c := s[a..b], Clipped(s, toks, a, b);
    if toks == [] {
      MetaTakenNone(w, end - a);
    } else {
      assert toks == [toks[0]] + toks[1..];
      MetaHeadClipped(s, toks[0], toks[1..], a, b, end);
      MetaTakenAll(s, toks, end);
      if |toks| == 1 {
        assert c[1..] == [];
        MetaTakenNone(w, c[0].end);
      } else {
        FirstTwo(s, toks, end);
        MetaTakenClipped(s, toks[1..], a, b, toks[0].end);
      }
      MetaTakenAll(w, c, end - a);
    }
  }

  lemma MetaTakenNone(s: string, end: nat)
    ensures MetaTaken(s, [], end) == 0
  {
  }

  /** A token list read from `from` ends where the last non-space byte does. */
  lemma LastTokenEnds(w: string, toks: seq<Span>, from: nat)
    requires from <= |w| && Tiled(w, toks, from) && toks != [] && !IsSpace(w[|w| - 1])
    ensures toks[|toks| - 1].end == |w|
  {
    TiledOrdered(w, toks, from);
    var last := toks[|toks| - 1];
    TiledCovers(w, toks, from, |w| - 1);
    var i :| 0 <= i < |toks| && toks[i].start <= |w| - 1 < toks[i].end;
  }

  /** A meta-command that takes in all its tokens splits to itself. */
  lemma MetaWhole(w: string, backtick: bool)
    requires w != [] && !IsSpace(w[0]) && !IsSpace(w[|w| - 1])
    requires var c := Spans(w, 0, backtick);
             && c != [] && IsPunct(w, c[0], '\\') && c[0].end <= |w| && InOrder(w, c[1..], c[0].end)
             && MetaTaken(w, c[1..], c[0].end) == |c| - 1
    ensures StatementTexts(w, backtick) == [w]
  {
    hide Spans, Trim, SplitFrom, MetaTaken, MetaEnd, Tiled, StepAt;
    var c := Spans(w, 0, backtick);
    SpansInOrder(w, 0, backtick);
    TokensTiled(w, 0, backtick);
    LastTokenEnds(w, c, 0);
    SplitStep(w, c, 0, false);
    var n, end := MetaTaken(w, c[1..], c[0].end), MetaEnd(w, c[1..], c[0].end);
    MetaEndIs(w, c[1..], c[0].end);
    assert c[n + 1..] == [];
    assert end == |w|;
    SplitRunning(w, [], end, false);
    TiledHead(w, c, 0);
    assert c[0].start == 0;
    WholeTrim(w);
    assert Flush(w, end, |w|, CodeAfter([], false)) == [];
  }

  lemma MetaResplits(s: string, from: nat, to: nat, pend: seq<Span>, toks: seq<Span>, backtick: bool)
    requires Fills(s, from, to, pend, toks, backtick)
    requires IsPunct(s, pend[0], '\\') && pend[0].end <= |s| && InOrder(s, pend[1..], pend[0].end)
    requires MetaTaken(s, pend[1..], pend[0].end) == |pend| - 1
    requires pend[0].end == pend[0].start + 1
    ensures Flush(s, from, to, true) == [Trim(s, from, to)] && Resplits(s, Trim(s, from, to), backtick)
  {
    hide Trim, Spans, Clipped, MetaTaken, InOrder;
    var r := Trim(s, from, to);
    FillsTrim(s, from, to, pend, toks, backtick);
    PieceSpans(s, from, to, pend, toks, backtick);
    MetaClipped(s, pend, r.start, r.end);
    var w := s[r.start..r.end];
    assert w[0] == s[r.start] && w[|w| - 1] == s[r.end - 1];
    MetaWhole(w, backtick);
  }

  /** In a window that begins with the backslash the command takes in the same tokens. */
  lemma MetaClipped(s: string, pend: seq<Span>, a: nat, b: nat)
    requires pend != [] && a < b <= |s| && pend[0].start == a && pend[0].end == a + 1
    requires forall k | 0 <= k < |pend| :: a <= pend[k].start < b
    requires IsPunct(s, pend[0], '\\') && InOrder(s, pend[1..], pend[0].end)
    requires MetaTaken(s, pend[1..], pend[0].end) == |pend| - 1
    ensures var w, c := s[a..b], Clipped(s, pend, a, b);
            && c != [] && IsPunct(w, c[0], '\\') && c[0].end <= |w| && InOrder(w, c[1..], c[0].end)
            && MetaTaken(w, c[1..], c[0].end) == |c| - 1
  {
    hide Clipped, MetaTaken, InOrder;
    var t := pend[0];
    assert pend == [t] + pend[1..];
    ClippedStep(s, t, pend[1..], a, b);
    MetaTakenClipped(s, pend[1..], a, b, t.end);
    assert Clipped(s, pend, a, b)[1..] == Clipped(s, pend[1..], a, b);
    assert s[a..b][0] == s[a];
  }

  // ---- every statement of every script ---------------------------------------

  /** The lexer restarts at each token: what follows a token does not depend on what precedes it. */
  lemma {:induction false} SpansAt(s: string, i: nat, x: seq<Span>, y: seq<Span>, backtick: bool)
    requires i <= |s| && Spans(s, i, backtick) == x + y && y != []
    ensures i <= y[0].start < y[0].end <= |s|
    ensures y[0].kind == Punct ==> y[0].end == y[0].start + 1
    ensures Spans(s, y[0].start, backtick) == y && Spans(s, y[0].end, backtick) == y[1..]
    decreases |s| - i
  {
    hide StepAt, Spans;
    if i == |s| {
      SpansEnd(s, backtick);
    } else {
      var (kind, end) := StepAt(s, i, backtick);
      SpansStep(s, i, backtick);
      if kind.None? {
        SpansAt(s, end, x, y, backtick);
      } else if x != [] {
        assert (x + y)[1..] == x[1..] + y;
        SpansAt(s, end, x[1..], y, backtick);
      } else {
        assert x + y == y;
      }
    }
  }

  lemma {:induction false} MetaTakenPrefix(s: string, toks: seq<Span>, end: nat)
    requires InOrder(s, toks, end)
    ensures var n := MetaTaken(s, toks, end);
            InOrder(s, toks[..n], end) && MetaTaken(s, toks[..n], end) == n
    decreases |toks|
  {
    hide NewlineIn, IsPunct;
    var n := MetaTaken(s, toks, end);
    InOrderTake(s, toks, end, n);
    if n > 0 {
      InOrderDrop(s, toks, end, 1);
      MetaTakenPrefix(s, toks[1..], toks[0].end);
      assert toks[..n][0] == toks[0] && toks[..n][1..] == toks[1..][..n - 1];
    }
  }

  lemma InOrderTake(s: string, toks: seq<Span>, from: nat, n: nat)
    requires InOrder(s, toks, from) && n <= |toks|
    ensures InOrder(s, toks[..n], from)
  {
  }

  /** Up to its last token, a token list fills the stretch it covers. */
  lemma PrefixFills(s: string, toks: seq<Span>, n: nat, backtick: bool)
    requires toks != [] && 0 < n <= |toks| && toks[0].start <= |s|
    requires Spans(s, toks[0].start, backtick) == toks
    ensures Fills(s, toks[0].start, toks[n - 1].end, toks[..n], toks[n..], backtick)
    ensures toks[n - 1].end <= |s| && Spans(s, toks[n - 1].end, backtick) == toks[n..]
  {
    hide Spans, InOrder;
    SpansInOrder(s, toks[0].start, backtick);
    InOrderSplit(s, toks, toks[0].start, n);
    assert toks == toks[..n] + toks[n..];
    AfterToken(s, toks, n - 1, backtick);
  }

  lemma AfterToken(s: string, toks: seq<Span>, k: nat, backtick: bool)
    requires k < |toks| && toks[0].start <= |s| && Spans(s, toks[0].start, backtick) == toks
    ensures toks[k].end <= |s| && Spans(s, toks[k].end, backtick) == toks[k + 1..]
  {
    hide Spans;
    assert toks == toks[..k] + toks[k..];
    SpansAt(s, toks[0].start, toks[..k], toks[k..], backtick);
    assert toks[k..][1..] == toks[k + 1..];
  }

  lemma MetaStatementResplits(s: string, toks: seq<Span>, backtick: bool)
    requires toks != [] && toks[0].start < toks[0].end <= |s| && InOrder(s, toks[1..], toks[0].end)
    requires Spans(s, toks[0].start, backtick) == toks && IsPunct(s, toks[0], '\\')
    ensures var n, end := MetaTaken(s, toks[1..], toks[0].end), MetaEnd(s, toks[1..], toks[0].end);
            && Flush(s, toks[0].start, end, true) == [Trim(s, toks[0].start, end)]
            && Resplits(s, Trim(s, toks[0].start, end), backtick)
            && Spans(s, end, backtick) == toks[n + 1..]
  {
    hide Trim, Spans, MetaTaken, MetaEnd, Flush, Resplits, InOrder, Fills;
    var n, end := MetaTaken(s, toks[1..], toks[0].end), MetaEnd(s, toks[1..], toks[0].end);
    MetaEndIs(s, toks[1..], toks[0].end);
    MetaTakenPrefix(s, toks[1..], toks[0].end);
    assert toks[..n + 1][1..] == toks[1..][..n];
    PrefixFills(s, toks, n + 1, backtick);
    assert [] + toks == toks;
    SpansAt(s, toks[0].start, [], toks, backtick);
    MetaResplits(s, toks[0].start, end, toks[..n + 1], toks[n + 1..], backtick);
  }

  lemma InOrderSplit(s: string, toks: seq<Span>, from: nat, n: nat)
    requires InOrder(s, toks, from) && 0 < n <= |toks|
    ensures forall k | 0 <= k < n :: toks[..n][k].end <= toks[n - 1].end
    ensures forall k | 0 <= k < |toks| - n :: toks[n - 1].end <= toks[n..][k].start
    ensures from <= toks[n - 1].end <= |s|
  {
    assert forall k | 0 <= k < n - 1 :: toks[k].end <= toks[n - 1].start;
  }

  lemma FlushedStatementResplits(s: string, start: nat, to: nat, pend: seq<Span>, toks: seq<Span>, backtick: bool)
    requires start <= to <= |s| && Spans(s, start, backtick) == pend + toks && Running(s, pend, false)
    requires to == if toks == [] then |s| else toks[0].start
    ensures forall r | r in Flush(s, start, to, CodeAfter(pend, false)) :: Resplits(s, r, backtick)
  {
    hide Trim, Spans, Resplits, Running;
    if CodeAfter(pend, false) {
      var all := pend + toks;
      SpansInOrder(s, start, backtick);
      assert forall k | 0 <= k < |pend| :: pend[k] == all[k];
      assert forall k | 0 <= k < |toks| :: toks[k] == all[|pend| + k];
      assert Fills(s, start, to, pend, toks, backtick);
      FlushedResplits(s, start, to, pend, toks, backtick);
    }
  }

  lemma {:induction false} ResplitFrom(s: string, start: nat, pend: seq<Span>, toks: seq<Span>, backtick: bool)
    requires start <= |s| && Spans(s, start, backtick) == pend + toks && Running(s, pend, false)
    requires InOrder(s, toks, start)
    ensures forall r | r in SplitFrom(s, toks, start, CodeAfter(pend, false)) :: Resplits(s, r, backtick)
    decreases |toks|
  {
    hide Trim, Spans, Resplits, Running, CodeAfter, Flush, MetaTaken, MetaEnd, InOrder, SplitFrom;
    if toks == [] {
      SplitEnd(s, start, CodeAfter(pend, false));
      FlushedStatementResplits(s, start, |s|, pend, toks, backtick);
    } else {
      var t := toks[0];
      SplitStep(s, toks, start, CodeAfter(pend, false));
      SpansAt(s, start, pend, toks, backtick);
      RunningNil(s);
      if !CodeAfter(pend, false) && IsPunct(s, t, '\\') {
        MetaStatementResplits(s, toks, backtick);
        var n, end := MetaTaken(s, toks[1..], t.end), MetaEnd(s, toks[1..], t.end);
        assert [] + toks[n + 1..] == toks[n + 1..];
        ResplitFrom(s, end, [], toks[n + 1..], backtick);
      } else if IsPunct(s, t, ';') {
        FlushedStatementResplits(s, start, t.start, pend, toks, backtick);
        assert [] + toks[1..] == toks[1..];
        ResplitFrom(s, t.end, [], toks[1..], backtick);
      } else {
        RunningAppend(s, pend, t, false);
        assert pend + toks == (pend + [t]) + toks[1..];
        ResplitFrom(s, start, pend + [t], toks[1..], backtick);
      }
    }
  }

  lemma RunningNil(s: string)
    ensures Running(s, [], false) && !CodeAfter([], false)
  {
  }

  /** Splitting any statement of any script again gives that statement back. */
  lemma ResplitIsIdentity(script: string, backtick: bool)
    ensures forall r | r in Statements(script, backtick) :: Resplits(script, r, backtick)
    ensures forall stmt | stmt in StatementTexts(script, backtick) :: StatementTexts(stmt, backtick) == [stmt]
  {
    hide Spans, SplitFrom;
    SpansInOrder(script, 0, backtick);
    RunningNil(script);
    assert [] + Spans(script, 0, backtick) == Spans(script, 0, backtick);
    ResplitFrom(script, 0, [], Spans(script, 0, backtick), backtick);
    var rs := Statements(script, backtick);
    assert forall k | 0 <= k < |rs| :: rs[k] in rs;
  }
}

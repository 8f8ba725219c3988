/**
 Concat shows that a closed script can be joined to any other with a semicolon.
 Here the converse: when the appended semicolon is swallowed by a literal, a
 quoted name or a comment that `a` leaves open, some script `b` makes a;b split
 differently. So being closed is exactly what joining asks for.
 */
module Unclosed {
  import opened Bytes
  import opened Lexer
  import opened LexerWindow
  import opened Splitter
  import opened Resplit
  import opened Concat

  // ---- splitting up to the token left open ------------------------------------------

  /** The token left open: `lead` in s, `cut` where `a`, a beginning of s, ends inside it. */
  predicate Open(s: string, a: string, lead: Span, cut: Span) {
    && a <= s && lead.kind == cut.kind && lead.kind != Punct
    && lead.start == cut.start < |a| && cut.end == |a| < lead.end <= |s|
  }

  /** After the open token s holds nothing, or one number right behind it. */
  predicate Rest(s: string, lead: Span, rest: seq<Span>) {
    || (rest == [] && lead.end == |s|)
    || (rest == [Span(Number, lead.end, |s|)] && lead.end < |s|)
  }

  /** A backslash command takes in a number right behind it. */
  lemma TakesRest(s: string, lead: Span, rest: seq<Span>)
    requires Rest(s, lead, rest) && InOrder(s, rest, lead.end) && lead.end <= |s|
    ensures MetaTaken(s, rest, lead.end) == |rest|
  {
    hide MetaTaken, IsPunct;
    MetaTakenStep(s, rest, lead.end);
    if rest != [] {
      NotPunct(s, rest[0]);
      MetaTakenStep(s, [], |s|);
      assert rest[1..] == [];
    }
  }

  /** A backslash command before the open token takes in the same tokens in both texts, or else
      reaches the open token in both, and all there is then. */
  lemma {:induction false} SameReach(s: string, a: string, toks: seq<Span>, lead: Span, cut: Span, rest: seq<Span>, end: nat)
    requires Open(s, a, lead, cut) && Rest(s, lead, rest) && end <= |a|
    requires InOrder(a, toks + [cut], end) && InOrder(s, toks + ([lead] + rest), end)
    ensures var m, n := MetaTaken(a, toks + [cut], end), MetaTaken(s, toks + ([lead] + rest), end);
            if m <= |toks| then n == m else m == |toks| + 1 && n == m + |rest|
    decreases |toks|
  {
    hide MetaTaken, NewlineIn, InOrder, IsPunct;
    var x, y := toks + [cut], toks + ([lead] + rest);
    MetaTakenStep(a, x, end);
    MetaTakenStep(s, y, end);
    InOrderHead(a, x, end);
    SameNewline(s, a, end, x[0].start);
    if toks == [] {
      assert x[1..] == [] && y[1..] == rest;
      NotPunct(a, cut);
      NotPunct(s, lead);
      MetaTakenStep(a, [], |a|);
      InOrderHead(s, y, end);
      TakesRest(s, lead, rest);
    } else {
      assert x[1..] == toks[1..] + [cut] && y[1..] == toks[1..] + ([lead] + rest) && x[0] == y[0] == toks[0];
      SamePunct(s, a, toks[0], ';');
      if !NewlineIn(a, end, toks[0].start) && !IsPunct(a, toks[0], ';') {
        SameReach(s, a, toks[1..], lead, cut, rest, toks[0].end);
      }
    }
  }

  lemma NotPunct(s: string, t: Span)
    requires t.kind != Punct
    ensures !IsPunct(s, t, ';') && !IsPunct(s, t, '\\')
  {
  }

  lemma NothingFlushed(s: string, i: nat)
    requires i <= |s|
    ensures Flush(s, i, |s|, false) == []
  {
  }

  lemma FlushWithin(s: string, i: nat, j: nat, hasCode: bool)
    requires i <= j <= |s|
    ensures RangesWithin(s, Flush(s, i, j, hasCode))
  {
  }

  lemma WithinAppend(s: string, x: seq<Range>, y: seq<Range>)
    requires RangesWithin(s, x) && RangesWithin(s, y)
    ensures RangesWithin(s, x + y)
  {
  }

  /** Both texts split alike, into `c`, up to the statement the open token is in; that one began at
      `st`, and `code` tells whether it holds code by the end of the token. */
  lemma {:induction false} Walk(
      s: string, a: string, before: seq<Span>, lead: Span, cut: Span, rest: seq<Span>, start: nat, hasCode: bool)
    returns (c: seq<Range>, st: nat, code: bool)
    requires Open(s, a, lead, cut) && Rest(s, lead, rest) && start <= |a|
    requires InOrder(a, before + [cut], start) && InOrder(s, before + ([lead] + rest), start)
    ensures st <= lead.start && RangesWithin(a, c) && (lead.kind != Comment ==> code)
    ensures SplitFrom(a, before + [cut], start, hasCode) == c + Flush(a, st, |a|, code)
    ensures SplitFrom(s, before + ([lead] + rest), start, hasCode) == c + Flush(s, st, |s|, code || rest != [])
    decreases |before|
  {
    hide SplitFrom, Flush, MetaTaken, MetaEnd, InOrder, IsPunct, RangesWithin;
    var x, y := before + [cut], before + ([lead] + rest);
    if before == [] {
      assert x == [cut] && y == [lead] + rest;
      c, st, code := WalkEnd(s, a, lead, cut, rest, start, hasCode);
    } else {
      var t := before[0];
      assert x[0] == y[0] == t && x[1..] == before[1..] + [cut] && y[1..] == before[1..] + ([lead] + rest);
      SplitStep(a, x, start, hasCode);
      SplitStep(s, y, start, hasCode);
      InOrderHead(a, x, start);
      StartsBefore(a, x, start);
      SamePunct(s, a, t, '\\');
      SamePunct(s, a, t, ';');
      if !hasCode && IsPunct(a, t, '\\') {
        c, st, code := WalkMeta(s, a, before, lead, cut, rest, start);
      } else if IsPunct(a, t, ';') {
        var d;
        d, st, code := Walk(s, a, before[1..], lead, cut, rest, t.end, false);
        SameFlush(s, a, start, t.start, hasCode);
        FlushWithin(a, start, t.start, hasCode);
        c := Flush(a, start, t.start, hasCode) + d;
        WithinAppend(a, Flush(a, start, t.start, hasCode), d);
        Grouped(Flush(a, start, t.start, hasCode), d, Flush(a, st, |a|, code));
        Grouped(Flush(a, start, t.start, hasCode), d, Flush(s, st, |s|, code || rest != []));
      } else {
        c, st, code := Walk(s, a, before[1..], lead, cut, rest, start, hasCode || t.kind != Comment);
      }
    }
  }

  lemma Grouped(x: seq<Range>, y: seq<Range>, z: seq<Range>)
    ensures x + (y + z) == x + y + z
  {
  }

  /** Every token of a list starts before the next ones do. */
  lemma StartsBefore(s: string, toks: seq<Span>, from: nat)
    requires InOrder(s, toks, from) && toks != []
    ensures toks[0].start <= toks[|toks| - 1].start && toks[0].end <= |s|
  {
  }

  lemma WalkEnd(s: string, a: string, lead: Span, cut: Span, rest: seq<Span>, start: nat, hasCode: bool)
    returns (c: seq<Range>, st: nat, code: bool)
    requires Open(s, a, lead, cut) && Rest(s, lead, rest) && start <= |a|
    requires InOrder(a, [cut], start) && InOrder(s, [lead] + rest, start)
    ensures st <= lead.start && RangesWithin(a, c) && (lead.kind != Comment ==> code)
    ensures SplitFrom(a, [cut], start, hasCode) == c + Flush(a, st, |a|, code)
    ensures SplitFrom(s, [lead] + rest, start, hasCode) == c + Flush(s, st, |s|, code || rest != [])
  {
    hide SplitFrom, Flush, MetaTaken, MetaEnd, IsPunct;
    var y := [lead] + rest;
    c, st, code := [], start, hasCode || lead.kind != Comment;
    SplitStep(a, [cut], start, hasCode);
    SplitStep(s, y, start, hasCode);
    NotPunct(a, cut);
    NotPunct(s, lead);
    InOrderHead(s, y, start);
    assert [cut][1..] == [] && y[1..] == rest && y[0] == lead;
    SplitEnd(a, start, code);
    SplitEnd(s, start, code || rest != []);
    if rest != [] {
      SplitStep(s, rest, start, code);
      NotPunct(s, rest[0]);
      assert rest[1..] == [];
    }
    assert [] + Flush(a, st, |a|, code) == Flush(a, st, |a|, code);
    assert [] + Flush(s, st, |s|, code || rest != []) == Flush(s, st, |s|, code || rest != []);
  }

  /** The same when a backslash command comes first. */
  lemma {:induction false} WalkMeta(
      s: string, a: string, before: seq<Span>, lead: Span, cut: Span, rest: seq<Span>, start: nat)
    returns (c: seq<Range>, st: nat, code: bool)
    requires Open(s, a, lead, cut) && Rest(s, lead, rest) && start <= |a| && before != []
    requires InOrder(a, before + [cut], start) && InOrder(s, before + ([lead] + rest), start)
    requires IsPunct(a, before[0], '\\')
    ensures st <= lead.start && RangesWithin(a, c) && (lead.kind != Comment ==> code)
    ensures SplitFrom(a, before + [cut], start, false) == c + Flush(a, st, |a|, code)
    ensures SplitFrom(s, before + ([lead] + rest), start, false) == c + Flush(s, st, |s|, code || rest != [])
    decreases |before|, 0
  {
    hide SplitFrom, Flush, MetaTaken, MetaEnd, InOrder, IsPunct, RangesWithin;
    var m, end := MetaSplits(s, a, before, lead, cut, rest, start);
    var t := before[0];
    if m < |before| {
      var d;
      d, st, code := Walk(s, a, before[m + 1..], lead, cut, rest, end, false);
      c := Flush(a, t.start, end, true) + d;
      Grouped(Flush(a, t.start, end, true), d, Flush(a, st, |a|, code));
      Grouped(Flush(a, t.start, end, true), d, Flush(s, st, |s|, code || rest != []));
      FlushWithin(a, t.start, end, true);
      WithinAppend(a, Flush(a, t.start, end, true), d);
    } else {
      c, st, code := [], t.start, true;
      NoRanges(a);
    }
  }

  /** One backslash command: it ends before the open token, and both texts go on alike, or else
      takes it in and is the last statement. */
  lemma MetaSplits(s: string, a: string, before: seq<Span>, lead: Span, cut: Span, rest: seq<Span>, start: nat)
    returns (m: nat, end: nat)
    requires Open(s, a, lead, cut) && Rest(s, lead, rest) && start <= |a| && before != []
    requires InOrder(a, before + [cut], start) && InOrder(s, before + ([lead] + rest), start)
    requires IsPunct(a, before[0], '\\')
    ensures before[0].start <= lead.start
    ensures m < |before| ==>
              && before[0].start <= end <= |a|
              && InOrder(a, before[m + 1..] + [cut], end) && InOrder(s, before[m + 1..] + ([lead] + rest), end)
              && SplitFrom(a, before + [cut], start, false)
                 == Flush(a, before[0].start, end, true) + SplitFrom(a, before[m + 1..] + [cut], end, false)
              && SplitFrom(s, before + ([lead] + rest), start, false)
                 == Flush(a, before[0].start, end, true) + SplitFrom(s, before[m + 1..] + ([lead] + rest), end, false)
    ensures m >= |before| ==>
              && SplitFrom(a, before + [cut], start, false) == [] + Flush(a, before[0].start, |a|, true)
              && SplitFrom(s, before + ([lead] + rest), start, false) == [] + Flush(s, before[0].start, |s|, true)
  {
    hide SplitFrom, Flush, MetaTaken, MetaEnd, InOrder, IsPunct;
    var x, y, t := before + [cut], before + ([lead] + rest), before[0];
    var more := before[1..];
    assert x[0] == y[0] == t && x[1..] == more + [cut] && y[1..] == more + ([lead] + rest);
    StartsBefore(a, x, start);
    InOrderHead(a, x, start);
    InOrderHead(s, y, start);
    SamePunct(s, a, t, '\\');
    SameReach(s, a, more, lead, cut, rest, t.end);
    m := MetaTaken(a, x[1..], t.end);
    end := MetaEnd(a, x[1..], t.end);
    if m <= |more| {
      MetaGoes(a, x, start);
      MetaGoes(s, y, start);
      MetaEndIs(a, x[1..], t.end);
      MetaEndIs(s, y[1..], t.end);
      WithinList(a, x, start, m);
      Slices(before, [cut], m);
      Slices(before, [lead] + rest, m);
      SameFlush(s, a, t.start, end, true);
    } else {
      Through(a, x, cut, start, m);
      Through(s, y, y[|y| - 1], start, m + |rest|);
    }
  }

  lemma Slices(before: seq<Span>, tail: seq<Span>, m: nat)
    requires m < |before|
    ensures (before + tail)[m + 1..] == before[m + 1..] + tail
    ensures m > 0 ==> (before + tail)[1..][m - 1] == before[m]
    ensures (before + tail)[m] == before[m]
  {
  }

  /** A backslash command, and what follows it. */
  lemma MetaGoes(s: string, toks: seq<Span>, start: nat)
    requires start <= |s| && InOrder(s, toks, start) && toks != [] && IsPunct(s, toks[0], '\\')
    ensures InOrder(s, toks[1..], toks[0].end) && toks[0].start <= toks[0].end <= |s|
    ensures var n, end := MetaTaken(s, toks[1..], toks[0].end), MetaEnd(s, toks[1..], toks[0].end);
            && InOrder(s, toks[n + 1..], end) && toks[0].end <= end <= |s|
            && SplitFrom(s, toks, start, false) == Flush(s, toks[0].start, end, true) + SplitFrom(s, toks[n + 1..], end, false)
  {
    hide SplitFrom, Flush, MetaTaken, MetaEnd, InOrder, IsPunct;
    SplitStep(s, toks, start, false);
    InOrderHead(s, toks, start);
  }

  /** Tokens before the last end before it starts. */
  lemma WithinList(s: string, toks: seq<Span>, from: nat, m: nat)
    requires InOrder(s, toks, from) && m + 1 < |toks|
    ensures toks[m].end <= toks[|toks| - 1].start
  {
  }

  /** A backslash command that takes in all the tokens there are is the last statement. */
  lemma Through(s: string, toks: seq<Span>, last: Span, start: nat, m: nat)
    requires start <= |s| && InOrder(s, toks, start) && toks != [] && IsPunct(s, toks[0], '\\')
    requires InOrder(s, toks[1..], toks[0].end) && toks[0].start <= |s|
    requires m == |toks| - 1 == MetaTaken(s, toks[1..], toks[0].end) && m > 0
    requires last == toks[m] && last.end == |s|
    ensures SplitFrom(s, toks, start, false) == [] + Flush(s, toks[0].start, |s|, true)
  {
    hide SplitFrom, Flush, MetaTaken, MetaEnd, InOrder, IsPunct;
    SplitStep(s, toks, start, false);
    MetaEndIs(s, toks[1..], toks[0].end);
    assert toks[m + 1..] == [] && toks[1..][m - 1] == last;
    SplitEnd(s, |s|, false);
    NothingFlushed(s, |s|);
    assert Flush(s, toks[0].start, |s|, true) + [] == [] + Flush(s, toks[0].start, |s|, true);
  }

  lemma NoRanges(s: string)
    ensures RangesWithin(s, [])
  {
  }

  // ---- the token left open ------------------------------------------------------------

  lemma UncutIsClosed(a: string, backtick: bool)
    requires Uncut(Spans(a + ";", 0, backtick), |a|)
    ensures Closed(a, backtick)
  {
    hide Spans, Uncut;
    var x := a + ";";
    assert x[|a|] == ';';
    var before := TokensFrom(x, 0, |a|, backtick);
    SpansStep(x, |a|, backtick);
    StepAtSemicolon(x, |a|, backtick);
    SpansEnd(x, backtick);
  }

  /** In a script that is not closed some token takes the appended semicolon in. */
  lemma OpenToken(a: string, backtick: bool) returns (before: seq<Span>, lead: Span)
    requires !Closed(a, backtick)
    ensures var x := a + ";";
            && lead.start < |a| && lead.end == |x| && lead.kind != Punct && !IsSpace(x[lead.start])
            && Spans(x, 0, backtick) == before + [lead]
            && StepAt(x, lead.start, backtick) == (Some(lead.kind), |x|)
            && Uncut(Spans(x, 0, backtick), lead.start)
            && forall k | 0 <= k < |before| :: before[k].start < before[k].end <= lead.start
  {
    hide Spans, StepAt;
    var x := a + ";";
    var xs := Spans(x, 0, backtick);
    if Uncut(xs, |a|) {
      UncutIsClosed(a, backtick);
    }
    var i :| 0 <= i < |xs| && xs[i].start < |a| < xs[i].end;
    lead := xs[i];
    before := TokenStep(x, i, backtick);
    StepFacts(x, lead.start, backtick);
    SpansEnd(x, backtick);
    assert lead.end == |x|;
    assert [lead] + [] == [lead];
  }

  /** The step that reports a token, and what comes before and after it. */
  lemma TokenStep(s: string, i: nat, backtick: bool) returns (before: seq<Span>)
    requires i < |Spans(s, 0, backtick)|
    ensures var t := Spans(s, 0, backtick)[i];
            && t.start < t.end <= |s| && StepAt(s, t.start, backtick) == (Some(t.kind), t.end)
            && Spans(s, 0, backtick) == before + ([t] + Spans(s, t.end, backtick))
            && Uncut(Spans(s, 0, backtick), t.start)
            && forall k | 0 <= k < |before| :: before[k].start < before[k].end <= t.start
  {
    hide Spans, StepAt, Tiled;
    var xs := Spans(s, 0, backtick);
    TokensTiled(s, 0, backtick);
    TiledOrdered(s, xs, 0);
    before := xs[..i];
    assert xs == before + xs[i..];
    SpansAt(s, 0, before, xs[i..], backtick);
    SpansStep(s, xs[i].start, backtick);
    StepFacts(s, xs[i].start, backtick);
    assert xs[i..] == [xs[i]] + xs[i..][1..];
    forall k | 0 <= k < |before|
      ensures before[k].start < before[k].end <= xs[i].start
    {
      assert before[k] == xs[k];
    }
  }

  lemma StepFacts(s: string, i: nat, backtick: bool)
    requires i < |s|
    ensures var (kind, end) := StepAt(s, i, backtick);
            i < end <= |s| && (kind.None? <==> IsSpace(s[i])) && (kind == Some(Punct) ==> end == i + 1)
  {
    hide ElementAt;
  }

  /** Without the semicolon `a` lexes the same, its last token cut short. */
  lemma CutTokens(a: string, backtick: bool, before: seq<Span>, lead: Span)
    requires var x := a + ";";
             && lead.start < |a| && lead.end == |x| && Spans(x, 0, backtick) == before + [lead]
             && forall k | 0 <= k < |before| :: before[k].start < before[k].end <= lead.start
    ensures Spans(a, 0, backtick) == before + [Span(lead.kind, lead.start, |a|)]
  {
    hide Spans, Clipped;
    var x := a + ";";
    assert x[|a|] == ';' && x[0..|a|] == a;
    WindowSpans(x, 0, |a|, 0, backtick);
    ClippedAppend(x, before, [lead], 0, |a|);
    ClippedSame(x, before, |a|);
    ClippedStep(x, lead, [], 0, |a|);
    ClippedNothing(x, |a|);
    assert [lead] + [] == [lead];
  }

  lemma ClippedNothing(s: string, b: nat)
    requires b <= |s|
    ensures Clipped(s, [], 0, b) == []
  {
  }

  // ---- closing a comment ----------------------------------------------------------------

  /** Text that closes the comment left open, and a number behind it. */
  lemma ClosingText(x: string, p: nat, backtick: bool) returns (b: string)
    requires p + 1 < |x| && x[|x| - 1] == ';' && StepAt(x, p, backtick) == (Some(Comment), |x|)
    ensures b != "" && var s := x + b; s[|s| - 1] == '1' && StepAt(s, p, backtick) == (Some(Comment), |s| - 1)
  {
    hide Index, IndexByte;
    if x[p] == '-' {
      b := "\n1";
      var s := x + b;
      assert s[p] == x[p] && s[p + 1] == x[p + 1] && s[|x|] == '\n' && s[|s| - 1] == '1';
      IndexByteFirst(x, '\n', p);
      IndexByteFirst(s, '\n', p);
      assert forall k | p <= k < |x| :: s[k] == x[k];
      assert IndexByte(s, '\n', p) == |x|;
    } else {
      b := "*/1";
      var s := x + b;
      assert s[p] == x[p] && s[p + 1] == x[p + 1] && s[|x|] == '*' && s[|x| + 1] == '/' && s[|s| - 1] == '1';
      BlockCloses(x, p);
    }
  }

  lemma StarSlash(s: string, k: int)
    ensures OccursAt(s, "*/", k) <==> 0 <= k && k + 2 <= |s| && s[k] == '*' && s[k + 1] == '/'
  {
    if 0 <= k && k + 2 <= |s| {
      assert s[k..k + 2] == [s[k], s[k + 1]];
      assert "*/" == ['*', '/'];
    }
  }

  lemma BlockCloses(x: string, p: nat)
    requires p + 2 <= |x| && x[|x| - 1] == ';'
    requires var j := Index(x, "*/", p + 2); j.Some? ==> j.value + 2 == |x|
    ensures Index(x + "*/1", "*/", p + 2) == Some(|x|)
  {
    hide OccursAt, Index;
    var s := x + "*/1";
    var j, m := Index(x, "*/", p + 2), Index(s, "*/", p + 2);
    IndexFirst(x, "*/", p + 2);
    IndexFirst(s, "*/", p + 2);
    if j.Some? {
      StarSlash(x, j.value);
    }
    StarSlash(s, |x|);
    assert s[|x|] == '*' && s[|x| + 1] == '/' && s[|x| - 1] == ';';
    if m.Some? && m.value < |x| {
      StarSlash(s, m.value);
      StarSlash(x, m.value);
    }
  }

  /** The tokens of a;b when b closes the comment and adds a number. */
  lemma ClosedTokens(x: string, b: string, before: seq<Span>, p: nat, backtick: bool)
    requires p < |x| && x[|x| - 1] == ';' && b != ""
    requires Spans(x, 0, backtick) == before + [Span(Comment, p, |x|)] && Uncut(Spans(x, 0, backtick), p)
    requires StepAt(x, p, backtick) == (Some(Comment), |x|)
    requires var s := x + b; s[|s| - 1] == '1' && StepAt(s, p, backtick) == (Some(Comment), |s| - 1)
    ensures var s := x + b;
            Spans(s, 0, backtick) == before + ([Span(Comment, p, |s| - 1)] + [Span(Number, |s| - 1, |s|)])
  {
    hide Spans, StepAt, Uncut, SafeCut;
    var s := x + b;
    assert s[..|x|] == x && s[|x| - 1] == ';';
    SafeAfterSemicolon(s, |x|);
    var upTo := SamePrefix(s, |x|, 0, p, backtick);
    LastStep(x, p, backtick);
    SameFront(upTo, before, Span(Comment, p, |x|));
    SpansStep(s, p, backtick);
    OneNumber(s, backtick);
  }

  lemma SafeAfterSemicolon(s: string, n: nat)
    requires 0 < n <= |s| && s[n - 1] == ';'
    ensures SafeCut(s, n)
  {
  }

  /** A comment that reaches the end is the last token. */
  lemma LastStep(x: string, p: nat, backtick: bool)
    requires p < |x| && StepAt(x, p, backtick) == (Some(Comment), |x|)
    ensures Spans(x, p, backtick) == [Span(Comment, p, |x|)]
  {
    hide Spans, StepAt;
    SpansStep(x, p, backtick);
    SpansEnd(x, backtick);
  }

  lemma SameFront(x: seq<Span>, y: seq<Span>, t: Span)
    requires x + [t] == y + [t]
    ensures x == y
  {
    assert (x + [t])[..|x|] == x && (y + [t])[..|y|] == y && |x + [t]| == |y + [t]|;
  }

  lemma OneNumber(s: string, backtick: bool)
    requires s != "" && s[|s| - 1] == '1'
    ensures Spans(s, |s| - 1, backtick) == [Span(Number, |s| - 1, |s|)]
  {
    hide Spans;
    SpansStep(s, |s| - 1, backtick);
    SpansEnd(s, backtick);
  }

  // ---- the statements differ ---------------------------------------------------------------

  /** The statement the open token is in reaches to the end, from no later than the token. */
  lemma LastRange(s: string, st: nat, p: nat)
    requires st <= p < |s| && !IsSpace(s[p]) && !IsSpace(s[|s| - 1])
    ensures var r := Trim(s, st, |s|);
            Flush(s, st, |s|, true) == [r] && r.start <= p && r.end == |s|
  {
    assert !IsSpace(s[|s| - 1]) && !IsSpace(s[p]);
  }

  /** `a` alone: a shorter statement from the same place, or none. */
  lemma LastShorter(s: string, a: string, st: nat, p: nat, code: bool)
    requires a <= s && |a| < |s| && st <= p < |a| && !IsSpace(s[p]) && !IsSpace(s[|s| - 1])
    ensures var x, y := Flush(s, st, |s|, true), Flush(a, st, |a|, code);
            && |y| <= 1 && |x| == 1
            && (y != [] ==> y[0].end <= |a| && y[0].start <= y[0].end && x[0].start <= x[0].end
                            && y[0].end - y[0].start < x[0].end - x[0].start)
  {
    LastRange(s, st, p);
    var r, q := Trim(s, st, |s|), Trim(a, st, |a|);
    assert q.start < |a| ==> s[q.start] == a[q.start];
    assert r.start < |a| ==> a[r.start] == s[r.start];
    assert a[p] == s[p];
    assert r.start <= q.start;
  }

  lemma TextsShort(b: string, backtick: bool)
    ensures forall w | w in StatementTexts(b, backtick) :: |w| <= |b|
  {
    hide Statements;
    StatementsWellCut(b, backtick);
    WellCutPairwise(b, Statements(b, backtick), 0);
  }

  lemma TextsOf(s: string, backtick: bool, c: seq<Range>, last: seq<Range>)
    requires Statements(s, backtick) == c + last
    ensures RangesWithin(s, c + last) && StatementTexts(s, backtick) == Texts(s, c + last)
  {
    hide Statements;
    StatementsWellCut(s, backtick);
    WellCutPairwise(s, Statements(s, backtick), 0);
  }

  /** One more statement than `c`, too long to be one of b's or the last of a's. */
  lemma Differ(s: string, a: string, b: string, backtick: bool, c: seq<Range>, st: nat, p: nat, code: bool)
    requires s == a + ";" + b && st <= p < |a| && !IsSpace(s[p]) && !IsSpace(s[|s| - 1])
    requires Statements(s, backtick) == c + Flush(s, st, |s|, true)
    requires Statements(a, backtick) == c + Flush(a, st, |a|, code)
    ensures StatementTexts(s, backtick) != StatementTexts(a, backtick) + StatementTexts(b, backtick)
  {
    hide Statements, StatementTexts, Trim, Flush;
    var x, y := Flush(s, st, |s|, true), Flush(a, st, |a|, code);
    TextsOf(s, backtick, c, x);
    TextsOf(a, backtick, c, y);
    LastShorter(s, a, st, p, code);
    LastRange(s, st, p);
    TextsShort(b, backtick);
    var whole, left, right := StatementTexts(s, backtick), StatementTexts(a, backtick), StatementTexts(b, backtick);
    assert |whole| == |c| + 1 && |whole[|c|]| == x[0].end - x[0].start;
    if right == [] {
      assert left + right == left;
      assert y != [] ==> |left[|c|]| == y[0].end - y[0].start;
    } else {
      var both := left + right;
      assert both[|both| - 1] == right[|right| - 1] && right[|right| - 1] in right;
      assert |both[|both| - 1]| <= |b| < |whole[|c|]|;
    }
  }

  /** A script that is not closed: with some b, a;b splits otherwise than `a` and `b` do. */
  lemma OpenFails(a: string, backtick: bool) returns (b: string)
    requires !Closed(a, backtick)
    ensures StatementTexts(a + ";" + b, backtick) != StatementTexts(a, backtick) + StatementTexts(b, backtick)
  {
    hide Spans, StepAt, Uncut, SplitFrom, Flush, StatementTexts, InOrder;
    var x := a + ";";
    var before, lead := OpenToken(a, backtick);
    var p := lead.start;
    var cut := Span(lead.kind, p, |a|);
    CutTokens(a, backtick, before, lead);
    StatementsAre(a, backtick);
    var lead', rest := lead, [];
    b := "";
    assert x + "" == x && x[|x| - 1] == ';' && x[p] == a[p];
    if lead.kind == Comment {
      b := ClosingText(x, p, backtick);
      ClosedTokens(x, b, before, p, backtick);
      var n := |x + b|;
      lead', rest := Span(Comment, p, n - 1), [Span(Number, n - 1, n)];
    }
    var s := x + b;
    assert s[p] == x[p];
    assert [lead] + [] == [lead];
    StatementsAre(s, backtick);
    var c, st, code := Walk(s, a, before, lead', cut, rest, 0, false);
    assert Statements(s, backtick) == c + Flush(s, st, |s|, true);
    Differ(s, a, b, backtick, c, st, p, code);
  }

  /** Joining with a semicolon keeps the statements of both, whatever is joined on, exactly for
      closed scripts. */
  lemma ClosedExactly(a: string, backtick: bool)
    ensures Closed(a, backtick)
            <==> forall b ::
                   StatementTexts(a + ";" + b, backtick) == StatementTexts(a, backtick) + StatementTexts(b, backtick)
  {
    hide Closed, StatementTexts;
    if Closed(a, backtick) {
      forall b
        ensures StatementTexts(a + ";" + b, backtick) == StatementTexts(a, backtick) + StatementTexts(b, backtick)
      {
        SplitConcat(a, b, backtick);
      }
    } else {
      var b := OpenFails(a, backtick);
    }
  }
}

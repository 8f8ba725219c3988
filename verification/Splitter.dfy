/**
 splitSQL of internal/db/split.go: cutting a script into statements at the
 semicolons that are code, with psql-style meta-commands ending at their line.
 The functions give each statement as a range of the script; the method is the
 token loop that appends the trimmed texts.
 */
module Splitter {
  import opened Bytes
  import opened Lexer
  import opened LexerWindow

  datatype Range = Range(start: nat, end: nat)

  // ---- trimming ---------------------------------------------------------------

  function TrimLeft(s: string, a: nat, b: nat): (k: nat)
    requires a <= b <= |s|
    ensures a <= k <= b && AllSpace(s, a, k) && (k < b ==> !IsSpace(s[k]))
    decreases b - a
  {
    if a < b && IsSpace(s[a]) then TrimLeft(s, a + 1, b) else a
  }

  function TrimRight(s: string, a: nat, b: nat): (k: nat)
    requires a <= b <= |s|
    ensures a <= k <= b && AllSpace(s, k, b) && (a < k ==> !IsSpace(s[k - 1]))
    decreases b - a
  {
    if a < b && IsSpace(s[b - 1]) then TrimRight(s, a, b - 1) else b
  }

  /** What is left of s[a..b] without the whitespace at both ends. */
  function Trim(s: string, a: nat, b: nat): (r: Range)
    requires a <= b <= |s|
    ensures a <= r.start <= r.end <= b
    ensures AllSpace(s, a, r.start) && AllSpace(s, r.end, b)
    ensures r.start < r.end ==> !IsSpace(s[r.start]) && !IsSpace(s[r.end - 1])
  {
    var k := TrimLeft(s, a, b);
    Range(k, TrimRight(s, k, b))
  }

  function TrimSpace(s: string): string {
    var r := Trim(s, 0, |s|);
    s[r.start..r.end]
  }

  /** Trimming is determined by its outcome. */
  lemma TrimUnique(s: string, a: nat, b: nat, r: Range)
    requires a <= r.start < r.end <= b <= |s|
    requires AllSpace(s, a, r.start) && AllSpace(s, r.end, b)
    requires !IsSpace(s[r.start]) && !IsSpace(s[r.end - 1])
    ensures Trim(s, a, b) == r
  {
    var t := Trim(s, a, b);
    assert t.start <= r.start;
    assert r.start <= t.start;
    assert r.end <= t.end;
    assert t.end <= r.end;
  }

  lemma TrimSlice(s: string, a: nat, b: nat)
    requires a <= b <= |s|
    ensures TrimSpace(s[a..b]) == s[Trim(s, a, b).start..Trim(s, a, b).end]
  {
    hide Trim;
    var w, r := s[a..b], Trim(s, a, b);
    assert forall k | 0 <= k < |w| :: w[k] == s[a + k];
    if r.start < r.end {
      TrimUnique(w, 0, |w|, Range(r.start - a, r.end - a));
      SliceOfSlice(s, a, b, r.start - a, r.end - a);
    } else {
      assert AllSpace(w, 0, |w|);
    }
  }

  // ---- the statements of a script ---------------------------------------------

  predicate InOrder(s: string, toks: seq<Span>, from: nat) {
    && (forall i | 0 <= i < |toks| :: from <= toks[i].start < toks[i].end <= |s|)
    && (forall i, j | 0 <= i < j < |toks| :: toks[i].end <= toks[j].start)
  }

  /** Past its first `n` tokens a token list is still in order. */
  lemma InOrderDrop(s: string, toks: seq<Span>, from: nat, n: nat)
    requires InOrder(s, toks, from) && n <= |toks|
    ensures 0 < n ==> from <= toks[n - 1].end <= |s| && InOrder(s, toks[n..], toks[n - 1].end)
    ensures InOrder(s, toks[n..], from)
  {
    assert forall i | 0 <= i < |toks| - n :: toks[n..][i] == toks[n + i];
  }

  predicate IsPunct(s: string, t: Span, c: char) {
    t.kind == Punct && t.start < |s| && s[t.start] == c
  }

  predicate NewlineIn(s: string, a: nat, b: nat)
    requires a <= b <= |s|
  {
    IndexByte(s, '\n', a) < b
  }

  /** How many of `toks` a meta-command read up to `end` takes in as well. */
  function MetaTaken(s: string, toks: seq<Span>, end: nat): (n: nat)
    requires InOrder(s, toks, end)
    ensures n <= |toks|
  {
    InOrderDrop(s, toks, end, if toks == [] then 0 else 1);
    if toks == [] || NewlineIn(s, end, toks[0].start) || IsPunct(s, toks[0], ';') then 0
    else 1 + MetaTaken(s, toks[1..], toks[0].end)
  }

  function MetaEnd(s: string, toks: seq<Span>, end: nat): (e: nat)
    requires InOrder(s, toks, end) && end <= |s|
    ensures end <= e <= |s|
  {
    var n := MetaTaken(s, toks, end);
    if n == 0 then end else toks[n - 1].end
  }

  function Flush(s: string, start: nat, end: nat, hasCode: bool): seq<Range>
    requires start <= end <= |s|
  {
    var r := Trim(s, start, end);
    if hasCode && r.start < r.end then [r] else []
  }

  /** The statements found from tokens `toks`, the current one having begun at `start`. */
  function SplitFrom(s: string, toks: seq<Span>, start: nat, hasCode: bool): seq<Range>
    requires start <= |s| && InOrder(s, toks, start)
    decreases |toks|
  {
    if toks == [] then Flush(s, start, |s|, hasCode)
    else
      var t := toks[0];
      InOrderDrop(s, toks, start, 1);
      if !hasCode && IsPunct(s, t, '\\') then
        var n, end := MetaTaken(s, toks[1..], t.end), MetaEnd(s, toks[1..], t.end);
        InOrderDrop(s, toks[1..], t.end, n);
        assert toks[1..][n..] == toks[n + 1..];
        Flush(s, t.start, end, true) + SplitFrom(s, toks[n + 1..], end, false)
      else if IsPunct(s, t, ';') then
        Flush(s, start, t.start, hasCode) + SplitFrom(s, toks[1..], t.end, false)
      else
        SplitFrom(s, toks[1..], start, hasCode || t.kind != Comment)
  }

  /** One token of the splitting loop. */
  lemma SplitStep(s: string, toks: seq<Span>, start: nat, hasCode: bool)
    requires start <= |s| && InOrder(s, toks, start) && toks != []
    ensures var t := toks[0];
            InOrder(s, toks[1..], t.end) && t.end <= |s| && InOrder(s, toks[1..], start)
    ensures var t := toks[0];
            var n, end := MetaTaken(s, toks[1..], t.end), MetaEnd(s, toks[1..], t.end);
            InOrder(s, toks[n + 1..], end)
    ensures var t := toks[0];
            var n, end := MetaTaken(s, toks[1..], t.end), MetaEnd(s, toks[1..], t.end);
            SplitFrom(s, toks, start, hasCode)
            == if !hasCode && IsPunct(s, t, '\\') then
                 Flush(s, t.start, end, true) + SplitFrom(s, toks[n + 1..], end, false)
               else if IsPunct(s, t, ';') then
                 Flush(s, start, t.start, hasCode) + SplitFrom(s, toks[1..], t.end, false)
               else SplitFrom(s, toks[1..], start, hasCode || t.kind != Comment)
  {
    hide Flush, MetaTaken, MetaEnd;
    InOrderDrop(s, toks, start, 1);
    var n := MetaTaken(s, toks[1..], toks[0].end);
    InOrderDrop(s, toks[1..], toks[0].end, n);
    assert toks[1..][n..] == toks[n + 1..];
    assert InOrder(s, toks[n + 1..], MetaEnd(s, toks[1..], toks[0].end)) by {
      MetaEndIs(s, toks[1..], toks[0].end);
    }
  }

  lemma MetaEndIs(s: string, toks: seq<Span>, end: nat)
    requires InOrder(s, toks, end) && end <= |s|
    ensures var n := MetaTaken(s, toks, end);
            MetaEnd(s, toks, end) == if n == 0 then end else toks[n - 1].end
  {
  }

  lemma SpansInOrder(s: string, i: nat, backtick: bool)
    requires i <= |s|
    ensures InOrder(s, Spans(s, i, backtick), i)
  {
    TokensTiled(s, i, backtick);
    TiledOrdered(s, Spans(s, i, backtick), i);
  }

  /** The ranges of a script's statements. */
  function Statements(s: string, backtick: bool): seq<Range> {
    SpansInOrder(s, 0, backtick);
    SplitFrom(s, Spans(s, 0, backtick), 0, false)
  }

  lemma SplitEnd(s: string, start: nat, hasCode: bool)
    requires start <= |s|
    ensures SplitFrom(s, [], start, hasCode) == Flush(s, start, |s|, hasCode)
  {
  }

  /** Ranges are non-empty, begin and end on non-space, are in order and disjoint,
      and none begins before `from`. */
  predicate WellCut(s: string, rs: seq<Range>, from: nat) {
    if rs == [] then true
    else
      && from <= rs[0].start < rs[0].end <= |s|
      && !IsSpace(s[rs[0].start]) && !IsSpace(s[rs[0].end - 1])
      && WellCut(s, rs[1..], rs[0].end)
  }

  lemma {:induction false} WellCutWeaken(s: string, rs: seq<Range>, from: nat, lower: nat)
    requires WellCut(s, rs, from) && lower <= from
    ensures WellCut(s, rs, lower)
  {
  }

  lemma {:induction false} WellCutPairwise(s: string, rs: seq<Range>, from: nat)
    requires WellCut(s, rs, from)
    ensures forall k | 0 <= k < |rs| :: from <= rs[k].start < rs[k].end <= |s|
    ensures forall j, k | 0 <= j < k < |rs| :: rs[j].end <= rs[k].start
    decreases |rs|
  {
    if rs != [] {
      WellCutPairwise(s, rs[1..], rs[0].end);
      assert forall k | 0 < k < |rs| :: rs[k] == rs[1..][k - 1];
    }
  }

  predicate OnCode(s: string, toks: seq<Span>) {
    forall i | 0 <= i < |toks| :: toks[i].start < |s| && !IsSpace(s[toks[i].start])
  }

  lemma WellCutEmpty(s: string, from: nat)
    ensures WellCut(s, [], from)
  {
  }

  lemma FlushWellCut(s: string, start: nat, end: nat, hasCode: bool, rest: seq<Range>, from: nat)
    requires start <= end <= from && end <= |s| && WellCut(s, rest, from)
    ensures WellCut(s, Flush(s, start, end, hasCode) + rest, start)
  {
    var rs := Flush(s, start, end, hasCode);
    if rs == [] {
      assert rs + rest == rest;
      WellCutWeaken(s, rest, from, start);
    } else {
      assert (rs + rest)[1..] == rest;
      WellCutWeaken(s, rest, from, rs[0].end);
    }
  }

  lemma {:induction false} SplitWellCut(s: string, toks: seq<Span>, start: nat, hasCode: bool)
    requires start <= |s| && InOrder(s, toks, start) && OnCode(s, toks)
    ensures WellCut(s, SplitFrom(s, toks, start, hasCode), start)
    decreases |toks|
  {
    hide MetaTaken, MetaEnd, WellCut, Trim, Flush, SplitFrom;
    if toks == [] {
      WellCutEmpty(s, |s|);
      SplitEnd(s, start, hasCode);
      FlushWellCut(s, start, |s|, hasCode, [], |s|);
      assert Flush(s, start, |s|, hasCode) + [] == Flush(s, start, |s|, hasCode);
    } else {
      var t := toks[0];
      SplitStep(s, toks, start, hasCode);
      if !hasCode && IsPunct(s, t, '\\') {
        var n, end := MetaTaken(s, toks[1..], t.end), MetaEnd(s, toks[1..], t.end);
        SplitWellCut(s, toks[n + 1..], end, false);
        FlushWellCut(s, t.start, end, true, SplitFrom(s, toks[n + 1..], end, false), end);
        WellCutWeaken(s, SplitFrom(s, toks, start, hasCode), t.start, start);
      } else if IsPunct(s, t, ';') {
        SplitWellCut(s, toks[1..], t.end, false);
        FlushWellCut(s, start, t.start, hasCode, SplitFrom(s, toks[1..], t.end, false), t.end);
      } else {
        SplitWellCut(s, toks[1..], start, hasCode || t.kind != Comment);
      }
    }
  }

  /** Statements are trimmed, non-empty, in script order and disjoint. */
  lemma StatementsWellCut(s: string, backtick: bool)
    ensures WellCut(s, Statements(s, backtick), 0)
  {
    TokensTiled(s, 0, backtick);
    TiledOrdered(s, Spans(s, 0, backtick), 0);
    SplitWellCut(s, Spans(s, 0, backtick), 0, false);
  }

  predicate RangesWithin(s: string, rs: seq<Range>) {
    forall k | 0 <= k < |rs| :: rs[k].start <= rs[k].end <= |s|
  }

  function Texts(s: string, rs: seq<Range>): (r: seq<string>)
    requires RangesWithin(s, rs)
  {
    seq(|rs|, k requires 0 <= k < |rs| => s[rs[k].start..rs[k].end])
  }

  /** The statement texts of a script. */
  function StatementTexts(s: string, backtick: bool): seq<string> {
    StatementsWellCut(s, backtick);
    WellCutPairwise(s, Statements(s, backtick), 0);
    Texts(s, Statements(s, backtick))
  }

  // ---- the token loop ---------------------------------------------------------

  predicate OneBytePuncts(toks: seq<Span>) {
    forall k | 0 <= k < |toks| && toks[k].kind == Punct :: toks[k].end == toks[k].start + 1
  }

  lemma {:induction false} PunctIsOneByte(s: string, i: nat, backtick: bool)
    requires i <= |s|
    ensures OneBytePuncts(Spans(s, i, backtick))
    decreases |s| - i
  {
    hide StepAt, Spans;
    if i == |s| {
      SpansEnd(s, backtick);
    } else {
      SpansStep(s, i, backtick);
      PunctIsOneByte(s, StepAt(s, i, backtick).1, backtick);
    }
  }

  /** A token is the punctuation byte `c` exactly when its text says so. */
  lemma PunctText(s: string, spans: seq<Span>, k: nat, c: char)
    requires Within(s, spans) && k < |spans|
    requires spans[k].kind == Punct ==> spans[k].end == spans[k].start + 1
    ensures var t := WithText(s, spans)[k];
            (t.kind == Punct && t.text == [c]) == IsPunct(s, spans[k], c)
  {
  }

  /** The closure `flush`: append the trimmed statement if it holds code. */
  method AppendStatement(out: seq<string>, s: string, start: nat, end: nat, hasCode: bool, ghost rs: seq<Range>)
    returns (out': seq<string>)
    requires start <= end <= |s| && RangesWithin(s, rs) && out == Texts(s, rs)
    ensures RangesWithin(s, rs + Flush(s, start, end, hasCode))
    ensures out' == Texts(s, rs + Flush(s, start, end, hasCode))
  {
    hide Trim;
    var stmt := TrimSpace(s[start..end]);
    TrimSlice(s, start, end);
    if stmt != "" && hasCode {
      out' := out + [stmt];
    } else {
      out' := out;
      assert rs + [] == rs;
    }
  }

  /** The inner loop: the last token a meta-command takes in, and where it ends. */
  method ReadMeta(script: string, toks: seq<Token>, ghost spans: seq<Span>, first: nat)
    returns (ti: nat, end: nat)
    requires Within(script, spans) && toks == WithText(script, spans) && first < |toks|
    requires InOrder(script, spans[first + 1..], spans[first].end)
    requires OneBytePuncts(spans)
    ensures ti == first + MetaTaken(script, spans[first + 1..], spans[first].end)
    ensures end == MetaEnd(script, spans[first + 1..], spans[first].end)
  {
    hide WithText, MetaTaken, InOrder, IsPunct;
    ti := first;
    WithTextAt(script, spans, first);
    end := toks[first].end;
    while ti + 1 < |toks|
      invariant first <= ti < |toks| && end <= |script|
      invariant InOrder(script, spans[ti + 1..], end)
      invariant MetaTaken(script, spans[first + 1..], spans[first].end)
                == ti - first + MetaTaken(script, spans[ti + 1..], end)
      invariant end == spans[ti].end
    {
      var next := toks[ti + 1];
      WithTextAt(script, spans, ti + 1);
      PunctText(script, spans, ti + 1, ';');
      InOrderHead(script, spans[ti + 1..], end);
      MetaTakenStep(script, spans[ti + 1..], end);
      assert spans[ti + 1..][1..] == spans[ti + 2..];
      if NewlineIn(script, end, next.start) {
        break; // a newline between two tokens ends the command
      }
      if next.kind == Punct && next.text == ";" {
        break;
      }
      end := next.end;
      ti := ti + 1;
    }
    MetaTakenStep(script, spans[ti + 1..], end);
    MetaEndIs(script, spans[first + 1..], spans[first].end);
  }

  /** SplitStep at position `ti` of a token list, with the output so far in front. */
  lemma SplitAt(s: string, spans: seq<Span>, ti: nat, start: nat, hasCode: bool, rs: seq<Range>)
    requires ti < |spans| && start <= |s| && InOrder(s, spans[ti..], start)
    ensures var t := spans[ti];
            && start <= t.start < t.end <= |s|
            && InOrder(s, spans[ti + 1..], t.end) && InOrder(s, spans[ti + 1..], start)
            && ti + MetaTaken(s, spans[ti + 1..], t.end) < |spans|
            && InOrder(s, spans[ti + MetaTaken(s, spans[ti + 1..], t.end) + 1..], MetaEnd(s, spans[ti + 1..], t.end))
    ensures var t := spans[ti];
            var n, end := MetaTaken(s, spans[ti + 1..], t.end), MetaEnd(s, spans[ti + 1..], t.end);
            rs + SplitFrom(s, spans[ti..], start, hasCode)
            == if !hasCode && IsPunct(s, t, '\\') then
                 (rs + Flush(s, t.start, end, true)) + SplitFrom(s, spans[ti + n + 1..], end, false)
               else if IsPunct(s, t, ';') then
                 (rs + Flush(s, start, t.start, hasCode)) + SplitFrom(s, spans[ti + 1..], t.end, false)
               else rs + SplitFrom(s, spans[ti + 1..], start, hasCode || t.kind != Comment)
  {
    hide SplitFrom, Flush, MetaTaken, MetaEnd, IsPunct, InOrder;
    var rest := spans[ti..];
    InOrderHead(s, rest, start);
    SplitStep(s, rest, start, hasCode);
    assert rest[1..] == spans[ti + 1..];
    var n := MetaTaken(s, rest[1..], rest[0].end);
    assert rest[n + 1..] == spans[ti + n + 1..];
  }

  method SplitSQL(script: string, backtick: bool) returns (out: seq<string>)
    ensures out == StatementTexts(script, backtick)
  {
    hide Spans, SplitFrom, Flush, MetaTaken, MetaEnd, WithText, IsPunct, Texts, InOrder, Statements, RangesWithin;
    var start: nat, hasCode := 0, false;
    out := [];
    ghost var rs: seq<Range> := [];
    ghost var spans := Spans(script, 0, backtick);
    SpansInOrder(script, 0, backtick);
    PunctIsOneByte(script, 0, backtick);
    var toks := TokenizeSQL(script, backtick);
    StatementsAre(script, backtick);
    TextsNil(script);
    var ti: nat := 0;
    assert spans[0..] == spans;
    while ti < |toks|
      invariant 0 <= ti <= |toks| == |spans| && start <= |script|
      invariant InOrder(script, spans[ti..], start)
      invariant rs + SplitFrom(script, spans[ti..], start, hasCode) == Statements(script, backtick)
      invariant RangesWithin(script, rs) && out == Texts(script, rs)
    {
      var t := toks[ti];
      WithTextAt(script, spans, ti);
      PunctText(script, spans, ti, '\\');
      PunctText(script, spans, ti, ';');
      SplitAt(script, spans, ti, start, hasCode, rs);
      if !hasCode && t.kind == Punct && t.text == "\\" {
        var end: nat;
        ti, end := ReadMeta(script, toks, spans, ti);
        out := AppendStatement(out, script, t.start, end, true, rs);
        rs := rs + Flush(script, t.start, end, true);
        start, hasCode := end, false;
      } else if t.kind == Punct && t.text == ";" {
        out := AppendStatement(out, script, start, t.start, hasCode, rs);
        rs := rs + Flush(script, start, t.start, hasCode);
        start, hasCode := t.end, false;
      } else if t.kind != Comment {
        hasCode := true;
      }
      ti := ti + 1;
    }
    assert spans[ti..] == [];
    SplitEnd(script, start, hasCode);
    out := AppendStatement(out, script, start, |script|, hasCode, rs);
  }

  lemma StatementsAre(s: string, backtick: bool)
    ensures InOrder(s, Spans(s, 0, backtick), 0)
    ensures Statements(s, backtick) == SplitFrom(s, Spans(s, 0, backtick), 0, false)
  {
    SpansInOrder(s, 0, backtick);
  }

  lemma TextsNil(s: string)
    ensures RangesWithin(s, []) && Texts(s, []) == []
  {
  }

  lemma WithTextAt(s: string, spans: seq<Span>, k: nat)
    requires Within(s, spans) && k < |spans|
    ensures var t := WithText(s, spans)[k];
            t.kind == spans[k].kind && t.start == spans[k].start && t.end == spans[k].end
  {
  }

  lemma InOrderHead(s: string, toks: seq<Span>, from: nat)
    requires InOrder(s, toks, from) && toks != []
    ensures from <= toks[0].start < toks[0].end <= |s|
    ensures InOrder(s, toks[1..], toks[0].end) && InOrder(s, toks[1..], from)
  {
    InOrderDrop(s, toks, from, 1);
  }

  lemma MetaTakenStep(s: string, toks: seq<Span>, end: nat)
    requires InOrder(s, toks, end) && end <= |s|
    ensures toks != [] ==> end <= toks[0].start < toks[0].end <= |s| && InOrder(s, toks[1..], toks[0].end)
    ensures MetaTaken(s, toks, end)
            == if toks == [] || NewlineIn(s, end, toks[0].start) || IsPunct(s, toks[0], ';') then 0
               else 1 + MetaTaken(s, toks[1..], toks[0].end)
  {
    if toks != [] {
      InOrderHead(s, toks, end);
    }
  }
}

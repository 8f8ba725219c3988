/**
 strings.TrimSpace takes off more than the lexer calls whitespace: vertical tab,
 form feed and the spaces of Unicode as well. Splitter trims by the lexer's set;
 here the statements are trimmed by the wider one. Statements without those
 extra spaces at their ends come out the same either way; one that has them can
 be cut down to text that splits otherwise, and which texts do is settled here.
 */
module GoTrim {
  import opened Bytes
  import opened Lexer
  import opened LexerWindow
  import opened Splitter
  import opened Resplit
  import opened GoSpace

  /** The statements as the program returns them: trimmed, empty ones dropped. */
  function Trimmed(texts: seq<string>): seq<string> {
    if texts == [] then []
    else Trimmed(texts[..|texts| - 1])
         + if GoTrimSpace(texts[|texts| - 1]) == "" then [] else [GoTrimSpace(texts[|texts| - 1])]
  }

  function GoSplit(script: string, backtick: bool): seq<string> { Trimmed(StatementTexts(script, backtick)) }

  // ---- which statements keep their text -----------------------------------------------------

  lemma {:induction false} TrimmedCount(texts: seq<string>)
    ensures |Trimmed(texts)| <= |texts|
    decreases |texts|
  {
    hide GoTrimSpace;
    if texts != [] {
      TrimmedCount(texts[..|texts| - 1]);
    }
  }

  lemma {:induction false} TrimmedSame(texts: seq<string>)
    requires forall k | 0 <= k < |texts| :: texts[k] != ""
    ensures Trimmed(texts) == texts <==> forall k | 0 <= k < |texts| :: Bare(texts[k])
    decreases |texts|
  {
    hide GoTrimSpace, Bare;
    if texts != [] {
      var n := |texts| - 1;
      var before, last := texts[..n], texts[n];
      assert texts == before + [last];
      TrimmedSame(before);
      TrimmedCount(before);
      TrimIsBare(last);
      if Trimmed(texts) == texts {
        assert Trimmed(texts)[..n] == before && Trimmed(texts)[n] == last;
      }
    }
  }

  lemma TextEnds(script: string, backtick: bool)
    ensures forall k | 0 <= k < |StatementTexts(script, backtick)| :: StatementTexts(script, backtick)[k] != ""
  {
    hide Statements;
    StatementsWellCut(script, backtick);
    WellCutPairwise(script, Statements(script, backtick), 0);
  }

  /** The program's split is Splitter's exactly when every statement of the latter is bare. */
  lemma SameExactly(script: string, backtick: bool)
    ensures GoSplit(script, backtick) == StatementTexts(script, backtick)
            <==> forall w | w in StatementTexts(script, backtick) :: Bare(w)
  {
    hide StatementTexts, Bare;
    TextEnds(script, backtick);
    TrimmedSame(StatementTexts(script, backtick));
  }

  lemma {:induction false} TrimmedHas(texts: seq<string>, t: string)
    ensures t in Trimmed(texts) <==> exists w :: w in texts && GoTrimSpace(w) == t && t != ""
    decreases |texts|
  {
    hide GoTrimSpace;
    if texts != [] {
      TrimmedHas(texts[..|texts| - 1], t);
      assert texts == texts[..|texts| - 1] + [texts[|texts| - 1]];
    }
  }

  /** A bare statement is one of the program's, whatever the others hold, and splits to itself. */
  lemma BareResplits(script: string, backtick: bool, w: string)
    requires w in StatementTexts(script, backtick) && Bare(w)
    ensures w in GoSplit(script, backtick) && GoSplit(w, backtick) == [w]
  {
    hide StatementTexts, GoTrimSpace, Bare;
    TextEnds(script, backtick);
    ResplitIsIdentity(script, backtick);
    TrimIsBare(w);
    TrimmedHas(StatementTexts(script, backtick), w);
    TrimmedSame([w]);
  }

  // ---- which trimmed texts split to themselves ------------------------------------------------

  /** All tokens of the text make one statement: code without a semicolon that does not begin with
      a backslash, or a backslash command that takes everything in. */
  predicate Whole(t: string, backtick: bool) {
    var toks := Spans(t, 0, backtick);
    StatementsAre(t, backtick);
    InOrderDrop(t, toks, 0, if toks == [] then 0 else 1);
    toks != []
    && ((Running(t, toks, false) && CodeAfter(toks, false))
        || (IsPunct(t, toks[0], '\\') && MetaTaken(t, toks[1..], toks[0].end) == |toks| - 1))
  }

  /** Splitting leaves a text whole exactly then. */
  lemma WholeExactly(t: string, backtick: bool)
    requires t != "" && !IsSpace(t[0]) && !IsSpace(t[|t| - 1])
    ensures StatementTexts(t, backtick) == [t] <==> Whole(t, backtick)
  {
    hide Spans, SplitFrom, Tiled, Running, CodeAfter, MetaTaken, MetaEnd, StatementTexts, InOrder;
    var toks := Spans(t, 0, backtick);
    StatementsAre(t, backtick);
    FirstToken(t, backtick);
    InOrderDrop(t, toks, 0, 1);
    OneTextOneRange(t, backtick);
    if IsPunct(t, toks[0], '\\') {
      BackslashFirst(t, toks);
      if MetaTaken(t, toks[1..], toks[0].end) == |toks| - 1 {
        MetaWhole(t, backtick);
      } else {
        MetaNotWhole(t, toks);
      }
    } else {
      if Running(t, toks, false) && CodeAfter(toks, false) {
        SplitRunning(t, toks, 0, false);
        WholeTrim(t);
      }
      if Statements(t, backtick) == [Range(0, |t|)] {
        WholeRuns(t, toks);
      }
    }
  }

  lemma FirstToken(t: string, backtick: bool)
    requires t != "" && !IsSpace(t[0])
    ensures var toks := Spans(t, 0, backtick);
            toks != [] && toks[0].start == 0 && OnCode(t, toks)
  {
    hide Spans;
    var toks := Spans(t, 0, backtick);
    TokensTiled(t, 0, backtick);
    TiledOrdered(t, toks, 0);
    if toks != [] {
      TiledHead(t, toks, 0);
    }
  }

  lemma BackslashFirst(t: string, toks: seq<Span>)
    requires toks != [] && IsPunct(t, toks[0], '\\')
    ensures !Running(t, toks, false)
  {
  }

  /** The only range as long as the text is all of it. */
  lemma OneTextOneRange(t: string, backtick: bool)
    requires t != ""
    ensures StatementTexts(t, backtick) == [t] <==> Statements(t, backtick) == [Range(0, |t|)]
  {
    hide Statements;
    var rs := Statements(t, backtick);
    StatementsWellCut(t, backtick);
    WellCutPairwise(t, rs, 0);
    if StatementTexts(t, backtick) == [t] {
      assert |rs| == 1 && StatementTexts(t, backtick)[0] == t[rs[0].start..rs[0].end];
      assert rs[0] == Range(0, |t|);
    }
    assert t[0..|t|] == t;
  }

  /** What is split off from `from` on is not the range (0, |t|) if that starts or ends elsewhere. */
  lemma NotAll(t: string, front: seq<Range>, toks: seq<Span>, from: nat, hasCode: bool)
    requires from <= |t| && InOrder(t, toks, from) && OnCode(t, toks)
    requires forall r | r in front :: r.end < |t| || r.start > 0
    requires 0 < from
    ensures front + SplitFrom(t, toks, from, hasCode) != [Range(0, |t|)]
  {
    hide SplitFrom;
    var rest := SplitFrom(t, toks, from, hasCode);
    SplitWellCut(t, toks, from, hasCode);
    WellCutPairwise(t, rest, from);
    if front == [] {
      assert front + rest == rest;
    } else {
      assert (front + rest)[0] == front[0] && front[0] in front;
    }
  }

  lemma FlushWithin(t: string, a: nat, b: nat, hasCode: bool)
    requires a <= b <= |t| && (b < |t| || 0 < a)
    ensures forall r | r in Flush(t, a, b, hasCode) :: r.end < |t| || r.start > 0
  {
    hide Trim;
  }

  /** A backslash command that leaves a token is not the whole text. */
  lemma MetaNotWhole(t: string, toks: seq<Span>)
    requires InOrder(t, toks, 0) && OnCode(t, toks) && toks != [] && IsPunct(t, toks[0], '\\')
    requires InOrder(t, toks[1..], toks[0].end) && MetaTaken(t, toks[1..], toks[0].end) < |toks| - 1
    ensures SplitFrom(t, toks, 0, false) != [Range(0, |t|)]
  {
    hide SplitFrom, Flush, MetaTaken, MetaEnd, InOrder;
    SplitStep(t, toks, 0, false);
    var n, end := MetaTaken(t, toks[1..], toks[0].end), MetaEnd(t, toks[1..], toks[0].end);
    MetaEndIs(t, toks[1..], toks[0].end);
    TokenBefore(t, toks, n);
    FlushWithin(t, toks[0].start, end, true);
    NotAll(t, Flush(t, toks[0].start, end, true), toks[n + 1..], end, false);
  }

  lemma TokenBefore(t: string, toks: seq<Span>, n: nat)
    requires InOrder(t, toks, 0) && n + 1 < |toks|
    ensures 0 < toks[n].end < |t| && toks[0].start <= toks[n].end
  {
    assert toks[n].end <= toks[n + 1].start;
    assert n > 0 ==> toks[0].end <= toks[n].start;
  }

  /** Tokens past the front that leave one range from there to the end neither end it nor start a command. */
  lemma {:induction false} RunsOn(t: string, toks: seq<Span>, hasCode: bool)
    requires InOrder(t, toks, 0) && OnCode(t, toks) && (toks != [] ==> toks[0].start > 0)
    requires SplitFrom(t, toks, 0, hasCode) == [Range(0, |t|)]
    ensures Running(t, toks, hasCode) && CodeAfter(toks, hasCode)
    decreases |toks|
  {
    hide SplitFrom, Flush, MetaTaken, MetaEnd, Trim;
    if toks == [] {
      SplitEnd(t, 0, hasCode);
      FlushNothing(t, 0, |t|);
    } else {
      var k := toks[0];
      SplitStep(t, toks, 0, hasCode);
      if !hasCode && IsPunct(t, k, '\\') {
        var n, end := MetaTaken(t, toks[1..], k.end), MetaEnd(t, toks[1..], k.end);
        FlushWithin(t, k.start, end, true);
        NotAll(t, Flush(t, k.start, end, true), toks[n + 1..], end, false);
      } else if IsPunct(t, k, ';') {
        FlushWithin(t, 0, k.start, hasCode);
        NotAll(t, Flush(t, 0, k.start, hasCode), toks[1..], k.end, false);
      } else {
        RunsOn(t, toks[1..], hasCode || k.kind != Comment);
      }
    }
  }

  lemma FlushNothing(t: string, a: nat, b: nat)
    requires a <= b <= |t|
    ensures Flush(t, a, b, false) == []
  {
  }

  lemma WholeRuns(t: string, toks: seq<Span>)
    requires InOrder(t, toks, 0) && OnCode(t, toks) && toks != [] && toks[0].start == 0
    requires !IsPunct(t, toks[0], '\\') && SplitFrom(t, toks, 0, false) == [Range(0, |t|)]
    ensures Running(t, toks, false) && CodeAfter(toks, false)
  {
    hide SplitFrom, Flush, MetaTaken, MetaEnd, Trim;
    var k := toks[0];
    SplitStep(t, toks, 0, false);
    if IsPunct(t, k, ';') {
      FlushNothing(t, 0, 0);
      NotAll(t, [], toks[1..], k.end, false);
    } else {
      RunsOn(t, toks[1..], k.kind != Comment);
    }
  }

  lemma TrimmedOne(texts: seq<string>, t: string)
    requires Trimmed(texts) == [t]
    ensures exists w :: w in texts && GoTrimSpace(w) == t && |w| >= |t|
  {
    hide GoTrimSpace;
    TrimmedHas(texts, t);
    assert t in Trimmed(texts);
    var w :| w in texts && GoTrimSpace(w) == t;
    TrimIsBare(w);
  }

  lemma TextRange(t: string, backtick: bool, w: string) returns (k: nat)
    requires w in StatementTexts(t, backtick)
    ensures k < |Statements(t, backtick)|
    ensures var r := Statements(t, backtick)[k]; r.start <= r.end <= |t| && w == t[r.start..r.end]
  {
    hide Statements, WellCut;
    StatementsWellCut(t, backtick);
    WellCutPairwise(t, Statements(t, backtick), 0);
    k :| 0 <= k < |StatementTexts(t, backtick)| && StatementTexts(t, backtick)[k] == w;
  }

  /** A statement as long as its text is the only one. */
  lemma LongestIsAll(t: string, backtick: bool, w: string)
    requires t != "" && w in StatementTexts(t, backtick) && |w| >= |t|
    ensures StatementTexts(t, backtick) == [t]
  {
    hide Statements, StatementTexts, WellCut;
    var rs := Statements(t, backtick);
    StatementsWellCut(t, backtick);
    WellCutPairwise(t, rs, 0);
    var k := TextRange(t, backtick, w);
    RangeAmong(rs, k);
    assert rs == [Range(0, |t|)];
    OneTextOneRange(t, backtick);
  }

  lemma RangeAmong(rs: seq<Range>, k: nat)
    requires k < |rs| && forall j | 0 <= j < |rs| :: rs[j].start < rs[j].end
    requires forall i, j | 0 <= i < j < |rs| :: rs[i].end <= rs[j].start
    ensures k > 0 ==> rs[k].start > 0
    ensures k + 1 < |rs| ==> rs[k].end < rs[k + 1].end
  {
    assert k > 0 ==> rs[0].end <= rs[k].start;
  }

  /** Which statements of the program split to themselves, in any script: exactly the whole ones. */
  lemma ResplitsExactly(script: string, backtick: bool, t: string)
    requires t in GoSplit(script, backtick)
    ensures GoSplit(t, backtick) == [t] <==> Whole(t, backtick)
  {
    hide StatementTexts, GoTrimSpace, Bare, Whole, Trimmed;
    TrimmedHas(StatementTexts(script, backtick), t);
    var w :| w in StatementTexts(script, backtick) && GoTrimSpace(w) == t;
    TrimIsBare(w);
    BareEnds(t);
    WholeExactly(t, backtick);
    if Whole(t, backtick) {
      TrimmedSame([t]);
    }
    if GoSplit(t, backtick) == [t] {
      TrimmedOne(StatementTexts(t, backtick), t);
      var v :| v in StatementTexts(t, backtick) && GoTrimSpace(v) == t && |v| >= |t|;
      LongestIsAll(t, backtick, v);
    }
  }

  // ---- statements that are not whole ----------------------------------------------------------

  /** A vertical tab is code to the lexer but not to the trim: taking it off uncovers a backslash
      command, which then ends at its line. */
  lemma VerticalTabResplits(backtick: bool)
    ensures var script := "\U{000B}\\\n1"; var stmt := "\\\n1";
            GoSplit(script, backtick) == [stmt] && |GoSplit(stmt, backtick)| == 2
  {
    hide StatementTexts, GoTrimSpace;
    TabIsOne(backtick);
    BareIsTwo(backtick);
    TrimTab();
    var script, stmt := "\U{000B}\\\n1", "\\\n1";
    assert [script][..0] == [] && Trimmed([]) == [];
    assert ["\\", "1"][..1] == ["\\"] && ["\\"][..0] == [];
    assert Trimmed(["\\"]) == ["\\"];
  }

  /** Before a comment it makes a statement; taken off, it leaves one that splits to nothing. */
  lemma VerticalTabVanishes(backtick: bool)
    ensures var script := "\U{000B}--c"; var stmt := "--c";
            GoSplit(script, backtick) == [stmt] && GoSplit(stmt, backtick) == []
  {
    hide StatementTexts, GoTrimSpace;
    var script, stmt := "\U{000B}--c", "--c";
    TabbedComment(backtick);
    BareComment(backtick);
    TrimComment(script, stmt);
    assert [script][..0] == [] && Trimmed([]) == [];
  }

  lemma TrimComment(s: string, t: string)
    requires s == ['\U{000B}'] + t && |t| == 3 && t[0] == '-' && t[2] == 'c'
    ensures GoTrimSpace(s) == t && GoTrimSpace(t) == t
  {
    assert s[0] == '\U{000B}' && s[1..] == t;
    assert FrontSpace(s) == 1 && FrontSpace(t) == 0 && BackSpace(t) == 0;
    assert TrimFront(t) == t;
    assert TrimFront(s) == t;
  }

  /** A line comment up to the end of the text. */
  lemma CommentSpan(s: string, i: nat, backtick: bool)
    requires i + 3 == |s| && s[i] == '-' && s[i + 1] == '-' && s[i + 2] == 'c'
    ensures Spans(s, i, backtick) == [Span(Comment, i, i + 3)]
  {
    hide Spans;
    SpansStep(s, i, backtick);
    IndexByteFirst(s, '\n', i);
    SpansEnd(s, backtick);
  }

  lemma TabbedComment(backtick: bool)
    ensures StatementTexts("\U{000B}--c", backtick) == ["\U{000B}--c"]
  {
    hide Spans, SplitFrom, Flush, StatementTexts;
    var s := "\U{000B}--c";
    assert s[0] == '\U{000B}' && s[1] == '-' && s[2] == '-' && s[3] == 'c';
    CommentSpan(s, 1, backtick);
    SpansStep(s, 0, backtick);
    var toks := Spans(s, 0, backtick);
    assert toks == [Span(Punct, 0, 1), Span(Comment, 1, 4)];
    StatementsAre(s, backtick);
    assert Running(s, toks[1..], true) by { assert toks[1..][1..] == []; }
    assert Running(s, toks, false);
    CodeStays(toks[1..]);
    SplitRunning(s, toks, 0, false);
    WholeTrim(s);
    TextsOne(s, backtick);
  }

  lemma BareComment(backtick: bool)
    ensures StatementTexts("--c", backtick) == []
  {
    hide Spans, SplitFrom, StatementTexts;
    var s := "--c";
    assert s[0] == '-' && s[1] == '-' && s[2] == 'c';
    CommentSpan(s, 0, backtick);
    var toks := Spans(s, 0, backtick);
    StatementsAre(s, backtick);
    assert toks[1..] == [];
    SplitRunning(s, toks, 0, false);
    TextsNone(s, backtick);
  }

  lemma TextsNone(s: string, backtick: bool)
    requires Statements(s, backtick) == []
    ensures StatementTexts(s, backtick) == []
  {
    hide Statements;
  }

  lemma TrimTab()
    ensures GoTrimSpace("\U{000B}\\\n1") == "\\\n1" && GoTrimSpace("\\") == "\\" && GoTrimSpace("1") == "1"
  {
    var s, t := "\U{000B}\\\n1", "\\\n1";
    assert s[0] == '\U{000B}' && s[1..] == t && t[0] == '\\' && t[2] == '1';
    assert FrontSpace(s) == 1 && FrontSpace(t) == 0;
    assert TrimFront(t) == t;
    assert TrimFront(s) == t;
    assert BackSpace(t) == 0;
    assert "\\"[0] == '\\' && "1"[0] == '1';
    assert FrontSpace("\\") == 0 && BackSpace("\\") == 0 && FrontSpace("1") == 0 && BackSpace("1") == 0;
  }

  /** The tokens of a text that ends in a backslash, a newline and the digit 1. */
  lemma TailSpans(s: string, i: nat, backtick: bool)
    requires i + 3 == |s| && s[i] == '\\' && s[i + 1] == '\n' && s[i + 2] == '1'
    ensures Spans(s, i, backtick) == [Span(Punct, i, i + 1), Span(Number, i + 2, i + 3)]
  {
    hide Spans;
    SpansStep(s, i, backtick);
    SpansStep(s, i + 1, backtick);
    SpansStep(s, i + 2, backtick);
    SpansEnd(s, backtick);
  }

  lemma TabIsOne(backtick: bool)
    ensures StatementTexts("\U{000B}\\\n1", backtick) == ["\U{000B}\\\n1"]
  {
    hide Spans, SplitFrom, Flush, StatementTexts;
    var s := "\U{000B}\\\n1";
    assert s[0] == '\U{000B}' && s[1] == '\\' && s[2] == '\n' && s[3] == '1';
    TailSpans(s, 1, backtick);
    SpansStep(s, 0, backtick);
    var toks := Spans(s, 0, backtick);
    assert toks == [Span(Punct, 0, 1), Span(Punct, 1, 2), Span(Number, 3, 4)];
    StatementsAre(s, backtick);
    assert Running(s, toks[2..], true);
    assert Running(s, toks[1..], true) by { assert toks[1..][1..] == toks[2..]; }
    assert Running(s, toks, false);
    CodeStays(toks[1..]);
    SplitRunning(s, toks, 0, false);
    WholeTrim(s);
    TextsOne(s, backtick);
  }

  lemma TextsOne(s: string, backtick: bool)
    requires s != "" && Statements(s, backtick) == [Range(0, |s|)]
    ensures StatementTexts(s, backtick) == [s]
  {
    hide Statements;
    assert s[0..|s|] == s;
  }

  lemma BareIsTwo(backtick: bool)
    ensures StatementTexts("\\\n1", backtick) == ["\\", "1"]
  {
    hide Spans, SplitFrom, Flush, StatementTexts, MetaTaken, MetaEnd, InOrder;
    var s := "\\\n1";
    assert s[0] == '\\' && s[1] == '\n' && s[2] == '1';
    TailSpans(s, 0, backtick);
    var toks := Spans(s, 0, backtick);
    StatementsAre(s, backtick);
    InOrderHead(s, toks, 0);
    SplitStep(s, toks, 0, false);
    MetaTakenStep(s, toks[1..], 1);
    MetaEndIs(s, toks[1..], 1);
    IndexByteFirst(s, '\n', 1);
    assert toks[0 + 1..] == toks[1..];
    var last := toks[1..];
    assert Running(s, last, false) by { assert last[1..] == []; }
    SplitRunning(s, last, 1, false);
    assert CodeAfter(last, false) by { assert last[1..] == []; }
    TwoRanges(s, backtick);
  }

  lemma TwoRanges(s: string, backtick: bool)
    requires s == "\\\n1" && Statements(s, backtick) == Flush(s, 0, 1, true) + Flush(s, 1, 3, true)
    ensures StatementTexts(s, backtick) == ["\\", "1"]
  {
    hide Statements;
    assert s[0] == '\\' && s[1] == '\n' && s[2] == '1';
    TrimUnique(s, 0, 1, Range(0, 1));
    TrimUnique(s, 1, 3, Range(2, 3));
    assert Statements(s, backtick) == [Range(0, 1), Range(2, 3)];
    assert s[0..1] == "\\" && s[2..3] == "1";
  }
}

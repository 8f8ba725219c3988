/**
 When the editor's bounded look-back is enough. What was typed before the point
 it starts from can be anything; it leaves a token open there or it does not,
 and that alone decides: with none open every later window is coloured as a lex
 of the whole buffer would, and with one open some later text is not.
 */
module Lookback {
  import opened Bytes
  import opened Lexer
  import opened LexerWindow
  import opened RedisLexer
  import opened Engines
  import opened Printing
  import opened Highlight
  import Resplit

  /** Text after `a` would still be in one of its tokens. */
  predicate LeavesOpen(engine: Engine, a: string) { !Uncut(TokenSpans(engine, a + " "), |a|) }

  /** The editor shows the lines of buf[from..to), and some byte of them in another colour than a
      lex of the whole buffer gives it. */
  ghost predicate Miscoloured(engine: Engine, buf: string, from: nat, to: nat, keywords: set<string>) {
    && from < to <= |buf| && LineStart(buf, from) && (to == |buf| || LineStart(buf, to))
    && exists p :: from <= p < to
                   && Colour(WindowToks(engine, buf, LookbackStart(buf, from), to), keywords, p)
                      != Colour(WithText(buf, TokenSpans(engine, buf)), keywords, p)
  }

  // ---- what can reach past a line end -------------------------------------------------

  predicate Closer(c: char) { c == '\'' || c == '"' || c == '`' || c == '$' || c == '/' }

  /** The tokens that may hold a newline inside. */
  predicate Literal(kind: Option<TokenKind>, c: char) {
    kind == Some(Str) || kind == Some(Quoted) || (kind == Some(Comment) && c == '/')
  }

  lemma {:induction false} StringCloses(s: string, j: nat)
    ensures var k := StringEnd(s, j); k < |s| ==> 0 < k && s[k - 1] == '\''
    decreases |s| - j
  {
    if j < |s| {
      if s[j] == '\\' || (s[j] == '\'' && j + 1 < |s| && s[j + 1] == '\'') {
        StringCloses(s, j + 2);
      } else if s[j] != '\'' {
        StringCloses(s, j + 1);
      }
    }
  }

  lemma {:induction false} NameCloses(s: string, j: nat)
    requires j <= |s|
    ensures var k := NameEnd(s, j); k < |s| ==> 0 < k && s[k - 1] == '"'
    decreases |s| - j
  {
    if j < |s| {
      if s[j] != '"' {
        NameCloses(s, j + 1);
      } else if j + 1 < |s| && s[j + 1] == '"' {
        NameCloses(s, j + 2);
      }
    }
  }

  lemma IndexLast(s: string, pat: string, from: nat)
    requires from <= |s| && pat != ""
    ensures match Index(s, pat, from) case Some(k) => s[k + |pat| - 1] == pat[|pat| - 1] case None => true
  {
    IndexFirst(s, pat, from);
    if Index(s, pat, from).Some? {
      var k := Index(s, pat, from).value;
      assert s[k..k + |pat|][|pat| - 1] == s[k + |pat| - 1];
    }
  }

  lemma DollarCloses(s: string, i: nat)
    requires i < |s| && DollarOpens(s, i)
    ensures var k := DollarEnd(s, i); k < |s| ==> s[k - 1] == '$'
  {
    hide Index;
    var body := TagEnd(s, i + 1) + 1;
    IndexLast(s, s[i..body], body);
    assert s[i..body][body - i - 1] == s[body - 1];
  }

  /** One that does ends at its closer, or at the end of the text. */
  lemma LiteralEnds(s: string, i: nat, backtick: bool)
    requires i < |s| && Literal(StepAt(s, i, backtick).0, s[i])
    ensures var end := StepAt(s, i, backtick).1; end == |s| || Closer(s[end - 1])
  {
    hide StringEnd, NameEnd, Index, IndexByte, DollarOpens, DollarEnd;
    StringCloses(s, i + 1);
    NameCloses(s, i + 1);
    IndexByteFirst(s, '`', i + 1);
    if s[i] == '/' && i + 1 < |s| {
      IndexLast(s, "*/", i + 2);
    }
    if DollarOpens(s, i) {
      DollarCloses(s, i);
    }
  }

  lemma NumberSolid(s: string, i: nat)
    requires i < |s| && IsWordByte(s[i])
    ensures forall p | i <= p < NumberEndAt(s, WordEnd(s, i + 1)) :: s[p] != '\n'
  {
    hide WordEnd;
    var j := WordEnd(s, i + 1);
    var f := FractionEnd(s, j);
    WordEndRun(s, i + 1);
    if j < |s| {
      WordEndRun(s, j + 1);
    }
    if f < |s| {
      WordEndRun(s, f + 1);
    }
  }

  lemma LineCommentEnds(s: string, i: nat, p: nat, backtick: bool)
    requires i < p <= |s| && s[p - 1] == '\n' && StepAt(s, i, backtick).0 == Some(Comment) && s[i] != '/'
    ensures StepAt(s, i, backtick).1 <= p
  {
    hide Index, StringEnd, NameEnd, DollarOpens, DollarEnd;
    IndexByteFirst(s, '\n', i);
  }

  /** At a line start: what is no literal has ended, and what is has not just ended. */
  lemma StepPast(s: string, i: nat, p: nat, backtick: bool)
    requires i < p < |s| && s[p - 1] == '\n'
    ensures var (kind, end) := StepAt(s, i, backtick);
            if Literal(kind, s[i]) then end != p && (end == |s| || Closer(s[end - 1])) else end <= p
  {
    var (kind, end) := StepAt(s, i, backtick);
    if Literal(kind, s[i]) {
      LiteralEnds(s, i, backtick);
    } else if kind == Some(Word) {
      WordSolid(s, i, backtick);
    } else if kind == Some(Number) {
      NumberStep(s, i, backtick);
      NumberSolid(s, i);
    } else if kind == Some(Comment) {
      LineCommentEnds(s, i, p, backtick);
    } else {
      NoOtherKind(s, i, backtick);
    }
  }

  lemma NumberStep(s: string, i: nat, backtick: bool)
    requires i < |s| && StepAt(s, i, backtick).0 == Some(Number)
    ensures IsWordByte(s[i]) && StepAt(s, i, backtick).1 == NumberEndAt(s, WordEnd(s, i + 1))
  {
    hide ElementAt, NumberEndAt, WordEnd;
  }

  lemma NoOtherKind(s: string, i: nat, backtick: bool)
    requires i < |s|
    ensures var kind := StepAt(s, i, backtick).0;
            kind.None? || kind == Some(Punct) || kind == Some(Str) || kind == Some(Quoted)
            || kind == Some(Comment) || kind == Some(Word) || kind == Some(Number)
  {
    hide ElementAt, NumberEndAt, WordEnd;
  }

  // ---- the same steps up to the line start ---------------------------------------------

  /** A line ends `a`, and something follows. */
  predicate Line(a: string, t: string) { a != "" && a[|a| - 1] == '\n' && t != "" }

  lemma SameStep(a: string, t: string, u: string, i: nat, backtick: bool)
    requires Line(a, t) && Line(a, u) && i < |a|
    ensures var (kind, x) := StepAt(a + t, i, backtick); var (kind', y) := StepAt(a + u, i, backtick);
            kind == kind' && (x <= |a| <==> y <= |a|) && (x <= |a| ==> x == y)
  {
    hide StepAt, Closer;
    var s1, s2 := a + t, a + u;
    assert s1[0..|a|] == a == s2[0..|a|];
    assert s1[i] == a[i] == s2[i];
    StepWindow(s1, 0, |a|, i, backtick);
    StepWindow(s2, 0, |a|, i, backtick);
    StepPast(s1, i, |a|, backtick);
    StepPast(s2, i, |a|, backtick);
  }

  lemma UncutFrom(s: string, p: nat, backtick: bool)
    requires p <= |s|
    ensures Uncut(Spans(s, p, backtick), p)
  {
    hide Spans, Tiled;
    TokensTiled(s, p, backtick);
    TiledOrdered(s, Spans(s, p, backtick), p);
  }

  lemma UncutStep(s: string, i: nat, p: nat, backtick: bool)
    requires i < p <= |s|
    ensures var end := StepAt(s, i, backtick).1;
            Uncut(Spans(s, i, backtick), p) <==> end <= p && Uncut(Spans(s, end, backtick), p)
  {
    hide StepAt, Spans;
    var (kind, end) := StepAt(s, i, backtick);
    SpansStep(s, i, backtick);
    var all, rest := Spans(s, i, backtick), Spans(s, end, backtick);
    if kind.Some? {
      var t := Span(kind.value, i, end);
      assert all[0] == t && forall k | 0 <= k < |rest| :: all[k + 1] == rest[k];
      assert forall k | 1 <= k < |all| :: all[k] == rest[k - 1];
    }
  }

  /** Whether a token is left open does not depend on what follows. */
  lemma {:induction false} SameOpen(a: string, t: string, u: string, i: nat, backtick: bool)
    requires Line(a, t) && Line(a, u) && i <= |a|
    ensures Uncut(Spans(a + t, i, backtick), |a|) <==> Uncut(Spans(a + u, i, backtick), |a|)
    decreases |a| - i
  {
    hide StepAt, Spans, Uncut;
    if i == |a| {
      UncutFrom(a + t, i, backtick);
      UncutFrom(a + u, i, backtick);
    } else {
      SameStep(a, t, u, i, backtick);
      UncutStep(a + t, i, |a|, backtick);
      UncutStep(a + u, i, |a|, backtick);
      var end := StepAt(a + t, i, backtick).1;
      if end <= |a| {
        SameOpen(a, t, u, end, backtick);
      }
    }
  }

  /** The step that reports the token straddling `p`. */
  lemma {:induction false} Straddler(s: string, i: nat, p: nat, backtick: bool) returns (k: nat)
    requires i <= p <= |s| && !Uncut(Spans(s, i, backtick), p)
    ensures k < |Spans(s, i, backtick)|
    ensures var t := Spans(s, i, backtick)[k];
            t.start < p < t.end && StepAt(s, t.start, backtick) == (Some(t.kind), t.end)
    decreases |s| - i
  {
    hide StepAt, Spans, Uncut;
    k := 0;
    if i == p {
      UncutFrom(s, p, backtick);
      assert false;
    } else {
      var (kind, end) := StepAt(s, i, backtick);
      SpansStep(s, i, backtick);
      UncutStep(s, i, p, backtick);
      if end <= p {
        k := Straddler(s, end, p, backtick);
        if kind.Some? {
          assert ([Span(kind.value, i, end)] + Spans(s, end, backtick))[k + 1] == Spans(s, end, backtick)[k];
          k := k + 1;
        }
      }
    }
  }

  // ---- Redis ----------------------------------------------------------------------------

  /** A quoted argument that goes on past `a` goes on from its end, whatever follows. */
  lemma {:induction false} QuotedThrough(a: string, t: string, u: string, j: nat, quote: char)
    requires Line(a, t) && Line(a, u) && j <= |a| && QuotedArgEnd(a + t, j, quote) > |a|
    ensures QuotedArgEnd(a + u, j, quote) == QuotedArgEnd(a + u, |a|, quote)
    decreases |a| - j
  {
    if j < |a| {
      assert (a + t)[j] == a[j] == (a + u)[j];
      if a[j] == '\\' {
        QuotedThrough(a, t, u, j + 2, quote);
      } else {
        QuotedThrough(a, t, u, j + 1, quote);
      }
    }
  }

  /** Only a quoted argument reaches past a line end. */
  lemma RedisPast(s: string, i: nat, first: bool, p: nat)
    requires i < p <= |s| && s[p - 1] == '\n' && RedisStep(s, i, first).1 > p
    ensures var (kind, end, _) := RedisStep(s, i, first);
            IsQuote(s[i]) && end == QuotedArgEnd(s, i + 1, s[i]) && kind != Some(Number)
  {
    hide QuotedArgEnd, BareArgEnd;
    if !IsSpace(s[i]) {
      IndexByteFirst(s, '\n', i + 1);
      assert forall k | i + 1 <= k < BareArgEnd(s, i + 1) :: !IsSpace(s[k]);
    }
  }

  lemma RedisUncutFrom(s: string, p: nat, first: bool)
    requires p <= |s|
    ensures Uncut(RedisSpans(s, p, first), p)
  {
    hide RedisSpans, Tiled;
    RedisTiled(s, p, first);
    TiledOrdered(s, RedisSpans(s, p, first), p);
  }

  lemma RedisUncutStep(s: string, i: nat, p: nat, first: bool)
    requires i < p <= |s|
    ensures var (_, end, first') := RedisStep(s, i, first);
            Uncut(RedisSpans(s, i, first), p) <==> end <= p && Uncut(RedisSpans(s, end, first'), p)
  {
    hide RedisStep, RedisSpans;
    var (kind, end, first') := RedisStep(s, i, first);
    RedisSpansStep(s, i, first);
    var all, rest := RedisSpans(s, i, first), RedisSpans(s, end, first');
    if kind.Some? {
      assert all[0] == Span(kind.value, i, end) && forall k | 0 <= k < |rest| :: all[k + 1] == rest[k];
      assert forall k | 1 <= k < |all| :: all[k] == rest[k - 1];
    }
  }

  lemma RedisSameStep(a: string, t: string, u: string, i: nat, first: bool)
    requires Line(a, t) && Line(a, u) && u[0] == ' ' && i < |a|
    ensures var (_, x, f) := RedisStep(a + t, i, first); var (_, y, g) := RedisStep(a + u, i, first);
            (x > |a| ==> y > |a|) && (y <= |a| ==> x == y && f == g)
  {
    hide QuotedArgEnd, RedisStep;
    var s1, s2 := a + t, a + u;
    assert s1[0..|a|] == a == s2[0..|a|];
    assert s1[i] == a[i] == s2[i];
    RedisStepWindow(s1, 0, |a|, i, first);
    RedisStepWindow(s2, 0, |a|, i, first);
    if RedisStep(s1, i, first).1 > |a| {
      RedisPast(s1, i, first, |a|);
      QuotedThrough(a, t, u, i + 1, a[i]);
      QuotedGoesOn(a, u, a[i]);
      QuotedStep(s2, i, first);
    }
  }

  lemma QuotedGoesOn(a: string, u: string, quote: char)
    requires u != "" && u[0] == ' ' && IsQuote(quote)
    ensures QuotedArgEnd(a + u, |a|, quote) > |a|
  {
    assert (a + u)[|a|] == ' ';
  }

  lemma QuotedStep(s: string, i: nat, first: bool)
    requires i < |s| && IsQuote(s[i])
    ensures RedisStep(s, i, first).1 == QuotedArgEnd(s, i + 1, s[i])
  {
    hide QuotedArgEnd;
  }

  /** A token open before any text is open before one that begins with a space. */
  lemma {:induction false} RedisStaysOpen(a: string, t: string, u: string, i: nat, first: bool)
    requires Line(a, t) && Line(a, u) && u[0] == ' ' && i <= |a|
    requires !Uncut(RedisSpans(a + t, i, first), |a|)
    ensures !Uncut(RedisSpans(a + u, i, first), |a|)
    decreases |a| - i
  {
    hide RedisStep, RedisSpans, Uncut;
    if i == |a| {
      RedisUncutFrom(a + t, i, first);
    } else {
      RedisSameStep(a, t, u, i, first);
      RedisUncutStep(a + t, i, |a|, first);
      RedisUncutStep(a + u, i, |a|, first);
      var (_, end, first') := RedisStep(a + u, i, first);
      if end <= |a| {
        RedisStaysOpen(a, t, u, end, first');
      }
    }
  }

  lemma {:induction false} RedisStraddler(s: string, i: nat, first: bool, p: nat) returns (k: nat, f: bool)
    requires i <= p <= |s| && !Uncut(RedisSpans(s, i, first), p)
    ensures k < |RedisSpans(s, i, first)|
    ensures var t := RedisSpans(s, i, first)[k];
            t.start < p < t.end && RedisStep(s, t.start, f).0 == Some(t.kind) && RedisStep(s, t.start, f).1 == t.end
    decreases |s| - i
  {
    hide RedisStep, RedisSpans, Uncut;
    k, f := 0, first;
    if i == p {
      RedisUncutFrom(s, p, first);
      assert false;
    } else {
      var (kind, end, first') := RedisStep(s, i, first);
      RedisSpansStep(s, i, first);
      RedisUncutStep(s, i, p, first);
      if end <= p {
        k, f := RedisStraddler(s, end, first', p);
        if kind.Some? {
          assert ([Span(kind.value, i, end)] + RedisSpans(s, end, first'))[k + 1] == RedisSpans(s, end, first')[k];
          k := k + 1;
        }
      }
    }
  }

  // ---- closed ------------------------------------------------------------------------------

  /** With no token open at the line start, none is in any text that goes on from there. */
  lemma ClosedStaysClosed(engine: Engine, a: string, t: string)
    requires LineStart(a, |a|) && !LeavesOpen(engine, a)
    ensures Uncut(TokenSpans(engine, a + t), |a|)
  {
    hide Spans, RedisSpans;
    if a != "" {
      if t == "" {
        TokenSpansInOrder(engine, a + t);
      } else if engine == Redis {
        if !Uncut(RedisSpans(a + t, 0, true), |a|) {
          RedisStaysOpen(a, t, " ", 0, true);
        }
      } else {
        SameOpen(a, t, " ", 0, engine == ClickHouse);
      }
    }
  }

  // ---- open --------------------------------------------------------------------------------

  /** A line of spaces that ends in a backslash, and two words on the next. */
  function Later(): (t: string)
    ensures |t| == LOOKBACK + 5 && forall k | 0 <= k < LOOKBACK :: t[k] == ' '
    ensures var n := LOOKBACK; t[n] == '\\' && t[n + 1] == '\n' && t[n + 2] == 'x' && t[n + 3] == ' ' && t[n + 4] == '1'
  {
    Spaces(LOOKBACK) + "\\\nx 1"
  }

  lemma LaterCloses()
    ensures forall k | 0 <= k < |Later()| :: !Closer(Later()[k])
  {
    hide Later;
  }

  lemma {:induction false} QuotedSpaces(s: string, j: nat, n: nat, quote: char)
    requires j <= n <= |s| && IsQuote(quote) && forall k | j <= k < n :: s[k] == ' '
    ensures QuotedArgEnd(s, j, quote) == QuotedArgEnd(s, n, quote)
    decreases n - j
  {
    if j < n {
      QuotedSpaces(s, j + 1, n, quote);
    }
  }

  lemma QuotedRunsOut(a: string, quote: char)
    requires IsQuote(quote)
    ensures QuotedArgEnd(a + Later(), |a|, quote) == |a + Later()|
  {
    hide Later;
    var s, n := a + Later(), |a| + LOOKBACK;
    assert forall k | 0 <= k < |Later()| :: s[|a| + k] == Later()[k];
    assert forall k | |a| <= k < n :: s[k] == Later()[k - |a|];
    QuotedSpaces(s, |a|, n, quote);
    assert s[n] == '\\' && s[n + 2] == 'x' && s[n + 3] == ' ' && s[n + 4] == '1';
    assert QuotedArgEnd(s, n + 4, quote) == QuotedArgEnd(s, n + 5, quote) == |s|;
    assert QuotedArgEnd(s, n + 2, quote) == QuotedArgEnd(s, n + 3, quote) == QuotedArgEnd(s, n + 4, quote);
  }

  /** The token left open takes in everything to the end, and is no number. */
  lemma OpenTakesAll(engine: Engine, a: string) returns (k: nat)
    requires a != "" && LineStart(a, |a|) && LeavesOpen(engine, a)
    ensures var toks := TokenSpans(engine, a + Later());
            k < |toks| && toks[k].start < |a| && toks[k].end == |a + Later()| && toks[k].kind != Number
  {
    hide Spans, RedisSpans, Later, QuotedArgEnd, RedisStep, StepAt, Uncut, Closer;
    var buf := a + Later();
    assert forall j | |a| <= j < |buf| :: buf[j] == Later()[j - |a|];
    assert Later()[0] == ' ' && buf[|a| - 1] == '\n';
    if engine == Redis {
      RedisStaysOpen(a, " ", Later(), 0, true);
      var f: bool;
      k, f := RedisStraddler(buf, 0, true, |a|);
      var t := RedisSpans(buf, 0, true)[k];
      RedisPast(buf, t.start, f, |a|);
      QuotedThrough(a, Later(), Later(), t.start + 1, buf[t.start]);
      QuotedRunsOut(a, buf[t.start]);
    } else {
      var backtick := engine == ClickHouse;
      SameOpen(a, " ", Later(), 0, backtick);
      k := Straddler(buf, 0, |a|, backtick);
      var t := Spans(buf, 0, backtick)[k];
      StepPast(buf, t.start, |a|, backtick);
      LaterCloses();
    }
  }

  lemma {:induction false} RedisSkip(s: string, i: nat, j: nat, first: bool)
    requires i <= j <= |s| && forall k | i <= k < j :: s[k] == ' '
    ensures RedisSpans(s, i, first) == RedisSpans(s, j, first)
    decreases j - i
  {
    hide RedisSpans, ArgEnd;
    if i < j {
      RedisSpansStep(s, i, first);
      RedisSkip(s, i + 1, j, first);
    }
  }

  /** Lexed from the look-back's start, the last byte is a number. */
  lemma LaterSpans(engine: Engine)
    ensures var toks := TokenSpans(engine, Later());
            |toks| == 3 && toks[2] == Span(Number, LOOKBACK + 4, LOOKBACK + 5)
  {
    hide Spans, RedisSpans, Later;
    var s, n := Later(), LOOKBACK;
    if engine == Redis {
      RedisLaterSpans(s, n);
    } else {
      SqlLaterSpans(s, n, engine == ClickHouse);
    }
  }

  lemma SqlLaterSpans(s: string, n: nat, backtick: bool)
    requires |s| == n + 5 && forall k | 0 <= k < n :: s[k] == ' '
    requires s[n] == '\\' && s[n + 1] == '\n' && s[n + 2] == 'x' && s[n + 3] == ' ' && s[n + 4] == '1'
    ensures Spans(s, 0, backtick) == [Span(Punct, n, n + 1), Span(Word, n + 2, n + 3), Span(Number, n + 4, n + 5)]
  {
    hide Spans;
    Resplit.SkipSpace(s, 0, n, backtick);
    SpansStep(s, n, backtick);
    SpansStep(s, n + 1, backtick);
    TwoWords(s, n + 2, backtick);
  }

  lemma TwoWords(s: string, n: nat, backtick: bool)
    requires |s| == n + 3 && s[n] == 'x' && s[n + 1] == ' ' && s[n + 2] == '1'
    ensures Spans(s, n, backtick) == [Span(Word, n, n + 1), Span(Number, n + 2, n + 3)]
  {
    hide Spans;
    SpansStep(s, n, backtick);
    SpansStep(s, n + 1, backtick);
    SpansStep(s, n + 2, backtick);
    SpansEnd(s, backtick);
  }

  lemma RedisLaterSpans(s: string, n: nat)
    requires |s| == n + 5 && forall k | 0 <= k < n :: s[k] == ' '
    requires s[n] == '\\' && s[n + 1] == '\n' && s[n + 2] == 'x' && s[n + 3] == ' ' && s[n + 4] == '1'
    ensures RedisSpans(s, 0, true) == [Span(Command, n, n + 1), Span(Command, n + 2, n + 3), Span(Number, n + 4, n + 5)]
  {
    hide RedisSpans;
    RedisSkip(s, 0, n, true);
    RedisSpansStep(s, n, true);
    RedisSpansStep(s, n + 1, false);
    RedisTwoWords(s, n + 2);
  }

  lemma RedisTwoWords(s: string, n: nat)
    requires |s| == n + 3 && s[n] == 'x' && s[n + 1] == ' ' && s[n + 2] == '1'
    ensures RedisSpans(s, n, true) == [Span(Command, n, n + 1), Span(Number, n + 2, n + 3)]
  {
    hide RedisSpans;
    RedisSpansStep(s, n, true);
    RedisSpansStep(s, n + 1, false);
    RedisSpansStep(s, n + 2, false);
    RedisSpansEnd(s, false);
  }

  lemma {:induction false} LookbackTo(s: string, a: nat, k: nat)
    requires a <= k <= |s| && LineStart(s, a) && forall j | a <= j < k :: s[j] != '\n'
    ensures LastNewlineEnd(s, k) == a
    decreases k
  {
    if k > a {
      LookbackTo(s, a, k - 1);
    }
  }

  /** Where the two colours come from. */
  lemma LastByteColours(engine: Engine, a: string, keywords: set<string>, k: nat)
    requires LineStart(a, |a|) && k < |TokenSpans(engine, a + Later())|
    requires var t := TokenSpans(engine, a + Later())[k]; t.start < |a| && t.end == |a + Later()| && t.kind != Number
    ensures var buf := a + Later(); var p := |buf| - 1;
            && Colour(WindowToks(engine, buf, |a|, |buf|), keywords, p) == NumberLit
            && Colour(WithText(buf, TokenSpans(engine, buf)), keywords, p) != NumberLit
  {
    hide TokenSpans, Colour, Later, WindowToks, WithText, TextOf;
    var buf := a + Later();
    var p, all := |buf| - 1, TokenSpans(engine, buf);
    assert buf[|a|..|buf|] == Later();
    LaterSpans(engine);
    WindowTokAt(engine, buf, |a|, |buf|, 2);
    WindowInOrder(engine, buf, |a|, |buf|);
    ColourAt(WindowToks(engine, buf, |a|, |buf|), keywords, p, 2);
    WithTextToken(buf, all, k);
    TokenSpansInOrder(engine, buf);
    WithTextInOrder(buf, all, 0);
    ColourAt(WithText(buf, all), keywords, p, k);
  }

  lemma WindowInOrder(engine: Engine, buf: string, start: nat, to: nat)
    requires start <= to <= |buf|
    ensures TokensInOrder(WindowToks(engine, buf, start, to))
  {
    hide TokenSpans, WithText;
    var w := buf[start..to];
    TokenSpansInOrder(engine, w);
    WithTextInOrder(w, TokenSpans(engine, w), 0);
    ShiftInOrder(WithText(w, TokenSpans(engine, w)), start);
  }

  lemma OpenMiscolours(engine: Engine, a: string, keywords: set<string>)
    requires LineStart(a, |a|) && LeavesOpen(engine, a)
    ensures var buf := a + Later(); var from := |a| + LOOKBACK + 2;
            LookbackStart(buf, from) == |a| && Miscoloured(engine, buf, from, |buf|, keywords)
  {
    hide TokenSpans, Colour, Later, WindowToks, WithText, LastNewlineEnd, Uncut;
    NothingBefore(engine);
    var buf, from := a + Later(), |a| + LOOKBACK + 2;
    assert forall j | |a| <= j < |buf| :: buf[j] == Later()[j - |a|];
    assert |a| > 0 ==> buf[|a| - 1] == a[|a| - 1];
    LookbackTo(buf, |a|, |a| + 2);
    var k := OpenTakesAll(engine, a);
    LastByteColours(engine, a, keywords, k);
    assert buf[from - 1] == Later()[LOOKBACK + 1];
    assert from <= |buf| - 1 < |buf|;
  }

  lemma NothingBefore(engine: Engine)
    ensures !LeavesOpen(engine, "")
  {
    hide TokenSpans;
  }

  /** When highlighting is right whatever is typed next: a text ending at a line start, all that the
      look-back does not see, is enough for every window after it in every continuation if and only
      if it leaves no token open. */
  lemma OpenExactly(engine: Engine, a: string, keywords: set<string>)
    requires LineStart(a, |a|)
    ensures LeavesOpen(engine, a)
            <==> exists t, from: nat, to: nat :: from <= |a + t| && LookbackStart(a + t, from) == |a|
                                                 && Miscoloured(engine, a + t, from, to, keywords)
  {
    hide TokenSpans, Colour, WindowToks, WithText, LookbackStart, LeavesOpen, Later, Uncut;
    if LeavesOpen(engine, a) {
      OpenMiscolours(engine, a, keywords);
    } else {
      forall t, from: nat, to: nat | from <= |a + t| && LookbackStart(a + t, from) == |a|
        ensures !Miscoloured(engine, a + t, from, to, keywords)
      {
        ClosedColours(engine, a, t, from, to, keywords);
      }
    }
  }

  lemma ClosedColours(engine: Engine, a: string, t: string, from: nat, to: nat, keywords: set<string>)
    requires LineStart(a, |a|) && !LeavesOpen(engine, a) && from <= |a + t| && LookbackStart(a + t, from) == |a|
    ensures !Miscoloured(engine, a + t, from, to, keywords)
  {
    hide TokenSpans, Colour, WindowToks, WithText, LastNewlineEnd, LeavesOpen, Uncut;
    var buf := a + t;
    ClosedStaysClosed(engine, a, t);
    if from < to <= |buf| && (to == |buf| || LineStart(buf, to)) {
      forall p | from <= p < to
        ensures Colour(WindowToks(engine, buf, |a|, to), keywords, p)
                == Colour(WithText(buf, TokenSpans(engine, buf)), keywords, p)
      {
        WindowColours(engine, buf, |a|, to, keywords, p);
      }
    }
  }
}

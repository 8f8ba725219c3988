/**
 internal/ui/highlight.go: the editor lexes only a bounded window of the buffer
 and turns the tokens into coloured runs. The runs tile the window and colour
 every byte as a lex of the whole buffer would, as long as no token straddles
 the point the look-back starts from.
 */
module Highlight {
  import opened Bytes
  import opened Lexer
  import opened LexerWindow
  import Splitter
  import opened RedisLexer
  import opened Engines
  import opened Printing
  import Resplit

  const LOOKBACK: nat := 8192

  datatype SpanKind = Plain | Keyword | StringLit | NumberLit | CommentText

  /** Neighbouring bytes drawn alike. */
  datatype Run = Run(start: nat, end: nat, kind: SpanKind)

  function SpanKindOf(t: Token, keywords: set<string>): SpanKind {
    match t.kind
    case Str => StringLit
    case Number => NumberLit
    case Comment => CommentText
    case Command => Keyword
    case Word => if ToUpper(t.text) in keywords then Keyword else Plain
    case Quoted => Plain
    case Punct => Plain
  }

  // ---- the colour of a byte ----------------------------------------------------

  predicate TokensInOrder(toks: seq<Token>) {
    && (forall i | 0 <= i < |toks| :: toks[i].start < toks[i].end)
    && (forall i, j | 0 <= i < j < |toks| :: toks[i].end <= toks[j].start)
  }

  /** The colour byte `p` gets from a token list: its token's, or plain between tokens. */
  function Colour(toks: seq<Token>, keywords: set<string>, p: nat): SpanKind {
    if toks == [] then Plain
    else if toks[0].start <= p < toks[0].end then SpanKindOf(toks[0], keywords)
    else Colour(toks[1..], keywords, p)
  }

  lemma {:induction false} ColourAt(toks: seq<Token>, keywords: set<string>, p: nat, k: nat)
    requires TokensInOrder(toks) && k < |toks| && toks[k].start <= p < toks[k].end
    ensures Colour(toks, keywords, p) == SpanKindOf(toks[k], keywords)
    decreases k
  {
    hide SpanKindOf;
    if k > 0 {
      assert toks[0].end <= toks[k].start;
      assert toks[1..][k - 1] == toks[k];
      assert forall i | 0 <= i < |toks| - 1 :: toks[1..][i] == toks[i + 1];
      ColourAt(toks[1..], keywords, p, k - 1);
    }
  }

  lemma {:induction false} ColourBetween(toks: seq<Token>, keywords: set<string>, p: nat)
    requires forall k | 0 <= k < |toks| :: !(toks[k].start <= p < toks[k].end)
    ensures Colour(toks, keywords, p) == Plain
    decreases |toks|
  {
    hide SpanKindOf;
    if toks != [] {
      assert forall i | 0 <= i < |toks| - 1 :: toks[1..][i] == toks[i + 1];
      ColourBetween(toks[1..], keywords, p);
    }
  }

  // ---- runs --------------------------------------------------------------------

  /** Runs that cover [from, to) with no gap, no overlap, no empty run, and no two
      neighbours of one kind. */
  predicate Tiles(runs: seq<Run>, from: nat, to: nat) {
    if runs == [] then from == to
    else
      var r := runs[|runs| - 1];
      && from <= r.start < r.end == to
      && (|runs| > 1 ==> runs[|runs| - 2].kind != r.kind)
      && Tiles(runs[..|runs| - 1], from, r.start)
  }

  /** The kind of the run byte `p` falls in. */
  predicate Paints(runs: seq<Run>, p: nat, kind: SpanKind) {
    exists k :: 0 <= k < |runs| && runs[k].start <= p < runs[k].end && runs[k].kind == kind
  }

  /** Every byte of [from, to) is painted with the colour the tokens give it. */
  predicate PaintedBy(runs: seq<Run>, from: nat, to: nat, toks: seq<Token>, keywords: set<string>) {
    forall p | from <= p < to :: Paints(runs, p, Colour(toks, keywords, p))
  }

  /** In a tiling no byte is in two runs, so the kind it is painted with is unique. */
  lemma {:induction false} TilesPaintsOnce(runs: seq<Run>, from: nat, to: nat, p: nat, x: SpanKind, y: SpanKind)
    requires Tiles(runs, from, to) && Paints(runs, p, x) && Paints(runs, p, y)
    ensures x == y && from <= p < to
    decreases |runs|
  {
    var n := |runs| - 1;
    var i :| 0 <= i < |runs| && runs[i].start <= p < runs[i].end && runs[i].kind == x;
    var j :| 0 <= j < |runs| && runs[j].start <= p < runs[j].end && runs[j].kind == y;
    TilesBounds(runs, from, to);
    if i < n && j < n {
      assert runs[..n][i] == runs[i] && runs[..n][j] == runs[j];
      TilesPaintsOnce(runs[..n], from, runs[n].start, p, x, y);
    }
  }

  lemma {:induction false} TilesBounds(runs: seq<Run>, from: nat, to: nat)
    requires Tiles(runs, from, to)
    ensures from <= to
    ensures forall k | 0 <= k < |runs| :: from <= runs[k].start < runs[k].end <= to
    ensures forall k | 0 <= k < |runs| - 1 :: runs[k].end <= runs[|runs| - 1].start
    decreases |runs|
  {
    if runs != [] {
      var n := |runs| - 1;
      TilesBounds(runs[..n], from, runs[n].start);
      assert forall k | 0 <= k < n :: runs[k] == runs[..n][k];
    }
  }

  /** The closure `add`: extend the last run, or start a new one. */
  function Add(out: seq<Run>, start: nat, end: nat, kind: SpanKind): seq<Run> {
    var n := |out| - 1;
    if n >= 0 && out[n].kind == kind && out[n].end == start
    then out[n := out[n].(end := end)]
    else out + [Run(start, end, kind)]
  }

  lemma AddTiles(out: seq<Run>, from: nat, start: nat, end: nat, kind: SpanKind)
    requires Tiles(out, from, start) && from <= start < end
    ensures Tiles(Add(out, start, end, kind), from, end)
    ensures forall p | start <= p < end :: Paints(Add(out, start, end, kind), p, kind)
    ensures forall p: nat, x | Paints(out, p, x) :: Paints(Add(out, start, end, kind), p, x)
  {
    var n, a := |out| - 1, Add(out, start, end, kind);
    if n >= 0 && out[n].kind == kind {
      assert a[..n] == out[..n];
      assert a[n] == out[n].(end := end);
    } else {
      assert a[..n + 1] == out;
      assert a[n + 1] == Run(start, end, kind);
    }
    forall p: nat, x | Paints(out, p, x)
      ensures Paints(a, p, x)
    {
      var k :| 0 <= k < |out| && out[k].start <= p < out[k].end && out[k].kind == x;
      assert a[k].start <= p < a[k].end && a[k].kind == x;
    }
    forall p | start <= p < end
      ensures Paints(a, p, kind)
    {
      var k := |a| - 1;
      assert a[k].start <= p < a[k].end && a[k].kind == kind;
    }
  }

  /** Extending the painted part of a window by one stretch of one colour. */
  lemma AddPaints(out: seq<Run>, from: nat, start: nat, end: nat, kind: SpanKind, toks: seq<Token>, keywords: set<string>)
    requires Tiles(out, from, start) && from <= start < end && PaintedBy(out, from, start, toks, keywords)
    requires forall p | start <= p < end :: Colour(toks, keywords, p) == kind
    ensures Tiles(Add(out, start, end, kind), from, end)
    ensures PaintedBy(Add(out, start, end, kind), from, end, toks, keywords)
  {
    hide Colour, Tiles, Add, Paints;
    AddTiles(out, from, start, end, kind);
  }

  lemma TilesNone(from: nat)
    ensures Tiles([], from, from)
  {
  }

  /** Bytes after the first `k` tokens and before the others are plain. */
  lemma ColoursOutside(toks: seq<Token>, keywords: set<string>, k: nat, at: nat, end: nat)
    requires k <= |toks|
    requires forall i | 0 <= i < k :: toks[i].end <= at
    requires forall i | k <= i < |toks| :: end <= toks[i].start
    ensures forall p | at <= p < end :: Colour(toks, keywords, p) == Plain
  {
    forall p | at <= p < end
      ensures Colour(toks, keywords, p) == Plain
    {
      ColourBetween(toks, keywords, p);
    }
  }

  lemma ColoursIn(toks: seq<Token>, keywords: set<string>, k: nat, start: nat, end: nat)
    requires TokensInOrder(toks) && k < |toks| && toks[k].start <= start && end <= toks[k].end
    ensures forall p | start <= p < end :: Colour(toks, keywords, p) == SpanKindOf(toks[k], keywords)
  {
    hide SpanKindOf;
    forall p | start <= p < end
      ensures Colour(toks, keywords, p) == SpanKindOf(toks[k], keywords)
    {
      ColourAt(toks, keywords, p, k);
    }
  }

  method SpansIn(toks: seq<Token>, from: nat, to0: nat, keywords: set<string>) returns (out: seq<Run>)
    requires TokensInOrder(toks)
    ensures from < to0 ==> Tiles(out, from, to0) && PaintedBy(out, from, to0, toks, keywords)
  {
    hide Colour, Tiles, Add, Paints, SpanKindOf;
    var to := to0;
    if to < from {
      to := from;
    }
    out := [];
    TilesNone(from);
    var at := from;
    ghost var stop := |toks|;
    for k := 0 to |toks|
      invariant from <= at <= to && stop == |toks|
      invariant from < to ==> Tiles(out, from, at) && PaintedBy(out, from, at, toks, keywords)
      invariant at < to ==> forall i | 0 <= i < k :: toks[i].end <= at
      invariant at == from || forall i | k <= i < |toks| :: at <= toks[i].start
    {
      var t := toks[k];
      if t.end <= from {
        continue;
      }
      if t.start >= to {
        stop := k;
        break;
      }
      var start: nat, end: nat := Max(t.start, from), Min(t.end, to);
      if start > at {
        ColoursOutside(toks, keywords, k, at, start);
        if from < to {
          AddPaints(out, from, at, start, Plain, toks, keywords);
        }
        out := Add(out, at, start, Plain);
      }
      ColoursIn(toks, keywords, k, start, end);
      if from < to {
        AddPaints(out, from, start, end, SpanKindOf(t, keywords), toks, keywords);
      }
      out := Add(out, start, end, SpanKindOf(t, keywords));
      at := end;
    }
    if at < to {
      ColoursOutside(toks, keywords, stop, at, to);
      AddPaints(out, from, at, to, Plain, toks, keywords);
      out := Add(out, at, to, Plain);
    }
  }

  // ---- the window ----------------------------------------------------------------

  function LastNewlineEnd(s: string, k: nat): (r: nat)
    requires k <= |s|
    ensures r <= k && LineStart(s, r)
    ensures forall i | r <= i < k :: s[i] != '\n'
    decreases k
  {
    if k == 0 || s[k - 1] == '\n' then k else LastNewlineEnd(s, k - 1)
  }

  /** Where the line that holds `offset` begins. */
  function LineStartBefore(buf: string, offset: int): (r: nat)
    ensures r <= |buf| && LineStart(buf, r)
  {
    LastNewlineEnd(buf, Min(Max(offset, 0), |buf|))
  }

  function LookbackStart(buf: string, from: nat): (r: nat)
    requires from <= |buf|
    ensures r <= from && LineStart(buf, r)
  {
    LineStartBefore(buf, Max(from - LOOKBACK, 0))
  }

  /** The look-back begins at the last line start that is at least 8192 bytes before the window. */
  lemma LooksBack(buf: string, from: nat, p: nat)
    requires from <= |buf|
    ensures var start := LookbackStart(buf, from);
            && (start > 0 ==> start + 8192 <= from)
            && (p + 8192 <= from && LineStart(buf, p) ==> p <= start)
  {
    var start := LookbackStart(buf, from);
    if start < p && p + 8192 <= from {
      assert buf[p - 1] != '\n';
    }
  }

  function Shift(toks: seq<Token>, n: nat): (r: seq<Token>)
    ensures |r| == |toks|
  {
    seq(|toks|, k requires 0 <= k < |toks| => toks[k].(start := toks[k].start + n, end := toks[k].end + n))
  }

  /** The tokens of buf[start..to), at buffer offsets. */
  function WindowToks(engine: Engine, buf: string, start: nat, to: nat): seq<Token>
    requires start <= to <= |buf|
  {
    Shift(WithText(buf[start..to], TokenSpans(engine, buf[start..to])), start)
  }

  method TokenizeWindow(engine: Engine, buf: string, from0: int, to0: int) returns (toks: seq<Token>)
    ensures var from := Min(Max(from0, 0), |buf|);
            var to := Min(Max(to0, from), |buf|);
            toks == WindowToks(engine, buf, LookbackStart(buf, from), to)
  {
    hide TokenSpans, WithText, LastNewlineEnd;
    var from := Min(Max(from0, 0), |buf|);
    var to := Min(Max(to0, from), |buf|);
    var start := LineStartBefore(buf, Max(from - LOOKBACK, 0));
    var raw := Tokenize(engine, buf[start..to]);
    toks := raw;
    for i := 0 to |toks|
      invariant |toks| == |raw|
      invariant forall k | 0 <= k < i :: toks[k] == raw[k].(start := raw[k].start + start, end := raw[k].end + start)
      invariant forall k | i <= k < |toks| :: toks[k] == raw[k]
    {
      toks := toks[i := toks[i].(start := toks[i].start + start, end := toks[i].end + start)];
    }
  }

  /** `c` is the first tokens of `toks`, those that start before `b`, cut at `b`. */
  predicate ClipOf(toks: seq<Span>, c: seq<Span>, a: nat, b: nat) {
    && |c| <= |toks|
    && (forall k | 0 <= k < |c| ::
          a <= toks[k].start < b && toks[k].start < toks[k].end
          && c[k] == Span(toks[k].kind, toks[k].start - a, (Min(toks[k].end, b) - a) as nat))
    && (forall k | |c| <= k < |toks| :: b <= toks[k].start)
  }

  lemma ClipOfCons(toks: seq<Span>, c: seq<Span>, a: nat, b: nat)
    requires toks != [] && c != [] && ClipOf(toks[1..], c[1..], a, b)
    requires a <= toks[0].start < b && toks[0].start < toks[0].end
    requires c[0] == Span(toks[0].kind, toks[0].start - a, (Min(toks[0].end, b) - a) as nat)
    ensures ClipOf(toks, c, a, b)
  {
    assert forall k | 0 < k < |c| :: c[k] == c[1..][k - 1];
    assert forall k | 0 < k < |toks| :: toks[k] == toks[1..][k - 1];
  }

  lemma ReindexClip(all: seq<Span>, m: nat, c: seq<Span>, a: nat, b: nat)
    requires m <= |all| && ClipOf(all[m..], c, a, b)
    ensures m + |c| <= |all|
    ensures forall k | m + |c| <= k < |all| :: b <= all[k].start
    ensures forall j | 0 <= j < |c| ::
              a <= all[m + j].start < b && all[m + j].start < all[m + j].end
              && c[j] == Span(all[m + j].kind, all[m + j].start - a, (Min(all[m + j].end, b) - a) as nat)
  {
    assert forall k | m <= k < |all| :: all[k] == all[m..][k - m];
    assert forall j | 0 <= j < |c| :: all[m + j] == all[m..][j];
  }

  /** Which tokens a clipping keeps: the first ones, cut at `b`, and no others. */
  lemma {:induction false} ClippedIndex(s: string, toks: seq<Span>, a: nat, b: nat, from: nat)
    requires a <= b <= |s| && a <= from <= |s| && Tiled(s, toks, from)
    ensures ClipOf(toks, Clipped(s, toks, a, b), a, b)
    decreases |toks|
  {
    if toks != [] {
      var c, t := Clipped(s, toks, a, b), toks[0];
      if t.start < b {
        ClippedIndex(s, toks[1..], a, b, t.end);
        assert toks == [t] + toks[1..];
        ClippedStep(s, t, toks[1..], a, b);
        assert c[1..] == Clipped(s, toks[1..], a, b);
        ClipOfCons(toks, c, a, b);
      } else {
        ClippedBeyondStart(s, toks, a, b, from);
      }
    }
  }

  lemma ClippedBeyondStart(s: string, toks: seq<Span>, a: nat, b: nat, from: nat)
    requires a <= b <= |s| && from <= |s| && Tiled(s, toks, from) && toks != [] && b <= toks[0].start
    ensures Clipped(s, toks, a, b) == []
    ensures forall k | 0 <= k < |toks| :: b <= toks[k].start
  {
    TiledOrdered(s, toks, from);
    ClippedBeyond(s, toks[1..], a, b, toks[0].end);
    assert forall k | 0 < k < |toks| :: toks[0].end <= toks[k].start;
  }

  /** A word token is one stretch without whitespace. */
  predicate WordsSolid(s: string, toks: seq<Span>) {
    forall k, p | 0 <= k < |toks| && toks[k].kind == Word && toks[k].start <= p < Min(toks[k].end, |s|) :: s[p] != '\n'
  }

  lemma WordSolid(s: string, i: nat, backtick: bool)
    requires i < |s| && StepAt(s, i, backtick).0 == Some(Word)
    ensures forall p | i <= p < StepAt(s, i, backtick).1 :: s[p] != '\n'
  {
    hide ElementAt, WordEnd;
    WordEndRun(s, i + 1);
  }

  lemma {:induction false} SqlWordsSolid(s: string, i: nat, backtick: bool)
    requires i <= |s|
    ensures WordsSolid(s, Spans(s, i, backtick))
    decreases |s| - i
  {
    hide StepAt, Spans;
    if i == |s| {
      SpansEnd(s, backtick);
    } else {
      SpansStep(s, i, backtick);
      SqlWordsSolid(s, StepAt(s, i, backtick).1, backtick);
      if StepAt(s, i, backtick).0 == Some(Word) {
        WordSolid(s, i, backtick);
      }
    }
  }

  lemma {:induction false} RedisWordsSolid(s: string, i: nat, first: bool)
    requires i <= |s|
    ensures WordsSolid(s, RedisSpans(s, i, first))
    decreases |s| - i
  {
    hide RedisSpans;
    if i == |s| {
      RedisSpansEnd(s, first);
    } else {
      var (kind, end, first') := RedisStep(s, i, first);
      RedisSpansStep(s, i, first);
      RedisWordsSolid(s, end, first');
    }
  }

  /** For every engine: the tokens of the buffer tile it, its words hold no newline, and
      lexing the window clips the buffer's tokens. */
  lemma WindowClips(engine: Engine, buf: string, start: nat, to: nat)
    requires start <= to <= |buf| && LineStart(buf, start) && Uncut(TokenSpans(engine, buf), start)
    requires to == |buf| || LineStart(buf, to)
    ensures Tiled(buf, TokenSpans(engine, buf), 0) && WordsSolid(buf, TokenSpans(engine, buf))
    ensures TokenSpans(engine, buf[start..to]) == Clipped(buf, TokenSpans(engine, buf), start, to)
  {
    hide Spans, RedisSpans, Clipped, Tiled, WordsSolid;
    if engine == Redis {
      RedisTiled(buf, 0, true);
      RedisWordsSolid(buf, 0, true);
      RedisWindowed(buf, start, to);
    } else {
      TokensTiled(buf, 0, engine == ClickHouse);
      SqlWordsSolid(buf, 0, engine == ClickHouse);
      Window(buf, start, to, engine == ClickHouse);
    }
  }

  /** Token list `all` splits at `start` into what ends by then and what begins from then on. */
  lemma {:induction false} SplitAt(s: string, all: seq<Span>, from: nat, start: nat) returns (m: nat, f: nat)
    requires from <= |s| && start <= |s| && Tiled(s, all, from) && Uncut(all, start)
    ensures m <= |all|
    ensures forall k | 0 <= k < m :: all[k].end <= start
    ensures forall k | m <= k < |all| :: start <= all[k].start
    ensures start <= f <= |s| && Tiled(s, all[m..], f)
    decreases |all|
  {
    if all == [] {
      m, f := 0, |s|;
    } else if all[0].start >= start {
      m, f := 0, all[0].start;
      TiledOrdered(s, all, from);
      assert all[0..] == all;
    } else {
      assert forall k | 0 <= k < |all| - 1 :: all[1..][k] == all[k + 1];
      m, f := SplitAt(s, all[1..], all[0].end, start);
      m := m + 1;
      assert all[m..] == all[1..][m - 1..];
      assert all[0].end <= start;
    }
  }

  /** Token `j` of the window is token `m + j` of the buffer, cut at the window's end,
      and has its colour. */
  lemma SameToken(buf: string, t: Span, c: Span, start: nat, to: nat, keywords: set<string>)
    requires start <= t.start < to <= |buf| && t.start < t.end <= |buf|
    requires c == Span(t.kind, t.start - start, (Min(t.end, to) - start) as nat)
    requires t.kind == Word ==> t.end <= to
    ensures SpanKindOf(Token(c.kind, c.start + start, c.end + start, TextOf(buf[start..to], c)), keywords)
            == SpanKindOf(Token(t.kind, t.start, t.end, TextOf(buf, t)), keywords)
  {
    hide ToUpper, Unquote;
    if t.kind == Word {
      SliceOfSlice(buf, start, to, c.start, c.end);
    }
  }

  /** Where the window's spans come from. */
  lemma WindowOrigin(engine: Engine, buf: string, start: nat, to: nat) returns (m: nat)
    requires start <= to <= |buf| && LineStart(buf, start) && Uncut(TokenSpans(engine, buf), start)
    requires to == |buf| || LineStart(buf, to)
    ensures var all, c := TokenSpans(engine, buf), TokenSpans(engine, buf[start..to]);
            && m <= |all| && ClipOf(all[m..], c, start, to)
            && (forall k | 0 <= k < m :: all[k].end <= start)
  {
    hide TokenSpans, Tiled, Clipped, ClipOf;
    var all, c := TokenSpans(engine, buf), TokenSpans(engine, buf[start..to]);
    WindowClips(engine, buf, start, to);
    var f: nat;
    m, f := SplitAt(buf, all, 0, start);
    assert all == all[..m] + all[m..];
    ClippedAppend(buf, all[..m], all[m..], start, to);
    ClippedBefore(buf, all[..m], start, to);
    ClippedIndex(buf, all[m..], start, to, f);
    assert c == [] + Clipped(buf, all[m..], start, to);
    assert c == Clipped(buf, all[m..], start, to);
  }

  lemma WithTextInOrder(s: string, spans: seq<Span>, from: nat)
    requires Splitter.InOrder(s, spans, from) && Within(s, spans)
    ensures TokensInOrder(WithText(s, spans))
  {
  }

  lemma ShiftInOrder(toks: seq<Token>, n: nat)
    requires TokensInOrder(toks)
    ensures TokensInOrder(Shift(toks, n))
  {
  }

  lemma TokenSpansInOrder(engine: Engine, s: string)
    ensures Splitter.InOrder(s, TokenSpans(engine, s), 0)
  {
    hide Spans, RedisSpans, Tiled;
    if engine == Redis {
      RedisTiled(s, 0, true);
      TiledOrdered(s, RedisSpans(s, 0, true), 0);
    } else {
      Splitter.SpansInOrder(s, 0, engine == ClickHouse);
    }
  }

  /** A word that the window's end would cut would hold the newline before that end. */
  lemma WordUncut(buf: string, all: seq<Span>, k: nat, to: nat)
    requires WordsSolid(buf, all) && k < |all| && all[k].kind == Word && all[k].start < to <= |buf|
    requires all[k].end <= |buf| && (to == |buf| || LineStart(buf, to))
    ensures all[k].end <= to
  {
    assert all[k].start <= to - 1;
  }

  lemma WindowTokAt(engine: Engine, buf: string, start: nat, to: nat, j: nat)
    requires start <= to <= |buf| && j < |TokenSpans(engine, buf[start..to])|
    ensures var w := buf[start..to];
            var c := TokenSpans(engine, w)[j];
            |WindowToks(engine, buf, start, to)| == |TokenSpans(engine, w)|
            && WindowToks(engine, buf, start, to)[j] == Token(c.kind, c.start + start, c.end + start, TextOf(w, c))
  {
    hide TokenSpans, TextOf;
  }

  lemma WindowToksAre(engine: Engine, buf: string, start: nat, to: nat)
    requires start <= to <= |buf|
    ensures WindowToks(engine, buf, start, to)
            == Shift(WithText(buf[start..to], TokenSpans(engine, buf[start..to])), start)
  {
  }

  lemma WithTextToken(s: string, spans: seq<Span>, k: nat)
    requires Within(s, spans) && k < |spans|
    ensures WithText(s, spans)[k] == Token(spans[k].kind, spans[k].start, spans[k].end, TextOf(s, spans[k]))
  {
    hide TextOf;
  }

  /** Where the window's tokens come from, and that they keep their colours. */
  lemma WindowTokens(engine: Engine, buf: string, start: nat, to: nat, keywords: set<string>) returns (m: nat)
    requires start <= to <= |buf| && LineStart(buf, start) && Uncut(TokenSpans(engine, buf), start)
    requires to == |buf| || LineStart(buf, to)
    ensures var all, win := WithText(buf, TokenSpans(engine, buf)), WindowToks(engine, buf, start, to);
            && TokensInOrder(all) && TokensInOrder(win) && m + |win| <= |all|
            && (forall k | 0 <= k < m :: all[k].end <= start)
            && (forall k | m + |win| <= k < |all| :: to <= all[k].start)
            && (forall j | 0 <= j < |win| ::
                  win[j].start == all[m + j].start && win[j].end == Min(all[m + j].end, to)
                  && SpanKindOf(win[j], keywords) == SpanKindOf(all[m + j], keywords))
  {
    hide TokenSpans, Tiled, ClipOf, SpanKindOf, TextOf, Splitter.InOrder, TokensInOrder, WordsSolid, WithText, WindowToks, Shift;
    var all, w := TokenSpans(engine, buf), buf[start..to];
    var c := TokenSpans(engine, w);
    WindowClips(engine, buf, start, to);
    m := WindowOrigin(engine, buf, start, to);
    ReindexClip(all, m, c, start, to);
    TokenSpansInOrder(engine, buf);
    WithTextInOrder(buf, all, 0);
    TokenSpansInOrder(engine, w);
    WithTextInOrder(w, c, 0);
    ShiftInOrder(WithText(w, c), start);
    var win := WindowToks(engine, buf, start, to);
    WindowToksAre(engine, buf, start, to);
    forall j | 0 <= j < |c|
      ensures win[j].start == all[m + j].start && win[j].end == Min(all[m + j].end, to)
      ensures SpanKindOf(win[j], keywords) == SpanKindOf(WithText(buf, all)[m + j], keywords)
    {
      if all[m + j].kind == Word {
        WordUncut(buf, all, m + j, to);
      }
      WindowTokAt(engine, buf, start, to, j);
      WithTextToken(buf, all, m + j);
      SameToken(buf, all[m + j], c[j], start, to, keywords);
    }
    forall k | 0 <= k < |all|
      ensures WithText(buf, all)[k].start == all[k].start && WithText(buf, all)[k].end == all[k].end
    {
      WithTextToken(buf, all, k);
    }
  }

  /** The window's tokens colour every byte in it as the whole buffer's tokens do. */
  lemma WindowColours(engine: Engine, buf: string, start: nat, to: nat, keywords: set<string>, p: nat)
    requires start <= p < to <= |buf| && LineStart(buf, start) && Uncut(TokenSpans(engine, buf), start)
    requires to == |buf| || LineStart(buf, to)
    ensures Colour(WindowToks(engine, buf, start, to), keywords, p)
            == Colour(WithText(buf, TokenSpans(engine, buf)), keywords, p)
  {
    hide TokenSpans, WithText, WindowToks, Colour, SpanKindOf;
    var m := WindowTokens(engine, buf, start, to, keywords);
    var all, win := WithText(buf, TokenSpans(engine, buf)), WindowToks(engine, buf, start, to);
    if k :| 0 <= k < |all| && all[k].start <= p < all[k].end {
      assert m <= k < m + |win|;
      assert win[k - m].start == all[m + (k - m)].start;
      ColourAt(all, keywords, p, k);
      ColourAt(win, keywords, p, k - m);
    } else {
      forall j | 0 <= j < |win|
        ensures !(win[j].start <= p < win[j].end)
      {
        assert win[j].start == all[m + j].start;
      }
      ColourBetween(all, keywords, p);
      ColourBetween(win, keywords, p);
    }
  }

  /** Lexing and colouring the visible window: the two calls of the editor's view. The runs
      tile the window and paint every byte with the colour a lex of the whole buffer gives it. */
  method HighlightWindow(engine: Engine, buf: string, from: nat, to: nat, keywords: set<string>)
    returns (runs: seq<Run>)
    requires from < to <= |buf| && (to == |buf| || LineStart(buf, to))
    requires Uncut(TokenSpans(engine, buf), LookbackStart(buf, from))
    ensures Tiles(runs, from, to)
    ensures PaintedBy(runs, from, to, WithText(buf, TokenSpans(engine, buf)), keywords)
  {
    hide TokenSpans, WithText, WindowToks, Colour, SpanKindOf, Paints, Tiles;
    var toks := TokenizeWindow(engine, buf, from, to);
    ghost var start := LookbackStart(buf, from);
    ghost var m := WindowTokens(engine, buf, start, to, keywords);
    runs := SpansIn(toks, from, to, keywords);
    forall p | from <= p < to
      ensures Paints(runs, p, Colour(WithText(buf, TokenSpans(engine, buf)), keywords, p))
    {
      WindowColours(engine, buf, start, to, keywords, p);
    }
  }

  // ---- a short literal across the look-back -----------------------------------------

  lemma {:induction false} UnclosedString(s: string, j: nat)
    requires j <= |s| && forall k | j <= k < |s| :: s[k] != '\'' && s[k] != '\\'
    ensures StringEnd(s, j) == |s|
    decreases |s| - j
  {
    if j < |s| {
      UnclosedString(s, j + 1);
    }
  }

  /** A string of three bytes with a newline in it, a line of `n` spaces, and a word on the next. */
  function ShortLiteral(n: nat): (buf: string)
    ensures |buf| == n + 5 && buf[0] == '\'' && buf[1] == '\n' && buf[2] == '\'' && buf[n + 3] == '\n' && buf[n + 4] == 'x'
    ensures forall k | 3 <= k < n + 3 :: buf[k] == ' '
  {
    "'\n'" + Spaces(n) + "\nx"
  }

  lemma WholeColours(n: nat, keywords: set<string>)
    requires ToUpper("x") !in keywords
    ensures Colour(WithText(ShortLiteral(n), TokenSpans(Postgres, ShortLiteral(n))), keywords, n + 4) == Plain
  {
    hide Spans, Colour, ToUpper, ShortLiteral;
    var buf, p := ShortLiteral(n), n + 4;
    WholeSpans(buf, p);
    var all := WithText(buf, TokenSpans(Postgres, buf));
    assert buf[p..p + 1] == "x" && all[1].text == "x" && all[0].end == 3;
    ColourAt(all, keywords, p, 1);
  }

  lemma WholeSpans(buf: string, p: nat)
    requires p >= 3 && |buf| == p + 1 && buf[0] == '\'' && buf[1] == '\n' && buf[2] == '\'' && buf[p] == 'x'
    requires forall k | 3 <= k < p :: IsSpace(buf[k])
    ensures Spans(buf, 0, false) == [Span(Str, 0, 3), Span(Word, p, p + 1)]
  {
    hide Spans;
    assert buf[3] != '\'' && StringEnd(buf, 1) == StringEnd(buf, 2) == 3;
    SpansStep(buf, 0, false);
    Resplit.SkipSpace(buf, 3, p, false);
    SpansStep(buf, p, false);
    SpansEnd(buf, false);
  }

  lemma CutColours(n: nat, keywords: set<string>)
    ensures Colour(WindowToks(Postgres, ShortLiteral(n), 2, n + 5), keywords, n + 4) == StringLit
  {
    hide Spans, Colour, ToUpper, ShortLiteral;
    var buf := ShortLiteral(n);
    var w := buf[2..|buf|];
    assert forall k | 0 <= k < |w| :: w[k] == buf[k + 2];
    UnclosedString(w, 1);
    SpansStep(w, 0, false);
    SpansEnd(w, false);
    assert TokenSpans(Postgres, w) == [Span(Str, 0, |w|)];
    var win := WindowToks(Postgres, buf, 2, |buf|);
    assert win[0].start == 2 && win[0].end == |buf| && win[0].kind == Str && |win| == 1;
    ColourAt(win, keywords, n + 4, 0);
  }

  lemma OneNewline(buf: string, k: nat)
    requires 2 <= k <= |buf| && buf[1] == '\n' && forall i | 2 <= i < k :: buf[i] != '\n'
    ensures LastNewlineEnd(buf, k) == 2
    decreases k
  {
    if k > 2 {
      OneNewline(buf, k - 1);
    }
  }

  /** The source's comment has only a literal longer than the look-back mistaken for code. Three
      bytes are enough, when the look-back starts on the literal's second line: its closing quote
      is then read as an opening one, and the code in the window as a string. */
  lemma ShortLiteralMiscolours(n: nat, keywords: set<string>)
    requires n >= LOOKBACK && ToUpper("x") !in keywords
    ensures var buf, p := ShortLiteral(n), n + 4;
            && LineStart(buf, p) && LookbackStart(buf, p) == 2
            && Colour(WithText(buf, TokenSpans(Postgres, buf)), keywords, p) == Plain
            && Colour(WindowToks(Postgres, buf, LookbackStart(buf, p), |buf|), keywords, p) == StringLit
  {
    hide TokenSpans, Colour, LastNewlineEnd, ToUpper, ShortLiteral, WithText, WindowToks;
    var buf := ShortLiteral(n);
    OneNewline(buf, n + 4 - LOOKBACK);
    WholeColours(n, keywords);
    CutColours(n, keywords);
  }
}

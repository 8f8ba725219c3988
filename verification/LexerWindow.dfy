/**
 The locality of the lexer. Lexing a window s[a..b) yields the tokens of the
 whole string that start in it, each cut at b, provided a is not inside a token
 and b does not split a comment opener or a dollar tag. Statement splitting,
 concatenation of scripts and windowed highlighting all rest on it.
 */
module LexerWindow {
  import opened Bytes
  import opened Lexer

  // ---- the shape of a token list -------------------------------------------

  /** Tokens are non-empty, in order, disjoint, inside [from, |s|), start on code,
      and everything between them is whitespace. */
  predicate Tiled(s: string, toks: seq<Span>, from: nat)
    requires from <= |s|
  {
    if toks == [] then AllSpace(s, from, |s|)
    else
      var t := toks[0];
      && from <= t.start < t.end <= |s|
      && AllSpace(s, from, t.start) && !IsSpace(s[t.start])
      && Tiled(s, toks[1..], t.end)
  }

  lemma {:induction false} TokensTiled(s: string, i: nat, backtick: bool)
    requires i <= |s|
    ensures Tiled(s, Spans(s, i, backtick), i)
    decreases |s| - i
  {
    if i < |s| {
      var (kind, end) := StepAt(s, i, backtick);
      TokensTiled(s, end, backtick);
      var rest := Spans(s, end, backtick);
      if kind.None? {
        assert end == i + 1;
        if rest != [] {
          assert AllSpace(s, i, rest[0].start);
        }
      } else {
        assert Spans(s, i, backtick)[1..] == rest;
      }
    }
  }

  /** The pairwise reading of Tiled: any two tokens are ordered and disjoint. */
  lemma {:induction false} TiledOrdered(s: string, toks: seq<Span>, from: nat)
    requires from <= |s| && Tiled(s, toks, from)
    ensures forall i | 0 <= i < |toks| :: from <= toks[i].start < toks[i].end <= |s| && !IsSpace(s[toks[i].start])
    ensures forall i, j | 0 <= i < j < |toks| :: toks[i].end <= toks[j].start
    decreases |toks|
  {
    if toks != [] {
      TiledOrdered(s, toks[1..], toks[0].end);
      assert forall i | 0 < i < |toks| :: toks[i] == toks[1..][i - 1];
    }
  }

  /** Every byte that is in no token is whitespace: lexing loses nothing. */
  lemma {:induction false} TiledCovers(s: string, toks: seq<Span>, from: nat, p: nat)
    requires from <= p < |s| && Tiled(s, toks, from)
    ensures IsSpace(s[p]) || exists i :: 0 <= i < |toks| && toks[i].start <= p < toks[i].end
    decreases |toks|
  {
    if toks != [] {
      if p >= toks[0].end {
        TiledCovers(s, toks[1..], toks[0].end, p);
        if !IsSpace(s[p]) {
          var i :| 0 <= i < |toks| - 1 && toks[1..][i].start <= p < toks[1..][i].end;
          assert toks[i + 1] == toks[1..][i];
        }
      } else if p >= toks[0].start {
        assert toks[0].start <= p < toks[0].end;
      }
    }
  }

  /** No token of the list has position `p` strictly inside. */
  predicate Uncut(toks: seq<Span>, p: nat) {
    forall i | 0 <= i < |toks| :: !(toks[i].start < p < toks[i].end)
  }

  // ---- elements in a window -------------------------------------------------

  /** The bytes comment openers and dollar tags are made of. */
  predicate OpenerByte(c: char) {
    c == '-' || c == '/' || c == '*' || c == '$' || IsTagByte(c)
  }

  /** Cutting at `b` cannot split an opener: one of the bytes it parts is not an opener byte. */
  predicate SafeCut(s: string, b: nat)
    requires b <= |s|
  {
    b == 0 || b == |s| || !OpenerByte(s[b - 1]) || !OpenerByte(s[b])
  }

  lemma {:induction false} StringEndWindow(s: string, a: nat, b: nat, j: nat)
    requires a <= b <= |s| && a <= j
    ensures StringEnd(s[a..b], j - a) == Min(StringEnd(s, j), b) - a
    decreases |s| - j
  {
    if j < b {
      var w := s[a..b];
      assert w[j - a] == s[j];
      assert j + 1 < b ==> w[j + 1 - a] == s[j + 1];
      if s[j] == '\\' || (s[j] == '\'' && j + 1 < |s| && s[j + 1] == '\'') {
        StringEndWindow(s, a, b, j + 2);
      } else if s[j] != '\'' {
        StringEndWindow(s, a, b, j + 1);
      }
    }
  }

  lemma {:induction false} NameEndWindow(s: string, a: nat, b: nat, j: nat)
    requires a <= j <= b <= |s|
    ensures NameEnd(s[a..b], j - a) == Min(NameEnd(s, j), b) - a
    decreases |s| - j
  {
    if j < b {
      var w := s[a..b];
      assert w[j - a] == s[j];
      assert j + 1 < b ==> w[j + 1 - a] == s[j + 1];
      if s[j] != '"' {
        NameEndWindow(s, a, b, j + 1);
      } else if j + 1 < b && s[j + 1] == '"' {
        NameEndWindow(s, a, b, j + 2);
      }
    }
  }

  lemma DollarOpensWindow(s: string, a: nat, b: nat, i: nat)
    requires a <= i < b <= |s|
    requires SafeCut(s, b) || !DollarOpens(s, i) || TagEnd(s, i + 1) < b
    ensures DollarOpens(s[a..b], i - a) == DollarOpens(s, i)
    ensures DollarOpens(s, i) ==> TagEnd(s, i + 1) < b && TagEnd(s[a..b], i + 1 - a) == TagEnd(s, i + 1) - a
  {
    var j := TagEnd(s, i + 1);
    TagEndRun(s, i + 1);
    TagEndWindow(s, a, b, i + 1);
    assert s[a..b][i - a] == s[i];
    if j < b {
      assert s[a..b][j - a] == s[j];
    }
  }

  lemma DollarCloseWindow(s: string, a: nat, b: nat, i: nat, body: nat)
    requires a <= i < body <= b <= |s|
    ensures DollarClose(s[a..b], i - a, body - a) == Min(DollarClose(s, i, body), b) - a
  {
    SliceOfSlice(s, a, b, i - a, body - a);
    IndexWindow(s, a, b, s[i..body], body);
  }

  lemma DollarEndWindow(s: string, a: nat, b: nat, i: nat)
    requires a <= i < b <= |s| && DollarOpens(s, i)
    requires SafeCut(s, b) || DollarEnd(s, i) <= b
    ensures DollarOpens(s[a..b], i - a) && DollarEnd(s[a..b], i - a) == Min(DollarEnd(s, i), b) - a
  {
    DollarOpensWindow(s, a, b, i);
    DollarCloseWindow(s, a, b, i, TagEnd(s, i + 1) + 1);
  }

  lemma CommentWindow(s: string, a: nat, b: nat, i: nat, backtick: bool)
    requires a <= i < b <= |s| && (s[i] == '-' || s[i] == '/')
    requires SafeCut(s, b) || ElementAt(s, i, backtick).0 <= b
    ensures var (end, kind) := ElementAt(s, i, backtick);
            ElementAt(s[a..b], i - a, backtick) == ((Min(end, b) - a) as nat, kind)
  {
    hide Index, IndexByte;
    var w := s[a..b];
    assert w[i - a] == s[i];
    assert i + 1 < b ==> w[i + 1 - a] == s[i + 1];
    if s[i] == '-' {
      IndexByteFirst(s, '\n', i);
      IndexByteWindow(s, a, b, '\n', i);
    } else if i + 1 < b && s[i + 1] == '*' {
      IndexWindow(s, a, b, "*/", i + 2);
    }
  }

  lemma QuoteWindow(s: string, a: nat, b: nat, i: nat, backtick: bool)
    requires a <= i < b <= |s| && (s[i] == '\'' || s[i] == '"' || s[i] == '`')
    ensures var (end, kind) := ElementAt(s, i, backtick);
            ElementAt(s[a..b], i - a, backtick) == ((Min(end, b) - a) as nat, kind)
  {
    hide StringEnd, NameEnd, IndexByte;
    assert s[a..b][i - a] == s[i];
    StringEndWindow(s, a, b, i + 1);
    NameEndWindow(s, a, b, i + 1);
    IndexByteWindow(s, a, b, '`', i + 1);
  }

  lemma DollarWindow(s: string, a: nat, b: nat, i: nat, backtick: bool)
    requires a <= i < b <= |s| && s[i] == '$'
    requires SafeCut(s, b) || ElementAt(s, i, backtick).0 <= b
    ensures var (end, kind) := ElementAt(s, i, backtick);
            ElementAt(s[a..b], i - a, backtick) == ((Min(end, b) - a) as nat, kind)
  {
    hide SafeCut, TagEnd;
    assert s[a..b][i - a] == s[i];
    assert DollarOpens(s, i) ==> ElementAt(s, i, backtick) == (DollarEnd(s, i), LexString);
    DollarOpensWindow(s, a, b, i);
    if DollarOpens(s, i) {
      DollarEndWindow(s, a, b, i);
    }
  }

  lemma ElementWindow(s: string, a: nat, b: nat, i: nat, backtick: bool)
    requires a <= i < b <= |s|
    requires SafeCut(s, b) || ElementAt(s, i, backtick).0 <= b
    ensures var (end, kind) := ElementAt(s, i, backtick);
            ElementAt(s[a..b], i - a, backtick) == ((Min(end, b) - a) as nat, kind)
  {
    assert s[a..b][i - a] == s[i];
    if s[i] == '-' || s[i] == '/' {
      CommentWindow(s, a, b, i, backtick);
    } else if s[i] == '\'' || s[i] == '"' || s[i] == '`' {
      QuoteWindow(s, a, b, i, backtick);
    } else if s[i] == '$' {
      DollarWindow(s, a, b, i, backtick);
    }
  }

  lemma FractionEndWindow(s: string, a: nat, b: nat, j: nat)
    requires a <= j <= b <= |s|
    ensures FractionEnd(s[a..b], j - a) == Min(FractionEnd(s, j), b) - a
  {
    if j < b {
      assert s[a..b][j - a] == s[j];
      WordEndWindow(s, a, b, j + 1);
    }
  }

  lemma ExponentEndWindow(s: string, a: nat, b: nat, j: nat)
    requires a < j <= b <= |s|
    ensures ExponentEnd(s[a..b], j - a) == Min(ExponentEnd(s, j), b) - a
  {
    assert s[a..b][j - 1 - a] == s[j - 1];
    if j < b {
      assert s[a..b][j - a] == s[j];
      WordEndWindow(s, a, b, j + 1);
    }
  }

  lemma NumberEndWindow(s: string, a: nat, b: nat, j: nat)
    requires a < j <= b <= |s|
    ensures NumberEndAt(s[a..b], j - a) == Min(NumberEndAt(s, j), b) - a
  {
    FractionEndWindow(s, a, b, j);
    var f := FractionEnd(s, j);
    if f <= b {
      ExponentEndWindow(s, a, b, f);
    }
  }

  lemma StepWindow(s: string, a: nat, b: nat, i: nat, backtick: bool)
    requires a <= i < b <= |s|
    requires SafeCut(s, b) || StepAt(s, i, backtick).1 <= b
    ensures var (kind, end) := StepAt(s, i, backtick);
            StepAt(s[a..b], i - a, backtick) == (kind, (Min(end, b) - a) as nat)
  {
    hide ElementAt, NumberEndAt, WordEnd;
    ElementWindow(s, a, b, i, backtick);
    assert s[a..b][i - a] == s[i];
    WordEndWindow(s, a, b, i + 1);
    if IsDigit(s[i]) {
      var j := WordEnd(s, i + 1);
      if j <= b {
        NumberEndWindow(s, a, b, j);
      }
    }
  }

  // ---- tokens in a window ---------------------------------------------------

  /** The tokens that start in [a, b), cut at b and measured from a. */
  function Clipped(s: string, toks: seq<Span>, a: nat, b: nat): seq<Span>
    requires a <= b <= |s|
  {
    if toks == [] then []
    else
      var t := toks[0];
      if a <= t.start < Min(t.end, b) then
        [Span(t.kind, t.start - a, Min(t.end, b) - a)] + Clipped(s, toks[1..], a, b)
      else Clipped(s, toks[1..], a, b)
  }

  lemma {:induction false} ClippedBeyond(s: string, toks: seq<Span>, a: nat, b: nat, from: nat)
    requires a <= b <= from <= |s| && Tiled(s, toks, from)
    ensures Clipped(s, toks, a, b) == []
    decreases |toks|
  {
    if toks != [] {
      ClippedBeyond(s, toks[1..], a, b, toks[0].end);
    }
  }

  lemma ClippedStep(s: string, t: Span, rest: seq<Span>, a: nat, b: nat)
    requires a <= t.start < b <= |s| && t.start < t.end
    ensures Clipped(s, [t] + rest, a, b)
            == [Span(t.kind, t.start - a, (Min(t.end, b) - a) as nat)] + Clipped(s, rest, a, b)
  {
    assert ([t] + rest)[1..] == rest;
  }

  lemma UncutTail(t: Span, rest: seq<Span>, p: nat)
    requires Uncut([t] + rest, p)
    ensures Uncut(rest, p) && !(t.start < p < t.end)
  {
    assert ([t] + rest)[0] == t;
    assert forall k | 0 <= k < |rest| :: rest[k] == ([t] + rest)[k + 1];
  }

  /** One step of the full lexer, seen through the window. */
  lemma StepClips(s: string, a: nat, b: nat, i: nat, backtick: bool)
    requires a <= i < b <= |s|
    requires SafeCut(s, b) || Uncut(Spans(s, i, backtick), b)
    ensures var (kind, end) := StepAt(s, i, backtick);
            && (SafeCut(s, b) || (end <= b && Uncut(Spans(s, end, backtick), b)))
            && Clipped(s, Spans(s, i, backtick), a, b)
               == (if kind.None? then [] else [Span(kind.value, i - a, (Min(end, b) - a) as nat)])
                  + Clipped(s, Spans(s, end, backtick), a, b)
  {
    hide StepAt, Spans, Clipped, SafeCut;
    var (kind, end) := StepAt(s, i, backtick);
    var rest := Spans(s, end, backtick);
    SpansStep(s, i, backtick);
    if kind.Some? {
      if Uncut(Spans(s, i, backtick), b) {
        UncutTail(Span(kind.value, i, end), rest, b);
      }
      ClippedStep(s, Span(kind.value, i, end), rest, a, b);
    } else {
      assert [] + Clipped(s, rest, a, b) == Clipped(s, rest, a, b);
    }
  }

  /** Past the window nothing is left of it, in the window or in the clipping. */
  lemma NothingPast(s: string, a: nat, b: nat, end: nat, backtick: bool)
    requires a <= b <= end <= |s|
    ensures Spans(s[a..b], b - a, backtick) == [] && Clipped(s, Spans(s, end, backtick), a, b) == []
  {
    hide Spans, Clipped, Tiled;
    SpansEnd(s[a..b], backtick);
    TokensTiled(s, end, backtick);
    ClippedBeyond(s, Spans(s, end, backtick), a, b, end);
  }

  /** Lexing a window from a position the full lexer visits gives the full lexer's
      tokens there, the one crossing the end cut short with its kind unchanged. */
  lemma {:induction false} WindowSpans(s: string, a: nat, b: nat, i: nat, backtick: bool)
    requires a <= i <= b <= |s|
    requires SafeCut(s, b) || Uncut(Spans(s, i, backtick), b)
    ensures Spans(s[a..b], i - a, backtick) == Clipped(s, Spans(s, i, backtick), a, b)
    decreases b - i
  {
    hide StepAt, Spans, Clipped, SafeCut, Uncut;
    if i == b {
      NothingPast(s, a, b, i, backtick);
    } else {
      var end := StepAt(s, i, backtick).1;
      StepClips(s, a, b, i, backtick);
      StepWindow(s, a, b, i, backtick);
      SpansStep(s[a..b], i - a, backtick);
      if end <= b {
        WindowSpans(s, a, b, end, backtick);
      } else {
        NothingPast(s, a, b, end, backtick);
      }
    }
  }

  /** A position no token straddles is one the lexer visits: the token list splits there. */
  lemma {:induction false} TokensFrom(s: string, i: nat, p: nat, backtick: bool) returns (before: seq<Span>)
    requires i <= p <= |s| && Uncut(Spans(s, i, backtick), p)
    ensures Spans(s, i, backtick) == before + Spans(s, p, backtick)
    ensures forall k | 0 <= k < |before| :: i <= before[k].start < before[k].end <= p
    decreases p - i
  {
    hide StepAt, Spans;
    before := [];
    if i < p {
      SpansStep(s, i, backtick);
      var toks := Spans(s, i, backtick);
      var (kind, end) := StepAt(s, i, backtick);
      if kind.Some? {
        UncutTail(Span(kind.value, i, end), Spans(s, end, backtick), p);
        before := TokensFrom(s, end, p, backtick);
        before := [toks[0]] + before;
      } else {
        before := TokensFrom(s, end, p, backtick);
      }
    }
  }

  lemma {:induction false} ClippedAppend(s: string, x: seq<Span>, y: seq<Span>, a: nat, b: nat)
    requires a <= b <= |s|
    ensures Clipped(s, x + y, a, b) == Clipped(s, x, a, b) + Clipped(s, y, a, b)
    decreases |x|
  {
    if x == [] {
      assert x + y == y;
    } else {
      ClippedAppend(s, x[1..], y, a, b);
      assert (x + y)[0] == x[0] && (x + y)[1..] == x[1..] + y;
    }
  }

  lemma {:induction false} ClippedBefore(s: string, toks: seq<Span>, a: nat, b: nat)
    requires a <= b <= |s|
    requires forall k | 0 <= k < |toks| :: toks[k].end <= a
    ensures Clipped(s, toks, a, b) == []
    decreases |toks|
  {
    if toks != [] {
      ClippedBefore(s, toks[1..], a, b);
    }
  }

  lemma UncutEnd(x: seq<Span>, y: seq<Span>, p: nat)
    requires Uncut(x + y, p)
    ensures Uncut(y, p)
  {
    assert forall k | 0 <= k < |y| :: y[k] == (x + y)[|x| + k];
  }

  /** Lexing is local: a window whose start is inside no token, and whose end is
      inside no token or at a safe cut, lexes to the clipped tokens of the whole. */
  lemma Window(s: string, a: nat, b: nat, backtick: bool)
    requires a <= b <= |s|
    requires Uncut(Spans(s, 0, backtick), a)
    requires SafeCut(s, b) || Uncut(Spans(s, 0, backtick), b)
    ensures Spans(s[a..b], 0, backtick) == Clipped(s, Spans(s, 0, backtick), a, b)
  {
    hide Spans, Clipped, SafeCut, Uncut;
    var before := TokensFrom(s, 0, a, backtick);
    var rest := Spans(s, a, backtick);
    if Uncut(Spans(s, 0, backtick), b) {
      UncutEnd(before, rest, b);
    }
    WindowSpans(s, a, b, a, backtick);
    ClippedAppend(s, before, rest, a, b);
    ClippedBefore(s, before, a, b);
  }
}

/**
 The SQL lexer of internal/db/split.go: one element at a time (sqlConsume),
 then the token list (tokenizeSQL). The functions say where each element ends;
 the methods are the byte loops, proved against them.
 */
module Lexer {
  import opened Bytes

  /** The kinds sqlConsume reports. */
  datatype Lexeme = LexRune | LexComment | LexString | LexIdent

  datatype TokenKind = Word | Quoted | Str | Number | Comment | Command | Punct

  datatype Token = Token(kind: TokenKind, start: nat, end: nat, text: string)

  // ---- where an element ends ----------------------------------------------

  /** End of a '...' literal whose content is being read at `j`. */
  function StringEnd(s: string, j: nat): (k: nat)
    ensures k <= |s| && (j < |s| ==> j < k)
    decreases |s| - j
  {
    if j >= |s| then |s|
    else if s[j] == '\\' then StringEnd(s, j + 2)
    else if s[j] != '\'' then StringEnd(s, j + 1)
    else if j + 1 < |s| && s[j + 1] == '\'' then StringEnd(s, j + 2)
    else j + 1
  }

  /** End of a "..." name whose content is being read at `j`. */
  function NameEnd(s: string, j: nat): (k: nat)
    requires j <= |s|
    ensures j <= k <= |s| && (j < |s| ==> j < k)
    decreases |s| - j
  {
    if j >= |s| then |s|
    else if s[j] != '"' then NameEnd(s, j + 1)
    else if j + 1 < |s| && s[j + 1] == '"' then NameEnd(s, j + 2)
    else j + 1
  }

  /** Does a dollar-quote delimiter, $$ or $tag$, open at `i`? */
  predicate DollarOpens(s: string, i: nat)
    requires i < |s|
  {
    s[i] == '$' && TagEnd(s, i + 1) < |s| && s[TagEnd(s, i + 1)] == '$'
  }

  /** End of the dollar-quoted string whose delimiter is s[i..body]. */
  function DollarClose(s: string, i: nat, body: nat): (k: nat)
    requires i < body <= |s|
    ensures body <= k <= |s|
  {
    match Index(s, s[i..body], body)
    case Some(k) => k + (body - i)
    case None => |s|
  }

  /** End of the dollar-quoted string opening at `i`. */
  function DollarEnd(s: string, i: nat): (k: nat)
    requires i < |s| && DollarOpens(s, i)
    ensures i + 1 < k <= |s|
  {
    DollarClose(s, i, TagEnd(s, i + 1) + 1)
  }

  /** The element of `s` starting at `i`: its end and its kind. */
  function ElementAt(s: string, i: nat, backtick: bool): (r: (nat, Lexeme))
    requires i < |s|
    ensures i < r.0 <= |s|
    ensures r.1 == LexRune ==> r.0 == i + 1
  {
    var c := s[i];
    if c == '-' && i + 1 < |s| && s[i + 1] == '-' then
      var j := IndexByte(s, '\n', i);
      (if j < |s| then j + 1 else |s|, LexComment)
    else if c == '/' && i + 1 < |s| && s[i + 1] == '*' then
      var j := Index(s, "*/", i + 2);
      (if j.Some? then j.value + 2 else |s|, LexComment)
    else if c == '\'' then (StringEnd(s, i + 1), LexString)
    else if c == '"' then (NameEnd(s, i + 1), LexIdent)
    else if c == '`' && backtick then
      var j := IndexByte(s, '`', i + 1);
      (if j < |s| then j + 1 else |s|, LexIdent)
    else if c == '$' && DollarOpens(s, i) then (DollarEnd(s, i), LexString)
    else (i + 1, LexRune)
  }

  /** End of the fractional part that may follow a number's leading word bytes. */
  function FractionEnd(s: string, j: nat): (k: nat)
    requires j <= |s|
    ensures j <= k <= |s|
  {
    if j < |s| && s[j] == '.' then WordEnd(s, j + 1) else j
  }

  /** End of the signed exponent digits that may follow a trailing e or E. */
  function ExponentEnd(s: string, j: nat): (k: nat)
    requires 0 < j <= |s|
    ensures j <= k <= |s|
  {
    if j < |s| && (s[j - 1] == 'e' || s[j - 1] == 'E') && (s[j] == '+' || s[j] == '-')
    then WordEnd(s, j + 1)
    else j
  }

  /** End of a number whose leading word bytes end at `j`. */
  function NumberEndAt(s: string, j: nat): (k: nat)
    requires 0 < j <= |s|
    ensures j <= k <= |s|
  {
    ExponentEnd(s, FractionEnd(s, j))
  }

  // ---- one lexing step ------------------------------------------------------

  /** What the tokenizer does at `i`: the token kind, None for whitespace, and where it goes on. */
  function StepAt(s: string, i: nat, backtick: bool): (r: (Option<TokenKind>, nat))
    requires i < |s|
    ensures i < r.1 <= |s|
    ensures r.0.None? <==> IsSpace(s[i])
    ensures r.0.None? || r.0 == Some(Punct) ==> r.1 == i + 1
  {
    var (end, kind) := ElementAt(s, i, backtick);
    match kind
    case LexComment => (Some(Comment), end)
    case LexString => (Some(Str), end)
    case LexIdent => (Some(Quoted), end)
    case LexRune =>
      if IsSpace(s[i]) then (None, end)
      else if !IsWordByte(s[i]) then (Some(Punct), end)
      else if IsDigit(s[i]) then (Some(Number), NumberEndAt(s, WordEnd(s, i + 1)))
      else (Some(Word), WordEnd(s, i + 1))
  }

  /** ReplaceAll of a doubled quote by a single one, left to right. */
  function Collapse(s: string, quote: char): string {
    if s == [] then []
    else if |s| >= 2 && s[0] == quote && s[1] == quote then [quote] + Collapse(s[2..], quote)
    else [s[0]] + Collapse(s[1..], quote)
  }

  /** A quoted name without its delimiters. */
  function Unquote(s: string): string {
    if |s| < 2 then s
    else
      var body := if s[|s| - 1] == s[0] then s[1..|s| - 1] else s[1..];
      Collapse(body, s[0])
  }

  /** A token without its text: what it is and where it sits. */
  datatype Span = Span(kind: TokenKind, start: nat, end: nat)

  predicate Within(s: string, spans: seq<Span>) {
    forall k | 0 <= k < |spans| :: spans[k].start < spans[k].end <= |s|
  }

  /** The tokens a lexer standing at `i` still has to report. */
  function Spans(s: string, i: nat, backtick: bool): (r: seq<Span>)
    requires i <= |s|
    ensures Within(s, r)
    decreases |s| - i
  {
    if i == |s| then []
    else
      var (kind, end) := StepAt(s, i, backtick);
      if kind.None? then Spans(s, end, backtick)
      else [Span(kind.value, i, end)] + Spans(s, end, backtick)
  }

  /** The text a token carries: its bytes, without the delimiters for a quoted name. */
  function TextOf(s: string, t: Span): string
    requires t.start <= t.end <= |s|
  {
    if t.kind == Quoted then Unquote(s[t.start..t.end]) else s[t.start..t.end]
  }

  function WithText(s: string, spans: seq<Span>): (toks: seq<Token>)
    requires Within(s, spans)
    ensures |toks| == |spans|
  {
    seq(|spans|, k requires 0 <= k < |spans| =>
      Token(spans[k].kind, spans[k].start, spans[k].end, TextOf(s, spans[k])))
  }

  // ---- the byte loops -------------------------------------------------------

  method DollarQuoteEnd(s: string, i: nat) returns (end: nat, ok: bool)
    requires i < |s| && s[i] == '$'
    ensures ok == DollarOpens(s, i)
    ensures ok ==> end == DollarEnd(s, i)
  {
    var j := i + 1;
    while j < |s| && IsTagByte(s[j])
      invariant i + 1 <= j <= |s|
      invariant TagEnd(s, j) == TagEnd(s, i + 1)
    {
      j := j + 1;
    }
    if j >= |s| || s[j] != '$' {
      return 0, false;
    }
    var delim := s[i..j + 1];
    var k := Index(s, delim, j + 1);
    if k.Some? {
      return k.value + |delim|, true;
    }
    return |s|, true;
  }

  method NumberEnd(s: string, j0: nat) returns (j: nat)
    requires 0 < j0 <= |s|
    ensures j == NumberEndAt(s, j0)
  {
    j := j0;
    if j < |s| && s[j] == '.' {
      j := j + 1;
      while j < |s| && IsWordByte(s[j])
        invariant j0 < j <= |s|
        invariant WordEnd(s, j) == WordEnd(s, j0 + 1)
      {
        j := j + 1;
      }
    }
    if j > 0 && j < |s| && (s[j - 1] == 'e' || s[j - 1] == 'E') && (s[j] == '+' || s[j] == '-') {
      ghost var f := j;
      j := j + 1;
      while j < |s| && IsWordByte(s[j])
        invariant f < j <= |s|
        invariant WordEnd(s, j) == WordEnd(s, f + 1)
      {
        j := j + 1;
      }
    }
  }

  method SqlConsume(s: string, i: nat, backtick: bool) returns (end: nat, kind: Lexeme)
    requires i < |s|
    ensures (end, kind) == ElementAt(s, i, backtick)
  {
    var c := s[i];
    if c == '-' && i + 1 < |s| && s[i + 1] == '-' {
      var j := IndexByte(s, '\n', i);
      if j < |s| {
        return j + 1, LexComment;
      }
      return |s|, LexComment;
    } else if c == '/' && i + 1 < |s| && s[i + 1] == '*' {
      var j := Index(s, "*/", i + 2);
      if j.Some? {
        return j.value + 2, LexComment;
      }
      return |s|, LexComment;
    } else if c == '\'' {
      var j := i + 1;
      while j < |s|
        invariant StringEnd(s, j) == StringEnd(s, i + 1)
        decreases |s| - j
      {
        if s[j] == '\\' {
          j := j + 2;
        } else if s[j] == '\'' {
          if j + 1 < |s| && s[j + 1] == '\'' {
            j := j + 2; // a doubled quote stands for one
            continue;
          }
          return j + 1, LexString;
        } else {
          j := j + 1;
        }
      }
      return |s|, LexString;
    } else if c == '"' {
      var j := i + 1;
      while j < |s|
        invariant i < j <= |s|
        invariant NameEnd(s, j) == NameEnd(s, i + 1)
      {
        if s[j] == '"' {
          if j + 1 < |s| && s[j + 1] == '"' {
            j := j + 2; // likewise
            continue;
          }
          return j + 1, LexIdent;
        }
        j := j + 1;
      }
      return |s|, LexIdent;
    } else if c == '`' && backtick {
      var j := IndexByte(s, '`', i + 1);
      if j < |s| {
        return j + 1, LexIdent;
      }
      return |s|, LexIdent;
    } else if c == '$' {
      var dend, ok := DollarQuoteEnd(s, i);
      if ok {
        return dend, LexString;
      }
    }
    return i + 1, LexRune;
  }

  lemma SpansEnd(s: string, backtick: bool)
    ensures Spans(s, |s|, backtick) == []
  {
    hide StepAt;
  }

  /** The tokens from `i` are those of one step, then those from where it ends. */
  lemma SpansStep(s: string, i: nat, backtick: bool)
    requires i < |s|
    ensures var (kind, end) := StepAt(s, i, backtick);
            Spans(s, i, backtick)
            == if kind.None? then Spans(s, end, backtick) else [Span(kind.value, i, end)] + Spans(s, end, backtick)
  {
    hide StepAt;
  }

  /** One lexing step moves one token, or none, from what is left to what is done. */
  lemma Advance(s: string, i: nat, backtick: bool, done: seq<Span>)
    requires i < |s|
    ensures var (kind, end) := StepAt(s, i, backtick);
            done + Spans(s, i, backtick)
            == (if kind.None? then done else done + [Span(kind.value, i, end)]) + Spans(s, end, backtick)
  {
    hide StepAt, Spans;
    SpansStep(s, i, backtick);
  }

  method TokenizeSQL(s: string, backtick: bool) returns (toks: seq<Token>)
    ensures toks == WithText(s, Spans(s, 0, backtick))
  {
    hide ElementAt, Spans, Unquote, NumberEndAt;
    toks := [];
    ghost var done: seq<Span> := [];
    var i := 0;
    SpansEnd(s, backtick);
    while i < |s|
      invariant 0 <= i <= |s|
      invariant done + Spans(s, i, backtick) == Spans(s, 0, backtick)
      invariant Within(s, done) && toks == WithText(s, done)
    {
      Advance(s, i, backtick, done);
      ghost var (stepKind, stepEnd) := StepAt(s, i, backtick);
      ghost var before := done;
      if stepKind.Some? {
        done := done + [Span(stepKind.value, i, stepEnd)];
      }
      var end, kind := SqlConsume(s, i, backtick);
      if kind == LexComment {
        toks := toks + [Token(Comment, i, end, s[i..end])];
      } else if kind == LexString {
        toks := toks + [Token(Str, i, end, s[i..end])];
      } else if kind == LexIdent {
        toks := toks + [Token(Quoted, i, end, Unquote(s[i..end]))];
      } else if IsSpace(s[i]) {
      } else if IsWordByte(s[i]) {
        var j := i;
        assert WordEnd(s, i) == WordEnd(s, i + 1);
        while j < |s| && IsWordByte(s[j])
          invariant i <= j <= |s|
          invariant WordEnd(s, j) == WordEnd(s, i + 1)
        {
          j := j + 1;
        }
        var tokKind := Word;
        if IsDigit(s[i]) {
          tokKind := Number;
          j := NumberEnd(s, j);
        }
        toks := toks + [Token(tokKind, i, j, s[i..j])];
        i := j;
        continue;
      } else {
        toks := toks + [Token(Punct, i, end, s[i..end])];
      }
      i := end;
    }
  }
}

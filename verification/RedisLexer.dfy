/**
 The Redis side of internal/db/split.go: tokenizeRedis, redisArgEnd and
 splitRedis. One command per line; a quoted argument may carry an escaped
 newline across a line end, which is why line starts alone do not fix the
 lexer's state and the laws below speak of positions inside no token.
 */
module RedisLexer {
  import opened Bytes
  import opened Lexer
  import opened LexerWindow
  import opened GoSpace

  // ---- arguments -------------------------------------------------------------

  /** End of a quoted argument whose content is being read at `j`. */
  function QuotedArgEnd(s: string, j: nat, quote: char): (k: nat)
    ensures k <= |s| && Min(j, |s|) <= k
    decreases |s| - j
  {
    if j >= |s| then |s|
    else if s[j] == '\\' then QuotedArgEnd(s, j + 2, quote)
    else if s[j] == quote then j + 1
    else if s[j] == '\n' then j
    else QuotedArgEnd(s, j + 1, quote)
  }

  function BareArgEnd(s: string, j: nat): (k: nat)
    requires j <= |s|
    ensures j <= k <= |s|
    ensures forall i | j <= i < k :: !IsSpace(s[i])
    decreases |s| - j
  {
    if j == |s| || IsSpace(s[j]) then j else BareArgEnd(s, j + 1)
  }

  predicate IsQuote(c: char) { c == '"' || c == '\'' }

  function ArgEnd(s: string, i: nat): (k: nat)
    requires i < |s| && !IsSpace(s[i])
    ensures i < k <= |s|
  {
    if IsQuote(s[i]) then QuotedArgEnd(s, i + 1, s[i]) else BareArgEnd(s, i + 1)
  }

  method RedisArgEnd(s: string, i0: nat) returns (k: nat)
    requires i0 < |s| && !IsSpace(s[i0])
    ensures k == ArgEnd(s, i0)
  {
    var quote := s[i0];
    if quote != '"' && quote != '\'' {
      var i := i0;
      assert BareArgEnd(s, i0) == BareArgEnd(s, i0 + 1);
      while i < |s| && !IsSpace(s[i])
        invariant i0 <= i <= |s|
        invariant BareArgEnd(s, i) == BareArgEnd(s, i0 + 1)
      {
        i := i + 1;
      }
      return i;
    }
    var j := i0 + 1;
    while j < |s|
      invariant i0 < j
      invariant QuotedArgEnd(s, j, quote) == QuotedArgEnd(s, i0 + 1, quote)
      decreases |s| - j
    {
      if s[j] == '\\' {
        j := j + 1;
      } else if s[j] == quote {
        return j + 1;
      } else if s[j] == '\n' {
        return j;
      }
      j := j + 1;
    }
    return |s|;
  }

  // ---- tokens ----------------------------------------------------------------

  /** One step at `i`, `first` telling whether the line's command is still to come:
      the token kind, where the step ends, and `first` afterwards. */
  function RedisStep(s: string, i: nat, first: bool): (r: (Option<TokenKind>, nat, bool))
    requires i < |s|
    ensures i < r.1 <= |s|
    ensures r.0.None? <==> IsSpace(s[i])
    ensures r.0.None? ==> r.1 == i + 1
  {
    var c := s[i];
    if c == '\n' then (None, i + 1, true)
    else if IsSpace(c) then (None, i + 1, first)
    else if c == '#' && first then (Some(Comment), CommentEnd(s, i), first)
    else if first then (Some(Command), ArgEnd(s, i), false)
    else if IsQuote(c) then (Some(Str), ArgEnd(s, i), false)
    else if IsDigit(c) then (Some(Number), ArgEnd(s, i), false)
    else (Some(Word), ArgEnd(s, i), false)
  }

  function CommentEnd(s: string, i: nat): (k: nat)
    requires i < |s| && s[i] != '\n'
    ensures i < k <= |s|
  {
    IndexByte(s, '\n', i + 1)
  }

  function RedisSpans(s: string, i: nat, first: bool): (r: seq<Span>)
    requires i <= |s|
    ensures Within(s, r)
    decreases |s| - i
  {
    if i == |s| then []
    else
      var (kind, end, first') := RedisStep(s, i, first);
      if kind.None? then RedisSpans(s, end, first')
      else [Span(kind.value, i, end)] + RedisSpans(s, end, first')
  }

  lemma RedisSpansEnd(s: string, first: bool)
    ensures RedisSpans(s, |s|, first) == []
  {
  }

  lemma RedisSpansStep(s: string, i: nat, first: bool)
    requires i < |s|
    ensures var (kind, end, first') := RedisStep(s, i, first);
            RedisSpans(s, i, first)
            == if kind.None? then RedisSpans(s, end, first')
               else [Span(kind.value, i, end)] + RedisSpans(s, end, first')
  {
    hide RedisStep;
  }

  /** The token loop's step at a byte that is no whitespace. */
  method RedisToken(script: string, i: nat, first: bool) returns (kind: TokenKind, end: nat, first': bool)
    requires i < |script| && !IsSpace(script[i])
    ensures RedisStep(script, i, first) == (Some(kind), end, first')
    ensures kind != Quoted
  {
    hide QuotedArgEnd, BareArgEnd, IndexByte;
    var c := script[i];
    if c == '#' && first {
      end := |script|;
      var j := IndexByte(script, '\n', i + 1);
      if j < |script| {
        end := j;
      }
      return Comment, end, first;
    }
    end := RedisArgEnd(script, i);
    kind := Word;
    if first {
      kind := Command;
    } else if c == '"' || c == '\'' {
      kind := Str;
    } else if IsDigit(c) {
      kind := Number;
    }
    first' := false;
  }

  method TokenizeRedis(script: string) returns (toks: seq<Token>)
    ensures toks == WithText(script, RedisSpans(script, 0, true))
  {
    hide RedisSpans, ArgEnd, CommentEnd;
    var i, first := 0, true;
    toks := [];
    ghost var done: seq<Span> := [];
    RedisSpansEnd(script, true);
    RedisSpansEnd(script, false);
    while i < |script|
      invariant 0 <= i <= |script|
      invariant done + RedisSpans(script, i, first) == RedisSpans(script, 0, true)
      invariant Within(script, done) && toks == WithText(script, done)
    {
      RedisSpansStep(script, i, first);
      if script[i] == '\n' {
        first := true;
        i := i + 1;
      } else if IsSpace(script[i]) {
        i := i + 1;
      } else {
        var kind, end;
        ghost var before := done;
        ghost var rest := RedisSpans(script, i, first);
        kind, end, first := RedisToken(script, i, first);
        done := before + [Span(kind, i, end)];
        assert before + rest == done + RedisSpans(script, end, first);
        toks := toks + [Token(kind, i, end, script[i..end])];
        i := end;
      }
    }
  }

  /** Redis tokens, too, are ordered and disjoint with only whitespace between them. */
  lemma {:induction false} RedisTiled(s: string, i: nat, first: bool)
    requires i <= |s|
    ensures Tiled(s, RedisSpans(s, i, first), i)
    decreases |s| - i
  {
    hide RedisStep, RedisSpans;
    if i == |s| {
      RedisSpansEnd(s, first);
    } else {
      var (kind, end, first') := RedisStep(s, i, first);
      RedisSpansStep(s, i, first);
      RedisTiled(s, end, first');
      var rest := RedisSpans(s, end, first');
      if kind.None? {
        TiledExtend(s, rest, i);
      } else {
        assert ([Span(kind.value, i, end)] + rest)[1..] == rest;
      }
    }
  }

  lemma TiledExtend(s: string, toks: seq<Span>, i: nat)
    requires i < |s| && IsSpace(s[i]) && Tiled(s, toks, i + 1)
    ensures Tiled(s, toks, i)
  {
  }

  // ---- windows ---------------------------------------------------------------

  lemma QuotedArgStep(s: string, j: nat, quote: char)
    ensures QuotedArgEnd(s, j, quote)
            == if j >= |s| then |s|
               else if s[j] == '\\' then QuotedArgEnd(s, j + 2, quote)
               else if s[j] == quote then j + 1
               else if s[j] == '\n' then j
               else QuotedArgEnd(s, j + 1, quote)
  {
  }

  lemma {:induction false} QuotedArgEndWindow(s: string, a: nat, b: nat, j: nat, quote: char)
    requires a <= b <= |s| && a <= j
    ensures QuotedArgEnd(s[a..b], j - a, quote) == Min(QuotedArgEnd(s, j, quote), b) - a
    decreases |s| - j
  {
    hide QuotedArgEnd;
    var w := s[a..b];
    QuotedArgStep(s, j, quote);
    QuotedArgStep(w, j - a, quote);
    if j < b {
      assert w[j - a] == s[j];
      if s[j] == '\\' {
        QuotedArgEndWindow(s, a, b, j + 2, quote);
      } else if s[j] != quote && s[j] != '\n' {
        QuotedArgEndWindow(s, a, b, j + 1, quote);
      }
    }
  }

  lemma {:induction false} BareArgEndWindow(s: string, a: nat, b: nat, j: nat)
    requires a <= j <= b <= |s|
    ensures BareArgEnd(s[a..b], j - a) == Min(BareArgEnd(s, j), b) - a
    decreases |s| - j
  {
    if j < b {
      assert s[a..b][j - a] == s[j];
      if !IsSpace(s[j]) {
        BareArgEndWindow(s, a, b, j + 1);
      }
    }
  }

  lemma RedisStepWindow(s: string, a: nat, b: nat, i: nat, first: bool)
    requires a <= i < b <= |s|
    ensures var (kind, end, first') := RedisStep(s, i, first);
            RedisStep(s[a..b], i - a, first) == (kind, (Min(end, b) - a) as nat, first')
  {
    hide QuotedArgEnd, BareArgEnd, IndexByte;
    assert s[a..b][i - a] == s[i];
    QuotedArgEndWindow(s, a, b, i + 1, s[i]);
    BareArgEndWindow(s, a, b, i + 1);
    IndexByteWindow(s, a, b, '\n', i + 1);
  }

  /** Lexing a window from a position the full lexer visits, in the same state,
      gives the full lexer's tokens cut at the window's end, wherever that end is. */
  lemma {:induction false} RedisWindow(s: string, a: nat, b: nat, i: nat, first: bool)
    requires a <= i <= b <= |s|
    ensures RedisSpans(s[a..b], i - a, first) == Clipped(s, RedisSpans(s, i, first), a, b)
    decreases b - i
  {
    hide RedisStep, RedisSpans, Clipped, Tiled;
    var w := s[a..b];
    if i == b {
      PastWindow(s, a, b, i, first);
    } else {
      var (kind, end, first') := RedisStep(s, i, first);
      RedisStepWindow(s, a, b, i, first);
      RedisSpansStep(s, i, first);
      RedisSpansStep(w, i - a, first);
      if end <= b {
        RedisWindow(s, a, b, end, first');
      } else {
        PastWindow(s, a, b, end, first');
      }
      if kind.Some? {
        ClippedStep(s, Span(kind.value, i, end), RedisSpans(s, end, first'), a, b);
      }
    }
  }

  lemma PastWindow(s: string, a: nat, b: nat, end: nat, first: bool)
    requires a <= b <= end <= |s|
    ensures Clipped(s, RedisSpans(s, end, first), a, b) == [] && RedisSpans(s[a..b], b - a, first) == []
  {
    hide RedisSpans, Clipped, Tiled;
    RedisSpansEnd(s[a..b], first);
    RedisTiled(s, end, first);
    ClippedBeyond(s, RedisSpans(s, end, first), a, b, end);
  }

  predicate LineStart(s: string, p: nat)
    requires p <= |s|
  {
    p == 0 || s[p - 1] == '\n'
  }

  /** A quoted argument takes a newline as its last byte only at the end of the script
      or right before another newline. */
  lemma {:induction false} QuotedArgEndStops(s: string, j: nat, quote: char)
    requires quote != '\n' && 0 < j
    ensures var e := QuotedArgEnd(s, j, quote); e < |s| ==> 0 < e && (s[e - 1] != '\n' || s[e] == '\n')
    decreases |s| - j
  {
    if j < |s| {
      if s[j] == '\\' {
        QuotedArgEndStops(s, j + 2, quote);
      } else if s[j] != quote && s[j] != '\n' {
        QuotedArgEndStops(s, j + 1, quote);
      }
    }
  }

  /** Wherever a token ends at a line start, the lexer goes on as at any line start. */
  lemma LineStartState(s: string, i: nat, first: bool)
    requires i < |s|
    ensures var (kind, end, first') := RedisStep(s, i, first);
            LineStart(s, end) ==> RedisSpans(s, end, first') == RedisSpans(s, end, true)
  {
    hide RedisSpans, QuotedArgEnd;
    var (kind, end, first') := RedisStep(s, i, first);
    if kind.Some? && LineStart(s, end) && !first' {
      QuotedArgEndStops(s, i + 1, s[i]);
      if end < |s| {
        assert s[end] == '\n';
        RedisSpansStep(s, end, true);
        RedisSpansStep(s, end, false);
      } else {
        RedisSpansEnd(s, true);
        RedisSpansEnd(s, false);
      }
    } else if kind == Some(Comment) {
      IndexByteFirst(s, '\n', i + 1);
    }
  }

  /** At a line start inside no token the lexer is back in its initial state. */
  lemma {:induction false} RedisFrom(s: string, i: nat, first: bool, p: nat) returns (before: seq<Span>)
    requires i < p <= |s| && LineStart(s, p) && Uncut(RedisSpans(s, i, first), p)
    ensures RedisSpans(s, i, first) == before + RedisSpans(s, p, true)
    ensures forall k | 0 <= k < |before| :: i <= before[k].start < before[k].end <= p
    decreases p - i
  {
    hide RedisStep, RedisSpans;
    var (kind, end, first') := RedisStep(s, i, first);
    RedisSpansStep(s, i, first);
    LineStartState(s, i, first);
    before := [];
    if kind.Some? {
      UncutTail(Span(kind.value, i, end), RedisSpans(s, end, first'), p);
    }
    if end < p {
      before := RedisFrom(s, end, first', p);
    }
    if kind.Some? {
      before := [Span(kind.value, i, end)] + before;
    }
  }

  /** Lexing a window that begins at a line start inside no token. */
  lemma RedisWindowed(s: string, a: nat, b: nat)
    requires a <= b <= |s| && LineStart(s, a) && Uncut(RedisSpans(s, 0, true), a)
    ensures RedisSpans(s[a..b], 0, true) == Clipped(s, RedisSpans(s, 0, true), a, b)
  {
    RedisWindow(s, a, b, a, true);
    if 0 < a {
      var before := RedisFrom(s, 0, true, a);
      ClippedAppend(s, before, RedisSpans(s, a, true), a, b);
      ClippedBefore(s, before, a, b);
    }
  }

  // ---- commands --------------------------------------------------------------

  /** The lines of a script, as strings.Split(script, "\n") gives them. */
  function Lines(s: string): (r: seq<string>)
    ensures r != []
    decreases |s|
  {
    var end := IndexByte(s, '\n', 0);
    if end < |s| then [s[..end]] + Lines(s[end + 1..]) else [s]
  }

  /** The command on a line, if it holds one. */
  function LineCommand(line: string): seq<string> {
    var t := GoTrimSpace(line);
    if t == "" || t[0] == '#' then [] else [t]
  }

  function CommandsOf(lines: seq<string>): seq<string> {
    if lines == [] then [] else LineCommand(lines[0]) + CommandsOf(lines[1..])
  }

  /** The commands of a script. */
  function CommandTexts(s: string): seq<string> { CommandsOf(Lines(s)) }

  method SplitRedis(script: string) returns (out: seq<string>)
    ensures out == CommandTexts(script)
  {
    hide GoTrimSpace, Lines;
    out := [];
    var lines := Lines(script);
    assert lines[0..] == lines;
    for n := 0 to |lines|
      invariant out + CommandsOf(lines[n..]) == CommandsOf(lines)
    {
      LineStep(lines, n, out);
      var t := GoTrimSpace(lines[n]);
      if t == "" || t[0] == '#' {
        continue;
      }
      out := out + [t];
    }
    assert lines[|lines|..] == [];
  }

  /** One line of the script: what is appended, and what is left to read. */
  lemma LineStep(lines: seq<string>, n: nat, out: seq<string>)
    requires n < |lines|
    ensures out + CommandsOf(lines[n..]) == (out + LineCommand(lines[n])) + CommandsOf(lines[n + 1..])
    ensures out + [] == out
  {
    hide LineCommand;
    assert lines[n..][0] == lines[n] && lines[n..][1..] == lines[n + 1..];
  }

  // ---- laws of the command splitter ------------------------------------------

  lemma {:induction false} LinesHoldNoNewline(s: string)
    ensures forall line | line in Lines(s) :: '\n' !in line
    decreases |s|
  {
    var end := IndexByte(s, '\n', 0);
    IndexByteFirst(s, '\n', 0);
    if end < |s| {
      LinesHoldNoNewline(s[end + 1..]);
    }
  }

  lemma {:induction false} CommandOnLine(lines: seq<string>, cmd: string)
    requires cmd in CommandsOf(lines)
    ensures cmd != "" && cmd[0] != '#' && exists line :: line in lines && GoTrimSpace(line) == cmd
    decreases |lines|
  {
    hide GoTrimSpace;
    if cmd !in LineCommand(lines[0]) {
      CommandOnLine(lines[1..], cmd);
    } else {
      assert lines[0] in lines;
    }
  }

  /** A command is one line, bare at both ends, and no comment. */
  lemma CommandIsLine(script: string, cmd: string)
    requires cmd in CommandTexts(script)
    ensures cmd != "" && cmd[0] != '#' && Bare(cmd) && '\n' !in cmd
  {
    hide GoTrimSpace, Lines, CommandsOf, Bare;
    CommandOnLine(Lines(script), cmd);
    var line :| line in Lines(script) && GoTrimSpace(line) == cmd;
    LinesHoldNoNewline(script);
    TrimIsBare(line);
    TrimIsPart(line);
  }

  /** And such a text is one command. */
  lemma LineIsCommand(cmd: string)
    requires cmd != "" && cmd[0] != '#' && Bare(cmd) && '\n' !in cmd
    ensures CommandTexts(cmd) == [cmd]
  {
    hide GoTrimSpace, Bare;
    TrimIsBare(cmd);
    IndexByteFirst(cmd, '\n', 0);
    assert IndexByte(cmd, '\n', 0) == |cmd|;
    assert Lines(cmd) == [cmd] && [cmd][1..] == [];
    assert CommandsOf([]) == [];
  }

  /** Splitting a command again gives it back. */
  lemma RedisResplitIsIdentity(script: string)
    ensures forall cmd | cmd in CommandTexts(script) :: CommandTexts(cmd) == [cmd]
  {
    hide CommandTexts, Bare;
    forall cmd | cmd in CommandTexts(script)
      ensures CommandTexts(cmd) == [cmd]
    {
      CommandIsLine(script, cmd);
      LineIsCommand(cmd);
    }
  }

  lemma {:induction false} CommandsAppend(x: seq<string>, y: seq<string>)
    ensures CommandsOf(x + y) == CommandsOf(x) + CommandsOf(y)
    decreases |x|
  {
    hide LineCommand;
    if x == [] {
      assert x + y == y;
    } else {
      assert (x + y)[0] == x[0] && (x + y)[1..] == x[1..] + y;
      CommandsAppend(x[1..], y);
    }
  }

  lemma {:induction false} LinesAppend(a: string, b: string)
    ensures Lines(a + "\n" + b) == Lines(a) + Lines(b)
    decreases |a|
  {
    hide IndexByte;
    var s, end := a + "\n" + b, IndexByte(a, '\n', 0);
    SameLineEnd(a, b);
    if end < |a| {
      assert s[..end] == a[..end] && s[end + 1..] == a[end + 1..] + "\n" + b;
      LinesAppend(a[end + 1..], b);
    } else {
      assert s[..end] == a && s[end + 1..] == b;
    }
  }

  lemma SameLineEnd(a: string, b: string)
    ensures IndexByte(a + "\n" + b, '\n', 0) == IndexByte(a, '\n', 0)
  {
    var s := a + "\n" + b;
    assert a == s[0..|a|] && s[|a|] == '\n';
    IndexByteWindow(s, 0, |a|, '\n', 0);
    IndexByteFirst(s, '\n', 0);
  }

  /** Redis scripts split line by line, so any two joined by a newline split separately. */
  lemma RedisSplitConcat(a: string, b: string)
    ensures CommandTexts(a + "\n" + b) == CommandTexts(a) + CommandTexts(b)
  {
    hide CommandsOf, Lines;
    LinesAppend(a, b);
    CommandsAppend(Lines(a), Lines(b));
  }
}

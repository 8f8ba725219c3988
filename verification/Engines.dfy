/**
 The engine-level entry points of internal/db/split.go: Split, Tokenize and
 Destructive, and the laws every caller relies on. A caller splits once, gates
 on Destructive and runs the pieces, so the verdict must not depend on where in
 a script a statement sits or on being split again.
 */
module Engines {
  import opened Bytes
  import opened Lexer
  import opened LexerWindow
  import opened Splitter
  import Resplit
  import Concat
  import opened GoSpace
  import opened RedisLexer

  datatype Engine = Postgres | ClickHouse | Redis

  function Split(engine: Engine, script: string): seq<string> {
    if engine == Redis then CommandTexts(script) else StatementTexts(script, engine == ClickHouse)
  }

  function TokenSpans(engine: Engine, script: string): (r: seq<Span>)
    ensures Within(script, r)
  {
    if engine == Redis then RedisSpans(script, 0, true) else Spans(script, 0, engine == ClickHouse)
  }

  method RunSplit(engine: Engine, script: string) returns (out: seq<string>)
    ensures out == Split(engine, script)
  {
    if engine == Redis {
      out := SplitRedis(script);
    } else {
      out := Splitter.SplitSQL(script, engine == ClickHouse);
    }
  }

  method Tokenize(engine: Engine, script: string) returns (toks: seq<Token>)
    ensures toks == WithText(script, TokenSpans(engine, script))
  {
    if engine == Redis {
      toks := TokenizeRedis(script);
    } else {
      toks := TokenizeSQL(script, engine == ClickHouse);
    }
  }

  // ---- upper case --------------------------------------------------

  /** strings.ToUpper as far as ASCII results go: besides a-z, only U+0131 and U+017F
      (bytes C4 B1 and C5 BF) map to an ASCII letter; other bytes keep no ASCII value. */
  function ToUpper(s: string): string {
    if s == "" then ""
    else if |s| >= 2 && s[0] as int == 0xC4 && s[1] as int == 0xB1 then "I" + ToUpper(s[2..])
    else if |s| >= 2 && s[0] as int == 0xC5 && s[1] as int == 0xBF then "S" + ToUpper(s[2..])
    else [UpperByte(s[0])] + ToUpper(s[1..])
  }

  // ---- top-level words ---------------------------------------------------------

  function DepthStep(s: string, t: Span, depth: nat): nat {
    if IsPunct(s, t, '(') then depth + 1
    else if IsPunct(s, t, ')') && depth > 0 then depth - 1
    else depth
  }

  /** Parenthesis depth after reading `toks`. */
  function Depth(s: string, toks: seq<Span>): nat {
    if toks == [] then 0 else DepthStep(s, toks[|toks| - 1], Depth(s, toks[..|toks| - 1]))
  }

  function WordsFrom(s: string, toks: seq<Span>, depth: nat): seq<string>
    requires Within(s, toks)
  {
    if toks == [] then []
    else
      var t := toks[0];
      assert Within(s, toks[1..]) by { assert forall k | 0 <= k < |toks| - 1 :: toks[1..][k] == toks[k + 1]; }
      (if t.kind == Word && depth == 0 then [ToUpper(s[t.start..t.end])] else [])
      + WordsFrom(s, toks[1..], DepthStep(s, t, depth))
  }

  function TopLevelWords(stmt: string, backtick: bool): seq<string> {
    WordsFrom(stmt, Spans(stmt, 0, backtick), 0)
  }

  /** Token `k` is a word outside parentheses whose upper case is `w`. */
  predicate TopLevelWord(s: string, toks: seq<Span>, k: nat, w: string)
    requires Within(s, toks)
  {
    k < |toks| && toks[k].kind == Word && Depth(s, toks[..k]) == 0 && ToUpper(s[toks[k].start..toks[k].end]) == w
  }

  lemma {:induction false} WordsFromExactly(s: string, done: seq<Span>, toks: seq<Span>, w: string)
    requires Within(s, toks) && Within(s, done + toks)
    ensures w in WordsFrom(s, toks, Depth(s, done))
            <==> exists k: nat :: |done| <= k && TopLevelWord(s, done + toks, k, w)
    decreases |toks|
  {
    var all := done + toks;
    if toks != [] {
      var t := toks[0];
      var next := done + [t];
      assert next[..|next| - 1] == done;
      assert all == next + toks[1..];
      assert Within(s, toks[1..]) by { assert forall k | 0 <= k < |toks| - 1 :: toks[1..][k] == toks[k + 1]; }
      WordsFromExactly(s, next, toks[1..], w);
      assert all[|done|] == t && all[..|done|] == done;
      if t.kind == Word && Depth(s, done) == 0 && ToUpper(s[t.start..t.end]) == w {
        assert TopLevelWord(s, all, |done|, w);
      } else {
        assert !TopLevelWord(s, all, |done|, w);
        assert w in WordsFrom(s, toks, Depth(s, done)) <==> w in WordsFrom(s, toks[1..], Depth(s, next));
      }
    }
  }

  /** A word is reported iff it is a word token at depth 0: nothing written in a string,
      a comment, a quoted name or parentheses is. */
  lemma TopLevelWordsExactly(stmt: string, backtick: bool, w: string)
    ensures w in TopLevelWords(stmt, backtick)
            <==> exists k: nat :: TopLevelWord(stmt, Spans(stmt, 0, backtick), k, w)
  {
    hide Spans;
    assert [] + Spans(stmt, 0, backtick) == Spans(stmt, 0, backtick);
    WordsFromExactly(stmt, [], Spans(stmt, 0, backtick), w);
  }

  method TopLevelSQLWords(stmt: string, backtick: bool) returns (words: seq<string>)
    ensures words == TopLevelWords(stmt, backtick)
  {
    hide Spans, WithText, IsPunct, ToUpper, WordsFrom;
    words := [];
    var depth: nat := 0;
    var toks := TokenizeSQL(stmt, backtick);
    ghost var spans := Spans(stmt, 0, backtick);
    PunctIsOneByte(stmt, 0, backtick);
    assert spans[0..] == spans;
    for k := 0 to |toks|
      invariant Within(stmt, spans[k..])
      invariant words + WordsFrom(stmt, spans[k..], depth) == TopLevelWords(stmt, backtick)
    {
      var t := toks[k];
      WithTextAt(stmt, spans, k);
      WordText(stmt, spans, k);
      PunctText(stmt, spans, k, '(');
      PunctText(stmt, spans, k, ')');
      WordsStep(stmt, spans, k, depth, words);
      if t.kind == Punct && t.text == "(" {
        depth := depth + 1;
      } else if t.kind == Punct && t.text == ")" {
        if depth > 0 {
          depth := depth - 1;
        }
      } else if t.kind == Word && depth == 0 {
        words := words + [ToUpper(t.text)];
      }
    }
    WordsEnd(stmt, spans);
  }

  lemma WordsStep(s: string, spans: seq<Span>, k: nat, depth: nat, words: seq<string>)
    requires k < |spans| && Within(s, spans)
    ensures Within(s, spans[k..]) && Within(s, spans[k + 1..])
    ensures var t := spans[k];
            words + WordsFrom(s, spans[k..], depth)
            == (if t.kind == Word && depth == 0 then words + [ToUpper(s[t.start..t.end])] else words)
               + WordsFrom(s, spans[k + 1..], DepthStep(s, t, depth))
  {
    hide ToUpper, DepthStep;
    var rest := spans[k..];
    assert rest[0] == spans[k] && rest[1..] == spans[k + 1..];
  }

  lemma WordsEnd(s: string, spans: seq<Span>)
    ensures Within(s, spans[|spans|..]) && WordsFrom(s, spans[|spans|..], 0) == []
    ensures forall d: nat :: WordsFrom(s, spans[|spans|..], d) == []
  {
  }

  lemma WordText(s: string, spans: seq<Span>, k: nat)
    requires Within(s, spans) && k < |spans|
    ensures var t := WithText(s, spans)[k];
            t.kind == Word ==> t.text == s[spans[k].start..spans[k].end] && !IsPunct(s, spans[k], '(') && !IsPunct(s, spans[k], ')')
  {
  }

  // ---- destructive statements ---------------------------------------------------

  predicate DestructiveWords(words: seq<string>) {
    words != []
    && (words[0] in {"DROP", "TRUNCATE", "ALTER"}
        || (words[0] in {"DELETE", "UPDATE"} && "WHERE" !in words[1..]))
  }

  predicate DestructiveFields(fields: seq<string>) {
    fields != []
    && (ToUpper(fields[0]) in {"FLUSHALL", "FLUSHDB", "DEL", "SHUTDOWN"}
        || (ToUpper(fields[0]) == "CONFIG" && |fields| > 1 && ToUpper(fields[1]) == "SET"))
  }

  predicate IsDestructive(engine: Engine, stmt: string) {
    if engine == Redis then DestructiveFields(Fields(stmt))
    else DestructiveWords(TopLevelWords(stmt, engine == ClickHouse))
  }

  method CheckDestructive(engine: Engine, stmt: string) returns (d: bool)
    ensures d == IsDestructive(engine, stmt)
  {
    if engine == Redis {
      var fields := Fields(stmt);
      if |fields| == 0 {
        return false;
      }
      var cmd := ToUpper(fields[0]);
      if cmd == "FLUSHALL" || cmd == "FLUSHDB" || cmd == "DEL" || cmd == "SHUTDOWN" {
        return true;
      }
      if cmd == "CONFIG" {
        return |fields| > 1 && ToUpper(fields[1]) == "SET";
      }
      return false;
    }
    var words := TopLevelSQLWords(stmt, engine == ClickHouse);
    if |words| == 0 {
      return false;
    }
    if words[0] == "DROP" || words[0] == "TRUNCATE" || words[0] == "ALTER" {
      return true;
    }
    if words[0] == "DELETE" || words[0] == "UPDATE" {
      for k := 1 to |words|
        invariant "WHERE" !in words[1..k]
      {
        if words[k] == "WHERE" {
          assert words[1..][k - 1] == "WHERE";
          return false;
        }
        assert words[1..k + 1] == words[1..k] + [words[k]];
      }
      assert words[1..|words|] == words[1..];
      return true;
    }
    return false;
  }

  /** The destructive statements among `stmts`, in order. */
  function Destructive(engine: Engine, stmts: seq<string>): seq<string> {
    if stmts == [] then []
    else (if IsDestructive(engine, stmts[0]) then [stmts[0]] else []) + Destructive(engine, stmts[1..])
  }

  method FindDestructive(engine: Engine, stmts: seq<string>) returns (out: seq<string>)
    ensures out == Destructive(engine, stmts)
  {
    hide IsDestructive, Destructive;
    out := [];
    assert stmts[0..] == stmts;
    for k := 0 to |stmts|
      invariant out + Destructive(engine, stmts[k..]) == Destructive(engine, stmts)
    {
      DestructiveStep(engine, stmts, k, out);
      var d := CheckDestructive(engine, stmts[k]);
      if d {
        out := out + [stmts[k]];
      }
    }
    DestructiveNone(engine);
    assert stmts[|stmts|..] == [];
  }

  lemma DestructiveStep(engine: Engine, stmts: seq<string>, k: nat, out: seq<string>)
    requires k < |stmts|
    ensures out + Destructive(engine, stmts[k..])
            == (if IsDestructive(engine, stmts[k]) then out + [stmts[k]] else out) + Destructive(engine, stmts[k + 1..])
  {
    hide IsDestructive;
    assert stmts[k..][0] == stmts[k] && stmts[k..][1..] == stmts[k + 1..];
  }

  lemma DestructiveNone(engine: Engine)
    ensures Destructive(engine, []) == []
  {
  }

  lemma {:induction false} DestructiveAppend(engine: Engine, x: seq<string>, y: seq<string>)
    ensures Destructive(engine, x + y) == Destructive(engine, x) + Destructive(engine, y)
    decreases |x|
  {
    hide IsDestructive;
    if x == [] {
      assert x + y == y;
    } else {
      assert (x + y)[1..] == x[1..] + y;
      DestructiveAppend(engine, x[1..], y);
    }
  }

  lemma {:induction false} DestructiveExactly(engine: Engine, stmts: seq<string>, d: string)
    ensures d in Destructive(engine, stmts) <==> d in stmts && IsDestructive(engine, d)
    decreases |stmts|
  {
    if stmts != [] {
      hide IsDestructive;
      DestructiveExactly(engine, stmts[1..], d);
      assert stmts == [stmts[0]] + stmts[1..];
    }
  }

  // ---- laws for every engine ----------------------------------------------------

  /** What separates statements of an engine: a semicolon, or a newline for Redis. */
  function Separator(engine: Engine): string {
    if engine == Redis then "\n" else ";"
  }

  predicate Closed(engine: Engine, a: string) {
    engine == Redis || Concat.Closed(a, engine == ClickHouse)
  }

  /** Every statement of every script, on every engine, splits to itself. */
  lemma ResplitIsIdentity(engine: Engine, script: string)
    ensures forall stmt | stmt in Split(engine, script) :: Split(engine, stmt) == [stmt]
  {
    if engine == Redis {
      RedisResplitIsIdentity(script);
    } else {
      Resplit.ResplitIsIdentity(script, engine == ClickHouse);
    }
  }

  /** Splitting, and the destructive verdict, are homomorphisms on closed scripts. */
  lemma SplitConcat(engine: Engine, a: string, b: string)
    requires Closed(engine, a)
    ensures Split(engine, a + Separator(engine) + b) == Split(engine, a) + Split(engine, b)
    ensures Destructive(engine, Split(engine, a + Separator(engine) + b))
            == Destructive(engine, Split(engine, a)) + Destructive(engine, Split(engine, b))
  {
    if engine == Redis {
      RedisSplitConcat(a, b);
    } else {
      Concat.SplitConcat(a, b, engine == ClickHouse);
    }
    DestructiveAppend(engine, Split(engine, a), Split(engine, b));
  }

  /** A statement flagged on its own is flagged after any closed script and before any text
      that starts with a separator, wherever that puts it. */
  lemma FlaggedAnywhere(engine: Engine, a: string, stmt: string, b: string)
    requires Closed(engine, a) && Closed(engine, stmt)
    requires Split(engine, stmt) == [stmt] && IsDestructive(engine, stmt)
    ensures stmt in Destructive(engine, Split(engine, a + Separator(engine) + (stmt + Separator(engine) + b)))
  {
    hide IsDestructive, Split;
    SplitConcat(engine, a, stmt + Separator(engine) + b);
    SplitConcat(engine, stmt, b);
    DestructiveExactly(engine, [stmt], stmt);
  }
}

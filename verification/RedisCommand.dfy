/**
 splitCommandLine of internal/db/redis.go and redisPattern of
 internal/ui/schema.go: a shell-like argument splitter and the quoting that
 must survive it, whatever bytes a key prefix holds.
 */
module RedisCommand {
  import opened Bytes
  import opened GoSpace
  import RedisLexer

  datatype ParseError = UnterminatedSingle | UnterminatedDouble
  datatype Parsed = Args(args: seq<string>) | Failed(error: ParseError)

  // ---- what the splitter reads -------------------------------------------------

  function Escaped(c: char): char {
    if c == 'n' then '\n' else if c == 't' then '\t' else if c == 'r' then '\r' else c
  }

  /** The content of a double-quoted stretch read off the front of `u`, and what follows it. */
  function DoubleQuoted(u: string): (r: Option<(string, string)>)
    ensures r.Some? ==> |r.value.1| < |u|
    decreases |u|
  {
    if u == "" then None
    else if u[0] == '\\' && |u| > 1 then
      match DoubleQuoted(u[2..])
      case Some(p) => Some(([Escaped(u[1])] + p.0, p.1))
      case None => None
    else if u[0] == '"' then Some(("", u[1..]))
    else
      match DoubleQuoted(u[1..])
      case Some(p) => Some(([u[0]] + p.0, p.1))
      case None => None
  }

  /** Reading `u` with `cur` read so far of an argument, if `inArg`. */
  function Read(u: string, cur: string, inArg: bool): Parsed
    decreases |u|
  {
    if u == "" then Args(if inArg then [cur] else [])
    else if u[0] == ' ' || u[0] == '\t' then
      match Read(u[1..], "", false)
      case Args(rest) => Args((if inArg then [cur] else []) + rest)
      case Failed(e) => Failed(e)
    else if u[0] == '\'' then
      var k := IndexByte(u, '\'', 1);
      if k == |u| then Failed(UnterminatedSingle) else Read(u[k + 1..], cur + u[1..k], true)
    else if u[0] == '"' then
      match DoubleQuoted(u[1..])
      case Some(p) => Read(p.1, cur + p.0, true)
      case None => Failed(UnterminatedDouble)
    else if u[0] == '\\' && |u| > 1 then Read(u[2..], cur + [u[1]], true)
    else Read(u[1..], cur + [u[0]], true)
  }

  function CommandLine(s: string): Parsed { Read(s, "", false) }

  // ---- the splitting loop --------------------------------------------------------

  function Prefixed(args: seq<string>, p: Parsed): Parsed {
    match p
    case Args(rest) => Args(args + rest)
    case Failed(e) => Failed(e)
  }

  method ReadSingle(s: string, i0: nat, cur0: string) returns (ok: bool, i: nat, cur: string)
    requires 0 < i0 <= |s| && s[i0 - 1] == '\''
    ensures var u := s[i0 - 1..]; var k := IndexByte(u, '\'', 1);
            ok == (k < |u|) && (ok ==> i <= |s| && s[i..] == u[k + 1..] && cur == cur0 + u[1..k])
    ensures ok ==> i0 <= i
  {
    hide IndexByte;
    ghost var u := s[i0 - 1..];
    i, cur := i0, cur0;
    assert s[i0..i0] == "" && cur0 + "" == cur0;
    while i < |s|
      invariant i0 <= i <= |s|
      invariant IndexByte(u, '\'', 1) == IndexByte(u, '\'', i + 1 - i0)
      invariant cur == cur0 + s[i0..i]
    {
      IndexStep(u, '\'', i + 1 - i0);
      OneMoreByte(s, i0, i, cur0);
      if s[i] == '\'' {
        return true, i + 1, cur;
      }
      cur := cur + [s[i]];
      i := i + 1;
    }
    IndexStep(u, '\'', |u|);
    return false, i, cur;
  }

  lemma IndexStep(u: string, c: char, k: nat)
    requires k <= |u|
    ensures IndexByte(u, c, k) == if k == |u| || u[k] == c then k else IndexByte(u, c, k + 1)
  {
  }

  /** Position `i` of a quoted stretch that begins at `i0`, in the text from its quote on. */
  lemma OneMoreByte(s: string, i0: nat, i: nat, cur: string)
    requires 0 < i0 <= i < |s|
    ensures var u := s[i0 - 1..];
            && u[i + 1 - i0] == s[i] && u[1..i + 1 - i0] == s[i0..i] && u[i + 2 - i0..] == s[i + 1..]
            && cur + s[i0..i] + [s[i]] == cur + s[i0..i + 1]
  {
    assert s[i0..i + 1] == s[i0..i] + [s[i]];
  }

  /** The outcome of a quoted stretch with `cur` already read in front of it. */
  function Onto(cur: string, r: Option<(string, string)>): Option<(string, string)> {
    match r
    case Some(p) => Some((cur + p.0, p.1))
    case None => None
  }

  lemma QuotedStep(u: string, cur: string)
    requires u != ""
    ensures Onto(cur, DoubleQuoted(u))
            == if u[0] == '\\' && |u| > 1 then Onto(cur + [Escaped(u[1])], DoubleQuoted(u[2..]))
               else if u[0] == '"' then Some((cur, u[1..]))
               else Onto(cur + [u[0]], DoubleQuoted(u[1..]))
  {
    hide Escaped;
    assert cur + "" == cur;
    var n := if u[0] == '\\' && |u| > 1 then 2 else 1;
    var r, c := DoubleQuoted(u[n..]), if n == 2 then Escaped(u[1]) else u[0];
    if r.Some? {
      assert cur + ([c] + r.value.0) == (cur + [c]) + r.value.0;
    }
  }

  method ReadDouble(s: string, i0: nat, cur0: string) returns (ok: bool, i: nat, cur: string)
    requires i0 <= |s|
    ensures i <= |s| && Onto(cur0, DoubleQuoted(s[i0..])) == if ok then Some((cur, s[i..])) else None
  {
    hide DoubleQuoted;
    i, cur := i0, cur0;
    while i < |s|
      invariant i0 <= i <= |s|
      invariant Onto(cur0, DoubleQuoted(s[i0..])) == Onto(cur, DoubleQuoted(s[i..]))
    {
      QuotedStep(s[i..], cur);
      if s[i] == '\\' && i + 1 < |s| {
        i := i + 1;
        if s[i] == 'n' {
          cur := cur + ['\n'];
        } else if s[i] == 't' {
          cur := cur + ['\t'];
        } else if s[i] == 'r' {
          cur := cur + ['\r'];
        } else {
          cur := cur + [s[i]];
        }
        i := i + 1;
        continue;
      }
      if s[i] == '"' {
        return true, i + 1, cur;
      }
      cur := cur + [s[i]];
      i := i + 1;
    }
    QuotedEnd(s[i..]);
    return false, i, cur;
  }

  lemma QuotedEnd(u: string)
    requires u == ""
    ensures DoubleQuoted(u).None?
  {
  }

  method SplitCommandLine(s: string) returns (r: Parsed)
    ensures r == CommandLine(s)
  {
    hide DoubleQuoted, IndexByte;
    var args: seq<string> := [];
    var cur, inArg := "", false;
    var i: nat := 0;
    assert s[0..] == s;
    while i < |s|
      invariant i <= |s| && (!inArg ==> cur == "")
      invariant Prefixed(args, Read(s[i..], cur, inArg)) == CommandLine(s)
      decreases |s| - i
    {
      var c := s[i];
      ghost var u := s[i..];
      assert u[0] == c && u[1..] == s[i + 1..];
      if c == ' ' || c == '\t' {
        Flushed(args, u, cur, inArg);
        if inArg {
          args := args + [cur];
          cur := "";
          inArg := false;
        }
        i := i + 1;
      } else if c == '\'' {
        var ok, j, text := ReadSingle(s, i + 1, cur);
        if !ok {
          return Failed(UnterminatedSingle);
        }
        i, cur, inArg := j, text, true;
      } else if c == '"' {
        var ok, j, text := ReadDouble(s, i + 1, cur);
        if !ok {
          return Failed(UnterminatedDouble);
        }
        i, cur, inArg := j, text, true;
      } else if c == '\\' {
        inArg := true;
        if i + 1 < |s| {
          assert u[1] == s[i + 1] && u[2..] == s[i + 2..];
          cur := cur + [s[i + 1]];
          i := i + 2;
        } else {
          cur := cur + [c];
          i := i + 1;
        }
      } else {
        inArg := true;
        cur := cur + [c];
        i := i + 1;
      }
    }
    assert s[i..] == "";
    if inArg {
      args := args + [cur];
    }
    r := Args(args);
  }

  lemma Flushed(args: seq<string>, u: string, cur: string, inArg: bool)
    requires u != "" && (u[0] == ' ' || u[0] == '\t') && (!inArg ==> cur == "")
    ensures Prefixed(args, Read(u, cur, inArg))
            == Prefixed(if inArg then args + [cur] else args, Read(u[1..], "", false))
  {
    var p := Read(u[1..], "", false);
    if p.Args? {
      assert args + ([cur] + p.args) == (args + [cur]) + p.args;
      assert args + ([] + p.args) == args + p.args;
    }
  }

  // ---- printing a key prefix -----------------------------------------------------

  predicate Special(c: char) {
    c == ' ' || c == '\t' || c == '"' || c == '\'' || c == '\\'
  }

  /** The replacer that escapes backslashes and double quotes. */
  function EscapeQuotes(s: string): string {
    if s == "" then ""
    else (if s[0] == '\\' then "\\\\" else if s[0] == '"' then "\\\"" else [s[0]]) + EscapeQuotes(s[1..])
  }

  function RedisPattern(prefix: string): string {
    var p := prefix + "*";
    if exists k :: 0 <= k < |p| && Special(p[k]) then "\"" + EscapeQuotes(p) + "\"" else p
  }

  function ScanTemplate(table: string): string {
    "SCAN 0 MATCH " + RedisPattern(table) + " COUNT 100"
  }

  // ---- printing and reading undo each other ----------------------------------------

  lemma EscapedQuotes()
    ensures Escaped('\\') == '\\' && Escaped('"') == '"'
  {
  }

  lemma EscapeCons(p: string, v: string)
    requires p != ""
    ensures EscapeQuotes(p) + v
            == (if p[0] == '\\' || p[0] == '"' then ['\\', p[0]] else [p[0]]) + (EscapeQuotes(p[1..]) + v)
  {
    assert "\\\\" == ['\\', '\\'] && "\\\"" == ['\\', '"'];
  }

  lemma QuotedCons(c: char, rest: string, p: string, v: string)
    requires DoubleQuoted(rest) == Some((p, v))
    ensures DoubleQuoted((if c == '\\' || c == '"' then ['\\', c] else [c]) + rest) == Some(([c] + p, v))
  {
    EscapedQuotes();
    hide Escaped;
    var u := (if c == '\\' || c == '"' then ['\\', c] else [c]) + rest;
    if c == '\\' || c == '"' {
      assert u[0] == '\\' && u[1] == c && u[2..] == rest;
    } else {
      assert u[0] == c && u[1..] == rest;
    }
  }

  lemma QuotedNothing(v: string)
    ensures DoubleQuoted(EscapeQuotes("") + ("\"" + v)) == Some(("", v))
  {
    var u := EscapeQuotes("") + ("\"" + v);
    assert u == "\"" + v && u[0] == '"' && u[1..] == v;
  }

  lemma {:induction false} DoubleQuotedEscaped(p: string, v: string)
    ensures DoubleQuoted(EscapeQuotes(p) + ("\"" + v)) == Some((p, v))
    decreases |p|
  {
    hide DoubleQuoted, EscapeQuotes;
    if p == "" {
      QuotedNothing(v);
    } else {
      DoubleQuotedEscaped(p[1..], v);
      EscapeCons(p, "\"" + v);
      QuotedCons(p[0], EscapeQuotes(p[1..]) + ("\"" + v), p[1..], v);
      assert p == [p[0]] + p[1..];
    }
  }

  lemma {:induction false} ReadBare(w: string, v: string, cur: string, inArg: bool)
    requires forall k | 0 <= k < |w| :: !Special(w[k])
    ensures w != "" || inArg ==> Read(w + v, cur, inArg) == Read(v, cur + w, true)
    decreases |w|
  {
    if w == "" {
      assert w + v == v && cur + w == cur;
    } else {
      var u := w + v;
      assert u[0] == w[0] && u[1..] == w[1..] + v;
      ReadBare(w[1..], v, cur + [w[0]], true);
      assert (cur + [w[0]]) + w[1..] == cur + w;
    }
  }

  lemma QuoteReads(x: string, p: string, v: string)
    requires DoubleQuoted(x) == Some((p, v))
    ensures Read(['"'] + x, "", false) == Read(v, p, true)
  {
    hide DoubleQuoted;
    var u := ['"'] + x;
    assert u[0] == '"' && u[1..] == x;
    assert "" + p == p;
  }

  /** A printed pattern reads back as one argument, the prefix with its star. */
  lemma PatternReads(prefix: string, v: string)
    ensures Read(RedisPattern(prefix) + v, "", false) == Read(v, prefix + "*", true)
  {
    hide DoubleQuoted, Read, EscapeQuotes, Special;
    var p := prefix + "*";
    if exists k :: 0 <= k < |p| && Special(p[k]) {
      var x := EscapeQuotes(p) + ("\"" + v);
      DoubleQuotedEscaped(p, v);
      assert RedisPattern(prefix) + v == ['"'] + x;
      QuoteReads(x, p, v);
    } else {
      ReadBare(p, v, "", false);
      assert "" + p == p;
    }
  }

  lemma PatternRoundTrip(prefix: string)
    ensures CommandLine(RedisPattern(prefix)) == Args([prefix + "*"])
  {
    PatternReads(prefix, "");
    assert RedisPattern(prefix) + "" == RedisPattern(prefix);
  }

  /** A bare word followed by a space is one argument. */
  lemma WordReads(w: string, v: string)
    requires w != "" && forall k | 0 <= k < |w| :: !Special(w[k])
    ensures Read(w + (" " + v), "", false) == Prefixed([w], Read(v, "", false))
  {
    ReadBare(w, " " + v, "", false);
    assert (" " + v)[1..] == v && "" + w == w;
  }

  /** The whole SCAN template parses to its six arguments, whatever the prefix holds. */
  lemma ScanRoundTrip(table: string)
    ensures CommandLine(ScanTemplate(table)) == Args(["SCAN", "0", "MATCH", table + "*", "COUNT", "100"])
  {
    hide RedisPattern, Read;
    var tail := "COUNT" + (" " + ("100" + ""));
    var pat := RedisPattern(table) + (" " + tail);
    assert ScanTemplate(table) == "SCAN" + (" " + ("0" + (" " + ("MATCH" + (" " + pat)))));
    WordReads("SCAN", "0" + (" " + ("MATCH" + (" " + pat))));
    WordReads("0", "MATCH" + (" " + pat));
    WordReads("MATCH", pat);
    PatternReads(table, " " + tail);
    SpaceEnds(table + "*", tail);
    WordReads("COUNT", "100" + "");
    ReadBare("100", "", "", false);
    EndReads("" + "100");
    assert "" + "100" == "100";
  }

  lemma SpaceEnds(cur: string, v: string)
    ensures Read(" " + v, cur, true) == Prefixed([cur], Read(v, "", false))
  {
    assert (" " + v)[1..] == v;
  }

  lemma EndReads(cur: string)
    ensures Read("", cur, true) == Args([cur])
  {
  }

  // ---- the template in a script ------------------------------------------------------

  lemma {:induction false} EscapeNewline(p: string)
    ensures '\n' in EscapeQuotes(p) <==> '\n' in p
    decreases |p|
  {
    if p != "" {
      assert p == [p[0]] + p[1..];
      EscapeNewline(p[1..]);
    }
  }

  lemma TemplateNewline(table: string)
    ensures '\n' in ScanTemplate(table) <==> '\n' in table
  {
    hide EscapeQuotes;
    var p := table + "*";
    EscapeNewline(p);
    assert '\n' in p <==> '\n' in table;
    var a, b := "SCAN 0 MATCH ", " COUNT 100";
    assert '\n' !in a && '\n' !in b;
    assert ScanTemplate(table) == a + RedisPattern(table) + b;
  }

  /** The quoting carries a newline raw, and scripts are cut at newlines before they are
      parsed: the template runs as one command exactly when the prefix has no newline. */
  lemma ScanIsOneCommand(table: string)
    ensures RedisLexer.CommandTexts(ScanTemplate(table)) == [ScanTemplate(table)] <==> '\n' !in table
  {
    hide RedisPattern, RedisLexer.CommandTexts, Bare;
    var a, b := "SCAN 0 MATCH ", " COUNT 100";
    var t := ScanTemplate(table);
    assert t == a + RedisPattern(table) + b;
    TemplateNewline(table);
    if t in RedisLexer.CommandTexts(t) {
      RedisLexer.CommandIsLine(t, t);
    }
    if '\n' in table {
      assert t in [t];
    } else {
      assert t[0] == a[0] && t[|t| - 1] == b[|b| - 1];
      LettersAtEnds(t);
      RedisLexer.LineIsCommand(t);
    }
  }

  lemma LettersAtEnds(t: string)
    requires t != "" && t[0] == 'S' && t[|t| - 1] == '0'
    ensures Bare(t)
  {
  }
}

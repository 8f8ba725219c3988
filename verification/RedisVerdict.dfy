/**
 What a Redis command is judged by and what it runs as. The verdict of
 internal/db/split.go looks at the fields of the text; the driver in
 internal/db/redis.go sends the arguments that the argument splitter reads from
 it. The two agree on every command that runs as a destructive one exactly when
 the fields looked at are written without quotes and backslashes.
 */
module RedisVerdict {
  import opened Bytes
  import opened GoSpace
  import opened RedisCommand
  import opened Engines
  import RedisLexer

  function Upper(s: string): (r: string)
    ensures |r| == |s| && forall k | 0 <= k < |s| :: r[k] == UpperByte(s[k])
  {
    seq(|s|, k requires 0 <= k < |s| => UpperByte(s[k]))
  }

  /** The commands the verdict is about, as arguments; Redis reads their names in either case. */
  predicate Destroys(args: seq<string>) {
    args != []
    && (Upper(args[0]) in {"FLUSHALL", "FLUSHDB", "DEL", "SHUTDOWN"}
        || (Upper(args[0]) == "CONFIG" && |args| > 1 && Upper(args[1]) == "SET"))
  }

  /** The arguments the driver sends are such a command. */
  predicate RunsDestructive(stmt: string) {
    CommandLine(stmt).Args? && Destroys(CommandLine(stmt).args)
  }

  predicate Plain(field: string) { '"' !in field && '\'' !in field && '\\' !in field }

  /** The fields the verdict looks at, the first and behind CONFIG the second, are plain. */
  predicate PlainVerb(stmt: string) {
    var fields := Fields(stmt);
    && (fields != [] ==> Plain(fields[0]))
    && (|fields| > 1 && ToUpper(fields[0]) == "CONFIG" ==> Plain(fields[1]))
  }

  // ---- names ----------------------------------------------------------------------

  predicate Letters(s: string) { s != "" && forall c | c in s :: 'a' <= c <= 'z' || 'A' <= c <= 'Z' }

  lemma NameIsLetters(s: string, w: string)
    requires Upper(s) == w && w != "" && forall k | 0 <= k < |w| :: 'A' <= w[k] <= 'Z'
    ensures Letters(s)
  {
    forall c | c in s
      ensures 'a' <= c <= 'z' || 'A' <= c <= 'Z'
    {
      var k :| 0 <= k < |s| && s[k] == c;
      assert w[k] == UpperByte(s[k]);
    }
  }

  lemma {:induction false} UpperOfLetters(s: string)
    requires forall c | c in s :: 'a' <= c <= 'z' || 'A' <= c <= 'Z'
    ensures ToUpper(s) == Upper(s)
    decreases |s|
  {
    if s != "" {
      assert s[0] in s && forall c | c in s[1..] :: c in s;
      UpperOfLetters(s[1..]);
      assert Upper(s) == [UpperByte(s[0])] + Upper(s[1..]);
    }
  }

  lemma {:induction false} QuotesStay(s: string, c: char)
    requires c in s && (c == '"' || c == '\'' || c == '\\')
    ensures c in ToUpper(s)
    decreases |s|
  {
    if |s| >= 2 && c in s[2..] {
      assert s == [s[0], s[1]] + s[2..];
      assert c in s[1..] by { assert s[1..] == [s[1]] + s[2..]; }
      QuotesStay(s[2..], c);
      QuotesStay(s[1..], c);
    } else if c in s[1..] {
      QuotesStay(s[1..], c);
    }
  }

  lemma NameIsPlain(s: string, w: string)
    requires ToUpper(s) == w && Plain(w)
    ensures Plain(s)
  {
    hide ToUpper;
    if '"' in s { QuotesStay(s, '"'); }
    if '\'' in s { QuotesStay(s, '\''); }
    if '\\' in s { QuotesStay(s, '\\'); }
  }

  // ---- one argument -----------------------------------------------------------------

  /** What has been read of an argument stays its beginning. */
  lemma {:induction false} ReadKeeps(u: string, cur: string)
    requires Read(u, cur, true).Args?
    ensures var a := Read(u, cur, true).args; a != [] && cur <= a[0]
    decreases |u|
  {
    hide IndexByte, DoubleQuoted;
    if u != "" && u[0] != ' ' && u[0] != '\t' {
      if u[0] == '\'' {
        var k := IndexByte(u, '\'', 1);
        ReadKeeps(u[k + 1..], cur + u[1..k]);
      } else if u[0] == '"' {
        var p := DoubleQuoted(u[1..]).value;
        ReadKeeps(p.1, cur + p.0);
      } else if u[0] == '\\' && |u| > 1 {
        ReadKeeps(u[2..], cur + [u[1]]);
      } else {
        ReadKeeps(u[1..], cur + [u[0]]);
      }
    }
  }

  lemma {:induction false} FieldSolid(u: string)
    ensures forall k | 0 <= k < FieldLen(u) :: !AsciiSpace(u[k])
    decreases |u|
  {
    if u != "" && FrontSpace(u) == 0 {
      FieldSolid(u[1..]);
      assert forall k | 1 <= k < FieldLen(u) :: u[k] == u[1..][k - 1];
    }
  }

  /** The byte a space begins with is no letter, and stands for itself unless it separates. */
  lemma SpaceByte(u: string)
    requires FrontSpace(u) > 0
    ensures u != "" && !('a' <= u[0] <= 'z') && !('A' <= u[0] <= 'Z')
    ensures u[0] != '"' && u[0] != '\'' && u[0] != '\\'
    ensures u[0] == ' ' || u[0] == '\t' ==> FrontSpace(u) == 1
  {
  }

  /** A space that does not separate arguments becomes part of one. */
  lemma SpaceInArg(u: string, cur: string, inArg: bool, a: seq<string>)
    requires FrontSpace(u) > 0 && u[0] != ' ' && u[0] != '\t'
    requires Read(u, cur, inArg) == Args(a)
    ensures a != [] && u[0] in a[0] && !Letters(a[0])
  {
    hide FrontSpace, IndexByte, DoubleQuoted;
    SpaceByte(u);
    assert Read(u, cur, inArg) == Read(u[1..], cur + [u[0]], true);
    ReadKeeps(u[1..], cur + [u[0]]);
    assert a[0][|cur|] == (cur + [u[0]])[|cur|];
  }

  /** The first argument, when it is a word of letters, is the first field if that is plain;
      what follows the field reads as the other arguments. */
  lemma {:induction false} FirstArg(u: string, a: seq<string>) returns (v: string)
    requires Read(u, "", false) == Args(a) && a != [] && Letters(a[0])
    ensures Fields(u) != []
    ensures Plain(Fields(u)[0]) ==>
              a[0] == Fields(u)[0] && Read(v, "", false) == Args(a[1..]) && Fields(v) == Fields(u)[1..]
    decreases |u|
  {
    hide FrontSpace, IndexByte, DoubleQuoted, Letters, Read;
    ReadNothing();
    v := "";
    if FrontSpace(u) > 0 {
      SpaceByte(u);
      if u[0] == ' ' || u[0] == '\t' {
        ReadSpace(u, "", false);
        v := FirstArg(u[1..], a);
      } else {
        SpaceInArg(u, "", false, a);
      }
    } else {
      var n := FieldLen(u);
      var f := u[..n];
      v := u[n..];
      if Plain(f) {
        FieldReads(u, n);
        AfterField(v, f, a);
      }
    }
  }

  lemma ReadNothing()
    ensures Read("", "", false) == Args([])
  {
  }

  lemma ReadSpace(u: string, cur: string, inArg: bool)
    requires u != "" && (u[0] == ' ' || u[0] == '\t')
    ensures Read(u, cur, inArg) == Prefixed(if inArg then [cur] else [], Read(u[1..], "", false))
  {
    hide DoubleQuoted, IndexByte;
    var p := Read(u[1..], "", false);
    assert p.Args? ==> [] + p.args == p.args;
  }

  lemma FieldReads(u: string, n: nat)
    requires u != "" && FrontSpace(u) == 0 && n == FieldLen(u) && Plain(u[..n])
    ensures Read(u, "", false) == Read(u[n..], u[..n], true)
  {
    hide Read, FrontSpace, FieldLen, AsciiSpace, Plain, Special;
    FieldSolid(u);
    var f := u[..n];
    assert forall k | 0 <= k < |f| :: f[k] == u[k];
    NothingSpecial(f);
    ReadBare(f, u[n..], "", false);
    assert u == f + u[n..] && "" + f == f;
  }

  lemma NothingSpecial(f: string)
    requires Plain(f) && forall k | 0 <= k < |f| :: !AsciiSpace(f[k])
    ensures forall k | 0 <= k < |f| :: !Special(f[k])
  {
    assert forall k | 0 <= k < |f| :: f[k] in f;
  }

  lemma AfterField(v: string, f: string, a: seq<string>)
    requires v == "" || FrontSpace(v) > 0
    requires Read(v, f, true) == Args(a) && a != [] && Letters(a[0])
    ensures a[0] == f && Read(v, "", false) == Args(a[1..])
  {
    hide FrontSpace, Letters, Read;
    if v == "" {
      EndReads(f);
      ReadNothing();
    } else if v[0] == ' ' || v[0] == '\t' {
      ReadSpace(v, f, true);
      ReadSpace(v, "", false);
    } else {
      SpaceInArg(v, f, true, a);
    }
  }

  // ---- the verdict --------------------------------------------------------------------

  lemma DestroysLetters(args: seq<string>)
    requires Destroys(args)
    ensures Letters(args[0]) && (Upper(args[0]) == "CONFIG" ==> Letters(args[1]))
  {
    hide Letters;
    NameIsLetters(args[0], Upper(args[0]));
    if Upper(args[0]) == "CONFIG" {
      NameIsLetters(args[1], "SET");
    }
  }

  lemma FlaggedIsPlain(stmt: string)
    requires DestructiveFields(Fields(stmt))
    ensures PlainVerb(stmt)
  {
    hide ToUpper, Fields;
    var fields := Fields(stmt);
    NameIsPlain(fields[0], ToUpper(fields[0]));
    if ToUpper(fields[0]) == "CONFIG" {
      NameIsPlain(fields[1], "SET");
    }
  }

  lemma SameNames(args: seq<string>, fields: seq<string>)
    requires Destroys(args) && fields != [] && fields[0] == args[0]
    requires Upper(args[0]) == "CONFIG" ==> |fields| > 1 && fields[1] == args[1]
    ensures DestructiveFields(fields)
  {
    hide ToUpper, Upper;
    DestroysLetters(args);
    UpperOfLetters(args[0]);
    if Upper(args[0]) == "CONFIG" {
      UpperOfLetters(args[1]);
    }
  }

  /** Of the commands that run as destructive ones the verdict flags exactly those whose fields it
      looks at are plain. */
  lemma FlaggedExactly(stmt: string)
    requires RunsDestructive(stmt)
    ensures IsDestructive(Redis, stmt) <==> PlainVerb(stmt)
  {
    hide ToUpper, Upper, Fields, Read, Letters, Plain;
    if IsDestructive(Redis, stmt) {
      FlaggedIsPlain(stmt);
    }
    if PlainVerb(stmt) {
      var a, fields := CommandLine(stmt).args, Fields(stmt);
      DestroysLetters(a);
      var v := FirstArg(stmt, a);
      UpperOfLetters(a[0]) by { LettersOnly(a[0]); }
      if Upper(a[0]) == "CONFIG" {
        var _ := FirstArg(v, a[1..]);
        assert fields[1..][0] == fields[1];
      }
      SameNames(a, fields);
    }
  }

  lemma LettersOnly(s: string)
    requires Letters(s)
    ensures forall c | c in s :: 'a' <= c <= 'z' || 'A' <= c <= 'Z'
  {
  }

  /** One that is not: the name in quotes is one command of a script, runs, and is not flagged. */
  lemma QuotedNameRuns()
    ensures var stmt := "\"FLUSHALL\"";
            RedisLexer.CommandTexts(stmt) == [stmt] && RunsDestructive(stmt) && !IsDestructive(Redis, stmt)
  {
    hide Read, ToUpper, Fields, DoubleQuoted, RedisLexer.CommandTexts;
    var name, stmt := "FLUSHALL", "\"FLUSHALL\"";
    assert stmt == ['"'] + (name + "\"") && stmt[0] == '"' && stmt[|stmt| - 1] == '"';
    NameInQuotes(name);
    assert Upper(name) == name;
    QuotedLine(stmt);
    RedisLexer.LineIsCommand(stmt);
    QuotePasses(stmt);
  }

  lemma NameInQuotes(name: string)
    requires forall c | c in name :: c != '"' && c != '\\'
    ensures CommandLine(['"'] + (name + "\"")) == Args([name])
  {
    hide Read, DoubleQuoted, EscapeQuotes;
    NothingEscaped(name);
    DoubleQuotedEscaped(name, "");
    assert "\"" + "" == "\"";
    QuoteReads(name + "\"", name, "");
    EndReads(name);
  }

  lemma {:induction false} NothingEscaped(s: string)
    requires forall c | c in s :: c != '"' && c != '\\'
    ensures EscapeQuotes(s) == s
    decreases |s|
  {
    if s != "" {
      assert s[0] in s && forall c | c in s[1..] :: c in s;
      NothingEscaped(s[1..]);
    }
  }

  lemma QuotedLine(stmt: string)
    requires |stmt| >= 2 && stmt[0] == '"' && stmt[|stmt| - 1] == '"'
    ensures Bare(stmt)
  {
  }

  /** No command that begins with a quote or a backslash is flagged. */
  lemma QuotePasses(stmt: string)
    requires stmt != "" && (stmt[0] == '"' || stmt[0] == '\'' || stmt[0] == '\\')
    ensures !IsDestructive(Redis, stmt)
  {
    hide ToUpper, FieldLen;
    assert FrontSpace(stmt) == 0;
    var f := stmt[..FieldLen(stmt)];
    assert Fields(stmt)[0] == f && f[0] == stmt[0] && f[0] in f;
    if DestructiveFields(Fields(stmt)) {
      FlaggedIsPlain(stmt);
    }
  }

  // ---- the fields of the text ------------------------------------------------------

  /** The ways to write a letter so that its upper case is `c`: two bytes for a dotless i and a long s. */
  function Forms(c: char): set<string> {
    (if 'A' <= c <= 'Z' then {[c], [(c as int + 32) as char]} else {[c]})
    + (if c == 'I' then {['\U{00C4}', '\U{00B1}']} else {}) + (if c == 'S' then {['\U{00C5}', '\U{00BF}']} else {})
  }

  /** `text` writes the name letter by letter, in any case. */
  predicate Names(text: string, name: string)
    decreases |name|
  {
    if name == "" then text == ""
    else exists f :: f in Forms(name[0]) && f <= text && Names(text[|f|..], name[1..])
  }

  lemma {:induction false} UpperNames(text: string, name: string)
    requires forall k | 0 <= k < |name| :: 'A' <= name[k] <= 'Z'
    ensures ToUpper(text) == name <==> Names(text, name)
    decreases |name|
  {
    if name != "" && text != "" {
      var n := if IsWide(text) then 2 else 1;
      UpperNames(text[n..], name[1..]);
      assert name == [name[0]] + name[1..];
      UpperFirst(text);
      FormFirst(text, name);
    } else if name != "" {
      NoFormIsEmpty(name[0]);
    }
  }

  predicate IsWide(text: string) {
    |text| >= 2 && ((text[0] == '\U{00C4}' && text[1] == '\U{00B1}') || (text[0] == '\U{00C5}' && text[1] == '\U{00BF}'))
  }

  lemma UpperFirst(text: string)
    requires text != ""
    ensures var n := if IsWide(text) then 2 else 1;
            ToUpper(text)
            == [if n == 1 then UpperByte(text[0]) else if text[0] == '\U{00C4}' then 'I' else 'S'] + ToUpper(text[n..])
  {
  }

  lemma NoFormIsEmpty(c: char)
    requires 'A' <= c <= 'Z'
    ensures "" !in Forms(c)
  {
  }

  /** What stands in front is one of the letter's forms exactly when its upper case is the letter. */
  lemma FormFirst(text: string, name: string)
    requires text != "" && name != "" && forall k | 0 <= k < |name| :: 'A' <= name[k] <= 'Z'
    ensures var n := if IsWide(text) then 2 else 1; var c := name[0];
            var u := if n == 1 then UpperByte(text[0]) else if text[0] == '\U{00C4}' then 'I' else 'S';
            Names(text, name) <==> u == c && Names(text[n..], name[1..])
  {
    hide Names;
    var n := if IsWide(text) then 2 else 1;
    var f := text[..n];
    assert Names(text, name) <==> exists f :: f in Forms(name[0]) && f <= text && Names(text[|f|..], name[1..]) by {
      NamesStep(text, name);
    }
    forall g | g in Forms(name[0]) && g <= text
      ensures g == f
    {
      assert |g| == 1 ==> text[0] == g[0];
      assert |g| == 2 ==> text[0] == g[0] && text[1] == g[1];
    }
    assert f <= text;
    assert f in Forms(name[0]) <==> (if n == 1 then UpperByte(text[0]) else if text[0] == '\U{00C4}' then 'I' else 'S') == name[0];
  }

  lemma NamesStep(text: string, name: string)
    requires name != ""
    ensures Names(text, name) <==> exists f :: f in Forms(name[0]) && f <= text && Names(text[|f|..], name[1..])
  {
  }

  lemma CommandNames()
    ensures forall w | w in {"FLUSHALL", "FLUSHDB", "DEL", "SHUTDOWN", "CONFIG", "SET"} ::
              forall k | 0 <= k < |w| :: 'A' <= w[k] <= 'Z'
  {
  }

  /** Exactly these Redis commands are flagged, by the fields of their text. */
  lemma VerdictFromFields(stmt: string)
    ensures var fields := Fields(stmt);
            IsDestructive(Redis, stmt)
            <==> fields != []
                 && (Names(fields[0], "FLUSHALL") || Names(fields[0], "FLUSHDB") || Names(fields[0], "DEL")
                     || Names(fields[0], "SHUTDOWN")
                     || (Names(fields[0], "CONFIG") && |fields| > 1 && Names(fields[1], "SET")))
  {
    hide ToUpper, Names, Fields;
    CommandNames();
    var fields := Fields(stmt);
    if fields != [] {
      UpperNames(fields[0], "FLUSHALL");
      UpperNames(fields[0], "FLUSHDB");
      UpperNames(fields[0], "DEL");
      UpperNames(fields[0], "SHUTDOWN");
      UpperNames(fields[0], "CONFIG");
      if |fields| > 1 {
        UpperNames(fields[1], "SET");
      }
    }
  }
}

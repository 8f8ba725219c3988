/**
 Parse and readArg of internal/meta/meta.go: reading a backslash command. Which
 texts parse, and to what, is given by a printed form, independent of how the
 reader scans; the reader is proved to accept exactly those texts.
 */
module Meta {
  import opened Bytes
  import opened Lexer
  import opened Splitter
  import EditDistance
  import Resplit
  import opened SchemaTemplate

  datatype Command = Command(verb: string, plus: bool, arg: string)

  datatype Outcome =
    | Parsed(command: Command)
    | NotMeta
    | Incomplete
    | UnknownVerb(verb: string)
    | Malformed
    | Unterminated
    | TooMany(extra: string)

  predicate IsVerbByte(c: char) { 'a' <= c <= 'z' || 'A' <= c <= 'Z' }

  predicate IsBlank(c: char) { c == ' ' || c == '\t' }

  // ---- the reader, as functions ---------------------------------------------------

  function VerbRun(s: string, i: nat): (k: nat)
    requires i <= |s|
    ensures i <= k <= |s| && (forall j | i <= j < k :: IsVerbByte(s[j])) && (k < |s| ==> !IsVerbByte(s[k]))
    decreases |s| - i
  {
    if i < |s| && IsVerbByte(s[i]) then VerbRun(s, i + 1) else i
  }

  function BlankFrom(s: string, i: nat): (k: nat)
    requires i <= |s|
    ensures i <= k <= |s| && (forall j | i <= j < k :: !IsBlank(s[j])) && (k < |s| ==> IsBlank(s[k]))
    decreases |s| - i
  {
    if i < |s| && !IsBlank(s[i]) then BlankFrom(s, i + 1) else i
  }

  /** The content of a quoted name being read at `i`, and where the text after it begins. */
  function QuotedFrom(s: string, i: nat): (r: Option<(string, nat)>)
    requires i <= |s|
    ensures r.Some? ==> i < r.value.1 <= |s|
    decreases |s| - i
  {
    if i == |s| then None
    else if s[i] == '"' && !(i + 1 < |s| && s[i + 1] == '"') then Some(("", i + 1))
    else
      match QuotedFrom(s, if s[i] == '"' then i + 2 else i + 1)
      case Some((name, end)) => Some(([s[i]] + name, end))
      case None => None
  }

  /** readArg: the argument and the text after it, None for an unterminated quote. */
  function ArgOf(s: string): Option<(string, string)> {
    if s == "" then Some(("", ""))
    else if s[0] != '"' then Some((s[..BlankFrom(s, 0)], s[BlankFrom(s, 0)..]))
    else
      match QuotedFrom(s, 1)
      case Some((name, end)) => Some((name, s[end..]))
      case None => None
  }

  function VerbEnd(rest: string): (k: nat)
    ensures k <= |rest|
  {
    var i := VerbRun(rest, 0);
    if i == 0 && rest != "" && rest[0] == '?' then 1 else i
  }

  /** Parse of an already trimmed statement. */
  function ParseText(s: string): Outcome {
    if s == "" || s[0] != '\\' then NotMeta
    else
      var rest := s[1..];
      var verb := rest[..VerbEnd(rest)];
      var more := rest[VerbEnd(rest)..];
      if verb == "" then Incomplete
      else
        var plus := more != "" && more[0] == '+';
        AfterVerb(verb, plus, if plus then more[1..] else more)
  }

  function AfterVerb(verb: string, plus: bool, rest: string): Outcome {
    if verb !in EditDistance.VERBS then UnknownVerb(verb)
    else if rest != "" && !IsBlank(rest[0]) then Malformed
    else
      match ArgOf(TrimSpace(rest))
      case None => Unterminated
      case Some((arg, tail)) =>
        if TrimSpace(tail) != "" then TooMany(TrimSpace(tail)) else Parsed(Command.Command(verb, plus, arg))
  }

  // ---- the printed form ---------------------------------------------------------------

  function QuotedText(name: string): string { ['"'] + Double(name, '"') + ['"'] }

  /** `text` writes the argument `arg`: nothing, a quoted name, or a bare word. */
  predicate Writes(text: string, arg: string) {
    || text == arg == ""
    || text == QuotedText(arg)
    || (text == arg && text != "" && text[0] != '"' && !IsSpace(text[0]) && forall k | 0 <= k < |text| :: !IsBlank(text[k]))
  }

  predicate IsGap(gap: string) { gap != "" && IsBlank(gap[0]) && AllSpace(gap, 0, |gap|) }

  function Spelling(c: Command, after: string): string {
    ['\\'] + (c.verb + ((if c.plus then "+" else "") + after))
  }

  /** `s` spells `c`: its verb, an optional +, and after a blank the argument. */
  ghost predicate Spells(s: string, c: Command) {
    && c.verb in EditDistance.VERBS
    && exists gap, text :: s == Spelling(c, gap + text) && SpellsArg(gap, text, c.arg)
  }

  predicate SpellsArg(gap: string, text: string, arg: string) {
    Writes(text, arg) && if text == "" then gap == "" else IsGap(gap)
  }

  predicate Trimmed(s: string) { s == "" || (!IsSpace(s[0]) && !IsSpace(s[|s| - 1])) }

  lemma TrimSpaceTrims(s: string)
    ensures Trimmed(TrimSpace(s))
  {
    hide Trim;
  }

  // ---- quoted names -----------------------------------------------------------------

  /** Reading a printed name gives the name and stops at its closing quote. */
  lemma {:induction false} QuotedReads(s: string, i: nat, name: string, v: string)
    requires i <= |s| && s[i..] == Double(name, '"') + (['"'] + v) && (v != "" ==> v[0] != '"')
    ensures QuotedFrom(s, i) == Some((name, |s| - |v|))
    decreases |name|
  {
    var t := s[i..];
    assert |s| - i == |t| && forall k | 0 <= k < |t| :: t[k] == s[i + k];
    if name == "" {
      assert t[0] == '"' && (v != "" ==> t[1] == v[0]);
    } else {
      var e := Double(name[1..], '"') + (['"'] + v);
      if name[0] == '"' {
        assert t == ['"', '"'] + e;
        assert t[0] == '"' && t[1] == '"';
        assert s[i + 2..] == t[2..] == e;
        QuotedReads(s, i + 2, name[1..], v);
      } else {
        assert t == [name[0]] + e;
        assert t[0] == name[0];
        assert s[i + 1..] == t[1..] == e;
        QuotedReads(s, i + 1, name[1..], v);
      }
      assert name == [name[0]] + name[1..];
    }
  }

  /** What is read as a name was printed as one. */
  lemma {:induction false} QuotedWas(s: string, i: nat)
    requires i <= |s| && QuotedFrom(s, i).Some?
    ensures var (name, end) := QuotedFrom(s, i).value; s[i..end] == Double(name, '"') + ['"']
    decreases |s| - i
  {
    if s[i] == '"' && !(i + 1 < |s| && s[i + 1] == '"') {
      assert s[i..i + 1] == ['"'];
    } else {
      var next := if s[i] == '"' then i + 2 else i + 1;
      QuotedWas(s, next);
      var (name, end) := QuotedFrom(s, next).value;
      assert s[i..end] == s[i..next] + s[next..end];
      assert ([s[i]] + name)[1..] == name;
    }
  }

  // ---- arguments ------------------------------------------------------------------------

  /** A written argument reads back, with nothing after it. */
  lemma WrittenReads(text: string, arg: string)
    requires Writes(text, arg)
    ensures ArgOf(text) == Some((arg, ""))
  {
    hide Double, QuotedFrom;
    if text == QuotedText(arg) {
      assert text[1..] == Double(arg, '"') + (['"'] + "");
      QuotedReads(text, 1, arg, "");
      assert text[|text|..] == "";
    } else if text != "" {
      assert text[..|text|] == text && text[|text|..] == "";
    }
  }

  /** An argument read to the end was written so. */
  lemma ReadWritten(text: string)
    requires ArgOf(text).Some? && ArgOf(text).value.1 == "" && (text != "" ==> !IsSpace(text[0]))
    ensures Writes(text, ArgOf(text).value.0)
  {
    hide Double, QuotedFrom;
    if text != "" {
      if text[0] == '"' {
        QuotedWas(text, 1);
        var (name, end) := QuotedFrom(text, 1).value;
        assert text[end..] == "" && text == [text[0]] + text[1..end];
      } else {
        var k := BlankFrom(text, 0);
        assert text == text[..k] + text[k..];
      }
    }
  }

  lemma WrittenEnds(text: string, arg: string)
    requires Writes(text, arg) && text != ""
    ensures !IsSpace(text[0])
  {
    hide Double;
  }

  // ---- exactly the spelled texts parse ------------------------------------------------------

  lemma TailSpaces(s: string, tail: string, k: nat)
    requires Trimmed(s) && k <= |s| && tail == s[k..]
    ensures TrimSpace(tail) == "" <==> tail == ""
  {
    var r := Trim(tail, 0, |tail|);
    if tail != "" {
      assert tail[|tail| - 1] == s[|s| - 1];
    }
  }

  /** After the verb: a blank and an argument, to the end of a trimmed text. */
  lemma GapReads(verb: string, plus: bool, gap: string, text: string, arg: string)
    requires verb in EditDistance.VERBS && SpellsArg(gap, text, arg) && Trimmed(text)
    ensures AfterVerb(verb, plus, gap + text) == Parsed(Command.Command(verb, plus, arg))
  {
    hide Double, ArgOf, TrimSpace, Trim;
    var rest := gap + text;
    WrittenReads(text, arg);
    assert TrimSpace("") == "" by { TrimNothing(); }
    if text == "" {
      assert rest == "";
    } else {
      WrittenEnds(text, arg);
      assert forall k | 0 <= k < |gap| :: rest[k] == gap[k];
      assert rest[|gap|] == text[0] && rest[|rest| - 1] == text[|text| - 1];
      TrimUnique(rest, 0, |rest|, Range(|gap|, |rest|));
      TrimIs(rest, Range(|gap|, |rest|));
      assert rest[|gap|..|rest|] == text;
    }
  }

  lemma TrimIs(s: string, r: Range)
    requires Trim(s, 0, |s|) == r
    ensures r.start <= r.end <= |s| && TrimSpace(s) == s[r.start..r.end]
  {
  }

  lemma TrimNothing()
    ensures TrimSpace("") == ""
  {
  }

  /** What parses after the verb is a blank and a written argument. */
  lemma ParsedGap(verb: string, plus: bool, rest: string) returns (gap: string, text: string)
    requires AfterVerb(verb, plus, rest).Parsed? && (rest != "" ==> !IsSpace(rest[|rest| - 1]))
    ensures rest == gap + text && verb in EditDistance.VERBS
    ensures SpellsArg(gap, text, AfterVerb(verb, plus, rest).command.arg)
  {
    hide Double, ArgOf;
    var r := Trim(rest, 0, |rest|);
    gap, text := rest[..r.start], rest[r.start..];
    if rest == "" {
      assert text == "" && TrimSpace("") == "" by { TrimNothing(); }
    }
    assert r.end == |rest|;
    assert TrimSpace(rest) == text by { assert rest[r.start..|rest|] == rest[r.start..]; }
    var (arg, tail) := ArgOf(text).value;
    var k := ArgSplits(text);
    assert Trimmed(text) by {
      if text != "" {
        assert text[|text| - 1] == rest[|rest| - 1];
      }
    }
    TailSpaces(text, tail, k);
    ReadWritten(text);
    assert text == "" ==> rest == "";
  }

  lemma ArgSplits(text: string) returns (k: nat)
    requires ArgOf(text).Some?
    ensures k <= |text| && ArgOf(text).value.1 == text[k..]
  {
    k := if text == "" then 0
         else if text[0] != '"' then BlankFrom(text, 0)
         else QuotedFrom(text, 1).value.1;
  }

  lemma VerbsAre(verb: string)
    requires verb in EditDistance.VERBS
    ensures verb != "" && (verb == "?" || forall k | 0 <= k < |verb| :: IsVerbByte(verb[k]))
  {
  }

  /** A listed verb before anything but a letter is read whole. */
  lemma VerbReads(verb: string, v: string)
    requires verb in EditDistance.VERBS && (v != "" ==> v[0] == '+' || IsBlank(v[0]))
    ensures VerbEnd(verb + v) == |verb|
  {
    VerbsAre(verb);
    var rest := verb + v;
    assert forall k | 0 <= k < |verb| :: rest[k] == verb[k];
    assert v != "" ==> rest[|verb|] == v[0];
  }

  /** Exactly the texts that spell a command parse, and to that command. */
  lemma ParseExactly(stmt: string, c: Command)
    ensures ParseText(TrimSpace(stmt)) == Parsed(c) <==> Spells(TrimSpace(stmt), c)
  {
    hide TrimSpace, AfterVerb, VerbEnd, SpellsArg;
    var s := TrimSpace(stmt);
    TrimSpaceTrims(stmt);
    if ParseText(s) == Parsed(c) {
      ParsedSpells(s, c);
    }
    if Spells(s, c) {
      var gap, text :| s == Spelling(c, gap + text) && SpellsArg(gap, text, c.arg);
      SpelledParses(s, c, gap, text);
    }
  }

  lemma ParsedSpells(s: string, c: Command)
    requires Trimmed(s) && ParseText(s) == Parsed(c)
    ensures Spells(s, c)
  {
    hide AfterVerb, SpellsArg, Spelling, Trimmed, IsSpace;
    var after := ReadHead(s, c);
    var gap, text := ParsedGap(c.verb, c.plus, after);
    assert s == Spelling(c, gap + text);
  }

  /** The text after the verb and its +. */
  lemma ReadHead(s: string, c: Command) returns (after: string)
    requires Trimmed(s) && ParseText(s) == Parsed(c)
    ensures s == Spelling(c, after) && AfterVerb(c.verb, c.plus, after) == Parsed(c)
    ensures after != "" ==> !IsSpace(after[|after| - 1])
  {
    hide AfterVerb, VerbEnd, Spelling;
    var rest := s[1..];
    var k := VerbEnd(rest);
    var plus := rest[k..] != "" && rest[k..][0] == '+';
    after := if plus then rest[k..][1..] else rest[k..];
    AfterVerbKeeps(rest[..k], plus, after);
    assert after != "" ==> after[|after| - 1] == s[|s| - 1];
    assert rest[k..] == (if plus then "+" else "") + after;
    SpellingOf(s, k, c, after);
  }

  lemma SpellingOf(s: string, k: nat, c: Command, after: string)
    requires s != "" && s[0] == '\\' && k <= |s| - 1 && c.verb == s[1..][..k]
    requires s[1..][k..] == (if c.plus then "+" else "") + after
    ensures s == Spelling(c, after)
  {
    assert s == [s[0]] + s[1..];
    assert s[1..] == s[1..][..k] + s[1..][k..];
  }

  lemma AfterVerbKeeps(verb: string, plus: bool, rest: string)
    ensures var r := AfterVerb(verb, plus, rest); r.Parsed? ==> r.command.verb == verb && r.command.plus == plus
  {
    hide ArgOf, TrimSpace;
  }

  lemma SpelledParses(s: string, c: Command, gap: string, text: string)
    requires Trimmed(s) && c.verb in EditDistance.VERBS && s == Spelling(c, gap + text) && SpellsArg(gap, text, c.arg)
    ensures ParseText(s) == Parsed(c)
  {
    hide AfterVerb, VerbEnd, Writes;
    var plus := if c.plus then "+" else "";
    var more := plus + (gap + text);
    assert s[1..] == c.verb + more;
    assert more != "" ==> more[0] == '+' || IsBlank(more[0]);
    VerbReads(c.verb, more);
    VerbsAre(c.verb);
    assert (c.verb + more)[..|c.verb|] == c.verb && (c.verb + more)[|c.verb|..] == more;
    assert (if c.plus then more[1..] else more) == gap + text;
    assert (more != "" && more[0] == '+') == c.plus;
    assert Trimmed(text) by {
      if text != "" {
        WrittenEnds(text, c.arg);
        assert text[|text| - 1] == s[|s| - 1];
      }
    }
    GapReads(c.verb, c.plus, gap, text, c.arg);
  }

  // ---- a described name comes back ------------------------------------------------------------

  predicate NoNewline(s: string, a: nat, b: nat)
    requires a <= b <= |s|
  {
    forall k | a <= k < b :: s[k] != '\n'
  }

  lemma TakesOn(s: string, toks: seq<Span>, end: nat)
    requires InOrder(s, toks, end) && end <= |s| && toks != []
    requires NoNewline(s, end, toks[0].start) && !IsPunct(s, toks[0], ';')
    ensures InOrder(s, toks[1..], toks[0].end) && toks[0].end <= |s|
    ensures MetaTaken(s, toks, end) == 1 + MetaTaken(s, toks[1..], toks[0].end)
  {
    hide MetaTaken, InOrder;
    InOrderHead(s, toks, end);
    MetaTakenStep(s, toks, end);
    IndexByteFirst(s, '\n', end);
  }

  /** The tokens of a printed name standing at `i`, to the end of the text. */
  lemma NameSpan(s: string, i: nat, name: string, backtick: bool)
    requires i < |s| && s[i..] == QuotedText(name)
    ensures Spans(s, i, backtick) == [Span(Quoted, i, |s|)]
  {
    hide Double, NameEnd;
    var q := QuotedText(name);
    assert s[i] == s[i..][0];
    assert s[i + 1..] == s[i..][1..] == Double(name, '"') + (['"'] + "");
    NameEndDouble(s, i + 1, name, "");
    SpansStep(s, i, backtick);
    SpansEnd(s, backtick);
  }

  lemma DescribeSpans(s: string, name: string, plus: bool, backtick: bool)
    requires s == "\\d" + (if plus then "+" else "") + " " + QuotedText(name)
    ensures var n := if plus then 3 else 2;
            Spans(s, 0, backtick)
            == [Span(Punct, 0, 1), Span(Word, 1, 2)] + (if plus then [Span(Punct, 2, 3)] else []) + [Span(Quoted, n + 1, |s|)]
  {
    hide Spans, Double;
    var n := if plus then 3 else 2;
    assert s[0] == '\\' && s[1] == 'd' && s[n] == ' ' && (plus ==> s[2] == '+');
    assert s[n + 1..] == QuotedText(name);
    NameSpan(s, n + 1, name, backtick);
    DescribeSteps(s, plus, backtick);
  }

  /** One step for each of the bytes before the name. */
  lemma DescribeSteps(s: string, plus: bool, backtick: bool)
    requires var n := if plus then 3 else 2;
             |s| > n + 1 && s[0] == '\\' && s[1] == 'd' && s[n] == ' ' && (plus ==> s[2] == '+')
    ensures var n := if plus then 3 else 2;
            Spans(s, 0, backtick)
            == [Span(Punct, 0, 1), Span(Word, 1, 2)] + (if plus then [Span(Punct, 2, 3)] else []) + Spans(s, n + 1, backtick)
  {
    hide Spans, DollarOpens, WordEnd;
    var n := if plus then 3 else 2;
    SpansStep(s, 0, backtick);
    SpansStep(s, 1, backtick);
    WordEndRun(s, 2);
    if plus {
      SpansStep(s, 2, backtick);
    }
    SpansStep(s, n, backtick);
  }

  lemma DescribeSplits(name: string, plus: bool, backtick: bool)
    ensures var stmt := "\\d" + (if plus then "+" else "") + " " + QuotedText(name);
            StatementTexts(stmt, backtick) == [stmt]
  {
    hide Double, MetaTaken, MetaEnd, Spans, StatementTexts, InOrder;
    var s := "\\d" + (if plus then "+" else "") + " " + QuotedText(name);
    DescribeSpans(s, name, plus, backtick);
    var c := Spans(s, 0, backtick);
    var n := if plus then 3 else 2;
    assert s[0] == '\\' && s[n] == ' ' && s[|s| - 1] == '"' && (plus ==> s[2] == '+');
    SpansInOrder(s, 0, backtick);
    InOrderHead(s, c, 0);
    TakesOn(s, c[1..], 1);
    if plus {
      TakesOn(s, c[1..][1..], 2);
    }
    var last := [Span(Quoted, n + 1, |s|)];
    assert (if plus then c[1..][1..][1..] else c[1..][1..]) == last;
    TakesOn(s, last, n);
    MetaTakenStep(s, [], |s|);
    assert last[1..] == [];
    Resplit.MetaWhole(s, backtick);
  }

  /** `\d` with any quoted table name is one statement in a script, and parses to that name. */
  lemma DescribeRoundTrip(name: string, plus: bool, backtick: bool)
    ensures var stmt := "\\d" + (if plus then "+" else "") + " " + QuotedText(name);
            StatementTexts(stmt, backtick) == [stmt]
            && ParseText(TrimSpace(stmt)) == Parsed(Command.Command("d", plus, name))
  {
    hide Double, Trim, ParseText, StatementTexts, AllSpace;
    var c := Command.Command("d", plus, name);
    var stmt := "\\d" + (if plus then "+" else "") + " " + QuotedText(name);
    assert stmt == Spelling(c, " " + QuotedText(name));
    assert EditDistance.VERBS[1] == "d";
    assert stmt[0] == '\\' && stmt[|stmt| - 1] == '"';
    OneBlank(name);
    SpelledParses(stmt, c, " ", QuotedText(name));
    assert TrimSpace(stmt) == stmt by { TrimWhole(stmt); }
    DescribeSplits(name, plus, backtick);
  }

  lemma OneBlank(name: string)
    ensures SpellsArg(" ", QuotedText(name), name)
  {
    hide Double;
  }

  lemma TrimWhole(s: string)
    requires s != "" && Trimmed(s)
    ensures TrimSpace(s) == s
  {
    TrimUnique(s, 0, |s|, Range(0, |s|));
    TrimIs(s, Range(0, |s|));
    assert s[0..|s|] == s;
  }

  // ---- the reading loops ----------------------------------------------------------------------

  /** readArg. */
  method ReadArg(s: string) returns (r: Option<(string, string)>)
    ensures r == ArgOf(s)
  {
    if s == "" {
      return Some(("", ""));
    }
    if s[0] != '"' {
      var i: nat := 0;
      while i < |s| && !IsBlank(s[i])
        invariant i <= |s| && BlankFrom(s, i) == BlankFrom(s, 0)
      {
        i := i + 1;
      }
      return Some((s[..i], s[i..]));
    }
    var name := "";
    var i: nat := 1;
    BeforeNothing(QuotedFrom(s, 1));
    while i < |s|
      invariant i <= |s| && QuotedFrom(s, 1) == Before(name, QuotedFrom(s, i))
    {
      if s[i] == '"' {
        if i + 1 < |s| && s[i + 1] == '"' {
          BeforeStep(s, i, name);
          name := name + "\"";
          i := i + 2;
          continue;
        }
        assert name + "" == name;
        return Some((name, s[i + 1..]));
      }
      BeforeStep(s, i, name);
      name := name + [s[i]];
      i := i + 1;
    }
    return None;
  }

  /** A reading with `name` already taken in. */
  function Before(name: string, r: Option<(string, nat)>): Option<(string, nat)> {
    match r
    case None => None
    case Some((more, end)) => Some((name + more, end))
  }

  lemma BeforeNothing(r: Option<(string, nat)>)
    ensures Before("", r) == r
  {
    if r.Some? {
      assert "" + r.value.0 == r.value.0;
    }
  }

  lemma BeforeStep(s: string, i: nat, name: string)
    requires i < |s| && (s[i] == '"' ==> i + 1 < |s| && s[i + 1] == '"')
    ensures Before(name, QuotedFrom(s, i)) == Before(name + [s[i]], QuotedFrom(s, if s[i] == '"' then i + 2 else i + 1))
  {
    var r := QuotedFrom(s, if s[i] == '"' then i + 2 else i + 1);
    if r.Some? {
      assert name + ([s[i]] + r.value.0) == name + [s[i]] + r.value.0;
    }
  }

  /** Parse, with the suggestion made for an unknown verb. */
  method Parse(stmt: string) returns (r: Outcome, suggestion: Option<string>)
    ensures r == ParseText(TrimSpace(stmt))
    ensures r.UnknownVerb? ==> EditDistance.Suggests(r.verb, suggestion)
  {
    hide ArgOf, TrimSpace;
    suggestion := None;
    var s := TrimSpace(stmt);
    if s == "" || s[0] != '\\' {
      return NotMeta, None;
    }
    var rest := s[1..];
    var i: nat := 0;
    while i < |rest| && IsVerbByte(rest[i])
      invariant i <= |rest| && VerbRun(rest, i) == VerbRun(rest, 0)
    {
      i := i + 1;
    }
    if i == 0 && rest != "" && rest[0] == '?' {
      i := 1;
    }
    var verb := rest[..i];
    if verb == "" {
      return Incomplete, None;
    }
    rest := rest[i..];
    var plus := false;
    if rest != "" && rest[0] == '+' {
      plus, rest := true, rest[1..];
    }
    if verb !in EditDistance.VERBS {
      suggestion := EditDistance.UnknownVerb(verb);
      return UnknownVerb(verb), suggestion;
    }
    if rest != "" && !IsBlank(rest[0]) {
      return Malformed, None;
    }
    var arg := ReadArg(TrimSpace(rest));
    if arg.None? {
      return Unterminated, None;
    }
    if TrimSpace(arg.value.1) != "" {
      return TooMany(TrimSpace(arg.value.1)), None;
    }
    return Parsed(Command.Command(verb, plus, arg.value.0)), None;
  }
}

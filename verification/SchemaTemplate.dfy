/**
 schemaTemplate, quoteTable and quoteIdent of internal/ui/schema.go: the SELECT
 the schema panel inserts. Printed names must come back from the lexer as the
 names they were, and the whole template as one harmless statement.
 */
module SchemaTemplate {
  import opened Bytes
  import opened Lexer
  import opened LexerWindow
  import opened Splitter
  import opened Resplit
  import Concat
  import opened Engines
  import opened Printing

  // ---- printing ---------------------------------------------------------------

  predicate PlainByte(c: char, first: bool) {
    'a' <= c <= 'z' || c == '_' || (IsDigit(c) && !first)
  }

  predicate PlainIdent(name: string) {
    name != "" && PlainByte(name[0], true) && forall k | 0 < k < |name| :: PlainByte(name[k], false)
  }

  /** ReplaceAll of a quote by two of it. */
  function Double(name: string, quote: char): string {
    if name == "" then ""
    else (if name[0] == quote then [quote, quote] else [name[0]]) + Double(name[1..], quote)
  }

  function QuoteByte(engine: Engine): char { if engine == ClickHouse then '`' else '"' }

  function QuoteIdent(engine: Engine, name: string): string {
    if PlainIdent(name) then name
    else [QuoteByte(engine)] + Double(name, QuoteByte(engine)) + [QuoteByte(engine)]
  }

  function QuoteTable(engine: Engine, table: string): string {
    var k := IndexByte(table, '.', 0);
    if k == |table| then QuoteIdent(engine, table)
    else QuoteIdent(engine, table[..k]) + "." + QuoteIdent(engine, table[k + 1..])
  }

  /** strings.Join of the quoted names with ", ". */
  function JoinNames(engine: Engine, names: seq<string>): string {
    if names == [] then ""
    else if |names| == 1 then QuoteIdent(engine, names[0])
    else QuoteIdent(engine, names[0]) + ", " + JoinNames(engine, names[1..])
  }

  /** The statement inserted for a SQL table, without its semicolon. */
  function SelectText(engine: Engine, table: string, cols: seq<string>): string {
    "SELECT " + (if cols == [] then "*" else JoinNames(engine, cols)) + " FROM " + QuoteTable(engine, table) + " LIMIT 100"
  }

  // ---- what the lexer reads back -------------------------------------------------

  /** A token without its position. */
  datatype Item = Item(kind: TokenKind, text: string)

  function Items(s: string, toks: seq<Span>): (r: seq<Item>)
    requires Within(s, toks)
    ensures |r| == |toks|
  {
    seq(|toks|, k requires 0 <= k < |toks| => Item(toks[k].kind, TextOf(s, toks[k])))
  }

  function ItemsOf(s: string, backtick: bool): seq<Item> {
    Items(s, Spans(s, 0, backtick))
  }

  /** The stretches of a name between its backticks, each read as a quoted name. */
  function Pieces(name: string): (r: seq<Item>)
    ensures r != []
    decreases |name|
  {
    var k := IndexByte(name, '`', 0);
    if k == |name| then [Item(Quoted, name)] else [Item(Quoted, name[..k])] + Pieces(name[k + 1..])
  }

  /** What a printed name reads back as. */
  function IdentItems(engine: Engine, name: string): (r: seq<Item>)
    ensures r != []
  {
    if PlainIdent(name) then [Item(Word, name)]
    else if engine == ClickHouse then Pieces(name)
    else [Item(Quoted, name)]
  }

  /** What it is meant to read back as: the one name. */
  function NameItem(name: string): Item { Item(if PlainIdent(name) then Word else Quoted, name) }

  function ListItems(engine: Engine, names: seq<string>): seq<Item> {
    if names == [] then []
    else if |names| == 1 then IdentItems(engine, names[0])
    else IdentItems(engine, names[0]) + ([Item(Punct, ",")] + ListItems(engine, names[1..]))
  }

  /** The parts a table name is printed in. */
  function TableParts(table: string): (r: seq<string>)
    ensures |r| == 1 || |r| == 2
  {
    var k := IndexByte(table, '.', 0);
    if k == |table| then [table] else [table[..k], table[k + 1..]]
  }

  function TableItems(engine: Engine, table: string): seq<Item> {
    var parts := TableParts(table);
    if |parts| == 1 then IdentItems(engine, parts[0])
    else IdentItems(engine, parts[0]) + ([Item(Punct, ".")] + IdentItems(engine, parts[1]))
  }

  /** The tokens of the template. */
  function SelectItems(engine: Engine, table: string, cols: seq<string>): seq<Item> {
    [Item(Word, "SELECT")]
    + ((if cols == [] then [Item(Punct, "*")] else ListItems(engine, cols))
       + ([Item(Word, "FROM")] + (TableItems(engine, table) + [Item(Word, "LIMIT"), Item(Number, "100")])))
  }

  /** The same with every name read back as itself. */
  function IntendedList(names: seq<string>): seq<Item> {
    if names == [] then []
    else if |names| == 1 then [NameItem(names[0])]
    else [NameItem(names[0])] + ([Item(Punct, ",")] + IntendedList(names[1..]))
  }

  function IntendedTable(table: string): seq<Item> {
    var parts := TableParts(table);
    if |parts| == 1 then [NameItem(parts[0])]
    else [NameItem(parts[0])] + ([Item(Punct, ".")] + [NameItem(parts[1])])
  }

  function IntendedItems(table: string, cols: seq<string>): seq<Item> {
    [Item(Word, "SELECT")]
    + ((if cols == [] then [Item(Punct, "*")] else IntendedList(cols))
       + ([Item(Word, "FROM")] + (IntendedTable(table) + [Item(Word, "LIMIT"), Item(Number, "100")])))
  }

  // ---- lexing text piece by piece -------------------------------------------------

  lemma TailSpan(u: string, n: nat, t: Span)
    requires n <= t.start < t.end <= |u|
    ensures TextOf(u[n..|u|], Span(t.kind, t.start - n, t.end - n)) == TextOf(u, t)
  {
    hide Unquote;
    SliceOfSlice(u, n, |u|, t.start - n, t.end - n);
  }

  /** From a position the lexer visits, the items are those of the rest of the text. */
  lemma {:induction false} ClippedItems(u: string, toks: seq<Span>, n: nat, from: nat)
    requires n <= from <= |u| && Tiled(u, toks, from) && Within(u, toks)
    ensures Within(u[n..|u|], Clipped(u, toks, n, |u|))
    ensures Items(u[n..|u|], Clipped(u, toks, n, |u|)) == Items(u, toks)
    decreases |toks|
  {
    hide TextOf;
    if toks != [] {
      assert toks == [toks[0]] + toks[1..];
      assert Within(u, toks[1..]) by { assert forall k | 0 <= k < |toks| - 1 :: toks[1..][k] == toks[k + 1]; }
      ClippedStep(u, toks[0], toks[1..], n, |u|);
      ClippedItems(u, toks[1..], n, toks[0].end);
      TailSpan(u, n, toks[0]);
      ItemsCons(u, toks[0], toks[1..]);
      ItemsCons(u[n..|u|], Span(toks[0].kind, toks[0].start - n, toks[0].end - n), Clipped(u, toks[1..], n, |u|));
    }
  }

  lemma ItemsCons(s: string, t: Span, rest: seq<Span>)
    requires t.start < t.end <= |s| && Within(s, rest)
    ensures Within(s, [t] + rest)
    ensures Items(s, [t] + rest) == [Item(t.kind, TextOf(s, t))] + Items(s, rest)
  {
    hide TextOf;
  }

  /** The lexer reads one element off the front of `u`, then the rest. */
  lemma FrontStep(u: string, backtick: bool)
    requires u != ""
    ensures var (kind, end) := StepAt(u, 0, backtick);
            ItemsOf(u, backtick)
            == (if kind.None? then [] else [Item(kind.value, TextOf(u, Span(kind.value, 0, end)))]) + ItemsOf(u[end..], backtick)
  {
    hide StepAt, Spans, Tiled, Clipped, Items, TextOf;
    var (kind, end) := StepAt(u, 0, backtick);
    var rest := Spans(u, end, backtick);
    SpansStep(u, 0, backtick);
    TokensTiled(u, end, backtick);
    assert u[end..] == u[end..|u|];
    WindowSpans(u, end, |u|, end, backtick);
    ClippedItems(u, rest, end, end);
    if kind.Some? {
      ItemsCons(u, Span(kind.value, 0, end), rest);
    } else {
      assert [] + ItemsOf(u[end..], backtick) == ItemsOf(u[end..], backtick);
    }
  }

  predicate AllWord(w: string) {
    forall k | 0 <= k < |w| :: IsWordByte(w[k])
  }

  lemma WordFront(w: string, v: string, backtick: bool)
    requires w != "" && AllWord(w) && !IsDigit(w[0]) && (v != "" ==> !IsWordByte(v[0]))
    ensures ItemsOf(w + v, backtick) == [Item(Word, w)] + ItemsOf(v, backtick)
  {
    var u := w + v;
    hide ItemsOf;
    FrontStep(u, backtick);
    WordEndRun(u, 1);
    assert u[|w|..] == v && u[0..|w|] == w;
    assert forall k | 0 <= k < |w| :: u[k] == w[k];
    assert v != "" ==> u[|w|] == v[0];
    assert WordEnd(u, 1) == |w|;
  }

  lemma SpaceFront(v: string, backtick: bool)
    ensures ItemsOf(" " + v, backtick) == ItemsOf(v, backtick)
  {
    hide ItemsOf;
    FrontStep(" " + v, backtick);
    assert (" " + v)[1..] == v;
  }

  lemma PunctFront(c: char, v: string, backtick: bool)
    requires c == ',' || c == '.' || c == '*' || c == ';'
    ensures ItemsOf([c] + v, backtick) == [Item(Punct, [c])] + ItemsOf(v, backtick)
  {
    hide ItemsOf;
    var u := [c] + v;
    FrontStep(u, backtick);
    assert u[1..] == v && u[0..1] == [c];
  }

  lemma HundredFront(v: string, backtick: bool)
    requires v == "" || v[0] == ';'
    ensures ItemsOf("100" + v, backtick) == [Item(Number, "100")] + ItemsOf(v, backtick)
  {
    hide ItemsOf;
    var u := "100" + v;
    FrontStep(u, backtick);
    WordEndRun(u, 1);
    assert u[0] == '1' && u[1] == '0' && u[2] == '0';
    assert v != "" ==> u[3] == v[0];
    assert WordEnd(u, 1) == 3;
    assert u[3..] == v && u[0..3] == "100";
  }

  // ---- names ------------------------------------------------------------------

  /** Collapsing doubled quotes undoes doubling them. */
  lemma {:induction false} CollapseDouble(name: string, quote: char)
    ensures Collapse(Double(name, quote), quote) == name
    decreases |name|
  {
    if name != "" {
      var d := Double(name[1..], quote);
      CollapseDouble(name[1..], quote);
      if name[0] == quote {
        assert Double(name, quote)[2..] == d;
      } else {
        assert Double(name, quote)[1..] == d;
      }
    }
  }

  lemma {:induction false} DoubleNothing(name: string, quote: char)
    requires quote !in name
    ensures Double(name, quote) == name && Collapse(name, quote) == name
    decreases |name|
  {
    if name != "" {
      assert name[0] in name && forall c | c in name[1..] :: c in name;
      DoubleNothing(name[1..], quote);
    }
  }

  lemma UnquoteQuoted(body: string, quote: char)
    ensures Unquote([quote] + body + [quote]) == Collapse(body, quote)
  {
    var s := [quote] + body + [quote];
    assert s[1..|s| - 1] == body;
  }

  /** A doubled name ends at its own closing quote. */
  lemma {:induction false} NameEndDouble(s: string, j: nat, name: string, v: string)
    requires j <= |s| && s[j..] == Double(name, '"') + (['"'] + v) && (v != "" ==> v[0] != '"')
    ensures NameEnd(s, j) == |s| - |v|
    decreases |name|
  {
    var d := Double(name, '"');
    assert |s| - j == |d| + 1 + |v|;
    if name == "" {
      assert s[j] == s[j..][0] == '"';
      assert v != "" ==> s[j + 1] == s[j..][1] == v[0];
    } else {
      var e := Double(name[1..], '"');
      assert s[j] == s[j..][0] == name[0];
      if name[0] == '"' {
        assert s[j + 1] == s[j..][1] == '"';
        assert s[j + 2..] == s[j..][2..] == e + (['"'] + v);
        NameEndDouble(s, j + 2, name[1..], v);
      } else {
        assert s[j + 1..] == s[j..][1..] == e + (['"'] + v);
        NameEndDouble(s, j + 1, name[1..], v);
      }
    }
  }

  lemma PlainIsWord(name: string)
    requires PlainIdent(name)
    ensures AllWord(name) && name != "" && !IsDigit(name[0])
  {
  }

  lemma QuotedFront(name: string, v: string, backtick: bool)
    requires v != "" ==> v[0] != '"'
    ensures var q := ['"'] + Double(name, '"') + ['"'];
            ItemsOf(q + v, backtick) == [Item(Quoted, name)] + ItemsOf(v, backtick)
  {
    hide ItemsOf, NameEnd, Unquote, Double;
    var q := ['"'] + Double(name, '"') + ['"'];
    var u := q + v;
    FrontStep(u, backtick);
    assert u[1..] == Double(name, '"') + (['"'] + v);
    NameEndDouble(u, 1, name, v);
    assert u[|q|..] == v && u[0..|q|] == q;
    UnquoteQuoted(Double(name, '"'), '"');
    CollapseDouble(name, '"');
  }

  lemma BacktickFront(name: string, v: string)
    requires '`' !in name
    ensures ItemsOf(['`'] + name + ['`'] + v, true) == [Item(Quoted, name)] + ItemsOf(v, true)
  {
    hide ItemsOf, IndexByte, Unquote;
    var q := ['`'] + name + ['`'];
    var u := q + v;
    FrontStep(u, true);
    IndexByteFirst(u, '`', 1);
    assert u[|q| - 1] == '`' && forall k | 1 <= k < |q| - 1 :: u[k] == name[k - 1];
    assert u[|q|..] == v && u[0..|q|] == q;
    UnquoteQuoted(name, '`');
    DoubleNothing(name, '`');
  }

  /** Each doubled backtick closes one quoted stretch and opens the next. */
  lemma {:induction false} PiecesFront(name: string, v: string)
    ensures ItemsOf(['`'] + Double(name, '`') + ['`'] + v, true) == Pieces(name) + ItemsOf(v, true)
    decreases |name|
  {
    hide ItemsOf, Double, IndexByte;
    var k := IndexByte(name, '`', 0);
    IndexByteFirst(name, '`', 0);
    if k == |name| {
      DoubleNothing(name, '`');
      BacktickFront(name, v);
    } else {
      var head, rest := name[..k], name[k + 1..];
      DoubleAt(name, '`', k);
      Regroup(head, Double(rest, '`'), '`', v);
      BacktickFront(head, ['`'] + Double(rest, '`') + ['`'] + v);
      PiecesFront(rest, v);
    }
  }

  lemma Regroup(head: string, rest: string, q: char, v: string)
    ensures [q] + (head + [q, q] + rest) + [q] + v == [q] + head + [q] + ([q] + rest + [q] + v)
  {
  }

  lemma {:induction false} DoubleAt(name: string, quote: char, k: nat)
    requires k < |name| && name[k] == quote && forall m | 0 <= m < k :: name[m] != quote
    ensures Double(name, quote) == name[..k] + [quote, quote] + Double(name[k + 1..], quote)
    decreases k
  {
    if k > 0 {
      DoubleAt(name[1..], quote, k - 1);
      assert name[1..][k..] == name[k + 1..];
      assert name[..k] == [name[0]] + name[1..][..k - 1];
    }
  }

  lemma IdentFront(engine: Engine, name: string, v: string)
    requires engine != Redis && v != "" && (v[0] == ' ' || v[0] == ',' || v[0] == '.')
    ensures ItemsOf(QuoteIdent(engine, name) + v, engine == ClickHouse)
            == IdentItems(engine, name) + ItemsOf(v, engine == ClickHouse)
  {
    hide ItemsOf, Double, Pieces;
    if PlainIdent(name) {
      PlainIsWord(name);
      WordFront(name, v, engine == ClickHouse);
    } else if engine == ClickHouse {
      PiecesFront(name, v);
    } else {
      QuotedFront(name, v, false);
    }
  }

  // ---- the whole template -----------------------------------------------------------

  lemma {:induction false} ListFront(engine: Engine, names: seq<string>, v: string)
    requires engine != Redis && names != [] && v != "" && v[0] == ' '
    ensures ItemsOf(JoinNames(engine, names) + v, engine == ClickHouse)
            == ListItems(engine, names) + ItemsOf(v, engine == ClickHouse)
    decreases |names|
  {
    hide ItemsOf, QuoteIdent, JoinNames, ListItems, IdentItems;
    ListStep(engine, names, v);
    if |names| == 1 {
      IdentFront(engine, names[0], v);
    } else {
      var rest := JoinNames(engine, names[1..]) + v;
      IdentFront(engine, names[0], [','] + (" " + rest));
      PunctFront(',', " " + rest, engine == ClickHouse);
      SpaceFront(rest, engine == ClickHouse);
      ListFront(engine, names[1..], v);
    }
  }

  lemma ListStep(engine: Engine, names: seq<string>, v: string)
    requires names != []
    ensures JoinNames(engine, names) + v
            == QuoteIdent(engine, names[0])
               + if |names| == 1 then v else [','] + (" " + (JoinNames(engine, names[1..]) + v))
    ensures ListItems(engine, names)
            == if |names| == 1 then IdentItems(engine, names[0])
               else IdentItems(engine, names[0]) + ([Item(Punct, ",")] + ListItems(engine, names[1..]))
  {
    hide QuoteIdent, IdentItems;
  }

  lemma TableFront(engine: Engine, table: string, v: string)
    requires engine != Redis && v != "" && v[0] == ' '
    ensures ItemsOf(QuoteTable(engine, table) + v, engine == ClickHouse)
            == TableItems(engine, table) + ItemsOf(v, engine == ClickHouse)
  {
    hide ItemsOf, QuoteIdent, IdentItems, IndexByte;
    var k := IndexByte(table, '.', 0);
    if k == |table| {
      IdentFront(engine, table, v);
    } else {
      var rest := QuoteIdent(engine, table[k + 1..]) + v;
      assert QuoteTable(engine, table) + v == QuoteIdent(engine, table[..k]) + (['.'] + rest);
      IdentFront(engine, table[..k], ['.'] + rest);
      PunctFront('.', rest, engine == ClickHouse);
      IdentFront(engine, table[k + 1..], v);
    }
  }

  lemma KeywordFront(w: string, v: string, backtick: bool)
    requires w == "SELECT" || w == "FROM" || w == "LIMIT"
    ensures ItemsOf(w + (" " + v), backtick) == [Item(Word, w)] + ItemsOf(v, backtick)
  {
    hide ItemsOf;
    WordFront(w, " " + v, backtick);
    SpaceFront(v, backtick);
  }

  /** What follows the column list, up to `tail`. */
  lemma FromFront(engine: Engine, table: string, tail: string)
    requires engine != Redis && (tail == "" || tail == ";")
    ensures ItemsOf(" FROM " + QuoteTable(engine, table) + " LIMIT 100" + tail, engine == ClickHouse)
            == [Item(Word, "FROM")] + (TableItems(engine, table) + [Item(Word, "LIMIT"), Item(Number, "100")])
               + ItemsOf(tail, engine == ClickHouse)
  {
    hide ItemsOf, QuoteTable, TableItems;
    var bt := engine == ClickHouse;
    var hundred := "100" + tail;
    var limit := " " + ("LIMIT" + (" " + hundred));
    var rest := QuoteTable(engine, table) + limit;
    assert " FROM " + QuoteTable(engine, table) + " LIMIT 100" + tail == " " + ("FROM" + (" " + rest));
    SpaceFront("FROM" + (" " + rest), bt);
    KeywordFront("FROM", rest, bt);
    TableFront(engine, table, limit);
    SpaceFront("LIMIT" + (" " + hundred), bt);
    KeywordFront("LIMIT", hundred, bt);
    HundredFront(tail, bt);
  }

  /** The tokens of the template, for any table and column names. */
  lemma SelectReads(engine: Engine, table: string, cols: seq<string>, tail: string)
    requires engine != Redis && (tail == "" || tail == ";")
    ensures ItemsOf(SelectText(engine, table, cols) + tail, engine == ClickHouse)
            == SelectItems(engine, table, cols) + ItemsOf(tail, engine == ClickHouse)
  {
    hide ItemsOf, QuoteTable, TableItems, ListItems, JoinNames;
    var bt := engine == ClickHouse;
    var rest := " FROM " + QuoteTable(engine, table) + " LIMIT 100" + tail;
    var list := if cols == [] then "*" else JoinNames(engine, cols);
    assert SelectText(engine, table, cols) + tail == "SELECT" + (" " + (list + rest));
    KeywordFront("SELECT", list + rest, bt);
    if cols == [] {
      PunctFront('*', rest, bt);
    } else {
      ListFront(engine, cols, rest);
    }
    FromFront(engine, table, tail);
  }

  // ---- one harmless statement -----------------------------------------------------------

  /** No item of a printed name is punctuation. */
  lemma {:induction false} PiecesQuoted(name: string)
    ensures forall x | x in Pieces(name) :: x.kind == Quoted
    decreases |name|
  {
    var k := IndexByte(name, '`', 0);
    if k < |name| {
      PiecesQuoted(name[k + 1..]);
    }
  }

  predicate Harmless(items: seq<Item>) {
    forall x | x in items :: x.kind == Punct ==> x.text in {"*", ",", "."}
  }

  lemma IdentHarmless(engine: Engine, name: string)
    ensures Harmless(IdentItems(engine, name))
  {
    hide Pieces, PlainIdent;
    PiecesQuoted(name);
  }

  lemma {:induction false} ListHarmless(engine: Engine, names: seq<string>)
    ensures Harmless(ListItems(engine, names))
    decreases |names|
  {
    hide IdentItems;
    if names != [] {
      IdentHarmless(engine, names[0]);
      if |names| > 1 {
        ListHarmless(engine, names[1..]);
      }
    }
  }

  lemma HarmlessAppend(x: seq<Item>, y: seq<Item>)
    requires Harmless(x) && Harmless(y)
    ensures Harmless(x + y)
  {
  }

  lemma TableHarmless(engine: Engine, table: string)
    ensures Harmless(TableItems(engine, table))
  {
    hide IdentItems, TableParts;
    var parts := TableParts(table);
    IdentHarmless(engine, parts[0]);
    if |parts| == 2 {
      IdentHarmless(engine, parts[1]);
      HarmlessAppend([Item(Punct, ".")], IdentItems(engine, parts[1]));
    }
  }

  lemma SelectHarmless(engine: Engine, table: string, cols: seq<string>)
    ensures Harmless(SelectItems(engine, table, cols))
  {
    var list := if cols == [] then [Item(Punct, "*")] else ListItems(engine, cols);
    var tail := [Item(Word, "LIMIT"), Item(Number, "100")];
    var from := [Item(Word, "FROM")] + (TableItems(engine, table) + tail);
    ListHarmless(engine, cols);
    TableHarmless(engine, table);
    assert Harmless(list) && Harmless(tail) && Harmless([Item(Word, "FROM")]) && Harmless([Item(Word, "SELECT")]);
    hide Harmless, ListItems, TableItems;
    HarmlessAppend(TableItems(engine, table), tail);
    HarmlessAppend([Item(Word, "FROM")], TableItems(engine, table) + tail);
    HarmlessAppend(list, from);
    HarmlessAppend([Item(Word, "SELECT")], list + from);
  }

  /** Tokens whose items are harmless, the first a word, stay in one plain statement. */
  lemma {:induction false} HarmlessRuns(s: string, toks: seq<Span>, hasCode: bool)
    requires Within(s, toks) && Harmless(Items(s, toks))
    requires OneBytePuncts(toks)
    ensures Running(s, toks, hasCode) && (toks != [] && toks[0].kind == Word ==> CodeAfter(toks, hasCode))
    decreases |toks|
  {
    if toks != [] {
      var t := toks[0];
      assert Items(s, toks)[0] in Items(s, toks);
      assert t.kind == Punct ==> s[t.start..t.end] == [s[t.start]];
      assert Within(s, toks[1..]) by { assert forall k | 0 <= k < |toks| - 1 :: toks[1..][k] == toks[k + 1]; }
      assert forall x | x in Items(s, toks[1..]) :: x in Items(s, toks) by {
        assert Items(s, toks[1..]) == Items(s, toks)[1..];
      }
      HarmlessRuns(s, toks[1..], hasCode || t.kind != Comment);
      if t.kind == Word {
        CodeStays(toks[1..]);
      }
    }
  }

  /** Trimmed text whose tokens are harmless and begin with a word splits to itself. */
  lemma HarmlessSplits(s: string, backtick: bool)
    requires s != "" && !IsSpace(s[0]) && !IsSpace(s[|s| - 1])
    requires Harmless(ItemsOf(s, backtick)) && ItemsOf(s, backtick) != [] && ItemsOf(s, backtick)[0].kind == Word
    ensures StatementTexts(s, backtick) == [s]
  {
    hide Spans, Trim, SplitFrom, Running, CodeAfter, Harmless;
    var toks := Spans(s, 0, backtick);
    PunctIsOneByte(s, 0, backtick);
    HarmlessRuns(s, toks, false);
    StatementsAre(s, backtick);
    SplitRunning(s, toks, 0, false);
    WholeTrim(s);
  }

  /** Text whose tokens end in a semicolon token, as its last byte, is closed. */
  lemma EndsClosed(s: string, backtick: bool)
    requires ItemsOf(s + ";", backtick) != []
    requires ItemsOf(s + ";", backtick)[|ItemsOf(s + ";", backtick)| - 1].kind == Punct
    ensures Concat.Closed(s, backtick)
  {
    hide Spans, Tiled;
    var x := s + ";";
    var toks := Spans(x, 0, backtick);
    TokensTiled(x, 0, backtick);
    PunctIsOneByte(x, 0, backtick);
    assert x[|x| - 1] == ';' && x[|s|] == ';';
    LastTokenEnds(x, toks, 0);
  }

  lemma SemicolonItems(backtick: bool)
    ensures ItemsOf(";", backtick) == [Item(Punct, ";")] && ItemsOf("", backtick) == []
    ensures StatementTexts("", backtick) == []
  {
    hide ItemsOf, StatementTexts;
    PunctFront(';', "", backtick);
    EmptyItems(backtick);
    assert [';'] + "" == ";";
    assert [Item(Punct, ";")] + [] == [Item(Punct, ";")];
  }

  lemma EmptyItems(backtick: bool)
    ensures ItemsOf("", backtick) == [] && StatementTexts("", backtick) == []
  {
    SpansEnd("", backtick);
  }

  /** Whatever the names hold, the template is exactly one statement, and not a destructive one. */
  lemma TemplateIsOneStatement(engine: Engine, table: string, cols: seq<string>)
    requires engine != Redis
    ensures var stmt := SelectText(engine, table, cols);
            Split(engine, stmt + ";") == [stmt] && !IsDestructive(engine, stmt)
  {
    hide ItemsOf, SelectText, SelectItems, StatementTexts, TopLevelWords;
    var stmt, bt := SelectText(engine, table, cols), engine == ClickHouse;
    SelectReads(engine, table, cols, "");
    SelectReads(engine, table, cols, ";");
    SemicolonItems(bt);
    assert stmt + "" == stmt;
    assert ItemsOf(stmt, bt) == SelectItems(engine, table, cols);
    SelectHarmless(engine, table, cols);
    SelectEnds(engine, table, cols);
    EndsClosed(stmt, bt);
    HarmlessSplits(stmt, bt);
    Concat.SplitConcat(stmt, "", bt);
    assert stmt + ";" + "" == stmt + ";";
    SelectIsFirst(stmt, bt);
  }

  lemma SelectEnds(engine: Engine, table: string, cols: seq<string>)
    ensures var s := SelectText(engine, table, cols); s != "" && !IsSpace(s[0]) && !IsSpace(s[|s| - 1])
    ensures var items := SelectItems(engine, table, cols); items != [] && items[0] == Item(Word, "SELECT")
  {
    hide QuoteTable, JoinNames, TableItems, ListItems;
    var s := SelectText(engine, table, cols);
    var n := |s| - 1;
    assert s[0] == 'S' && s[n] == '0';
  }

  lemma SelectIsFirst(s: string, backtick: bool)
    requires ItemsOf(s, backtick) != [] && ItemsOf(s, backtick)[0] == Item(Word, "SELECT")
    ensures TopLevelWords(s, backtick) != [] && TopLevelWords(s, backtick)[0] == "SELECT"
  {
    hide Spans, ToUpper;
    UpperSelect();
    var toks := Spans(s, 0, backtick);
    assert s[toks[0].start..toks[0].end] == "SELECT";
  }

  lemma UpperSelect()
    ensures ToUpper("SELECT") == "SELECT"
  {
    assert "SELECT" == ['S', 'E', 'L', 'E', 'C', 'T'];
    assert "SELECT"[1..] == "ELECT" && "ELECT"[1..] == "LECT" && "LECT"[1..] == "ECT";
    assert "ECT"[1..] == "CT" && "CT"[1..] == "T" && "T"[1..] == "";
    assert ToUpper("T") == "T";
    assert ToUpper("CT") == "CT";
    assert ToUpper("ECT") == "ECT";
    assert ToUpper("LECT") == "LECT";
    assert ToUpper("ELECT") == "ELECT";
  }

  // ---- when the names come back -----------------------------------------------------------

  /** Which names an engine's quoting can carry: all, but for a backtick on ClickHouse. */
  predicate Printable(engine: Engine, name: string) { engine == ClickHouse ==> '`' !in name }

  predicate AllPrintable(engine: Engine, names: seq<string>) {
    forall k | 0 <= k < |names| :: Printable(engine, names[k])
  }

  lemma IdentComesBack(engine: Engine, name: string)
    ensures Printable(engine, name) ==> IdentItems(engine, name) == [NameItem(name)]
    ensures !Printable(engine, name) ==> |IdentItems(engine, name)| > 1
  {
    var k := IndexByte(name, '`', 0);
    IndexByteFirst(name, '`', 0);
    if PlainIdent(name) {
      assert forall c | c in name :: PlainByte(c, true) || PlainByte(c, false);
    }
  }

  lemma {:induction false} ListComesBack(engine: Engine, names: seq<string>)
    ensures AllPrintable(engine, names) ==> ListItems(engine, names) == IntendedList(names)
    ensures |ListItems(engine, names)| >= |IntendedList(names)|
    ensures !AllPrintable(engine, names) ==> |ListItems(engine, names)| > |IntendedList(names)|
    decreases |names|
  {
    hide Printable, IdentItems, NameItem;
    if names != [] {
      IdentComesBack(engine, names[0]);
      if |names| > 1 {
        ListComesBack(engine, names[1..]);
        assert names == [names[0]] + names[1..];
        assert forall k | 0 < k < |names| :: names[k] == names[1..][k - 1];
        assert Printable(engine, names[0]) && AllPrintable(engine, names[1..]) ==> AllPrintable(engine, names);
        assert AllPrintable(engine, names) ==> AllPrintable(engine, names[1..]);
      }
    }
  }

  lemma TableComesBack(engine: Engine, table: string)
    ensures AllPrintable(engine, TableParts(table)) ==> TableItems(engine, table) == IntendedTable(table)
    ensures |TableItems(engine, table)| >= |IntendedTable(table)|
    ensures !AllPrintable(engine, TableParts(table)) ==> |TableItems(engine, table)| > |IntendedTable(table)|
  {
    hide Printable, IdentItems, NameItem;
    var parts := TableParts(table);
    IdentComesBack(engine, parts[0]);
    if |parts| == 2 {
      IdentComesBack(engine, parts[1]);
    }
  }

  /** The template's tokens read back as SELECT, the column names in order, FROM, the table's
      parts and LIMIT 100 if and only if no name holds a backtick on ClickHouse. */
  lemma TemplateRoundTrip(engine: Engine, table: string, cols: seq<string>)
    requires engine != Redis
    ensures ItemsOf(SelectText(engine, table, cols), engine == ClickHouse) == IntendedItems(table, cols)
            <==> AllPrintable(engine, cols) && AllPrintable(engine, TableParts(table))
  {
    hide ItemsOf, SelectText, ListItems, TableItems, IntendedList, IntendedTable, AllPrintable;
    SelectReads(engine, table, cols, "");
    SemicolonItems(engine == ClickHouse);
    assert SelectText(engine, table, cols) + "" == SelectText(engine, table, cols);
    ListComesBack(engine, cols);
    TableComesBack(engine, table);
    NothingPrintable(engine);
    if !(AllPrintable(engine, cols) && AllPrintable(engine, TableParts(table))) {
      assert |SelectItems(engine, table, cols)| > |IntendedItems(table, cols)|;
    }
  }

  lemma NothingPrintable(engine: Engine)
    ensures AllPrintable(engine, [])
  {
  }

  // ---- the printing loop -------------------------------------------------------------------

  lemma {:induction false} JoinQuoted(engine: Engine, names: seq<string>, quoted: seq<string>)
    requires |quoted| == |names| && forall k | 0 <= k < |names| :: quoted[k] == QuoteIdent(engine, names[k])
    ensures Join(quoted, ", ") == JoinNames(engine, names)
    decreases |names|
  {
    if |names| > 1 {
      JoinQuoted(engine, names[1..], quoted[1..]);
    }
  }

  /** schemaTemplate for a SQL engine. */
  method SchemaTemplate(engine: Engine, table: string, cols: seq<string>) returns (text: string)
    requires engine != Redis
    ensures text == if table == "" then "" else SelectText(engine, table, cols) + ";"
  {
    hide QuoteIdent, QuoteTable;
    if table == "" {
      return "";
    }
    var list := "*";
    if |cols| > 0 {
      var names: seq<string> := [];
      for k := 0 to |cols|
        invariant |names| == k && forall j | 0 <= j < k :: names[j] == QuoteIdent(engine, cols[j])
      {
        names := names + [QuoteIdent(engine, cols[k])];
      }
      JoinQuoted(engine, cols, names);
      list := Join(names, ", ");
    }
    text := "SELECT " + list + " FROM " + QuoteTable(engine, table) + " LIMIT 100;";
    assert " LIMIT 100;" == " LIMIT 100" + ";";
  }
}

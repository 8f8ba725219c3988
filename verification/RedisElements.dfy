/**
 The form of a Redis script, written out without the lexer: blanks, comment
 lines and arguments. Every text has this form, and its tokens are read off it.
 */
module RedisElements {
  import opened Bytes
  import opened Lexer
  import opened RedisLexer

  // ---- the form ----------------------------------------------------------------

  /** A byte of a quoted argument, by itself or behind a backslash. */
  datatype Unit = Itself(c: char) | Behind(c: char)

  function UnitForm(u: Unit): string { if u.Itself? then [u.c] else ['\\', u.c] }

  function UnitsForm(us: seq<Unit>): string { if us == [] then "" else UnitForm(us[0]) + UnitsForm(us[1..]) }

  predicate GoodUnits(us: seq<Unit>, quote: char) {
    forall k | 0 <= k < |us| && us[k].Itself? :: us[k].c != quote && us[k].c != '\\' && us[k].c != '\n'
  }

  /** How a quoted argument ends: with its quote, before a newline or at the end of the script, or
      with a backslash that is the script's last byte. */
  datatype Ending = Closing | Unclosed | Backslash

  datatype Arg = InQuotes(quote: char, units: seq<Unit>, ending: Ending) | Bare(text: string)

  function EndingForm(e: Ending, quote: char): string {
    match e
    case Closing => [quote]
    case Unclosed => ""
    case Backslash => "\\"
  }

  function ArgForm(a: Arg): string {
    match a
    case InQuotes(quote, us, e) => [quote] + (UnitsForm(us) + EndingForm(e, quote))
    case Bare(text) => text
  }

  predicate EndsThere(e: Ending, rest: string) {
    match e
    case Closing => true
    case Unclosed => rest == "" || rest[0] == '\n'
    case Backslash => rest == ""
  }

  /** An argument before `rest`: a bare one goes on to the next whitespace. */
  predicate GoodArg(a: Arg, rest: string) {
    match a
    case InQuotes(quote, us, e) => IsQuote(quote) && GoodUnits(us, quote) && EndsThere(e, rest)
    case Bare(text) =>
      && text != "" && !IsQuote(text[0]) && (forall k | 0 <= k < |text| :: !IsSpace(text[k]))
      && (rest == "" || IsSpace(rest[0]))
  }

  datatype Item = Blank(c: char) | Note(text: string) | Argument(arg: Arg)

  function ItemForm(it: Item): string {
    match it
    case Blank(c) => [c]
    case Note(text) => text
    case Argument(a) => ArgForm(a)
  }

  function Form(items: seq<Item>): string { if items == [] then "" else ItemForm(items[0]) + Form(items[1..]) }

  /** Is the line of what comes after these items still without an argument? */
  predicate Opens(before: seq<Item>) {
    forall j | 0 <= j < |before| && before[j].Argument? :: exists n :: j < n < |before| && before[n] == Blank('\n')
  }

  predicate Fits(opens: bool, it: Item, rest: string) {
    match it
    case Blank(c) => IsSpace(c)
    case Note(text) => opens && text != "" && text[0] == '#' && '\n' !in text && (rest == "" || rest[0] == '\n')
    case Argument(a) => GoodArg(a, rest) && (opens ==> a.InQuotes? || a.text[0] != '#')
  }

  predicate Good(before: seq<Item>, items: seq<Item>)
    decreases |items|
  {
    items == [] || (Fits(Opens(before), items[0], Form(items[1..])) && Good(before + [items[0]], items[1..]))
  }

  function KindOf(opens: bool, a: Arg): TokenKind
    requires a.Bare? ==> a.text != ""
  {
    if opens then TokenKind.Command
    else if a.InQuotes? then Str
    else if IsDigit(a.text[0]) then Number
    else Word
  }

  /** The tokens of the items, the first of which stands at `at`: the first argument of a line is its
      command, wherever it stands. */
  function TokensOf(before: seq<Item>, items: seq<Item>, at: nat): seq<Span>
    requires Good(before, items)
    decreases |items|
  {
    if items == [] then []
    else
      var end := at + |ItemForm(items[0])|;
      var rest := TokensOf(before + [items[0]], items[1..], end);
      match items[0]
      case Blank(_) => rest
      case Note(_) => [Span(Comment, at, end)] + rest
      case Argument(a) => [Span(KindOf(Opens(before), a), at, end)] + rest
  }

  // ---- arguments ------------------------------------------------------------------

  lemma {:induction false} UnitsRead(s: string, j: nat, us: seq<Unit>, quote: char, tail: string)
    requires j <= |s| && s[j..] == UnitsForm(us) + tail && GoodUnits(us, quote) && IsQuote(quote)
    ensures |tail| <= |s| - j && QuotedArgEnd(s, j, quote) == QuotedArgEnd(s, |s| - |tail|, quote)
    decreases |us|
  {
    hide QuotedArgEnd;
    if us != [] {
      QuotedArgStep(s, j, quote);
      var more := UnitsForm(us[1..]) + tail;
      assert s[j..] == UnitForm(us[0]) + more;
      assert s[j] == s[j..][0];
      var n := |UnitForm(us[0])|;
      assert s[j + n..] == s[j..][n..] == more;
      UnitsRead(s, j + n, us[1..], quote, tail);
    } else {
      assert s[j..] == tail;
    }
  }

  lemma QuotedReads(s: string, i: nat, quote: char, us: seq<Unit>, e: Ending, rest: string)
    requires i < |s| && s[i..] == [quote] + (UnitsForm(us) + EndingForm(e, quote)) + rest
    requires IsQuote(quote) && GoodUnits(us, quote) && EndsThere(e, rest)
    ensures QuotedArgEnd(s, i + 1, quote) == |s| - |rest|
  {
    hide QuotedArgEnd, UnitsForm;
    var tail := EndingForm(e, quote) + rest;
    assert s[i..] == [quote] + (UnitsForm(us) + tail);
    assert s[i + 1..] == s[i..][1..] == UnitsForm(us) + tail;
    UnitsRead(s, i + 1, us, quote, tail);
    var p := |s| - |tail|;
    assert s[p..] == tail by {
      assert s[i + 1..][|UnitsForm(us)|..] == tail;
    }
    QuotedArgStep(s, p, quote);
    if e == Backslash {
      assert s[p] == tail[0];
      QuotedArgStep(s, p + 2, quote);
    } else if tail != "" {
      assert s[p] == tail[0];
    }
  }

  lemma {:induction false} BareReads(s: string, j: nat, text: string, rest: string)
    requires j <= |s| && s[j..] == text + rest && (rest == "" || IsSpace(rest[0]))
    requires forall k | 0 <= k < |text| :: !IsSpace(text[k])
    ensures BareArgEnd(s, j) == |s| - |rest|
    decreases |text|
  {
    if text == "" {
      assert rest != "" ==> s[j] == s[j..][0];
    } else {
      assert s[j] == s[j..][0] == text[0];
      assert s[j + 1..] == s[j..][1..] == text[1..] + rest;
      BareReads(s, j + 1, text[1..], rest);
    }
  }

  lemma ArgReads(s: string, i: nat, a: Arg, rest: string)
    requires i < |s| && s[i..] == ArgForm(a) + rest && GoodArg(a, rest)
    ensures !IsSpace(s[i]) && ArgEnd(s, i) == |s| - |rest| && (IsQuote(s[i]) <==> a.InQuotes?)
    ensures a.Bare? ==> s[i] == a.text[0]
  {
    hide QuotedArgEnd, BareArgEnd, UnitsForm;
    assert s[i] == s[i..][0];
    match a
    case InQuotes(quote, us, e) =>
      QuotedReads(s, i, quote, us, e, rest);
    case Bare(text) =>
      BareReads(s, i + 1, text[1..], rest) by {
        assert s[i + 1..] == s[i..][1..] == text[1..] + rest;
      }
  }

  // ---- one item ----------------------------------------------------------------------

  lemma OpensStep(before: seq<Item>, it: Item)
    ensures Opens(before + [it]) <==> it == Blank('\n') || (Opens(before) && !it.Argument?)
  {
    var all := before + [it];
    assert all[|before|] == it && forall j | 0 <= j < |before| :: all[j] == before[j];
    if it == Blank('\n') {
    } else if Opens(before) && !it.Argument? {
      forall j | 0 <= j < |all| && all[j].Argument?
        ensures exists n :: j < n < |all| && all[n] == Blank('\n')
      {
        var n :| j < n < |before| && before[n] == Blank('\n');
        assert all[n] == Blank('\n');
      }
    } else if it.Argument? {
      assert all[|before|].Argument?;
    } else {
      var j :| 0 <= j < |before| && before[j].Argument? && forall n | j < n < |before| :: before[n] != Blank('\n');
      assert all[j].Argument? && forall n | j < n < |all| :: all[n] != Blank('\n');
    }
  }

  lemma ItemReads(s: string, i: nat, before: seq<Item>, it: Item, rest: string)
    requires i < |s| && s[i..] == ItemForm(it) + rest && Fits(Opens(before), it, rest)
    ensures i + |ItemForm(it)| == |s| - |rest| && s[|s| - |rest|..] == rest
    ensures var kind := match it
                        case Blank(_) => None
                        case Note(_) => Some(Comment)
                        case Argument(a) => Some(KindOf(Opens(before), a));
            RedisStep(s, i, Opens(before)) == (kind, |s| - |rest|, Opens(before + [it]))
  {
    hide ArgEnd, CommentEnd, Opens, ArgForm;
    OpensStep(before, it);
    assert s[i] == s[i..][0];
    assert s[i..][|ItemForm(it)|..] == rest;
    match it
    case Blank(c) =>
    case Note(text) =>
      NoteReads(s, i, text, rest);
    case Argument(a) =>
      ArgReads(s, i, a, rest);
  }

  lemma NoteReads(s: string, i: nat, text: string, rest: string)
    requires i < |s| && s[i..] == text + rest && text != "" && '\n' !in text && (rest == "" || rest[0] == '\n')
    ensures s[i] == text[0] && s[i] != '\n' && CommentEnd(s, i) == |s| - |rest|
  {
    hide IndexByte;
    var k := IndexByte(s, '\n', i + 1);
    IndexByteFirst(s, '\n', i + 1);
    assert forall j | 0 <= j < |text| :: s[i + j] == s[i..][j] == text[j] && text[j] in text;
    var end := |s| - |rest|;
    assert rest != "" ==> s[end] == s[i..][|text|] == rest[0];
    assert forall j | i <= j < end :: s[j] == text[j - i];
    assert '\n' !in s[i..end] by {
      assert s[i..end] == text;
    }
  }

  // ---- the script ----------------------------------------------------------------------

  lemma {:induction false} ItemsRead(s: string, i: nat, before: seq<Item>, items: seq<Item>)
    requires i <= |s| && s[i..] == Form(items) && Good(before, items)
    ensures RedisSpans(s, i, Opens(before)) == TokensOf(before, items, i)
    decreases |items|
  {
    hide RedisSpans, RedisStep, Opens, Fits, ItemForm;
    if items == [] {
      RedisSpansEnd(s, Opens(before));
    } else {
      var it, rest := items[0], Form(items[1..]);
      NotNothing(Opens(before), it, rest);
      ItemReads(s, i, before, it, rest);
      RedisSpansStep(s, i, Opens(before));
      ItemsRead(s, |s| - |rest|, before + [it], items[1..]);
    }
  }

  lemma NotNothing(opens: bool, it: Item, rest: string)
    requires Fits(opens, it, rest)
    ensures ItemForm(it) != ""
  {
  }

  // ---- every text has the form ------------------------------------------------------------

  lemma {:induction false} UnitsOf(u: string, quote: char) returns (us: seq<Unit>, rest: string)
    requires IsQuote(quote)
    ensures GoodUnits(us, quote) && u == UnitsForm(us) + rest
    ensures rest == "" || rest == "\\" || rest[0] == quote || rest[0] == '\n'
    decreases |u|
  {
    if u == "" || u == "\\" || u[0] == quote || u[0] == '\n' {
      us, rest := [], u;
      assert UnitsForm([]) == "";
    } else {
      var n := if u[0] == '\\' then 2 else 1;
      var unit := if u[0] == '\\' then Behind(u[1]) else Itself(u[0]);
      var more, r := UnitsOf(u[n..], quote);
      us, rest := [unit] + more, r;
      assert us[1..] == more;
      assert u == UnitForm(unit) + u[n..];
    }
  }

  lemma QuotedOf(u: string) returns (a: Arg, rest: string)
    requires u != "" && IsQuote(u[0])
    ensures a.InQuotes? && GoodArg(a, rest) && u == ArgForm(a) + rest && |rest| < |u|
  {
    hide UnitsForm;
    var quote := u[0];
    var us, r := UnitsOf(u[1..], quote);
    var e := if r == "\\" then Backslash else if r == "" || r[0] == '\n' then Unclosed else Closing;
    a, rest := InQuotes(quote, us, e), if e == Unclosed then r else r[1..];
    assert r == EndingForm(e, quote) + rest;
    assert u == [quote] + u[1..];
    assert u == [quote] + (UnitsForm(us) + EndingForm(e, quote)) + rest;
  }

  lemma BareOf(u: string) returns (a: Arg, rest: string)
    requires u != "" && !IsQuote(u[0]) && !IsSpace(u[0])
    ensures a.Bare? && a.text != "" && a.text[0] == u[0] && GoodArg(a, rest) && u == ArgForm(a) + rest && |rest| < |u|
  {
    var k := BareArgEnd(u, 1);
    BareStops(u, 1);
    a, rest := Bare(u[..k]), u[k..];
    assert u == u[..k] + u[k..];
  }

  lemma {:induction false} BareStops(u: string, j: nat)
    requires j <= |u|
    ensures var k := BareArgEnd(u, j); k < |u| ==> IsSpace(u[k])
    decreases |u| - j
  {
    if j < |u| && !IsSpace(u[j]) {
      BareStops(u, j + 1);
    }
  }

  lemma NoteOf(u: string) returns (text: string, rest: string)
    requires u != "" && u[0] == '#'
    ensures text != "" && text[0] == '#' && '\n' !in text && (rest == "" || rest[0] == '\n') && u == text + rest && |rest| < |u|
  {
    var k := IndexByte(u, '\n', 0);
    IndexByteFirst(u, '\n', 0);
    text, rest := u[..k], u[k..];
    assert u == u[..k] + u[k..];
  }

  lemma FirstItem(u: string, opens: bool) returns (it: Item, rest: string)
    requires u != ""
    ensures Fits(opens, it, rest) && u == ItemForm(it) + rest && |rest| < |u|
  {
    hide ArgForm, GoodArg;
    if IsSpace(u[0]) {
      it, rest := Blank(u[0]), u[1..];
      assert u == [u[0]] + u[1..];
    } else if u[0] == '#' && opens {
      var text;
      text, rest := NoteOf(u);
      it := Note(text);
    } else if IsQuote(u[0]) {
      var a;
      a, rest := QuotedOf(u);
      it := Argument(a);
    } else {
      var a;
      a, rest := BareOf(u);
      it := Argument(a);
    }
  }

  lemma {:induction false} ItemsOf(u: string, before: seq<Item>) returns (items: seq<Item>)
    ensures Form(items) == u && Good(before, items)
    decreases |u|
  {
    hide Opens, Fits, ItemForm;
    if u == "" {
      items := [];
    } else {
      var it, rest := FirstItem(u, Opens(before));
      var more := ItemsOf(rest, before + [it]);
      items := [it] + more;
      assert items[1..] == more;
    }
  }

  /** Every text is a script of this form, and its tokens are the form's, however it is told apart. */
  lemma ScriptExactly(s: string)
    ensures exists items :: Form(items) == s && Good([], items)
    ensures forall items | Form(items) == s && Good([], items) :: RedisSpans(s, 0, true) == TokensOf([], items, 0)
  {
    hide RedisSpans, Form, Good, TokensOf;
    var items := ItemsOf(s, []);
    forall items | Form(items) == s && Good([], items)
      ensures RedisSpans(s, 0, true) == TokensOf([], items, 0)
    {
      assert s[0..] == s;
      ItemsRead(s, 0, [], items);
    }
  }
}

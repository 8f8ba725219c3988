/**
 What the editor draws, read off the text: string literals, numbers, comments
 and keywords in their colours, and everything else plain, for SQL and for Redis.
 */
module Colours {
  import opened Bytes
  import opened Lexer
  import opened LexerWindow
  import opened Splitter
  import opened Engines
  import opened Elements
  import opened H = Highlight
  import R = RedisElements
  import RedisLexer

  // ---- SQL ---------------------------------------------------------------------

  function ElementColour(e: Element, keywords: set<string>): SpanKind {
    match e
    case Text(_) => StringLit
    case Tagged(_, _) => StringLit
    case LineNote(_, _) => CommentText
    case BlockNote(_) => CommentText
    case Numeral(_, _, _) => NumberLit
    case Plain(word) => if ToUpper(word) in keywords then Keyword else SpanKind.Plain
    case Name(_) => SpanKind.Plain
    case Ticked(_) => SpanKind.Plain
    case Mark(_) => SpanKind.Plain
  }

  function ItemColour(x: Elements.Item, keywords: set<string>): SpanKind {
    if x.Gap? then SpanKind.Plain else ElementColour(x.e, keywords)
  }

  lemma {:induction false} SpansEndThere(items: seq<Elements.Item>, at: nat)
    ensures forall k | 0 <= k < |ItemSpans(items, at)| :: ItemSpans(items, at)[k].end <= at + |Layout(items)|
    decreases |items|
  {
    hide Print, KindOf;
    if items != [] {
      SpansEndThere(items[1..], at + |ItemText(items[0])|);
    }
  }

  /** A token in a list of a script's tokens colours its bytes. */
  lemma TokenColours(s: string, before: seq<Span>, t: Span, after: seq<Span>, keywords: set<string>, p: nat)
    requires InOrder(s, before + ([t] + after), 0) && t.start <= p < t.end
    ensures Within(s, before + ([t] + after)) && t.end <= |s|
    ensures Colour(WithText(s, before + ([t] + after)), keywords, p)
            == SpanKindOf(Token(t.kind, t.start, t.end, TextOf(s, t)), keywords)
  {
    hide SpanKindOf, TextOf;
    var all := before + ([t] + after);
    var k := |before|;
    assert all[k] == t;
    WithTextToken(s, all, k);
    ColourAt(WithText(s, all), keywords, p, k);
  }

  lemma BetweenIsPlain(s: string, before: seq<Span>, after: seq<Span>, keywords: set<string>, p: nat)
    requires InOrder(s, before + after, 0)
    requires (forall k | 0 <= k < |before| :: before[k].end <= p) && forall k | 0 <= k < |after| :: p < after[k].start
    ensures Within(s, before + after) && Colour(WithText(s, before + after), keywords, p) == SpanKind.Plain
  {
    ColourBetween(WithText(s, before + after), keywords, p);
  }

  /** Wherever an element or a gap stands in a script, its bytes are drawn in its colour. */
  lemma ItemColours(items: seq<Elements.Item>, x: Elements.Item, tail: string, backtick: bool, keywords: set<string>, p: nat)
    requires WellLaid(items, ItemText(x) + tail, backtick)
    requires if x.Gap? then IsSpace(x.c) else Good(x.e, backtick) && MayFollow(x.e, tail)
    requires |Layout(items)| <= p < |Layout(items)| + |ItemText(x)|
    ensures var s := Layout(items) + ItemText(x) + tail;
            Colour(WithText(s, Spans(s, 0, backtick)), keywords, p) == ItemColour(x, keywords)
  {
    hide Spans, Print, KindOf, Layout, ItemSpans, WellLaid, Good, MayFollow, Colour, WithText, InOrder, ItemText, ItemSpan, ElementColour;
    var n := |Layout(items)|;
    var s := Layout(items) + ItemText(x) + tail;
    var end := n + |ItemText(x)|;
    assert s == "" + Layout(items) + (ItemText(x) + tail);
    LayoutReads("", items, ItemText(x) + tail, backtick);
    FirstReads(Layout(items), x, tail, backtick);
    SpansInOrder(s, 0, backtick);
    ItemIs(x, n);
    var before, after := ItemSpans(items, 0), Spans(s, end, backtick);
    if x.Gap? {
      SpansEndThere(items, 0);
      SpansInOrder(s, end, backtick);
      StartsBehind(s, after, end);
      assert before + ([] + after) == before + after;
      BetweenIsPlain(s, before, after, keywords, p);
    } else {
      var t := Span(KindOf(x.e), n, end);
      TokenColours(s, before, t, after, keywords, p);
      assert s[n..end] == Print(x.e);
      ElementIsColoured(x.e, n, TextOf(s, t), keywords);
    }
  }

  lemma StartsBehind(s: string, toks: seq<Span>, from: nat)
    requires InOrder(s, toks, from)
    ensures forall k | 0 <= k < |toks| :: from <= toks[k].start
  {
  }

  lemma ElementIsColoured(e: Element, n: nat, text: string, keywords: set<string>)
    requires KindOf(e) != Quoted ==> text == Print(e)
    ensures SpanKindOf(Token(KindOf(e), n, n + |Print(e)|, text), keywords) == ElementColour(e, keywords)
  {
    hide ToUpper;
  }

  // ---- Redis ---------------------------------------------------------------------

  function RedisColour(opens: bool, it: R.Item, keywords: set<string>): SpanKind
    requires it.Argument? && it.arg.Bare? ==> it.arg.text != ""
  {
    match it
    case Blank(_) => SpanKind.Plain
    case Note(_) => CommentText
    case Argument(a) =>
      if opens then Keyword
      else if a.InQuotes? then StringLit
      else if IsDigit(a.text[0]) then NumberLit
      else if ToUpper(a.text) in keywords then Keyword
      else SpanKind.Plain
  }

  lemma ArgIsColoured(opens: bool, a: R.Arg, rest: string, n: nat, keywords: set<string>)
    requires R.Fits(opens, R.Argument(a), rest)
    ensures R.KindOf(opens, a) != Quoted
    ensures SpanKindOf(Token(R.KindOf(opens, a), n, n + |R.ArgForm(a)|, R.ArgForm(a)), keywords)
            == RedisColour(opens, R.Argument(a), keywords)
  {
    hide ToUpper, R.UnitsForm;
  }

  lemma HeadColour(s: string, t: Span, rest: seq<Span>, keywords: set<string>, p: nat)
    requires Within(s, [t] + rest)
    ensures Within(s, rest) && t.start <= t.end <= |s|
    ensures Colour(WithText(s, [t] + rest), keywords, p)
            == if t.start <= p < t.end then SpanKindOf(Token(t.kind, t.start, t.end, TextOf(s, t)), keywords)
               else Colour(WithText(s, rest), keywords, p)
  {
    hide SpanKindOf, TextOf;
    var toks := WithText(s, [t] + rest);
    assert ([t] + rest)[0] == t && forall k | 0 <= k < |rest| :: ([t] + rest)[k + 1] == rest[k];
    assert toks[1..] == WithText(s, rest);
    assert toks[0] == Token(t.kind, t.start, t.end, TextOf(s, t));
  }

  lemma RestIsPlain(s: string, at: nat, first: bool, keywords: set<string>, p: nat)
    requires p < at <= |s|
    ensures Colour(WithText(s, RedisLexer.RedisSpans(s, at, first)), keywords, p) == SpanKind.Plain
  {
    hide RedisLexer.RedisSpans;
    var toks := RedisLexer.RedisSpans(s, at, first);
    RedisLexer.RedisTiled(s, at, first);
    TiledOrdered(s, toks, at);
    ColourBetween(WithText(s, toks), keywords, p);
  }

  /** A token in front colours its bytes, and leaves the others as they are. */
  lemma TokenAhead(s: string, kind: TokenKind, text: string, at: nat, first: bool, colour: SpanKind, keywords: set<string>, p: nat)
    requires at < at + |text| <= |s| && s[at..at + |text|] == text && kind != Quoted && at <= p
    requires SpanKindOf(Token(kind, at, at + |text|, text), keywords) == colour
    ensures var end := at + |text|; var more := RedisLexer.RedisSpans(s, end, first);
            Within(s, [Span(kind, at, end)] + more)
            && Colour(WithText(s, [Span(kind, at, end)] + more), keywords, p)
               == if p < end then colour else Colour(WithText(s, more), keywords, p)
  {
    hide RedisLexer.RedisSpans, Colour, WithText, SpanKindOf;
    var end := at + |text|;
    var t, more := Span(kind, at, end), RedisLexer.RedisSpans(s, end, first);
    HeadColour(s, t, more, keywords, p);
  }

  /** The tokens of one item and of what comes behind it. */
  lemma FirstTokens(s: string, at: nat, before: seq<R.Item>, it: R.Item, rest: string)
    requires at < |s| && s[at..] == R.ItemForm(it) + rest && R.Fits(R.Opens(before), it, rest)
    ensures it.Argument? && it.arg.Bare? ==> it.arg.text != ""
    ensures var end := at + |R.ItemForm(it)|; var more := RedisLexer.RedisSpans(s, end, R.Opens(before + [it]));
            && at < end <= |s| && s[end..] == rest && s[at..end] == R.ItemForm(it)
            && RedisLexer.RedisSpans(s, at, R.Opens(before))
               == match it
                  case Blank(_) => more
                  case Note(_) => [Span(Comment, at, end)] + more
                  case Argument(a) => [Span(R.KindOf(R.Opens(before), a), at, end)] + more
  {
    hide RedisLexer.RedisSpans, RedisLexer.RedisStep, R.Opens, R.ItemForm, R.Fits, R.KindOf, Within;
    var opens := R.Opens(before);
    var end := at + |R.ItemForm(it)|;
    R.ItemReads(s, at, before, it, rest);
    R.NotNothing(opens, it, rest);
    RedisLexer.RedisSpansStep(s, at, opens);
    BareIsText(opens, it, rest);
    assert s[at..end] == s[at..][..end - at] == R.ItemForm(it);
  }

  /** The colours of one item and of what comes behind it. */
  lemma FirstColours(s: string, at: nat, before: seq<R.Item>, it: R.Item, rest: string, keywords: set<string>, p: nat)
    requires at < |s| && s[at..] == R.ItemForm(it) + rest && R.Fits(R.Opens(before), it, rest)
    requires at <= p
    ensures it.Argument? && it.arg.Bare? ==> it.arg.text != ""
    ensures var end := at + |R.ItemForm(it)|;
            && at < end <= |s| && s[end..] == rest
            && Colour(WithText(s, RedisLexer.RedisSpans(s, at, R.Opens(before))), keywords, p)
               == if p < end then RedisColour(R.Opens(before), it, keywords)
                  else Colour(WithText(s, RedisLexer.RedisSpans(s, end, R.Opens(before + [it]))), keywords, p)
  {
    hide RedisLexer.RedisSpans, R.Opens, Colour, WithText, SpanKindOf, R.ArgForm, R.Fits, RedisColour, R.KindOf, Within;
    var opens, after := R.Opens(before), R.Opens(before + [it]);
    var end := at + |R.ItemForm(it)|;
    FirstTokens(s, at, before, it, rest);
    match it
    case Blank(c) =>
      BlankIsPlain(opens, c, keywords);
      if p < end {
        RestIsPlain(s, end, after, keywords, p);
      }
    case Note(text) =>
      NoteIsComment(opens, text, at, keywords);
      TokenAhead(s, Comment, text, at, after, CommentText, keywords, p);
    case Argument(a) =>
      ArgIsColoured(opens, a, rest, at, keywords);
      TokenAhead(s, R.KindOf(opens, a), R.ArgForm(a), at, after, RedisColour(opens, it, keywords), keywords, p);
  }

  lemma BlankIsPlain(opens: bool, c: char, keywords: set<string>)
    ensures RedisColour(opens, R.Blank(c), keywords) == SpanKind.Plain
  {
  }

  lemma NoteIsComment(opens: bool, text: string, at: nat, keywords: set<string>)
    ensures RedisColour(opens, R.Note(text), keywords) == CommentText
    ensures SpanKindOf(Token(Comment, at, at + |text|, text), keywords) == CommentText
  {
  }

  lemma {:induction false} ItemsColoured(
    s: string, at: nat, before: seq<R.Item>, items: seq<R.Item>, k: nat, keywords: set<string>, p: nat)
    requires at <= |s| && s[at..] == R.Form(items) && R.Good(before, items) && k < |items|
    requires at + |R.Form(items[..k])| <= p < at + |R.Form(items[..k])| + |R.ItemForm(items[k])|
    ensures items[k].Argument? && items[k].arg.Bare? ==> items[k].arg.text != ""
    ensures Colour(WithText(s, RedisLexer.RedisSpans(s, at, R.Opens(before))), keywords, p)
            == RedisColour(R.Opens(before + items[..k]), items[k], keywords)
    decreases k
  {
    hide RedisLexer.RedisSpans, R.Opens, Colour, WithText, R.ItemForm, R.Fits, RedisColour;
    var it, rest := items[0], R.Form(items[1..]);
    R.NotNothing(R.Opens(before), it, rest);
    FirstColours(s, at, before, it, rest, keywords, p);
    if k == 0 {
      assert items[..0] == [] && before + [] == before;
      BareIsText(R.Opens(before), it, rest);
    } else {
      assert items[..k][0] == it && items[..k][1..] == items[1..][..k - 1];
      assert before + [it] + items[1..][..k - 1] == before + items[..k];
      ItemsColoured(s, at + |R.ItemForm(it)|, before + [it], items[1..], k - 1, keywords, p);
    }
  }

  lemma BareIsText(opens: bool, it: R.Item, rest: string)
    requires R.Fits(opens, it, rest)
    ensures it.Argument? && it.arg.Bare? ==> it.arg.text != ""
  {
  }

  /** In a Redis script the first argument of every line is drawn as a keyword, and the others as
      the strings, numbers, comments and keywords they are. */
  lemma RedisColours(items: seq<R.Item>, k: nat, keywords: set<string>, p: nat)
    requires R.Good([], items) && k < |items|
    requires |R.Form(items[..k])| <= p < |R.Form(items[..k])| + |R.ItemForm(items[k])|
    ensures items[k].Argument? && items[k].arg.Bare? ==> items[k].arg.text != ""
    ensures var s := R.Form(items);
            Colour(WithText(s, RedisLexer.RedisSpans(s, 0, true)), keywords, p)
            == RedisColour(R.Opens(items[..k]), items[k], keywords)
  {
    hide RedisLexer.RedisSpans, Colour, WithText, R.ItemForm, R.Fits, R.Form, R.Good, RedisColour;
    var s := R.Form(items);
    assert s[0..] == s && [] + items[..k] == items[..k];
    ItemsColoured(s, 0, [], items, k, keywords, p);
  }
}

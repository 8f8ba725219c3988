/**
 The destructive verdict on SQL from the tokens alone: which word comes first
 outside parentheses, and whether WHERE comes after it. Nothing here counts
 depth the way the program does; a token is outside parentheses when no stretch
 of tokens right before it opens more of them than it closes.
 */
module SqlVerdict {
  import opened Bytes
  import opened Lexer
  import opened Splitter
  import opened Engines
  import opened Elements

  /** How many of the tokens i..k are the punctuation `c`. */
  function Count(s: string, toks: seq<Span>, i: nat, k: nat, c: char): nat
    requires i <= k <= |toks|
  {
    if i == k then 0 else Count(s, toks, i, k - 1, c) + if IsPunct(s, toks[k - 1], c) then 1 else 0
  }

  predicate Outside(s: string, toks: seq<Span>, k: nat)
    requires k <= |toks|
  {
    forall i | 0 <= i <= k :: Count(s, toks, i, k, '(') <= Count(s, toks, i, k, ')')
  }

  /** The word in upper or lower case, letter by letter. */
  predicate Spells(text: string, word: string) {
    |text| == |word| && forall k | 0 <= k < |word| :: text[k] == word[k] || text[k] as int == word[k] as int + 32
  }

  /** Token `k` is a word outside parentheses. */
  predicate TopWord(s: string, toks: seq<Span>, k: nat) {
    k < |toks| && toks[k].kind == Word && Outside(s, toks, k)
  }

  predicate FirstTopWord(s: string, toks: seq<Span>, k: nat) {
    TopWord(s, toks, k) && forall j | 0 <= j < k :: !TopWord(s, toks, j)
  }

  predicate SpelledAt(s: string, toks: seq<Span>, k: nat, word: string)
    requires Within(s, toks) && k < |toks|
  {
    Spells(s[toks[k].start..toks[k].end], word)
  }

  /** Flagged for its first word, or for the missing WHERE. */
  predicate Flags(s: string, toks: seq<Span>, k: nat)
    requires Within(s, toks) && k < |toks|
  {
    || SpelledAt(s, toks, k, "DROP") || SpelledAt(s, toks, k, "TRUNCATE") || SpelledAt(s, toks, k, "ALTER")
    || ((SpelledAt(s, toks, k, "DELETE") || SpelledAt(s, toks, k, "UPDATE"))
        && !exists j :: k < j < |toks| && TopWord(s, toks, j) && SpelledAt(s, toks, j, "WHERE"))
  }

  /** What makes a statement destructive, read off its tokens. */
  predicate Harms(s: string, toks: seq<Span>)
    requires Within(s, toks)
  {
    exists k :: 0 <= k < |toks| && FirstTopWord(s, toks, k) && Flags(s, toks, k)
  }

  // ---- depth -----------------------------------------------------------------------

  lemma {:induction false} DepthIsExcess(s: string, toks: seq<Span>, k: nat) returns (i: nat)
    requires k <= |toks|
    ensures i <= k && Depth(s, toks[..k]) == Count(s, toks, i, k, '(') - Count(s, toks, i, k, ')')
    ensures forall j | 0 <= j <= k :: Count(s, toks, j, k, '(') - Count(s, toks, j, k, ')') <= Depth(s, toks[..k])
    decreases k
  {
    hide IsPunct;
    i := k;
    if k > 0 {
      var m := DepthIsExcess(s, toks, k - 1);
      assert toks[..k][..k - 1] == toks[..k - 1] && toks[..k][k - 1] == toks[k - 1];
      OnePunct(s, toks[k - 1]);
      if Depth(s, toks[..k]) > 0 || !IsPunct(s, toks[k - 1], ')') || Depth(s, toks[..k - 1]) > 0 {
        i := m;
      }
    }
  }

  lemma OnePunct(s: string, t: Span)
    ensures !(IsPunct(s, t, '(') && IsPunct(s, t, ')'))
  {
  }

  lemma OutsideExactly(s: string, toks: seq<Span>, k: nat)
    requires k <= |toks|
    ensures Outside(s, toks, k) <==> Depth(s, toks[..k]) == 0
  {
    hide Count, Depth;
    var i := DepthIsExcess(s, toks, k);
    CountNone(s, toks, k);
  }

  lemma CountNone(s: string, toks: seq<Span>, k: nat)
    requires k <= |toks|
    ensures Count(s, toks, k, k, '(') == Count(s, toks, k, k, ')') == 0
  {
  }

  // ---- words ---------------------------------------------------------------------------

  /** Letters no other character has for its upper case. */
  predicate OwnLetters(word: string) { forall k | 0 <= k < |word| :: 'A' <= word[k] <= 'Z' && word[k] != 'I' && word[k] != 'S' }

  lemma {:induction false} UpperSpells(text: string, word: string)
    requires OwnLetters(word)
    ensures ToUpper(text) == word <==> Spells(text, word)
    decreases |text|
  {
    if text != "" {
      if word != "" {
        UpperSpells(text[1..], word[1..]);
        assert text == [text[0]] + text[1..] && word == [word[0]] + word[1..];
        assert Spells(text, word) <==>
               (text[0] == word[0] || text[0] as int == word[0] as int + 32) && Spells(text[1..], word[1..]) by {
          SpellsStep(text, word);
        }
      }
    }
  }

  lemma SpellsStep(text: string, word: string)
    requires text != "" && word != ""
    ensures Spells(text, word) <==>
            (text[0] == word[0] || text[0] as int == word[0] as int + 32) && Spells(text[1..], word[1..])
  {
    assert forall k | 0 < k < |word| :: word[k] == word[1..][k - 1];
    assert forall k | 0 < k < |text| :: text[k] == text[1..][k - 1];
  }

  lemma Keywords()
    ensures OwnLetters("DROP") && OwnLetters("TRUNCATE") && OwnLetters("ALTER")
    ensures OwnLetters("DELETE") && OwnLetters("UPDATE") && OwnLetters("WHERE")
  {
  }

  // ---- the words the program collects -------------------------------------------------------

  lemma WithinTail(s: string, toks: seq<Span>, k: nat)
    requires Within(s, toks) && k <= |toks|
    ensures Within(s, toks[k..])
  {
    assert forall j | 0 <= j < |toks| - k :: toks[k..][j] == toks[k + j];
  }

  /** What is collected from token `k` on, one token at a time. */
  lemma WordsAt(s: string, toks: seq<Span>, k: nat)
    requires Within(s, toks) && k < |toks|
    ensures Within(s, toks[k..]) && Within(s, toks[k + 1..])
    ensures WordsFrom(s, toks[k..], Depth(s, toks[..k]))
            == (if TopWord(s, toks, k) then [ToUpper(s[toks[k].start..toks[k].end])] else [])
               + WordsFrom(s, toks[k + 1..], Depth(s, toks[..k + 1]))
  {
    hide ToUpper, IsPunct, Outside, Spans;
    WithinTail(s, toks, k);
    WithinTail(s, toks, k + 1);
    OutsideExactly(s, toks, k);
    assert toks[k..][0] == toks[k] && toks[k..][1..] == toks[k + 1..];
    assert toks[..k + 1][..k] == toks[..k] && toks[..k + 1][k] == toks[k];
  }

  lemma NoWords(s: string, toks: seq<Span>, depth: nat)
    requires toks == []
    ensures WordsFrom(s, toks, depth) == []
  {
  }

  lemma {:induction false} CollectedExactly(s: string, toks: seq<Span>, k: nat, word: string)
    requires Within(s, toks) && k <= |toks| && OwnLetters(word)
    ensures Within(s, toks[k..])
    ensures word in WordsFrom(s, toks[k..], Depth(s, toks[..k]))
            <==> exists j :: k <= j < |toks| && TopWord(s, toks, j) && SpelledAt(s, toks, j, word)
    decreases |toks| - k
  {
    hide ToUpper, Spells, WordsFrom, Depth, TopWord, OwnLetters;
    WithinTail(s, toks, k);
    if k == |toks| {
      NoWords(s, toks[k..], Depth(s, toks[..k]));
    } else {
      WordsAt(s, toks, k);
      UpperSpells(s[toks[k].start..toks[k].end], word);
      CollectedExactly(s, toks, k + 1, word);
    }
  }

  lemma {:induction false} FirstCollected(s: string, toks: seq<Span>, k: nat) returns (j: nat)
    requires Within(s, toks) && k <= |toks|
    ensures Within(s, toks[k..])
    ensures var words := WordsFrom(s, toks[k..], Depth(s, toks[..k]));
            && (words == [] ==> forall i | k <= i < |toks| :: !TopWord(s, toks, i))
            && (words != [] ==>
                  && k <= j < |toks| && TopWord(s, toks, j) && (forall i | k <= i < j :: !TopWord(s, toks, i))
                  && words[0] == ToUpper(s[toks[j].start..toks[j].end])
                  && Within(s, toks[j + 1..])
                  && words[1..] == WordsFrom(s, toks[j + 1..], Depth(s, toks[..j + 1])))
    decreases |toks| - k
  {
    hide ToUpper, WordsFrom, Depth, TopWord;
    WithinTail(s, toks, k);
    j := k;
    if k == |toks| {
      NoWords(s, toks[k..], Depth(s, toks[..k]));
    } else {
      WordsAt(s, toks, k);
      if !TopWord(s, toks, k) {
        j := FirstCollected(s, toks, k + 1);
      }
    }
  }

  /** The program's verdict on a statement is the one its tokens give. */
  lemma VerdictFromTokens(engine: Engine, stmt: string)
    requires engine != Redis
    ensures IsDestructive(engine, stmt) <==> Harms(stmt, Spans(stmt, 0, engine == ClickHouse))
  {
    hide ToUpper, Spells, WordsFrom, Depth, TopWord, Spans, OwnLetters;
    var toks := Spans(stmt, 0, engine == ClickHouse);
    assert toks[0..] == toks && toks[..0] == [];
    DepthNone(stmt);
    var k := FirstCollected(stmt, toks, 0);
    var words := TopLevelWords(stmt, engine == ClickHouse);
    Keywords();
    if words != [] {
      var text := stmt[toks[k].start..toks[k].end];
      UpperSpells(text, "DROP");
      UpperSpells(text, "TRUNCATE");
      UpperSpells(text, "ALTER");
      UpperSpells(text, "DELETE");
      UpperSpells(text, "UPDATE");
      CollectedExactly(stmt, toks, k + 1, "WHERE");
      OnlyFirst(stmt, toks, k);
    }
  }

  lemma DepthNone(s: string)
    ensures Depth(s, []) == 0
  {
  }

  lemma OnlyFirst(s: string, toks: seq<Span>, k: nat)
    requires Within(s, toks) && k < |toks| && FirstTopWord(s, toks, k)
    ensures Harms(s, toks) <==> Flags(s, toks, k)
  {
    hide TopWord, Flags;
  }

  // ---- statements written out ----------------------------------------------------------

  function Head(verb: string, link: string, table: seq<Unit>): string {
    verb + " " + link + " " + Print(Name(table))
  }

  predicate PlainWord(w: string) { Good(Plain(w), false) }

  /** Two words and a quoted name, whatever comes behind it. */
  lemma HeadSpans(verb: string, link: string, table: seq<Unit>, rest: string, backtick: bool)
    requires PlainWord(verb) && PlainWord(link) && Good(Name(table), backtick) && (rest == "" || rest[0] != '"')
    ensures var s, b, n := Head(verb, link, table) + rest, |verb| + 1, |Head(verb, link, table)|;
            Spans(s, 0, backtick)
            == [Span(Word, 0, |verb|), Span(Word, b, b + |link|), Span(Quoted, b + |link| + 1, n)] + Spans(s, n, backtick)
  {
    hide Spans, Print, KindOf;
    var name := Print(Name(table));
    var s := Head(verb, link, table) + rest;
    var t1 := " " + link + " " + name + rest;
    var t2 := link + " " + name + rest;
    var t3 := " " + name + rest;
    var t4 := name + rest;
    assert s == "" + verb + t1 == verb + " " + t2 == (verb + " ") + link + t3 == (verb + " " + link) + " " + t4
             == (verb + " " + link + " ") + name + rest;
    WordReads("", verb, t1, backtick);
    GapReads(verb, ' ', t2, backtick);
    WordReads(verb + " ", link, t3, backtick);
    GapReads(verb + " " + link, ' ', t4, backtick);
    NameReads(verb + " " + link + " ", table, rest, backtick);
  }

  lemma WordReads(pre: string, w: string, rest: string, backtick: bool)
    requires PlainWord(w) && (rest == "" || !IsWordByte(rest[0]))
    ensures var s := pre + w + rest;
            Spans(s, |pre|, backtick) == [Span(Word, |pre|, |pre| + |w|)] + Spans(s, |pre| + |w|, backtick)
  {
    hide Spans, Print, Good, MayFollow, KindOf, Within;
    var s := pre + w + rest;
    WordForm(w, rest, backtick);
    ElementFirst(pre, Plain(w), rest, backtick);
  }

  lemma GapReads(pre: string, c: char, rest: string, backtick: bool)
    requires IsSpace(c)
    ensures var s := pre + [c] + rest; Spans(s, |pre|, backtick) == Spans(s, |pre| + 1, backtick)
  {
    hide Spans;
    FirstReads(pre, Gap(c), rest, backtick);
    var s := pre + [c] + rest;
    assert [] + Spans(s, |pre| + 1, backtick) == Spans(s, |pre| + 1, backtick);
  }

  lemma NameReads(pre: string, table: seq<Unit>, rest: string, backtick: bool)
    requires Good(Name(table), backtick) && (rest == "" || rest[0] != '"')
    ensures var s, n := pre + Print(Name(table)) + rest, |pre| + |Print(Name(table))|;
            Spans(s, |pre|, backtick) == [Span(Quoted, |pre|, n)] + Spans(s, n, backtick)
  {
    hide Spans, Print, Good, MayFollow, KindOf, Within;
    var s := pre + Print(Name(table)) + rest;
    NameForm(table, rest);
    ElementFirst(pre, Name(table), rest, backtick);
  }

  lemma WordForm(w: string, rest: string, backtick: bool)
    requires PlainWord(w) && (rest == "" || !IsWordByte(rest[0]))
    ensures Good(Plain(w), backtick) && MayFollow(Plain(w), rest) && KindOf(Plain(w)) == Word && Print(Plain(w)) == w
  {
  }

  lemma NameForm(table: seq<Unit>, rest: string)
    requires rest == "" || rest[0] != '"'
    ensures MayFollow(Name(table), rest) && KindOf(Name(table)) == Quoted
  {
  }

  /** The first of two words is outside parentheses, and so is everything up to the first of them. */
  lemma {:induction false} NothingOpened(s: string, toks: seq<Span>, i: nat, k: nat)
    requires i <= k <= |toks| && forall j | i <= j < k :: toks[j].kind != Punct
    ensures Count(s, toks, i, k, '(') == 0
    decreases k
  {
    if i < k {
      NothingOpened(s, toks, i, k - 1);
    }
  }

  lemma OutsideAtFirst(s: string, toks: seq<Span>, k: nat)
    requires k <= |toks| && forall j | 0 <= j < k :: toks[j].kind != Punct
    ensures Outside(s, toks, k)
  {
    forall i | 0 <= i <= k
      ensures Count(s, toks, i, k, '(') <= Count(s, toks, i, k, ')')
    {
      NothingOpened(s, toks, i, k);
    }
  }

  /** DELETE without WHERE from any quoted table, on either SQL engine, is flagged. */
  lemma DeleteAllIsFlagged(engine: Engine, table: seq<Unit>)
    requires engine != Redis && Good(Name(table), false)
    ensures IsDestructive(engine, Head("DELETE", "FROM", table))
  {
    hide IsDestructive, Spans, Print, Head;
    var backtick := engine == ClickHouse;
    var stmt := Head("DELETE", "FROM", table);
    var toks := Spans(stmt, 0, backtick);
    HeadSpans("DELETE", "FROM", table, "", backtick);
    assert stmt + "" == stmt;
    SpansEnd(stmt, backtick);
    VerdictFromTokens(engine, stmt);
    HeadText("DELETE", "FROM", table, "");
    OutsideAtFirst(stmt, toks, 0);
    assert FirstTopWord(stmt, toks, 0) && SpelledAt(stmt, toks, 0, "DELETE");
    assert |toks| == 3 && !SpelledAt(stmt, toks, 1, "WHERE") by { assert "FROM"[0] == 'F' && "WHERE"[0] == 'W'; }
    assert Flags(stmt, toks, 0);
  }

  lemma HeadText(verb: string, link: string, table: seq<Unit>, rest: string)
    ensures var s, b := Head(verb, link, table) + rest, |verb| + 1;
            b + |link| <= |s| && s[0..|verb|] == verb && s[b..b + |link|] == link
    ensures var s, n := Head(verb, link, table) + rest, |Head(verb, link, table)|; s[n..] == rest
  {
    hide Print;
    var s, b := Head(verb, link, table) + rest, |verb| + 1;
    assert s == verb + (" " + link + " " + Print(Name(table)) + rest);
    assert s == (verb + " ") + link + (" " + Print(Name(table)) + rest);
  }

  /** With a WHERE behind the table it is not, whatever the condition says. */
  lemma DeleteWhereIsNot(engine: Engine, table: seq<Unit>, condition: string)
    requires engine != Redis && Good(Name(table), false) && (condition == "" || !IsWordByte(condition[0]))
    ensures !IsDestructive(engine, Head("DELETE", "FROM", table) + (" WHERE" + condition))
  {
    hide IsDestructive, Spans, Print, Head;
    var backtick := engine == ClickHouse;
    var head, rest := Head("DELETE", "FROM", table), " WHERE" + condition;
    var stmt, n := head + rest, |head|;
    var toks := Spans(stmt, 0, backtick);
    HeadSpans("DELETE", "FROM", table, rest, backtick);
    assert rest == " " + "WHERE" + condition;
    WordBehind(head, "WHERE", condition, backtick);
    VerdictFromTokens(engine, stmt);
    HeadText("DELETE", "FROM", table, rest);
    WhereSpares(stmt, toks, 3);
  }

  /** A word behind a blank. */
  lemma WordBehind(head: string, w: string, rest: string, backtick: bool)
    requires PlainWord(w) && (rest == "" || !IsWordByte(rest[0]))
    ensures var s, n := head + (" " + w + rest), |head|;
            && Spans(s, n, backtick) == [Span(Word, n + 1, n + 1 + |w|)] + Spans(s, n + 1 + |w|, backtick)
            && s[n + 1..n + 1 + |w|] == w
  {
    hide Spans;
    assert head + (" " + w + rest) == head + " " + (w + rest) == (head + " ") + w + rest;
    GapReads(head, ' ', w + rest, backtick);
    WordReads(head + " ", w, rest, backtick);
  }

  /** A statement that begins with DELETE and has a WHERE with nothing opened before it. */
  lemma WhereSpares(s: string, toks: seq<Span>, j: nat)
    requires Within(s, toks) && 0 < j < |toks| && forall k | 0 <= k < j :: toks[k].kind != Punct
    requires toks[0].kind == Word && s[toks[0].start..toks[0].end] == "DELETE"
    requires toks[j].kind == Word && s[toks[j].start..toks[j].end] == "WHERE"
    ensures !Harms(s, toks)
  {
    hide Outside;
    OutsideAtFirst(s, toks, 0);
    OutsideAtFirst(s, toks, j);
    assert TopWord(s, toks, j) && SpelledAt(s, toks, j, "WHERE");
    assert FirstTopWord(s, toks, 0);
    NotThese(s, toks, 0);
    OnlyFirst(s, toks, 0);
  }

  lemma NotThese(s: string, toks: seq<Span>, k: nat)
    requires Within(s, toks) && k < |toks| && s[toks[k].start..toks[k].end] == "DELETE"
    ensures !SpelledAt(s, toks, k, "DROP") && !SpelledAt(s, toks, k, "TRUNCATE") && !SpelledAt(s, toks, k, "ALTER")
  {
    assert |"DELETE"| == 6 && |"DROP"| == 4 && |"TRUNCATE"| == 8 && |"ALTER"| == 5;
  }
}

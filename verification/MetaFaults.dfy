/**
 Why a backslash command is rejected, read off its printed form: every text that
 is not a command is rejected for the first thing in it that is wrong.
 */
module MetaFaults {
  import opened Bytes
  import opened Lexer
  import opened Splitter
  import opened SchemaTemplate
  import opened Meta
  import EditDistance

  predicate Letters(verb: string) { verb != "" && forall k | 0 <= k < |verb| :: IsVerbByte(verb[k]) }

  /** `verb` is all there is of the verb when `more` follows it: a question mark, or letters before
      anything else. */
  predicate WholeVerb(verb: string, more: string) {
    verb == "?" || (Letters(verb) && (more == "" || !IsVerbByte(more[0])))
  }

  /** The text is a backslash, a whole verb, a + if there is one, and the rest. */
  predicate Headed(s: string, c: Command, rest: string) {
    && s == Spelling(c, rest)
    && WholeVerb(c.verb, (if c.plus then "+" else "") + rest)
    && (!c.plus ==> rest == "" || rest[0] != '+')
  }

  // ---- the head --------------------------------------------------------------------

  lemma VerbIs(verb: string, more: string)
    requires WholeVerb(verb, more)
    ensures VerbEnd(verb + more) == |verb|
  {
    var rest := verb + more;
    assert forall k | 0 <= k < |verb| :: rest[k] == verb[k];
    assert more != "" ==> rest[|verb|] == more[0];
  }

  /** A headed text is judged by its verb and its rest. */
  lemma HeadReads(s: string, c: Command, rest: string)
    requires Headed(s, c, rest)
    ensures ParseText(s) == AfterVerb(c.verb, c.plus, rest)
  {
    hide AfterVerb, VerbEnd;
    var more := (if c.plus then "+" else "") + rest;
    VerbIs(c.verb, more);
    assert s[0] == '\\' && s[1..] == c.verb + more;
    assert (c.verb + more)[..|c.verb|] == c.verb && (c.verb + more)[|c.verb|..] == more;
    assert (more != "" && more[0] == '+') == c.plus;
    assert (if c.plus then more[1..] else more) == rest;
  }

  /** Every text that begins with a backslash and a verb is headed. */
  lemma HeadOf(s: string) returns (c: Command, rest: string)
    requires |s| > 1 && s[0] == '\\' && (IsVerbByte(s[1]) || s[1] == '?')
    ensures Headed(s, c, rest)
  {
    hide VerbEnd, WholeVerb, IsVerbByte, Spelling;
    var t := s[1..];
    var k := VerbEnd(t);
    var more := t[k..];
    assert t[0] == s[1];
    WholeThere(t, k);
    var plus := more != "" && more[0] == '+';
    c, rest := Command.Command(t[..k], plus, ""), if plus then more[1..] else more;
    assert more == (if plus then "+" else "") + rest;
    SpellingOf(s, k, c, rest);
  }

  lemma WholeThere(t: string, k: nat)
    requires t != "" && (IsVerbByte(t[0]) || t[0] == '?') && k == VerbEnd(t)
    ensures WholeVerb(t[..k], t[k..])
  {
    if IsVerbByte(t[0]) {
      assert k == VerbRun(t, 0) > 0;
    } else {
      assert VerbRun(t, 0) == 0 && t[..1] == "?";
    }
  }

  /** A text has one head. */
  lemma OneHead(s: string, c: Command, rest: string, d: Command, tail: string)
    requires Headed(s, c, rest) && Headed(s, d, tail)
    ensures c.verb == d.verb && c.plus == d.plus && rest == tail
  {
    var x, y := (if c.plus then "+" else "") + rest, (if d.plus then "+" else "") + tail;
    VerbIs(c.verb, x);
    VerbIs(d.verb, y);
    assert s[1..] == c.verb + x == d.verb + y;
    assert c.verb == s[1..][..|c.verb|] && d.verb == s[1..][..|c.verb|];
    assert x == s[1..][|c.verb|..] == y;
    assert c.plus ==> x[0] == '+' && x[1..] == rest;
    assert d.plus ==> y[0] == '+' && y[1..] == tail;
    assert (!c.plus ==> x == rest) && (!d.plus ==> y == tail);
  }

  /** Every text that begins with a backslash and a verb has such a head, and only one. */
  lemma HeadExactly(s: string)
    requires |s| > 1 && s[0] == '\\' && (IsVerbByte(s[1]) || s[1] == '?')
    ensures exists c, rest :: Headed(s, c, rest)
    ensures forall c, rest, d, tail | Headed(s, c, rest) && Headed(s, d, tail) :: c.verb == d.verb && c.plus == d.plus && rest == tail
  {
    hide Headed;
    var c, rest := HeadOf(s);
    forall c, rest, d, tail | Headed(s, c, rest) && Headed(s, d, tail)
      ensures c.verb == d.verb && c.plus == d.plus && rest == tail
    {
      OneHead(s, c, rest, d, tail);
    }
  }

  // ---- the argument --------------------------------------------------------------------

  /** A quote is opened that nothing closes. */
  ghost predicate Dangles(text: string) { exists name :: text == ['"'] + Double(name, '"') }

  /** An argument is written and something else follows it: after a blank, or behind a closing quote. */
  ghost predicate Follows(text: string, arg: string, extra: string) {
    exists word, gap ::
      && text == word + gap + extra && word != "" && Writes(word, arg)
      && extra != "" && !IsSpace(extra[0]) && AllSpace(gap, 0, |gap|)
      && (if word[0] == '"' then gap != "" || extra[0] != '"' else gap != "" && IsBlank(gap[0]))
  }

  lemma {:induction false} OpenReads(s: string, i: nat, name: string)
    requires i <= |s| && s[i..] == Double(name, '"')
    ensures QuotedFrom(s, i).None?
    decreases |name|
  {
    var t := s[i..];
    assert |s| - i == |t| && forall k | 0 <= k < |t| :: t[k] == s[i + k];
    if name != "" {
      var e := Double(name[1..], '"');
      if name[0] == '"' {
        assert t == ['"', '"'] + e;
        assert t[0] == '"' && t[1] == '"';
        assert s[i + 2..] == t[2..] == e;
        OpenReads(s, i + 2, name[1..]);
      } else {
        assert t == [name[0]] + e;
        assert s[i + 1..] == t[1..] == e;
        OpenReads(s, i + 1, name[1..]);
      }
    }
  }

  lemma {:induction false} OpenWas(s: string, i: nat) returns (name: string)
    requires i <= |s| && QuotedFrom(s, i).None?
    ensures s[i..] == Double(name, '"')
    decreases |s| - i
  {
    if i == |s| {
      name := "";
    } else {
      var next := if s[i] == '"' then i + 2 else i + 1;
      var more := OpenWas(s, next);
      name := [s[i]] + more;
      assert name[1..] == more;
      assert s[i..] == s[i..next] + s[next..];
    }
  }

  lemma DanglesExactly(text: string)
    ensures ArgOf(text).None? <==> Dangles(text)
  {
    hide Double, QuotedFrom;
    if ArgOf(text).None? {
      var name := OpenWas(text, 1);
      assert text == ['"'] + text[1..];
    }
    if Dangles(text) {
      var name :| text == ['"'] + Double(name, '"');
      assert text[1..] == Double(name, '"');
      OpenReads(text, 1, name);
    }
  }

  /** What is read as an argument was written, and the rest begins with a blank or behind a quote. */
  lemma ArgWas(text: string)
    requires ArgOf(text).Some? && text != "" && !IsSpace(text[0])
    ensures var (arg, tail) := ArgOf(text).value;
            && |tail| < |text| && text == text[..|text| - |tail|] + tail && Writes(text[..|text| - |tail|], arg)
            && (tail != "" ==> if text[0] == '"' then tail[0] != '"' else IsBlank(tail[0]))
  {
    hide Double;
    var (arg, tail) := ArgOf(text).value;
    if text[0] == '"' {
      QuotedWas(text, 1);
      var (name, end) := QuotedFrom(text, 1).value;
      assert |text| - |tail| == end && text[..end] == [text[0]] + text[1..end];
      ClosingQuote(text, 1);
    } else {
      var k := BlankFrom(text, 0);
      assert |text| - |tail| == k;
      assert k > 0;
    }
  }

  lemma {:induction false} ClosingQuote(s: string, i: nat)
    requires i <= |s| && QuotedFrom(s, i).Some?
    ensures var end := QuotedFrom(s, i).value.1; end < |s| ==> s[end] != '"'
    decreases |s| - i
  {
    if !(s[i] == '"' && !(i + 1 < |s| && s[i + 1] == '"')) {
      ClosingQuote(s, if s[i] == '"' then i + 2 else i + 1);
    }
  }

  /** A written argument before something else is read, and the something else is left. */
  lemma ArgThere(word: string, arg: string, tail: string)
    requires word != "" && Writes(word, arg)
    requires tail != "" ==> if word[0] == '"' then tail[0] != '"' else IsBlank(tail[0])
    ensures ArgOf(word + tail) == Some((arg, tail))
  {
    hide Double, QuotedFrom;
    var text := word + tail;
    assert forall k | 0 <= k < |word| :: text[k] == word[k];
    if word == QuotedText(arg) {
      assert text[1..] == Double(arg, '"') + (['"'] + tail);
      QuotedReads(text, 1, arg, tail);
      assert text[|text| - |tail|..] == tail;
    } else {
      assert tail != "" ==> text[|word|] == tail[0];
      assert BlankFrom(text, 0) == |word|;
      assert text[..|word|] == word && text[|word|..] == tail;
    }
  }

  // ---- what is wrong ---------------------------------------------------------------------

  lemma TrimTo(rest: string, gap: string, text: string)
    requires rest == gap + text && AllSpace(gap, 0, |gap|) && text != "" && !IsSpace(text[0]) && !IsSpace(text[|text| - 1])
    ensures TrimSpace(rest) == text
  {
    hide Trim;
    var r := Range(|gap|, |rest|);
    assert forall k | 0 <= k < |gap| :: rest[k] == gap[k];
    assert rest[|gap|] == text[0] && rest[|rest| - 1] == text[|text| - 1];
    TrimUnique(rest, 0, |rest|, r);
    TrimIs(rest, r);
    assert rest[|gap|..|rest|] == text;
  }

  /** Text that ends on no space is spaces and the rest. */
  lemma SpacesAhead(rest: string) returns (gap: string)
    requires rest != "" && !IsSpace(rest[|rest| - 1])
    ensures rest == gap + TrimSpace(rest) && AllSpace(gap, 0, |gap|)
    ensures TrimSpace(rest) != "" && !IsSpace(TrimSpace(rest)[0])
    ensures TrimSpace(rest)[|TrimSpace(rest)| - 1] == rest[|rest| - 1]
  {
    var r := Trim(rest, 0, |rest|);
    assert r.end == |rest|;
    gap := rest[..r.start];
    assert rest[r.start..|rest|] == TrimSpace(rest);
  }

  lemma DanglingIsSolid(text: string)
    requires Dangles(text)
    ensures text != "" && text[0] == '"'
  {
  }

  ghost predicate Opens(rest: string) { exists gap, text :: rest == gap + text && IsGap(gap) && Dangles(text) }

  ghost predicate Extra(rest: string, extra: string) {
    exists gap, text, arg :: rest == gap + text && IsGap(gap) && Follows(text, arg, extra)
  }

  lemma OpensExactly(rest: string)
    requires rest != "" && IsBlank(rest[0]) && !IsSpace(rest[|rest| - 1])
    ensures ArgOf(TrimSpace(rest)).None? <==> Opens(rest)
  {
    hide TrimSpace, ArgOf, Dangles;
    var gap := SpacesAhead(rest);
    DanglesExactly(TrimSpace(rest));
    assert gap != "" && gap[0] == rest[0];
    if Opens(rest) {
      var g, text :| rest == g + text && IsGap(g) && Dangles(text);
      DanglingIsSolid(text);
      assert text[|text| - 1] == rest[|rest| - 1];
      TrimTo(rest, g, text);
    }
  }

  lemma FollowsParts(text: string, arg: string, extra: string) returns (word: string, gap: string)
    requires Follows(text, arg, extra)
    ensures text == word + gap + extra && word != "" && Writes(word, arg) && text[0] == word[0] && !IsSpace(word[0])
    ensures extra != "" && !IsSpace(extra[0]) && AllSpace(gap, 0, |gap|)
    ensures if word[0] == '"' then gap != "" || extra[0] != '"' else gap != "" && IsBlank(gap[0])
  {
    hide Writes;
    word, gap :| text == word + gap + extra && word != "" && Writes(word, arg)
                 && extra != "" && !IsSpace(extra[0]) && AllSpace(gap, 0, |gap|)
                 && (if word[0] == '"' then gap != "" || extra[0] != '"' else gap != "" && IsBlank(gap[0]));
    WrittenEnds(word, arg);
  }

  /** What is left over, trimmed, is what follows the argument. */
  lemma LeftOver(text: string, arg: string, extra: string)
    requires text != "" && !IsSpace(text[0]) && !IsSpace(text[|text| - 1])
    ensures Follows(text, arg, extra)
            <==> ArgOf(text).Some? && ArgOf(text).value.0 == arg && TrimSpace(ArgOf(text).value.1) == extra != ""
  {
    hide TrimSpace, ArgOf, Writes, Follows;
    if Follows(text, arg, extra) {
      var word, gap := FollowsParts(text, arg, extra);
      var tail := gap + extra;
      assert text == word + tail;
      assert tail[|tail| - 1] == text[|text| - 1] && extra[|extra| - 1] == text[|text| - 1];
      assert gap != "" ==> tail[0] == gap[0] && IsSpace(gap[0]);
      ArgThere(word, arg, tail);
      TrimTo(tail, gap, extra);
    }
    if ArgOf(text).Some? && ArgOf(text).value.0 == arg && TrimSpace(ArgOf(text).value.1) == extra != "" {
      ArgWas(text);
      var tail := ArgOf(text).value.1;
      if tail == "" {
        TrimNothing();
      } else {
        assert tail[|tail| - 1] == text[|text| - 1];
        var gap := SpacesAhead(tail);
        var word := text[..|text| - |tail|];
        assert gap != "" ==> gap[0] == tail[0];
        assert text == word + gap + extra && word[0] == text[0];
        FollowsIs(text, arg, extra, word, gap);
      }
    }
  }

  lemma FollowsIs(text: string, arg: string, extra: string, word: string, gap: string)
    requires text == word + gap + extra && word != "" && Writes(word, arg)
    requires extra != "" && !IsSpace(extra[0]) && AllSpace(gap, 0, |gap|)
    requires if word[0] == '"' then gap != "" || extra[0] != '"' else gap != "" && IsBlank(gap[0])
    ensures Follows(text, arg, extra)
  {
    hide Writes;
  }

  lemma ExtraExactly(rest: string, extra: string)
    requires rest != "" && IsBlank(rest[0]) && !IsSpace(rest[|rest| - 1])
    ensures Extra(rest, extra)
            <==> ArgOf(TrimSpace(rest)).Some? && TrimSpace(ArgOf(TrimSpace(rest)).value.1) == extra != ""
  {
    hide TrimSpace, ArgOf, Follows;
    var gap := SpacesAhead(rest);
    var text := TrimSpace(rest);
    assert gap != "" && gap[0] == rest[0];
    if ArgOf(text).Some? {
      LeftOver(text, ArgOf(text).value.0, extra);
    }
    if Extra(rest, extra) {
      var g, t, arg :| rest == g + t && IsGap(g) && Follows(t, arg, extra);
      var word, _ := FollowsParts(t, arg, extra);
      assert t[|t| - 1] == rest[|rest| - 1];
      TrimTo(rest, g, t);
      LeftOver(t, arg, extra);
    }
  }

  /** Why a command is rejected: an unknown verb first; then something other than a blank behind the
      verb; then a quote that stays open; then something behind the argument. With ParseExactly this
      is every outcome there is. */
  lemma RejectedExactly(s: string, c: Command, rest: string)
    requires Trimmed(s) && Headed(s, c, rest)
    ensures ParseText(s).UnknownVerb? <==> c.verb !in EditDistance.VERBS
    ensures ParseText(s).UnknownVerb? ==> ParseText(s).verb == c.verb
    ensures c.verb in EditDistance.VERBS ==>
              && (ParseText(s).Malformed? <==> rest != "" && !IsBlank(rest[0]))
              && (ParseText(s).Unterminated? <==> Opens(rest))
              && forall extra :: ParseText(s) == TooMany(extra) <==> Extra(rest, extra)
    ensures !ParseText(s).NotMeta? && !ParseText(s).Incomplete?
  {
    hide ParseText, TrimSpace, ArgOf, Spelling, Opens, Extra;
    HeadReads(s, c, rest);
    if rest == "" {
      NothingWrong();
    } else {
      SpellingEnds(c, rest);
      if IsBlank(rest[0]) {
        OpensExactly(rest);
        forall extra
          ensures Extra(rest, extra)
                  <==> ArgOf(TrimSpace(rest)).Some? && TrimSpace(ArgOf(TrimSpace(rest)).value.1) == extra != ""
        {
          ExtraExactly(rest, extra);
        }
      } else {
        NoGapThere(rest);
      }
    }
  }

  lemma SpellingEnds(c: Command, rest: string)
    requires rest != ""
    ensures Spelling(c, rest) != "" && Spelling(c, rest)[|Spelling(c, rest)| - 1] == rest[|rest| - 1]
  {
  }

  lemma NothingWrong()
    ensures ArgOf(TrimSpace("")) == Some(("", "")) && TrimSpace("") == ""
    ensures !Opens("") && forall extra :: !Extra("", extra)
  {
    TrimNothing();
  }

  lemma NoGapThere(rest: string)
    requires rest != "" && !IsBlank(rest[0])
    ensures !Opens(rest) && forall extra :: !Extra(rest, extra)
  {
    hide Dangles, Follows;
  }

  /** Texts without a verb. */
  lemma NoVerbExactly(s: string)
    ensures ParseText(s).NotMeta? <==> s == "" || s[0] != '\\'
    ensures ParseText(s).Incomplete? <==> s != "" && s[0] == '\\' && (|s| == 1 || (!IsVerbByte(s[1]) && s[1] != '?'))
  {
    hide AfterVerb;
    if s != "" && s[0] == '\\' {
      AfterVerbIsMeta(s);
      assert |s| > 1 ==> s[1..][0] == s[1];
    }
  }

  lemma AfterVerbIsMeta(s: string)
    ensures forall verb, plus, rest :: !AfterVerb(verb, plus, rest).NotMeta? && !AfterVerb(verb, plus, rest).Incomplete?
  {
    hide ArgOf, TrimSpace;
  }
}

/**
 The form of a script's tokens, written out without the splitter: stretches up
 to a semicolon, and backslash commands, each on its line. Every script has this
 form, and its statements are read off it.
 */
module Sections {
  import opened Bytes
  import opened Lexer
  import opened LexerWindow
  import opened Splitter

  // ---- the form ----------------------------------------------------------------

  /** Tokens up to a semicolon or the end of the script; or comments, a backslash, and the tokens
      that belong to its command. */
  datatype Section = Upto(toks: seq<Span>, semi: Option<Span>) | Slashed(notes: seq<Span>, slash: Span, rest: seq<Span>)

  function Tokens(sec: Section): seq<Span> {
    match sec
    case Upto(toks, None) => toks
    case Upto(toks, Some(semi)) => toks + [semi]
    case Slashed(notes, slash, rest) => notes + ([slash] + rest)
  }

  function Flat(secs: seq<Section>): seq<Span> { if secs == [] then [] else Tokens(secs[0]) + Flat(secs[1..]) }

  predicate Notes(toks: seq<Span>) { forall k | 0 <= k < |toks| :: toks[k].kind == Comment }

  predicate NoSemicolons(s: string, toks: seq<Span>) { forall k | 0 <= k < |toks| :: !IsPunct(s, toks[k], ';') }

  /** A newline between two tokens. */
  predicate Broken(s: string, t: Span, u: Span) { t.end <= u.start <= |s| && '\n' in s[t.end..u.start] }

  predicate OneLine(s: string, toks: seq<Span>) { forall k | 0 < k < |toks| :: !Broken(s, toks[k - 1], toks[k]) }

  predicate GoodUpto(s: string, toks: seq<Span>, semi: Option<Span>, next: seq<Span>) {
    && NoSemicolons(s, toks)
    && (forall k | 0 <= k < |toks| && Notes(toks[..k]) :: !IsPunct(s, toks[k], '\\'))
    && (if semi.Some? then IsPunct(s, semi.value, ';') else next == [])
  }

  predicate GoodCommand(s: string, notes: seq<Span>, slash: Span, rest: seq<Span>, next: seq<Span>) {
    && Notes(notes) && IsPunct(s, slash, '\\')
    && NoSemicolons(s, rest) && OneLine(s, [slash] + rest)
    && (next == [] || IsPunct(s, next[0], ';') || Broken(s, ([slash] + rest)[|rest|], next[0]))
  }

  /** A stretch begins with no backslash, comments aside; a command runs on to a semicolon, to the
      first newline between two of its tokens, or to the end. */
  predicate GoodSection(s: string, sec: Section, next: seq<Span>) {
    match sec
    case Upto(toks, semi) => GoodUpto(s, toks, semi, next)
    case Slashed(notes, slash, rest) => GoodCommand(s, notes, slash, rest, next)
  }

  predicate Good(s: string, secs: seq<Section>) {
    secs == [] || (GoodSection(s, secs[0], Flat(secs[1..])) && Good(s, secs[1..]))
  }

  function EndOf(s: string, sec: Section): nat {
    match sec
    case Upto(_, None) => |s|
    case Upto(_, Some(semi)) => semi.end
    case Slashed(_, slash, rest) => ([slash] + rest)[|rest|].end
  }

  /** Where the statement of a section lies, trimming aside. */
  function Extent(s: string, sec: Section, from: nat): Range {
    match sec
    case Upto(_, None) => Range(from, |s|)
    case Upto(_, Some(semi)) => Range(from, semi.start)
    case Slashed(_, slash, _) => Range(slash.start, EndOf(s, sec))
  }

  /** `r` is what trimming leaves of `whole`. */
  predicate TrimsTo(s: string, whole: Range, r: Range) {
    && whole.start <= r.start < r.end <= whole.end <= |s|
    && AllSpace(s, whole.start, r.start) && AllSpace(s, r.end, whole.end)
    && !IsSpace(s[r.start]) && !IsSpace(s[r.end - 1])
  }

  /** The statements of these sections, the first of which begins at `from`: one for a command, one
      for a stretch that is not all comments. */
  predicate Reads(s: string, secs: seq<Section>, from: nat, rs: seq<Range>) {
    if secs == [] then rs == []
    else if secs[0].Upto? && Notes(secs[0].toks) then Reads(s, secs[1..], EndOf(s, secs[0]), rs)
    else rs != [] && TrimsTo(s, Extent(s, secs[0], from), rs[0]) && Reads(s, secs[1..], EndOf(s, secs[0]), rs[1..])
  }

  // ---- trimming ------------------------------------------------------------------

  lemma FlushTrims(s: string, a: nat, b: nat, k: nat)
    requires a <= k < b <= |s| && !IsSpace(s[k])
    ensures Flush(s, a, b, true) == [Trim(s, a, b)] && TrimsTo(s, Range(a, b), Trim(s, a, b))
  {
    var r := Trim(s, a, b);
    assert r.start <= k < r.end;
  }

  // ---- a stretch of tokens --------------------------------------------------------

  lemma NotesStep(toks: seq<Span>)
    requires toks != []
    ensures Notes(toks) <==> toks[0].kind == Comment && Notes(toks[1..])
  {
    assert forall k | 0 < k < |toks| :: toks[k] == toks[1..][k - 1];
  }

  /** Past a stretch that ends no statement and starts no command. */
  lemma {:induction false} StretchReads(s: string, toks: seq<Span>, more: seq<Span>, start: nat, hasCode: bool)
    requires start <= |s| && InOrder(s, toks + more, start) && NoSemicolons(s, toks)
    requires hasCode || forall k | 0 <= k < |toks| && Notes(toks[..k]) :: !IsPunct(s, toks[k], '\\')
    ensures InOrder(s, more, start)
    ensures SplitFrom(s, toks + more, start, hasCode) == SplitFrom(s, more, start, hasCode || !Notes(toks))
    decreases |toks|
  {
    hide SplitFrom, MetaTaken, MetaEnd, Flush, IsPunct, InOrder;
    if toks == [] {
      assert toks + more == more;
    } else {
      var t := toks[0];
      SplitStep(s, toks + more, start, hasCode);
      assert (toks + more)[1..] == toks[1..] + more;
      NotesStep(toks);
      assert !hasCode ==> Notes(toks[..0]);
      if !hasCode && t.kind == Comment {
        StillNoCommand(s, toks);
      }
      StretchReads(s, toks[1..], more, start, hasCode || t.kind != Comment);
    }
  }

  lemma StillNoCommand(s: string, toks: seq<Span>)
    requires toks != [] && toks[0].kind == Comment
    requires forall k | 0 <= k < |toks| && Notes(toks[..k]) :: !IsPunct(s, toks[k], '\\')
    ensures forall k | 0 <= k < |toks[1..]| && Notes(toks[1..][..k]) :: !IsPunct(s, toks[1..][k], '\\')
  {
    hide IsPunct;
    forall k | 0 <= k < |toks[1..]| && Notes(toks[1..][..k])
      ensures !IsPunct(s, toks[1..][k], '\\')
    {
      NotesStep(toks[..k + 1]);
      assert toks[..k + 1][1..] == toks[1..][..k];
    }
  }

  lemma {:induction false} CommandTakes(s: string, t: Span, rest: seq<Span>, next: seq<Span>)
    requires t.end <= |s| && InOrder(s, rest + next, t.end)
    requires NoSemicolons(s, rest) && OneLine(s, [t] + rest)
    requires next == [] || IsPunct(s, next[0], ';') || Broken(s, ([t] + rest)[|rest|], next[0])
    ensures MetaTaken(s, rest + next, t.end) == |rest|
    ensures MetaEnd(s, rest + next, t.end) == ([t] + rest)[|rest|].end
    decreases |rest|
  {
    hide MetaTaken, IsPunct, InOrder;
    MetaTakenStep(s, rest + next, t.end);
    if rest == [] {
      assert rest + next == next;
      if next != [] {
        BrokenIs(s, t, next[0]);
      }
    } else {
      var line := [t] + rest;
      BrokenIs(s, t, rest[0]);
      assert !Broken(s, line[0], line[1]);
      assert (rest + next)[1..] == rest[1..] + next;
      assert [rest[0]] + rest[1..] == rest == line[1..];
      assert forall k | 0 < k < |rest| :: rest[k - 1] == line[k] && rest[k] == line[k + 1];
      CommandTakes(s, rest[0], rest[1..], next);
    }
  }

  lemma BrokenIs(s: string, t: Span, u: Span)
    requires t.end <= u.start <= |s|
    ensures Broken(s, t, u) <==> NewlineIn(s, t.end, u.start)
  {
    var k := IndexByte(s, '\n', t.end);
    IndexByteFirst(s, '\n', t.end);
    assert k < u.start ==> s[t.end..u.start][k - t.end] == '\n';
    assert forall j | 0 <= j < u.start - t.end :: s[t.end..u.start][j] == s[t.end + j];
  }

  // ---- one section ---------------------------------------------------------------

  /** The statement of a stretch. */
  lemma UptoReads(s: string, toks: seq<Span>, semi: Option<Span>, next: seq<Span>, from: nat)
    requires var sec := Upto(toks, semi);
             from <= |s| && InOrder(s, Tokens(sec) + next, from) && OnCode(s, Tokens(sec)) && GoodUpto(s, toks, semi, next)
    ensures var sec := Upto(toks, semi); var whole := Extent(s, sec, from);
            && from <= whole.end <= EndOf(s, sec) <= |s| && InOrder(s, next, EndOf(s, sec))
            && SplitFrom(s, Tokens(sec) + next, from, false)
               == Flush(s, from, whole.end, !Notes(toks)) + SplitFrom(s, next, EndOf(s, sec), false)
  {
    hide SplitFrom, MetaTaken, MetaEnd, Flush, IsPunct, InOrder;
    var sec := Upto(toks, semi);
    if semi.Some? {
      var more := [semi.value] + next;
      assert Tokens(sec) + next == toks + more;
      StretchReads(s, toks, more, from, false);
      assert more[1..] == next;
      InOrderHead(s, more, from);
      SplitStep(s, more, from, !Notes(toks));
      NotASlash(s, semi.value);
    } else {
      assert Tokens(sec) + next == toks + [] == toks;
      StretchReads(s, toks, [], from, false);
      NothingInOrder(s);
      SplitEnd(s, from, !Notes(toks));
      SplitEnd(s, |s|, false);
      NoFlush(s);
      assert next == [];
      var f := Flush(s, from, |s|, !Notes(toks));
      assert f + [] == f;
    }
  }

  lemma NotASlash(s: string, t: Span)
    requires IsPunct(s, t, ';')
    ensures !IsPunct(s, t, '\\')
  {
  }

  lemma NothingInOrder(s: string)
    ensures InOrder(s, [], |s|)
  {
  }

  lemma NoFlush(s: string)
    ensures Flush(s, |s|, |s|, false) == []
  {
  }

  lemma CommandReads(s: string, notes: seq<Span>, slash: Span, rest: seq<Span>, next: seq<Span>, from: nat)
    requires var sec := Slashed(notes, slash, rest);
             from <= |s| && InOrder(s, Tokens(sec) + next, from) && GoodCommand(s, notes, slash, rest, next)
    ensures var sec := Slashed(notes, slash, rest); var end := EndOf(s, sec);
            && slash.start <= slash.end <= end <= |s| && InOrder(s, next, end)
            && SplitFrom(s, Tokens(sec) + next, from, false)
               == Flush(s, slash.start, end, true) + SplitFrom(s, next, end, false)
  {
    hide SplitFrom, MetaTaken, MetaEnd, Flush, IsPunct, InOrder, Broken, OneLine, NoSemicolons;
    var more := [slash] + (rest + next);
    assert Tokens(Slashed(notes, slash, rest)) + next == notes + more;
    NotesAreQuiet(s, notes);
    StretchReads(s, notes, more, from, false);
    InOrderHead(s, more, from);
    SplitStep(s, more, from, false);
    assert more[1..] == rest + next;
    CommandTakes(s, slash, rest, next);
    assert more[|rest| + 1..] == next;
  }

  lemma NotesAreQuiet(s: string, notes: seq<Span>)
    requires Notes(notes)
    ensures NoSemicolons(s, notes) && forall k | 0 <= k < |notes| :: !IsPunct(s, notes[k], '\\')
  {
  }

  // ---- the script -----------------------------------------------------------------

  lemma CodeInside(s: string, toks: seq<Span>, semi: Option<Span>, next: seq<Span>, from: nat) returns (k: nat)
    requires var sec := Upto(toks, semi); InOrder(s, Tokens(sec) + next, from) && OnCode(s, Tokens(sec)) && !Notes(toks)
    ensures from <= k < Extent(s, Upto(toks, semi), from).end <= |s| && !IsSpace(s[k])
  {
    var sec := Upto(toks, semi);
    var i :| 0 <= i < |toks| && toks[i].kind != Comment;
    k := toks[i].start;
    assert (Tokens(sec) + next)[i] == toks[i] == Tokens(sec)[i];
    if semi.Some? {
      assert (Tokens(sec) + next)[|toks|] == semi.value;
    }
  }

  lemma SlashInside(s: string, slash: Span)
    requires IsPunct(s, slash, '\\')
    ensures !IsSpace(s[slash.start])
  {
  }

  lemma OnCodeParts(s: string, x: seq<Span>, y: seq<Span>)
    requires OnCode(s, x + y)
    ensures OnCode(s, x) && OnCode(s, y)
  {
    assert forall k | 0 <= k < |x| :: (x + y)[k] == x[k];
    assert forall k | 0 <= k < |y| :: (x + y)[|x| + k] == y[k];
  }

  /** Sections are cut into the statements they are read as. */
  lemma {:induction false} SectionsRead(s: string, secs: seq<Section>, from: nat)
    requires from <= |s| && InOrder(s, Flat(secs), from) && OnCode(s, Flat(secs)) && Good(s, secs)
    ensures Reads(s, secs, from, SplitFrom(s, Flat(secs), from, false))
    decreases |secs|
  {
    hide SplitFrom, Flush, IsPunct, InOrder, OnCode, GoodUpto, GoodCommand, TrimsTo;
    if secs == [] {
      SplitEnd(s, from, false);
      NeverFlushed(s, from);
    } else {
      var next := Flat(secs[1..]);
      OnCodeParts(s, Tokens(secs[0]), next);
      match secs[0]
      case Upto(toks, semi) =>
        UptoReads(s, toks, semi, next, from);
        var whole := Extent(s, secs[0], from);
        SectionsRead(s, secs[1..], EndOf(s, secs[0]));
        if Notes(toks) {
          NeverFlushedTo(s, from, whole.end);
          assert [] + SplitFrom(s, next, EndOf(s, secs[0]), false) == SplitFrom(s, next, EndOf(s, secs[0]), false);
        } else {
          var k := CodeInside(s, toks, semi, next, from);
          FlushTrims(s, from, whole.end, k);
          OneAhead(Trim(s, from, whole.end), SplitFrom(s, next, EndOf(s, secs[0]), false));
        }
      case Slashed(notes, slash, rest) =>
        CommandReads(s, notes, slash, rest, next, from);
        SlashIsInside(s, notes, slash, rest, next, from);
        var end := EndOf(s, secs[0]);
        SectionsRead(s, secs[1..], end);
        FlushTrims(s, slash.start, end, slash.start);
        OneAhead(Trim(s, slash.start, end), SplitFrom(s, next, end, false));
    }
  }

  lemma SlashIsInside(s: string, notes: seq<Span>, slash: Span, rest: seq<Span>, next: seq<Span>, from: nat)
    requires var sec := Slashed(notes, slash, rest);
             from <= |s| && InOrder(s, Tokens(sec) + next, from) && GoodCommand(s, notes, slash, rest, next)
             && slash.end <= EndOf(s, sec) <= |s|
    ensures slash.start < EndOf(s, Slashed(notes, slash, rest)) && !IsSpace(s[slash.start])
  {
    SlashInside(s, slash);
    assert (Tokens(Slashed(notes, slash, rest)) + next)[|notes|] == slash;
  }

  lemma OneAhead<T>(x: T, rest: seq<T>)
    ensures ([x] + rest)[0] == x && ([x] + rest)[1..] == rest
  {
  }

  lemma NeverFlushed(s: string, from: nat)
    requires from <= |s|
    ensures Flush(s, from, |s|, false) == []
  {
  }

  lemma NeverFlushedTo(s: string, from: nat, to: nat)
    requires from <= to <= |s|
    ensures Flush(s, from, to, false) == []
  {
  }

  // ---- every script has the form -----------------------------------------------------

  /** The comments in front. */
  function NotesAhead(toks: seq<Span>): (n: nat)
    ensures n <= |toks| && Notes(toks[..n]) && (n < |toks| ==> toks[n].kind != Comment)
  {
    if toks == [] || toks[0].kind != Comment then 0
    else
      var n := 1 + NotesAhead(toks[1..]);
      assert forall k | 0 < k < n :: toks[k] == toks[1..][k - 1];
      n
  }

  function FirstSemicolon(s: string, toks: seq<Span>): (n: nat)
    ensures n <= |toks| && NoSemicolons(s, toks[..n]) && (n < |toks| ==> IsPunct(s, toks[n], ';'))
  {
    if toks == [] || IsPunct(s, toks[0], ';') then 0
    else
      var n := 1 + FirstSemicolon(s, toks[1..]);
      assert forall k | 0 < k < n :: toks[k] == toks[1..][k - 1];
      n
  }

  /** How many tokens go on on the line of `t`. */
  function LineRest(s: string, t: Span, toks: seq<Span>): (n: nat)
    ensures n <= |toks| && NoSemicolons(s, toks[..n]) && OneLine(s, [t] + toks[..n])
    ensures n < |toks| ==> IsPunct(s, toks[n], ';') || Broken(s, ([t] + toks[..n])[n], toks[n])
    decreases |toks|
  {
    if toks == [] || IsPunct(s, toks[0], ';') || Broken(s, t, toks[0]) then 0
    else
      var n := 1 + LineRest(s, toks[0], toks[1..]);
      LineLonger(s, t, toks, n);
      n
  }

  lemma LineLonger(s: string, t: Span, toks: seq<Span>, n: nat)
    requires 0 < n <= |toks| && !IsPunct(s, toks[0], ';') && !Broken(s, t, toks[0])
    requires NoSemicolons(s, toks[1..][..n - 1]) && OneLine(s, [toks[0]] + toks[1..][..n - 1])
    ensures NoSemicolons(s, toks[..n]) && OneLine(s, [t] + toks[..n])
    ensures ([t] + toks[..n])[n] == ([toks[0]] + toks[1..][..n - 1])[n - 1]
  {
    hide IsPunct, Broken;
    var inner, line := [toks[0]] + toks[1..][..n - 1], [t] + toks[..n];
    assert inner == toks[..n];
    assert forall k | 0 < k < n :: toks[k] == toks[1..][..n - 1][k - 1];
    forall k | 0 < k < |line|
      ensures !Broken(s, line[k - 1], line[k])
    {
      assert k > 1 ==> line[k - 1] == inner[k - 2] && line[k] == inner[k - 1];
    }
  }

  lemma {:induction false} SectionsOf(s: string, toks: seq<Span>) returns (secs: seq<Section>)
    ensures Flat(secs) == toks && Good(s, secs)
    decreases |toks|
  {
    hide GoodSection, Tokens;
    if toks == [] {
      secs := [];
    } else {
      var sec, next := FirstSection(s, toks);
      var more := SectionsOf(s, next);
      secs := [sec] + more;
      assert secs[1..] == more;
    }
  }

  lemma FirstSection(s: string, toks: seq<Span>) returns (sec: Section, next: seq<Span>)
    requires toks != []
    ensures toks == Tokens(sec) + next && |next| < |toks| && GoodSection(s, sec, next)
  {
    hide IsPunct, Notes, NoSemicolons;
    var n := NotesAhead(toks);
    if n < |toks| && IsPunct(s, toks[n], '\\') {
      sec, next := CommandFirst(s, toks, n);
    } else {
      sec, next := StretchFirst(s, toks, n);
    }
  }

  lemma CommandFirst(s: string, toks: seq<Span>, n: nat) returns (sec: Section, next: seq<Span>)
    requires n < |toks| && Notes(toks[..n]) && IsPunct(s, toks[n], '\\')
    ensures toks == Tokens(sec) + next && |next| < |toks| && GoodSection(s, sec, next)
  {
    hide IsPunct, Broken, OneLine, Notes, NoSemicolons;
    var after := toks[n + 1..];
    var m := LineRest(s, toks[n], after);
    sec, next := Slashed(toks[..n], toks[n], after[..m]), after[m..];
    assert toks == toks[..n] + ([toks[n]] + (after[..m] + after[m..]));
    assert |after[..m]| == m;
  }

  lemma StretchFirst(s: string, toks: seq<Span>, n: nat) returns (sec: Section, next: seq<Span>)
    requires toks != [] && n <= |toks| && Notes(toks[..n])
    requires n < |toks| ==> toks[n].kind != Comment && !IsPunct(s, toks[n], '\\')
    ensures toks == Tokens(sec) + next && |next| < |toks| && GoodSection(s, sec, next)
  {
    hide IsPunct, Notes, NoSemicolons;
    var p := FirstSemicolon(s, toks);
    NoCommand(s, toks, n, p);
    if p < |toks| {
      sec, next := Upto(toks[..p], Some(toks[p])), toks[p + 1..];
    } else {
      sec, next := Upto(toks, None), [];
      assert toks[..p] == toks;
    }
  }

  lemma NoCommand(s: string, toks: seq<Span>, n: nat, p: nat)
    requires n <= |toks| && Notes(toks[..n]) && p <= |toks|
    requires n < |toks| ==> toks[n].kind != Comment && !IsPunct(s, toks[n], '\\')
    ensures forall k | 0 <= k < |toks[..p]| && Notes(toks[..p][..k]) :: !IsPunct(s, toks[..p][k], '\\')
  {
    var up := toks[..p];
    forall k | n < k <= p
      ensures !Notes(up[..k])
    {
      assert up[..k][n] == toks[n];
    }
    assert forall k | 0 <= k < n :: toks[..n][k] == toks[k];
  }

  /** The tokens of a script make sections, and however they are told apart, the program's statements
      are the ones these sections are read as: which tokens share a statement, where a backslash
      command ends, and what is dropped. */
  lemma SplitExactly(s: string, backtick: bool)
    ensures exists secs :: Flat(secs) == Spans(s, 0, backtick) && Good(s, secs)
    ensures forall secs | Flat(secs) == Spans(s, 0, backtick) && Good(s, secs) :: Reads(s, secs, 0, Statements(s, backtick))
  {
    hide Spans, Flat, Good, Reads, SplitFrom, InOrder, OnCode;
    var toks := Spans(s, 0, backtick);
    var secs := SectionsOf(s, toks);
    StatementsAre(s, backtick);
    SpansOnCode(s, backtick);
    forall secs | Flat(secs) == toks && Good(s, secs)
      ensures Reads(s, secs, 0, Statements(s, backtick))
    {
      SectionsRead(s, secs, 0);
    }
  }

  lemma SpansOnCode(s: string, backtick: bool)
    ensures OnCode(s, Spans(s, 0, backtick))
  {
    hide Spans;
    TokensTiled(s, 0, backtick);
    TiledOrdered(s, Spans(s, 0, backtick), 0);
  }
}

/**
 How the elements of SQL text are written, without a word about how they are
 scanned: what may stand inside each, and what may not follow it. The lexer
 reads exactly these: an element that is written out is one token wherever it
 stands, and where none is, a quote or comment was opened that nothing closes,
 and the token runs to the end.
 */
module Elements {
  import opened Bytes
  import opened Lexer

  /** A piece of quoted content: a byte for itself, a backslash and any byte, or the quote twice. */
  datatype Unit = Byte(c: char) | Escape(c: char) | Doubled

  datatype Element =
    | Text(units: seq<Unit>)
    | Name(units: seq<Unit>)
    | Ticked(body: string)
    | Tagged(tag: string, body: string)
    | LineNote(body: string, newline: bool)
    | BlockNote(body: string)
    | Numeral(whole: string, fraction: string, exponent: string)
    | Plain(word: string)
    | Mark(c: char)

  function UnitText(u: Unit, quote: char): (r: string)
    ensures r != ""
  {
    match u
    case Byte(c) => [c]
    case Escape(c) => ['\\', c]
    case Doubled => [quote, quote]
  }

  function UnitsText(us: seq<Unit>, quote: char): string {
    if us == [] then "" else UnitText(us[0], quote) + UnitsText(us[1..], quote)
  }

  function Print(e: Element): string {
    match e
    case Text(us) => "'" + UnitsText(us, '\'') + "'"
    case Name(us) => "\"" + UnitsText(us, '"') + "\""
    case Ticked(body) => "`" + body + "`"
    case Tagged(tag, body) => Delimiter(tag) + body + Delimiter(tag)
    case LineNote(body, newline) => "--" + body + if newline then "\n" else ""
    case BlockNote(body) => "/*" + body + "*/"
    case Numeral(whole, fraction, exponent) => whole + fraction + exponent
    case Plain(word) => word
    case Mark(c) => [c]
  }

  function Delimiter(tag: string): string { "$" + tag + "$" }

  function KindOf(e: Element): TokenKind {
    match e
    case Text(_) => Str
    case Name(_) => Quoted
    case Ticked(_) => Quoted
    case Tagged(_, _) => Str
    case LineNote(_, _) => Comment
    case BlockNote(_) => Comment
    case Numeral(_, _, _) => Number
    case Plain(_) => Word
    case Mark(_) => Punct
  }

  predicate AllWord(s: string) { forall k | 0 <= k < |s| :: IsWordByte(s[k]) }

  predicate AllTag(s: string) { forall k | 0 <= k < |s| :: IsTagByte(s[k]) }

  predicate EndsInE(s: string) { s != "" && (s[|s| - 1] == 'e' || s[|s| - 1] == 'E') }

  predicate TextUnit(u: Unit) { u.Byte? ==> u.c != '\'' && u.c != '\\' }

  predicate NameUnit(u: Unit) { u.Doubled? || (u.Byte? && u.c != '"') }

  /** What an element may hold. */
  predicate Good(e: Element, backtick: bool) {
    match e
    case Text(us) => forall k | 0 <= k < |us| :: TextUnit(us[k])
    case Name(us) => forall k | 0 <= k < |us| :: NameUnit(us[k])
    case Ticked(body) => backtick && forall k | 0 <= k < |body| :: body[k] != '`'
    case Tagged(tag, body) =>
      AllTag(tag) && forall k | 0 <= k < |body| :: !OccursAt(body + Delimiter(tag), Delimiter(tag), k)
    case LineNote(body, _) => forall k | 0 <= k < |body| :: body[k] != '\n'
    case BlockNote(body) => forall k | 0 <= k < |body| - 1 :: body[k] == '*' ==> body[k + 1] != '/'
    case Numeral(whole, fraction, exponent) =>
      && whole != "" && IsDigit(whole[0]) && AllWord(whole)
      && (fraction != "" ==> fraction[0] == '.' && AllWord(fraction[1..]))
      && (exponent != "" ==>
            EndsInE(whole + fraction) && (exponent[0] == '+' || exponent[0] == '-') && AllWord(exponent[1..]))
    case Plain(word) => word != "" && !IsDigit(word[0]) && AllWord(word)
    case Mark(c) => !IsSpace(c) && !IsWordByte(c) && c != '\'' && c != '"' && (backtick ==> c != '`')
  }

  /** A tag, if only an empty one, and a dollar sign begin the text. */
  ghost predicate TagBegins(rest: string) { exists n :: 0 <= n < |rest| && rest[n] == '$' && AllTag(rest[..n]) }

  /** What may come behind an element for it to end there. */
  ghost predicate MayFollow(e: Element, rest: string) {
    match e
    case Text(_) => rest == "" || rest[0] != '\''
    case Name(_) => rest == "" || rest[0] != '"'
    case LineNote(_, newline) => newline || rest == ""
    case Numeral(whole, fraction, exponent) =>
      rest == "" ||
      (&& !IsWordByte(rest[0])
       && (fraction == "" && exponent == "" ==> rest[0] != '.')
       && (exponent == "" && EndsInE(whole + fraction) ==> rest[0] != '+' && rest[0] != '-'))
    case Plain(_) => rest == "" || !IsWordByte(rest[0])
    case Mark(c) =>
      && (c == '-' ==> rest == "" || rest[0] != '-')
      && (c == '/' ==> rest == "" || rest[0] != '*')
      && (c == '$' ==> !TagBegins(rest))
    case _ => true
  }

  /** The element stands at position `i`. */
  ghost predicate Fits(s: string, i: nat, e: Element, backtick: bool) {
    && Good(e, backtick) && i + |Print(e)| <= |s| && s[i..i + |Print(e)|] == Print(e)
    && MayFollow(e, s[i + |Print(e)|..])
  }

  // ---- the lexer's step, opener by opener --------------------------------------------------

  lemma StepQuote(s: string, i: nat, backtick: bool)
    requires i < |s| && s[i] == '\''
    ensures StepAt(s, i, backtick) == (Some(Str), StringEnd(s, i + 1))
  {
    hide StringEnd, NameEnd, Index, IndexByte, DollarOpens;
  }

  lemma StepName(s: string, i: nat, backtick: bool)
    requires i < |s| && s[i] == '"'
    ensures StepAt(s, i, backtick) == (Some(Quoted), NameEnd(s, i + 1))
  {
    hide StringEnd, NameEnd, Index, IndexByte, DollarOpens;
  }

  lemma StepTick(s: string, i: nat)
    requires i < |s| && s[i] == '`'
    ensures var j := IndexByte(s, '`', i + 1); StepAt(s, i, true) == (Some(Quoted), if j < |s| then j + 1 else |s|)
  {
    hide StringEnd, NameEnd, Index, IndexByte, DollarOpens;
  }

  lemma StepLine(s: string, i: nat, backtick: bool)
    requires i + 1 < |s| && s[i] == '-' && s[i + 1] == '-'
    ensures var j := IndexByte(s, '\n', i); StepAt(s, i, backtick) == (Some(Comment), if j < |s| then j + 1 else |s|)
  {
    hide StringEnd, NameEnd, Index, IndexByte, DollarOpens;
  }

  lemma StepBlock(s: string, i: nat, backtick: bool)
    requires i + 1 < |s| && s[i] == '/' && s[i + 1] == '*'
    ensures var k := Index(s, "*/", i + 2); StepAt(s, i, backtick) == (Some(Comment), if k.Some? then k.value + 2 else |s|)
  {
    hide StringEnd, NameEnd, Index, IndexByte, DollarOpens;
  }

  lemma StepDollar(s: string, i: nat, backtick: bool)
    requires i < |s| && DollarOpens(s, i)
    ensures StepAt(s, i, backtick) == (Some(Str), DollarEnd(s, i))
  {
    hide StringEnd, NameEnd, Index, IndexByte, DollarClose, TagEnd;
  }

  lemma StepMark(s: string, i: nat, backtick: bool)
    requires i < |s| && !IsSpace(s[i]) && !IsWordByte(s[i]) && s[i] != '\'' && s[i] != '"' && (backtick ==> s[i] != '`')
    requires !(i + 1 < |s| && s[i] == '-' && s[i + 1] == '-') && !(i + 1 < |s| && s[i] == '/' && s[i + 1] == '*')
    requires !DollarOpens(s, i)
    ensures StepAt(s, i, backtick) == (Some(Punct), i + 1)
  {
    hide StringEnd, NameEnd, Index, IndexByte, DollarOpens;
  }

  lemma WordStep(s: string, i: nat, backtick: bool)
    requires i < |s| && IsWordByte(s[i])
    ensures StepAt(s, i, backtick)
            == if IsDigit(s[i]) then (Some(Number), ExponentEnd(s, FractionEnd(s, WordEnd(s, i + 1))))
               else (Some(Word), WordEnd(s, i + 1))
  {
    hide WordEnd, Index, IndexByte, DollarOpens, StringEnd, NameEnd, FractionEnd, ExponentEnd;
  }

  // ---- an element that is written is read ----------------------------------------------

  lemma {:induction false} TextReads(s: string, j: nat, us: seq<Unit>)
    requires forall k | 0 <= k < |us| :: TextUnit(us[k])
    requires var end := j + |UnitsText(us, '\'')|;
             && end < |s| && s[j..end] == UnitsText(us, '\'') && s[end] == '\'' && (end + 1 < |s| ==> s[end + 1] != '\'')
    ensures StringEnd(s, j) == j + |UnitsText(us, '\'')| + 1
    decreases |us|
  {
    hide StringEnd, UnitText;
    if us == [] {
      TextCloses(s, j);
    } else {
      var t, rest := UnitText(us[0], '\''), UnitsText(us[1..], '\'');
      TwoSlices(s, j, t, rest);
      assert TextUnit(us[0]);
      TextStep(s, j, us[0]);
      TextReads(s, j + |t|, us[1..]);
    }
  }

  lemma TwoSlices(s: string, j: nat, t: string, rest: string)
    requires j + |t| + |rest| <= |s| && s[j..j + |t + rest|] == t + rest
    ensures s[j..j + |t|] == t && s[j + |t|..j + |t| + |rest|] == rest
  {
    assert s[j..j + |t + rest|][..|t|] == t && s[j..j + |t + rest|][|t|..] == rest;
  }

  lemma TextCloses(s: string, j: nat)
    requires j < |s| && s[j] == '\'' && (j + 1 < |s| ==> s[j + 1] != '\'')
    ensures StringEnd(s, j) == j + 1
  {
  }

  lemma TextStep(s: string, j: nat, u: Unit)
    requires var n := |UnitText(u, '\'')|; j + n < |s| && s[j..j + n] == UnitText(u, '\'') && TextUnit(u)
    ensures StringEnd(s, j) == StringEnd(s, j + |UnitText(u, '\'')|)
  {
    var t := UnitText(u, '\'');
    assert s[j] == s[j..j + |t|][0];
    assert |t| == 2 ==> s[j + 1] == s[j..j + |t|][1];
  }

  lemma {:induction false} NameReads(s: string, j: nat, us: seq<Unit>)
    requires forall k | 0 <= k < |us| :: NameUnit(us[k])
    requires var end := j + |UnitsText(us, '"')|;
             && end < |s| && s[j..end] == UnitsText(us, '"') && s[end] == '"' && (end + 1 < |s| ==> s[end + 1] != '"')
    ensures NameEnd(s, j) == j + |UnitsText(us, '"')| + 1
    decreases |us|
  {
    hide NameEnd, UnitText;
    if us == [] {
      NameCloses(s, j);
    } else {
      var t, rest := UnitText(us[0], '"'), UnitsText(us[1..], '"');
      TwoSlices(s, j, t, rest);
      assert NameUnit(us[0]);
      NameStep(s, j, us[0]);
      NameReads(s, j + |t|, us[1..]);
    }
  }

  lemma NameCloses(s: string, j: nat)
    requires j < |s| && s[j] == '"' && (j + 1 < |s| ==> s[j + 1] != '"')
    ensures NameEnd(s, j) == j + 1
  {
  }

  lemma NameStep(s: string, j: nat, u: Unit)
    requires var n := |UnitText(u, '"')|; j + n < |s| && s[j..j + n] == UnitText(u, '"') && NameUnit(u)
    ensures NameEnd(s, j) == NameEnd(s, j + |UnitText(u, '"')|)
  {
    var t := UnitText(u, '"');
    assert s[j] == s[j..j + |t|][0];
    assert |t| == 2 ==> s[j + 1] == s[j..j + |t|][1];
  }

  lemma Part(s: string, i: nat, all: string, p: nat, q: nat)
    requires i + |all| <= |s| && s[i..i + |all|] == all && p <= q <= |all|
    ensures s[i + p..i + q] == all[p..q]
    ensures forall k | i + p <= k < i + q :: s[k] == all[k - i]
  {
    assert forall k | i <= k < i + |all| :: s[k] == s[i..i + |all|][k - i];
  }

  /** What is between the delimiters of an element. */
  lemma Inside(s: string, i: nat, a: string, body: string, b: string)
    requires i + |a + body + b| <= |s| && s[i..i + |a + body + b|] == a + body + b
    ensures var j := i + |a|; var end := j + |body|;
            s[i..j] == a && s[j..end] == body && s[end..end + |b|] == b
    ensures forall k | i <= k < i + |a| :: s[k] == a[k - i]
    ensures forall k | i + |a| <= k < i + |a| + |body| :: s[k] == body[k - i - |a|]
    ensures forall k | i + |a| + |body| <= k < i + |a| + |body| + |b| :: s[k] == b[k - i - |a| - |body|]
  {
    var all, n, m := a + body + b, |a|, |a| + |body|;
    Part(s, i, all, 0, n);
    Part(s, i, all, n, m);
    Part(s, i, all, m, |all|);
    assert all[0..n] == a && all[n..m] == body && all[m..|all|] == b;
  }

  lemma IndexByteIs(s: string, c: char, from: nat, k: nat)
    requires from <= k <= |s| && (k < |s| ==> s[k] == c) && forall j | from <= j < k :: s[j] != c
    ensures IndexByte(s, c, from) == k
  {
    IndexByteFirst(s, c, from);
  }

  lemma IndexIs(s: string, pat: string, from: nat, k: nat)
    requires from <= k <= |s| && OccursAt(s, pat, k) && forall j | from <= j < k :: !OccursAt(s, pat, j)
    ensures Index(s, pat, from) == Some(k)
  {
    IndexFirst(s, pat, from);
  }

  lemma WordEndIs(s: string, from: nat, k: nat)
    requires from <= k <= |s| && (k < |s| ==> !IsWordByte(s[k])) && forall j | from <= j < k :: IsWordByte(s[j])
    ensures WordEnd(s, from) == k
  {
    WordEndRun(s, from);
  }

  lemma TextFits(s: string, i: nat, us: seq<Unit>, backtick: bool)
    requires Fits(s, i, Text(us), backtick)
    ensures i < |s| && StepAt(s, i, backtick) == (Some(Str), i + |Print(Text(us))|)
  {
    hide StepAt, StringEnd, UnitsText;
    Inside(s, i, "'", UnitsText(us, '\''), "'");
    TextReads(s, i + 1, us);
    StepQuote(s, i, backtick);
  }

  lemma NameFits(s: string, i: nat, us: seq<Unit>, backtick: bool)
    requires Fits(s, i, Name(us), backtick)
    ensures i < |s| && StepAt(s, i, backtick) == (Some(Quoted), i + |Print(Name(us))|)
  {
    hide StepAt, NameEnd, UnitsText;
    Inside(s, i, "\"", UnitsText(us, '"'), "\"");
    NameReads(s, i + 1, us);
    StepName(s, i, backtick);
  }

  lemma TickedFits(s: string, i: nat, body: string, backtick: bool)
    requires Fits(s, i, Ticked(body), backtick)
    ensures i < |s| && StepAt(s, i, backtick) == (Some(Quoted), i + |Print(Ticked(body))|)
  {
    hide StepAt, IndexByte;
    Inside(s, i, "`", body, "`");
    IndexByteIs(s, '`', i + 1, i + 1 + |body|);
    StepTick(s, i);
  }

  lemma LineNoteFits(s: string, i: nat, body: string, newline: bool, backtick: bool)
    requires Fits(s, i, LineNote(body, newline), backtick)
    ensures i < |s| && StepAt(s, i, backtick) == (Some(Comment), i + |Print(LineNote(body, newline))|)
  {
    hide StepAt, IndexByte;
    var tail := if newline then "\n" else "";
    Inside(s, i, "--", body, tail);
    assert s[i] == '-' && s[i + 1] == '-';
    IndexByteIs(s, '\n', i, i + 2 + |body|);
    StepLine(s, i, backtick);
  }

  lemma BlockNoteFits(s: string, i: nat, body: string, backtick: bool)
    requires Fits(s, i, BlockNote(body), backtick)
    ensures i < |s| && StepAt(s, i, backtick) == (Some(Comment), i + |Print(BlockNote(body))|)
  {
    hide StepAt, Index;
    Inside(s, i, "/*", body, "*/");
    FirstClose(s, i + 2, body);
    StepBlock(s, i, backtick);
  }

  lemma FirstClose(s: string, j: nat, body: string)
    requires j + |body| + 2 <= |s| && s[j + |body|..j + |body| + 2] == "*/"
    requires forall k | j <= k < j + |body| :: s[k] == body[k - j]
    requires forall k | 0 <= k < |body| - 1 :: body[k] == '*' ==> body[k + 1] != '/'
    ensures Index(s, "*/", j) == Some(j + |body|)
  {
    forall p | j <= p < j + |body|
      ensures !OccursAt(s, "*/", p)
    {
      assert s[j + |body|] == s[j + |body|..j + |body| + 2][0];
      assert s[p] == body[p - j];
      if p + 1 < j + |body| {
        assert s[p + 1] == body[p + 1 - j];
      }
      assert s[p..p + 2] == [s[p], s[p + 1]];
      assert "*/" == ['*', '/'];
    }
    IndexIs(s, "*/", j, j + |body|);
  }

  lemma TagIsRead(s: string, i: nat, tag: string)
    requires i + |tag| + 2 <= |s| && s[i..i + |tag| + 2] == Delimiter(tag) && AllTag(tag)
    ensures s[i] == '$' && DollarOpens(s, i) && TagEnd(s, i + 1) == i + 1 + |tag|
  {
    hide TagEnd;
    var d, n := Delimiter(tag), |tag|;
    Part(s, i, d, 0, |d|);
    assert d[0] == '$' && d[n + 1] == '$' && forall k | 0 <= k < n :: d[k + 1] == tag[k];
    assert forall k | i + 1 <= k < i + 1 + n :: s[k] == tag[k - i - 1];
    TagEndRun(s, i + 1);
  }

  lemma TaggedFits(s: string, i: nat, tag: string, body: string, backtick: bool)
    requires Fits(s, i, Tagged(tag, body), backtick)
    ensures i < |s| && StepAt(s, i, backtick) == (Some(Str), i + |Print(Tagged(tag, body))|)
  {
    hide StepAt, Index, TagEnd, DollarOpens, OccursAt, Delimiter;
    var d := Delimiter(tag);
    assert |d| == |tag| + 2 by { DelimiterLength(tag); }
    Inside(s, i, d, body, d);
    TagIsRead(s, i, tag);
    FirstDelimiter(s, i + |d|, d, body);
    StepDollar(s, i, backtick);
  }

  lemma DelimiterLength(tag: string)
    ensures |Delimiter(tag)| == |tag| + 2
  {
  }

  lemma FirstDelimiter(s: string, j: nat, d: string, body: string)
    requires d != "" && j + |body| + |d| <= |s| && s[j + |body|..j + |body| + |d|] == d && s[j..j + |body|] == body
    requires forall k | 0 <= k < |body| :: !OccursAt(body + d, d, k)
    ensures Index(s, d, j) == Some(j + |body|)
  {
    var end := j + |body| + |d|;
    assert s[j..end] == s[j..j + |body|] + s[j + |body|..end];
    forall p | j <= p < j + |body|
      ensures !OccursAt(s, d, p)
    {
      OccursWindow(s, j, end, d, p - j);
      assert !OccursAt(body + d, d, p - j);
      assert p + |d| <= end;
    }
    IndexIs(s, d, j, j + |body|);
  }

  lemma PlainFits(s: string, i: nat, word: string, backtick: bool)
    requires Fits(s, i, Plain(word), backtick)
    ensures i < |s| && StepAt(s, i, backtick) == (Some(Word), i + |word|)
  {
    hide StepAt, WordEnd;
    Part(s, i, word, 0, |word|);
    WordEndIs(s, i + 1, i + |word|);
    WordStep(s, i, backtick);
  }

  lemma NumeralFits(s: string, i: nat, whole: string, fraction: string, exponent: string, backtick: bool)
    requires Fits(s, i, Numeral(whole, fraction, exponent), backtick)
    ensures i < |s| && StepAt(s, i, backtick) == (Some(Number), i + |Print(Numeral(whole, fraction, exponent))|)
  {
    hide StepAt, WordEnd, FractionEnd, ExponentEnd;
    WholeEnds(s, i, whole, fraction, exponent);
    FractionEnds(s, i, whole, fraction, exponent);
    ExponentEnds(s, i, whole, fraction, exponent);
    WordStep(s, i, backtick);
  }

  lemma WholeEnds(s: string, i: nat, whole: string, fraction: string, exponent: string)
    requires Fits(s, i, Numeral(whole, fraction, exponent), false)
    ensures s[i] == whole[0] && IsWordByte(s[i]) && WordEnd(s, i + 1) == i + |whole|
  {
    hide WordEnd;
    Inside(s, i, whole, fraction, exponent);
    var j := i + |whole|;
    assert fraction != "" ==> s[j] == fraction[0];
    assert fraction == "" && exponent != "" ==> s[j] == exponent[0];
    WordEndIs(s, i + 1, j);
  }

  lemma WordTail(x: string)
    requires x != "" && AllWord(x[1..])
    ensures forall k | 1 <= k < |x| :: IsWordByte(x[k])
  {
    assert forall k | 1 <= k < |x| :: x[k] == x[1..][k - 1];
  }

  lemma FractionEnds(s: string, i: nat, whole: string, fraction: string, exponent: string)
    requires Fits(s, i, Numeral(whole, fraction, exponent), false)
    ensures FractionEnd(s, i + |whole|) == i + |whole| + |fraction|
  {
    hide WordEnd;
    Inside(s, i, whole, fraction, exponent);
    var j := i + |whole|;
    if fraction != "" {
      WordTail(fraction);
      WordEndIs(s, j + 1, j + |fraction|);
    }
  }

  lemma ExponentEnds(s: string, i: nat, whole: string, fraction: string, exponent: string)
    requires Fits(s, i, Numeral(whole, fraction, exponent), false)
    ensures var f := i + |whole| + |fraction|; ExponentEnd(s, f) == f + |exponent|
  {
    hide WordEnd;
    Inside(s, i, whole, fraction, exponent);
    var f := i + |whole| + |fraction|;
    assert s[f - 1] == (whole + fraction)[|whole + fraction| - 1];
    if exponent != "" {
      WordTail(exponent);
      WordEndIs(s, f + 1, f + |exponent|);
    }
  }

  lemma MarkFits(s: string, i: nat, c: char, backtick: bool)
    requires Fits(s, i, Mark(c), backtick)
    ensures i < |s| && StepAt(s, i, backtick) == (Some(Punct), i + 1)
  {
    hide StepAt, TagEnd;
    assert s[i] == s[i..i + 1][0] == c;
    assert i + 1 < |s| ==> s[i + 1] == s[i + 1..][0];
    var rest := s[i + 1..];
    if c == '$' {
      TagEndRun(s, i + 1);
      var n := TagEnd(s, i + 1) - (i + 1);
      assert forall k | 0 <= k < n :: rest[..n][k] == s[i + 1 + k];
      assert i + 1 + n < |s| ==> rest[n] == s[i + 1 + n];
    }
    StepMark(s, i, backtick);
  }

  /** An element that stands at a position is the lexer's step there, with its kind and its length. */
  lemma FitsReads(s: string, i: nat, e: Element, backtick: bool)
    requires Fits(s, i, e, backtick)
    ensures i < |s| && StepAt(s, i, backtick) == (Some(KindOf(e)), i + |Print(e)|)
  {
    hide StepAt, Fits;
    match e
    case Text(us) => TextFits(s, i, us, backtick);
    case Name(us) => NameFits(s, i, us, backtick);
    case Ticked(body) => TickedFits(s, i, body, backtick);
    case Tagged(tag, body) => TaggedFits(s, i, tag, body, backtick);
    case LineNote(body, newline) => LineNoteFits(s, i, body, newline, backtick);
    case BlockNote(body) => BlockNoteFits(s, i, body, backtick);
    case Numeral(whole, fraction, exponent) => NumeralFits(s, i, whole, fraction, exponent, backtick);
    case Plain(word) => PlainFits(s, i, word, backtick);
    case Mark(c) => MarkFits(s, i, c, backtick);
  }

  // ---- and nothing else is -----------------------------------------------------------------

  lemma UnitsCons(u: Unit, us: seq<Unit>, quote: char)
    ensures UnitsText([u] + us, quote) == UnitText(u, quote) + UnitsText(us, quote)
  {
    assert ([u] + us)[0] == u && ([u] + us)[1..] == us;
  }

  /** The content of a quoted stretch: units up to a quote that is not doubled. */
  ghost predicate Closes(s: string, j: nat, us: seq<Unit>, quote: char) {
    var end := j + |UnitsText(us, quote)|;
    && end < |s| && s[j..end] == UnitsText(us, quote) && s[end] == quote && (end + 1 < |s| ==> s[end + 1] != quote)
  }

  lemma ClosesMore(s: string, j: nat, u: Unit, us: seq<Unit>, quote: char)
    requires var n := |UnitText(u, quote)|; j + n <= |s| && s[j..j + n] == UnitText(u, quote) && Closes(s, j + n, us, quote)
    ensures Closes(s, j, [u] + us, quote)
  {
    UnitsCons(u, us, quote);
    var n := |UnitText(u, quote)|;
    var end := j + n + |UnitsText(us, quote)|;
    assert s[j..end] == s[j..j + n] + s[j + n..end];
  }

  lemma {:induction false} TextUnits(s: string, j: nat) returns (us: Option<seq<Unit>>)
    requires j <= |s|
    ensures match us
            case Some(us) => Closes(s, j, us, '\'') && forall k | 0 <= k < |us| :: TextUnit(us[k])
            case None => StringEnd(s, j) == |s|
    decreases |s| - j
  {
    hide Closes, UnitsText;
    if j == |s| {
      us := None;
    } else if s[j] == '\\' && j + 1 == |s| {
      us := None;
      assert StringEnd(s, j + 2) == |s|;
    } else if s[j] == '\'' && !(j + 1 < |s| && s[j + 1] == '\'') {
      us := Some([]);
      ClosesNow(s, j, '\'');
    } else {
      var u := if s[j] == '\\' then Escape(s[j + 1]) else if s[j] == '\'' then Doubled else Byte(s[j]);
      var n := |UnitText(u, '\'')|;
      assert n <= 2 && j + n <= |s| && s[j..j + n] == UnitText(u, '\'');
      us := TextUnits(s, j + n);
      if us.Some? {
        ClosesMore(s, j, u, us.value, '\'');
        us := Some([u] + us.value);
      }
    }
  }

  lemma ClosesNow(s: string, j: nat, quote: char)
    requires j < |s| && s[j] == quote && (j + 1 < |s| ==> s[j + 1] != quote)
    ensures Closes(s, j, [], quote)
  {
  }

  lemma {:induction false} NameUnits(s: string, j: nat) returns (us: Option<seq<Unit>>)
    requires j <= |s|
    ensures match us
            case Some(us) => Closes(s, j, us, '"') && forall k | 0 <= k < |us| :: NameUnit(us[k])
            case None => NameEnd(s, j) == |s|
    decreases |s| - j
  {
    hide Closes, UnitsText;
    if j == |s| {
      us := None;
    } else if s[j] == '"' && !(j + 1 < |s| && s[j + 1] == '"') {
      us := Some([]);
      ClosesNow(s, j, '"');
    } else {
      var u := if s[j] == '"' then Doubled else Byte(s[j]);
      var n := |UnitText(u, '"')|;
      assert n <= 2 && j + n <= |s| && s[j..j + n] == UnitText(u, '"');
      us := NameUnits(s, j + n);
      if us.Some? {
        ClosesMore(s, j, u, us.value, '"');
        us := Some([u] + us.value);
      }
    }
  }

  /** Bytes that open what may stay open. */
  predicate Opener(c: char) { c == '\'' || c == '"' || c == '`' || c == '$' || c == '/' }

  function OpenKind(c: char): TokenKind {
    if c == '\'' || c == '$' then Str else if c == '/' then Comment else Quoted
  }

  /** The element at a position, if there is one; if there is none, what was opened runs to the end. */
  ghost predicate Found(s: string, i: nat, e: Option<Element>, backtick: bool)
    requires i < |s|
  {
    match e
    case Some(e) => Fits(s, i, e, backtick)
    case None => Opener(s[i]) && StepAt(s, i, backtick) == (Some(OpenKind(s[i])), |s|)
  }

  /** A stretch with `a` in front and `b` behind is the one written so. */
  lemma Between(s: string, i: nat, a: string, j: nat, b: string, rest: string)
    requires i + |a| <= j && j + |b| <= |s| && s[i..i + |a|] == a && s[j..j + |b|] == b && rest == s[j + |b|..]
    ensures var all := a + s[i + |a|..j] + b;
            i + |all| <= |s| && s[i..i + |all|] == all && s[i + |all|..] == rest
  {
    assert s[i..j + |b|] == s[i..i + |a|] + s[i + |a|..j] + s[j..j + |b|];
  }

  /** A stretch of bytes by its ends and its middle. */
  lemma Quotation(s: string, i: nat, quote: char, body: string)
    requires i + |body| + 1 < |s| && s[i] == quote && s[i + 1..i + 1 + |body|] == body && s[i + 1 + |body|] == quote
    ensures var all := [quote] + body + [quote];
            i + |all| <= |s| && s[i..i + |all|] == all && |all| == |body| + 2
            && (i + |all| < |s| ==> s[i + |all|..][0] == s[i + |body| + 2])
  {
    var end := i + 1 + |body|;
    assert s[i..end + 1] == [s[i]] + s[i + 1..end] + [s[end]];
  }

  lemma FitsText(s: string, i: nat, us: seq<Unit>, backtick: bool)
    requires i < |s| && s[i] == '\'' && Closes(s, i + 1, us, '\'') && forall k | 0 <= k < |us| :: TextUnit(us[k])
    ensures Fits(s, i, Text(us), backtick)
  {
    hide UnitsText;
    Quotation(s, i, '\'', UnitsText(us, '\''));
    assert "'" == ['\''];
  }

  lemma FitsName(s: string, i: nat, us: seq<Unit>, backtick: bool)
    requires i < |s| && s[i] == '"' && Closes(s, i + 1, us, '"') && forall k | 0 <= k < |us| :: NameUnit(us[k])
    ensures Fits(s, i, Name(us), backtick)
  {
    hide UnitsText;
    Quotation(s, i, '"', UnitsText(us, '"'));
    assert "\"" == ['"'];
  }

  lemma FindText(s: string, i: nat, backtick: bool) returns (e: Option<Element>)
    requires i < |s| && s[i] == '\''
    ensures Found(s, i, e, backtick)
  {
    hide StepAt, StringEnd, Fits, Closes;
    StepQuote(s, i, backtick);
    var us := TextUnits(s, i + 1);
    e := None;
    if us.Some? {
      FitsText(s, i, us.value, backtick);
      e := Some(Text(us.value));
    }
  }

  lemma FindName(s: string, i: nat, backtick: bool) returns (e: Option<Element>)
    requires i < |s| && s[i] == '"'
    ensures Found(s, i, e, backtick)
  {
    hide StepAt, NameEnd, Fits, Closes;
    StepName(s, i, backtick);
    var us := NameUnits(s, i + 1);
    e := None;
    if us.Some? {
      FitsName(s, i, us.value, backtick);
      e := Some(Name(us.value));
    }
  }

  lemma FindTicked(s: string, i: nat) returns (e: Option<Element>)
    requires i < |s| && s[i] == '`'
    ensures Found(s, i, e, true)
  {
    hide StepAt, IndexByte;
    StepTick(s, i);
    var j := IndexByte(s, '`', i + 1);
    IndexByteFirst(s, '`', i + 1);
    e := None;
    if j < |s| {
      e := Some(Ticked(s[i + 1..j]));
      Quotation(s, i, '`', s[i + 1..j]);
      assert "`" == ['`'];
    }
  }

  lemma FindLineNote(s: string, i: nat, backtick: bool) returns (e: Option<Element>)
    requires i + 1 < |s| && s[i] == '-' && s[i + 1] == '-'
    ensures Found(s, i, e, backtick)
  {
    hide StepAt, IndexByte;
    var j := IndexByte(s, '\n', i);
    IndexByteFirst(s, '\n', i);
    e := Some(LineNote(s[i + 2..j], j < |s|));
    FitsLineNote(s, i, j, backtick);
  }

  lemma FitsLineNote(s: string, i: nat, j: nat, backtick: bool)
    requires i + 2 <= j <= |s| && s[i] == '-' && s[i + 1] == '-' && (j < |s| ==> s[j] == '\n')
    requires forall k | i <= k < j :: s[k] != '\n'
    ensures Fits(s, i, LineNote(s[i + 2..j], j < |s|), backtick)
  {
    var body, tail := s[i + 2..j], if j < |s| then "\n" else "";
    assert s[i..i + 2] == "--" && s[j..j + |tail|] == tail;
    Between(s, i, "--", j, tail, s[j + |tail|..]);
  }

  lemma FindBlockNote(s: string, i: nat, backtick: bool) returns (e: Option<Element>)
    requires i + 1 < |s| && s[i] == '/' && s[i + 1] == '*'
    ensures Found(s, i, e, backtick)
  {
    hide StepAt, Index;
    StepBlock(s, i, backtick);
    IndexFirst(s, "*/", i + 2);
    var k := Index(s, "*/", i + 2);
    e := None;
    if k.Some? {
      var j := k.value;
      e := Some(BlockNote(s[i + 2..j]));
      FitsBlockNote(s, i, j, backtick);
    }
  }

  lemma FitsBlockNote(s: string, i: nat, j: nat, backtick: bool)
    requires i + 2 <= j && OccursAt(s, "*/", j) && s[i] == '/' && s[i + 1] == '*'
    requires forall p | i + 2 <= p < j :: !OccursAt(s, "*/", p)
    ensures Fits(s, i, BlockNote(s[i + 2..j]), backtick)
  {
    hide Good, Print;
    NoCloseInside(s, i + 2, j, backtick);
    assert s[i..i + 2] == "/*" && s[j..j + 2] == "*/";
    Between(s, i, "/*", j, "*/", s[j + 2..]);
    BlockNoteForm(s[i + 2..j]);
  }

  lemma BlockNoteForm(body: string)
    ensures Print(BlockNote(body)) == "/*" + body + "*/"
  {
  }

  lemma NoCloseInside(s: string, a: nat, b: nat, backtick: bool)
    requires a <= b <= |s| && forall p | a <= p < b :: !OccursAt(s, "*/", p)
    ensures Good(BlockNote(s[a..b]), backtick)
  {
    var body := s[a..b];
    forall k | 0 <= k < |body| - 1
      ensures body[k] == '*' ==> body[k + 1] != '/'
    {
      assert !OccursAt(s, "*/", a + k);
      assert s[a + k..a + k + 2] == [body[k], body[k + 1]];
      assert "*/" == ['*', '/'];
    }
  }

  lemma TagText(s: string, i: nat) returns (tag: string)
    requires i < |s| && DollarOpens(s, i)
    ensures s[i] == '$' && AllTag(tag) && TagEnd(s, i + 1) == i + 1 + |tag| && i + |tag| + 2 <= |s|
    ensures s[i..i + |tag| + 2] == Delimiter(tag)
  {
    hide TagEnd;
    TagEndRun(s, i + 1);
    var t := TagEnd(s, i + 1);
    tag := s[i + 1..t];
    assert s[i..t + 1] == [s[i]] + tag + [s[t]];
  }

  lemma FindTagged(s: string, i: nat, backtick: bool) returns (e: Option<Element>)
    requires i < |s| && DollarOpens(s, i)
    ensures Found(s, i, e, backtick)
  {
    hide StepAt, Index, TagEnd, OccursAt, AllTag, DollarOpens, Delimiter;
    StepDollar(s, i, backtick);
    var tag := TagText(s, i);
    var d, t := Delimiter(tag), i + |tag| + 1;
    DelimiterLength(tag);
    IndexFirst(s, d, t + 1);
    var k := Index(s, d, t + 1);
    e := None;
    if k.Some? {
      e := Some(Tagged(tag, s[t + 1..k.value]));
      FitsTagged(s, i, tag, k.value, backtick);
    }
  }

  lemma FitsTagged(s: string, i: nat, tag: string, j: nat, backtick: bool)
    requires AllTag(tag) && i + |tag| + 2 <= j && OccursAt(s, Delimiter(tag), j)
    requires s[i..i + |tag| + 2] == Delimiter(tag)
    requires forall p | i + |tag| + 2 <= p < j :: !OccursAt(s, Delimiter(tag), p)
    ensures Fits(s, i, Tagged(tag, s[i + |tag| + 2..j]), backtick)
  {
    hide AllTag, Delimiter, OccursAt;
    var d := Delimiter(tag);
    DelimiterLength(tag);
    DelimiterAt(s, d, j);
    NoTagInside(s, i + |d|, j, d);
    Between(s, i, d, j, d, s[j + |d|..]);
  }

  lemma DelimiterAt(s: string, d: string, j: nat)
    requires OccursAt(s, d, j)
    ensures j + |d| <= |s| && s[j..j + |d|] == d
  {
  }

  lemma NoTagInside(s: string, a: nat, b: nat, d: string)
    requires a <= b && b + |d| <= |s| && s[b..b + |d|] == d && forall p | a <= p < b :: !OccursAt(s, d, p)
    ensures forall k | 0 <= k < b - a :: !OccursAt(s[a..b] + d, d, k)
  {
    assert s[a..b + |d|] == s[a..b] + d;
    forall k | 0 <= k < b - a
      ensures !OccursAt(s[a..b] + d, d, k)
    {
      OccursWindow(s, a, b + |d|, d, k);
    }
  }

  lemma FindWord(s: string, i: nat, backtick: bool) returns (e: Option<Element>)
    requires i < |s| && IsWordByte(s[i])
    ensures Found(s, i, e, backtick)
  {
    hide WordEnd, StepAt, FractionEnd, ExponentEnd;
    WordEndRun(s, i + 1);
    var j := WordEnd(s, i + 1);
    if IsDigit(s[i]) {
      e := FindNumeral(s, i, backtick);
    } else {
      e := Some(Plain(s[i..j]));
    }
  }

  lemma FindNumeral(s: string, i: nat, backtick: bool) returns (e: Option<Element>)
    requires i < |s| && IsDigit(s[i])
    ensures Found(s, i, e, backtick)
  {
    hide WordEnd, StepAt, FractionEnd, ExponentEnd, AllWord, EndsInE;
    WordEndRun(s, i + 1);
    var j := WordEnd(s, i + 1);
    var f := FractionEnd(s, j);
    var x := ExponentEnd(s, f);
    var whole, fraction, exponent := s[i..j], s[j..f], s[f..x];
    e := Some(Numeral(whole, fraction, exponent));
    assert AllWord(whole) by { WholeIsWord(s, i, j); }
    FractionIs(s, j);
    ExponentIs(s, f);
    ThreeSlices(s, i, j, f, x);
    LastByte(s, i, f);
  }

  lemma ThreeSlices(s: string, i: nat, j: nat, f: nat, x: nat)
    requires i < j <= f <= x <= |s|
    ensures s[i..x] == s[i..j] + s[j..f] + s[f..x] && s[i..f] == s[i..j] + s[j..f]
    ensures |s[i..j] + s[j..f] + s[f..x]| == x - i && s[i..j][0] == s[i] && (x < |s| ==> s[x..][0] == s[x])
  {
  }

  lemma WholeIsWord(s: string, i: nat, j: nat)
    requires i < j <= |s| && IsWordByte(s[i]) && forall k | i + 1 <= k < j :: IsWordByte(s[k])
    ensures AllWord(s[i..j])
  {
    assert forall k | 0 <= k < j - i :: s[i..j][k] == s[i + k];
    assert IsWordByte(s[i]);
    forall k | 0 <= k < j - i
      ensures IsWordByte(s[i..j][k])
    {
      assert k > 0 ==> IsWordByte(s[i + k]);
    }
  }

  lemma LastByte(s: string, i: nat, f: nat)
    requires i < f <= |s|
    ensures EndsInE(s[i..f]) <==> s[f - 1] == 'e' || s[f - 1] == 'E'
  {
  }

  lemma FractionIs(s: string, j: nat)
    requires 0 < j <= |s| && (j < |s| ==> !IsWordByte(s[j]))
    ensures var f := FractionEnd(s, j);
            && (f > j ==> s[j..f][0] == '.' && AllWord(s[j..f][1..]))
            && (f < |s| ==> !IsWordByte(s[f]) && (f == j ==> s[f] != '.'))
  {
    hide WordEnd;
    var f := FractionEnd(s, j);
    WordTailOf(s, j, f);
    if j < |s| { WordEndRun(s, j + 1); }
  }

  lemma ExponentIs(s: string, f: nat)
    requires 0 < f <= |s| && (f < |s| ==> !IsWordByte(s[f]))
    ensures var x := ExponentEnd(s, f); var mark := s[f - 1] == 'e' || s[f - 1] == 'E';
            && (x > f ==> mark && (s[f..x][0] == '+' || s[f..x][0] == '-') && AllWord(s[f..x][1..]))
            && (x < |s| ==> !IsWordByte(s[x]) && (x == f && mark ==> s[x] != '+' && s[x] != '-'))
  {
    hide WordEnd;
    var x := ExponentEnd(s, f);
    WordTailOf(s, f, x);
    if f < |s| { WordEndRun(s, f + 1); }
  }

  lemma WordTailOf(s: string, j: nat, f: nat)
    requires j <= f <= |s| && (f > j ==> WordEnd(s, j + 1) == f)
    ensures f > j ==> AllWord(s[j..f][1..])
  {
    hide WordEnd;
    if f > j {
      WordEndRun(s, j + 1);
      assert s[j..f][1..] == s[j + 1..f];
    }
  }

  lemma FindMark(s: string, i: nat, backtick: bool) returns (e: Option<Element>)
    requires i < |s| && !IsSpace(s[i]) && !IsWordByte(s[i]) && s[i] != '\'' && s[i] != '"' && (backtick ==> s[i] != '`')
    requires !(i + 1 < |s| && s[i] == '-' && s[i + 1] == '-') && !(i + 1 < |s| && s[i] == '/' && s[i + 1] == '*')
    requires !DollarOpens(s, i)
    ensures Found(s, i, e, backtick)
  {
    hide TagEnd, StepAt;
    e := Some(Mark(s[i]));
    assert s[i..i + 1] == [s[i]];
    if s[i] == '$' && TagBegins(s[i + 1..]) {
      TagOpens(s, i);
    }
  }

  lemma TagOpens(s: string, i: nat)
    requires i < |s| && s[i] == '$' && TagBegins(s[i + 1..])
    ensures DollarOpens(s, i)
  {
    hide TagEnd;
    var rest := s[i + 1..];
    var n :| 0 <= n < |rest| && rest[n] == '$' && AllTag(rest[..n]);
    TagEndRun(s, i + 1);
    assert forall k | i + 1 <= k < i + 1 + n :: s[k] == rest[..n][k - i - 1];
    assert s[i + 1 + n] == rest[n];
  }

  lemma Find(s: string, i: nat, backtick: bool) returns (e: Option<Element>)
    requires i < |s| && !IsSpace(s[i])
    ensures Found(s, i, e, backtick)
  {
    hide StepAt, Fits, DollarOpens;
    if s[i] == '-' && i + 1 < |s| && s[i + 1] == '-' {
      e := FindLineNote(s, i, backtick);
    } else if s[i] == '/' && i + 1 < |s| && s[i + 1] == '*' {
      e := FindBlockNote(s, i, backtick);
    } else if s[i] == '\'' {
      e := FindText(s, i, backtick);
    } else if s[i] == '"' {
      e := FindName(s, i, backtick);
    } else if s[i] == '`' && backtick {
      e := FindTicked(s, i);
    } else if DollarOpens(s, i) {
      e := FindTagged(s, i, backtick);
    } else if IsWordByte(s[i]) {
      e := FindWord(s, i, backtick);
    } else {
      e := FindMark(s, i, backtick);
    }
  }

  /** The lexer's step anywhere but on whitespace, exactly: the element that stands there, or, when
      none does, what is opened there and never closed, to the end of the text. */
  lemma StepExactly(s: string, i: nat, backtick: bool, kind: TokenKind, end: nat)
    requires i < |s| && !IsSpace(s[i])
    ensures StepAt(s, i, backtick) == (Some(kind), end)
            <==> (exists e :: Fits(s, i, e, backtick) && KindOf(e) == kind && i + |Print(e)| == end)
                 || ((forall e :: !Fits(s, i, e, backtick)) && Opener(s[i]) && kind == OpenKind(s[i]) && end == |s|)
  {
    hide StepAt, Fits, KindOf, OpenKind, Opener;
    var found := Find(s, i, backtick);
    if found.Some? {
      FitsReads(s, i, found.value, backtick);
      forall e | Fits(s, i, e, backtick)
        ensures KindOf(e) == KindOf(found.value) && |Print(e)| == |Print(found.value)|
      {
        FitsReads(s, i, e, backtick);
      }
    } else {
      forall e | Fits(s, i, e, backtick)
        ensures StepAt(s, i, backtick) == (Some(KindOf(e)), i + |Print(e)|)
      {
        FitsReads(s, i, e, backtick);
      }
    }
  }

  // ---- whole texts ----------------------------------------------------------------------------

  /** What a text is laid out from. */
  datatype Item = Gap(c: char) | El(e: Element)

  function ItemText(x: Item): string { if x.Gap? then [x.c] else Print(x.e) }

  function Layout(items: seq<Item>): string {
    if items == [] then "" else ItemText(items[0]) + Layout(items[1..])
  }

  /** Every element may hold what it holds and be followed by what follows, up to and with `tail`. */
  ghost predicate WellLaid(items: seq<Item>, tail: string, backtick: bool) {
    items == [] ||
    (&& (if items[0].Gap? then IsSpace(items[0].c)
         else Good(items[0].e, backtick) && MayFollow(items[0].e, Layout(items[1..]) + tail))
     && WellLaid(items[1..], tail, backtick))
  }

  function ItemSpan(x: Item, at: nat): seq<Span> {
    if x.Gap? then [] else [Span(KindOf(x.e), at, at + |Print(x.e)|)]
  }

  function ItemSpans(items: seq<Item>, at: nat): seq<Span> {
    if items == [] then [] else ItemSpan(items[0], at) + ItemSpans(items[1..], at + |ItemText(items[0])|)
  }

  lemma FitsThere(pre: string, e: Element, rest: string, backtick: bool)
    requires Good(e, backtick) && MayFollow(e, rest)
    ensures Fits(pre + Print(e) + rest, |pre|, e, backtick)
  {
    hide Good, MayFollow, Print;
    Placed(pre, Print(e), rest);
  }

  lemma Placed(pre: string, t: string, rest: string)
    ensures var s := pre + t + rest; s[|pre|..|pre| + |t|] == t && s[|pre| + |t|..] == rest
  {
  }

  /** An element is one token, followed by the tokens of the rest. */
  lemma ElementReads(s: string, i: nat, e: Element, backtick: bool)
    requires Fits(s, i, e, backtick)
    ensures i + |Print(e)| <= |s|
    ensures Spans(s, i, backtick) == [Span(KindOf(e), i, i + |Print(e)|)] + Spans(s, i + |Print(e)|, backtick)
  {
    hide StepAt, Spans, Good, MayFollow, Print, KindOf;
    FitsReads(s, i, e, backtick);
    SpansStep(s, i, backtick);
  }

  /** A text laid out from elements and gaps has those elements as its tokens, in their places. */
  lemma {:induction false} LayoutReads(pre: string, items: seq<Item>, tail: string, backtick: bool)
    requires WellLaid(items, tail, backtick)
    ensures var s := pre + Layout(items) + tail; var end := |pre| + |Layout(items)|;
            Spans(s, |pre|, backtick) == ItemSpans(items, |pre|) + Spans(s, end, backtick)
    decreases |items|
  {
    hide *;
    LayoutStep(items, tail, backtick, |pre|);
    if items == [] {
      assert pre + Layout(items) == pre;
    } else {
      var t, rest := ItemText(items[0]), items[1..];
      FourParts(pre, t, Layout(rest), tail);
      LayoutReads(pre + t, rest, tail, backtick);
      FirstReads(pre, items[0], Layout(rest) + tail, backtick);
    }
  }

  lemma ItemIs(x: Item, at: nat)
    ensures ItemText(x) == if x.Gap? then [x.c] else Print(x.e)
    ensures ItemSpan(x, at) == if x.Gap? then [] else [Span(KindOf(x.e), at, at + |Print(x.e)|)]
  {
    hide Print, KindOf;
  }

  lemma ElementFirst(pre: string, e: Element, rest: string, backtick: bool)
    requires Good(e, backtick) && MayFollow(e, rest)
    ensures var s, n := pre + Print(e) + rest, |pre| + |Print(e)|;
            Spans(s, |pre|, backtick) == [Span(KindOf(e), |pre|, n)] + Spans(s, n, backtick)
  {
    hide StepAt, Spans, Good, MayFollow, Print, KindOf, Fits, Within;
    var s := pre + Print(e) + rest;
    FitsThere(pre, e, rest, backtick);
    ElementReads(s, |pre|, e, backtick);
  }

  lemma FirstReads(pre: string, x: Item, rest: string, backtick: bool)
    requires if x.Gap? then IsSpace(x.c) else Good(x.e, backtick) && MayFollow(x.e, rest)
    ensures var s := pre + ItemText(x) + rest;
            Spans(s, |pre|, backtick) == ItemSpan(x, |pre|) + Spans(s, |pre| + |ItemText(x)|, backtick)
  {
    hide *;
    var s := pre + ItemText(x) + rest;
    ItemIs(x, |pre|);
    if x.Gap? {
      assert s[|pre|] == x.c;
      SpaceStep(s, |pre|, backtick);
      assert [] + Spans(s, |pre| + 1, backtick) == Spans(s, |pre| + 1, backtick);
    } else {
      ElementFirst(pre, x.e, rest, backtick);
    }
  }

  lemma LayoutStep(items: seq<Item>, tail: string, backtick: bool, at: nat)
    requires WellLaid(items, tail, backtick)
    ensures Layout(items) == if items == [] then "" else ItemText(items[0]) + Layout(items[1..])
    ensures ItemSpans(items, at)
            == if items == [] then [] else ItemSpan(items[0], at) + ItemSpans(items[1..], at + |ItemText(items[0])|)
    ensures items != [] ==>
              && WellLaid(items[1..], tail, backtick)
              && if items[0].Gap? then IsSpace(items[0].c)
                 else Good(items[0].e, backtick) && MayFollow(items[0].e, Layout(items[1..]) + tail)
  {
    hide Good, MayFollow, Print, KindOf;
  }

  lemma FourParts(a: string, b: string, c: string, d: string)
    ensures a + (b + c) + d == (a + b) + c + d == a + b + (c + d)
  {
  }

  lemma SpaceStep(s: string, i: nat, backtick: bool)
    requires i < |s| && IsSpace(s[i])
    ensures Spans(s, i, backtick) == Spans(s, i + 1, backtick)
  {
    hide StepAt;
  }
}

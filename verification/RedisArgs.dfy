/**
 The form of a Redis command line, written out without the splitter: words of
 quoted stretches and bare bytes, set apart by blanks. Every text has this form,
 and splitting it gives the words' texts, or the quote that stays open.
 */
module RedisArgs {
  import opened Bytes
  import opened RedisCommand

  // ---- the form -----------------------------------------------------------------

  /** What stands for one byte between double quotes. */
  datatype Unit = Itself(c: char) | Newline | Tab | Return | Behind(c: char)

  predicate GoodUnit(u: Unit) {
    match u
    case Itself(c) => c != '"' && c != '\\'
    case Behind(c) => c != 'n' && c != 't' && c != 'r'
    case _ => true
  }

  function UnitForm(u: Unit): string {
    match u
    case Itself(c) => [c]
    case Newline => ['\\', 'n']
    case Tab => ['\\', 't']
    case Return => ['\\', 'r']
    case Behind(c) => ['\\', c]
  }

  function UnitByte(u: Unit): char {
    match u
    case Itself(c) => c
    case Newline => '\n'
    case Tab => '\t'
    case Return => '\r'
    case Behind(c) => c
  }

  function UnitsForm(us: seq<Unit>): string { if us == [] then "" else UnitForm(us[0]) + UnitsForm(us[1..]) }

  function UnitsText(us: seq<Unit>): string { seq(|us|, i requires 0 <= i < |us| => UnitByte(us[i])) }

  predicate GoodUnits(us: seq<Unit>) { forall i | 0 <= i < |us| :: GoodUnit(us[i]) }

  /** A stretch of a word; `Slash` is a backslash with nothing behind it. */
  datatype Piece = Double(units: seq<Unit>) | Single(text: string) | Bare(c: char) | Escape(c: char) | Slash

  predicate GoodPiece(p: Piece) {
    match p
    case Double(us) => GoodUnits(us)
    case Single(t) => '\'' !in t
    case Bare(c) => c !in {' ', '\t', '"', '\'', '\\'}
    case _ => true
  }

  function PieceForm(p: Piece): string {
    match p
    case Double(us) => "\"" + UnitsForm(us) + "\""
    case Single(t) => "'" + t + "'"
    case Bare(c) => [c]
    case Escape(c) => ['\\', c]
    case Slash => "\\"
  }

  function PieceText(p: Piece): string {
    match p
    case Double(us) => UnitsText(us)
    case Single(t) => t
    case Bare(c) => [c]
    case Escape(c) => [c]
    case Slash => "\\"
  }

  function PiecesForm(ps: seq<Piece>): string { if ps == [] then "" else PieceForm(ps[0]) + PiecesForm(ps[1..]) }

  function PiecesText(ps: seq<Piece>): string { if ps == [] then "" else PieceText(ps[0]) + PiecesText(ps[1..]) }

  predicate Blanks(g: string) { forall k | 0 <= k < |g| :: g[k] == ' ' || g[k] == '\t' }

  /** A word and the blanks behind it. */
  datatype Word = Word(pieces: seq<Piece>, gap: string)

  function WordsForm(ws: seq<Word>): string {
    if ws == [] then "" else PiecesForm(ws[0].pieces) + ws[0].gap + WordsForm(ws[1..])
  }

  function WordsText(ws: seq<Word>): seq<string> { seq(|ws|, i requires 0 <= i < |ws| => PiecesText(ws[i].pieces)) }

  /** How the line ends: with all quotes closed, or inside one. */
  datatype End = Closed | InSingle(text: string) | InDouble(units: seq<Unit>, slash: bool)

  predicate GoodEnd(e: End) {
    match e
    case Closed => true
    case InSingle(t) => '\'' !in t
    case InDouble(us, _) => GoodUnits(us)
  }

  function EndForm(e: End): string {
    match e
    case Closed => ""
    case InSingle(t) => "'" + t
    case InDouble(us, slash) => "\"" + UnitsForm(us) + if slash then "\\" else ""
  }

  /** Only the very last byte of a line is a backslash with nothing behind it. */
  predicate GoodPieces(ps: seq<Piece>, atEnd: bool) {
    forall i | 0 <= i < |ps| :: GoodPiece(ps[i]) && (ps[i].Slash? ==> atEnd && i == |ps| - 1)
  }

  /** Words have at least one piece and are set apart; the last one may end the line. */
  predicate GoodWords(ws: seq<Word>, e: End) {
    forall i | 0 <= i < |ws| ::
      && ws[i].pieces != [] && Blanks(ws[i].gap) && (i < |ws| - 1 ==> ws[i].gap != "")
      && GoodPieces(ws[i].pieces, i == |ws| - 1 && ws[i].gap == "" && e.Closed?)
  }

  datatype Line = Line(lead: string, words: seq<Word>, end: End)

  predicate GoodLine(l: Line) { Blanks(l.lead) && GoodWords(l.words, l.end) && GoodEnd(l.end) }

  function LineForm(l: Line): string { l.lead + WordsForm(l.words) + EndForm(l.end) }

  function Meaning(l: Line): Parsed {
    match l.end
    case Closed => Args(WordsText(l.words))
    case InSingle(_) => Failed(UnterminatedSingle)
    case InDouble(_, _) => Failed(UnterminatedDouble)
  }

  // ---- between double quotes ------------------------------------------------------

  lemma UnitStep(u: Unit, rest: string)
    requires GoodUnit(u)
    ensures DoubleQuoted(UnitForm(u) + rest) == Onto([UnitByte(u)], DoubleQuoted(rest))
  {
    var s := UnitForm(u) + rest;
    assert s[|UnitForm(u)|..] == rest;
    QuotedStep(s, "");
  }

  lemma OntoTwice(a: string, b: string, r: Option<(string, string)>)
    ensures Onto(a, Onto(b, r)) == Onto(a + b, r)
  {
    if r.Some? {
      assert a + (b + r.value.0) == a + b + r.value.0;
    }
  }

  lemma {:induction false} UnitsRead(us: seq<Unit>, rest: string)
    requires GoodUnits(us)
    ensures DoubleQuoted(UnitsForm(us) + rest) == Onto(UnitsText(us), DoubleQuoted(rest))
    decreases |us|
  {
    hide DoubleQuoted, GoodUnit, UnitForm, UnitByte;
    if us == [] {
      assert UnitsForm(us) + rest == rest;
      assert UnitsText(us) == "";
      OntoNothing(DoubleQuoted(rest));
    } else {
      var tail := UnitsForm(us[1..]) + rest;
      assert UnitsForm(us) + rest == UnitForm(us[0]) + tail;
      UnitStep(us[0], tail);
      UnitsRead(us[1..], rest);
      OntoTwice([UnitByte(us[0])], UnitsText(us[1..]), DoubleQuoted(rest));
      assert UnitsText(us) == [UnitByte(us[0])] + UnitsText(us[1..]);
    }
  }

  lemma OntoNothing(r: Option<(string, string)>)
    ensures Onto("", r) == r
  {
    if r.Some? {
      assert "" + r.value.0 == r.value.0;
    }
  }

  lemma DoubleReads(us: seq<Unit>, rest: string)
    requires GoodUnits(us)
    ensures DoubleQuoted(UnitsForm(us) + "\"" + rest) == Some((UnitsText(us), rest))
  {
    hide UnitsForm, UnitsText;
    UnitsRead(us, "\"" + rest);
    assert UnitsForm(us) + "\"" + rest == UnitsForm(us) + ("\"" + rest);
    assert ("\"" + rest)[1..] == rest;
    assert UnitsText(us) + "" == UnitsText(us);
  }

  lemma DoubleStaysOpen(us: seq<Unit>, slash: bool)
    requires GoodUnits(us)
    ensures DoubleQuoted(UnitsForm(us) + if slash then "\\" else "").None?
  {
    hide UnitsForm, UnitsText;
    var rest := if slash then "\\" else "";
    UnitsRead(us, rest);
    assert DoubleQuoted("").None?;
    assert rest != "" ==> rest[1..] == "";
  }

  function UnitOf(c: char): Unit {
    if c == 'n' then Newline else if c == 't' then Tab else if c == 'r' then Return else Behind(c)
  }

  /** Any text is units, up to a double quote or its end. */
  lemma {:induction false} UnitsOf(u: string) returns (us: seq<Unit>, rest: string)
    ensures GoodUnits(us) && u == UnitsForm(us) + rest
    ensures rest == "" || rest == "\\" || rest[0] == '"'
    decreases |u|
  {
    if u == "" || u == "\\" || u[0] == '"' {
      us, rest := [], u;
      assert UnitsForm([]) == "";
    } else {
      var unit := if u[0] == '\\' then UnitOf(u[1]) else Itself(u[0]);
      var n := if u[0] == '\\' then 2 else 1;
      var more, r := UnitsOf(u[n..]);
      us, rest := [unit] + more, r;
      assert us[1..] == more;
      assert u == UnitForm(unit) + u[n..];
    }
  }

  // ---- one stretch at a time --------------------------------------------------------

  lemma SingleStep(t: string, rest: string, cur: string, inArg: bool)
    requires '\'' !in t
    ensures Read("'" + t + "'" + rest, cur, inArg) == Read(rest, cur + t, true)
  {
    hide IndexByte;
    var u := "'" + t + "'" + rest;
    IndexByteFirst(u, '\'', 1);
    assert u[|t| + 1] == '\'' && u[|t| + 2..] == rest && u[1..|t| + 1] == t;
    assert forall k | 1 <= k < |t| + 1 :: u[k] == t[k - 1] && t[k - 1] in t;
  }

  lemma DoubleStep(us: seq<Unit>, rest: string, cur: string, inArg: bool)
    requires GoodUnits(us)
    ensures Read("\"" + UnitsForm(us) + "\"" + rest, cur, inArg) == Read(rest, cur + UnitsText(us), true)
  {
    hide DoubleQuoted, UnitsForm, UnitsText, IndexByte;
    var u := "\"" + UnitsForm(us) + "\"" + rest;
    DoubleReads(us, rest);
    assert u[1..] == UnitsForm(us) + "\"" + rest;
  }

  lemma BareStep(p: Piece, rest: string, cur: string, inArg: bool)
    requires GoodPiece(p) && (p.Bare? || p.Escape? || (p.Slash? && rest == ""))
    ensures Read(PieceForm(p) + rest, cur, inArg) == Read(rest, cur + PieceText(p), true)
  {
    hide DoubleQuoted, IndexByte;
    var u := PieceForm(p) + rest;
    assert u[|PieceForm(p)|..] == rest;
  }

  lemma PieceStep(p: Piece, rest: string, cur: string, inArg: bool)
    requires GoodPiece(p) && (p.Slash? ==> rest == "")
    ensures Read(PieceForm(p) + rest, cur, inArg) == Read(rest, cur + PieceText(p), true)
  {
    hide Read, UnitsForm, UnitsText;
    match p
    case Double(us) => DoubleStep(us, rest, cur, inArg);
    case Single(t) => SingleStep(t, rest, cur, inArg);
    case _ => BareStep(p, rest, cur, inArg);
  }

  lemma {:induction false} PiecesRead(ps: seq<Piece>, atEnd: bool, rest: string, cur: string, inArg: bool)
    requires GoodPieces(ps, atEnd) && (atEnd ==> rest == "")
    ensures Read(PiecesForm(ps) + rest, cur, inArg) == Read(rest, cur + PiecesText(ps), inArg || ps != [])
    decreases |ps|
  {
    hide Read, GoodPiece, PieceForm, PieceText;
    if ps == [] {
      assert PiecesForm(ps) + rest == rest && cur + PiecesText(ps) == cur;
    } else {
      var tail := PiecesForm(ps[1..]) + rest;
      assert PiecesForm(ps) + rest == PieceForm(ps[0]) + tail;
      assert ps[0].Slash? ==> ps[1..] == [] && tail == "";
      PieceStep(ps[0], tail, cur, inArg);
      PiecesRead(ps[1..], atEnd, rest, cur + PieceText(ps[0]), true);
      assert cur + PieceText(ps[0]) + PiecesText(ps[1..]) == cur + PiecesText(ps);
    }
  }

  lemma BlankStep(c: char, rest: string, cur: string, inArg: bool)
    requires c == ' ' || c == '\t'
    ensures Read([c] + rest, cur, inArg) == Prefixed(if inArg then [cur] else [], Read(rest, "", false))
  {
    var u := [c] + rest;
    assert u[1..] == rest;
  }

  lemma {:induction false} GapRead(gap: string, rest: string, cur: string, inArg: bool)
    requires Blanks(gap) && (gap == "" ==> !inArg && cur == "")
    ensures Read(gap + rest, cur, inArg) == Prefixed(if inArg then [cur] else [], Read(rest, "", false))
    decreases |gap|
  {
    hide Read;
    var r := Read(rest, "", false);
    NothingPrefixed(r);
    if gap == "" {
      assert gap + rest == rest;
    } else {
      assert gap + rest == [gap[0]] + (gap[1..] + rest);
      BlankStep(gap[0], gap[1..] + rest, cur, inArg);
      GapRead(gap[1..], rest, "", false);
    }
  }

  lemma NothingPrefixed(r: Parsed)
    ensures Prefixed([], r) == r
  {
    if r.Args? {
      assert [] + r.args == r.args;
    }
  }

  lemma OpenSingleRead(t: string, cur: string, inArg: bool)
    requires '\'' !in t
    ensures Read("'" + t, cur, inArg) == Failed(UnterminatedSingle)
  {
    hide IndexByte;
    var u := "'" + t;
    IndexByteFirst(u, '\'', 1);
    assert forall k | 1 <= k < |u| :: u[k] == t[k - 1] && t[k - 1] in t;
  }

  lemma EndRead(e: End, cur: string, inArg: bool)
    requires GoodEnd(e)
    ensures Read(EndForm(e), cur, inArg)
            == match e
               case Closed => Args(if inArg then [cur] else [])
               case InSingle(_) => Failed(UnterminatedSingle)
               case InDouble(_, _) => Failed(UnterminatedDouble)
  {
    hide DoubleQuoted, UnitsForm, IndexByte;
    match e
    case Closed =>
    case InSingle(t) =>
      OpenSingleRead(t, cur, inArg);
    case InDouble(us, slash) =>
      DoubleStaysOpen(us, slash);
      assert EndForm(e)[1..] == UnitsForm(us) + if slash then "\\" else "";
  }

  lemma ClosedEnd()
    ensures EndForm(Closed) == ""
  {
  }

  /** The last word, when nothing separates it from the end. */
  lemma LastWordRead(w: Word, e: End)
    requires w.gap == "" && GoodWords([w], e) && GoodEnd(e)
    ensures Read(WordsForm([w]) + EndForm(e), "", false) == Meaning(Line("", [w], e))
  {
    hide Read, PiecesForm, PiecesText, GoodPieces, EndForm, GoodEnd;
    ClosedEnd();
    WordRead(w, [w][0].gap == "" && e.Closed?, EndForm(e));
    assert WordsForm([w]) + EndForm(e) == PiecesForm(w.pieces) + (w.gap + EndForm(e));
    EndRead(e, PiecesText(w.pieces), true);
    assert WordsText([w]) == [PiecesText(w.pieces)];
  }

  lemma {:induction false} WordsRead(ws: seq<Word>, e: End)
    requires GoodWords(ws, e) && GoodEnd(e)
    ensures Read(WordsForm(ws) + EndForm(e), "", false) == Meaning(Line("", ws, e))
    decreases |ws|
  {
    hide Read, PiecesForm, PiecesText, GoodPieces, EndForm, GoodEnd;
    if ws == [] {
      assert WordsForm(ws) + EndForm(e) == EndForm(e);
      EndRead(e, "", false);
    } else if ws[0].gap == "" {
      assert ws == [ws[0]];
      LastWordRead(ws[0], e);
    } else {
      var w, more := ws[0], WordsForm(ws[1..]) + EndForm(e);
      WordRead(w, false, more);
      assert WordsForm(ws) + EndForm(e) == PiecesForm(w.pieces) + (w.gap + more);
      RestIsGood(ws, e);
      WordsRead(ws[1..], e);
      assert WordsText(ws) == [PiecesText(w.pieces)] + WordsText(ws[1..]);
    }
  }

  lemma RestIsGood(ws: seq<Word>, e: End)
    requires ws != [] && GoodWords(ws, e)
    ensures GoodWords(ws[1..], e)
  {
    hide GoodPieces, Blanks;
    var rest := ws[1..];
    forall i | 0 <= i < |rest|
      ensures rest[i].pieces != [] && Blanks(rest[i].gap) && (i < |rest| - 1 ==> rest[i].gap != "")
      ensures GoodPieces(rest[i].pieces, i == |rest| - 1 && rest[i].gap == "" && e.Closed?)
    {
      assert rest[i] == ws[i + 1];
    }
  }

  lemma WordRead(w: Word, atEnd: bool, more: string)
    requires w.pieces != [] && Blanks(w.gap) && GoodPieces(w.pieces, atEnd) && (atEnd ==> w.gap + more == "")
    ensures Read(PiecesForm(w.pieces) + (w.gap + more), "", false)
            == if w.gap == "" then Read(more, PiecesText(w.pieces), true)
               else Prefixed([PiecesText(w.pieces)], Read(more, "", false))
  {
    hide Read, PiecesForm, PiecesText, GoodPieces;
    PiecesRead(w.pieces, atEnd, w.gap + more, "", false);
    assert "" + PiecesText(w.pieces) == PiecesText(w.pieces);
    if w.gap == "" {
      assert w.gap + more == more;
    } else {
      GapRead(w.gap, more, PiecesText(w.pieces), true);
    }
  }

  /** A line of this form splits into the texts of its words, or fails for the quote it ends inside. */
  lemma LineReads(l: Line)
    requires GoodLine(l)
    ensures CommandLine(LineForm(l)) == Meaning(l)
  {
    hide Read, WordsForm, EndForm, GoodWords, GoodEnd;
    GapRead(l.lead, WordsForm(l.words) + EndForm(l.end), "", false);
    assert LineForm(l) == l.lead + (WordsForm(l.words) + EndForm(l.end));
    WordsRead(l.words, l.end);
    NothingPrefixed(Meaning(Line("", l.words, l.end)));
  }

  // ---- every text has the form --------------------------------------------------------

  /** A line that may begin inside a word: the pieces left of it, blanks, words that begin afresh. */
  datatype Tail = Tail(pieces: seq<Piece>, gap: string, words: seq<Word>, end: End)

  predicate GoodTail(t: Tail) {
    && Blanks(t.gap) && (t.words != [] ==> t.gap != "")
    && GoodPieces(t.pieces, t.words == [] && t.gap == "" && t.end.Closed?)
    && GoodWords(t.words, t.end) && GoodEnd(t.end)
  }

  function TailForm(t: Tail): string { PiecesForm(t.pieces) + t.gap + WordsForm(t.words) + EndForm(t.end) }

  function TailWords(t: Tail): seq<Word> { if t.pieces == [] then t.words else [Word(t.pieces, t.gap)] + t.words }

  function TailLead(t: Tail): string { if t.pieces == [] then t.gap else "" }

  lemma TailIsLine(t: Tail)
    requires GoodTail(t)
    ensures GoodLine(Line(TailLead(t), TailWords(t), t.end)) && LineForm(Line(TailLead(t), TailWords(t), t.end)) == TailForm(t)
  {
    hide PiecesForm, EndForm, GoodEnd, GoodPieces, Blanks;
    NoPieces();
    assert Blanks("") by { NoBlanks(); }
    if t.pieces != [] {
      var ws := TailWords(t);
      assert ws[1..] == t.words;
      WordInFront(Word(t.pieces, t.gap), t.words, t.end);
    }
  }

  lemma WordInFront(w: Word, ws: seq<Word>, e: End)
    requires w.pieces != [] && Blanks(w.gap) && (ws != [] ==> w.gap != "")
    requires GoodPieces(w.pieces, ws == [] && w.gap == "" && e.Closed?) && GoodWords(ws, e)
    ensures GoodWords([w] + ws, e)
  {
    hide GoodPieces, Blanks;
    var all := [w] + ws;
    forall i | 1 <= i < |all|
      ensures all[i].pieces != [] && Blanks(all[i].gap) && (i < |all| - 1 ==> all[i].gap != "")
      ensures GoodPieces(all[i].pieces, i == |all| - 1 && all[i].gap == "" && e.Closed?)
    {
      assert all[i] == ws[i - 1];
    }
  }

  lemma NoPieces()
    ensures PiecesForm([]) == ""
  {
  }

  lemma NoBlanks()
    ensures Blanks("")
  {
  }

  /** Blanks in front. */
  lemma BlankFirst(c: char, t: Tail) returns (r: Tail)
    requires (c == ' ' || c == '\t') && GoodTail(t)
    ensures GoodTail(r) && TailForm(r) == [c] + TailForm(t)
  {
    hide PiecesForm, EndForm, GoodEnd, GoodPieces, GoodTail;
    TailIsLine(t);
    var l := Line(TailLead(t), TailWords(t), t.end);
    r := Tail([], [c] + l.lead, l.words, l.end);
    LineIsTail(l, r);
    assert [c] + LineForm(l) == r.gap + WordsForm(l.words) + EndForm(l.end);
  }

  lemma LineIsTail(l: Line, r: Tail)
    requires GoodLine(l) && r.pieces == [] && r.gap != "" && Blanks(r.gap) && r.words == l.words && r.end == l.end
    ensures GoodTail(r) && TailForm(r) == r.gap + WordsForm(l.words) + EndForm(l.end)
  {
    hide WordsForm, EndForm, GoodEnd, GoodWords;
  }

  /** A stretch in front. */
  lemma PieceFirst(p: Piece, t: Tail) returns (r: Tail)
    requires GoodPiece(p) && GoodTail(t) && (p.Slash? ==> TailForm(t) == "" && t.pieces == [] && t.words == [] && t.end.Closed? && t.gap == "")
    ensures GoodTail(r) && TailForm(r) == PieceForm(p) + TailForm(t)
  {
    hide EndForm, GoodEnd, GoodWords, WordsForm, GoodPiece, PieceForm;
    r := Tail([p] + t.pieces, t.gap, t.words, t.end);
    assert r.pieces[1..] == t.pieces;
    assert forall i | 1 <= i < |r.pieces| :: r.pieces[i] == t.pieces[i - 1];
  }

  lemma EndOnly(e: End) returns (r: Tail)
    requires GoodEnd(e)
    ensures r == Tail([], "", [], e) && GoodTail(r) && TailForm(r) == EndForm(e)
  {
    r := Tail([], "", [], e);
  }

  lemma {:induction false} TailOf(u: string) returns (t: Tail)
    ensures GoodTail(t) && TailForm(t) == u
    decreases |u|
  {
    hide GoodTail, TailForm, PieceForm, GoodPiece, EndForm, GoodEnd;
    if u == "" {
      t := NothingLeft();
    } else if u[0] == ' ' || u[0] == '\t' {
      var r := TailOf(u[1..]);
      t := BlankFirst(u[0], r);
      assert u == [u[0]] + u[1..];
    } else {
      var p, e, rest := Stretch(u);
      if p.Some? {
        if p.value.Slash? {
          var r := NothingLeft();
          t := PieceFirst(p.value, r);
        } else {
          var r := TailOf(rest);
          t := PieceFirst(p.value, r);
        }
      } else {
        t := EndOnly(e);
      }
    }
  }

  lemma NothingLeft() returns (t: Tail)
    ensures t == Tail([], "", [], Closed) && GoodTail(t) && TailForm(t) == ""
  {
    t := EndOnly(Closed);
  }

  /** The stretch a text begins with, or the quote that stays open from there. */
  lemma Stretch(u: string) returns (p: Option<Piece>, e: End, rest: string)
    requires u != "" && u[0] != ' ' && u[0] != '\t'
    ensures p.Some? ==> GoodPiece(p.value) && u == PieceForm(p.value) + rest && |rest| < |u| && (p.value.Slash? ==> rest == "")
    ensures p.None? ==> GoodEnd(e) && u == EndForm(e)
  {
    e, rest := Closed, "";
    if u[0] == '\'' {
      p, e, rest := SingleStretch(u);
    } else if u[0] == '"' {
      p, e, rest := DoubleStretch(u);
    } else if u == "\\" {
      p := Some(Slash);
    } else {
      p, rest := BareStretch(u);
    }
  }

  lemma BareStretch(u: string) returns (p: Option<Piece>, rest: string)
    requires u != "" && u[0] !in {' ', '\t', '"', '\''} && u != "\\"
    ensures p.Some? && (p.value.Bare? || p.value.Escape?) && GoodPiece(p.value) && u == PieceForm(p.value) + rest && |rest| < |u|
  {
    if u[0] == '\\' {
      p, rest := Some(Escape(u[1])), u[2..];
      assert u == [u[0], u[1]] + rest;
    } else {
      p, rest := Some(Bare(u[0])), u[1..];
      assert u == [u[0]] + rest;
    }
  }

  lemma SingleStretch(u: string) returns (p: Option<Piece>, e: End, rest: string)
    requires u != "" && u[0] == '\''
    ensures p.Some? ==> p.value.Single? && GoodPiece(p.value) && u == PieceForm(p.value) + rest && |rest| < |u|
    ensures p.None? ==> GoodEnd(e) && u == EndForm(e)
  {
    hide IndexByte;
    var k := IndexByte(u, '\'', 1);
    IndexByteFirst(u, '\'', 1);
    assert '\'' !in u[1..k];
    if k == |u| {
      p, e, rest := None, InSingle(u[1..]), "";
      assert u == "'" + u[1..];
    } else {
      p, e, rest := Some(Single(u[1..k])), Closed, u[k + 1..];
      assert u == "'" + u[1..k] + "'" + rest;
    }
  }

  lemma DoubleStretch(u: string) returns (p: Option<Piece>, e: End, rest: string)
    requires u != "" && u[0] == '"'
    ensures p.Some? ==> p.value.Double? && GoodPiece(p.value) && u == PieceForm(p.value) + rest && |rest| < |u|
    ensures p.None? ==> GoodEnd(e) && u == EndForm(e)
  {
    hide UnitsForm;
    var us, r := UnitsOf(u[1..]);
    assert u == "\"" + UnitsForm(us) + r;
    if r == "" || r == "\\" {
      p, e, rest := None, InDouble(us, r != ""), "";
    } else {
      p, e, rest := Some(Double(us)), Closed, r[1..];
      assert r == "\"" + rest;
      assert u == "\"" + UnitsForm(us) + "\"" + rest;
    }
  }

  /** Every text is such a line, so the form says all there is to say: the splitter's outcome is the
      line's, whatever way it is written down, and it fails exactly when a quote stays open. */
  lemma LineExactly(s: string)
    ensures exists l :: GoodLine(l) && LineForm(l) == s
    ensures forall l | GoodLine(l) && LineForm(l) == s :: CommandLine(s) == Meaning(l)
    ensures forall l | GoodLine(l) && LineForm(l) == s :: CommandLine(s).Args? <==> l.end.Closed?
  {
    hide GoodLine, LineForm, CommandLine, GoodTail, TailForm;
    var t := TailOf(s);
    TailIsLine(t);
    forall l | GoodLine(l) && LineForm(l) == s
      ensures CommandLine(s) == Meaning(l)
    {
      LineReads(l);
    }
  }
}

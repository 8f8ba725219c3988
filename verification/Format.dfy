/**
 The response rendering of internal/mcp/format.go and the final cap of guard in
 internal/mcp/server.go: cutting text to a byte budget without halving a
 character, and a table whose rows, cells and bytes are all bounded while the
 notices saying so survive.
 */
module Format {
  import opened Bytes
  import opened Utf8
  import opened Printing

  const MAX_ROWS: nat := 200
  const MAX_BYTES: nat := 102400
  const MAX_CELL_BYTES: nat := 2048
  const NOTICE_RESERVE: nat := 512
  const BUDGET: nat := MAX_BYTES - NOTICE_RESERVE

  /** The ellipsis is U+2026, three bytes in UTF-8. */
  const CUT_MARKER: string := ['\U{00E2}', '\U{0080}', '\U{00A6}'] + "(cut)"

  // ---- cutting text ---------------------------------------------------------------

  /** The last position up to `k` where a character can begin, or 0. */
  function StartBefore(s: string, k: nat): (j: nat)
    requires k < |s|
    ensures j <= k && (j > 0 ==> RuneStart(s[j]))
    ensures forall i | j < i <= k :: !RuneStart(s[i])
  {
    if k > 0 && !RuneStart(s[k]) then StartBefore(s, k - 1) else k
  }

  function Marker(limit: nat): string { if limit < |CUT_MARKER| then "" else CUT_MARKER }

  /** How much of `s` is kept when it has to be cut. */
  function Kept(s: string, limit: nat): (k: nat)
    requires |s| > limit
    ensures k <= limit - |Marker(limit)| && (k > 0 ==> RuneStart(s[k]))
  {
    StartBefore(s, limit - |Marker(limit)|)
  }

  function Cut(s: string, limit: nat): string {
    if |s| <= limit then s else s[..Kept(s, limit)] + Marker(limit)
  }

  method CutBytes(s: string, limit: nat) returns (text: string, cut: bool)
    ensures text == Cut(s, limit) && cut == (|s| > limit)
  {
    if |s| <= limit {
      return s, false;
    }
    var marker := CUT_MARKER;
    if limit < |marker| {
      marker := ""; // the limit comes before the note
    }
    var keep: nat := limit - |marker|;
    while keep > 0 && !RuneStart(s[keep])
      invariant keep <= limit - |marker|
      invariant StartBefore(s, keep) == Kept(s, limit)
    {
      keep := keep - 1;
    }
    return s[..keep] + marker, true;
  }

  lemma MarkerValid()
    ensures Valid(CUT_MARKER) && |CUT_MARKER| == 8
  {
    var dots := ['\U{00E2}', '\U{0080}', '\U{00A6}'];
    assert RuneLen(dots) == 3 && dots[3..] == "";
    assert Valid(dots);
    AsciiValid("(cut)");
    hide Valid;
    ValidAppend(dots, "(cut)");
  }

  /** The limit holds for any bytes; well-formed text stays well formed, is cut only when it
      has to be, and by fewer than four bytes more than that. */
  lemma CutKeeps(s: string, limit: nat)
    ensures |Cut(s, limit)| <= limit
    ensures Valid(s) ==> Valid(Cut(s, limit))
    ensures |s| <= limit ==> Cut(s, limit) == s
    ensures Valid(s) && |s| > limit ==> Kept(s, limit) + 3 + |Marker(limit)| >= limit
  {
    hide Valid, RuneLen;
    if |s| > limit && Valid(s) {
      var k := Kept(s, limit);
      if k > 0 {
        ValidCut(s, k);
      } else {
        ValidCut(s, 0) by { ZeroStarts(s); }
      }
      MarkerValid();
      NothingValid();
      ValidAppend(s[..k], Marker(limit));
      StartNear(s, limit - |Marker(limit)|);
    }
  }

  lemma ZeroStarts(s: string)
    requires Valid(s) && s != ""
    ensures RuneStart(s[0])
  {
  }

  lemma NothingValid()
    ensures Valid("")
  {
  }

  // ---- rows and columns --------------------------------------------------------------

  function CutRow(row: seq<string>): (r: seq<string>)
    ensures |r| == |row|
  {
    seq(|row|, j requires 0 <= j < |row| => Cut(row[j], MAX_CELL_BYTES))
  }

  function CutCount(row: seq<string>): nat {
    if row == [] then 0
    else CutCount(row[..|row| - 1]) + if |row[|row| - 1]| > MAX_CELL_BYTES then 1 else 0
  }

  function Cells(rows: seq<seq<string>>): (r: seq<seq<string>>)
    ensures |r| == |rows|
  {
    seq(|rows|, i requires 0 <= i < |rows| => CutRow(rows[i]))
  }

  function CutTotal(rows: seq<seq<string>>): nat {
    if rows == [] then 0 else CutTotal(rows[..|rows| - 1]) + CutCount(rows[|rows| - 1])
  }

  /** Width of column `j`, of `w` characters before any row is seen. */
  function ColumnWidth(cells: seq<seq<string>>, j: nat, w: nat): (r: nat)
    ensures r >= w
    ensures forall i | 0 <= i < |cells| && j < |cells[i]| :: RuneCount(cells[i][j]) <= r
  {
    if cells == [] then w
    else
      var before, row := ColumnWidth(cells[..|cells| - 1], j, w), cells[|cells| - 1];
      if j < |row| && RuneCount(row[j]) > before then RuneCount(row[j]) else before
  }

  function Widths(columns: seq<string>, cells: seq<seq<string>>): (r: seq<nat>)
    ensures |r| == |columns|
  {
    seq(|columns|, j requires 0 <= j < |columns| => ColumnWidth(cells, j, RuneCount(columns[j])))
  }

  function Dashes(n: nat): (r: string)
    ensures |r| == n && Ascii(r)
  {
    if n == 0 then "" else Dashes(n - 1) + "-"
  }

  /** One cell, padded unless it is the last of its row. */
  function Padded(row: seq<string>, widths: seq<nat>, i: nat): string
    requires i < |row|
  {
    if i + 1 < |row| && i < |widths| then row[i] + Spaces(Max(0, widths[i] - RuneCount(row[i]))) else row[i]
  }

  /** The line up to and including its first `k` cells. */
  function LinePrefix(row: seq<string>, widths: seq<nat>, k: nat): string
    requires k <= |row|
  {
    if k == 0 then ""
    else LinePrefix(row, widths, k - 1) + (if k > 1 then " | " else "") + Padded(row, widths, k - 1)
  }

  function Line(row: seq<string>, widths: seq<nat>): string { LinePrefix(row, widths, |row|) + "\n" }

  method WriteLine(row: seq<string>, widths: seq<nat>) returns (text: string)
    ensures text == Line(row, widths)
  {
    hide RuneCount;
    text := "";
    for i := 0 to |row|
      invariant text == LinePrefix(row, widths, i)
    {
      if i > 0 {
        text := text + " | ";
      } else {
        assert text + "" == text;
      }
      if i < |row| - 1 && i < |widths| {
        text := text + (row[i] + Spaces(Max(0, widths[i] - RuneCount(row[i]))));
        continue;
      }
      text := text + row[i];
    }
    text := text + "\n";
  }

  function RulePrefix(widths: seq<nat>, k: nat): string
    requires k <= |widths|
  {
    if k == 0 then "" else RulePrefix(widths, k - 1) + (if k > 1 then "-+-" else "") + Dashes(widths[k - 1])
  }

  function Rule(widths: seq<nat>): string { RulePrefix(widths, |widths|) + "\n" }

  method WriteRule(widths: seq<nat>) returns (text: string)
    ensures text == Rule(widths)
  {
    text := "";
    for k := 0 to |widths|
      invariant text == RulePrefix(widths, k)
    {
      if k > 0 {
        text := text + "-+-";
      } else {
        assert text + "" == text;
      }
      text := text + Dashes(widths[k]);
    }
    text := text + "\n";
  }

  // ---- alignment -----------------------------------------------------------------------

  /** Where cell `k` of a line begins, in characters. */
  function ColumnStart(widths: seq<nat>, k: nat): nat
    requires k <= |widths|
  {
    if k == 0 then 0 else ColumnStart(widths, k - 1) + widths[k - 1] + 3
  }

  predicate FitsWidths(row: seq<string>, widths: seq<nat>) {
    |row| == |widths| && forall j | 0 <= j < |row| :: Valid(row[j]) && RuneCount(row[j]) <= widths[j]
  }

  /** Every line puts its separators, and so its cells, in the same places. */
  lemma {:induction false} Aligned(row: seq<string>, widths: seq<nat>, k: nat)
    requires FitsWidths(row, widths) && k + 1 < |row|
    ensures var before := LinePrefix(row, widths, k + 1) + " | ";
            Valid(before) && RuneCount(before) == ColumnStart(widths, k + 1)
    decreases k
  {
    hide Valid, RuneCount, RuneLen, Spaces;
    var gap := Spaces(Max(0, widths[k] - RuneCount(row[k])));
    AsciiValid(gap);
    AsciiValid(" | ");
    ValidAppend(row[k], gap);
    var head := LinePrefix(row, widths, k) + if k > 0 then " | " else "";
    if k > 0 {
      Aligned(row, widths, k - 1);
    } else {
      assert head == "";
      CountNothing();
    }
    ValidAppend(head, row[k] + gap);
    ValidAppend(head + (row[k] + gap), " | ");
  }

  lemma CountNothing()
    ensures Valid("") && RuneCount("") == 0
  {
  }

  /** The header and every row shown fit the widths that are computed for them. */
  lemma WidthsFit(columns: seq<string>, rows: seq<seq<string>>)
    requires forall j | 0 <= j < |columns| :: Valid(columns[j])
    requires forall i, j | 0 <= i < |rows| && 0 <= j < |rows[i]| :: Valid(rows[i][j])
    ensures var cells := Cells(rows); var widths := Widths(columns, cells);
            FitsWidths(columns, widths)
            && forall i | 0 <= i < |rows| && |rows[i]| == |columns| :: FitsWidths(cells[i], widths)
  {
    hide Valid, RuneCount, Cut;
    forall i, j | 0 <= i < |rows| && 0 <= j < |rows[i]|
      ensures Valid(Cells(rows)[i][j])
    {
      CutKeeps(rows[i][j], MAX_CELL_BYTES);
    }
  }

  // ---- numbers and notices ----------------------------------------------------------------

  function Pow10(k: nat): nat { if k == 0 then 1 else 10 * Pow10(k - 1) }

  lemma {:induction false} DecimalLength(n: nat, k: nat)
    requires 0 < k && n < Pow10(k)
    ensures |Decimal(n)| <= k
    decreases k
  {
    if n >= 10 {
      DecimalLength(n / 10, k - 1);
    }
  }

  /** A Go int is below 2^63, so it prints in at most 19 digits. */
  const MAX_INT: nat := 0x7FFF_FFFF_FFFF_FFFF

  lemma DecimalFits(n: nat)
    requires n <= MAX_INT
    ensures |Decimal(n)| <= 19
  {
    assert Pow10(9) == 1_000_000_000;
    assert Pow10(19) == 10_000_000_000_000_000_000;
    DecimalLength(n, 19);
  }

  /** The caps that fired, as the truncation notice names them. */
  function Reasons(more: bool, short: bool): string {
    (if more then "the 200-row cap" else "")
    + (if more && short then " and " else "")
    + (if short then "the 102400-byte response cap" else "")
  }

  function CountText(shown: nat, total: int): string {
    if total >= 0 then Decimal(shown) + " of " + Decimal(total) + " rows shown"
    else Decimal(shown) + " rows shown and more remain"
  }

  const ADVICE: string := ". Narrow the query" + " with a WHERE clause" + " or a LIMIT to see" + " the rest.\n"

  const CUT_VALUES: string := "Values over the " + "2048-byte cell cap " + "were cut ("

  const CUT_ENDS: string := " of them); " + "a cut value ends " + "with \""

  lemma AdviceAscii()
    ensures Ascii(ADVICE)
  {
    Joined(". Narrow the query", " with a WHERE clause", " or a LIMIT to see", " the rest.\n");
  }

  lemma CutWordsAscii()
    ensures Ascii(CUT_VALUES) && Ascii(CUT_ENDS)
  {
    Joined("Values over the ", "2048-byte cell cap ", "were cut (", "");
    Joined(" of them); ", "a cut value ends ", "with \"", "");
    assert CUT_VALUES + "" == CUT_VALUES && CUT_ENDS + "" == CUT_ENDS;
  }

  lemma Joined(a: string, b: string, c: string, d: string)
    requires Ascii(a) && Ascii(b) && Ascii(c) && Ascii(d)
    ensures Ascii(a + b + c + d)
  {
  }

  function TruncatedNotice(more: bool, short: bool, shown: nat, total: int): string {
    if !more && !short then ""
    else "\nTruncated by " + Reasons(more, short) + ": " + CountText(shown, total)
         + ADVICE
  }

  function CutNotice(cut: nat): string {
    if cut == 0 then ""
    else CUT_VALUES + Decimal(cut) + CUT_ENDS + CUT_MARKER + "\".\n"
  }

  lemma TruncatedFits(more: bool, short: bool, shown: nat, total: int)
    requires shown <= MAX_INT && total <= MAX_INT
    ensures |TruncatedNotice(more, short, shown, total)| <= 256
  {
    hide Decimal;
    DecimalFits(shown);
    if total >= 0 {
      DecimalFits(total);
    }
    assert |Reasons(more, short)| <= 60;
    assert |CountText(shown, total)| <= 60;
    hide Reasons, CountText;
  }

  lemma CutNoticeFits(cut: nat)
    requires cut <= MAX_INT
    ensures |CutNotice(cut)| <= 256
  {
    hide Decimal;
    MarkerValid();
    DecimalFits(cut);
  }

  // ---- the table -----------------------------------------------------------------------------

  function Capped(rows: seq<seq<string>>): seq<seq<string>> { if |rows| > MAX_ROWS then rows[..MAX_ROWS] else rows }

  function Header(columns: seq<string>, widths: seq<nat>): string {
    if columns == [] then "" else Line(columns, widths) + Rule(widths)
  }

  /** The lines of the first `n` rows. */
  function Lines(cells: seq<seq<string>>, widths: seq<nat>, n: nat): string
    requires n <= |cells|
  {
    if n == 0 then "" else Lines(cells, widths, n - 1) + Line(cells[n - 1], widths)
  }

  /** `n` is how many rows fit after `used` bytes: those do, and one more would not. */
  ghost predicate IsShown(cells: seq<seq<string>>, widths: seq<nat>, used: nat, n: nat) {
    && n <= |cells|
    && (forall i | 0 < i <= n :: used + |Lines(cells, widths, i)| <= BUDGET)
    && (n < |cells| ==> used + |Lines(cells, widths, n + 1)| > BUDGET)
  }

  /** The table before the backstop: header, whole lines, notices. */
  function Table(columns: seq<string>, rows: seq<seq<string>>, total: int, more: bool, shown: nat): string
    requires shown <= |Capped(rows)|
  {
    var capped := Capped(rows);
    var cells := Cells(capped);
    var widths := Widths(columns, cells);
    Header(columns, widths) + Lines(cells, widths, shown)
    + TruncatedNotice(more || |rows| > MAX_ROWS, shown < |capped|, shown, total)
    + CutNotice(CutTotal(capped))
  }

  ghost predicate Shows(columns: seq<string>, rows: seq<seq<string>>, shown: nat) {
    var cells := Cells(Capped(rows));
    var widths := Widths(columns, cells);
    shown <= |cells| && IsShown(cells, widths, |Header(columns, widths)|, shown)
  }

  /** Only one number of rows is right. */
  lemma ShownUnique(columns: seq<string>, rows: seq<seq<string>>, m: nat, n: nat)
    requires Shows(columns, rows, m) && Shows(columns, rows, n)
    ensures m == n
  {
    hide Lines, Header;
  }

  /** With a header inside the budget the notices come out whole, whatever the rows hold. */
  lemma NoticesSurvive(columns: seq<string>, rows: seq<seq<string>>, total: int, more: bool, shown: nat)
    requires Shows(columns, rows, shown) && total <= MAX_INT && CutTotal(Capped(rows)) <= MAX_INT
    requires |Header(columns, Widths(columns, Cells(Capped(rows))))| <= BUDGET
    ensures |Table(columns, rows, total, more, shown)| <= MAX_BYTES
    ensures Cut(Table(columns, rows, total, more, shown), MAX_BYTES) == Table(columns, rows, total, more, shown)
  {
    var cells := Cells(Capped(rows));
    var widths := Widths(columns, cells);
    assert |Header(columns, widths) + Lines(cells, widths, shown)| <= BUDGET;
    hide Shows, Lines, Header, TruncatedNotice, CutNotice, Widths, Cells, CutTotal;
    TruncatedFits(more || |rows| > MAX_ROWS, shown < |cells|, shown, total);
    CutNoticeFits(CutTotal(Capped(rows)));
  }

  /** Rows left out are always announced: no truncation notice means every row was shown. */
  lemma NothingHidden(columns: seq<string>, rows: seq<seq<string>>, more: bool, shown: nat, total: int)
    requires Shows(columns, rows, shown)
    ensures TruncatedNotice(more || |rows| > MAX_ROWS, shown < |Capped(rows)|, shown, total) == ""
            <==> !more && shown == |rows|
  {
    hide Lines, Header, CountText, Reasons;
  }

  method RenderGrid(columns: seq<string>, rows: seq<seq<string>>, total: int, more: bool)
    returns (text: string, shown: nat)
    ensures rows != [] ==> Shows(columns, rows, shown)
    ensures text == if rows == [] then "(no rows)" else Cut(Table(columns, rows, total, more, shown), MAX_BYTES)
    ensures |text| <= MAX_BYTES
  {
    hide RuneCount, Cut, Line, Rule, CutTotal, Widths, Cells, IsShown, Lines, TruncatedNotice, CutNotice, Header;
    shown := 0;
    if |rows| == 0 {
      return "(no rows)", 0;
    }
    var capped, moreRows := rows, more;
    if |rows| > MAX_ROWS {
      capped, moreRows := rows[..MAX_ROWS], true;
    }
    var cells, cut := CutCells(capped);
    var widths := MeasureWidths(columns, cells);
    var b := "";
    if |columns| > 0 {
      var head := WriteLine(columns, widths);
      var under := WriteRule(widths);
      b := b + (head + under);
    }
    assert b == Header(columns, widths) by { HeaderIs(columns, widths); }
    var lines;
    lines, shown := WriteLines(cells, widths, |b|);
    var out := b + lines + TruncatedNotice(moreRows, shown < |cells|, shown, total) + CutNotice(cut);
    var wasCut;
    text, wasCut := CutBytes(out, MAX_BYTES);
    CutKeeps(out, MAX_BYTES);
  }

  lemma HeaderIs(columns: seq<string>, widths: seq<nat>)
    ensures Header(columns, widths) == "" + if |columns| > 0 then Line(columns, widths) + Rule(widths) else ""
  {
  }

  /** The loop that stops at the first line over the budget. */
  method WriteLines(cells: seq<seq<string>>, widths: seq<nat>, used: nat) returns (lines: string, shown: nat)
    ensures shown <= |cells| && IsShown(cells, widths, used, shown) && lines == Lines(cells, widths, shown)
  {
    hide Line;
    shown, lines := 0, "";
    for i := 0 to |cells|
      invariant shown == i && lines == Lines(cells, widths, i)
      invariant forall k | 0 < k <= i :: used + |Lines(cells, widths, k)| <= BUDGET
    {
      var text := WriteLine(cells[i], widths);
      if used + |lines| + |text| > BUDGET {
        break;
      }
      lines := lines + text;
      shown := shown + 1;
    }
  }

  method CutCells(rows: seq<seq<string>>) returns (cells: seq<seq<string>>, cut: nat)
    ensures cells == Cells(rows) && cut == CutTotal(rows)
  {
    hide Cut;
    cells, cut := [], 0;
    for i := 0 to |rows|
      invariant |cells| == i && cut == CutTotal(rows[..i])
      invariant forall k | 0 <= k < i :: cells[k] == CutRow(rows[k])
    {
      var row := rows[i];
      var texts: seq<string> := [];
      ghost var before := cut;
      for j := 0 to |row|
        invariant |texts| == j && cut == before + CutCount(row[..j])
        invariant forall k | 0 <= k < j :: texts[k] == Cut(row[k], MAX_CELL_BYTES)
      {
        var text, wasCut := CutBytes(row[j], MAX_CELL_BYTES);
        assert row[..j + 1][..j] == row[..j];
        if wasCut {
          cut := cut + 1;
        }
        texts := texts + [text];
      }
      assert row[..|row|] == row && rows[..i + 1][..i] == rows[..i];
      cells := cells + [texts];
    }
    assert rows[..|rows|] == rows;
  }

  method MeasureWidths(columns: seq<string>, cells: seq<seq<string>>) returns (widths: seq<nat>)
    ensures widths == Widths(columns, cells)
  {
    hide RuneCount;
    var ws := new nat[|columns|];
    for j := 0 to |columns|
      invariant forall k | 0 <= k < j :: ws[k] == RuneCount(columns[k])
    {
      ws[j] := RuneCount(columns[j]);
    }
    for i := 0 to |cells|
      invariant forall j | 0 <= j < |columns| :: ws[j] == ColumnWidth(cells[..i], j, RuneCount(columns[j]))
    {
      var row := cells[i];
      assert cells[..i + 1][..i] == cells[..i];
      for j := 0 to |row|
        invariant forall k | 0 <= k < |columns| && k < j :: ws[k] == ColumnWidth(cells[..i + 1], k, RuneCount(columns[k]))
        invariant forall k | j <= k < |columns| :: ws[k] == ColumnWidth(cells[..i], k, RuneCount(columns[k]))
      {
        if j < |columns| && RuneCount(row[j]) > ws[j] {
          ws[j] := RuneCount(row[j]);
        }
      }
    }
    assert cells[..|cells|] == cells;
    widths := ws[..];
  }

  // ---- the last cap -----------------------------------------------------------------------------

  const CAP_NOTICE: string := "\nTruncated: " + "the response " + "reached the " + "102400-byte cap.\n"

  lemma CapNoticeFits()
    ensures Valid(CAP_NOTICE) && |CAP_NOTICE| <= NOTICE_RESERVE
  {
    var a, b, c, d := "\nTruncated: ", "the response ", "reached the ", "102400-byte cap.\n";
    assert Ascii(a) && Ascii(b) && Ascii(c) && Ascii(d);
    assert Ascii(a + b + c + d);
    AsciiValid(CAP_NOTICE);
  }

  /** The last cap of guard, on the text of any tool. */
  function CapOf(output: string): string {
    if |output| <= BUDGET then output else output[..Kept(output, BUDGET)] + CUT_MARKER + CAP_NOTICE
  }

  /** It holds for any bytes, and keeps well-formed text well formed. */
  method CapText(output: string) returns (text: string)
    ensures text == CapOf(output) && |text| <= MAX_BYTES
    ensures Valid(output) ==> Valid(text)
  {
    hide Valid, RuneLen;
    var capped, cut := CutBytes(output, BUDGET);
    CutKeeps(output, BUDGET);
    text := output;
    if cut {
      MarkerValid();
      CapNoticeFits();
      if Valid(output) {
        ValidAppend(capped, CAP_NOTICE);
      }
      text := capped + CAP_NOTICE;
    }
  }

  // ---- the table is well-formed text ---------------------------------------------------------------

  predicate AllValid(row: seq<string>) { forall j | 0 <= j < |row| :: Valid(row[j]) }

  lemma {:induction false} LineValid(row: seq<string>, widths: seq<nat>, k: nat)
    requires AllValid(row) && k <= |row|
    ensures Valid(LinePrefix(row, widths, k)) && Valid(LinePrefix(row, widths, k) + "\n")
    decreases k
  {
    hide Valid, RuneCount, RuneLen, Spaces;
    AsciiValid("\n");
    AsciiValid(" | ");
    if k == 0 {
      CountNothing();
    } else {
      var i := k - 1;
      LineValid(row, widths, i);
      var head := LinePrefix(row, widths, i) + if k > 1 then " | " else "";
      if k > 1 {
        ValidAppend(LinePrefix(row, widths, i), " | ");
      } else {
        assert head == LinePrefix(row, widths, i);
      }
      if i + 1 < |row| && i < |widths| {
        var gap := Spaces(Max(0, widths[i] - RuneCount(row[i])));
        AsciiValid(gap);
        ValidAppend(row[i], gap);
      }
      ValidAppend(head, Padded(row, widths, i));
    }
    ValidAppend(LinePrefix(row, widths, k), "\n");
  }

  lemma {:induction false} LinesValid(cells: seq<seq<string>>, widths: seq<nat>, n: nat)
    requires n <= |cells| && forall i | 0 <= i < |cells| :: AllValid(cells[i])
    ensures Valid(Lines(cells, widths, n))
    decreases n
  {
    hide Valid, AllValid;
    if n == 0 {
      CountNothing();
    } else {
      LinesValid(cells, widths, n - 1);
      LineValid(cells[n - 1], widths, |cells[n - 1]|);
      ValidAppend(Lines(cells, widths, n - 1), Line(cells[n - 1], widths));
    }
  }

  lemma {:induction false} RuleAscii(widths: seq<nat>, k: nat)
    requires k <= |widths|
    ensures Ascii(RulePrefix(widths, k))
    decreases k
  {
    if k > 0 {
      RuleAscii(widths, k - 1);
    }
  }

  lemma HeaderValid(columns: seq<string>, widths: seq<nat>)
    requires AllValid(columns)
    ensures Valid(Header(columns, widths))
  {
    hide Valid;
    CountNothing();
    LineValid(columns, widths, |columns|);
    RuleAscii(widths, |widths|);
    AsciiValid(Rule(widths));
    ValidAppend(Line(columns, widths), Rule(widths));
  }

  lemma ReasonsAscii(more: bool, short: bool)
    ensures Ascii(Reasons(more, short))
  {
    var r, b := "the 200-row cap", "the 102400-byte " + "response cap";
    assert b == "the 102400-byte response cap";
    assert Ascii(r) && Ascii(b);
    Joined(if more then r else "", if more && short then " and " else "", if short then b else "", "");
    assert Reasons(more, short) + "" == Reasons(more, short);
  }

  lemma CountAscii(shown: nat, total: int)
    ensures Ascii(CountText(shown, total))
  {
    hide Decimal;
    var r := " rows shown and" + " more remain";
    assert r == " rows shown and more remain";
    if total >= 0 {
      Joined(Decimal(shown), " of ", Decimal(total), " rows shown");
    } else {
      Joined(Decimal(shown), r, "", "");
      assert Decimal(shown) + r + "" + "" == CountText(shown, total);
    }
  }

  lemma NoticesValid(more: bool, short: bool, shown: nat, total: int, cut: nat)
    ensures Valid(TruncatedNotice(more, short, shown, total)) && Valid(CutNotice(cut))
  {
    hide Valid, Reasons, CountText, Decimal;
    CountNothing();
    ReasonsAscii(more, short);
    CountAscii(shown, total);
    var notice := "\nTruncated by " + Reasons(more, short) + ": " + CountText(shown, total);
    Joined("\nTruncated by ", Reasons(more, short), ": ", CountText(shown, total));
    AdviceAscii();
    AsciiValid(notice);
    AsciiValid(ADVICE);
    ValidAppend(notice, ADVICE);
    CutNoticeValid(cut);
  }

  lemma CutNoticeValid(cut: nat)
    ensures Valid(CutNotice(cut))
  {
    hide Valid, Decimal;
    CountNothing();
    CutWordsAscii();
    var notice := CUT_VALUES + Decimal(cut) + CUT_ENDS;
    Joined(CUT_VALUES, Decimal(cut), CUT_ENDS, "");
    assert notice + "" == notice;
    AsciiValid(notice);
    MarkerValid();
    AsciiValid("\".\n");
    ValidAppend(notice, CUT_MARKER);
    ValidAppend(notice + CUT_MARKER, "\".\n");
  }

  /** A table of well-formed values is well formed, cut or not. */
  lemma TableValid(columns: seq<string>, rows: seq<seq<string>>, total: int, more: bool, shown: nat)
    requires shown <= |Capped(rows)| && AllValid(columns)
    requires forall i | 0 <= i < |rows| :: AllValid(rows[i])
    ensures Valid(Table(columns, rows, total, more, shown))
    ensures Valid(Cut(Table(columns, rows, total, more, shown), MAX_BYTES))
  {
    hide Valid, RuneLen, Cut, Header, Lines, Widths, TruncatedNotice, CutNotice, CutTotal;
    var capped := Capped(rows);
    var cells := Cells(capped);
    var widths := Widths(columns, cells);
    forall i | 0 <= i < |cells|
      ensures AllValid(cells[i])
    {
      assert AllValid(rows[i]);
      CutRowValid(rows[i]);
    }
    HeaderValid(columns, widths);
    LinesValid(cells, widths, shown);
    NoticesValid(more || |rows| > MAX_ROWS, shown < |capped|, shown, total, CutTotal(capped));
    var h, l := Header(columns, widths), Lines(cells, widths, shown);
    var t := TruncatedNotice(more || |rows| > MAX_ROWS, shown < |capped|, shown, total);
    ValidAppend(h, l);
    ValidAppend(h + l, t);
    ValidAppend(h + l + t, CutNotice(CutTotal(capped)));
    CutKeeps(Table(columns, rows, total, more, shown), MAX_BYTES);
  }

  lemma CutRowValid(row: seq<string>)
    requires AllValid(row)
    ensures AllValid(CutRow(row))
  {
    hide Valid, Cut;
    forall j | 0 <= j < |row|
      ensures Valid(CutRow(row)[j])
    {
      CutKeeps(row[j], MAX_CELL_BYTES);
    }
  }
}

/**
 The line editing of internal/config/write.go: finding the lines of one list
 item, replacing or removing them, and putting an item in. Lines are numbered
 from 1, as a YAML parser reports them; where the items start, and the text a
 changed item is encoded as, are inputs.
 */
module ConfigLines {
  import opened Bytes
  import opened Splitter
  import opened Printing

  predicate Blank(line: string) { TrimSpace(line) == "" }

  predicate IsComment(line: string) { TrimSpace(line) != "" && TrimSpace(line)[0] == '#' }

  /** Number of leading spaces. */
  function IndentOf(line: string): (n: nat)
    ensures n <= |line| && (forall k | 0 <= k < n :: line[k] == ' ') && (n < |line| ==> line[n] != ' ')
  {
    if line == "" || line[0] != ' ' then 0 else 1 + IndentOf(line[1..])
  }

  /** A line indented deeper than the dash of its item. */
  predicate Deeper(line: string, dash: nat) { !Blank(line) && IndentOf(line) > dash }

  /** A line that ends the item above it. */
  predicate Ends(line: string, dash: nat) { !Blank(line) && IndentOf(line) <= dash }

  // ---- the span of an item ------------------------------------------------------------

  /** Last line of the item, reading from line n + 1 with `end` its last line so far. */
  function SpanFrom(lines: seq<string>, dash: nat, n: nat, end: nat): (e: nat)
    requires n <= |lines|
    decreases |lines| - n
  {
    if n == |lines| || Ends(lines[n], dash) then end
    else SpanFrom(lines, dash, n + 1, if Blank(lines[n]) then end else n + 1)
  }

  predicate OnLine(lines: seq<string>, start: nat) { 1 <= start <= |lines| }

  /** Last line of the item that starts on line `start`. */
  function SpanEnd(lines: seq<string>, start: nat): nat
    requires OnLine(lines, start)
  {
    SpanFrom(lines, IndentOf(lines[start - 1]), start, start)
  }

  /** From line `at` + 1 on there are blanks, and then a line that ends an item or the end of the file. */
  predicate EndsAt(lines: seq<string>, at: nat, dash: nat, stop: nat) {
    at <= stop <= |lines| && (stop < |lines| ==> Ends(lines[stop], dash)) && forall k | at <= k < stop :: Blank(lines[k])
  }

  ghost predicate EndsBelow(lines: seq<string>, at: nat, dash: nat) { exists stop: nat :: EndsAt(lines, at, dash, stop) }

  /** An item ends on its last deeper line: inside, only deeper and blank lines; then blanks, up
      to a line that is not deeper or the end of the file. */
  ghost predicate IsSpan(lines: seq<string>, start: nat, end: nat)
    requires OnLine(lines, start)
  {
    var dash := IndentOf(lines[start - 1]);
    && start <= end <= |lines|
    && (forall k | start <= k < end :: Blank(lines[k]) || Deeper(lines[k], dash))
    && (end > start ==> Deeper(lines[end - 1], dash))
    && EndsBelow(lines, end, dash)
  }

  lemma {:induction false} SpanFromIs(lines: seq<string>, start: nat, n: nat, end: nat)
    requires OnLine(lines, start) && start <= end <= n <= |lines|
    requires var dash := IndentOf(lines[start - 1]);
             && (forall k | start <= k < end :: Blank(lines[k]) || Deeper(lines[k], dash))
             && (end > start ==> Deeper(lines[end - 1], dash))
             && (forall k | end <= k < n :: Blank(lines[k]))
    ensures IsSpan(lines, start, SpanFrom(lines, IndentOf(lines[start - 1]), n, end))
    decreases |lines| - n
  {
    hide TrimSpace, IndentOf;
    var dash := IndentOf(lines[start - 1]);
    if n < |lines| && !Ends(lines[n], dash) {
      SpanFromIs(lines, start, n + 1, if Blank(lines[n]) then end else n + 1);
    } else {
      assert EndsAt(lines, end, dash, n);
    }
  }

  lemma SpanIs(lines: seq<string>, start: nat)
    requires OnLine(lines, start)
    ensures IsSpan(lines, start, SpanEnd(lines, start))
  {
    SpanFromIs(lines, start, start, start);
  }

  /** The description fits one end only. */
  lemma SpanUnique(lines: seq<string>, start: nat, d: nat, e: nat)
    requires OnLine(lines, start) && IsSpan(lines, start, d) && IsSpan(lines, start, e)
    ensures d == e
  {
    hide TrimSpace, IndentOf;
    OneEnd(lines, start, d, e);
    OneEnd(lines, start, e, d);
  }

  lemma OneEnd(lines: seq<string>, start: nat, d: nat, e: nat)
    requires OnLine(lines, start) && IsSpan(lines, start, d) && IsSpan(lines, start, e)
    ensures d >= e
  {
    hide TrimSpace, IndentOf;
    var dash := IndentOf(lines[start - 1]);
    var stop: nat :| EndsAt(lines, d, dash, stop);
    assert e > start ==> Deeper(lines[e - 1], dash);
  }

  /** Where the items of one list start: in order, on lines that are not blank, at one indent. */
  ghost predicate ItemStarts(lines: seq<string>, starts: seq<nat>, dash: nat) {
    && (forall i | 0 <= i < |starts| :: OnLine(lines, starts[i]) && !Blank(lines[starts[i] - 1]))
    && (forall i, j | 0 <= i < j < |starts| :: starts[i] < starts[j])
    && (forall i | 0 <= i < |starts| :: IndentOf(lines[starts[i] - 1]) == dash)
  }

  /** Spans of the items of a list are in order and disjoint. */
  lemma SpansDisjoint(lines: seq<string>, starts: seq<nat>, dash: nat, i: nat, j: nat)
    requires ItemStarts(lines, starts, dash) && i < j < |starts|
    ensures SpanEnd(lines, starts[i]) < starts[j] <= SpanEnd(lines, starts[j])
  {
    hide TrimSpace, IndentOf, SpanEnd;
    SpanIs(lines, starts[i]);
    SpanIs(lines, starts[j]);
    assert Ends(lines[starts[j] - 1], dash);
  }

  // ---- editing -----------------------------------------------------------------------------

  /** Lines start..end replaced by `block`; an end below start inserts. */
  function Splice(lines: seq<string>, start: int, end: int, block: seq<string>): seq<string>
    requires start - 1 <= |lines|
  {
    var from := if start < 1 then 1 else start;
    var to' := if end > |lines| then |lines| else end;
    lines[..from - 1] + block + if to' >= from then lines[to'..] else lines[from - 1..]
  }

  /** First of the comment lines that end right above `start`. */
  function HeadStart(lines: seq<string>, start: nat): (h: nat)
    requires OnLine(lines, start)
    ensures 1 <= h <= start && (forall k | h - 1 <= k < start - 1 :: IsComment(lines[k]))
    ensures h > 1 ==> !IsComment(lines[h - 2])
  {
    if start > 1 && IsComment(lines[start - 2]) then HeadStart(lines, start - 1) else start
  }

  predicate BlankAt(lines: seq<string>, i: int) { 1 <= i <= |lines| && Blank(lines[i - 1]) }

  /** One of two blank lines that meet where an item was, or one left at the end. */
  function CloseGap(lines: seq<string>, at: nat): seq<string>
    requires 1 <= at
  {
    if BlankAt(lines, at - 1) && (at > |lines| || BlankAt(lines, at)) then Splice(lines, at - 1, at - 1, []) else lines
  }

  function Removed(lines: seq<string>, start: nat): seq<string>
    requires OnLine(lines, start)
  {
    var head := HeadStart(lines, start);
    CloseGap(Splice(lines, head, SpanEnd(lines, start), []), head)
  }

  function Updated(lines: seq<string>, start: nat, block: seq<string>): seq<string>
    requires OnLine(lines, start)
  {
    Splice(lines, start, SpanEnd(lines, start), block)
  }

  lemma RemovedIs(lines: seq<string>, start: nat)
    requires OnLine(lines, start)
    ensures var head, end := HeadStart(lines, start), SpanEnd(lines, start);
            && 1 <= head <= start <= end <= |lines|
            && Removed(lines, start) == CloseGap(lines[..head - 1] + lines[end..], head)
  {
    hide TrimSpace, SpanEnd, HeadStart, CloseGap;
    SpanIs(lines, start);
    var head, end := HeadStart(lines, start), SpanEnd(lines, start);
    assert Splice(lines, head, end, []) == lines[..head - 1] + lines[end..];
  }

  /** The blank line goes exactly when keeping it would leave two in a row, or one at the end. */
  lemma GapCloses(lines: seq<string>, head: nat, end: nat)
    requires 1 <= head && head - 1 <= end <= |lines|
    ensures CloseGap(lines[..head - 1] + lines[end..], head)
            == if head > 1 && Blank(lines[head - 2]) && (end == |lines| || Blank(lines[end])) then
                 lines[..head - 2] + lines[end..]
               else lines[..head - 1] + lines[end..]
  {
    hide TrimSpace;
    var cut := lines[..head - 1] + lines[end..];
    if head > 1 {
      assert cut[head - 2] == lines[head - 2];
      assert cut[..head - 2] + [] + cut[head - 1..] == lines[..head - 2] + lines[end..];
    }
    if end < |lines| {
      assert cut[head - 1] == lines[end];
    }
  }

  /** Removing an item removes its span, the comment lines right above it, and one blank line above
      those when it would be left doubled or last; every other line stays, in order. */
  lemma RemoveIsSurgical(lines: seq<string>, start: nat)
    requires OnLine(lines, start)
    ensures var head, end := HeadStart(lines, start), SpanEnd(lines, start);
            && 1 <= head <= start <= end <= |lines|
            && (forall k | head - 1 <= k < start - 1 :: IsComment(lines[k]))
            && Removed(lines, start)
               == if head > 1 && Blank(lines[head - 2]) && (end == |lines| || Blank(lines[end])) then
                    lines[..head - 2] + lines[end..]
                  else lines[..head - 1] + lines[end..]
  {
    hide TrimSpace, SpanEnd, HeadStart, CloseGap, Removed;
    RemovedIs(lines, start);
    GapCloses(lines, HeadStart(lines, start), SpanEnd(lines, start));
  }

  /** Remove reaches into the span of the item above exactly when the first of the comment lines
      it takes along is indented deeper than the dashes, with nothing but that item above it. */
  lemma RemoveReachesUp(lines: seq<string>, starts: seq<nat>, dash: nat, i: nat)
    requires ItemStarts(lines, starts, dash) && i + 1 < |starts|
    requires forall k | 0 <= k < |starts| :: !IsComment(lines[starts[k] - 1])
    ensures var s, t, head := starts[i], starts[i + 1], HeadStart(lines, starts[i + 1]);
            s < head
            && (SpanEnd(lines, s) >= head
                <==> head < t && IndentOf(lines[head - 1]) > dash && forall k | s <= k < head - 1 :: !Ends(lines[k], dash))
  {
    hide TrimSpace, IndentOf, SpanEnd, HeadStart;
    var s, t := starts[i], starts[i + 1];
    var head, end := HeadStart(lines, t), SpanEnd(lines, s);
    SpanIs(lines, s);
    SpansDisjoint(lines, starts, dash, i, i + 1);
    assert !IsComment(lines[s - 1]);
    var stop: nat :| EndsAt(lines, end, dash, stop);
    assert head < t ==> IsComment(lines[head - 1]);
    assert end >= head ==> Blank(lines[head - 1]) || Deeper(lines[head - 1], dash);
  }

  // ---- rendered items ------------------------------------------------------------------------

  /** The encoder's lines without the blank ones at the end. */
  function TrimTrailing(lines: seq<string>): (r: seq<string>)
    ensures r <= lines && (r != [] ==> !Blank(r[|r| - 1]))
    ensures forall k | |r| <= k < |lines| :: Blank(lines[k])
  {
    if lines != [] && Blank(lines[|lines| - 1]) then TrimTrailing(lines[..|lines| - 1]) else lines
  }

  /** One encoded mapping as a list item; `body` is not empty. */
  function Item(body: seq<string>, indent: nat): seq<string>
    requires body != []
  {
    seq(|body|, i requires 0 <= i < |body| =>
      if i == 0 then Spaces(indent) + "- " + body[0]
      else if body[i] == "" then ""
      else Spaces(indent) + "  " + body[i])
  }

  /** Lines that make one item: the first at the dash, the others deeper or blank, the last not blank. */
  predicate IsItem(block: seq<string>, dash: nat) {
    && block != [] && Ends(block[0], dash) && IndentOf(block[0]) == dash
    && (forall k | 1 <= k < |block| :: Blank(block[k]) || Deeper(block[k], dash))
    && !Blank(block[|block| - 1])
  }

  lemma {:induction false} IndentIs(line: string, n: nat)
    requires n <= |line| && (forall k | 0 <= k < n :: line[k] == ' ') && (n < |line| ==> line[n] != ' ')
    ensures IndentOf(line) == n
  {
    if n > 0 {
      IndentIs(line[1..], n - 1);
    }
  }

  lemma BlankExactly(line: string)
    ensures Blank(line) <==> AllSpace(line, 0, |line|)
  {
    var r := Trim(line, 0, |line|);
    assert TrimSpace(line) == line[r.start..r.end];
  }

  lemma DashLine(indent: nat, text: string)
    ensures var line := Spaces(indent) + "- " + text; !Blank(line) && IndentOf(line) == indent
  {
    hide IndentOf, TrimSpace;
    var line := Spaces(indent) + "- " + text;
    assert line[indent] == '-';
    IndentIs(line, indent);
    BlankExactly(line);
  }

  lemma InnerLine(indent: nat, text: string)
    ensures var line := Spaces(indent) + "  " + text;
            (Blank(line) <==> Blank(text)) && (!Blank(line) ==> IndentOf(line) > indent)
  {
    hide TrimSpace;
    var line := Spaces(indent) + "  " + text;
    assert forall k | 0 <= k < indent + 2 :: line[k] == ' ';
    assert forall k | 0 <= k < |text| :: line[indent + 2 + k] == text[k];
    BlankExactly(line);
    BlankExactly(text);
    assert AllSpace(text, 0, |text|) ==> AllSpace(line, 0, |line|);
    assert AllSpace(line, 0, |line|) ==> AllSpace(text, 0, |text|) by {
      if AllSpace(line, 0, |line|) {
        forall k | 0 <= k < |text|
          ensures IsSpace(text[k])
        {
          assert text[k] == line[indent + 2 + k];
        }
      }
    }
    var n := IndentOf(line);
    assert n < |line| ==> line[n] != ' ';
    assert n >= indent + 2;
  }

  /** Whatever the encoder wrote, the rendered lines are one item. */
  lemma RenderedIsItem(encoded: seq<string>, indent: nat)
    requires TrimTrailing(encoded) != []
    ensures IsItem(Item(TrimTrailing(encoded), indent), indent)
  {
    hide TrimSpace, IndentOf, TrimTrailing, Spaces;
    var body := TrimTrailing(encoded);
    var block := Item(body, indent);
    DashLine(indent, body[0]);
    BlankNothing();
    forall k | 1 <= k < |block|
      ensures (Blank(block[k]) <==> Blank(body[k])) && (!Blank(block[k]) ==> IndentOf(block[k]) > indent)
    {
      InnerLine(indent, body[k]);
    }
  }

  /** Nothing of the item is lost: without the dash and the indent its lines are the encoder's, all
      of them beginning in one column. */
  lemma RenderedReads(body: seq<string>, indent: nat, i: nat)
    requires i < |body|
    ensures var line := Item(body, indent)[i];
            && |Item(body, indent)| == |body|
            && (if i > 0 && body[i] == "" then line == ""
                else && |line| == indent + 2 + |body[i]| && line[indent + 2..] == body[i]
                     && line[indent + 1] == ' ' && line[indent] == (if i == 0 then '-' else ' ')
                     && forall k | 0 <= k < indent :: line[k] == ' ')
  {
    var mark := if i == 0 then "- " else "  ";
    assert (Spaces(indent) + mark + body[i])[indent + 2..] == body[i];
  }

  /** A dash, spaces, and the item's first key on the same line. */
  predicate DashLineOf(line: string, dash: nat, gap: nat) {
    && IndentOf(line) == dash < |line| && line[dash] == '-'
    && IndentOf(line[dash + 1..]) == gap && 0 < gap < |line| - dash - 1
  }

  /** The column, from 1, where that key begins; a YAML parser reports it as the item's. */
  function ItemColumn(dash: nat, gap: nat): nat { dash + 1 + gap + 1 }

  /** The spaces put before the dash of a rendered item: taken from the first item of the list, or,
      when there is none, the indent of the file. */
  function ItemIndent(column: Option<nat>, indent: nat): nat {
    match column
    case Some(col) => if col >= 3 then col - 3 else 0
    case None => indent
  }

  lemma DashIs(block: seq<string>, x: nat, y: nat)
    requires IsItem(block, x) && IsItem(block, y)
    ensures x == y
  {
  }

  /** Rendered lines are one item at the indent of the list's dashes exactly when one space follows
      the dash of its first item. */
  lemma RenderedLinesUp(encoded: seq<string>, first: string, dash: nat, gap: nat, indent: nat)
    requires TrimTrailing(encoded) != [] && DashLineOf(first, dash, gap)
    ensures IsItem(Item(TrimTrailing(encoded), ItemIndent(Some(ItemColumn(dash, gap)), indent)), IndentOf(first)) <==> gap == 1
  {
    hide TrimSpace, TrimTrailing, IsItem, Item, IndentOf;
    var at := ItemIndent(Some(ItemColumn(dash, gap)), indent);
    var block := Item(TrimTrailing(encoded), at);
    RenderedIsItem(encoded, at);
    if IsItem(block, dash) {
      DashIs(block, at, dash);
    }
  }

  lemma BlankNothing()
    ensures Blank("")
  {
  }

  // ---- a note that is taken ---------------------------------------------------------------------

  lemma LineIs(line: string, n: nat)
    requires n < |line| && (forall k | 0 <= k < n :: line[k] == ' ') && !IsSpace(line[n]) && !IsSpace(line[|line| - 1])
    ensures IndentOf(line) == n && TrimSpace(line) == line[n..]
  {
    hide Trim;
    IndentIs(line, n);
    TrimUnique(line, 0, |line|, Range(n, |line|));
    assert line[n..|line|] == line[n..];
  }

  /** Two items with a note of the first between them, right above the second. */
  lemma NoteIsTaken(lines: seq<string>)
    requires |lines| == 4 && IndentOf(lines[1]) == IndentOf(lines[3]) == 0 < IndentOf(lines[2])
    requires !Blank(lines[1]) && !IsComment(lines[1]) && !Blank(lines[3]) && IsComment(lines[2])
    ensures ItemStarts(lines, [2, 4], 0) && SpanEnd(lines, 2) == HeadStart(lines, 4) == 3
    ensures Removed(lines, 4) == lines[..2]
  {
    hide TrimSpace, IndentOf, Removed;
    assert SpanFrom(lines, 0, 2, 2) == SpanFrom(lines, 0, 3, 3) == 3;
    assert HeadStart(lines, 4) == HeadStart(lines, 3) == 3;
    RemoveIsSurgical(lines, 4);
    assert SpanEnd(lines, 4) == SpanFrom(lines, 0, 4, 4) == 4;
    assert lines[..2] + lines[4..] == lines[..2];
  }

  /** Remove does reach up: an indented note of the item above goes with the item below it. */
  lemma RemoveTakesNote()
    ensures var lines := ["connections:", "- name: a", "  # note", "- name: b"];
            && ItemStarts(lines, [2, 4], 0) && SpanEnd(lines, 2) == HeadStart(lines, 4) == 3
            && Removed(lines, 4) == ["connections:", "- name: a"]
  {
    hide TrimSpace, IndentOf, Removed, ItemStarts, SpanEnd, HeadStart;
    var a, note, b := "- name: a", "  # note", "- name: b";
    LineIs(a, 0);
    LineIs(note, 2);
    LineIs(b, 0);
    assert a[0..][0] == '-' && note[2..][0] == '#' && b[0..][0] == '-';
    NoteIsTaken(["connections:", a, note, b]);
    assert ["connections:", a, note, b][..2] == ["connections:", a];
  }

  // ---- other items ------------------------------------------------------------------------------

  /** Where line k ends up when lines start..end are replaced by `n` lines. */
  function Moved(k: nat, start: nat, end: nat, n: nat): int { if k < start then k else k - (end - start + 1) + n }

  /** An item's end, and the line that stops it. */
  ghost predicate StopsAt(lines: seq<string>, start: nat, end: nat, stop: nat)
    requires OnLine(lines, start)
  {
    var dash := IndentOf(lines[start - 1]);
    && start <= end <= |lines|
    && (forall k | start <= k < end :: Blank(lines[k]) || Deeper(lines[k], dash))
    && (end > start ==> Deeper(lines[end - 1], dash))
    && EndsAt(lines, end, dash, stop)
  }

  lemma SpanStop(lines: seq<string>, start: nat) returns (stop: nat)
    requires OnLine(lines, start)
    ensures StopsAt(lines, start, SpanEnd(lines, start), stop)
  {
    hide TrimSpace, IndentOf, SpanEnd;
    SpanIs(lines, start);
    var end, dash := SpanEnd(lines, start), IndentOf(lines[start - 1]);
    stop :| EndsAt(lines, end, dash, stop);
  }

  lemma StopSpan(lines: seq<string>, start: nat, end: nat, stop: nat)
    requires OnLine(lines, start) && StopsAt(lines, start, end, stop)
    ensures SpanEnd(lines, start) == end
  {
    hide TrimSpace, IndentOf, SpanEnd;
    SpanIs(lines, start);
    assert IsSpan(lines, start, end);
    SpanUnique(lines, start, end, SpanEnd(lines, start));
  }

  /** The item on `start` replaced by an item of the same indent: the new one's span is its block,
      and every other item keeps its lines and its span, moved by the difference in length. */
  lemma UpdateKeepsItems(lines: seq<string>, starts: seq<nat>, dash: nat, i: nat, block: seq<string>, j: nat)
    requires ItemStarts(lines, starts, dash) && i < |starts| && j < |starts| && IsItem(block, dash)
    ensures var s, e := starts[i], SpanEnd(lines, starts[i]);
            var after := Updated(lines, s, block);
            && s <= e <= |lines| && after == lines[..s - 1] + block + lines[e..]
            && OnLine(after, s) && SpanEnd(after, s) == s + |block| - 1
            && (j != i ==> KeepsItem(lines, after, starts[j], Moved(starts[j], s, e, |block|)))
  {
    hide TrimSpace, IndentOf, SpanEnd, KeepsItem, StopsAt, IsItem;
    var s, e := starts[i], SpanEnd(lines, starts[i]);
    var stop := SpanStop(lines, s);
    assert s <= e <= |lines| by { SpanIs(lines, s); }
    var after := lines[..s - 1] + block + lines[e..];
    assert Updated(lines, s, block) == after;
    BlockSpan(lines, s, e, block, dash, after, stop);
    if j < i {
      SpansDisjoint(lines, starts, dash, j, i);
      SpanAbove(lines, starts[j], s, e, block, dash, after);
    } else if i < j {
      SpansDisjoint(lines, starts, dash, i, j);
      SpanBelow(lines, starts[j], s, e, block, dash, after);
    }
  }

  /** The item that started on line t starts on line t', with the same lines in its span. */
  predicate KeepsItem(lines: seq<string>, after: seq<string>, t: nat, t': int)
    requires OnLine(lines, t)
  {
    && 1 <= t' <= |after| && t <= SpanEnd(lines, t) <= |lines|
    && t' <= SpanEnd(after, t') <= |after|
    && after[t' - 1..SpanEnd(after, t')] == lines[t - 1..SpanEnd(lines, t)]
  }

  lemma BlockSpan(lines: seq<string>, s: nat, e: nat, block: seq<string>, dash: nat, after: seq<string>, stop: nat)
    requires OnLine(lines, s) && StopsAt(lines, s, e, stop) && IndentOf(lines[s - 1]) == dash && IsItem(block, dash)
    requires after == lines[..s - 1] + block + lines[e..]
    ensures OnLine(after, s) && SpanEnd(after, s) == s + |block| - 1
  {
    hide TrimSpace, IndentOf, SpanEnd;
    var n := |block|;
    var end := s + n - 1;
    assert after[s - 1] == block[0];
    assert forall k | s <= k < end :: after[k] == block[k - s + 1];
    assert forall k | end <= k < |after| :: after[k] == lines[k - end + e];
    assert end > s ==> after[end - 1] == block[n - 1];
    StopSpan(after, s, end, stop - e + end);
  }

  lemma SpanAbove(lines: seq<string>, t: nat, s: nat, e: nat, block: seq<string>, dash: nat, after: seq<string>)
    requires OnLine(lines, t) && OnLine(lines, s) && t < s <= e <= |lines| && SpanEnd(lines, t) < s
    requires IndentOf(lines[t - 1]) == dash == IndentOf(lines[s - 1]) && !Blank(lines[s - 1]) && IsItem(block, dash)
    requires after == lines[..s - 1] + block + lines[e..]
    ensures KeepsItem(lines, after, t, t)
  {
    hide TrimSpace, IndentOf, SpanEnd;
    var u := SpanEnd(lines, t);
    var stop := SpanStop(lines, t);
    assert forall k | 0 <= k < s - 1 :: after[k] == lines[k];
    assert after[s - 1] == block[0];
    assert !Blank(lines[s - 1]);
    StopSpan(after, t, u, stop);
    assert after[t - 1..u] == lines[t - 1..u];
  }

  lemma SpanBelow(lines: seq<string>, t: nat, s: nat, e: nat, block: seq<string>, dash: nat, after: seq<string>)
    requires OnLine(lines, t) && OnLine(lines, s) && s <= e < t
    requires IsItem(block, dash) && after == lines[..s - 1] + block + lines[e..]
    ensures KeepsItem(lines, after, t, Moved(t, s, e, |block|))
  {
    hide KeepsItem, Shifted, IsItem;
    TailShifts(lines, lines[..s - 1] + block, e, after, t - 1);
    ItemMoves(lines, after, t, |block| - (e - s + 1));
  }

  /** From line `at` + 1 on, the lines stand `d` further down in the other file. */
  predicate Shifted(lines: seq<string>, after: seq<string>, at: nat, d: int) {
    0 <= at + d && |after| == |lines| + d && forall k | at <= k < |lines| :: lines[k] == after[k + d]
  }

  lemma TailShifts(lines: seq<string>, front: seq<string>, end: nat, after: seq<string>, at: nat)
    requires end <= at <= |lines| && after == front + lines[end..]
    ensures Shifted(lines, after, at, |front| - end)
  {
    assert forall k | end <= k < |lines| :: lines[k] == lines[end..][k - end] == after[k + |front| - end];
  }

  /** An item moves with its lines. */
  lemma ItemMoves(lines: seq<string>, after: seq<string>, t: nat, d: int)
    requires OnLine(lines, t) && Shifted(lines, after, t - 1, d)
    ensures KeepsItem(lines, after, t, t + d)
  {
    hide TrimSpace, IndentOf, SpanEnd, StopsAt, Shifted;
    var u := SpanEnd(lines, t);
    var stop := SpanStop(lines, t);
    StopsInside(lines, t, u, stop);
    StopsMove(lines, after, t, u, stop, d);
    StopSpan(after, t + d, u + d, stop + d);
    SliceMoves(lines, after, t - 1, u, d);
  }

  lemma SliceMoves(lines: seq<string>, after: seq<string>, at: nat, to: nat, d: int)
    requires Shifted(lines, after, at, d) && at <= to <= |lines|
    ensures after[at + d..to + d] == lines[at..to]
  {
    assert forall k | at <= k < to :: after[at + d..to + d][k - at] == after[k + d] == lines[k];
  }

  lemma StopsInside(lines: seq<string>, t: nat, u: nat, stop: nat)
    requires OnLine(lines, t) && StopsAt(lines, t, u, stop)
    ensures t <= u <= stop <= |lines|
  {
  }

  /** The same lines further up or down. */
  lemma StopsMove(lines: seq<string>, after: seq<string>, t: nat, u: nat, stop: nat, d: int)
    requires OnLine(lines, t) && StopsAt(lines, t, u, stop) && Shifted(lines, after, t - 1, d)
    ensures OnLine(after, t + d) && t <= u && u + d <= stop + d <= |after| && StopsAt(after, t + d, u + d, stop + d)
  {
    hide TrimSpace, IndentOf;
    assert forall k | t + d - 1 <= k < |after| :: after[k] == lines[k - d];
  }

  // ---- removing ----------------------------------------------------------------------------------

  /** Removing one item keeps the lines and the span of every other, unless its comment lines reach
      into the span above. */
  lemma RemoveKeepsItems(lines: seq<string>, starts: seq<nat>, dash: nat, i: nat, j: nat)
    requires ItemStarts(lines, starts, dash) && i < |starts| && j < |starts| && j != i
    requires j < i ==> SpanEnd(lines, starts[j]) < HeadStart(lines, starts[i])
    ensures var gone := |lines| - |Removed(lines, starts[i])|;
            KeepsItem(lines, Removed(lines, starts[i]), starts[j], if j < i then starts[j] else starts[j] - gone)
  {
    hide TrimSpace, IndentOf, SpanEnd, HeadStart, KeepsItem, StopsAt, Removed;
    var s, t := starts[i], starts[j];
    var a := RemovedFrom(lines, s);
    if j < i {
      var stop := SpanStop(lines, s);
      BlankNotInside(lines, t, HeadStart(lines, s));
      CutAbove(lines, t, s, dash, a, SpanEnd(lines, s), stop, Removed(lines, s));
    } else {
      SpansDisjoint(lines, starts, dash, i, j);
      CutBelow(lines, t, a, SpanEnd(lines, s), Removed(lines, s));
    }
  }

  /** The number of lines that stay in front of what is removed. */
  lemma RemovedFrom(lines: seq<string>, s: nat) returns (a: nat)
    requires OnLine(lines, s)
    ensures var head, end := HeadStart(lines, s), SpanEnd(lines, s);
            && a < head <= s <= end <= |lines| && Removed(lines, s) == lines[..a] + lines[end..]
            && (a == head - 1 || (a == head - 2 && Blank(lines[head - 2])))
  {
    hide TrimSpace, SpanEnd, HeadStart, Removed;
    RemoveIsSurgical(lines, s);
    var head, end := HeadStart(lines, s), SpanEnd(lines, s);
    a := if head > 1 && Blank(lines[head - 2]) && (end == |lines| || Blank(lines[end])) then head - 2 else head - 1;
  }

  /** And if they do reach into it, the item above loses them: that is the only way Remove touches it. */
  lemma RemoveKeepsExactly(lines: seq<string>, starts: seq<nat>, dash: nat, i: nat)
    requires ItemStarts(lines, starts, dash) && i + 1 < |starts|
    requires forall k | 0 <= k < |starts| :: !IsComment(lines[starts[k] - 1])
    ensures KeepsItem(lines, Removed(lines, starts[i + 1]), starts[i], starts[i])
            <==> SpanEnd(lines, starts[i]) < HeadStart(lines, starts[i + 1])
  {
    hide TrimSpace, IndentOf, SpanEnd, HeadStart, StopsAt, Removed, KeepsItem;
    var t, s := starts[i], starts[i + 1];
    if SpanEnd(lines, t) < HeadStart(lines, s) {
      RemoveKeepsItems(lines, starts, dash, i + 1, i);
    } else {
      var a := RemovedFrom(lines, s);
      var stop := SpanStop(lines, s);
      RemoveReachesUp(lines, starts, dash, i);
      StartStays(lines, t, HeadStart(lines, s), a);
      CutShort(lines, t, s, dash, a, SpanEnd(lines, s), stop, Removed(lines, s));
      ShorterSpan(lines, Removed(lines, s), t);
    }
  }

  lemma StartStays(lines: seq<string>, t: nat, head: nat, a: nat)
    requires OnLine(lines, t) && !Blank(lines[t - 1]) && t < head <= |lines| + 1
    requires a == head - 1 || (a == head - 2 && Blank(lines[head - 2]))
    ensures t <= a
  {
    hide TrimSpace;
  }

  /** With blanks and then the end of the item below, the item above cannot go on past the cut. */
  lemma CutShort(lines: seq<string>, t: nat, s: nat, dash: nat, a: nat, end: nat, stop: nat, after: seq<string>)
    requires OnLine(lines, t) && OnLine(lines, s) && StopsAt(lines, s, end, stop)
    requires IndentOf(lines[t - 1]) == dash == IndentOf(lines[s - 1])
    requires t <= a <= end <= |lines| && after == lines[..a] + lines[end..]
    ensures OnLine(after, t) && t <= SpanEnd(after, t) <= a
  {
    hide TrimSpace, IndentOf, SpanEnd;
    assert forall k | 0 <= k < a :: after[k] == lines[k];
    assert forall k | a <= k < |after| :: after[k] == lines[k - a + end];
    EndsBefore(after, t, a, stop - end + a);
  }

  lemma EndsBefore(lines: seq<string>, t: nat, a: nat, stop: nat)
    requires OnLine(lines, t) && t <= a <= stop <= |lines| && forall k | a <= k < stop :: Blank(lines[k])
    requires stop < |lines| ==> Ends(lines[stop], IndentOf(lines[t - 1]))
    ensures t <= SpanEnd(lines, t) <= a
  {
    hide TrimSpace, IndentOf, SpanEnd;
    SpanIs(lines, t);
    var e, dash := SpanEnd(lines, t), IndentOf(lines[t - 1]);
    assert e > t ==> Deeper(lines[e - 1], dash);
  }

  lemma ShorterSpan(lines: seq<string>, after: seq<string>, t: nat)
    requires OnLine(lines, t) && OnLine(after, t) && SpanEnd(after, t) < SpanEnd(lines, t)
    ensures !KeepsItem(lines, after, t, t)
  {
    hide SpanEnd;
    if t <= SpanEnd(after, t) <= |after| && SpanEnd(lines, t) <= |lines| {
      assert |after[t - 1..SpanEnd(after, t)]| < |lines[t - 1..SpanEnd(lines, t)]|;
    }
  }

  lemma BlankNotInside(lines: seq<string>, t: nat, head: nat)
    requires OnLine(lines, t) && !Blank(lines[t - 1]) && SpanEnd(lines, t) < head <= |lines| + 1
    ensures 1 < head && (Blank(lines[head - 2]) ==> SpanEnd(lines, t) <= head - 2)
  {
    hide TrimSpace, IndentOf, SpanEnd;
    SpanIs(lines, t);
  }

  lemma CutAbove(lines: seq<string>, t: nat, s: nat, dash: nat, a: nat, end: nat, stop: nat, after: seq<string>)
    requires OnLine(lines, t) && OnLine(lines, s) && StopsAt(lines, s, end, stop)
    requires IndentOf(lines[t - 1]) == dash == IndentOf(lines[s - 1])
    requires SpanEnd(lines, t) <= a < s && end <= |lines| && after == lines[..a] + lines[end..]
    ensures KeepsItem(lines, after, t, t)
  {
    hide TrimSpace, IndentOf, SpanEnd;
    var u := SpanEnd(lines, t);
    var own := SpanStop(lines, t);
    assert forall k | 0 <= k < a :: after[k] == lines[k];
    assert forall k | a <= k < |after| :: after[k] == lines[k - a + end];
    if own < a {
      StopSpan(after, t, u, own);
    } else {
      StopSpan(after, t, u, a + (stop - end));
    }
    assert after[t - 1..u] == lines[t - 1..u];
  }

  lemma CutBelow(lines: seq<string>, t: nat, a: nat, end: nat, after: seq<string>)
    requires OnLine(lines, t) && a <= end < t && after == lines[..a] + lines[end..]
    ensures KeepsItem(lines, after, t, t - (end - a))
  {
    hide KeepsItem, Shifted;
    TailShifts(lines, lines[..a], end, after, t - 1);
    ItemMoves(lines, after, t, a - end);
  }

  // ---- adding --------------------------------------------------------------------------------------

  /** The last item is set off from what is above it by a blank line. */
  predicate BlankSeparated(lines: seq<string>, start: nat)
    requires OnLine(lines, start)
  {
    BlankAt(lines, HeadStart(lines, start) - 1)
  }

  /** That is: right above it, with nothing but comment lines between, is a blank line. */
  lemma SeparatedExactly(lines: seq<string>, start: nat)
    requires OnLine(lines, start)
    ensures BlankSeparated(lines, start)
            <==> exists h: nat :: h < start - 1 && Blank(lines[h]) && forall k | h < k < start - 1 :: IsComment(lines[k])
  {
    hide TrimSpace;
    var head := HeadStart(lines, start);
    if BlankSeparated(lines, start) {
      assert Blank(lines[head - 2]);
    }
    forall h: nat | h < start - 1 && Blank(lines[h]) && forall k | h < k < start - 1 :: IsComment(lines[k])
      ensures BlankSeparated(lines, start)
    {
      BlankIsNoComment(lines[h]);
      assert h < head - 1;
      assert head > 1 ==> !IsComment(lines[head - 2]);
      assert h == head - 2;
    }
  }

  lemma BlankIsNoComment(line: string)
    requires Blank(line)
    ensures !IsComment(line)
  {
  }

  /** Where a new item goes: after the last one, in place of an empty list's key line, or, with no
      such key, at the end. */
  datatype Place = AfterItem(start: nat) | AtKey(line: nat) | AtEnd

  predicate PlaceIn(lines: seq<string>, p: Place) {
    match p
    case AfterItem(start) => OnLine(lines, start)
    case AtKey(line) => OnLine(lines, line)
    case AtEnd => true
  }

  function Added(lines: seq<string>, p: Place, block: seq<string>): seq<string>
    requires PlaceIn(lines, p)
  {
    match p
    case AfterItem(start) =>
      SpanIs(lines, start);
      var end := SpanEnd(lines, start);
      Splice(lines, end + 1, end, if BlankSeparated(lines, start) then [""] + block else block)
    case AtKey(line) => Splice(lines, line, line, ["connections:"] + block)
    case AtEnd => TrimTrailing(lines) + ["connections:"] + block
  }

  lemma AddedAfter(lines: seq<string>, start: nat, block: seq<string>)
    requires OnLine(lines, start)
    ensures var end := SpanEnd(lines, start); var gap := if BlankSeparated(lines, start) then [""] else [];
            start <= end <= |lines| && Added(lines, AfterItem(start), block) == lines[..end] + (gap + block) + lines[end..]
  {
    hide Blank, Deeper, EndsBelow, IndentOf, SpanEnd, BlankSeparated;
    SpanIs(lines, start);
    assert [] + block == block;
  }

  /** Adding after the last item keeps every line in place, keeps every item's span, and makes the
      new block the span of the new item. */
  lemma AddKeepsItems(lines: seq<string>, starts: seq<nat>, dash: nat, block: seq<string>, j: nat)
    requires ItemStarts(lines, starts, dash) && j < |starts| && IsItem(block, dash)
    ensures var last := starts[|starts| - 1]; var end := SpanEnd(lines, last);
            var gap := if BlankSeparated(lines, last) then [""] else [];
            var after := Added(lines, AfterItem(last), block);
            && end <= |lines| && after == lines[..end] + (gap + block) + lines[end..]
            && KeepsItem(lines, after, starts[j], starts[j])
            && OnLine(after, end + |gap| + 1) && SpanEnd(after, end + |gap| + 1) == end + |gap| + |block|
  {
    hide TrimSpace, IndentOf, SpanEnd, BlankSeparated, KeepsItem, StopsAt, IsItem, Added;
    var last := starts[|starts| - 1];
    var end := SpanEnd(lines, last);
    AddedAfter(lines, last, block);
    var stop := SpanStop(lines, last);
    var gap := if BlankSeparated(lines, last) then [""] else [];
    var after := lines[..end] + (gap + block) + lines[end..];
    if j < |starts| - 1 {
      SpansDisjoint(lines, starts, dash, j, |starts| - 1);
    }
    InsertAbove(lines, starts[j], dash, end, gap, block, after);
    NewSpan(lines, last, dash, end, stop, gap, block, after);
  }

  lemma InsertAbove(lines: seq<string>, t: nat, dash: nat, p: nat, gap: seq<string>, block: seq<string>, after: seq<string>)
    requires OnLine(lines, t) && IndentOf(lines[t - 1]) == dash && SpanEnd(lines, t) <= p <= |lines|
    requires (gap == [] || gap == [""]) && IsItem(block, dash) && after == lines[..p] + (gap + block) + lines[p..]
    ensures KeepsItem(lines, after, t, t)
  {
    hide TrimSpace, IndentOf, SpanEnd;
    var u := SpanEnd(lines, t);
    var own := SpanStop(lines, t);
    BlankNothing();
    assert forall k | 0 <= k < p :: after[k] == lines[k];
    assert after[p + |gap|] == block[0] && (gap != [] ==> after[p] == "");
    StopSpan(after, t, u, if own < p then own else p + |gap|);
    assert after[t - 1..u] == lines[t - 1..u];
  }

  lemma NewSpan(lines: seq<string>, last: nat, dash: nat, end: nat, stop: nat, gap: seq<string>, block: seq<string>, after: seq<string>)
    requires OnLine(lines, last) && StopsAt(lines, last, end, stop) && IndentOf(lines[last - 1]) == dash
    requires IsItem(block, dash) && end <= |lines| && after == lines[..end] + (gap + block) + lines[end..]
    ensures OnLine(after, end + |gap| + 1) && SpanEnd(after, end + |gap| + 1) == end + |gap| + |block|
  {
    hide TrimSpace, IndentOf, SpanEnd;
    var s := end + |gap| + 1;
    var e := end + |gap| + |block|;
    assert forall k | 0 <= k < |block| :: after[s - 1 + k] == block[k];
    assert after[s - 1] == block[0] && after[e - 1] == block[|block| - 1];
    assert forall k | s <= k < e :: after[k] == block[k - s + 1];
    assert forall k | e <= k < |after| :: after[k] == lines[k - e + end];
    StopSpan(after, s, e, stop - end + e);
  }

  /** The new list stands on line `at`: its key, and the block right below it. */
  predicate ListAt(lines: seq<string>, at: nat, block: seq<string>) {
    && 1 <= at && at + |block| <= |lines|
    && lines[at - 1] == "connections:"
    && forall k | 0 <= k < |block| :: lines[at + k] == block[k]
  }

  /** Adding to a file without the key keeps every line up to its last one that is not blank, line
      `n`; the key comes next, and the rest is the block, which is the span of the one item. */
  lemma AddAtEnd(lines: seq<string>, n: nat, dash: nat, block: seq<string>)
    requires n <= |lines| && (n > 0 ==> !Blank(lines[n - 1])) && forall k | n <= k < |lines| :: Blank(lines[k])
    requires IsItem(block, dash)
    ensures var after := Added(lines, AtEnd, block);
            && |after| == n + 1 + |block|
            && (forall k | 0 <= k < n :: after[k] == lines[k])
            && ListAt(after, n + 1, block)
            && SpanEnd(after, n + 2) == |after|
  {
    hide TrimSpace, IndentOf, SpanEnd, IsItem;
    var after := Added(lines, AtEnd, block);
    LastLine(lines, n);
    assert after == lines[..n] + ["connections:"] + block;
    assert forall k | 0 <= k < |block| :: after[n + 1 + k] == block[k];
    BlockAtEnd(after, n + 1, dash, block);
  }

  lemma LastLine(lines: seq<string>, n: nat)
    requires n <= |lines| && (n > 0 ==> !Blank(lines[n - 1])) && forall k | n <= k < |lines| :: Blank(lines[k])
    ensures TrimTrailing(lines) == lines[..n]
  {
    hide Blank;
    assert |TrimTrailing(lines)| == n;
  }

  lemma BlockAtEnd(lines: seq<string>, at: nat, dash: nat, block: seq<string>)
    requires |lines| == at + |block| && IsItem(block, dash) && forall k | 0 <= k < |block| :: lines[at + k] == block[k]
    ensures SpanEnd(lines, at + 1) == |lines|
  {
    hide TrimSpace, IndentOf, SpanEnd;
    assert lines[at] == block[0];
    assert forall k | at + 1 <= k < |lines| :: lines[k] == block[k - at];
    StopSpan(lines, at + 1, |lines|, |lines|);
  }

  /** Adding to an empty list keeps every line but the key's, in order; the key stands where it was,
      with the block right below it. The block is the span of the new item exactly when what follows
      the key does not go on, deeper than the dash. */
  lemma AddAtKey(lines: seq<string>, line: nat, dash: nat, block: seq<string>)
    requires OnLine(lines, line) && IsItem(block, dash)
    ensures var after := Added(lines, AtKey(line), block);
            && |after| == |lines| + |block|
            && (forall k | 0 <= k < line - 1 :: after[k] == lines[k])
            && (forall k | line <= k < |lines| :: after[k + |block|] == lines[k])
            && ListAt(after, line, block)
            && (SpanEnd(after, line + 1) == line + |block| <==> EndsBelow(lines, line, dash))
  {
    hide TrimSpace, IndentOf, SpanEnd, IsItem, EndsBelow;
    assert block != [] by { BlockIsLines(block, dash); }
    var after := Added(lines, AtKey(line), block);
    assert after == lines[..line - 1] + (["connections:"] + block) + lines[line..];
    var end := line + |block|;
    assert forall k | 0 <= k < |block| :: after[line + k] == block[k];
    assert forall k | line <= k < |lines| :: after[k + |block|] == lines[k];
    KeySpan(lines, line, dash, block, after);
  }

  lemma BlockIsLines(block: seq<string>, dash: nat)
    requires IsItem(block, dash)
    ensures block != []
  {
  }

  lemma KeySpan(lines: seq<string>, line: nat, dash: nat, block: seq<string>, after: seq<string>)
    requires OnLine(lines, line) && IsItem(block, dash) && |after| == |lines| + |block|
    requires forall k | 0 <= k < |block| :: after[line + k] == block[k]
    requires forall k | line <= k < |lines| :: after[k + |block|] == lines[k]
    ensures SpanEnd(after, line + 1) == line + |block| <==> EndsBelow(lines, line, dash)
  {
    hide TrimSpace, IndentOf, SpanEnd;
    var end := line + |block|;
    assert after[line] == block[0];
    assert forall k | line + 1 <= k < end :: after[k] == block[k - line];
    assert forall k | end <= k < |after| :: after[k] == lines[k - |block|];
    if EndsBelow(lines, line, dash) {
      var stop: nat :| EndsAt(lines, line, dash, stop);
      StopSpan(after, line + 1, end, stop + |block|);
    }
    if SpanEnd(after, line + 1) == end {
      var stop := SpanStop(after, line + 1);
      StopsInside(after, line + 1, end, stop);
      StopBelow(lines, after, line, dash, |block|, stop);
    }
  }

  lemma StopBelow(lines: seq<string>, after: seq<string>, line: nat, dash: nat, n: nat, stop: nat)
    requires |after| == |lines| + n && EndsAt(after, line + n, dash, stop)
    requires forall k | line <= k < |lines| :: after[k + n] == lines[k]
    ensures EndsBelow(lines, line, dash)
  {
    hide Ends, Blank;
    assert forall k | line <= k < stop - n :: lines[k] == after[k + n];
    assert EndsAt(lines, line, dash, stop - n);
  }

  // ---- lines and text --------------------------------------------------------------------------------

  function JoinLines(lines: seq<string>): string {
    if TrimTrailing(lines) == [] then "" else Join(TrimTrailing(lines), "\n") + "\n"
  }

  /** ReplaceAll of CR LF by LF. */
  function DropCR(s: string): string {
    if s == "" then ""
    else if |s| >= 2 && s[0] == '\r' && s[1] == '\n' then "\n" + DropCR(s[2..])
    else [s[0]] + DropCR(s[1..])
  }

  /** strings.Split at newlines. */
  function SplitAt(s: string): seq<string>
    decreases |s|
  {
    var k := IndexByte(s, '\n', 0);
    if k == |s| then [s] else [s[..k]] + SplitAt(s[k + 1..])
  }

  function SplitLines(raw: string): seq<string> {
    var s := DropCR(raw);
    var t := if s != "" && s[|s| - 1] == '\n' then s[..|s| - 1] else s;
    if t == "" then [] else SplitAt(t)
  }

  predicate PlainLines(lines: seq<string>) {
    forall i | 0 <= i < |lines| :: '\n' !in lines[i] && '\r' !in lines[i]
  }

  lemma FirstNewline(line: string, rest: string)
    requires '\n' !in line
    ensures IndexByte(line + "\n" + rest, '\n', 0) == |line| && IndexByte(line, '\n', 0) == |line|
  {
    var s := line + "\n" + rest;
    IndexByteFirst(s, '\n', 0);
    IndexByteFirst(line, '\n', 0);
    assert s[|line|] == '\n' && forall k | 0 <= k < |line| :: s[k] == line[k] && line[k] in line;
  }

  lemma {:induction false} SplitJoined(lines: seq<string>)
    requires lines != [] && forall i | 0 <= i < |lines| :: '\n' !in lines[i]
    ensures SplitAt(Join(lines, "\n")) == lines
    decreases |lines|
  {
    hide IndexByte;
    if |lines| == 1 {
      FirstNewline(lines[0], "");
    } else {
      var rest := Join(lines[1..], "\n");
      FirstNewline(lines[0], rest);
      SplitJoined(lines[1..]);
      assert (lines[0] + "\n" + rest)[..|lines[0]|] == lines[0];
      assert (lines[0] + "\n" + rest)[|lines[0]| + 1..] == rest;
    }
  }

  lemma {:induction false} JoinedHasNoCR(lines: seq<string>)
    requires PlainLines(lines)
    ensures '\r' !in Join(lines, "\n")
    decreases |lines|
  {
    if |lines| > 1 {
      JoinedHasNoCR(lines[1..]);
    }
  }

  lemma {:induction false} DropNothing(s: string)
    requires '\r' !in s
    ensures DropCR(s) == s
    decreases |s|
  {
    if s != "" {
      assert s[0] in s && forall c | c in s[1..] :: c in s;
      DropNothing(s[1..]);
    }
  }

  /** Written and read again, lines are the same but for blank ones at the end. */
  lemma LinesRoundTrip(lines: seq<string>)
    requires PlainLines(lines)
    ensures SplitLines(JoinLines(lines)) == TrimTrailing(lines)
  {
    hide TrimSpace, TrimTrailing, DropCR, SplitAt;
    var t := TrimTrailing(lines);
    if t == [] {
      assert DropCR("") == "" by { DropNothing(""); }
    } else {
      assert PlainLines(t);
      JoinedHasNoCR(t);
      DropNothing(Join(t, "\n") + "\n");
      SplitJoined(t);
      assert (Join(t, "\n") + "\n")[..|Join(t, "\n")|] == Join(t, "\n");
      if Join(t, "\n") == "" {
        JoinedEmpty(t);
      }
    }
  }

  lemma JoinedEmpty(t: seq<string>)
    requires t != [] && !Blank(t[|t| - 1])
    ensures Join(t, "\n") != ""
  {
    hide TrimSpace;
    BlankNothing();
    if |t| > 1 {
      assert |Join(t, "\n")| == |t[0]| + 1 + |Join(t[1..], "\n")|;
    }
  }

  lemma {:induction false} JoinSplit(s: string)
    ensures SplitAt(s) != [] && Join(SplitAt(s), "\n") == s
    decreases |s|
  {
    hide IndexByte;
    var k := IndexByte(s, '\n', 0);
    IndexByteFirst(s, '\n', 0);
    if k < |s| {
      JoinSplit(s[k + 1..]);
      assert s == s[..k] + "\n" + s[k + 1..];
      assert ([s[..k]] + SplitAt(s[k + 1..]))[1..] == SplitAt(s[k + 1..]);
    }
  }

  lemma {:induction false} DropsEndings(lines: seq<string>)
    requires lines != [] && forall i | 0 <= i < |lines| :: '\n' !in lines[i]
    ensures DropCR(Join(lines, "\r\n") + "\r\n") == Join(lines, "\n") + "\n"
    decreases |lines|
  {
    hide DropCR, Join;
    if |lines| == 1 {
      JoinOne(lines[0]);
      assert lines == [lines[0]];
      DropsOne(lines[0], "");
      assert lines[0] + "\r\n" + "" == lines[0] + "\r\n" && lines[0] + "\n" + DropCR("") == lines[0] + "\n" by { DropNothing(""); }
    } else {
      var rest := Join(lines[1..], "\r\n") + "\r\n";
      JoinMore(lines, "\r\n");
      JoinMore(lines, "\n");
      DropsOne(lines[0], rest);
      DropsEndings(lines[1..]);
      assert lines[0] + "\r\n" + Join(lines[1..], "\r\n") + "\r\n" == lines[0] + "\r\n" + rest;
      assert lines[0] + "\n" + Join(lines[1..], "\n") + "\n" == lines[0] + "\n" + (Join(lines[1..], "\n") + "\n");
    }
  }

  lemma JoinOne(line: string)
    ensures forall sep :: Join([line], sep) == line
  {
  }

  lemma JoinMore(lines: seq<string>, sep: string)
    requires |lines| > 1
    ensures Join(lines, sep) == lines[0] + sep + Join(lines[1..], sep)
  {
  }

  lemma {:induction false} DropsOne(line: string, rest: string)
    requires '\n' !in line
    ensures DropCR(line + "\r\n" + rest) == line + "\n" + DropCR(rest)
    decreases |line|
  {
    var s := line + "\r\n" + rest;
    if line == "" {
      assert s == "\r\n" + rest && s[2..] == rest;
      assert line + "\n" + DropCR(rest) == "\n" + DropCR(rest);
    } else {
      assert s[1] == if |line| > 1 then line[1] else '\r';
      assert s[1..] == line[1..] + "\r\n" + rest;
      DropsOne(line[1..], rest);
      assert [line[0]] + (line[1..] + "\n" + DropCR(rest)) == line + "\n" + DropCR(rest);
    }
  }

  /** A file with CR LF line ends is read as its lines. */
  lemma CrlfReads(lines: seq<string>)
    requires lines != [] && lines != [""] && forall i | 0 <= i < |lines| :: '\n' !in lines[i]
    ensures SplitLines(Join(lines, "\r\n") + "\r\n") == lines
  {
    hide DropCR, SplitAt, Join;
    DropsEndings(lines);
    SplitJoined(lines);
    var t := Join(lines, "\n");
    assert (t + "\n")[..|t|] == t;
    if t == "" {
      NotOneLine(lines);
    }
  }

  lemma NotOneLine(lines: seq<string>)
    requires lines != [] && lines != [""]
    ensures Join(lines, "\n") != ""
  {
    if |lines| == 1 {
      assert lines == [lines[0]];
    }
  }

  /** A file without CR that ends in one newline after a line that is not blank is written back
      byte for byte. */
  lemma UntouchedFileIsSame(text: string)
    requires '\r' !in text && text != "" && !Blank(SplitAt(text)[|SplitAt(text)| - 1])
    ensures JoinLines(SplitLines(text + "\n")) == text + "\n"
  {
    hide TrimSpace, DropCR, SplitAt;
    DropNothing(text + "\n");
    assert (text + "\n")[..|text|] == text;
    JoinSplit(text);
    assert TrimTrailing(SplitAt(text)) == SplitAt(text);
  }

  // ---- the open file ------------------------------------------------------------------------------------

  class File {
    var lines: seq<string>

    constructor (raw: string)
      ensures lines == SplitLines(raw)
    {
      lines := SplitLines(raw);
    }

    /** First and last line of the item whose node is on line `start`; none when it is outside the file. */
    method ItemSpan(start: nat) returns (span: Option<(nat, nat)>)
      ensures span == if OnLine(lines, start) then Some((start, SpanEnd(lines, start))) else None
    {
      hide TrimSpace, IndentOf;
      if start < 1 || start > |lines| {
        return None;
      }
      var dash := IndentOf(lines[start - 1]);
      var end: nat := start;
      var n: nat := start;
      while n < |lines|
        invariant start <= n <= |lines| && SpanFrom(lines, dash, n, end) == SpanEnd(lines, start)
      {
        if Blank(lines[n]) {
          n := n + 1;
          continue;
        }
        if IndentOf(lines[n]) <= dash {
          break;
        }
        end := n + 1;
        n := n + 1;
      }
      return Some((start, end));
    }

    method FindHead(from: nat) returns (start: nat)
      requires OnLine(lines, from)
      ensures start == HeadStart(lines, from)
    {
      hide TrimSpace;
      start := from;
      while start > 1
        invariant 1 <= start <= from && HeadStart(lines, start) == HeadStart(lines, from)
      {
        if !IsComment(lines[start - 2]) {
          break;
        }
        start := start - 1;
      }
    }

    /** The lines are accepted when they parse and validate, which is `valid`; a rejected edit
        leaves the file as it was. */
    method Commit(edited: seq<string>, valid: bool)
      modifies this
      ensures lines == if valid then edited else old(lines)
    {
      if valid {
        lines := edited;
      }
    }

    method Update(start: nat, block: seq<string>, valid: bool) returns (ok: bool)
      modifies this
      ensures ok == (OnLine(old(lines), start) && valid)
      ensures lines == if ok then Updated(old(lines), start, block) else old(lines)
    {
      hide TrimSpace, IndentOf, SpanEnd;
      var span := ItemSpan(start);
      if span.None? {
        return false;
      }
      Commit(Splice(lines, span.value.0, span.value.1, block), valid);
      return valid;
    }

    method Remove(start: nat, valid: bool) returns (ok: bool)
      modifies this
      ensures ok == (OnLine(old(lines), start) && valid)
      ensures lines == if ok then Removed(old(lines), start) else old(lines)
    {
      hide TrimSpace, IndentOf, SpanEnd;
      var span := ItemSpan(start);
      if span.None? {
        return false;
      }
      var head := FindHead(start);
      Commit(CloseGap(Splice(lines, head, span.value.1, []), head), valid);
      return valid;
    }

    method Add(p: Place, block: seq<string>, valid: bool) returns (ok: bool)
      modifies this
      ensures ok == (PlaceIn(old(lines), p) && valid)
      ensures lines == if ok then Added(old(lines), p, block) else old(lines)
    {
      hide TrimSpace, IndentOf, SpanEnd;
      if !PlaceIn(lines, p) {
        return false;
      }
      var edited;
      match p {
        case AfterItem(start) =>
          var span := ItemSpan(start);
          var head := FindHead(start);
          var put := block;
          if BlankAt(lines, head - 1) {
            put := [""] + put;
          }
          SpanIs(lines, start);
          edited := Splice(lines, span.value.1 + 1, span.value.1, put);
        case AtKey(line) =>
          edited := Splice(lines, line, line, ["connections:"] + block);
        case AtEnd =>
          edited := TrimTrailing(lines) + ["connections:"] + block;
      }
      Commit(edited, valid);
      return valid;
    }
  }
}

/**
 What a reader of a rendered table sees: every cell where its column begins,
 the divider's crossings under the bars, columns no wider than they need be,
 and the count of values that were cut.
 */
module Grid {
  import opened Bytes
  import opened Printing
  import opened Utf8
  import opened Format

  // ---- a line ------------------------------------------------------------------

  /** Blanks between a cell and the bar behind it. */
  function Gap(row: seq<string>, widths: seq<nat>, k: nat): nat
    requires k < |row|
  {
    if k < |widths| && RuneCount(row[k]) < widths[k] then widths[k] - RuneCount(row[k]) else 0
  }

  /** The line is `before`, cell `k`, and `after`. */
  predicate Stands(row: seq<string>, widths: seq<nat>, k: nat, before: string, after: string)
    requires k < |row|
  {
    && Line(row, widths) == before + row[k] + after
    && (k == 0 ==> before == "")
    && (k == |row| - 1 ==> after == "\n")
    && (k < |row| - 1 ==> Spaces(Gap(row, widths, k)) + " | " <= after)
  }

  lemma {:induction false} LineGoesOn(row: seq<string>, widths: seq<nat>, k: nat) returns (rest: string)
    requires 0 < k <= |row|
    ensures Line(row, widths) == LinePrefix(row, widths, k) + rest
    ensures if k == |row| then rest == "\n" else " | " <= rest
    decreases |row| - k
  {
    hide Padded;
    if k == |row| {
      rest := "\n";
    } else {
      var more := LineGoesOn(row, widths, k + 1);
      var cell := Padded(row, widths, k);
      rest := " | " + (cell + more);
      assert LinePrefix(row, widths, k + 1) == LinePrefix(row, widths, k) + " | " + cell;
      assert LinePrefix(row, widths, k) + " | " + cell + more == LinePrefix(row, widths, k) + rest;
      assert rest[..3] == " | ";
    }
  }

  /** Every cell of a row stands in its line, padded on the right up to its column's width and set off
      by a bar; where the cells fit, cell `k` begins in the same character column in every line. */
  lemma CellStands(row: seq<string>, widths: seq<nat>, k: nat)
    requires k < |row|
    ensures exists before, after ::
              Stands(row, widths, k, before, after)
              && (FitsWidths(row, widths) ==> Valid(before) && RuneCount(before) == ColumnStart(widths, k))
  {
    hide RuneCount, Valid, Line, LinePrefix, FitsWidths;
    var rest := LineGoesOn(row, widths, k + 1);
    var before := LinePrefix(row, widths, k) + if k > 0 then " | " else "";
    var pad := if k < |row| - 1 then Spaces(Gap(row, widths, k)) else "";
    CellPadded(row, widths, k);
    PrefixStep(row, widths, k);
    assert before + (row[k] + pad) + rest == before + row[k] + (pad + rest);
    if k < |row| - 1 {
      assert (pad + rest)[..|pad| + 3] == pad + " | ";
    } else {
      assert pad + rest == "\n";
    }
    assert Stands(row, widths, k, before, pad + rest);
    if FitsWidths(row, widths) {
      Begins(row, widths, k, before);
    }
  }

  lemma CellPadded(row: seq<string>, widths: seq<nat>, k: nat)
    requires k < |row|
    ensures Padded(row, widths, k) == row[k] + if k < |row| - 1 then Spaces(Gap(row, widths, k)) else ""
  {
    hide RuneCount;
    assert row[k] + "" == row[k];
    assert Spaces(0) == "";
  }

  lemma PrefixStep(row: seq<string>, widths: seq<nat>, k: nat)
    requires k < |row|
    ensures LinePrefix(row, widths, k + 1)
            == LinePrefix(row, widths, k) + (if k > 0 then " | " else "") + Padded(row, widths, k)
    ensures k == 0 ==> LinePrefix(row, widths, k) == ""
  {
    hide Padded;
  }

  lemma Begins(row: seq<string>, widths: seq<nat>, k: nat, before: string)
    requires k < |row| && FitsWidths(row, widths)
    requires before == LinePrefix(row, widths, k) + if k > 0 then " | " else ""
    ensures Valid(before) && RuneCount(before) == ColumnStart(widths, k)
  {
    hide RuneCount, Valid;
    if k > 0 {
      Aligned(row, widths, k - 1);
    } else {
      CountNothing();
      assert before == "";
    }
  }

  // ---- the divider -----------------------------------------------------------------

  /** Is there a bar in this character column of the lines above and below? */
  ghost predicate BarAt(widths: seq<nat>, p: nat, n: nat)
    requires n <= |widths|
  {
    exists k: nat | 0 < k < n :: p + 2 == ColumnStart(widths, k)
  }

  lemma {:induction false} RuleUpTo(widths: seq<nat>, n: nat)
    requires 0 < n <= |widths|
    ensures |RulePrefix(widths, n)| + 3 == ColumnStart(widths, n)
    ensures forall p: nat | p < |RulePrefix(widths, n)| :: RulePrefix(widths, n)[p] == if BarAt(widths, p, n) then '+' else '-'
    decreases n
  {
    var r, d := RulePrefix(widths, n), Dashes(widths[n - 1]);
    AllDashes(widths[n - 1]);
    if n > 1 {
      var q := RulePrefix(widths, n - 1);
      RuleUpTo(widths, n - 1);
      assert r == q + "-+-" + d;
      assert |q| + 3 == ColumnStart(widths, n - 1);
      forall p: nat | p < |r|
        ensures r[p] == if BarAt(widths, p, n) then '+' else '-'
      {
        BarStep(widths, p, n - 1);
        if p < |q| {
          assert r[p] == q[p];
        } else {
          NoBarBeyond(widths, p, n - 1);
        }
      }
    } else {
      assert ColumnStart(widths, 1) == ColumnStart(widths, 0) + widths[0] + 3;
    }
  }

  lemma {:induction false} AllDashes(n: nat)
    ensures forall k | 0 <= k < n :: Dashes(n)[k] == '-'
  {
    if n > 0 {
      AllDashes(n - 1);
    }
  }

  lemma BarStep(widths: seq<nat>, p: nat, n: nat)
    requires 0 < n < |widths|
    ensures BarAt(widths, p, n + 1) <==> BarAt(widths, p, n) || p + 2 == ColumnStart(widths, n)
  {
    hide ColumnStart;
    if BarAt(widths, p, n + 1) {
      var k: nat :| 0 < k < n + 1 && p + 2 == ColumnStart(widths, k);
      assert k < n ==> BarAt(widths, p, n);
    }
  }

  lemma {:induction false} NoBarBeyond(widths: seq<nat>, p: nat, n: nat)
    requires 0 < n <= |widths| && p + 3 >= ColumnStart(widths, n)
    ensures !BarAt(widths, p, n)
    decreases n
  {
    if n > 1 {
      NoBarBeyond(widths, p, n - 1);
      BarStep(widths, p, n - 1);
    }
  }

  /** The divider is dashes with a crossing exactly under every bar of the header. */
  lemma RuleReads(widths: seq<nat>)
    ensures var n := |Rule(widths)| - 1;
            && n >= 0 && Rule(widths)[n] == '\n'
            && (widths != [] ==> n + 3 == ColumnStart(widths, |widths|))
            && forall p: nat | p < n :: Rule(widths)[p] == if BarAt(widths, p, |widths|) then '+' else '-'
  {
    hide RulePrefix, BarAt, ColumnStart;
    if widths != [] {
      RuleUpTo(widths, |widths|);
    } else {
      assert RulePrefix(widths, 0) == "" by { NoRule(widths); }
    }
  }

  lemma NoRule(widths: seq<nat>)
    ensures RulePrefix(widths, 0) == ""
  {
  }

  // ---- widths and counts ----------------------------------------------------------------

  lemma {:induction false} ColumnTight(cells: seq<seq<string>>, j: nat, w: nat)
    ensures var r := ColumnWidth(cells, j, w);
            r == w || exists i :: 0 <= i < |cells| && j < |cells[i]| && RuneCount(cells[i][j]) == r
    decreases |cells|
  {
    hide RuneCount;
    if cells != [] {
      var n := |cells| - 1;
      ColumnTight(cells[..n], j, w);
      var r := ColumnWidth(cells[..n], j, w);
      if r != w {
        var i :| 0 <= i < n && j < |cells[..n][i]| && RuneCount(cells[..n][i][j]) == r;
        assert cells[i] == cells[..n][i];
      }
      assert cells[n] == cells[|cells| - 1];
    }
  }

  /** No column is wider than its name or its widest cell, and none is narrower. */
  lemma WidthsTight(columns: seq<string>, cells: seq<seq<string>>, j: nat)
    requires j < |columns|
    ensures var w := Widths(columns, cells)[j];
            && w >= RuneCount(columns[j])
            && (forall i | 0 <= i < |cells| && j < |cells[i]| :: RuneCount(cells[i][j]) <= w)
            && (w == RuneCount(columns[j]) || exists i :: 0 <= i < |cells| && j < |cells[i]| && RuneCount(cells[i][j]) == w)
  {
    hide RuneCount, ColumnWidth;
    ColumnTight(cells, j, RuneCount(columns[j]));
  }

  /** The places of the values over the cell cap. */
  function LongIn(row: seq<string>): set<nat> { set j: nat | j < |row| && |row[j]| > MAX_CELL_BYTES }

  function LongPlaces(rows: seq<seq<string>>): set<(nat, nat)> {
    set i: nat, j: nat | i < |rows| && j in LongIn(rows[i]) :: (i, j)
  }

  lemma {:induction false} CutCounts(row: seq<string>)
    ensures CutCount(row) == |LongIn(row)|
    decreases |row|
  {
    if row != [] {
      var n := |row| - 1;
      CutCounts(row[..n]);
      if |row[n]| > MAX_CELL_BYTES {
        assert LongIn(row) == LongIn(row[..n]) + {n};
      } else {
        assert LongIn(row) == LongIn(row[..n]);
      }
    }
  }

  lemma {:induction false} Placed(i: nat, js: set<nat>)
    ensures |set j: nat | j in js :: (i, j)| == |js|
    decreases js
  {
    var all := set j: nat | j in js :: (i, j);
    if js != {} {
      var x :| x in js;
      Placed(i, js - {x});
      assert all == (set j: nat | j in js - {x} :: (i, j)) + {(i, x)};
    } else {
      assert all == {};
    }
  }

  /** The number in the notice of cut values is how many values are over the cell cap. */
  lemma {:induction false} CutTotalCounts(rows: seq<seq<string>>)
    ensures CutTotal(rows) == |LongPlaces(rows)|
    decreases |rows|
  {
    hide CutCount, LongIn;
    if rows == [] {
      assert LongPlaces(rows) == {};
    } else {
      var n := |rows| - 1;
      CutTotalCounts(rows[..n]);
      CutCounts(rows[n]);
      Placed(n, LongIn(rows[n]));
      var last := set j: nat | j in LongIn(rows[n]) :: (n, j);
      assert forall i: nat | i < n :: rows[i] == rows[..n][i];
      assert LongPlaces(rows) == LongPlaces(rows[..n]) + last;
      assert LongPlaces(rows[..n]) !! last;
    }
  }
}

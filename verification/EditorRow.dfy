/**
 Rows of the editor, internal/ui/highlight.go: which statement the cursor is in,
 the colour of every character of a line, and the runs a row is drawn as.
 */
module EditorRow {
  import opened Bytes
  import opened Lexer
  import opened Utf8
  import opened Highlight

  // ---- characters of a line ---------------------------------------------------------

  /** []rune(line): a byte that begins no character stands for one of its own. */
  function Runes(s: string): seq<string>
    decreases |s|
  {
    if s == "" then []
    else var n := Max(1, RuneLen(s)); [s[..n]] + Runes(s[n..])
  }

  /** len(string(r)): a malformed byte has become U+FFFD, which is three bytes long. */
  function Width(r: string): nat { if RuneLen(r) > 0 then RuneLen(r) else 3 }

  /** Where the loop believes rune i begins, and where it does begin. */
  function Offset(runes: seq<string>, i: nat): nat
    requires i <= |runes|
  {
    if i == 0 then 0 else Offset(runes, i - 1) + Width(runes[i - 1])
  }

  function Position(runes: seq<string>, i: nat): nat
    requires i <= |runes|
  {
    if i == 0 then 0 else Position(runes, i - 1) + |runes[i - 1]|
  }

  predicate WellFormed(r: string) { RuneLen(r) == |r| > 0 }

  lemma {:induction false} RunesAre(s: string)
    ensures forall i | 0 <= i < |Runes(s)| :: WellFormed(Runes(s)[i]) || (|Runes(s)[i]| == 1 && RuneLen(Runes(s)[i]) == 0)
    ensures Valid(s) ==> forall i | 0 <= i < |Runes(s)| :: WellFormed(Runes(s)[i])
    decreases |s|
  {
    hide Valid;
    if s != "" {
      var n := Max(1, RuneLen(s));
      ValidStep(s);
      RunesAre(s[n..]);
      FirstRune(s);
    }
  }

  lemma ValidStep(s: string)
    requires s != ""
    ensures Valid(s) <==> RuneLen(s) > 0 && Valid(s[RuneLen(s)..])
  {
  }

  lemma FirstRune(s: string)
    requires s != ""
    ensures var n := Max(1, RuneLen(s)); |s[..n]| == n && RuneLen(s[..n]) == RuneLen(s)
  {
    var n := Max(1, RuneLen(s));
    assert forall k | 0 <= k < n :: s[..n][k] == s[k];
  }

  lemma RunesStep(s: string) returns (n: nat)
    requires Runes(s) != []
    ensures 0 < n <= |s| && Runes(s) == [s[..n]] + Runes(s[n..])
  {
    hide RuneLen;
    n := Max(1, RuneLen(s));
  }

  lemma PositionZero(runes: seq<string>)
    ensures Position(runes, 0) == 0
  {
  }

  lemma SliceFurther(s: string, n: nat, p: nat, r: string)
    requires n <= |s| && p + |r| <= |s| - n && s[n..][p..p + |r|] == r
    ensures s[n + p..n + p + |r|] == r
  {
  }

  /** The runes, put together, are the line, each where Position says. */
  lemma {:induction false} RunesCover(s: string, i: nat)
    requires i < |Runes(s)|
    ensures var p := Position(Runes(s), i);
            p + |Runes(s)[i]| <= |s| && s[p..p + |Runes(s)[i]|] == Runes(s)[i] && Runes(s)[i] != ""
    decreases i
  {
    hide Runes, RuneLen, Position;
    var n := RunesStep(s);
    var rest := Runes(s[n..]);
    if i == 0 {
      PositionZero(Runes(s));
      assert s[0..n] == s[..n];
    } else {
      RunesCover(s[n..], i - 1);
      PositionShift(s[..n], rest, i);
      SliceFurther(s, n, Position(rest, i - 1), rest[i - 1]);
    }
  }

  lemma {:induction false} PositionShift(r: string, rest: seq<string>, i: nat)
    requires 0 < i <= |rest| + 1
    ensures Position([r] + rest, i) == |r| + Position(rest, i - 1)
    decreases i
  {
    if i > 1 {
      PositionShift(r, rest, i - 1);
      assert ([r] + rest)[i - 1] == rest[i - 2];
    } else {
      assert Position([r] + rest, 0) == 0;
    }
  }

  /** The loop's offsets are right exactly when every character before the last is well formed. */
  lemma {:induction false} OffsetsExactly(s: string)
    ensures Agree(Runes(s)) <==> AllButLast(Runes(s))
  {
    hide Runes, RuneLen;
    var runes := Runes(s);
    RunesAre(s);
    if Agree(runes) {
      forall i | 0 <= i < |runes| - 1
        ensures WellFormed(runes[i])
      {
        assert Offset(runes, i) == Position(runes, i) && Offset(runes, i + 1) == Position(runes, i + 1);
      }
    } else {
      assert AllButLast(runes) ==> Agree(runes) by {
        if AllButLast(runes) {
          OffsetsAgree(runes, |runes|);
        }
      }
    }
  }

  predicate Agree(runes: seq<string>) { forall i | 0 <= i < |runes| :: Offset(runes, i) == Position(runes, i) }

  predicate AllButLast(runes: seq<string>) { forall i | 0 <= i < |runes| - 1 :: WellFormed(runes[i]) }

  lemma {:induction false} OffsetsAgree(runes: seq<string>, n: nat)
    requires n <= |runes| && forall i | 0 <= i < n - 1 :: WellFormed(runes[i])
    ensures forall i | 0 <= i < n :: Offset(runes, i) == Position(runes, i)
    decreases n
  {
    hide RuneLen;
    if n > 1 {
      OffsetsAgree(runes, n - 1);
      assert WellFormed(runes[n - 2]);
    }
  }

  // ---- the colour of each character --------------------------------------------------------

  /** The kind of the first run that ends beyond p, when it covers p. */
  function KindAt(spans: seq<Run>, p: nat): SpanKind {
    if spans == [] then Plain
    else if spans[0].end <= p then KindAt(spans[1..], p)
    else if spans[0].start <= p then spans[0].kind
    else Plain
  }

  predicate Ordered(spans: seq<Run>) { forall i, j | 0 <= i < j < |spans| :: spans[i].end <= spans[j].end }

  lemma {:induction false} TilesOrdered(spans: seq<Run>, from: nat, to: nat)
    requires Tiles(spans, from, to)
    ensures Ordered(spans)
    decreases |spans|
  {
    TilesBounds(spans, from, to);
    if spans != [] {
      var n := |spans| - 1;
      TilesOrdered(spans[..n], from, spans[n].start);
      assert forall k | 0 <= k < n :: spans[k] == spans[..n][k];
    }
  }

  /** Passing over runs that end before p does not change the kind at p. */
  lemma {:induction false} KindFrom(spans: seq<Run>, si: nat, p: nat)
    requires si <= |spans| && forall k | 0 <= k < si :: spans[k].end <= p
    ensures KindAt(spans, p) == KindAt(spans[si..], p)
    decreases si
  {
    if si == 0 {
      assert spans[0..] == spans;
    } else {
      assert spans[1..][si - 1..] == spans[si..];
      assert forall k | 0 <= k < si - 1 :: spans[1..][k] == spans[k + 1];
      KindFrom(spans[1..], si - 1, p);
    }
  }

  lemma KindHead(spans: seq<Run>, si: nat, p: nat)
    requires si <= |spans| && (si < |spans| ==> spans[si].end > p)
    ensures KindAt(spans[si..], p) == if si < |spans| && spans[si].start <= p then spans[si].kind else Plain
  {
    assert si < |spans| ==> spans[si..][0] == spans[si];
  }

  /** In a tiling the kind found for a byte is the one it is painted with. */
  lemma {:induction false} KindIsPainted(spans: seq<Run>, from: nat, to: nat, p: nat)
    requires Tiles(spans, from, to) && from <= p < to
    ensures Paints(spans, p, KindAt(spans, p))
    decreases |spans|
  {
    var k := Covering(spans, from, to, p);
    TilesOrdered(spans, from, to);
    forall j | 0 <= j < k
      ensures spans[j].end <= p
    {
      BeforeRun(spans, from, to, j, k);
    }
    KindFrom(spans, k, p);
    assert spans[k..][0] == spans[k];
  }

  lemma {:induction false} Covering(spans: seq<Run>, from: nat, to: nat, p: nat) returns (k: nat)
    requires Tiles(spans, from, to) && from <= p < to
    ensures k < |spans| && spans[k].start <= p < spans[k].end
    decreases |spans|
  {
    var n := |spans| - 1;
    if spans[n].start <= p {
      k := n;
    } else {
      k := Covering(spans[..n], from, spans[n].start, p);
    }
  }

  lemma {:induction false} BeforeRun(spans: seq<Run>, from: nat, to: nat, j: nat, k: nat)
    requires Tiles(spans, from, to) && j < k < |spans|
    ensures spans[j].end <= spans[k].start
    decreases |spans|
  {
    var n := |spans| - 1;
    TilesBounds(spans, from, to);
    if k < n {
      assert spans[..n][j] == spans[j] && spans[..n][k] == spans[k];
      BeforeRun(spans[..n], from, spans[n].start, j, k);
    }
  }

  /** rowKinds. */
  method RowKinds(line: string, lineStart: nat, spans: seq<Run>) returns (kinds: seq<SpanKind>)
    requires Ordered(spans)
    ensures |kinds| == |Runes(line)|
    ensures forall i | 0 <= i < |kinds| :: kinds[i] == KindAt(spans, lineStart + Offset(Runes(line), i))
  {
    hide Runes, Width, KindAt;
    var runes := Runes(line);
    kinds := [];
    var offset, si := lineStart, 0;
    for i := 0 to |runes|
      invariant |kinds| == i && offset == lineStart + Offset(runes, i) && 0 <= si <= |spans|
      invariant forall k | 0 <= k < si :: spans[k].end <= offset
      invariant forall j | 0 <= j < i :: kinds[j] == KindAt(spans, lineStart + Offset(runes, j))
    {
      while si < |spans| && spans[si].end <= offset
        invariant 0 <= si <= |spans| && forall k | 0 <= k < si :: spans[k].end <= offset
      {
        si := si + 1;
      }
      KindFrom(spans, si, offset);
      KindHead(spans, si, offset);
      var kind := Plain;
      if si < |spans| && spans[si].start <= offset {
        kind := spans[si].kind;
      }
      kinds := kinds + [kind];
      offset := offset + Width(runes[i]);
    }
  }

  /** In a line of well-formed characters each has the colour its first byte is painted with. */
  lemma RowIsPainted(line: string, lineStart: nat, spans: seq<Run>, from: nat, to: nat, i: nat)
    requires Valid(line) && Tiles(spans, from, to) && from <= lineStart && lineStart + |line| <= to
    requires i < |Runes(line)|
    ensures var p := lineStart + Position(Runes(line), i);
            p < lineStart + |line| && Paints(spans, p, KindAt(spans, lineStart + Offset(Runes(line), i)))
  {
    hide Runes, Valid, Tiles, KindAt, Paints, Offset, Position;
    RunesAre(line);
    OffsetsExactly(line);
    RunesCover(line, i);
    KindIsPainted(spans, from, to, lineStart + Position(Runes(line), i));
  }

  // ---- runs of a row ----------------------------------------------------------------------

  datatype Styled = Styled(text: seq<string>, kind: SpanKind, cursor: bool)

  /** One character of a row as it is drawn. */
  datatype Drawn = Drawn(rune: string, kind: SpanKind, cursor: bool)

  function Spread(r: Styled): seq<Drawn> {
    seq(|r.text|, i requires 0 <= i < |r.text| => Drawn(r.text[i], r.kind, r.cursor))
  }

  function Flat(runs: seq<Styled>): seq<Drawn> {
    if runs == [] then [] else Flat(runs[..|runs| - 1]) + Spread(runs[|runs| - 1])
  }

  function Row(runes: seq<string>, kinds: seq<SpanKind>, cursor: int, n: nat): seq<Drawn>
    requires |kinds| == |runes| && n <= |runes|
  {
    seq(n, i requires 0 <= i < n => Drawn(runes[i], kinds[i], i == cursor))
  }

  /** No two neighbouring runs could be one: they differ in kind, or one is the cursor. */
  predicate Maximal(runs: seq<Styled>) {
    forall k | 0 < k < |runs| :: runs[k - 1].cursor || runs[k].cursor || runs[k - 1].kind != runs[k].kind
  }

  /** A run is not empty, and the cursor's is one character. */
  predicate Solid(r: Styled) { if r.cursor then |r.text| == 1 else |r.text| > 0 }

  /** The runs draw every character once, in order, in its kind, the cursor's on its own. */
  method GroupRuns(runes: seq<string>, kinds: seq<SpanKind>, cursor: int) returns (out: seq<Styled>)
    requires |kinds| == |runes|
    ensures Flat(out) == Row(runes, kinds, cursor, |runes|)
    ensures Maximal(out)
    ensures forall k | 0 <= k < |out| :: Solid(out[k])
  {
    hide Flat, Solid;
    assert Flat([]) == [] && Row(runes, kinds, cursor, 0) == [] by { FlatNone(runes, kinds, cursor); }
    out := [];
    var i: nat := 0;
    while i < |runes|
      invariant i <= |runes| && Flat(out) == Row(runes, kinds, cursor, i)
      invariant Maximal(out)
      invariant forall k | 0 <= k < |out| :: Solid(out[k])
      invariant out != [] && i < |runes| && i != cursor ==> out[|out| - 1].cursor || out[|out| - 1].kind != kinds[i]
      decreases |runes| - i
    {
      var run;
      var j: nat := i;
      if i == cursor {
        j := i + 1;
        run := Styled([runes[i]], kinds[i], true);
      } else {
        while j < |runes| && kinds[j] == kinds[i] && j != cursor
          invariant i <= j <= |runes| && !(i <= cursor < j)
          invariant forall k | i <= k < j :: kinds[k] == kinds[i]
        {
          j := j + 1;
        }
        run := Styled(runes[i..j], kinds[i], false);
        assert j < |runes| && j != cursor ==> kinds[j] != kinds[i];
      }
      assert |run.text| == j - i > 0;
      SolidRun(run);
      FlatMore(out, run);
      assert Row(runes, kinds, cursor, j) == Row(runes, kinds, cursor, i) + Spread(run);
      out := out + [run];
      i := j;
    }
  }

  lemma SolidRun(r: Styled)
    requires |r.text| > 0 && (r.cursor ==> |r.text| == 1)
    ensures Solid(r)
  {
  }

  lemma FlatNone(runes: seq<string>, kinds: seq<SpanKind>, cursor: int)
    requires |kinds| == |runes|
    ensures Flat([]) == [] == Row(runes, kinds, cursor, 0)
  {
  }

  lemma FlatMore(runs: seq<Styled>, r: Styled)
    ensures Flat(runs + [r]) == Flat(runs) + Spread(r)
  {
    assert (runs + [r])[..|runs|] == runs;
  }

  // ---- the statement at the cursor ------------------------------------------------------------

  predicate IsSemicolon(t: Token) { t.kind == Punct && t.text == ";" }

  /** toks[first..last] is what lies between the semicolons around the cursor: the one before, if
      any, ends at or before it, and the one after ends beyond it. */
  predicate Around(toks: seq<Token>, cursor: int, first: int, last: int) {
    && 0 <= first <= last <= |toks|
    && (forall k | first <= k < last :: !IsSemicolon(toks[k]))
    && (first > 0 ==> IsSemicolon(toks[first - 1]) && toks[first - 1].end <= cursor)
    && (last < |toks| ==> IsSemicolon(toks[last]) && toks[last].end > cursor)
  }

  method StatementAt(toks: seq<Token>, cursor: int) returns (stmt: seq<Token>)
    requires TokensInOrder(toks)
    ensures exists first, last :: Around(toks, cursor, first, last) && stmt == toks[first..last]
  {
    var from, to': nat := 0, |toks|;
    for i := 0 to |toks|
      invariant from <= i && to' == |toks|
      invariant forall k | from <= k < i :: !IsSemicolon(toks[k])
      invariant from > 0 ==> IsSemicolon(toks[from - 1]) && toks[from - 1].end <= cursor
    {
      if !IsSemicolon(toks[i]) {
        continue;
      }
      if toks[i].end <= cursor {
        from := i + 1;
        continue;
      }
      to' := i;
      break;
    }
    assert Around(toks, cursor, from, to');
    return toks[from..to'];
  }

  /** Exactly one stretch lies around the cursor, and a token the cursor is in belongs to it. */
  lemma AroundIsOne(toks: seq<Token>, cursor: int, a: int, b: int, first: int, last: int, k: nat)
    requires TokensInOrder(toks) && Around(toks, cursor, a, b) && Around(toks, cursor, first, last) && k < |toks|
    ensures a == first && b == last
    ensures toks[k].start <= cursor < toks[k].end && !IsSemicolon(toks[k]) ==> a <= k < b
  {
    EndsAround(toks, cursor, a, b);
    NotPast(toks, cursor, a, b, first, last);
    NotPast(toks, cursor, first, last, a, b);
  }

  lemma NotPast(toks: seq<Token>, cursor: int, a: int, b: int, first: int, last: int)
    requires TokensInOrder(toks) && Around(toks, cursor, a, b) && Around(toks, cursor, first, last)
    ensures first <= a && b <= last
  {
    EndsAround(toks, cursor, a, b);
    EndsAround(toks, cursor, first, last);
  }

  lemma EndsAround(toks: seq<Token>, cursor: int, a: int, b: int)
    requires TokensInOrder(toks) && Around(toks, cursor, a, b)
    ensures forall k | 0 <= k < a :: toks[k].end <= cursor
    ensures forall k | b <= k < |toks| :: toks[k].end > cursor
  {
  }
}

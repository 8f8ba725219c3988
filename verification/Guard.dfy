/**
 guard of internal/mcp/server.go: every tool's text, and every tool's error,
 passes the redactor, and a text then the byte cap. The cap puts words of its
 own behind a text it cuts, so it matters that a secret cannot come about there.
 */
module Guard {
  import opened Bytes
  import opened Redact
  import Format
  import Utf8

  /** What a text that is cut ends with. */
  const TAIL: string := Format.CUT_MARKER + Format.CAP_NOTICE

  /** What is left of a text that is cut is never longer than this. */
  const ROOM: nat := Format.BUDGET - |Format.CUT_MARKER|

  /** An end of the secret is a beginning of the tail, and the rest of it fits before the tail. */
  predicate HooksTail(u: string, t: string) {
    exists n | 0 < n <= Min(|u|, |t|) && |u| - n <= ROOM :: u[|u| - n..] == t[..n]
  }

  /** The secret is not in the tail, and cannot be hooked on its beginning. */
  ghost predicate ClearOfTail(u: string) { u != "" && !Contains(TAIL, u) && !HooksTail(u, TAIL) }

  lemma HooksAt(u: string, t: string, n: nat)
    requires 0 < n <= Min(|u|, |t|) && |u| - n <= ROOM && u[|u| - n..] == t[..n]
    ensures HooksTail(u, t)
  {
  }

  /** An occurrence in p + t is in p, in t, or hooked on the beginning of t. */
  lemma Across(p: string, t: string, u: string, k: int)
    requires |p| <= ROOM && OccursAt(p + t, u, k)
    ensures OccursAt(p, u, k) || Contains(t, u) || HooksTail(u, t)
  {
    hide Contains, HooksTail;
    var s := p + t;
    if k + |u| <= |p| {
      assert p[k..k + |u|] == s[k..k + |u|];
    } else if |p| <= k {
      assert t[k - |p|..k - |p| + |u|] == s[k..k + |u|];
      Somewhere(t, u, k - |p|);
    } else {
      var n := k + |u| - |p|;
      assert u[|u| - n..] == s[k..k + |u|][|u| - n..];
      assert s[k..k + |u|][|u| - n..] == t[..n];
      HooksAt(u, t, n);
    }
  }

  /** What is left of a text that is cut. */
  function Left(text: string): (p: string)
    requires |text| > Format.BUDGET
    ensures |p| <= ROOM && p <= text
  {
    text[..Format.Kept(text, Format.BUDGET)]
  }

  lemma CapIs(text: string)
    ensures Format.CapOf(text) == if |text| <= Format.BUDGET then text else Left(text) + TAIL
  {
    hide Format.Kept;
    if |text| > Format.BUDGET {
      JoinTail(Left(text), Format.CUT_MARKER, Format.CAP_NOTICE);
    }
  }

  /** Cutting a text that holds no such secret leaves a text that holds none. */
  lemma CapAddsNone(text: string, u: string)
    requires ClearOfTail(u) && !Contains(text, u)
    ensures !Contains(Format.CapOf(text), u)
  {
    hide HooksTail, Format.CapOf, Left;
    CapIs(text);
    if |text| > Format.BUDGET {
      var p := Left(text);
      forall k
        ensures !OccursAt(p + TAIL, u, k)
      {
        if OccursAt(p + TAIL, u, k) {
          Across(p, TAIL, u, k);
          PrefixHolds(text, |p|, u, k);
        }
      }
    }
  }

  lemma PrefixHolds(text: string, n: nat, u: string, k: int)
    requires n <= |text|
    ensures OccursAt(text[..n], u, k) ==> Contains(text, u)
  {
    assert text[..n] == text[0..n];
    OccursWindow(text, 0, n, u, k);
  }

  /** A byte other than the secret's first. */
  function Other(c: char): (d: char)
    ensures d != c && (d == 'x' || d == 'y')
  {
    if c == 'x' then 'y' else 'x'
  }

  /** A secret in the tail is in every response that is cut; some of them did not hold it. */
  lemma TailHoldsSecret(u: string) returns (text: string)
    requires u != "" && Contains(TAIL, u)
    ensures !Contains(text, u) && Contains(Format.CapOf(text), u)
  {
    hide Left, Format.CapOf, Run;
    text := Run(Other(u[0]), Format.BUDGET + 1);
    RunIs(Other(u[0]), Format.BUDGET + 1);
    forall k
      ensures !OccursAt(text, u, k)
    {
      if 0 <= k < |text| {
        Misses(text, u, k, 0);
      }
    }
    CapIs(text);
    EndHolds(Left(text), TAIL, u);
  }

  /** Filler, the head of the secret right at the cut, and some more to make the text too long. */
  function Hooking(h: string): string
    requires 0 < |h| <= ROOM
  {
    Run(Other(h[0]), ROOM - |h|) + h + Run(Other(h[0]), |Format.CUT_MARKER| + 1)
  }

  lemma HookingIsCut(h: string)
    requires 0 < |h| <= ROOM
    ensures |Hooking(h)| == Format.BUDGET + 1 && Left(Hooking(h)) == Run(Other(h[0]), ROOM - |h|) + h
  {
    hide Run;
    var c := Other(h[0]);
    RunIs(c, ROOM - |h|);
    RunIs(c, |Format.CUT_MARKER| + 1);
    assert Hooking(h)[ROOM] == c;
  }

  /** That text does not hold the secret: where the tail's first byte could stand, its own first byte does not. */
  lemma HookingLacks(h: string, n: nat)
    requires 0 < |h| <= ROOM && 0 < n <= |TAIL|
    ensures !Contains(Hooking(h), h + TAIL[..n])
  {
    hide Run;
    var c := Other(h[0]);
    RunIs(c, ROOM - |h|);
    RunIs(c, |Format.CUT_MARKER| + 1);
    var text, u := Hooking(h), h + TAIL[..n];
    forall k
      ensures !OccursAt(text, u, k)
    {
      if 0 <= k < ROOM - |h| {
        Misses(text, u, k, 0);
      } else if 0 <= k && k + |h| < |text| {
        Misses(text, u, k, |h|);
      }
    }
  }

  lemma HookingHolds(h: string, n: nat)
    requires 0 < |h| <= ROOM && 0 < n <= |TAIL|
    ensures Contains(Format.CapOf(Hooking(h)), h + TAIL[..n])
  {
    hide Left, Format.CapOf, Hooking, Contains, Run;
    var f := Run(Other(h[0]), ROOM - |h|);
    HookingIsCut(h);
    CapIs(Hooking(h));
    Joined(f, h, TAIL, n);
    Somewhere(f + h + TAIL, h + TAIL[..n], |f|);
  }

  /** One that ends with a beginning of the tail is put together by some cut. */
  lemma TailCompletesSecret(u: string) returns (text: string)
    requires !Contains(TAIL, u) && HooksTail(u, TAIL)
    ensures !Contains(text, u) && Contains(Format.CapOf(text), u)
  {
    hide Left, Format.CapOf, Hooking, Contains;
    var n :| 0 < n <= Min(|u|, |TAIL|) && |u| - n <= ROOM && u[|u| - n..] == TAIL[..n];
    var h := u[..|u| - n];
    assert u == h + TAIL[..n];
    if h == "" {
      BeginningHolds(TAIL, n, u);
    } else {
      text := Hooking(h);
      HookingLacks(h, n);
      HookingHolds(h, n);
    }
  }

  lemma BeginningHolds(t: string, n: nat, u: string)
    requires n <= |t| && u == t[..n]
    ensures Contains(t, u)
  {
    assert OccursAt(t, u, 0);
  }

  lemma Joined(f: string, h: string, t: string, n: nat)
    requires n <= |t|
    ensures OccursAt(f + h + t, h + t[..n], |f|)
  {
  }

  /** Which secrets the cap never makes up: exactly those clear of the tail. */
  lemma TailExactly(u: string)
    requires u != ""
    ensures ClearOfTail(u) <==> forall text | !Contains(text, u) :: !Contains(Format.CapOf(text), u)
  {
    hide Contains, HooksTail, Format.CapOf;
    if ClearOfTail(u) {
      forall text | !Contains(text, u)
        ensures !Contains(Format.CapOf(text), u)
      {
        CapAddsNone(text, u);
      }
    } else if Contains(TAIL, u) {
      var text := TailHoldsSecret(u);
    } else {
      var text := TailCompletesSecret(u);
    }
  }

  lemma JoinTail(p: string, a: string, b: string)
    ensures p + a + b == p + (a + b)
  {
  }

  lemma EndHolds(p: string, t: string, u: string)
    requires Contains(t, u)
    ensures Contains(p + t, u)
  {
    var k :| OccursAt(t, u, k);
    assert (p + t)[|p| + k..|p| + k + |u|] == t[k..k + |u|];
    assert OccursAt(p + t, u, |p| + k);
  }

  datatype Outcome = Text(text: string) | ToolError(message: string)

  function Said(o: Outcome): string { if o.Text? then o.text else o.message }

  /** The outcome as guard hands it on. */
  function Answered(values: seq<string>, o: Outcome): Outcome
    requires NonEmpty(values)
  {
    match o
    case Text(text) => Text(Format.CapOf(ScrubAll(values, text)))
    case ToolError(message) => ToolError(ScrubAll(values, message))
  }

  /** No answer holds such a secret, whatever else is registered. */
  lemma AnswerHoldsNone(values: seq<string>, o: Outcome, u: string)
    requires NonEmpty(values) && u in values && Clear(u) && ClearOfTail(u)
    ensures !Contains(Said(Answered(values, o)), u)
  {
    hide Contains, ClearOfTail, Clear, ScrubAll, Format.CapOf;
    ScrubRemoves(values, Said(o), u);
    if o.Text? {
      CapAddsNone(ScrubAll(values, o.text), u);
    }
  }

  /** Which registered secrets never leave the server, as text or as error, in any registry:
      exactly those that overlap neither the redactor's marker nor the tail. */
  lemma GuardExactly(u: string)
    requires |u| >= MIN_LEN
    ensures Clear(u) && ClearOfTail(u) <==>
            forall values, o | u in values && ValidRegistry(values) :: !Contains(Said(Answered(values, o)), u)
  {
    hide Contains, ClearOfTail, Clear, ScrubAll, Format.CapOf;
    if !Clear(u) {
      ClearExactly(u);
      var values, s :| u in values && ValidRegistry(values) && Contains(ScrubAll(values, s), u);
      assert Said(Answered(values, ToolError(s))) == ScrubAll(values, s);
    } else if !ClearOfTail(u) {
      TailExactly(u);
      var text :| !Contains(text, u) && Contains(Format.CapOf(text), u);
      NothingToScrub(u, text);
      assert u in [u] && ValidRegistry([u]);
      assert Said(Answered([u], Text(text))) == Format.CapOf(text);
    } else {
      forall values, o | u in values && ValidRegistry(values)
        ensures !Contains(Said(Answered(values, o)), u)
      {
        AnswerHoldsNone(values, o, u);
      }
    }
  }

  lemma NothingToScrub(u: string, text: string)
    requires u != "" && !Contains(text, u)
    ensures NonEmpty([u]) && ScrubAll([u], text) == text
  {
    hide ReplaceAll;
    OneValue(u, text);
    ReplaceStep(text, u);
    IndexFirst(text, u, 0);
  }

  // ---- values cut before they are scrubbed -------------------------------------------

  /** What is left of a cell that is cut is never longer than this. */
  const CELL_ROOM: nat := Format.MAX_CELL_BYTES - |Format.CUT_MARKER|

  /** A cell that holds the secret, and is cut behind its first `n` bytes. */
  ghost predicate Halves(cell: string, u: string, n: nat) {
    |cell| > Format.MAX_CELL_BYTES
    && exists k: nat :: OccursAt(cell, u, k) && Format.Kept(cell, Format.MAX_CELL_BYTES) == k + n
  }

  lemma CutAt(cell: string, u: string, n: nat)
    requires n < |u| && Halves(cell, u, n) && 0 < n
    ensures n <= CELL_ROOM && Utf8.RuneStart(u[n])
  {
    var k: nat :| OccursAt(cell, u, k) && Format.Kept(cell, Format.MAX_CELL_BYTES) == k + n;
    assert cell[k..k + |u|][n] == cell[k + n];
  }

  /** Filler up to the cut, the secret across it, and more than enough behind it. */
  function AcrossCut(u: string, n: nat): string
    requires 0 < n < |u| && n <= CELL_ROOM
  {
    Run(Other(u[0]), CELL_ROOM - n) + u + Run(Other(u[0]), Format.MAX_CELL_BYTES)
  }

  lemma AcrossCutHalves(u: string, n: nat)
    requires 0 < n < |u| && n <= CELL_ROOM && Utf8.RuneStart(u[n])
    ensures var cell, p := AcrossCut(u, n), Run(Other(u[0]), CELL_ROOM - n) + u[..n];
            Halves(cell, u, n) && Format.Cut(cell, Format.MAX_CELL_BYTES) == p + Format.CUT_MARKER
  {
    hide Run;
    var c := Other(u[0]);
    RunIs(c, CELL_ROOM - n);
    RunIs(c, Format.MAX_CELL_BYTES);
    var cell := AcrossCut(u, n);
    assert cell[CELL_ROOM] == u[n];
    assert cell[..CELL_ROOM] == Run(c, CELL_ROOM - n) + u[..n];
    assert OccursAt(cell, u, CELL_ROOM - n) by { assert cell[CELL_ROOM - n..CELL_ROOM - n + |u|] == u; }
  }

  /** What is shown of that cell holds no secret any more, so scrubbing leaves it. */
  lemma HeadIsNotScrubbed(u: string, n: nat)
    requires 0 < n < |u| && n <= CELL_ROOM && ClearOfTail(u)
    ensures !Contains(Run(Other(u[0]), CELL_ROOM - n) + u[..n] + Format.CUT_MARKER, u)
  {
    hide Run, HooksTail, Contains;
    var c := Other(u[0]);
    RunIs(c, CELL_ROOM - n);
    var p := Run(c, CELL_ROOM - n) + u[..n];
    MarkerOfTail(u);
    forall k
      ensures !OccursAt(p + Format.CUT_MARKER, u, k)
    {
      if 0 <= k < CELL_ROOM - n {
        Misses(p, u, k, 0);
      }
      if OccursAt(p + Format.CUT_MARKER, u, k) {
        Across(p, Format.CUT_MARKER, u, k);
      }
    }
    NowhereIn(p + Format.CUT_MARKER, u);
  }

  lemma NowhereIn(s: string, u: string)
    requires forall k :: !OccursAt(s, u, k)
    ensures !Contains(s, u)
  {
  }

  /** The marker is the beginning of the tail. */
  lemma MarkerOfTail(u: string)
    ensures Contains(Format.CUT_MARKER, u) ==> Contains(TAIL, u)
    ensures HooksTail(u, Format.CUT_MARKER) ==> HooksTail(u, TAIL)
  {
    hide Contains, HooksTail;
    if Contains(Format.CUT_MARKER, u) {
      FrontHolds(Format.CUT_MARKER, Format.CAP_NOTICE, u);
    }
    if HooksTail(u, Format.CUT_MARKER) {
      FrontHooks(Format.CUT_MARKER, Format.CAP_NOTICE, u);
    }
  }

  lemma FrontHolds(m: string, q: string, u: string)
    requires Contains(m, u)
    ensures Contains(m + q, u)
  {
    var k :| OccursAt(m, u, k);
    assert (m + q)[k..k + |u|] == m[k..k + |u|];
    assert OccursAt(m + q, u, k);
  }

  lemma FrontHooks(m: string, q: string, u: string)
    requires HooksTail(u, m)
    ensures HooksTail(u, m + q)
  {
    var n :| 0 < n <= Min(|u|, |m|) && |u| - n <= ROOM && u[|u| - n..] == m[..n];
    assert (m + q)[..n] == m[..n];
  }

  /** How much of a secret an answer can hold. A value too long for its cell is cut before it is
      scrubbed, so a beginning of a secret stays in sight when the cut goes through the secret: any
      beginning that fits the cell and ends where a character can begin, and no other. */
  lemma HeadStaysExactly(u: string, n: nat)
    requires 0 < n < |u| && ClearOfTail(u)
    ensures NonEmpty([u])
    ensures (exists cell :: Halves(cell, u, n) && Contains(ScrubAll([u], Format.Cut(cell, Format.MAX_CELL_BYTES)), u[..n]))
            <==> n <= CELL_ROOM && Utf8.RuneStart(u[n])
  {
    hide Contains, Halves, ClearOfTail, AcrossCut, Run, Format.Cut, ReplaceAll;
    if n <= CELL_ROOM && Utf8.RuneStart(u[n]) {
      var cell, f := AcrossCut(u, n), Run(Other(u[0]), CELL_ROOM - n);
      AcrossCutHalves(u, n);
      HeadIsNotScrubbed(u, n);
      NothingToScrub(u, f + u[..n] + Format.CUT_MARKER);
      Middle(f, u[..n], Format.CUT_MARKER);
      assert Halves(cell, u, n) && Contains(ScrubAll([u], Format.Cut(cell, Format.MAX_CELL_BYTES)), u[..n]);
    } else {
      forall cell | Halves(cell, u, n)
        ensures false
      {
        CutAt(cell, u, n);
      }
    }
  }

  lemma Middle(p: string, m: string, q: string)
    ensures Contains(p + m + q, m)
  {
    var s := p + m + q;
    assert s[|p|..|p| + |m|] == m;
    assert OccursAt(s, m, |p|);
  }

  // ---- the handler ---------------------------------------------------------------------

  /** What the client is told: it holds no registered secret that is clear of the redactor's
      marker and of the tail, text or error; and a text is never over the cap. */
  method Answer(red: Redactor, o: Outcome) returns (r: Outcome)
    requires red.Valid()
    ensures NonEmpty(red.values) && r == Answered(red.values, o)
    ensures r.Text? ==> |r.text| <= Format.MAX_BYTES
    ensures forall u | u in red.values && Clear(u) && ClearOfTail(u) :: !Contains(Said(r), u)
  {
    hide Contains, ClearOfTail, Clear, ScrubAll;
    var clean := red.Scrub(Said(o));
    if o.ToolError? {
      r := ToolError(clean);
    } else {
      var text := Format.CapText(clean);
      r := Text(text);
    }
    forall u | u in red.values && Clear(u) && ClearOfTail(u)
      ensures !Contains(Said(r), u)
    {
      AnswerHoldsNone(red.values, o, u);
    }
  }
}

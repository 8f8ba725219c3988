/**
 The paging cursor of internal/db/cursor.go. Every operation holds the cursor's
 mutex from beginning to end, so a concurrent run is a sequence of whole
 operations in some order: `Step` is one of them, `Run` any sequence. The class
 is the cursor itself, each method proved to take that step.
 */
module Cursor {
  import opened Bytes

  type Row = seq<string>

  type Error = string

  const DEFAULT_PAGE_SIZE: int := 200

  /** What one fetch of the source answers. */
  datatype Answer = Answer(rows: seq<Row>, exhausted: bool, err: Option<Error>)

  /** The cursor's fields, with the rows its source has handed over and how often it was released. */
  datatype State = State(
    rowCap: int, loaded: nat, exhausted: bool, closed: bool, err: Option<Error>,
    pulled: seq<Row>, released: nat)

  /** An operation; NextPage carries what the source would answer if it were asked. */
  datatype Event = NextPage(n: int, answer: Answer) | SetCap(rows: int) | Close | Cancel(cause: Error)

  datatype Output = Page(rows: seq<Row>) | Failed(err: Error)

  function Start(rowCap: int): State { State(rowCap, 0, false, false, None, [], 0) }

  predicate Capped(st: State) { st.rowCap > 0 && st.loaded >= st.rowCap }

  predicate Done(st: State) { st.exhausted || st.closed || Capped(st) }

  predicate Truncated(st: State) { !st.exhausted && Capped(st) }

  /** How many rows NextPage(n) asks the source for. */
  function Asked(st: State, n: int): int {
    var m := if n <= 0 then DEFAULT_PAGE_SIZE else n;
    if st.rowCap > 0 && m > st.rowCap - st.loaded then st.rowCap - st.loaded else m
  }

  function Closed(st: State): State {
    if st.closed then st else st.(closed := true, released := st.released + 1)
  }

  function Fetched(st: State, a: Answer): State {
    var st' := st.(loaded := st.loaded + |a.rows|, pulled := st.pulled + a.rows, exhausted := st.exhausted || a.exhausted);
    if a.err.Some? then Closed(st'.(err := a.err)) else st'
  }

  predicate Fetches(st: State, e: Event) { e.NextPage? && st.err.None? && !Done(st) }

  function Step(st: State, e: Event): State {
    match e
    case NextPage(_, a) => if Fetches(st, e) then Fetched(st, a) else st
    case SetCap(rows) => st.(rowCap := rows)
    case Close => Closed(st)
    case Cancel(cause) => Closed(if st.err.None? then st.(err := Some(cause)) else st)
  }

  /** What NextPage gives its caller. */
  function Result(st: State, a: Answer): Output {
    if st.err.Some? then Failed(st.err.value)
    else if Done(st) then Page([])
    else if a.err.Some? then Failed(a.err.value)
    else Page(a.rows)
  }

  // ---- runs ----------------------------------------------------------------------

  function Run(st: State, es: seq<Event>): State
    decreases |es|
  {
    if es == [] then st else Run(Step(st, es[0]), es[1..])
  }

  /** The rows one operation hands out. */
  function Given(st: State, e: Event): seq<Row> {
    if e.NextPage? && Result(st, e.answer).Page? then Result(st, e.answer).rows else []
  }

  /** The pages a run hands out, concatenated. */
  function Delivered(st: State, es: seq<Event>): seq<Row>
    decreases |es|
  {
    if es == [] then [] else Given(st, es[0]) + Delivered(Step(st, es[0]), es[1..])
  }

  /** Every fetch of the run answers the rows of `all` that come next. */
  predicate Honest(all: seq<Row>, st: State, es: seq<Event>)
    decreases |es|
  {
    es == [] ||
    ((Fetches(st, es[0]) ==> st.pulled + es[0].answer.rows <= all) && Honest(all, Step(st, es[0]), es[1..]))
  }

  /** The source pages: it answers at most as many rows as it is asked for. Rows already in memory
      do not come that way. */
  predicate Paged(st: State, es: seq<Event>)
    decreases |es|
  {
    es == [] ||
    ((Fetches(st, es[0]) ==> |es[0].answer.rows| <= Asked(st, es[0].n)) && Paged(Step(st, es[0]), es[1..]))
  }

  predicate NoFetchFails(st: State, es: seq<Event>)
    decreases |es|
  {
    es == [] || ((Fetches(st, es[0]) ==> es[0].answer.err.None?) && NoFetchFails(Step(st, es[0]), es[1..]))
  }

  predicate NoFetch(st: State, es: seq<Event>)
    decreases |es|
  {
    es == [] || (!Fetches(st, es[0]) && NoFetch(Step(st, es[0]), es[1..]))
  }

  /** What every reachable state keeps: the source is released exactly once a cursor is closed
      and not before, an error always closes, and `loaded` counts the rows handed over. */
  predicate Inv(st: State) {
    && st.released == (if st.closed then 1 else 0)
    && (st.err.Some? ==> st.closed)
    && st.loaded == |st.pulled|
  }

  lemma {:induction false} RunKeeps(st: State, es: seq<Event>)
    requires Inv(st)
    ensures Inv(Run(st, es))
    decreases |es|
  {
    if es != [] {
      RunKeeps(Step(st, es[0]), es[1..]);
    }
  }

  /** Run from a new cursor: released once iff closed, and errors only on closed cursors. */
  lemma ReleasedOnce(rowCap: int, es: seq<Event>)
    ensures var st := Run(Start(rowCap), es);
            st.released == (if st.closed then 1 else 0) && (st.err.Some? ==> st.closed)
  {
    RunKeeps(Start(rowCap), es);
  }

  lemma RunAppend(st: State, es: seq<Event>, fs: seq<Event>)
    ensures Run(st, es + fs) == Run(Run(st, es), fs)
    decreases |es|
  {
    if es == [] {
      assert es + fs == fs;
    } else {
      assert (es + fs)[1..] == es[1..] + fs;
      RunAppend(Step(st, es[0]), es[1..], fs);
    }
  }

  // ---- conservation ------------------------------------------------------------------

  /** One operation hands out what it pulls, unless the fetch failed, which ends the fetching. */
  lemma StepPulls(st: State, e: Event)
    ensures var next := Step(st, e);
            if Fetches(st, e) && e.answer.err.Some? then st.pulled <= next.pulled && next.closed && Given(st, e) == []
            else next.pulled == st.pulled + Given(st, e)
  {
    assert st.pulled + [] == st.pulled;
  }

  /** Rows go nowhere but to the caller: all that was pulled was delivered, in order, but for
      rows a failing fetch sent along with its error. */
  lemma {:induction false} PulledIsDelivered(st: State, es: seq<Event>)
    ensures st.pulled + Delivered(st, es) <= Run(st, es).pulled
    ensures NoFetchFails(st, es) ==> Run(st, es).pulled == st.pulled + Delivered(st, es)
    decreases |es|
  {
    hide Step, Given;
    assert st.pulled + [] == st.pulled;
    if es != [] {
      var next, now := Step(st, es[0]), Given(st, es[0]);
      StepPulls(st, es[0]);
      PulledIsDelivered(next, es[1..]);
      assert st.pulled + (now + Delivered(next, es[1..])) == st.pulled + now + Delivered(next, es[1..]);
      Quiet(next, es[1..]);
    }
  }

  lemma {:induction false} PulledFromSource(all: seq<Row>, st: State, es: seq<Event>)
    requires Honest(all, st, es) && st.pulled <= all
    ensures Run(st, es).pulled <= all
    decreases |es|
  {
    if es != [] {
      PulledFromSource(all, Step(st, es[0]), es[1..]);
    }
  }

  /** The pages of a run without failing fetches are exactly the first `loaded` rows of the source. */
  lemma PagesAreFirstRows(all: seq<Row>, rowCap: int, es: seq<Event>)
    requires Honest(all, Start(rowCap), es) && NoFetchFails(Start(rowCap), es)
    ensures var loaded := Run(Start(rowCap), es).loaded;
            loaded <= |all| && Delivered(Start(rowCap), es) == all[..loaded]
  {
    var st := Start(rowCap);
    RunKeeps(st, es);
    PulledIsDelivered(st, es);
    PulledFromSource(all, st, es);
    assert st.pulled + Delivered(st, es) == Delivered(st, es);
  }

  // ---- the cap --------------------------------------------------------------------------

  /** A fetch asks for at least one row, and leaves `loaded` within the cap in force. */
  lemma FetchWithinCap(st: State, e: Event)
    requires Fetches(st, e)
    ensures Asked(st, e.n) >= 1
    ensures |e.answer.rows| <= Asked(st, e.n) && st.rowCap > 0 ==> Step(st, e).loaded <= st.rowCap
  {
  }

  predicate CapKept(es: seq<Event>, limit: int) {
    forall k | 0 <= k < |es| :: es[k].SetCap? ==> 0 < es[k].rows <= limit
  }

  /** What is asked for is the most that keeps both to the page, of 200 rows unless the caller says
      otherwise, and to the cap. */
  lemma AskedIsMost(st: State, n: int, m: int)
    requires st.rowCap > 0 ==> st.loaded < st.rowCap
    ensures (m <= (if n > 0 then n else 200) && (st.rowCap > 0 ==> st.loaded + m <= st.rowCap)) <==> m <= Asked(st, n)
  {
  }

  /** However the cap moves below `limit`, no run loads more than `limit` rows. */
  lemma {:induction false} NeverPastCap(st: State, es: seq<Event>, limit: int)
    requires Paged(st, es) && CapKept(es, limit)
    requires 0 < st.rowCap <= limit && st.loaded <= limit
    ensures Run(st, es).loaded <= limit
    decreases |es|
  {
    if es != [] {
      if Fetches(st, es[0]) {
        FetchWithinCap(st, es[0]);
      }
      NeverPastCap(Step(st, es[0]), es[1..], limit);
    }
  }

  lemma {:induction false} PagedFront(st: State, es: seq<Event>, e: Event)
    requires Paged(st, es + [e])
    ensures Paged(st, es) && (Fetches(Run(st, es), e) ==> |e.answer.rows| <= Asked(Run(st, es), e.n))
    decreases |es|
  {
    if es != [] {
      assert (es + [e])[1..] == es[1..] + [e] && (es + [e])[0] == es[0];
      PagedFront(Step(st, es[0]), es[1..], e);
    }
  }

  lemma RunSnoc(st: State, es: seq<Event>, e: Event)
    ensures Run(st, es + [e]) == Step(Run(st, es), e)
  {
    RunAppend(st, es, [e]);
    assert Run(Run(st, es), [e]) == Run(Step(Run(st, es), e), []);
  }

  /** The only way above the cap: it was set below what was loaded by then, and nothing was loaded since. */
  lemma {:induction false} OverCapOnlyByLowering(rowCap: int, es: seq<Event>)
    requires Paged(Start(rowCap), es)
    requires var st := Run(Start(rowCap), es); 0 < st.rowCap < st.loaded
    ensures var st := Run(Start(rowCap), es);
            exists k :: 0 <= k < |es| && es[k] == SetCap(st.rowCap) && Run(Start(rowCap), es[..k]).loaded == st.loaded
    decreases |es|
  {
    hide Run, Paged, Asked;
    if es == [] {
      assert Run(Start(rowCap), es) == Start(rowCap) by { RunNothing(Start(rowCap)); }
    } else {
      var n := |es| - 1;
      var before, e := es[..n], es[n];
      var st := Run(Start(rowCap), before);
      assert es == before + [e];
      RunSnoc(Start(rowCap), before, e);
      PagedFront(Start(rowCap), before, e);
      if e.SetCap? {
        assert es[n] == SetCap(e.rows) && es[..n] == before;
      } else {
        if Fetches(st, e) {
          FetchWithinCap(st, e);
        }
        OverCapOnlyByLowering(rowCap, before);
        var k :| 0 <= k < n && before[k] == SetCap(st.rowCap) && Run(Start(rowCap), before[..k]).loaded == st.loaded;
        assert es[k] == before[k] && es[..k] == before[..k];
      }
    }
  }

  lemma RunNothing(st: State)
    ensures Run(st, []) == st
  {
  }

  // ---- afterwards nothing --------------------------------------------------------------------

  /** After close, exhaustion or an error nothing is fetched and nothing delivered. */
  lemma {:induction false} Quiet(st: State, es: seq<Event>)
    ensures st.closed || st.exhausted || st.err.Some? ==>
              NoFetch(st, es) && Delivered(st, es) == [] && Run(st, es).pulled == st.pulled
    decreases |es|
  {
    if es != [] {
      Quiet(Step(st, es[0]), es[1..]);
    }
  }

  /** The first error is the one every later NextPage reports. */
  lemma {:induction false} ErrorsStick(st: State, es: seq<Event>)
    requires st.err.Some?
    ensures Run(st, es).err == st.err
    ensures forall a :: Result(Run(st, es), a) == Failed(st.err.value)
    decreases |es|
  {
    if es != [] {
      ErrorsStick(Step(st, es[0]), es[1..]);
    }
  }

  // ---- truncation --------------------------------------------------------------------------

  /** The documentation has Truncated mean that only the cap ended the pages. A capped cursor
      stays Truncated when it is closed, and then no cap brings rows back. */
  lemma ClosedStaysTruncated(st: State)
    requires Truncated(st) && !st.closed
    ensures var closed := Step(st, Close);
            Truncated(closed) && forall rows :: Done(Step(closed, SetCap(rows)))
  {
  }

  /** Nor is it enough that the cursor is open: a result exactly as long as the cap is Truncated too. */
  lemma FullCapLooksTruncated(r: Row)
    ensures var es := [NextPage(1, Answer([r], false, None))]; var st := Run(Start(1), es);
            && Honest([r], Start(1), es) && Paged(Start(1), es) && Reliable([r], Start(1), es)
            && Truncated(st) && !st.closed && !Done(Step(st, SetCap(0)))
            && forall fs | Honest([r], st, fs) :: Delivered(st, fs) == []
  {
    var e := NextPage(1, Answer([r], false, None));
    var es := [e];
    var st := Step(Start(1), e);
    assert es[1..] == [];
    assert Run(Start(1), es) == st == State(1, 1, false, false, None, [r], 0) by { assert [] + [r] == [r]; }
    forall fs | Honest([r], st, fs)
      ensures Delivered(st, fs) == []
    {
      PulledIsDelivered(st, fs);
      PulledFromSource([r], st, fs);
    }
  }

  /** What Truncated promises, exactly: a truncated cursor can still bring rows if and only if it
      is open and the source has more than were loaded. */
  lemma TruncatedHasMore(all: seq<Row>, rowCap: int, es: seq<Event>)
    requires Honest(all, Start(rowCap), es) && Truncated(Run(Start(rowCap), es))
    ensures var st := Run(Start(rowCap), es);
            (exists fs :: Honest(all, st, fs) && Paged(st, fs) && Delivered(st, fs) != [])
            <==> !st.closed && st.loaded < |all|
  {
    var st := Run(Start(rowCap), es);
    RunKeeps(Start(rowCap), es);
    PulledFromSource(all, Start(rowCap), es);
    if !st.closed && st.loaded < |all| {
      OneMore(all, st);
    } else {
      forall fs | Honest(all, st, fs)
        ensures Delivered(st, fs) == []
      {
        PulledFromSource(all, st, fs);
        PulledIsDelivered(st, fs);
        Quiet(st, fs);
      }
    }
  }

  lemma OneMore(all: seq<Row>, st: State)
    requires Inv(st) && st.pulled <= all && !st.closed && !st.exhausted && st.loaded < |all|
    ensures exists fs :: Honest(all, st, fs) && Paged(st, fs) && Delivered(st, fs) != []
  {
    hide Honest, Paged, Delivered, Step, Fetches, Given, Asked;
    var e := NextPage(1, Answer([all[st.loaded]], false, None));
    var next := Step(st, SetCap(0));
    Resumes(all, st, e);
    FirstOf(all, next, e, []);
    FirstOf(all, st, SetCap(0), [e] + []);
    FirstOf(all, Step(next, e), Close, []);
    var fs := [SetCap(0)] + ([e] + []);
    assert Honest(all, st, fs) && Paged(st, fs) && Delivered(st, fs) != [];
  }

  lemma Resumes(all: seq<Row>, st: State, e: Event)
    requires Inv(st) && st.pulled <= all && !st.closed && !st.exhausted && st.loaded < |all|
    requires e == NextPage(1, Answer([all[st.loaded]], false, None))
    ensures var next := Step(st, SetCap(0));
            && !Fetches(st, SetCap(0)) && next.pulled + e.answer.rows <= all
            && |e.answer.rows| <= Asked(next, e.n) && |Given(next, e)| == 1
  {
  }

  /** A run by its first event. */
  lemma FirstOf(all: seq<Row>, st: State, e: Event, rest: seq<Event>)
    ensures Delivered(st, [e] + rest) == Given(st, e) + Delivered(Step(st, e), rest)
    ensures Honest(all, st, [e] + rest)
            <==> (Fetches(st, e) ==> st.pulled + e.answer.rows <= all) && Honest(all, Step(st, e), rest)
    ensures Paged(st, [e] + rest)
            <==> (Fetches(st, e) ==> |e.answer.rows| <= Asked(st, e.n)) && Paged(Step(st, e), rest)
    ensures Honest(all, st, []) && Paged(st, []) && Delivered(st, []) == []
  {
    assert ([e] + rest)[0] == e && ([e] + rest)[1..] == rest;
    hide Given, Step, Fetches;
  }

  // ---- draining, as runs -----------------------------------------------------------------------

  /** A source that says it is exhausted only at the end of `all`. */
  predicate Reliable(all: seq<Row>, st: State, es: seq<Event>)
    decreases |es|
  {
    es == [] ||
    ((Fetches(st, es[0]) && es[0].answer.exhausted ==> st.pulled + es[0].answer.rows == all)
     && Reliable(all, Step(st, es[0]), es[1..]))
  }

  lemma {:induction false} ExhaustedHasAll(all: seq<Row>, st: State, es: seq<Event>)
    requires Honest(all, st, es) && Reliable(all, st, es) && (st.exhausted ==> st.pulled == all)
    ensures Run(st, es).exhausted ==> Run(st, es).pulled == all
    decreases |es|
  {
    if es != [] {
      ExhaustedHasAll(all, Step(st, es[0]), es[1..]);
    }
  }

  /** However a reader sizes its pages and moves the cap, and whatever cap it started with,
      once the source is exhausted it has been given every row. */
  lemma PageSizesDoNotMatter(all: seq<Row>, cap1: int, cap2: int, es: seq<Event>, fs: seq<Event>)
    requires Honest(all, Start(cap1), es) && Reliable(all, Start(cap1), es) && NoFetchFails(Start(cap1), es)
    requires Honest(all, Start(cap2), fs) && Reliable(all, Start(cap2), fs) && NoFetchFails(Start(cap2), fs)
    requires Run(Start(cap1), es).exhausted && Run(Start(cap2), fs).exhausted
    ensures Delivered(Start(cap1), es) == Delivered(Start(cap2), fs) == all
  {
    PagesAreFirstRows(all, cap1, es);
    PagesAreFirstRows(all, cap2, fs);
    ExhaustedHasAll(all, Start(cap1), es);
    ExhaustedHasAll(all, Start(cap2), fs);
    RunKeeps(Start(cap1), es);
    RunKeeps(Start(cap2), fs);
  }

  /** Rows already in memory come as one page, whatever the page size and the cap. */
  predicate BufferedEvents(all: seq<Row>, es: seq<Event>) {
    forall k | 0 <= k < |es| :: es[k].SetCap? || (es[k].NextPage? && es[k].answer == Answer(all, true, None))
  }

  /** Stream's fallback for a driver that cannot page gives the rows Execute returned. */
  lemma {:induction false} BufferedGivesAll(all: seq<Row>, rowCap: int, es: seq<Event>)
    requires BufferedEvents(all, es) && exists k :: 0 <= k < |es| && es[k].NextPage?
    ensures Delivered(Start(rowCap), es) == all
    decreases |es|
  {
    var st := Start(rowCap);
    if es[0].SetCap? {
      assert Step(st, es[0]) == Start(es[0].rows);
      var k :| 0 <= k < |es| && es[k].NextPage?;
      assert es[1..][k - 1].NextPage?;
      BufferedGivesAll(all, es[0].rows, es[1..]);
    } else {
      Quiet(Step(st, es[0]), es[1..]);
      assert all + [] == all;
    }
  }

  // ---- the source --------------------------------------------------------------------------------

  /** What a source may answer when it is asked for `n` rows of `all` and goes from `pos` to `next`:
      any number of the next rows up to `n`, or all of them if they are in memory; none, without
      an error, only at the end, which some sources then always tell. An error may come while rows
      are unread, and is the end all the same. */
  ghost predicate Answers(all: seq<Row>, pos: nat, next: nat, n: int, buffered: bool, tells: bool, a: Answer) {
    && pos <= next <= |all| && a.rows == all[pos..next]
    && (|a.rows| <= n || buffered)
    && (buffered ==> next == |all| && a.exhausted && a.err.None?)
    && (a.err.None? && (a.exhausted || a.rows == []) ==> next == |all|)
    && (a.err.None? && a.rows == [] && tells ==> a.exhausted)
  }

  /** An engine's result: a paging source of any kind, or rows in memory. */
  class Source {
    const all: seq<Row>
    const buffered: bool
    const tells: bool // an empty page always comes with the news that it was the last
    const affectedRows: int // the count, once the engine knows it
    const fault: Option<Error> // what releasing the result reports
    var pos: nat
    var ended: bool
    var released: nat

    ghost predicate Valid()
      reads this
    {
      pos <= |all|
    }

    constructor (all: seq<Row>, buffered: bool, tells: bool, affectedRows: int, fault: Option<Error>)
      ensures Valid() && pos == 0 && !ended && released == 0
      ensures this.all == all && this.buffered == buffered && this.tells == tells
      ensures this.affectedRows == affectedRows && this.fault == fault
    {
      this.all, this.buffered, this.tells := all, buffered, tells;
      this.affectedRows, this.fault := affectedRows, fault;
      pos, ended, released := 0, false, 0;
    }

    method Fetch(n: int) returns (a: Answer)
      requires Valid() && released == 0 && n >= 1
      modifies this`pos, this`ended
      ensures Valid() && Answers(all, old(pos), pos, n, buffered, tells, a)
      ensures ended == (old(ended) || a.exhausted)
    {
      if buffered {
        a := Answer(all[pos..], true, None);
        pos := |all|;
      } else {
        var fails: bool := *;
        var k: nat :| k <= n && k <= |all| - pos && (k == 0 && !fails ==> pos == |all|);
        var rows := all[pos..pos + k];
        pos := pos + k;
        var says: bool := *;
        if fails {
          a := Answer(rows, says, Some("fetch failed"));
        } else {
          a := Answer(rows, pos == |all| && (says || tells), None);
        }
      }
      ended := ended || a.exhausted;
    }

    method Release() returns (err: Option<Error>)
      requires released == 0
      modifies this`released
      ensures released == 1 && err == fault
    {
      released := released + 1;
      err := fault;
    }

    /** The count is settled once the result has ended or is released; before that it may be anything. */
    ghost predicate Settled()
      reads this
    {
      ended || released > 0
    }

    method Count() returns (n: int)
      ensures Settled() ==> n == affectedRows
    {
      n := affectedRows;
      if !ended && released == 0 {
        n := *;
      }
    }
  }

  /** Rows already materialised. */
  class SliceSource {
    var rows: seq<Row>

    constructor (rows: seq<Row>)
      ensures this.rows == rows
    {
      this.rows := rows;
    }

    /** Everything at once, whatever the page size, as a source with its rows in memory answers. */
    method Fetch(n: int) returns (a: Answer)
      modifies this
      ensures a == Answer(old(rows), true, None) && rows == []
      ensures Answers(old(rows), 0, |old(rows)|, n, true, true, a)
    {
      var out := rows;
      rows := [];
      a := Answer(out, true, None);
    }
  }

  // ---- the cursor -----------------------------------------------------------------------------------

  class Cursor {
    const src: Source
    var rowCap: int
    var loaded: nat
    var exhausted: bool
    var closed: bool
    var err: Option<Error>

    ghost function View(): State
      reads this, src
      requires src.Valid()
    {
      State(rowCap, loaded, exhausted, closed, err, src.all[..src.pos], src.released)
    }

    ghost predicate Valid()
      reads this, src
    {
      src.Valid() && Inv(View()) && (exhausted ==> src.ended)
    }

    constructor (rowCap: int, src: Source)
      requires src.Valid() && src.pos == 0 && !src.ended && src.released == 0
      ensures Valid() && this.src == src && View() == Start(rowCap)
    {
      this.src, this.rowCap := src, rowCap;
      loaded, exhausted, closed, err := 0, false, false, None;
    }

    predicate IsDone()
      reads this, src
      requires Valid()
      ensures IsDone() == Done(View())
    {
      exhausted || closed || (rowCap > 0 && loaded >= rowCap)
    }

    predicate IsTruncated()
      reads this, src
      requires Valid()
      ensures IsTruncated() == Truncated(View())
    {
      !exhausted && rowCap > 0 && loaded >= rowCap
    }

    /** The page or error, and the source's answer when it was asked. */
    method NextPage(n: int) returns (out: Output, ghost a: Answer)
      requires Valid()
      modifies this, src
      ensures Valid() && View() == Step(old(View()), Event.NextPage(n, a)) && out == Result(old(View()), a)
      ensures Fetches(old(View()), Event.NextPage(n, a)) ==>
                Answers(src.all, old(src.pos), src.pos, Asked(old(View()), n), src.buffered, src.tells, a)
    {
      a := Answer([], false, None);
      if err.Some? {
        return Failed(err.value), a;
      }
      if IsDone() {
        return Page([]), a;
      }
      var m := n;
      if m <= 0 {
        m := DEFAULT_PAGE_SIZE;
      }
      if rowCap > 0 {
        var room := rowCap - loaded;
        if m > room {
          m := room;
        }
      }
      var answer := src.Fetch(m);
      a := answer;
      assert src.all[..src.pos] == src.all[..old(src.pos)] + answer.rows;
      loaded := loaded + |answer.rows|;
      if answer.exhausted {
        exhausted := true;
      }
      if answer.err.Some? {
        err := answer.err;
        var _ := CloseLocked();
        return Failed(answer.err.value), a;
      }
      return Page(answer.rows), a;
    }

    /** The result is released on the first close, which is the one that reports what that says. */
    method CloseLocked() returns (fault: Option<Error>)
      requires src.Valid() && src.released == (if closed then 1 else 0)
      modifies this`closed, src`released
      ensures src.Valid() && View() == Closed(old(View()))
      ensures fault == if old(closed) then None else src.fault
    {
      if closed {
        return None;
      }
      closed := true;
      fault := src.Release();
    }

    method SetCap(rows: int)
      requires Valid()
      modifies this`rowCap
      ensures Valid() && View() == Step(old(View()), Event.SetCap(rows))
    {
      rowCap := rows;
    }

    method Close() returns (fault: Option<Error>)
      requires Valid()
      modifies this, src
      ensures Valid() && View() == Step(old(View()), Event.Close)
      ensures fault == if old(closed) then None else src.fault
    {
      fault := CloseLocked();
    }

    /** What the watcher of the context runs when the context is cancelled. */
    method Cancel(cause: Error)
      requires Valid()
      modifies this, src
      ensures Valid() && View() == Step(old(View()), Event.Cancel(cause))
    {
      if err.None? {
        err := Some(cause);
      }
      var _ := CloseLocked();
    }

    /** Before the cursor is exhausted or closed the engine may not know the count yet. */
    method Affected() returns (n: int)
      requires Valid()
      ensures exhausted || closed ==> n == src.affectedRows
    {
      n := src.Count();
    }
  }

  /** A source that goes on answering nothing, and never that it has ended, leaves the cursor as it
      was: a reader that only looks at Done, and not at the page, then never stops. */
  predicate EmptyPages(es: seq<Event>) {
    forall k | 0 <= k < |es| :: es[k].NextPage? && es[k].answer == Answer([], false, None)
  }

  lemma {:induction false} EmptyPagesNeverEnd(st: State, es: seq<Event>)
    requires EmptyPages(es)
    ensures Run(st, es) == st && Delivered(st, es) == []
    decreases |es|
  {
    if es != [] {
      assert st.pulled + [] == st.pulled;
      assert forall k | 0 <= k < |es| - 1 :: es[1..][k] == es[k + 1];
      EmptyPagesNeverEnd(st, es[1..]);
    }
  }

  // ---- draining, as the loop -----------------------------------------------------------------------

  datatype ExecResult = ExecResult(rows: seq<Row>, affected: int, err: Option<Error>)

  /** The context may be cancelled between any two operations; `cut` tells that rows were still unread. */
  method Elsewhere(cur: Cursor) returns (ghost cut: bool)
    requires cur.Valid()
    modifies cur, cur.src
    ensures cur.Valid() && cur.src.pos == old(cur.src.pos) && cur.loaded == old(cur.loaded) && cur.rowCap == old(cur.rowCap)
    ensures cur.exhausted == old(cur.exhausted)
    ensures cur.View() == old(cur.View()) || (cur.closed && cur.err.Some?)
    ensures cut <==> cur.closed && !old(cur.closed) && cur.src.pos < |cur.src.all|
  {
    var cancelled: bool := *;
    cut := cancelled && !cur.closed && cur.src.pos < |cur.src.all|;
    if cancelled {
      cur.Cancel("context canceled");
    }
  }

  /** NextPage inside a draining loop, where the context may be cancelled just before it. */
  method Pull(cur: Cursor, n: int) returns (out: Output, ghost cut: bool)
    requires cur.Valid() && !cur.IsDone()
    modifies cur, cur.src
    ensures cur.Valid() && cur.rowCap == old(cur.rowCap)
    ensures cut ==> cur.closed && cur.src.pos == old(cur.src.pos) < |cur.src.all|
    ensures out.Failed? ==> cur.closed && old(cur.src.pos) <= cur.src.pos
    ensures out.Page? ==>
              var src := cur.src;
              && !cut && !cur.closed && old(src.pos) <= src.pos && out.rows == src.all[old(src.pos)..src.pos]
              && (cur.exhausted || out.rows == [] ==> src.pos == |src.all|)
              && (out.rows == [] && (src.tells || src.buffered) ==> cur.exhausted)
  {
    cut := Elsewhere(cur);
    var page, a := cur.NextPage(n);
    out := page;
  }

  /** What ExecuteStream answers. */
  datatype Opened = Opened(cur: Cursor) | OpenFailed(cause: Error)

  /** executeViaCursor, with cancellation possible before every operation. The rows are always
      a beginning of the source's; without an error they are all of them if and only if no
      cancellation closed the cursor while rows were unread. The count is read after the release,
      so it is the settled one; and what the release reports is reported, unless the cursor was
      `gone`, closed by a cancellation, by then. */
  method ExecuteViaCursor(started: Opened) returns (res: ExecResult, ghost cut: bool, ghost gone: bool)
    requires started.Opened? ==> started.cur.Valid() && started.cur.View() == Start(started.cur.rowCap)
    modifies if started.Opened? then {started.cur, started.cur.src} else {}
    ensures started.OpenFailed? ==> res == ExecResult([], -1, Some(started.cause))
    ensures started.Opened? ==>
              && started.cur.Valid() && started.cur.closed && started.cur.src.released == 1
              && res.rows <= started.cur.src.all
              && (res.err.None? ==> (res.rows == started.cur.src.all <==> !cut))
              && (res.err.None? ==> res.affected == started.cur.src.affectedRows)
              && (res.err.Some? ==> res.affected == -1)
              && (res.err.None? ==> gone || started.cur.src.fault.None?)
              && (cut ==> gone)
  {
    hide Asked, Result;
    cut, gone := false, false;
    if started.OpenFailed? {
      return ExecResult([], -1, Some(started.cause)), false, false;
    }
    var cur := started.cur;
    var rows: seq<Row> := [];
    cut := Elsewhere(cur);
    cur.SetCap(0);
    while !cur.IsDone()
      invariant cur.Valid() && cur.rowCap == 0
      invariant rows == cur.src.all[..cur.src.pos]
      invariant cur.exhausted ==> cur.src.pos == |cur.src.all|
      invariant cut <==> cur.closed && cur.src.pos < |cur.src.all|
      decreases |cur.src.all| - cur.src.pos, !cur.exhausted && !cur.closed
    {
      var out, cutNow := Pull(cur, DEFAULT_PAGE_SIZE);
      if out.Failed? {
        var _ := cur.Close();
        return ExecResult(rows, -1, Some(out.err)), cutNow, cutNow;
      }
      if |out.rows| == 0 {
        break;
      }
      rows := rows + out.rows;
      cut := Elsewhere(cur);
    }
    ghost var cutLast := Elsewhere(cur);
    cut := cut || cutLast;
    gone := cur.closed;
    var fault := cur.Close();
    if fault.Some? {
      return ExecResult(rows, -1, fault), cut, gone;
    }
    var affected := cur.Affected();
    return ExecResult(rows, affected, None), cut, gone;
  }

  /** A cancellation between two pages makes the cursor Done without a NextPage to report it, so
      the drain ends as if it had finished: the rows read so far, and no error. */
  lemma CancelledDrainLooksWhole(first: Row, second: Row, cause: Error)
    ensures var all := [first, second];
            var events := [SetCap(0), NextPage(DEFAULT_PAGE_SIZE, Answer([first], false, None)), Cancel(cause)];
            Honest(all, Start(0), events) && Reliable(all, Start(0), events) && NoFetchFails(Start(0), events)
            && Done(Run(Start(0), events)) && Delivered(Start(0), events) == [first]
  {
    var s1 := Step(Start(0), SetCap(0));
    var e2, e3 := NextPage(DEFAULT_PAGE_SIZE, Answer([first], false, None)), Cancel(cause);
    var s2 := Step(s1, e2);
    var events := [SetCap(0), e2, e3];
    var s3 := Step(s2, e3);
    var all := [first, second];
    assert events[1..] == [e2, e3] && [e2, e3][1..] == [e3] && [e3][1..] == [];
    assert Run(s2, [e3]) == Run(s3, []) == s3;
    assert Run(s1, [e2, e3]) == Run(s2, [e3]);
    assert Run(Start(0), events) == Run(s1, [e2, e3]);
    assert Delivered(s2, [e3]) == Given(s2, e3) + Delivered(s3, []) == [];
    assert Delivered(s1, [e2, e3]) == [first] + [];
    assert Delivered(Start(0), events) == [] + [first];
    assert Honest(all, s2, [e3]) && Reliable(all, s2, [e3]) && NoFetchFails(s2, [e3]);
    assert s1.pulled + [first] == [first] <= all;
    assert Honest(all, s1, [e2, e3]) && Reliable(all, s1, [e2, e3]) && NoFetchFails(s1, [e2, e3]);
  }
}

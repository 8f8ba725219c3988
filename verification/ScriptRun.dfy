/**
 The script run of internal/ui/query.go: a goroutine runs the statements and
 sends messages over a channel; the interface folds each message into its
 results. What the engine answers, and when the run is cancelled, is arbitrary.
 */
module ScriptRun {
  import opened Bytes
  import EditDistance
  import Splitter
  import Meta
  import opened Cursor

  datatype Result = Result(statement: string, rows: seq<Row>, affected: int, err: Option<Error>, skipped: bool, truncated: bool)

  datatype End = End(err: Option<Error>, affected: int, truncated: bool)

  datatype Msg =
    | ResultMsg(res: Result)
    | RowsMsg(rows: seq<Row>, end: Option<End>)
    | QuitMsg

  /** What running one statement meets: its stream opening or not, its pages and how they end,
      or the answer of a backslash command. */
  datatype Stream = OpenFailed(cause: Error) | Streamed(pages: seq<seq<Row>>, end: End)

  datatype Oracle = Oracle(stream: Stream, answer: Result)

  // ---- one statement ---------------------------------------------------------------

  function Blank(stmt: string): Result { Result(stmt, [], -1, None, false, false) }

  function Skipped(stmt: string): Result { Blank(stmt).(skipped := true) }

  predicate IsQuit(stmt: string) {
    var o := Meta.ParseText(Splitter.TrimSpace(stmt));
    o.Parsed? && o.command.verb == "q"
  }

  /** A statement quits exactly when it spells `\q`, with or without a + and an argument. */
  lemma QuitExactly(stmt: string)
    ensures IsQuit(stmt) <==> exists plus, arg :: Meta.Spells(Splitter.TrimSpace(stmt), Meta.Command.Command("q", plus, arg))
    ensures forall c | Meta.Spells(Splitter.TrimSpace(stmt), c) :: IsQuit(stmt) <==> c.verb == "q"
  {
    hide Splitter.TrimSpace, Meta.ParseText, Meta.Spells;
    forall c
      ensures Meta.ParseText(Splitter.TrimSpace(stmt)) == Meta.Parsed(c) <==> Meta.Spells(Splitter.TrimSpace(stmt), c)
    {
      Meta.ParseExactly(stmt, c);
    }
    if IsQuit(stmt) {
      var c := Meta.ParseText(Splitter.TrimSpace(stmt)).command;
      assert c == Meta.Command.Command("q", c.plus, c.arg);
    }
  }

  /** `\q` alone quits, whatever space is around it. */
  lemma QuitAlone(before: string, after: string)
    requires AllSpace(before, 0, |before|) && AllSpace(after, 0, |after|)
    ensures IsQuit(before + "\\q" + after)
  {
    hide Splitter.Trim, Meta.ParseText;
    var stmt := before + "\\q" + after;
    var n := |before|;
    assert stmt[n] == '\\' && stmt[n + 1] == 'q';
    Splitter.TrimUnique(stmt, 0, |stmt|, Splitter.Range(n, n + 2));
    Meta.TrimIs(stmt, Splitter.Range(n, n + 2));
    assert stmt[n..n + 2] == "\\q";
    QuitSpelling();
    QuitExactly(stmt);
  }

  lemma QuitSpelling()
    ensures Meta.Spells("\\q", Meta.Command.Command("q", false, ""))
  {
    var c := Meta.Command.Command("q", false, "");
    assert EditDistance.VERBS[|EditDistance.VERBS| - 1] == "q";
    assert "\\q" == Meta.Spelling(c, "" + "") && Meta.SpellsArg("", "", "");
  }

  /** The messages of the pages; empty ones are not sent. */
  function PageMsgs(pages: seq<seq<Row>>): seq<Msg> {
    if pages == [] then []
    else PageMsgs(pages[..|pages| - 1]) + if pages[|pages| - 1] == [] then [] else [RowsMsg(pages[|pages| - 1], None)]
  }

  function StreamMsgs(stmt: string, st: Stream): seq<Msg> {
    match st
    case OpenFailed(cause) => [ResultMsg(Blank(stmt).(err := Some(cause)))]
    case Streamed(pages, end) => [ResultMsg(Blank(stmt))] + PageMsgs(pages) + [RowsMsg([], Some(end))]
  }

  /** Stands for the text of whatever Parse complains of. */
  const PARSE_ERROR: Error := "parse"

  /** What a statement other than \q sends, and the error it ends with. */
  function StatementMsgs(stmt: string, o: Oracle): seq<Msg> {
    match Meta.ParseText(Splitter.TrimSpace(stmt))
    case NotMeta => StreamMsgs(stmt, o.stream)
    case Parsed(_) => [ResultMsg(o.answer.(statement := stmt))]
    case bad => [ResultMsg(Blank(stmt).(err := Some(PARSE_ERROR)))]
  }

  function EndErr(stmt: string, o: Oracle): Option<Error> {
    match Meta.ParseText(Splitter.TrimSpace(stmt))
    case NotMeta => if o.stream.OpenFailed? then Some(o.stream.cause) else o.stream.end.err
    case Parsed(_) => o.answer.err
    case bad => Some(PARSE_ERROR)
  }

  // ---- the producer ------------------------------------------------------------------

  /** The run is cancelled from check `cancelAt` on; statement i is checked before (2i) and after (2i+1). */
  function Messages(stmts: seq<string>, os: seq<Oracle>, cancelAt: nat, i: nat, stopped: bool): seq<Msg>
    requires |os| == |stmts| && i <= |stmts|
    decreases |stmts| - i
  {
    if i == |stmts| then []
    else if stopped || 2 * i >= cancelAt then
      [ResultMsg(Skipped(stmts[i]))] + Messages(stmts, os, cancelAt, i + 1, stopped)
    else if IsQuit(stmts[i]) then [QuitMsg]
    else
      StatementMsgs(stmts[i], os[i])
      + Messages(stmts, os, cancelAt, i + 1, EndErr(stmts[i], os[i]).Some? || 2 * i + 1 >= cancelAt)
  }

  // ---- the fold ------------------------------------------------------------------------

  function FoldOne(results: seq<Result>, m: Msg): seq<Result> {
    match m
    case ResultMsg(res) => results + [res]
    case RowsMsg(rows, end) =>
      if results == [] then results
      else
        var n := |results| - 1;
        var cur := results[n].(rows := results[n].rows + rows);
        results[n := if end.None? then cur
                     else cur.(err := end.value.err, affected := end.value.affected, truncated := end.value.truncated)]
    case QuitMsg => results
  }

  function Fold(results: seq<Result>, ms: seq<Msg>): seq<Result> {
    if ms == [] then results else FoldOne(Fold(results, ms[..|ms| - 1]), ms[|ms| - 1])
  }

  lemma {:induction false} FoldAppend(results: seq<Result>, a: seq<Msg>, b: seq<Msg>)
    ensures Fold(results, a + b) == Fold(Fold(results, a), b)
    decreases |b|
  {
    if b == [] {
      assert a + b == a;
    } else {
      assert (a + b)[..|a + b| - 1] == a + b[..|b| - 1];
      FoldAppend(results, a, b[..|b| - 1]);
    }
  }

  // ---- what a statement ends up as ---------------------------------------------------------

  function Concat(pages: seq<seq<Row>>): seq<Row> {
    if pages == [] then [] else Concat(pages[..|pages| - 1]) + pages[|pages| - 1]
  }

  /** The result a statement that ran is meant to leave: its pages in one piece, and how it ended. */
  function Ran(stmt: string, o: Oracle): Result {
    match Meta.ParseText(Splitter.TrimSpace(stmt))
    case NotMeta =>
      (match o.stream
       case OpenFailed(cause) => Blank(stmt).(err := Some(cause))
       case Streamed(pages, end) => Result(stmt, Concat(pages), end.affected, end.err, false, end.truncated))
    case Parsed(_) => o.answer.(statement := stmt)
    case bad => Blank(stmt).(err := Some(PARSE_ERROR))
  }

  lemma RanErr(stmt: string, o: Oracle)
    ensures Ran(stmt, o).err == EndErr(stmt, o) && Ran(stmt, o).statement == stmt
  {
  }

  lemma {:induction false} PagesFold(results: seq<Result>, r: Result, pages: seq<seq<Row>>)
    ensures Fold(results + [r], PageMsgs(pages)) == results + [r.(rows := r.rows + Concat(pages))]
    decreases |pages|
  {
    hide Fold, FoldOne;
    if pages == [] {
      FoldNothing(results + [r]);
      assert r.rows + [] == r.rows;
    } else {
      var before, page := pages[..|pages| - 1], pages[|pages| - 1];
      PagesFold(results, r, before);
      assert r.rows + Concat(before) + page == r.rows + (Concat(before) + page);
      var seen := r.(rows := r.rows + Concat(before));
      if page == [] {
        assert PageMsgs(before) + [] == PageMsgs(before) && Concat(before) + [] == Concat(before);
      } else {
        FoldAppend(results + [r], PageMsgs(before), [RowsMsg(page, None)]);
        FoldLast(results, seen, RowsMsg(page, None));
      }
    }
  }

  lemma FoldNothing(results: seq<Result>)
    ensures Fold(results, []) == results
  {
  }

  /** One message onto the last result. */
  lemma FoldLast(results: seq<Result>, r: Result, m: Msg)
    ensures Fold(results + [r], [m]) == FoldOne(results + [r], m)
    ensures m.RowsMsg? && m.end.None? ==> FoldOne(results + [r], m) == results + [r.(rows := r.rows + m.rows)]
  {
    assert [m][..0] == [];
  }

  /** A statement's messages fold to its one result. */
  lemma StatementFolds(results: seq<Result>, stmt: string, o: Oracle)
    ensures Fold(results, StatementMsgs(stmt, o)) == results + [Ran(stmt, o)]
  {
    hide Fold, PageMsgs, Concat;
    OneResult(results, Ran(stmt, o));
    if Meta.ParseText(Splitter.TrimSpace(stmt)).NotMeta? && o.stream.Streamed? {
      var pages, end := o.stream.pages, o.stream.end;
      var r := Blank(stmt).(rows := [] + Concat(pages));
      OneResult(results, Blank(stmt));
      FoldAppend(results, [ResultMsg(Blank(stmt))], PageMsgs(pages));
      PagesFold(results, Blank(stmt), pages);
      FoldAppend(results, [ResultMsg(Blank(stmt))] + PageMsgs(pages), [RowsMsg([], Some(end))]);
      FoldLast(results, r, RowsMsg([], Some(end)));
      assert r.rows + [] == Concat(pages);
    }
  }

  lemma OneResult(results: seq<Result>, r: Result)
    ensures Fold(results, [ResultMsg(r)]) == results + [r]
  {
    assert [ResultMsg(r)][..0] == [];
  }

  // ---- whole runs ----------------------------------------------------------------------------

  /** Is statement `i` sent to the engine: no error before it, and no cancellation by then? */
  ghost predicate Live(stmts: seq<string>, os: seq<Oracle>, cancelAt: nat, i: nat)
    requires |os| == |stmts| && i < |stmts|
  {
    2 * i < cancelAt && forall j | 0 <= j < i :: EndErr(stmts[j], os[j]).None?
  }

  /** `k` is the first statement that is not live or is \q. */
  ghost predicate StopsAt(stmts: seq<string>, os: seq<Oracle>, cancelAt: nat, k: nat)
    requires |os| == |stmts|
  {
    && k <= |stmts|
    && (forall i | 0 <= i < k :: Live(stmts, os, cancelAt, i) && !IsQuit(stmts[i]))
    && (k < |stmts| ==> !Live(stmts, os, cancelAt, k) || IsQuit(stmts[k]))
  }

  /** The results of a run that stops at `k`: what ran, then, but for \q, what was skipped. */
  ghost predicate Leaves(stmts: seq<string>, os: seq<Oracle>, cancelAt: nat, k: nat, out: seq<Result>)
    requires |os| == |stmts| && k <= |stmts|
  {
    && |out| == (if k < |stmts| && Live(stmts, os, cancelAt, k) then k else |stmts|)
    && (forall i | 0 <= i < k :: out[i] == Ran(stmts[i], os[i]))
    && (forall i | k <= i < |out| :: out[i] == Skipped(stmts[i]))
  }

  lemma MessagesStep(stmts: seq<string>, os: seq<Oracle>, cancelAt: nat, i: nat, stopped: bool)
    requires |os| == |stmts| && i < |stmts|
    ensures Messages(stmts, os, cancelAt, i, stopped)
            == if stopped || 2 * i >= cancelAt then
                 [ResultMsg(Skipped(stmts[i]))] + Messages(stmts, os, cancelAt, i + 1, stopped)
               else if IsQuit(stmts[i]) then [QuitMsg]
               else
                 StatementMsgs(stmts[i], os[i])
                 + Messages(stmts, os, cancelAt, i + 1, EndErr(stmts[i], os[i]).Some? || 2 * i + 1 >= cancelAt)
  {
    hide StatementMsgs, IsQuit, EndErr;
  }

  /** Once stopped, every statement left is skipped. */
  lemma {:induction false} SkipsFold(
      results: seq<Result>, stmts: seq<string>, os: seq<Oracle>, cancelAt: nat, i: nat, stopped: bool)
    requires |os| == |stmts| && i <= |stmts| && (stopped || 2 * i >= cancelAt)
    ensures Fold(results, Messages(stmts, os, cancelAt, i, stopped))
            == results + seq(|stmts| - i, k requires 0 <= k < |stmts| - i => Skipped(stmts[i + k]))
    decreases |stmts| - i
  {
    hide Fold, FoldOne, StatementMsgs, IsQuit, EndErr, Skipped;
    if i == |stmts| {
      FoldNothing(results);
    } else {
      var rest := Messages(stmts, os, cancelAt, i + 1, stopped);
      OneResult(results, Skipped(stmts[i]));
      FoldAppend(results, [ResultMsg(Skipped(stmts[i]))], rest);
      SkipsFold(results + [Skipped(stmts[i])], stmts, os, cancelAt, i + 1, stopped);
    }
  }

  lemma QuitFolds(results: seq<Result>)
    ensures Fold(results, [QuitMsg]) == results
  {
    assert [QuitMsg][..0] == [];
  }

  /** What the first `i` statements of a run that reaches them leave. */
  ghost predicate Before(stmts: seq<string>, os: seq<Oracle>, i: nat, results: seq<Result>)
    requires |os| == |stmts| && i <= |stmts|
  {
    |results| == i && forall j | 0 <= j < i :: results[j] == Ran(stmts[j], os[j])
  }

  lemma {:induction false} LiveFold(
      results: seq<Result>, stmts: seq<string>, os: seq<Oracle>, cancelAt: nat, i: nat, stopped: bool, k: nat)
    requires |os| == |stmts| && i <= k && StopsAt(stmts, os, cancelAt, k) && Before(stmts, os, i, results)
    requires stopped <==> (0 < i && (EndErr(stmts[i - 1], os[i - 1]).Some? || 2 * i - 1 >= cancelAt))
    ensures Leaves(stmts, os, cancelAt, k, Fold(results, Messages(stmts, os, cancelAt, i, stopped)))
    decreases |stmts| - i
  {
    hide Fold, FoldOne, StatementMsgs, Ran, IsQuit, EndErr, Skipped, Messages;
    if i == k {
      AtStop(results, stmts, os, cancelAt, k, stopped);
    } else {
      assert Live(stmts, os, cancelAt, i);
      assert i > 0 ==> EndErr(stmts[i - 1], os[i - 1]).None?;
      MessagesStep(stmts, os, cancelAt, i, stopped);
      var next := EndErr(stmts[i], os[i]).Some? || 2 * i + 1 >= cancelAt;
      StatementFolds(results, stmts[i], os[i]);
      FoldAppend(results, StatementMsgs(stmts[i], os[i]), Messages(stmts, os, cancelAt, i + 1, next));
      LiveFold(results + [Ran(stmts[i], os[i])], stmts, os, cancelAt, i + 1, next, k);
    }
  }

  lemma AtStop(results: seq<Result>, stmts: seq<string>, os: seq<Oracle>, cancelAt: nat, k: nat, stopped: bool)
    requires |os| == |stmts| && StopsAt(stmts, os, cancelAt, k) && Before(stmts, os, k, results)
    requires stopped <==> (0 < k && (EndErr(stmts[k - 1], os[k - 1]).Some? || 2 * k - 1 >= cancelAt))
    ensures Leaves(stmts, os, cancelAt, k, Fold(results, Messages(stmts, os, cancelAt, k, stopped)))
  {
    hide Fold, FoldOne, StatementMsgs, Ran, IsQuit, EndErr, Skipped, Messages;
    if k == |stmts| || stopped || 2 * k >= cancelAt {
      if k == |stmts| {
        NoMessages(stmts, os, cancelAt, stopped);
        FoldNothing(results);
      } else {
        SkipsFold(results, stmts, os, cancelAt, k, stopped);
      }
    } else {
      assert k > 0 ==> Live(stmts, os, cancelAt, k - 1);
      assert Live(stmts, os, cancelAt, k);
      MessagesStep(stmts, os, cancelAt, k, stopped);
      QuitFolds(results);
    }
  }

  lemma NoMessages(stmts: seq<string>, os: seq<Oracle>, cancelAt: nat, stopped: bool)
    requires |os| == |stmts|
    ensures Messages(stmts, os, cancelAt, |stmts|, stopped) == []
  {
  }

  /** Every run, whatever the engine answers and whenever it is cancelled. */
  lemma RunLeaves(stmts: seq<string>, os: seq<Oracle>, cancelAt: nat, k: nat)
    requires |os| == |stmts| && StopsAt(stmts, os, cancelAt, k)
    ensures Leaves(stmts, os, cancelAt, k, Fold([], Messages(stmts, os, cancelAt, 0, false)))
  {
    hide Fold, Messages;
    LiveFold([], stmts, os, cancelAt, 0, false, k);
  }

  lemma {:induction false} StopFrom(stmts: seq<string>, os: seq<Oracle>, cancelAt: nat, i: nat) returns (k: nat)
    requires |os| == |stmts| && i <= |stmts|
    requires forall j | 0 <= j < i :: Live(stmts, os, cancelAt, j) && !IsQuit(stmts[j])
    ensures StopsAt(stmts, os, cancelAt, k)
    decreases |stmts| - i
  {
    hide Live, IsQuit;
    if i == |stmts| || !Live(stmts, os, cancelAt, i) || IsQuit(stmts[i]) {
      k := i;
    } else {
      k := StopFrom(stmts, os, cancelAt, i + 1);
    }
  }

  /** One result per statement, in order: those that ran, each holding its pages in one piece and
      only the last of them possibly an error, then those skipped. */
  ghost predicate RanThenSkipped(stmts: seq<string>, os: seq<Oracle>, k: nat, out: seq<Result>)
    requires |os| == |stmts|
  {
    && k <= |stmts| == |out|
    && (forall i | 0 <= i < |out| :: out[i].statement == stmts[i])
    && (forall i | 0 <= i < k :: out[i] == Ran(stmts[i], os[i]))
    && (forall i | 0 <= i < k - 1 :: out[i].err.None?)
    && (forall i | k <= i < |out| :: out[i].skipped && out[i].rows == [] && out[i].affected == -1 && out[i].err.None?)
  }

  lemma RunWithoutQuit(stmts: seq<string>, os: seq<Oracle>, cancelAt: nat) returns (k: nat)
    requires |os| == |stmts| && forall i | 0 <= i < |stmts| :: !IsQuit(stmts[i])
    ensures RanThenSkipped(stmts, os, k, Fold([], Messages(stmts, os, cancelAt, 0, false)))
    ensures forall i | 0 <= i < |stmts| :: i < k <==> Live(stmts, os, cancelAt, i)
  {
    hide Fold, Messages, Ran, EndErr, IsQuit;
    k := StopFrom(stmts, os, cancelAt, 0);
    RunLeaves(stmts, os, cancelAt, k);
    forall i | 0 <= i < k
      ensures Ran(stmts[i], os[i]).statement == stmts[i] && Ran(stmts[i], os[i]).err == EndErr(stmts[i], os[i])
    {
      RanErr(stmts[i], os[i]);
    }
    assert k > 0 ==> Live(stmts, os, cancelAt, k - 1);
    forall i | k <= i < |stmts|
      ensures !Live(stmts, os, cancelAt, i)
    {
      assert !Live(stmts, os, cancelAt, k);
    }
  }

  /** When the run reaches \q the results are those of the statements before it, all without error. */
  lemma RunToQuit(stmts: seq<string>, os: seq<Oracle>, cancelAt: nat, q: nat)
    requires |os| == |stmts| && q < |stmts| && IsQuit(stmts[q]) && forall i | 0 <= i < q :: !IsQuit(stmts[i])
    requires Live(stmts, os, cancelAt, q)
    ensures var out := Fold([], Messages(stmts, os, cancelAt, 0, false));
            |out| == q && forall i | 0 <= i < q :: out[i] == Ran(stmts[i], os[i]) && out[i].err.None?
  {
    hide Fold, Messages, Ran, EndErr, IsQuit;
    assert StopsAt(stmts, os, cancelAt, q) by {
      assert forall i | 0 <= i < q :: Live(stmts, os, cancelAt, i);
    }
    RunLeaves(stmts, os, cancelAt, q);
    forall i | 0 <= i < q
      ensures Ran(stmts[i], os[i]).err.None?
    {
      RanErr(stmts[i], os[i]);
    }
  }

  // ---- what can be seen while it runs ---------------------------------------------------------

  /** `later` continues `seen`: only the last result seen may still gain rows and an ending. */
  ghost predicate Continues(seen: seq<Result>, later: seq<Result>) {
    && |seen| <= |later|
    && (forall i | 0 <= i < |seen| - 1 :: later[i] == seen[i])
    && (seen != [] ==> later[|seen| - 1].statement == seen[|seen| - 1].statement
                       && seen[|seen| - 1].rows <= later[|seen| - 1].rows)
  }

  lemma {:induction false} FoldContinues(results: seq<Result>, ms: seq<Msg>)
    ensures Continues(results, Fold(results, ms))
    decreases |ms|
  {
    if ms != [] {
      FoldContinues(results, ms[..|ms| - 1]);
    }
  }

  /** At any moment the results shown are a beginning of the final ones. */
  lemma SeenIsPrefix(stmts: seq<string>, os: seq<Oracle>, cancelAt: nat, n: nat)
    requires |os| == |stmts| && n <= |Messages(stmts, os, cancelAt, 0, false)|
    ensures var ms := Messages(stmts, os, cancelAt, 0, false);
            Continues(Fold([], ms[..n]), Fold([], ms))
  {
    hide Messages, Fold, Continues;
    var ms := Messages(stmts, os, cancelAt, 0, false);
    FoldAppend([], ms[..n], ms[n..]);
    assert ms[..n] + ms[n..] == ms;
    FoldContinues(Fold([], ms[..n]), ms[n..]);
  }

  // ---- the channel ------------------------------------------------------------------------------

  /** The goroutine's messages still to send, the buffered channel, and the interface's results. */
  datatype Chan = Chan(toSend: seq<Msg>, queue: seq<Msg>, results: seq<Result>)

  predicate CanSend(c: Chan, capacity: nat) { c.toSend != [] && |c.queue| < capacity }

  predicate CanReceive(c: Chan) { c.queue != [] }

  /** One step of either side: the goroutine sends, or the interface receives and folds. */
  function ChanStep(c: Chan, capacity: nat, send: bool): Chan {
    if send && CanSend(c, capacity) then c.(toSend := c.toSend[1..], queue := c.queue + [c.toSend[0]])
    else if !send && CanReceive(c) then c.(queue := c.queue[1..], results := FoldOne(c.results, c.queue[0]))
    else c
  }

  function ChanRun(c: Chan, capacity: nat, schedule: seq<bool>): Chan
    decreases |schedule|
  {
    if schedule == [] then c else ChanRun(ChanStep(c, capacity, schedule[0]), capacity, schedule[1..])
  }

  lemma FoldFirst(results: seq<Result>, m: Msg, rest: seq<Msg>)
    ensures Fold(FoldOne(results, m), rest) == Fold(results, [m] + rest)
  {
    FoldAppend(results, [m], rest);
    assert [m][..0] == [];
    assert Fold(results, [m]) == FoldOne(results, m);
  }

  lemma StepKeepsOutcome(c: Chan, capacity: nat, send: bool)
    ensures var d := ChanStep(c, capacity, send);
            Fold(d.results, d.queue + d.toSend) == Fold(c.results, c.queue + c.toSend)
  {
    hide Fold, FoldOne;
    var d := ChanStep(c, capacity, send);
    if send && CanSend(c, capacity) {
      assert d.queue + d.toSend == c.queue + c.toSend;
    } else if !send && CanReceive(c) {
      FoldFirst(c.results, c.queue[0], d.queue + d.toSend);
      assert [c.queue[0]] + (d.queue + d.toSend) == c.queue + c.toSend;
    }
  }

  lemma {:induction false} RunKeepsOutcome(c: Chan, capacity: nat, schedule: seq<bool>)
    ensures var d := ChanRun(c, capacity, schedule);
            Fold(d.results, d.queue + d.toSend) == Fold(c.results, c.queue + c.toSend)
    decreases |schedule|
  {
    hide Fold, FoldOne;
    if schedule != [] {
      StepKeepsOutcome(c, capacity, schedule[0]);
      RunKeepsOutcome(ChanStep(c, capacity, schedule[0]), capacity, schedule[1..]);
    }
  }

  /** However the two sides interleave, when nothing is left to send or receive the interface
      holds the fold of all the messages; and until then one side can move. */
  lemma InterleavingsAgree(ms: seq<Msg>, capacity: nat, schedule: seq<bool>)
    requires capacity > 0
    ensures var c := ChanRun(Chan(ms, [], []), capacity, schedule);
            if c.toSend == [] && c.queue == [] then c.results == Fold([], ms)
            else CanSend(c, capacity) || CanReceive(c)
  {
    hide Fold, FoldOne;
    RunKeepsOutcome(Chan(ms, [], []), capacity, schedule);
    var c := ChanRun(Chan(ms, [], []), capacity, schedule);
    assert [] + ms == ms;
    if c.toSend == [] && c.queue == [] {
      FoldNothing(c.results);
      assert c.queue + c.toSend == [];
    }
  }

  /** Every enabled step uses up part of what is left, so an interleaving cannot go on for ever. */
  lemma StepsRunOut(c: Chan, capacity: nat, send: bool)
    requires if send then CanSend(c, capacity) else CanReceive(c)
    ensures var d := ChanStep(c, capacity, send);
            2 * |d.toSend| + |d.queue| == 2 * |c.toSend| + |c.queue| - 1
  {
    hide FoldOne;
  }

  // ---- the two sides as they run -------------------------------------------------------------------

  /** The interface's side. */
  class Query {
    var results: seq<Result>
    var pendingExit: bool

    constructor ()
      ensures results == [] && !pendingExit
    {
      results, pendingExit := [], false;
    }

    method HandleExec(msg: Msg)
      modifies this
      ensures results == FoldOne(old(results), msg)
      ensures pendingExit == (old(pendingExit) || msg.QuitMsg?)
    {
      match msg
      case ResultMsg(res) =>
        results := results + [res];
      case RowsMsg(rows, end) =>
        if |results| > 0 {
          var n := |results| - 1;
          var cur := results[n];
          cur := cur.(rows := cur.rows + rows);
          if end.Some? {
            cur := cur.(err := end.value.err, affected := end.value.affected, truncated := end.value.truncated);
          }
          results := results[n := cur];
        }
      case QuitMsg =>
        pendingExit := true;
    }
  }

  /** MessagesStep with what has been sent in front. */
  lemma SentStep(ch: seq<Msg>, stmts: seq<string>, os: seq<Oracle>, cancelAt: nat, i: nat, stopped: bool)
    requires |os| == |stmts| && i < |stmts|
    ensures ch + Messages(stmts, os, cancelAt, i, stopped)
            == if stopped || 2 * i >= cancelAt then
                 ch + [ResultMsg(Skipped(stmts[i]))] + Messages(stmts, os, cancelAt, i + 1, stopped)
               else if IsQuit(stmts[i]) then ch + [QuitMsg]
               else ch + StatementMsgs(stmts[i], os[i])
                    + Messages(stmts, os, cancelAt, i + 1, EndErr(stmts[i], os[i]).Some? || 2 * i + 1 >= cancelAt)
  {
    hide StatementMsgs, IsQuit, EndErr, Skipped, Messages;
    MessagesStep(stmts, os, cancelAt, i, stopped);
  }

  /** The goroutine, its channel as the list of what it sends. */
  method RunScript(stmts: seq<string>, os: seq<Oracle>, cancelAt: nat) returns (ch: seq<Msg>)
    requires |os| == |stmts|
    ensures ch == Messages(stmts, os, cancelAt, 0, false)
  {
    hide StatementMsgs, IsQuit, EndErr, Skipped, Messages;
    ch := [];
    var stopped := false;
    for i := 0 to |stmts|
      invariant ch + Messages(stmts, os, cancelAt, i, stopped) == Messages(stmts, os, cancelAt, 0, false)
    {
      SentStep(ch, stmts, os, cancelAt, i, stopped);
      if stopped || 2 * i >= cancelAt {
        ch := ch + [ResultMsg(Skipped(stmts[i]))];
        continue;
      }
      if IsQuit(stmts[i]) {
        ch := ch + [QuitMsg];
        return;
      }
      ch := ch + StatementMsgs(stmts[i], os[i]);
      if EndErr(stmts[i], os[i]).Some? || 2 * i + 1 >= cancelAt {
        stopped := true;
      }
    }
    NoMessages(stmts, os, cancelAt, stopped);
  }

  lemma PagesNone()
    ensures Concat([]) == [] && PageMsgs([]) == []
  {
  }

  lemma PagesMore(pages: seq<seq<Row>>, page: seq<Row>)
    ensures Concat(pages + [page]) == Concat(pages) + page
    ensures PageMsgs(pages + [page]) == PageMsgs(pages) + if page == [] then [] else [RowsMsg(page, None)]
  {
    assert (pages + [page])[..|pages|] == pages;
  }

  /** streamStatement over an open cursor, which the context may cancel before any operation.
      The pages sent are, in one piece, the rows read, and without an error and a cancellation
      all the source has. The count is read before the release: it is the settled one unless the
      cap ended the pages. */
  method StreamStatement(stmt: string, started: Opened) returns (ms: seq<Msg>, ghost st: Stream, ghost cut: bool)
    requires started.Opened? ==>
               started.cur.Valid() && started.cur.View() == Start(started.cur.rowCap)
               && (started.cur.src.tells || started.cur.src.buffered)
    modifies if started.Opened? then {started.cur, started.cur.src} else {}
    ensures ms == StreamMsgs(stmt, st)
    ensures started.OpenFailed? ==> st == Stream.OpenFailed(started.cause)
    ensures started.Opened? ==>
              && st.Streamed? && started.cur.Valid() && started.cur.closed && started.cur.src.released == 1
              && Concat(st.pages) <= started.cur.src.all
              && (st.end.err.None? && !st.end.truncated && !cut ==> Concat(st.pages) == started.cur.src.all)
              && (st.end.err.None? ==> |Concat(st.pages)| == started.cur.loaded)
              && (cut ==> Concat(st.pages) != started.cur.src.all)
              && (!st.end.truncated ==> st.end.affected == started.cur.src.affectedRows)
  {
    hide Concat, PageMsgs, Blank, Asked;
    PagesNone();
    cut := false;
    if started.OpenFailed? {
      return [ResultMsg(Blank(stmt).(err := Some(started.cause)))], Stream.OpenFailed(started.cause), false;
    }
    var cur := started.cur;
    ms := [ResultMsg(Blank(stmt))];
    ghost var pages: seq<seq<Row>> := [];
    var pageErr: Option<Error> := None;
    cut := Elsewhere(cur);
    assert ms + [] == ms;
    while !cur.IsDone()
      invariant cur.Valid() && (cur.src.tells || cur.src.buffered)
      invariant pageErr.None? && ms == [ResultMsg(Blank(stmt))] + PageMsgs(pages)
      invariant Concat(pages) == cur.src.all[..cur.src.pos]
      invariant cur.exhausted ==> cur.src.pos == |cur.src.all|
      invariant cut <==> cur.closed && cur.src.pos < |cur.src.all|
      decreases |cur.src.all| - cur.src.pos, !cur.exhausted && !cur.closed
    {
      var out, cutNow := Pull(cur, 0);
      if out.Failed? {
        cut := cutNow;
        pageErr := Some(out.err);
        break;
      }
      if |out.rows| > 0 {
        ms := ms + [RowsMsg(out.rows, None)];
      }
      PagesMore(pages, out.rows);
      pages := pages + [out.rows];
      cut := Elsewhere(cur);
    }
    ghost var cutLast := Elsewhere(cur);
    cut := cut || cutLast;
    var affected := cur.Affected();
    var end := End(pageErr, affected, cur.IsTruncated());
    ms := ms + [RowsMsg([], Some(end))];
    st := Streamed(pages, end);
    var _ := cur.Close();
  }
}

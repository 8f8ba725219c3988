/**
 The query tool of internal/mcp/tools.go: the write gate over a whole script,
 then the statements in order until one fails. The driver is any engine; it
 records what it was asked to run, so "nothing was executed" can be said.
 */
module McpQuery {
  import opened Bytes
  import opened Engines
  import C = Cursor
  import Format
  import opened RedisVerdict
  import SqlVerdict
  import Lexer

  datatype Connection = Connection(name: string, engine: Engine, allowWrite: bool)

  /** What the response says of one statement. */
  datatype Block =
    | PageBlock(statement: string, page: Page)
    | DoneBlock(statement: string, affected: int)
    | FailureBlock(statement: string, err: C.Error)
    | SkippedBlock(statement: string)

  /** One page as it is rendered: `shown` of its rows stand in the text. */
  datatype Page = Page(columns: seq<string>, rows: seq<C.Row>, more: bool, shown: nat, text: string)

  datatype Refusal =
    | UnknownConnection
    | NoStatement
    | WriteGate(statement: string, serverClosed: bool, connectionClosed: bool)
    | NoSession(err: C.Error)

  datatype Reply = Refused(why: Refusal) | Answered(blocks: seq<Block>)

  // ---- the gate --------------------------------------------------------------------

  predicate BothOpen(allowWrite: bool, conn: Connection) { allowWrite && conn.allowWrite }

  /** The script may not run: it holds a destructive statement and a switch is off. */
  predicate Gated(allowWrite: bool, conn: Connection, stmts: seq<string>) {
    Destructive(conn.engine, stmts) != [] && !BothOpen(allowWrite, conn)
  }

  /** A script passes exactly when both switches are on or no statement of it is destructive. */
  lemma GateExactly(allowWrite: bool, conn: Connection, stmts: seq<string>)
    ensures !Gated(allowWrite, conn, stmts)
            <==> BothOpen(allowWrite, conn) || forall s | s in stmts :: !IsDestructive(conn.engine, s)
  {
    hide IsDestructive;
    var found := Destructive(conn.engine, stmts);
    forall s
      ensures s in found <==> s in stmts && IsDestructive(conn.engine, s)
    {
      DestructiveExactly(conn.engine, stmts, s);
    }
    if found != [] {
      assert found[0] in found;
    }
  }

  /** The verdict on a script is the verdict on its statements sent one by one: each of them is
      split to itself again, so none is judged as part of another. */
  lemma GateSeesEveryStatement(allowWrite: bool, conn: Connection, sql: string)
    ensures Gated(allowWrite, conn, Split(conn.engine, sql))
            <==> exists s | s in Split(conn.engine, sql) :: Gated(allowWrite, conn, Split(conn.engine, s))
  {
    hide IsDestructive, Split, Gated;
    var stmts := Split(conn.engine, sql);
    ResplitIsIdentity(conn.engine, sql);
    GateExactly(allowWrite, conn, stmts);
    forall s | s in stmts
      ensures Gated(allowWrite, conn, Split(conn.engine, s)) <==> !BothOpen(allowWrite, conn) && IsDestructive(conn.engine, s)
    {
      GateExactly(allowWrite, conn, [s]);
    }
  }

  /** What a statement does when it is run: SQL is run as its tokens say, a Redis command as the
      arguments read from it. */
  predicate RunsAsDestructive(engine: Engine, stmt: string) {
    if engine == Redis then RunsDestructive(stmt)
    else SqlVerdict.Harms(stmt, Lexer.Spans(stmt, 0, engine == ClickHouse))
  }

  /** The verdict reads the statement as the engine will. */
  predicate ReadAsRun(engine: Engine, stmt: string) { engine == Redis ==> PlainVerb(stmt) }

  lemma VerdictExactly(engine: Engine, stmt: string)
    requires RunsAsDestructive(engine, stmt)
    ensures IsDestructive(engine, stmt) <==> ReadAsRun(engine, stmt)
  {
    hide IsDestructive, PlainVerb, RunsDestructive, Lexer.Spans, SqlVerdict.Harms;
    if engine == Redis {
      FlaggedExactly(stmt);
    } else {
      SqlVerdict.VerdictFromTokens(engine, stmt);
    }
  }

  /** What a shut gate lets run: a script that passes it runs something destructive if and only if it
      holds a Redis command that is destructive as run but not written plainly where the verdict looks. */
  lemma ShutGateExactly(allowWrite: bool, conn: Connection, stmts: seq<string>)
    requires !BothOpen(allowWrite, conn) && !Gated(allowWrite, conn, stmts)
    ensures (exists s | s in stmts :: RunsAsDestructive(conn.engine, s))
            <==> conn.engine == Redis && exists s | s in stmts :: RunsDestructive(s) && !PlainVerb(s)
  {
    hide IsDestructive, Gated, PlainVerb, RunsDestructive, Lexer.Spans, SqlVerdict.Harms;
    GateExactly(allowWrite, conn, stmts);
    forall s | s in stmts && RunsAsDestructive(conn.engine, s)
      ensures conn.engine == Redis && RunsDestructive(s) && !PlainVerb(s)
    {
      VerdictExactly(conn.engine, s);
    }
  }

  // ---- the driver -------------------------------------------------------------------

  /** What Stream answers: the cursor of a running statement and the columns of its result. */
  datatype Opened = Opened(cur: C.Cursor, columns: seq<string>) | OpenFailed(cause: C.Error)

  class Driver {
    var ran: seq<string>

    constructor ()
      ensures ran == []
    {
      ran := [];
    }

    /** The statement is sent; the answer is any result, paged by the engine or already in memory,
        or any error. */
    method Stream(stmt: string) returns (o: Opened)
      modifies this
      ensures ran == old(ran) + [stmt]
      ensures o.Opened? ==> fresh(o.cur) && fresh(o.cur.src) && o.cur.Valid() && o.cur.View() == C.Start(o.cur.rowCap)
    {
      ran := ran + [stmt];
      var fails: bool := *;
      var columns: seq<string> := *;
      var rows: seq<C.Row> := *;
      var rowCap: int := *;
      var affected: int := *;
      var buffered: bool := *;
      var fault: Option<C.Error> := *;
      if fails {
        return OpenFailed("statement failed");
      }
      var src := new C.Source(rows, buffered, true, affected, fault);
      var cur := new C.Cursor(rowCap, src);
      return Opened(cur, columns);
    }
  }

  // ---- one statement -------------------------------------------------------------------

  /** The text of a page: the table of the rows that fit, with its notices. At most MAX_ROWS of
      them are shown; and no notice means that all the page's rows are, with none after them. */
  ghost predicate Rendered(p: Page) {
    && |p.text| <= Format.MAX_BYTES
    && (p.rows == [] ==> p.text == "(no rows)" && p.shown == 0)
    && (p.rows != [] ==>
          && Format.Shows(p.columns, p.rows, p.shown) && p.shown <= Format.MAX_ROWS
          && p.text == Format.Cut(Format.Table(p.columns, p.rows, -1, p.more, p.shown), Format.MAX_BYTES)
          && (NoticeOf(p) == "" <==> !p.more && p.shown == |p.rows|))
  }

  /** What the text says of rows left out. */
  function NoticeOf(p: Page): string {
    Format.TruncatedNotice(p.more || |p.rows| > Format.MAX_ROWS, p.shown < |Format.Capped(p.rows)|, p.shown, -1)
  }

  /** gridPaged of formatPage. */
  method Render(columns: seq<string>, rows: seq<C.Row>, more: bool) returns (p: Page)
    ensures Rendered(p) && p.columns == columns && p.rows == rows && p.more == more
  {
    hide Format.Cut, Format.Table, Format.Shows, Format.TruncatedNotice;
    var text, shown := Format.RenderGrid(columns, rows, -1, more);
    p := Page(columns, rows, more, if rows == [] then 0 else shown, text);
    if rows != [] {
      Format.NothingHidden(columns, rows, more, shown, -1);
      ShownWithin(columns, rows, shown);
    }
  }

  lemma ShownWithin(columns: seq<string>, rows: seq<C.Row>, shown: nat)
    requires Format.Shows(columns, rows, shown)
    ensures shown <= |Format.Capped(rows)| <= Format.MAX_ROWS
  {
    hide Format.IsShown, Format.Header, Format.Widths;
  }

  /** The rows of a page out of what the engine has. Without `more` they are all of them, unless
      the engine's one answer was short of what was asked; with it the page is full, which is also
      the case when the result is just as long as a page and nothing more remains. Only rows that
      were in memory anyway can be more than a page. */
  ghost predicate PageOf(rows: seq<C.Row>, more: bool, all: seq<C.Row>, buffered: bool, short: bool) {
    && rows <= all
    && (|rows| <= Format.MAX_ROWS || (buffered && rows == all))
    && (more ==> |rows| == Format.MAX_ROWS && (rows == all <==> |all| == Format.MAX_ROWS))
    && (rows == all || more || short)
    && (short ==> |rows| < Format.MAX_ROWS && !more && !buffered)
  }

  /** The first page of a statement: the cap set, then one NextPage. */
  method FirstPage(cur: C.Cursor) returns (out: C.Output, ghost short: bool)
    requires cur.Valid() && cur.View() == C.Start(cur.rowCap)
    modifies cur, cur.src
    ensures cur.Valid() && (out.Failed? <==> cur.closed)
    ensures out.Page? ==> PageOf(out.rows, cur.IsTruncated(), cur.src.all, cur.src.buffered, short)
  {
    ghost var _ := C.Elsewhere(cur);
    cur.SetCap(Format.MAX_ROWS);
    ghost var _ := C.Elsewhere(cur);
    var page, a := cur.NextPage(Format.MAX_ROWS);
    out, short := page, !a.exhausted && |a.rows| < Format.MAX_ROWS;
    assert cur.src.all[..0] == [] && cur.src.all[0..cur.src.pos] == cur.src.all[..cur.src.pos];
  }

  /** runStatement, with cancellation possible before every operation: a block, or the error the
      statement failed with. Whatever happens the result is released; and the count of a statement
      without columns is read after that. What the release reports is the statement's error, unless
      the cursor was `gone`, closed by a cancellation, by then. `o` is what the engine answered. */
  method RunStatement(driver: Driver, stmt: string)
    returns (block: Option<Block>, err: C.Error, ghost o: Opened, ghost short: bool, ghost gone: bool)
    modifies driver
    ensures driver.ran == old(driver.ran) + [stmt]
    ensures o.Opened? ==> fresh(o.cur) && fresh(o.cur.src) && o.cur.closed && o.cur.src.released == 1
    ensures block.Some? ==> block.value.statement == stmt && o.Opened?
    ensures block.Some? && o.columns != [] ==>
              && block.value.PageBlock? && block.value.page.columns == o.columns
              && PageOf(block.value.page.rows, block.value.page.more, o.cur.src.all, o.cur.src.buffered, short)
              && Rendered(block.value.page)
    ensures block.Some? && o.columns == [] ==>
              block.value == DoneBlock(stmt, o.cur.src.affectedRows) && (gone || o.cur.src.fault.None?)
    ensures gone ==> o.Opened? && o.cur.err.Some?
  {
    hide Rendered, PageOf;
    short, gone, err := false, false, "";
    var started := driver.Stream(stmt);
    o := started;
    if started.OpenFailed? {
      return None, started.cause, o, false, false;
    }
    var cur := started.cur;
    var out;
    out, short := FirstPage(cur);
    if out.Failed? {
      var _ := cur.Close();
      return None, out.err, o, false, false;
    }
    ghost var _ := C.Elsewhere(cur);
    gone := cur.closed;
    if |started.columns| > 0 {
      var page := Render(started.columns, out.rows, cur.IsTruncated());
      var _ := cur.Close();
      block := Some(PageBlock(stmt, page));
      return;
    }
    var fault := cur.Close();
    if fault.Some? {
      return None, fault.value, o, false, gone;
    }
    var affected := cur.Affected();
    block := Some(DoneBlock(stmt, affected));
  }

  /** A page that announces nothing shows every row the engine has, unless the engine's answer was short. */
  lemma NoNoticeIsAll(p: Page, all: seq<C.Row>, buffered: bool)
    requires PageOf(p.rows, p.more, all, buffered, false) && Rendered(p)
    ensures p.rows == [] || NoticeOf(p) == "" ==> p.shown == |all| && p.rows == all
  {
    hide Format.Shows, Format.Cut, Format.Table, NoticeOf;
  }

  // ---- the script ------------------------------------------------------------------------

  /** The response reports every statement once, in order: pages, then a failure, then skips. */
  ghost predicate Reports(stmts: seq<string>, blocks: seq<Block>, ran: nat) {
    && ran <= |stmts| == |blocks|
    && (forall i | 0 <= i < |blocks| :: blocks[i].statement == stmts[i])
    && (forall i | 0 <= i < ran - 1 :: blocks[i].PageBlock? || blocks[i].DoneBlock?)
    && (0 < ran ==> !blocks[ran - 1].SkippedBlock? && (ran < |stmts| ==> blocks[ran - 1].FailureBlock?))
    && (forall i | ran <= i < |blocks| :: blocks[i].SkippedBlock?)
  }

  class Server {
    const allowWrite: bool
    const byName: map<string, Connection>

    constructor (allowWrite: bool, byName: map<string, Connection>)
      ensures this.allowWrite == allowWrite && this.byName == byName
    {
      this.allowWrite, this.byName := allowWrite, byName;
    }

    /** What reaches the engine is a beginning of the script; nothing does when the call is
        refused; and unless both switches are on nothing does that is flagged, or that runs as a
        destructive statement and is read as it runs, whichever statement of the script it is.
        `session` is what the pool answers. */
    method Query(connection: string, sql: string, driver: Driver, session: Option<C.Error>)
      returns (reply: Reply, ghost ran: nat)
      modifies driver
      ensures reply.Refused? ==> driver.ran == old(driver.ran)
      ensures reply == Refused(UnknownConnection) <==> connection !in byName
      ensures connection in byName ==>
                var conn := byName[connection]; var stmts := Split(conn.engine, sql);
                && (reply == Refused(NoStatement) <==> stmts == [])
                && (reply.Refused? && reply.why.WriteGate? <==> Gated(allowWrite, conn, stmts))
                && (reply.Refused? && reply.why.WriteGate? ==>
                      reply.why == WriteGate(Destructive(conn.engine, stmts)[0], !allowWrite, !conn.allowWrite))
                && (reply.Answered? <==> stmts != [] && !Gated(allowWrite, conn, stmts) && session.None?)
                && (reply.Answered? ==>
                      && Reports(stmts, reply.blocks, ran) && 0 < ran
                      && driver.ran == old(driver.ran) + stmts[..ran])
      ensures forall k | |old(driver.ran)| <= k < |driver.ran| ::
                connection in byName
                && (IsDestructive(byName[connection].engine, driver.ran[k]) ==> BothOpen(allowWrite, byName[connection]))
      ensures forall k | |old(driver.ran)| <= k < |driver.ran| ::
                RunsAsDestructive(byName[connection].engine, driver.ran[k]) && ReadAsRun(byName[connection].engine, driver.ran[k])
                ==> BothOpen(allowWrite, byName[connection])
    {
      hide IsDestructive, Split, Destructive, Reports, RunsAsDestructive, ReadAsRun;
      ran := 0;
      if connection !in byName {
        return Refused(UnknownConnection), 0;
      }
      var conn := byName[connection];
      var stmts := RunSplit(conn.engine, sql);
      if |stmts| == 0 {
        assert Destructive(conn.engine, stmts) == [] by { DestructiveNone(conn.engine); }
        return Refused(NoStatement), 0;
      }
      var destructive := FindDestructive(conn.engine, stmts);
      GateExactly(allowWrite, conn, stmts);
      if |destructive| > 0 {
        if !(allowWrite && conn.allowWrite) {
          return Refused(WriteGate(destructive[0], !allowWrite, !conn.allowWrite)), 0;
        }
      }
      if session.Some? {
        return Refused(NoSession(session.value)), 0;
      }
      var blocks;
      blocks, ran := RunAll(driver, stmts);
      forall k | |old(driver.ran)| <= k < |driver.ran|
            && RunsAsDestructive(conn.engine, driver.ran[k]) && ReadAsRun(conn.engine, driver.ran[k])
        ensures IsDestructive(conn.engine, driver.ran[k])
      {
        VerdictExactly(conn.engine, driver.ran[k]);
      }
      return Answered(blocks), ran;
    }
  }

  /** The loop over the statements: they run in order until one fails. */
  method RunAll(driver: Driver, stmts: seq<string>) returns (blocks: seq<Block>, ghost ran: nat)
    requires stmts != []
    modifies driver
    ensures Reports(stmts, blocks, ran) && 0 < ran <= |stmts| && driver.ran == old(driver.ran) + stmts[..ran]
  {
    hide PageOf, Rendered;
    blocks, ran := [], 0;
    var i: nat := 0;
    while i < |stmts|
      invariant i <= |stmts| && |blocks| == i == ran
      invariant driver.ran == old(driver.ran) + stmts[..i]
      invariant forall k | 0 <= k < i ::
                  blocks[k].statement == stmts[k] && (blocks[k].PageBlock? || blocks[k].DoneBlock?)
    {
      var block, err, o, short, gone := RunStatement(driver, stmts[i]);
      ran := i + 1;
      assert stmts[..i] + [stmts[i]] == stmts[..i + 1];
      if block.None? {
        blocks := blocks + [FailureBlock(stmts[i], err)] + SkipRest(stmts[i + 1..]);
        return;
      }
      blocks := blocks + [block.value];
      i := i + 1;
    }
  }

  function SkipRest(rest: seq<string>): seq<Block> {
    seq(|rest|, k requires 0 <= k < |rest| => SkippedBlock(rest[k]))
  }
}

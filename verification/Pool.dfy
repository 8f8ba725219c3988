/**
 The session pool of internal/mcp/session.go. One mutex covers each operation
 whole, so a run is a sequence of gets and closes; what a connect comes to, and
 the order in which a map gives up its sessions, is arbitrary.
 */
module Pool {
  import opened Bytes

  type Error = string

  /** What happens to sessions and to the connector they share, in order. */
  datatype Action = Opens(key: string, session: nat) | Closes(session: nat) | ClosesConnector

  /** The pool's fields, with the keys in the order they were opened, the sessions in the order they
      were closed, how often the connector was closed, and all of that in one log. */
  datatype State = State(
    sessions: map<string, nat>, closed: bool, keys: seq<string>, shut: seq<nat>, connector: nat, log: seq<Action>)

  /** Get carries the error a connect would meet; Close the order in which the sessions come. */
  datatype Event = Get(key: string, fails: Option<Error>) | Close(order: seq<string>)

  datatype Output = Session(id: nat) | ShuttingDown | OpenError(err: Error)

  const START: State := State(map[], false, [], [], 0, [])

  /** The order lists every pooled key once. */
  predicate CanHappen(st: State, e: Event) {
    e.Close? ==>
      && (forall i, j | 0 <= i < j < |e.order| :: e.order[i] != e.order[j])
      && (forall k | k in e.order :: k in st.sessions) && (forall k | k in st.sessions :: k in e.order)
  }

  function InOrder(sessions: map<string, nat>, order: seq<string>): (r: seq<nat>)
    requires forall k | k in order :: k in sessions
    ensures |r| == |order|
  {
    seq(|order|, i requires 0 <= i < |order| => sessions[order[i]])
  }

  function Closings(shut: seq<nat>): (r: seq<Action>)
    ensures |r| == |shut|
  {
    seq(|shut|, i requires 0 <= i < |shut| => Closes(shut[i]))
  }

  function Openings(keys: seq<string>): (r: seq<Action>)
    ensures |r| == |keys|
  {
    seq(|keys|, i requires 0 <= i < |keys| => Opens(keys[i], i))
  }

  function Connectors(n: nat): (r: seq<Action>)
    ensures |r| == n
  {
    seq(n, _ => ClosesConnector)
  }

  function Step(st: State, e: Event): State
    requires CanHappen(st, e)
  {
    match e
    case Get(key, fails) =>
      if st.closed || key in st.sessions || fails.Some? then st
      else
        var id := |st.keys|;
        st.(sessions := st.sessions[key := id], keys := st.keys + [key], log := st.log + [Opens(key, id)])
    case Close(order) =>
      var shut := InOrder(st.sessions, order);
      st.(sessions := map[], closed := true, shut := st.shut + shut, connector := st.connector + 1,
          log := st.log + Closings(shut) + [ClosesConnector])
  }

  function Result(st: State, key: string, fails: Option<Error>): Output {
    if st.closed then ShuttingDown
    else if key in st.sessions then Session(st.sessions[key])
    else if fails.Some? then OpenError(fails.value)
    else Session(|st.keys|)
  }

  predicate Happens(st: State, es: seq<Event>)
    decreases |es|
  {
    es == [] || (CanHappen(st, es[0]) && Happens(Step(st, es[0]), es[1..]))
  }

  function Run(st: State, es: seq<Event>): State
    requires Happens(st, es)
    decreases |es|
  {
    if es == [] then st else Run(Step(st, es[0]), es[1..])
  }

  // ---- what every run keeps --------------------------------------------------------------

  /** No key is opened twice, and no session closed twice. */
  ghost predicate NoRepeats(st: State) {
    && (forall i, j | 0 <= i < j < |st.keys| :: st.keys[i] != st.keys[j])
    && (forall i, j | 0 <= i < j < |st.shut| :: st.shut[i] != st.shut[j])
  }

  /** While open, the pool holds exactly the sessions it opened, and nothing was closed. */
  ghost predicate Holds(st: State) {
    && st.shut == [] && st.connector == 0
    && (forall i | 0 <= i < |st.keys| :: st.keys[i] in st.sessions && st.sessions[st.keys[i]] == i)
    && (forall k | k in st.sessions :: st.sessions[k] < |st.keys| && st.keys[st.sessions[k]] == k)
  }

  /** Once closed it holds none, and every session it opened was closed. */
  ghost predicate Empty(st: State) {
    && st.sessions == map[] && st.connector >= 1
    && (forall id: nat :: id < |st.keys| <==> id in st.shut)
  }

  /** The log is the opens, then the closes, then those of the connector. */
  ghost predicate Ordered(st: State) { st.log == Openings(st.keys) + Closings(st.shut) + Connectors(st.connector) }

  ghost predicate Inv(st: State) { NoRepeats(st) && Ordered(st) && if st.closed then Empty(st) else Holds(st) }

  lemma GetKeeps(st: State, key: string, fails: Option<Error>)
    requires Inv(st)
    ensures Inv(Step(st, Get(key, fails)))
  {
    var next := Step(st, Get(key, fails));
    if next != st {
      assert Openings(next.keys) == Openings(st.keys) + [Opens(key, |st.keys|)];
      assert Closings([]) == [] && Connectors(0) == [];
      assert next.log == Openings(next.keys);
    }
  }

  lemma FirstIn(order: seq<string>)
    ensures order != [] ==> order[0] in order
  {
  }

  lemma CloseKeeps(st: State, order: seq<string>)
    requires Inv(st) && CanHappen(st, Close(order))
    ensures Inv(Step(st, Close(order)))
  {
    hide Ordered;
    var shut := InOrder(st.sessions, order);
    CloseOrders(st, order);
    if st.closed {
      FirstIn(order);
      assert st.shut + shut == st.shut;
    } else {
      assert st.shut + shut == shut;
      ClosesEach(st, order);
    }
  }

  lemma ConnectorsMore(n: nat)
    ensures Connectors(n + 1) == Connectors(n) + [ClosesConnector] && Connectors(0) == []
  {
  }

  lemma CloseOrders(st: State, order: seq<string>)
    requires Ordered(st) && CanHappen(st, Close(order)) && (if st.closed then st.sessions == map[] else st.shut == [] && st.connector == 0)
    ensures Ordered(Step(st, Close(order)))
  {
    hide Openings, Closings, Connectors;
    var shut := InOrder(st.sessions, order);
    ConnectorsMore(st.connector);
    ClosingsNone();
    var opens, closes := Openings(st.keys), Closings(st.shut);
    if st.closed {
      FirstIn(order);
      assert shut == [];
      assert st.shut + [] == st.shut;
      assert opens + closes + Connectors(st.connector) + [] + [ClosesConnector]
             == opens + closes + (Connectors(st.connector) + [ClosesConnector]);
    } else {
      assert [] + shut == shut;
      assert opens + [] + [] + Closings(shut) + [ClosesConnector] == opens + Closings(shut) + ([] + [ClosesConnector]);
    }
  }

  lemma ClosesEach(st: State, order: seq<string>)
    requires NoRepeats(st) && Holds(st) && CanHappen(st, Close(order))
    ensures var shut := InOrder(st.sessions, order);
            && (forall i, j | 0 <= i < j < |shut| :: shut[i] != shut[j])
            && (forall id: nat :: id < |st.keys| <==> id in shut)
  {
    var shut := InOrder(st.sessions, order);
    assert forall i | 0 <= i < |order| :: order[i] in order && st.keys[shut[i]] == order[i];
    forall id: nat
      ensures id < |st.keys| <==> id in shut
    {
      if id < |st.keys| {
        assert st.keys[id] in order;
        var i :| 0 <= i < |order| && order[i] == st.keys[id];
        assert shut[i] == id;
      }
    }
  }

  lemma {:induction false} RunKeeps(st: State, es: seq<Event>)
    requires Inv(st) && Happens(st, es)
    ensures Inv(Run(st, es))
    decreases |es|
  {
    hide Inv, Step, CanHappen;
    if es != [] {
      match es[0] {
        case Get(key, fails) => GetKeeps(st, key, fails);
        case Close(order) => CloseKeeps(st, order);
      }
      RunKeeps(Step(st, es[0]), es[1..]);
    }
  }

  lemma StartInv()
    ensures Inv(START)
  {
  }

  /** In every run: no key is opened twice. */
  lemma OneSessionPerKey(es: seq<Event>, i: nat, j: nat)
    requires Happens(START, es) && i < |Run(START, es).log| && j < |Run(START, es).log|
    requires var log := Run(START, es).log; log[i].Opens? && log[j].Opens? && log[i].key == log[j].key
    ensures i == j
  {
    StartInv();
    RunKeeps(START, es);
  }

  /** In every run that has closed the pool, each session opened is closed exactly once, after every
      open and before the connector. */
  lemma ClosedOnceInOrder(es: seq<Event>, k: nat)
    requires Happens(START, es) && Run(START, es).closed
    requires k < |Run(START, es).log| && Run(START, es).log[k].Opens?
    ensures var log := Run(START, es).log;
            && (exists i | 0 <= i < |log| :: log[i] == Closes(log[k].session))
            && (forall i, j | 0 <= i < |log| && 0 <= j < |log| && log[i] == Closes(log[k].session) ::
                  && (log[j] == log[i] ==> i == j)
                  && (log[j] == ClosesConnector ==> i < j)
                  && (log[j].Opens? ==> j < i))
  {
    hide Run, Step;
    StartInv();
    RunKeeps(START, es);
    var st := Run(START, es);
    InLog(st, k);
  }

  lemma InLog(st: State, k: nat)
    requires Inv(st) && st.closed && k < |st.log| && st.log[k].Opens?
    ensures var log := st.log;
            && (exists i | 0 <= i < |log| :: log[i] == Closes(log[k].session))
            && (forall i, j | 0 <= i < |log| && 0 <= j < |log| && log[i] == Closes(log[k].session) ::
                  && (log[j] == log[i] ==> i == j)
                  && (log[j] == ClosesConnector ==> i < j)
                  && (log[j].Opens? ==> j < i))
  {
    var id, n, m' := st.log[k].session, |st.keys|, |st.shut|;
    assert forall i | 0 <= i < |st.log| ::
             st.log[i] == if i < n then Opens(st.keys[i], i) else if i < n + m' then Closes(st.shut[i - n]) else ClosesConnector;
    hide Ordered;
    assert id in st.shut;
    var m :| 0 <= m < |st.shut| && st.shut[m] == id;
    assert st.log[n + m] == Closes(id);
  }

  /** After close the pool opens nothing and hands out nothing. */
  lemma {:induction false} ClosedIsFinal(st: State, es: seq<Event>)
    requires st.closed && Happens(st, es)
    ensures Run(st, es).closed && Run(st, es).keys == st.keys
    ensures forall key, fails :: Result(Run(st, es), key, fails) == ShuttingDown
    decreases |es|
  {
    if es != [] {
      ClosedIsFinal(Step(st, es[0]), es[1..]);
    }
  }

  ghost predicate OnlyGets(es: seq<Event>) { forall e | e in es :: e.Get? }

  lemma {:induction false} GetsKeep(st: State, es: seq<Event>, key: string)
    requires Happens(st, es) && !st.closed && key in st.sessions
    ensures Run(st, es).closed <==> !OnlyGets(es)
    ensures !Run(st, es).closed ==> key in Run(st, es).sessions && Run(st, es).sessions[key] == st.sessions[key]
    decreases |es|
  {
    if es != [] {
      var next := Step(st, es[0]);
      assert es == [es[0]] + es[1..];
      if es[0].Close? {
        ClosedIsFinal(next, es[1..]);
        assert es[0] in es;
      } else {
        GetsKeep(next, es[1..], key);
      }
    }
  }

  /** What a key gets stays what it gets: after any run every get answers the same session, whatever
      a connect would come to, if and only if the pool was not closed in it. */
  lemma KeyKeepsSession(st: State, es: seq<Event>, key: string)
    requires Happens(st, es) && !st.closed && key in st.sessions
    ensures (forall fails :: Result(Run(st, es), key, fails) == Session(st.sessions[key])) <==> OnlyGets(es)
  {
    hide Run, OnlyGets;
    GetsKeep(st, es, key);
    assert Result(Run(st, es), key, None) == Session(st.sessions[key]) ==> OnlyGets(es);
  }

  /** Which keys are pooled in a run before any close: exactly those with a get that connected. Failed
      connects leave no trace. */
  lemma {:induction false} PooledExactly(st: State, es: seq<Event>, key: string)
    requires Happens(st, es) && !st.closed && OnlyGets(es)
    ensures key in Run(st, es).sessions <==> key in st.sessions || Get(key, None) in es
    decreases |es|
  {
    if es != [] {
      assert es == [es[0]] + es[1..];
      PooledExactly(Step(st, es[0]), es[1..], key);
    }
  }

  // ---- keys ---------------------------------------------------------------------------------

  function KeyOf(name: string, database: string): string { name + ['\0'] + database }

  lemma FirstZero(name: string, database: string)
    requires '\0' !in name
    ensures IndexByte(KeyOf(name, database), '\0', 0) == |name|
  {
    var k := KeyOf(name, database);
    IndexByteFirst(k, '\0', 0);
    assert k[|name|] == '\0' && forall i | 0 <= i < |name| :: k[i] == name[i] && name[i] in name;
  }

  /** Two connection and database pairs share a session only when they are the same pair, for
      names without a zero byte. */
  lemma KeysDiffer(name: string, database: string, other: string, base: string)
    requires '\0' !in name && '\0' !in other && KeyOf(name, database) == KeyOf(other, base)
    ensures name == other && database == base
  {
    FirstZero(name, database);
    FirstZero(other, base);
    var k, l := KeyOf(name, database), KeyOf(other, base);
    assert k[..|name|] == name && l[..|other|] == other;
    assert k[|name| + 1..] == database && l[|other| + 1..] == base;
  }

  // ---- the object -----------------------------------------------------------------------------

  class SessionPool {
    var sessions: map<string, nat>
    var closed: bool
    var next: nat
    ghost var keys: seq<string>
    ghost var shut: seq<nat>
    ghost var connector: nat
    ghost var log: seq<Action>

    ghost function View(): State
      reads this
    {
      State(sessions, closed, keys, shut, connector, log)
    }

    ghost predicate Valid()
      reads this
    {
      Inv(View()) && next == |keys|
    }

    constructor ()
      ensures Valid() && View() == START
    {
      sessions, closed, next, keys, shut, connector, log := map[], false, 0, [], [], 0, [];
    }

    /** `fails` is what the connect comes to, if one is made. */
    method GetSession(name: string, database: string, fails: Option<Error>) returns (out: Output)
      requires Valid()
      modifies this
      ensures Valid() && View() == Step(old(View()), Get(KeyOf(name, database), fails))
      ensures out == Result(old(View()), KeyOf(name, database), fails)
    {
      hide Inv, KeyOf;
      var key := KeyOf(name, database);
      GetKeeps(View(), key, fails);
      if closed {
        return ShuttingDown;
      }
      if key in sessions {
        return Session(sessions[key]);
      }
      if fails.Some? {
        return OpenError(fails.value);
      }
      sessions := sessions[key := next];
      log, keys, next := log + [Opens(key, next)], keys + [key], next + 1;
      return Session(next - 1);
    }

    /** The first error of closing the sessions, in the order they come, and then the connector. */
    method CloseAll(order: seq<string>, errs: seq<Option<Error>>, connErr: Option<Error>) returns (err: Option<Error>)
      requires Valid() && CanHappen(View(), Close(order)) && |errs| == |order|
      modifies this
      ensures Valid() && View() == Step(old(View()), Close(order))
      ensures err == FirstError(errs + [connErr])
    {
      hide Inv, FirstError;
      CloseKeeps(View(), order);
      closed := true;
      ghost var shutting := InOrder(sessions, order);
      err := CloseSessions(order, errs);
      assert sessions == map[];
      FirstErrorMore(errs, connErr);
      if connErr.Some? && err.None? {
        err := connErr;
      }
      log, connector := log + [ClosesConnector], connector + 1;
    }

    method CloseSessions(order: seq<string>, errs: seq<Option<Error>>) returns (err: Option<Error>)
      requires CanHappen(View(), Close(order)) && |errs| == |order|
      modifies this`sessions, this`shut, this`log
      ensures sessions.Keys == {} && err == FirstError(errs)
      ensures shut == old(shut) + InOrder(old(sessions), order)
      ensures log == old(log) + Closings(InOrder(old(sessions), order))
    {
      hide FirstError;
      FirstErrorNone();
      ClosingsNone();
      err := None;
      ghost var was, all, done := sessions, InOrder(sessions, order), {};
      assert ToClose(order, was, all, done, 0);
      hide CanHappen, InOrder, Closings, ToClose;
      for i := 0 to |order|
        invariant sessions == was - done && ToClose(order, was, all, done, i)
        invariant shut == old(shut) + all[..i] && log == old(log) + Closings(all[..i])
        invariant err == FirstError(errs[..i])
      {
        Prefixes(errs, all, i);
        NextToClose(order, was, all, done, i);
        var cerr := CloseOne(order[i], errs[i]);
        if cerr.Some? && err.None? {
          err := cerr;
        }
        done := done + {order[i]};
      }
      NoneToClose(order, was, all, done);
      assert errs[..|errs|] == errs && all[..|all|] == all;
    }

    method CloseOne(key: string, fails: Option<Error>) returns (err: Option<Error>)
      requires key in sessions
      modifies this`sessions, this`shut, this`log
      ensures err == fails && sessions == old(sessions) - {key}
      ensures shut == old(shut) + [old(sessions)[key]] && log == old(log) + [Closes(old(sessions)[key])]
    {
      log, shut := log + [Closes(sessions[key])], shut + [sessions[key]];
      sessions := sessions - {key};
      err := fails;
    }
  }

  /** The first `i` keys of the order are done, and the others, each pooled as `all` says, are not. */
  ghost predicate ToClose(order: seq<string>, was: map<string, nat>, all: seq<nat>, done: set<string>, i: nat) {
    && i <= |order| == |all| && (forall k | k in was :: k in order)
    && (forall j, k | 0 <= j < k < |order| :: order[j] != order[k])
    && (forall j | 0 <= j < i :: order[j] in done)
    && (forall j | i <= j < |order| :: order[j] in was && order[j] !in done && was[order[j]] == all[j])
  }

  lemma NextToClose(order: seq<string>, was: map<string, nat>, all: seq<nat>, done: set<string>, i: nat)
    requires ToClose(order, was, all, done, i) && i < |order|
    ensures |order| == |all| && order[i] in was && order[i] !in done && was[order[i]] == all[i]
    ensures ToClose(order, was, all, done + {order[i]}, i + 1)
  {
  }

  lemma NoneToClose(order: seq<string>, was: map<string, nat>, all: seq<nat>, done: set<string>)
    requires ToClose(order, was, all, done, |order|)
    ensures (was - done).Keys == {} && |all| == |order|
  {
  }

  /** One more session closed, with what closing it came to. */
  lemma Prefixes(errs: seq<Option<Error>>, all: seq<nat>, i: nat)
    requires i < |errs| && i < |all|
    ensures all[..i + 1] == all[..i] + [all[i]]
    ensures Closings(all[..i + 1]) == Closings(all[..i]) + [Closes(all[i])]
    ensures FirstError(errs[..i + 1]) == if FirstError(errs[..i]).Some? then FirstError(errs[..i]) else errs[i]
  {
    hide FirstError, Closings;
    assert errs[..i + 1] == errs[..i] + [errs[i]] && all[..i + 1] == all[..i] + [all[i]];
    FirstErrorMore(errs[..i], errs[i]);
    ClosingsMore(all[..i], all[i]);
  }

  lemma ClosingsMore(shut: seq<nat>, id: nat)
    ensures Closings(shut + [id]) == Closings(shut) + [Closes(id)]
  {
  }

  lemma ClosingsNone()
    ensures Closings([]) == []
  {
  }

  lemma FirstErrorNone()
    ensures FirstError([]) == None
  {
  }

  function FirstError(errs: seq<Option<Error>>): Option<Error> {
    if errs == [] then None else if errs[0].Some? then errs[0] else FirstError(errs[1..])
  }

  lemma {:induction false} FirstErrorMore(errs: seq<Option<Error>>, e: Option<Error>)
    ensures FirstError(errs + [e]) == if FirstError(errs).Some? then FirstError(errs) else e
    decreases |errs|
  {
    if errs != [] {
      assert (errs + [e])[1..] == errs[1..] + [e];
      FirstErrorMore(errs[1..], e);
    } else {
      assert [e][1..] == [];
    }
  }
}

/**
 The shared SSH tunnel of internal/sshtunnel/tunnel.go. Dial and Close hold the
 tunnel's mutex throughout; each client is watched by a goroutine that takes
 the mutex only after the client has died, however much later. A run is any
 interleaving of these, with clients dying at any time.
 */
module Tunnel {
  import opened Bytes

  /** The tunnel's fields, and what is going on around it: the SSH clients whose connection is up,
      the clients whose monitor has not finished, and how many there have been. */
  datatype State = State(client: Option<nat>, dropped: bool, closed: bool, live: set<nat>, watched: set<nat>, made: nat)

  /** Dial carries whether a handshake would succeed now. */
  datatype Event = Dial(connects: bool) | Close | Dies(client: nat) | MonitorEnds(client: nat)

  datatype Output = Refused | Failed(dropped: bool) | Through(client: nat)

  const START: State := State(None, false, false, {}, {}, 0)

  /** Only a live client can die, and a monitor ends only after its client died. */
  predicate CanHappen(st: State, e: Event) {
    match e
    case Dies(c) => c in st.live
    case MonitorEnds(c) => c in st.watched && c !in st.live
    case _ => true
  }

  function Step(st: State, e: Event): State
    requires CanHappen(st, e)
  {
    match e
    case Dial(connects) =>
      if st.closed || st.client.Some? || !connects then st
      else
        State(Some(st.made), false, false, st.live + {st.made}, st.watched + {st.made}, st.made + 1)
    case Close =>
      st.(closed := true, client := None, live := if st.client.Some? then st.live - {st.client.value} else st.live)
    case Dies(c) => st.(live := st.live - {c})
    case MonitorEnds(c) =>
      if st.client == Some(c) then st.(client := None, dropped := true, watched := st.watched - {c})
      else st.(watched := st.watched - {c})
  }

  function Result(st: State, connects: bool): Output {
    if st.closed then Refused
    else if st.client.Some? then Through(st.client.value)
    else if !connects then Failed(st.dropped)
    else Through(st.made)
  }

  predicate Happens(st: State, es: seq<Event>)
    decreases |es|
  {
    es == [] || (CanHappen(st, es[0]) && Happens(Step(st, es[0]), es[1..]))
  }

  function Run(st: State, es: seq<Event>): State
    requires Happens(st, es)
    decreases |es|
  {
    if es == [] then st else Run(Step(st, es[0]), es[1..])
  }

  /** Any live client is the tunnel's current one, which is watched; a closed tunnel has none. */
  ghost predicate Inv(st: State) {
    && (forall c | c in st.live :: st.client == Some(c))
    && (st.client.Some? ==> st.client.value in st.watched)
    && (forall c | c in st.watched :: c < st.made)
    && (st.closed ==> st.client.None? && st.live == {})
  }

  lemma StepKeeps(st: State, e: Event)
    requires Inv(st) && CanHappen(st, e)
    ensures Inv(Step(st, e))
  {
    if e.Close? && st.live != {} {
      var c :| c in st.live;
      assert forall d | d in st.live :: d == c;
    }
  }

  lemma {:induction false} RunKeeps(st: State, es: seq<Event>)
    requires Inv(st) && Happens(st, es)
    ensures Inv(Run(st, es))
    decreases |es|
  {
    hide Inv, Step;
    if es != [] {
      StepKeeps(st, es[0]);
      RunKeeps(Step(st, es[0]), es[1..]);
    }
  }

  /** In every run there is at most one live client and it is the tunnel's: none is leaked. */
  lemma NoLeakedClient(es: seq<Event>)
    requires Happens(START, es)
    ensures var st := Run(START, es);
            && (forall c | c in st.live :: st.client == Some(c))
            && |st.live| <= 1
            && (st.closed ==> st.client.None? && st.live == {})
  {
    RunKeeps(START, es);
    var st := Run(START, es);
    if st.live != {} {
      assert st.live == {st.client.value};
    }
  }

  /** A client that is gone never comes back: the next one is new. */
  lemma {:induction false} GoneForGood(st: State, es: seq<Event>, c: nat)
    requires Inv(st) && Happens(st, es) && c < st.made && st.client != Some(c)
    ensures Run(st, es).client != Some(c)
    decreases |es|
  {
    if es != [] {
      StepKeeps(st, es[0]);
      GoneForGood(Step(st, es[0]), es[1..], c);
    }
  }

  /** How long callers share a client: over any interleaving, dials, deaths and the monitors of
      other clients included, until the tunnel is closed or the client's own monitor ends, and no
      longer. Until then every Dial goes through it. */
  lemma {:induction false} ClientStaysExactly(st: State, es: seq<Event>, c: nat)
    requires Inv(st) && Happens(st, es) && st.client == Some(c)
    ensures Run(st, es).client == Some(c) <==> Close !in es && MonitorEnds(c) !in es
    ensures Close !in es && MonitorEnds(c) !in es ==>
              Run(st, es).made == st.made && forall connects :: Result(Run(st, es), connects) == Through(c)
    decreases |es|
  {
    if es != [] {
      var next := Step(st, es[0]);
      assert es == [es[0]] + es[1..];
      StepKeeps(st, es[0]);
      if es[0] == Close || es[0] == MonitorEnds(c) {
        GoneForGood(next, es[1..], c);
      } else {
        ClientStaysExactly(next, es[1..], c);
      }
    }
  }

  /** Closed is for good: no client ever again, and every Dial is refused. */
  lemma {:induction false} ClosedIsFinal(st: State, es: seq<Event>)
    requires Inv(st) && st.closed && Happens(st, es)
    ensures var end := Run(st, es); end.closed && end.client.None? && end.live == {} && end.made == st.made
    ensures forall connects :: Result(Run(st, es), connects) == Refused
    decreases |es|
  {
    if es != [] {
      StepKeeps(st, es[0]);
      ClosedIsFinal(Step(st, es[0]), es[1..]);
    }
  }

  /** A client that died is replaced: once its monitor has ended, a Dial makes a new handshake,
      and reports that the connection had dropped if that fails. */
  lemma DroppedReconnects(es: seq<Event>, c: nat, connects: bool)
    requires Happens(START, es)
    requires var st := Run(START, es); st.client == Some(c) && CanHappen(st, MonitorEnds(c))
    ensures var st := Run(START, es); var next := Step(st, MonitorEnds(c));
            && Result(next, connects) == (if connects then Through(st.made) else Failed(true))
            && (connects ==> st.made != c && Step(next, Dial(true)).client == Some(st.made))
  {
    RunKeeps(START, es);
  }

  class SshTunnel {
    var client: Option<nat>
    var dropped: bool
    var closed: bool
    ghost var live: set<nat>
    ghost var watched: set<nat>
    var made: nat

    ghost function View(): State
      reads this
    {
      State(client, dropped, closed, live, watched, made)
    }

    constructor ()
      ensures View() == START && Inv(View())
    {
      client, dropped, closed, live, watched, made := None, false, false, {}, {}, 0;
    }

    /** `connects` is what the handshake comes to, if one is made. */
    method DialThrough(connects: bool) returns (out: Output)
      requires Inv(View())
      modifies this
      ensures View() == Step(old(View()), Dial(connects)) && Inv(View()) && out == Result(old(View()), connects)
    {
      StepKeeps(View(), Dial(connects));
      if closed {
        return Refused;
      }
      if client.None? {
        if !connects {
          return Failed(dropped);
        }
        client := Some(made);
        dropped := false;
        live, watched, made := live + {made}, watched + {made}, made + 1;
      }
      return Through(client.value);
    }

    method CloseTunnel()
      requires Inv(View())
      modifies this
      ensures View() == Step(old(View()), Close) && Inv(View())
    {
      StepKeeps(View(), Close);
      closed := true;
      if client.None? {
        return;
      }
      live := live - {client.value};
      client := None;
    }

    /** What a monitor does once its client is gone. */
    method EndMonitor(c: nat)
      requires Inv(View()) && CanHappen(View(), MonitorEnds(c))
      modifies this
      ensures View() == Step(old(View()), MonitorEnds(c)) && Inv(View())
    {
      StepKeeps(View(), MonitorEnds(c));
      if client == Some(c) {
        client := None;
        dropped := true;
      }
      watched := watched - {c};
    }
  }
}

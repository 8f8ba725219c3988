/**
 Reading a connection back from its mapping, key by key, as the configuration
 is loaded: nothing here looks at the table of fields that the writer goes by.
 After a merge, or in a freshly written entry, what is read is the record that
 was to be written.
 */
module ConfigRead {
  import opened Bytes
  import opened Printing
  import opened ConfigMerge

  // ---- values ------------------------------------------------------------------

  function IntOf(s: string): int { if s != "" && s[0] == '-' then -NatOf(s[1..]) else NatOf(s) }

  function TextOf(e: Option<Entry>): string { if e.Some? && e.value.value.Scalar? then e.value.value.value else "" }

  function NumberOf(e: Option<Entry>): int { IntOf(TextOf(e)) }

  predicate TrueOf(e: Option<Entry>) { TextOf(e) == "true" }

  function ItemsOf(e: Option<Entry>): seq<string> {
    if e.Some? && e.value.value.Sequence? then
      var items := e.value.value.items;
      seq(|items|, i requires 0 <= i < |items| => if items[i].Scalar? then items[i].value else "")
    else []
  }

  function SshIn(es: seq<Entry>): SSH {
    SSH(TextOf(Get(es, "bastion")), TextOf(Get(es, "user")), NumberOf(Get(es, "port")), TextOf(Get(es, "agent_socket")))
  }

  function TlsIn(es: seq<Entry>): TLS {
    TLS(TextOf(Get(es, "mode")), TextOf(Get(es, "ca")), TextOf(Get(es, "cert")), TextOf(Get(es, "key")),
        TextOf(Get(es, "server_name")))
  }

  function SshOf(e: Option<Entry>): Option<SSH> { if e.None? then None else Some(SshIn(InnerOf(e.value.value))) }

  function TlsOf(e: Option<Entry>): Option<TLS> { if e.None? then None else Some(TlsIn(InnerOf(e.value.value))) }

  function ConnectionOf(es: seq<Entry>): Connection {
    Connection(
      TextOf(Get(es, "name")), TextOf(Get(es, "type")), TextOf(Get(es, "host")), NumberOf(Get(es, "port")),
      TextOf(Get(es, "user")), TextOf(Get(es, "password")), TextOf(Get(es, "database")),
      SshOf(Get(es, "ssh")), TlsOf(Get(es, "tls")),
      TextOf(Get(es, "connect_timeout")), TextOf(Get(es, "protocol")), TextOf(Get(es, "mode")),
      TextOf(Get(es, "master_name")), ItemsOf(Get(es, "addresses")), TrueOf(Get(es, "allow_write")))
  }

  /** A block with nothing in it is no block: it is not written. */
  function TidySsh(s: Option<SSH>): Option<SSH> { if s == Some(SSH("", "", 0, "")) then None else s }

  function TidyTls(t: Option<TLS>): Option<TLS> { if t == Some(TLS("", "", "", "", "")) then None else t }

  function Tidy(c: Connection): Connection { c.(ssh := TidySsh(c.ssh), tls := TidyTls(c.tls)) }

  // ---- one field -------------------------------------------------------------------

  lemma NumberReads(v: int)
    ensures match Num(v) case Some(n) => n.Scalar? && IntOf(n.value) == v case None => v == 0
  {
    if v > 0 {
      DecimalReads(v);
    } else if v < 0 {
      DecimalReads(-v);
      assert ("-" + Decimal(-v))[1..] == Decimal(-v);
    }
  }

  lemma TextField(e: Option<Entry>, key: string, a: string, b: string, hasOld: bool)
    requires hasOld ==> TextOf(e) == a
    ensures TextOf(After(e, Leaf(key, Str(a), Str(b)), hasOld)) == b
  {
  }

  lemma NumberField(e: Option<Entry>, key: string, a: int, b: int, hasOld: bool)
    requires hasOld ==> NumberOf(e) == a
    ensures NumberOf(After(e, Leaf(key, Num(a), Num(b)), hasOld)) == b
  {
    hide Decimal, IntOf, Num;
    NumberReads(a);
    NumberReads(b);
    assert IntOf("") == 0 by { NoNumber(); }
  }

  lemma NoNumber()
    ensures IntOf("") == 0
  {
  }

  lemma TrueField(e: Option<Entry>, key: string, a: bool, b: bool, hasOld: bool)
    requires hasOld ==> TrueOf(e) == a
    ensures TrueOf(After(e, Leaf(key, Yes(a), Yes(b)), hasOld)) == b
  {
    assert "true" != "";
  }

  lemma ListReads(values: seq<string>, n: Node)
    requires List(values) == Some(n)
    ensures forall k, m :: ItemsOf(Some(Entry(k, m, n))) == values
    ensures forall k, m, c :: ItemsOf(Some(Entry(k, m, WithNotes(n, c)))) == values
  {
    forall k, m, c
      ensures ItemsOf(Some(Entry(k, m, WithNotes(n, c)))) == values
    {
      assert WithNotes(n, c).items == n.items;
    }
  }

  lemma SameList(a: seq<string>, b: seq<string>)
    requires OptEqual(List(a), List(b))
    ensures a == b
  {
    if a != [] && b != [] {
      var x, y := List(a).value.items, List(b).value.items;
      assert |a| == |x| == |y| == |b|;
      forall i | 0 <= i < |a|
        ensures a[i] == b[i]
      {
        assert NodeEqual(x[i], y[i]);
      }
    }
  }

  lemma ListField(e: Option<Entry>, key: string, a: seq<string>, b: seq<string>, hasOld: bool)
    requires hasOld ==> ItemsOf(e) == a
    ensures ItemsOf(After(e, Leaf(key, List(a), List(b)), hasOld)) == b
  {
    hide ItemsOf, List, WithNotes, OptEqual;
    var g := Leaf(key, List(a), List(b));
    NoItems();
    if Unchanged(g, hasOld) {
      SameList(a, b);
    } else if List(b).Some? {
      ListReads(b, List(b).value);
    } else {
      ListNone(b);
    }
  }

  lemma NoItems()
    ensures ItemsOf(None) == []
  {
  }

  lemma ListNone(b: seq<string>)
    requires List(b).None?
    ensures b == []
  {
  }

  lemma TextBuilt(key: string, a: string, b: string, cur: bool)
    ensures TextOf(BuiltEntry(Leaf(key, Str(a), Str(b)), cur)) == if cur then b else a
  {
  }

  lemma NumberBuilt(key: string, a: int, b: int, cur: bool)
    ensures NumberOf(BuiltEntry(Leaf(key, Num(a), Num(b)), cur)) == if cur then b else a
  {
    hide Decimal, IntOf, Num;
    NumberReads(a);
    NumberReads(b);
    NoNumber();
  }

  lemma MappingsEqual(xs: seq<Entry>, ys: seq<Entry>)
    requires NodeEqual(Mapping(xs, NO_NOTES), Mapping(ys, NO_NOTES))
    ensures |xs| == |ys| && forall i | 0 <= i < |xs| :: xs[i].key == ys[i].key && NodeEqual(xs[i].value, ys[i].value)
  {
  }

  // ---- the ssh block ----------------------------------------------------------------------

  function SshOr(s: Option<SSH>): SSH { if s.Some? then s.value else SSH("", "", 0, "") }

  lemma SshTable(p: Option<SSH>, q: Option<SSH>)
    ensures var g, o, c := SshFields(p, q), SshOr(p), SshOr(q);
            && g.Block? && g.key == "ssh" && g.hadOld == p.Some? && g.hasCur == q.Some? && |g.fields| == 4
            && g.fields[0] == Leaf("bastion", Str(o.bastion), Str(c.bastion))
            && g.fields[1] == Leaf("user", Str(o.user), Str(c.user))
            && g.fields[2] == Leaf("port", Num(o.port), Num(c.port))
            && g.fields[3] == Leaf("agent_socket", Str(o.agentSocket), Str(c.agentSocket))
  {
    hide Str, Num;
  }

  /** What is built reads back. */
  lemma SshBuilt(p: Option<SSH>, q: Option<SSH>, cur: bool)
    ensures var g := SshFields(p, q); g.Block? && SshIn(BuiltEntries(g, cur, 0)) == if cur then SshOr(q) else SshOr(p)
  {
    hide Str, Num, SshFields, BuiltEntries, Get, TextOf, IntOf, Distinct, Decimal, NoDup, LaterField;
    SshTable(p, q);
    BlocksDistinct(p, q, None, None);
    var g, o, c := SshFields(p, q), SshOr(p), SshOr(q);
    BuiltGets(g, cur, 0, "bastion");
    TextBuilt(g.fields[0].key, o.bastion, c.bastion, cur);
    BuiltGets(g, cur, 0, "user");
    TextBuilt(g.fields[1].key, o.user, c.user, cur);
    BuiltGets(g, cur, 0, "port");
    NumberBuilt(g.fields[2].key, o.port, c.port, cur);
    BuiltGets(g, cur, 0, "agent_socket");
    TextBuilt(g.fields[3].key, o.agentSocket, c.agentSocket, cur);
  }

  /** Merging the block's fields into entries that read as the old block makes them read as the new one. */
  lemma SshMerged(es: seq<Entry>, p: Option<SSH>, q: Option<SSH>, hasOld: bool)
    requires NoDup(es) && (hasOld ==> SshIn(es) == SshOr(p))
    ensures var g := SshFields(p, q); g.Block? && SshIn(Merge(es, g, hasOld)) == SshOr(q)
  {
    hide Str, Num, SshFields, Merge, Get, TextOf, IntOf, Distinct, Decimal, NoDup, After, Listed;
    SshTable(p, q);
    BlocksDistinct(p, q, None, None);
    var g, o, c := SshFields(p, q), SshOr(p), SshOr(q);
    MergeExactly(es, g, hasOld);
    assert Get(Merge(es, g, hasOld), g.fields[0].key) == After(Get(es, "bastion"), g.fields[0], hasOld);
    TextField(Get(es, "bastion"), "bastion", o.bastion, c.bastion, hasOld);
    assert Get(Merge(es, g, hasOld), g.fields[1].key) == After(Get(es, "user"), g.fields[1], hasOld);
    TextField(Get(es, "user"), "user", o.user, c.user, hasOld);
    assert Get(Merge(es, g, hasOld), g.fields[2].key) == After(Get(es, "port"), g.fields[2], hasOld);
    NumberField(Get(es, "port"), "port", o.port, c.port, hasOld);
    assert Get(Merge(es, g, hasOld), g.fields[3].key) == After(Get(es, "agent_socket"), g.fields[3], hasOld);
    TextField(Get(es, "agent_socket"), "agent_socket", o.agentSocket, c.agentSocket, hasOld);
  }

  lemma SshSame(xs: seq<Entry>, ys: seq<Entry>)
    requires |xs| == |ys| && forall i | 0 <= i < |xs| :: xs[i].key == ys[i].key && NodeEqual(xs[i].value, ys[i].value)
    ensures SshIn(xs) == SshIn(ys)
  {
    hide Get, Find, IntOf;
    EqualGets(xs, ys, "bastion");
    EqualGets(xs, ys, "user");
    EqualGets(xs, ys, "port");
    EqualGets(xs, ys, "agent_socket");
  }

  lemma SshNothing()
    ensures SshIn([]) == SSH("", "", 0, "")
  {
    NoNumber();
  }

  /** The entry of the block after the merge. */
  lemma SshField(e: Option<Entry>, p: Option<SSH>, q: Option<SSH>, hasOld: bool)
    requires e.Some? ==> NoDup(InnerOf(e.value.value))
    requires hasOld ==> TidySsh(SshOf(e)) == TidySsh(p)
    ensures TidySsh(SshOf(After(e, SshFields(p, q), hasOld))) == TidySsh(q)
  {
    hide SshFields, BuiltEntries, MergeFrom, SshIn, NodeEqual, NoDup;
    var g := SshFields(p, q);
    SshTable(p, q);
    SshBuilt(p, q, false);
    SshBuilt(p, q, true);
    SshNothing();
    if Unchanged(g, hasOld) {
      if Built(g, false).Some? {
        SshSame(BuiltEntries(g, false, 0), BuiltEntries(g, true, 0)) by {
          MappingsEqual(BuiltEntries(g, false, 0), BuiltEntries(g, true, 0));
        }
      }
    } else if Built(g, true).Some? && hasOld && e.Some? {
      SshMerged(InnerOf(e.value.value), p, q, g.hadOld);
    }
  }

  // ---- the tls block ----------------------------------------------------------------------

  function TlsOr(s: Option<TLS>): TLS { if s.Some? then s.value else TLS("", "", "", "", "") }

  lemma TlsTable(p: Option<TLS>, q: Option<TLS>)
    ensures var g, o, c := TlsFields(p, q), TlsOr(p), TlsOr(q);
            && g.Block? && g.key == "tls" && g.hadOld == p.Some? && g.hasCur == q.Some? && |g.fields| == 5
            && g.fields[0] == Leaf("mode", Str(o.mode), Str(c.mode))
            && g.fields[1] == Leaf("ca", Str(o.ca), Str(c.ca))
            && g.fields[2] == Leaf("cert", Str(o.cert), Str(c.cert))
            && g.fields[3] == Leaf("key", Str(o.keyFile), Str(c.keyFile))
            && g.fields[4] == Leaf("server_name", Str(o.serverName), Str(c.serverName))
  {
    hide Str, Num;
  }

  /** What is built reads back. */
  lemma TlsBuilt(p: Option<TLS>, q: Option<TLS>, cur: bool)
    ensures var g := TlsFields(p, q); g.Block? && TlsIn(BuiltEntries(g, cur, 0)) == if cur then TlsOr(q) else TlsOr(p)
  {
    hide Str, Num, TlsFields, BuiltEntries, Get, TextOf, IntOf, Distinct, Decimal, NoDup, LaterField;
    TlsTable(p, q);
    BlocksDistinct(None, None, p, q);
    var g, o, c := TlsFields(p, q), TlsOr(p), TlsOr(q);
    BuiltGets(g, cur, 0, "mode");
    TextBuilt(g.fields[0].key, o.mode, c.mode, cur);
    BuiltGets(g, cur, 0, "ca");
    TextBuilt(g.fields[1].key, o.ca, c.ca, cur);
    BuiltGets(g, cur, 0, "cert");
    TextBuilt(g.fields[2].key, o.cert, c.cert, cur);
    BuiltGets(g, cur, 0, "key");
    TextBuilt(g.fields[3].key, o.keyFile, c.keyFile, cur);
    BuiltGets(g, cur, 0, "server_name");
    TextBuilt(g.fields[4].key, o.serverName, c.serverName, cur);
  }

  /** Merging the block's fields into entries that read as the old block makes them read as the new one. */
  lemma TlsMerged(es: seq<Entry>, p: Option<TLS>, q: Option<TLS>, hasOld: bool)
    requires NoDup(es) && (hasOld ==> TlsIn(es) == TlsOr(p))
    ensures var g := TlsFields(p, q); g.Block? && TlsIn(Merge(es, g, hasOld)) == TlsOr(q)
  {
    hide Str, Num, TlsFields, Merge, Get, TextOf, IntOf, Distinct, Decimal, NoDup, After, Listed;
    TlsTable(p, q);
    BlocksDistinct(None, None, p, q);
    var g, o, c := TlsFields(p, q), TlsOr(p), TlsOr(q);
    MergeExactly(es, g, hasOld);
    assert Get(Merge(es, g, hasOld), g.fields[0].key) == After(Get(es, "mode"), g.fields[0], hasOld);
    TextField(Get(es, "mode"), "mode", o.mode, c.mode, hasOld);
    assert Get(Merge(es, g, hasOld), g.fields[1].key) == After(Get(es, "ca"), g.fields[1], hasOld);
    TextField(Get(es, "ca"), "ca", o.ca, c.ca, hasOld);
    assert Get(Merge(es, g, hasOld), g.fields[2].key) == After(Get(es, "cert"), g.fields[2], hasOld);
    TextField(Get(es, "cert"), "cert", o.cert, c.cert, hasOld);
    assert Get(Merge(es, g, hasOld), g.fields[3].key) == After(Get(es, "key"), g.fields[3], hasOld);
    TextField(Get(es, "key"), "key", o.keyFile, c.keyFile, hasOld);
    assert Get(Merge(es, g, hasOld), g.fields[4].key) == After(Get(es, "server_name"), g.fields[4], hasOld);
    TextField(Get(es, "server_name"), "server_name", o.serverName, c.serverName, hasOld);
  }

  lemma TlsSame(xs: seq<Entry>, ys: seq<Entry>)
    requires |xs| == |ys| && forall i | 0 <= i < |xs| :: xs[i].key == ys[i].key && NodeEqual(xs[i].value, ys[i].value)
    ensures TlsIn(xs) == TlsIn(ys)
  {
    hide Get, Find, IntOf;
    EqualGets(xs, ys, "mode");
    EqualGets(xs, ys, "ca");
    EqualGets(xs, ys, "cert");
    EqualGets(xs, ys, "key");
    EqualGets(xs, ys, "server_name");
  }

  lemma TlsNothing()
    ensures TlsIn([]) == TLS("", "", "", "", "")
  {
    NoNumber();
  }

  /** The entry of the block after the merge. */
  lemma TlsField(e: Option<Entry>, p: Option<TLS>, q: Option<TLS>, hasOld: bool)
    requires e.Some? ==> NoDup(InnerOf(e.value.value))
    requires hasOld ==> TidyTls(TlsOf(e)) == TidyTls(p)
    ensures TidyTls(TlsOf(After(e, TlsFields(p, q), hasOld))) == TidyTls(q)
  {
    hide TlsFields, BuiltEntries, MergeFrom, TlsIn, NodeEqual, NoDup;
    var g := TlsFields(p, q);
    TlsTable(p, q);
    TlsBuilt(p, q, false);
    TlsBuilt(p, q, true);
    TlsNothing();
    if Unchanged(g, hasOld) {
      if Built(g, false).Some? {
        TlsSame(BuiltEntries(g, false, 0), BuiltEntries(g, true, 0)) by {
          MappingsEqual(BuiltEntries(g, false, 0), BuiltEntries(g, true, 0));
        }
      }
    } else if Built(g, true).Some? && hasOld && e.Some? {
      TlsMerged(InnerOf(e.value.value), p, q, g.hadOld);
    }
  }

  // ---- the connection ------------------------------------------------------------------------

  lemma FirstFields(o: Connection, c: Connection)
    ensures var f := ConnectionFields(o, c);
            && f.Block? && |f.fields| == 15
            && f.fields[0] == Leaf("name", Str(o.name), Str(c.name))
            && f.fields[1] == Leaf("type", Str(o.engine), Str(c.engine))
            && f.fields[2] == Leaf("host", Str(o.host), Str(c.host))
            && f.fields[3] == Leaf("port", Num(o.port), Num(c.port))
            && f.fields[4] == Leaf("user", Str(o.user), Str(c.user))
  {
    hide Str, Num, Yes, List, SshFields, TlsFields;
  }

  lemma MiddleFields(o: Connection, c: Connection)
    ensures var f := ConnectionFields(o, c);
            && f.Block? && |f.fields| == 15
            && f.fields[5] == Leaf("password", Str(o.password), Str(c.password))
            && f.fields[6] == Leaf("database", Str(o.database), Str(c.database))
            && f.fields[7] == SshFields(o.ssh, c.ssh)
            && f.fields[8] == TlsFields(o.tls, c.tls)
            && f.fields[9] == Leaf("connect_timeout", Str(o.connectTimeout), Str(c.connectTimeout))
  {
    hide Str, Num, Yes, List, SshFields, TlsFields;
  }

  lemma LastFields(o: Connection, c: Connection)
    ensures var f := ConnectionFields(o, c);
            && f.Block? && |f.fields| == 15
            && f.fields[10] == Leaf("protocol", Str(o.protocol), Str(c.protocol))
            && f.fields[11] == Leaf("mode", Str(o.mode), Str(c.mode))
            && f.fields[12] == Leaf("master_name", Str(o.masterName), Str(c.masterName))
            && f.fields[13] == Leaf("addresses", List(o.addresses), List(c.addresses))
            && f.fields[14] == Leaf("allow_write", Yes(o.allowWrite), Yes(c.allowWrite))
  {
    hide Str, Num, Yes, List, SshFields, TlsFields;
  }

  lemma BlockKeys(o: Connection, c: Connection)
    ensures SshFields(o.ssh, c.ssh).key == "ssh" && TlsFields(o.tls, c.tls).key == "tls"
  {
    hide Str, Num;
  }

  lemma ConnectionTable(o: Connection, c: Connection)
    ensures var f := ConnectionFields(o, c);
            && f.Block? && |f.fields| == 15
            && f.fields[0] == Leaf("name", Str(o.name), Str(c.name))
            && f.fields[1] == Leaf("type", Str(o.engine), Str(c.engine))
            && f.fields[2] == Leaf("host", Str(o.host), Str(c.host))
            && f.fields[3] == Leaf("port", Num(o.port), Num(c.port))
            && f.fields[4] == Leaf("user", Str(o.user), Str(c.user))
            && f.fields[5] == Leaf("password", Str(o.password), Str(c.password))
            && f.fields[6] == Leaf("database", Str(o.database), Str(c.database))
            && f.fields[7] == SshFields(o.ssh, c.ssh)
            && f.fields[8] == TlsFields(o.tls, c.tls)
            && f.fields[9] == Leaf("connect_timeout", Str(o.connectTimeout), Str(c.connectTimeout))
            && f.fields[10] == Leaf("protocol", Str(o.protocol), Str(c.protocol))
            && f.fields[11] == Leaf("mode", Str(o.mode), Str(c.mode))
            && f.fields[12] == Leaf("master_name", Str(o.masterName), Str(c.masterName))
            && f.fields[13] == Leaf("addresses", List(o.addresses), List(c.addresses))
            && f.fields[14] == Leaf("allow_write", Yes(o.allowWrite), Yes(c.allowWrite))
            && f.fields[7].key == "ssh" && f.fields[8].key == "tls"
  {
    hide Str, Num, Yes, List, SshFields, TlsFields, ConnectionFields;
    FirstFields(o, c);
    MiddleFields(o, c);
    LastFields(o, c);
    BlockKeys(o, c);
  }

  /** No key is repeated, in the mapping and in the blocks below it. */
  predicate NoRepeats(es: seq<Entry>) { NoDup(es) && forall i | 0 <= i < |es| :: NoDup(InnerOf(es[i].value)) }

  lemma InnerNoDup(es: seq<Entry>, key: string)
    requires NoRepeats(es)
    ensures Get(es, key).Some? ==> NoDup(InnerOf(Get(es, key).value.value))
  {
  }

  lemma FieldMerged(es: seq<Entry>, o: Connection, c: Connection, hasOld: bool, i: nat)
    requires NoDup(es) && i < 15
    ensures var f := ConnectionFields(o, c);
            f.Block? && |f.fields| == 15
            && Get(Merge(es, f, hasOld), f.fields[i].key) == After(Get(es, f.fields[i].key), f.fields[i], hasOld)
  {
    hide ConnectionFields, Merge, Get, After, NoDup, Distinct, Listed;
    ConnectionTable(o, c);
    ConnectionDistinct(o, c);
    MergeExactly(es, ConnectionFields(o, c), hasOld);
  }

  /** Merging a changed record: a mapping that reads as the old connection reads as the new one
      afterwards, key by key, in blocks, numbers, lists and the Boolean. Without an old record it
      reads as the new one whatever it held. */
  lemma MergeReads(es: seq<Entry>, o: Connection, c: Connection, hasOld: bool)
    requires NoRepeats(es) && (hasOld ==> Tidy(ConnectionOf(es)) == Tidy(o))
    ensures ConnectionFields(o, c).Block?
    ensures Tidy(ConnectionOf(Merge(es, ConnectionFields(o, c), hasOld))) == Tidy(c)
  {
    hide ConnectionFields, SshFields, TlsFields, Str, Num, Yes, List, Merge, Get, After, NoDup, Distinct,
      TextOf, NumberOf, TrueOf, ItemsOf, SshOf, TlsOf, TidySsh, TidyTls;
    ConnectionTable(o, c);
    var f := ConnectionFields(o, c);
    forall i: nat | i < 15
      ensures Get(Merge(es, f, hasOld), f.fields[i].key) == After(Get(es, f.fields[i].key), f.fields[i], hasOld)
    {
      FieldMerged(es, o, c, hasOld, i);
    }
    InnerNoDup(es, "ssh");
    InnerNoDup(es, "tls");
    TextField(Get(es, f.fields[0].key), f.fields[0].key, o.name, c.name, hasOld);
    TextField(Get(es, f.fields[1].key), f.fields[1].key, o.engine, c.engine, hasOld);
    TextField(Get(es, f.fields[2].key), f.fields[2].key, o.host, c.host, hasOld);
    NumberField(Get(es, f.fields[3].key), f.fields[3].key, o.port, c.port, hasOld);
    TextField(Get(es, f.fields[4].key), f.fields[4].key, o.user, c.user, hasOld);
    TextField(Get(es, f.fields[5].key), f.fields[5].key, o.password, c.password, hasOld);
    TextField(Get(es, f.fields[6].key), f.fields[6].key, o.database, c.database, hasOld);
    TextField(Get(es, f.fields[9].key), f.fields[9].key, o.connectTimeout, c.connectTimeout, hasOld);
    TextField(Get(es, f.fields[10].key), f.fields[10].key, o.protocol, c.protocol, hasOld);
    TextField(Get(es, f.fields[11].key), f.fields[11].key, o.mode, c.mode, hasOld);
    TextField(Get(es, f.fields[12].key), f.fields[12].key, o.masterName, c.masterName, hasOld);
    ListField(Get(es, f.fields[13].key), f.fields[13].key, o.addresses, c.addresses, hasOld);
    TrueField(Get(es, f.fields[14].key), f.fields[14].key, o.allowWrite, c.allowWrite, hasOld);
    SshField(Get(es, f.fields[7].key), o.ssh, c.ssh, hasOld);
    TlsField(Get(es, f.fields[8].key), o.tls, c.tls, hasOld);
  }

  /** A freshly built entry reads back. */
  lemma BuiltReads(o: Connection, c: Connection)
    ensures ConnectionFields(o, c).Block?
    ensures Tidy(ConnectionOf(BuiltEntries(ConnectionFields(o, c), true, 0))) == Tidy(c)
  {
    hide ConnectionFields, BuiltEntries, MergeFrom, Distinct, Get;
    ConnectionTable(o, c);
    ConnectionDistinct(o, c);
    var f := ConnectionFields(o, c);
    forall j | 0 <= j < |f.fields|
      ensures Get([], f.fields[j].key).None?
    {
      NothingThere(f.fields[j].key);
    }
    BlockIsMerge(f, [], 0);
    assert [] + BuiltEntries(f, true, 0) == BuiltEntries(f, true, 0);
    MergeReads([], o, c, false);
  }

  // ---- tags --------------------------------------------------------------------------------------

  /** How YAML is to read the value of a key: only ports are numbers and only the permission to
      write is a Boolean, so that a password of digits stays a text. */
  function TagFor(key: string): string {
    if key == "port" then "!!int" else if key == "allow_write" then "!!bool" else "!!str"
  }

  predicate Tagged(key: string, n: Node)
    decreases n
  {
    match n
    case Scalar(tag, _, _) => tag == TagFor(key)
    case Sequence(items, _) => forall i | 0 <= i < |items| :: items[i].Scalar? && items[i].tag == "!!str"
    case Mapping(entries, _) => forall i | 0 <= i < |entries| :: Tagged(entries[i].key, entries[i].value)
  }

  predicate TaggedField(f: Field)
    decreases f
  {
    match f
    case Leaf(key, _, want) => want.Some? ==> Tagged(key, want.value)
    case Block(_, _, _, fields) => forall i | 0 <= i < |fields| :: TaggedField(fields[i])
  }

  predicate AllTagged(es: seq<Entry>) { forall k | 0 <= k < |es| :: Tagged(es[k].key, es[k].value) }

  lemma {:induction false} BuiltTagged(f: Field)
    requires TaggedField(f) && Built(f, true).Some?
    ensures Tagged(f.key, Built(f, true).value)
    decreases f, if f.Block? then |f.fields| + 1 else 0
  {
    hide BuiltEntries;
    if f.Block? {
      EntriesTagged(f, 0);
      assert Built(f, true) == Some(Mapping(BuiltEntries(f, true, 0), NO_NOTES));
    }
  }

  lemma OneTagged(e: Entry, rest: seq<Entry>)
    requires Tagged(e.key, e.value) && AllTagged(rest)
    ensures AllTagged([e] + rest)
  {
    hide Tagged;
  }

  lemma {:induction false} EntriesTagged(f: Field, i: nat)
    requires f.Block? && TaggedField(f) && i <= |f.fields|
    ensures AllTagged(BuiltEntries(f, true, i))
    decreases f, |f.fields| - i
  {
    hide Tagged, Built, AllTagged;
    if i < |f.fields| {
      var rest := BuiltEntries(f, true, i + 1);
      EntriesTagged(f, i + 1);
      match Built(f.fields[i], true)
      case Some(n) =>
        BuiltTagged(f.fields[i]);
        OneTagged(Entry(f.fields[i].key, NO_NOTES, n), rest);
        assert BuiltEntries(f, true, i) == [Entry(f.fields[i].key, NO_NOTES, n)] + rest;
      case None =>
        assert BuiltEntries(f, true, i) == [] + rest == rest;
    } else {
      NoneTagged();
    }
  }

  lemma NoneTagged()
    ensures AllTagged([])
  {
  }

  lemma BlockTagged(f: Field)
    requires f.Block? && forall i | 0 <= i < |f.fields| :: TaggedField(f.fields[i])
    ensures TaggedField(f)
  {
  }

  lemma LeafTagged(key: string, was: Option<Node>, v: string)
    requires key != "port" && key != "allow_write"
    ensures TaggedField(Leaf(key, was, Str(v)))
  {
  }

  lemma SshTagged(p: Option<SSH>, q: Option<SSH>)
    ensures TaggedField(SshFields(p, q))
  {
    hide Str, Num, SshFields;
    SshTable(p, q);
    var f, c := SshFields(p, q), SshOr(q);
    LeafTagged("bastion", f.fields[0].was, c.bastion);
    LeafTagged("user", f.fields[1].was, c.user);
    NumberTagged(f.fields[2].was, c.port);
    LeafTagged("agent_socket", f.fields[3].was, c.agentSocket);
  }

  lemma NumberTagged(was: Option<Node>, v: int)
    ensures TaggedField(Leaf("port", was, Num(v)))
  {
    hide Decimal;
  }

  lemma TlsTagged(p: Option<TLS>, q: Option<TLS>)
    ensures TaggedField(TlsFields(p, q))
  {
    hide Str, Num, TlsFields;
    TlsTable(p, q);
    var f, c := TlsFields(p, q), TlsOr(q);
    LeafTagged("mode", f.fields[0].was, c.mode);
    LeafTagged("ca", f.fields[1].was, c.ca);
    LeafTagged("cert", f.fields[2].was, c.cert);
    LeafTagged("key", f.fields[3].was, c.keyFile);
    LeafTagged("server_name", f.fields[4].was, c.serverName);
  }

  lemma ConnectionTagged(o: Connection, c: Connection)
    ensures TaggedField(ConnectionFields(o, c))
  {
    hide Str, Num, Yes, List, ConnectionFields, SshFields, TlsFields, TaggedField;
    ConnectionTable(o, c);
    var f := ConnectionFields(o, c);
    SshTagged(o.ssh, c.ssh);
    TlsTagged(o.tls, c.tls);
    NumberTagged(f.fields[3].was, c.port);
    ListTagged(f.fields[13].was, c.addresses);
    YesTagged(f.fields[14].was, c.allowWrite);
    LeafTagged("name", f.fields[0].was, c.name);
    LeafTagged("type", f.fields[1].was, c.engine);
    LeafTagged("host", f.fields[2].was, c.host);
    LeafTagged("user", f.fields[4].was, c.user);
    LeafTagged("password", f.fields[5].was, c.password);
    LeafTagged("database", f.fields[6].was, c.database);
    LeafTagged("connect_timeout", f.fields[9].was, c.connectTimeout);
    LeafTagged("protocol", f.fields[10].was, c.protocol);
    LeafTagged("mode", f.fields[11].was, c.mode);
    LeafTagged("master_name", f.fields[12].was, c.masterName);
    BlockTagged(f);
  }

  lemma ListTagged(was: Option<Node>, v: seq<string>)
    ensures TaggedField(Leaf("addresses", was, List(v)))
  {
  }

  lemma YesTagged(was: Option<Node>, v: bool)
    ensures TaggedField(Leaf("allow_write", was, Yes(v)))
  {
  }

  /** Every value of a freshly built entry, in blocks and lists too, is tagged for its key. */
  lemma WrittenTags(o: Connection, c: Connection)
    ensures ConnectionFields(o, c).Block?
    ensures AllTagged(BuiltEntries(ConnectionFields(o, c), true, 0))
  {
    hide ConnectionFields, BuiltEntries;
    ConnectionTable(o, c);
    ConnectionTagged(o, c);
    EntriesTagged(ConnectionFields(o, c), 0);
  }
}

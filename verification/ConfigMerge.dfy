/**
 The merge of internal/config/write.go: a changed record is written into the
 mapping that stores the old one, touching only the entries that change. What
 merge does to each key is given independently of the others and of the order;
 that the mapping then stores the new record follows.
 */
module ConfigMerge {
  import opened Bytes
  import opened Printing

  // ---- nodes ---------------------------------------------------------------------

  /** The comments a node carries. */
  datatype Notes = Notes(head: string, line: string, foot: string)

  const NO_NOTES: Notes := Notes("", "", "")

  /** A YAML node; a mapping holds its keys and values in pairs, in file order. */
  datatype Node =
    | Scalar(tag: string, value: string, notes: Notes)
    | Sequence(items: seq<Node>, notes: Notes)
    | Mapping(entries: seq<Entry>, notes: Notes)

  datatype Entry = Entry(key: string, keyNotes: Notes, value: Node)

  /** The node without any comments: the value it encodes. */
  function Bare(n: Node): Node
    decreases n
  {
    match n
    case Scalar(tag, value, _) => Scalar(tag, value, NO_NOTES)
    case Sequence(items, _) => Sequence(seq(|items|, i requires 0 <= i < |items| => Bare(items[i])), NO_NOTES)
    case Mapping(es, _) =>
      Mapping(seq(|es|, i requires 0 <= i < |es| => Entry(es[i].key, NO_NOTES, Bare(es[i].value))), NO_NOTES)
  }

  /** nodeEqual, on two nodes. */
  predicate NodeEqual(a: Node, b: Node)
    decreases a
  {
    match (a, b)
    case (Scalar(t, v, _), Scalar(u, w, _)) => t == u && v == w
    case (Sequence(xs, _), Sequence(ys, _)) => |xs| == |ys| && forall i | 0 <= i < |xs| :: NodeEqual(xs[i], ys[i])
    case (Mapping(es, _), Mapping(fs, _)) =>
      |es| == |fs| && forall i | 0 <= i < |es| :: es[i].key == fs[i].key && NodeEqual(es[i].value, fs[i].value)
    case _ => false
  }

  /** nodeEqual is equality of the values encoded, comments aside. */
  lemma {:induction false} NodeEqualExactly(a: Node, b: Node)
    ensures NodeEqual(a, b) <==> Bare(a) == Bare(b)
    decreases a
  {
    match (a, b)
    case (Sequence(xs, _), Sequence(ys, _)) =>
      forall i | 0 <= i < |xs| && i < |ys|
        ensures NodeEqual(xs[i], ys[i]) <==> Bare(a).items[i] == Bare(b).items[i]
      {
        NodeEqualExactly(xs[i], ys[i]);
      }
    case (Mapping(es, _), Mapping(fs, _)) =>
      forall i | 0 <= i < |es| && i < |fs|
        ensures es[i].key == fs[i].key && NodeEqual(es[i].value, fs[i].value) <==> Bare(a).entries[i] == Bare(b).entries[i]
      {
        NodeEqualExactly(es[i].value, fs[i].value);
      }
    case _ =>
  }

  predicate OptEqual(a: Option<Node>, b: Option<Node>) {
    if a.None? || b.None? then a == b else NodeEqual(a.value, b.value)
  }

  // ---- entries of a mapping -----------------------------------------------------------

  /** Position of the entry under `key`, or |es|. */
  function Find(es: seq<Entry>, key: string): (i: nat)
    ensures i <= |es| && (i < |es| ==> es[i].key == key) && forall j | 0 <= j < i :: es[j].key != key
  {
    if es == [] then 0 else if es[0].key == key then 0 else 1 + Find(es[1..], key)
  }

  function Get(es: seq<Entry>, key: string): Option<Entry> {
    if Find(es, key) < |es| then Some(es[Find(es, key)]) else None
  }

  predicate NoDup(es: seq<Entry>) { forall i, j | 0 <= i < j < |es| :: es[i].key != es[j].key }

  /** The value with the comments of the node it replaces. */
  function WithNotes(value: Node, notes: Notes): Node { value.(notes := notes) }

  function SetEntry(es: seq<Entry>, key: string, value: Node): seq<Entry> {
    var i := Find(es, key);
    if i == |es| then es + [Entry(key, NO_NOTES, value)]
    else es[i := es[i].(value := WithNotes(value, es[i].value.notes))]
  }

  function RemoveEntry(es: seq<Entry>, key: string): seq<Entry> {
    var i := Find(es, key);
    if i == |es| then es else es[..i] + es[i + 1..]
  }

  lemma FindIs(es: seq<Entry>, key: string, i: nat)
    requires NoDup(es) && i < |es| && es[i].key == key
    ensures Find(es, key) == i && Get(es, key) == Some(es[i])
  {
  }

  lemma GetNone(es: seq<Entry>, key: string)
    requires forall i | 0 <= i < |es| :: es[i].key != key
    ensures Get(es, key) == None
  {
  }

  /** Setting a key changes the entry under it and no other. */
  lemma SetGets(es: seq<Entry>, key: string, value: Node, other: string)
    requires NoDup(es)
    ensures var r := SetEntry(es, key, value);
            && NoDup(r)
            && Get(r, key) == Some(match Get(es, key)
                                   case Some(e) => e.(value := WithNotes(value, e.value.notes))
                                   case None => Entry(key, NO_NOTES, value))
            && (other != key ==> Get(r, other) == Get(es, other))
  {
    var r, i := SetEntry(es, key, value), Find(es, key);
    FindIs(r, key, i);
    if other != key {
      var j := Find(es, other);
      if j < |es| {
        FindIs(r, other, j);
      } else {
        GetNone(r, other);
      }
    }
  }

  lemma UpdateGets(es: seq<Entry>, key: string, e: Entry, other: string)
    requires NoDup(es) && Get(es, key).Some? && e.key == key
    ensures var r := es[Find(es, key) := e];
            NoDup(r) && Get(r, key) == Some(e) && (other != key ==> Get(r, other) == Get(es, other))
  {
    var i := Find(es, key);
    var r := es[i := e];
    FindIs(r, key, i);
    if other != key {
      var j := Find(es, other);
      if j < |es| {
        FindIs(r, other, j);
      } else {
        GetNone(r, other);
      }
    }
  }

  lemma RemoveAt(es: seq<Entry>, i: nat)
    requires NoDup(es) && i < |es|
    ensures var r := es[..i] + es[i + 1..];
            && NoDup(r)
            && (forall j | 0 <= j < |r| :: r[j].key != es[i].key)
            && (forall j | 0 <= j < |r| :: r[j] == if j < i then es[j] else es[j + 1])
  {
    var r := es[..i] + es[i + 1..];
    assert forall j | 0 <= j < |r| :: r[j] == if j < i then es[j] else es[j + 1];
  }

  lemma RemoveGets(es: seq<Entry>, key: string, other: string)
    requires NoDup(es)
    ensures var r := RemoveEntry(es, key);
            NoDup(r) && Get(r, key) == None && (other != key ==> Get(r, other) == Get(es, other))
  {
    hide NoDup;
    var i, j := Find(es, key), Find(es, other);
    if i < |es| {
      RemoveAt(es, i);
      var r := es[..i] + es[i + 1..];
      GetNone(r, key);
      if other != key {
        if j < |es| {
          FindIs(r, other, if j < i then j else j - 1);
        } else {
          GetNone(r, other);
        }
      }
    }
  }

  // ---- fields ------------------------------------------------------------------------------

  /** A field of the record: what it builds for the old and the new value, None when it is
      left out of the file; a block is built from, and merged by, its own fields. */
  datatype Field =
    | Leaf(key: string, was: Option<Node>, want: Option<Node>)
    | Block(key: string, hadOld: bool, hasCur: bool, fields: seq<Field>)

  /** The node a field builds, for the new value or the old. */
  function Built(f: Field, cur: bool): Option<Node>
    decreases f
  {
    match f
    case Leaf(_, was, want) => if cur then want else was
    case Block(_, hadOld, hasCur, _) =>
      var es := if (if cur then hasCur else hadOld) then BuiltEntries(f, cur, 0) else [];
      if es == [] then None else Some(Mapping(es, NO_NOTES))
  }

  function BuiltEntries(f: Field, cur: bool, i: nat): seq<Entry>
    requires f.Block? && i <= |f.fields|
    decreases f, |f.fields| - i
  {
    if i == |f.fields| then []
    else
      (match Built(f.fields[i], cur)
       case Some(n) => [Entry(f.fields[i].key, NO_NOTES, n)]
       case None => [])
      + BuiltEntries(f, cur, i + 1)
  }

  /** Keys are distinct in every block. */
  predicate Distinct(f: Field)
    decreases f
  {
    f.Block? ==>
      && (forall i, j | 0 <= i < j < |f.fields| :: f.fields[i].key != f.fields[j].key)
      && (forall i | 0 <= i < |f.fields| :: Distinct(f.fields[i]))
  }

  predicate Listed(f: Field, key: string) { f.Block? && exists i :: 0 <= i < |f.fields| && f.fields[i].key == key }

  predicate Unchanged(g: Field, hasOld: bool) { hasOld && OptEqual(Built(g, false), Built(g, true)) }

  function InnerOf(n: Node): seq<Entry> { if n.Mapping? then n.entries else [] }

  // ---- merge -----------------------------------------------------------------------------------

  function MergeOne(es: seq<Entry>, g: Field, hasOld: bool): seq<Entry>
    decreases g
  {
    var i := Find(es, g.key);
    if Unchanged(g, hasOld) then es
    else if Built(g, true).None? then RemoveEntry(es, g.key)
    else if g.Block? && hasOld && i < |es| then es[i := es[i].(value := MergeInto(es[i].value, g))]
    else SetEntry(es, g.key, Built(g, true).value)
  }

  /** mergeInto: a nested block updated in place. */
  function MergeInto(n: Node, g: Field): Node
    requires g.Block?
    decreases g, |g.fields| + 1
  {
    Mapping(MergeFrom(InnerOf(n), g, g.hadOld, 0), n.notes)
  }

  function MergeFrom(es: seq<Entry>, f: Field, hasOld: bool, i: nat): seq<Entry>
    requires f.Block? && i <= |f.fields|
    decreases f, |f.fields| - i
  {
    if i == |f.fields| then es else MergeFrom(MergeOne(es, f.fields[i], hasOld), f, hasOld, i + 1)
  }

  function Merge(es: seq<Entry>, f: Field, hasOld: bool): seq<Entry>
    requires f.Block?
  {
    MergeFrom(es, f, hasOld, 0)
  }

  /** What merge makes of the entry under one field's key: kept as it is, dropped, its block
      merged, or its value replaced with key and comments kept; a new entry when there was none. */
  function After(e: Option<Entry>, g: Field, hasOld: bool): Option<Entry> {
    if Unchanged(g, hasOld) then e
    else if Built(g, true).None? then None
    else if g.Block? && hasOld && e.Some? then Some(e.value.(value := MergeInto(e.value.value, g)))
    else if e.Some? then Some(e.value.(value := WithNotes(Built(g, true).value, e.value.value.notes)))
    else Some(Entry(g.key, NO_NOTES, Built(g, true).value))
  }

  lemma OneGets(es: seq<Entry>, g: Field, hasOld: bool, other: string)
    requires NoDup(es)
    ensures var r := MergeOne(es, g, hasOld);
            NoDup(r) && Get(r, g.key) == After(Get(es, g.key), g, hasOld) && (other != g.key ==> Get(r, other) == Get(es, other))
  {
    hide NoDup, Built, Unchanged, MergeInto, SetEntry, RemoveEntry, WithNotes;
    var i := Find(es, g.key);
    if Built(g, true).Some? {
      SetGets(es, g.key, Built(g, true).value, other);
      if g.Block? && i < |es| {
        UpdateGets(es, g.key, es[i].(value := MergeInto(es[i].value, g)), other);
      }
    }
    RemoveGets(es, g.key, other);
  }

  predicate LaterField(f: Field, i: nat, key: string) {
    f.Block? && exists j :: i <= j < |f.fields| && f.fields[j].key == key
  }

  /** Each field does its work on the entry under its own key; no other key is touched. */
  lemma {:induction false} MergeGets(es: seq<Entry>, f: Field, hasOld: bool, i: nat, key: string)
    requires f.Block? && Distinct(f) && i <= |f.fields| && NoDup(es)
    ensures NoDup(MergeFrom(es, f, hasOld, i))
    ensures !LaterField(f, i, key) ==> Get(MergeFrom(es, f, hasOld, i), key) == Get(es, key)
    ensures forall j | i <= j < |f.fields| && f.fields[j].key == key ::
              Get(MergeFrom(es, f, hasOld, i), key) == After(Get(es, key), f.fields[j], hasOld)
    decreases |f.fields| - i
  {
    hide Get, NoDup, After, MergeOne;
    if i < |f.fields| {
      OneGets(es, f.fields[i], hasOld, key);
      MergeGets(MergeOne(es, f.fields[i], hasOld), f, hasOld, i + 1, key);
      assert LaterField(f, i + 1, key) ==> LaterField(f, i, key);
      assert f.fields[i].key == key ==> !LaterField(f, i + 1, key);
    }
  }

  /** What merge does, key by key, to any mapping without repeated keys. */
  lemma MergeExactly(es: seq<Entry>, f: Field, hasOld: bool)
    requires f.Block? && Distinct(f) && NoDup(es)
    ensures NoDup(Merge(es, f, hasOld))
    ensures forall j | 0 <= j < |f.fields| ::
              Get(Merge(es, f, hasOld), f.fields[j].key) == After(Get(es, f.fields[j].key), f.fields[j], hasOld)
    ensures forall key | !Listed(f, key) :: Get(Merge(es, f, hasOld), key) == Get(es, key)
  {
    hide Get, NoDup, After, MergeFrom, Distinct;
    MergeGets(es, f, hasOld, 0, "");
    forall j | 0 <= j < |f.fields|
      ensures Get(Merge(es, f, hasOld), f.fields[j].key) == After(Get(es, f.fields[j].key), f.fields[j], hasOld)
    {
      MergeGets(es, f, hasOld, 0, f.fields[j].key);
    }
    forall key | !Listed(f, key)
      ensures Get(Merge(es, f, hasOld), key) == Get(es, key)
    {
      MergeGets(es, f, hasOld, 0, key);
    }
  }

  // ---- order ---------------------------------------------------------------------------------------

  function Keys(es: seq<Entry>): seq<string> { seq(|es|, i requires 0 <= i < |es| => es[i].key) }

  /** The keys that stay, in their order. */
  function Without(keys: seq<string>, gone: set<string>): seq<string> {
    if keys == [] then []
    else Without(keys[..|keys| - 1], gone) + if keys[|keys| - 1] in gone then [] else [keys[|keys| - 1]]
  }

  predicate Drops(g: Field, hasOld: bool) { !Unchanged(g, hasOld) && Built(g, true).None? }

  predicate Adds(es: seq<Entry>, g: Field, hasOld: bool) {
    !Unchanged(g, hasOld) && Built(g, true).Some? && Get(es, g.key).None?
  }

  function Dropped(f: Field, hasOld: bool, i: nat): set<string>
    requires f.Block? && i <= |f.fields|
    decreases |f.fields| - i
  {
    if i == |f.fields| then {}
    else (if Drops(f.fields[i], hasOld) then {f.fields[i].key} else {}) + Dropped(f, hasOld, i + 1)
  }

  /** The keys merge appends: those of changed fields the mapping does not have yet, in field order. */
  function Added(es: seq<Entry>, f: Field, hasOld: bool, i: nat): seq<string>
    requires f.Block? && i <= |f.fields|
    decreases |f.fields| - i
  {
    if i == |f.fields| then []
    else (if Adds(es, f.fields[i], hasOld) then [f.fields[i].key] else []) + Added(es, f, hasOld, i + 1)
  }

  lemma {:induction false} WithoutTwice(keys: seq<string>, gone: set<string>, more: set<string>)
    ensures Without(Without(keys, gone), more) == Without(keys, gone + more)
    decreases |keys|
  {
    if keys != [] {
      var k, rest := keys[|keys| - 1], keys[..|keys| - 1];
      WithoutTwice(rest, gone, more);
      var w := Without(rest, gone);
      if k !in gone {
        assert (w + [k])[..|w|] == w;
      } else {
        assert w + [] == w;
      }
    }
  }

  lemma WithoutLast(keys: seq<string>, k: string, gone: set<string>)
    ensures Without(keys + [k], gone) == Without(keys, gone) + if k in gone then [] else [k]
  {
    assert (keys + [k])[..|keys|] == keys;
  }

  lemma {:induction false} WithoutNone(keys: seq<string>)
    ensures Without(keys, {}) == keys
    decreases |keys|
  {
    if keys != [] {
      WithoutNone(keys[..|keys| - 1]);
    }
  }

  lemma {:induction false} WithoutMissing(keys: seq<string>, key: string)
    requires key !in keys
    ensures Without(keys, {key}) == keys
    decreases |keys|
  {
    if keys != [] {
      WithoutMissing(keys[..|keys| - 1], key);
    }
  }

  lemma {:induction false} WithoutAt(keys: seq<string>, i: nat)
    requires i < |keys| && keys[i] !in keys[..i] && keys[i] !in keys[i + 1..]
    ensures Without(keys, {keys[i]}) == keys[..i] + keys[i + 1..]
    decreases |keys|
  {
    var before := keys[..|keys| - 1];
    if i == |before| {
      WithoutMissing(before, keys[i]);
    } else {
      assert keys[i + 1..] == before[i + 1..] + [keys[|keys| - 1]];
      WithoutAt(before, i);
      assert before[..i] == keys[..i];
    }
  }

  lemma WithoutOne(es: seq<Entry>, key: string)
    requires NoDup(es)
    ensures Keys(RemoveEntry(es, key)) == Without(Keys(es), {key})
  {
    hide Without;
    var keys, i := Keys(es), Find(es, key);
    if i < |es| {
      WithoutAt(keys, i);
      assert Keys(es[..i] + es[i + 1..]) == keys[..i] + keys[i + 1..];
    } else {
      WithoutMissing(keys, key);
    }
  }

  lemma KeysUpdate(es: seq<Entry>, i: nat, value: Node)
    requires i < |es|
    ensures Keys(es[i := es[i].(value := value)]) == Keys(es)
  {
  }

  lemma KeysAppend(es: seq<Entry>, e: Entry)
    ensures Keys(es + [e]) == Keys(es) + [e.key]
  {
  }

  lemma OneKeys(es: seq<Entry>, g: Field, hasOld: bool)
    requires NoDup(es)
    ensures Keys(MergeOne(es, g, hasOld))
            == if Drops(g, hasOld) then Without(Keys(es), {g.key})
               else if Adds(es, g, hasOld) then Keys(es) + [g.key]
               else Keys(es)
  {
    hide Built, Unchanged, MergeInto, WithNotes, Keys, NoDup, RemoveEntry, Without, Find;
    WithoutOne(es, g.key);
    var i := Find(es, g.key);
    if Built(g, true).Some? {
      var want := Built(g, true).value;
      if i < |es| {
        KeysUpdate(es, i, WithNotes(want, es[i].value.notes));
        if g.Block? {
          KeysUpdate(es, i, MergeInto(es[i].value, g));
        }
      } else {
        KeysAppend(es, Entry(g.key, NO_NOTES, want));
      }
    }
  }

  lemma {:induction false} AddedSame(es: seq<Entry>, fs: seq<Entry>, f: Field, hasOld: bool, i: nat)
    requires f.Block? && i <= |f.fields|
    requires forall j | i <= j < |f.fields| :: Get(es, f.fields[j].key) == Get(fs, f.fields[j].key)
    ensures Added(es, f, hasOld, i) == Added(fs, f, hasOld, i)
    decreases |f.fields| - i
  {
    hide Built, Unchanged, Get;
    if i < |f.fields| {
      AddedSame(es, fs, f, hasOld, i + 1);
    }
  }

  lemma {:induction false} DroppedAreListed(f: Field, hasOld: bool, i: nat, key: string)
    requires f.Block? && i <= |f.fields| && key in Dropped(f, hasOld, i)
    ensures LaterField(f, i, key)
    decreases |f.fields| - i
  {
    hide Drops;
    if i < |f.fields| && key in Dropped(f, hasOld, i + 1) {
      DroppedAreListed(f, hasOld, i + 1, key);
    }
  }

  /** The keys that stay keep their relative order, and new ones follow in field order. */
  lemma {:induction false} OrderKept(es: seq<Entry>, f: Field, hasOld: bool, i: nat)
    requires f.Block? && Distinct(f) && i <= |f.fields| && NoDup(es)
    ensures Keys(MergeFrom(es, f, hasOld, i)) == Without(Keys(es), Dropped(f, hasOld, i)) + Added(es, f, hasOld, i)
    decreases |f.fields| - i
  {
    hide Built, Unchanged, MergeOne, NoDup, Drops, Adds, Keys, Get, Without;
    if i == |f.fields| {
      WithoutNone(Keys(es));
    } else {
      var g := f.fields[i];
      var next := MergeOne(es, g, hasOld);
      OneGets(es, g, hasOld, g.key);
      forall j | i < j < |f.fields|
        ensures Get(next, f.fields[j].key) == Get(es, f.fields[j].key)
      {
        OneGets(es, g, hasOld, f.fields[j].key);
      }
      OneKeys(es, g, hasOld);
      OrderKept(next, f, hasOld, i + 1);
      AddedSame(next, es, f, hasOld, i + 1);
      var gone := Dropped(f, hasOld, i + 1);
      assert g.key !in gone by {
        if g.key in gone {
          DroppedAreListed(f, hasOld, i + 1, g.key);
        }
      }
      DropsOrAdds(es, g, hasOld);
      JoinOrder(Keys(es), g.key, Drops(g, hasOld), Adds(es, g, hasOld), gone, Added(es, f, hasOld, i + 1));
    }
  }

  lemma JoinOrder(keys: seq<string>, k: string, drops: bool, adds: bool, gone: set<string>, added: seq<string>)
    requires k !in gone && !(drops && adds)
    ensures Without(if drops then Without(keys, {k}) else if adds then keys + [k] else keys, gone) + added
            == Without(keys, (if drops then {k} else {}) + gone) + ((if adds then [k] else []) + added)
  {
    hide Without;
    if drops {
      WithoutTwice(keys, {k}, gone);
    } else {
      WithoutLast(keys, k, gone);
      assert {} + gone == gone;
    }
  }

  lemma DropsOrAdds(es: seq<Entry>, g: Field, hasOld: bool)
    ensures !(Drops(g, hasOld) && Adds(es, g, hasOld))
  {
  }

  // ---- what a mapping stores ---------------------------------------------------------------------------

  /** The entry under a field's key stores the field's value: none when the field builds nothing, a
      node of the same value for a leaf, and for a block a mapping that stores its fields. */
  predicate StoresEntry(e: Option<Entry>, g: Field, cur: bool)
    decreases g, 1
  {
    match Built(g, cur)
    case None => e.None?
    case Some(n) =>
      && e.Some?
      && (g.Leaf? ==> Bare(e.value.value) == Bare(n))
      && (g.Block? ==> e.value.value.Mapping? && Stores(e.value.value.entries, g, cur))
  }

  predicate Stores(es: seq<Entry>, f: Field, cur: bool)
    requires f.Block?
    decreases f, 0
  {
    forall i | 0 <= i < |f.fields| :: StoresEntry(Get(es, f.fields[i].key), f.fields[i], cur)
  }

  /** No key is repeated, in the mapping and in its blocks. */
  predicate Unique(es: seq<Entry>, f: Field)
    requires f.Block?
    decreases f
  {
    && NoDup(es)
    && forall i | 0 <= i < |f.fields| ::
         f.fields[i].Block? && Get(es, f.fields[i].key).Some? ==>
           Unique(InnerOf(Get(es, f.fields[i].key).value.value), f.fields[i])
  }

  // ---- freshly built entries --------------------------------------------------------------------------------

  function BuiltEntry(g: Field, cur: bool): Option<Entry> {
    match Built(g, cur)
    case None => None
    case Some(n) => Some(Entry(g.key, NO_NOTES, n))
  }

  lemma GetCons(e: Entry, es: seq<Entry>, key: string)
    ensures Get([e] + es, key) == if e.key == key then Some(e) else Get(es, key)
  {
    assert ([e] + es)[1..] == es;
  }

  lemma NoDupCons(e: Entry, es: seq<Entry>)
    requires NoDup(es) && Get(es, e.key).None?
    ensures NoDup([e] + es)
  {
  }

  lemma {:induction false} BuiltGets(f: Field, cur: bool, i: nat, key: string)
    requires f.Block? && Distinct(f) && i <= |f.fields|
    ensures NoDup(BuiltEntries(f, cur, i))
    ensures !LaterField(f, i, key) ==> Get(BuiltEntries(f, cur, i), key).None?
    ensures forall j | i <= j < |f.fields| && f.fields[j].key == key ::
              Get(BuiltEntries(f, cur, i), key) == BuiltEntry(f.fields[j], cur)
    decreases |f.fields| - i
  {
    hide Get, NoDup, Built;
    if i == |f.fields| {
      NothingThere(key);
    } else {
      var g := f.fields[i];
      var rest := BuiltEntries(f, cur, i + 1);
      BuiltGets(f, cur, i + 1, key);
      BuiltGets(f, cur, i + 1, g.key);
      assert LaterField(f, i + 1, key) ==> LaterField(f, i, key);
      assert g.key == key ==> !LaterField(f, i + 1, key);
      assert !LaterField(f, i + 1, g.key);
      if Built(g, cur).Some? {
        GetCons(Entry(g.key, NO_NOTES, Built(g, cur).value), rest, key);
        NoDupCons(Entry(g.key, NO_NOTES, Built(g, cur).value), rest);
      } else {
        assert [] + rest == rest;
      }
    }
  }

  lemma NothingThere(key: string)
    ensures NoDup([]) && Get([], key) == None
  {
  }

  /** A built node stores what it was built from. */
  lemma {:induction false} BuiltStores(g: Field, cur: bool, k: Notes)
    requires Distinct(g) && Built(g, cur).Some?
    ensures StoresEntry(Some(Entry(g.key, k, Built(g, cur).value)), g, cur)
    ensures g.Block? ==> Unique(BuiltEntries(g, cur, 0), g)
    decreases g
  {
    hide Get, NoDup, BuiltEntries;
    if g.Block? {
      BuiltGets(g, cur, 0, "");
      forall i | 0 <= i < |g.fields|
        ensures StoresEntry(Get(BuiltEntries(g, cur, 0), g.fields[i].key), g.fields[i], cur)
        ensures g.fields[i].Block? && Get(BuiltEntries(g, cur, 0), g.fields[i].key).Some? ==>
                  Unique(InnerOf(Get(BuiltEntries(g, cur, 0), g.fields[i].key).value.value), g.fields[i])
      {
        BuiltGets(g, cur, 0, g.fields[i].key);
        if Built(g.fields[i], cur).Some? {
          BuiltStores(g.fields[i], cur, NO_NOTES);
        }
      }
    }
  }

  /** block: merging a record into an empty mapping writes exactly the built entries. */
  lemma {:induction false} BlockIsMerge(f: Field, done: seq<Entry>, i: nat)
    requires f.Block? && Distinct(f) && i <= |f.fields|
    requires forall j | i <= j < |f.fields| :: Get(done, f.fields[j].key).None?
    ensures MergeFrom(done, f, false, i) == done + BuiltEntries(f, true, i)
    decreases |f.fields| - i
  {
    hide Built;
    if i < |f.fields| {
      var g := f.fields[i];
      if Built(g, true).Some? {
        var e := Entry(g.key, NO_NOTES, Built(g, true).value);
        assert MergeOne(done, g, false) == done + [e];
        forall j | i < j < |f.fields|
          ensures Get(done + [e], f.fields[j].key).None?
        {
          GetNone(done + [e], f.fields[j].key);
        }
        BlockIsMerge(f, done + [e], i + 1);
      } else {
        assert MergeOne(done, g, false) == done;
        BlockIsMerge(f, done, i + 1);
      }
    }
  }

  // ---- merge stores the new record ------------------------------------------------------------------------------

  /** Lists with equal keys and equal values find equal values. */
  lemma {:induction false} EqualGets(es: seq<Entry>, fs: seq<Entry>, key: string)
    requires |es| == |fs| && forall i | 0 <= i < |es| :: es[i].key == fs[i].key && NodeEqual(es[i].value, fs[i].value)
    ensures Find(es, key) == Find(fs, key)
    ensures Get(es, key).Some? == Get(fs, key).Some?
    ensures Get(es, key).Some? ==> NodeEqual(Get(es, key).value.value, Get(fs, key).value.value)
    decreases |es|
  {
    hide NodeEqual;
    if es != [] && es[0].key != key {
      EqualGets(es[1..], fs[1..], key);
    }
  }

  /** A field that builds the same for both records stores the one exactly when it stores the other. */
  lemma {:induction false} UnchangedStores(e: Option<Entry>, g: Field)
    requires Distinct(g) && OptEqual(Built(g, false), Built(g, true)) && StoresEntry(e, g, false)
    ensures StoresEntry(e, g, true)
    decreases g
  {
    hide Get, NoDup, BuiltEntries;
    if g.Leaf? {
      if Built(g, true).Some? {
        NodeEqualExactly(Built(g, false).value, Built(g, true).value);
      }
    } else if Built(g, true).Some? {
      var was, want := BuiltEntries(g, false, 0), BuiltEntries(g, true, 0);
      var es := e.value.value.entries;
      forall i | 0 <= i < |g.fields|
        ensures StoresEntry(Get(es, g.fields[i].key), g.fields[i], true)
      {
        BuiltGets(g, false, 0, g.fields[i].key);
        BuiltGets(g, true, 0, g.fields[i].key);
        EqualGets(was, want, g.fields[i].key);
        UnchangedStores(Get(es, g.fields[i].key), g.fields[i]);
      }
    }
  }

  lemma BareWithNotes(n: Node, notes: Notes)
    ensures Bare(WithNotes(n, notes)) == Bare(n)
  {
  }

  /** If the mapping stores the old record, after merge it stores the new one, blocks included. */
  lemma {:induction false} MergeStores(es: seq<Entry>, f: Field)
    requires f.Block? && Distinct(f) && Unique(es, f) && Stores(es, f, false)
    ensures Stores(Merge(es, f, true), f, true) && NoDup(Merge(es, f, true))
    decreases f, 0
  {
    hide Get, NoDup, Merge, StoresEntry, After;
    MergeExactly(es, f, true);
    forall i | 0 <= i < |f.fields|
      ensures StoresEntry(Get(Merge(es, f, true), f.fields[i].key), f.fields[i], true)
    {
      AfterStores(es, f, i);
    }
  }

  lemma {:induction false} AfterStores(es: seq<Entry>, f: Field, i: nat)
    requires f.Block? && Distinct(f) && Unique(es, f) && Stores(es, f, false) && i < |f.fields|
    ensures StoresEntry(After(Get(es, f.fields[i].key), f.fields[i], true), f.fields[i], true)
    decreases f.fields[i], 1
  {
    hide Get, NoDup, BuiltEntries, Bare, MergeFrom;
    var g := f.fields[i];
    var e := Get(es, g.key);
    assert StoresEntry(e, g, false) && Distinct(g);
    if Unchanged(g, true) {
      UnchangedStores(e, g);
    } else if Built(g, true).Some? {
      var want := Built(g, true).value;
      if g.Block? && e.Some? {
        assert g.hadOld && e.value.value.Mapping?;
        MergeStores(e.value.value.entries, g);
      } else {
        BuiltStores(g, true, NO_NOTES);
        if e.Some? {
          BareWithNotes(want, e.value.value.notes);
        }
      }
    }
  }

  /** Every key and every value that is there before and after keeps its comments. */
  lemma CommentsKept(es: seq<Entry>, f: Field, hasOld: bool, key: string)
    requires f.Block? && Distinct(f) && NoDup(es)
    requires Get(es, key).Some? && Get(Merge(es, f, hasOld), key).Some?
    ensures var e, r := Get(es, key).value, Get(Merge(es, f, hasOld), key).value;
            r.key == e.key && r.keyNotes == e.keyNotes && r.value.notes == e.value.notes
  {
    hide Get, NoDup, Merge, Built, Unchanged, MergeFrom;
    MergeExactly(es, f, hasOld);
    if Listed(f, key) {
      var j :| 0 <= j < |f.fields| && f.fields[j].key == key;
      assert Get(Merge(es, f, hasOld), f.fields[j].key) == After(Get(es, f.fields[j].key), f.fields[j], hasOld);
    }
  }

  // ---- in place ------------------------------------------------------------------------------------------------

  /** A mapping node being edited. */
  class MappingNode {
    var entries: seq<Entry>

    constructor (entries: seq<Entry>)
      ensures this.entries == entries
    {
      this.entries := entries;
    }

    /** Index of the key's entry, or -1. */
    method MapEntry(key: string) returns (i: int)
      ensures i == if Find(entries, key) < |entries| then Find(entries, key) else -1
    {
      var k: nat := 0;
      while k < |entries|
        invariant k <= |entries| && k <= Find(entries, key)
      {
        if entries[k].key == key {
          return k;
        }
        k := k + 1;
      }
      return -1;
    }

    method Set(key: string, value: Node)
      modifies this
      ensures entries == SetEntry(old(entries), key, value)
    {
      var i := MapEntry(key);
      if i < 0 {
        entries := entries + [Entry(key, NO_NOTES, value)];
        return;
      }
      var notes := entries[i].value.notes;
      entries := entries[i := entries[i].(value := value.(notes := notes))];
    }

    method Remove(key: string)
      modifies this
      ensures entries == RemoveEntry(old(entries), key)
    {
      var i := MapEntry(key);
      if i >= 0 {
        entries := entries[..i] + entries[i + 1..];
      }
    }

    method MergeFields(f: Field, hasOld: bool)
      requires f.Block?
      modifies this
      ensures entries == Merge(old(entries), f, hasOld)
      decreases f
    {
      hide Built, Unchanged, OptEqual, SetEntry, RemoveEntry, Find;
      for i := 0 to |f.fields|
        invariant MergeFrom(entries, f, hasOld, i) == Merge(old(entries), f, hasOld)
      {
        var g := f.fields[i];
        if hasOld && OptEqual(Built(g, false), Built(g, true)) {
          assert MergeOne(entries, g, hasOld) == entries by { UnchangedOne(entries, g, hasOld); }
          continue;
        }
        ghost var before := entries;
        var k := MapEntry(g.key);
        ChangedOne(before, g, hasOld);
        if Built(g, true).None? {
          Remove(g.key);
        } else if g.Block? && hasOld && k >= 0 {
          var nested := new MappingNode(InnerOf(entries[k].value));
          nested.MergeFields(g, g.hadOld);
          entries := entries[k := entries[k].(value := Mapping(nested.entries, entries[k].value.notes))];
        } else {
          Set(g.key, Built(g, true).value);
        }
      }
    }
  }

  lemma UnchangedOne(es: seq<Entry>, g: Field, hasOld: bool)
    requires hasOld && OptEqual(Built(g, false), Built(g, true))
    ensures MergeOne(es, g, hasOld) == es
  {
    hide OptEqual;
  }

  lemma ChangedOne(es: seq<Entry>, g: Field, hasOld: bool)
    requires !(hasOld && OptEqual(Built(g, false), Built(g, true)))
    ensures var i := Find(es, g.key);
            MergeOne(es, g, hasOld)
            == if Built(g, true).None? then RemoveEntry(es, g.key)
               else if g.Block? && hasOld && i < |es| then
                 es[i := es[i].(value := Mapping(Merge(InnerOf(es[i].value), g, g.hadOld), es[i].value.notes))]
               else SetEntry(es, g.key, Built(g, true).value)
  {
    hide OptEqual, SetEntry, RemoveEntry, Find;
  }

  // ---- the record of this repository ---------------------------------------------------------------------------

  datatype SSH = SSH(bastion: string, user: string, port: int, agentSocket: string)

  datatype TLS = TLS(mode: string, ca: string, cert: string, keyFile: string, serverName: string)

  /** A connection; the timeout is its printed form, empty for zero. */
  datatype Connection = Connection(
    name: string, engine: string, host: string, port: int, user: string, password: string, database: string,
    ssh: Option<SSH>, tls: Option<TLS>, connectTimeout: string, protocol: string, mode: string,
    masterName: string, addresses: seq<string>, allowWrite: bool)

  function Str(v: string): Option<Node> { if v == "" then None else Some(Scalar("!!str", v, NO_NOTES)) }

  function Num(v: int): Option<Node> {
    if v == 0 then None else Some(Scalar("!!int", if v < 0 then "-" + Decimal(-v) else Decimal(v), NO_NOTES))
  }

  function Yes(v: bool): Option<Node> { if v then Some(Scalar("!!bool", "true", NO_NOTES)) else None }

  function List(values: seq<string>): Option<Node> {
    if values == [] then None
    else Some(Sequence(seq(|values|, i requires 0 <= i < |values| => Scalar("!!str", values[i], NO_NOTES)), NO_NOTES))
  }

  const NO_SSH: SSH := SSH("", "", 0, "")

  const NO_TLS: TLS := TLS("", "", "", "", "")

  function SshFields(prev: Option<SSH>, cur: Option<SSH>): Field {
    var o, c := (if prev.Some? then prev.value else NO_SSH), if cur.Some? then cur.value else NO_SSH;
    Block("ssh", prev.Some?, cur.Some?,
          [ Leaf("bastion", Str(o.bastion), Str(c.bastion)),
            Leaf("user", Str(o.user), Str(c.user)),
            Leaf("port", Num(o.port), Num(c.port)),
            Leaf("agent_socket", Str(o.agentSocket), Str(c.agentSocket)) ])
  }

  function TlsFields(prev: Option<TLS>, cur: Option<TLS>): Field {
    var o, c := (if prev.Some? then prev.value else NO_TLS), if cur.Some? then cur.value else NO_TLS;
    Block("tls", prev.Some?, cur.Some?,
          [ Leaf("mode", Str(o.mode), Str(c.mode)),
            Leaf("ca", Str(o.ca), Str(c.ca)),
            Leaf("cert", Str(o.cert), Str(c.cert)),
            Leaf("key", Str(o.keyFile), Str(c.keyFile)),
            Leaf("server_name", Str(o.serverName), Str(c.serverName)) ])
  }

  function ConnectionFields(o: Connection, c: Connection): Field {
    Block("", true, true,
          [ Leaf("name", Str(o.name), Str(c.name)),
            Leaf("type", Str(o.engine), Str(c.engine)),
            Leaf("host", Str(o.host), Str(c.host)),
            Leaf("port", Num(o.port), Num(c.port)),
            Leaf("user", Str(o.user), Str(c.user)),
            Leaf("password", Str(o.password), Str(c.password)),
            Leaf("database", Str(o.database), Str(c.database)),
            SshFields(o.ssh, c.ssh),
            TlsFields(o.tls, c.tls),
            Leaf("connect_timeout", Str(o.connectTimeout), Str(c.connectTimeout)),
            Leaf("protocol", Str(o.protocol), Str(c.protocol)),
            Leaf("mode", Str(o.mode), Str(c.mode)),
            Leaf("master_name", Str(o.masterName), Str(c.masterName)),
            Leaf("addresses", List(o.addresses), List(c.addresses)),
            Leaf("allow_write", Yes(o.allowWrite), Yes(c.allowWrite)) ])
  }

  const CONNECTION_KEYS: seq<string> :=
    ["name", "type", "host", "port", "user", "password", "database", "ssh", "tls", "connect_timeout",
     "protocol", "mode", "master_name", "addresses", "allow_write"]

  lemma ConnectionKeysDistinct()
    ensures forall i, j | 0 <= i < j < |CONNECTION_KEYS| :: CONNECTION_KEYS[i] != CONNECTION_KEYS[j]
  {
    assert |CONNECTION_KEYS| == 15;
  }

  lemma LeafDistinct(f: Field)
    requires f.Block? && forall i | 0 <= i < |f.fields| :: f.fields[i].Leaf?
    requires forall i, j | 0 <= i < j < |f.fields| :: f.fields[i].key != f.fields[j].key
    ensures Distinct(f)
  {
  }

  lemma BlocksDistinct(s: Option<SSH>, t: Option<SSH>, p: Option<TLS>, q: Option<TLS>)
    ensures Distinct(SshFields(s, t)) && Distinct(TlsFields(p, q))
  {
    hide Str, Num;
    LeafDistinct(SshFields(s, t));
    LeafDistinct(TlsFields(p, q));
  }

  lemma ConnectionKeys(o: Connection, c: Connection)
    ensures var f := ConnectionFields(o, c);
            |f.fields| == |CONNECTION_KEYS|
            && forall i | 0 <= i < |CONNECTION_KEYS| ::
                 f.fields[i].key == CONNECTION_KEYS[i]
                 && (f.fields[i].Leaf? || f.fields[i] == SshFields(o.ssh, c.ssh) || f.fields[i] == TlsFields(o.tls, c.tls))
  {
    hide Str, Num, Yes, List;
    var f := ConnectionFields(o, c);
    assert |f.fields| == |CONNECTION_KEYS| == 15;
  }

  lemma ConnectionDistinct(o: Connection, c: Connection)
    ensures Distinct(ConnectionFields(o, c))
    ensures forall key :: Listed(ConnectionFields(o, c), key) <==> key in CONNECTION_KEYS
  {
    hide ConnectionFields, SshFields, TlsFields;
    var f := ConnectionFields(o, c);
    ConnectionIsBlock(o, c);
    ConnectionKeys(o, c);
    ConnectionKeysDistinct();
    BlocksDistinct(o.ssh, c.ssh, o.tls, c.tls);
    forall key
      ensures Listed(f, key) <==> key in CONNECTION_KEYS
    {
      if key in CONNECTION_KEYS {
        var i :| 0 <= i < |CONNECTION_KEYS| && CONNECTION_KEYS[i] == key;
        assert f.fields[i].key == key;
      }
    }
  }

  lemma ConnectionIsBlock(o: Connection, c: Connection)
    ensures ConnectionFields(o, c).Block?
  {
  }

  lemma UniqueNoDup(es: seq<Entry>, f: Field)
    requires f.Block? && Unique(es, f)
    ensures NoDup(es)
  {
  }

  /** Update's merge: a mapping that stores the old connection stores the new one afterwards, and
      keys that are not a connection's, result_cap among them, keep their entries. */
  lemma UpdateStores(es: seq<Entry>, o: Connection, c: Connection)
    requires Unique(es, ConnectionFields(o, c)) && Stores(es, ConnectionFields(o, c), false)
    ensures Stores(Merge(es, ConnectionFields(o, c), true), ConnectionFields(o, c), true)
    ensures forall key | key !in CONNECTION_KEYS ::
              Get(Merge(es, ConnectionFields(o, c), true), key) == Get(es, key)
  {
    hide ConnectionFields, Merge, Get, Stores, Distinct, Unique;
    ConnectionIsBlock(o, c);
    ConnectionDistinct(o, c);
    UniqueNoDup(es, ConnectionFields(o, c));
    MergeStores(es, ConnectionFields(o, c));
    MergeExactly(es, ConnectionFields(o, c), true);
  }
}

/**
 The schema cache of internal/schema/cache.go. A fetch is a claim, a catalog
 query and a store, each atomic, with anything of other callers between them;
 callers run a load only after a claim they were granted. A run is any sequence
 of such steps.
 */
module SchemaCache {
  import opened Bytes
  import opened Splitter

  datatype State = Cold | Loading | Ready | Failed

  datatype Entry = Entry(names: seq<string>, state: State)

  const EMPTY: Entry := Entry([], Cold)

  /** What is fetched: the table listing, or the columns of a table under its folded name. */
  datatype Key = Tables | Columns(table: string)

  /** How far a granted claim's load has come. */
  datatype Load = Claimed | Asked(answer: Option<seq<string>>)

  /** The cache, and the loads its callers have outstanding. */
  datatype St = St(tables: Entry, cols: map<string, Entry>, loads: map<Key, Load>)

  datatype Event =
    | Claim(key: Key)
    | Ask(key: Key, answer: Option<seq<string>>)
    | Store(key: Key)
    | Refresh

  const START: St := St(EMPTY, map[], map[])

  function Get(st: St, k: Key): Entry {
    match k
    case Tables => st.tables
    case Columns(t) => if t in st.cols then st.cols[t] else EMPTY
  }

  function Put(st: St, k: Key, e: Entry): St {
    match k
    case Tables => st.(tables := e)
    case Columns(t) => st.(cols := st.cols[t := e])
  }

  predicate Granted(st: St, k: Key) { Get(st, k).state != Loading && Get(st, k).state != Ready }

  function Dropped(e: Entry): Entry { if e.state == Loading then e else EMPTY }

  /** The claim discipline: a query follows a granted claim, a store its query. */
  predicate Obeys(st: St, e: Event) {
    match e
    case Ask(k, _) => k in st.loads && st.loads[k].Claimed?
    case Store(k) => k in st.loads && st.loads[k].Asked?
    case _ => true
  }

  function Step(st: St, e: Event): St
    requires Obeys(st, e)
  {
    match e
    case Claim(k) =>
      if Granted(st, k) then Put(st, k, Entry([], Loading)).(loads := st.loads[k := Claimed]) else st
    case Ask(k, answer) => st.(loads := st.loads[k := Asked(answer)])
    case Store(k) =>
      var answer := st.loads[k].answer;
      Put(st, k, if answer.Some? then Entry(answer.value, Ready) else Entry([], Failed)).(loads := st.loads - {k})
    case Refresh =>
      st.(tables := Dropped(st.tables), cols := map t | t in st.cols && st.cols[t].state == Loading :: st.cols[t])
  }

  predicate ObeysAll(st: St, es: seq<Event>)
    decreases |es|
  {
    es == [] || (Obeys(st, es[0]) && ObeysAll(Step(st, es[0]), es[1..]))
  }

  function Run(st: St, es: seq<Event>): St
    requires ObeysAll(st, es)
    decreases |es|
  {
    if es == [] then st else Run(Step(st, es[0]), es[1..])
  }

  // ---- what every run keeps -----------------------------------------------------------

  /** An entry is Loading exactly when a load for its key is outstanding, and only Ready ones hold names. */
  ghost predicate Inv(st: St) {
    forall k: Key :: (Get(st, k).state == Loading <==> k in st.loads) && (Get(st, k).state != Ready ==> Get(st, k).names == [])
  }

  lemma GetRefreshed(st: St, k: Key)
    ensures Get(Step(st, Refresh), k) == Dropped(Get(st, k))
  {
  }

  lemma StepKeeps(st: St, e: Event)
    requires Inv(st) && Obeys(st, e)
    ensures Inv(Step(st, e))
  {
    forall k: Key
      ensures Get(Step(st, e), k).state == Loading <==> k in Step(st, e).loads
      ensures Get(Step(st, e), k).state != Ready ==> Get(Step(st, e), k).names == []
    {
      assert Get(st, k).state == Loading <==> k in st.loads;
      if e.Refresh? {
        GetRefreshed(st, k);
      }
    }
  }

  lemma {:induction false} RunKeeps(st: St, es: seq<Event>)
    requires Inv(st) && ObeysAll(st, es)
    ensures Inv(Run(st, es))
    decreases |es|
  {
    hide Inv, Step;
    if es != [] {
      StepKeeps(st, es[0]);
      RunKeeps(Step(st, es[0]), es[1..]);
    }
  }

  /** In every run from a new cache: Loading means exactly one load outstanding, and Loading()
      reports whether there is any. */
  lemma LoadingExactly(es: seq<Event>, k: Key)
    requires ObeysAll(START, es)
    ensures Get(Run(START, es), k).state == Loading <==> k in Run(START, es).loads
    ensures AnyLoading(Run(START, es)) <==> Run(START, es).loads != map[]
  {
    RunKeeps(START, es);
    var st := Run(START, es);
    if AnyLoading(st) {
      if st.tables.state != Loading {
        var t :| t in st.cols && st.cols[t].state == Loading;
        assert Get(st, Columns(t)).state == Loading;
      } else {
        assert Get(st, Tables).state == Loading;
      }
    }
    if st.loads != map[] {
      var key :| key in st.loads;
      assert Get(st, key).state == Loading;
    }
  }

  predicate AnyLoading(st: St) { st.tables.state == Loading || exists t :: t in st.cols && st.cols[t].state == Loading }

  /** A granted claim never finds a load of its key outstanding: no query is started twice. */
  lemma GrantIsExclusive(es: seq<Event>, k: Key)
    requires ObeysAll(START, es) && Granted(Run(START, es), k)
    ensures k !in Run(START, es).loads
  {
    RunKeeps(START, es);
  }

  // ---- where names come from ------------------------------------------------------------

  lemma {:induction false} RunAppend(st: St, es: seq<Event>, e: Event)
    requires ObeysAll(st, es + [e])
    ensures ObeysAll(st, es) && Obeys(Run(st, es), e) && Run(st, es + [e]) == Step(Run(st, es), e)
    decreases |es|
  {
    hide Step, Obeys;
    if es == [] {
      assert es + [e] == [e];
      RunOne(st, e);
    } else {
      assert (es + [e])[0] == es[0] && (es + [e])[1..] == es[1..] + [e];
      RunAppend(Step(st, es[0]), es[1..], e);
    }
  }

  lemma RunOne(st: St, e: Event)
    requires ObeysAll(st, [e])
    ensures Obeys(st, e) && Run(st, [e]) == Step(st, e)
  {
    assert [e][1..] == [];
  }

  /** The last query for `k` before position `n`, with no claim after it. */
  ghost predicate LastAsk(es: seq<Event>, k: Key, i: int, n: int) {
    0 <= i < n <= |es| && es[i].Ask? && es[i].key == k && forall j | i < j < n :: !(es[j].Ask? && es[j].key == k)
  }

  /** Query i answered `names`, and its store at s was not followed by a refresh. */
  ghost predicate Brought(es: seq<Event>, k: Key, names: seq<string>, i: int, s: int) {
    && LastAsk(es, k, i, |es|) && es[i].answer == Some(names)
    && i < s < |es| && es[s] == Store(k) && forall j | s < j < |es| :: !es[j].Refresh?
  }

  /** Ready names are what the last query for the key answered, and it was followed by its store
      with no refresh since. */
  ghost predicate ReadySourced(es: seq<Event>, st: St, k: Key) {
    Get(st, k).state == Ready ==> exists i, s :: Brought(es, k, Get(st, k).names, i, s)
  }

  /** A load that has asked holds what the last query for its key answered. */
  ghost predicate LoadSourced(es: seq<Event>, st: St, k: Key) {
    k in st.loads && st.loads[k].Asked? ==> exists i :: LastAsk(es, k, i, |es|) && es[i].answer == st.loads[k].answer
  }

  ghost predicate Sourced(es: seq<Event>, st: St, k: Key) { ReadySourced(es, st, k) && LoadSourced(es, st, k) }

  lemma {:induction false} NamesAreAnswers(es: seq<Event>, k: Key)
    requires ObeysAll(START, es)
    ensures Sourced(es, Run(START, es), k)
    decreases |es|
  {
    hide Step, Run, ObeysAll, Obeys, Get, Sourced;
    if es == [] {
      NothingReady(k);
    } else {
      var n := |es| - 1;
      assert es == es[..n] + [es[n]];
      RunAppend(START, es[..n], es[n]);
      RunKeeps(START, es[..n]) by { NewCacheInv(); }
      NamesAreAnswers(es[..n], k);
      SourcedStep(es[..n], Run(START, es[..n]), es[n], k);
    }
  }

  lemma NewCacheInv()
    ensures Inv(START)
  {
  }

  lemma NothingReady(k: Key)
    requires ObeysAll(START, [])
    ensures Sourced([], Run(START, []), k)
  {
  }

  lemma LastAskOn(es: seq<Event>, e: Event, k: Key, i: int)
    requires LastAsk(es, k, i, |es|) && !(e.Ask? && e.key == k)
    ensures LastAsk(es + [e], k, i, |es| + 1) && (es + [e])[i] == es[i]
  {
    assert forall j | 0 <= j < |es| :: (es + [e])[j] == es[j];
  }

  lemma SourcedStep(es: seq<Event>, st: St, e: Event, k: Key)
    requires Inv(st) && Obeys(st, e) && Sourced(es, st, k)
    ensures Sourced(es + [e], Step(st, e), k)
  {
    hide Inv, Step, LastAsk, Brought, Obeys, Get;
    LoadStep(es, st, e, k);
    ReadyStep(es, st, e, k);
  }

  lemma LoadStep(es: seq<Event>, st: St, e: Event, k: Key)
    requires Obeys(st, e) && LoadSourced(es, st, k)
    ensures LoadSourced(es + [e], Step(st, e), k)
  {
    var fs := es + [e];
    assert fs[|es|] == e;
    if e.Ask? && e.key == k {
      assert LastAsk(fs, k, |es|, |fs|);
    } else if k in st.loads && st.loads[k].Asked? {
      var i :| LastAsk(es, k, i, |es|) && es[i].answer == st.loads[k].answer;
      LastAskOn(es, e, k, i);
    }
  }

  lemma ReadyStep(es: seq<Event>, st: St, e: Event, k: Key)
    requires Inv(st) && Obeys(st, e) && Sourced(es, st, k)
    ensures ReadySourced(es + [e], Step(st, e), k)
  {
    var fs := es + [e];
    assert forall j | 0 <= j < |es| :: fs[j] == es[j];
    assert fs[|es|] == e;
    assert Get(st, k).state == Loading <==> k in st.loads;
    if e.Refresh? {
      GetRefreshed(st, k);
    } else if e == Store(k) {
      var i :| LastAsk(es, k, i, |es|) && es[i].answer == st.loads[k].answer;
      LastAskOn(es, e, k, i);
      if st.loads[k].answer.Some? {
        assert Brought(fs, k, st.loads[k].answer.value, i, |es|);
      }
    } else if Get(st, k).state == Ready {
      var names := Get(st, k).names;
      var i, s :| Brought(es, k, names, i, s);
      LastAskOn(es, e, k, i);
      assert Brought(fs, k, names, i, s);
    }
  }

  ghost predicate HasBrought(es: seq<Event>, k: Key) { exists names, i, s :: Brought(es, k, names, i, s) }

  lemma BroughtBefore(es: seq<Event>, e: Event, k: Key, names: seq<string>, i: int, s: int)
    requires Brought(es + [e], k, names, i, s)
    ensures !(e.Ask? && e.key == k) && LastAsk(es, k, i, |es|) && es[i].answer == Some(names)
    ensures if s == |es| then e == Store(k) else !e.Refresh? && Brought(es, k, names, i, s)
  {
    var fs := es + [e];
    assert forall j | 0 <= j < |es| :: fs[j] == es[j];
    assert fs[|es|] == e;
  }

  /** Names that were brought, with no refresh since, are there. */
  lemma BroughtStep(es: seq<Event>, st: St, e: Event, k: Key)
    requires Inv(st) && Obeys(st, e) && LoadSourced(es, st, k) && (HasBrought(es, k) ==> Get(st, k).state == Ready)
    ensures HasBrought(es + [e], k) ==> Get(Step(st, e), k).state == Ready
  {
    hide Brought;
    if HasBrought(es + [e], k) {
      var names, i, s :| Brought(es + [e], k, names, i, s);
      BroughtBefore(es, e, k, names, i, s);
      assert Get(st, k).state == Loading <==> k in st.loads;
      if s == |es| {
        var j :| LastAsk(es, k, j, |es|) && es[j].answer == st.loads[k].answer;
        OneLastAsk(es, k, i, j);
      }
    }
  }

  lemma OneLastAsk(es: seq<Event>, k: Key, i: int, j: int)
    requires LastAsk(es, k, i, |es|) && LastAsk(es, k, j, |es|)
    ensures i == j
  {
  }

  lemma {:induction false} BroughtIsReady(es: seq<Event>, k: Key)
    requires ObeysAll(START, es) && HasBrought(es, k)
    ensures Get(Run(START, es), k).state == Ready
    decreases |es|
  {
    hide Step, Run, ObeysAll, Obeys, Get, Sourced, LoadSourced, HasBrought;
    if es == [] {
      NothingBrought(k);
    } else {
      var n := |es| - 1;
      assert es == es[..n] + [es[n]];
      RunAppend(START, es[..n], es[n]);
      RunKeeps(START, es[..n]) by { NewCacheInv(); }
      NamesAreAnswers(es[..n], k);
      assert LoadSourced(es[..n], Run(START, es[..n]), k) by { SourcedLoads(es[..n], Run(START, es[..n]), k); }
      if HasBrought(es[..n], k) {
        BroughtIsReady(es[..n], k);
      }
      BroughtStep(es[..n], Run(START, es[..n]), es[n], k);
    }
  }

  lemma NothingBrought(k: Key)
    ensures !HasBrought([], k)
  {
  }

  lemma SourcedLoads(es: seq<Event>, st: St, k: Key)
    requires Sourced(es, st, k)
    ensures LoadSourced(es, st, k)
  {
  }

  /** When the caller is told to load, in every run: exactly when no load of the key is outstanding
      and no names have been brought since the last refresh. A load that failed is tried again. */
  lemma GrantedExactly(es: seq<Event>, k: Key)
    requires ObeysAll(START, es)
    ensures Granted(Run(START, es), k) <==> k !in Run(START, es).loads && !HasBrought(es, k)
  {
    hide Run, ObeysAll, Brought;
    NewCacheInv();
    RunKeeps(START, es);
    NamesAreAnswers(es, k);
    if HasBrought(es, k) {
      BroughtIsReady(es, k);
    }
    var st := Run(START, es);
    assert Get(st, k).state == Loading <==> k in st.loads;
  }

  /** Query i failed, and since its store at s there was no refresh and no claim. */
  ghost predicate FailedAt(es: seq<Event>, k: Key, i: int, s: int) {
    && LastAsk(es, k, i, |es|) && es[i].answer.None?
    && i < s < |es| && es[s] == Store(k) && forall j | s < j < |es| :: !es[j].Refresh? && es[j] != Claim(k)
  }

  ghost predicate HasFailed(es: seq<Event>, k: Key) { exists i, s :: FailedAt(es, k, i, s) }

  lemma FailedBefore(es: seq<Event>, e: Event, k: Key, i: int, s: int)
    requires FailedAt(es + [e], k, i, s)
    ensures !(e.Ask? && e.key == k) && LastAsk(es, k, i, |es|) && es[i].answer.None?
    ensures if s == |es| then e == Store(k) else !e.Refresh? && e != Claim(k) && FailedAt(es, k, i, s)
  {
    var fs := es + [e];
    assert forall j | 0 <= j < |es| :: fs[j] == es[j];
    assert fs[|es|] == e;
  }

  lemma FailedStep(es: seq<Event>, st: St, e: Event, k: Key)
    requires Inv(st) && Obeys(st, e) && LoadSourced(es, st, k) && (HasFailed(es, k) <==> Get(st, k).state == Failed)
    ensures HasFailed(es + [e], k) <==> Get(Step(st, e), k).state == Failed
  {
    hide FailedAt;
    var fs := es + [e];
    assert Get(st, k).state == Loading <==> k in st.loads;
    if HasFailed(fs, k) {
      var i, s :| FailedAt(fs, k, i, s);
      FailedBefore(es, e, k, i, s);
      if s == |es| {
        var j :| LastAsk(es, k, j, |es|) && es[j].answer == st.loads[k].answer;
        OneLastAsk(es, k, i, j);
      }
    }
    if Get(Step(st, e), k).state == Failed {
      if e == Store(k) {
        var j :| LastAsk(es, k, j, |es|) && es[j].answer == st.loads[k].answer;
        LastAskOn(es, e, k, j);
        FailsNow(es, e, k, j);
      } else {
        FailedOn(es, st, e, k);
      }
    }
  }

  lemma FailsNow(es: seq<Event>, e: Event, k: Key, j: int)
    requires e == Store(k) && LastAsk(es, k, j, |es|) && es[j].answer.None?
    ensures HasFailed(es + [e], k)
  {
    LastAskOn(es, e, k, j);
    assert FailedAt(es + [e], k, j, |es|);
  }

  lemma FailedOn(es: seq<Event>, st: St, e: Event, k: Key)
    requires Inv(st) && Obeys(st, e) && e != Store(k) && (HasFailed(es, k) <==> Get(st, k).state == Failed)
    requires Get(Step(st, e), k).state == Failed
    ensures HasFailed(es + [e], k)
  {
    assert Get(st, k).state == Loading <==> k in st.loads;
    if e.Refresh? {
      GetRefreshed(st, k);
    }
    assert Get(st, k).state == Failed && e != Claim(k) && !e.Refresh? && !(e.Ask? && e.key == k);
    var i, s :| FailedAt(es, k, i, s);
    LastAskOn(es, e, k, i);
    assert forall j | 0 <= j < |es| :: (es + [e])[j] == es[j];
    assert FailedAt(es + [e], k, i, s);
  }

  /** An entry shows a failure exactly when the last query for it failed and since that was stored
      there was neither a refresh nor a claim. */
  lemma {:induction false} FailedExactly(es: seq<Event>, k: Key)
    requires ObeysAll(START, es)
    ensures Get(Run(START, es), k).state == Failed <==> HasFailed(es, k)
    decreases |es|
  {
    hide Step, Run, ObeysAll, Obeys, Get, Sourced, LoadSourced, HasFailed;
    if es == [] {
      NothingFailed(k);
    } else {
      var n := |es| - 1;
      assert es == es[..n] + [es[n]];
      RunAppend(START, es[..n], es[n]);
      RunKeeps(START, es[..n]) by { NewCacheInv(); }
      NamesAreAnswers(es[..n], k);
      SourcedLoads(es[..n], Run(START, es[..n]), k);
      FailedExactly(es[..n], k);
      FailedStep(es[..n], Run(START, es[..n]), es[n], k);
    }
  }

  lemma NothingFailed(k: Key)
    requires ObeysAll(START, [])
    ensures !HasFailed([], k) && Get(Run(START, []), k).state != Failed
  {
  }

  /** The documentation promises that loads in flight at a refresh bring back fresh names. A load
      that had its answer before the refresh stores that answer after it. */
  lemma RefreshCanStoreStale(k: Key, stale: seq<string>)
    ensures var es := [Claim(k), Ask(k, Some(stale)), Refresh, Store(k)];
            ObeysAll(START, es) && Get(Run(START, es), k) == Entry(stale, Ready)
  {
    var s1 := Step(START, Claim(k));
    var s2 := Step(s1, Ask(k, Some(stale)));
    var s3 := Step(s2, Refresh);
    var s4 := Step(s3, Store(k));
    var es := [Claim(k), Ask(k, Some(stale)), Refresh, Store(k)];
    assert es[1..] == [Ask(k, Some(stale)), Refresh, Store(k)];
    assert es[1..][1..] == [Refresh, Store(k)] && [Refresh, Store(k)][1..] == [Store(k)] && [Store(k)][1..] == [];
    assert Run(s3, [Store(k)]) == s4;
    assert Run(s2, [Refresh, Store(k)]) == s4;
    assert Run(s1, es[1..]) == s4;
    assert Run(START, es) == s4;
  }

  // ---- when a refresh keeps its promise ----------------------------------------------------

  lemma {:induction false} RunJoin(st: St, es: seq<Event>, fs: seq<Event>)
    requires ObeysAll(st, es + fs)
    ensures ObeysAll(st, es) && ObeysAll(Run(st, es), fs) && Run(st, es + fs) == Run(Run(st, es), fs)
    decreases |es|
  {
    hide Step, Obeys;
    if es == [] {
      assert es + fs == fs;
    } else {
      assert (es + fs)[0] == es[0] && (es + fs)[1..] == es[1..] + fs;
      RunJoin(Step(st, es[0]), es[1..], fs);
    }
  }

  /** A load for `k` has its names already, and will store them. */
  predicate HasNames(st: St, k: Key) { k in st.loads && st.loads[k].Asked? && st.loads[k].answer.Some? }

  ghost predicate NoAsk(es: seq<Event>, k: Key) { forall j | 0 <= j < |es| :: !(es[j].Ask? && es[j].key == k) }

  ghost predicate NoRefresh(es: seq<Event>) { forall j | 0 <= j < |es| :: !es[j].Refresh? }

  lemma AskedOrReady(st: St, e: Event, k: Key)
    requires Inv(st) && Obeys(st, e) && !e.Refresh? && (HasNames(st, k) || Get(st, k).state == Ready)
    ensures !(e.Ask? && e.key == k)
    ensures HasNames(Step(st, e), k) || Get(Step(st, e), k).state == Ready
  {
    assert Get(st, k).state == Loading <==> k in st.loads;
  }

  /** With names on their way, or there, no query is made until the next refresh. */
  lemma {:induction false} NoQueryNeeded(st: St, es: seq<Event>, k: Key)
    requires Inv(st) && ObeysAll(st, es) && NoRefresh(es) && (HasNames(st, k) || Get(st, k).state == Ready)
    ensures NoAsk(es, k)
    decreases |es|
  {
    hide Inv, Step, Obeys, HasNames, Get;
    if es != [] {
      AskedOrReady(st, es[0], k);
      StepKeeps(st, es[0]);
      NoQueryNeeded(Step(st, es[0]), es[1..], k);
      forall j | 0 <= j < |es|
        ensures !(es[j].Ask? && es[j].key == k)
      {
        assert j > 0 ==> es[j] == es[1..][j - 1];
      }
    }
  }

  lemma StaysWithout(st: St, e: Event, k: Key)
    requires Obeys(st, e) && !(e.Ask? && e.key == k) && !HasNames(st, k) && Get(st, k).state != Ready
    ensures !HasNames(Step(st, e), k) && Get(Step(st, e), k).state != Ready
  {
    if e.Refresh? {
      GetRefreshed(st, k);
    }
  }

  /** Without names there or on their way, only a query can bring some. */
  lemma {:induction false} QueryNeeded(st: St, es: seq<Event>, k: Key)
    requires ObeysAll(st, es) && NoAsk(es, k) && !HasNames(st, k) && Get(st, k).state != Ready
    ensures Get(Run(st, es), k).state != Ready
    decreases |es|
  {
    hide Step, Obeys, HasNames, Get;
    if es != [] {
      StaysWithout(st, es[0], k);
      assert forall j | 0 <= j < |es| - 1 :: es[1..][j] == es[j + 1];
      QueryNeeded(Step(st, es[0]), es[1..], k);
    }
  }

  /** A refresh keeps its promise to a key exactly when no load of the key had its names by then:
      names that are ready after it come from a query made after it if and only if at the refresh
      no load for the key held an answer with names. `post` runs up to the next refresh. */
  lemma FreshAfterRefresh(pre: seq<Event>, post: seq<Event>, k: Key)
    requires ObeysAll(START, pre + ([Refresh] + post)) && NoRefresh(post)
    requires Get(Run(START, pre + ([Refresh] + post)), k).state == Ready
    ensures var es := pre + ([Refresh] + post); var names := Get(Run(START, es), k).names;
            ObeysAll(START, pre)
            && ((exists i, s :: |pre| < i && Brought(es, k, names, i, s)) <==> !HasNames(Run(START, pre), k))
  {
    hide Inv, Step, Obeys, Get, HasNames, Run, ObeysAll, NoAsk, LastAsk, Brought;
    var es := pre + ([Refresh] + post);
    var names := Get(Run(START, es), k).names;
    RunJoin(START, pre, [Refresh] + post);
    var st := Run(START, pre);
    RunJoin(st, [Refresh], post);
    RunOne(st, Refresh);
    var next := Step(st, Refresh);
    NewCacheInv();
    RunKeeps(START, pre);
    StepKeeps(st, Refresh);
    RefreshForgets(st, k);
    NamesAreAnswers(es, k);
    var i0, s0 :| Brought(es, k, names, i0, s0);
    if HasNames(st, k) {
      NoQueryNeeded(next, post, k);
      forall i, s | Brought(es, k, names, i, s)
        ensures i <= |pre|
      {
        QueryBefore(pre, post, k, names, i, s);
      }
    } else if NoAsk(post, k) {
      QueryNeeded(next, post, k);
    } else {
      QueryAfter(pre, post, k, names, i0, s0);
    }
  }

  lemma RefreshForgets(st: St, k: Key)
    ensures Get(Step(st, Refresh), k).state != Ready
    ensures HasNames(Step(st, Refresh), k) <==> HasNames(st, k)
  {
    GetRefreshed(st, k);
  }

  lemma QueryBefore(pre: seq<Event>, post: seq<Event>, k: Key, names: seq<string>, i: int, s: int)
    requires Brought(pre + ([Refresh] + post), k, names, i, s) && NoAsk(post, k)
    ensures i <= |pre|
  {
    var es := pre + ([Refresh] + post);
    assert forall j | 0 <= j < |post| :: es[|pre| + 1 + j] == post[j];
    assert forall j | |pre| < j < |es| :: !(es[j].Ask? && es[j].key == k) by {
      assert forall j | |pre| < j < |es| :: es[j] == post[j - |pre| - 1];
    }
  }

  lemma QueryAfter(pre: seq<Event>, post: seq<Event>, k: Key, names: seq<string>, i: int, s: int)
    requires Brought(pre + ([Refresh] + post), k, names, i, s) && !NoAsk(post, k)
    ensures i > |pre|
  {
    var es := pre + ([Refresh] + post);
    var j :| 0 <= j < |post| && post[j].Ask? && post[j].key == k;
    assert es[|pre| + 1 + j] == post[j];
  }

  /** A load is outstanding until it stores: its key stays Loading and is granted to nobody, over
      every other step and every refresh. */
  lemma {:induction false} ClaimLasts(st: St, es: seq<Event>, k: Key)
    requires Inv(st) && ObeysAll(st, es) && k in st.loads && Store(k) !in es
    ensures k in Run(st, es).loads && Get(Run(st, es), k).state == Loading && !Granted(Run(st, es), k)
    decreases |es|
  {
    if es == [] {
      assert Get(st, k).state == Loading <==> k in st.loads;
    } else {
      assert es[0] in es;
      ClaimStep(st, es[0], k);
      ClaimLasts(Step(st, es[0]), es[1..], k);
    }
  }

  lemma ClaimStep(st: St, e: Event, k: Key)
    requires Inv(st) && Obeys(st, e) && k in st.loads && e != Store(k)
    ensures Inv(Step(st, e)) && k in Step(st, e).loads
  {
    StepKeeps(st, e);
  }

  // ---- resolving a name --------------------------------------------------------------------

  /** A name without what comes before its first dot. */
  function Leaf(name: string): string {
    var k := IndexByte(name, '.', 0);
    if k == |name| then name else name[k + 1..]
  }

  /** The first name whose key is `want`, for any way `key` of keying names. */
  function FirstWith(names: seq<string>, key: string -> string, want: string): (r: Option<string>)
    ensures r.Some? ==> r.value in names && key(r.value) == want
    ensures r.None? ==> forall n | n in names :: key(n) != want
  {
    if names == [] then None
    else if key(names[0]) == want then Some(names[0])
    else FirstWith(names[1..], key, want)
  }

  /** Resolve over a listing; `fold` is the case folding the cache compares names by. */
  function Resolve(names: seq<string>, fold: string -> string, table: string): Option<string> {
    match FirstWith(names, fold, fold(table))
    case Some(n) => Some(n)
    case None => FirstWith(names, n => Leaf(fold(n)), Leaf(fold(table)))
  }

  /** `leaf` is the name without its qualifier: what follows the first dot, or all of it. */
  ghost predicate Unqualified(name: string, leaf: string) {
    (name == leaf && '.' !in name) || exists q :: '.' !in q && name == q + "." + leaf
  }

  lemma LeafIs(name: string, leaf: string)
    ensures Unqualified(name, leaf) <==> Leaf(name) == leaf
  {
    hide IndexByte;
    var k := IndexByte(name, '.', 0);
    IndexByteFirst(name, '.', 0);
    assert k < |name| ==> name[k] in name;
    if Leaf(name) == leaf && k < |name| {
      assert '.' !in name[..k] && name == name[..k] + "." + leaf;
    }
    if name != leaf && Unqualified(name, leaf) {
      var q :| '.' !in q && name == q + "." + leaf;
      assert name[|q|] == '.' && forall j | 0 <= j < |q| :: name[j] == q[j];
      assert k == |q|;
    }
    if name == leaf && Unqualified(name, leaf) {
      assert forall q: string :: name != q + "." + leaf by { TooLong(name); }
    }
  }

  lemma TooLong(name: string)
    ensures forall q: string :: name != q + "." + name
  {
    forall q: string
      ensures name != q + "." + name
    {
      assert |q + "." + name| == |q| + 1 + |name|;
    }
  }

  /** `r` is the first of the names that match. */
  ghost predicate IsFirst(names: seq<string>, matches: string -> bool, r: string) {
    exists i :: 0 <= i < |names| && names[i] == r && matches(r) && forall j | 0 <= j < i :: !matches(names[j])
  }

  lemma {:induction false} FirstIs(names: seq<string>, key: string -> string, want: string, matches: string -> bool)
    requires forall n :: matches(n) <==> key(n) == want
    requires FirstWith(names, key, want).Some?
    ensures IsFirst(names, matches, FirstWith(names, key, want).value)
    decreases |names|
  {
    if key(names[0]) == want {
      assert names[0] == FirstWith(names, key, want).value;
    } else {
      FirstIs(names[1..], key, want, matches);
      var r := FirstWith(names, key, want).value;
      var i :| 0 <= i < |names[1..]| && names[1..][i] == r && forall j | 0 <= j < i :: !matches(names[1..][j]);
      assert names[i + 1] == r;
      forall j | 0 <= j < i + 1
        ensures !matches(names[j])
      {
        assert j > 0 ==> names[j] == names[1..][j - 1];
      }
    }
  }

  /** The first listed name that matches as written comes back; when none does, the first one that
      matches without qualifiers; and nothing exactly when there is none of those either. */
  lemma ResolveFinds(names: seq<string>, fold: string -> string, table: string, leaf: string)
    requires Unqualified(fold(table), leaf)
    ensures var r := Resolve(names, fold, table);
            && (r.None? <==> forall n | n in names :: !Unqualified(fold(n), leaf))
            && (r.Some? ==> IsFirst(names, if exists n :: n in names && fold(n) == fold(table) then n => fold(n) == fold(table)
                                           else n => Unqualified(fold(n), leaf), r.value))
  {
    hide Leaf, Unqualified, FirstWith, IsFirst;
    forall n
      ensures Unqualified(fold(n), leaf) <==> Leaf(fold(n)) == leaf
    {
      LeafIs(fold(n), leaf);
    }
    LeafIs(fold(table), leaf);
    var written, bare := FirstWith(names, fold, fold(table)), n => Leaf(fold(n));
    if written.Some? {
      FirstIs(names, fold, fold(table), n => fold(n) == fold(table));
    } else {
      var r := FirstWith(names, bare, leaf);
      if r.Some? {
        FirstIs(names, bare, leaf, n => Unqualified(fold(n), leaf));
      } else {
        forall n | n in names
          ensures !Unqualified(fold(n), leaf)
        {
          assert bare(n) != leaf;
        }
      }
    }
  }

  /** A qualified name finds a listed name that has no qualifier. */
  lemma QualifiedFinds(names: seq<string>, fold: string -> string, table: string, schema: string, listed: string)
    requires fold(table) == schema + "." + fold(listed) && '.' !in schema
    requires listed in names && '.' !in fold(listed)
    ensures Resolve(names, fold, table).Some?
  {
    hide Resolve;
    ResolveFinds(names, fold, table, fold(listed));
    assert Unqualified(fold(listed), fold(listed));
  }

  /** The first match stays the first match when asked for by a key it has. */
  lemma {:induction false} FirstIsFirst(names: seq<string>, key: string -> string, want: string, fine: string -> string)
    requires FirstWith(names, key, want).Some?
    requires forall a, b :: fine(a) == fine(b) ==> key(a) == key(b)
    ensures var r := FirstWith(names, key, want).value; FirstWith(names, fine, fine(r)) == Some(r)
    decreases |names|
  {
    if key(names[0]) != want {
      FirstIsFirst(names[1..], key, want, fine);
    }
  }

  /** A resolved name resolves to itself. */
  lemma ResolveIdempotent(names: seq<string>, fold: string -> string, table: string)
    requires Resolve(names, fold, table).Some?
    ensures Resolve(names, fold, Resolve(names, fold, table).value) == Resolve(names, fold, table)
  {
    hide Leaf;
    if FirstWith(names, fold, fold(table)).Some? {
      FirstIsFirst(names, fold, fold(table), fold);
    } else {
      FirstIsFirst(names, n => Leaf(fold(n)), Leaf(fold(table)), fold);
    }
  }

  // ---- the object ----------------------------------------------------------------------------

  class Cache {
    const fold: string -> string
    var tables: Entry
    var cols: map<string, Entry>
    ghost var loads: map<Key, Load> // what callers have outstanding

    ghost function View(): St
      reads this
    {
      St(tables, cols, loads)
    }

    constructor (fold: string -> string)
      ensures View() == START && this.fold == fold
    {
      this.fold, tables, cols, loads := fold, EMPTY, map[], map[];
    }

    /** Must the caller now load the table listing? */
    method ClaimTables() returns (ok: bool)
      requires Inv(View())
      modifies this
      ensures View() == Step(old(View()), Claim(Tables)) && Inv(View())
      ensures ok == Granted(old(View()), Tables) && (ok ==> Tables !in old(loads))
    {
      StepKeeps(View(), Claim(Tables));
      assert Get(View(), Tables).state == Loading <==> Tables in loads;
      if tables.state == Loading || tables.state == Ready {
        return false;
      }
      assert Get(View(), Tables).names == [];
      tables := tables.(state := Loading);
      loads := loads[Tables := Claimed];
      return true;
    }

    method ClaimColumns(table: string) returns (ok: bool)
      requires Inv(View())
      modifies this
      ensures View() == Step(old(View()), Claim(Columns(fold(table)))) && Inv(View())
      ensures ok == Granted(old(View()), Columns(fold(table))) && (ok ==> Columns(fold(table)) !in old(loads))
    {
      var key := fold(table);
      StepKeeps(View(), Claim(Columns(key)));
      assert Get(View(), Columns(key)).state == Loading <==> Columns(key) in loads;
      var e := if key in cols then cols[key] else EMPTY;
      if e.state == Loading || e.state == Ready {
        return false;
      }
      cols := cols[key := Entry([], Loading)];
      loads := loads[Columns(key) := Claimed];
      return true;
    }

    /** The driver's part of a load: the lock is not held, so anything may happen before the store. */
    ghost method AskDriver(k: Key, answer: Option<seq<string>>)
      requires Inv(View()) && Obeys(View(), Ask(k, answer))
      modifies this`loads
      ensures View() == Step(old(View()), Ask(k, answer)) && Inv(View())
    {
      StepKeeps(View(), Ask(k, answer));
      loads := loads[k := Asked(answer)];
    }

    /** The end of LoadTables, with the names the driver listed or none for an error. */
    method StoreTables(answer: Option<seq<string>>)
      requires Inv(View()) && Tables in loads && loads[Tables] == Asked(answer)
      modifies this
      ensures View() == Step(old(View()), Store(Tables)) && Inv(View())
    {
      StepKeeps(View(), Store(Tables));
      if answer.None? {
        tables := Entry([], Failed);
      } else {
        tables := Entry(answer.value, Ready);
      }
      loads := loads - {Tables};
    }

    method StoreColumns(table: string, answer: Option<seq<string>>)
      requires Inv(View()) && Columns(fold(table)) in loads && loads[Columns(fold(table))] == Asked(answer)
      modifies this
      ensures View() == Step(old(View()), Store(Columns(fold(table)))) && Inv(View())
    {
      var key := fold(table);
      StepKeeps(View(), Store(Columns(key)));
      if answer.None? {
        cols := cols[key := Entry([], Failed)];
      } else {
        cols := cols[key := Entry(answer.value, Ready)];
      }
      loads := loads - {Columns(key)};
    }

    method Refresh()
      requires Inv(View())
      modifies this
      ensures View() == Step(old(View()), Event.Refresh) && Inv(View())
    {
      StepKeeps(View(), Event.Refresh);
      if tables.state != Loading {
        tables := EMPTY;
      }
      var left := cols.Keys;
      var kept := cols;
      while left != {}
        invariant left <= cols.Keys && cols == old(cols) && kept.Keys <= cols.Keys
        invariant forall t | t in kept :: kept[t] == cols[t]
        invariant forall t | t in cols :: t in kept <==> t in left || cols[t].state == Loading
        decreases |left|
      {
        var t :| t in left;
        left := left - {t};
        if cols[t].state != Loading {
          kept := kept - {t};
        }
      }
      cols := kept;
    }

    method ResolveName(table: string) returns (r: Option<string>)
      ensures r == if tables.state == Ready then Resolve(tables.names, fold, table) else None
    {
      if tables.state != Ready {
        return None;
      }
      var names, want := tables.names, fold(table);
      assert names[0..] == names;
      for i := 0 to |names|
        invariant FirstWith(names, fold, want) == FirstWith(names[i..], fold, want)
      {
        assert names[i..][0] == names[i] && names[i..][1..] == names[i + 1..];
        if fold(names[i]) == want {
          return Some(names[i]);
        }
      }
      assert names[|names|..] == [];
      var leaf := n => Leaf(fold(n));
      for i := 0 to |names|
        invariant FirstWith(names, leaf, Leaf(want)) == FirstWith(names[i..], leaf, Leaf(want))
      {
        assert names[i..][0] == names[i] && names[i..][1..] == names[i + 1..];
        if Leaf(fold(names[i])) == Leaf(want) {
          return Some(names[i]);
        }
      }
      return None;
    }
  }
}

/** Opening, binding and closing files: which files stay, what still refers to them, and what happens
    when several threads close at once with the lock dropped around the finalizers.

    F is the identity of a file and C that of a context (a namespace). */
module Unload {
  import opened Seqs
  import opened Graph
  import opened Breadth

  datatype Rec<F, C> = Rec(count: nat, deps: seq<F>, resolvedIn: seq<F>, localScope: seq<F>, context: C)

  /** The files in link-map order, the record of each mapped file, the global scope of each context, and
      the files whose finalizers have been claimed (`fini_call_lock`). */
  datatype Store<F, C> = Store(linkMap: seq<F>, recs: map<F, Rec<F, C>>, globals: map<C, seq<F>>, locked: set<F>)

  // ----- what each critical section computes

  ghost function References<F, C>(st: Store<F, C>): Edges<F> {
    map f | f in st.recs :: st.recs[f].resolvedIn + st.recs[f].deps
  }

  ghost function Roots<F, C>(st: Store<F, C>): set<F> {
    set f | f in st.linkMap && f in st.recs && st.recs[f].count > 0
  }

  /** What the collector must keep. */
  ghost function Live<F, C>(st: Store<F, C>): set<F> {
    ReachedSet(References(st), Roots(st), st.linkMap)
  }

  /** VdlGcResult.unload and .not_unload */
  ghost function Garbage<F, C>(st: Store<F, C>): seq<F> { Except(st.linkMap, Live(st)) }
  ghost function Kept<F, C>(st: Store<F, C>): seq<F> { Only(st.linkMap, Live(st)) }

  function Released<F, C>(st: Store<F, C>, f: F): Store<F, C>
    requires f in st.recs && st.recs[f].count > 0
  {
    st.(recs := st.recs[f := st.recs[f].(count := st.recs[f].count - 1)])
  }

  /** The files among `files` that belong to context c. */
  ghost function Members<F, C>(st: Store<F, C>, files: set<F>, c: C): set<F> {
    set f | f in files && f in st.recs && st.recs[f].context == c
  }

  /** The files of `gone` leave the local scopes of the files in `keep` and the global scopes of their contexts. */
  ghost function ScopesWithout<F, C>(st: Store<F, C>, keep: set<F>, gone: set<F>): Store<F, C> {
    st.(recs := map f | f in st.recs ::
                  if f in keep then st.recs[f].(localScope := Except(st.recs[f].localScope, gone)) else st.recs[f],
        globals := map c | c in st.globals :: Except(st.globals[c], Members(st, gone, c)))
  }

  /** Every garbage file leaves the local scopes of the kept files and the global scope of its context. */
  ghost function Unscoped<F, C>(st: Store<F, C>): Store<F, C> {
    ScopesWithout(st, Live(st), Elements(Garbage(st)))
  }

  /** vdl_dlclose up to the point where it drops the lock. */
  ghost function CloseBegun<F, C>(st: Store<F, C>, f: F): Store<F, C>
    requires f in st.recs && st.recs[f].count > 0
  {
    var st1 := Released(st, f);
    Unscoped(st1).(locked := st.locked + Elements(Garbage(st1)))
  }

  /** vdl_dlclose after it has taken the lock again. */
  ghost function CloseEnded<F, C>(st: Store<F, C>, files: seq<F>): Store<F, C> {
    st.(linkMap := Except(st.linkMap, Elements(files)), recs := st.recs - Elements(files),
        locked := st.locked - Elements(files))
  }

  /** A symbol of `from` was found in `item`. */
  function Bound<F, C>(st: Store<F, C>, from: F, item: F): Store<F, C>
    requires from in st.recs
  {
    if item == from then st
    else st.(recs := st.recs[from := st.recs[from].(resolvedIn := [item] + st.recs[from].resolvedIn)])
  }

  /** A successful dlopen: `newly` are the files mapped by it, with their dependencies. */
  function Opened<F, C>(st: Store<F, C>, context: C, requested: F, newly: seq<F>, deps: map<F, seq<F>>,
                        scope: seq<F>, isGlobal: bool): Store<F, C>
    requires context in st.globals && (requested in st.recs || requested in newly)
    requires forall f :: f in newly ==> f in deps
  {
    var added := map f | f in newly :: Rec(0, deps[f], [], scope, context);
    var recs := st.recs + added;
    st.(linkMap := st.linkMap + newly,
        recs := recs[requested := recs[requested].(count := recs[requested].count + 1)],
        globals := if isGlobal then st.globals[context := Unicized(st.globals[context] + scope)] else st.globals)
  }

  /** The first half of an opening's bookkeeping: one more reference, and the global scope. */
  function Counted<F, C>(st: Store<F, C>, context: C, requested: F, scope: seq<F>, isGlobal: bool): Store<F, C>
    requires context in st.globals
  {
    st.(recs := if requested in st.recs
                then st.recs[requested := st.recs[requested].(count := st.recs[requested].count + 1)] else st.recs,
        globals := if isGlobal then st.globals[context := Unicized(st.globals[context] + scope)] else st.globals)
  }

  /** The second half: the new files, with their local scopes, at the end of the link map. */
  function Appended<F, C>(st: Store<F, C>, newly: seq<F>, added: map<F, Rec<F, C>>): Store<F, C> {
    st.(linkMap := st.linkMap + newly, recs := st.recs + added)
  }

  lemma OpenedInSteps<F, C>(st: Store<F, C>, context: C, requested: F, newly: seq<F>, deps: map<F, seq<F>>,
                            scope: seq<F>, isGlobal: bool, added: map<F, Rec<F, C>>)
    requires context in st.globals && (requested in st.recs || requested in newly)
    requires forall f :: f in newly ==> f in deps && f !in st.recs
    requires added.Keys == Elements(newly)
    requires forall f :: f in newly ==>
               f in added && added[f] == Rec(if f == requested then 1 else 0, deps[f], [], scope, context)
    ensures Appended(Counted(st, context, requested, scope, isGlobal), newly, added)
         == Opened(st, context, requested, newly, deps, scope, isGlobal)
  {
    assert forall f :: f in newly <==> f in Elements(newly);
    assert Appended(Counted(st, context, requested, scope, isGlobal), newly, added).recs
        == Opened(st, context, requested, newly, deps, scope, isGlobal).recs;
  }

  // ----- the invariant

  predicate Active<F, C>(st: Store<F, C>, f: F) { f in st.recs && f !in st.locked }

  ghost predicate RefersToActive<F, C>(st: Store<F, C>, r: Rec<F, C>) {
    && (forall d :: d in r.deps ==> Active(st, d))
    && (forall d :: d in r.resolvedIn ==> Active(st, d))
    && (forall d :: d in r.localScope ==> Active(st, d))
  }

  /** `f` may appear in what belongs to context c: it is a file of c or the loader itself. */
  predicate Belongs<F, C>(st: Store<F, C>, ldso: F, c: C, f: F) {
    f in st.recs && (f == ldso || st.recs[f].context == c)
  }

  ghost predicate FileValid<F, C>(st: Store<F, C>, ldso: F, f: F)
    requires f in st.recs
  {
    var r := st.recs[f];
    && r.context in st.globals && (r.count > 0 ==> f !in st.locked)
    && (f !in st.locked ==> RefersToActive(st, r) && forall d :: d in r.deps ==> Belongs(st, ldso, r.context, d))
  }

  predicate ScopeEntryValid<F, C>(st: Store<F, C>, ldso: F, c: C, f: F) { Active(st, f) && Belongs(st, ldso, c, f) }

  ghost predicate GlobalsValid<F, C>(st: Store<F, C>, ldso: F) {
    forall c, f {:trigger ScopeEntryValid(st, ldso, c, f)} ::
      c in st.globals && f in st.globals[c] ==> ScopeEntryValid(st, ldso, c, f)
  }

  ghost predicate StoreValid<F, C>(st: Store<F, C>, ldso: F) {
    && Distinct(st.linkMap) && Elements(st.linkMap) == st.recs.Keys && st.locked <= st.recs.Keys
    && ldso in st.recs && st.recs[ldso].count >= 1 && st.recs[ldso].deps == []
    && (forall f {:trigger FileValid(st, ldso, f)} :: f in st.recs ==> FileValid(st, ldso, f))
    && GlobalsValid(st, ldso)
  }

  // ----- the collector's part

  /** Locked files are never reached again, so what the collector keeps is active, closed and rooted. */
  lemma LiveIsActive<F, C>(st: Store<F, C>, ldso: F)
    requires StoreValid(st, ldso)
    ensures forall f :: f in Live(st) ==> Active(st, f)
    ensures Closed(References(st), Live(st))
    ensures Roots(st) <= Live(st)
  {
    var active := set f | f in st.recs && f !in st.locked;
    assert Closed(References(st), active) by {
      forall n, m | n in active && n in References(st) && m in References(st)[n] ensures m in active {
        assert FileValid(st, ldso, n);
      }
    }
    forall f | f in Roots(st) ensures f in active && Reaches(References(st), Roots(st), f) {
      assert FileValid(st, ldso, f);
      RootReached(References(st), Roots(st), f);
    }
    forall f | f in Live(st) ensures f in active {
      ReachedInClosed(References(st), Roots(st), active, f);
    }
    forall n, m | n in Live(st) && n in References(st) && m in References(st)[n] ensures m in Live(st) {
      EdgeReached(References(st), Roots(st), n, m);
      assert m in active && m in Elements(st.linkMap);
    }
  }

  /** The loader itself is always kept. */
  lemma LdsoLive<F, C>(st: Store<F, C>, ldso: F)
    requires StoreValid(st, ldso)
    ensures ldso in Live(st)
  {
    LiveIsActive(st, ldso);
    assert ldso in Elements(st.linkMap);
    assert ldso in Roots(st);
  }

  lemma ReleasedValid<F, C>(st: Store<F, C>, ldso: F, f: F)
    requires StoreValid(st, ldso) && f in st.recs && st.recs[f].count > (if f == ldso then 1 else 0)
    ensures StoreValid(Released(st, f), ldso)
  {
    var st' := Released(st, f);
    forall x | x in st'.recs ensures FileValid(st', ldso, x) {
      assert FileValid(st, ldso, x);
    }
    forall c, x | c in st'.globals && x in st'.globals[c] ensures ScopeEntryValid(st', ldso, c, x) {
      assert ScopeEntryValid(st, ldso, c, x);
    }
  }

  lemma ReleasedFor<F, C>(st: Store<F, C>, ldso: F, f: F) returns (st1: Store<F, C>, st': Store<F, C>)
    requires StoreValid(st, ldso) && f in st.recs && st.recs[f].count > (if f == ldso then 1 else 0)
    ensures st1 == Released(st, f) && st' == CloseBegun(st, f) && StoreValid(st1, ldso)
    ensures forall x :: x in st'.recs && x !in st'.locked ==> x in Live(st1)
    ensures forall x :: x in Live(st1) ==> Active(st', x) && Active(st1, x)
    ensures Closed(References(st1), Live(st1)) && Roots(st1) <= Live(st1) && ldso in Live(st1)
    ensures forall x :: x in Elements(Garbage(st1)) <==> x in st1.recs && x !in Live(st1)
  {
    ReleasedValid(st, ldso, f);
    st1 := Released(st, f);
    st' := CloseBegun(st, f);
    LiveIsActive(st1, ldso);
    LdsoLive(st1, ldso);
    assert forall x :: x in st.recs <==> x in Elements(st1.linkMap);
  }

  lemma CloseBegunFile<F, C>(st: Store<F, C>, ldso: F, f: F, x: F)
    requires StoreValid(st, ldso) && f in st.recs && st.recs[f].count > (if f == ldso then 1 else 0)
    requires x in st.recs
    ensures FileValid(CloseBegun(st, f), ldso, x)
  {
    var st1, st' := ReleasedFor(st, ldso, f);
    assert FileValid(st1, ldso, x);
    if x in Live(st1) {
      forall d | d in st1.recs[x].deps || d in st1.recs[x].resolvedIn ensures d in Live(st1) {
        assert d in References(st1)[x];
      }
      assert RefersToActive(st', st'.recs[x]);
    } else {
      assert x !in Roots(st1) && x in Elements(st1.linkMap);
    }
  }

  lemma CloseBegunScope<F, C>(st: Store<F, C>, ldso: F, f: F, c: C, x: F)
    requires StoreValid(st, ldso) && f in st.recs && st.recs[f].count > (if f == ldso then 1 else 0)
    requires c in st.globals && x in CloseBegun(st, f).globals[c]
    ensures ScopeEntryValid(CloseBegun(st, f), ldso, c, x)
  {
    var st1, st' := ReleasedFor(st, ldso, f);
    assert ScopeEntryValid(st1, ldso, c, x);
    assert x in Live(st1);
  }

  lemma CloseBegunFiles<F, C>(st: Store<F, C>, ldso: F, f: F)
    requires StoreValid(st, ldso) && f in st.recs && st.recs[f].count > (if f == ldso then 1 else 0)
    ensures forall x :: x in CloseBegun(st, f).recs ==> FileValid(CloseBegun(st, f), ldso, x)
  {
    forall x | x in CloseBegun(st, f).recs ensures FileValid(CloseBegun(st, f), ldso, x) {
      CloseBegunFile(st, ldso, f, x);
    }
  }

  lemma CloseBegunScopes<F, C>(st: Store<F, C>, ldso: F, f: F)
    requires StoreValid(st, ldso) && f in st.recs && st.recs[f].count > (if f == ldso then 1 else 0)
    ensures GlobalsValid(CloseBegun(st, f), ldso)
  {
    var st' := CloseBegun(st, f);
    forall c, x | c in st'.globals && x in st'.globals[c] ensures ScopeEntryValid(st', ldso, c, x) {
      CloseBegunScope(st, ldso, f, c, x);
    }
  }

  lemma CloseBegunValid<F, C>(st: Store<F, C>, ldso: F, f: F)
    requires StoreValid(st, ldso) && f in st.recs && st.recs[f].count > (if f == ldso then 1 else 0)
    ensures StoreValid(CloseBegun(st, f), ldso)
    ensures st.locked <= Elements(Garbage(Released(st, f)))
  {
    CloseBegunFiles(st, ldso, f);
    CloseBegunScopes(st, ldso, f);
    var st1, st' := ReleasedFor(st, ldso, f);
  }

  lemma CloseEndedValid<F, C>(st: Store<F, C>, ldso: F, files: seq<F>)
    requires StoreValid(st, ldso) && Elements(files) <= st.locked
    ensures StoreValid(CloseEnded(st, files), ldso)
  {
    var st' := CloseEnded(st, files);
    ExceptDistinct(st.linkMap, Elements(files));
    assert Elements(st'.linkMap) == st'.recs.Keys by {
      assert forall x :: x in st.recs <==> x in Elements(st.linkMap);
    }
    assert FileValid(st, ldso, ldso);
    forall x | x in st'.recs ensures FileValid(st', ldso, x) {
      assert FileValid(st, ldso, x);
    }
    forall c, x | c in st'.globals && x in st'.globals[c] ensures ScopeEntryValid(st', ldso, c, x) {
      assert ScopeEntryValid(st, ldso, c, x);
    }
  }

  lemma BoundValid<F, C>(st: Store<F, C>, ldso: F, from: F, item: F)
    requires StoreValid(st, ldso) && Active(st, from) && Active(st, item)
    ensures StoreValid(Bound(st, from, item), ldso)
  {
    var st' := Bound(st, from, item);
    forall x | x in st'.recs ensures FileValid(st', ldso, x) {
      assert FileValid(st, ldso, x);
    }
    forall c, x | c in st'.globals && x in st'.globals[c] ensures ScopeEntryValid(st', ldso, c, x) {
      assert ScopeEntryValid(st, ldso, c, x);
    }
  }

  // ----- opening

  ghost function DependencyGraph<F, C>(st: Store<F, C>): Edges<F> {
    map f | f in st.recs :: st.recs[f].deps
  }

  /** The outcome of a mapping: the new files are new, and what is requested and what they depend on are new files
      or mapped ones of the same context, or the loader itself. */
  ghost predicate Resolvable<F, C>(st: Store<F, C>, ldso: F, context: C, requested: F, newly: seq<F>,
                                   deps: map<F, seq<F>>) {
    && context in st.globals && Distinct(newly) && deps.Keys == Elements(newly)
    && (forall f :: f in newly ==> f !in st.recs)
    && (requested in newly || Belongs(st, ldso, context, requested))
    && (forall f, d :: f in newly && d in deps[f] ==> d in newly || Belongs(st, ldso, context, d))
  }

  /** Neither the requested file nor a dependency of a new one has been claimed by a closer. */
  ghost predicate MeetsNoClaimed<F, C>(st: Store<F, C>, requested: F, newly: seq<F>, deps: map<F, seq<F>>) {
    && (requested in newly || requested !in st.locked)
    && (forall f, d :: f in newly && f in deps && d in deps[f] ==> d in newly || d !in st.locked)
  }

  ghost predicate Mappable<F, C>(st: Store<F, C>, ldso: F, context: C, requested: F, newly: seq<F>,
                                 deps: map<F, seq<F>>) {
    Resolvable(st, ldso, context, requested, newly, deps) && MeetsNoClaimed(st, requested, newly, deps)
  }

  /** The scope lists the dependency closure of the requested file breadth-first. */
  ghost predicate Openable<F, C>(st: Store<F, C>, ldso: F, context: C, requested: F, newly: seq<F>,
                                 deps: map<F, seq<F>>, scope: seq<F>) {
    && Mappable(st, ldso, context, requested, newly, deps)
    && BreadthFirstListing(DependencyGraph(st) + deps, requested, scope)
  }

  /** The new files and the active ones that may appear in context c. */
  ghost function Eligible<F, C>(st: Store<F, C>, ldso: F, context: C, newly: seq<F>): set<F> {
    Elements(newly) + set x | x in st.recs && Active(st, x) && Belongs(st, ldso, context, x)
  }

  lemma DependsOnEligible<F, C>(st: Store<F, C>, ldso: F, context: C, newly: seq<F>, n: F, m: F)
    requires n in st.recs && FileValid(st, ldso, n) && m in st.recs[n].deps
    requires ldso in st.recs && st.recs[ldso].deps == []
    requires n in Eligible(st, ldso, context, newly) && n !in newly
    ensures m in Eligible(st, ldso, context, newly)
  {
  }

  lemma EligibleClosed<F, C>(st: Store<F, C>, ldso: F, context: C, requested: F, newly: seq<F>, deps: map<F, seq<F>>)
    requires StoreValid(st, ldso) && Mappable(st, ldso, context, requested, newly, deps)
    ensures Closed(DependencyGraph(st) + deps, Eligible(st, ldso, context, newly))
  {
    var g, s := DependencyGraph(st) + deps, Eligible(st, ldso, context, newly);
    forall n, m | n in s && n in g && m in g[n] ensures m in s {
      if n !in newly {
        assert FileValid(st, ldso, n);
        DependsOnEligible(st, ldso, context, newly, n, m);
      }
    }
  }

  lemma ScopeBelongs<F, C>(st: Store<F, C>, ldso: F, context: C, requested: F, newly: seq<F>,
                           deps: map<F, seq<F>>, scope: seq<F>, f: F)
    requires StoreValid(st, ldso) && Openable(st, ldso, context, requested, newly, deps, scope) && f in scope
    ensures f in newly || (Active(st, f) && Belongs(st, ldso, context, f))
  {
    EligibleClosed(st, ldso, context, requested, newly, deps);
    ReachedInClosed(DependencyGraph(st) + deps, {requested}, Eligible(st, ldso, context, newly), f);
  }

  /** The records an opening leaves. */
  ghost predicate OpenedAs<F, C>(st: Store<F, C>, st': Store<F, C>, context: C, requested: F, newly: seq<F>,
                                 deps: map<F, seq<F>>, scope: seq<F>)
    requires forall f :: f in newly ==> f in deps
  {
    && st'.recs.Keys == st.recs.Keys + Elements(newly) && st'.locked == st.locked
    && (forall f :: f in st.recs ==>
          && st'.recs[f] == st.recs[f].(count := st'.recs[f].count)
          && st'.recs[f].count >= st.recs[f].count && (st'.recs[f].count == st.recs[f].count || f == requested))
    && (forall f :: f in newly ==>
          st'.recs[f] == Rec(if f == requested then 1 else 0, deps[f], [], scope, context))
    && (forall c :: c in st.globals ==> c in st'.globals)
  }

  lemma OpenedShape<F, C>(st: Store<F, C>, ldso: F, context: C, requested: F, newly: seq<F>,
                          deps: map<F, seq<F>>, scope: seq<F>, isGlobal: bool)
    requires StoreValid(st, ldso) && Openable(st, ldso, context, requested, newly, deps, scope)
    ensures forall f :: f in newly ==> f in deps
    ensures var st' := Opened(st, context, requested, newly, deps, scope, isGlobal);
            && OpenedAs(st, st', context, requested, newly, deps, scope)
            && Distinct(st'.linkMap) && Elements(st'.linkMap) == st'.recs.Keys
  {
    assert forall f :: f in newly ==> f in Elements(newly);
    OpenedRecords(st, context, requested, newly, deps, scope, isGlobal);
    ExtendedLinkMap(st.linkMap, newly, st.recs.Keys);
  }

  lemma OpenedRecords<F, C>(st: Store<F, C>, context: C, requested: F, newly: seq<F>,
                            deps: map<F, seq<F>>, scope: seq<F>, isGlobal: bool)
    requires context in st.globals && (requested in st.recs || requested in newly)
    requires forall f :: f in newly ==> f in deps && f !in st.recs
    ensures OpenedAs(st, Opened(st, context, requested, newly, deps, scope, isGlobal),
                     context, requested, newly, deps, scope)
  {
    assert forall f :: f in newly <==> f in Elements(newly);
  }

  lemma ExtendedLinkMap<F>(linkMap: seq<F>, newly: seq<F>, mapped: set<F>)
    requires Distinct(linkMap) && Distinct(newly) && Elements(linkMap) == mapped
    requires forall f :: f in newly ==> f !in mapped
    ensures Distinct(linkMap + newly) && Elements(linkMap + newly) == mapped + Elements(newly)
  {
    forall f | f in linkMap ensures f !in newly {
      assert f in Elements(linkMap);
    }
    DistinctAppend(linkMap, newly);
  }

  lemma OpenedFile<F, C>(st: Store<F, C>, st': Store<F, C>, ldso: F, context: C, requested: F, newly: seq<F>,
                         deps: map<F, seq<F>>, scope: seq<F>, x: F)
    requires StoreValid(st, ldso) && Openable(st, ldso, context, requested, newly, deps, scope)
    requires (forall f :: f in newly ==> f in deps) && OpenedAs(st, st', context, requested, newly, deps, scope)
    requires x in st'.recs
    ensures FileValid(st', ldso, x)
  {
    assert forall f :: f in newly <==> f in Elements(newly);
    if x in st.recs {
      assert FileValid(st, ldso, x);
    } else {
      forall f | f in scope ensures Active(st', f) {
        ScopeBelongs(st, ldso, context, requested, newly, deps, scope, f);
      }
      NewFile(st, st', ldso, context, requested, newly, deps, scope, x);
    }
  }

  lemma NewFile<F, C>(st: Store<F, C>, st': Store<F, C>, ldso: F, context: C, requested: F, newly: seq<F>,
                      deps: map<F, seq<F>>, scope: seq<F>, x: F)
    requires Mappable(st, ldso, context, requested, newly, deps) && st.locked <= st.recs.Keys && x in newly
    requires (forall f :: f in newly ==> f in deps) && OpenedAs(st, st', context, requested, newly, deps, scope)
    requires forall f :: f in scope ==> Active(st', f)
    ensures x in st'.recs && FileValid(st', ldso, x)
  {
    assert forall f :: f in newly <==> f in Elements(newly);
    assert RefersToActive(st', st'.recs[x]);
  }

  lemma OpenedScope<F, C>(st: Store<F, C>, st': Store<F, C>, ldso: F, context: C, requested: F, newly: seq<F>,
                          deps: map<F, seq<F>>, scope: seq<F>, c: C, x: F)
    requires StoreValid(st, ldso) && Openable(st, ldso, context, requested, newly, deps, scope)
    requires (forall f :: f in newly ==> f in deps) && OpenedAs(st, st', context, requested, newly, deps, scope)
    requires (c in st.globals && x in st.globals[c]) || (c == context && x in scope)
    ensures ScopeEntryValid(st', ldso, c, x)
  {
    if c in st.globals && x in st.globals[c] {
      assert ScopeEntryValid(st, ldso, c, x);
    } else {
      ScopeBelongs(st, ldso, context, requested, newly, deps, scope, x);
    }
  }

  lemma OpenedValid<F, C>(st: Store<F, C>, ldso: F, context: C, requested: F, newly: seq<F>,
                          deps: map<F, seq<F>>, scope: seq<F>, isGlobal: bool)
    requires StoreValid(st, ldso) && Openable(st, ldso, context, requested, newly, deps, scope)
    ensures forall f :: f in newly ==> f in deps
    ensures StoreValid(Opened(st, context, requested, newly, deps, scope, isGlobal), ldso)
  {
    OpenedShape(st, ldso, context, requested, newly, deps, scope, isGlobal);
    var st' := Opened(st, context, requested, newly, deps, scope, isGlobal);
    forall x | x in st'.recs ensures FileValid(st', ldso, x) {
      OpenedFile(st, st', ldso, context, requested, newly, deps, scope, x);
    }
    forall c, x | c in st'.globals && x in st'.globals[c] ensures ScopeEntryValid(st', ldso, c, x) {
      OpenedScope(st, st', ldso, context, requested, newly, deps, scope, c, x);
    }
    assert st'.recs[ldso].deps == st.recs[ldso].deps;
  }

  /** An opening keeps the store valid exactly when it meets no claimed file. */
  lemma OpenKeepsExactly<F, C>(st: Store<F, C>, ldso: F, context: C, requested: F, newly: seq<F>,
                               deps: map<F, seq<F>>, scope: seq<F>, isGlobal: bool)
    requires StoreValid(st, ldso) && Resolvable(st, ldso, context, requested, newly, deps)
    requires BreadthFirstListing(DependencyGraph(st) + deps, requested, scope)
    ensures forall f :: f in newly ==> f in deps
    ensures StoreValid(Opened(st, context, requested, newly, deps, scope, isGlobal), ldso)
       <==> MeetsNoClaimed(st, requested, newly, deps)
  {
    assert forall f :: f in newly ==> f in Elements(newly);
    if MeetsNoClaimed(st, requested, newly, deps) {
      OpenedValid(st, ldso, context, requested, newly, deps, scope, isGlobal);
    } else {
      ClaimedBreaksOpen(st, ldso, context, requested, newly, deps, scope, isGlobal);
    }
  }

  lemma ClaimedBreaksOpen<F, C>(st: Store<F, C>, ldso: F, context: C, requested: F, newly: seq<F>,
                                deps: map<F, seq<F>>, scope: seq<F>, isGlobal: bool)
    requires StoreValid(st, ldso) && Resolvable(st, ldso, context, requested, newly, deps)
    requires (forall f :: f in newly ==> f in deps) && !MeetsNoClaimed(st, requested, newly, deps)
    ensures !StoreValid(Opened(st, context, requested, newly, deps, scope, isGlobal), ldso)
  {
    assert forall f :: f in newly ==> f in Elements(newly);
    OpenedRecords(st, context, requested, newly, deps, scope, isGlobal);
    var st' := Opened(st, context, requested, newly, deps, scope, isGlobal);
    if requested !in newly && requested in st.locked {
      assert st'.recs[requested].count > 0;
      assert !FileValid(st', ldso, requested);
    } else {
      var f, d :| f in newly && d in deps[f] && d !in newly && d in st.locked;
      assert d in st'.recs[f].deps && !Active(st', d) && f !in st'.locked;
      assert !FileValid(st', ldso, f);
    }
  }

  // ----- any number of threads opening, binding and closing

  /** A closer between its two critical sections: the files it claimed and how many it has finalized. */
  datatype Closer<F> = Closer(files: seq<F>, finished: nat)

  /** `finalized` and `unmapped` log the finalizer calls and the unmappings in order. */
  datatype World<F, C> =
    World(st: Store<F, C>, closers: map<nat, Closer<F>>, finalized: seq<F>, unmapped: seq<F>)

  datatype Op<F, C> =
    | NewContext(context: C)
    | Open(context_: C, requested: F, newly: seq<F>, deps: map<F, seq<F>>, scope: seq<F>, isGlobal: bool)
    | Bind(from: F, item: F)
    | CloseBegin(closer: nat, file: F, order: seq<F>)  // order: the garbage as vdl_sort_call_fini sorts it
    | Finalize(closer: nat)
    | CloseEnd(closer: nat)

  ghost predicate Enabled<F, C>(w: World<F, C>, ldso: F, op: Op<F, C>) {
    var st := w.st;
    match op
    case NewContext(c) => c !in st.globals
    case Open(c, requested, newly, deps, scope, _) =>
      && Openable(st, ldso, c, requested, newly, deps, scope)
      && forall f :: f in newly ==> f !in w.finalized && f !in w.unmapped
    case Bind(from, item) =>
      && Active(st, from) && st.recs[from].context in st.globals
      && (item in st.recs[from].localScope || item in st.globals[st.recs[from].context])
    case CloseBegin(closer, f, order) =>
      && closer !in w.closers && f in st.recs && st.recs[f].count > (if f == ldso then 1 else 0)
      && Distinct(order) && Elements(order) == Elements(Garbage(Released(st, f)))
    case Finalize(closer) => closer in w.closers && w.closers[closer].finished < |w.closers[closer].files|
    case CloseEnd(closer) => closer in w.closers && w.closers[closer].finished == |w.closers[closer].files|
  }

  ghost function Do<F, C>(w: World<F, C>, ldso: F, op: Op<F, C>): World<F, C>
    requires Enabled(w, ldso, op)
  {
    var st := w.st;
    match op
    case NewContext(c) => w.(st := st.(globals := st.globals[c := []]))
    case Open(c, requested, newly, deps, scope, isGlobal) =>
      assert forall f :: f in newly ==> f in Elements(newly);
      w.(st := Opened(st, c, requested, newly, deps, scope, isGlobal))
    case Bind(from, item) => w.(st := Bound(st, from, item))
    case CloseBegin(closer, f, order) =>
      w.(st := CloseBegun(st, f), closers := w.closers[closer := Closer(Except(order, st.locked), 0)])
    case Finalize(closer) =>
      var c := w.closers[closer];
      w.(finalized := w.finalized + [c.files[c.finished]],
         closers := w.closers[closer := c.(finished := c.finished + 1)])
    case CloseEnd(closer) =>
      var files := w.closers[closer].files;
      w.(st := CloseEnded(st, files), closers := w.closers - {closer}, unmapped := w.unmapped + files)
  }

  /** The files a step reads or writes: for an open, the requested file, its scope, the link map it is appended
      to and the global scope; for the first half of a close, the link map it walks, the files
      whose colour the collector checks and the files whose scopes it edits; for the second half, the
      claimed files and their link-map neighbours. */
  ghost function Touched<F, C>(w: World<F, C>, ldso: F, op: Op<F, C>): set<F>
    requires Enabled(w, ldso, op)
  {
    match op
    case CloseBegin(_, f, order) =>
      var st1 := Released(w.st, f);
      {f} + Elements(w.st.linkMap) + Successors(References(st1), Live(st1)) + Elements(order)
    case Finalize(closer) => {w.closers[closer].files[w.closers[closer].finished]}
    case CloseEnd(closer) => Elements(w.closers[closer].files) + Elements(w.st.linkMap)
    case Bind(from, item) => {from, item}
    case Open(c, requested, newly, _, scope, _) =>
      {requested} + Elements(scope) + Elements(newly) + Elements(w.st.linkMap) + Elements(w.st.globals[c])
    case NewContext(_) => {}
  }

  /** The files a step maps itself. */
  ghost function MappedBy<F, C>(op: Op<F, C>): set<F> {
    if op.Open? then Elements(op.newly) else {}
  }

  /** The claimed files of a closer: locked, and finalized exactly as far as it has come. */
  ghost predicate CloserValid<F, C>(w: World<F, C>, c: Closer<F>) {
    && c.finished <= |c.files| && Distinct(c.files)
    && (forall f :: f in c.files ==> f in w.st.locked)
    && (forall i :: 0 <= i < |c.files| ==> (c.files[i] in w.finalized <==> i < c.finished))
  }

  ghost predicate ClosersDisjoint<F, C>(w: World<F, C>) {
    forall a, b, f :: a in w.closers && b in w.closers && f in w.closers[a].files && f in w.closers[b].files ==> a == b
  }

  ghost predicate LogsValid<F, C>(w: World<F, C>) {
    && Distinct(w.finalized) && Distinct(w.unmapped)
    && (forall f :: f in w.unmapped ==> f !in w.st.recs && f in w.finalized)
    && (forall f :: f in w.finalized ==> f in w.unmapped || f in w.st.locked)
  }

  ghost predicate Valid<F, C>(w: World<F, C>, ldso: F) {
    && StoreValid(w.st, ldso) && LogsValid(w) && ClosersDisjoint(w)
    && (forall c :: c in w.closers ==> CloserValid(w, w.closers[c]))
  }

  lemma BeginKeeps<F, C>(w: World<F, C>, ldso: F, closer: nat, f: F, order: seq<F>)
    requires Valid(w, ldso) && Enabled(w, ldso, CloseBegin(closer, f, order))
    ensures Valid(Do(w, ldso, CloseBegin(closer, f, order)), ldso)
  {
    var w' := Do(w, ldso, CloseBegin(closer, f, order));
    CloseBegunValid(w.st, ldso, f);
    ExceptDistinct(order, w.st.locked);
    var files := Except(order, w.st.locked);
    forall x | x in files ensures x in w'.st.locked && x !in w.st.locked && x !in w.finalized {
      assert x in Elements(order);
      assert x in Garbage(Released(w.st, f));
      assert x in Elements(w.st.linkMap);
    }
    assert CloserValid(w', w'.closers[closer]);
    forall c | c in w'.closers ensures CloserValid(w', w'.closers[c]) {
      assert c != closer ==> CloserValid(w, w.closers[c]);
    }
  }

  lemma FinalizeKeeps<F, C>(w: World<F, C>, ldso: F, closer: nat)
    requires Valid(w, ldso) && Enabled(w, ldso, Finalize(closer))
    ensures Valid(Do(w, ldso, Finalize(closer)), ldso)
  {
    var w' := Do(w, ldso, Finalize(closer));
    var k := w.closers[closer];
    assert CloserValid(w, k);
    var x := k.files[k.finished];
    forall c | c in w'.closers ensures CloserValid(w', w'.closers[c]) {
      assert CloserValid(w, w.closers[c]);
      if c != closer {
        assert x in k.files && x !in w.closers[c].files;
      }
    }
    assert ClosersDisjoint(w');
    assert forall y :: y in w'.finalized <==> y in w.finalized || y == x;
  }

  lemma EndKeeps<F, C>(w: World<F, C>, ldso: F, closer: nat)
    requires Valid(w, ldso) && Enabled(w, ldso, CloseEnd(closer))
    ensures Valid(Do(w, ldso, CloseEnd(closer)), ldso)
  {
    var w' := Do(w, ldso, CloseEnd(closer));
    var k := w.closers[closer];
    assert CloserValid(w, k);
    CloseEndedValid(w.st, ldso, k.files);
    DistinctAppend(w.unmapped, k.files);
    forall c | c in w'.closers ensures CloserValid(w', w'.closers[c]) {
      assert CloserValid(w, w.closers[c]);
    }
    assert ClosersDisjoint(w');
  }

  lemma StepKeeps<F, C>(w: World<F, C>, ldso: F, op: Op<F, C>)
    requires Valid(w, ldso) && Enabled(w, ldso, op)
    ensures Valid(Do(w, ldso, op), ldso)
  {
    var w' := Do(w, ldso, op);
    match op
    case NewContext(c) =>
      forall x | x in w'.st.recs ensures FileValid(w'.st, ldso, x) {
        assert FileValid(w.st, ldso, x);
      }
      forall d, x | d in w'.st.globals && x in w'.st.globals[d] ensures ScopeEntryValid(w'.st, ldso, d, x) {
        assert ScopeEntryValid(w.st, ldso, d, x);
      }
      OtherwiseUnchanged(w, w');
    case Open(c, requested, newly, deps, scope, isGlobal) =>
      OpenedValid(w.st, ldso, c, requested, newly, deps, scope, isGlobal);
      OpenedShape(w.st, ldso, c, requested, newly, deps, scope, isGlobal);
      OtherwiseUnchanged(w, w');
    case Bind(from, item) =>
      assert FileValid(w.st, ldso, from);
      if item in w.st.globals[w.st.recs[from].context] {
        assert ScopeEntryValid(w.st, ldso, w.st.recs[from].context, item);
      }
      BoundValid(w.st, ldso, from, item);
      OtherwiseUnchanged(w, w');
    case CloseBegin(closer, f, order) => BeginKeeps(w, ldso, closer, f, order);
    case Finalize(closer) => FinalizeKeeps(w, ldso, closer);
    case CloseEnd(closer) => EndKeeps(w, ldso, closer);
  }

  lemma OtherwiseUnchanged<F, C>(w: World<F, C>, w': World<F, C>)
    requires LogsValid(w) && ClosersDisjoint(w) && forall c :: c in w.closers ==> CloserValid(w, w.closers[c])
    requires w' == w.(st := w'.st) && w'.st.locked == w.st.locked
    requires forall f :: f in w'.st.recs ==> f in w.st.recs || f !in w.unmapped
    ensures LogsValid(w') && ClosersDisjoint(w') && forall c :: c in w'.closers ==> CloserValid(w', w'.closers[c])
  {
    forall c | c in w'.closers ensures CloserValid(w', w'.closers[c]) {
      assert CloserValid(w, w.closers[c]);
    }
  }

  lemma BeginTouchesMapped<F, C>(st: Store<F, C>, ldso: F, f: F, order: seq<F>)
    requires StoreValid(st, ldso) && f in st.recs && st.recs[f].count > (if f == ldso then 1 else 0)
    requires Elements(order) == Elements(Garbage(Released(st, f)))
    ensures Successors(References(Released(st, f)), Live(Released(st, f))) <= st.recs.Keys
    ensures Elements(order) <= st.recs.Keys
  {
    ReleasedValid(st, ldso, f);
    LiveIsActive(Released(st, f), ldso);
    forall x | x in Elements(order) ensures x in st.recs {
      assert x in Garbage(Released(st, f));
      assert x in Elements(st.linkMap);
    }
  }

  lemma TouchedIsMapped<F, C>(w: World<F, C>, ldso: F, op: Op<F, C>)
    requires Valid(w, ldso) && Enabled(w, ldso, op)
    ensures Touched(w, ldso, op) <= w.st.recs.Keys + MappedBy(op)
  {
    assert Elements(w.st.linkMap) == w.st.recs.Keys;
    match op
    case CloseBegin(closer, f, order) => BeginTouchesMapped(w.st, ldso, f, order);
    case Finalize(closer) =>
      assert CloserValid(w, w.closers[closer]);
    case CloseEnd(closer) =>
      assert CloserValid(w, w.closers[closer]);
    case Bind(from, item) =>
      assert FileValid(w.st, ldso, from);
      if item in w.st.globals[w.st.recs[from].context] {
        assert ScopeEntryValid(w.st, ldso, w.st.recs[from].context, item);
      }
    case Open(c, requested, newly, deps, scope, _) => OpenTouchesMapped(w.st, ldso, c, requested, newly, deps, scope);
    case NewContext(_) =>
  }

  lemma OpenTouchesMapped<F, C>(st: Store<F, C>, ldso: F, context: C, requested: F, newly: seq<F>,
                                deps: map<F, seq<F>>, scope: seq<F>)
    requires StoreValid(st, ldso) && Openable(st, ldso, context, requested, newly, deps, scope)
    ensures {requested} + Elements(scope) + Elements(st.globals[context]) <= st.recs.Keys + Elements(newly)
  {
    forall f | f in scope ensures f in st.recs.Keys + Elements(newly) {
      ScopeBelongs(st, ldso, context, requested, newly, deps, scope, f);
    }
    forall f | f in st.globals[context] ensures f in st.recs {
      assert ScopeEntryValid(st, ldso, context, f);
    }
  }

  // ----- runs

  ghost predicate IsRun<F, C>(w: World<F, C>, ldso: F, run: seq<Op<F, C>>)
    decreases |run|
  {
    run != [] ==> Enabled(w, ldso, run[0]) && IsRun(Do(w, ldso, run[0]), ldso, run[1..])
  }

  ghost function End<F, C>(w: World<F, C>, ldso: F, run: seq<Op<F, C>>): World<F, C>
    requires IsRun(w, ldso, run)
    decreases |run|
  {
    if run == [] then w else End(Do(w, ldso, run[0]), ldso, run[1..])
  }

  /** Only the loader itself is mapped, with the reference the loader holds on it. */
  function Startup<F, C>(ldso: F, main: C): World<F, C> {
    World(Store([ldso], map[ldso := Rec(1, [], [], [], main)], map[main := []], {}), map[], [], [])
  }

  lemma {:induction false} RunKeeps<F, C>(w: World<F, C>, ldso: F, run: seq<Op<F, C>>)
    requires Valid(w, ldso) && IsRun(w, ldso, run)
    ensures Valid(End(w, ldso, run), ldso)
    decreases |run|
  {
    if run != [] {
      StepKeeps(w, ldso, run[0]);
      RunKeeps(Do(w, ldso, run[0]), ldso, run[1..]);
    }
  }

  lemma StartupValid<F, C>(ldso: F, main: C)
    ensures Valid(Startup(ldso, main), ldso)
  {
    assert Elements([ldso]) == {ldso};
  }

  /** Over every interleaving, with opens that meet no claimed file: what an open file depends on, is bound to or
      searches, and what a global scope lists, is a mapped file whose finalizers have not been claimed; and a file
      somebody holds open is never claimed. */
  lemma {:induction false} NothingDangles<F, C>(ldso: F, main: C, run: seq<Op<F, C>>)
    requires IsRun(Startup(ldso, main), ldso, run)
    ensures var st := End(Startup(ldso, main), ldso, run).st;
            && Distinct(st.linkMap) && Elements(st.linkMap) == st.recs.Keys
            && (forall f :: f in st.recs && f !in st.locked ==> RefersToActive(st, st.recs[f]))
            && (forall c, f :: c in st.globals && f in st.globals[c] ==> Active(st, f))
            && (forall f :: f in st.recs && st.recs[f].count > 0 ==> Active(st, f))
  {
    StartupValid(ldso, main);
    RunKeeps(Startup(ldso, main), ldso, run);
    var st := End(Startup(ldso, main), ldso, run).st;
    forall f | f in st.recs
      ensures (f !in st.locked ==> RefersToActive(st, st.recs[f])) && (st.recs[f].count > 0 ==> Active(st, f))
    {
      assert FileValid(st, ldso, f);
    }
    forall c, f | c in st.globals && f in st.globals[c] ensures Active(st, f) {
      assert ScopeEntryValid(st, ldso, c, f);
    }
  }

  /** Over every interleaving of closers, bindings and such opens: each file is finalized at most once and unmapped
      at most once, is finalized before it is unmapped, and is then out of the link map; and the next step touches
      only mapped files and those it maps itself. */
  lemma {:induction false} ClosersInterleave<F, C>(ldso: F, main: C, run: seq<Op<F, C>>, op: Op<F, C>)
    requires IsRun(Startup(ldso, main), ldso, run) && Enabled(End(Startup(ldso, main), ldso, run), ldso, op)
    ensures var w := End(Startup(ldso, main), ldso, run);
            && Distinct(w.finalized) && Distinct(w.unmapped)
            && (forall f :: f in w.unmapped ==> f in w.finalized && f !in w.st.linkMap && f !in w.st.recs)
            && Touched(w, ldso, op) <= w.st.recs.Keys + MappedBy(op)
  {
    StartupValid(ldso, main);
    RunKeeps(Startup(ldso, main), ldso, run);
    var w := End(Startup(ldso, main), ldso, run);
    TouchedIsMapped(w, ldso, op);
    forall f | f in w.unmapped ensures f !in w.st.linkMap {
      assert f in w.st.linkMap ==> f in Elements(w.st.linkMap);
    }
  }

  /** Every claimed file is on the list of a closer that will unmap it. */
  ghost predicate Claimed<F, C>(w: World<F, C>) {
    forall f :: f in w.st.locked ==> exists c :: c in w.closers && f in w.closers[c].files
  }

  lemma StepKeepsClaimed<F, C>(w: World<F, C>, ldso: F, op: Op<F, C>)
    requires Valid(w, ldso) && Claimed(w) && Enabled(w, ldso, op)
    ensures Claimed(Do(w, ldso, op))
  {
    var w' := Do(w, ldso, op);
    forall f | f in w'.st.locked ensures exists c :: c in w'.closers && f in w'.closers[c].files {
      if f in w.st.locked {
        var c :| c in w.closers && f in w.closers[c].files;
        assert c in w'.closers && f in w'.closers[c].files;
      } else {
        assert op.CloseBegin?;
        assert f in Elements(op.order);
        assert f in w'.closers[op.closer].files;
      }
    }
  }

  lemma {:induction false} LockedIsClaimed<F, C>(w: World<F, C>, ldso: F, run: seq<Op<F, C>>)
    requires IsRun(w, ldso, run) && Valid(w, ldso) && Claimed(w)
    ensures Claimed(End(w, ldso, run))
    decreases |run|
  {
    if run != [] {
      StepKeepsClaimed(w, ldso, run[0]);
      StepKeeps(w, ldso, run[0]);
      LockedIsClaimed(Do(w, ldso, run[0]), ldso, run[1..]);
    }
  }

  /** When no close is under way nothing is left half-closed: every mapped file is active. */
  lemma {:induction false} QuietMeansAllActive<F, C>(ldso: F, main: C, run: seq<Op<F, C>>)
    requires IsRun(Startup(ldso, main), ldso, run) && End(Startup(ldso, main), ldso, run).closers == map[]
    ensures End(Startup(ldso, main), ldso, run).st.locked == {}
  {
    StartupValid(ldso, main);
    LockedIsClaimed(Startup(ldso, main), ldso, run);
    var w := End(Startup(ldso, main), ldso, run);
  }

  // ----- the opens that are left out, by an example

  /** One context, the loader 0 and a library 1: opened, then closed up to where the lock is dropped. */
  function OpenedAndClosing(): seq<Op<nat, nat>> {
    [Open(0, 1, [1], map[1 := []], [1], false), CloseBegin(0, 1, [1])]
  }

  lemma ListsItself(g: Edges<nat>, f: nat)
    requires f in g ==> g[f] == []
    ensures BreadthFirstListing(g, f, [f])
  {
    forall k: nat ensures Within(g, {f}, k) <= Elements([f]) {
      WithinStaysIn(g, {f}, Elements([f]), k);
    }
    RootReached(g, {f}, f);
  }

  /** What the library's close leaves. */
  function HalfClosed(): Store<nat, nat> {
    Store([0, 1], map[0 := Rec(1, [], [], [], 0), 1 := Rec(0, [], [], [1], 0)], map[0 := []], {1})
  }

  lemma OnlyTheLoaderLives(st: Store<nat, nat>)
    requires st == HalfClosed().(locked := {})
    ensures Live(st) == {0} && Garbage(st) == [1]
  {
    forall n ensures n in Live(st) <==> n == 0 {
      RootReached(References(st), Roots(st), 0);
      if n in Live(st) {
        ReachedInClosed(References(st), Roots(st), {0}, n);
      }
    }
    assert Except([1], {0}) == [1];
  }

  function LibraryOpen(): Store<nat, nat> {
    Store([0, 1], map[0 := Rec(1, [], [], [], 0), 1 := Rec(1, [], [], [1], 0)], map[0 := []], {})
  }

  lemma LibraryCanOpen()
    ensures Enabled(Startup<nat, nat>(0, 0), 0, OpenedAndClosing()[0])
  {
    assert Elements([1]) == {1};
    ListsItself(DependencyGraph(Startup<nat, nat>(0, 0).st) + map[1 := []], 1);
  }

  lemma LibraryOpens()
    requires Enabled(Startup<nat, nat>(0, 0), 0, OpenedAndClosing()[0])
    ensures var w := Startup<nat, nat>(0, 0); Do(w, 0, OpenedAndClosing()[0]) == w.(st := LibraryOpen())
  {
  }

  lemma LibraryCanClose(w: World<nat, nat>)
    requires w.st == LibraryOpen() && w.closers == map[]
    ensures Enabled(w, 0, OpenedAndClosing()[1])
  {
    LibraryReleased();
    assert Elements([1]) == {1};
  }

  lemma LibraryReleased()
    ensures var st := Released(LibraryOpen(), 1);
            st == HalfClosed().(locked := {}) && Live(st) == {0} && Garbage(st) == [1]
  {
    assert Released(LibraryOpen(), 1) == HalfClosed().(locked := {});
    OnlyTheLoaderLives(HalfClosed().(locked := {}));
  }

  lemma LibraryCloses(w: World<nat, nat>)
    requires w.st == LibraryOpen() && w.closers == map[] && Enabled(w, 0, OpenedAndClosing()[1])
    ensures Do(w, 0, OpenedAndClosing()[1]).st == HalfClosed()
  {
    LibraryReleased();
    assert Elements([1]) == {1};
  }

  lemma {:induction false} StepFirst<F, C>(w: World<F, C>, ldso: F, op: Op<F, C>, rest: seq<Op<F, C>>)
    requires Enabled(w, ldso, op) && IsRun(Do(w, ldso, op), ldso, rest)
    ensures IsRun(w, ldso, [op] + rest) && End(w, ldso, [op] + rest) == End(Do(w, ldso, op), ldso, rest)
  {
    assert ([op] + rest)[1..] == rest;
  }

  lemma TwoSteps<F, C>(w: World<F, C>, ldso: F, a: Op<F, C>, b: Op<F, C>)
    requires Enabled(w, ldso, a) && Enabled(Do(w, ldso, a), ldso, b)
    ensures IsRun(w, ldso, [a, b]) && End(w, ldso, [a, b]) == Do(Do(w, ldso, a), ldso, b)
  {
    var w' := Do(w, ldso, a);
    StepFirst(w', ldso, b, []);
    assert [b] + [] == [b];
    StepFirst(w, ldso, a, [b]);
  }

  lemma HalfClosedIsReached()
    ensures IsRun(Startup<nat, nat>(0, 0), 0, OpenedAndClosing())
    ensures End(Startup<nat, nat>(0, 0), 0, OpenedAndClosing()).st == HalfClosed()
  {
    var w, run := Startup<nat, nat>(0, 0), OpenedAndClosing();
    var w1 := w.(st := LibraryOpen());
    LibraryCanOpen();
    LibraryOpens();
    LibraryCanClose(w1);
    LibraryCloses(w1);
    TwoSteps(w, 0, run[0], run[1]);
    assert [run[0], run[1]] == run;
    assert IsRun(w, 0, run);
    assert End(w, 0, run) == Do(w1, 0, run[1]);
  }

  /** Opening the library again just then: the open succeeds and holds a reference, and the closer unmaps it. */
  lemma ReopeningAClaimedFile()
    ensures var st := HalfClosed();
            && StoreValid(st, 0) && Resolvable(st, 0, 0, 1, [], map[])
            && BreadthFirstListing(DependencyGraph(st) + map[], 1, [1]) && !MeetsNoClaimed(st, 1, [], map[])
    ensures var st := Opened(HalfClosed(), 0, 1, [], map[], [1], false);
            st.recs[1].count == 1 && !StoreValid(st, 0) && 1 !in CloseEnded(st, [1]).recs
  {
    HalfClosedIsReached();
    StartupValid<nat, nat>(0, 0);
    RunKeeps(Startup<nat, nat>(0, 0), 0, OpenedAndClosing());
    ListsItself(DependencyGraph(HalfClosed()) + map[], 1);
    ClaimedBreaksOpen(HalfClosed(), 0, 0, 1, [], map[], [1], false);
  }
}

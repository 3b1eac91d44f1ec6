/** What the records, the lists and the link map are after any run, told by the operations of the run alone. */
module History {
  import opened Seqs
  import opened Graph
  import opened Breadth
  import opened Unload

  // ----- what a run did

  /** How often f was opened. */
  function Requests<F(==), C>(run: seq<Op<F, C>>, f: F): nat {
    if run == [] then 0
    else
      var last := run[|run| - 1];
      Requests(run[..|run| - 1], f) + if last.Open? && last.requested == f then 1 else 0
  }

  /** How often a close of f was begun. */
  function Releases<F(==), C>(run: seq<Op<F, C>>, f: F): nat {
    if run == [] then 0
    else
      var last := run[|run| - 1];
      Releases(run[..|run| - 1], f) + if last.CloseBegin? && last.file == f then 1 else 0
  }

  /** The other files in which symbols of f were found, the latest first. */
  function Bindings<F(==), C>(run: seq<Op<F, C>>, f: F): seq<F> {
    if run == [] then []
    else
      var last := run[|run| - 1];
      (if last.Bind? && last.from == f && last.item != f then [last.item] else []) + Bindings(run[..|run| - 1], f)
  }

  /** The scopes published in context c, one after the other. */
  function Published<F(==), C(==)>(run: seq<Op<F, C>>, c: C): seq<F> {
    if run == [] then []
    else
      var last := run[|run| - 1];
      Published(run[..|run| - 1], c) + if last.Open? && last.isGlobal && last.context_ == c then last.scope else []
  }

  /** The files mapped, in order. */
  function MappedFiles<F(==), C>(run: seq<Op<F, C>>): seq<F> {
    if run == [] then []
    else
      var last := run[|run| - 1];
      MappedFiles(run[..|run| - 1]) + if last.Open? then last.newly else []
  }

  lemma Unrolled<F, C>(past: seq<Op<F, C>>, op: Op<F, C>, f: F)
    ensures Requests(past + [op], f) == Requests(past, f) + (if op.Open? && op.requested == f then 1 else 0)
    ensures Releases(past + [op], f) == Releases(past, f) + (if op.CloseBegin? && op.file == f then 1 else 0)
    ensures Bindings(past + [op], f)
         == (if op.Bind? && op.from == f && op.item != f then [op.item] else []) + Bindings(past, f)
  {
    assert (past + [op])[..|past|] == past;
  }

  lemma UnrolledLists<F, C>(past: seq<Op<F, C>>, op: Op<F, C>, c: C)
    ensures Published(past + [op], c)
         == Published(past, c) + (if op.Open? && op.isGlobal && op.context_ == c then op.scope else [])
    ensures MappedFiles(past + [op]) == MappedFiles(past) + (if op.Open? then op.newly else [])
  {
    assert (past + [op])[..|past|] == past;
  }

  // ----- what the world then holds

  ghost function ActiveFiles<F, C>(st: Store<F, C>): set<F> { set f | f in st.recs && Active(st, f) }

  /** f is or was mapped. */
  predicate Known<F, C>(w: World<F, C>, f: F) { f in w.st.recs || f in w.unmapped }

  /** The count is the opens less the closes, one more for the loader; the record holds the bindings. */
  predicate FileTold<F, C>(w: World<F, C>, ldso: F, past: seq<Op<F, C>>, f: F) {
    if f in w.st.recs then
      && w.st.recs[f].count == Requests(past, f) - Releases(past, f) + (if f == ldso then 1 else 0)
      && w.st.recs[f].resolvedIn == Bindings(past, f)
    else f !in w.unmapped ==> Requests(past, f) == 0 && Releases(past, f) == 0 && Bindings(past, f) == []
  }

  /** A file keeps the dependencies and the context it was mapped with, and of the scope what has not been claimed. */
  ghost predicate MappingTold<F, C>(w: World<F, C>, ldso: F, op: Op<F, C>, f: F) {
    op.Open? && f in op.newly ==>
      && f != ldso && f in op.deps && Known(w, f)
      && (f in w.st.recs ==>
            var r := w.st.recs[f];
            && r.deps == op.deps[f] && r.context == op.context_
            && (f !in w.st.locked ==> r.localScope == Only(op.scope, ActiveFiles(w.st))))
  }

  predicate ScopeKnown<F, C>(w: World<F, C>, op: Op<F, C>, f: F) { op.Open? && f in op.scope ==> Known(w, f) }

  /** A global scope is everything published there, once, without what has been claimed. */
  ghost predicate ContextTold<F, C>(w: World<F, C>, past: seq<Op<F, C>>, c: C) {
    if c in w.st.globals then w.st.globals[c] == Only(Unicized(Published(past, c)), ActiveFiles(w.st))
    else Published(past, c) == []
  }

  ghost predicate LinkMapTold<F, C>(w: World<F, C>, ldso: F, past: seq<Op<F, C>>) {
    w.st.linkMap == Except([ldso] + MappedFiles(past), Elements(w.unmapped))
  }

  ghost predicate Told<F(!new), C(!new)>(w: World<F, C>, ldso: F, past: seq<Op<F, C>>) {
    && (forall f {:trigger FileTold(w, ldso, past, f)} :: FileTold(w, ldso, past, f))
    && (forall k, f {:trigger MappingTold(w, ldso, past[k], f)} :: 0 <= k < |past| ==> MappingTold(w, ldso, past[k], f))
    && (forall k, f {:trigger ScopeKnown(w, past[k], f)} :: 0 <= k < |past| ==> ScopeKnown(w, past[k], f))
    && (forall c {:trigger ContextTold(w, past, c)} :: ContextTold(w, past, c))
    && LinkMapTold(w, ldso, past)
  }

  // ----- step by step

  lemma FileToldNext<F, C>(w: World<F, C>, ldso: F, past: seq<Op<F, C>>, op: Op<F, C>, f: F)
    requires Valid(w, ldso) && Enabled(w, ldso, op) && FileTold(w, ldso, past, f)
    ensures FileTold(Do(w, ldso, op), ldso, past + [op], f)
  {
    Unrolled(past, op, f);
    match op
    case Open(c, requested, newly, deps, scope, isGlobal) =>
      assert forall x :: x in newly ==> x in Elements(newly);
      OpenedRecords(w.st, c, requested, newly, deps, scope, isGlobal);
    case CloseEnd(closer) =>
      assert CloserValid(w, w.closers[closer]);
    case _ =>
  }

  lemma KnownStays<F, C>(w: World<F, C>, ldso: F, op: Op<F, C>, f: F)
    requires Valid(w, ldso) && Enabled(w, ldso, op)
    ensures Known(w, f) ==> Known(Do(w, ldso, op), f)
    ensures op.Open? && (f in op.newly || f in op.scope) ==> Known(Do(w, ldso, op), f)
  {
    match op
    case Open(c, requested, newly, deps, scope, isGlobal) =>
      assert forall x :: x in newly ==> x in Elements(newly);
      OpenedRecords(w.st, c, requested, newly, deps, scope, isGlobal);
      if f in scope {
        ScopeBelongs(w.st, ldso, c, requested, newly, deps, scope, f);
      }
    case _ =>
  }

  /** A file that has been claimed is never active again, and a new file was not known before. */
  lemma ActiveNext<F, C>(w: World<F, C>, ldso: F, op: Op<F, C>, f: F)
    requires Valid(w, ldso) && Enabled(w, ldso, op) && Known(w, f)
    ensures f in ActiveFiles(Do(w, ldso, op).st) ==> f in ActiveFiles(w.st)
    ensures !op.CloseBegin? && f in ActiveFiles(w.st) ==> f in ActiveFiles(Do(w, ldso, op).st)
  {
    match op
    case Open(c, requested, newly, deps, scope, isGlobal) =>
      assert forall x :: x in newly ==> x in Elements(newly);
      OpenedRecords(w.st, c, requested, newly, deps, scope, isGlobal);
    case CloseEnd(closer) =>
      assert CloserValid(w, w.closers[closer]);
    case _ =>
  }

  // ----- the first half of a close

  /** The rest of a record. */
  ghost predicate SameButScope<F, C>(r: Rec<F, C>, r': Rec<F, C>, released: bool) {
    && r'.deps == r.deps && r'.resolvedIn == r.resolvedIn && r'.context == r.context
    && r'.count == if released then r.count - 1 else r.count
  }

  /** What the close of f leaves unclaimed is what a held file still reaches. */
  lemma CloseLeavesReached<F, C>(st: Store<F, C>, ldso: F, f: F)
    requires StoreValid(st, ldso) && f in st.recs && st.recs[f].count > (if f == ldso then 1 else 0)
    ensures var st' := CloseBegun(st, f);
            && ActiveFiles(st') == Live(Released(st, f))
            && ActiveFiles(st') == ReachedSet(References(st'), Roots(st'), st'.linkMap)
  {
    var st1, st' := ReleasedFor(st, ldso, f);
    SameGraph(st1, st');
  }

  lemma SameGraph<F, C>(st: Store<F, C>, st': Store<F, C>)
    requires st'.recs.Keys == st.recs.Keys && st'.linkMap == st.linkMap
    requires forall x :: x in st.recs ==> SameButScope(st.recs[x], st'.recs[x], false)
    ensures References(st') == References(st) && Roots(st') == Roots(st)
  {
  }

  lemma CloseKeepsRecords<F, C>(st: Store<F, C>, ldso: F, f: F)
    requires StoreValid(st, ldso) && f in st.recs && st.recs[f].count > (if f == ldso then 1 else 0)
    ensures var st' := CloseBegun(st, f);
            && st'.linkMap == st.linkMap && st'.recs.Keys == st.recs.Keys && st'.globals.Keys == st.globals.Keys
            && forall x :: x in st.recs ==> SameButScope(st.recs[x], st'.recs[x], x == f)
  {
  }

  lemma CloseKeepsScope<F, C>(st: Store<F, C>, ldso: F, f: F, x: F)
    requires StoreValid(st, ldso) && f in st.recs && st.recs[f].count > (if f == ldso then 1 else 0)
    requires x in ActiveFiles(CloseBegun(st, f))
    ensures CloseBegun(st, f).recs[x].localScope == Only(st.recs[x].localScope, ActiveFiles(CloseBegun(st, f)))
  {
    var st1, st' := ReleasedFor(st, ldso, f);
    CloseLeavesReached(st, ldso, f);
    assert FileValid(st1, ldso, x);
    ExceptIsOnly(st.recs[x].localScope, Elements(Garbage(st1)), Live(st1));
  }

  lemma CloseKeepsGlobal<F, C>(st: Store<F, C>, ldso: F, f: F, c: C)
    requires StoreValid(st, ldso) && f in st.recs && st.recs[f].count > (if f == ldso then 1 else 0)
    requires c in st.globals
    ensures CloseBegun(st, f).globals[c] == Only(st.globals[c], ActiveFiles(CloseBegun(st, f)))
  {
    var st1, st' := ReleasedFor(st, ldso, f);
    CloseLeavesReached(st, ldso, f);
    forall x | x in st.globals[c] ensures x in Members(st1, Elements(Garbage(st1)), c) <==> x !in Live(st1) {
      assert ScopeEntryValid(st1, ldso, c, x);
    }
    ExceptIsOnly(st.globals[c], Members(st1, Elements(Garbage(st1)), c), Live(st1));
  }

  /** After the first half of a close, the unclaimed files are those that a held file still reaches; each keeps of
      its local scope, and each context of its global scope, exactly the unclaimed entries, in order. Apart from the
      count of the closed file nothing else changes. */
  lemma CloseKeepsExactly<F, C>(st: Store<F, C>, ldso: F, f: F)
    requires StoreValid(st, ldso) && f in st.recs && st.recs[f].count > (if f == ldso then 1 else 0)
    ensures var st' := CloseBegun(st, f); var active := ActiveFiles(st');
            && st'.linkMap == st.linkMap && st'.recs.Keys == st.recs.Keys && st'.globals.Keys == st.globals.Keys
            && active == ReachedSet(References(st'), Roots(st'), st.linkMap)
            && (forall x :: x in active ==> st'.recs[x].localScope == Only(st.recs[x].localScope, active))
            && (forall c :: c in st.globals ==> st'.globals[c] == Only(st.globals[c], active))
            && (forall x :: x in st.recs ==> SameButScope(st.recs[x], st'.recs[x], x == f))
  {
    CloseKeepsRecords(st, ldso, f);
    CloseLeavesReached(st, ldso, f);
    forall x | x in ActiveFiles(CloseBegun(st, f))
      ensures CloseBegun(st, f).recs[x].localScope == Only(st.recs[x].localScope, ActiveFiles(CloseBegun(st, f)))
    {
      CloseKeepsScope(st, ldso, f, x);
    }
    forall c | c in st.globals
      ensures CloseBegun(st, f).globals[c] == Only(st.globals[c], ActiveFiles(CloseBegun(st, f)))
    {
      CloseKeepsGlobal(st, ldso, f, c);
    }
  }

  // ----- what happens to the scopes, step by step

  lemma MappingToldNext<F, C>(w: World<F, C>, ldso: F, op: Op<F, C>, past: Op<F, C>, f: F)
    requires Valid(w, ldso) && Enabled(w, ldso, op) && MappingTold(w, ldso, past, f)
    requires past.Open? && forall x :: x in past.scope ==> Known(w, x)
    ensures MappingTold(Do(w, ldso, op), ldso, past, f)
  {
    if f in past.newly && f in w.st.recs {
      var w' := Do(w, ldso, op);
      KnownStays(w, ldso, op, f);
      RecordStays(w, ldso, op, f);
      if f in w'.st.recs && f !in w'.st.locked {
        forall x | x in past.scope
          ensures x in ActiveFiles(w'.st) ==> x in ActiveFiles(w.st)
          ensures !op.CloseBegin? && x in ActiveFiles(w.st) ==> x in ActiveFiles(w'.st)
        {
          ActiveNext(w, ldso, op, x);
        }
        if op.CloseBegin? {
          CloseKeepsScope(w.st, ldso, op.file, f);
          assert ActiveFiles(CloseBegun(w.st, op.file)) == ActiveFiles(w'.st);
          OnlyTwice(past.scope, ActiveFiles(w.st), ActiveFiles(w'.st));
        } else {
          OnlyAgrees(past.scope, ActiveFiles(w.st), ActiveFiles(w'.st));
        }
      }
    } else if f in past.newly {
      KnownStays(w, ldso, op, f);
      StaysUnmapped(w, ldso, op, f);
    }
  }

  /** What no step changes in the record of a mapped file; only the first half of a close changes its scope. */
  lemma RecordStays<F, C>(w: World<F, C>, ldso: F, op: Op<F, C>, f: F)
    requires Valid(w, ldso) && Enabled(w, ldso, op) && f in w.st.recs
    ensures var w' := Do(w, ldso, op);
            f in w'.st.recs ==>
              && w'.st.recs[f].deps == w.st.recs[f].deps && w'.st.recs[f].context == w.st.recs[f].context
              && (!op.CloseBegin? ==> w'.st.recs[f].localScope == w.st.recs[f].localScope)
              && (f in w.st.locked ==> f in w'.st.locked)
  {
    match op
    case Open(c, requested, newly, deps, scope, isGlobal) =>
      assert forall x :: x in newly ==> x in Elements(newly);
      OpenedRecords(w.st, c, requested, newly, deps, scope, isGlobal);
    case _ =>
  }

  lemma StaysUnmapped<F, C>(w: World<F, C>, ldso: F, op: Op<F, C>, f: F)
    requires Valid(w, ldso) && Enabled(w, ldso, op) && f in w.unmapped
    ensures f !in Do(w, ldso, op).st.recs
  {
    match op
    case Open(c, requested, newly, deps, scope, isGlobal) =>
      assert forall x :: x in newly ==> x in Elements(newly);
      OpenedRecords(w.st, c, requested, newly, deps, scope, isGlobal);
    case _ =>
  }

  /** The files an opening maps. */
  lemma OpeningTold<F, C>(w: World<F, C>, ldso: F, op: Op<F, C>, f: F)
    requires Valid(w, ldso) && Enabled(w, ldso, op) && op.Open?
    ensures MappingTold(Do(w, ldso, op), ldso, op, f)
  {
    if f in op.newly {
      assert forall x :: x in op.newly ==> x in Elements(op.newly);
      OpenedRecords(w.st, op.context_, op.requested, op.newly, op.deps, op.scope, op.isGlobal);
      var active := ActiveFiles(Do(w, ldso, op).st);
      forall x | x in op.scope ensures x in active {
        ScopeBelongs(w.st, ldso, op.context_, op.requested, op.newly, op.deps, op.scope, x);
      }
      OnlyAll(op.scope, active);
    }
  }

  // ----- the global scopes

  /** Publishing active files after what is kept of earlier ones. */
  lemma PublishedNext<F>(s: seq<F>, t: seq<F>, keep: set<F>)
    requires forall x :: x in t ==> x in keep
    ensures Unicized(Only(Unicized(s), keep) + t) == Only(Unicized(s + t), keep)
  {
    OnlyUnicized(s, keep);
    UnicizedFront(Only(s, keep), t);
    OnlyAll(t, keep);
    OnlyAppend(s, t, keep);
    OnlyUnicized(s + t, keep);
  }

  lemma ContextToldNext<F, C>(w: World<F, C>, ldso: F, past: seq<Op<F, C>>, op: Op<F, C>, c: C)
    requires Valid(w, ldso) && Enabled(w, ldso, op) && ContextTold(w, past, c)
    requires forall x :: x in Published(past, c) ==> Known(w, x)
    ensures ContextTold(Do(w, ldso, op), past + [op], c)
  {
    UnrolledLists(past, op, c);
    if c in w.st.globals {
      var w', s := Do(w, ldso, op), Published(past, c);
      forall x | x in s
        ensures x in ActiveFiles(w'.st) ==> x in ActiveFiles(w.st)
        ensures !op.CloseBegin? && x in ActiveFiles(w.st) ==> x in ActiveFiles(w'.st)
      {
        ActiveNext(w, ldso, op, x);
      }
      if op.CloseBegin? {
        ClosingTold(w, ldso, past, op, c);
      } else {
        OnlyAgrees(Unicized(s), ActiveFiles(w.st), ActiveFiles(w'.st));
        PublishingTold(w, ldso, past, op, c);
      }
    } else if op.NewContext? && op.context == c {
      assert Published(past + [op], c) == [];
    }
  }

  lemma ClosingTold<F, C>(w: World<F, C>, ldso: F, past: seq<Op<F, C>>, op: Op<F, C>, c: C)
    requires Valid(w, ldso) && Enabled(w, ldso, op) && op.CloseBegin? && c in w.st.globals && ContextTold(w, past, c)
    requires forall x :: x in Published(past, c) && x in ActiveFiles(CloseBegun(w.st, op.file)) ==>
               x in ActiveFiles(w.st)
    ensures ContextTold(Do(w, ldso, op), past + [op], c)
  {
    UnrolledLists(past, op, c);
    CloseKeepsGlobal(w.st, ldso, op.file, c);
    OnlyTwice(Unicized(Published(past, c)), ActiveFiles(w.st), ActiveFiles(CloseBegun(w.st, op.file)));
    assert Published(past + [op], c) == Published(past, c);
  }

  lemma PublishingTold<F, C>(w: World<F, C>, ldso: F, past: seq<Op<F, C>>, op: Op<F, C>, c: C)
    requires Valid(w, ldso) && Enabled(w, ldso, op) && !op.CloseBegin? && c in w.st.globals
    requires w.st.globals[c] == Only(Unicized(Published(past, c)), ActiveFiles(Do(w, ldso, op).st))
    ensures ContextTold(Do(w, ldso, op), past + [op], c)
  {
    var active := ActiveFiles(Do(w, ldso, op).st);
    UnrolledLists(past, op, c);
    if op.Open? && op.isGlobal && op.context_ == c {
      assert forall x :: x in op.newly ==> x in Elements(op.newly);
      OpenedRecords(w.st, op.context_, op.requested, op.newly, op.deps, op.scope, op.isGlobal);
      forall x | x in op.scope ensures x in active {
        ScopeBelongs(w.st, ldso, op.context_, op.requested, op.newly, op.deps, op.scope, x);
      }
      PublishedNext(Published(past, c), op.scope, active);
    } else {
      assert Published(past + [op], c) == Published(past, c);
    }
  }

  // ----- the link map

  lemma Regrouped<T>(a: seq<T>, b: seq<T>, c: seq<T>)
    ensures a + (b + c) == a + b + c
  {
  }

  lemma LinkMapExtended<F, C>(w: World<F, C>, ldso: F, past: seq<Op<F, C>>, op: Op<F, C>)
    requires Valid(w, ldso) && Enabled(w, ldso, op) && op.Open? && LinkMapTold(w, ldso, past)
    ensures LinkMapTold(Do(w, ldso, op), ldso, past + [op])
  {
    var s := [ldso] + MappedFiles(past);
    UnrolledLists(past, op, op.context_);
    ExceptAppend(s, op.newly, Elements(w.unmapped));
    ExceptNone(op.newly, Elements(w.unmapped));
    Regrouped([ldso], MappedFiles(past), op.newly);
  }

  lemma LinkMapCut<F, C>(w: World<F, C>, ldso: F, past: seq<Op<F, C>>, op: Op<F, C>)
    requires Valid(w, ldso) && Enabled(w, ldso, op) && op.CloseEnd? && LinkMapTold(w, ldso, past)
    ensures LinkMapTold(Do(w, ldso, op), ldso, past + [op])
  {
    var files := w.closers[op.closer].files;
    NothingMapped(past, op);
    ExceptTwice([ldso] + MappedFiles(past), Elements(w.unmapped), Elements(files));
    assert Elements(w.unmapped + files) == Elements(w.unmapped) + Elements(files);
  }

  lemma NothingMapped<F, C>(past: seq<Op<F, C>>, op: Op<F, C>)
    requires !op.Open?
    ensures MappedFiles(past + [op]) == MappedFiles(past)
  {
    assert (past + [op])[..|past|] == past;
  }

  lemma LinkMapToldNext<F, C>(w: World<F, C>, ldso: F, past: seq<Op<F, C>>, op: Op<F, C>)
    requires Valid(w, ldso) && Enabled(w, ldso, op) && LinkMapTold(w, ldso, past)
    ensures LinkMapTold(Do(w, ldso, op), ldso, past + [op])
  {
    if op.Open? {
      LinkMapExtended(w, ldso, past, op);
    } else if op.CloseEnd? {
      LinkMapCut(w, ldso, past, op);
    } else {
      NothingMapped(past, op);
    }
  }

  // ----- runs

  lemma {:induction false} PublishedKnown<F, C>(w: World<F, C>, past: seq<Op<F, C>>, c: C, f: F)
    requires forall k {:trigger past[k]} :: 0 <= k < |past| ==> ScopeKnown(w, past[k], f)
    requires f in Published(past, c)
    ensures Known(w, f)
    decreases |past|
  {
    var front := past[..|past| - 1];
    assert ScopeKnown(w, past[|past| - 1], f);
    if f in Published(front, c) {
      assert forall k :: 0 <= k < |front| ==> front[k] == past[k];
      PublishedKnown(w, front, c, f);
    }
  }

  lemma ToldNext<F(!new), C(!new)>(w: World<F, C>, ldso: F, past: seq<Op<F, C>>, op: Op<F, C>)
    requires Valid(w, ldso) && Enabled(w, ldso, op) && Told(w, ldso, past)
    ensures Told(Do(w, ldso, op), ldso, past + [op])
  {
    var w', now := Do(w, ldso, op), past + [op];
    forall f ensures FileTold(w', ldso, now, f) {
      FileToldNext(w, ldso, past, op, f);
    }
    forall k, f | 0 <= k < |now| ensures ScopeKnown(w', now[k], f) && MappingTold(w', ldso, now[k], f) {
      KnownStays(w, ldso, op, f);
      if k < |past| {
        assert ScopeKnown(w, past[k], f) && MappingTold(w, ldso, past[k], f);
        if past[k].Open? {
          forall x | x in past[k].scope ensures Known(w, x) {
            assert ScopeKnown(w, past[k], x);
          }
          MappingToldNext(w, ldso, op, past[k], f);
        }
      } else if op.Open? {
        OpeningTold(w, ldso, op, f);
      }
    }
    forall c ensures ContextTold(w', now, c) {
      forall x | x in Published(past, c) ensures Known(w, x) {
        forall k | 0 <= k < |past| ensures ScopeKnown(w, past[k], x) {
        }
        PublishedKnown(w, past, c, x);
      }
      ContextToldNext(w, ldso, past, op, c);
    }
    LinkMapToldNext(w, ldso, past, op);
  }

  lemma OneMore<T>(past: seq<T>, run: seq<T>)
    requires run != []
    ensures past + [run[0]] + run[1..] == past + run
  {
  }

  lemma {:induction false} ToldAlong<F(!new), C(!new)>(w: World<F, C>, ldso: F, past: seq<Op<F, C>>, run: seq<Op<F, C>>)
    requires Valid(w, ldso) && IsRun(w, ldso, run) && Told(w, ldso, past)
    ensures Told(End(w, ldso, run), ldso, past + run)
    decreases |run|
  {
    if run == [] {
      assert past + run == past;
    } else {
      StepKeeps(w, ldso, run[0]);
      ToldNext(w, ldso, past, run[0]);
      ToldAlong(Do(w, ldso, run[0]), ldso, past + [run[0]], run[1..]);
      OneMore(past, run);
    }
  }

  /** After any run the records, the scopes and the link map are what the operations of the run say. */
  lemma {:induction false} EveryRunIsTold<F(!new), C(!new)>(ldso: F, main: C, run: seq<Op<F, C>>)
    requires IsRun(Startup(ldso, main), ldso, run)
    ensures Told(End(Startup(ldso, main), ldso, run), ldso, run)
  {
    var w := Startup(ldso, main);
    StartupValid(ldso, main);
    forall c ensures ContextTold(w, [], c) {
      assert Published<F, C>([], c) == [];
    }
    ToldAlong(w, ldso, [], run);
    assert [] + run == run;
  }

  /** A mapped file is held as often as it was opened and not closed; the loader once more. */
  lemma {:induction false} CountIsOpensLessCloses<F(!new), C(!new)>(ldso: F, main: C, run: seq<Op<F, C>>, f: F)
    requires IsRun(Startup(ldso, main), ldso, run) && f in End(Startup(ldso, main), ldso, run).st.recs
    ensures End(Startup(ldso, main), ldso, run).st.recs[f].count
         == Requests(run, f) - Releases(run, f) + (if f == ldso then 1 else 0)
  {
    EveryRunIsTold(ldso, main, run);
    assert FileTold(End(Startup(ldso, main), ldso, run), ldso, run, f);
  }

  lemma {:induction false} BoundIsListed<F, C>(run: seq<Op<F, C>>, from: F, item: F)
    requires Bind(from, item) in run && item != from
    ensures item in Bindings(run, from)
    decreases |run|
  {
    var front, last := run[..|run| - 1], run[|run| - 1];
    assert run == front + [last];
    if last != Bind(from, item) {
      BoundIsListed(front, from, item);
    }
  }

  /** A file in which a symbol was found stays mapped and unclaimed as long as the file that uses it. */
  lemma {:induction false} BindingHolds<F(!new), C(!new)>(ldso: F, main: C, run: seq<Op<F, C>>, from: F, item: F)
    requires IsRun(Startup(ldso, main), ldso, run) && Bind(from, item) in run && item != from
    requires Active(End(Startup(ldso, main), ldso, run).st, from)
    ensures Active(End(Startup(ldso, main), ldso, run).st, item)
  {
    EveryRunIsTold(ldso, main, run);
    NothingDangles(ldso, main, run);
    BoundIsListed(run, from, item);
    assert FileTold(End(Startup(ldso, main), ldso, run), ldso, run, from);
  }

  // ----- single steps

  /** A symbol of `from` found in another file: that file comes first in the record, the older entries stay behind it,
      and no other record and no list changes. A symbol found in the file itself changes nothing. */
  lemma BindRecords<F, C>(st: Store<F, C>, from: F, item: F)
    requires from in st.recs
    ensures var st' := Bound(st, from, item);
            && st'.linkMap == st.linkMap && st'.globals == st.globals && st'.locked == st.locked
            && st'.recs.Keys == st.recs.Keys && (forall f :: f in st.recs && f != from ==> st'.recs[f] == st.recs[f])
            && (item == from ==> st'.recs[from] == st.recs[from])
            && (item != from ==>
                  && st'.recs[from].resolvedIn == [item] + st.recs[from].resolvedIn
                  && st'.recs[from] == st.recs[from].(resolvedIn := st'.recs[from].resolvedIn))
  {
  }

  /** An opening with RTLD_GLOBAL leaves the old entries of its context in front and lists every file of its scope,
      once; any other opening leaves the list alone, and so does every opening the lists of other contexts. */
  lemma OpenPublishes<F, C>(st: Store<F, C>, context: C, requested: F, newly: seq<F>, deps: map<F, seq<F>>,
                            scope: seq<F>, isGlobal: bool)
    requires context in st.globals && (requested in st.recs || requested in newly) && Distinct(st.globals[context])
    requires forall f :: f in newly ==> f in deps
    ensures var globals := Opened(st, context, requested, newly, deps, scope, isGlobal).globals;
            && globals.Keys == st.globals.Keys
            && (forall c :: c in st.globals && (c != context || !isGlobal) ==> globals[c] == st.globals[c])
            && (isGlobal ==>
                  && st.globals[context] <= globals[context] && Distinct(globals[context])
                  && forall f :: f in globals[context] <==> f in st.globals[context] || f in scope)
  {
    UnicizedExtends(st.globals[context], scope);
    UnicizedDistinct(st.globals[context] + scope);
  }
}

/** dlopen's bookkeeping and the two critical sections of dlclose, in place on the file records. */
module Dl {
  import opened Seqs
  import opened Graph
  import opened Breadth
  import opened Depth
  import opened Files
  import opened Gc
  import opened Sort
  import opened Unload

  /** remove_from_scopes */
  method RemoveFromScopes(files: seq<VdlFile>, file: VdlFile)
    requires Distinct(files)
    modifies Elements(files)`localScope, file.context`globalScope
    ensures forall f :: f in files ==> f.localScope == Without(old(f.localScope), file)
    ensures file.context.globalScope == Without(old(file.context.globalScope), file)
  {
    for i := 0 to |files|
      invariant forall k :: 0 <= k < i ==> files[k].localScope == Without(old(files[k].localScope), file)
      invariant forall k :: i <= k < |files| ==> files[k].localScope == old(files[k].localScope)
      modifies Elements(files)`localScope
    {
      files[i].localScope := Without(files[i].localScope, file);
    }
    file.context.globalScope := Without(file.context.globalScope, file);
  }

  /** The files of `gone` that belong to context c. */
  ghost function OfContext(gone: set<VdlFile>, c: Context): set<VdlFile> {
    set f | f in gone && f.context == c
  }

  /** dlclose's loop over the garbage. */
  method RemoveAllFromScopes(files: seq<VdlFile>, gone: seq<VdlFile>, ghost contexts: set<Context>)
    requires Distinct(files) && forall f :: f in gone ==> f.context in contexts
    modifies Elements(files)`localScope, contexts`globalScope
    ensures forall f :: f in files ==> f.localScope == Except(old(f.localScope), Elements(gone))
    ensures forall c :: c in contexts ==>
              c.globalScope == Except(old(c.globalScope), OfContext(Elements(gone), c))
  {
    forall f | f in files ensures Except(f.localScope, Elements(gone[..0])) == f.localScope {
      ExceptNone(f.localScope, Elements(gone[..0]));
    }
    forall c | c in contexts ensures Except(c.globalScope, OfContext(Elements(gone[..0]), c)) == c.globalScope {
      ExceptNone(c.globalScope, OfContext(Elements(gone[..0]), c));
    }
    for i := 0 to |gone|
      invariant forall f :: f in files ==> f.localScope == Except(old(f.localScope), Elements(gone[..i]))
      invariant forall c :: c in contexts ==>
                  c.globalScope == Except(old(c.globalScope), OfContext(Elements(gone[..i]), c))
    {
      var cur := gone[i];
      assert Elements(gone[..i + 1]) == Elements(gone[..i]) + {cur};
      forall f | f in files
        ensures Except(old(f.localScope), Elements(gone[..i + 1])) == Without(f.localScope, cur)
      {
        ExceptMore(old(f.localScope), Elements(gone[..i]), cur);
      }
      forall c | c in contexts
        ensures Except(old(c.globalScope), OfContext(Elements(gone[..i + 1]), c))
             == if c == cur.context then Without(c.globalScope, cur) else c.globalScope
      {
        ExceptMore(old(c.globalScope), OfContext(Elements(gone[..i]), c), cur);
        assert OfContext(Elements(gone[..i + 1]), c)
          == if c == cur.context then OfContext(Elements(gone[..i]), c) + {cur} else OfContext(Elements(gone[..i]), c);
      }
      RemoveFromScopes(files, cur);
    }
    assert gone[..|gone|] == gone;
  }

  /** vdl_fini_lock: claim the files no other closer has claimed. */
  method FiniLock(files: seq<VdlFile>) returns (claimed: seq<VdlFile>)
    requires Distinct(files)
    modifies Elements(files)`finiCallLock
    ensures claimed == Except(files, set f | f in files && old(f.finiCallLock))
    ensures forall f :: f in files ==> f.finiCallLock
  {
    ghost var held := set f | f in files && f.finiCallLock;
    claimed := [];
    for i := 0 to |files|
      invariant claimed == Except(files[..i], held)
      invariant forall k :: 0 <= k < i ==> files[k].finiCallLock
      invariant forall k :: i <= k < |files| ==> files[k].finiCallLock == old(files[k].finiCallLock)
    {
      var file := files[i];
      ExceptAppend(files[..i], [file], held);
      assert Except([file], held) == if file in held then [] else [file];
      assert files[..i + 1] == files[..i] + [file];
      if !file.finiCallLock {
        file.finiCallLock := true;
        claimed := claimed + [file];
      }
    }
    assert files[..|files|] == files;
  }

  /** A file's record as a value. */
  ghost function RecOf(f: VdlFile): Rec<VdlFile, Context>
    reads f`count, f`deps, f`resolvedIn, f`localScope
  {
    Rec(f.count, f.deps, f.resolvedIn, f.localScope, f.context)
  }

  /** A file as file_new leaves it. */
  ghost predicate FreshlyMapped(f: VdlFile, context: Context)
    reads f
  {
    f.context == context && f.count == 0 && f.resolvedIn == [] && f.localScope == [] && !f.finiCallLock
  }

  ghost function DepsOf(newly: seq<VdlFile>): (r: map<VdlFile, seq<VdlFile>>)
    reads Elements(newly)`deps
    ensures forall f :: f in newly ==> f in r && r[f] == f.deps
  {
    map f | f in newly :: f.deps
  }

  /** `callFini` is the garbage of st, stably sorted by depth, without the files already claimed. */
  ghost predicate ClaimedOf(st: Store<VdlFile, Context>, depth: map<VdlFile, nat>, sorted: seq<VdlFile>,
                            callFini: seq<VdlFile>) {
    && StablySorted<VdlFile>(Garbage(st), depth, sorted) && callFini == Except<VdlFile>(sorted, st.locked)
    && Distinct(callFini) && Elements(callFini) == Elements(Garbage(st)) - st.locked
  }

  class Loader {
    var linkMap: seq<VdlFile>
    var contexts: seq<Context>
    const ldso: VdlFile

    constructor (ldso: VdlFile)
      ensures this.ldso == ldso && linkMap == [ldso] && contexts == [ldso.context]
    {
      this.ldso := ldso;
      linkMap := [ldso];
      contexts := [ldso.context];
    }

    ghost predicate ShowsFile(st: Store<VdlFile, Context>, f: VdlFile)
      reads f`count, f`deps, f`resolvedIn, f`localScope, f`finiCallLock
    {
      f in st.recs && st.recs[f] == RecOf(f) && (f in st.locked <==> f.finiCallLock)
    }

    ghost predicate ShowsContext(st: Store<VdlFile, Context>, c: Context)
      reads c`globalScope
    {
      c in st.globals && st.globals[c] == c.globalScope
    }

    /** The records and lists in memory are those of `st`. */
    ghost predicate Shows(st: Store<VdlFile, Context>)
      reads this, Elements(linkMap)`count, Elements(linkMap)`deps, Elements(linkMap)`resolvedIn,
            Elements(linkMap)`localScope, Elements(linkMap)`finiCallLock, Elements(contexts)`globalScope
    {
      && linkMap == st.linkMap && Elements(linkMap) == st.recs.Keys && Elements(contexts) == st.globals.Keys
      && st.locked <= st.recs.Keys
      && (forall f {:trigger ShowsFile(st, f)} :: f in linkMap ==> ShowsFile(st, f))
      && (forall c {:trigger ShowsContext(st, c)} :: c in contexts ==> ShowsContext(st, c))
    }

    /** search_file */
    method SearchFile(handle: VdlFile) returns (found: bool)
      ensures found <==> handle in linkMap
    {
      for i := 0 to |linkMap|
        invariant handle !in linkMap[..i]
      {
        if linkMap[i] == handle {
          return true;
        }
      }
      return false;
    }

    method Release(handle: VdlFile, ghost st: Store<VdlFile, Context>)
      requires Shows(st) && handle in linkMap && handle.count > 0
      modifies handle`count
      ensures handle in st.recs && st.recs[handle].count > 0 && Shows(Released(st, handle))
    {
      assert ShowsFile(st, handle);
      handle.count := handle.count - 1;
      forall f | f in linkMap ensures ShowsFile(Released(st, handle), f) {
        assert f != handle ==> ShowsFile(st, f);
      }
      forall c | c in contexts ensures ShowsContext(Released(st, handle), c) {
        assert ShowsContext(st, c);
      }
    }

    /** What the collector sees is the reference graph of the store. */
    lemma ShownGraph(st: Store<VdlFile, Context>)
      requires Shows(st)
      ensures References(st) == RefGraph(Elements(linkMap)) && Roots(st) == HeldOpen(Elements(linkMap))
      ensures Live(st) == Reached(linkMap)
    {
      assert forall f :: f in linkMap <==> f in Elements(linkMap);
      forall f | f in linkMap ensures f in st.recs && st.recs[f] == RecOf(f) {
        assert ShowsFile(st, f);
      }
      assert References(st) == RefGraph(Elements(linkMap));
      assert Roots(st) == HeldOpen(Elements(linkMap));
    }

    lemma ShownCollectable(st: Store<VdlFile, Context>)
      requires Shows(st) && StoreValid(st, ldso)
      ensures Collectable(linkMap) && forall f :: f in linkMap ==> f.context in contexts
    {
      LiveIsActive<VdlFile, Context>(st, ldso);
      ShownGraph(st);
      forall f | f in linkMap ensures f.context in contexts {
        assert ShowsFile(st, f) && FileValid(st, ldso, f);
        assert f.context in Elements(contexts);
      }
    }

    lemma ContextsShown(st: Store<VdlFile, Context>, gone: set<VdlFile>)
      requires Shows(st) && gone <= Elements(linkMap)
      ensures forall c :: c in contexts ==> OfContext(gone, c) == Members(st, gone, c)
    {
      forall f | f in gone ensures f in st.recs && st.recs[f].context == f.context {
        assert f in linkMap && ShowsFile(st, f);
      }
    }

    /** f is as in st, without `gone` in its local scope if it is kept. */
    ghost predicate FileUnscoped(st: Store<VdlFile, Context>, keep: set<VdlFile>, gone: set<VdlFile>, f: VdlFile)
      reads f`count, f`deps, f`resolvedIn, f`localScope, f`finiCallLock
    {
      && f in st.recs && (f in st.locked <==> f.finiCallLock)
      && RecOf(f) == st.recs[f].(localScope := f.localScope)
      && f.localScope == if f in keep then Except<VdlFile>(st.recs[f].localScope, gone) else st.recs[f].localScope
    }

    lemma UnscopedShown(st: Store<VdlFile, Context>, keep: set<VdlFile>, gone: set<VdlFile>)
      requires linkMap == st.linkMap && Elements(linkMap) == st.recs.Keys && Elements(contexts) == st.globals.Keys
      requires st.locked <= st.recs.Keys && forall f :: f in linkMap ==> FileUnscoped(st, keep, gone, f)
      requires forall c :: c in contexts ==>
                 c in st.globals && c.globalScope == Except<VdlFile>(st.globals[c], Members(st, gone, c))
      ensures Shows(ScopesWithout(st, keep, gone))
    {
      ghost var st' := ScopesWithout(st, keep, gone);
      assert st'.recs.Keys == st.recs.Keys && st'.globals.Keys == st.globals.Keys;
      forall f | f in linkMap ensures ShowsFile(st', f) {
        assert FileUnscoped(st, keep, gone, f);
      }
      forall c | c in contexts ensures ShowsContext(st', c) {}
    }

    /** `gone` leaves the scopes of `keep`. */
    method Unscope(keep: seq<VdlFile>, gone: seq<VdlFile>, ghost st: Store<VdlFile, Context>)
      requires Shows(st) && forall f :: f in linkMap ==> f.context in contexts
      requires Distinct(keep) && Elements(keep) <= Elements(linkMap) && Elements(gone) <= Elements(linkMap)
      modifies Elements(linkMap)`localScope, Elements(contexts)`globalScope
      ensures Shows(ScopesWithout(st, Elements(keep), Elements(gone)))
    {
      ghost var goneSet := Elements(gone);
      forall f | f in linkMap ensures ShowsFile(st, f) {}
      forall c | c in contexts ensures ShowsContext(st, c) {}
      ContextsShown(st, goneSet);
      assert forall f :: f in gone ==> f in goneSet;
      RemoveAllFromScopes(keep, gone, Elements(contexts));
      forall f | f in linkMap ensures FileUnscoped(st, Elements(keep), goneSet, f) {}
      UnscopedShown(st, Elements(keep), goneSet);
    }

    /** Sort the garbage and claim what nobody has claimed yet. */
    method Claim(unload: seq<VdlFile>, ghost st: Store<VdlFile, Context>)
      returns (callFini: seq<VdlFile>, ghost sorted: seq<VdlFile>)
      requires Shows(st) && Distinct(unload) && Elements(unload) <= Elements(linkMap)
      modifies Elements(linkMap)`finiCallLock
      ensures Shows(st.(locked := st.locked + Elements(unload)))
      ensures Distinct(callFini) && Elements(callFini) == Elements(unload) - st.locked
      ensures StablySorted<VdlFile>(unload, DepthOf(Elements(unload)), sorted)
      ensures callFini == Except<VdlFile>(sorted, st.locked)
    {
      var order := IncreasingDepth(unload);
      sorted := order;
      StablySortedElements<VdlFile>(unload, DepthOf(Elements(unload)), order);
      assert Elements(order) == Elements(unload);
      StillShown(st);
      callFini := ClaimInOrder(order, st);
    }

    lemma StillShown(st: Store<VdlFile, Context>)
      requires Shows(st)
      ensures forall f :: f in linkMap ==> f in st.recs && (f in st.locked <==> f.finiCallLock)
    {
      forall f | f in linkMap ensures f in st.recs && (f in st.locked <==> f.finiCallLock) {
        assert ShowsFile(st, f);
      }
    }

    method ClaimInOrder(order: seq<VdlFile>, ghost st: Store<VdlFile, Context>) returns (callFini: seq<VdlFile>)
      requires Shows(st) && Distinct(order) && Elements(order) <= Elements(linkMap)
      modifies Elements(linkMap)`finiCallLock
      ensures Shows(st.(locked := st.locked + Elements(order)))
      ensures Distinct(callFini) && callFini == Except<VdlFile>(order, st.locked)
      ensures Elements(callFini) == Elements(order) - st.locked
    {
      ghost var all := Elements(order);
      ghost var held := set f | f in order && f.finiCallLock;
      assert forall f :: f in order <==> f in all;
      forall f | f in linkMap ensures ShowsFile(st, f) {}
      forall c | c in contexts ensures ShowsContext(st, c) {}
      assert held == all * st.locked by {
        forall f | f in order ensures f in st.locked <==> f.finiCallLock {
          assert f in Elements(linkMap) && ShowsFile(st, f);
        }
      }
      callFini := FiniLock(order);
      assert callFini == Except<VdlFile>(order, held);
      ExceptDistinct<VdlFile>(order, held);
      ExceptAgrees<VdlFile>(order, held, st.locked);
      ghost var st' := st.(locked := st.locked + all);
      forall f | f in linkMap ensures ShowsFile(st', f) {}
      forall c | c in contexts ensures ShowsContext(st', c) {}
    }

    /** vdl_dlclose up to the point where it drops the lock: `callFini` are the files this call claims, the garbage
        stably sorted by depth without what other closers have claimed. */
    method DlcloseBegin(handle: VdlFile, ghost st: Store<VdlFile, Context>)
      returns (found: bool, callFini: seq<VdlFile>, ghost sorted: seq<VdlFile>)
      requires Shows(st) && StoreValid(st, ldso)
      requires handle in linkMap ==> handle.count > (if handle == ldso then 1 else 0)
      modifies Elements(linkMap)`count, Elements(linkMap)`gcColor, Elements(linkMap)`localScope,
               Elements(linkMap)`finiCallLock, Elements(contexts)`globalScope
      ensures found <==> handle in old(linkMap)
      ensures !found ==> Shows(st) && callFini == []
      ensures found ==> handle in st.recs && st.recs[handle].count > (if handle == ldso then 1 else 0)
      ensures found ==> Shows(CloseBegun(st, handle)) && StoreValid(CloseBegun(st, handle), ldso)
      ensures found ==> ClaimedOf(Released(st, handle), DepthOf(Elements(linkMap)), sorted, callFini)
    {
      found := SearchFile(handle);
      callFini, sorted := [], [];
      if found {
        callFini, sorted := ReleaseAndCollect(handle, st);
      }
    }

    method ReleaseAndCollect(handle: VdlFile, ghost st: Store<VdlFile, Context>)
      returns (callFini: seq<VdlFile>, ghost sorted: seq<VdlFile>)
      requires Shows(st) && StoreValid(st, ldso) && handle in linkMap
      requires handle.count > (if handle == ldso then 1 else 0)
      modifies Elements(linkMap)`count, Elements(linkMap)`gcColor, Elements(linkMap)`localScope,
               Elements(linkMap)`finiCallLock, Elements(contexts)`globalScope
      ensures handle in st.recs && st.recs[handle].count > (if handle == ldso then 1 else 0)
      ensures Shows(CloseBegun(st, handle)) && StoreValid(CloseBegun(st, handle), ldso)
      ensures ClaimedOf(Released(st, handle), DepthOf(Elements(linkMap)), sorted, callFini)
    {
      assert ShowsFile(st, handle);
      CloseBegunValid<VdlFile, Context>(st, ldso, handle);
      ReleasedValid<VdlFile, Context>(st, ldso, handle);
      Release(handle, st);
      ShownCollectable(Released(st, handle));
      callFini, sorted := Collect(Released(st, handle));
    }

    /** Collect, unscope and claim. */
    method Collect(ghost st: Store<VdlFile, Context>) returns (callFini: seq<VdlFile>, ghost sorted: seq<VdlFile>)
      requires Shows(st) && Collectable(linkMap) && forall f :: f in linkMap ==> f.context in contexts
      modifies Elements(linkMap)`gcColor, Elements(linkMap)`localScope, Elements(linkMap)`finiCallLock,
               Elements(contexts)`globalScope
      ensures Shows(Unscoped(st).(locked := st.locked + Elements(Garbage(st))))
      ensures ClaimedOf(st, DepthOf(Elements(linkMap)), sorted, callFini)
    {
      ShownGraph(st);
      var unload, notUnload := GcRun(linkMap);
      ShownGraph(st);
      ExceptDistinct<VdlFile>(linkMap, Live(st));
      OnlyDistinct<VdlFile>(linkMap, Live(st));
      assert Elements(unload) <= Elements(linkMap) && Elements(notUnload) <= Elements(linkMap);
      KeptIsLive(st);
      Unscope(notUnload, unload, st);
      callFini, sorted := Claim(unload, Unscoped(st));
      StablySortedElements<VdlFile>(unload, DepthOf(Elements(unload)), sorted);
      StablySortedAgrees<VdlFile>(unload, sorted, DepthOf(Elements(unload)), DepthOf(Elements(linkMap)));
    }

    lemma KeptIsLive(st: Store<VdlFile, Context>)
      ensures Elements(Kept(st)) == Live(st)
    {
    }

    /** vdl_linkmap_remove_range */
    method RemoveRange(files: seq<VdlFile>)
      modifies this`linkMap
      ensures linkMap == Except<VdlFile>(old(linkMap), Elements(files))
    {
      ghost var all := linkMap;
      ExceptNone<VdlFile>(linkMap, Elements(files[..0]));
      for i := 0 to |files|
        invariant linkMap == Except<VdlFile>(all, Elements(files[..i]))
      {
        ExceptMore<VdlFile>(all, Elements(files[..i]), files[i]);
        assert Elements(files[..i + 1]) == Elements(files[..i]) + {files[i]};
        linkMap := Without(linkMap, files[i]);
      }
      assert files[..|files|] == files;
    }

    /** vdl_dlclose after it has taken the lock again: the claimed files leave the link map and are unmapped. */
    method DlcloseEnd(callFini: seq<VdlFile>, ghost st: Store<VdlFile, Context>)
      requires Shows(st)
      modifies this`linkMap
      ensures Shows(CloseEnded(st, callFini))
    {
      ghost var all, gone := linkMap, Elements(callFini);
      ghost var st' := CloseEnded(st, callFini);
      forall f | f in linkMap ensures ShowsFile(st, f) {}
      forall c | c in contexts ensures ShowsContext(st, c) {}
      RemoveRange(callFini);
      assert Elements(linkMap) == Elements(all) - gone;
      forall f | f in linkMap ensures ShowsFile(st', f) {
        assert ShowsFile(st, f);
      }
      forall c | c in contexts ensures ShowsContext(st', c) {
        assert ShowsContext(st, c);
      }
    }

    /** A symbol of `from` was found in `item`: note it for the collector. */
    method Bind(from: VdlFile, item: VdlFile, ghost st: Store<VdlFile, Context>)
      requires Shows(st) && from in linkMap
      modifies from`resolvedIn
      ensures from in st.recs && Shows(Bound(st, from, item))
      ensures from.resolvedIn == if item != from then [item] + old(from.resolvedIn) else old(from.resolvedIn)
    {
      assert ShowsFile(st, from);
      forall f | f in linkMap ensures ShowsFile(st, f) {}
      forall c | c in contexts ensures ShowsContext(st, c) {}
      if item != from {
        from.resolvedIn := [item] + from.resolvedIn;
      }
      forall f | f in linkMap ensures ShowsFile(Bound(st, from, item), f) {
        assert f != from ==> ShowsFile(st, f);
      }
      forall c | c in contexts ensures ShowsContext(Bound(st, from, item), c) {
        assert ShowsContext(st, c);
      }
    }

    // ----- dlopen, once everything is mapped

    /** The files an opening may reach: the new ones and those not being closed. */
    ghost function OpenFiles(newly: seq<VdlFile>): set<VdlFile>
      reads this, Elements(linkMap)`finiCallLock
    {
      Elements(newly) + set f | f in linkMap && !f.finiCallLock
    }

    lemma OpenFilesClosed(context: Context, requested: VdlFile, newly: seq<VdlFile>, st: Store<VdlFile, Context>)
      requires Shows(st) && StoreValid(st, ldso) && Mappable(st, ldso, context, requested, newly, DepsOf(newly))
      ensures requested in OpenFiles(newly) && Closed<VdlFile>(DepGraph(OpenFiles(newly)), OpenFiles(newly))
    {
      var files := OpenFiles(newly);
      forall f ensures Active(st, f) ==> f in files {
        assert f in st.recs ==> f in Elements(linkMap) && ShowsFile(st, f);
      }
      forall n, m | n in files && m in n.deps ensures m in files {
        if n in newly {
          assert m in DepsOf(newly)[n];
        } else {
          assert ShowsFile(st, n) && FileValid(st, ldso, n) && m in st.recs[n].deps;
        }
      }
    }

    lemma OpenListing(context: Context, requested: VdlFile, newly: seq<VdlFile>, scope: seq<VdlFile>,
                      st: Store<VdlFile, Context>)
      requires Shows(st) && StoreValid(st, ldso) && Mappable(st, ldso, context, requested, newly, DepsOf(newly))
      requires BreadthFirstListing<VdlFile>(DepGraph(OpenFiles(newly)), requested, scope)
      ensures Openable(st, ldso, context, requested, newly, DepsOf(newly), scope)
    {
      OpenFilesClosed(context, requested, newly, st);
      var files := OpenFiles(newly);
      var g := DependencyGraph(st) + DepsOf(newly);
      forall n | n in files ensures n in g && g[n] == n.deps {
        if n in newly {
          assert n in Elements(newly);
        } else {
          assert ShowsFile(st, n);
        }
      }
      ListingAgrees<VdlFile>(DepGraph(files), g, files, requested, scope);
    }

    /** The scope of an opening: the requested file and what it depends on, breadth-first. */
    method OpenScope(context: Context, requested: VdlFile, newly: seq<VdlFile>, ghost st: Store<VdlFile, Context>)
      returns (scope: seq<VdlFile>)
      requires Shows(st) && StoreValid(st, ldso) && Mappable(st, ldso, context, requested, newly, DepsOf(newly))
      ensures Openable(st, ldso, context, requested, newly, DepsOf(newly), scope)
    {
      OpenFilesClosed(context, requested, newly, st);
      scope := BreadthFirst(requested, OpenFiles(newly));
      forall f | f in linkMap ensures ShowsFile(st, f) {}
      forall c | c in contexts ensures ShowsContext(st, c) {}
      assert Shows(st);
      OpenListing(context, requested, newly, scope, st);
    }

    /** The newly mapped files search the scope of the requested file. */
    method SetLocalScopes(newly: seq<VdlFile>, scope: seq<VdlFile>, deepBind: bool)
      requires Distinct(newly) && forall f :: f in newly ==> f.localScope == []
      modifies Elements(newly)`localScope, Elements(newly)`lookupType
      ensures forall f :: f in newly ==> f.localScope == scope
      ensures forall f :: f in newly ==> f.lookupType == if deepBind then LocalGlobal else GlobalLocal
    {
      for i := 0 to |newly|
        invariant forall k :: 0 <= k < i ==> newly[k].localScope == scope
        invariant forall k :: 0 <= k < i ==> newly[k].lookupType == if deepBind then LocalGlobal else GlobalLocal
        invariant forall k :: i <= k < |newly| ==> newly[k].localScope == []
      {
        var item := newly[i];
        item.localScope := item.localScope + scope;
        if deepBind {
          item.lookupType := LocalGlobal;
        } else {
          item.lookupType := GlobalLocal;
        }
      }
    }

    /** One more reference to the requested file and, if asked for, the scope in the global scope. */
    method CountAndPublish(context: Context, requested: VdlFile, scope: seq<VdlFile>, isGlobal: bool,
                           ghost st: Store<VdlFile, Context>)
      requires Shows(st) && context in contexts
      modifies requested`count, context`globalScope
      ensures requested.count == old(requested.count) + 1
      ensures context in st.globals && Shows(Counted(st, context, requested, scope, isGlobal))
    {
      forall f | f in linkMap ensures ShowsFile(st, f) {}
      forall c | c in contexts ensures ShowsContext(st, c) {}
      assert context in Elements(contexts);
      assert requested in st.recs <==> requested in Elements(linkMap);
      requested.count := requested.count + 1;
      if isGlobal {
        context.globalScope := Unicized(context.globalScope + scope);
      }
      ghost var st' := Counted(st, context, requested, scope, isGlobal);
      forall f | f in linkMap ensures ShowsFile(st', f) {}
      forall c | c in contexts ensures ShowsContext(st', c) {}
    }

    ghost function RecsOf(newly: seq<VdlFile>): (r: map<VdlFile, Rec<VdlFile, Context>>)
      reads Elements(newly)`count, Elements(newly)`deps, Elements(newly)`resolvedIn, Elements(newly)`localScope
      ensures r.Keys == Elements(newly)
      ensures forall f :: f in newly ==> f in r && r[f] == RecOf(f)
    {
      map f | f in newly :: RecOf(f)
    }

    /** vdl_linkmap_append_range for files that are not in the link map yet. */
    method AppendRange(newly: seq<VdlFile>, ghost st: Store<VdlFile, Context>)
      requires Shows(st)
      requires Distinct(newly) && forall f :: f in newly ==> f !in linkMap && !f.finiCallLock
      modifies this`linkMap
      ensures Shows(Appended(st, newly, RecsOf(newly)))
    {
      AppendedShown(newly, st);
      linkMap := linkMap + newly;
    }

    lemma AppendedShown(newly: seq<VdlFile>, st: Store<VdlFile, Context>)
      requires Shows(st) && forall f :: f in newly ==> f !in linkMap && !f.finiCallLock
      ensures var st' := Appended(st, newly, RecsOf(newly));
              && (forall f :: f in linkMap ==> ShowsFile(st', f))
              && (forall f :: f in newly ==> ShowsFile(st', f))
              && (forall c :: c in contexts ==> ShowsContext(st', c))
              && Elements(linkMap + newly) == st'.recs.Keys
    {
      var st' := Appended(st, newly, RecsOf(newly));
      forall f | f in linkMap ensures ShowsFile(st', f) {
        assert ShowsFile(st, f);
        assert f !in Elements(newly);
      }
      forall f | f in newly ensures ShowsFile(st', f) {
        assert f !in Elements(linkMap);
      }
      forall c | c in contexts ensures ShowsContext(st', c) {
        assert ShowsContext(st, c);
      }
      assert Elements(linkMap + newly) == Elements(linkMap) + Elements(newly);
    }

    /** The local scopes of files outside the link map are nobody else's business. */
    method ScopeNewFiles(newly: seq<VdlFile>, scope: seq<VdlFile>, deepBind: bool, ghost st: Store<VdlFile, Context>)
      requires Shows(st) && Distinct(newly) && forall f :: f in newly ==> f !in linkMap && f.localScope == []
      modifies Elements(newly)`localScope, Elements(newly)`lookupType
      ensures Shows(st) && forall f :: f in newly ==> f.localScope == scope
      ensures forall f :: f in newly ==> f.lookupType == if deepBind then LocalGlobal else GlobalLocal
    {
      forall f | f in linkMap ensures ShowsFile(st, f) && f !in newly {}
      forall c | c in contexts ensures ShowsContext(st, c) {}
      SetLocalScopes(newly, scope, deepBind);
      forall f | f in linkMap ensures ShowsFile(st, f) {
        assert f !in newly;
      }
      forall c | c in contexts ensures ShowsContext(st, c) {}
    }

    /** The new files as an opening leaves them, before they join the link map. */
    ghost predicate Prepared(context: Context, requested: VdlFile, newly: seq<VdlFile>, scope: seq<VdlFile>,
                             deepBind: bool)
      reads Elements(newly)
    {
      forall f :: f in newly ==>
        && RecOf(f) == Rec(if f == requested then 1 else 0, f.deps, [], scope, context) && !f.finiCallLock
        && f.lookupType == if deepBind then LocalGlobal else GlobalLocal
    }

    method Prepare(context: Context, requested: VdlFile, newly: seq<VdlFile>, scope: seq<VdlFile>,
                   isGlobal: bool, deepBind: bool, ghost st: Store<VdlFile, Context>)
      requires Shows(st) && context in contexts
      requires Distinct(newly) && forall f :: f in newly ==> f !in linkMap && FreshlyMapped(f, context)
      modifies requested`count, Elements(newly)`localScope, Elements(newly)`lookupType, context`globalScope
      ensures context in st.globals && Shows(Counted(st, context, requested, scope, isGlobal))
      ensures Prepared(context, requested, newly, scope, deepBind)
    {
      CountAndPublish(context, requested, scope, isGlobal, st);
      ScopeNewFiles(newly, scope, deepBind, Counted(st, context, requested, scope, isGlobal));
    }

    lemma OpenedShown(context: Context, requested: VdlFile, newly: seq<VdlFile>, scope: seq<VdlFile>,
                      isGlobal: bool, deepBind: bool, st: Store<VdlFile, Context>)
      requires context in st.globals && (requested in st.recs || requested in newly)
      requires forall f :: f in newly ==> f !in st.recs
      requires Prepared(context, requested, newly, scope, deepBind)
      requires Shows(Appended(Counted(st, context, requested, scope, isGlobal), newly, RecsOf(newly)))
      ensures Shows(Opened(st, context, requested, newly, DepsOf(newly), scope, isGlobal))
    {
      OpenedInSteps<VdlFile, Context>(st, context, requested, newly, DepsOf(newly), scope, isGlobal, RecsOf(newly));
    }

    /** One more reference to the requested file, the global scope if asked for, the local scopes of the new
        files, and the new files at the end of the link map. */
    method DlopenCommit(context: Context, requested: VdlFile, newly: seq<VdlFile>, scope: seq<VdlFile>,
                        isGlobal: bool, deepBind: bool, ghost st: Store<VdlFile, Context>)
      requires Shows(st) && context in contexts && (requested in linkMap || requested in newly)
      requires Distinct(newly) && forall f :: f in newly ==> f !in linkMap && FreshlyMapped(f, context)
      modifies this`linkMap, requested`count, Elements(newly)`localScope, Elements(newly)`lookupType,
               context`globalScope
      ensures context in st.globals && (requested in st.recs || requested in newly)
      ensures Shows(Opened(st, context, requested, newly, DepsOf(newly), scope, isGlobal))
      ensures Prepared(context, requested, newly, scope, deepBind)
    {
      ghost var all := Elements(linkMap);
      assert forall f :: f in newly ==> f !in all && f !in st.recs;
      assert requested in linkMap ==> requested in all && requested in st.recs;
      Prepare(context, requested, newly, scope, isGlobal, deepBind, st);
      AppendRange(newly, Counted(st, context, requested, scope, isGlobal));
      OpenedShown(context, requested, newly, scope, isGlobal, deepBind, st);
    }
  }
}

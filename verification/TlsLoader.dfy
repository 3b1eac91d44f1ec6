/** The TLS runtime as code: DTV arrays written in place, the g_vdl counters, loops over modules and over
    the link map.  Each method is tied to the function of the same operation in TlsRuntime. */
module TlsLoader {
  import opened Common
  import opened TlsRuntime
  import opened TlsImage
  import opened Seqs
  import Mem

  /** The live blocks of the loader's allocator, and the size each address was last handed out with; the allocator's
      choice of address is a parameter. */
  class Heap {
    var live: set<int>
    var sizes: map<int, nat>

    constructor ()
      ensures live == {} && sizes == map[]
    {
      live, sizes := {}, map[];
    }

    method Malloc(size: nat, addr: int) returns (p: int)
      requires addr > 0 && addr !in live
      modifies this
      ensures p == addr && live == old(live) + {addr} && sizes == old(sizes)[addr := size]
    {
      p := addr;
      live, sizes := live + {addr}, sizes[addr := size];
    }

    method Free(p: int)
      requires p in live
      modifies this`live
      ensures live == old(live) - {p}
    {
      live := live - {p};
    }
  }

  /** The memory of the process, byte by byte. */
  class Ram {
    var bytes: Memory

    constructor ()
    {
      bytes := _ => 0;
    }

    /** vdl_memcpy from outside the blocks: its counter cuts the length */
    method MemCpy(a: int, s: seq<Byte>)
      modifies this
      ensures bytes == Put(old(bytes), a, s[..Mem.CopyCount(|s|)])
    {
      bytes := Put(bytes, a, s[..Mem.CopyCount(|s|)]);
    }

    /** vdl_memset to zero */
    method Clear(a: int, n: nat)
      modifies this
      ensures bytes == Put(old(bytes), a, Zeros(n))
    {
      bytes := Put(bytes, a, Zeros(n));
    }

    method StoreWord(a: int, n: nat)
      modifies this
      ensures bytes == Put(old(bytes), a, Bytes(n, 8))
    {
      bytes := Put(bytes, a, Bytes(n, 8));
    }

    /** Copy the template into the block and clear what is behind it. */
    method FillBlock(a: int, f: Module)
      modifies this
      ensures bytes == Filled(old(bytes), a, f)
    {
      MemCpy(a, f.template);
      Clear(a + |f.template|, f.zeroSize);
    }
  }

  /** A thread control block: the thread pointer and its DTV (element -1, the size, is the array length). */
  class Tcb {
    const tp: int
    var dtv: array<Entry>

    constructor (tp: int)
      ensures this.tp == tp && fresh(dtv) && dtv.Length == 1
    {
      this.tp := tp;
      dtv := new Entry[1](_ => UNALLOCATED);
    }
  }

  /** `files`, in link-map order, are the modules of `modules`. */
  ghost predicate Represents(files: seq<Module>, modules: map<nat, Module>) {
    && (forall f :: f in files ==> f.index in modules && modules[f.index] == f)
    && (forall m :: m in modules ==> modules[m] in files)
  }

  lemma RepresentsAppended(files: seq<Module>, modules: map<nat, Module>, f: Module)
    requires Represents(files, modules) && f.index !in modules
    ensures Represents(files + [f], modules[f.index := f])
  {
    var more := modules[f.index := f];
    forall m | m in more ensures more[m] in files + [f] {
      assert m != f.index ==> modules[m] in files;
      assert (files + [f])[|files|] == f;
    }
  }

  lemma RepresentsWithout(files: seq<Module>, modules: map<nat, Module>, m: nat)
    requires Represents(files, modules) && m in modules && forall k :: k in modules ==> modules[k].index == k
    ensures Represents(Without(files, modules[m]), modules - {m})
  {
    forall k | k in modules && k != m ensures modules[k] in Without(files, modules[m]) {
      assert modules[k] in files && modules[k] != modules[m];
    }
  }

  lemma NextFilled(mem: Memory, files: seq<Module>, i: nat, tp: int)
    requires i < |files|
    ensures AllFilled(mem, files[..i + 1], tp) ==
              if files[i].isStatic then Filled(AllFilled(mem, files[..i], tp), tp + files[i].offset, files[i])
              else AllFilled(mem, files[..i], tp)
  {
    AllFilledNext(mem, files[..i], files[i], tp);
    assert files[..i + 1] == files[..i] + [files[i]];
  }

  predicate EntrySet(dtv: Dtv, g: Global, tp: int, f: Module) {
    1 <= f.index < |dtv| && dtv[f.index] == Initial(g, tp, f.index)
  }

  /** When every file of the link map has its entry, so has every module. */
  lemma AllListed(files: seq<Module>, g: Global, dtv: Dtv, tp: int)
    requires Represents(files, g.modules) && GlobalValid(g) && Size(dtv) == g.nDtv
    requires forall j :: 0 <= j < |files| ==> EntrySet(dtv, g, tp, files[j])
    ensures FreshDtvFits(g) && forall m :: 1 <= m < |dtv| ==> dtv[m] == Initial(g, tp, m)
  {
    forall m | m in g.modules ensures m <= g.nDtv && dtv[m] == Initial(g, tp, m) {
      assert g.modules[m] in files && EntrySet(dtv, g, tp, g.modules[m]);
    }
    FittingIsGapless(g);
  }

  lemma NotListed(files: seq<Module>, modules: map<nat, Module>, m: nat)
    requires Represents(files, modules) && forall k :: k in modules ==> modules[k].index == k
    requires forall j :: 0 <= j < |files| ==> files[j].index != m
    ensures m !in modules
  {
  }

  /** What the first loop of an update has freed before module `n`. */
  ghost function DroppedBelow(g: Global, dtv: Dtv, n: nat): set<int> {
    set m | 1 <= m < n && m < |dtv| && Stale(g, m, dtv[m]) && !dtv[m].isStatic :: dtv[m].value - HEADER
  }

  /** Every block the DTV refers to is live and referred to once. */
  ghost predicate BlocksLive(dtv: Dtv, live: set<int>) {
    && (forall m :: 1 <= m < |dtv| && dtv[m].value != 0 && !dtv[m].isStatic ==>
          dtv[m].value > HEADER && dtv[m].value - HEADER in live)
    && (forall m, k :: 1 <= m < k < |dtv| && dtv[m].value == dtv[k].value != 0 ==>
          dtv[m].isStatic || dtv[k].isStatic)
  }

  /** The block that refreshing entry n frees. */
  ghost function FreedAt(g: Global, n: nat, e: Entry): set<int> {
    if Stale(g, n, e) && !e.isStatic then {e.value - HEADER} else {}
  }

  lemma DroppedNext(g: Global, dtv: Dtv, n: nat, live: set<int>)
    requires 1 <= n < |dtv| && BlocksLive(dtv, live)
    ensures live - DroppedBelow(g, dtv, n + 1) == live - DroppedBelow(g, dtv, n) - FreedAt(g, n, dtv[n])
    ensures dtv[n].value != 0 && !dtv[n].isStatic ==> dtv[n].value - HEADER in live - DroppedBelow(g, dtv, n)
  {
    assert DroppedBelow(g, dtv, n + 1) == DroppedBelow(g, dtv, n) + FreedAt(g, n, dtv[n]);
  }

  /** The loop over the entries has come to entry m. */
  ghost predicate RefreshedTo(g: Global, was: Dtv, now: Dtv, m: nat) {
    && |now| == |was| && now[0] == was[0]
    && (forall k :: 1 <= k < m && k < |was| ==> now[k] == Refreshed(g, k, was[k]))
    && (forall k :: m <= k < |was| ==> now[k] == was[k])
  }

  lemma RefreshedNext(g: Global, was: Dtv, before: Dtv, now: Dtv, m: nat)
    requires 1 <= m < |was| && RefreshedTo(g, was, before, m)
    requires |now| == |before| && now[m] == Refreshed(g, m, before[m])
    requires forall k :: 0 <= k < |now| && k != m ==> now[k] == before[k]
    ensures RefreshedTo(g, was, now, m + 1)
  {
  }

  lemma AllDropped(g: Global, dtv: Dtv)
    requires dtv[0].gen != g.gen
    ensures DroppedBelow(g, dtv, |dtv|) == Dropped(g, dtv)
  {
  }

  /** A refreshed vector that is large enough is the updated one. */
  lemma RefreshedIsUpdated(g: Global, tp: int, was: Dtv, d: Dtv)
    requires was[0].gen != g.gen && g.nDtv <= Size(was) && |d| == |was| && d[0] == was[0].(gen := g.gen)
    requires forall m :: 1 <= m < |was| ==> d[m] == Refreshed(g, m, was[m])
    ensures d == Updated(g, tp, was)
  {
  }

  /** And so is a grown one. */
  lemma GrownIsUpdated(g: Global, tp: int, was: Dtv, d: Dtv)
    requires was[0].gen != g.gen && g.nDtv > Size(was) && |d| == g.nDtv + 1 && d[0] == Entry(0, false, g.gen)
    requires forall m :: 1 <= m < |was| ==> d[m] == Refreshed(g, m, was[m])
    requires forall m :: |was| <= m < |d| ==> d[m] == Grown(g, tp, m)
    ensures d == Updated(g, tp, was)
  {
  }

  /** The loop over the new area behind entry n has come to entry m. */
  ghost predicate ReachedTo(g: Global, tp: int, was: seq<Entry>, now: seq<Entry>, n: nat, m: nat) {
    && |now| == |was| && n < m <= |was| && (forall k :: 0 <= k <= n ==> now[k] == was[k])
    && forall k :: n < k < m ==> now[k] == Grown(g, tp, k)
  }

  lemma ReachedNext(g: Global, tp: int, was: seq<Entry>, before: seq<Entry>, now: seq<Entry>, n: nat, m: nat)
    requires ReachedTo(g, tp, was, before, n, m) && m < |before| == |now| && now[m] == Grown(g, tp, m)
    requires forall k :: 0 <= k < |now| && k != m ==> now[k] == before[k]
    ensures ReachedTo(g, tp, was, now, n, m + 1)
  {
  }

  /** The loop over the link map has come to file i. */
  ghost predicate SetUpTo(g: Global, tp: int, files: seq<Module>, dtv: seq<Entry>, i: nat) {
    && |dtv| >= 1 && i <= |files| && dtv[0] == Entry(0, false, g.gen)
    && forall j :: 0 <= j < i ==> EntrySet(dtv, g, tp, files[j])
  }

  lemma SetUpNext(g: Global, tp: int, files: seq<Module>, before: seq<Entry>, now: seq<Entry>, i: nat)
    requires SetUpTo(g, tp, files, before, i) && i < |files| && |now| == |before|
    requires 1 <= files[i].index < |now| && now[files[i].index] == Initial(g, tp, files[i].index)
    requires forall k :: 0 <= k < |now| && k != files[i].index ==> now[k] == before[k]
    ensures SetUpTo(g, tp, files, now, i + 1)
  {
  }

  class Runtime {
    var gen: nat
    var nDtv: nat
    var nextIndex: nat
    const staticTotal: nat
    var linkMap: seq<Module>
    const heap: Heap
    const ram: Ram
    ghost var modules: map<nat, Module>

    ghost function Snapshot(): Global
      reads this
    {
      Global(gen, nDtv, nextIndex, staticTotal, modules)
    }

    ghost predicate Valid()
      reads this
    {
      Represents(linkMap, modules) && GlobalValid(Snapshot())
    }

    constructor (staticTotal: nat)
      ensures Valid() && fresh(heap) && heap.live == {} && fresh(ram)
      ensures Snapshot() == Startup(staticTotal).g
    {
      gen, nDtv, nextIndex, linkMap := 1, 0, 1, [];
      this.staticTotal := staticTotal;
      heap := new Heap();
      ram := new Ram();
      modules := map[];
    }

    /** file_initialize, the offset from initialize_static_tls, and the append to the link map. */
    method Load(isStatic: bool, offset: int, template: seq<Byte>, zeroSize: nat) returns (f: Module)
      requires Valid() && (isStatic ==> -(staticTotal as int) <= offset < 0)
      modifies this
      ensures Valid() && Snapshot() == Loaded(old(Snapshot()), isStatic, offset, template, zeroSize)
      ensures linkMap == old(linkMap) + [f]
      ensures f == Module(old(nextIndex), old(gen), isStatic, offset, template, zeroSize)
      ensures gen == old(gen) + 1 && nDtv == old(nDtv) + 1 && nextIndex == old(nextIndex) + 1
    {
      LoadedValid(Snapshot(), isStatic, offset, template, zeroSize);
      f := Module(nextIndex, gen, isStatic, offset, template, zeroSize);
      RepresentsAppended(linkMap, modules, f);
      modules := modules[nextIndex := f];
      linkMap := linkMap + [f];
      nextIndex := nextIndex + 1;
      gen := gen + 1;
      nDtv := nDtv + 1;
    }

    /** file_deinitialize and the removal from the link map. */
    method Unload(m: nat)
      requires Valid() && m in modules
      modifies this
      ensures Valid() && old(nDtv) > 0 && Snapshot() == Unloaded(old(Snapshot()), m)
      ensures linkMap == Without(old(linkMap), old(modules)[m])
      ensures gen == old(gen) + 1 && nDtv == old(nDtv) - 1 && nextIndex == old(nextIndex)
    {
      UnloadedValid(Snapshot(), m);
      RepresentsWithout(linkMap, modules, m);
      var rest := Others(m);
      linkMap := rest;
      gen := gen + 1;
      nDtv := nDtv - 1;
      modules := modules - {m};
    }

    /** The link map without module m. */
    method Others(m: nat) returns (rest: seq<Module>)
      requires Valid() && m in modules
      ensures rest == Without(linkMap, modules[m])
    {
      rest := [];
      for i := 0 to |linkMap|
        invariant rest == Without(linkMap[..i], modules[m])
      {
        assert linkMap[i] in linkMap;
        WithoutAppend(linkMap[..i], [linkMap[i]], modules[m]);
        assert linkMap[..i + 1] == linkMap[..i] + [linkMap[i]];
        if linkMap[i].index != m {
          rest := rest + [linkMap[i]];
        }
      }
      assert linkMap[..|linkMap|] == linkMap;
    }

    method FindFileByModule(m: nat) returns (r: Option<Module>)
      requires Valid()
      ensures r == if m in modules then Some(modules[m]) else None
    {
      for i := 0 to |linkMap|
        invariant forall j :: 0 <= j < i ==> linkMap[j].index != m
      {
        if linkMap[i].index == m {
          return Some(linkMap[i]);
        }
      }
      NotListed(linkMap, modules, m);
      return None;
    }

    /** vdl_tls_dtv_allocate: only the size and the generation are set. */
    method DtvAllocate(tcb: Tcb)
      modifies tcb
      ensures fresh(tcb.dtv) && tcb.dtv.Length == nDtv + 1 && tcb.dtv[0] == Entry(0, false, gen)
    {
      var dtv := new Entry[nDtv + 1](_ => UNALLOCATED);
      dtv[0] := Entry(0, false, gen);
      tcb.dtv := dtv;
    }

    /** vdl_tls_dtv_initialize after vdl_tls_dtv_allocate. It returns false where the code is about to write an
        entry outside the vector. */
    method DtvInitialize(tcb: Tcb) returns (inside: bool)
      requires Valid() && tcb.dtv.Length == nDtv + 1 && tcb.dtv[0] == Entry(0, false, gen)
      modifies tcb.dtv, ram
      ensures inside <==> FreshDtvFits(Snapshot())
      ensures inside ==> tcb.dtv[..] == FreshDtv(Snapshot(), tcb.tp)
      ensures inside ==> ram.bytes == AllFilled(old(ram.bytes), linkMap, tcb.tp)
    {
      ghost var g := Snapshot();
      var dtv := tcb.dtv;
      for i := 0 to |linkMap|
        invariant SetUpTo(g, tcb.tp, linkMap, dtv[..], i)
        invariant ram.bytes == AllFilled(old(ram.bytes), linkMap[..i], tcb.tp)
      {
        var cur := linkMap[i];
        assert cur in linkMap;
        if cur.index >= dtv.Length {
          return false;
        }
        ghost var before := dtv[..];
        NextFilled(old(ram.bytes), linkMap, i, tcb.tp);
        InitializeEntry(dtv, cur, tcb.tp);
        SetUpNext(g, tcb.tp, linkMap, before, dtv[..], i);
      }
      inside := true;
      assert linkMap[..|linkMap|] == linkMap;
      AllListed(linkMap, g, dtv[..], tcb.tp);
      dtv[0] := dtv[0].(gen := gen);
    }

    /** One round of that loop. */
    method InitializeEntry(dtv: array<Entry>, cur: Module, tp: int)
      requires Valid() && cur in linkMap && cur.index < dtv.Length
      modifies dtv, ram
      ensures dtv[cur.index] == Initial(Snapshot(), tp, cur.index)
      ensures forall k :: 0 <= k < dtv.Length && k != cur.index ==> dtv[k] == old(dtv[k])
      ensures ram.bytes == if cur.isStatic then Filled(old(ram.bytes), tp + cur.offset, cur) else old(ram.bytes)
    {
      if cur.isStatic {
        dtv[cur.index] := Entry(tp + cur.offset, true, dtv[cur.index].gen);
        ram.FillBlock(tp + cur.offset, cur);
      } else {
        dtv[cur.index] := Entry(0, false, dtv[cur.index].gen);
      }
      dtv[cur.index] := dtv[cur.index].(gen := cur.gen);
    }

    /** One pass of the first loop of vdl_tls_dtv_update. */
    method RefreshEntry(dtv: array<Entry>, m: nat)
      requires Valid() && 1 <= m < dtv.Length
      requires dtv[m].value != 0 && !dtv[m].isStatic ==> dtv[m].value - HEADER in heap.live
      modifies dtv, heap`live
      ensures dtv[m] == Refreshed(Snapshot(), m, old(dtv[m]))
      ensures forall k :: 0 <= k < dtv.Length && k != m ==> dtv[k] == old(dtv[k])
      ensures heap.live == old(heap.live) - FreedAt(Snapshot(), m, old(dtv[m]))
      ensures old(dtv[m]).value == 0 || (m in modules && old(dtv[m]).gen == modules[m].gen) ==>
                dtv[m] == old(dtv[m]) && heap.live == old(heap.live)
      ensures m in modules && old(dtv[m]).value != 0 && old(dtv[m]).gen != modules[m].gen ==>
                dtv[m] == Entry(0, false, 0)
    {
      if dtv[m].value == 0 {
        return;
      }
      var file := FindFileByModule(m);
      if file.Some? && dtv[m].gen == file.value.gen {
        return;
      }
      if !dtv[m].isStatic {
        heap.Free(dtv[m].value - HEADER);
        dtv[m] := dtv[m].(value := 0);
      }
      if file.Some? {
        dtv[m] := Entry(0, false, 0);
      }
    }

    /** The first loop of vdl_tls_dtv_update. */
    method RefreshEntries(tcb: Tcb)
      requires Valid() && tcb.dtv.Length >= 1 && tcb.dtv[0].gen != gen
      requires BlocksLive(tcb.dtv[..], heap.live)
      modifies tcb.dtv, heap`live
      ensures tcb.dtv[0] == old(tcb.dtv[0])
      ensures forall m :: 1 <= m < tcb.dtv.Length ==> tcb.dtv[m] == Refreshed(Snapshot(), m, old(tcb.dtv[m]))
      ensures heap.live == old(heap.live) - Dropped(Snapshot(), old(tcb.dtv[..]))
    {
      ghost var g := Snapshot();
      ghost var was: Dtv := tcb.dtv[..];
      ghost var live := heap.live;
      var dtv := tcb.dtv;
      for m := 1 to dtv.Length
        invariant RefreshedTo(g, was, dtv[..], m) && heap.live == live - DroppedBelow(g, was, m)
      {
        ghost var before: Dtv := dtv[..];
        DroppedNext(g, was, m, live);
        RefreshEntry(dtv, m);
        RefreshedNext(g, was, before, dtv[..], m);
      }
      AllDropped(g, was);
    }

    /** vdl_tls_dtv_update */
    method DtvUpdate(tcb: Tcb)
      requires Valid() && tcb.dtv.Length >= 1 && BlocksLive(tcb.dtv[..], heap.live)
      modifies tcb, tcb.dtv, heap`live, ram
      ensures tcb.dtv == old(tcb.dtv) || fresh(tcb.dtv)
      ensures tcb.dtv[..] == Updated(Snapshot(), tcb.tp, old(tcb.dtv[..]))
      ensures heap.live == old(heap.live) - Dropped(Snapshot(), old(tcb.dtv[..]))
      ensures ram.bytes == UpdatedMemory(Snapshot(), tcb.tp, old(tcb.dtv[..]), old(ram.bytes))
    {
      ghost var g := Snapshot();
      ghost var was: Dtv := tcb.dtv[..];
      var dtv := tcb.dtv;
      var dtvSize := dtv.Length - 1;
      if dtv[0].gen == gen {
        return;
      }
      RefreshEntries(tcb);
      if nDtv <= dtvSize {
        dtv[0] := dtv[0].(gen := gen);
        RefreshedIsUpdated(g, tcb.tp, was, dtv[..]);
        return;
      }
      GrowDtv(tcb);
      GrownIsUpdated(g, tcb.tp, was, tcb.dtv[..]);
    }

    /** The rest of vdl_tls_dtv_update, for a vector that is too small: a new one takes over the entries. */
    method GrowDtv(tcb: Tcb)
      requires Valid() && 1 <= tcb.dtv.Length <= nDtv
      modifies tcb, ram
      ensures fresh(tcb.dtv) && tcb.dtv.Length == nDtv + 1 && tcb.dtv[0] == Entry(0, false, gen)
      ensures forall k :: 1 <= k < old(tcb.dtv).Length ==> tcb.dtv[k] == old(tcb.dtv[k])
      ensures forall k :: old(tcb.dtv).Length <= k <= nDtv ==> tcb.dtv[k] == Grown(Snapshot(), tcb.tp, k)
      ensures ram.bytes == AllFilled(old(ram.bytes), Between(Snapshot(), old(tcb.dtv).Length, nDtv + 1), tcb.tp)
    {
      var dtv := tcb.dtv;
      var dtvSize := dtv.Length - 1;
      DtvAllocate(tcb);
      var newDtv := tcb.dtv;
      for m := 1 to dtvSize + 1
        invariant newDtv[0] == Entry(0, false, gen)
        invariant forall k :: 1 <= k < m ==> newDtv[k] == dtv[k]
        modifies newDtv
      {
        newDtv[m] := dtv[m];
      }
      ReachNewModules(newDtv, dtvSize, tcb.tp);
      newDtv[0] := newDtv[0].(gen := gen);
    }

    /** The loop over the new area of a grown vector. */
    method ReachNewModules(newDtv: array<Entry>, dtvSize: nat, tp: int)
      requires Valid() && dtvSize < newDtv.Length == nDtv + 1
      modifies newDtv, ram
      ensures forall k :: 0 <= k <= dtvSize ==> newDtv[k] == old(newDtv[k])
      ensures forall k :: dtvSize < k < newDtv.Length ==> newDtv[k] == Grown(Snapshot(), tp, k)
      ensures ram.bytes == AllFilled(old(ram.bytes), Between(Snapshot(), dtvSize + 1, newDtv.Length), tp)
    {
      ghost var g, was := Snapshot(), newDtv[..];
      for m := dtvSize + 1 to newDtv.Length
        invariant ReachedTo(g, tp, was, newDtv[..], dtvSize, m)
        invariant ram.bytes == AllFilled(old(ram.bytes), Between(g, dtvSize + 1, m), tp)
      {
        ghost var before := newDtv[..];
        BetweenNext(old(ram.bytes), g, dtvSize + 1, m, tp);
        ReachModule(newDtv, m, tp);
        ReachedNext(g, tp, was, before, newDtv[..], dtvSize, m);
      }
    }

    /** One round of that loop. */
    method ReachModule(newDtv: array<Entry>, m: nat, tp: int)
      requires Valid() && m < newDtv.Length
      modifies newDtv, ram
      ensures newDtv[m] == Grown(Snapshot(), tp, m)
      ensures forall k :: 0 <= k < newDtv.Length && k != m ==> newDtv[k] == old(newDtv[k])
      ensures ram.bytes == ReachedMemory(old(ram.bytes), Snapshot(), m, tp)
    {
      newDtv[m] := UNALLOCATED;
      var file := FindFileByModule(m);
      if file.Some? && file.value.isStatic {
        newDtv[file.value.index] := Entry(tp + file.value.offset, true, file.value.gen);
        ram.FillBlock(tp + file.value.offset, file.value);
      }
    }

    /** vdl_tls_get_addr_fast: takes no lock, 0 when the slow path is needed. */
    method GetAddrFast(tcb: Tcb, m: nat, offset: nat) returns (addr: int)
      requires tcb.dtv.Length >= 1 && (tcb.dtv[0].gen == gen ==> m < tcb.dtv.Length)
      ensures var base := FastBase(Snapshot(), tcb.dtv[..], m); addr == if base == 0 then 0 else base + offset
    {
      var dtv := tcb.dtv;
      if dtv[0].gen == gen && dtv[m].value != 0 {
        return dtv[m].value + offset;
      }
      return 0;
    }

    /** The part of vdl_tls_get_addr_slow that gives an up-to-date DTV the block of module m. */
    method AllocateBlock(tcb: Tcb, m: nat, addr: int)
      requires Valid() && 1 <= m < tcb.dtv.Length && DtvValid(Snapshot(), tcb.tp, tcb.dtv[..])
      requires m in modules && tcb.dtv[m].value == 0
      requires addr > 0 && addr !in heap.live
      modifies tcb.dtv, heap, ram
      ensures ram.bytes == BlockMade(old(ram.bytes), addr, modules[m])
      ensures tcb.dtv[..] == old(tcb.dtv[..])[m := Entry(addr + HEADER, false, modules[m].gen)]
      ensures DtvValid(Snapshot(), tcb.tp, tcb.dtv[..])
      ensures heap.live == old(heap.live) + {addr}
      ensures heap.sizes == old(heap.sizes)[addr := 8 + |modules[m].template| + modules[m].zeroSize]
    {
      ghost var g := Snapshot();
      ghost var was: Dtv := tcb.dtv[..];
      var dtv := tcb.dtv;
      var file := FindFileByModule(m);
      var size := 8 + |file.value.template| + file.value.zeroSize;
      var dtvi := heap.Malloc(size, addr);
      ram.StoreWord(dtvi, size);
      dtvi := dtvi + HEADER;
      ram.FillBlock(dtvi, file.value);
      dtv[m] := Entry(dtvi, false, file.value.gen);
      assert EntryValid(g, tcb.tp, m, was[m]);
      forall k | 1 <= k < dtv.Length ensures EntryValid(g, tcb.tp, k, dtv[k]) {
        assert EntryValid(g, tcb.tp, k, was[k]);
      }
    }

    /** vdl_tls_get_addr_slow: its call of itself is the only one, since the update makes the DTV current. */
    method GetAddrSlow(tcb: Tcb, m: nat, offset: nat, addr: int) returns (r: int)
      requires Valid() && tcb.dtv.Length >= 1 && BlocksLive(tcb.dtv[..], heap.live)
      requires DtvValid(Snapshot(), tcb.tp, tcb.dtv[..])
      requires m in modules && InBounds(Snapshot(), tcb.dtv[..], m)
      requires addr > 0 && addr !in heap.live - Dropped(Snapshot(), tcb.dtv[..])
      modifies tcb, tcb.dtv, heap, ram
      ensures tcb.dtv.Length >= 1 && DtvValid(Snapshot(), tcb.tp, tcb.dtv[..])
      ensures Outcome(r - offset, tcb.dtv[..], heap.live, heap.sizes, ram.bytes)
           == AfterAccess(Snapshot(), tcb.tp, old(tcb.dtv[..]), m, addr, old(heap.live), old(heap.sizes),
                          old(ram.bytes))
      decreases tcb.dtv[0].gen != gen, 1
    {
      ghost var g := Snapshot();
      ghost var was: Dtv := tcb.dtv[..];
      assert m <= Size(was) ==> EntryValid(g, tcb.tp, m, was[m]);
      if was[0].gen == g.gen {
        CurrentAccess(g, tcb.tp, was, m, addr, heap.live, heap.sizes, ram.bytes);
      }
      var a := GetAddrFast(tcb, m, offset);
      if a != 0 {
        return a;
      }
      var dtv := tcb.dtv;
      if dtv[0].gen == gen && dtv[m].value == 0 {
        AllocateBlock(tcb, m, addr);
        return dtv[m].value + offset;
      }
      r := UpdateAndRetry(tcb, m, offset, addr);
    }

    /** The rest of vdl_tls_get_addr_slow, for a vector that is out of date. */
    method UpdateAndRetry(tcb: Tcb, m: nat, offset: nat, addr: int) returns (r: int)
      requires Valid() && tcb.dtv.Length >= 1 && BlocksLive(tcb.dtv[..], heap.live)
      requires DtvValid(Snapshot(), tcb.tp, tcb.dtv[..]) && tcb.dtv[0].gen != gen
      requires m in modules && InBounds(Snapshot(), tcb.dtv[..], m)
      requires addr > 0 && addr !in heap.live - Dropped(Snapshot(), tcb.dtv[..])
      modifies tcb, tcb.dtv, heap, ram
      ensures tcb.dtv.Length >= 1 && DtvValid(Snapshot(), tcb.tp, tcb.dtv[..])
      ensures Outcome(r - offset, tcb.dtv[..], heap.live, heap.sizes, ram.bytes)
           == AfterAccess(Snapshot(), tcb.tp, old(tcb.dtv[..]), m, addr, old(heap.live), old(heap.sizes),
                          old(ram.bytes))
      decreases tcb.dtv[0].gen != gen, 0
    {
      ghost var g := Snapshot();
      ghost var was: Dtv := tcb.dtv[..];
      DtvUpdate(tcb);
      UpdatedValid(g, tcb.tp, was);
      UpdateKeepsBlocksLive(g, tcb.tp, was, old(heap.live));
      UpdatedIsCurrent(g, tcb.tp, was, m, addr, old(heap.live), old(heap.sizes), old(ram.bytes));
      r := GetAddrSlow(tcb, m, offset, addr);
    }
  }

  lemma UpdateKeepsBlocksLive(g: Global, tp: int, dtv: Dtv, live: set<int>)
    requires GlobalValid(g) && DtvValid(g, tp, dtv) && BlocksLive(dtv, live)
    ensures BlocksLive(Updated(g, tp, dtv), live - Dropped(g, dtv))
  {
    var d := Updated(g, tp, dtv);
    if dtv[0].gen != g.gen {
      forall m | 1 <= m < |d|
        ensures d[m].value != 0 && !d[m].isStatic ==> m < |dtv| && d[m] == dtv[m] && !Stale(g, m, dtv[m])
      {
        assert d[m] == if m < |dtv| then Refreshed(g, m, dtv[m]) else Grown(g, tp, m);
      }
    }
  }
}

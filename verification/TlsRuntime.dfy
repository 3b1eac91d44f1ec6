/** The dynamic part of the TLS runtime: generation counters, per-thread DTVs that lag behind the set of
    loaded modules, lazily allocated blocks and DTV resizing.

    Only files with a PT_TLS segment appear here.  Addresses are integers; `vdl_alloc_malloc` is the
    caller-supplied choice of an address that is not in use. */
module TlsRuntime {
  import opened Common

  /** sizeof (unsigned long), the header in front of each lazily allocated block. */
  const HEADER: int := 8

  /** The TLS fields of a loaded file; `template` are the initialized bytes of its PT_TLS segment. */
  datatype Module = Module(index: nat, gen: nat, isStatic: bool, offset: int, template: seq<Byte>, zeroSize: nat)

  datatype Entry = Entry(value: int, isStatic: bool, gen: nat)

  /** A DTV: element 0 carries the generation, elements 1.. belong to the modules of that index. */
  type Dtv = d: seq<Entry> | |d| >= 1 witness [Entry(0, false, 0)]

  /** The fields of g_vdl this code uses, with the loaded TLS modules by index. */
  datatype Global = Global(gen: nat, nDtv: nat, nextIndex: nat, staticTotal: nat, modules: map<nat, Module>)

  function Size(dtv: Dtv): nat { |dtv| - 1 }

  function UpdatedSize(g: Global, dtv: Dtv): nat {
    if dtv[0].gen == g.gen then Size(dtv) else Max(Size(dtv), g.nDtv)
  }

  const UNALLOCATED := Entry(0, false, 0)

  // ----- what each operation computes

  /** The entry belongs to no loaded module of its own generation. */
  predicate Stale(g: Global, m: nat, e: Entry) {
    e.value != 0 && (m in g.modules ==> e.gen != g.modules[m].gen)
  }

  /** One entry of the old DTV after the first loop of vdl_tls_dtv_update. */
  function Refreshed(g: Global, m: nat, e: Entry): Entry {
    if !Stale(g, m, e) then e
    else if m in g.modules then UNALLOCATED
    else if e.isStatic then e
    else e.(value := 0)
  }

  /** One entry of the new area of a grown DTV. */
  function Grown(g: Global, tp: int, m: nat): Entry {
    if m in g.modules && g.modules[m].isStatic then Entry(tp + g.modules[m].offset, true, g.modules[m].gen)
    else UNALLOCATED
  }

  function Updated(g: Global, tp: int, dtv: Dtv): (r: Dtv)
    ensures r[0].gen == g.gen
    ensures Size(r) == UpdatedSize(g, dtv)
  {
    if dtv[0].gen == g.gen then dtv
    else if g.nDtv <= Size(dtv) then
      seq(|dtv|, i requires 0 <= i < |dtv| => if i == 0 then dtv[0].(gen := g.gen) else Refreshed(g, i, dtv[i]))
    else
      seq(g.nDtv + 1, i requires 0 <= i => if i == 0 then Entry(0, false, g.gen)
          else if i < |dtv| then Refreshed(g, i, dtv[i]) else Grown(g, tp, i))
  }

  /** The heap blocks an update gives back. */
  function Dropped(g: Global, dtv: Dtv): set<int> {
    if dtv[0].gen == g.gen then {}
    else set m | 1 <= m < |dtv| && Stale(g, m, dtv[m]) && !dtv[m].isStatic :: dtv[m].value - HEADER
  }

  /** The address a module's block has for this thread, and the DTV afterwards. */
  function Accessed(g: Global, tp: int, dtv: Dtv, m: nat, addr: int): (r: (int, Dtv))
    requires m in g.modules && InBounds(g, dtv, m)
  {
    var d := Updated(g, tp, dtv);
    if d[m].value != 0 then (d[m].value, d)
    else (addr + HEADER, d[m := Entry(addr + HEADER, false, g.modules[m].gen)])
  }

  /** vdl_tls_get_addr_fast: 0 means "take the slow path". */
  function FastBase(g: Global, dtv: Dtv, m: nat): int
    requires dtv[0].gen == g.gen ==> m <= Size(dtv)
  {
    if dtv[0].gen == g.gen && dtv[m].value != 0 then dtv[m].value else 0
  }

  /** The DTV of a new thread, after vdl_tls_dtv_allocate and vdl_tls_dtv_initialize. */
  function FreshDtv(g: Global, tp: int): Dtv {
    seq(g.nDtv + 1, i requires 0 <= i => if i == 0 then Entry(0, false, g.gen) else Initial(g, tp, i))
  }

  function Initial(g: Global, tp: int, m: nat): Entry {
    if m !in g.modules then UNALLOCATED
    else if g.modules[m].isStatic then Entry(tp + g.modules[m].offset, true, g.modules[m].gen)
    else Entry(0, false, g.modules[m].gen)
  }

  function Loaded(g: Global, isStatic: bool, offset: int, template: seq<Byte>, zeroSize: nat): Global {
    g.(gen := g.gen + 1, nDtv := g.nDtv + 1, nextIndex := g.nextIndex + 1,
       modules := g.modules[g.nextIndex := Module(g.nextIndex, g.gen, isStatic, offset, template, zeroSize)])
  }

  function Unloaded(g: Global, m: nat): Global
    requires g.nDtv > 0
  {
    g.(gen := g.gen + 1, nDtv := g.nDtv - 1, modules := g.modules - {m})
  }

  // ----- when the indexing is within the DTV

  /** What the code relies on when it reads dtv[m] on behalf of this thread. */
  predicate InBounds(g: Global, dtv: Dtv, m: nat) { 1 <= m <= UpdatedSize(g, dtv) }

  ghost predicate GlobalValid(g: Global) {
    && g.gen >= 1 && |g.modules| == g.nDtv && g.nDtv < g.nextIndex
    && (forall m :: m in g.modules ==> 1 <= m < g.nextIndex && g.modules[m].index == m && g.modules[m].gen < g.gen)
    && (forall m :: m in g.modules && g.modules[m].isStatic ==> -(g.staticTotal as int) <= g.modules[m].offset < 0)
  }

  lemma {:induction false} IndicesBelow(s: set<nat>, n: nat)
    requires forall m :: m in s ==> 1 <= m <= n
    ensures |s| <= n
    ensures |s| == n ==> forall m :: 1 <= m <= n ==> m in s
    decreases n
  {
    if n == 0 {
      assert s == {};
    } else {
      IndicesBelow(s - {n}, n - 1);
      if |s| == n {
        assert n !in s ==> s - {n} == s;
        forall m | 1 <= m <= n ensures m in s {
          assert m < n ==> m in s - {n};
        }
      }
    }
  }

  /** A new thread's DTV has an element for every loaded module. */
  predicate FreshDtvFits(g: Global) { forall m :: m in g.modules ==> m <= g.nDtv }

  /** It then has none to spare: the loaded modules are numbered 1 to n, so no element is left uninitialized. */
  lemma FittingIsGapless(g: Global)
    requires GlobalValid(g) && FreshDtvFits(g)
    ensures forall m :: m in g.modules <==> 1 <= m <= g.nDtv
  {
    IndicesBelow(g.modules.Keys, g.nDtv);
  }

  /** Indices are never reused, so after unloads the loaded modules can outgrow the DTV: with the second
      of three modules gone, the DTV of a new thread has two elements and module 3 lies outside it. */
  lemma UnloadBreaksIndexing(total: nat)
    ensures var g := Unloaded(Loaded(Loaded(Loaded(Global(1, 0, 1, total, map[]),
                     false, 0, [], 8), false, 0, [], 8), false, 0, [], 8), 2);
            GlobalValid(g) && 3 in g.modules && Size(FreshDtv(g, 0)) == 2
            && !InBounds(g, FreshDtv(g, 0), 3)
  {
    var g0 := Global(1, 0, 1, total, map[]);
    var g1 := Loaded(g0, false, 0, [], 8);
    var g2 := Loaded(g1, false, 0, [], 8);
    var g3 := Loaded(g2, false, 0, [], 8);
    LoadedValid(g0, false, 0, [], 8);
    LoadedValid(g1, false, 0, [], 8);
    LoadedValid(g2, false, 0, [], 8);
    UnloadedValid(g3, 2);
  }

  /** Without unloads the condition always holds. */
  lemma GaplessIsInBounds(g: Global, dtv: Dtv, m: nat)
    requires GlobalValid(g) && g.nDtv + 1 == g.nextIndex && m in g.modules
    requires dtv[0].gen == g.gen ==> g.nDtv <= Size(dtv)
    ensures InBounds(g, dtv, m)
  {
  }

  lemma LoadedValid(g: Global, isStatic: bool, offset: int, template: seq<Byte>, zeroSize: nat)
    requires GlobalValid(g) && (isStatic ==> -(g.staticTotal as int) <= offset < 0)
    ensures GlobalValid(Loaded(g, isStatic, offset, template, zeroSize))
  {
  }

  lemma UnloadedValid(g: Global, m: nat)
    requires GlobalValid(g) && m in g.modules
    ensures g.nDtv > 0 && GlobalValid(Unloaded(g, m))
  {
    assert |g.modules - {m}| == |g.modules| - 1 by {
      assert (g.modules - {m}).Keys == g.modules.Keys - {m};
    }
  }

  // ----- runs of many threads

  datatype Thread = Thread(tp: int, dtv: Dtv)

  /** `blocks` records which thread and module each live heap block was allocated for. */
  datatype System = System(g: Global, threads: map<nat, Thread>, blocks: map<int, (nat, nat)>)

  datatype Event =
    | Load(isStatic: bool, offset: int, template: seq<Byte>, zeroSize: nat)
    | Unload(m: nat)
    | Start(t: nat, tp: int)
    | Update(t: nat)
    | Access(t: nat, m: nat, addr: int)

  predicate Enabled(s: System, e: Event) {
    match e
    case Load(isStatic, offset, _, _) => isStatic ==> -(s.g.staticTotal as int) <= offset < 0
    case Unload(m) => m in s.g.modules && s.g.nDtv > 0
    case Start(t, tp) =>
      t !in s.threads && tp > s.g.staticTotal && FreshDtvFits(s.g)
    case Update(t) => t in s.threads
    case Access(t, m, addr) =>
      && t in s.threads && m in s.g.modules && InBounds(s.g, s.threads[t].dtv, m)
      && addr > 0 && addr !in s.blocks - Dropped(s.g, s.threads[t].dtv)
  }

  function Base(s: System, t: nat, m: nat, addr: int): int
    requires Enabled(s, Access(t, m, addr))
  {
    Accessed(s.g, s.threads[t].tp, s.threads[t].dtv, m, addr).0
  }

  /** The thread's DTV, updated, before a block is allocated for the access. */
  function Current(s: System, t: nat): Dtv
    requires t in s.threads
  {
    Updated(s.g, s.threads[t].tp, s.threads[t].dtv)
  }

  function Renewed(s: System, t: nat): System
    requires t in s.threads
  {
    s.(threads := s.threads[t := s.threads[t].(dtv := Current(s, t))],
       blocks := s.blocks - Dropped(s.g, s.threads[t].dtv))
  }

  function Do(s: System, e: Event): System
    requires Enabled(s, e)
  {
    match e
    case Load(isStatic, offset, template, zeroSize) => s.(g := Loaded(s.g, isStatic, offset, template, zeroSize))
    case Unload(m) => s.(g := Unloaded(s.g, m))
    case Start(t, tp) => s.(threads := s.threads[t := Thread(tp, FreshDtv(s.g, tp))])
    case Update(t) => Renewed(s, t)
    case Access(t, m, addr) =>
      var th := s.threads[t];
      var (_, dtv) := Accessed(s.g, th.tp, th.dtv, m, addr);
      var kept := s.blocks - Dropped(s.g, th.dtv);
      System(s.g, s.threads[t := th.(dtv := dtv)],
             if Current(s, t)[m].value != 0 then kept else kept[addr := (t, m)])
  }

  predicate IsRun(s: System, run: seq<Event>)
    decreases |run|
  {
    run != [] ==> Enabled(s, run[0]) && IsRun(Do(s, run[0]), run[1..])
  }

  function End(s: System, run: seq<Event>): System
    requires IsRun(s, run)
    decreases |run|
  {
    if run == [] then s else End(Do(s, run[0]), run[1..])
  }

  // ----- what every run keeps

  /** Entry m of a thread's DTV against the loaded module of that index. */
  ghost predicate EntryValid(g: Global, tp: int, m: nat, e: Entry) {
    m in g.modules ==>
      var f := g.modules[m];
      if f.isStatic then e == Entry(tp + f.offset, true, f.gen)
      else e.value != 0 ==> e.gen == f.gen && !e.isStatic
  }

  /** Nothing non-static outlives its module in a DTV of the current generation. */
  ghost predicate UpToDate(g: Global, dtv: Dtv) {
    && g.nDtv <= Size(dtv)
    && forall m :: 1 <= m < |dtv| && dtv[m].value != 0 && !dtv[m].isStatic ==>
         m in g.modules && dtv[m].gen == g.modules[m].gen
  }

  ghost predicate DtvValid(g: Global, tp: int, dtv: Dtv) {
    && tp > g.staticTotal && Size(dtv) < g.nextIndex && dtv[0].gen <= g.gen
    && (dtv[0].gen == g.gen ==> UpToDate(g, dtv))
    && forall m :: 1 <= m < |dtv| ==> EntryValid(g, tp, m, dtv[m])
  }

  /** Thread t's entry m owns a heap block. */
  predicate Owns(s: System, t: nat, m: nat) {
    t in s.threads && 1 <= m < |s.threads[t].dtv| && s.threads[t].dtv[m].value != 0 && !s.threads[t].dtv[m].isStatic
  }

  /** The entry and the block it owns name each other. */
  predicate OwnedBlockExact(s: System, t: nat, m: nat) {
    Owns(s, t, m) ==>
      var b := s.threads[t].dtv[m].value - HEADER; b > 0 && b in s.blocks && s.blocks[b] == (t, m)
  }

  predicate BlockOwned(s: System, b: int) {
    b in s.blocks ==> var (t, m) := s.blocks[b]; Owns(s, t, m) && s.threads[t].dtv[m].value == b + HEADER
  }

  /** Every heap block is owned by exactly one DTV entry and every such entry's block is live. */
  ghost predicate BlocksExact(s: System) {
    (forall t: nat, m: nat :: OwnedBlockExact(s, t, m)) && (forall b :: BlockOwned(s, b))
  }

  ghost predicate Valid(s: System) {
    && GlobalValid(s.g)
    && (forall t :: t in s.threads ==> DtvValid(s.g, s.threads[t].tp, s.threads[t].dtv))
    && BlocksExact(s)
  }

  lemma UpdatedValid(g: Global, tp: int, dtv: Dtv)
    requires GlobalValid(g) && DtvValid(g, tp, dtv)
    ensures DtvValid(g, tp, Updated(g, tp, dtv)) && UpToDate(g, Updated(g, tp, dtv))
  {
    var d := Updated(g, tp, dtv);
    forall m | 1 <= m < |d| ensures EntryValid(g, tp, m, d[m]) {
      if m < |dtv| {
        assert EntryValid(g, tp, m, dtv[m]);
      }
    }
  }

  lemma FreshDtvValid(g: Global, tp: int)
    requires GlobalValid(g) && tp > g.staticTotal
    ensures DtvValid(g, tp, FreshDtv(g, tp))
  {
    var d := FreshDtv(g, tp);
    forall m | 1 <= m < |d| ensures EntryValid(g, tp, m, d[m]) {
      assert d[m] == Initial(g, tp, m);
    }
  }

  /** The entry is a block of a module that is gone, in a DTV that an update will change. */
  predicate Drops(g: Global, dtv: Dtv, m: nat) {
    && dtv[0].gen != g.gen && 1 <= m < |dtv|
    && dtv[m].value != 0 && !dtv[m].isStatic && m !in g.modules
  }

  /** An update of an out-of-date DTV keeps exactly the blocks that are not dropped. */
  lemma OwnsAfterUpdate(s: System, t: nat, u: nat, m: nat)
    requires Valid(s) && t in s.threads && s.threads[t].dtv[0].gen != s.g.gen
    ensures var s' := Renewed(s, t);
            && (Owns(s', u, m) <==> Owns(s, u, m) && !(u == t && Drops(s.g, s.threads[t].dtv, m)))
            && (Owns(s', u, m) ==> s'.threads[u].dtv[m] == s.threads[u].dtv[m])
  {
    if u == t {
      var th := s.threads[t];
      var d := Current(s, t);
      if 1 <= m < |th.dtv| {
        assert EntryValid(s.g, th.tp, m, th.dtv[m]);
        assert d[m] == Refreshed(s.g, m, th.dtv[m]);
      } else if |th.dtv| <= m < |d| {
        assert d[m] == Grown(s.g, th.tp, m);
      }
    }
  }

  lemma DroppedBlocks(s: System, t: nat, u: nat, m: nat)
    requires Valid(s) && t in s.threads && s.threads[t].dtv[0].gen != s.g.gen && Owns(s, u, m)
    ensures s.threads[u].dtv[m].value - HEADER in Dropped(s.g, s.threads[t].dtv)
            <==> u == t && Drops(s.g, s.threads[t].dtv, m)
  {
    var dtv := s.threads[t].dtv;
    var b := s.threads[u].dtv[m].value - HEADER;
    if b in Dropped(s.g, dtv) {
      var k: nat :| 1 <= k < |dtv| && Stale(s.g, k, dtv[k]) && !dtv[k].isStatic && dtv[k].value - HEADER == b;
      assert Owns(s, t, k) && OwnedBlockExact(s, t, k) && OwnedBlockExact(s, u, m);
      assert EntryValid(s.g, s.threads[t].tp, k, dtv[k]);
    }
  }

  lemma OwnedStays(s: System, s': System, u: nat, m: nat, dropped: set<int>)
    requires OwnedBlockExact(s, u, m) && s'.blocks == s.blocks - dropped
    requires Owns(s', u, m) ==>
               && Owns(s, u, m) && s'.threads[u].dtv[m] == s.threads[u].dtv[m]
               && s.threads[u].dtv[m].value - HEADER !in dropped
    ensures OwnedBlockExact(s', u, m)
  {
  }

  lemma OwnedAfterUpdate(s: System, t: nat, u: nat, m: nat)
    requires Valid(s) && t in s.threads && s.threads[t].dtv[0].gen != s.g.gen
    ensures OwnedBlockExact(Renewed(s, t), u, m)
  {
    OwnsAfterUpdate(s, t, u, m);
    if Owns(s, u, m) {
      DroppedBlocks(s, t, u, m);
    }
    OwnedStays(s, Renewed(s, t), u, m, Dropped(s.g, s.threads[t].dtv));
  }

  lemma BlockAfterUpdate(s: System, t: nat, b: int)
    requires Valid(s) && t in s.threads && s.threads[t].dtv[0].gen != s.g.gen
    ensures BlockOwned(Renewed(s, t), b)
  {
    if b in Renewed(s, t).blocks {
      assert BlockOwned(s, b);
      var (u, m) := s.blocks[b];
      OwnsAfterUpdate(s, t, u, m);
      DroppedBlocks(s, t, u, m);
    }
  }

  lemma UpdateKeepsBlocks(s: System, t: nat)
    requires Valid(s) && t in s.threads && s.threads[t].dtv[0].gen != s.g.gen
    ensures BlocksExact(Renewed(s, t))
  {
    forall u: nat, m: nat ensures OwnedBlockExact(Renewed(s, t), u, m) {
      OwnedAfterUpdate(s, t, u, m);
    }
    forall b ensures BlockOwned(Renewed(s, t), b) {
      BlockAfterUpdate(s, t, b);
    }
  }

  lemma UpdateKeeps(s: System, t: nat)
    requires Valid(s) && t in s.threads
    ensures Valid(Do(s, Update(t)))
  {
    var th := s.threads[t];
    UpdatedValid(s.g, th.tp, th.dtv);
    if th.dtv[0].gen == s.g.gen {
      assert s.threads[t := th] == s.threads;
      assert s.blocks - {} == s.blocks;
      assert Do(s, Update(t)) == s;
    } else {
      UpdateKeepsBlocks(s, t);
    }
  }

  lemma AllocateKeeps(s: System, t: nat, m: nat, addr: int)
    requires Valid(s) && t in s.threads && s.threads[t].dtv[0].gen == s.g.gen
    requires Enabled(s, Access(t, m, addr))
    ensures Valid(Do(s, Access(t, m, addr)))
  {
    var th := s.threads[t];
    var s' := Do(s, Access(t, m, addr));
    assert s.blocks - {} == s.blocks;
    if th.dtv[m].value != 0 {
      assert s.threads[t := th] == s.threads;
      assert s' == s;
    } else {
      assert EntryValid(s.g, th.tp, m, th.dtv[m]);
      AllocateKeepsBlocks(s, t, m, addr);
      var dtv := th.dtv[m := Entry(addr + HEADER, false, s.g.modules[m].gen)];
      assert s'.threads == s.threads[t := th.(dtv := dtv)];
      forall k | 1 <= k < |dtv| ensures EntryValid(s.g, th.tp, k, dtv[k]) {
        assert EntryValid(s.g, th.tp, k, th.dtv[k]);
      }
      assert DtvValid(s.g, th.tp, dtv);
    }
  }

  lemma AllocateKeepsBlocks(s: System, t: nat, m: nat, addr: int)
    requires Valid(s) && t in s.threads && s.threads[t].dtv[0].gen == s.g.gen
    requires Enabled(s, Access(t, m, addr)) && s.threads[t].dtv[m].value == 0
    ensures BlocksExact(Do(s, Access(t, m, addr)))
  {
    var s' := Do(s, Access(t, m, addr));
    assert s.blocks - {} == s.blocks;
    assert s'.blocks == s.blocks[addr := (t, m)];
    forall u: nat, k: nat ensures Owns(s', u, k) <==> (u == t && k == m) || Owns(s, u, k) {}
    forall u: nat, k: nat ensures OwnedBlockExact(s', u, k)
    {
      assert OwnedBlockExact(s, u, k);
    }
    forall b ensures BlockOwned(s', b)
    {
      assert BlockOwned(s, b);
    }
  }

  /** An access is an update, if one is due, followed by an access through an up-to-date DTV. */
  lemma AccessSplits(s: System, t: nat, m: nat, addr: int)
    requires Valid(s) && Enabled(s, Access(t, m, addr))
    ensures var s1 := Do(s, Update(t));
            && Valid(s1) && Enabled(s1, Access(t, m, addr))
            && Do(s, Access(t, m, addr)) == Do(s1, Access(t, m, addr))
            && Base(s, t, m, addr) == Base(s1, t, m, addr)
  {
    UpdateKeeps(s, t);
    var s1 := Do(s, Update(t));
    assert Current(s1, t) == Current(s, t) == s1.threads[t].dtv;
    assert Dropped(s.g, s1.threads[t].dtv) == {};
    assert s1.blocks - {} == s1.blocks;
    assert Do(s, Access(t, m, addr)).threads == Do(s1, Access(t, m, addr)).threads;
  }

  lemma StepKeeps(s: System, e: Event)
    requires Valid(s) && Enabled(s, e)
    ensures Valid(Do(s, e))
  {
    var s' := Do(s, e);
    match e
    case Load(isStatic, offset, template, zeroSize) =>
      LoadedValid(s.g, isStatic, offset, template, zeroSize);
      ReindexedThreads(s, s');
    case Unload(m) =>
      UnloadedValid(s.g, m);
      ReindexedThreads(s, s');
    case Start(t, tp) =>
      StartKeeps(s, t, tp);
    case Update(t) =>
      UpdateKeeps(s, t);
    case Access(t, m, addr) =>
      AccessSplits(s, t, m, addr);
      AllocateKeeps(Do(s, Update(t)), t, m, addr);
  }

  lemma StartKeeps(s: System, t: nat, tp: int)
    requires Valid(s) && Enabled(s, Start(t, tp))
    ensures Valid(Do(s, Start(t, tp)))
  {
    var s' := Do(s, Start(t, tp));
    FreshDtvValid(s.g, tp);
    forall u: nat, m: nat ensures Owns(s', u, m) <==> Owns(s, u, m) {
      if u == t && 1 <= m < |s'.threads[t].dtv| {
        assert s'.threads[t].dtv[m] == Initial(s.g, tp, m);
      }
    }
    forall u: nat, m: nat ensures OwnedBlockExact(s', u, m)
    {
      assert OwnedBlockExact(s, u, m);
    }
    forall b ensures BlockOwned(s', b)
    {
      assert BlockOwned(s, b);
    }
  }

  /** Loading and unloading only change the global side. */
  lemma ReindexedThreads(s: System, s': System)
    requires Valid(s) && GlobalValid(s'.g)
    requires s'.threads == s.threads && s'.blocks == s.blocks
    requires s'.g.gen > s.g.gen && s'.g.nextIndex >= s.g.nextIndex && s'.g.staticTotal == s.g.staticTotal
    requires forall m :: m in s'.g.modules && m < s.g.nextIndex ==>
               m in s.g.modules && s.g.modules[m] == s'.g.modules[m]
    ensures Valid(s')
  {
    forall t | t in s'.threads ensures DtvValid(s'.g, s'.threads[t].tp, s'.threads[t].dtv) {
      var th := s.threads[t];
      forall m | 1 <= m < |th.dtv| ensures EntryValid(s'.g, th.tp, m, th.dtv[m]) {
        assert EntryValid(s.g, th.tp, m, th.dtv[m]);
      }
    }
    forall t: nat, m: nat ensures Owns(s', t, m) <==> Owns(s, t, m) {}
    assert BlocksExact(s') by {
      forall t: nat, m: nat ensures OwnedBlockExact(s', t, m)
      {
        assert OwnedBlockExact(s, t, m);
      }
      forall b ensures BlockOwned(s', b)
      {
        assert BlockOwned(s, b);
      }
    }
  }

  lemma {:induction false} RunKeeps(s: System, run: seq<Event>)
    requires Valid(s) && IsRun(s, run)
    ensures Valid(End(s, run))
    decreases |run|
  {
    if run != [] {
      StepKeeps(s, run[0]);
      RunKeeps(Do(s, run[0]), run[1..]);
    }
  }

  /** Startup: generation 1, no module yet, the first index is 1. */
  function Startup(staticTotal: nat): System {
    System(Global(1, 0, 1, staticTotal, map[]), map[], map[])
  }

  /** The indices the loads of a run gave out and its unloads did not give up are those of the live modules. */
  ghost predicate IndicesOf(g: Global, givenUp: set<nat>) {
    && (forall m :: m in g.modules || m in givenUp <==> 1 <= m < g.nextIndex)
    && (forall m :: m in givenUp ==> m !in g.modules)
  }

  function GivenUpBy(e: Event): set<nat> { if e.Unload? then {e.m} else {} }

  ghost function GivenUp(run: seq<Event>): set<nat> {
    if run == [] then {} else GivenUpBy(run[0]) + GivenUp(run[1..])
  }

  lemma {:induction false} GivenUpIs(run: seq<Event>, k: nat)
    ensures k in GivenUp(run) <==> Unload(k) in run
  {
    if run != [] {
      GivenUpIs(run[1..], k);
    }
  }

  lemma {:induction false} IndicesAlong(s: System, run: seq<Event>, givenUp: set<nat>)
    requires Valid(s) && IsRun(s, run) && IndicesOf(s.g, givenUp)
    ensures IndicesOf(End(s, run).g, givenUp + GivenUp(run))
    decreases |run|
  {
    if run == [] {
      assert givenUp + GivenUp(run) == givenUp;
    } else {
      StepKeeps(s, run[0]);
      IndicesStep(s, run[0], givenUp);
      GivenUpFirst(run, givenUp);
      IndicesAlong(Do(s, run[0]), run[1..], givenUp + GivenUpBy(run[0]));
    }
  }

  lemma GivenUpFirst(run: seq<Event>, givenUp: set<nat>)
    requires run != []
    ensures givenUp + GivenUp(run) == givenUp + GivenUpBy(run[0]) + GivenUp(run[1..])
  {
  }

  lemma IndicesStep(s: System, e: Event, givenUp: set<nat>)
    requires Valid(s) && Enabled(s, e) && IndicesOf(s.g, givenUp)
    ensures IndicesOf(Do(s, e).g, givenUp + GivenUpBy(e))
  {
  }

  /** After any run, a new thread's DTV has an element for every loaded module exactly when every index that was
      given up is above the index of every module still loaded. */
  lemma {:induction false} FreshDtvFitsExactly(staticTotal: nat, run: seq<Event>)
    requires IsRun(Startup(staticTotal), run)
    ensures var g := End(Startup(staticTotal), run).g;
            FreshDtvFits(g) <==> forall k: nat, m :: Unload(k) in run && m in g.modules ==> k > m
  {
    RunKeeps(Startup(staticTotal), run);
    IndicesAlong(Startup(staticTotal), run, {});
    var g := End(Startup(staticTotal), run).g;
    var up := {} + GivenUp(run);
    forall k: nat ensures k in up <==> Unload(k) in run {
      GivenUpIs(run, k);
    }
    if FreshDtvFits(g) {
      FittingIsGapless(g);
    } else {
      var m :| m in g.modules && m > g.nDtv;
      if forall k: nat :: 1 <= k <= m ==> k in g.modules {
        ContainsUpTo(g.modules.Keys, m);
      }
    }
  }

  lemma {:induction false} ContainsUpTo(s: set<nat>, n: nat)
    requires forall k: nat :: 1 <= k <= n ==> k in s
    ensures |s| >= n
  {
    if n > 0 {
      ContainsUpTo(s - {n}, n - 1);
    }
  }

  /** Over every run, each live heap block is owned by exactly one entry of one thread's DTV. */
  lemma {:induction false} BlocksNeverLeakOrAlias(staticTotal: nat, run: seq<Event>)
    requires IsRun(Startup(staticTotal), run)
    ensures BlocksExact(End(Startup(staticTotal), run))
  {
    RunKeeps(Startup(staticTotal), run);
  }

  lemma DropsAreOwned(s: System, t: nat, m: nat)
    requires Valid(s) && t in s.threads && Drops(s.g, s.threads[t].dtv, m)
    ensures Owns(s, t, m) && OwnedBlockExact(s, t, m)
    ensures s.threads[t].dtv[m].value - HEADER in Dropped(s.g, s.threads[t].dtv)
  {
    DroppedBlocks(s, t, t, m);
  }

  lemma UpdateKeepsEntries(g: Global, tp: int, dtv: Dtv, m: nat)
    requires DtvValid(g, tp, dtv) && 1 <= m < |dtv| && m in g.modules
    ensures Updated(g, tp, dtv)[m] == dtv[m]
  {
    assert EntryValid(g, tp, m, dtv[m]);
  }

  lemma OwnersDistinct(s: System, t: nat, m: nat, u: nat, k: nat)
    requires Valid(s) && Owns(s, t, m) && Owns(s, u, k) && (t, m) != (u, k)
    ensures s.threads[t].dtv[m].value != s.threads[u].dtv[k].value
  {
    assert OwnedBlockExact(s, t, m) && OwnedBlockExact(s, u, k);
  }

  /** A block an update gives back was live, is no longer, and belonged to a dropped entry. */
  ghost predicate GivenBack(s: System, t: nat, b: int)
    requires t in s.threads
  {
    && b in s.blocks && b !in Do(s, Update(t)).blocks
    && exists m: nat :: Drops(s.g, s.threads[t].dtv, m) && b == s.threads[t].dtv[m].value - HEADER
  }

  /** The block of every dropped entry is given back. */
  ghost predicate DropsAreFreed(s: System, t: nat)
    requires t in s.threads
  {
    forall m: nat :: Drops(s.g, s.threads[t].dtv, m) ==>
      s.threads[t].dtv[m].value - HEADER in Dropped(s.g, s.threads[t].dtv)
  }

  /** Nothing else is given back. */
  ghost predicate FreedAreDrops(s: System, t: nat)
    requires t in s.threads
  {
    forall b :: b in Dropped(s.g, s.threads[t].dtv) ==> GivenBack(s, t, b)
  }

  /** No block is given back for two entries. */
  ghost predicate DropsDisjoint(s: System, t: nat)
    requires t in s.threads
  {
    var dtv := s.threads[t].dtv;
    forall m: nat, k: nat :: Drops(s.g, dtv, m) && Drops(s.g, dtv, k) && m != k ==> dtv[m].value != dtv[k].value
  }

  /** After an update each non-zero non-static entry belongs to a loaded module of equal generation. Of the old
      entries, those of loaded modules and the static ones are unchanged and the others are emptied; a new entry is
      that of a static module or empty. */
  ghost predicate UpdateExact(g: Global, tp: int, dtv: Dtv) {
    var d := Updated(g, tp, dtv);
    && UpToDate(g, d) && d[0].gen == g.gen
    && |d| == (if dtv[0].gen == g.gen || g.nDtv < |dtv| then |dtv| else g.nDtv + 1)
    && (forall m: nat :: 1 <= m < |dtv| ==>
          d[m] == if m in g.modules || dtv[m].isStatic then dtv[m] else dtv[m].(value := 0))
    && (forall m: nat :: |dtv| <= m < |d| ==>
          d[m] == if m in g.modules && g.modules[m].isStatic
                  then Entry(tp + g.modules[m].offset, true, g.modules[m].gen) else Entry(0, false, 0))
  }

  lemma DroppedGivenBack(s: System, t: nat, b: int)
    requires Valid(s) && t in s.threads && b in Dropped(s.g, s.threads[t].dtv)
    ensures GivenBack(s, t, b)
  {
    var dtv := s.threads[t].dtv;
    var m: nat :| 1 <= m < |dtv| && Stale(s.g, m, dtv[m]) && !dtv[m].isStatic && dtv[m].value - HEADER == b;
    assert OwnedBlockExact(s, t, m) && Owns(s, t, m);
    DroppedBlocks(s, t, t, m);
  }

  lemma DropsDistinct(s: System, t: nat, m: nat, k: nat)
    requires Valid(s) && t in s.threads && m != k
    requires Drops(s.g, s.threads[t].dtv, m) && Drops(s.g, s.threads[t].dtv, k)
    ensures s.threads[t].dtv[m].value != s.threads[t].dtv[k].value
  {
    DropsAreOwned(s, t, m);
    DropsAreOwned(s, t, k);
    OwnersDistinct(s, t, m, t, k);
  }

  lemma ValidDropsFreed(s: System, t: nat)
    requires Valid(s) && t in s.threads
    ensures DropsAreFreed(s, t)
  {
    forall m: nat | Drops(s.g, s.threads[t].dtv, m)
      ensures s.threads[t].dtv[m].value - HEADER in Dropped(s.g, s.threads[t].dtv)
    {
      DropsAreOwned(s, t, m);
    }
  }

  lemma ValidFreedDrops(s: System, t: nat)
    requires Valid(s) && t in s.threads
    ensures FreedAreDrops(s, t)
  {
    forall b | b in Dropped(s.g, s.threads[t].dtv) ensures GivenBack(s, t, b) {
      DroppedGivenBack(s, t, b);
    }
  }

  lemma ValidDropsDisjoint(s: System, t: nat)
    requires Valid(s) && t in s.threads
    ensures DropsDisjoint(s, t)
  {
    var dtv := s.threads[t].dtv;
    forall m: nat, k: nat | Drops(s.g, dtv, m) && Drops(s.g, dtv, k) && m != k
      ensures dtv[m].value != dtv[k].value
    {
      DropsDistinct(s, t, m, k);
    }
  }

  lemma ValidUpdateExact(g: Global, tp: int, dtv: Dtv)
    requires GlobalValid(g) && DtvValid(g, tp, dtv)
    ensures UpdateExact(g, tp, dtv)
  {
    UpdatedValid(g, tp, dtv);
    forall m: nat | 1 <= m < |dtv|
      ensures Updated(g, tp, dtv)[m] == if m in g.modules || dtv[m].isStatic then dtv[m] else dtv[m].(value := 0)
    {
      if m in g.modules {
        UpdateKeepsEntries(g, tp, dtv, m);
      }
    }
  }

  /** A new thread's vector needs no update, and has the entry of each loaded module. */
  lemma FreshIsCurrent(g: Global, tp: int, m: nat)
    requires GlobalValid(g) && FreshDtvFits(g)
    ensures Updated(g, tp, FreshDtv(g, tp)) == FreshDtv(g, tp) && |FreshDtv(g, tp)| == g.nDtv + 1
    ensures FreshDtv(g, tp)[0].gen == g.gen
    ensures m in g.modules ==>
              m < |FreshDtv(g, tp)| &&
              var f := g.modules[m];
              FreshDtv(g, tp)[m] == Entry(if f.isStatic then tp + f.offset else 0, f.isStatic, f.gen)
  {
  }

  lemma {:induction false} UpdateIsExact(staticTotal: nat, run: seq<Event>, t: nat)
    requires IsRun(Startup(staticTotal), run) && t in End(Startup(staticTotal), run).threads
    ensures var s := End(Startup(staticTotal), run);
            && UpdateExact(s.g, s.threads[t].tp, s.threads[t].dtv)
            && DropsAreFreed(s, t) && FreedAreDrops(s, t) && DropsDisjoint(s, t)
  {
    RunKeeps(Startup(staticTotal), run);
    var s := End(Startup(staticTotal), run);
    ValidUpdateExact(s.g, s.threads[t].tp, s.threads[t].dtv);
    ValidDropsFreed(s, t);
    ValidFreedDrops(s, t);
    ValidDropsDisjoint(s, t);
  }

  // ----- address stability

  /** From now on this thread finds the block of module m at `base`. */
  ghost predicate Settled(s: System, t: nat, m: nat, base: int) {
    && t in s.threads && m in s.g.modules
    && 1 <= m <= Size(s.threads[t].dtv) && s.threads[t].dtv[m].value == base != 0
  }

  lemma AccessSettles(s: System, t: nat, m: nat, addr: int)
    requires Valid(s) && Enabled(s, Access(t, m, addr))
    ensures Settled(Do(s, Access(t, m, addr)), t, m, Base(s, t, m, addr))
  {
  }

  lemma SettledKept(s: System, e: Event, t: nat, m: nat, base: int)
    requires Valid(s) && Enabled(s, e) && Settled(s, t, m, base) && e != Unload(m)
    ensures Settled(Do(s, e), t, m, base)
  {
    assert EntryValid(s.g, s.threads[t].tp, m, s.threads[t].dtv[m]);
  }

  lemma {:induction false} SettledAlong(s: System, run: seq<Event>, t: nat, m: nat, base: int)
    requires Valid(s) && IsRun(s, run) && Settled(s, t, m, base) && Unload(m) !in run
    ensures Settled(End(s, run), t, m, base)
    decreases |run|
  {
    if run != [] {
      SettledKept(s, run[0], t, m, base);
      StepKeeps(s, run[0]);
      SettledAlong(Do(s, run[0]), run[1..], t, m, base);
    }
  }

  lemma SettledBase(s: System, t: nat, m: nat, base: int, addr: int)
    requires Valid(s) && Settled(s, t, m, base) && Enabled(s, Access(t, m, addr))
    ensures Base(s, t, m, addr) == base
    ensures FastBase(s.g, s.threads[t].dtv, m) == if s.threads[t].dtv[0].gen == s.g.gen then base else 0
  {
    assert EntryValid(s.g, s.threads[t].tp, m, s.threads[t].dtv[m]);
  }

  /** Whatever other threads, loads, unloads of other modules, updates and resizes come in between, a later
      access by the same thread returns the base of the earlier one; the fast path returns that base or
      asks for the slow path. */
  lemma {:induction false} AddressIsStable(staticTotal: nat, before: seq<Event>, between: seq<Event>,
                        t: nat, m: nat, addr1: int, addr2: int)
    requires IsRun(Startup(staticTotal), before)
    requires Enabled(End(Startup(staticTotal), before), Access(t, m, addr1))
    requires IsRun(Do(End(Startup(staticTotal), before), Access(t, m, addr1)), between)
    requires Unload(m) !in between
    requires Enabled(End(Do(End(Startup(staticTotal), before), Access(t, m, addr1)), between), Access(t, m, addr2))
    ensures var s1 := End(Startup(staticTotal), before);
            var s2 := End(Do(s1, Access(t, m, addr1)), between);
            && Base(s2, t, m, addr2) == Base(s1, t, m, addr1)
            && FastBase(s2.g, s2.threads[t].dtv, m) in {0, Base(s1, t, m, addr1)}
  {
    var s1 := End(Startup(staticTotal), before);
    RunKeeps(Startup(staticTotal), before);
    AccessSettles(s1, t, m, addr1);
    StepKeeps(s1, Access(t, m, addr1));
    var s := Do(s1, Access(t, m, addr1));
    RunKeeps(s, between);
    SettledAlong(s, between, t, m, Base(s1, t, m, addr1));
    SettledBase(End(s, between), t, m, Base(s1, t, m, addr1), addr2);
  }

  /** A statically allocated module is always found at its offset from the thread pointer. */
  lemma {:induction false} StaticBase(staticTotal: nat, run: seq<Event>, t: nat, m: nat, addr: int)
    requires IsRun(Startup(staticTotal), run)
    requires Enabled(End(Startup(staticTotal), run), Access(t, m, addr))
    requires End(Startup(staticTotal), run).g.modules[m].isStatic
    ensures var s := End(Startup(staticTotal), run);
            Base(s, t, m, addr) == s.threads[t].tp + s.g.modules[m].offset
  {
    RunKeeps(Startup(staticTotal), run);
    var s := End(Startup(staticTotal), run);
    UpdatedValid(s.g, s.threads[t].tp, s.threads[t].dtv);
    assert EntryValid(s.g, s.threads[t].tp, m, Current(s, t)[m]);
  }

  /** Different threads, and different modules of one thread, never share a lazily allocated block. */
  lemma {:induction false} DistinctBlocks(staticTotal: nat, run: seq<Event>, t: nat, m: nat, u: nat, k: nat)
    requires IsRun(Startup(staticTotal), run) && (t, m) != (u, k)
    requires Owns(End(Startup(staticTotal), run), t, m) && Owns(End(Startup(staticTotal), run), u, k)
    ensures var s := End(Startup(staticTotal), run); s.threads[t].dtv[m].value != s.threads[u].dtv[k].value
  {
    RunKeeps(Startup(staticTotal), run);
    OwnersDistinct(End(Startup(staticTotal), run), t, m, u, k);
  }
}

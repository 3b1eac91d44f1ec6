/** What the TLS runtime writes into the blocks of the modules: their templates, and zeros behind them. */
module TlsImage {
  import opened Common
  import opened TlsRuntime
  import Mem

  type Memory = int -> Byte

  predicate Holds(mem: Memory, a: int, s: seq<Byte>) {
    forall i :: 0 <= i < |s| ==> mem(a + i) == s[i]
  }

  function Put(mem: Memory, a: int, s: seq<Byte>): Memory {
    x => if a <= x < a + |s| then s[x - a] else mem(x)
  }

  function Zeros(n: nat): seq<Byte> { seq(n, _ => 0) }

  /** A number in k bytes, the lowest first. */
  function Bytes(n: nat, k: nat): (r: seq<Byte>)
    ensures |r| == k
  {
    if k == 0 then [] else [n % 0x100] + Bytes(n / 0x100, k - 1)
  }

  /** What the block of a module starts with. */
  function Contents(f: Module): seq<Byte> { f.template + Zeros(f.zeroSize) }

  /** The copy of the template, whose length vdl_memcpy cuts, and the zeros. */
  function Filled(mem: Memory, a: int, f: Module): Memory {
    Put(Put(mem, a, f.template[..Mem.CopyCount(|f.template|)]), a + |f.template|, Zeros(f.zeroSize))
  }

  lemma FilledHolds(mem: Memory, a: int, f: Module)
    requires |f.template| < Mem.TWO_31
    ensures Holds(Filled(mem, a, f), a, Contents(f))
  {
    Mem.CopyIsWholeExactly(|f.template|);
  }

  /** Filling a block touches no other byte. */
  lemma FilledElsewhere(mem: Memory, a: int, f: Module, x: int)
    requires !(a <= x < a + |Contents(f)|)
    ensures Filled(mem, a, f)(x) == mem(x)
  {
  }

  /** The static ones among the files, one after the other. */
  function AllFilled(mem: Memory, files: seq<Module>, tp: int): Memory {
    if files == [] then mem
    else
      var front, last := AllFilled(mem, files[..|files| - 1], tp), files[|files| - 1];
      if last.isStatic then Filled(front, tp + last.offset, last) else front
  }

  lemma AllFilledNext(mem: Memory, files: seq<Module>, f: Module, tp: int)
    ensures AllFilled(mem, files + [f], tp) ==
              if f.isStatic then Filled(AllFilled(mem, files, tp), tp + f.offset, f) else AllFilled(mem, files, tp)
  {
    assert (files + [f])[..|files|] == files;
  }

  predicate Covers(f: Module, tp: int, x: int) {
    f.isStatic && tp + f.offset <= x < tp + f.offset + |Contents(f)|
  }

  /** The static blocks do not overlap, as the static layout guarantees. */
  predicate Apart(files: seq<Module>) {
    forall j, k :: 0 <= j < k < |files| && files[j].isStatic && files[k].isStatic ==> BlocksApart(files[j], files[k])
  }

  predicate BlocksApart(f: Module, g: Module) {
    f.offset + |Contents(f)| <= g.offset || g.offset + |Contents(g)| <= f.offset
  }

  /** Filling static blocks that do not overlap leaves each with its contents. */
  lemma {:induction false} AllFilledHold(mem: Memory, files: seq<Module>, tp: int, i: nat)
    requires Apart(files) && i < |files| && files[i].isStatic && |files[i].template| < Mem.TWO_31
    ensures Holds(AllFilled(mem, files, tp), tp + files[i].offset, Contents(files[i]))
    decreases |files|
  {
    var n := |files| - 1;
    var front, last, f := AllFilled(mem, files[..n], tp), files[n], files[i];
    if i == n {
      FilledHolds(front, tp + last.offset, last);
    } else {
      AllFilledHold(mem, files[..n], tp, i);
      if last.isStatic {
        forall k | 0 <= k < |Contents(f)|
          ensures Filled(front, tp + last.offset, last)(tp + f.offset + k) == Contents(f)[k]
        {
          FilledElsewhere(front, tp + last.offset, last, tp + f.offset + k);
        }
      }
    }
  }

  lemma {:induction false} AllFilledElsewhere(mem: Memory, files: seq<Module>, tp: int, x: int)
    requires forall i :: 0 <= i < |files| ==> !Covers(files[i], tp, x)
    ensures AllFilled(mem, files, tp)(x) == mem(x)
    decreases |files|
  {
    if files != [] {
      AllFilledElsewhere(mem, files[..|files| - 1], tp, x);
      var front, last := AllFilled(mem, files[..|files| - 1], tp), files[|files| - 1];
      if last.isStatic {
        FilledElsewhere(front, tp + last.offset, last, x);
      }
    }
  }

  /** The loaded modules of the indices start `start` up end but not `end`, in order. */
  function Between(g: Global, start: nat, end: nat): seq<Module>
    decreases end
  {
    if end <= start then []
    else Between(g, start, end - 1) + (if end - 1 in g.modules then [g.modules[end - 1]] else [])
  }

  lemma {:induction false} ListedBetween(g: Global, start: nat, end: nat, m: nat) returns (i: nat)
    requires start <= m < end && m in g.modules
    ensures i < |Between(g, start, end)| && Between(g, start, end)[i] == g.modules[m]
    decreases end
  {
    if m == end - 1 {
      i := |Between(g, start, end - 1)|;
    } else {
      i := ListedBetween(g, start, end - 1, m);
    }
  }

  predicate IsBetween(g: Global, f: Module, start: nat, end: nat) {
    start <= f.index < end && f.index in g.modules && g.modules[f.index] == f
  }

  lemma {:induction false} BetweenAre(g: Global, start: nat, end: nat)
    requires GlobalValid(g)
    ensures forall i :: 0 <= i < |Between(g, start, end)| ==> IsBetween(g, Between(g, start, end)[i], start, end)
    ensures forall j, k :: 0 <= j < k < |Between(g, start, end)| ==>
              Between(g, start, end)[j].index < Between(g, start, end)[k].index
    decreases end
  {
    if start < end {
      var files, front := Between(g, start, end), Between(g, start, end - 1);
      BetweenAre(g, start, end - 1);
      assert forall i :: 0 <= i < |files| ==> files[i] == if i < |front| then front[i] else g.modules[end - 1];
      forall i | 0 <= i < |files| ensures IsBetween(g, files[i], start, end) {
        assert i < |front| ==> IsBetween(g, front[i], start, end - 1);
      }
      forall j, k | 0 <= j < k < |files| ensures files[j].index < files[k].index {
        assert IsBetween(g, front[j], start, end - 1);
      }
    }
  }

  /** No two static blocks overlap. */
  predicate StaticApart(g: Global) {
    forall m, n :: m in g.modules && n in g.modules && m < n && g.modules[m].isStatic && g.modules[n].isStatic ==>
      BlocksApart(g.modules[m], g.modules[n])
  }

  lemma BetweenApart(g: Global, start: nat, end: nat)
    requires GlobalValid(g) && StaticApart(g)
    ensures Apart(Between(g, start, end))
  {
    var files := Between(g, start, end);
    BetweenAre(g, start, end);
    forall j, k | 0 <= j < k < |files| && files[j].isStatic && files[k].isStatic
      ensures BlocksApart(files[j], files[k])
    {
      assert IsBetween(g, files[j], start, end) && IsBetween(g, files[k], start, end);
    }
  }

  /** The memory after an update: static modules the vector did not reach before get their contents. */
  function UpdatedMemory(g: Global, tp: int, dtv: Dtv, mem: Memory): Memory {
    if dtv[0].gen == g.gen || g.nDtv <= Size(dtv) then mem else AllFilled(mem, Between(g, |dtv|, g.nDtv + 1), tp)
  }

  /** What reaching module m writes. */
  function ReachedMemory(mem: Memory, g: Global, m: nat, tp: int): Memory {
    if m in g.modules && g.modules[m].isStatic then Filled(mem, tp + g.modules[m].offset, g.modules[m]) else mem
  }

  lemma BetweenNext(mem: Memory, g: Global, start: nat, m: nat, tp: int)
    requires start <= m
    ensures AllFilled(mem, Between(g, start, m + 1), tp)
         == ReachedMemory(AllFilled(mem, Between(g, start, m), tp), g, m, tp)
  {
    if m in g.modules {
      AllFilledNext(mem, Between(g, start, m), g.modules[m], tp);
    } else {
      assert Between(g, start, m + 1) == Between(g, start, m);
    }
  }

  /** The word with the block's size, and the contents. */
  function RoomFor(f: Module): nat { 8 + |f.template| + f.zeroSize }

  /** A newly allocated block: its size, then the contents. */
  function BlockMade(mem: Memory, addr: int, f: Module): Memory {
    Filled(Put(mem, addr, Bytes(RoomFor(f), 8)), addr + HEADER, f)
  }

  /** The live heap blocks after an access. */
  function AccessedLive(g: Global, tp: int, dtv: Dtv, m: nat, addr: int, live: set<int>): set<int>
    requires m in g.modules && InBounds(g, dtv, m)
  {
    live - Dropped(g, dtv) + if Updated(g, tp, dtv)[m].value == 0 then {addr} else {}
  }

  /** The sizes the heap was asked for, after an access. */
  function AccessedSizes(g: Global, tp: int, dtv: Dtv, m: nat, addr: int, sizes: map<int, nat>): map<int, nat>
    requires m in g.modules && InBounds(g, dtv, m)
  {
    if Updated(g, tp, dtv)[m].value == 0 then sizes[addr := RoomFor(g.modules[m])] else sizes
  }

  function AccessedMemory(g: Global, tp: int, dtv: Dtv, m: nat, addr: int, mem: Memory): Memory
    requires m in g.modules && InBounds(g, dtv, m)
  {
    var mem' := UpdatedMemory(g, tp, dtv, mem);
    if Updated(g, tp, dtv)[m].value != 0 then mem' else BlockMade(mem', addr, g.modules[m])
  }

  /** What an access leaves: the block's address, the vector, the heap and the memory. */
  datatype Outcome = Outcome(base: int, dtv: Dtv, live: set<int>, sizes: map<int, nat>, mem: Memory)

  ghost function AfterAccess(g: Global, tp: int, dtv: Dtv, m: nat, addr: int, live: set<int>, sizes: map<int, nat>,
                             mem: Memory): Outcome
    requires m in g.modules && InBounds(g, dtv, m)
  {
    var (base, dtv') := Accessed(g, tp, dtv, m, addr);
    Outcome(base, dtv', AccessedLive(g, tp, dtv, m, addr, live), AccessedSizes(g, tp, dtv, m, addr, sizes),
            AccessedMemory(g, tp, dtv, m, addr, mem))
  }

  /** The access to an up-to-date vector. */
  lemma CurrentAccess(g: Global, tp: int, dtv: Dtv, m: nat, addr: int, live: set<int>, sizes: map<int, nat>,
                      mem: Memory)
    requires m in g.modules && InBounds(g, dtv, m) && dtv[0].gen == g.gen
    ensures AfterAccess(g, tp, dtv, m, addr, live, sizes, mem) ==
              if dtv[m].value != 0 then Outcome(dtv[m].value, dtv, live, sizes, mem)
              else Outcome(addr + HEADER, dtv[m := Entry(addr + HEADER, false, g.modules[m].gen)],
                           live + {addr}, sizes[addr := RoomFor(g.modules[m])], BlockMade(mem, addr, g.modules[m]))
  {
  }

  /** Once updated, the vector needs no update, and the access is the same. */
  lemma UpdatedIsCurrent(g: Global, tp: int, dtv: Dtv, m: nat, addr: int, live: set<int>, sizes: map<int, nat>,
                         mem: Memory)
    requires m in g.modules && InBounds(g, dtv, m)
    ensures var d := Updated(g, tp, dtv);
            && InBounds(g, d, m) && Dropped(g, d) == {}
            && AfterAccess(g, tp, d, m, addr, live - Dropped(g, dtv), sizes, UpdatedMemory(g, tp, dtv, mem))
               == AfterAccess(g, tp, dtv, m, addr, live, sizes, mem)
  {
    var d := Updated(g, tp, dtv);
    assert Updated(g, tp, d) == d && Dropped(g, d) == {};
  }

  /** The live heap blocks are those of the system of threads. */
  lemma LiveIsBlocks(s: System, t: nat, m: nat, addr: int)
    requires TlsRuntime.Enabled(s, Access(t, m, addr))
    ensures AccessedLive(s.g, s.threads[t].tp, s.threads[t].dtv, m, addr, s.blocks.Keys)
         == TlsRuntime.Do(s, Access(t, m, addr)).blocks.Keys
  {
  }

  lemma BlockHolds(mem: Memory, addr: int, f: Module)
    requires |f.template| < Mem.TWO_31
    ensures Holds(BlockMade(mem, addr, f), addr + HEADER, Contents(f))
  {
    FilledHolds(Put(mem, addr, Bytes(RoomFor(f), 8)), addr + HEADER, f);
  }

  lemma BlockElsewhere(mem: Memory, addr: int, f: Module, x: int)
    requires !(addr <= x < addr + HEADER + |Contents(f)|)
    ensures BlockMade(mem, addr, f)(x) == mem(x)
  {
    FilledElsewhere(Put(mem, addr, Bytes(RoomFor(f), 8)), addr + HEADER, f, x);
  }

  lemma NewlyReachedHolds(g: Global, tp: int, start: nat, end: nat, m: nat, mem: Memory)
    requires GlobalValid(g) && StaticApart(g) && start <= m < end
    requires m in g.modules && g.modules[m].isStatic && |g.modules[m].template| < Mem.TWO_31
    ensures Holds(AllFilled(mem, Between(g, start, end), tp), tp + g.modules[m].offset, Contents(g.modules[m]))
  {
    var i := ListedBetween(g, start, end, m);
    BetweenApart(g, start, end);
    AllFilledHold(mem, Between(g, start, end), tp, i);
  }

  /** The thread has no block of the module yet: its vector does not reach it, or the updated entry is empty. */
  predicate FirstTime(g: Global, tp: int, dtv: Dtv, m: nat)
    requires InBounds(g, dtv, m)
  {
    m > Size(dtv) || Updated(g, tp, dtv)[m].value == 0
  }

  /** The first access of a thread to a module finds the template and zeros behind it. */
  lemma FirstAccessFindsContents(g: Global, tp: int, dtv: Dtv, m: nat, addr: int, mem: Memory)
    requires GlobalValid(g) && StaticApart(g) && m in g.modules && InBounds(g, dtv, m) && FirstTime(g, tp, dtv, m)
    requires |g.modules[m].template| < Mem.TWO_31
    ensures Holds(AccessedMemory(g, tp, dtv, m, addr, mem), Accessed(g, tp, dtv, m, addr).0, Contents(g.modules[m]))
  {
    var f := g.modules[m];
    if Updated(g, tp, dtv)[m].value == 0 {
      BlockHolds(UpdatedMemory(g, tp, dtv, mem), addr, f);
    } else {
      assert Updated(g, tp, dtv)[m] == Grown(g, tp, m);
      NewlyReachedHolds(g, tp, |dtv|, g.nDtv + 1, m, mem);
    }
  }

  /** An access writes nothing but the block it makes and static blocks the vector did not reach before. */
  lemma AccessWritesNothingElse(g: Global, tp: int, dtv: Dtv, m: nat, addr: int, mem: Memory, x: int)
    requires GlobalValid(g) && m in g.modules && InBounds(g, dtv, m)
    requires forall n :: n in g.modules && n > Size(dtv) ==> !Covers(g.modules[n], tp, x)
    requires Updated(g, tp, dtv)[m].value == 0 ==> !(addr <= x < addr + HEADER + |Contents(g.modules[m])|)
    ensures AccessedMemory(g, tp, dtv, m, addr, mem)(x) == mem(x)
  {
    var files := Between(g, |dtv|, g.nDtv + 1);
    BetweenAre(g, |dtv|, g.nDtv + 1);
    forall i | 0 <= i < |files| ensures !Covers(files[i], tp, x) {
      assert IsBetween(g, files[i], |dtv|, g.nDtv + 1);
    }
    AllFilledElsewhere(mem, files, tp, x);
    if Updated(g, tp, dtv)[m].value == 0 {
      BlockElsewhere(UpdatedMemory(g, tp, dtv, mem), addr, g.modules[m], x);
    }
  }
}

/** Where in memory the blocks and the static areas of all threads lie, over any run. */
module TlsSpace {
  import opened Common
  import opened TlsRuntime
  import opened TlsImage
  import Mem

  /** A system with the size of every block the heap handed out. */
  datatype World = World(sys: System, sizes: map<int, nat>)

  /** Two byte ranges do not overlap. */
  predicate Apart(a: int, n: nat, b: int, k: nat) { a + n <= b || b + k <= a }

  /** The range lies outside every live block that is not in `gone`. */
  predicate ClearOfBlocks(w: World, gone: set<int>, a: int, n: nat) {
    forall b :: b in w.sys.blocks && b !in gone && b in w.sizes ==> Apart(a, n, b, w.sizes[b])
  }

  /** And outside every thread's static area, which ends at the thread pointer. */
  predicate ClearOfAreas(w: World, a: int, n: nat) {
    forall t :: t in w.sys.threads ==>
      Apart(a, n, w.sys.threads[t].tp - w.sys.g.staticTotal, w.sys.g.staticTotal)
  }

  /** The allocator hands out free memory, and the static layout stays within the static area. */
  predicate Possible(w: World, e: Event) {
    TlsRuntime.Enabled(w.sys, e) &&
    match e
    case Load(isStatic, offset, template, zeroSize) => isStatic ==> offset + |template| + zeroSize <= 0
    case Start(t, tp) =>
      var total := w.sys.g.staticTotal;
      ClearOfBlocks(w, {}, tp - total, total) && ClearOfAreas(w, tp - total, total)
    case Access(t, m, addr) =>
      var f := w.sys.g.modules[m];
      var size := 8 + |f.template| + f.zeroSize;
      ClearOfBlocks(w, Dropped(w.sys.g, w.sys.threads[t].dtv), addr, size) && ClearOfAreas(w, addr, size)
    case _ => true
  }

  function Next(w: World, e: Event): World
    requires Possible(w, e)
  {
    World(TlsRuntime.Do(w.sys, e),
          match e
          case Access(t, m, addr) =>
            AccessedSizes(w.sys.g, w.sys.threads[t].tp, w.sys.threads[t].dtv, m, addr, w.sizes)
          case _ => w.sizes)
  }

  predicate IsRun(w: World, run: seq<Event>)
    decreases |run|
  {
    run != [] ==> Possible(w, run[0]) && IsRun(Next(w, run[0]), run[1..])
  }

  function End(w: World, run: seq<Event>): World
    requires IsRun(w, run)
    decreases |run|
  {
    if run == [] then w else End(Next(w, run[0]), run[1..])
  }

  function Startup(staticTotal: nat): World { World(TlsRuntime.Startup(staticTotal), map[]) }

  // ----- what every run keeps

  predicate Sized(w: World, b: int) { b in w.sys.blocks ==> b in w.sizes && FitsOwner(w, b, w.sys.blocks[b]) }

  /** A block of a loaded module has room for the word in front, the template and the zeros. */
  predicate FitsOwner(w: World, b: int, owner: (nat, nat))
    requires b in w.sizes
  {
    var (t, m) := owner;
    m in w.sys.g.modules ==>
      w.sizes[b] == 8 + |w.sys.g.modules[m].template| + w.sys.g.modules[m].zeroSize
  }

  predicate BlockPair(w: World, a: int, b: int) {
    a in w.sys.blocks && b in w.sys.blocks && a in w.sizes && b in w.sizes && a != b ==>
      Apart(a, w.sizes[a], b, w.sizes[b])
  }

  predicate BlockAndArea(w: World, b: int, t: nat) {
    b in w.sys.blocks && b in w.sizes && t in w.sys.threads ==>
      Apart(b, w.sizes[b], w.sys.threads[t].tp - w.sys.g.staticTotal, w.sys.g.staticTotal)
  }

  predicate AreaPair(w: World, t: nat, u: nat) {
    t in w.sys.threads && u in w.sys.threads && t != u ==>
      Apart(w.sys.threads[t].tp - w.sys.g.staticTotal, w.sys.g.staticTotal,
            w.sys.threads[u].tp - w.sys.g.staticTotal, w.sys.g.staticTotal)
  }

  /** A static block ends at or below the thread pointer. */
  predicate StaticInside(g: Global, m: nat) {
    m in g.modules && g.modules[m].isStatic ==>
      g.modules[m].offset + |g.modules[m].template| + g.modules[m].zeroSize <= 0
  }

  ghost predicate Laid(w: World) {
    && TlsRuntime.Valid(w.sys)
    && (forall b :: Sized(w, b)) && (forall a, b :: BlockPair(w, a, b))
    && (forall b, t: nat :: BlockAndArea(w, b, t)) && (forall t: nat, u: nat :: AreaPair(w, t, u))
    && (forall m: nat :: StaticInside(w.sys.g, m))
  }

  /** Only an access adds a block, at the address it was given, and then its size is known. */
  lemma BlocksNext(w: World, e: Event, b: int)
    requires Possible(w, e) && b in Next(w, e).sys.blocks
    ensures b in w.sys.blocks || (e.Access? && b == e.addr)
    ensures e.Access? && b == e.addr ==>
              && b in Next(w, e).sizes && Next(w, e).sys.blocks[b] == (e.t, e.m)
              && var f := w.sys.g.modules[e.m]; Next(w, e).sizes[b] == 8 + |f.template| + f.zeroSize
    ensures !(e.Access? && b == e.addr) ==>
              && Next(w, e).sys.blocks[b] == w.sys.blocks[b]
              && (b in w.sizes ==> b in Next(w, e).sizes && Next(w, e).sizes[b] == w.sizes[b])
    ensures e.Access? ==> b == e.addr || b !in Dropped(w.sys.g, w.sys.threads[e.t].dtv)
  {
  }

  lemma ThreadsNext(w: World, e: Event, t: nat)
    requires Possible(w, e) && t in Next(w, e).sys.threads
    ensures Next(w, e).sys.g.staticTotal == w.sys.g.staticTotal
    ensures if e.Start? && t == e.t then Next(w, e).sys.threads[t].tp == e.tp
            else t in w.sys.threads && Next(w, e).sys.threads[t].tp == w.sys.threads[t].tp
  {
  }

  lemma SizedNext(w: World, e: Event, b: int)
    requires Laid(w) && Possible(w, e)
    ensures Sized(Next(w, e), b)
  {
    if b in Next(w, e).sys.blocks {
      BlocksNext(w, e, b);
      if b in w.sys.blocks {
        assert Sized(w, b) && BlockOwned(w.sys, b);
      }
    }
  }

  lemma BlockPairNext(w: World, e: Event, a: int, b: int)
    requires Laid(w) && Possible(w, e)
    ensures BlockPair(Next(w, e), a, b)
  {
    if a in Next(w, e).sys.blocks && b in Next(w, e).sys.blocks && a != b {
      BlocksNext(w, e, a);
      BlocksNext(w, e, b);
      assert Sized(w, a) && Sized(w, b) && BlockPair(w, a, b);
    }
  }

  lemma BlockAndAreaNext(w: World, e: Event, b: int, t: nat)
    requires Laid(w) && Possible(w, e)
    ensures BlockAndArea(Next(w, e), b, t)
  {
    if b in Next(w, e).sys.blocks && t in Next(w, e).sys.threads {
      BlocksNext(w, e, b);
      ThreadsNext(w, e, t);
      assert Sized(w, b) && BlockAndArea(w, b, t);
    }
  }

  lemma AreaPairNext(w: World, e: Event, t: nat, u: nat)
    requires Laid(w) && Possible(w, e)
    ensures AreaPair(Next(w, e), t, u)
  {
    if t in Next(w, e).sys.threads && u in Next(w, e).sys.threads && t != u {
      ThreadsNext(w, e, t);
      ThreadsNext(w, e, u);
      assert AreaPair(w, t, u);
    }
  }

  lemma LaidNext(w: World, e: Event)
    requires Laid(w) && Possible(w, e)
    ensures Laid(Next(w, e))
  {
    var w' := Next(w, e);
    StepKeeps(w.sys, e);
    forall b ensures Sized(w', b) {
      SizedNext(w, e, b);
    }
    forall a, b ensures BlockPair(w', a, b) {
      BlockPairNext(w, e, a, b);
    }
    forall b, t: nat ensures BlockAndArea(w', b, t) {
      BlockAndAreaNext(w, e, b, t);
    }
    forall t: nat, u: nat ensures AreaPair(w', t, u) {
      AreaPairNext(w, e, t, u);
    }
    forall m: nat ensures StaticInside(w'.sys.g, m) {
      assert StaticInside(w.sys.g, m);
    }
  }

  lemma {:induction false} LaidAlong(w: World, run: seq<Event>)
    requires Laid(w) && IsRun(w, run)
    ensures Laid(End(w, run))
    decreases |run|
  {
    if run != [] {
      LaidNext(w, run[0]);
      LaidAlong(Next(w, run[0]), run[1..]);
    }
  }

  /** Over every run the live blocks of all threads have room for what is put into them, and neither they nor the
      static areas of the threads overlap. */
  lemma {:induction false} NothingOverlaps(staticTotal: nat, run: seq<Event>)
    requires IsRun(Startup(staticTotal), run)
    ensures Laid(End(Startup(staticTotal), run))
  {
    LaidAlong(Startup(staticTotal), run);
  }

  // ----- what an access writes

  /** A byte that an access changes lies in the block it makes or in the static area of its thread. */
  lemma ChangesInside(w: World, t: nat, m: nat, addr: int, mem: Memory, x: int)
    requires Laid(w) && Possible(w, Access(t, m, addr))
    ensures var w' := Next(w, Access(t, m, addr));
            AccessedMemory(w.sys.g, w.sys.threads[t].tp, w.sys.threads[t].dtv, m, addr, mem)(x) != mem(x) ==>
              || (addr in w'.sys.blocks && w'.sys.blocks[addr] == (t, m) && addr <= x < addr + w'.sizes[addr])
              || w.sys.threads[t].tp - w.sys.g.staticTotal <= x < w.sys.threads[t].tp
  {
    var g, tp, dtv := w.sys.g, w.sys.threads[t].tp, w.sys.threads[t].dtv;
    if !(tp - g.staticTotal <= x < tp) {
      forall n | n in g.modules ensures !Covers(g.modules[n], tp, x) {
        assert StaticInside(g, n);
      }
      if Updated(g, tp, dtv)[m].value != 0 || !(addr <= x < addr + 8 + |Contents(g.modules[m])|) {
        AccessWritesNothingElse(g, tp, dtv, m, addr, mem, x);
      }
    }
  }

  /** So no access touches a byte of another live block, */
  lemma OtherBlockUntouched(w: World, t: nat, m: nat, addr: int, mem: Memory, b: int, x: int)
    requires Laid(w) && Possible(w, Access(t, m, addr))
    requires b in w.sys.blocks && b in Next(w, Access(t, m, addr)).sys.blocks && b in w.sizes && b <= x < b + w.sizes[b]
    requires b != addr
    ensures AccessedMemory(w.sys.g, w.sys.threads[t].tp, w.sys.threads[t].dtv, m, addr, mem)(x) == mem(x)
  {
    ChangesInside(w, t, m, addr, mem, x);
    LaidNext(w, Access(t, m, addr));
    BlocksNext(w, Access(t, m, addr), b);
    assert BlockAndArea(w, b, t) && BlockPair(Next(w, Access(t, m, addr)), addr, b);
  }

  /** nor of another thread's static area. */
  lemma OtherAreaUntouched(w: World, t: nat, m: nat, addr: int, mem: Memory, u: nat, x: int)
    requires Laid(w) && Possible(w, Access(t, m, addr)) && u in w.sys.threads && u != t
    requires w.sys.threads[u].tp - w.sys.g.staticTotal <= x < w.sys.threads[u].tp
    ensures AccessedMemory(w.sys.g, w.sys.threads[t].tp, w.sys.threads[t].dtv, m, addr, mem)(x) == mem(x)
  {
    ChangesInside(w, t, m, addr, mem, x);
    LaidNext(w, Access(t, m, addr));
    ThreadsNext(w, Access(t, m, addr), u);
    assert AreaPair(w, t, u) && BlockAndArea(Next(w, Access(t, m, addr)), addr, u);
  }

  /** After any run, whatever an access changes lies in the block it makes or in the static area of its thread. */
  lemma {:induction false} AccessStaysInside(staticTotal: nat, run: seq<Event>, t: nat, m: nat, addr: int, mem: Memory,
                                             x: int)
    requires IsRun(Startup(staticTotal), run) && Possible(End(Startup(staticTotal), run), Access(t, m, addr))
    ensures var w := End(Startup(staticTotal), run);
            var w' := Next(w, Access(t, m, addr));
            AccessedMemory(w.sys.g, w.sys.threads[t].tp, w.sys.threads[t].dtv, m, addr, mem)(x) != mem(x) ==>
              || (addr in w'.sys.blocks && w'.sys.blocks[addr] == (t, m) && addr <= x < addr + w'.sizes[addr])
              || w.sys.threads[t].tp - w.sys.g.staticTotal <= x < w.sys.threads[t].tp
  {
    NothingOverlaps(staticTotal, run);
    ChangesInside(End(Startup(staticTotal), run), t, m, addr, mem, x);
  }

  // ----- the word in front

  /** The number in a row of bytes, the lowest first. */
  function Number(s: seq<Byte>): nat {
    if s == [] then 0 else s[0] + 0x100 * Number(s[1..])
  }

  function PowerOf256(k: nat): nat {
    if k == 0 then 1 else 0x100 * PowerOf256(k - 1)
  }

  /** Bytes read back as the number they were made from, when it fits. */
  lemma {:induction false} BytesReadBack(n: nat, k: nat)
    requires n < PowerOf256(k)
    ensures Number(Bytes(n, k)) == n
  {
    if k > 0 {
      BytesReadBack(n / 0x100, k - 1);
      assert Bytes(n, k)[1..] == Bytes(n / 0x100, k - 1);
    }
  }

  /** The eight bytes at an address. */
  function WordAt(mem: Memory, a: int): nat {
    Number([mem(a), mem(a + 1), mem(a + 2), mem(a + 3), mem(a + 4), mem(a + 5), mem(a + 6), mem(a + 7)])
  }

  lemma WordReadsBack(mem: Memory, addr: int, n: nat)
    requires Holds(mem, addr, Bytes(n, 8)) && n < 0x1_0000_0000_0000_0000
    ensures WordAt(mem, addr) == n
  {
    var s := [mem(addr), mem(addr + 1), mem(addr + 2), mem(addr + 3),
              mem(addr + 4), mem(addr + 5), mem(addr + 6), mem(addr + 7)];
    assert mem(addr + 0) == Bytes(n, 8)[0];
    assert s == Bytes(n, 8);
    PowerOf256To8();
    BytesReadBack(n, 8);
  }

  lemma PowerOf256To8()
    ensures PowerOf256(8) == 0x1_0000_0000_0000_0000
  {
    assert PowerOf256(4) == 0x1_0000_0000;
  }

  lemma WordHolds(mem: Memory, addr: int, f: Module)
    ensures Holds(BlockMade(mem, addr, f), addr, Bytes(RoomFor(f), 8))
  {
    var word := Put(mem, addr, Bytes(RoomFor(f), 8));
    forall i | 0 <= i < 8 ensures BlockMade(mem, addr, f)(addr + i) == Bytes(RoomFor(f), 8)[i] {
      FilledElsewhere(word, addr + 8, f, addr + i);
    }
  }

  /** The block an access makes: its size, the address returned, and the word in front, which reads back as the size. */
  lemma NewBlockIs(w: World, t: nat, m: nat, addr: int, mem: Memory)
    requires Laid(w) && Possible(w, Access(t, m, addr)) && Current(w.sys, t)[m].value == 0
    ensures var f := w.sys.g.modules[m];
            var size := 8 + |f.template| + f.zeroSize;
            var w' := Next(w, Access(t, m, addr));
            var mem' := AccessedMemory(w.sys.g, w.sys.threads[t].tp, w.sys.threads[t].dtv, m, addr, mem);
            && addr in w'.sys.blocks && addr in w'.sizes && w'.sizes[addr] == size
            && Base(w.sys, t, m, addr) == addr + 8
            && (size < 0x1_0000_0000_0000_0000 ==> WordAt(mem', addr) == size)
  {
    var f := w.sys.g.modules[m];
    var mem1 := UpdatedMemory(w.sys.g, w.sys.threads[t].tp, w.sys.threads[t].dtv, mem);
    WordHolds(mem1, addr, f);
    if RoomFor(f) < 0x1_0000_0000_0000_0000 {
      WordReadsBack(BlockMade(mem1, addr, f), addr, RoomFor(f));
    }
  }

  /** The first time, the access finds the bytes of the template and then zeros. */
  lemma FirstAccessFindsBytes(w: World, t: nat, m: nat, addr: int, mem: Memory, i: nat)
    requires Laid(w) && Possible(w, Access(t, m, addr)) && StaticApart(w.sys.g)
    requires FirstTime(w.sys.g, w.sys.threads[t].tp, w.sys.threads[t].dtv, m)
    requires |w.sys.g.modules[m].template| < Mem.TWO_31
    ensures var f := w.sys.g.modules[m];
            var mem' := AccessedMemory(w.sys.g, w.sys.threads[t].tp, w.sys.threads[t].dtv, m, addr, mem);
            && (i < |f.template| ==> mem'(Base(w.sys, t, m, addr) + i) == f.template[i])
            && (|f.template| <= i < |f.template| + f.zeroSize ==> mem'(Base(w.sys, t, m, addr) + i) == 0)
  {
    var f := w.sys.g.modules[m];
    FirstAccessFindsContents(w.sys.g, w.sys.threads[t].tp, w.sys.threads[t].dtv, m, addr, mem);
    assert i < |Contents(f)| ==> Contents(f)[i] == if i < |f.template| then f.template[i] else 0;
  }
}

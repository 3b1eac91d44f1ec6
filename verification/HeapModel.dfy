/** The loader's heap: mmap chunks cut by a bump pointer, power-of-two free lists, and large blocks that
    are never given back.  Addresses are integers; sizes are those of x86-64. */
module HeapModel {
  import opened Seqs
  import opened Align

  const PAGE: nat := 4096
  const HEADER: nat := 8          // sizeof (unsigned long), in front of every user block
  const CHUNK_STRUCT: nat := 24   // sizeof (struct AllocMmapChunk)
  const DEFAULT_MMAP: nat := 0x8000
  const N_BUCKETS: nat := 32
  const WORD_LIMIT: nat := 0x1_0000_0000

  // ----- sizes

  /** round_to always adds at least one byte. */
  function RoundTo(v: nat, to: nat): nat
    requires to >= 1
  {
    v + (to - v % to)
  }

  /** The next multiple above v, at most `to` away. */
  lemma RoundToIs(v: nat, to: nat)
    requires to >= 1
    ensures RoundTo(v, to) % to == 0 && v < RoundTo(v, to) <= v + to
    ensures ChunkOverhead() == 32
  {
    DivModUnique(v, to, v / to, v % to);
    DivModUnique(RoundTo(v, to), to, v / to + 1, 0);
  }

  function ChunkOverhead(): nat { RoundTo(CHUNK_STRUCT, 16) }

  function BucketSize(bucket: nat): nat {
    if bucket == 0 then 8 else 2 * BucketSize(bucket - 1)
  }

  /** How often n is halved before it is at most 7. */
  function Halvings(n: nat): nat {
    if n <= 7 then 0 else 1 + Halvings(n / 2)
  }

  function Bucket(size: nat): nat
    requires size >= 1
  {
    Halvings(size - 1)
  }

  predicate Small(size: nat) { size < DEFAULT_MMAP - ChunkOverhead() }

  lemma {:induction false} HalvingsBracket(n: nat)
    ensures n < BucketSize(Halvings(n))
    ensures Halvings(n) > 0 ==> BucketSize(Halvings(n) - 1) <= n
  {
    if n > 7 {
      HalvingsBracket(n / 2);
    }
  }

  lemma {:induction false} BucketSizeMonotone(a: nat, b: nat)
    requires a <= b
    ensures BucketSize(a) <= BucketSize(b)
  {
    if a < b {
      BucketSizeMonotone(a, b - 1);
    }
  }

  /** The bucket of a size is the smallest one whose blocks hold it, and a small size has one of the first
      13, so its block fits into a chunk of the default size. */
  lemma BucketIsTight(size: nat)
    requires size >= 1
    ensures size <= BucketSize(Bucket(size))
    ensures forall b: nat :: size <= BucketSize(b) ==> Bucket(size) <= b
    ensures Small(size) ==> Bucket(size) <= 12 && BucketSize(Bucket(size)) <= DEFAULT_MMAP
  {
    HalvingsBracket(size - 1);
    forall b: nat | size <= BucketSize(b) ensures Bucket(size) <= b {
      if b < Bucket(size) {
        BucketSizeMonotone(b, Bucket(size) - 1);
      }
    }
    assert BucketSize(3) == 64 && BucketSize(6) == 512 && BucketSize(9) == 4096 && BucketSize(12) == 0x8000;
    if Small(size) {
      BucketSizeMonotone(Bucket(size), 12);
    }
  }

  // ----- chunks and the blocks they are cut into

  datatype Chunk = Chunk(buffer: int, size: nat, brk: nat)

  datatype Block = Block(addr: int, size: nat)

  /** Handed out for a request (header included), on a free list, or given back but too large for one. */
  datatype Status = Live(request: nat) | Free(bucket: nat) | Leaked

  /** Chunks in list order, the blocks each has been cut into, what each block is, and the free lists. */
  datatype Heap = Heap(chunks: seq<Chunk>, tiles: seq<seq<Block>>, status: map<int, Status>, free: seq<seq<int>>)

  /** The blocks lie end to end from `from` to `to`. */
  ghost predicate Tiled(from: int, tiles: seq<Block>, to: int) {
    if tiles == [] then from == to
    else
      var last := tiles[|tiles| - 1];
      last.size > 0 && last.addr + last.size == to && Tiled(from, tiles[..|tiles| - 1], last.addr)
  }

  predicate ChunkValid(c: Chunk) {
    c.buffer > 0 && ChunkOverhead() <= c.brk <= c.size
  }

  predicate ChunksApart(c: Chunk, d: Chunk) {
    c.buffer + c.size <= d.buffer || d.buffer + d.size <= c.buffer
  }

  predicate Fits(size: nat, st: Status) {
    match st
    case Live(r) => r >= HEADER && size == (if Small(r) then BucketSize(Bucket(r)) else r)
    case Free(b) => b < N_BUCKETS && size == BucketSize(b)
    case Leaked => true
  }

  ghost predicate ChunkCut(h: Heap, i: nat)
    requires |h.tiles| == |h.chunks| && i < |h.chunks|
  {
    && ChunkValid(h.chunks[i])
    && Tiled(h.chunks[i].buffer + ChunkOverhead(), h.tiles[i], h.chunks[i].buffer + h.chunks[i].brk)
    && forall k :: 0 <= k < |h.tiles[i]| ==>
         h.tiles[i][k].addr in h.status && Fits(h.tiles[i][k].size, h.status[h.tiles[i][k].addr])
  }

  ghost predicate IsBlock(h: Heap, a: int, size: nat) {
    exists i, k :: 0 <= i < |h.tiles| && 0 <= k < |h.tiles[i]| && h.tiles[i][k] == Block(a, size)
  }

  ghost predicate FreeListValid(h: Heap, b: nat)
    requires b < |h.free|
  {
    && Distinct(h.free[b])
    && (forall a :: a in h.free[b] ==> a in h.status && h.status[a] == Free(b))
    && (forall a :: a in h.status && h.status[a] == Free(b) ==> a in h.free[b])
  }

  /** Each chunk below its brk is its header and then blocks end to end; every block is exactly one of
      live, free and leaked, of the size that goes with it; and nothing else is. */
  ghost predicate Valid(h: Heap) {
    && |h.tiles| == |h.chunks| && |h.free| == N_BUCKETS
    && (forall i :: 0 <= i < |h.chunks| ==> ChunkCut(h, i))
    && (forall i, j :: 0 <= i < j < |h.chunks| ==> ChunksApart(h.chunks[i], h.chunks[j]))
    && (forall a :: a in h.status ==> exists size :: IsBlock(h, a, size))
    && (forall b :: 0 <= b < N_BUCKETS ==> FreeListValid(h, b))
  }

  lemma {:induction false} TileWithin(from: int, tiles: seq<Block>, to: int, k: nat)
    requires Tiled(from, tiles, to) && k < |tiles|
    ensures tiles[k].size > 0 && from <= tiles[k].addr && tiles[k].addr + tiles[k].size <= to
    decreases |tiles|
  {
    var last := tiles[|tiles| - 1];
    TiledForward(from, tiles[..|tiles| - 1], last.addr);
    if k < |tiles| - 1 {
      TileWithin(from, tiles[..|tiles| - 1], last.addr, k);
    }
  }

  lemma {:induction false} TiledForward(from: int, tiles: seq<Block>, to: int)
    requires Tiled(from, tiles, to)
    ensures from <= to
    decreases |tiles|
  {
    if tiles != [] {
      TiledForward(from, tiles[..|tiles| - 1], tiles[|tiles| - 1].addr);
    }
  }

  lemma {:induction false} TilesInOrder(from: int, tiles: seq<Block>, to: int, k: nat, l: nat)
    requires Tiled(from, tiles, to) && k < l < |tiles|
    ensures tiles[k].addr + tiles[k].size <= tiles[l].addr
    decreases |tiles|
  {
    var last := |tiles| - 1;
    if l == last {
      TileWithin(from, tiles[..last], tiles[last].addr, k);
    } else {
      TilesInOrder(from, tiles[..last], tiles[last].addr, k, l);
    }
  }

  predicate BlocksApart(a: Block, b: Block) { a.addr + a.size <= b.addr || b.addr + b.size <= a.addr }

  /** Two blocks of the heap overlap only if they are the same block. */
  lemma BlocksDisjoint(h: Heap, i: nat, k: nat, j: nat, l: nat)
    requires Valid(h) && i < |h.tiles| && k < |h.tiles[i]| && j < |h.tiles| && l < |h.tiles[j]|
    ensures h.tiles[i][k].size > 0
    ensures (i, k) != (j, l) ==> BlocksApart(h.tiles[i][k], h.tiles[j][l])
  {
    assert ChunkCut(h, i) && ChunkCut(h, j);
    var c, d := h.chunks[i], h.chunks[j];
    TileWithin(c.buffer + ChunkOverhead(), h.tiles[i], c.buffer + c.brk, k);
    TileWithin(d.buffer + ChunkOverhead(), h.tiles[j], d.buffer + d.brk, l);
    if i == j {
      if k < l {
        TilesInOrder(c.buffer + ChunkOverhead(), h.tiles[i], c.buffer + c.brk, k, l);
      } else if l < k {
        TilesInOrder(c.buffer + ChunkOverhead(), h.tiles[i], c.buffer + c.brk, l, k);
      }
    } else {
      assert if i < j then ChunksApart(c, d) else ChunksApart(d, c);
    }
  }

  lemma BlockAt(h: Heap, a: int) returns (i: nat, k: nat)
    requires Valid(h) && a in h.status
    ensures i < |h.tiles| && k < |h.tiles[i]| && h.tiles[i][k].addr == a
    ensures h.tiles[i][k].size > 0 && Fits(h.tiles[i][k].size, h.status[a])
    ensures IsBlock(h, a, h.tiles[i][k].size)
  {
    var size :| IsBlock(h, a, size);
    i, k :| 0 <= i < |h.tiles| && 0 <= k < |h.tiles[i]| && h.tiles[i][k] == Block(a, size);
    assert ChunkCut(h, i);
    BlocksDisjoint(h, i, k, i, k);
  }

  lemma BlockIsPositive(h: Heap, a: int)
    requires Valid(h) && a in h.status
    ensures a > 0
  {
    var i, k := BlockAt(h, a);
    assert ChunkCut(h, i);
    var c := h.chunks[i];
    TileWithin(c.buffer + ChunkOverhead(), h.tiles[i], c.buffer + c.brk, k);
  }

  // ----- what the operations compute

  predicate Room(c: Chunk, needed: nat) { c.size - c.brk >= needed }

  /** alloc_chunk: the mapping goes to the front of the list. */
  function WithChunk(h: Heap, map_: int, size: nat): Heap {
    h.(chunks := [Chunk(map_, RoundTo(size, PAGE), ChunkOverhead())] + h.chunks, tiles := [[]] + h.tiles)
  }

  /** The mapping is whole pages with room for what was asked for, and nothing of it but the header is used. */
  lemma WithChunkIs(h: Heap, map_: int, size: nat)
    ensures var c := WithChunk(h, map_, size).chunks[0];
            c.buffer == map_ && c.brk == 32 && c.size % 4096 == 0 && size < c.size <= size + 4096
    ensures WithChunk(h, map_, size).chunks[1..] == h.chunks
  {
    RoundToIs(size, PAGE);
  }

  /** The kernel's choice of address: a region that overlaps no chunk. */
  predicate Mappable(h: Heap, map_: int, size: nat) {
    map_ > 0 && forall i :: 0 <= i < |h.chunks| ==> ChunksApart(Chunk(map_, RoundTo(size, PAGE), 0), h.chunks[i])
  }

  /** The index of the first chunk with room, or the number of chunks. */
  function FirstFit(chunks: seq<Chunk>, needed: nat): (i: nat)
    ensures i <= |chunks| && (i < |chunks| ==> Room(chunks[i], needed))
    ensures forall j :: 0 <= j < i ==> !Room(chunks[j], needed)
  {
    if chunks == [] then 0
    else if Room(chunks[0], needed) then 0
    else 1 + FirstFit(chunks[1..], needed)
  }

  /** Cut a block for `request` off chunk i. */
  function Cut(h: Heap, i: nat, needed: nat, request: nat): Heap
    requires i < |h.chunks| && |h.tiles| == |h.chunks|
  {
    var c := h.chunks[i];
    var a := c.buffer + c.brk;
    h.(chunks := h.chunks[i := c.(brk := c.brk + needed)],
       tiles := h.tiles[i := h.tiles[i] + [Block(a, needed)]],
       status := h.status[a := Live(request)])
  }

  lemma BrkIsNoBlock(h: Heap, i: nat)
    requires Valid(h) && i < |h.chunks| && h.chunks[i].brk < h.chunks[i].size
    ensures h.chunks[i].buffer + h.chunks[i].brk !in h.status
  {
    var c := h.chunks[i];
    assert ChunkCut(h, i);
    forall a | a in h.status ensures a != c.buffer + c.brk {
      var j, l := BlockAt(h, a);
      assert ChunkCut(h, j);
      TileWithin(h.chunks[j].buffer + ChunkOverhead(), h.tiles[j], h.chunks[j].buffer + h.chunks[j].brk, l);
      assert i == j || (if i < j then ChunksApart(c, h.chunks[j]) else ChunksApart(h.chunks[j], c));
    }
  }

  lemma CutValid(h: Heap, i: nat, needed: nat, request: nat)
    requires Valid(h) && i < |h.chunks| && Room(h.chunks[i], needed)
    requires needed > 0 && Fits(needed, Live(request))
    ensures Valid(Cut(h, i, needed, request)) && h.chunks[i].buffer + h.chunks[i].brk !in h.status
  {
    assert ChunkCut(h, i);
    BrkIsNoBlock(h, i);
    CutChunks(h, i, needed, request);
    CutRest(h, i, needed, request);
  }

  lemma CutChunks(h: Heap, i: nat, needed: nat, request: nat)
    requires Valid(h) && i < |h.chunks| && Room(h.chunks[i], needed)
    requires needed > 0 && Fits(needed, Live(request)) && h.chunks[i].buffer + h.chunks[i].brk !in h.status
    ensures var h' := Cut(h, i, needed, request); forall j :: 0 <= j < |h'.chunks| ==> ChunkCut(h', j)
  {
    var h' := Cut(h, i, needed, request);
    forall j | 0 <= j < |h'.chunks| ensures ChunkCut(h', j) {
      assert ChunkCut(h, j);
      if j == i {
        assert h'.tiles[i][..|h'.tiles[i]| - 1] == h.tiles[i];
      }
    }
  }

  lemma CutRest(h: Heap, i: nat, needed: nat, request: nat)
    requires Valid(h) && i < |h.chunks| && Room(h.chunks[i], needed)
    requires needed > 0 && h.chunks[i].buffer + h.chunks[i].brk !in h.status
    ensures var h' := Cut(h, i, needed, request);
            && (forall j, l :: 0 <= j < l < |h'.chunks| ==> ChunksApart(h'.chunks[j], h'.chunks[l]))
            && (forall a :: a in h'.status ==> exists size :: IsBlock(h', a, size))
            && (forall b :: 0 <= b < N_BUCKETS ==> FreeListValid(h', b))
  {
    var h' := Cut(h, i, needed, request);
    forall a | a in h'.status ensures exists size :: IsBlock(h', a, size) {
      if a in h.status {
        var j, l := BlockAt(h, a);
        assert h'.tiles[j][l] == h.tiles[j][l];
        assert IsBlock(h', a, h.tiles[j][l].size);
      } else {
        assert h'.tiles[i][|h.tiles[i]|] == Block(a, needed);
        assert IsBlock(h', a, needed);
      }
    }
    forall b | 0 <= b < N_BUCKETS ensures FreeListValid(h', b) {
      assert FreeListValid(h, b);
    }
  }

  lemma WithChunkValid(h: Heap, map_: int, size: nat)
    requires Valid(h) && Mappable(h, map_, size) && size >= ChunkOverhead()
    ensures Valid(WithChunk(h, map_, size))
    ensures WithChunk(h, map_, size).chunks[0].size - ChunkOverhead() > size - ChunkOverhead()
  {
    var h' := WithChunk(h, map_, size);
    forall j | 0 <= j < |h'.chunks| ensures ChunkCut(h', j) {
      assert j > 0 ==> ChunkCut(h, j - 1);
    }
    forall j, l | 0 <= j < l < |h'.chunks| ensures ChunksApart(h'.chunks[j], h'.chunks[l]) {
      assert h'.chunks[l] == h.chunks[l - 1];
      if j == 0 {
        assert ChunksApart(Chunk(map_, RoundTo(size, PAGE), 0), h.chunks[l - 1]);
      } else {
        assert ChunksApart(h.chunks[j - 1], h.chunks[l - 1]);
      }
    }
    forall a | a in h'.status ensures exists n :: IsBlock(h', a, n) {
      var j, l := BlockAt(h, a);
      assert h'.tiles[j + 1][l] == h.tiles[j][l];
      assert IsBlock(h', a, h.tiles[j][l].size);
    }
    forall b | 0 <= b < N_BUCKETS ensures FreeListValid(h', b) {
      assert FreeListValid(h, b);
    }
  }

  /** alloc_brk: the first chunk with room, or a new one of the default size. */
  function Brk(h: Heap, needed: nat, request: nat, map_: int): (r: (Heap, int))
    requires |h.tiles| == |h.chunks| && needed <= DEFAULT_MMAP
  {
    var i := FirstFit(h.chunks, needed);
    if i < |h.chunks| then (Cut(h, i, needed, request), h.chunks[i].buffer + h.chunks[i].brk)
    else (Cut(WithChunk(h, map_, DEFAULT_MMAP), 0, needed, request), map_ + ChunkOverhead())
  }

  /** A chunk is added only when no chunk has room; otherwise the block is cut off the first that has. */
  lemma MapsOnlyWhenFull(h: Heap, needed: nat, request: nat, map_: int)
    requires |h.tiles| == |h.chunks| && needed <= DEFAULT_MMAP
    ensures var (h', a) := Brk(h, needed, request, map_);
            && (|h'.chunks| == |h.chunks| + 1 <==> forall i :: 0 <= i < |h.chunks| ==>
                  h.chunks[i].size - h.chunks[i].brk < needed)
            && (|h'.chunks| == |h.chunks| + 1 || |h'.chunks| == |h.chunks|)
            && (forall i ::
                  (0 <= i < |h.chunks| && h.chunks[i].size - h.chunks[i].brk >= needed
                   && (forall j :: 0 <= j < i ==> h.chunks[j].size - h.chunks[j].brk < needed)) ==>
                  a == h.chunks[i].buffer + h.chunks[i].brk
                  && h'.chunks == h.chunks[i := h.chunks[i].(brk := h.chunks[i].brk + needed)])
  {
    var i := FirstFit(h.chunks, needed);
    assert forall j :: 0 <= j < |h.chunks| ==>
        (Room(h.chunks[j], needed) <==> h.chunks[j].size - h.chunks[j].brk >= needed);
  }

  /** alloc_do_malloc, `request` including the header. */
  function Allocated(h: Heap, request: nat, map_: int): (r: (Heap, int))
    requires Valid(h) && request >= HEADER
  {
    BucketIsTight(request);
    if Small(request) then
      var b := Bucket(request);
      if h.free[b] != [] then
        var a := h.free[b][0];
        (h.(status := h.status[a := Live(request)], free := h.free[b := h.free[b][1..]]), a)
      else Brk(h, BucketSize(b), request, map_)
    else
      (Cut(WithChunk(h, map_, request + ChunkOverhead()), 0, request, request), map_ + ChunkOverhead())
  }

  /** alloc_do_free; a large block stays where it is. */
  function Freed(h: Heap, a: int): Heap
    requires Valid(h) && a in h.status && h.status[a].Live?
  {
    LiveHasSize(h, a);
    var r := h.status[a].request;
    BucketIsTight(r);
    if Small(r) then
      h.(status := h.status[a := Free(Bucket(r))], free := h.free[Bucket(r) := [a] + h.free[Bucket(r)]])
    else h.(status := h.status[a := Leaked])
  }

  lemma LiveHasSize(h: Heap, a: int)
    requires Valid(h) && a in h.status && h.status[a].Live?
    ensures h.status[a].request >= HEADER
  {
    var i, k := BlockAt(h, a);
  }

  /** Room in a fresh default chunk for any small block: alloc_brk calls itself at most once. */
  lemma DefaultChunkSuffices(h: Heap, map_: int, needed: nat)
    requires needed <= DEFAULT_MMAP && FirstFit(h.chunks, needed) == |h.chunks|
    ensures FirstFit(WithChunk(h, map_, DEFAULT_MMAP).chunks, needed) == 0
  {
  }

  /** Block a, which was free or not a block at all, is now live for `request`; no other block changes. */
  ghost predicate HandsOut(h: Heap, h': Heap, a: int, request: nat) {
    && a in h'.status && h'.status[a] == Live(request)
    && (a in h.status ==> h.status[a].Free?)
    && (forall x :: x in h.status && x != a ==> x in h'.status && h'.status[x] == h.status[x])
    && (forall x :: x in h'.status && x != a ==> x in h.status)
  }

  lemma CutHandsOut(h: Heap, i: nat, needed: nat, request: nat)
    requires Valid(h) && i < |h.chunks| && Room(h.chunks[i], needed)
    requires needed > 0 && Fits(needed, Live(request))
    ensures var h' := Cut(h, i, needed, request);
            Valid(h') && HandsOut(h, h', h.chunks[i].buffer + h.chunks[i].brk, request)
  {
    CutValid(h, i, needed, request);
  }

  lemma BrkHandsOut(h: Heap, needed: nat, request: nat, map_: int)
    requires Valid(h) && 0 < needed <= DEFAULT_MMAP && Fits(needed, Live(request)) && Mappable(h, map_, DEFAULT_MMAP)
    ensures var (h', a) := Brk(h, needed, request, map_); Valid(h') && HandsOut(h, h', a, request)
  {
    var i := FirstFit(h.chunks, needed);
    if i < |h.chunks| {
      CutHandsOut(h, i, needed, request);
    } else {
      WithChunkValid(h, map_, DEFAULT_MMAP);
      CutHandsOut(WithChunk(h, map_, DEFAULT_MMAP), 0, needed, request);
    }
  }

  lemma AllocatedValid(h: Heap, request: nat, map_: int)
    requires Valid(h) && request >= HEADER
    requires Mappable(h, map_, if Small(request) then DEFAULT_MMAP else request + ChunkOverhead())
    ensures var (h', a) := Allocated(h, request, map_); Valid(h') && HandsOut(h, h', a, request)
  {
    BucketIsTight(request);
    var b := Bucket(request);
    if !Small(request) {
      WithChunkValid(h, map_, request + ChunkOverhead());
      CutHandsOut(WithChunk(h, map_, request + ChunkOverhead()), 0, request, request);
    } else if h.free[b] != [] {
      ReuseValid(h, request);
    } else {
      BrkHandsOut(h, BucketSize(b), request, map_);
    }
  }

  /** Changing what one block is keeps the chunks cut as they were. */
  lemma RestatusChunks(h: Heap, h': Heap, a: int, st: Status)
    requires Valid(h) && a in h.status && h' == h.(status := h.status[a := st], free := h'.free)
    requires forall size: nat :: Fits(size, h.status[a]) ==> Fits(size, st)
    ensures forall i :: 0 <= i < |h'.chunks| ==> ChunkCut(h', i)
    ensures forall x :: x in h'.status ==> exists size :: IsBlock(h', x, size)
  {
    forall i | 0 <= i < |h'.chunks| ensures ChunkCut(h', i) {
      assert ChunkCut(h, i);
    }
    forall x | x in h'.status ensures exists size :: IsBlock(h', x, size) {
      var i, k := BlockAt(h, x);
      assert h'.tiles[i][k] == h.tiles[i][k];
      assert IsBlock(h', x, h.tiles[i][k].size);
    }
  }

  lemma ReuseValid(h: Heap, request: nat)
    requires Valid(h) && request >= HEADER && Small(request) && Bucket(request) < N_BUCKETS
    requires h.free[Bucket(request)] != []
    ensures var b := Bucket(request);
            var a := h.free[b][0];
            && a in h.status && h.status[a] == Free(b)
            && Valid(h.(status := h.status[a := Live(request)], free := h.free[b := h.free[b][1..]]))
  {
    var b := Bucket(request);
    assert FreeListValid(h, b);
    var a := h.free[b][0];
    var h' := h.(status := h.status[a := Live(request)], free := h.free[b := h.free[b][1..]]);
    RestatusChunks(h, h', a, Live(request));
    forall c | 0 <= c < N_BUCKETS ensures FreeListValid(h', c) {
      assert FreeListValid(h, c);
      assert h.free[b] == [a] + h.free[b][1..];
      assert a !in h.free[b][1..];
    }
  }

  lemma FreedValid(h: Heap, a: int)
    requires Valid(h) && a in h.status && h.status[a].Live?
    ensures Valid(Freed(h, a))
  {
    LiveHasSize(h, a);
    var r := h.status[a].request;
    BucketIsTight(r);
    var h' := Freed(h, a);
    RestatusChunks(h, h', a, h'.status[a]);
    forall c | 0 <= c < N_BUCKETS ensures FreeListValid(h', c) {
      assert FreeListValid(h, c);
      assert a !in h.free[c];
    }
  }

  /** The block freed last in a size class is the one handed out next, and the free lists are then as they
      were before. */
  lemma FreeThenAllocate(h: Heap, a: int, request: nat, map_: int)
    requires Valid(h) && a in h.status && h.status[a].Live? && h.status[a].request >= HEADER && request >= HEADER
    requires Small(h.status[a].request) && Small(request) && Bucket(request) == Bucket(h.status[a].request)
    ensures Valid(Freed(h, a))
    ensures Allocated(Freed(h, a), request, map_).1 == a
    ensures Allocated(Freed(h, a), request, map_).0 == h.(status := h.status[a := Live(request)])
  {
    FreedValid(h, a);
    BucketIsTight(request);
    var b := Bucket(request);
    assert ([a] + h.free[b])[1..] == h.free[b];
    assert h.free[b := [a] + h.free[b]][b := h.free[b]] == h.free;
  }

  /** No block starts where a chunk starts, so the search for a chunk to unmap never finds one. */
  lemma BlockIsNoChunk(h: Heap, a: int, j: nat)
    requires Valid(h) && a in h.status && j < |h.chunks|
    ensures a != h.chunks[j].buffer
  {
    var i, k := BlockAt(h, a);
    assert ChunkCut(h, i) && ChunkCut(h, j);
    var c := h.chunks[i];
    TileWithin(c.buffer + ChunkOverhead(), h.tiles[i], c.buffer + c.brk, k);
    assert i == j || (if i < j then ChunksApart(c, h.chunks[j]) else ChunksApart(h.chunks[j], c));
  }

  // ----- runs

  datatype Op = Malloc(size: nat, map_: int) | Release(p: int)

  const EMPTY := Heap([], [], map[], seq(N_BUCKETS, _ => []))

  /** A request fits into 32 bits with everything added to it, the kernel maps where nothing is mapped, and
      only live pointers are freed. */
  ghost predicate Enabled(h: Heap, op: Op) {
    match op
    case Malloc(size, map_) =>
      && size + HEADER + ChunkOverhead() + PAGE < WORD_LIMIT
      && Mappable(h, map_, if Small(size + HEADER) then DEFAULT_MMAP else size + HEADER + ChunkOverhead())
    case Release(p) => p - HEADER in h.status && h.status[p - HEADER].Live?
  }

  ghost function Do(h: Heap, op: Op): Heap
    requires Valid(h) && Enabled(h, op)
  {
    match op
    case Malloc(size, map_) => Allocated(h, size + HEADER, map_).0
    case Release(p) => Freed(h, p - HEADER)
  }

  lemma StepValid(h: Heap, op: Op)
    requires Valid(h) && Enabled(h, op)
    ensures Valid(Do(h, op))
  {
    match op
    case Malloc(size, map_) => AllocatedValid(h, size + HEADER, map_);
    case Release(p) => FreedValid(h, p - HEADER);
  }

  ghost predicate IsRun(h: Heap, run: seq<Op>)
    requires Valid(h)
    decreases |run|
  {
    run != [] ==> Enabled(h, run[0]) && (StepValid(h, run[0]); IsRun(Do(h, run[0]), run[1..]))
  }

  ghost function End(h: Heap, run: seq<Op>): (r: Heap)
    requires Valid(h) && IsRun(h, run)
    ensures Valid(r)
    decreases |run|
  {
    if run == [] then h
    else
      StepValid(h, run[0]);
      End(Do(h, run[0]), run[1..])
  }

  /** Block k of chunk i lies behind the chunk's header and below its brk. */
  lemma BlockInChunk(h: Heap, i: nat, k: nat)
    requires Valid(h) && i < |h.chunks| && k < |h.tiles[i]|
    ensures var c, t := h.chunks[i], h.tiles[i][k];
            && Tiled(c.buffer + ChunkOverhead(), h.tiles[i], c.buffer + c.brk) && c.brk <= c.size
            && c.buffer + ChunkOverhead() <= t.addr && t.addr + t.size <= c.buffer + c.size
            && t.addr in h.status && Fits(t.size, h.status[t.addr])
  {
    assert ChunkCut(h, i);
    var c := h.chunks[i];
    TileWithin(c.buffer + ChunkOverhead(), h.tiles[i], c.buffer + c.brk, k);
  }

  /** A block is live and holds its request, free and on the list of its size only, or leaked. */
  ghost predicate Classified(h: Heap, t: Block)
    requires |h.free| == N_BUCKETS && t.addr in h.status
  {
    match h.status[t.addr]
    case Live(r) => r <= t.size
    case Free(b) =>
      && b < N_BUCKETS && t.size == BucketSize(b) && t.addr in h.free[b]
      && forall d :: 0 <= d < N_BUCKETS && d != b ==> t.addr !in h.free[d]
    case Leaked => true
  }

  lemma BlockClassified(h: Heap, t: Block)
    requires Valid(h) && t.addr in h.status && Fits(t.size, h.status[t.addr])
    ensures Classified(h, t)
  {
    if h.status[t.addr].Free? {
      forall d | 0 <= d < N_BUCKETS ensures t.addr in h.free[d] <==> h.status[t.addr] == Free(d) {
        assert FreeListValid(h, d);
      }
    } else if h.status[t.addr].Live? {
      BucketIsTight(h.status[t.addr].request);
    }
  }

  /** Over every sequence of allocations and releases of live pointers: below its brk a chunk is its header
      followed by blocks end to end, different blocks never overlap, a free block is on the free list of its
      size and on no other, and a live block holds its request and stays inside its chunk. */
  lemma {:induction false} HeapIsPartitioned(run: seq<Op>, i: nat, k: nat, j: nat, l: nat)
    requires IsRun(EMPTY, run)
    requires var h := End(EMPTY, run);
             i < |h.chunks| && k < |h.tiles[i]| && j < |h.chunks| && l < |h.tiles[j]|
    ensures var h := End(EMPTY, run);
            var c, t := h.chunks[i], h.tiles[i][k];
            && Tiled(c.buffer + ChunkOverhead(), h.tiles[i], c.buffer + c.brk) && c.brk <= c.size
            && c.buffer + ChunkOverhead() <= t.addr && t.addr + t.size <= c.buffer + c.size
            && ((i, k) != (j, l) ==> BlocksApart(t, h.tiles[j][l]))
            && t.addr in h.status && Classified(h, t)
  {
    var h := End(EMPTY, run);
    BlocksDisjoint(h, i, k, j, l);
    BlockInChunk(h, i, k);
    BlockClassified(h, h.tiles[i][k]);
  }
}

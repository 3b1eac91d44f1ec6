/** alloc.c on its own fields: the chunk list, the bucket heads, and the first word of each block, which
    holds the next pointer of a free block and the size of a live one. */
module HeapCode {
  import opened Seqs
  import opened HeapModel

  /** Following the next pointers from `head` gives `list`. */
  ghost predicate Linked(head: int, words: map<int, int>, list: seq<int>)
    decreases |list|
  {
    if list == [] then head == 0
    else head != 0 && head == list[0] && head in words && Linked(words[head], words, list[1..])
  }

  lemma {:induction false} LinkedElsewhere(head: int, words: map<int, int>, list: seq<int>, a: int, w: int)
    requires Linked(head, words, list) && a !in list
    ensures Linked(head, words[a := w], list)
    decreases |list|
  {
    if list != [] {
      LinkedElsewhere(words[head], words, list[1..], a, w);
    }
  }

  class Alloc {
    var chunks: seq<Chunk>
    const buckets: array<int>
    var words: map<int, int>
    ghost var heap: Heap

    /** Every live block but `except` carries its size. */
    ghost predicate HeadersValid(except_: set<int>)
      reads this
    {
      forall a :: a in heap.status && heap.status[a].Live? && a !in except_ ==>
        a in words && words[a] == heap.status[a].request - HEADER
    }

    ghost predicate ListsValid()
      reads this, buckets
    {
      && HeapModel.Valid(heap) && chunks == heap.chunks && buckets.Length == N_BUCKETS
      && forall b :: 0 <= b < N_BUCKETS ==> Linked(buckets[b], words, heap.free[b])
    }

    ghost predicate Valid()
      reads this, buckets
    {
      ListsValid() && HeadersValid({})
    }

    /** alloc_initialize */
    constructor ()
      ensures Valid() && heap == EMPTY && fresh(buckets)
    {
      chunks, words, heap := [], map[], EMPTY;
      buckets := new int[N_BUCKETS](_ => 0);
    }

    /** alloc_chunk */
    method AllocChunk(map_: int, size: nat)
      requires ListsValid() && Mappable(heap, map_, size) && size >= ChunkOverhead()
      modifies this`chunks, this`heap
      ensures ListsValid() && heap == WithChunk(old(heap), map_, size)
    {
      WithChunkValid(heap, map_, size);
      heap := WithChunk(heap, map_, size);
      var rounded := RoundTo(size, PAGE);
      chunks := [Chunk(map_, rounded, ChunkOverhead())] + chunks;
    }

    /** alloc_brk: the recursive call finds room at once. */
    method AllocBrk(needed: nat, ghost request: nat, map_: int) returns (a: int)
      requires ListsValid() && needed > 0 && Fits(needed, Live(request))
      requires FirstFit(chunks, needed) == |chunks| ==> needed <= DEFAULT_MMAP && Mappable(heap, map_, DEFAULT_MMAP)
      modifies this`chunks, this`heap
      ensures ListsValid() && words == old(words)
      ensures var i := FirstFit(old(chunks), needed);
              if i < |old(chunks)| then
                a == old(chunks)[i].buffer + old(chunks)[i].brk && heap == Cut(old(heap), i, needed, request)
              else
                a == map_ + ChunkOverhead()
                && heap == Cut(WithChunk(old(heap), map_, DEFAULT_MMAP), 0, needed, request)
      decreases FirstFit(chunks, needed) == |chunks|
    {
      for i := 0 to |chunks|
        invariant forall j :: 0 <= j < i ==> !Room(chunks[j], needed)
      {
        var tmp := chunks[i];
        if tmp.size - tmp.brk >= needed {
          CutValid(heap, i, needed, request);
          heap := Cut(heap, i, needed, request);
          chunks := chunks[i := tmp.(brk := tmp.brk + needed)];
          return tmp.buffer + tmp.brk;
        }
      }
      DefaultChunkSuffices(heap, map_, needed);
      AllocChunk(map_, DEFAULT_MMAP);
      a := AllocBrk(needed, request, map_);
    }

    /** alloc_do_malloc; the header of the new block is still to be written. */
    method DoMalloc(size: nat, map_: int) returns (a: int)
      requires Valid() && size >= HEADER && size + ChunkOverhead() + PAGE < WORD_LIMIT
      requires Mappable(heap, map_, if Small(size) then DEFAULT_MMAP else size + ChunkOverhead())
      modifies this`chunks, this`heap, this`words, buckets
      ensures ListsValid() && HeadersValid({a}) && (heap, a) == Allocated(old(heap), size, map_)
      ensures a in heap.status && heap.status[a] == Live(size)
    {
      AllocatedValid(heap, size, map_);
      BucketIsTight(size);
      if size < DEFAULT_MMAP - ChunkOverhead() {
        var bucket := SizeToBucket(size);
        if buckets[bucket] != 0 {
          a := Reuse(bucket, size);
          return;
        }
        a := CutSmall(bucket, size, map_);
      } else {
        a := MapLarge(size, map_);
      }
    }

    /** A large block: the first of a new chunk. */
    method MapLarge(size: nat, map_: int) returns (a: int)
      requires Valid() && size >= HEADER && !Small(size) && Mappable(heap, map_, size + ChunkOverhead())
      modifies this`chunks, this`heap
      ensures ListsValid() && HeadersValid({a}) && words == old(words) && (heap, a) == Allocated(old(heap), size, map_)
    {
      AllocatedValid(heap, size, map_);
      AllocChunk(map_, size + ChunkOverhead());
      a := AllocBrk(size, size, map_);
    }

    /** The slow path: cut a block off a chunk and clear its next pointer. */
    method CutSmall(bucket: nat, ghost size: nat, map_: int) returns (a: int)
      requires Valid() && size >= HEADER && Small(size) && bucket == Bucket(size) && bucket < N_BUCKETS
      requires buckets[bucket] == 0 && Mappable(heap, map_, DEFAULT_MMAP)
      modifies this`chunks, this`heap, this`words
      ensures ListsValid() && HeadersValid({a}) && (heap, a) == Allocated(old(heap), size, map_)
      ensures a in heap.status && heap.status[a] == Live(size)
    {
      AllocatedValid(heap, size, map_);
      BucketIsTight(size);
      assert heap.free[bucket] == [];
      a := AllocBrk(BucketSize(bucket), size, map_);
      KeepLists(a, 0);
      words := words[a := 0];
    }

    /** The fast path: take the first block off the free list. */
    method Reuse(bucket: nat, ghost size: nat) returns (a: int)
      requires Valid() && size >= HEADER && Small(size) && bucket == Bucket(size) && bucket < N_BUCKETS
      requires buckets[bucket] != 0
      modifies this`heap, buckets
      ensures ListsValid() && HeadersValid({a}) && old(heap).free[bucket] != [] && a == old(heap).free[bucket][0]
      ensures heap == old(heap).(status := old(heap).status[a := Live(size)],
                                 free := old(heap).free[bucket := old(heap).free[bucket][1..]])
    {
      ReuseValid(heap, size);
      a := buckets[bucket];
      var next := words[a];
      buckets[bucket] := next;
      heap := heap.(status := heap.status[a := Live(size)], free := heap.free[bucket := heap.free[bucket][1..]]);
    }

    /** Writing the first word of a live block leaves every free list linked. */
    lemma KeepLists(a: int, w: int)
      requires ListsValid() && a in heap.status && heap.status[a].Live?
      ensures forall b :: 0 <= b < N_BUCKETS ==> Linked(buckets[b], words[a := w], heap.free[b])
    {
      forall b | 0 <= b < N_BUCKETS ensures Linked(buckets[b], words[a := w], heap.free[b]) {
        assert FreeListValid(heap, b);
        LinkedElsewhere(buckets[b], words, heap.free[b], a, w);
      }
    }

    /** alloc_malloc */
    method Malloc(size: nat, map_: int) returns (p: int)
      requires Valid() && Enabled(heap, HeapModel.Malloc(size, map_))
      modifies this`chunks, this`heap, this`words, buckets
      ensures Valid() && heap == Do(old(heap), HeapModel.Malloc(size, map_))
      ensures p - HEADER == Allocated(old(heap), size + HEADER, map_).1
      ensures p - HEADER in heap.status && heap.status[p - HEADER] == Live(size + HEADER)
      ensures p - HEADER !in old(heap).status || old(heap).status[p - HEADER].Free?
      ensures p - 8 in words && words[p - 8] == size && heap.status[p - 8] == Live(size + 8)
    {
      AllocatedValid(heap, size + HEADER, map_);
      var buffer := DoMalloc(size + HEADER, map_);
      KeepLists(buffer, size);
      words := words[buffer := size];
      p := buffer + HEADER;
    }

    /** alloc_do_free; for a large block the search for a chunk to unmap comes back empty-handed. */
    method DoFree(buffer: int, size: nat)
      requires ListsValid() && HeadersValid({}) && buffer in heap.status && heap.status[buffer] == Live(size)
      modifies this`heap, this`words, buckets
      ensures Valid() && heap == Freed(old(heap), buffer)
    {
      LiveHasSize(heap, buffer);
      FreedValid(heap, buffer);
      BucketIsTight(size);
      ghost var heap' := Freed(heap, buffer);
      if size < DEFAULT_MMAP - ChunkOverhead() {
        var bucket := SizeToBucket(size);
        KeepLists(buffer, buckets[bucket]);
        FreeLinked(bucket, buffer);
        words := words[buffer := buckets[bucket]];
        buckets[bucket] := buffer;
      } else {
        for i := 0 to |chunks|
          modifies {}
        {
          BlockIsNoChunk(heap, buffer, i);
          var tmp := chunks[i];
          if tmp.buffer == buffer && tmp.size == size {
            assert false;
          }
        }
      }
      heap := heap';
    }

    lemma FreeLinked(bucket: nat, a: int)
      requires ListsValid() && bucket < N_BUCKETS && a in heap.status && heap.status[a].Live?
      ensures Linked(a, words[a := buckets[bucket]], [a] + heap.free[bucket])
    {
      BlockIsPositive(heap, a);
      KeepLists(a, buckets[bucket]);
      assert ([a] + heap.free[bucket])[1..] == heap.free[bucket];
    }

    /** alloc_free: the size comes from the word in front of the user's bytes. */
    method Free(p: int)
      requires Valid() && Enabled(heap, Release(p))
      modifies this`heap, this`words, buckets
      ensures Valid() && heap == Do(old(heap), Release(p))
    {
      var size := words[p - HEADER];
      DoFree(p - HEADER, size + HEADER);
    }
  }

  /** size_to_bucket */
  method SizeToBucket(sz: nat) returns (bucket: nat)
    requires sz >= 1
    ensures bucket == Bucket(sz)
  {
    bucket := 0;
    var size: nat := sz - 1;
    while size > 7
      invariant bucket + Halvings(size) == Bucket(sz)
    {
      size := size / 2;
      bucket := bucket + 1;
    }
  }
}

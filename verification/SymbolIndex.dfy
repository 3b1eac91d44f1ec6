/** The two symbol indexes of an ELF file, DT_GNU_HASH and DT_HASH, and the iterator that walks them.

    Both hash functions are parameters: nothing here depends on their values. */
module SymbolIndex {
  import opened Common
  import opened Seqs
  import opened Align

  const NATIVE_CLASS: nat := 64  // __ELF_NATIVE_CLASS
  const SHN_UNDEF: nat := 0

  /** An entry of the symbol table; `text` is the string st_name stands for. */
  datatype Symbol = Symbol(stName: nat, shndx: nat, text: string)

  /** A named, defined symbol called `name`. */
  predicate Matches(s: Symbol, name: string) {
    s.stName != 0 && s.shndx != SHN_UNDEF && s.text == name
  }

  /** The linear scan: the matching indices from `lo` up to `hi`, in order. */
  function Scan(symtab: seq<Symbol>, name: string, lo: nat, hi: nat): seq<nat>
    requires hi <= |symtab|
    decreases hi - lo
  {
    if lo >= hi then []
    else if Matches(symtab[lo], name) then [lo] + Scan(symtab, name, lo + 1, hi)
    else Scan(symtab, name, lo + 1, hi)
  }

  lemma {:induction false} ScanElements(symtab: seq<Symbol>, name: string, lo: nat, hi: nat)
    requires hi <= |symtab|
    ensures forall k: nat :: k in Scan(symtab, name, lo, hi) <==> lo <= k < hi && Matches(symtab[k], name)
    ensures Increasing(Scan(symtab, name, lo, hi))
    decreases hi - lo
  {
    if lo < hi {
      ScanElements(symtab, name, lo + 1, hi);
      var rest := Scan(symtab, name, lo + 1, hi);
      forall j | 0 <= j < |rest| ensures lo < rest[j] {
        assert rest[j] in rest;
      }
      if Matches(symtab[lo], name) {
        assert forall k: nat :: k in [lo] + rest <==> k == lo || k in rest;
      }
    }
  }

  predicate Increasing(r: seq<nat>) { forall i, j :: 0 <= i < j < |r| ==> r[i] < r[j] }

  lemma {:induction false} ScanSplit(symtab: seq<Symbol>, name: string, lo: nat, mid: nat, hi: nat)
    requires lo <= mid <= hi <= |symtab|
    ensures Scan(symtab, name, lo, hi) == Scan(symtab, name, lo, mid) + Scan(symtab, name, mid, hi)
    decreases mid - lo
  {
    if lo < mid {
      ScanSplit(symtab, name, lo + 1, mid, hi);
    }
  }

  lemma {:induction false} ScanNothing(symtab: seq<Symbol>, name: string, lo: nat, hi: nat)
    requires hi <= |symtab| && forall k :: lo <= k < hi ==> !Matches(symtab[k], name)
    ensures Scan(symtab, name, lo, hi) == []
    decreases hi - lo
  {
    if lo < hi {
      ScanNothing(symtab, name, lo + 1, hi);
    }
  }

  lemma ScanOnlyWithin(symtab: seq<Symbol>, name: string, lo: nat, a: nat, b: nat, hi: nat)
    requires lo <= a <= b <= hi <= |symtab|
    requires forall k :: lo <= k < a || b <= k < hi ==> !Matches(symtab[k], name)
    ensures Scan(symtab, name, lo, hi) == Scan(symtab, name, a, b)
  {
    ScanNothing(symtab, name, lo, a);
    ScanNothing(symtab, name, b, hi);
    ScanSplit(symtab, name, lo, a, hi);
    ScanSplit(symtab, name, a, b, hi);
  }

  // ----- DT_GNU_HASH

  /** A 64-bit word as the set of its one bits: `&` is intersection and `|` is union. */
  type Bits = set<nat>

  /** The hash words of symbol symndx + i are chains[i]; the low bit of a word ends its bucket. */
  datatype GnuTable = GnuTable(symndx: nat, shift2: nat, bloom: seq<Bits>, buckets: seq<nat>, chains: seq<nat>)

  function Shr(h: nat, n: nat): nat {
    if n == 0 then h else Shr(h / 2, n - 1)
  }

  /** The word of the Bloom filter that belongs to hash h. */
  function BloomWord(t: GnuTable, h: nat): Bits
    requires |t.bloom| > 0
  {
    t.bloom[(h / NATIVE_CLASS) % |t.bloom|]
  }

  function HashBit1(h: nat): nat { h % NATIVE_CLASS }
  function HashBit2(t: GnuTable, h: nat): nat { Shr(h, t.shift2) % NATIVE_CLASS }

  /** The Bloom filter does not exclude hash h: (bitmask_word & bitmask) == bitmask. */
  predicate BloomPasses(t: GnuTable, h: nat)
    requires |t.bloom| > 0
  {
    var bitmask := {HashBit1(h)} + {HashBit2(t, h)};
    BloomWord(t, h) * bitmask == bitmask
  }

  function PowerOf2(n: nat): nat {
    if n == 0 then 1 else 2 * PowerOf2(n - 1)
  }

  lemma {:induction false} ShrIs(h: nat, n: nat)
    ensures PowerOf2(n) > 0 && Shr(h, n) == h / PowerOf2(n)
    decreases n
  {
    if n > 0 {
      ShrIs(h / 2, n - 1);
      var p := PowerOf2(n - 1);
      var q, r := (h / 2) / p, (h / 2) % p;
      DivModUnique(h, 2 * p, q, 2 * r + h % 2);
    }
  }

  /** What the linker sets for a symbol of hash h: in word h / 64 the bits h and h shifted, each modulo 64. */
  ghost predicate BloomBitsSet(t: GnuTable, h: nat)
    requires |t.bloom| > 0
  {
    ShrIs(h, t.shift2);
    var word := t.bloom[(h / 64) % |t.bloom|];
    h % 64 in word && (h / PowerOf2(t.shift2)) % 64 in word
  }

  /** The bucket of hash h. */
  function BucketNumber(t: GnuTable, h: nat): (b: nat)
    requires |t.buckets| > 0
    ensures b < |t.buckets|
  {
    h % |t.buckets|
  }

  /** Where the linker puts a symbol. */
  function BucketOf(t: GnuTable, hash: string -> nat, text: string): (b: nat)
    requires |t.buckets| > 0
    ensures b < |t.buckets|
  {
    hash(text) % |t.buckets|
  }

  /** The low bit of the hash word of symbol k. */
  predicate LastOfBucket(t: GnuTable, k: nat)
    requires t.symndx <= k < t.symndx + |t.chains|
  {
    t.chains[k - t.symndx] % 2 == 1
  }

  /** The hashed symbols are those from symndx on, sorted by bucket; each bucket names its first symbol or 0;
      a word is odd exactly at the end of a bucket; the Bloom bits of every hashed symbol are set. */
  ghost predicate GnuValid(t: GnuTable, symtab: seq<Symbol>, hash: string -> nat) {
    && |t.buckets| > 0 && |t.bloom| > 0 && t.symndx >= 1 && |symtab| == t.symndx + |t.chains|
    && (forall k :: t.symndx <= k < |symtab| ==> BloomBitsSet(t, hash(symtab[k].text)))
    && (forall j, k :: t.symndx <= j <= k < |symtab| ==>
          BucketOf(t, hash, symtab[j].text) <= BucketOf(t, hash, symtab[k].text))
    && (forall k :: t.symndx <= k < |symtab| ==> EndMark(t, symtab, hash, k))
    && (forall b :: 0 <= b < |t.buckets| ==> BucketHead(t, symtab, hash, b))
  }

  ghost predicate EndMark(t: GnuTable, symtab: seq<Symbol>, hash: string -> nat, k: nat)
    requires |t.buckets| > 0 && |symtab| == t.symndx + |t.chains| && t.symndx <= k < |symtab|
  {
    t.chains[k - t.symndx] % 2 == 1 <==>
      (k + 1 == |symtab| || BucketOf(t, hash, symtab[k + 1].text) != BucketOf(t, hash, symtab[k].text))
  }

  ghost predicate BucketHead(t: GnuTable, symtab: seq<Symbol>, hash: string -> nat, b: nat)
    requires |t.buckets| > 0 && b < |t.buckets|
  {
    var head := t.buckets[b];
    if head == 0 then forall k :: t.symndx <= k < |symtab| ==> BucketOf(t, hash, symtab[k].text) != b
    else
      && t.symndx <= head < |symtab| && BucketOf(t, hash, symtab[head].text) == b
      && forall k :: t.symndx <= k < head ==> BucketOf(t, hash, symtab[k].text) != b
  }

  // ----- DT_HASH

  /** The table as the words in memory: nbucket, nchain, the buckets, the chains. */
  datatype SysvTable = SysvTable(nbucket: nat, words: seq<nat>)

  /** The word at an index relative to the chain array; buckets have negative indexes. */
  function At(t: SysvTable, i: int): nat
    requires 0 <= 2 + t.nbucket + i < |t.words|
  {
    t.words[2 + t.nbucket + i]
  }

  /** Every word is a symbol index. */
  predicate SysvShape(t: SysvTable, symtab: seq<Symbol>) {
    && t.nbucket > 0 && |t.words| == 2 + t.nbucket + |symtab| && |symtab| > 0
    && forall i :: -(t.nbucket as int) <= i < |symtab| ==> At(t, i) < |symtab|
  }

  /** The chain that starts with the word at index i, followed for at most `fuel` links. */
  function Chain(t: SysvTable, symtab: seq<Symbol>, i: int, fuel: nat): (r: seq<nat>)
    requires SysvShape(t, symtab) && -(t.nbucket as int) <= i < |symtab|
    ensures InTable(symtab, r) && 0 !in r
    decreases fuel
  {
    var k := At(t, i);
    if k == 0 || fuel == 0 then [] else [k] + Chain(t, symtab, k, fuel - 1)
  }

  function BucketIndex(t: SysvTable, h: nat): int
    requires t.nbucket > 0
  {
    -((t.nbucket - h % t.nbucket) as int)
  }

  /** The chain from index i ends and is `rest`. */
  ghost predicate Follows(t: SysvTable, symtab: seq<Symbol>, i: int, rest: seq<nat>)
    requires SysvShape(t, symtab) && -(t.nbucket as int) <= i < |symtab|
    decreases |rest|
  {
    if rest == [] then At(t, i) == 0
    else At(t, i) == rest[0] && rest[0] != 0 && Follows(t, symtab, rest[0], rest[1..])
  }

  /** Every chain ends, and each named symbol is on the chain of its hash, once. */
  ghost predicate SysvValid(t: SysvTable, symtab: seq<Symbol>, hash: string -> nat) {
    && SysvShape(t, symtab) && symtab[0].stName == 0
    && (forall b :: 0 <= b < t.nbucket ==> SysvChainValid(t, symtab, b))
    && (forall k :: 0 < k < |symtab| && symtab[k].stName != 0 ==>
          k in Chain(t, symtab, BucketIndex(t, hash(symtab[k].text)), |symtab|))
  }

  ghost predicate SysvChainValid(t: SysvTable, symtab: seq<Symbol>, b: nat)
    requires SysvShape(t, symtab) && b < t.nbucket
  {
    var c := Chain(t, symtab, BucketIndex(t, b), |symtab|);
    Distinct(c) && Follows(t, symtab, BucketIndex(t, b), c)
  }

  predicate InTable(symtab: seq<Symbol>, rest: seq<nat>) { forall i :: 0 <= i < |rest| ==> rest[i] < |symtab| }

  /** The matching indices of a chain, in chain order. */
  function Picked(symtab: seq<Symbol>, name: string, rest: seq<nat>): seq<nat>
    requires InTable(symtab, rest)
  {
    if rest == [] then []
    else if Matches(symtab[rest[0]], name) then [rest[0]] + Picked(symtab, name, rest[1..])
    else Picked(symtab, name, rest[1..])
  }

  lemma {:induction false} PickedElements(symtab: seq<Symbol>, name: string, rest: seq<nat>)
    requires InTable(symtab, rest)
    ensures forall k: nat :: k in Picked(symtab, name, rest) <==> k in rest && k < |symtab| && Matches(symtab[k], name)
    ensures Distinct(rest) ==> Distinct(Picked(symtab, name, rest))
  {
    if rest != [] {
      PickedElements(symtab, name, rest[1..]);
    }
  }

  // ----- what an iteration must yield

  /** A file's symbol table with the indexes it has; `hasTables` is false when it has no symbol or string table. */
  datatype SymbolFile = SymbolFile(hasTables: bool, symtab: seq<Symbol>, gnu: Option<GnuTable>, sysv: Option<SysvTable>)

  ghost predicate FileValid(f: SymbolFile, gnuHash: string -> nat, elfHash: string -> nat) {
    && (f.hasTables && f.gnu.Some? ==> GnuValid(f.gnu.value, f.symtab, gnuHash))
    && (f.hasTables && f.gnu.None? && f.sysv.Some? ==> SysvValid(f.sysv.value, f.symtab, elfHash))
  }

  /** The indices the iterator yields for a name, in order. */
  ghost function Yields(f: SymbolFile, name: string, elfHash: string -> nat): seq<nat>
    requires f.hasTables && f.gnu.Some? ==> f.gnu.value.symndx <= |f.symtab|
    requires f.hasTables && f.gnu.None? && f.sysv.Some? ==> SysvShape(f.sysv.value, f.symtab)
  {
    if !f.hasTables then []
    else if f.gnu.Some? then Scan(f.symtab, name, f.gnu.value.symndx, |f.symtab|)
    else if f.sysv.Some? then
      Picked(f.symtab, name, Chain(f.sysv.value, f.symtab, BucketIndex(f.sysv.value, elfHash(name)), |f.symtab|))
    else []
  }

  lemma BucketIndexOfRemainder(t: SysvTable, h: nat)
    requires t.nbucket > 0
    ensures h % t.nbucket < t.nbucket && BucketIndex(t, h % t.nbucket) == BucketIndex(t, h)
  {
    var b := h % t.nbucket;
    assert b % t.nbucket == b;
  }

  /** Through DT_GNU_HASH: the hashed matching symbols, in increasing order. */
  lemma GnuYieldsTheScan(f: SymbolFile, name: string, gnuHash: string -> nat, elfHash: string -> nat)
    requires FileValid(f, gnuHash, elfHash) && f.hasTables && f.gnu.Some?
    ensures Increasing(Yields(f, name, elfHash))
    ensures forall k: nat :: k in Yields(f, name, elfHash) <==>
              (f.gnu.value.symndx <= k < |f.symtab| &&
               f.symtab[k].stName != 0 && f.symtab[k].shndx != 0 && f.symtab[k].text == name)
  {
    ScanElements(f.symtab, name, f.gnu.value.symndx, |f.symtab|);
  }

  /** Through DT_HASH: every matching symbol of the table, each once. */
  lemma SysvYieldsTheScan(f: SymbolFile, name: string, gnuHash: string -> nat, elfHash: string -> nat)
    requires FileValid(f, gnuHash, elfHash) && f.hasTables && f.gnu.None? && f.sysv.Some?
    ensures var r := Yields(f, name, elfHash);
            && Distinct(r)
            && forall k: nat :: k in r <==>
                 (k < |f.symtab| && f.symtab[k].stName != 0 && f.symtab[k].shndx != 0 && f.symtab[k].text == name)
  {
    var t := f.sysv.value;
    BucketIndexOfRemainder(t, elfHash(name));
    assert SysvChainValid(t, f.symtab, elfHash(name) % t.nbucket);
    var c := Chain(t, f.symtab, BucketIndex(t, elfHash(name)), |f.symtab|);
    PickedElements(f.symtab, name, c);
    forall k: nat | k < |f.symtab| && Matches(f.symtab[k], name) ensures k in c {
      assert k != 0;
    }
  }

  // ----- the bucket of a name in DT_GNU_HASH

  /** The first index from k on that is outside bucket b. */
  ghost function BucketEnd(t: GnuTable, symtab: seq<Symbol>, hash: string -> nat, k: nat): (e: nat)
    requires |t.buckets| > 0 && k < |symtab|
    ensures k < e <= |symtab|
    ensures forall j :: k <= j < e ==> BucketOf(t, hash, symtab[j].text) == BucketOf(t, hash, symtab[k].text)
    ensures e < |symtab| ==> BucketOf(t, hash, symtab[e].text) != BucketOf(t, hash, symtab[k].text)
    decreases |symtab| - k
  {
    if k + 1 < |symtab| && BucketOf(t, hash, symtab[k + 1].text) == BucketOf(t, hash, symtab[k].text) then
      BucketEnd(t, symtab, hash, k + 1)
    else k + 1
  }

  /** The walk from k to `end` and its end marks. */
  ghost predicate Marked(t: GnuTable, k: int, end: nat) {
    && t.symndx <= k < end <= t.symndx + |t.chains|
    && forall j :: k <= j < end ==> (LastOfBucket(t, j) <==> j + 1 == end)
  }

  lemma OutsideBucket(t: GnuTable, symtab: seq<Symbol>, hash: string -> nat, name: string, k: nat)
    requires GnuValid(t, symtab, hash) && t.symndx <= k < |symtab|
    requires var head := t.buckets[BucketOf(t, hash, name)];
             head == 0 || k < head || BucketEnd(t, symtab, hash, head) <= k
    ensures !Matches(symtab[k], name)
  {
    var b := BucketOf(t, hash, name);
    assert BucketHead(t, symtab, hash, b);
    var head := t.buckets[b];
    if head != 0 && k >= head {
      var end := BucketEnd(t, symtab, hash, head);
      assert BucketOf(t, hash, symtab[head].text) <= BucketOf(t, hash, symtab[end].text);
      assert BucketOf(t, hash, symtab[end].text) <= BucketOf(t, hash, symtab[k].text);
    }
  }

  /** A name's matches all lie in its bucket, and the low bits mark where that bucket ends. */
  lemma BucketHoldsMatches(t: GnuTable, symtab: seq<Symbol>, hash: string -> nat, name: string)
    requires GnuValid(t, symtab, hash)
    ensures var head := t.buckets[BucketOf(t, hash, name)];
            if head == 0 then Scan(symtab, name, t.symndx, |symtab|) == []
            else
              && t.symndx <= head < |symtab|
              && Marked(t, head, BucketEnd(t, symtab, hash, head))
              && Scan(symtab, name, t.symndx, |symtab|) == Scan(symtab, name, head, BucketEnd(t, symtab, hash, head))
  {
    var b := BucketOf(t, hash, name);
    assert BucketHead(t, symtab, hash, b);
    var head := t.buckets[b];
    if head == 0 {
      forall k | t.symndx <= k < |symtab| ensures !Matches(symtab[k], name) {
        OutsideBucket(t, symtab, hash, name, k);
      }
      ScanNothing(symtab, name, t.symndx, |symtab|);
    } else {
      BucketScan(t, symtab, hash, name, head);
    }
  }

  lemma BucketMarked(t: GnuTable, symtab: seq<Symbol>, hash: string -> nat, head: nat)
    requires GnuValid(t, symtab, hash) && t.symndx <= head < |symtab|
    ensures Marked(t, head, BucketEnd(t, symtab, hash, head))
  {
    var end := BucketEnd(t, symtab, hash, head);
    forall j | head <= j < end ensures LastOfBucket(t, j) <==> j + 1 == end {
      assert EndMark(t, symtab, hash, j);
    }
  }

  lemma BucketScan(t: GnuTable, symtab: seq<Symbol>, hash: string -> nat, name: string, head: nat)
    requires GnuValid(t, symtab, hash) && head == t.buckets[BucketOf(t, hash, name)] && t.symndx <= head < |symtab|
    ensures Scan(symtab, name, t.symndx, |symtab|) == Scan(symtab, name, head, BucketEnd(t, symtab, hash, head))
    ensures Marked(t, head, BucketEnd(t, symtab, hash, head))
  {
    var end := BucketEnd(t, symtab, hash, head);
    forall k | t.symndx <= k < head || end <= k < |symtab| ensures !Matches(symtab[k], name) {
      OutsideBucket(t, symtab, hash, name, k);
    }
    ScanOnlyWithin(symtab, name, t.symndx, head, end, |symtab|);
    BucketMarked(t, symtab, hash, head);
  }

  /** A symbol of the name makes the filter pass. */
  lemma MatchPassesBloom(t: GnuTable, symtab: seq<Symbol>, hash: string -> nat, name: string, k: nat)
    requires GnuValid(t, symtab, hash) && t.symndx <= k < |symtab| && Matches(symtab[k], name)
    ensures BloomPasses(t, hash(name))
  {
    assert BloomBitsSet(t, hash(symtab[k].text));
    ShrIs(hash(name), t.shift2);
  }

  /** So a filter that does not pass drops nothing. */
  lemma BloomDropsNothing(t: GnuTable, symtab: seq<Symbol>, hash: string -> nat, name: string)
    requires GnuValid(t, symtab, hash) && !BloomPasses(t, hash(name))
    ensures Scan(symtab, name, t.symndx, |symtab|) == []
  {
    var r := Scan(symtab, name, t.symndx, |symtab|);
    ScanElements(symtab, name, t.symndx, |symtab|);
    if r != [] {
      assert r[0] in r;
      MatchPassesBloom(t, symtab, hash, name, r[0]);
      assert false;
    }
  }

  /** How the walk of DT_GNU_HASH starts. */
  lemma GnuStart(t: GnuTable, symtab: seq<Symbol>, hash: string -> nat, name: string)
    requires GnuValid(t, symtab, hash)
    ensures |t.bloom| > 0 && |t.buckets| > 0 && |symtab| == t.symndx + |t.chains|
    ensures var head := t.buckets[BucketOf(t, hash, name)];
            if !BloomPasses(t, hash(name)) || head == 0 then Scan(symtab, name, t.symndx, |symtab|) == []
            else
              && head < |symtab| && Marked(t, head, BucketEnd(t, symtab, hash, head))
              && Scan(symtab, name, t.symndx, |symtab|) == Scan(symtab, name, head, BucketEnd(t, symtab, hash, head))
  {
    BucketHoldsMatches(t, symtab, hash, name);
    if !BloomPasses(t, hash(name)) {
      BloomDropsNothing(t, symtab, hash, name);
    }
  }

  /** How the walk of DT_HASH starts. */
  lemma SysvStart(t: SysvTable, symtab: seq<Symbol>, hash: string -> nat, name: string)
    requires SysvValid(t, symtab, hash)
    ensures SysvShape(t, symtab)
    ensures var i := BucketIndex(t, hash(name)); Follows(t, symtab, i, Chain(t, symtab, i, |symtab|))
  {
    BucketIndexOfRemainder(t, hash(name));
    assert SysvChainValid(t, symtab, hash(name) % t.nbucket);
  }

  // ----- the iterator

  datatype Kind = ElfHash | GnuHash | ElfSym | NoSym

  class LookupIterator {
    const name: string
    const file: SymbolFile
    var kind: Kind
    var current: int             // u.elf.current or u.gnu.current
    var curHash: Option<nat>     // u.gnu.cur_hash as an index into the hash words; None is the null pointer
    ghost var end: nat           // where the bucket being walked ends
    ghost var rest: seq<nat>     // what is left of the chain being walked

    ghost predicate Valid()
      reads this
    {
      match kind
      case GnuHash =>
        && file.gnu.Some? && |file.symtab| == file.gnu.value.symndx + |file.gnu.value.chains|
        && (curHash.Some? ==>
              curHash.value == current - file.gnu.value.symndx && Marked(file.gnu.value, current, end))
      case ElfHash =>
        && file.sysv.Some? && SysvShape(file.sysv.value, file.symtab)
        && -(file.sysv.value.nbucket as int) <= current < |file.symtab|
        && InTable(file.symtab, rest)
        && Follows(file.sysv.value, file.symtab, current, rest)
      case _ => true
    }

    /** The indices still to come. */
    ghost function Remaining(): seq<nat>
      requires Valid()
      reads this
    {
      match kind
      case GnuHash => if curHash.None? then [] else Scan(file.symtab, name, current, end)
      case ElfHash => Picked(file.symtab, name, rest)
      case _ => []
    }

    /** vdl_lookup_file_begin */
    constructor Begin(file: SymbolFile, name: string, elf: nat, gnu: nat,
                      ghost gnuHash: string -> nat, ghost elfHash: string -> nat)
      requires FileValid(file, gnuHash, elfHash) && gnu == gnuHash(name) && elf == elfHash(name)
      ensures this.file == file && this.name == name && Valid()
      ensures Remaining() == Yields(file, name, elfHash)
    {
      this.file, this.name := file, name;
      kind, current, curHash, end, rest := NoSym, 0, None, 0, [];
      if !file.hasTables {
      } else if file.gnu.Some? {
        var t := file.gnu.value;
        var bitmask := {HashBit1(gnu)} + {HashBit2(t, gnu)};
        GnuStart(t, file.symtab, gnuHash, name);
        if BloomWord(t, gnu) * bitmask == bitmask {
          var chain := t.buckets[BucketNumber(t, gnu)];
          if chain != 0 {
            kind, current, curHash := GnuHash, chain, Some(chain - t.symndx);
            end := BucketEnd(t, file.symtab, gnuHash, chain);
          }
        }
      } else if file.sysv.Some? {
        var t := file.sysv.value;
        kind, current := ElfHash, -((t.nbucket - elf % t.nbucket) as int);
        SysvStart(t, file.symtab, elfHash, name);
        rest := Chain(t, file.symtab, BucketIndex(t, elf), |file.symtab|);
      } else {
        kind := ElfSym;
      }
    }

    /** vdl_lookup_file_has_next: moves to just before the next match without skipping it. */
    method HasNext() returns (found: bool)
      requires Valid()
      modifies this
      ensures Valid() && Remaining() == old(Remaining())
      ensures found <==> Remaining() != []
      ensures found ==> AtMatch()
    {
      match kind
      case NoSym => found := false;
      case ElfSym => found := false;
      case ElfHash => found := ElfHasNext();
      case GnuHash => found := GnuHasNext();
    }

    /** The next step yields a match. */
    ghost predicate AtMatch()
      requires Valid()
      reads this
    {
      match kind
      case GnuHash => curHash.Some? && Matches(file.symtab[current], name)
      case ElfHash => rest != [] && Matches(file.symtab[rest[0]], name)
      case _ => false
    }

    method ElfHasNext() returns (found: bool)
      requires Valid() && kind == ElfHash
      modifies this
      ensures Valid() && kind == ElfHash && Remaining() == old(Remaining())
      ensures found <==> Remaining() != []
      ensures found ==> AtMatch()
    {
      var t := file.sysv.value;
      var prev := current;
      var cur := At(t, current);
      found := false;
      ghost var left: seq<nat> := rest;
      while cur != 0
        invariant -(t.nbucket as int) <= prev < |file.symtab| && cur == At(t, prev)
        invariant InTable(file.symtab, left) && Follows(t, file.symtab, prev, left)
        invariant Picked(file.symtab, name, left) == old(Remaining())
        modifies {}
        decreases |left|
      {
        if file.symtab[cur].stName != 0 && file.symtab[cur].shndx != SHN_UNDEF {
          if file.symtab[cur].text == name {
            found := true;
            break;
          }
        }
        prev := cur;
        cur := At(t, cur);
        left := left[1..];
      }
      current, rest := prev, left;
    }

    method GnuHasNext() returns (found: bool)
      requires Valid() && kind == GnuHash
      modifies this
      ensures Valid() && kind == GnuHash && Remaining() == old(Remaining())
      ensures found <==> Remaining() != []
      ensures found ==> AtMatch()
    {
      var t := file.gnu.value;
      var cur := current;
      var hash := curHash;
      found := false;
      while hash.Some?
        invariant hash.Some? ==> old(curHash).Some? && current <= cur < end && hash.value == cur - t.symndx
        invariant hash.Some? ==> Scan(file.symtab, name, cur, end) == old(Remaining())
        invariant hash.None? ==> old(Remaining()) == []
        modifies {}
        decreases if hash.Some? then 1 + end - cur else 0
      {
        if file.symtab[cur].stName != 0 && file.symtab[cur].shndx != SHN_UNDEF {
          if file.symtab[cur].text == name {
            found := true;
            break;
          }
        }
        assert LastOfBucket(t, cur) <==> cur + 1 == end;
        if t.chains[hash.value] % 2 == 1 {
          hash := None;
          continue;
        }
        hash := Some(hash.value + 1);
        cur := cur + 1;
      }
      current, curHash := cur, hash;
    }

    /** vdl_lookup_file_next */
    method Next() returns (index: nat)
      requires Valid() && Remaining() != []
      modifies this
      ensures Valid() && [index] + Remaining() == old(Remaining())
      ensures index < |file.symtab| && Matches(file.symtab[index], name)
    {
      var more := HasNext();
      if kind == ElfHash {
        index := At(file.sysv.value, current);
        assert rest[0] == index && Picked(file.symtab, name, rest) == [index] + Picked(file.symtab, name, rest[1..]);
        current := index;
        rest := rest[1..];
      } else {
        index := GnuNext();
      }
    }

    method GnuNext() returns (index: nat)
      requires Valid() && kind == GnuHash && AtMatch()
      modifies this
      ensures Valid() && [index] + Remaining() == old(Remaining())
      ensures index < |file.symtab| && Matches(file.symtab[index], name)
    {
      index := current;
      assert LastOfBucket(file.gnu.value, current) <==> current + 1 == end;
      assert Scan(file.symtab, name, current, end) == [current] + Scan(file.symtab, name, current + 1, end);
      if file.gnu.value.chains[curHash.value] % 2 == 1 {
        curHash := None;
      } else {
        current := current + 1;
        curHash := Some(curHash.value + 1);
      }
    }
  }
}

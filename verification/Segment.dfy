/** How one PT_LOAD segment becomes memory: page rounding, the file mapping, the zeroed tail and the
    anonymous pages. */
module Segment {
  import opened Common
  import opened Align

  type File = nat -> Byte  // the byte at each offset; zero past the end of the last page

  datatype Phdr = Phdr(offset: nat, vaddr: nat, filesz: nat, memsz: nat)

  datatype FileMap = FileMap(fileStart: nat, fileSize: int, memStart: nat, memSize: int,
                             memZeroStart: nat, memZeroSize: int, memAnonStart: nat, memAnonSize: int)

  /** The addresses from lo up to lo + size. */
  function Range(lo: int, size: int): (r: set<int>)
    ensures forall a :: a in r <==> lo <= a < lo + size
    decreases size
  {
    if size <= 0 then {} else {lo + size - 1} + Range(lo, size - 1)
  }

  /** A loadable segment as the System V ABI (Edition 4.1, chapter 5, Program Header) demands it; a segment
      without memory cannot be mapped. */
  predicate Loadable(ph: Phdr, page: nat) {
    page > 0 && ph.offset % page == ph.vaddr % page && ph.filesz <= ph.memsz && ph.memsz > 0
  }

  /** What the record says of the segment: whole pages around it, the file pages at the same distance, and a
      tail to zero that starts where the file ends and stops at the end of the segment or of the page. */
  ghost predicate Maps(m: FileMap, ph: Phdr, page: nat) {
    && page > 0 && ph.filesz <= ph.memsz
    && m.memStart % page == 0 && m.memStart <= ph.vaddr < m.memStart + page
    && ph.offset - m.fileStart == ph.vaddr - m.memStart
    && (m.fileStart + m.fileSize) % page == 0
    && ph.offset + ph.filesz <= m.fileStart + m.fileSize < ph.offset + ph.filesz + page
    && MemEnds(m, ph, page) && ZeroTail(m, ph, page)
  }

  ghost predicate MemEnds(m: FileMap, ph: Phdr, page: nat)
    requires page > 0
  {
    && (m.memStart + m.memSize) % page == 0
    && ph.vaddr + ph.memsz <= m.memStart + m.memSize < ph.vaddr + ph.memsz + page
    && m.memAnonStart == AlignUp(ph.vaddr + ph.filesz, page)
    && m.memAnonSize >= 0 && m.memAnonStart + m.memAnonSize == m.memStart + m.memSize
  }

  /** The zeroed bytes lie in one page and past the file's bytes. */
  ghost predicate ZeroTail(m: FileMap, ph: Phdr, page: nat)
    requires page > 0
  {
    && m.memZeroStart == ph.vaddr + ph.filesz && m.memZeroSize >= 0
    && (m.memAnonSize > 0 ==> m.memZeroStart + m.memZeroSize == m.memAnonStart < ph.vaddr + ph.memsz)
    && (m.memAnonSize == 0 ==> m.memZeroStart + m.memZeroSize == ph.vaddr + ph.memsz <= m.memAnonStart)
    && (m.memZeroSize > 0 ==> m.memZeroStart + m.memZeroSize <= AlignDown(m.memZeroStart, page) + page)
  }

  /** Congruent addresses are equally far into their pages. */
  lemma SamePlaceInPage(ph: Phdr, page: nat)
    requires page > 0 && ph.offset % page == ph.vaddr % page
    ensures ph.offset - AlignDown(ph.offset, page) == ph.vaddr - AlignDown(ph.vaddr, page)
  {
  }

  /** Between a value and the next multiple there is no page boundary. */
  lemma UpIsNextPage(z: nat, page: nat)
    requires page > 0
    ensures AlignUp(z, page) <= AlignDown(z, page) + page
  {
    AlignDownIs(z, page);
  }

  /** pt_load_to_file_map */
  method PtLoadToFileMap(ph: Phdr, page: nat) returns (m: FileMap)
    requires Loadable(ph, page)
    ensures Maps(m, ph, page) && m.memSize > 0
  {
    var fileStart := AlignDown(ph.offset, page);
    var fileSize := AlignUp(ph.offset + ph.filesz, page) - fileStart;
    var memStart := AlignDown(ph.vaddr, page);
    var memSize := AlignUp(ph.vaddr + ph.memsz, page) - memStart;
    var memAnonStart := AlignUp(ph.vaddr + ph.filesz, page);
    var memAnonSize := AlignUp(ph.vaddr + ph.memsz, page) - memAnonStart;
    var memZeroStart := ph.vaddr + ph.filesz;
    var memZeroSize := 0;
    if memAnonSize > 0 {
      memZeroSize := memAnonStart - memZeroStart;
    } else {
      memZeroSize := ph.memsz - ph.filesz;
    }
    m := FileMap(fileStart, fileSize, memStart, memSize, memZeroStart, memZeroSize, memAnonStart, memAnonSize);
    AlignDownIs(ph.vaddr, page);
    SamePlaceInPage(ph, page);
    AlignUpIs(ph.offset + ph.filesz, page);
    AlignUpIs(ph.vaddr + ph.filesz, page);
    AlignUpIs(ph.vaddr + ph.memsz, page);
    AlignUpMonotone(ph.vaddr + ph.filesz, ph.vaddr + ph.memsz, page);
    UpIsNextPage(ph.vaddr + ph.filesz, page);
  }

  /** The byte the segment puts at its own address x: the file's where the file reaches, zero up to the end of
      the segment and in the pages past the last file page, and the file's again in the rest of that page. */
  function SegmentByte(ph: Phdr, page: nat, file: File, x: int): Byte
    requires page > 0 && ph.offset + (x - ph.vaddr) >= 0
  {
    if ph.vaddr + ph.filesz <= x && (x < ph.vaddr + ph.memsz || AlignUp(ph.vaddr + ph.filesz, page) <= x) then 0
    else file(ph.offset + (x - ph.vaddr))
  }

  /** Mapping, zeroing and replacing, in that order, give each address its byte. */
  lemma SegmentByteIs(m: FileMap, ph: Phdr, page: nat, file: File, x: int)
    requires Maps(m, ph, page) && m.memStart <= x < m.memStart + m.memSize
    ensures SegmentByte(ph, page, file, x)
         == if m.memAnonStart <= x || m.memZeroStart <= x < m.memZeroStart + m.memZeroSize then 0
            else file(m.fileStart + (x - m.memStart))
  {
  }

  lemma DownOfShifted(z: nat, page: nat, loadBase: nat)
    requires page > 0 && loadBase % page == 0
    ensures AlignDown(loadBase + z, page) == loadBase + AlignDown(z, page)
  {
    var q, r := loadBase / page, z / page;
    assert loadBase == q * page && z == r * page + z % page;
    assert loadBase + z == (q + r) * page + z % page;
    DivModUnique(loadBase + z, page, q + r, z % page);
  }

  /** The page of a byte between two page boundaries lies between them. */
  lemma PageBetween(lo: nat, z: nat, hi: nat, page: nat)
    requires page > 0 && lo % page == 0 && hi % page == 0 && lo <= z < hi
    ensures lo <= AlignDown(z, page) <= z && AlignDown(z, page) + page <= hi
  {
    AlignDownIs(z, page);
    if AlignDown(z, page) < lo {
      MultiplesApart(lo, AlignDown(z, page), page);
    }
    MultiplesApart(hi, AlignDown(z, page), page);
  }

  /** An address space: the bytes of the mapped addresses and the addresses that may be written. */
  class AddressSpace {
    var bytes: map<int, Byte>
    var writable: set<int>

    /** mmap of file pages at a fixed address */
    method MmapFile(addr: nat, size: int, canWrite: bool, file: File, offset: nat)
      requires size > 0
      modifies this
      ensures forall a {:trigger a in bytes} :: a in bytes <==> a in old(bytes) || addr <= a < addr + size
      ensures forall a {:trigger bytes[a]} :: a in bytes ==>
                bytes[a] == if addr <= a < addr + size then file(offset + (a - addr)) else old(bytes)[a]
      ensures writable == old(writable) - Range(addr, size) + if canWrite then Range(addr, size) else {}
    {
      bytes := map a | a in bytes.Keys + Range(addr, size) ::
        if a in Range(addr, size) then file(offset + (a - addr)) else bytes[a];
      writable := writable - Range(addr, size) + if canWrite then Range(addr, size) else {};
    }

    /** mmap of anonymous pages at a fixed address */
    method MmapAnonymous(addr: nat, size: int, canWrite: bool)
      requires size > 0
      modifies this
      ensures forall a {:trigger a in bytes} :: a in bytes <==> a in old(bytes) || addr <= a < addr + size
      ensures forall a {:trigger bytes[a]} :: a in bytes ==>
                bytes[a] == if addr <= a < addr + size then 0 else old(bytes)[a]
      ensures writable == old(writable) - Range(addr, size) + if canWrite then Range(addr, size) else {}
    {
      bytes := map a | a in bytes.Keys + Range(addr, size) :: if a in Range(addr, size) then 0 else bytes[a];
      writable := writable - Range(addr, size) + if canWrite then Range(addr, size) else {};
    }

    method Munmap(addr: nat, size: int)
      requires size > 0
      modifies this
      ensures forall a {:trigger a in bytes} :: a in bytes <==> a in old(bytes) && !(addr <= a < addr + size)
      ensures forall a {:trigger bytes[a]} :: a in bytes ==> bytes[a] == old(bytes)[a]
      ensures writable == old(writable) - Range(addr, size)
    {
      bytes := bytes - Range(addr, size);
      writable := writable - Range(addr, size);
    }

    /** mprotect of mapped pages */
    method Mprotect(addr: nat, size: nat, canWrite: bool)
      requires forall a :: addr <= a < addr + size ==> a in bytes
      modifies this`writable
      ensures writable == old(writable) - Range(addr, size) + if canWrite then Range(addr, size) else {}
    {
      writable := writable - Range(addr, size) + if canWrite then Range(addr, size) else {};
    }

    /** vdl_memset: the value is cut to a byte; every byte must be mapped and writable. */
    method MemSet(d: nat, c: int, n: int)
      requires n >= 0 && forall a :: d <= a < d + n ==> a in bytes && a in writable
      modifies this`bytes
      ensures bytes.Keys == old(bytes.Keys)
      ensures forall a {:trigger bytes[a]} :: a in bytes ==>
                bytes[a] == if d <= a < d + n then c % 0x100 else old(bytes)[a]
    {
      var i := 0;
      while i < n
        invariant i <= n && bytes.Keys == old(bytes.Keys)
        invariant forall a {:trigger bytes[a]} :: a in bytes ==>
                    bytes[a] == if d <= a < d + i then c % 0x100 else old(bytes)[a]
      {
        assert d + i in bytes;
        bytes := bytes[d + i := c % 0x100];
        i := i + 1;
      }
    }

    /** file_map_do: pages outside the segment keep their bytes and protection; in the segment every byte is
        the one SegmentByte says, and the requested protection holds everywhere. */
    method FileMapDo(m: FileMap, ghost ph: Phdr, page: nat, file: File, canWrite: bool, loadBase: nat)
      requires Maps(m, ph, page) && m.memSize > 0 && loadBase % page == 0
      modifies this
      ensures forall a {:trigger a in bytes} :: a in bytes <==>
                (a in old(bytes) || loadBase + m.memStart <= a < loadBase + m.memStart + m.memSize)
      ensures forall a {:trigger bytes[a]} :: a in bytes ==>
                bytes[a] == if loadBase + m.memStart <= a < loadBase + m.memStart + m.memSize
                            then SegmentByte(ph, page, file, a - loadBase) else old(bytes)[a]
      ensures var r := Range(loadBase + m.memStart, m.memSize);
              writable == old(writable) - r + if canWrite then r else {}
    {
      var z := loadBase + m.memZeroStart;
      if m.memZeroSize > 0 {
        PageBetween(m.memStart, m.memZeroStart, m.memStart + m.memSize, page);
        DownOfShifted(m.memZeroStart, page, loadBase);
      }
      Remap(loadBase + m.memStart, m.memSize, z, m.memZeroSize, AlignDown(z, page), page,
            loadBase + m.memAnonStart, m.memAnonSize, canWrite, file, m.fileStart);
      forall a | a in bytes && loadBase + m.memStart <= a < loadBase + m.memStart + m.memSize
        ensures bytes[a] == SegmentByte(ph, page, file, a - loadBase)
      {
        SegmentByteIs(m, ph, page, file, a - loadBase);
      }
    }

    /** The system calls of file_map_do: the mapping of `size` bytes at lo, the n bytes at z to clear, in the page
        at p, and the anonymous end. */
    method Remap(lo: nat, size: int, z: nat, n: int, p: nat, page: nat, anon: nat, anonSize: int,
                 canWrite: bool, file: File, offset: nat)
      requires size > 0 && n >= 0 && anonSize >= 0 && lo <= anon && anon + anonSize == lo + size
      requires n > 0 ==> lo <= p <= z && z + n <= p + page <= lo + size
      modifies this
      ensures forall a {:trigger a in bytes} :: a in bytes <==> (a in old(bytes) || lo <= a < lo + size)
      ensures forall a {:trigger bytes[a]} :: a in bytes ==>
                bytes[a] == if !(lo <= a < lo + size) then old(bytes)[a]
                            else if anon <= a || z <= a < z + n then 0 else file(offset + (a - lo))
      ensures writable == old(writable) - Range(lo, size) + if canWrite then Range(lo, size) else {}
    {
      MmapFile(lo, size, canWrite, file, offset);
      if n != 0 {
        ZeroInPage(p, z, n, page, canWrite);
      }
      if anonSize > 0 {
        ReplaceByAnonymous(anon, anonSize, canWrite);
      }
    }

    /** Zero n bytes at d, which lie in the page at p, and leave the protection as it was. */
    method ZeroInPage(p: nat, d: nat, n: nat, page: nat, canWrite: bool)
      requires p <= d && d + n <= p + page
      requires forall a {:trigger a in bytes} {:trigger a in writable} ::
                 p <= a < p + page ==> a in bytes && (a in writable <==> canWrite)
      modifies this
      ensures bytes.Keys == old(bytes.Keys) && writable == old(writable)
      ensures forall a {:trigger bytes[a]} :: a in bytes ==> bytes[a] == if d <= a < d + n then 0 else old(bytes)[a]
    {
      assert !canWrite ==> writable - Range(p, page) == writable;
      assert canWrite ==> Range(p, page) <= writable;
      if !canWrite {
        Mprotect(p, page, true);
      }
      MemSet(d, 0, n);
      if !canWrite {
        Mprotect(p, page, false);
      }
    }

    method ReplaceByAnonymous(addr: nat, size: int, canWrite: bool)
      requires size > 0
      modifies this
      ensures forall a {:trigger a in bytes} :: a in bytes <==> a in old(bytes) || addr <= a < addr + size
      ensures forall a {:trigger bytes[a]} :: a in bytes ==>
                bytes[a] == if addr <= a < addr + size then 0 else old(bytes)[a]
      ensures writable == old(writable) - Range(addr, size) + if canWrite then Range(addr, size) else {}
    {
      Munmap(addr, size);
      MmapAnonymous(addr, size, canWrite);
    }

    /** A loaded segment: the file's bytes at their addresses, zero up to the segment's memory size, and no
        byte of any other page touched. */
    method LoadSegment(ph: Phdr, page: nat, file: File, canWrite: bool, loadBase: nat) returns (m: FileMap)
      requires Loadable(ph, page) && loadBase % page == 0
      modifies this
      ensures Maps(m, ph, page)
      ensures forall i: nat {:trigger file(ph.offset + i)} :: i < ph.filesz ==>
                loadBase + ph.vaddr + i in bytes && bytes[loadBase + ph.vaddr + i] == file(ph.offset + i)
      ensures forall a :: loadBase + ph.vaddr + ph.filesz <= a < loadBase + ph.vaddr + ph.memsz ==>
                a in bytes && bytes[a] == 0
      ensures forall a :: a in old(bytes) && !(loadBase + m.memStart <= a < loadBase + m.memStart + m.memSize) ==>
                a in bytes && bytes[a] == old(bytes)[a] && (a in writable <==> a in old(writable))
      ensures forall a :: loadBase + m.memStart <= a < loadBase + m.memStart + m.memSize ==>
                (a in writable <==> canWrite)
    {
      m := PtLoadToFileMap(ph, page);
      FileMapDo(m, ph, page, file, canWrite, loadBase);
      forall i: nat {:trigger file(ph.offset + i)} | i < ph.filesz
        ensures loadBase + ph.vaddr + i in bytes && bytes[loadBase + ph.vaddr + i] == file(ph.offset + i)
      {
        assert SegmentByte(ph, page, file, loadBase + ph.vaddr + i - loadBase) == file(ph.offset + i);
      }
    }
  }
}

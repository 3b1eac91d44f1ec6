/** The variant II static TLS area: every static block lies at a negative offset from the TCB. */
module StaticTls {
  import opened Align

  /** TLS_EXTRA_STATIC_ALLOC: room kept for static blocks of files opened later. */
  const EXTRA: nat := 1000

  /** The PT_TLS segment of a file, if it has one. */
  datatype Image = Image(hasTls: bool, isStatic: bool, tmplSize: nat, zeroSize: nat, align: nat)

  /** The bytes [offset, offset + size) relative to the TCB. */
  datatype Block = Block(offset: int, size: nat, align: nat)

  predicate Placed(i: Image) { i.hasTls && i.isStatic }

  predicate Aligned(images: seq<Image>) { forall i :: i in images && Placed(i) ==> i.align >= 1 }

  /** The size of the static area once `i` is placed below the first `base` bytes. */
  function Extend(base: nat, i: Image): nat
    requires Placed(i) ==> i.align >= 1
  {
    if Placed(i) then AlignUp(base + i.tmplSize + i.zeroSize, i.align) else base
  }

  function TotalSize(base: nat, images: seq<Image>): nat
    requires Aligned(images)
  {
    if images == [] then base else Extend(TotalSize(base, images[..|images| - 1]), images[|images| - 1])
  }

  function Blocks(base: nat, images: seq<Image>): seq<Block>
    requires Aligned(images)
  {
    if images == [] then []
    else
      var front, last := images[..|images| - 1], images[|images| - 1];
      if Placed(last) then
        Blocks(base, front) + [Block(-(TotalSize(base, images) as int), last.tmplSize + last.zeroSize, last.align)]
      else Blocks(base, front)
  }

  function MaxAlign(align: nat, images: seq<Image>): nat {
    if images == [] then align
    else
      var m, last := MaxAlign(align, images[..|images| - 1]), images[|images| - 1];
      if Placed(last) && last.align > m then last.align else m
  }

  /** The alignment is at least the initial one and that of every placed image, and is one of them. */
  lemma {:induction false} MaxAlignIsGreatest(align: nat, images: seq<Image>)
    ensures MaxAlign(align, images) >= align
    ensures forall i :: i in images && Placed(i) ==> i.align <= MaxAlign(align, images)
    ensures MaxAlign(align, images) == align ||
            exists i :: i in images && Placed(i) && i.align == MaxAlign(align, images)
  {
    if images != [] {
      var front, last := images[..|images| - 1], images[|images| - 1];
      MaxAlignIsGreatest(align, front);
      assert images == front + [last];
      if MaxAlign(align, front) != align {
        var i :| i in front && Placed(i) && i.align == MaxAlign(align, front);
        assert i in images;
      }
      assert last in images;
    }
  }

  predicate Disjoint(a: Block, b: Block) {
    a.offset + a.size <= b.offset || b.offset + b.size <= a.offset
  }

  /** Pairwise disjoint aligned blocks between `high` and `low` bytes below the TCB. */
  ghost predicate Laid(blocks: seq<Block>, low: nat, high: nat) {
    && (forall b :: b in blocks ==> -(high as int) <= b.offset && b.offset + b.size <= -(low as int))
    && (forall b :: b in blocks ==> b.align >= 1 && b.offset % b.align == 0)
    && (forall i, j :: 0 <= i < j < |blocks| ==> Disjoint(blocks[i], blocks[j]))
  }

  lemma {:induction false} BlocksLaid(base: nat, images: seq<Image>)
    requires Aligned(images)
    ensures base <= TotalSize(base, images) && Laid(Blocks(base, images), base, TotalSize(base, images))
  {
    if images != [] {
      var front, last := images[..|images| - 1], images[|images| - 1];
      BlocksLaid(base, front);
      if Placed(last) {
        assert last in images;
        AlignUpIs(TotalSize(base, front) + last.tmplSize + last.zeroSize, last.align);
        NegatedMultiple(TotalSize(base, images), last.align);
      }
    }
  }

  /** Every placed image has a block of its size and alignment that ends where the area ended before it. */
  lemma {:induction false} PlacedHasBlock(base: nat, images: seq<Image>, k: nat)
    requires Aligned(images) && k < |images| && Placed(images[k])
    ensures Block(-(TotalSize(base, images[..k + 1]) as int), images[k].tmplSize + images[k].zeroSize, images[k].align)
              in Blocks(base, images)
    decreases |images|
  {
    var front := images[..|images| - 1];
    if k < |front| {
      assert front[..k + 1] == images[..k + 1];
      PlacedHasBlock(base, front, k);
    } else {
      assert images[..k + 1] == images;
    }
  }

  /** And there are no other blocks. */
  lemma {:induction false} BlockIsPlaced(base: nat, images: seq<Image>, b: Block) returns (k: nat)
    requires Aligned(images) && b in Blocks(base, images)
    ensures k < |images| && Placed(images[k]) && b.size == images[k].tmplSize + images[k].zeroSize
    ensures b.align == images[k].align
  {
    var front, last := images[..|images| - 1], images[|images| - 1];
    if Placed(last) && b == Blocks(base, images)[|Blocks(base, images)| - 1] {
      k := |front|;
    } else {
      k := BlockIsPlaced(base, front, b);
    }
  }

  lemma AlignsBelow(align: nat, base: nat, images: seq<Image>, b: Block)
    requires Aligned(images) && b in Blocks(base, images)
    ensures b.align <= MaxAlign(align, images)
  {
    var k := BlockIsPlaced(base, images, b);
    MaxAlignIsGreatest(align, images);
    assert images[k] in images;
  }

  lemma LaidJoined(a: seq<Block>, b: seq<Block>, low: nat, mid: nat, high: nat)
    requires low <= mid <= high && Laid(a, low, mid) && Laid(b, mid, high)
    ensures Laid(a + b, low, high)
  {
    var c := a + b;
    forall i, j | 0 <= i < j < |c| ensures Disjoint(c[i], c[j]) {
      if i < |a| <= j {
        assert c[i] in a && c[j] in b;
      }
    }
  }

  // ----- startup and every later dlopen

  datatype Area = Area(current: nat, total: nat, align: nat, blocks: seq<Block>)

  predicate StartupPossible(images: seq<Image>) {
    Aligned(images) && exists i :: i in images && Placed(i)
  }

  lemma {:induction false} MaxAlignPositive(align: nat, images: seq<Image>)
    requires Aligned(images) && (align >= 1 || exists i :: i in images && Placed(i))
    ensures MaxAlign(align, images) >= 1
  {
    if images != [] {
      var front, last := images[..|images| - 1], images[|images| - 1];
      if !Placed(last) && align == 0 {
        var i :| i in images && Placed(i);
        assert i in front;
      }
      assert last in images;
      if align >= 1 || exists i :: i in front && Placed(i) {
        MaxAlignPositive(align, front);
      }
    }
  }

  /** vdl_tls_file_initialize_main */
  function Startup(images: seq<Image>): Area
    requires StartupPossible(images)
  {
    MaxAlignPositive(0, images);
    var size := TotalSize(0, images);
    Area(size, AlignUp(size + EXTRA, MaxAlign(0, images)), MaxAlign(0, images), Blocks(0, images))
  }

  /** vdl_tls_file_initialize; an opening that does not fit leaves the area alone. */
  function Opened(a: Area, images: seq<Image>): Area
    requires Aligned(images)
  {
    var size := TotalSize(a.current, images);
    if size < a.total then
      Area(size, a.total, MaxAlign(a.align, images), a.blocks + Blocks(a.current, images))
    else a
  }

  function AfterAll(a: Area, opens: seq<seq<Image>>): Area
    requires forall o :: o in opens ==> Aligned(o)
    decreases |opens|
  {
    if opens == [] then a else AfterAll(Opened(a, opens[0]), opens[1..])
  }

  ghost predicate AreaValid(a: Area) {
    a.current <= a.total && Laid(a.blocks, 0, a.current) && forall b :: b in a.blocks ==> b.align <= a.align
  }

  /** The main program leaves room for files opened later, and the area is a multiple of its alignment. */
  lemma StartupLeavesRoom(images: seq<Image>)
    requires StartupPossible(images)
    ensures var a := Startup(images);
            && AreaValid(a) && a.align >= 1 && a.total % a.align == 0
            && a.current + 1000 <= a.total < a.current + 1000 + a.align
  {
    BlocksLaid(0, images);
    MaxAlignPositive(0, images);
    AlignUpIs(TotalSize(0, images) + EXTRA, MaxAlign(0, images));
    forall b | b in Blocks(0, images) ensures b.align <= MaxAlign(0, images) {
      AlignsBelow(0, 0, images, b);
    }
  }

  lemma OpenedValid(a: Area, images: seq<Image>)
    requires AreaValid(a) && Aligned(images)
    ensures AreaValid(Opened(a, images)) && Opened(a, images).total == a.total
    ensures a.blocks <= Opened(a, images).blocks
  {
    BlocksLaid(a.current, images);
    if TotalSize(a.current, images) < a.total {
      MaxAlignIsGreatest(a.align, images);
      forall b | b in Blocks(a.current, images) ensures b.align <= MaxAlign(a.align, images) {
        AlignsBelow(a.align, a.current, images, b);
      }
      LaidJoined(a.blocks, Blocks(a.current, images), 0, a.current, TotalSize(a.current, images));
    }
  }

  lemma {:induction false} AfterAllValid(a: Area, opens: seq<seq<Image>>)
    requires AreaValid(a) && forall o :: o in opens ==> Aligned(o)
    ensures AreaValid(AfterAll(a, opens)) && AfterAll(a, opens).total == a.total
    ensures a.blocks <= AfterAll(a, opens).blocks
    decreases |opens|
  {
    if opens != [] {
      OpenedValid(a, opens[0]);
      AfterAllValid(Opened(a, opens[0]), opens[1..]);
    }
  }

  lemma {:induction false} AfterAllSplit(a: Area, opens: seq<seq<Image>>, k: nat)
    requires k <= |opens| && forall o :: o in opens ==> Aligned(o)
    ensures AfterAll(a, opens) == AfterAll(AfterAll(a, opens[..k]), opens[k..])
    decreases k
  {
    if k > 0 {
      AfterAllSplit(Opened(a, opens[0]), opens[1..], k - 1);
      assert opens[1..][..k - 1] == opens[..k][1..] && opens[1..][k - 1..] == opens[k..];
    } else {
      assert opens[..0] == [] && opens[0..] == opens;
    }
  }

  /** Over startup and any sequence of openings, failed ones included: the static blocks are pairwise
      disjoint, stay inside the area allocated below the TCB at startup, each is aligned relative to the
      TCB, and no block placed earlier ever moves. */
  lemma {:induction false} StaticBlocksAreLaidOut(images: seq<Image>, opens: seq<seq<Image>>)
    requires StartupPossible(images) && forall o :: o in opens ==> Aligned(o)
    ensures var a := AfterAll(Startup(images), opens);
            && a.total == Startup(images).total
            && Startup(images).blocks <= a.blocks
            && (forall b :: b in a.blocks ==> -(a.total as int) <= b.offset && b.offset + b.size <= 0)
            && (forall b :: b in a.blocks ==> 1 <= b.align <= a.align && b.offset % b.align == 0)
            && (forall i, j :: 0 <= i < j < |a.blocks| ==> Disjoint(a.blocks[i], a.blocks[j]))
  {
    StartupLeavesRoom(images);
    AfterAllValid(Startup(images), opens);
  }

  /** Image k of the files the main program starts with has, after every opening, a block of its size. */
  lemma StartedHasBlock(images: seq<Image>, opens: seq<seq<Image>>, k: nat)
    requires StartupPossible(images) && (forall o :: o in opens ==> Aligned(o)) && k < |images| && Placed(images[k])
    ensures exists b :: b in AfterAll(Startup(images), opens).blocks && b.align == images[k].align
                        && b.size == images[k].tmplSize + images[k].zeroSize
  {
    PlacedHasBlock(0, images, k);
    StaticBlocksAreLaidOut(images, opens);
    var b := Block(-(TotalSize(0, images[..k + 1]) as int), images[k].tmplSize + images[k].zeroSize, images[k].align);
    assert b in Startup(images).blocks;
  }

  /** So has image k of opening n, when what it needs stays below the total. */
  lemma OpenedHasBlock(images: seq<Image>, opens: seq<seq<Image>>, n: nat, k: nat)
    requires StartupPossible(images) && (forall o :: o in opens ==> Aligned(o))
    requires n < |opens| && k < |opens[n]| && Placed(opens[n][k])
    requires var a := AfterAll(Startup(images), opens[..n]); TotalSize(a.current, opens[n]) < a.total
    ensures exists b :: b in AfterAll(Startup(images), opens).blocks && b.align == opens[n][k].align
                        && b.size == opens[n][k].tmplSize + opens[n][k].zeroSize
  {
    var a, image := AfterAll(Startup(images), opens[..n]), opens[n][k];
    AfterAllSplit(Startup(images), opens, n);
    assert opens[n..][0] == opens[n] && opens[n..][1..] == opens[n + 1..];
    StartupLeavesRoom(images);
    AfterAllValid(Startup(images), opens[..n]);
    OpenedValid(a, opens[n]);
    AfterAllValid(Opened(a, opens[n]), opens[n + 1..]);
    PlacedHasBlock(a.current, opens[n], k);
    var b := Block(-(TotalSize(a.current, opens[n][..k + 1]) as int), image.tmplSize + image.zeroSize, image.align);
    assert b in Opened(a, opens[n]).blocks;
  }

  // ----- the code

  class TlsFile {
    const image: Image
    var tlsOffset: int

    constructor (image: Image)
      ensures this.image == image && tlsOffset == 0
    {
      this.image := image;
      tlsOffset := 0;
    }
  }

  ghost function Images(files: seq<TlsFile>): (r: seq<Image>)
    ensures |r| == |files|
  {
    seq(|files|, i requires 0 <= i < |files| => files[i].image)
  }

  lemma ImagesPrefix(files: seq<TlsFile>, i: nat)
    requires i < |files|
    ensures Images(files[..i + 1])[..i] == Images(files[..i])
    ensures Images(files[..i + 1]) == Images(files[..i]) + [files[i].image]
  {
  }

  ghost predicate FilesAligned(files: seq<TlsFile>) {
    forall i :: 0 <= i < |files| && Placed(files[i].image) ==> files[i].image.align >= 1
  }

  lemma AlignedPrefix(files: seq<TlsFile>, i: nat)
    requires FilesAligned(files) && i <= |files|
    ensures Aligned(Images(files[..i]))
  {
    forall im | im in Images(files[..i]) && Placed(im) ensures im.align >= 1 {
      var j :| 0 <= j < i && files[j].image == im;
    }
  }

  /** The size of the area once the first n files are placed. */
  ghost function SizeAfter(base: nat, files: seq<TlsFile>, n: nat): nat
    requires FilesAligned(files) && n <= |files|
  {
    AlignedPrefix(files, n);
    TotalSize(base, Images(files[..n]))
  }

  /** The size and the alignment once one more file is placed. */
  lemma PlacedNext(base: nat, align: nat, files: seq<TlsFile>, i: nat)
    requires FilesAligned(files) && i < |files|
    ensures Aligned(Images(files[..i])) && Aligned(Images(files[..i + 1]))
    ensures TotalSize(base, Images(files[..i + 1])) == Extend(TotalSize(base, Images(files[..i])), files[i].image)
    ensures var m := MaxAlign(align, Images(files[..i]));
            MaxAlign(align, Images(files[..i + 1]))
            == if Placed(files[i].image) && files[i].image.align > m then files[i].image.align else m
  {
    ImagesPrefix(files, i);
    AlignedPrefix(files, i);
    AlignedPrefix(files, i + 1);
  }

  /** The offset each placed file must have got. */
  ghost predicate OffsetsSet(base: nat, files: seq<TlsFile>, n: nat)
    requires FilesAligned(files) && n <= |files|
    reads files
  {
    forall i :: 0 <= i < n && Placed(files[i].image) ==>
      files[i].tlsOffset == -(SizeAfter(base, files, i + 1) as int)
  }

  /** The file's offset is that of its block. */
  ghost predicate HasBlock(file: TlsFile, base: nat, images: seq<Image>)
    requires Aligned(images)
    reads file
  {
    Block(file.tlsOffset, file.image.tmplSize + file.image.zeroSize, file.image.align) in Blocks(base, images)
  }

  /** Offsets that are set are those of the blocks. */
  lemma OffsetsAreBlocks(base: nat, files: seq<TlsFile>, i: nat)
    requires FilesAligned(files) && OffsetsSet(base, files, |files|) && i < |files| && Placed(files[i].image)
    ensures Aligned(Images(files)) && HasBlock(files[i], base, Images(files))
  {
    assert files[..|files|] == files;
    AlignedPrefix(files, |files|);
    PlacedHasBlock(base, Images(files), i);
    assert Images(files)[..i + 1] == Images(files[..i + 1]);
  }

  class StaticArea {
    var currentSize: nat
    var totalSize: nat
    var maxAlign: nat

    constructor ()
      ensures currentSize == 0 && totalSize == 0 && maxAlign == 0
    {
      currentSize, totalSize, maxAlign := 0, 0, 0;
    }

    /** initialize_static_tls */
    method InitializeStaticTls(files: seq<TlsFile>) returns (size: nat, align: nat)
      requires FilesAligned(files) && forall i, j :: 0 <= i < j < |files| ==> files[i] != files[j]
      modifies files
      ensures Aligned(Images(files))
      ensures size == TotalSize(currentSize, Images(files)) && align == MaxAlign(maxAlign, Images(files))
      ensures OffsetsSet(currentSize, files, |files|)
    {
      size, align := currentSize, maxAlign;
      for i := 0 to |files|
        invariant Aligned(Images(files[..i]))
        invariant size == TotalSize(currentSize, Images(files[..i]))
        invariant align == MaxAlign(maxAlign, Images(files[..i]))
        invariant OffsetsSet(currentSize, files, i)
      {
        PlacedNext(currentSize, maxAlign, files, i);
        size, align := Place(files[i], size, align);
        assert size == SizeAfter(currentSize, files, i + 1);
      }
      assert files[..|files|] == files;
    }

    /** The round of that loop for one file. */
    method Place(file: TlsFile, size0: nat, align0: nat) returns (size: nat, align: nat)
      requires Placed(file.image) ==> file.image.align >= 1
      modifies file
      ensures Placed(file.image) ==>
                && size == AlignUp(size0 + file.image.tmplSize + file.image.zeroSize, file.image.align)
                && align == (if file.image.align > align0 then file.image.align else align0)
                && file.tlsOffset == -(size as int)
      ensures !Placed(file.image) ==> size == size0 && align == align0 && file.tlsOffset == old(file.tlsOffset)
    {
      size, align := size0, align0;
      if file.image.hasTls {
        if file.image.isStatic {
          size := size + (file.image.tmplSize + file.image.zeroSize);
          size := AlignUp(size, file.image.align);
          file.tlsOffset := -(size as int);
          if file.image.align > align {
            align := file.image.align;
          }
        }
      }
    }

    /** vdl_tls_file_initialize_main, after the per-file part */
    method InitializeMain(files: seq<TlsFile>)
      requires FilesAligned(files) && forall i, j :: 0 <= i < j < |files| ==> files[i] != files[j]
      requires currentSize == 0 && maxAlign == 0 && exists f :: f in files && Placed(f.image)
      modifies this, files
      ensures StartupPossible(Images(files))
      ensures var a := Startup(Images(files));
              currentSize == a.current && totalSize == a.total && maxAlign == a.align
      ensures OffsetsSet(0, files, |files|)
    {
      var size, align := InitializeStaticTls(files);
      assert StartupPossible(Images(files)) by {
        var i :| 0 <= i < |files| && Placed(files[i].image);
        assert Images(files)[i] in Images(files);
      }
      MaxAlignPositive(0, Images(files));
      currentSize := size;
      totalSize := AlignUp(currentSize + EXTRA, align);
      maxAlign := align;
    }

    /** vdl_tls_file_initialize, after the per-file part */
    method Initialize(files: seq<TlsFile>) returns (ok: bool)
      requires FilesAligned(files) && forall i, j :: 0 <= i < j < |files| ==> files[i] != files[j]
      modifies this, files
      ensures Aligned(Images(files))
      ensures ok <==> TotalSize(old(currentSize), Images(files)) < old(totalSize)
      ensures forall blocks ::
                var a := Opened(Area(old(currentSize), old(totalSize), old(maxAlign), blocks), Images(files));
                currentSize == a.current && totalSize == a.total && maxAlign == a.align
      ensures totalSize == old(totalSize)
      ensures currentSize == if ok then TotalSize(old(currentSize), Images(files)) else old(currentSize)
      ensures maxAlign == if ok then MaxAlign(old(maxAlign), Images(files)) else old(maxAlign)
      ensures OffsetsSet(old(currentSize), files, |files|)
    {
      var size, align := InitializeStaticTls(files);
      ok := size < totalSize;
      if ok {
        currentSize, maxAlign := size, align;
      }
    }
  }
}

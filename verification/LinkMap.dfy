/** The global link map: files linked through their own next and prev fields. */
module LinkMap {
  import opened Seqs

  class MappedFile {
    var next: MappedFile?
    var prev: MappedFile?

    constructor ()
      ensures next == null && prev == null
    {
      next, prev := null, null;
    }
  }

  /** The files of ns, in order, linked both ways, with nothing before the first and after the last. */
  ghost predicate Chain(ns: seq<MappedFile>)
    reads ns
  {
    && (forall k {:trigger ns[k].next} :: 0 <= k < |ns| ==> ns[k].next == if k == |ns| - 1 then null else ns[k + 1])
    && (forall k {:trigger ns[k].prev} :: 0 <= k < |ns| ==> ns[k].prev == if k == 0 then null else ns[k - 1])
  }

  /** As a chain, but position k is skipped. */
  ghost predicate Bypassed(ns: seq<MappedFile>, k: nat)
    requires k < |ns|
    reads ns
  {
    && (forall i {:trigger ns[i].next} :: 0 <= i < |ns| && i != k && i != k - 1 ==>
          ns[i].next == if i == |ns| - 1 then null else ns[i + 1])
    && (forall i {:trigger ns[i].prev} :: 0 <= i < |ns| && i != k && i != k + 1 ==>
          ns[i].prev == if i == 0 then null else ns[i - 1])
    && (k > 0 ==> ns[k - 1].next == if k == |ns| - 1 then null else ns[k + 1])
    && (k < |ns| - 1 ==> ns[k + 1].prev == if k == 0 then null else ns[k - 1])
  }

  lemma ChainCut(ns: seq<MappedFile>, k: nat)
    requires k < |ns| && Bypassed(ns, k)
    ensures Chain(ns[..k] + ns[k + 1..])
  {
  }

  lemma {:induction false} WithoutAt<T>(s: seq<T>, k: nat)
    requires Distinct(s) && k < |s|
    ensures Without(s, s[k]) == s[..k] + s[k + 1..]
  {
    assert s == s[..k] + ([s[k]] + s[k + 1..]);
    WithoutAppend(s[..k], [s[k]] + s[k + 1..], s[k]);
    WithoutAbsent(s[..k], s[k]);
    WithoutAbsent(s[k + 1..], s[k]);
  }

  ghost function IndexOf(s: seq<MappedFile>, x: MappedFile): (k: nat)
    requires x in s
    ensures k < |s| && s[k] == x
  {
    var k :| 0 <= k < |s| && s[k] == x;
    k
  }

  class Globals {
    var linkMap: MappedFile?
    var nAdded: nat
    var nRemoved: nat
    ghost var files: seq<MappedFile>  // the link map in order

    ghost predicate Valid()
      reads this, files
    {
      Distinct<MappedFile>(files) && linkMap == (if files == [] then null else files[0]) && Chain(files)
    }

    constructor ()
      ensures Valid() && files == [] && nAdded == 0 && nRemoved == 0
    {
      linkMap, nAdded, nRemoved, files := null, 0, 0, [];
    }

    /** vdl_linkmap_append: at the end, unless the file is there already. The first file is not counted. */
    method Append(file: MappedFile)
      requires Valid() && (file !in files ==> file.next == null && file.prev == null)
      modifies this, file, Elements<MappedFile>(files)
      ensures Valid() && files == if file in old(files) then old(files) else old(files) + [file]
      ensures nAdded == old(nAdded) + if file in old(files) || old(files) == [] then 0 else 1
      ensures nRemoved == old(nRemoved)
    {
      if linkMap == null {
        linkMap := file;
        files := [file];
        return;
      }
      var cur: MappedFile := linkMap;
      ghost var k := 0;
      while cur.next != null && cur != file
        invariant k < |files| && cur == files[k] && file !in files[..k]
        modifies {}
        decreases |files| - k
      {
        cur := cur.next;
        k := k + 1;
      }
      if cur == file {
        return;
      }
      assert files == files[..k] + [cur];
      cur.next := file;
      file.prev := cur;
      file.next := null;
      nAdded := nAdded + 1;
      files := files + [file];
    }

    /** vdl_linkmap_remove. Removing a file that is not in the map, whose links are null, loses the whole map. */
    method Remove(file: MappedFile)
      requires Valid() && (file !in files ==> file.next == null && file.prev == null)
      modifies this, file, Elements<MappedFile>(files)
      ensures Valid() && files == if file in old(files) then Without<MappedFile>(old(files), file) else []
      ensures file.next == null && file.prev == null
      ensures nAdded == old(nAdded) && nRemoved == old(nRemoved) + 1
    {
      ghost var k := if file in files then IndexOf(files, file) else |files|;
      Bypass(file, k);
      if k < |files| {
        DropFile(k);
      } else {
        files := [];
      }
    }

    /** Position k has been bypassed and is no longer on the map. */
    ghost method DropFile(k: nat)
      requires Distinct<MappedFile>(files) && k < |files| && Bypassed(files, k)
      requires linkMap == if k > 0 then files[0] else if k == |files| - 1 then null else files[1]
      modifies this`files
      ensures Valid() && files == Without<MappedFile>(old(files), old(files)[k])
    {
      ChainCut(files, k);
      WithoutAt<MappedFile>(files, k);
      DistinctCut<MappedFile>(files, k, k + 1);
      files := files[..k] + files[k + 1..];
    }

    /** The pointer updates: k is the position of the file, or past the end if it is not in the list. */
    method Bypass(file: MappedFile, ghost k: nat)
      requires Valid() && (if k < |files| then file == files[k] else file !in files)
      requires file !in files ==> file.next == null && file.prev == null
      modifies this`linkMap, this`nRemoved, file, Elements<MappedFile>(files)
      ensures file.next == null && file.prev == null && nRemoved == old(nRemoved) + 1
      ensures k >= |files| ==> linkMap == null
      ensures k < |files| ==> linkMap == if k > 0 then files[0] else if k == |files| - 1 then null else files[1]
      ensures k < |files| ==> Bypassed(files, k)
    {
      var next, prev := file.next, file.prev;
      assert k < |files| ==> files[k].prev == prev && files[k].next == next;
      file.next, file.prev := null, null;
      if prev == null {
        linkMap := next;
      } else {
        prev.next := next;
      }
      if next != null {
        next.prev := prev;
      }
      nRemoved := nRemoved + 1;
    }

    /** vdl_linkmap_copy */
    method Copy() returns (list: seq<MappedFile>)
      requires Valid()
      ensures list == files
    {
      list := [];
      var cur := linkMap;
      while cur != null
        invariant |list| <= |files| && list == files[..|list|]
        invariant cur == if |list| == |files| then null else files[|list|]
        decreases |files| - |list|
      {
        list := list + [cur];
        cur := cur.next;
      }
    }
  }
}

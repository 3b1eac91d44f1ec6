/** The tri-colour collector that decides which files dlclose unloads. */
module Gc {
  import opened Seqs
  import opened Graph
  import opened Files

  /** A duplicate-free list that contains whatever the files to be kept refer to; the others, about to be
      unmapped by another closer, may refer to files that are gone. */
  ghost predicate Collectable(list: seq<VdlFile>)
    reads Elements(list)`resolvedIn, Elements(list)`deps, Elements(list)`count
  {
    Distinct(list) && Closed<VdlFile>(RefGraph(Elements(list)), Reached(list))
  }

  /** In particular a duplicate-free list that is closed under references. */
  lemma ClosedIsCollectable(list: seq<VdlFile>)
    requires Distinct(list) && Closed<VdlFile>(RefGraph(Elements(list)), Elements(list))
    ensures Collectable(list)
  {
    ReachedSetClosed<VdlFile>(RefGraph(Elements(list)), HeldOpen(Elements(list)), list);
  }

  /** The collector's invariant: grey files are exactly the ones on the grey list, only reached files are
      coloured, every held-open file is, and no edge leads from a black file to a white one. */
  ghost predicate Tricolor(list: seq<VdlFile>, grey: seq<VdlFile>)
    reads Elements(list)
  {
    var files := Elements(list);
    && Distinct(grey) && Elements(grey) <= files
    && (forall f :: f in files ==> (f.gcColor == Grey <==> f in grey))
    && (forall f :: f in files && f.gcColor != White ==> f in Reached(list))
    && (forall f :: f in files && f.count > 0 ==> f.gcColor != White)
    && (forall f, m :: f in files && f.gcColor == Black && m in files && m in f.resolvedIn + f.deps ==>
          m.gcColor != White)
  }

  ghost function Unfinished(list: seq<VdlFile>): set<VdlFile>
    reads Elements(list)`gcColor
  {
    set f | f in Elements(list) && f.gcColor != Black
  }

  /** One of the two loops that blacken a file: the white files among `refs` turn grey and are pushed. */
  method Shade(refs: seq<VdlFile>, grey: seq<VdlFile>) returns (more: seq<VdlFile>)
    requires Distinct(grey) && forall f :: f in grey ==> f.gcColor == Grey
    modifies Elements(refs)`gcColor
    ensures forall f :: f in refs ==> f.gcColor == if old(f.gcColor) == White then Grey else old(f.gcColor)
    ensures Distinct(more)
    ensures forall f :: f in more <==> f in grey || (f in refs && old(f.gcColor) == White)
  {
    more := grey;
    for i := 0 to |refs|
      invariant Distinct(more)
      invariant forall f :: f in refs ==>
                  f.gcColor == if old(f.gcColor) == White && f in refs[..i] then Grey else old(f.gcColor)
      invariant forall f :: f in more <==> f in grey || (f in refs[..i] && old(f.gcColor) == White)
    {
      var item := refs[i];
      if item.gcColor == White {
        item.gcColor := Grey;
        more := [item] + more;
      }
    }
  }

  /** Both loops that blacken a file. */
  method ShadeBoth(ghost files: set<VdlFile>, resolvedIn: seq<VdlFile>, deps: seq<VdlFile>, grey: seq<VdlFile>)
    returns (more: seq<VdlFile>)
    requires Distinct(grey) && forall f :: f in grey ==> f.gcColor == Grey
    requires Elements(resolvedIn) <= files && Elements(deps) <= files
    modifies files`gcColor
    ensures forall f :: f in files ==>
              f.gcColor == if old(f.gcColor) == White && (f in resolvedIn || f in deps) then Grey else old(f.gcColor)
    ensures Distinct(more)
    ensures forall f :: f in more <==> f in grey || ((f in resolvedIn || f in deps) && old(f.gcColor) == White)
  {
    more := Shade(resolvedIn, grey);
    more := Shade(deps, more);
  }

  /** The initial sweep: held-open files turn grey, all others white. */
  method Sweep(list: seq<VdlFile>) returns (grey: seq<VdlFile>)
    requires Distinct(list)
    modifies Elements(list)`gcColor
    ensures Tricolor(list, grey)
  {
    grey := [];
    for i := 0 to |list|
      invariant Distinct(grey)
      invariant forall f :: f in grey <==> f in list[..i] && f.count > 0
      invariant forall f :: f in list[..i] ==> f.gcColor == if f.count > 0 then Grey else White
    {
      var item := list[i];
      assert item !in list[..i];
      if item.count > 0 {
        item.gcColor := Grey;
        grey := [item] + grey;
      } else {
        item.gcColor := White;
      }
      assert list[..i + 1] == list[..i] + [item];
    }
    assert list[..|list|] == list;
    forall f | f in Elements(list) && f.gcColor != White
      ensures f in Reached(list)
    {
      RootReached<VdlFile>(RefGraph(Elements(list)), HeldOpen(Elements(list)), f);
    }
  }

  /** What a reached file refers to is in the list and reached. */
  lemma RefsReached(list: seq<VdlFile>, f: VdlFile)
    requires Collectable(list) && f in Reached(list)
    ensures Elements(f.resolvedIn) <= Elements(list) && Elements(f.deps) <= Elements(list)
    ensures forall m :: m in f.resolvedIn || m in f.deps ==> m in Reached(list)
  {
    forall m | m in f.resolvedIn || m in f.deps ensures m in Reached(list) {
      assert m in RefGraph(Elements(list))[f];
    }
  }

  /** Blacken the first grey file. */
  method Blacken(list: seq<VdlFile>, grey: seq<VdlFile>) returns (rest: seq<VdlFile>)
    requires Collectable(list) && Tricolor(list, grey) && grey != []
    modifies Elements(list)`gcColor
    ensures Tricolor(list, rest) && Unfinished(list) < old(Unfinished(list))
  {
    var first := grey[0];
    assert first in Elements(grey);
    assert first in Reached(list);
    RefsReached(list, first);
    ghost var files, reached := Elements(list), Reached(list);
    rest := ShadeBoth(files, first.resolvedIn, first.deps, grey[1..]);
    first.gcColor := Black;
    assert forall f :: f in files && f.gcColor != White ==> f in reached;
    forall f, m | f in files && f.gcColor == Black && m in files && m in f.resolvedIn + f.deps
      ensures m.gcColor != White
    {
      assert f != first ==> old(f.gcColor) == Black;
    }
    assert first in old(Unfinished(list)) && first !in Unfinished(list);
  }

  /** vdl_gc_white_list_new: what is left white is exactly what no held-open file reaches, in list order. */
  method WhiteListNew(list: seq<VdlFile>) returns (white: seq<VdlFile>)
    requires Collectable(list)
    modifies Elements(list)`gcColor
    ensures white == Except<VdlFile>(list, Reached(list))
  {
    var grey := Sweep(list);
    while grey != []
      invariant Tricolor(list, grey)
      decreases Unfinished(list)
    {
      grey := Blacken(list, grey);
    }
    WhiteIsUnreached(list);
    white := Gather(list, Reached(list));
  }

  /** The last loop of vdl_gc_white_list_new. */
  method Gather(list: seq<VdlFile>, ghost keep: set<VdlFile>) returns (white: seq<VdlFile>)
    requires forall f :: f in list ==> (f.gcColor == White <==> f !in keep)
    ensures white == Except<VdlFile>(list, keep)
  {
    white := [];
    for i := 0 to |list|
      invariant white == Except<VdlFile>(list[..i], keep)
    {
      ExceptAppend<VdlFile>(list[..i], [list[i]], keep);
      assert Except<VdlFile>([list[i]], keep) == if list[i] in keep then [] else [list[i]];
      assert list[..i + 1] == list[..i] + [list[i]];
      if list[i].gcColor == White {
        white := white + [list[i]];
      }
    }
    assert list[..|list|] == list;
  }

  lemma WhiteIsUnreached(list: seq<VdlFile>)
    requires Collectable(list) && Tricolor(list, [])
    ensures forall f :: f in Elements(list) ==> (f.gcColor == White <==> f !in Reached(list))
  {
    var files := Elements(list);
    var g := RefGraph(files);
    var black := set f | f in files && f.gcColor == Black;
    assert Closed<VdlFile>(g, black) by {
      forall n, m | n in black && n in g && m in g[n] ensures m in black {
        RefsReached(list, n);
        assert m in files;
      }
    }
    forall f | f in files && f in Reached(list) ensures f in black {
      ReachedInClosed<VdlFile>(g, HeldOpen(files), black, f);
    }
  }

  /** Restricted to the files that must be kept, everything must be kept. */
  lemma SecondPassFindsNothing(list: seq<VdlFile>)
    requires Collectable(list)
    ensures var kept := Only<VdlFile>(list, Reached(list));
            && Elements(kept) <= Elements(list) && Collectable(kept)
            && Except<VdlFile>(kept, Reached(kept)) == []
  {
    var files := Elements(list);
    var g, roots := RefGraph(files), HeldOpen(files);
    var kept := Only<VdlFile>(list, Reached(list));
    var keptFiles := Elements(kept);
    assert keptFiles == Reached(list);
    assert HeldOpen(keptFiles) == roots by {
      forall f | f in roots ensures f in keptFiles {
        RootReached<VdlFile>(g, roots, f);
      }
    }
    var h := RefGraph(keptFiles);
    forall f | f in kept ensures f in Reached(kept) {
      ReachesAgree<VdlFile>(g, h, keptFiles, roots, f);
    }
    ExceptAll<VdlFile>(kept, Reached(kept));
    OnlyDistinct<VdlFile>(list, Reached(list));
  }

  /** The white files leave the list one by one. */
  method RemoveEach(list: seq<VdlFile>, gone: seq<VdlFile>) returns (rest: seq<VdlFile>)
    ensures rest == Except<VdlFile>(list, Elements(gone))
  {
    rest := list;
    ExceptNone(list, Elements(gone[..0]));
    for i := 0 to |gone|
      invariant rest == Except<VdlFile>(list, Elements(gone[..i]))
    {
      ExceptMore<VdlFile>(list, Elements(gone[..i]), gone[i]);
      assert Elements(gone[..i + 1]) == Elements(gone[..i]) + {gone[i]};
      rest := Without(rest, gone[i]);
    }
    assert gone[..|gone|] == gone;
  }

  /** The body of the loop of vdl_gc_run, which is entered at most once. */
  method UnloadWhite(linkMap: seq<VdlFile>, white: seq<VdlFile>) returns (global: seq<VdlFile>, rest: seq<VdlFile>)
    requires Collectable(linkMap)
    requires white == Except<VdlFile>(linkMap, Reached(linkMap))
    modifies Elements(linkMap)`gcColor
    ensures global == Only<VdlFile>(linkMap, Reached(linkMap)) && rest == []
  {
    global := RemoveEach(linkMap, white);
    ExceptComplement<VdlFile>(linkMap, linkMap, Reached(linkMap));
    rest := PassAgain(linkMap, global);
  }

  /** The collector run on what it has kept. */
  method PassAgain(ghost linkMap: seq<VdlFile>, kept: seq<VdlFile>) returns (white: seq<VdlFile>)
    requires Collectable(linkMap)
    requires kept == Only<VdlFile>(linkMap, Reached(linkMap))
    modifies Elements(kept)`gcColor
    ensures white == []
  {
    SecondPassFindsNothing(linkMap);
    white := WhiteListNew(kept);
  }

  /** vdl_gc_run: `unload` is exactly what no held-open file reaches through dependencies and recorded
      bindings, `notUnload` is the rest, both in link-map order. */
  method GcRun(linkMap: seq<VdlFile>) returns (unload: seq<VdlFile>, notUnload: seq<VdlFile>)
    requires Collectable(linkMap)
    modifies Elements(linkMap)`gcColor
    ensures unload == Except<VdlFile>(linkMap, Reached(linkMap))
    ensures notUnload == Only<VdlFile>(linkMap, Reached(linkMap))
  {
    var global := linkMap;
    unload := [];
    var white := WhiteListNew(global);
    if white == [] {
      OnlyWhenNoneExcepted<VdlFile>(linkMap, Reached(linkMap));
    }
    while white != []
      invariant if white == []
                then unload == Except<VdlFile>(linkMap, Reached(linkMap))
                     && global == Only<VdlFile>(linkMap, Reached(linkMap))
                else unload == [] && white == Except<VdlFile>(linkMap, Reached(linkMap)) && global == linkMap
      decreases |white|
    {
      unload := unload + white;
      global, white := UnloadWhite(global, white);
    }
    notUnload := global;
  }
}

/** The two orders the loader puts files in: breadth-first over dependencies, and by depth. */
module Sort {
  import opened Seqs
  import opened Graph
  import opened Files
  import opened Breadth
  import opened Depth

  ghost function DepGraph(files: set<VdlFile>): Edges<VdlFile>
    reads files`deps
  {
    map f | f in files :: f.deps
  }

  /** The inner loop: list the dependencies of sorted[i] that are not listed yet. */
  method ListDeps(ghost g: Edges<VdlFile>, ghost files: set<VdlFile>, root: VdlFile, sorted: seq<VdlFile>,
                  ghost dist: seq<nat>, i: nat)
    returns (more: seq<VdlFile>, ghost dist': seq<nat>)
    requires Closed<VdlFile>(g, files) && Elements(sorted) <= files && i < |sorted|
    requires sorted[i] in g && g[sorted[i]] == sorted[i].deps && Growing<VdlFile>(g, root, sorted, dist, i)
    ensures sorted <= more && Elements(more) <= files && dist <= dist'
    ensures Grown<VdlFile>(g, root, more, dist', i)
  {
    more, dist' := sorted, dist;
    var item := sorted[i];
    assert item in Elements(sorted);
    for j := 0 to |item.deps|
      invariant sorted <= more && Elements(more) <= files && dist <= dist'
      invariant Growing<VdlFile>(g, root, more, dist', i)
      invariant forall l :: 0 <= l < j ==> item.deps[l] in more
    {
      var dep := item.deps[j];
      assert dep in g[item];
      if dep !in more {
        GrowingStep<VdlFile>(g, root, more, dist', i, dep);
        more, dist' := more + [dep], dist' + [dist'[i] + 1];
      }
    }
    GrowingDone<VdlFile>(g, root, more, dist', i);
  }

  /** vdl_sort_deps_breadth_first: every file reached through dependencies exactly once, the requested file
      first, none before one that is closer to it. */
  method BreadthFirst(file: VdlFile, ghost files: set<VdlFile>) returns (sorted: seq<VdlFile>)
    requires file in files && Closed<VdlFile>(DepGraph(files), files)
    ensures BreadthFirstListing<VdlFile>(DepGraph(files), file, sorted) && Elements(sorted) <= files
  {
    ghost var g := DepGraph(files);
    sorted := [file];
    ghost var dist := [0];
    var i := 0;
    while i < |sorted|
      invariant i <= |sorted| <= |files| && Elements(sorted) <= files
      invariant Frontier<VdlFile>(g, file, sorted, dist, i) && Expanded<VdlFile>(g, sorted, i)
      invariant i < |sorted| ==> Growing<VdlFile>(g, file, sorted, dist, i)
      decreases |files| - i
    {
      assert sorted[i] in Elements(sorted);
      sorted, dist := ListDeps(g, files, file, sorted, dist, i);
      i := i + 1;
      DistinctCardinality(sorted);
      CardinalityMonotone(Elements(sorted), files);
    }
    AllReached<VdlFile>(g, file, sorted, dist);
    NearFirst<VdlFile>(g, file, sorted, dist);
  }

  // ----- by depth

  ghost function DepthOf(files: set<VdlFile>): map<VdlFile, nat>
    reads files`depth
  {
    map f | f in files :: f.depth
  }

  method GetMaxDepth(files: seq<VdlFile>) returns (maxDepth: nat)
    ensures forall f :: f in files ==> f.depth <= maxDepth
  {
    maxDepth := 0;
    for i := 0 to |files|
      invariant forall f :: f in files[..i] ==> f.depth <= maxDepth
    {
      if files[i].depth > maxDepth {
        maxDepth := files[i].depth;
      }
    }
  }

  /** vdl_sort_increasing_depth: a stable sort by depth. */
  method IncreasingDepth(files: seq<VdlFile>) returns (output: seq<VdlFile>)
    ensures StablySorted<VdlFile>(files, DepthOf(Elements(files)), output)
    ensures forall i, j :: 0 <= i < j < |output| ==> output[i].depth <= output[j].depth
  {
    ghost var depth := DepthOf(Elements(files));
    var maxDepth := GetMaxDepth(files);
    output := [];
    for d := 0 to maxDepth + 1
      invariant output == BelowDepth<VdlFile>(files, depth, d)
    {
      for k := 0 to |files|
        invariant output == BelowDepth<VdlFile>(files, depth, d) + AtDepth<VdlFile>(files[..k], depth, d)
      {
        AtDepthAppend<VdlFile>(files[..k], [files[k]], depth, d);
        assert files[..k + 1] == files[..k] + [files[k]];
        assert files[k] in Elements(files);
        if files[k].depth == d {
          output := output + [files[k]];
        }
      }
      assert files[..|files|] == files;
    }
    BelowDepthIsStable<VdlFile>(files, depth, maxDepth + 1);
  }
}

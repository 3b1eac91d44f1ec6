/** What a breadth-first listing is, and the invariant of the loop that grows one while walking it. */
module Breadth {
  import opened Seqs
  import opened Graph

  /** Nothing outside the listing is reached from the root. */
  ghost predicate ReachesOnly<N>(g: Edges<N>, root: N, sorted: seq<N>) {
    forall k: nat :: Within(g, {root}, k) <= Elements(sorted)
  }

  /** No element stands before one that is fewer edges away from the root. */
  ghost predicate CloserFirst<N>(g: Edges<N>, root: N, sorted: seq<N>) {
    forall i, j, d: nat :: 0 <= i < j < |sorted| && sorted[j] in Within(g, {root}, d) ==>
      sorted[i] in Within(g, {root}, d)
  }

  /** Everything reached from the root exactly once, the root first, in order of distance. */
  ghost predicate BreadthFirstListing<N>(g: Edges<N>, root: N, sorted: seq<N>) {
    && Distinct(sorted) && sorted != [] && sorted[0] == root
    && (forall f :: f in sorted ==> Reaches(g, {root}, f))
    && ReachesOnly(g, root, sorted) && CloserFirst(g, root, sorted)
  }

  /** sorted[..i] has been expanded; dist are the shortest distances of the files listed so far. */
  ghost predicate Frontier<N>(g: Edges<N>, root: N, sorted: seq, dist: seq<nat>, i: nat) {
    && |dist| == |sorted| && Distinct(sorted) && sorted != [] && sorted[0] == root && i <= |sorted|
    && (forall k, l :: 0 <= k < l < |dist| ==> dist[k] <= dist[l])
    && (forall k :: 0 <= k < |sorted| ==> Distance(g, {root}, sorted[k], dist[k]))
  }

  ghost predicate Expanded<N>(g: Edges<N>, sorted: seq, i: nat)
    requires i <= |sorted|
  {
    forall k, m :: 0 <= k < i && sorted[k] in g && m in g[sorted[k]] ==> m in sorted
  }

  /** While a file at distance d is expanded, everything within distance d is already listed. */
  lemma {:induction false} NearIsListed<N>(g: Edges<N>, root: N, sorted: seq, dist: seq<nat>,
                                        i: nat, d: nat)
    requires Frontier(g, root, sorted, dist, i) && Expanded(g, sorted, i)
    requires i < |sorted| ==> d <= dist[i]
    ensures forall n :: n in Within(g, {root}, d) ==> n in sorted
    decreases d
  {
    if d > 0 {
      NearIsListed(g, root, sorted, dist, i, d - 1);
      forall n | n in Within(g, {root}, d) && n !in Within(g, {root}, d - 1) ensures n in sorted {
        var p :| p in Within(g, {root}, d - 1) && p in g && n in g[p];
        NextIsListed(g, root, sorted, dist, i, d, p, n);
      }
    }
  }

  lemma NextIsListed<N>(g: Edges<N>, root: N, sorted: seq, dist: seq<nat>,
                     i: nat, d: nat, p: N, n: N)
    requires Frontier(g, root, sorted, dist, i) && Expanded(g, sorted, i)
    requires d > 0 && (i < |sorted| ==> d <= dist[i])
    requires p in sorted && p in Within(g, {root}, d - 1) && p in g && n in g[p]
    ensures n in sorted
  {
    var k := NearIsExpanded(g, root, sorted, dist, i, d, p);
  }

  lemma NearIsExpanded<N>(g: Edges<N>, root: N, sorted: seq, dist: seq<nat>, i: nat, d: nat, p: N) returns (k: nat)
    requires Frontier(g, root, sorted, dist, i) && d > 0 && (i < |sorted| ==> d <= dist[i])
    requires p in sorted && p in Within(g, {root}, d - 1)
    ensures k < i && sorted[k] == p
  {
    k :| k < |sorted| && sorted[k] == p;
    assert Distance(g, {root}, sorted[k], dist[k]);
    DistanceIsLeast(g, {root}, p, dist[k], d - 1);
  }

  lemma NextDistance<N>(g: Edges<N>, root: N, sorted: seq<N>, dist: seq<nat>, i: nat, m: N)
    requires Frontier(g, root, sorted, dist, i) && Expanded(g, sorted, i) && i < |sorted|
    requires sorted[i] in g && m in g[sorted[i]] && m !in sorted
    ensures Distance(g, {root}, m, dist[i] + 1)
  {
    NearIsListed(g, root, sorted, dist, i, dist[i]);
    assert Distance(g, {root}, sorted[i], dist[i]);
    assert m in Successors(g, Within(g, {root}, dist[i]));
  }

  lemma AppendFrontier<N>(g: Edges<N>, root: N, sorted: seq<N>, dist: seq<nat>, i: nat, m: N, d: nat)
    requires Frontier(g, root, sorted, dist, i) && m !in sorted && Distance(g, {root}, m, d)
    requires forall k :: 0 <= k < |dist| ==> dist[k] <= d
    ensures Frontier(g, root, sorted + [m], dist + [d], i)
  {
    var s, e := sorted + [m], dist + [d];
    forall k | 0 <= k < |s| ensures Distance(g, {root}, s[k], e[k]) {
      if k < |sorted| {
        assert Distance(g, {root}, sorted[k], dist[k]);
      }
    }
  }

  lemma AppendExpanded<N>(g: Edges<N>, sorted: seq<N>, i: nat, m: N)
    requires i <= |sorted| && Expanded(g, sorted, i)
    ensures Expanded(g, sorted + [m], i)
  {
  }

  /** A dependency of sorted[i] that is not listed yet goes to the end, one step further away. */
  lemma FrontierExtended<N>(g: Edges<N>, root: N, sorted: seq<N>, dist: seq<nat>, i: nat, m: N)
    requires Frontier(g, root, sorted, dist, i) && Expanded(g, sorted, i) && i < |sorted|
    requires forall k :: 0 <= k < |dist| ==> dist[k] <= dist[i] + 1
    requires sorted[i] in g && m in g[sorted[i]] && m !in sorted
    ensures Frontier(g, root, sorted + [m], dist + [dist[i] + 1], i) && Expanded(g, sorted + [m], i)
  {
    NextDistance(g, root, sorted, dist, i, m);
    AppendFrontier(g, root, sorted, dist, i, m, dist[i] + 1);
    AppendExpanded(g, sorted, i, m);
  }

  /** Once every dependency of sorted[i] is listed, the next element is up. */
  lemma FrontierAdvanced<N>(g: Edges<N>, root: N, sorted: seq<N>, dist: seq<nat>, i: nat)
    requires Frontier(g, root, sorted, dist, i) && Expanded(g, sorted, i) && i < |sorted|
    requires sorted[i] in g ==> forall m :: m in g[sorted[i]] ==> m in sorted
    ensures Frontier(g, root, sorted, dist, i + 1) && Expanded(g, sorted, i + 1)
  {
  }

  /** While sorted[i] is being expanded, nothing listed is more than one edge further away than it. */
  ghost predicate Growing<N>(g: Edges<N>, root: N, sorted: seq<N>, dist: seq<nat>, i: nat) {
    && Frontier(g, root, sorted, dist, i) && Expanded(g, sorted, i) && i < |sorted|
    && forall k :: 0 <= k < |dist| ==> dist[k] <= dist[i] + 1
  }

  /** sorted[i] has been expanded. */
  ghost predicate Grown<N>(g: Edges<N>, root: N, sorted: seq<N>, dist: seq<nat>, i: nat) {
    && Frontier(g, root, sorted, dist, i + 1) && Expanded(g, sorted, i + 1)
    && (i + 1 < |sorted| ==> Growing(g, root, sorted, dist, i + 1))
  }

  lemma GrowingStep<N>(g: Edges<N>, root: N, sorted: seq<N>, dist: seq<nat>, i: nat, m: N)
    requires Growing(g, root, sorted, dist, i) && sorted[i] in g && m in g[sorted[i]] && m !in sorted
    ensures Growing(g, root, sorted + [m], dist + [dist[i] + 1], i)
  {
    FrontierExtended(g, root, sorted, dist, i, m);
  }

  lemma GrowingDone<N>(g: Edges<N>, root: N, sorted: seq<N>, dist: seq<nat>, i: nat)
    requires Growing(g, root, sorted, dist, i)
    requires sorted[i] in g ==> forall m :: m in g[sorted[i]] ==> m in sorted
    ensures Grown(g, root, sorted, dist, i)
  {
    FrontierAdvanced(g, root, sorted, dist, i);
  }

  lemma AllReached<N>(g: Edges<N>, root: N, sorted: seq<N>, dist: seq<nat>)
    requires Frontier(g, root, sorted, dist, |sorted|) && Expanded(g, sorted, |sorted|)
    ensures forall f :: f in sorted ==> Reaches(g, {root}, f)
    ensures ReachesOnly(g, root, sorted)
  {
    forall f | f in sorted ensures Reaches(g, {root}, f) {
      var k :| 0 <= k < |sorted| && sorted[k] == f;
      assert Distance(g, {root}, f, dist[k]);
    }
    forall k: nat ensures Within(g, {root}, k) <= Elements(sorted) {
      WithinStaysIn(g, {root}, Elements(sorted), k);
    }
  }

  lemma NearFirst<N>(g: Edges<N>, root: N, sorted: seq<N>, dist: seq<nat>)
    requires Frontier(g, root, sorted, dist, |sorted|)
    ensures CloserFirst(g, root, sorted)
  {
    forall i, j, d: nat | 0 <= i < j < |sorted| && sorted[j] in Within(g, {root}, d)
      ensures sorted[i] in Within(g, {root}, d)
    {
      assert Distance(g, {root}, sorted[j], dist[j]) && Distance(g, {root}, sorted[i], dist[i]);
      DistanceIsLeast(g, {root}, sorted[j], dist[j], d);
      WithinMonotone(g, {root}, dist[i], d);
    }
  }

  /** The listing only depends on the part of the graph the root can reach. */
  lemma ListingAgrees<N>(g: Edges<N>, h: Edges<N>, s: set<N>, root: N, sorted: seq<N>)
    requires Closed(g, s) && root in s && BreadthFirstListing(g, root, sorted)
    requires forall m :: m in s ==> (m in g <==> m in h) && (m in g ==> g[m] == h[m])
    ensures BreadthFirstListing(h, root, sorted)
  {
    forall k: nat ensures Within(g, {root}, k) == Within(h, {root}, k) {
      WithinAgree(g, h, s, {root}, k);
    }
    forall f | f in sorted ensures Reaches(h, {root}, f) {
      var k: nat :| f in Within(g, {root}, k);
      assert f in Within(h, {root}, k);
    }
  }
}

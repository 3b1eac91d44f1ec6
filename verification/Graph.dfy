/** Reachability in the graph of references between files. */
module Graph {
  import opened Seqs

  type Edges<N> = map<N, seq<N>>

  ghost function Successors<N>(g: Edges<N>, s: set<N>): set<N> {
    set n, m | n in s && n in g && m in g[n] :: m
  }

  /** The nodes at most k edges away from the roots. */
  ghost function Within<N>(g: Edges<N>, roots: set<N>, k: nat): set<N> {
    if k == 0 then roots else Within(g, roots, k - 1) + Successors(g, Within(g, roots, k - 1))
  }

  ghost predicate Reaches<N>(g: Edges<N>, roots: set<N>, n: N) {
    exists k: nat :: n in Within(g, roots, k)
  }

  /** d is the least number of edges from the roots to n. */
  ghost predicate Distance<N>(g: Edges<N>, roots: set<N>, n: N, d: nat) {
    n in Within(g, roots, d) && (d > 0 ==> n !in Within(g, roots, d - 1))
  }

  /** No edge leaves s. */
  ghost predicate Closed<N>(g: Edges<N>, s: set<N>) {
    forall n, m :: n in s && n in g && m in g[n] ==> m in s
  }

  lemma RootReached<N>(g: Edges<N>, roots: set<N>, n: N)
    requires n in roots
    ensures Reaches(g, roots, n)
  {
    assert n in Within(g, roots, 0);
  }

  lemma EdgeReached<N>(g: Edges<N>, roots: set<N>, n: N, m: N)
    requires Reaches(g, roots, n) && n in g && m in g[n]
    ensures Reaches(g, roots, m)
  {
    var k: nat :| n in Within(g, roots, k);
    assert m in Within(g, roots, k + 1);
  }

  lemma {:induction false} WithinThrough<N>(g: Edges<N>, n: N, m: N, k: nat)
    requires n in g && m in g[n]
    ensures Within(g, {m}, k) <= Within(g, {n}, k + 1)
  {
    if k == 0 {
      assert m in Successors(g, Within(g, {n}, 0));
    } else {
      WithinThrough(g, n, m, k - 1);
    }
  }

  /** What is reached from the end of an edge is reached from its start. */
  lemma ReachedThrough<N>(g: Edges<N>, n: N, m: N, f: N)
    requires n in g && m in g[n] && Reaches(g, {m}, f)
    ensures Reaches(g, {n}, f)
  {
    var k: nat :| f in Within(g, {m}, k);
    WithinThrough(g, n, m, k);
  }

  lemma {:induction false} WithinMonotone<N>(g: Edges<N>, roots: set<N>, k: nat, l: nat)
    requires k <= l
    ensures Within(g, roots, k) <= Within(g, roots, l)
    decreases l
  {
    if k < l {
      WithinMonotone(g, roots, k, l - 1);
    }
  }

  lemma DistanceIsLeast<N>(g: Edges<N>, roots: set<N>, n: N, d: nat, k: nat)
    requires Distance(g, roots, n, d) && n in Within(g, roots, k)
    ensures d <= k
  {
    if d > k {
      WithinMonotone(g, roots, k, d - 1);
    }
  }

  lemma {:induction false} WithinStaysIn<N>(g: Edges<N>, roots: set<N>, s: set<N>, k: nat)
    requires Closed(g, s) && roots <= s
    ensures Within(g, roots, k) <= s
  {
    if k > 0 {
      WithinStaysIn(g, roots, s, k - 1);
    }
  }

  /** What is reached from the roots lies in every closed set that contains them. */
  lemma ReachedInClosed<N>(g: Edges<N>, roots: set<N>, s: set<N>, n: N)
    requires Closed(g, s) && roots <= s && Reaches(g, roots, n)
    ensures n in s
  {
    var k: nat :| n in Within(g, roots, k);
    WithinStaysIn(g, roots, s, k);
  }

  lemma {:induction false} WithinAgree<N>(g: Edges<N>, h: Edges<N>, s: set<N>, roots: set<N>, k: nat)
    requires Closed(g, s) && roots <= s
    requires forall m :: m in s ==> (m in g <==> m in h) && (m in g ==> g[m] == h[m])
    ensures Within(g, roots, k) == Within(h, roots, k)
  {
    if k > 0 {
      WithinAgree(g, h, s, roots, k - 1);
      WithinStaysIn(g, roots, s, k - 1);
    }
  }

  /** Two graphs that agree on a closed set reach the same from roots inside it. */
  lemma ReachesAgree<N>(g: Edges<N>, h: Edges<N>, s: set<N>, roots: set<N>, n: N)
    requires Closed(g, s) && roots <= s
    requires forall m :: m in s ==> (m in g <==> m in h) && (m in g ==> g[m] == h[m])
    ensures Reaches(g, roots, n) <==> Reaches(h, roots, n)
  {
    forall k: nat ensures Within(g, roots, k) == Within(h, roots, k) {
      WithinAgree(g, h, s, roots, k);
    }
  }

  ghost function ReachedSet<N>(g: Edges<N>, roots: set<N>, nodes: seq<N>): set<N> {
    set n | n in nodes && Reaches(g, roots, n)
  }

  lemma ReachedSetClosed<N>(g: Edges<N>, roots: set<N>, nodes: seq<N>)
    requires Closed(g, Elements(nodes))
    ensures Closed(g, ReachedSet(g, roots, nodes))
  {
    var s := ReachedSet(g, roots, nodes);
    forall n, m | n in s && n in g && m in g[n] ensures m in s {
      EdgeReached(g, roots, n, m);
      assert m in Elements(nodes);
    }
  }
}

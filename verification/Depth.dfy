/** What a stable sort by depth is. */
module Depth {
  import opened Seqs

  /** The elements of depth d, in order. */
  function AtDepth<N(==)>(s: seq<N>, depth: map<N, nat>, d: nat): seq<N> {
    if s == [] then []
    else if s[0] in depth && depth[s[0]] == d then [s[0]] + AtDepth(s[1..], depth, d)
    else AtDepth(s[1..], depth, d)
  }

  lemma {:induction false} AtDepthElements<N>(s: seq<N>, depth: map<N, nat>, d: nat)
    ensures forall f :: f in AtDepth(s, depth, d) ==> f in s && f in depth && depth[f] == d
    ensures forall f :: f in s && f in depth && depth[f] == d ==> f in AtDepth(s, depth, d)
  {
    if s != [] {
      AtDepthElements(s[1..], depth, d);
    }
  }

  /** The elements of depth below n, by depth, those of equal depth in their original order. */
  function BelowDepth<N(==)>(s: seq<N>, depth: map<N, nat>, n: nat): seq<N> {
    if n == 0 then [] else BelowDepth(s, depth, n - 1) + AtDepth(s, depth, n - 1)
  }

  /** In order of depth, and for each depth the same elements in the same order. */
  ghost predicate StablySorted<N>(s: seq<N>, depth: map<N, nat>, r: seq<N>) {
    Ordered(r, depth) && forall d: nat :: AtDepth(r, depth, d) == AtDepth(s, depth, d)
  }

  lemma {:induction false} AtDepthAppend<N>(s: seq<N>, t: seq<N>, depth: map<N, nat>, d: nat)
    ensures AtDepth(s + t, depth, d) == AtDepth(s, depth, d) + AtDepth(t, depth, d)
  {
    if s == [] {
      assert s + t == t;
    } else {
      assert (s + t)[1..] == s[1..] + t;
      AtDepthAppend(s[1..], t, depth, d);
    }
  }

  lemma {:induction false} AtDepthUniform<N>(t: seq<N>, depth: map<N, nat>, c: nat, d: nat)
    requires forall f :: f in t ==> f in depth && depth[f] == c
    ensures AtDepth(t, depth, d) == if c == d then t else []
  {
    if t != [] {
      AtDepthUniform(t[1..], depth, c, d);
    }
  }

  lemma AtDepthOfLayers<N>(front: seq<N>, layer: seq<N>, depth: map<N, nat>, c: nat, d: nat)
    requires forall f :: f in layer ==> f in depth && depth[f] == c
    ensures AtDepth(front + layer, depth, d) == AtDepth(front, depth, d) + if c == d then layer else []
  {
    AtDepthAppend(front, layer, depth, d);
    AtDepthUniform(layer, depth, c, d);
  }

  lemma {:induction false} BelowDepthAt<N>(s: seq<N>, depth: map<N, nat>, n: nat, d: nat)
    ensures AtDepth(BelowDepth(s, depth, n), depth, d) == if d < n then AtDepth(s, depth, d) else []
  {
    if n > 0 {
      BelowDepthAt(s, depth, n - 1, d);
      AtDepthElements(s, depth, n - 1);
      AtDepthOfLayers(BelowDepth(s, depth, n - 1), AtDepth(s, depth, n - 1), depth, n - 1, d);
    }
  }

  ghost predicate Ordered<N>(s: seq<N>, depth: map<N, nat>) {
    && (forall f :: f in s ==> f in depth)
    && forall i, j :: 0 <= i < j < |s| ==> depth[s[i]] <= depth[s[j]]
  }

  lemma OrderedAppend<N>(front: seq<N>, layer: seq<N>, depth: map<N, nat>, c: nat)
    requires Ordered(front, depth) && forall f :: f in front ==> depth[f] < c
    requires forall f :: f in layer ==> f in depth && depth[f] == c
    ensures Ordered(front + layer, depth)
  {
    var r := front + layer;
    forall i, j | 0 <= i < j < |r| ensures depth[r[i]] <= depth[r[j]] {
      if j >= |front| {
        assert r[j] in layer;
        assert if i < |front| then r[i] in front else r[i] in layer;
      }
    }
  }

  lemma {:induction false} BelowDepthOrdered<N>(s: seq<N>, depth: map<N, nat>, n: nat)
    ensures forall f :: f in BelowDepth(s, depth, n) ==> f in s && f in depth && depth[f] < n
    ensures Ordered(BelowDepth(s, depth, n), depth)
  {
    if n > 0 {
      BelowDepthOrdered(s, depth, n - 1);
      AtDepthElements(s, depth, n - 1);
      var front, last := BelowDepth(s, depth, n - 1), AtDepth(s, depth, n - 1);
      OrderedAppend(front, last, depth, n - 1);
    }
  }

  lemma BelowDepthIsStable<N>(s: seq<N>, depth: map<N, nat>, n: nat)
    requires forall f :: f in s ==> f in depth && depth[f] < n
    ensures StablySorted(s, depth, BelowDepth(s, depth, n))
  {
    BelowDepthOrdered(s, depth, n);
    forall d: nat ensures AtDepth(BelowDepth(s, depth, n), depth, d) == AtDepth(s, depth, d) {
      BelowDepthAt(s, depth, n, d);
      AtDepthElements(s, depth, d);
      var r := AtDepth(s, depth, d);
      assert r != [] ==> r[0] in r;
    }
  }

  /** A stable sort permutes: each element is in both or in neither, and duplicates do not appear. */
  lemma StablySortedElements<N>(s: seq<N>, depth: map<N, nat>, r: seq<N>)
    requires StablySorted(s, depth, r) && forall f :: f in s ==> f in depth
    ensures Elements(r) == Elements(s)
    ensures Distinct(s) ==> Distinct(r)
  {
    forall f | f in s || f in r ensures f in s && f in r {
      AtDepthElements(s, depth, depth[f]);
      AtDepthElements(r, depth, depth[f]);
      assert AtDepth(r, depth, depth[f]) == AtDepth(s, depth, depth[f]);
    }
    if Distinct(s) {
      forall i, j | 0 <= i < j < |r| ensures r[i] != r[j] {
        if r[i] == r[j] {
          var d := depth[r[i]];
          AtDepthDistinct(s, depth, d);
          assert AtDepth(r, depth, d) == AtDepth(s, depth, d);
          AtDepthDuplicate(r, depth, i, j);
        }
      }
    }
  }

  lemma {:induction false} AtDepthAgrees<N>(s: seq<N>, a: map<N, nat>, b: map<N, nat>, d: nat)
    requires forall f :: f in s ==> f in a && f in b && a[f] == b[f]
    ensures AtDepth(s, a, d) == AtDepth(s, b, d)
  {
    if s != [] {
      AtDepthAgrees(s[1..], a, b, d);
    }
  }

  /** Only the depths of the listed elements matter. */
  lemma StablySortedAgrees<N>(s: seq<N>, r: seq<N>, a: map<N, nat>, b: map<N, nat>)
    requires StablySorted(s, a, r) && Elements(r) == Elements(s)
    requires forall f :: f in s ==> f in a && f in b && a[f] == b[f]
    ensures StablySorted(s, b, r)
  {
    forall f | f in r ensures f in s {
      assert f in Elements(r);
    }
    forall d: nat ensures AtDepth(r, b, d) == AtDepth(s, b, d) {
      AtDepthAgrees(s, a, b, d);
      AtDepthAgrees(r, a, b, d);
    }
  }

  lemma {:induction false} AtDepthDistinct<N>(s: seq<N>, depth: map<N, nat>, d: nat)
    requires Distinct(s)
    ensures Distinct(AtDepth(s, depth, d))
  {
    if s != [] {
      AtDepthDistinct(s[1..], depth, d);
      AtDepthElements(s[1..], depth, d);
      assert s[0] !in s[1..];
    }
  }

  lemma AtDepthDuplicate<N>(s: seq<N>, depth: map<N, nat>, i: nat, j: nat)
    requires i < j < |s| && s[i] == s[j] && s[i] in depth
    ensures !Distinct(AtDepth(s, depth, depth[s[i]]))
  {
    var d := depth[s[i]];
    assert s == s[..j] + s[j..];
    AtDepthAppend(s[..j], s[j..], depth, d);
    AtDepthElements(s[..j], depth, d);
    AtDepthElements(s[j..], depth, d);
    assert s[..j][i] == s[i] && s[j..][0] == s[j];
    var a, b := AtDepth(s[..j], depth, d), AtDepth(s[j..], depth, d);
    var k, l :| 0 <= k < |a| && a[k] == s[i] && 0 <= l < |b| && b[l] == s[j];
    assert (a + b)[k] == (a + b)[|a| + l];
  }
}

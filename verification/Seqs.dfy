/** What the loader's list operations compute, on sequences. */
module Seqs {

  predicate Distinct<T(==)>(s: seq<T>) { forall i, j :: 0 <= i < j < |s| ==> s[i] != s[j] }

  ghost function Elements<T>(s: seq<T>): set<T> { set x | x in s }

  /** vdl_list_remove: every occurrence of x goes, the order stays. */
  function Without<T(==)>(s: seq<T>, x: T): (r: seq<T>)
    ensures forall y :: y in r ==> y in s && y != x
    ensures forall y :: y in s && y != x ==> y in r
  {
    if s == [] then []
    else if s[0] == x then Without(s[1..], x)
    else [s[0]] + Without(s[1..], x)
  }

  /** The elements of s in `keep`, in order. */
  function Only<T(==)>(s: seq<T>, keep: set<T>): (r: seq<T>)
    ensures forall y :: y in r ==> y in s && y in keep
    ensures forall y :: y in s && y in keep ==> y in r
  {
    if s == [] then []
    else if s[0] in keep then [s[0]] + Only(s[1..], keep)
    else Only(s[1..], keep)
  }

  /** The elements of s outside `gone`, in order. */
  function Except<T(==)>(s: seq<T>, gone: set<T>): (r: seq<T>)
    ensures forall y :: y in r ==> y in s && y !in gone
    ensures forall y :: y in s && y !in gone ==> y in r
  {
    if s == [] then []
    else if s[0] in gone then Except(s[1..], gone)
    else [s[0]] + Except(s[1..], gone)
  }

  /** vdl_list_unicize: only the first occurrence of each element stays. */
  function Unicized<T(==)>(s: seq<T>): (r: seq<T>)
    ensures forall y :: y in r ==> y in s
    ensures forall y :: y in s ==> y in r
    decreases |s|
  {
    if s == [] then [] else [s[0]] + Without(Unicized(s[1..]), s[0])
  }

  function Reversed<T>(s: seq<T>): (r: seq<T>)
    ensures |r| == |s| && forall i :: 0 <= i < |s| ==> r[i] == s[|s| - 1 - i]
  {
    if s == [] then [] else Reversed(s[1..]) + [s[0]]
  }

  lemma {:induction false} OnlyAppend<T>(s: seq<T>, t: seq<T>, keep: set<T>)
    ensures Only(s + t, keep) == Only(s, keep) + Only(t, keep)
  {
    if s == [] {
      assert s + t == t;
    } else {
      assert (s + t)[1..] == s[1..] + t;
      OnlyAppend(s[1..], t, keep);
    }
  }

  lemma {:induction false} OnlyAll<T>(s: seq<T>, keep: set<T>)
    requires forall x :: x in s ==> x in keep
    ensures Only(s, keep) == s
  {
    if s != [] {
      OnlyAll(s[1..], keep);
    }
  }

  lemma {:induction false} OnlyNone<T>(s: seq<T>, keep: set<T>)
    requires forall x :: x in s ==> x !in keep
    ensures Only(s, keep) == []
  {
    if s != [] {
      OnlyNone(s[1..], keep);
    }
  }

  lemma {:induction false} OnlyDistinct<T>(s: seq<T>, keep: set<T>)
    requires Distinct(s)
    ensures Distinct(Only(s, keep))
  {
    if s != [] {
      OnlyDistinct(s[1..], keep);
      assert s[0] !in s[1..];
    }
  }

  lemma {:induction false} ExceptDistinct<T>(s: seq<T>, gone: set<T>)
    requires Distinct(s)
    ensures Distinct(Except(s, gone))
  {
    if s != [] {
      ExceptDistinct(s[1..], gone);
      assert s[0] !in s[1..];
    }
  }

  /** Removing one more element. */
  lemma {:induction false} ExceptMore<T>(s: seq<T>, gone: set<T>, x: T)
    ensures Without(Except(s, gone), x) == Except(s, gone + {x})
  {
    if s != [] {
      ExceptMore(s[1..], gone, x);
    }
  }

  lemma {:induction false} ExceptNone<T>(s: seq<T>, gone: set<T>)
    requires forall x :: x in s ==> x !in gone
    ensures Except(s, gone) == s
  {
    if s != [] {
      ExceptNone(s[1..], gone);
    }
  }

  lemma {:induction false} ExceptAgrees<T>(s: seq<T>, a: set<T>, b: set<T>)
    requires forall x :: x in s ==> (x in a <==> x in b)
    ensures Except(s, a) == Except(s, b)
  {
    if s != [] {
      ExceptAgrees(s[1..], a, b);
    }
  }

  lemma {:induction false} ExceptAppend<T>(s: seq<T>, t: seq<T>, gone: set<T>)
    ensures Except(s + t, gone) == Except(s, gone) + Except(t, gone)
  {
    if s == [] {
      assert s + t == t;
    } else {
      assert (s + t)[1..] == s[1..] + t;
      ExceptAppend(s[1..], t, gone);
    }
  }

  lemma {:induction false} ExceptAll<T>(s: seq<T>, gone: set<T>)
    requires forall x :: x in s ==> x in gone
    ensures Except(s, gone) == []
  {
    if s != [] {
      ExceptAll(s[1..], gone);
    }
  }

  /** Keeping is the complement of unloading, and with nothing to unload everything is kept. */
  lemma {:induction false} OnlyWhenNoneExcepted<T>(s: seq<T>, keep: set<T>)
    requires Except(s, keep) == []
    ensures Only(s, keep) == s
  {
    forall x | x in s ensures x in keep {
      assert x !in keep ==> x in Except(s, keep);
    }
    OnlyAll(s, keep);
  }

  lemma {:induction false} ExceptComplement<T>(s: seq<T>, t: seq<T>, keep: set<T>)
    requires forall x :: x in s ==> x in t
    ensures Except(s, Elements(Except(t, keep))) == Only(s, keep)
  {
    if s != [] {
      assert s[0] in t;
      ExceptComplement(s[1..], t, keep);
    }
  }

  lemma {:induction false} WithoutAppend<T>(s: seq<T>, t: seq<T>, x: T)
    ensures Without(s + t, x) == Without(s, x) + Without(t, x)
  {
    if s == [] {
      assert s + t == t;
    } else {
      assert (s + t)[1..] == s[1..] + t;
      WithoutAppend(s[1..], t, x);
    }
  }

  lemma {:induction false} WithoutAbsent<T>(s: seq<T>, x: T)
    requires x !in s
    ensures Without(s, x) == s
  {
    if s != [] {
      WithoutAbsent(s[1..], x);
    }
  }

  /** Removing one element is keeping all the others. */
  lemma {:induction false} WithoutFromOnly<T>(s: seq<T>, keep: set<T>, x: T)
    ensures Without(Only(s, keep), x) == Only(s, keep - {x})
  {
    if s != [] {
      WithoutFromOnly(s[1..], keep, x);
    }
  }

  lemma DistinctCons<T>(x: T, s: seq<T>)
    requires Distinct(s) && x !in s
    ensures Distinct([x] + s)
  {
  }

  lemma {:induction false} WithoutDistinct<T>(s: seq<T>, x: T)
    requires Distinct(s)
    ensures Distinct(Without(s, x))
  {
    if s != [] {
      WithoutDistinct(s[1..], x);
      if s[0] != x {
        DistinctCons(s[0], Without(s[1..], x));
      }
    }
  }

  lemma {:induction false} UnicizedDistinct<T>(s: seq<T>)
    ensures Distinct(Unicized(s))
    decreases |s|
  {
    if s != [] {
      UnicizedDistinct(s[1..]);
      WithoutDistinct(Unicized(s[1..]), s[0]);
      DistinctCons(s[0], Without(Unicized(s[1..]), s[0]));
    }
  }

  lemma {:induction false} UnicizedKeepsDistinct<T>(s: seq<T>)
    requires Distinct(s)
    ensures Unicized(s) == s
    decreases |s|
  {
    if s != [] {
      UnicizedKeepsDistinct(s[1..]);
      WithoutAbsent(s[1..], s[0]);
    }
  }

  /** A list that has no duplicates keeps its place at the front when more is appended and unicized. */
  lemma {:induction false} UnicizedExtends<T>(s: seq<T>, t: seq<T>)
    requires Distinct(s)
    ensures s <= Unicized(s + t)
    decreases |s|
  {
    if s != [] {
      assert (s + t)[1..] == s[1..] + t;
      UnicizedExtends(s[1..], t);
      var u := Unicized(s[1..] + t);
      assert u == s[1..] + u[|s| - 1..];
      WithoutAppend(s[1..], u[|s| - 1..], s[0]);
      WithoutAbsent(s[1..], s[0]);
    }
  }

  lemma {:induction false} WithoutTwice<T>(s: seq<T>, x: T, y: T)
    ensures Without(Without(s, x), y) == Without(Without(s, y), x)
  {
    if s != [] {
      WithoutTwice(s[1..], x, y);
    }
  }

  /** Without(_, x) before or after unicizing. */
  lemma {:induction false} UnicizedWithout<T>(s: seq<T>, x: T)
    ensures Without(Unicized(s), x) == Unicized(Without(s, x))
    decreases |s|
  {
    if s != [] {
      var rest := Unicized(s[1..]);
      UnicizedWithout(s[1..], x);
      WithoutTwice(rest, s[0], x);
      if s[0] == x {
        WithoutAbsent(Without(rest, x), x);
      } else {
        assert Without(s, x)[1..] == Without(s[1..], x);
      }
    }
  }

  lemma {:induction false} OnlyTwice<T>(s: seq<T>, a: set<T>, b: set<T>)
    requires forall x :: x in s && x in b ==> x in a
    ensures Only(Only(s, a), b) == Only(s, b)
  {
    if s != [] {
      OnlyTwice(s[1..], a, b);
      if s[0] in a {
        assert Only(s, a)[1..] == Only(s[1..], a);
      }
    }
  }

  lemma {:induction false} ExceptTwice<T>(s: seq<T>, a: set<T>, b: set<T>)
    ensures Except(Except(s, a), b) == Except(s, a + b)
  {
    if s != [] {
      ExceptTwice(s[1..], a, b);
      if s[0] !in a {
        assert Except(s, a)[1..] == Except(s[1..], a);
      }
    }
  }

  lemma {:induction false} OnlyAgrees<T>(s: seq<T>, a: set<T>, b: set<T>)
    requires forall x :: x in s ==> (x in a <==> x in b)
    ensures Only(s, a) == Only(s, b)
  {
    if s != [] {
      OnlyAgrees(s[1..], a, b);
    }
  }

  lemma {:induction false} ExceptIsOnly<T>(s: seq<T>, gone: set<T>, keep: set<T>)
    requires forall x :: x in s ==> (x in gone <==> x !in keep)
    ensures Except(s, gone) == Only(s, keep)
  {
    if s != [] {
      ExceptIsOnly(s[1..], gone, keep);
    }
  }

  lemma {:induction false} OnlyWithout<T>(s: seq<T>, keep: set<T>, x: T)
    ensures Only(Without(s, x), keep) == Without(Only(s, keep), x)
    decreases |s|
  {
    if s != [] {
      OnlyWithout(s[1..], keep, x);
    }
  }

  /** First occurrences of the kept elements are kept first occurrences. */
  lemma {:induction false} OnlyUnicized<T>(s: seq<T>, keep: set<T>)
    ensures Only(Unicized(s), keep) == Unicized(Only(s, keep))
    decreases |s|
  {
    if s != [] {
      OnlyUnicized(s[1..], keep);
      OnlyWithout(Unicized(s[1..]), keep, s[0]);
      if s[0] in keep {
        assert Only(s, keep)[1..] == Only(s[1..], keep);
      } else {
        WithoutAbsent(Unicized(Only(s[1..], keep)), s[0]);
      }
    }
  }

  /** Unicizing the front first changes nothing. */
  lemma {:induction false} UnicizedFront<T>(s: seq<T>, t: seq<T>)
    ensures Unicized(Unicized(s) + t) == Unicized(s + t)
    decreases |s|
  {
    if s != [] {
      var u := Unicized(s[1..]);
      var rest := Without(u, s[0]);
      assert (s + t)[1..] == s[1..] + t && (Unicized(s) + t)[1..] == rest + t;
      UnicizedFront(s[1..], t);
      UnicizedWithout(u + t, s[0]);
      UnicizedWithout(rest + t, s[0]);
      WithoutAppend(u, t, s[0]);
      WithoutAppend(rest, t, s[0]);
      WithoutAbsent(rest, s[0]);
    }
  }

  lemma DistinctPosition<T>(s: seq<T>, i: nat, j: nat)
    requires Distinct(s) && i < |s| && j < |s| && s[i] == s[j]
    ensures i == j
  {
  }

  lemma DistinctCut<T>(s: seq<T>, p: nat, q: nat)
    requires Distinct(s) && p <= q <= |s|
    ensures Distinct(s[..p] + s[q..])
  {
  }

  lemma DistinctAppend<T>(s: seq<T>, t: seq<T>)
    requires Distinct(s) && Distinct(t) && forall x :: x in s ==> x !in t
    ensures Distinct(s + t)
  {
    var u := s + t;
    forall i, j | 0 <= i < j < |u| ensures u[i] != u[j] {
      if i < |s| <= j {
        assert u[i] in s && u[j] in t;
      }
    }
  }

  lemma {:induction false} DistinctCardinality<T>(s: seq<T>)
    requires Distinct(s)
    ensures |Elements(s)| == |s|
  {
    if s != [] {
      DistinctCardinality(s[1..]);
      assert Elements(s) == {s[0]} + Elements(s[1..]);
      assert s[0] !in s[1..];
    }
  }

  lemma CardinalityMonotone<T>(a: set<T>, b: set<T>)
    requires a <= b
    ensures |a| <= |b|
  {
    assert b == a + (b - a);
  }
}

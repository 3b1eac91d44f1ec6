/** Insertion sort as vdl_list_sort does it, what removing one element changes, and inserting a range into its own
    list, on sequences. */
module ListModel {
  import opened Seqs

  /** x goes before the first element that is not strictly lower. */
  function Inserted<T(!new)>(s: seq<T>, x: T, lower: (T, T) -> bool): (r: seq<T>)
    ensures |r| == |s| + 1
  {
    if s == [] || !lower(s[0], x) then [x] + s else [s[0]] + Inserted(s[1..], x, lower)
  }

  lemma {:induction false} InsertedBefore<T(!new)>(s: seq<T>, x: T, lower: (T, T) -> bool, k: nat)
    requires k <= |s| && forall j :: 0 <= j < k ==> lower(s[j], x)
    requires k < |s| ==> !lower(s[k], x)
    ensures Inserted(s, x, lower) == s[..k] + [x] + s[k..]
  {
    if k > 0 {
      InsertedBefore(s[1..], x, lower, k - 1);
      assert s[..k] + [x] + s[k..] == [s[0]] + (s[1..][..k - 1] + [x] + s[1..][k - 1..]);
    } else {
      assert s[..0] + [x] + s[0..] == [x] + s;
    }
  }

  function InsertionSorted<T(!new)>(s: seq<T>, lower: (T, T) -> bool): (r: seq<T>)
    ensures |r| == |s|
  {
    if s == [] then [] else Inserted(InsertionSorted(s[..|s| - 1], lower), s[|s| - 1], lower)
  }

  /** A strict weak order: irreflexive, transitive, with transitive incomparability. */
  ghost predicate StrictWeakOrder<T(!new)>(lower: (T, T) -> bool) {
    && (forall a :: !lower(a, a))
    && (forall a, b, c :: lower(a, b) && lower(b, c) ==> lower(a, c))
    && (forall a, b, c :: lower(a, c) ==> lower(a, b) || lower(b, c))
  }

  /** No element is strictly lower than one before it. */
  ghost predicate Ordered<T(!new)>(s: seq<T>, lower: (T, T) -> bool) {
    forall i, j :: 0 <= i < j < |s| ==> !lower(s[j], s[i])
  }

  predicate Equivalent<T(!new)>(a: T, b: T, lower: (T, T) -> bool) { !lower(a, b) && !lower(b, a) }

  /** The elements of s equivalent to x, in order. */
  function Peers<T(!new)>(s: seq<T>, x: T, lower: (T, T) -> bool): seq<T> {
    if s == [] then []
    else if Equivalent(s[0], x, lower) then [s[0]] + Peers(s[1..], x, lower)
    else Peers(s[1..], x, lower)
  }

  lemma {:induction false} InsertedPermutes<T(!new)>(s: seq<T>, x: T, lower: (T, T) -> bool)
    ensures multiset(Inserted(s, x, lower)) == multiset(s) + multiset{x}
  {
    if s != [] && lower(s[0], x) {
      assert s == [s[0]] + s[1..];
      InsertedPermutes(s[1..], x, lower);
    }
  }

  lemma InsertedMember<T(!new)>(s: seq<T>, x: T, lower: (T, T) -> bool, y: T)
    requires y in Inserted(s, x, lower)
    ensures y in s || y == x
  {
    InsertedPermutes(s, x, lower);
    assert y in multiset(Inserted(s, x, lower));
  }

  lemma {:induction false} InsertedOrdered<T(!new)>(s: seq<T>, x: T, lower: (T, T) -> bool)
    requires StrictWeakOrder(lower) && Ordered(s, lower)
    ensures Ordered(Inserted(s, x, lower), lower)
  {
    if s == [] {
    } else if !lower(s[0], x) {
      forall j | 0 <= j < |s| ensures !lower(s[j], x) {
        assert j > 0 ==> !lower(s[j], s[0]);
      }
    } else {
      var rest := Inserted(s[1..], x, lower);
      InsertedOrdered(s[1..], x, lower);
      forall j | 0 <= j < |rest| ensures !lower(rest[j], s[0]) {
        InsertedMember(s[1..], x, lower, rest[j]);
      }
    }
  }

  lemma {:induction false} PeersAppend<T(!new)>(s: seq<T>, t: seq<T>, x: T, lower: (T, T) -> bool)
    ensures Peers(s + t, x, lower) == Peers(s, x, lower) + Peers(t, x, lower)
  {
    if s == [] {
      assert s + t == t;
    } else {
      assert (s + t)[1..] == s[1..] + t;
      PeersAppend(s[1..], t, x, lower);
    }
  }

  /** An inserted element comes before all its peers. */
  lemma {:induction false} InsertedPeers<T(!new)>(s: seq<T>, x: T, y: T, lower: (T, T) -> bool)
    requires StrictWeakOrder(lower)
    ensures Peers(Inserted(s, x, lower), y, lower)
         == if Equivalent(x, y, lower) then [x] + Peers(s, y, lower) else Peers(s, y, lower)
  {
    if s != [] && lower(s[0], x) {
      var rest := Inserted(s[1..], x, lower);
      InsertedPeers(s[1..], x, y, lower);
      assert ([s[0]] + rest)[1..] == rest;
    } else {
      assert ([x] + s)[1..] == s;
    }
  }

  /** The sort is a sorted permutation, and reverses the order of equivalent elements. */
  lemma {:induction false} InsertionSortSorts<T(!new)>(s: seq<T>, lower: (T, T) -> bool)
    requires StrictWeakOrder(lower)
    ensures Ordered(InsertionSorted(s, lower), lower)
    ensures multiset(InsertionSorted(s, lower)) == multiset(s)
    ensures forall y :: Peers(InsertionSorted(s, lower), y, lower) == Reversed(Peers(s, y, lower))
  {
    if s != [] {
      var front, x := s[..|s| - 1], s[|s| - 1];
      assert s == front + [x];
      var sorted := InsertionSorted(front, lower);
      InsertionSortSorts(front, lower);
      InsertedPermutes(sorted, x, lower);
      InsertedOrdered(sorted, x, lower);
      forall y ensures Peers(InsertionSorted(s, lower), y, lower) == Reversed(Peers(s, y, lower)) {
        InsertedPeers(sorted, x, y, lower);
        PeersAppend(front, [x], y, lower);
        ReversedAppend(Peers(front, y, lower), Peers([x], y, lower));
      }
    }
  }

  lemma {:induction false} ReversedAppend<T>(s: seq<T>, t: seq<T>)
    ensures Reversed(s + t) == Reversed(t) + Reversed(s)
  {
    if s == [] {
      assert s + t == t;
    } else {
      assert (s + t)[1..] == s[1..] + t;
      ReversedAppend(s[1..], t);
    }
  }

  /** Erasing an occurrence of x. */
  lemma WithoutErased<T>(s: seq<T>, k: nat, x: T)
    requires k < |s| && s[k] == x
    ensures Without(s[..k] + s[k + 1..], x) == Without(s, x)
  {
    assert s == s[..k] + s[k..] && s[k..][1..] == s[k + 1..];
    WithoutAppend(s[..k], s[k..], x);
    WithoutAppend(s[..k], s[k + 1..], x);
  }

  /** Erasing a later occurrence of an element changes nothing. */
  lemma {:induction false} UnicizedErased<T>(s: seq<T>, i: nat, k: nat)
    requires i < k < |s| && s[i] == s[k]
    ensures Unicized(s[..k] + s[k + 1..]) == Unicized(s)
    decreases i
  {
    var t := s[..k] + s[k + 1..];
    assert t[1..] == s[1..][..k - 1] + s[1..][k..];
    if i > 0 {
      UnicizedErased(s[1..], i - 1, k - 1);
    } else {
      WithoutErased(s[1..], k - 1, s[0]);
      UnicizedWithout(s[1..], s[0]);
      UnicizedWithout(t[1..], s[0]);
    }
  }

  // ----- a range inserted into its own list

  /** vdl_list_insert_range between two rounds, on one list: the three iterators by position. */
  datatype Walk<T> = Walk(contents: seq<T>, at: nat, cur: nat, end: nat)

  predicate InList<T>(w: Walk<T>) { w.at <= |w.contents| && w.cur <= w.end <= |w.contents| }

  /** Insert a copy in front of `at` and step on; the positions behind it move up. */
  function Round<T>(w: Walk<T>): Walk<T>
    requires InList(w)
  {
    if w.cur == w.end then w
    else
      Walk(w.contents[..w.at] + [w.contents[w.cur]] + w.contents[w.at..], w.at + 1,
           if w.at <= w.cur then w.cur + 2 else w.cur + 1, if w.at <= w.end then w.end + 1 else w.end)
  }

  function Rounds<T>(w: Walk<T>, n: nat): (w': Walk<T>)
    requires InList(w)
    ensures InList(w')
    decreases n
  {
    if n == 0 then w else Rounds(Round(w), n - 1)
  }

  /** The position lies in the range, behind its first element. */
  predicate Chases<T>(w: Walk<T>) { w.cur < w.at <= w.end }

  lemma {:induction false} ChaseNeverEnds<T>(w: Walk<T>, n: nat)
    requires InList(w) && Chases(w)
    ensures Rounds(w, n).cur < Rounds(w, n).end
    decreases n
  {
    if n > 0 {
      ChaseNeverEnds(Round(w), n - 1);
    }
  }

  /** The list with the rest of the range in front of the position. */
  function WithRange<T>(w: Walk<T>): seq<T>
    requires InList(w)
  {
    w.contents[..w.at] + w.contents[w.cur..w.end] + w.contents[w.at..]
  }

  lemma MovedUp<T>(c: seq<T>, at: nat, x: T, k: nat)
    requires at <= |c| && k < |c|
    ensures (c[..at] + [x] + c[at..])[if k < at then k else k + 1] == c[k]
  {
  }

  lemma RoundInserts<T>(w: Walk<T>)
    requires InList(w) && !Chases(w) && w.cur < w.end
    ensures !Chases(Round(w)) && Round(w).end - Round(w).cur == w.end - w.cur - 1
    ensures WithRange(Round(w)) == WithRange(w)
  {
    var c, w1 := w.contents, Round(w);
    var rest := c[w.cur + 1..w.end];
    forall k | 0 <= k < |rest| ensures w1.contents[w1.cur + k] == rest[k] {
      MovedUp(c, w.at, c[w.cur], w.cur + 1 + k);
    }
    assert w1.contents[w1.cur..w1.end] == rest;
    assert w1.contents[..w1.at] == c[..w.at] + [c[w.cur]] && w1.contents[w1.at..] == c[w.at..];
    assert [c[w.cur]] + rest == c[w.cur..w.end];
  }

  lemma {:induction false} InsertEnds<T>(w: Walk<T>)
    requires InList(w) && !Chases(w)
    ensures Rounds(w, w.end - w.cur).cur == Rounds(w, w.end - w.cur).end
    ensures Rounds(w, w.end - w.cur).contents == WithRange(w)
    decreases w.end - w.cur
  {
    if w.cur == w.end {
      assert WithRange(w) == w.contents;
    } else {
      RoundInserts(w);
      InsertEnds(Round(w));
    }
  }

  /** A range inserted into its own list: the loop ends, with the range copied in front of the position, exactly
      unless the position lies in the range behind its first element; appending a list to itself never ends. */
  lemma SelfInsertEndsExactly<T>(c: seq<T>, at: nat, start: nat, end: nat)
    requires at <= |c| && start <= end <= |c|
    ensures (exists n: nat :: Rounds(Walk(c, at, start, end), n).cur == Rounds(Walk(c, at, start, end), n).end)
       <==> !(start < at <= end)
    ensures !(start < at <= end) ==>
              Rounds(Walk(c, at, start, end), end - start).contents == c[..at] + c[start..end] + c[at..]
  {
    var w := Walk(c, at, start, end);
    if Chases(w) {
      forall n: nat ensures Rounds(w, n).cur < Rounds(w, n).end {
        ChaseNeverEnds(w, n);
      }
    } else {
      InsertEnds(w);
    }
  }
}

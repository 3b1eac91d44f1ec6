/** The scope walk of a symbol lookup and the binding it records. */
module Scope {
  import opened Common
  import opened Seqs
  import opened Files
  import opened SymbolIndex

  /** What symbol_version_matches answers for one symbol. */
  datatype Verdict = Perfect | Ambiguous | Bad

  /** A request for a symbol; version matching is the function `verdict` of file and symbol index. */
  datatype Query = Query(name: string, noExec: bool, elf: string -> nat, gnu: string -> nat,
                         verdict: (VdlFile, nat) -> Verdict)

  datatype Answer = Hit(file: VdlFile, index: nat) | Miss | NullScope

  ghost predicate FileReady(q: Query, f: VdlFile) { FileValid(f.symbols, q.gnu, q.elf) }

  ghost predicate Ready(q: Query, scope: seq<VdlFile>) {
    forall i :: 0 <= i < |scope| ==> FileReady(q, scope[i])
  }

  /** The symbols of f called q.name, in the order the iterator yields them. */
  ghost function Candidates(q: Query, f: VdlFile): seq<nat>
    requires FileReady(q, f)
  {
    Yields(f.symbols, q.name, q.elf)
  }

  /** The first candidate with verdict v. */
  ghost function First(q: Query, f: VdlFile, c: seq<nat>, v: Verdict): Option<nat> {
    if c == [] then None else if q.verdict(f, c[0]) == v then Some(c[0]) else First(q, f, c[1..], v)
  }

  ghost function InFile(q: Query, f: VdlFile): Option<nat>
    requires FileReady(q, f)
  {
    if q.noExec && f.isExecutable then None else Chosen(q, f, Candidates(q, f))
  }

  /** The first perfect candidate, or else the first ambiguous one. */
  ghost function Chosen(q: Query, f: VdlFile, c: seq<nat>): Option<nat> {
    if First(q, f, c, Perfect).Some? then First(q, f, c, Perfect) else First(q, f, c, Ambiguous)
  }

  ghost function Resolve(q: Query, scope: seq<VdlFile>): Answer
    requires Ready(q, scope)
  {
    if scope == [] then Miss
    else
      match InFile(q, scope[0])
      case Some(k) => Hit(scope[0], k)
      case None => Resolve(q, scope[1..])
  }

  // ----- what the walk means

  /** f is searched and has a candidate that is not Bad. */
  ghost predicate Acceptable(q: Query, f: VdlFile)
    requires FileReady(q, f)
  {
    && !(q.noExec && f.isExecutable)
    && exists p :: 0 <= p < |Candidates(q, f)| && q.verdict(f, Candidates(q, f)[p]) != Bad
  }

  /** Candidate p is the first of f with its verdict, and perfect if any candidate is. */
  ghost predicate BestAt(q: Query, f: VdlFile, p: nat)
    requires FileReady(q, f) && p < |Candidates(q, f)|
  {
    var c := Candidates(q, f);
    && q.verdict(f, c[p]) != Bad
    && (forall i :: 0 <= i < p ==> q.verdict(f, c[i]) != q.verdict(f, c[p]))
    && (q.verdict(f, c[p]) == Ambiguous ==> forall i :: 0 <= i < |c| ==> q.verdict(f, c[i]) != Perfect)
  }

  ghost predicate Best(q: Query, f: VdlFile, k: nat)
    requires FileReady(q, f)
  {
    exists p :: 0 <= p < |Candidates(q, f)| && Candidates(q, f)[p] == k && BestAt(q, f, p)
  }

  lemma {:induction false} FirstIs(q: Query, f: VdlFile, c: seq<nat>, v: Verdict) returns (p: nat)
    ensures First(q, f, c, v).None? <==> forall i :: 0 <= i < |c| ==> q.verdict(f, c[i]) != v
    ensures First(q, f, c, v).Some? ==>
              && p < |c| && c[p] == First(q, f, c, v).value && q.verdict(f, c[p]) == v
              && forall i :: 0 <= i < p ==> q.verdict(f, c[i]) != v
  {
    p := 0;
    if c != [] && q.verdict(f, c[0]) != v {
      var p' := FirstIs(q, f, c[1..], v);
      p := p' + 1;
      assert forall i :: 0 < i < |c| ==> c[i] == c[1..][i - 1];
    }
  }

  lemma InFileIs(q: Query, f: VdlFile)
    requires FileReady(q, f)
    ensures InFile(q, f).Some? <==> Acceptable(q, f)
    ensures InFile(q, f).Some? ==> Best(q, f, InFile(q, f).value)
  {
    var c := Candidates(q, f);
    var p := FirstIs(q, f, c, Perfect);
    var a := FirstIs(q, f, c, Ambiguous);
    if InFile(q, f).Some? {
      var at := if First(q, f, c, Perfect).Some? then p else a;
      assert BestAt(q, f, at);
    }
  }

  /** The walk returns the first file of the scope with an acceptable match and the best match of that file,
      or misses when no file of the scope has one. */
  lemma {:induction false} ResolveIsFirstAcceptable(q: Query, scope: seq<VdlFile>) returns (at: nat)
    requires Ready(q, scope)
    ensures Resolve(q, scope).Hit? ==>
              && at < |scope| && Resolve(q, scope).file == scope[at]
              && Acceptable(q, scope[at]) && Best(q, scope[at], Resolve(q, scope).index)
              && forall i :: 0 <= i < at ==> !Acceptable(q, scope[i])
    ensures !Resolve(q, scope).Hit? ==>
              Resolve(q, scope) == Miss && forall i :: 0 <= i < |scope| ==> !Acceptable(q, scope[i])
  {
    at := 0;
    if scope != [] {
      InFileIs(q, scope[0]);
      if InFile(q, scope[0]).None? {
        var at' := ResolveIsFirstAcceptable(q, scope[1..]);
        at := at' + 1;
        assert forall i :: 0 < i < |scope| ==> scope[i] == scope[1..][i - 1];
      }
    }
  }

  // ----- scopes that grow

  lemma {:induction false} ResolveAppend(q: Query, s: seq<VdlFile>, t: seq<VdlFile>)
    requires Ready(q, s) && Ready(q, t)
    ensures Ready(q, s + t)
    ensures Resolve(q, s + t) == if Resolve(q, s).Hit? then Resolve(q, s) else Resolve(q, t)
  {
    if s == [] {
      assert s + t == t;
    } else {
      assert (s + t)[1..] == s[1..] + t;
      ResolveAppend(q, s[1..], t);
    }
  }

  lemma ReadyWithin(q: Query, s: seq<VdlFile>, r: seq<VdlFile>)
    requires Ready(q, s) && forall f :: f in r ==> f in s
    ensures Ready(q, r)
  {
    forall i | 0 <= i < |r| ensures FileReady(q, r[i]) {
      assert r[i] in s;
    }
  }

  /** A file that resolves nothing can be removed anywhere. */
  lemma {:induction false} ResolveWithout(q: Query, s: seq<VdlFile>, f: VdlFile)
    requires Ready(q, s) && FileReady(q, f) && InFile(q, f).None?
    ensures Ready(q, Without<VdlFile>(s, f))
    ensures Resolve(q, Without<VdlFile>(s, f)) == Resolve(q, s)
  {
    ReadyWithin(q, s, Without<VdlFile>(s, f));
    if s != [] {
      ResolveWithout(q, s[1..], f);
      if s[0] != f {
        assert Without<VdlFile>(s, f)[1..] == Without<VdlFile>(s[1..], f);
      }
    }
  }

  /** Unicizing a scope changes no lookup. */
  lemma {:induction false} UnicizeKeepsLookups(q: Query, s: seq<VdlFile>)
    requires Ready(q, s)
    ensures Ready(q, Unicized<VdlFile>(s)) && Resolve(q, Unicized<VdlFile>(s)) == Resolve(q, s)
    decreases |s|
  {
    ReadyWithin(q, s, Unicized<VdlFile>(s));
    if s != [] {
      UnicizeKeepsLookups(q, s[1..]);
      var u := Unicized<VdlFile>(s[1..]);
      assert Unicized<VdlFile>(s)[1..] == Without<VdlFile>(u, s[0]);
      if InFile(q, s[0]).None? {
        ResolveWithout(q, u, s[0]);
      }
    }
  }

  /** Publishing files in a scope: what it resolved stays, and the new files answer only what it missed. */
  lemma GrowthKeepsResolved(q: Query, s: seq<VdlFile>, t: seq<VdlFile>)
    requires Ready(q, s) && Ready(q, t)
    ensures Ready(q, Unicized<VdlFile>(s + t))
    ensures Resolve(q, Unicized<VdlFile>(s + t)) == if Resolve(q, s).Hit? then Resolve(q, s) else Resolve(q, t)
  {
    ResolveAppend(q, s, t);
    UnicizeKeepsLookups(q, s + t);
  }

  // ----- the two scopes of a file

  /** vdl_lookup: a missing second scope is the null list, which the walk dereferences. */
  ghost function Looked(q: Query, how: LookupType, local: seq<VdlFile>, global: seq<VdlFile>): Answer
    requires Ready(q, local) && Ready(q, global)
  {
    var first := if how in {LocalGlobal, LocalOnly} then local else global;
    if Resolve(q, first).Hit? then Resolve(q, first)
    else
      match how
      case LocalGlobal => Resolve(q, global)
      case GlobalLocal => Resolve(q, local)
      case _ => NullScope
  }

  /** The answer is the best match of the first acceptable file, and no hit when there is none. */
  ghost predicate FirstAcceptable(q: Query, scope: seq<VdlFile>, answer: Answer)
    requires Ready(q, scope)
  {
    if answer.Hit? then exists at :: 0 <= at < |scope| && FoundAt(q, scope, answer, at)
    else forall i :: 0 <= i < |scope| ==> !Acceptable(q, scope[i])
  }

  ghost predicate FoundAt(q: Query, scope: seq<VdlFile>, answer: Answer, at: nat)
    requires Ready(q, scope) && answer.Hit? && at < |scope|
  {
    && answer.file == scope[at] && Acceptable(q, scope[at]) && Best(q, scope[at], answer.index)
    && forall i :: 0 <= i < at ==> !Acceptable(q, scope[i])
  }

  /** A lookup finds the first acceptable file of the first scope and then the second; without one it misses, or
      walks the null scope when there is no second scope. */
  lemma LookedIsFirstAcceptable(q: Query, how: LookupType, local: seq<VdlFile>, global: seq<VdlFile>)
    requires Ready(q, local) && Ready(q, global)
    ensures Ready(q, local + global) && Ready(q, global + local)
    ensures how == LocalGlobal ==> FirstAcceptable(q, local + global, Looked(q, how, local, global))
    ensures how == GlobalLocal ==> FirstAcceptable(q, global + local, Looked(q, how, local, global))
    ensures how == LocalOnly ==> FirstAcceptable(q, local, Looked(q, how, local, global))
    ensures how == GlobalOnly ==> FirstAcceptable(q, global, Looked(q, how, local, global))
    ensures !Looked(q, how, local, global).Hit? ==>
              Looked(q, how, local, global) == if how == LocalGlobal || how == GlobalLocal then Miss else NullScope
  {
    ResolveAppend(q, local, global);
    ResolveAppend(q, global, local);
    ResolveFindsFirst(q, local);
    ResolveFindsFirst(q, global);
    ResolveFindsFirst(q, local + global);
    ResolveFindsFirst(q, global + local);
  }

  lemma ResolveFindsFirst(q: Query, scope: seq<VdlFile>)
    requires Ready(q, scope)
    ensures FirstAcceptable(q, scope, Resolve(q, scope)) && (!Resolve(q, scope).Hit? ==> Resolve(q, scope) == Miss)
  {
    var at := ResolveIsFirstAcceptable(q, scope);
    if Resolve(q, scope).Hit? {
      assert FoundAt(q, scope, Resolve(q, scope), at);
    }
  }

  /** When publishing t in the global scope moves a lookup: only for a file that searches the global scope first,
      when that scope missed, its local scope hit, and t hits too. */
  lemma PublishingMoves(q: Query, how: LookupType, local: seq<VdlFile>, global: seq<VdlFile>, t: seq<VdlFile>)
    requires Ready(q, local) && Ready(q, global) && Ready(q, t)
    requires Looked(q, how, local, global).Hit?
    ensures Ready(q, Unicized<VdlFile>(global + t))
    ensures Looked(q, how, local, Unicized<VdlFile>(global + t)) ==
              if how == GlobalLocal && Resolve(q, global) == Miss && Resolve(q, t).Hit? then Resolve(q, t)
              else Looked(q, how, local, global)
  {
    GrowthKeepsResolved(q, global, t);
    var at := ResolveIsFirstAcceptable(q, global);
  }

  /** The null scope is walked exactly when a single-scope lookup misses. */
  lemma NullScopeExactly(q: Query, how: LookupType, local: seq<VdlFile>, global: seq<VdlFile>)
    requires Ready(q, local) && Ready(q, global)
    ensures Looked(q, how, local, global) == NullScope <==>
              || (how == LocalOnly && forall i :: 0 <= i < |local| ==> !Acceptable(q, local[i]))
              || (how == GlobalOnly && forall i :: 0 <= i < |global| ==> !Acceptable(q, global[i]))
  {
    var l := ResolveIsFirstAcceptable(q, local);
    var g := ResolveIsFirstAcceptable(q, global);
  }

  // ----- the code

  lemma {:induction false} FirstAppend(q: Query, f: VdlFile, c: seq<nat>, d: seq<nat>, v: Verdict)
    ensures First(q, f, c + d, v) == if First(q, f, c, v).Some? then First(q, f, c, v) else First(q, f, d, v)
  {
    if c == [] {
      assert c + d == d;
    } else {
      assert (c + d)[1..] == c[1..] + d;
      FirstAppend(q, f, c[1..], d, v);
    }
  }

  /** What the walk of one file has counted over the candidates seen, none of them perfect. */
  ghost predicate Tallied(q: Query, f: VdlFile, seen: seq<nat>, n: nat, first: nat, last: nat) {
    && First(q, f, seen, Perfect) == None
    && First(q, f, seen, Ambiguous) == (if n == 0 then None else Some(first))
    && (n == 1 ==> last == first)
  }

  lemma TallyStep(q: Query, f: VdlFile, seen: seq<nat>, index: nat, n: nat, first: nat, last: nat)
    requires Tallied(q, f, seen, n, first, last)
    ensures q.verdict(f, index) == Bad ==> Tallied(q, f, seen + [index], n, first, last)
    ensures q.verdict(f, index) == Ambiguous ==>
              Tallied(q, f, seen + [index], n + 1, if n == 0 then index else first, index)
  {
    FirstAppend(q, f, seen, [index], Perfect);
    FirstAppend(q, f, seen, [index], Ambiguous);
  }

  lemma PerfectEndsWalk(q: Query, f: VdlFile, seen: seq<nat>, index: nat, left: seq<nat>)
    requires First(q, f, seen, Perfect) == None && q.verdict(f, index) == Perfect
    ensures Chosen(q, f, seen + ([index] + left)) == Some(index)
  {
    FirstAppend(q, f, seen, [index] + left, Perfect);
  }

  lemma TallyChooses(q: Query, f: VdlFile, all: seq<nat>, n: nat, first: nat, last: nat)
    requires Tallied(q, f, all, n, first, last)
    ensures n == 0 ==> Chosen(q, f, all) == None
    ensures n > 0 ==> Chosen(q, f, all) == Some(first)
    ensures n == 1 ==> Chosen(q, f, all) == Some(last)
  {
  }

  lemma SeenOneMore(seen: seq<nat>, index: nat, left: seq<nat>)
    ensures seen + ([index] + left) == (seen + [index]) + left
  {
  }

  /** The inner loop: the candidates of one file. */
  method WalkFile(q: Query, item: VdlFile, i: LookupIterator) returns (found: Option<nat>)
    requires i.Valid()
    modifies i
    ensures found == Chosen(q, item, old(i.Remaining()))
  {
    var nAmbiguous, lastAmbiguous, firstAmbiguous := 0, 0, 0;
    ghost var all, seen := i.Remaining(), [];
    var more := i.HasNext();
    while more
      invariant i.Valid() && (more <==> i.Remaining() != [])
      invariant seen + i.Remaining() == all
      invariant Tallied(q, item, seen, nAmbiguous, firstAmbiguous, lastAmbiguous)
      decreases |i.Remaining()|
    {
      var index := i.Next();
      TallyStep(q, item, seen, index, nAmbiguous, firstAmbiguous, lastAmbiguous);
      var versionMatch := q.verdict(item, index);
      if versionMatch == Perfect {
        PerfectEndsWalk(q, item, seen, index, i.Remaining());
        return Some(index);
      } else if versionMatch == Ambiguous {
        if nAmbiguous == 0 {
          firstAmbiguous := index;
        }
        nAmbiguous := nAmbiguous + 1;
        lastAmbiguous := index;
      }
      SeenOneMore(seen, index, i.Remaining());
      seen := seen + [index];
      more := i.HasNext();
    }
    assert seen == all;
    TallyChooses(q, item, all, nAmbiguous, firstAmbiguous, lastAmbiguous);
    if nAmbiguous == 1 {
      found := Some(lastAmbiguous);
    } else if nAmbiguous > 1 {
      found := Some(firstAmbiguous);
    } else {
      found := None;
    }
  }

  lemma ResolveAt(q: Query, scope: seq<VdlFile>, n: nat)
    requires Ready(q, scope) && n < |scope|
    ensures Ready(q, scope[n..]) && Ready(q, scope[n + 1..])
    ensures Resolve(q, scope[n..])
         == match InFile(q, scope[n]) { case Some(k) => Hit(scope[n], k) case None => Resolve(q, scope[n + 1..]) }
  {
    assert scope[n..][1..] == scope[n + 1..];
  }

  /** vdl_lookup_with_scope_internal; `from` is null for a lookup on behalf of no file. */
  method LookupWithScope(from: VdlFile?, q: Query, scope: seq<VdlFile>) returns (answer: Answer)
    requires Ready(q, scope)
    modifies (if from == null then {} else {from})`resolvedIn
    ensures answer == Resolve(q, scope)
    ensures from != null ==>
              from.resolvedIn == if answer.Hit? && answer.file != from then [answer.file] + old(from.resolvedIn)
                                 else old(from.resolvedIn)
  {
    assert scope[0..] == scope;
    for n := 0 to |scope|
      invariant Ready(q, scope[n..]) && Resolve(q, scope) == Resolve(q, scope[n..])
      invariant from != null ==> from.resolvedIn == old(from.resolvedIn)
    {
      var item := scope[n];
      ResolveAt(q, scope, n);
      if q.noExec && item.isExecutable {
        continue;
      }
      var i := new LookupIterator.Begin(item.symbols, q.name, q.elf(q.name), q.gnu(q.name), q.gnu, q.elf);
      var found := WalkFile(q, item, i);
      if found.Some? {
        Record(from, item);
        return Hit(item, found.value);
      }
    }
    answer := Miss;
  }

  method Record(from: VdlFile?, item: VdlFile)
    modifies (if from == null then {} else {from})`resolvedIn
    ensures from != null ==>
              from.resolvedIn == if item != from then [item] + old(from.resolvedIn) else old(from.resolvedIn)
  {
    if from != null && item != from {
      from.resolvedIn := [item] + from.resolvedIn;
    }
  }

  /** vdl_lookup, after symbol remapping. */
  method Lookup(file: VdlFile, q: Query) returns (answer: Answer)
    requires Ready(q, file.localScope) && Ready(q, file.context.globalScope)
    modifies file`resolvedIn
    ensures answer == Looked(q, file.lookupType, file.localScope, file.context.globalScope)
    ensures file.lookupType == LocalGlobal ==>
              FirstAcceptable(q, file.localScope + file.context.globalScope, answer)
    ensures file.lookupType == GlobalLocal ==>
              FirstAcceptable(q, file.context.globalScope + file.localScope, answer)
    ensures file.resolvedIn == if answer.Hit? && answer.file != file then [answer.file] + old(file.resolvedIn)
                               else old(file.resolvedIn)
  {
    LookedIsFirstAcceptable(q, file.lookupType, file.localScope, file.context.globalScope);
    var first, second := file.context.globalScope, Some(file.localScope);
    match file.lookupType {
      case LocalGlobal => first, second := file.localScope, Some(file.context.globalScope);
      case GlobalLocal => first, second := file.context.globalScope, Some(file.localScope);
      case GlobalOnly => first, second := file.context.globalScope, None;
      case LocalOnly => first, second := file.localScope, None;
    }
    answer := LookupWithScope(file, q, first);
    if !answer.Hit? {
      if second.None? {
        answer := NullScope;
      } else {
        answer := LookupWithScope(file, q, second.value);
      }
    }
  }
}

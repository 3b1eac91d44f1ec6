/** Mapping a file and, recursively, everything it needs, on a graph that is discovered while it is walked. */
module Deps {
  import opened Common
  import opened Graph

  datatype Identity = Identity(dev: nat, ino: nat)

  /** What a mapped file says about itself. */
  datatype Image = Image(soname: Option<string>, needed: seq<string>, rpath: seq<string>, runpath: seq<string>)

  /** A file's record; deps are positions in the store of records. */
  datatype FileRec = FileRec(name: string, id: Identity, image: Image, context: nat,
                             depsInitialized: bool, depth: nat, deps: seq<nat>)

  /** The outside: name remapping per context, the search through the directory lists, stat, and what files hold. */
  datatype Outside = Outside(remap: (nat, string) -> string,
                             search: (string, seq<string>, seq<string>) -> Option<string>,
                             stat: string -> Option<Identity>,
                             image: Identity -> Image)

  datatype Single = Mapped(file: nat, newlyMapped: bool) | Refused(error: string)

  // ----- the store of records

  predicate StoreValid(files: seq<FileRec>, contexts: set<nat>) {
    forall k :: 0 <= k < |files| ==>
      && files[k].context in contexts
      && (forall i :: 0 <= i < |files[k].deps| ==> files[k].deps[i] < |files|)
      && (!files[k].depsInitialized ==> files[k].deps == [])
  }

  /** A record may only get deeper and, once, be given its dependencies. */
  predicate RecKept(r: FileRec, r': FileRec) {
    && r'.name == r.name && r'.id == r.id && r'.image == r.image && r'.context == r.context && r'.depth >= r.depth
    && (r.depsInitialized ==> r'.depsInitialized && r'.deps == r.deps)
  }

  predicate Grown(files: seq<FileRec>, files': seq<FileRec>) {
    |files| <= |files'| && forall k :: 0 <= k < |files| ==> RecKept(files[k], files'[k])
  }

  /** No file from position `from` on is a second mapping of one that was there before it. */
  predicate NoneMappedTwice(files: seq<FileRec>, from: nat) {
    forall j, k :: 0 <= j < k < |files| && from <= k && files[j].context == files[k].context ==>
      files[j].id != files[k].id
  }

  /** The positions a to b. */
  function Positions(a: nat, b: nat): (r: seq<nat>)
    requires a <= b
    ensures |r| == b - a && forall i :: 0 <= i < |r| ==> r[i] == a + i
    decreases b - a
  {
    if a == b then [] else [a] + Positions(a + 1, b)
  }

  lemma {:induction false} PositionsAppend(a: nat, b: nat)
    requires a <= b
    ensures Positions(a, b + 1) == Positions(a, b) + [b]
  {
  }

  predicate HasName(r: FileRec, name: string) { r.name == name || r.image.soname == Some(name) }

  /** find_by_name */
  method FindByName(files: seq<FileRec>, ldso: nat, context: nat, name: string) returns (found: Option<nat>)
    requires ldso < |files|
    ensures name == "ldso" ==> found == Some(ldso)
    ensures name != "ldso" && found.Some? ==>
              && found.value < |files| && files[found.value].context == context
              && (files[found.value].name == name || files[found.value].image.soname == Some(name))
              && forall k :: 0 <= k < found.value && files[k].context == context ==>
                   files[k].name != name && files[k].image.soname != Some(name)
    ensures found.None? ==>
              forall k :: 0 <= k < |files| && files[k].context == context ==>
                files[k].name != name && files[k].image.soname != Some(name)
  {
    if name == "ldso" {
      return Some(ldso);
    }
    for i := 0 to |files|
      invariant forall k :: 0 <= k < i && files[k].context == context ==> !HasName(files[k], name)
    {
      if files[i].context == context && HasName(files[i], name) {
        return Some(i);
      }
    }
    return None;
  }

  /** find_by_dev_ino */
  method FindByDevIno(files: seq<FileRec>, context: nat, id: Identity) returns (found: Option<nat>)
    ensures found.Some? ==>
              && found.value < |files| && files[found.value].context == context && files[found.value].id == id
              && forall k :: 0 <= k < found.value && files[k].context == context ==> files[k].id != id
    ensures found.None? ==> forall k :: 0 <= k < |files| && files[k].context == context ==> files[k].id != id
  {
    for i := 0 to |files|
      invariant forall k :: 0 <= k < i && files[k].context == context ==> files[k].id != id
    {
      if files[i].context == context && files[i].id == id {
        return Some(i);
      }
    }
    return None;
  }

  // ----- what it means to resolve a needed name

  /** `dep` is what `name` stands for: the loader itself, a file of the context called so, or the file of the
      context that the search leads to. */
  predicate Answers(w: Outside, ldso: nat, files: seq<FileRec>, context: nat, requested: string,
                    rpath: seq<string>, runpath: seq<string>, dep: nat) {
    var name := w.remap(context, requested);
    dep < |files| &&
    if name == "ldso" then dep == ldso
    else files[dep].context == context && (HasName(files[dep], name) || Leads(w, name, rpath, runpath, files[dep].id))
  }

  predicate Leads(w: Outside, name: string, rpath: seq<string>, runpath: seq<string>, id: Identity) {
    Found(w, name, rpath, runpath) == Some(id)
  }

  /** A file of the context is called `name`, or it is the loader that is meant. */
  predicate Named(files: seq<FileRec>, context: nat, name: string) {
    name == "ldso" || exists k :: 0 <= k < |files| && files[k].context == context && HasName(files[k], name)
  }

  /** The identity of what the search finds. */
  function Found(w: Outside, name: string, rpath: seq<string>, runpath: seq<string>): Option<Identity> {
    var path := w.search(name, rpath, runpath);
    if path.None? then None else w.stat(path.value)
  }

  /** Which of its four answers resolving a name gives: a file of that name first, then the file with the identity
      the search finds, then a new mapping of it, and a refusal only when the search finds nothing. */
  predicate Resolved(w: Outside, ldso: nat, files: seq<FileRec>, context: nat, requested: string,
                     rpath: seq<string>, runpath: seq<string>, result: Single) {
    var name := w.remap(context, requested);
    var id := Found(w, name, rpath, runpath);
    if Named(files, context, name) then
      && result.Mapped? && !result.newlyMapped && result.file < |files|
      && (if name == "ldso" then result.file == ldso
          else files[result.file].context == context && HasName(files[result.file], name))
    else if id.None? then result.Refused?
    else if IsMapped(files, context, id.value) then
      && result.Mapped? && !result.newlyMapped && result.file < |files|
      && files[result.file].context == context && files[result.file].id == id.value
    else result == Mapped(|files|, true)
  }

  /** No file is called so and the search finds nothing. */
  predicate Unresolvable(w: Outside, files: seq<FileRec>, context: nat, requested: string,
                         rpath: seq<string>, runpath: seq<string>) {
    var name := w.remap(context, requested);
    !Named(files, context, name) && Found(w, name, rpath, runpath).None?
  }

  /** The first n dependencies of f answer the first n names it needs, in order. */
  predicate DepsAnswer(w: Outside, ldso: nat, files: seq<FileRec>, f: nat, caller: seq<string>, n: nat)
    requires f < |files|
  {
    var r := files[f];
    && |r.deps| == n <= |r.image.needed|
    && forall i :: 0 <= i < n ==>
         Answers(w, ldso, files, r.context, r.image.needed[i], r.image.rpath + caller, r.image.runpath, r.deps[i])
  }

  /** The search path handed down to f: none for a requested file, otherwise the rpath of a file that lists f among
      its dependencies. */
  predicate CallerOf(files: seq<FileRec>, roots: set<nat>, f: nat, caller: seq<string>) {
    (f in roots && caller == []) || exists p :: 0 <= p < |files| && HandsDown(files[p], f, caller)
  }

  predicate HandsDown(r: FileRec, f: nat, caller: seq<string>) {
    r.depsInitialized && f in r.deps && caller == r.image.rpath
  }

  /** The dependencies of f match what it needs. */
  ghost predicate Complete(w: Outside, ldso: nat, files: seq<FileRec>, roots: set<nat>, f: nat)
    requires f < |files|
  {
    exists caller ::
      CallerOf(files, roots, f, caller) && DepsAnswer(w, ldso, files, f, caller, |files[f].image.needed|)
  }

  ghost predicate AllComplete(w: Outside, ldso: nat, files: seq<FileRec>, roots: set<nat>) {
    forall k :: 0 <= k < |files| && files[k].depsInitialized ==> Complete(w, ldso, files, roots, k)
  }

  /** The dependencies of f answer the first names it needs, and the next name cannot be resolved. */
  predicate Blocked(w: Outside, ldso: nat, files: seq<FileRec>, roots: set<nat>, f: nat, caller: seq<string>) {
    f < |files| && files[f].depsInitialized && CallerOf(files, roots, f, caller) &&
    var r, i := files[f], |files[f].deps|;
    i < |r.image.needed| && DepsAnswer(w, ldso, files, f, caller, i) &&
    Unresolvable(w, files, r.context, r.image.needed[i], r.image.rpath + caller, r.image.runpath)
  }

  ghost function DepEdges(files: seq<FileRec>): Edges<nat> {
    map k: nat | k < |files| :: files[k].deps
  }

  /** A file that the root reaches is blocked. */
  ghost predicate Stuck(w: Outside, ldso: nat, files: seq<FileRec>, roots: set<nat>, root: nat) {
    exists f: nat, caller :: Reaches(DepEdges(files), {root}, f) && Blocked(w, ldso, files, roots, f, caller)
  }

  /** The dependencies of every initialized file outside `stack` are initialized. */
  predicate ClosedBut(files: seq<FileRec>, stack: set<nat>) {
    forall k, i :: 0 <= k < |files| && files[k].depsInitialized && k !in stack && 0 <= i < |files[k].deps| ==>
      files[k].deps[i] < |files| && files[files[k].deps[i]].depsInitialized
  }

  lemma AnswersGrow(w: Outside, ldso: nat, files: seq<FileRec>, files': seq<FileRec>, context: nat, requested: string,
                    rpath: seq<string>, runpath: seq<string>, dep: nat)
    requires Grown(files, files') && Answers(w, ldso, files, context, requested, rpath, runpath, dep)
    ensures Answers(w, ldso, files', context, requested, rpath, runpath, dep)
  {
    assert RecKept(files[dep], files'[dep]);
  }

  lemma CallerGrows(files: seq<FileRec>, files': seq<FileRec>, roots: set<nat>, f: nat, caller: seq<string>)
    requires Grown(files, files') && CallerOf(files, roots, f, caller)
    ensures CallerOf(files', roots, f, caller)
  {
    if !(f in roots && caller == []) {
      var p :| 0 <= p < |files| && HandsDown(files[p], f, caller);
      assert RecKept(files[p], files'[p]);
    }
  }

  lemma DepsAnswerGrow(w: Outside, ldso: nat, files: seq<FileRec>, files': seq<FileRec>, f: nat,
                       caller: seq<string>, n: nat)
    requires Grown(files, files') && f < |files| && files[f].depsInitialized && DepsAnswer(w, ldso, files, f, caller, n)
    ensures DepsAnswer(w, ldso, files', f, caller, n)
  {
    assert RecKept(files[f], files'[f]);
    var r := files[f];
    forall i | 0 <= i < |r.deps|
      ensures Answers(w, ldso, files', r.context, r.image.needed[i], r.image.rpath + caller, r.image.runpath, r.deps[i])
    {
      AnswersGrow(w, ldso, files, files', r.context, r.image.needed[i], r.image.rpath + caller, r.image.runpath,
                  r.deps[i]);
    }
  }

  /** A complete file stays complete while others are mapped. */
  lemma CompleteGrows(w: Outside, ldso: nat, files: seq<FileRec>, files': seq<FileRec>, roots: set<nat>, f: nat)
    requires Grown(files, files') && f < |files| && files[f].depsInitialized && Complete(w, ldso, files, roots, f)
    ensures Complete(w, ldso, files', roots, f)
  {
    var caller :| CallerOf(files, roots, f, caller) && DepsAnswer(w, ldso, files, f, caller, |files[f].image.needed|);
    assert RecKept(files[f], files'[f]);
    CallerGrows(files, files', roots, f, caller);
    DepsAnswerGrow(w, ldso, files, files', f, caller, |files[f].image.needed|);
  }

  /** One more requested file. */
  lemma CompleteWithRoot(w: Outside, ldso: nat, files: seq<FileRec>, roots: set<nat>, root: nat)
    requires AllComplete(w, ldso, files, roots)
    ensures AllComplete(w, ldso, files, roots + {root})
  {
    forall k | 0 <= k < |files| && files[k].depsInitialized ensures Complete(w, ldso, files, roots + {root}, k) {
      var caller :| CallerOf(files, roots, k, caller) && DepsAnswer(w, ldso, files, k, caller, |files[k].image.needed|);
      assert CallerOf(files, roots + {root}, k, caller);
    }
  }

  /** What a dependency reaches, the file reaches. */
  lemma StuckThrough(w: Outside, ldso: nat, files: seq<FileRec>, roots: set<nat>, item: nat, dep: nat)
    requires item < |files| && dep in files[item].deps && Stuck(w, ldso, files, roots, dep)
    ensures Stuck(w, ldso, files, roots, item)
  {
    var f: nat, caller :| Reaches(DepEdges(files), {dep}, f) && Blocked(w, ldso, files, roots, f, caller);
    ReachedThrough(DepEdges(files), item, dep, f);
  }

  // ----- termination: what is not yet mapped, and what is mapped and not yet initialized

  ghost function Unmapped(files: seq<FileRec>, contexts: set<nat>, identities: set<Identity>): set<(nat, Identity)> {
    set c, i | c in contexts && i in identities && !IsMapped(files, c, i) :: (c, i)
  }

  predicate IsMapped(files: seq<FileRec>, c: nat, i: Identity) {
    exists k :: 0 <= k < |files| && files[k].context == c && files[k].id == i
  }

  ghost function Pending(files: seq<FileRec>): set<nat> {
    set k | 0 <= k < |files| && !files[k].depsInitialized
  }

  ghost function Outstanding(files: seq<FileRec>, contexts: set<nat>, identities: set<Identity>): nat {
    |Unmapped(files, contexts, identities)| + |Pending(files)|
  }

  lemma ProperSubsetSmaller<T>(a: set<T>, b: set<T>, x: T)
    requires a <= b && x in b && x !in a
    ensures |a| < |b|
  {
    assert b == a + (b - a) && x in b - a;
  }

  /** Mapping one more file does not add to what is left to do. */
  lemma OutstandingMapped(files: seq<FileRec>, r: FileRec, contexts: set<nat>, identities: set<Identity>)
    requires r.context in contexts && r.id in identities && !IsMapped(files, r.context, r.id) && !r.depsInitialized
    ensures Outstanding(files + [r], contexts, identities) <= Outstanding(files, contexts, identities)
  {
    var files' := files + [r];
    var u, u' := Unmapped(files, contexts, identities), Unmapped(files', contexts, identities);
    assert forall k :: 0 <= k < |files| ==> files'[k] == files[k];
    assert files'[|files|] == r;
    ProperSubsetSmaller(u', u, (r.context, r.id));
    assert Pending(files') == Pending(files) + {|files|};
  }

  /** Initializing a file takes it off the list. */
  lemma OutstandingInitialized(files: seq<FileRec>, files': seq<FileRec>, f: nat,
                               contexts: set<nat>, identities: set<Identity>)
    requires f < |files| == |files'| && !files[f].depsInitialized && files'[f].depsInitialized
    requires forall k :: 0 <= k < |files| ==> files'[k].context == files[k].context && files'[k].id == files[k].id
    requires forall k :: 0 <= k < |files| && k != f ==> files'[k].depsInitialized == files[k].depsInitialized
    ensures Outstanding(files', contexts, identities) < Outstanding(files, contexts, identities)
  {
    SameMapped(files, files', contexts, identities);
    ProperSubsetSmaller(Pending(files'), Pending(files), f);
  }

  lemma SameMapped(files: seq<FileRec>, files': seq<FileRec>, contexts: set<nat>, identities: set<Identity>)
    requires |files| == |files'|
    requires forall k :: 0 <= k < |files| ==> files'[k].context == files[k].context && files'[k].id == files[k].id
    ensures Unmapped(files', contexts, identities) == Unmapped(files, contexts, identities)
  {
    forall c, i ensures IsMapped(files, c, i) <==> IsMapped(files', c, i) {
      if IsMapped(files, c, i) {
        var k :| 0 <= k < |files| && files[k].context == c && files[k].id == i;
        assert files'[k].context == c;
      }
    }
  }

  // ----- steps of the walk

  /** A file as file_new leaves it, with what stat said. */
  predicate FreshlyMapped(r: FileRec, w: Outside, context: nat, name: string) {
    && r.name == name && r.context == context && r.image == w.image(r.id)
    && !r.depsInitialized && r.depth == 0 && r.deps == []
  }

  /** While `item` collects its dependencies, older files only get deeper and newer ones are not initialized. */
  predicate OthersKept(files: seq<FileRec>, files': seq<FileRec>, item: nat) {
    && item < |files| <= |files'| && files'[item].depsInitialized
    && (forall k :: 0 <= k < |files| ==> RecKept(files[k].(deps := files'[k].deps), files'[k]))
    && (forall k :: 0 <= k < |files| && k != item ==>
          files'[k].depsInitialized == files[k].depsInitialized && files'[k].deps == files[k].deps)
    && (forall k :: |files| <= k < |files'| ==> !files'[k].depsInitialized)
    && NoneMappedTwice(files', |files|)
  }

  /** `dep` is one deeper than item at least, and is the last of its dependencies. */
  function WithDep(files: seq<FileRec>, item: nat, dep: nat): (files': seq<FileRec>)
    requires item < |files| && dep < |files|
    ensures |files'| == |files|
  {
    var deeper := files[dep := files[dep].(depth := Max(files[dep].depth, files[item].depth + 1))];
    deeper[item := deeper[item].(deps := deeper[item].deps + [dep])]
  }

  /** Recording a dependency: it moves down to one below item unless it is that deep already, and nothing else changes
      but the list it is appended to. */
  lemma WithDepIs(files: seq<FileRec>, item: nat, dep: nat)
    requires item < |files| && dep < |files|
    ensures var files' := WithDep(files, item, dep);
            && files'[item].deps == files[item].deps + [dep]
            && files'[dep].depth == (if files[dep].depth > files[item].depth + 1 then files[dep].depth
                                     else files[item].depth + 1)
            && forall k :: 0 <= k < |files| ==>
                 && files'[k].name == files[k].name && files'[k].id == files[k].id && files'[k].image == files[k].image
                 && files'[k].context == files[k].context && files'[k].depsInitialized == files[k].depsInitialized
                 && (k != dep ==> files'[k].depth == files[k].depth) && (k != item ==> files'[k].deps == files[k].deps)
  {
  }

  /** Every dependency listed so far is deeper than item was. */
  predicate DepsDeeper(all: seq<FileRec>, files: seq<FileRec>, item: nat)
    requires item < |all| && item < |files|
  {
    forall i :: 0 <= i < |files[item].deps| ==>
      files[item].deps[i] < |files| && files[files[item].deps[i]].depth > all[item].depth
  }

  lemma WithDepDeeper(all: seq<FileRec>, files: seq<FileRec>, item: nat, dep: nat)
    requires item < |all| && item < |files| && dep < |files| && DepsDeeper(all, files, item)
    requires files[item].depth >= all[item].depth
    ensures DepsDeeper(all, WithDep(files, item, dep), item)
  {
    var files' := WithDep(files, item, dep);
    assert files'[item].deps == files[item].deps + [dep];
    assert forall k :: 0 <= k < |files| ==> files'[k].depth >= files[k].depth;
  }

  lemma MappedKept(old': seq<FileRec>, before: seq<FileRec>, files: seq<FileRec>, item: nat)
    requires OthersKept(old', before, item) && |files| == |before| + 1 && files[..|before|] == before
    requires !files[|before|].depsInitialized && !IsMapped(before, files[|before|].context, files[|before|].id)
    ensures OthersKept(old', files, item)
  {
    assert forall k :: 0 <= k < |before| ==> files[k] == before[k];
  }

  lemma MappedDeeper(all: seq<FileRec>, before: seq<FileRec>, files: seq<FileRec>, item: nat)
    requires item < |all| && item < |before| && DepsDeeper(all, before, item)
    requires |files| == |before| + 1 && files[..|before|] == before
    ensures DepsDeeper(all, files, item)
  {
    assert forall k :: 0 <= k < |before| ==> files[k] == before[k];
  }

  lemma WithDepKept(old': seq<FileRec>, files: seq<FileRec>, item: nat, dep: nat)
    requires OthersKept(old', files, item) && dep < |files|
    ensures OthersKept(old', WithDep(files, item, dep), item)
  {
    var files' := WithDep(files, item, dep);
    forall k | 0 <= k < |old'| ensures RecKept(old'[k].(deps := files'[k].deps), files'[k]) {
      assert RecKept(old'[k].(deps := files[k].deps), files[k]);
    }
  }

  lemma WithDepOutstanding(files: seq<FileRec>, item: nat, dep: nat, contexts: set<nat>, identities: set<Identity>)
    requires item < |files| && dep < |files|
    ensures Outstanding(WithDep(files, item, dep), contexts, identities) == Outstanding(files, contexts, identities)
  {
    var files' := WithDep(files, item, dep);
    SameMapped(files, files', contexts, identities);
    assert Pending(files') == Pending(files);
  }

  /** Mapping one more file leaves the answers given so far. */
  lemma PrefixAnswers(w: Outside, ldso: nat, before: seq<FileRec>, files: seq<FileRec>, f: nat,
                      caller: seq<string>, n: nat)
    requires f < |before| <= |files| && files[..|before|] == before && DepsAnswer(w, ldso, before, f, caller, n)
    ensures DepsAnswer(w, ldso, files, f, caller, n)
  {
    assert forall k :: 0 <= k < |before| ==> files[k] == before[k];
  }

  lemma WithDepAnswers(w: Outside, ldso: nat, files: seq<FileRec>, f: nat, caller: seq<string>, n: nat, dep: nat)
    requires f < |files| && DepsAnswer(w, ldso, files, f, caller, n) && n < |files[f].image.needed|
    requires Answers(w, ldso, files, files[f].context, files[f].image.needed[n], files[f].image.rpath + caller,
                     files[f].image.runpath, dep)
    ensures DepsAnswer(w, ldso, WithDep(files, f, dep), f, caller, n + 1)
  {
    var files' := WithDep(files, f, dep);
    var r := files'[f];
    assert r.image == files[f].image && r.context == files[f].context && r.deps == files[f].deps + [dep];
    assert forall k :: 0 <= k < |files| ==>
        files'[k].context == files[k].context && files'[k].id == files[k].id && files'[k].name == files[k].name &&
        files'[k].image == files[k].image;
    forall i | 0 <= i < n + 1
      ensures Answers(w, ldso, files', r.context, r.image.needed[i], r.image.rpath + caller, r.image.runpath, r.deps[i])
    {
      assert Answers(w, ldso, files, r.context, r.image.needed[i], r.image.rpath + caller, r.image.runpath, r.deps[i]);
    }
  }

  lemma WithDepCaller(files: seq<FileRec>, roots: set<nat>, item: nat, dep: nat, f: nat, caller: seq<string>)
    requires item < |files| && dep < |files| && CallerOf(files, roots, f, caller)
    ensures CallerOf(WithDep(files, item, dep), roots, f, caller)
  {
    if !(f in roots && caller == []) {
      var p :| 0 <= p < |files| && HandsDown(files[p], f, caller);
      assert HandsDown(WithDep(files, item, dep)[p], f, caller);
    }
  }

  lemma PrefixCaller(before: seq<FileRec>, files: seq<FileRec>, roots: set<nat>, f: nat, caller: seq<string>)
    requires |before| <= |files| && files[..|before|] == before && CallerOf(before, roots, f, caller)
    ensures CallerOf(files, roots, f, caller)
  {
    assert forall k :: 0 <= k < |before| ==> files[k] == before[k];
  }

  lemma ListedNext(w: Outside, ldso: nat, all: seq<FileRec>, files: seq<FileRec>, item: nat, caller: seq<string>,
                   n: nat, dep: nat)
    requires OthersKept(all, files, item) && DepsAnswer(w, ldso, files, item, caller, n)
    requires n < |files[item].image.needed| && DepsDeeper(all, files, item)
    requires Answers(w, ldso, files, files[item].context, files[item].image.needed[n], files[item].image.rpath + caller,
                     files[item].image.runpath, dep)
    ensures OthersKept(all, WithDep(files, item, dep), item)
    ensures DepsAnswer(w, ldso, WithDep(files, item, dep), item, caller, n + 1)
    ensures DepsDeeper(all, WithDep(files, item, dep), item)
  {
    assert RecKept(all[item].(deps := files[item].deps), files[item]);
    WithDepDeeper(all, files, item, dep);
    WithDepKept(all, files, item, dep);
    WithDepAnswers(w, ldso, files, item, caller, n, dep);
  }

  lemma GrownTransitive(a: seq<FileRec>, b: seq<FileRec>, c: seq<FileRec>)
    requires Grown(a, b) && Grown(b, c)
    ensures Grown(a, c)
  {
    forall k | 0 <= k < |a| ensures RecKept(a[k], c[k]) {
      assert RecKept(a[k], b[k]) && RecKept(b[k], c[k]);
    }
  }

  lemma {:induction false} PositionsSplit(a: nat, b: nat, c: nat)
    requires a <= b <= c
    ensures Positions(a, b) + Positions(b, c) == Positions(a, c)
  {
  }

  lemma GrownReflexive(files: seq<FileRec>)
    ensures Grown(files, files) && NoneMappedTwice(files, |files|)
  {
  }

  /** A store with one more file mapped. */
  lemma OneMapped(w: Outside, ldso: nat, all: seq<FileRec>, files: seq<FileRec>, roots: set<nat>)
    requires |files| == |all| + 1 && files[..|all|] == all && !files[|all|].depsInitialized
    requires !IsMapped(all, files[|all|].context, files[|all|].id)
    requires AllComplete(w, ldso, all, roots) && ClosedBut(all, {})
    ensures Grown(all, files) && NoneMappedTwice(files, |all|) && [|all|] == Positions(|all|, |files|)
    ensures AllComplete(w, ldso, files, roots) && ClosedBut(files, {})
  {
    assert forall k :: 0 <= k < |all| ==> files[k] == all[k];
    StillComplete(w, ldso, all, files, roots);
    StillClosed(all, files);
  }

  lemma StillComplete(w: Outside, ldso: nat, all: seq<FileRec>, files: seq<FileRec>, roots: set<nat>)
    requires |files| == |all| + 1 && files[..|all|] == all && !files[|all|].depsInitialized
    requires AllComplete(w, ldso, all, roots)
    ensures AllComplete(w, ldso, files, roots)
  {
    assert forall k :: 0 <= k < |all| ==> files[k] == all[k];
    assert Grown(all, files);
    forall k | 0 <= k < |files| && files[k].depsInitialized ensures Complete(w, ldso, files, roots, k) {
      CompleteGrows(w, ldso, all, files, roots, k);
    }
  }

  lemma StillClosed(all: seq<FileRec>, files: seq<FileRec>)
    requires |files| == |all| + 1 && files[..|all|] == all && !files[|all|].depsInitialized && ClosedBut(all, {})
    ensures ClosedBut(files, {})
  {
    assert forall k :: 0 <= k < |all| ==> files[k] == all[k];
  }

  /** Every file the root reaches through dependencies is initialized, with dependencies that answer its needs. */
  ghost predicate AllReachedComplete(w: Outside, ldso: nat, files: seq<FileRec>, roots: set<nat>, root: nat) {
    forall f: nat :: Reaches(DepEdges(files), {root}, f) ==>
      f < |files| && files[f].depsInitialized && Complete(w, ldso, files, roots, f)
  }

  lemma SettledReachesComplete(w: Outside, ldso: nat, files: seq<FileRec>, contexts: set<nat>, roots: set<nat>,
                               root: nat)
    requires StoreValid(files, contexts) && AllComplete(w, ldso, files, roots) && ClosedBut(files, {})
    requires root < |files| && files[root].depsInitialized
    ensures AllReachedComplete(w, ldso, files, roots, root)
  {
    var g := DepEdges(files);
    var s := set k: nat | k < |files| && files[k].depsInitialized;
    assert Closed(g, s) by {
      forall n, m | n in s && n in g && m in g[n] ensures m in s {
        var i :| 0 <= i < |files[n].deps| && files[n].deps[i] == m;
      }
    }
    forall f: nat | Reaches(g, {root}, f)
      ensures f < |files| && files[f].depsInitialized && Complete(w, ldso, files, roots, f)
    {
      ReachedInClosed(g, {root}, s, f);
    }
  }

  /** Two stretches of mapping one after the other. */
  lemma TwiceSplit(before: seq<FileRec>, files: seq<FileRec>, from: nat)
    requires from <= |before| <= |files| && Grown(before, files)
    requires NoneMappedTwice(before, from) && NoneMappedTwice(files, |before|)
    ensures NoneMappedTwice(files, from)
  {
    forall j, k | 0 <= j < k < |files| && from <= k && files[j].context == files[k].context
      ensures files[j].id != files[k].id
    {
      if k < |before| {
        assert RecKept(before[j], files[j]) && RecKept(before[k], files[k]);
      }
    }
  }

  /** From before item was marked to after its needed files were mapped. */
  lemma NeededGrown(all: seq<FileRec>, marked: seq<FileRec>, files: seq<FileRec>, item: nat)
    requires item < |all| && !all[item].depsInitialized
    requires marked == all[item := all[item].(depsInitialized := true)] && OthersKept(marked, files, item)
    ensures Grown(all, files)
  {
    forall k | 0 <= k < |all| ensures RecKept(all[k], files[k]) {
      assert RecKept(marked[k].(deps := files[k].deps), files[k]);
    }
  }

  /** With its dependencies listed, item is one more complete file, and the only one whose dependencies may not be
      initialized. */
  lemma NeededComplete(w: Outside, ldso: nat, all: seq<FileRec>, marked: seq<FileRec>, files: seq<FileRec>,
                       roots: set<nat>, item: nat, caller: seq<string>, stack: set<nat>)
    requires item < |all| && !all[item].depsInitialized && AllComplete(w, ldso, all, roots) && ClosedBut(all, stack)
    requires marked == all[item := all[item].(depsInitialized := true)] && OthersKept(marked, files, item)
    requires Grown(all, files) && DepsAnswer(w, ldso, files, item, caller, |files[item].image.needed|)
    requires CallerOf(files, roots, item, caller)
    ensures AllComplete(w, ldso, files, roots) && ClosedBut(files, stack + {item})
  {
    forall k | 0 <= k < |files| && files[k].depsInitialized ensures Complete(w, ldso, files, roots, k) {
      if k != item {
        assert all[k].depsInitialized;
        CompleteGrows(w, ldso, all, files, roots, k);
      }
    }
    forall k, i | 0 <= k < |files| && files[k].depsInitialized && k !in stack + {item} && 0 <= i < |files[k].deps|
      ensures files[k].deps[i] < |files| && files[files[k].deps[i]].depsInitialized
    {
      assert all[k].depsInitialized && files[k].deps == all[k].deps;
      assert RecKept(all[all[k].deps[i]], files[all[k].deps[i]]);
    }
  }

  lemma StillInitialized(before: seq<FileRec>, files: seq<FileRec>, item: nat)
    requires Grown(before, files)
    ensures forall k :: 0 <= k < |before| && before[k].depsInitialized ==> files[k].depsInitialized
    ensures item < |before| && before[item].depsInitialized ==> files[item].deps == before[item].deps
  {
    forall k | 0 <= k < |before| ensures RecKept(before[k], files[k]) {
    }
  }

  // ----- the code

  class Mapper {
    const outside: Outside
    const ldso: nat
    ghost const contexts: set<nat>
    ghost const identities: set<Identity>
    var files: seq<FileRec>
    ghost var roots: set<nat>  // the files requested by name

    ghost predicate Valid()
      reads this
    {
      && ldso < |files| && StoreValid(files, contexts)
      && forall path: string :: outside.stat(path).Some? ==> outside.stat(path).value in identities
    }

    constructor (outside: Outside, ldso: nat, files: seq<FileRec>,
                 ghost contexts: set<nat>, ghost identities: set<Identity>, ghost roots: set<nat>)
      requires ldso < |files| && StoreValid(files, contexts)
      requires forall path: string :: outside.stat(path).Some? ==> outside.stat(path).value in identities
      ensures Valid() && this.outside == outside && this.ldso == ldso && this.files == files
      ensures this.contexts == contexts && this.identities == identities && this.roots == roots
    {
      this.outside, this.ldso, this.files := outside, ldso, files;
      this.contexts, this.identities, this.roots := contexts, identities, roots;
    }

    ghost function Left(): nat
      reads this
    {
      Outstanding(files, contexts, identities)
    }

    /** vdl_file_map_single_maybe: a file of that name, or a file with the identity the search finds, or a new
        mapping of that identity; nothing else is mapped twice. */
    method MapSingleMaybe(context: nat, requested: string, rpath: seq<string>, runpath: seq<string>)
      returns (result: Single)
      requires Valid() && context in contexts
      modifies this`files
      ensures Valid() && Left() <= old(Left())
      ensures Resolved(outside, ldso, old(files), context, requested, rpath, runpath, result)
      ensures result.Refused? ==> files == old(files)
      ensures result.Mapped? ==> Answers(outside, ldso, files, context, requested, rpath, runpath, result.file)
      ensures result.Mapped? && !result.newlyMapped ==> files == old(files)
      ensures result.Mapped? && result.newlyMapped ==>
                && result.file == |old(files)| && |files| == |old(files)| + 1 && files[..|old(files)|] == old(files)
                && FreshlyMapped(files[result.file], outside, context, outside.remap(context, requested))
                && !IsMapped(old(files), context, files[result.file].id)
    {
      var name := outside.remap(context, requested);
      var found := FindByName(files, ldso, context, name);
      if found.Some? {
        return Mapped(found.value, false);
      }
      var filename := outside.search(name, rpath, runpath);
      if filename.None? {
        return Refused("Could not find");
      }
      var buf := outside.stat(filename.value);
      if buf.None? {
        return Refused("Could not stat");
      }
      found := FindByDevIno(files, context, buf.value);
      if found.Some? {
        return Mapped(found.value, false);
      }
      var r := FileRec(name, buf.value, outside.image(buf.value), context, false, 0, []);
      OutstandingMapped(files, r, contexts, identities);
      files := files + [r];
      return Mapped(|files| - 1, true);
    }

    /** The first n needed files of item are mapped and recorded, those mapped by it are on `newly`, and the rest
        of the store is as in `all` but for depths. */
    ghost predicate Listed(all: seq<FileRec>, item: nat, caller: seq<string>, n: nat, newly0: seq<nat>, newly: seq<nat>)
      reads this
    {
      && Valid() && |all| <= |files| && newly == newly0 + Positions(|all|, |files|)
      && OthersKept(all, files, item) && DepsAnswer(outside, ldso, files, item, caller, n)
      && DepsDeeper(all, files, item) && CallerOf(files, roots, item, caller)
    }

    /** The first loop of vdl_file_map_deps_recursive: every needed file is mapped and recorded, in order. */
    method MapNeeded(item: nat, callerRpath: seq<string>, newly: seq<nat>)
      returns (error: Option<string>, newly': seq<nat>)
      requires Valid() && item < |files| && files[item].depsInitialized && files[item].deps == []
      requires CallerOf(files, roots, item, callerRpath)
      modifies this`files
      ensures Left() <= old(Left())
      ensures exists n: nat :: Listed(old(files), item, callerRpath, n, newly, newly')
      ensures error.None? ==> Listed(old(files), item, callerRpath, |files[item].image.needed|, newly, newly')
      ensures error.Some? ==> Blocked(outside, ldso, files, roots, item, callerRpath)
    {
      newly' := newly;
      error := None;
      ghost var all := files;
      var needed := files[item].image.needed;
      for n := 0 to |needed|
        invariant Left() <= old(Left()) && Listed(all, item, callerRpath, n, newly, newly')
        invariant files[item].image.needed == needed && error.None?
      {
        error, newly' := MapOneNeeded(item, n, callerRpath, newly', all, newly);
        if error.Some? {
          assert Listed(all, item, callerRpath, n, newly, newly');
          return;
        }
      }
    }

    /** One round of that loop. */
    method MapOneNeeded(item: nat, n: nat, callerRpath: seq<string>, newly: seq<nat>,
                        ghost all: seq<FileRec>, ghost newly0: seq<nat>)
      returns (error: Option<string>, newly': seq<nat>)
      requires Listed(all, item, callerRpath, n, newly0, newly) && n < |files[item].image.needed|
      modifies this`files
      ensures Left() <= old(Left())
      ensures Listed(all, item, callerRpath, if error.None? then n + 1 else n, newly0, newly')
      ensures error.Some? ==> Blocked(outside, ldso, files, roots, item, callerRpath)
      ensures files[item].image == old(files[item].image)
    {
      newly' := newly;
      var image := files[item].image;
      ghost var before := files;
      var single := MapSingleMaybe(files[item].context, image.needed[n], image.rpath + callerRpath, image.runpath);
      if single.Refused? {
        return Some(single.error), newly';
      }
      if single.newlyMapped {
        newly' := newly' + [single.file];
      }
      ListedMapped(all, before, item, callerRpath, n, newly0, newly, newly');
      ListedNext(outside, ldso, all, files, item, callerRpath, n, single.file);
      WithDepOutstanding(files, item, single.file, contexts, identities);
      WithDepCaller(files, roots, item, single.file, item, callerRpath);
      AddDep(item, single.file);
      error := None;
    }

    /** Between the mapping of a needed file and its recording. */
    lemma ListedMapped(all: seq<FileRec>, before: seq<FileRec>, item: nat, caller: seq<string>, n: nat,
                       newly0: seq<nat>, newly: seq<nat>, newly': seq<nat>)
      requires Valid() && |all| <= |before| && newly == newly0 + Positions(|all|, |before|)
      requires OthersKept(all, before, item) && DepsAnswer(outside, ldso, before, item, caller, n)
      requires DepsDeeper(all, before, item) && CallerOf(before, roots, item, caller)
      requires if files == before then newly' == newly
               else
                 && newly' == newly + [|before|] && |files| == |before| + 1 && files[..|before|] == before
                 && !files[|before|].depsInitialized
                 && !IsMapped(before, files[|before|].context, files[|before|].id)
      ensures Listed(all, item, caller, n, newly0, newly')
      ensures files[item] == before[item]
    {
      if files != before {
        PositionsAppend(|all|, |before|);
        MappedKept(all, before, files, item);
        assert newly' == newly0 + (Positions(|all|, |before|) + [|before|]);
        MappedDeeper(all, before, files, item);
        PrefixAnswers(outside, ldso, before, files, item, caller, n);
        PrefixCaller(before, files, roots, item, caller);
      }
    }

    method AddDep(item: nat, dep: nat)
      requires Valid() && item < |files| && dep < |files| && files[item].depsInitialized
      modifies this`files
      ensures Valid() && files == WithDep(old(files), item, dep)
    {
      files := files[dep := files[dep].(depth := Max(files[dep].depth, files[item].depth + 1))];
      files := files[item := files[item].(deps := files[item].deps + [dep])];
    }

    /** What a finished call leaves, `from` being the store before it and `newly0` the list it was given. */
    ghost predicate Extended(from: seq<FileRec>, newly0: seq<nat>, newly: seq<nat>)
      reads this
    {
      && Valid() && Grown(from, files) && newly == newly0 + Positions(|from|, |files|)
      && NoneMappedTwice(files, |from|)
    }

    /** Every initialized file is complete, and outside the calls under way so are its dependencies. */
    ghost predicate Settled(stack: set<nat>)
      reads this
    {
      AllComplete(outside, ldso, files, roots) && ClosedBut(files, stack)
    }

    /** vdl_file_map_deps_recursive. `stack` are the files whose calls are under way. */
    method MapDepsRecursive(item: nat, callerRpath: seq<string>, newly: seq<nat>, ghost stack: set<nat>)
      returns (error: Option<string>, newly': seq<nat>)
      requires Valid() && item < |files| && Settled(stack)
      requires !files[item].depsInitialized ==> CallerOf(files, roots, item, callerRpath)
      modifies this`files
      ensures Left() <= old(Left()) && Extended(old(files), newly, newly')
      ensures error.None? ==> files[item].depsInitialized && Settled(stack)
      ensures error.Some? ==> Stuck(outside, ldso, files, roots, item)
      decreases Left(), 0
    {
      newly' := newly;
      if files[item].depsInitialized {
        return None, newly';
      }
      ghost var all := files;
      files := files[item := files[item].(depsInitialized := true)];
      OutstandingInitialized(all, files, item, contexts, identities);
      ghost var marked := files;
      CallerGrows(all, marked, roots, item, callerRpath);
      error, newly' := MapNeeded(item, callerRpath, newly');
      NeededGrown(all, marked, files, item);
      if error.Some? {
        RootReached(DepEdges(files), {item}, item);
        return;
      }
      NeededComplete(outside, ldso, all, marked, files, roots, item, callerRpath, stack);
      ghost var mapped, newly1 := files, newly';
      error, newly' := MapDepsOf(item, newly', stack);
      ExtendedTwice(all, mapped, newly, newly1, newly');
    }

    /** The second loop of vdl_file_map_deps_recursive. */
    method MapDepsOf(item: nat, newly: seq<nat>, ghost stack: set<nat>)
      returns (error: Option<string>, newly': seq<nat>)
      requires Valid() && item < |files| && files[item].depsInitialized && Settled(stack + {item})
      modifies this`files
      ensures Left() <= old(Left()) && Extended(old(files), newly, newly')
      ensures error.None? ==> files[item].depsInitialized && Settled(stack)
      ensures error.Some? ==> Stuck(outside, ldso, files, roots, item)
      decreases Left(), 2
    {
      error, newly' := None, newly;
      ghost var mapped := files;
      var deps := files[item].deps;
      for n := 0 to |deps|
        invariant Left() <= old(Left()) && Extended(mapped, newly, newly') && Settled(stack + {item})
        invariant files[item].depsInitialized && files[item].deps == deps
        invariant forall j :: 0 <= j < n ==> files[deps[j]].depsInitialized
        invariant error.None?
      {
        ghost var before, newly1 := files, newly';
        error, newly' := MapOneDep(item, deps[n], newly', stack);
        ExtendedTwice(mapped, before, newly, newly1, newly');
        if error.Some? {
          return;
        }
        StillInitialized(before, files, item);
      }
    }

    /** One round of that loop. */
    method MapOneDep(item: nat, dep: nat, newly: seq<nat>, ghost stack: set<nat>)
      returns (error: Option<string>, newly': seq<nat>)
      requires Valid() && item < |files| && files[item].depsInitialized && dep in files[item].deps
      requires Settled(stack + {item})
      modifies this`files
      ensures Left() <= old(Left()) && Extended(old(files), newly, newly')
      ensures error.None? ==> files[dep].depsInitialized && Settled(stack + {item})
      ensures error.Some? ==> Stuck(outside, ldso, files, roots, item)
      decreases Left(), 1
    {
      assert HandsDown(files[item], dep, files[item].image.rpath);
      ghost var before := files;
      error, newly' := MapDepsRecursive(dep, files[item].image.rpath, newly, stack + {item});
      assert RecKept(before[item], files[item]);
      if error.Some? {
        StuckThrough(outside, ldso, files, roots, item, dep);
      }
    }

    /** vdl_map_from_filename: on success everything the requested file reaches is initialized and complete; an
        error means that the filename cannot be resolved, or that a file reached from the requested one is blocked. */
    method MapFromFilename(context: nat, filename: string)
      returns (requested: Option<nat>, error: Option<string>, newly: seq<nat>, ghost root: Option<nat>)
      requires Valid() && context in contexts && Settled({})
      modifies this
      ensures Extended(old(files), [], newly)
      ensures requested == if error.None? then root else None
      ensures root.None? ==>
                && error.Some? && files == old(files) && roots == old(roots)
                && Unresolvable(outside, files, context, filename, [], [])
      ensures root.Some? ==>
                && Answers(outside, ldso, files, context, filename, [], [], root.value)
                && roots == old(roots) + {root.value}
                && if error.None? then AllReachedComplete(outside, ldso, files, roots, root.value)
                   else Stuck(outside, ldso, files, roots, root.value)
      ensures requested.Some? ==> Settled({})
    {
      newly := [];
      ghost var all := files;
      var single := MapSingleMaybe(context, filename, [], []);
      if single.Refused? {
        GrownReflexive(files);
        return None, Some(single.error), newly, None;
      }
      root := Some(single.file);
      if single.newlyMapped {
        newly := [single.file];
        OneMapped(outside, ldso, all, files, roots);
      } else {
        GrownReflexive(files);
      }
      CompleteWithRoot(outside, ldso, files, roots, single.file);
      roots := roots + {single.file};
      ghost var mapped, newly1 := files, newly;
      error, newly := MapDepsRecursive(single.file, [], newly, {});
      ExtendedTwice(all, mapped, [], newly1, newly);
      AnswersGrow(outside, ldso, mapped, files, context, filename, [], [], single.file);
      if error.None? {
        requested := Some(single.file);
        SettledReachesComplete(outside, ldso, files, contexts, roots, single.file);
      } else {
        requested := None;
      }
    }

    lemma ExtendedTwice(from: seq<FileRec>, middle: seq<FileRec>, newly0: seq<nat>, newly1: seq<nat>, newly2: seq<nat>)
      requires Grown(from, middle) && newly1 == newly0 + Positions(|from|, |middle|) && NoneMappedTwice(middle, |from|)
      requires Extended(middle, newly1, newly2)
      ensures Extended(from, newly0, newly2)
    {
      PositionsSplit(|from|, |middle|, |files|);
      assert newly2 == newly0 + (Positions(|from|, |middle|) + Positions(|middle|, |files|));
      TwiceSplit(middle, files, |from|);
      GrownTransitive(from, middle, files);
    }
  }
}

/** The order in which closers that interleave run the finalizers. */
module Finalizing {
  import opened Seqs
  import opened Unload
  import opened History

  /** Of the files a closer claimed, as many have been finalized as it has come to, in the order it claimed them. */
  ghost predicate Underway<F, C>(w: World<F, C>, closer: nat, claimed: seq<F>) {
    && closer in w.closers && w.closers[closer].files == claimed && w.closers[closer].finished <= |claimed|
    && Only(w.finalized, Elements(claimed)) == claimed[..w.closers[closer].finished]
  }

  /** All of them have, and in that order. */
  ghost predicate Completed<F, C>(w: World<F, C>, claimed: seq<F>) {
    Only(w.finalized, Elements(claimed)) == claimed && forall f :: f in claimed ==> f in w.finalized
  }

  lemma OneFinalized<F>(log: seq<F>, f: F, claimed: set<F>)
    ensures Only(log + [f], claimed) == Only(log, claimed) + (if f in claimed then [f] else [])
  {
    OnlyAppend(log, [f], claimed);
    assert Only([f], claimed) == if f in claimed then [f] else [];
  }

  lemma CompletedStays<F, C>(w: World<F, C>, ldso: F, op: Op<F, C>, claimed: seq<F>)
    requires Valid(w, ldso) && Enabled(w, ldso, op) && Completed(w, claimed)
    ensures Completed(Do(w, ldso, op), claimed)
  {
    if op.Finalize? {
      var k := w.closers[op.closer];
      assert CloserValid(w, k);
      OneFinalized(w.finalized, k.files[k.finished], Elements(claimed));
    }
  }

  lemma UnderwayNext<F, C>(w: World<F, C>, ldso: F, op: Op<F, C>, closer: nat, claimed: seq<F>)
    requires Valid(w, ldso) && Enabled(w, ldso, op) && Underway(w, closer, claimed)
    ensures op == CloseEnd(closer) ==> Completed(Do(w, ldso, op), claimed)
    ensures op != CloseEnd(closer) ==> Underway(Do(w, ldso, op), closer, claimed)
  {
    assert CloserValid(w, w.closers[closer]);
    if op.Finalize? {
      var k := w.closers[op.closer];
      var f := k.files[k.finished];
      assert f in k.files;
      OneFinalized(w.finalized, f, Elements(claimed));
      if op.closer == closer {
        assert claimed[..k.finished + 1] == claimed[..k.finished] + [f];
      }
    } else if op == CloseEnd(closer) {
      assert claimed[..|claimed|] == claimed;
    }
  }

  lemma {:induction false} CompletedAlong<F, C>(w: World<F, C>, ldso: F, run: seq<Op<F, C>>, claimed: seq<F>)
    requires Valid(w, ldso) && IsRun(w, ldso, run) && Completed(w, claimed)
    ensures Completed(End(w, ldso, run), claimed)
    decreases |run|
  {
    if run != [] {
      StepKeeps(w, ldso, run[0]);
      CompletedStays(w, ldso, run[0], claimed);
      CompletedAlong(Do(w, ldso, run[0]), ldso, run[1..], claimed);
    }
  }

  lemma {:induction false} UnderwayAlong<F, C>(w: World<F, C>, ldso: F, run: seq<Op<F, C>>, closer: nat,
                                               claimed: seq<F>)
    requires Valid(w, ldso) && IsRun(w, ldso, run) && Underway(w, closer, claimed)
    ensures Only(End(w, ldso, run).finalized, Elements(claimed)) <= claimed
    ensures CloseEnd(closer) in run ==> Completed(End(w, ldso, run), claimed)
    decreases |run|
  {
    if run != [] {
      var w' := Do(w, ldso, run[0]);
      StepKeeps(w, ldso, run[0]);
      UnderwayNext(w, ldso, run[0], closer, claimed);
      if run[0] == CloseEnd(closer) {
        CompletedAlong(w', ldso, run[1..], claimed);
      } else {
        UnderwayAlong(w', ldso, run[1..], closer, claimed);
      }
    }
  }

  /** What a close claims: the unclaimed files of the garbage, in the order they were sorted into. */
  lemma ClaimsInOrder<F, C>(w: World<F, C>, ldso: F, closer: nat, f: F, order: seq<F>)
    requires Valid(w, ldso) && Enabled(w, ldso, CloseBegin(closer, f, order))
    ensures Underway(Do(w, ldso, CloseBegin(closer, f, order)), closer, Only(order, ActiveFiles(w.st)))
  {
    var claimed := Except(order, w.st.locked);
    forall x | x in order ensures x in w.st.locked <==> x !in ActiveFiles(w.st) {
      assert x in Elements(order);
      assert x in Elements(w.st.linkMap);
    }
    ExceptIsOnly(order, w.st.locked, ActiveFiles(w.st));
    OnlyNone(w.finalized, Elements(claimed));
  }

  /** Whatever the other threads do meanwhile, the files that a close claims are finalized in the order they were
      sorted into, each once, and all of them before it unmaps them. */
  lemma {:induction false} FinalizedInOrder<F, C>(ldso: F, main: C, before: seq<Op<F, C>>, closer: nat, f: F,
                                                  order: seq<F>, after: seq<Op<F, C>>)
    requires IsRun(Startup(ldso, main), ldso, before)
    requires var w := End(Startup(ldso, main), ldso, before);
             && Enabled(w, ldso, CloseBegin(closer, f, order))
             && IsRun(Do(w, ldso, CloseBegin(closer, f, order)), ldso, after)
    ensures var w := End(Startup(ldso, main), ldso, before);
            var claimed := Only(order, ActiveFiles(w.st));
            var log := End(Do(w, ldso, CloseBegin(closer, f, order)), ldso, after).finalized;
            && Only(log, Elements(claimed)) <= claimed
            && (CloseEnd(closer) in after ==> Only(log, Elements(claimed)) == claimed)
  {
    StartupValid(ldso, main);
    RunKeeps(Startup(ldso, main), ldso, before);
    var w := End(Startup(ldso, main), ldso, before);
    StepKeeps(w, ldso, CloseBegin(closer, f, order));
    ClaimsInOrder(w, ldso, closer, f, order);
    UnderwayAlong(Do(w, ldso, CloseBegin(closer, f, order)), ldso, after, closer, Only(order, ActiveFiles(w.st)));
  }
}

/** Running the finalizers of files that are about to be unmapped. */
module Fini {
  import opened Seqs

  /** A function of the file is called, or the context is told that the file is destroyed. */
  datatype Event = Called(address: nat) | Destroyed(file: FinalizedFile)

  ghost function Calls(addresses: seq<nat>): (r: seq<Event>)
    ensures |r| == |addresses| && forall i :: 0 <= i < |r| ==> r[i] == Called(addresses[i])
  {
    seq(|addresses|, i requires 0 <= i < |addresses| => Called(addresses[i]))
  }

  class FinalizedFile {
    const finiArray: seq<nat>  // DT_FINI_ARRAY: addresses of functions
    const fini: nat            // DT_FINI; 0 when absent
    var initCalled: bool
    var finiCalled: bool

    constructor (finiArray: seq<nat>, fini: nat, initCalled: bool)
      ensures this.finiArray == finiArray && this.fini == fini && this.initCalled == initCalled && !finiCalled
    {
      this.finiArray, this.fini, this.initCalled, this.finiCalled := finiArray, fini, initCalled, false;
    }

    /** What finalizing the file does: the array backwards, then DT_FINI, then the context is told; nothing if it was
        never initialized. */
    ghost function Finalizers(): seq<Event>
      reads this`initCalled
    {
      if !initCalled then []
      else Calls(Reversed(finiArray)) + (if fini != 0 then [Called(fini)] else []) + [Destroyed(this)]
    }

    /** Function i of the array comes that far from the end of its calls, DT_FINI after all of them. */
    lemma FinalizersAre()
      ensures initCalled ==>
                && |Finalizers()| == |finiArray| + (if fini != 0 then 2 else 1)
                && (forall i :: 0 <= i < |finiArray| ==> Finalizers()[|finiArray| - 1 - i] == Called(finiArray[i]))
                && (fini != 0 ==> Finalizers()[|finiArray|] == Called(fini))
                && Finalizers()[|Finalizers()| - 1] == Destroyed(this)
      ensures !initCalled ==> Finalizers() == []
    {
    }

    /** call_fini */
    method CallFini() returns (calls: seq<Event>)
      requires !finiCalled
      modifies this`finiCalled
      ensures calls == Finalizers() && finiCalled == initCalled
    {
      calls := [];
      if !initCalled {
        return;
      }
      finiCalled := true;
      var n := |finiArray|;
      for i := 0 to n
        invariant calls == Calls(Reversed(finiArray))[..i]
      {
        calls := calls + [Called(finiArray[n - 1 - i])];
      }
      if fini != 0 {
        calls := calls + [Called(fini)];
      }
      calls := calls + [Destroyed(this)];
    }
  }

  ghost function FinalizersOf(files: seq<FinalizedFile>): (r: seq<seq<Event>>)
    reads Elements(files)
    ensures |r| == |files| && forall i :: 0 <= i < |r| ==> r[i] == files[i].Finalizers()
  {
    seq(|files|, i requires 0 <= i < |files| reads Elements(files) => files[i].Finalizers())
  }

  /** One list after the other. */
  function Joined(lists: seq<seq<Event>>): seq<Event> {
    if lists == [] then [] else Joined(lists[..|lists| - 1]) + lists[|lists| - 1]
  }

  lemma JoinedNext(lists: seq<seq<Event>>, i: nat)
    requires i < |lists|
    ensures Joined(lists[..i + 1]) == Joined(lists[..i]) + lists[i]
  {
    assert lists[..i + 1][..i] == lists[..i];
  }

  /** vdl_fini_call: the finalizers of file after file, each once. */
  method FiniCall(files: seq<FinalizedFile>) returns (calls: seq<Event>)
    requires Distinct(files) && forall f :: f in files ==> !f.finiCalled
    modifies Elements(files)`finiCalled
    ensures calls == Joined(old(FinalizersOf(files)))
    ensures forall f :: f in files ==> f.finiCalled == f.initCalled
  {
    ghost var all := FinalizersOf(files);
    assert forall k :: 0 <= k < |files| ==> files[k] in files && files[k] in Elements(files);
    calls := [];
    for i := 0 to |files|
      invariant calls == Joined(all[..i])
      invariant forall k :: 0 <= k < i ==> files[k].finiCalled == files[k].initCalled
      invariant forall k :: i <= k < |files| ==> !files[k].finiCalled
      invariant forall k :: 0 <= k < |files| ==> files[k].Finalizers() == all[k]
      modifies Elements(files)`finiCalled
    {
      var more := files[i].CallFini();
      JoinedNext(all, i);
      calls := calls + more;
    }
    assert all[..|files|] == all;
  }
}

/** The counters and the loaded modules after any run of the TLS runtime, told by the run alone. */
module TlsHistory {
  import opened Common
  import opened TlsRuntime

  /** How many modules the run loaded. */
  function Loads(run: seq<Event>): nat {
    if run == [] then 0 else Loads(run[..|run| - 1]) + if run[|run| - 1].Load? then 1 else 0
  }

  /** How many it unloaded. */
  function Unloads(run: seq<Event>): nat {
    if run == [] then 0 else Unloads(run[..|run| - 1]) + if run[|run| - 1].Unload? then 1 else 0
  }

  lemma Unrolled(past: seq<Event>, e: Event)
    ensures Loads(past + [e]) == Loads(past) + (if e.Load? then 1 else 0)
    ensures Unloads(past + [e]) == Unloads(past) + (if e.Unload? then 1 else 0)
  {
    assert (past + [e])[..|past|] == past;
  }

  /** The module that load k of the run made: indexes count the loads, generations all changes. */
  function MadeBy(past: seq<Event>, k: nat): Module
    requires k < |past| && past[k].Load?
  {
    Module(1 + Loads(past[..k]), 1 + Loads(past[..k]) + Unloads(past[..k]), past[k].isStatic, past[k].offset,
           past[k].template, past[k].zeroSize)
  }

  /** The module is there under its index unless it has been unloaded. */
  predicate ModuleTold(g: Global, f: Module, gone: bool) {
    if gone then f.index !in g.modules else f.index in g.modules && g.modules[f.index] == f
  }

  predicate LoadTold(g: Global, past: seq<Event>, k: nat)
    requires k < |past|
  {
    past[k].Load? ==> ModuleTold(g, MadeBy(past, k), Unload(MadeBy(past, k).index) in past[k..])
  }

  /** The counters, and every load's module. */
  ghost predicate Told(g: Global, past: seq<Event>) {
    && g.gen == 1 + Loads(past) + Unloads(past) && g.nextIndex == 1 + Loads(past)
    && g.nDtv == Loads(past) - Unloads(past)
    && forall k :: 0 <= k < |past| ==> LoadTold(g, past, k)
  }

  lemma {:induction false} LoadsBefore(past: seq<Event>, k: nat)
    requires k < |past| && past[k].Load?
    ensures Loads(past[..k]) < Loads(past)
    decreases |past|
  {
    var front := past[..|past| - 1];
    if k < |front| {
      assert front[..k] == past[..k];
      LoadsBefore(front, k);
    } else {
      assert past[..k] == front;
    }
  }

  /** An index that was given out is never given to another module. */
  lemma ModuleToldNext(s: System, e: Event, f: Module, gone: bool)
    requires Valid(s) && TlsRuntime.Enabled(s, e) && f.index < s.g.nextIndex && ModuleTold(s.g, f, gone)
    ensures ModuleTold(TlsRuntime.Do(s, e).g, f, gone || e == Unload(f.index))
  {
  }

  lemma MadeByPrefix(past: seq<Event>, e: Event, k: nat)
    requires k < |past| && past[k].Load?
    ensures (past + [e])[k] == past[k] && MadeBy(past + [e], k) == MadeBy(past, k)
  {
    assert (past + [e])[..k] == past[..k];
  }

  lemma UnloadedLater(past: seq<Event>, e: Event, k: nat, m: nat)
    requires k < |past|
    ensures Unload(m) in (past + [e])[k..] <==> Unload(m) in past[k..] || e == Unload(m)
  {
    assert (past + [e])[k..] == past[k..] + [e];
  }

  lemma LoadToldNext(s: System, past: seq<Event>, e: Event, k: nat)
    requires Valid(s) && TlsRuntime.Enabled(s, e) && k < |past| && LoadTold(s.g, past, k)
    requires s.g.nextIndex == 1 + Loads(past)
    ensures LoadTold(TlsRuntime.Do(s, e).g, past + [e], k)
  {
    if past[k].Load? {
      var f := MadeBy(past, k);
      LoadsBefore(past, k);
      MadeByPrefix(past, e, k);
      UnloadedLater(past, e, k, f.index);
      ModuleToldNext(s, e, f, Unload(f.index) in past[k..]);
    }
  }

  lemma ToldNext(s: System, past: seq<Event>, e: Event)
    requires Valid(s) && TlsRuntime.Enabled(s, e) && Told(s.g, past)
    ensures Told(TlsRuntime.Do(s, e).g, past + [e])
  {
    var g := TlsRuntime.Do(s, e).g;
    Unrolled(past, e);
    forall k | 0 <= k < |past + [e]| ensures LoadTold(g, past + [e], k) {
      if k < |past| {
        LoadToldNext(s, past, e, k);
      } else {
        assert (past + [e])[..k] == past && (past + [e])[k..] == [e];
      }
    }
  }

  lemma OneMore(past: seq<Event>, run: seq<Event>)
    requires run != []
    ensures past + [run[0]] + run[1..] == past + run
  {
  }

  lemma {:induction false} ToldAlong(s: System, past: seq<Event>, run: seq<Event>)
    requires Valid(s) && IsRun(s, run) && Told(s.g, past)
    ensures Told(End(s, run).g, past + run)
    decreases |run|
  {
    if run == [] {
      assert past + run == past;
    } else {
      StepKeeps(s, run[0]);
      ToldNext(s, past, run[0]);
      ToldAlong(TlsRuntime.Do(s, run[0]), past + [run[0]], run[1..]);
      OneMore(past, run);
    }
  }

  /** After any run the generation has counted every load and unload, the next index every load, and each load that
      was not undone has left exactly the module it asked for, under its own index and the generation of its time. */
  lemma {:induction false} EveryRunIsTold(staticTotal: nat, run: seq<Event>)
    requires IsRun(Startup(staticTotal), run)
    ensures Told(End(Startup(staticTotal), run).g, run)
    ensures End(Startup(staticTotal), run).g.staticTotal == staticTotal
  {
    assert [] + run == run;
    ToldAlong(Startup(staticTotal), [], run);
    TotalStays(Startup(staticTotal), run);
  }

  lemma {:induction false} TotalStays(s: System, run: seq<Event>)
    requires IsRun(s, run)
    ensures End(s, run).g.staticTotal == s.g.staticTotal
    decreases |run|
  {
    if run != [] {
      TotalStays(TlsRuntime.Do(s, run[0]), run[1..]);
    }
  }
}

/** The three-valued futex mutex as a protocol between any number of threads.

    One action is one atomic operation of `futex_lock` or `futex_unlock`: a compare-and-exchange, the
    decrement, the plain store of 0, the kernel's "sleep if the word is still 2", the kernel's wake of
    one sleeper, or a spurious wakeup.  Threads interleave arbitrarily between actions. */
module Futex {

  const WORD_SIZE: nat := 0x1_0000_0000

  /** uint32_t */
  type Word = n: nat | n < 0x1_0000_0000

  /** Where a thread stands, one value per atomic operation it performs next. */
  datatype Pc =
    | Idle               // neither locking, holding nor unlocking; next: CAS(0, 1)
    | LoopTop(c: Word)   // top of the do loop with the last value read; next: test c, CAS(1, 2)
    | Wait               // next: the kernel compares the word with 2 and sleeps on equality
    | Asleep             // queued in the kernel
    | Retry              // loop condition; next: CAS(0, 2)
    | Holding            // in the critical section; next: the atomic decrement
    | StoreZero          // the decrement did not read 1; next: store 0
    | Wake               // next: wake one sleeper

  datatype State = State(word: Word, pcs: seq<Pc>)

  datatype Action =
    | Advance(t: nat)                // thread t performs its next operation
    | WakeOne(t: nat, sleeper: nat)  // thread t's wake call takes `sleeper` off the kernel queue
    | Spurious(t: nat)               // a sleeper returns from the kernel without a wake

  /** The word after a compare-and-exchange; the operation itself returns the old word. */
  function Exchanged(word: Word, expected: Word, desired: Word): Word {
    if word == expected then desired else word
  }

  /** The word after the atomic decrement, in 32-bit arithmetic. */
  function Decremented(word: Word): Word {
    (word + WORD_SIZE - 1) % WORD_SIZE
  }

  predicate Enabled(s: State, a: Action) {
    match a
    case Advance(t) =>
      && t < |s.pcs| && !s.pcs[t].Asleep?
      && (s.pcs[t].Wake? ==> forall i :: 0 <= i < |s.pcs| ==> !s.pcs[i].Asleep?)
    case WakeOne(t, sleeper) =>
      t < |s.pcs| && sleeper < |s.pcs| && s.pcs[t].Wake? && s.pcs[sleeper].Asleep?
    case Spurious(t) => t < |s.pcs| && s.pcs[t].Asleep?
  }

  /** What the next operation of a thread at `pc` does to the word. */
  function NextWord(word: Word, pc: Pc): Word {
    match pc
    case Idle => Exchanged(word, 0, 1)
    case LoopTop(c) => if c == 2 then word else Exchanged(word, 1, 2)
    case Retry => Exchanged(word, 0, 2)
    case Holding => Decremented(word)
    case StoreZero => 0
    case _ => word
  }

  /** Where that operation leaves the thread. */
  function NextPc(word: Word, pc: Pc): Pc {
    match pc
    case Idle => if word != 0 then LoopTop(word) else Holding
    case LoopTop(c) => if c == 2 || word != 0 then Wait else Retry
    case Wait => if word == 2 then Asleep else Retry
    case Asleep => Retry
    case Retry => if word != 0 then LoopTop(word) else Holding
    case Holding => if word != 1 then StoreZero else Idle
    case StoreZero => Wake
    case Wake => Idle
  }

  function Do(s: State, a: Action): State
    requires Enabled(s, a)
  {
    match a
    case Advance(t) => State(NextWord(s.word, s.pcs[t]), s.pcs[t := NextPc(s.word, s.pcs[t])])
    case WakeOne(t, sleeper) => State(s.word, s.pcs[t := Idle][sleeper := Retry])
    case Spurious(t) => State(s.word, s.pcs[t := Retry])
  }

  /** `run` is a possible interleaving from `s`. */
  predicate IsRun(s: State, run: seq<Action>)
    decreases |run|
  {
    run != [] ==> Enabled(s, run[0]) && IsRun(Do(s, run[0]), run[1..])
  }

  function End(s: State, run: seq<Action>): State
    requires IsRun(s, run)
    decreases |run|
  {
    if run == [] then s else End(Do(s, run[0]), run[1..])
  }

  /** `n` threads outside a freshly constructed futex. */
  function Initial(n: nat): State {
    State(0, seq(n, _ => Idle))
  }

  // ----- what the protocol keeps

  /** In the critical section, or past a slow decrement but before the store of 0. */
  predicate Owner(pc: Pc) { pc.Holding? || pc.StoreZero? }

  /** Inside the lock loop and not queued in the kernel. */
  predicate AwakeInLoop(pc: Pc) { pc.LoopTop? || pc.Wait? || pc.Retry? }

  /** Between its decrement and its wake. */
  predicate Releasing(pc: Pc) { pc.StoreZero? || pc.Wake? }

  function Owners(s: State): set<nat> { set t: nat | t < |s.pcs| && Owner(s.pcs[t]) }

  ghost predicate Exclusive(s: State) {
    s.word <= 2 && |Owners(s)| == (if s.word != 0 then 1 else 0)
  }

  /** Some thread other than the sleepers is still bound to look at the word or to wake someone. */
  ghost predicate NoLostWakeup(s: State) {
    (exists t :: 0 <= t < |s.pcs| && s.pcs[t].Asleep?) ==>
      s.word == 2 || exists t :: 0 <= t < |s.pcs| && (Releasing(s.pcs[t]) || AwakeInLoop(s.pcs[t]))
  }

  lemma OwnersAfter(s: State, t: nat, word: Word, pc: Pc)
    requires t < |s.pcs|
    ensures Owners(State(word, s.pcs[t := pc])) == if Owner(pc) then Owners(s) + {t} else Owners(s) - {t}
  {
  }

  lemma SoleOwner(s: State, t: nat)
    requires Exclusive(s) && t in Owners(s)
    ensures Owners(s) == {t} && s.word != 0
  {
    assert |Owners(s) - {t}| == 0;
  }

  lemma DecrementedBelow(word: Word)
    requires word != 0
    ensures Decremented(word) == word - 1
  {
    assert word + WORD_SIZE - 1 == WORD_SIZE + (word - 1);
  }

  lemma AdvanceKeepsExclusive(s: State, t: nat)
    requires Exclusive(s) && Enabled(s, Advance(t))
    ensures Exclusive(Do(s, Advance(t)))
  {
    var pc := s.pcs[t];
    OwnersAfter(s, t, NextWord(s.word, pc), NextPc(s.word, pc));
    if Owner(pc) {
      SoleOwner(s, t);
      DecrementedBelow(s.word);
    } else {
      assert t !in Owners(s);
      if s.word == 0 {
        assert Owners(s) == {};
      }
    }
  }

  lemma ExclusiveKept(s: State, a: Action)
    requires Exclusive(s) && Enabled(s, a)
    ensures Exclusive(Do(s, a))
  {
    match a
    case Advance(t) =>
      AdvanceKeepsExclusive(s, t);
    case WakeOne(t, sleeper) =>
      OwnersAfter(s, t, s.word, Idle);
      OwnersAfter(State(s.word, s.pcs[t := Idle]), sleeper, s.word, Retry);
      assert t !in Owners(s) && sleeper !in Owners(s);
      assert Owners(Do(s, a)) == Owners(s);
    case Spurious(t) =>
      OwnersAfter(s, t, s.word, Retry);
      assert Owners(Do(s, a)) == Owners(s);
  }

  lemma NoLostWakeupKept(s: State, a: Action)
    requires NoLostWakeup(s) && Enabled(s, a)
    ensures NoLostWakeup(Do(s, a))
  {
    var s' := Do(s, a);
    if u :| 0 <= u < |s'.pcs| && s'.pcs[u].Asleep? {
      match a
      case Advance(t) =>
        if u == t {
          assert s'.word == 2;  // only a Wait that finds 2 falls asleep
        } else {
          assert s.pcs[u].Asleep?;
          if s.word != 2 {
            var w :| 0 <= w < |s.pcs| && (Releasing(s.pcs[w]) || AwakeInLoop(s.pcs[w]));
            if w != t {
              assert s'.pcs[w] == s.pcs[w];
            }
          }
          assert s'.word == 2 || Releasing(s'.pcs[t]) || AwakeInLoop(s'.pcs[t]) || s.word != 2;
        }
      case WakeOne(t, sleeper) => assert AwakeInLoop(s'.pcs[sleeper]);
      case Spurious(t) => assert AwakeInLoop(s'.pcs[t]);
    }
  }

  lemma {:induction false} InvariantsAlong(s: State, run: seq<Action>)
    requires Exclusive(s) && NoLostWakeup(s) && IsRun(s, run)
    ensures Exclusive(End(s, run)) && NoLostWakeup(End(s, run))
    decreases |run|
  {
    if run != [] {
      ExclusiveKept(s, run[0]);
      NoLostWakeupKept(s, run[0]);
      InvariantsAlong(Do(s, run[0]), run[1..]);
    }
  }

  lemma InitialInvariants(n: nat)
    ensures Exclusive(Initial(n)) && NoLostWakeup(Initial(n))
  {
    assert Owners(Initial(n)) == {};
  }

  /** After any interleaving of any number of threads, the threads in the critical section together with
      those that still have to store 0 number exactly one when the word is non-zero and none otherwise. */
  lemma {:induction false} MutualExclusion(n: nat, run: seq<Action>)
    requires IsRun(Initial(n), run)
    ensures var s := End(Initial(n), run);
            s.word <= 2 && |Owners(s)| == (if s.word != 0 then 1 else 0)
    ensures var s := End(Initial(n), run);
            forall t, u :: 0 <= t < u < |s.pcs| ==> !(s.pcs[t].Holding? && s.pcs[u].Holding?)
    ensures var s := End(Initial(n), run);
            forall t :: 0 <= t < |s.pcs| && s.pcs[t].Holding? ==>
              1 <= s.word && Decremented(s.word) == s.word - 1
  {
    InitialInvariants(n);
    InvariantsAlong(Initial(n), run);
    var s := End(Initial(n), run);
    forall t | 0 <= t < |s.pcs| && s.pcs[t].Holding?
      ensures s.word >= 1 && forall u :: 0 <= u < |s.pcs| && s.pcs[u].Holding? ==> u == t
    {
      SoleOwner(s, t);
      DecrementedBelow(s.word);
      forall u | 0 <= u < |s.pcs| && s.pcs[u].Holding? ensures u == t {
        assert u in Owners(s);
      }
    }
  }

  /** After any interleaving, a sleeper implies a contended word, a releasing thread or an awake contender;
      so nobody sleeps once every other thread has gone idle. */
  lemma {:induction false} NoWakeupIsLost(n: nat, run: seq<Action>)
    requires IsRun(Initial(n), run)
    ensures NoLostWakeup(End(Initial(n), run))
    ensures var s := End(Initial(n), run);
            (forall t :: 0 <= t < |s.pcs| ==> s.pcs[t].Idle? || s.pcs[t].Asleep?) ==>
              forall t :: 0 <= t < |s.pcs| ==> s.pcs[t].Idle?
  {
    InitialInvariants(n);
    InvariantsAlong(Initial(n), run);
    var s := End(Initial(n), run);
    if forall t :: 0 <= t < |s.pcs| ==> s.pcs[t].Idle? || s.pcs[t].Asleep? {
      QuietMeansIdle(s);
    }
  }

  lemma QuietMeansIdle(s: State)
    requires Exclusive(s) && NoLostWakeup(s)
    requires forall t :: 0 <= t < |s.pcs| ==> s.pcs[t].Idle? || s.pcs[t].Asleep?
    ensures forall t :: 0 <= t < |s.pcs| ==> s.pcs[t].Idle?
  {
    assert Owners(s) == {};
  }

  // ----- progress

  /** Operations left for a thread once the lock is handed over promptly. */
  function Weight(pc: Pc): nat {
    match pc
    case Idle => 0
    case Wake => 1
    case StoreZero => 2
    case Holding => 3
    case Retry => 4
    case Wait => 5
    case LoopTop(_) => 6
    case Asleep => 7
  }

  function Work(pcs: seq<Pc>): nat {
    if pcs == [] then 0 else Work(pcs[..|pcs| - 1]) + Weight(pcs[|pcs| - 1])
  }

  lemma {:induction false} WorkAfter(pcs: seq<Pc>, t: nat, pc: Pc)
    requires t < |pcs|
    ensures Work(pcs[t := pc]) == Work(pcs) - Weight(pcs[t]) + Weight(pc)
  {
    var last := |pcs| - 1;
    var pcs' := pcs[t := pc];
    if t < last {
      WorkAfter(pcs[..last], t, pc);
      assert pcs'[..last] == pcs[..last][t := pc];
    } else {
      assert pcs'[..last] == pcs[..last];
    }
  }

  lemma {:induction false} WorkBound(pcs: seq<Pc>)
    ensures Work(pcs) <= 7 * |pcs|
  {
    if pcs != [] {
      WorkBound(pcs[..|pcs| - 1]);
    }
  }

  /** No new lock call and no spurious wakeup. */
  predicate Cooperative(s: State, run: seq<Action>)
    requires IsRun(s, run)
    decreases |run|
  {
    run != [] ==>
      && !run[0].Spurious?
      && (run[0].Advance? ==> !s.pcs[run[0].t].Idle?)
      && Cooperative(Do(s, run[0]), run[1..])
  }

  ghost predicate AllIdle(s: State) { forall t :: 0 <= t < |s.pcs| ==> s.pcs[t].Idle? }

  /** Some operation, neither a fresh lock call nor a spurious wakeup, brings the system closer to rest. */
  lemma ProgressStep(s: State) returns (a: Action)
    requires Exclusive(s) && NoLostWakeup(s) && !AllIdle(s)
    ensures Enabled(s, a) && !a.Spurious? && (a.Advance? ==> !s.pcs[a.t].Idle?)
    ensures Work(Do(s, a).pcs) < Work(s.pcs)
  {
    if t :| 0 <= t < |s.pcs| && s.pcs[t].Wake? {
      if u :| 0 <= u < |s.pcs| && s.pcs[u].Asleep? {
        a := WakeOne(t, u);
        WorkAfter(s.pcs, t, Idle);
        WorkAfter(s.pcs[t := Idle], u, Retry);
      } else {
        a := Advance(t);
        WorkAfter(s.pcs, t, Idle);
      }
    } else if t :| 0 <= t < |s.pcs| && Owner(s.pcs[t]) {
      a := Advance(t);
      WorkAfter(s.pcs, t, NextPc(s.word, s.pcs[t]));
    } else {
      assert Owners(s) == {};
      if forall t :: 0 <= t < |s.pcs| ==> s.pcs[t].Idle? || s.pcs[t].Asleep? {
        QuietMeansIdle(s);
        assert false;
      }
      var t :| 0 <= t < |s.pcs| && !s.pcs[t].Idle? && !s.pcs[t].Asleep?;
      a := Advance(t);
      WorkAfter(s.pcs, t, NextPc(s.word, s.pcs[t]));
    }
  }

  lemma {:induction false} Drain(s: State) returns (run: seq<Action>)
    requires Exclusive(s) && NoLostWakeup(s)
    ensures IsRun(s, run) && Cooperative(s, run) && AllIdle(End(s, run)) && |run| <= Work(s.pcs)
    decreases Work(s.pcs)
  {
    if AllIdle(s) {
      run := [];
    } else {
      var a := ProgressStep(s);
      ExclusiveKept(s, a);
      NoLostWakeupKept(s, a);
      var rest := Drain(Do(s, a));
      run := [a] + rest;
      assert run[1..] == rest;
    }
  }

  /** The lock never wedges: whatever has happened, if no thread starts a new lock call and no spurious
      wakeup helps, at most seven operations a thread let every thread through the lock and out again. */
  lemma {:induction false} EveryoneCanFinish(n: nat, run: seq<Action>) returns (rest: seq<Action>)
    requires IsRun(Initial(n), run)
    ensures IsRun(End(Initial(n), run), rest) && Cooperative(End(Initial(n), run), rest)
    ensures AllIdle(End(End(Initial(n), run), rest))
    ensures End(End(Initial(n), run), rest).word == 0
    ensures |rest| <= 7 * n
  {
    InitialInvariants(n);
    InvariantsAlong(Initial(n), run);
    var s := End(Initial(n), run);
    rest := Drain(s);
    WorkBound(s.pcs);
    ThreadCount(Initial(n), run);
    InvariantsAlong(s, rest);
    assert Owners(End(s, rest)) == {};
  }

  lemma {:induction false} ThreadCount(s: State, run: seq<Action>)
    requires IsRun(s, run)
    ensures |End(s, run).pcs| == |s.pcs|
    decreases |run|
  {
    if run != [] {
      ThreadCount(Do(s, run[0]), run[1..]);
    }
  }

  // ----- every cooperative schedule ends

  /** Changes of the word, and wakes, that a thread may still be the cause of. */
  function Burden(pc: Pc): nat {
    match pc
    case Idle => 0
    case Wake => 1
    case StoreZero => 2
    case Holding => 4
    case _ => 5
  }

  /** Operations before a contender sleeps or changes the word, as long as the word stays what it is. */
  function Patience(word: Word, pc: Pc): nat {
    match pc
    case Wait => if word == 1 then 2 else 1
    case LoopTop(c) => if word == 2 then 2 else if c == 2 then 2 + word else if word == 0 then 1 else 0
    case Retry => if word == 2 then 3 else word
    case _ => 0
  }

  function Burdens(pcs: seq<Pc>): nat {
    if pcs == [] then 0 else Burdens(pcs[..|pcs| - 1]) + Burden(pcs[|pcs| - 1])
  }

  function Patiences(word: Word, pcs: seq<Pc>): nat
    requires word <= 2
  {
    if pcs == [] then 0 else Patiences(word, pcs[..|pcs| - 1]) + Patience(word, pcs[|pcs| - 1])
  }

  /** What is left to happen to the word. */
  function Changes(s: State): nat { Burdens(s.pcs) + (if s.word == 1 then 1 else 0) }

  lemma {:induction false} SumsAfter(word: Word, pcs: seq<Pc>, t: nat, pc: Pc)
    requires t < |pcs| && word <= 2
    ensures Burdens(pcs[t := pc]) == Burdens(pcs) - Burden(pcs[t]) + Burden(pc)
    ensures Patiences(word, pcs[t := pc]) == Patiences(word, pcs) - Patience(word, pcs[t]) + Patience(word, pc)
  {
    var last := |pcs| - 1;
    var pcs' := pcs[t := pc];
    if t < last {
      SumsAfter(word, pcs[..last], t, pc);
      assert pcs'[..last] == pcs[..last][t := pc];
    } else {
      assert pcs'[..last] == pcs[..last];
    }
  }

  lemma {:induction false} SumsBound(word: Word, pcs: seq<Pc>)
    requires word <= 2
    ensures Burdens(pcs) <= 5 * |pcs| && Patiences(word, pcs) <= 3 * |pcs|
  {
    if pcs != [] {
      SumsBound(word, pcs[..|pcs| - 1]);
    }
  }

  /** A cooperative step leaves fewer changes, or as many and less patience. */
  lemma CooperativeStep(s: State, a: Action)
    requires Exclusive(s) && Enabled(s, a) && !a.Spurious? && (a.Advance? ==> !s.pcs[a.t].Idle?)
    ensures var s' := Do(s, a);
            && s'.word <= 2 && |s'.pcs| == |s.pcs|
            && (Changes(s') < Changes(s)
                || (Changes(s') == Changes(s) && Patiences(s'.word, s'.pcs) < Patiences(s.word, s.pcs)))
  {
    ExclusiveKept(s, a);
    match a
    case WakeOne(t, u) =>
      SumsAfter(s.word, s.pcs, t, Idle);
      SumsAfter(s.word, s.pcs[t := Idle], u, Retry);
    case Advance(t) =>
      var pc := s.pcs[t];
      if Owner(pc) {
        SoleOwner(s, t);
        DecrementedBelow(s.word);
      }
      SumsAfter(s.word, s.pcs, t, NextPc(s.word, pc));
  }

  /** c rounds of k operations. */
  function Rounds(k: nat, c: nat): nat {
    if c == 0 then 0 else k + Rounds(k, c - 1)
  }

  lemma {:induction false} RoundsMonotone(k: nat, a: nat, b: nat)
    requires a < b
    ensures Rounds(k, a) + k <= Rounds(k, b)
  {
    if a + 1 < b {
      RoundsMonotone(k, a, b - 1);
    }
  }

  lemma {:induction false} RoundsIs(k: nat, c: nat)
    ensures Rounds(k, c) == k * c
  {
    if c > 0 {
      RoundsIs(k, c - 1);
    }
  }

  lemma {:induction false} CooperativeRunBound(s: State, run: seq<Action>)
    requires Exclusive(s) && IsRun(s, run) && Cooperative(s, run)
    ensures |run| <= Rounds(3 * |s.pcs| + 1, Changes(s)) + Patiences(s.word, s.pcs)
    decreases |run|
  {
    if run != [] {
      var s' := Do(s, run[0]);
      CooperativeStep(s, run[0]);
      ExclusiveKept(s, run[0]);
      CooperativeRunBound(s', run[1..]);
      SumsBound(s'.word, s'.pcs);
      if Changes(s') < Changes(s) {
        RoundsMonotone(3 * |s.pcs| + 1, Changes(s'), Changes(s));
      }
    }
  }

  lemma {:induction false} CooperativeRunLength(s: State, run: seq<Action>)
    requires Exclusive(s) && IsRun(s, run) && Cooperative(s, run)
    ensures |run| <= Rounds(3 * |s.pcs| + 1, 5 * |s.pcs| + 1) + 3 * |s.pcs|
  {
    CooperativeRunBound(s, run);
    SumsBound(s.word, s.pcs);
    if Changes(s) < 5 * |s.pcs| + 1 {
      RoundsMonotone(3 * |s.pcs| + 1, Changes(s), 5 * |s.pcs| + 1);
    }
  }

  /** Some thread can go on without a new lock call or a spurious wakeup. */
  ghost predicate CanGoOn(s: State) {
    exists a :: Enabled(s, a) && !a.Spurious? && (a.Advance? ==> !s.pcs[a.t].Idle?)
  }

  lemma StoppedIsIdle(s: State)
    requires Exclusive(s) && NoLostWakeup(s) && !CanGoOn(s)
    ensures AllIdle(s)
  {
    if !AllIdle(s) {
      var a := ProgressStep(s);
    }
  }

  /** Every schedule without new lock calls and spurious wakeups ends, within a bound that depends on the number of
      threads only. */
  lemma {:induction false} EveryCooperativeRunEnds(n: nat, run: seq<Action>, rest: seq<Action>)
    requires IsRun(Initial(n), run)
    requires IsRun(End(Initial(n), run), rest) && Cooperative(End(Initial(n), run), rest)
    ensures |rest| <= (3 * n + 1) * (5 * n + 1) + 3 * n
  {
    InitialInvariants(n);
    InvariantsAlong(Initial(n), run);
    ThreadCount(Initial(n), run);
    CooperativeRunLength(End(Initial(n), run), rest);
    RoundsIs(3 * n + 1, 5 * n + 1);
  }

  /** A schedule that cannot be continued without a new lock call or a spurious wakeup has brought every thread out
      of the lock. */
  lemma {:induction false} StoppedRunIsIdle(n: nat, run: seq<Action>)
    requires IsRun(Initial(n), run) && !CanGoOn(End(Initial(n), run))
    ensures AllIdle(End(Initial(n), run))
  {
    InitialInvariants(n);
    InvariantsAlong(Initial(n), run);
    StoppedIsIdle(End(Initial(n), run));
  }

  // ----- without contention

  /** A free lock is taken in one operation, and the word says that nobody waits. */
  lemma UncontendedLock(s: State, t: nat)
    requires t < |s.pcs| && s.pcs[t].Idle? && s.word == 0
    ensures Do(s, Advance(t)) == State(1, s.pcs[t := Holding])
  {
  }

  /** Some thread enters the lock loop during the run. */
  ghost predicate EntersLoop(s: State, run: seq<Action>)
    requires IsRun(s, run)
    decreases |run|
  {
    run != [] &&
    ((exists t :: 0 <= t < |s.pcs| && s.pcs[t].Idle? && Do(s, run[0]).pcs[t].LoopTop?) ||
     EntersLoop(Do(s, run[0]), run[1..]))
  }

  /** The only ways the word changes: a lock that finds 0 stores 1, a contender that did not read 2 turns 1 into 2, one
      that retries turns 0 into 2, and an owner takes 1 away and, when that does not leave 0, stores 0. */
  lemma WordChangesExactly(s: State, a: Action)
    requires Exclusive(s) && Enabled(s, a) && Do(s, a).word != s.word
    ensures a.Advance?
    ensures var s' := Do(s, a); var pc, pc' := s.pcs[a.t], s'.pcs[a.t];
            || (pc.Idle? && s.word == 0 && s'.word == 1 && pc'.Holding?)
            || (pc.LoopTop? && pc.c != 2 && s.word == 1 && s'.word == 2 && pc'.Wait?)
            || (pc.Retry? && s.word == 0 && s'.word == 2 && pc'.Holding?)
            || (pc.Holding? && s.word == 1 && s'.word == 0 && pc'.Idle?)
            || (pc.Holding? && s.word == 2 && s'.word == 1 && pc'.StoreZero?)
            || (pc.StoreZero? && s'.word == 0 && pc'.Wake?)
  {
    if a.Advance? && s.pcs[a.t].Holding? {
      SoleOwner(s, a.t);
      DecrementedBelow(s.word);
    }
  }

  predicate Uncontended(s: State) {
    s.word <= 1 && forall t :: 0 <= t < |s.pcs| ==> s.pcs[t].Idle? || s.pcs[t].Holding?
  }

  lemma UncontendedKept(s: State, a: Action)
    requires Exclusive(s) && Uncontended(s) && Enabled(s, a)
    requires !exists t :: 0 <= t < |s.pcs| && s.pcs[t].Idle? && Do(s, a).pcs[t].LoopTop?
    ensures Uncontended(Do(s, a))
  {
    var t := a.t;
    assert a.Advance?;
    if s.pcs[t].Holding? {
      SoleOwner(s, t);
    } else {
      assert !Do(s, a).pcs[t].LoopTop?;
    }
  }

  lemma {:induction false} UncontendedAlong(s: State, run: seq<Action>)
    requires Exclusive(s) && Uncontended(s) && IsRun(s, run) && !EntersLoop(s, run)
    ensures Uncontended(End(s, run))
    decreases |run|
  {
    if run != [] {
      UncontendedKept(s, run[0]);
      ExclusiveKept(s, run[0]);
      UncontendedAlong(Do(s, run[0]), run[1..]);
    }
  }

  /** Before some thread has entered the loop nobody waits, stores 0 or calls the kernel: a lock is one operation and an
      unlock is another. */
  lemma {:induction false} QuietWithoutContention(n: nat, run: seq<Action>)
    requires IsRun(Initial(n), run) && !EntersLoop(Initial(n), run)
    ensures var s := End(Initial(n), run);
            s.word <= 1 && forall t :: 0 <= t < |s.pcs| ==> s.pcs[t].Idle? || s.pcs[t].Holding?
  {
    InitialInvariants(n);
    UncontendedAlong(Initial(n), run);
  }

  // ----- the code

  /** The shared word and every thread's position, updated in place one atomic operation at a time. */
  class Machine {
    var state: Word
    const pcs: array<Pc>

    ghost function Snapshot(): State
      reads this, pcs
    {
      State(state, pcs[..])
    }

    constructor (n: nat)
      ensures fresh(pcs) && Snapshot() == Initial(n)
    {
      state := 0;
      pcs := new Pc[n](_ => Idle);
      new;
      assert pcs[..] == seq(n, _ => Idle);
    }

    method CompareAndExchange(expected: Word, desired: Word) returns (prev: Word)
      modifies this`state
      ensures prev == old(state) && state == Exchanged(old(state), expected, desired)
    {
      prev := state;
      if prev == expected {
        state := desired;
      }
    }

    method AtomicDec() returns (prev: Word)
      modifies this`state
      ensures prev == old(state) && state == Decremented(old(state))
    {
      prev := state;
      state := if prev == 0 then 0xFFFF_FFFF else prev - 1;
    }

    /** Thread t performs its next operation of `futex_lock`. */
    method LockStep(t: nat)
      requires t < pcs.Length && !pcs[t].Asleep? && !Owner(pcs[t]) && !Releasing(pcs[t])
      modifies this`state, pcs
      ensures Snapshot() == Do(old(Snapshot()), Advance(t))
    {
      match pcs[t]
      case Idle =>
        var c := CompareAndExchange(0, 1);
        pcs[t] := if c != 0 then LoopTop(c) else Holding;
      case LoopTop(c) =>
        if c == 2 {
          pcs[t] := Wait;
        } else {
          var prev := CompareAndExchange(1, 2);
          pcs[t] := if prev != 0 then Wait else Retry;
        }
      case Wait =>
        pcs[t] := if state == 2 then Asleep else Retry;
      case Retry =>
        var c := CompareAndExchange(0, 2);
        pcs[t] := if c != 0 then LoopTop(c) else Holding;
    }

    /** Thread t performs its next operation of `futex_unlock`; a wake takes `sleeper` off the queue. */
    method UnlockStep(t: nat, sleeper: nat)
      requires t < pcs.Length && (Owner(pcs[t]) || Releasing(pcs[t]))
      requires pcs[t].Wake? ==>
        (forall i :: 0 <= i < pcs.Length ==> !pcs[i].Asleep?) || (sleeper < pcs.Length && pcs[sleeper].Asleep?)
      modifies this`state, pcs
      ensures Snapshot() == Do(old(Snapshot()),
        if old(pcs[t].Wake? && sleeper < pcs.Length && pcs[sleeper].Asleep?) then WakeOne(t, sleeper) else Advance(t))
    {
      match pcs[t]
      case Holding =>
        var prev := AtomicDec();
        pcs[t] := if prev != 1 then StoreZero else Idle;
      case StoreZero =>
        state := 0;
        pcs[t] := Wake;
      case Wake =>
        var found := sleeper < pcs.Length && pcs[sleeper].Asleep?;
        pcs[t] := Idle;
        if found {
          pcs[sleeper] := Retry;
        }
    }
  }
}

/** `aref_init`, `aref_get` and `aref_put` as code, each running in the middle of arbitrary steps of
    the other threads, before each access to the count and before the call returns, that is, between
    the decrement and the callback. As in the retry loop, the interference is an input; a step that its
    thread cannot take, or that would raise the references to the limit, is skipped. */
module ArefCode {
  import opened Words
  import opened Atomics
  import opened AtomicLoop
  import opened Aref

  /** `w` is reached from `start` by the run `done`, within the limit. */
  ghost predicate Reached(start: World, done: seq<Act>, w: World) {
    && AllowedRun(start, done) && Within(start, done, MAX_REFS) && Outcome(start, done) == w
    && ReleaseInv(w) && Inv(w.sys)
  }

  lemma StepKeepsMachineInv(w: World, a: Act)
    requires Inv(w.sys) && Allowed(w, a)
    ensures Inv(Perform(w, a).sys)
  {
    if !a.Give? {
      StepKeepsInv(w.sys, MachineSteps(a)[0]);
    }
  }

  lemma ReachedStep(start: World, done: seq<Act>, w: World, a: Act)
    requires Reached(start, done, w) && Allowed(w, a)
    requires Outstanding(w) <= MAX_REFS
    requires var w' := Perform(w, a); |w'.sys.threads| == |w'.held| ==> Outstanding(w') <= MAX_REFS
    ensures Reached(start, done + [a], Perform(w, a))
  {
    OneAct(w, a, MAX_REFS);
    RunThen(start, done, [a], MAX_REFS);
    StepKeepsReleaseInv(w, a);
    StepKeepsMachineInv(w, a);
  }

  ghost predicate ByOtherThreads(acts: seq<Act>, t: nat) {
    forall i :: 0 <= i < |acts| ==> Actor(acts[i]) != t
  }

  /** Another thread's step changes nothing of this thread, except that it may hand it a reference. */
  lemma OthersKeepMine(w: World, a: Act, t: nat)
    requires Counted(w) && Allowed(w, a) && Actor(a) != t && t < |w.held|
    ensures var w' := Perform(w, a);
            && |w'.held| == |w.held| == |w'.sys.threads|
            && w'.sys.threads[t] == w.sys.threads[t] && w'.held[t] >= w.held[t]
            && w.sys.log <= w'.sys.log
  {
  }

  /** The step is not that of an increment. */
  predicate NotRaising(w: World, a: Act)
    requires Allowed(w, a)
  {
    a.Put? || a.Count? || a.Finish? || (a.Inner? && w.sys.threads[a.a.t].pc.op != INC)
  }

  /** There is room for the call: an increment needs one reference below the limit. */
  ghost predicate Room(w: World, op: Op) {
    && |w.sys.threads| == |w.held|
    && Outstanding(w) <= MAX_REFS && (op != DEC ==> Outstanding(w) < MAX_REFS)
  }

  /** One step leads from one world to the other. */
  ghost predicate DoneBy(w: World, a: Act, w': World) {
    Allowed(w, a) && w' == Perform(w, a)
  }

  /** Thread t is at the head of the retry loop of a call made at log position `since`. */
  ghost predicate Calling(w: World, t: nat, op: Op, since: nat) {
    IsLoop(op) && t < |w.held| == |w.sys.threads| && w.sys.threads[t].pc == Called(op, since)
  }

  /** Thread t has loaded `prev` in that call. */
  ghost predicate HasLoaded(w: World, t: nat, op: Op, since: nat, prev: Word) {
    && IsLoop(op) && t < |w.held| == |w.sys.threads|
    && var pc := w.sys.threads[t].pc;
       pc.Loaded? && pc.op == op && pc.since == since && pc.prev == prev
  }

  /** Thread t's call has taken effect, and is about to return what it found. */
  ghost predicate Completed(w: World, t: nat, op: Op, since: nat, prev: Word) {
    && t < |w.held| == |w.sys.threads|
    && var pc := w.sys.threads[t].pc;
       pc.Returning? && pc.op == op && pc.since == since && pc.ret == prev
  }

  /* ---------- schedules ---------- */

  /** The step leaves the references below the limit, or does not add to them. */
  ghost predicate StaysBelow(w: World, w': World) {
    |w.sys.threads| == |w.held| && |w'.sys.threads| == |w'.held| ==>
      Outstanding(w') < MAX_REFS || Outstanding(w') <= Outstanding(w)
  }

  /** A run that can be carried out around thread t: the others do not raise the references to the limit. */
  ghost predicate CanRun(w: World, acts: seq<Act>, t: nat)
    decreases |acts|
  {
    acts != [] ==>
      && Allowed(w, acts[0])
      && (Actor(acts[0]) != t ==> StaysBelow(w, Perform(w, acts[0])))
      && CanRun(Perform(w, acts[0]), acts[1..], t)
  }

  /** Every allowed run with fewer references than the limit is such a run, whoever is thread t. */
  lemma {:induction false} BelowLimitCanRun(w: World, acts: seq<Act>, t: nat)
    requires AllowedRun(w, acts) && Within(w, acts, MAX_REFS - 1)
    ensures CanRun(w, acts, t)
    decreases |acts|
  {
    if acts != [] {
      BelowLimitCanRun(Perform(w, acts[0]), acts[1..], t);
    }
  }

  /** If `acts` can be carried out from w, what has been added to the run is its beginning, and `ahead`,
      the rest of it, can be carried out from w'. */
  ghost predicate Onward(w: World, done: seq<Act>, acts: seq<Act>, w': World, done': seq<Act>, ahead: seq<Act>, t: nat) {
    CanRun(w, acts, t) ==> CanRun(w', ahead, t) && done' + ahead == done + acts
  }

  lemma OnwardStep(w: World, done: seq<Act>, a: Act, ahead: seq<Act>, t: nat)
    requires Allowed(w, a)
    ensures Onward(w, done, [a] + ahead, Perform(w, a), done + [a], ahead, t)
  {
    assert ([a] + ahead)[1..] == ahead;
    assert done + ([a] + ahead) == done + [a] + ahead;
  }

  /** One step of a burst, taken exactly when its thread can and the limit allows. */
  lemma OnwardInBurst(w0: World, done0: seq<Act>, acts: seq<Act>, w: World, done: seq<Act>,
                      burst: seq<Act>, i: nat, ahead: seq<Act>, t: nat)
    requires i < |burst| && Actor(burst[i]) != t && Onward(w0, done0, acts, w, done, burst[i..] + ahead, t)
    ensures Allowed(w, burst[i]) ==>
              Onward(w0, done0, acts, Perform(w, burst[i]), done + [burst[i]], burst[i + 1..] + ahead, t)
    ensures !Allowed(w, burst[i]) || !StaysBelow(w, Perform(w, burst[i])) ==>
              Onward(w0, done0, acts, w, done, burst[i + 1..] + ahead, t)
  {
    assert burst[i..] + ahead == [burst[i]] + (burst[i + 1..] + ahead);
    if Allowed(w, burst[i]) {
      OnwardStep(w, done, burst[i], burst[i + 1..] + ahead, t);
    }
  }

  /** One pass of the retry loop with its interference, and what comes after it. */
  function PassActs(t: nat, before: seq<Act>, between: seq<Act>, ahead: seq<Act>): seq<Act> {
    before + ([Inner(LoadPrev(t))] + (between + ([Inner(TryCas(t))] + ahead)))
  }

  /** The passes from index i up to k, and the end of the call. */
  function PassesActs(t: nat, bursts: seq<seq<Act>>, i: nat, k: nat, end: seq<Act>): seq<Act>
    decreases k - i
  {
    if i >= k then end
    else PassActs(t, Burst(bursts, 2 * i), Burst(bursts, 2 * i + 1), PassesActs(t, bursts, i + 1, k, end))
  }

  /** A whole get or put of k passes. */
  function CallActs(t: nat, call: Act, bursts: seq<seq<Act>>, k: nat, last: seq<Act>): seq<Act> {
    [call] + PassesActs(t, bursts, 0, k, last + [Finish(t)])
  }

  /** A whole look at the count. */
  function CountActs(t: nat, before: seq<Act>, last: seq<Act>): seq<Act> {
    [Count(t)] + (before + ([Inner(Single(t))] + (last + [Finish(t)])))
  }

  /** In a run whose next step by thread t is `a`, that step is allowed in t's present state. */
  lemma {:induction false} NextOwnAct(w: World, acts: seq<Act>, a: Act, ahead: seq<Act>, t: nat) returns (w': World)
    requires Counted(w) && ByOtherThreads(acts, t) && t < |w.held| && CanRun(w, acts + ([a] + ahead), t)
    ensures Allowed(w', a) && |w'.sys.threads| == |w.sys.threads| && w'.sys.threads[t] == w.sys.threads[t]
    decreases |acts|
  {
    if acts == [] {
      assert acts + ([a] + ahead) == [a] + ahead;
      w' := w;
    } else {
      assert (acts + ([a] + ahead))[1..] == acts[1..] + ([a] + ahead);
      OthersKeepMine(w, acts[0], t);
      StepKeepsCounted(w, acts[0]);
      w' := NextOwnAct(Perform(w, acts[0]), acts[1..], a, ahead, t);
    }
  }

  lemma BurstByOtherThreads(bursts: seq<seq<Act>>, i: nat, t: nat)
    requires forall j :: 0 <= j < |bursts| ==> ByOtherThreads(bursts[j], t)
    ensures ByOtherThreads(Burst(bursts, i), t)
  {
  }

  /** A call that has not taken effect has a pass ahead. */
  lemma OnwardToPass(w: World, done: seq<Act>, t: nat, bursts: seq<seq<Act>>, i: nat, k: nat, last: seq<Act>)
    requires Counted(w) && t < |w.held| && w.sys.threads[t].pc.Called? && ByOtherThreads(last, t)
    ensures var end := last + [Finish(t)];
            Onward(w, done, PassesActs(t, bursts, i, k, end), w, done,
                   PassActs(t, Burst(bursts, 2 * i), Burst(bursts, 2 * i + 1), PassesActs(t, bursts, i + 1, k, end)), t)
  {
    if i >= k && CanRun(w, last + [Finish(t)], t) {
      assert [Finish(t)] == [Finish(t)] + [];
      var w' := NextOwnAct(w, last, Finish(t), [], t);
    }
  }

  /** A call that has taken effect has none. */
  lemma OnwardToReturn(w: World, done: seq<Act>, t: nat, bursts: seq<seq<Act>>, i: nat, k: nat, end: seq<Act>)
    requires Counted(w) && t < |w.held| && w.sys.threads[t].pc.Returning?
    requires forall j :: 0 <= j < |bursts| ==> ByOtherThreads(bursts[j], t)
    ensures Onward(w, done, PassesActs(t, bursts, i, k, end), w, done, end, t)
  {
    if i < k && CanRun(w, PassesActs(t, bursts, i, k, end), t) {
      BurstByOtherThreads(bursts, 2 * i, t);
      var w' := NextOwnAct(w, Burst(bursts, 2 * i), Inner(LoadPrev(t)),
                 Burst(bursts, 2 * i + 1) + ([Inner(TryCas(t))] + PassesActs(t, bursts, i + 1, k, end)), t);
    }
  }

  /* ---------- a schedule that needs a second pass ---------- */

  lemma CanRunThen(w: World, a: Act, ahead: seq<Act>, t: nat)
    requires Allowed(w, a) && (Actor(a) != t ==> StaysBelow(w, Perform(w, a))) && CanRun(Perform(w, a), ahead, t)
    ensures CanRun(w, [a] + ahead, t)
  {
    assert ([a] + ahead)[1..] == ahead;
  }

  /** An undisturbed put of thread u. */
  function PutActs(u: nat): seq<Act> {
    [Put(u), Inner(LoadPrev(u)), Inner(TryCas(u)), Finish(u)]
  }

  /** The world after it. */
  function AfterPut(w: World, u: nat): World
    requires CanUse(w, u)
  {
    Perform(Perform(Perform(Perform(w, Put(u)), Inner(LoadPrev(u))), Inner(TryCas(u))), Finish(u))
  }

  lemma PutStepsBelow(w: World, u: nat)
    requires Counted(w) && CanUse(w, u)
    ensures var w1 := Perform(w, Put(u));
            var w2 := Perform(w1, Inner(LoadPrev(u)));
            var w3 := Perform(w2, Inner(TryCas(u)));
            && StaysBelow(w, w1) && StaysBelow(w1, w2) && StaysBelow(w2, w3) && StaysBelow(w3, AfterPut(w, u))
  {
    var w1 := Perform(w, Put(u));
    var w2 := Perform(w1, Inner(LoadPrev(u)));
    var w3 := Perform(w2, Inner(TryCas(u)));
    OutstandingMoves(w, Put(u));
    OutstandingMoves(w1, Inner(LoadPrev(u)));
    OutstandingMoves(w2, Inner(TryCas(u)));
    OutstandingMoves(w3, Finish(u));
  }

  lemma PutCanRun(w: World, u: nat, ahead: seq<Act>, t: nat)
    requires Counted(w) && CanUse(w, u) && CanRun(AfterPut(w, u), ahead, t)
    ensures CanRun(w, PutActs(u) + ahead, t)
  {
    var w1 := Perform(w, Put(u));
    var w2 := Perform(w1, Inner(LoadPrev(u)));
    var w3 := Perform(w2, Inner(TryCas(u)));
    PutStepsBelow(w, u);
    CanRunThen(w3, Finish(u), ahead, t);
    CanRunThen(w2, Inner(TryCas(u)), [Finish(u)] + ahead, t);
    CanRunThen(w1, Inner(LoadPrev(u)), [Inner(TryCas(u))] + ([Finish(u)] + ahead), t);
    CanRunThen(w, Put(u), [Inner(LoadPrev(u))] + ([Inner(TryCas(u))] + ([Finish(u)] + ahead)), t);
    assert PutActs(u) + ahead == [Put(u)] + ([Inner(LoadPrev(u))] + ([Inner(TryCas(u))] + ([Finish(u)] + ahead)));
  }

  /** Thread t's put up to its load, and thread u's whole put after that: t's compare-and-swap is still to
      come, and the cell is not what it has loaded. */
  lemma LoadedThenPut(w: World, t: nat, u: nat)
    requires CanUse(w, t) && CanUse(w, u) && t != u
    ensures CanUse(Perform(Perform(w, Put(t)), Inner(LoadPrev(t))), u)
    ensures var w' := AfterPut(Perform(Perform(w, Put(t)), Inner(LoadPrev(t))), u);
            && |w'.sys.threads| == |w'.held| == |w.held| && w'.sys.threads[t].pc.Loaded?
            && w'.sys.threads[t].pc.op == DEC && w'.sys.cell != w'.sys.threads[t].pc.prev
  {
  }

  /** A failing compare-and-swap, one undisturbed pass, and the return. */
  function RetryActs(t: nat): seq<Act> {
    [Inner(TryCas(t))] + ([Inner(LoadPrev(t))] + ([Inner(TryCas(t))] + [Finish(t)]))
  }

  lemma RetryCanRun(w: World, t: nat)
    requires t < |w.sys.threads| == |w.held| && w.sys.threads[t].pc.Loaded? && w.sys.threads[t].pc.op == DEC
    requires w.sys.cell != w.sys.threads[t].pc.prev
    ensures CanRun(w, RetryActs(t), t)
  {
    var w1 := Perform(w, Inner(TryCas(t)));
    var w2 := Perform(w1, Inner(LoadPrev(t)));
    var w3 := Perform(w2, Inner(TryCas(t)));
    assert [Finish(t)] == [Finish(t)] + [];
    CanRunThen(w3, Finish(t), [], t);
    CanRunThen(w2, Inner(TryCas(t)), [Finish(t)], t);
    CanRunThen(w1, Inner(LoadPrev(t)), [Inner(TryCas(t))] + [Finish(t)], t);
    CanRunThen(w, Inner(TryCas(t)), [Inner(LoadPrev(t))] + ([Inner(TryCas(t))] + [Finish(t)]), t);
  }

  lemma TwoPasses(t: nat, call: Act, burst: seq<Act>)
    ensures CallActs(t, call, [[], burst], 2, []) ==
            [call] + ([Inner(LoadPrev(t))] + (burst + RetryActs(t)))
  {
    var bursts, end := [[], burst], [] + [Finish(t)];
    assert end == [Finish(t)];
    assert PassesActs(t, bursts, 2, 2, end) == end;
    assert PassesActs(t, bursts, 1, 2, end) == [Inner(LoadPrev(t))] + ([Inner(TryCas(t))] + end);
    assert PassesActs(t, bursts, 0, 2, end) ==
           [Inner(LoadPrev(t))] + (burst + ([Inner(TryCas(t))] + PassesActs(t, bursts, 1, 2, end)));
  }

  /** Two threads give up a reference each: when one puts between the other's load and compare-and-swap,
      the other's put needs exactly two passes. */
  lemma RacingPuts(w: World, t: nat, u: nat)
    requires Counted(w) && CanUse(w, t) && CanUse(w, u) && t != u
    ensures ByOtherThreads(PutActs(u), t)
    ensures CanRun(w, CallActs(t, Put(t), [[], PutActs(u)], 2, []), t)
  {
    var w1 := Perform(w, Put(t));
    LoadedThenPutCanRun(w, t, u);
    CanRunThen(w1, Inner(LoadPrev(t)), PutActs(u) + RetryActs(t), t);
    CanRunThen(w, Put(t), [Inner(LoadPrev(t))] + (PutActs(u) + RetryActs(t)), t);
    TwoPasses(t, Put(t), PutActs(u));
  }

  lemma LoadedThenPutCanRun(w: World, t: nat, u: nat)
    requires Counted(w) && CanUse(w, t) && CanUse(w, u) && t != u
    ensures CanRun(Perform(Perform(w, Put(t)), Inner(LoadPrev(t))), PutActs(u) + RetryActs(t), t)
  {
    var w1 := Perform(w, Put(t));
    var w2 := Perform(w1, Inner(LoadPrev(t)));
    StepKeepsCounted(w, Put(t));
    StepKeepsCounted(w1, Inner(LoadPrev(t)));
    LoadedThenPut(w, t, u);
    RetryCanRun(AfterPut(w2, u), t);
    PutCanRun(w2, u, RetryActs(t), t);
  }

  /** After `done`, and before the end of `done'`, the step `a` was taken when the run was `sofar`. */
  ghost predicate During(done: seq<Act>, sofar: seq<Act>, a: Act, done': seq<Act>) {
    done < sofar && sofar + [a] < done'
  }

  lemma InOrder(done: seq<Act>, call: Act, called: seq<Act>, sofar: seq<Act>, a: Act, looked: seq<Act>, done': seq<Act>)
    requires called == done + [call] && called <= sofar && looked == sofar + [a] && looked < done'
    ensures During(done, sofar, a, done')
  {
  }

  lemma SignedCount(refs: nat)
    requires refs < 0x8000_0000
    ensures ToSigned(refs % 0x1_0000_0000) == refs
  {
  }

  class SharedAref {
    var w: World

    /** `aref_init`, by the thread that then holds the one reference. */
    constructor Init(n: nat, t: nat)
      requires t < n
      ensures w == InitWorld(n, t) && Reached(w, [], w) && Outstanding(w) == 1
    {
      w := InitWorld(n, t);
      InitReleaseInv(n, t);
      InitCounted(n, t);
      InitInv(1, n);
    }

    /** This thread's own step. */
    method Own(a: Act, ghost start: World, ghost done: seq<Act>, ghost ahead: seq<Act>) returns (ghost done': seq<Act>)
      requires Reached(start, done, w) && Allowed(w, a) && !a.Give?
      requires Outstanding(w) < MAX_REFS || (NotRaising(w, a) && Outstanding(w) <= MAX_REFS)
      modifies this
      ensures w == Perform(old(w), a) && done' == done + [a]
      ensures Reached(start, done', w) && Outstanding(w) <= MAX_REFS
      ensures w.sys.cell == old(w.sys.cell) ==> Outstanding(w) == old(Outstanding(w))
      ensures Onward(old(w), done, [a] + ahead, w, done', ahead, Actor(a))
    {
      SameAccount(w, a);
      OnwardStep(w, done, a, ahead, Actor(a));
      ReachedStep(start, done, w, a);
      done' := done + [a];
      w := Perform(w, a);
    }

    /** The other threads run for a while: this thread's own state stays as it was, and it may be handed
        references. */
    method Interfere(t: nat, burst: seq<Act>, ghost start: World, ghost done: seq<Act>, ghost ahead: seq<Act>)
      returns (ghost done': seq<Act>)
      requires Reached(start, done, w) && t < |w.held| && ByOtherThreads(burst, t) && Outstanding(w) <= MAX_REFS
      modifies this
      ensures Reached(start, done', w)
      ensures Outstanding(w) < MAX_REFS || Outstanding(w) <= old(Outstanding(w))
      ensures |w.held| == old(|w.held|) && w.sys.threads[t] == old(w.sys.threads[t]) && w.held[t] >= old(w.held[t])
      ensures old(w.sys.log) <= w.sys.log && done <= done' && (burst == [] ==> w == old(w))
      ensures Onward(old(w), done, burst + ahead, w, done', ahead, t)
    {
      done' := done;
      assert burst[0..] == burst;
      for i := 0 to |burst|
        invariant Reached(start, done', w)
        invariant Outstanding(w) < MAX_REFS || Outstanding(w) <= old(Outstanding(w))
        invariant |w.held| == old(|w.held|) && w.sys.threads[t] == old(w.sys.threads[t]) && w.held[t] >= old(w.held[t])
        invariant old(w.sys.log) <= w.sys.log && done <= done' && (burst == [] ==> w == old(w))
        invariant Onward(old(w), done, burst + ahead, w, done', burst[i..] + ahead, t)
      {
        OnwardInBurst(old(w), done, burst + ahead, w, done', burst, i, ahead, t);
        if Allowed(w, burst[i]) {
          OthersKeepMine(w, burst[i], t);
          var after := Outstanding(Perform(w, burst[i]));
          if after < MAX_REFS || after <= Outstanding(w) {
            ReachedStep(start, done', w, burst[i]);
            done' := done' + [burst[i]];
            w := Perform(w, burst[i]);
          }
        }
      }
      assert burst[|burst|..] + ahead == ahead;
    }

    /** The load of the loop, after a burst. */
    method Load(t: nat, op: Op, since: nat, before: seq<Act>, ghost start: World, ghost done: seq<Act>, ghost ahead: seq<Act>)
      returns (prev: Word, ghost done': seq<Act>)
      requires Reached(start, done, w) && Room(w, op) && Calling(w, t, op, since) && ByOtherThreads(before, t)
      modifies this
      ensures Reached(start, done', w) && Room(w, op) && HasLoaded(w, t, op, since, prev)
      ensures |w.held| == old(|w.held|) && w.held[t] >= old(w.held[t]) && old(w.sys.log) <= w.sys.log
      ensures before == [] ==> w.sys.cell == prev && DoneBy(old(w), Inner(LoadPrev(t)), w)
      ensures Onward(old(w), done, before + ([Inner(LoadPrev(t))] + ahead), w, done', ahead, t)
    {
      done' := Interfere(t, before, start, done, [Inner(LoadPrev(t))] + ahead);
      prev := w.sys.cell;
      done' := Own(Inner(LoadPrev(t)), start, done', ahead);
    }

    /** The compare-and-swap of the loop, on the value loaded, after a burst. */
    method CompareAndSwap(t: nat, op: Op, since: nat, prev: Word, between: seq<Act>,
                          ghost start: World, ghost done: seq<Act>, ghost ahead: seq<Act>)
      returns (status: Word, ghost done': seq<Act>)
      requires Reached(start, done, w) && Room(w, op) && HasLoaded(w, t, op, since, prev) && ByOtherThreads(between, t)
      modifies this
      ensures Reached(start, done', w) && Outstanding(w) <= MAX_REFS
      ensures |w.held| == old(|w.held|) && w.held[t] >= old(w.held[t]) && old(w.sys.log) <= w.sys.log
      ensures if status != 0 then Calling(w, t, op, since) && Room(w, op) else Completed(w, t, op, since, prev)
      ensures between == [] ==>
                && status == (if old(w.sys.cell) == prev then 0 else 1)
                && DoneBy(old(w), Inner(TryCas(t)), w)
      ensures Onward(old(w), done, between + ([Inner(TryCas(t))] + ahead), w, done', ahead, t)
    {
      done' := Interfere(t, between, start, done, [Inner(TryCas(t))] + ahead);
      status := CasStatus(SyncCas(w.sys.cell, prev, NewValue(op, prev)).1, prev);
      done' := Own(Inner(TryCas(t)), start, done', ahead);
    }

    /** One pass of the retry loop of the increment or decrement. */
    method Attempt(t: nat, op: Op, since: nat, before: seq<Act>, between: seq<Act>,
                   ghost start: World, ghost done: seq<Act>, ghost ahead: seq<Act>)
      returns (prev: Word, status: Word, ghost done': seq<Act>)
      requires Reached(start, done, w) && Room(w, op) && Calling(w, t, op, since)
      requires ByOtherThreads(before, t) && ByOtherThreads(between, t)
      modifies this
      ensures Reached(start, done', w) && Outstanding(w) <= MAX_REFS
      ensures |w.held| == old(|w.held|) && w.held[t] >= old(w.held[t]) && old(w.sys.log) <= w.sys.log
      ensures if status != 0 then Calling(w, t, op, since) && Room(w, op) else Completed(w, t, op, since, prev)
      ensures before == [] && between == [] ==> status == 0 && Undisturbed(old(w), t, w)
      ensures Onward(old(w), done, PassActs(t, before, between, ahead), w, done', ahead, t)
    {
      prev, done' := Load(t, op, since, before, start, done, between + ([Inner(TryCas(t))] + ahead));
      ghost var w1 := w;
      status, done' := CompareAndSwap(t, op, since, prev, between, start, done', ahead);
      if before == [] && between == [] {
        UndisturbedVia(old(w), t, w1, w);
      }
    }

    /** The pass with index i of a call. */
    method Pass(t: nat, op: Op, since: nat, bursts: seq<seq<Act>>, i: nat, ghost start: World, ghost done: seq<Act>,
                ghost k: nat, ghost last: seq<Act>)
      returns (prev: Word, status: Word, ghost done': seq<Act>)
      requires Reached(start, done, w) && Room(w, op) && Calling(w, t, op, since)
      requires ByOtherThreads(last, t) && forall j :: 0 <= j < |bursts| ==> ByOtherThreads(bursts[j], t)
      modifies this
      ensures Reached(start, done', w) && Outstanding(w) <= MAX_REFS
      ensures |w.held| == old(|w.held|) && w.held[t] >= old(w.held[t]) && old(w.sys.log) <= w.sys.log
      ensures if status != 0 then Calling(w, t, op, since) && Room(w, op) else Completed(w, t, op, since, prev)
      ensures i >= |bursts| ==> status == 0
      ensures bursts == [] ==> Undisturbed(old(w), t, w)
      ensures Onward(old(w), done, PassesActs(t, bursts, i, k, last + [Finish(t)]),
                     w, done', PassesActs(t, bursts, i + 1, k, last + [Finish(t)]), t)
    {
      BurstByOtherThreads(bursts, 2 * i, t);
      BurstByOtherThreads(bursts, 2 * i + 1, t);
      OnwardToPass(w, done, t, bursts, i, k, last);
      prev, status, done' := Attempt(t, op, since, Burst(bursts, 2 * i), Burst(bursts, 2 * i + 1), start, done,
                                     PassesActs(t, bursts, i + 1, k, last + [Finish(t)]));
    }

    /** The retry loop of the call that thread t has begun. */
    method AtomicAdd(t: nat, op: Op, since: nat, bursts: seq<seq<Act>>, ghost start: World, ghost done: seq<Act>,
                     ghost k: nat, ghost last: seq<Act>)
      returns (prev: Word, ghost done': seq<Act>)
      requires Reached(start, done, w) && Room(w, op) && Calling(w, t, op, since)
      requires ByOtherThreads(last, t) && forall i :: 0 <= i < |bursts| ==> ByOtherThreads(bursts[i], t)
      modifies this
      ensures Reached(start, done', w) && Outstanding(w) <= MAX_REFS
      ensures |w.held| == old(|w.held|) && w.held[t] >= old(w.held[t]) && old(w.sys.log) <= w.sys.log
      ensures Completed(w, t, op, since, prev)
      ensures bursts == [] ==> Undisturbed(old(w), t, w)
      ensures Onward(old(w), done, PassesActs(t, bursts, 0, k, last + [Finish(t)]), w, done', last + [Finish(t)], t)
    {
      ghost var w0, end := w, last + [Finish(t)];
      var status, i := 1, 0;
      prev, done' := 0, done;
      while status != 0
        invariant Reached(start, done', w) && Outstanding(w) <= MAX_REFS
        invariant |w.held| == |w0.held| && w.held[t] >= w0.held[t] && w0.sys.log <= w.sys.log
        invariant if status != 0 then Calling(w, t, op, since) && Room(w, op) else Completed(w, t, op, since, prev)
        invariant bursts == [] ==> if status != 0 then w == w0 else Undisturbed(w0, t, w)
        invariant Onward(w0, done, PassesActs(t, bursts, 0, k, end), w, done', PassesActs(t, bursts, i, k, end), t)
        invariant i <= |bursts| + 1 && (status != 0 ==> i <= |bursts|)
        decreases |bursts| + 1 - i
      {
        prev, status, done' := Pass(t, op, since, bursts, i, start, done', k, last);
        i := i + 1;
      }
      OnwardToReturn(w, done', t, bursts, i, k, end);
    }

    /** A get or put up to its effect on the count. */
    method TakeEffect(t: nat, call: Act, op: Op, bursts: seq<seq<Act>>, ghost start: World, ghost done: seq<Act>,
                      ghost k: nat, ghost last: seq<Act>)
      returns (count: Word, ghost done': seq<Act>)
      requires Reached(start, done, w) && CanUse(w, t) && Outstanding(w) <= MAX_REFS
      requires (call == Get(t) && op == INC && Outstanding(w) < MAX_REFS) || (call == Put(t) && op == DEC)
      requires ByOtherThreads(last, t) && forall i :: 0 <= i < |bursts| ==> ByOtherThreads(bursts[i], t)
      modifies this
      ensures Reached(start, done', w) && Outstanding(w) <= MAX_REFS && old(w.sys.log) <= w.sys.log
      ensures |w.held| == old(|w.held|) && w.held[t] >= old(w.held[t]) - (if call == Put(t) then 1 else 0)
      ensures Completed(w, t, op, |old(w.sys.log)|, count)
      ensures bursts == [] ==>
                && count == old(Outstanding(w)) % 0x1_0000_0000 && w.released == old(w.released)
                && Outstanding(w) == old(Outstanding(w)) + (if call == Get(t) then 1 else -1)
      ensures Onward(old(w), done, CallActs(t, call, bursts, k, last), w, done', last + [Finish(t)], t)
    {
      ghost var w0 := w;
      done' := Own(call, start, done, PassesActs(t, bursts, 0, k, last + [Finish(t)]));
      count, done' := AtomicAdd(t, op, |w.sys.log|, bursts, start, done', k, last);
      if bursts == [] {
        UndisturbedCall(w0, call, t, w);
      }
    }

    /** The end of a call: the others run once more, then thread t returns. */
    method Return(t: nat, op: Op, prev: Word, last: seq<Act>, ghost log: seq<Entry>,
                  ghost start: World, ghost done: seq<Act>)
      returns (ghost at: nat, ghost before: World, ghost done': seq<Act>)
      requires Reached(start, done, w) && Outstanding(w) <= MAX_REFS && log <= w.sys.log && IsLoop(op)
      requires t < |w.held| && Completed(w, t, op, |log|, prev) && ByOtherThreads(last, t)
      modifies this
      ensures Returns(start, done', t, before, w) && Outstanding(w) <= MAX_REFS
      ensures OneCall(log, w.sys.log, t, op, prev, at) && at == before.sys.threads[t].pc.at
      ensures Completed(before, t, op, |log|, prev) && before.sys.log == w.sys.log
      ensures |before.held| == old(|w.held|) && before.held[t] >= old(w.held[t])
      ensures Outstanding(w) == Outstanding(before) && (last == [] ==> before == old(w))
      ensures CanRun(old(w), last + [Finish(t)], t) ==> done' == done + (last + [Finish(t)])
    {
      done' := Interfere(t, last, start, done, [Finish(t)]);
      at := w.sys.threads[t].pc.at;
      CallOutcome(w.sys, t);
      assert w.sys.log[..|log|] == log;
      before := w;
      done' := Own(Finish(t), start, done', []);
    }

    /** `aref_get`: one increment takes effect, and on return, the last step of the run, the caller has
        one reference more than the moment before. */
    method ArefGet(t: nat, bursts: seq<seq<Act>>, last: seq<Act>, ghost start: World, ghost done: seq<Act>, ghost k: nat)
      returns (ghost prev: Word, ghost at: nat, ghost before: World, ghost done': seq<Act>)
      requires Reached(start, done, w) && CanUse(w, t) && Outstanding(w) < MAX_REFS
      requires ByOtherThreads(last, t) && forall i :: 0 <= i < |bursts| ==> ByOtherThreads(bursts[i], t)
      modifies this
      ensures Returns(start, done', t, before, w) && Outstanding(w) <= MAX_REFS
      ensures |w.held| == old(|w.held|) && w.held == before.held[t := before.held[t] + 1]
      ensures w.released == before.released && w.held[t] > old(w.held[t])
      ensures OneCall(old(w.sys.log), w.sys.log, t, INC, prev, at)
      ensures bursts == [] && last == [] ==>
                Outstanding(w) == old(Outstanding(w)) + 1 && w.released == old(w.released)
      ensures CanRun(old(w), CallActs(t, Get(t), bursts, k, last), t) ==>
                done' == done + CallActs(t, Get(t), bursts, k, last)
    {
      ghost var log := w.sys.log;
      var count;
      count, done' := TakeEffect(t, Get(t), INC, bursts, start, done, k, last);
      prev := count;
      at, before, done' := Return(t, INC, count, last, log, start, done');
      FinishedGet(before, t);
    }

    /** `aref_put`: one decrement takes effect. `freed` says that this call ran the release callback. It
        does so exactly when the decrement found one, which is exactly when it is the last effect on the
        count and no reference is left; and on return, the last step of the run, the number of callbacks
        has grown by one in that case and not at all in any other. */
    method ArefPut(t: nat, bursts: seq<seq<Act>>, last: seq<Act>, ghost start: World, ghost done: seq<Act>, ghost k: nat)
      returns (freed: bool, ghost prev: Word, ghost at: nat, ghost before: World, ghost done': seq<Act>)
      requires Reached(start, done, w) && CanUse(w, t) && Outstanding(w) <= MAX_REFS
      requires ByOtherThreads(last, t) && forall i :: 0 <= i < |bursts| ==> ByOtherThreads(bursts[i], t)
      modifies this
      ensures Returns(start, done', t, before, w) && Outstanding(w) <= MAX_REFS
      ensures |w.held| == old(|w.held|) && w.held == before.held && w.held[t] >= old(w.held[t]) - 1
      ensures OneCall(old(w.sys.log), w.sys.log, t, DEC, prev, at)
      ensures w.released == before.released + (if freed then 1 else 0)
      ensures freed <==> prev == 1
      ensures freed <==> Outstanding(w) == 0 && at + 1 == |w.sys.log|
      ensures freed ==> w.released == 1
      ensures bursts == [] && last == [] ==>
                && (freed <==> old(Outstanding(w)) == 1)
                && w.released == old(w.released) + (if freed then 1 else 0)
                && Outstanding(w) == old(Outstanding(w)) - 1
      ensures CanRun(old(w), CallActs(t, Put(t), bursts, k, last), t) ==>
                done' == done + CallActs(t, Put(t), bursts, k, last)
    {
      ghost var log := w.sys.log;
      CountOfOne(Outstanding(w));
      var count;
      count, done' := TakeEffect(t, Put(t), DEC, bursts, start, done, k, last);
      prev := count;

      at, before, done' := Return(t, DEC, count, last, log, start, done');
      freed := count == 1;
      FinishedPut(before, t);
    }

    /** A look at the count, after a burst: what it finds at that point. */
    method Look(t: nat, before: seq<Act>, ghost start: World, ghost done: seq<Act>, ghost ahead: seq<Act>)
      returns (count: Word, ghost point: World, ghost sofar: seq<Act>, ghost done': seq<Act>)
      requires Reached(start, done, w) && Outstanding(w) <= MAX_REFS && ByOtherThreads(before, t)
      requires t < |w.held| && w.sys.threads[t].pc.Called? && w.sys.threads[t].pc.op == Read
      modifies this
      ensures Reached(start, done', w) && Outstanding(w) <= MAX_REFS
      ensures |w.held| == old(|w.held|) && w.held[t] >= old(w.held[t]) && w.sys.threads[t].pc.Returning?
      ensures Reached(start, sofar, point) && done <= sofar && done' == sofar + [Inner(Single(t))]
      ensures 0 < Outstanding(point) && count == Outstanding(point) % 0x1_0000_0000
      ensures w.sys.cell == point.sys.cell && Outstanding(w) == Outstanding(point) && (before == [] ==> point == old(w))
      ensures Onward(old(w), done, before + ([Inner(Single(t))] + ahead), w, done', ahead, t)
    {
      sofar := Interfere(t, before, start, done, [Inner(Single(t))] + ahead);
      point := w;
      LookSeesOutstanding(w, t);
      count := w.sys.cell;
      done' := Own(Inner(Single(t)), start, sofar, ahead);
    }

    /** The others run once more, then thread t returns. */
    method Leave(t: nat, last: seq<Act>, ghost start: World, ghost done: seq<Act>) returns (ghost done': seq<Act>)
      requires Reached(start, done, w) && Outstanding(w) <= MAX_REFS && ByOtherThreads(last, t)
      requires t < |w.held| && w.sys.threads[t].pc.Returning?
      modifies this
      ensures Reached(start, done', w) && done < done'
      ensures |w.held| == old(|w.held|) && w.held[t] >= old(w.held[t])
      ensures last == [] ==> Outstanding(w) == old(Outstanding(w)) && w.sys.cell == old(w.sys.cell)
      ensures Onward(old(w), done, last + [Finish(t)], w, done', [], t)
    {
      done' := Interfere(t, last, start, done, [Finish(t)]);
      assert [Finish(t)] + [] == [Finish(t)];
      done' := Own(Finish(t), start, done', []);
    }

    /** `aref_count`: the number of references outstanding at one point during the call, modulo 2^32.
        `sofar` is the run up to that point. */
    method ArefCount(t: nat, before: seq<Act>, last: seq<Act>, ghost start: World, ghost done: seq<Act>)
      returns (count: Word, ghost point: World, ghost sofar: seq<Act>, ghost done': seq<Act>)
      requires Reached(start, done, w) && CanUse(w, t) && Outstanding(w) <= MAX_REFS
      requires ByOtherThreads(before, t) && ByOtherThreads(last, t)
      modifies this
      ensures Reached(start, done', w) && |w.held| == old(|w.held|) && w.held[t] >= old(w.held[t])
      ensures Reached(start, sofar, point) && During(done, sofar, Inner(Single(t)), done')
      ensures 0 < Outstanding(point) && count == Outstanding(point) % 0x1_0000_0000
      ensures Outstanding(point) < 0x8000_0000 ==> ToSigned(count) == Outstanding(point)
      ensures before == [] ==> Outstanding(point) == old(Outstanding(w))
      ensures before == [] && last == [] ==> Outstanding(w) == old(Outstanding(w)) && w.sys.cell == old(w.sys.cell)
      ensures CanRun(old(w), CountActs(t, before, last), t) ==> done' == done + CountActs(t, before, last)
    {
      ghost var called := Own(Count(t), start, done, before + ([Inner(Single(t))] + (last + [Finish(t)])));
      ghost var looked;
      count, point, sofar, looked := Look(t, before, start, called, last + [Finish(t)]);
      done' := Leave(t, last, start, looked);
      InOrder(done, Count(t), called, sofar, Inner(Single(t)), looked, done');
      if Outstanding(point) < 0x8000_0000 {
        SignedCount(Outstanding(point));
      }
    }
  }

  /** Thread t has loaded and swapped with no other step in between. */
  ghost predicate Undisturbed(w0: World, t: nat, w: World) {
    && Allowed(w0, Inner(LoadPrev(t)))
    && DoneBy(Perform(w0, Inner(LoadPrev(t))), Inner(TryCas(t)), w)
  }

  lemma UndisturbedVia(w0: World, t: nat, w1: World, w: World)
    requires DoneBy(w0, Inner(LoadPrev(t)), w1) && DoneBy(w1, Inner(TryCas(t)), w)
    ensures Undisturbed(w0, t, w)
  {
  }

  /** The run ends with the return of thread t's call, in the world `before`. */
  ghost predicate Returns(start: World, done: seq<Act>, t: nat, before: World, w: World) {
    && |done| > 0 && done[|done| - 1] == Finish(t)
    && Reached(start, done[..|done| - 1], before) && Reached(start, done, w)
    && Allowed(before, Finish(t)) && w == Perform(before, Finish(t))
  }

  lemma CountOfOne(refs: nat)
    requires refs <= MAX_REFS
    ensures refs % 0x1_0000_0000 == 1 <==> refs == 1
  {
  }

  /** An undisturbed call finds the references outstanding at its beginning, and changes them by one. */
  lemma UndisturbedCall(w0: World, call: Act, t: nat, w: World)
    requires ReleaseInv(w0) && CanUse(w0, t) && (call == Get(t) || call == Put(t))
    requires Undisturbed(Perform(w0, call), t, w)
    ensures w.sys.threads[t].pc.Returning? && w.sys.threads[t].pc.ret == Outstanding(w0) % 0x1_0000_0000
    ensures w.released == w0.released && |w.sys.threads| == |w.held|
    ensures Outstanding(w) == Outstanding(w0) + (if call == Get(t) then 1 else -1)
  {
    var w1 := Perform(w0, call);
    var w2 := Perform(w1, Inner(LoadPrev(t)));
    OutstandingMoves(w0, call);
    OutstandingMoves(w1, Inner(LoadPrev(t)));
    OutstandingMoves(w2, Inner(TryCas(t)));
  }

  lemma FinishedGet(w: World, t: nat)
    requires Allowed(w, Finish(t)) && w.sys.threads[t].pc.op == INC
    ensures t < |w.held| && Perform(w, Finish(t)).held == w.held[t := w.held[t] + 1]
    ensures Perform(w, Finish(t)).released == w.released
  {
  }

  /** What the invariant says about a put whose decrement has taken effect. */
  lemma FinishedPut(w: World, t: nat)
    requires ReleaseInv(w) && Inv(w.sys) && Allowed(w, Finish(t)) && w.sys.threads[t].pc.op == DEC
    ensures var pc := w.sys.threads[t].pc;
            && (pc.ret == 1 <==> Outstanding(w) == 0 && pc.at + 1 == |w.sys.log|)
            && (pc.ret == 1 ==> Perform(w, Finish(t)).released == 1)
  {
    var pc := w.sys.threads[t].pc;
    CallOutcome(w.sys, t);
    SumsInclude(w.sys.threads, w.held, t);
    assert w.sys.log[..|w.sys.log|] == w.sys.log;
    if pc.at + 1 == |w.sys.log| {
      assert LegalEntry(w.sys.initial, w.sys.log, |w.sys.threads|, pc.at);
      assert w.sys.cell == WrappingAdd(pc.ret, -1);
    }
  }

  /** A step adds at most one reference, and only a successful increment does. */
  lemma SameAccount(w: World, a: Act)
    requires Counted(w) && Allowed(w, a) && !a.Give?
    ensures |Perform(w, a).held| == |w.held| == |Perform(w, a).sys.threads|
    ensures Outstanding(Perform(w, a)) <= Outstanding(w) + (if NotRaising(w, a) then 0 else 1)
    ensures Perform(w, a).sys.cell == w.sys.cell ==> Outstanding(Perform(w, a)) == Outstanding(w)
  {
    StepCounts(w, a);
    OutstandingMoves(w, a);
  }
}

/** Lock-free progress of the retry loops: failures are paid for by other threads' writes, that is, by
    calls that changed the cell, so a finite number of calls takes a bounded number of steps under every schedule. */
module AtomicProgress {
  import opened Words
  import opened Atomics

  /* ---------- counting failures ---------- */

  function TotalFails(threads: seq<Thread>): nat {
    if threads == [] then 0 else TotalFails(threads[..|threads| - 1]) + threads[|threads| - 1].fails
  }

  /** The entries of the first n threads. */
  function OwnByFirst(log: seq<Entry>, n: nat): nat {
    if n == 0 then 0 else OwnByFirst(log, n - 1) + Own(log, n - 1)
  }

  lemma {:induction false} OwnByFirstStep(log: seq<Entry>, n: nat)
    requires log != []
    ensures OwnByFirst(log, n) == OwnByFirst(log[..|log| - 1], n) + (if log[|log| - 1].thread < n then 1 else 0)
    decreases n
  {
    if n > 0 {
      OwnByFirstStep(log, n - 1);
    }
  }

  lemma {:induction false} OwnAddsUp(log: seq<Entry>, n: nat)
    requires forall i :: 0 <= i < |log| ==> log[i].thread < n
    ensures OwnByFirst(log, n) == |log|
    decreases |log|
  {
    if log == [] {
      NoneOwned(n);
    } else {
      OwnByFirstStep(log, n);
      OwnAddsUp(log[..|log| - 1], n);
    }
  }

  lemma {:induction false} NoneOwned(n: nat)
    ensures OwnByFirst([], n) == 0
  {
    if n > 0 {
      NoneOwned(n - 1);
    }
  }

  lemma {:induction false} FailsBound(log: seq<Entry>, threads: seq<Thread>)
    requires forall t :: 0 <= t < |threads| ==> threads[t].fails <= Others(log, t)
    ensures TotalFails(threads) + OwnByFirst(log, |threads|) <= |threads| * |log|
    decreases |threads|
  {
    if threads != [] {
      var m: nat := |threads| - 1;
      FailsBound(log, threads[..m]);
      OwnAndOthers(log, m);
      assert |threads| * |log| == m * |log| + |log|;
    }
  }

  /** In every reachable state a thread has failed at most once for each call of another thread that
      changed the cell. */
  lemma FailsPaidByOthers(s: State, t: nat)
    requires Inv(s) && t < |s.threads|
    ensures s.threads[t].fails <= OtherWrites(s.log, t)
  {
    assert ThreadInv(s.initial, s.log, t, s.threads[t]);
    OtherWritesGrow(s.log, s.threads[t].mark, t);
  }

  lemma {:induction false} WritesAreEntries(log: seq<Entry>, n: nat)
    requires forall i :: 0 <= i < |log| ==> log[i].thread < n
    ensures |Writes(log)| <= |log| && forall i :: 0 <= i < |Writes(log)| ==> Writes(log)[i].thread < n
    decreases |log|
  {
    if log != [] {
      WritesAreEntries(log[..|log| - 1], n);
    }
  }

  /** All threads together fail at most n - 1 times for each write. */
  lemma TotalFailsBound(s: State)
    requires Inv(s)
    ensures TotalFails(s.threads) + |Writes(s.log)| <= |s.threads| * |Writes(s.log)|
    ensures |Writes(s.log)| <= |s.log|
  {
    forall t | 0 <= t < |s.threads|
      ensures s.threads[t].fails <= Others(Writes(s.log), t)
    {
      FailsPaidByOthers(s, t);
    }
    forall i | 0 <= i < |s.log|
      ensures s.log[i].thread < |s.threads|
    {
      assert LegalEntry(s.initial, s.log, |s.threads|, i);
    }
    WritesAreEntries(s.log, |s.threads|);
    OwnAddsUp(Writes(s.log), |s.threads|);
    FailsBound(Writes(s.log), s.threads);
  }

  /* ---------- counting steps ---------- */

  function Invocations(acts: seq<Action>): nat {
    if acts == [] then 0 else (if acts[0].Invoke? then 1 else 0) + Invocations(acts[1..])
  }

  /** The steps that a thread's current call still needs if it is not disturbed. */
  function Remaining(pc: Pc): nat {
    match pc
    case Idle => 0
    case Called(_, _) => 3
    case Loaded(_, _, _, _) => 2
    case Returning(_, _, _, _) => 1
  }

  function TotalRemaining(threads: seq<Thread>): nat {
    if threads == [] then 0
    else TotalRemaining(threads[..|threads| - 1]) + Remaining(threads[|threads| - 1].pc)
  }

  function PendingCalls(threads: seq<Thread>): nat {
    if threads == [] then 0
    else PendingCalls(threads[..|threads| - 1])
         + (var pc := threads[|threads| - 1].pc; if pc.Called? || pc.Loaded? then 1 else 0)
  }

  lemma {:induction false} UpdateTotals(threads: seq<Thread>, t: nat, th: Thread)
    requires t < |threads|
    ensures var after := threads[t := th];
            && TotalFails(after) == TotalFails(threads) + th.fails - threads[t].fails
            && TotalRemaining(after) == TotalRemaining(threads) + Remaining(th.pc) - Remaining(threads[t].pc)
            && PendingCalls(after) == PendingCalls(threads)
               + (if th.pc.Called? || th.pc.Loaded? then 1 else 0)
               - (if threads[t].pc.Called? || threads[t].pc.Loaded? then 1 else 0)
    decreases |threads|
  {
    var after, m := threads[t := th], |threads| - 1;
    if t < m {
      UpdateTotals(threads[..m], t, th);
      assert after[..m] == threads[..m][t := th];
    } else {
      assert after[..m] == threads[..m];
    }
  }

  /** Each step is paid for: four per invocation and two per failure, less what calls still need. */
  lemma StepIsPaid(s: State, a: Action)
    requires Enabled(s, a)
    ensures var s' := Step(s, a);
            && 1 + TotalRemaining(s'.threads) + 2 * TotalFails(s.threads)
               <= TotalRemaining(s.threads) + 2 * TotalFails(s'.threads) + (if a.Invoke? then 4 else 0)
            && |s'.log| + PendingCalls(s'.threads)
               == |s.log| + PendingCalls(s.threads) + (if a.Invoke? then 1 else 0)
            && |s'.threads| == |s.threads|
  {
    var s' := Step(s, a);
    UpdateTotals(s.threads, a.t, s'.threads[a.t]);
    assert s'.threads == s.threads[a.t := s'.threads[a.t]];
  }

  lemma {:induction false} RunIsPaid(s: State, acts: seq<Action>)
    requires ValidRun(s, acts)
    ensures var e := Exec(s, acts);
            && |acts| + TotalRemaining(e.threads) + 2 * TotalFails(s.threads)
               <= TotalRemaining(s.threads) + 2 * TotalFails(e.threads) + 4 * Invocations(acts)
            && |e.log| + PendingCalls(e.threads) == |s.log| + PendingCalls(s.threads) + Invocations(acts)
            && |e.threads| == |s.threads|
    decreases |acts|
  {
    if acts != [] {
      StepIsPaid(s, acts[0]);
      RunIsPaid(Step(s, acts[0]), acts[1..]);
    }
  }

  lemma {:induction false} InitTotals(threads: seq<Thread>)
    requires forall t :: 0 <= t < |threads| ==> threads[t] == Thread(Idle, 0, 0)
    ensures TotalFails(threads) == TotalRemaining(threads) == PendingCalls(threads) == 0
    decreases |threads|
  {
    if threads != [] {
      InitTotals(threads[..|threads| - 1]);
    }
  }

  /** Every run of n threads, under every schedule, takes at most 2 * n + 2 steps per invocation. */
  lemma StepsBounded(v: Word, n: nat, acts: seq<Action>)
    requires n > 0 && ValidRun(Init(v, n), acts)
    ensures |acts| <= (2 * n + 2) * Invocations(acts)
  {
    var s := Init(v, n);
    var e := Exec(s, acts);
    InitInv(v, n);
    RunKeepsInv(s, acts);
    InitTotals(s.threads);
    RunIsPaid(s, acts);
    TotalFailsBound(e);
    StepArithmetic(n, Invocations(acts), |Writes(e.log)|, TotalFails(e.threads), |acts|);
  }

  lemma StepArithmetic(n: nat, calls: nat, done: nat, fails: nat, steps: nat)
    requires n > 0 && done <= calls && fails + done <= n * done && steps <= 2 * fails + 4 * calls
    ensures steps <= (2 * n + 2) * calls
  {
    assert n * done == (n - 1) * done + done;
    ProductBound(done, calls, n - 1);
    assert (2 * n + 2) * calls == 2 * ((n - 1) * calls) + 4 * calls;
  }

  lemma ProductBound(a: nat, b: nat, c: nat)
    requires a <= b
    ensures c * a <= c * b
  {
  }

  /** The next step of a call in progress, whatever the other threads have done. */
  function NextAction(s: State, t: nat): Action
    requires t < |s.threads| && !s.threads[t].pc.Idle?
  {
    match s.threads[t].pc
    case Called(op, _) => if IsLoop(op) then LoadPrev(t) else Single(t)
    case Loaded(_, _, _, _) => TryCas(t)
    case _ => Respond(t)
  }

  /** No thread ever waits for another: with the step bound, every run of finitely many calls that is
      continued as long as some call is unfinished ends with all of them returned. */
  lemma StuckOnlyWhenDone(v: Word, n: nat, acts: seq<Action>)
    requires ValidRun(Init(v, n), acts)
    ensures var e := Exec(Init(v, n), acts);
            (forall a :: Enabled(e, a) ==> a.Invoke?) <==> Quiescent(e)
  {
    var e := Exec(Init(v, n), acts);
    InitInv(v, n);
    RunKeepsInv(Init(v, n), acts);
    if !Quiescent(e) {
      var t :| 0 <= t < |e.threads| && !e.threads[t].pc.Idle?;
      assert ThreadInv(e.initial, e.log, t, e.threads[t]);
      assert Enabled(e, NextAction(e, t));
    }
  }
}

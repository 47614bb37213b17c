/** What the cell holds after concurrent additions, or-s and and-s, independent of the schedule. */
module AtomicConservation {
  import opened Words
  import opened Atomics
  import opened AtomicRefinement

  /* ---------- no call is lost or applied twice ---------- */

  /** How often a call occurs in the log, in progress without effect, and among the invocations. */
  function Logged(log: seq<Entry>, op: Op): nat {
    if log == [] then 0 else Logged(log[..|log| - 1], op) + (if log[|log| - 1].op == op then 1 else 0)
  }

  function IsPending(th: Thread, op: Op): nat {
    if (th.pc.Called? || th.pc.Loaded?) && th.pc.op == op then 1 else 0
  }

  function Pending(threads: seq<Thread>, op: Op): nat {
    if threads == [] then 0 else Pending(threads[..|threads| - 1], op) + IsPending(threads[|threads| - 1], op)
  }

  function Invoked(acts: seq<Action>, op: Op): nat {
    if acts == [] then 0 else (if acts[0] == Invoke(acts[0].t, op) then 1 else 0) + Invoked(acts[1..], op)
  }

  lemma {:induction false} UpdatePending(threads: seq<Thread>, t: nat, th: Thread, op: Op)
    requires t < |threads|
    ensures Pending(threads[t := th], op) == Pending(threads, op) + IsPending(th, op) - IsPending(threads[t], op)
    decreases |threads|
  {
    var after, m := threads[t := th], |threads| - 1;
    if t < m {
      UpdatePending(threads[..m], t, th, op);
      assert after[..m] == threads[..m][t := th];
    } else {
      assert after[..m] == threads[..m];
    }
  }

  /** Linearising moves the acting thread's call from pending to logged. */
  lemma CommitConservesCalls(s: State, t: nat, cell: Word, ret: Word, op: Op)
    requires t < |s.threads| && (s.threads[t].pc.Called? || s.threads[t].pc.Loaded?)
    ensures var s' := Commit(s, t, cell, ret);
            Logged(s'.log, op) + Pending(s'.threads, op) == Logged(s.log, op) + Pending(s.threads, op)
  {
    var s' := Commit(s, t, cell, ret);
    UpdatePending(s.threads, t, s'.threads[t], op);
    assert s'.log[..|s'.log| - 1] == s.log;
  }

  lemma StepConservesCalls(s: State, a: Action, op: Op)
    requires Enabled(s, a)
    ensures var s' := Step(s, a);
            Logged(s'.log, op) + Pending(s'.threads, op)
            == Logged(s.log, op) + Pending(s.threads, op) + (if a == Invoke(a.t, op) then 1 else 0)
  {
    var s' := Step(s, a);
    var th := s.threads[a.t];
    if a.Single? {
      CommitConservesCalls(s, a.t, s'.cell, s'.threads[a.t].pc.ret, op);
    } else if a.TryCas? && s.cell == th.pc.prev {
      CommitConservesCalls(s, a.t, s'.cell, th.pc.prev, op);
    } else {
      assert s'.log == s.log && s'.threads == s.threads[a.t := s'.threads[a.t]];
      UpdatePending(s.threads, a.t, s'.threads[a.t], op);
    }
  }

  lemma {:induction false} RunConservesCalls(s: State, acts: seq<Action>, op: Op)
    requires ValidRun(s, acts)
    ensures var e := Exec(s, acts);
            Logged(e.log, op) + Pending(e.threads, op)
            == Logged(s.log, op) + Pending(s.threads, op) + Invoked(acts, op)
    decreases |acts|
  {
    if acts != [] {
      StepConservesCalls(s, acts[0], op);
      RunConservesCalls(Step(s, acts[0]), acts[1..], op);
    }
  }

  lemma {:induction false} NothingPending(threads: seq<Thread>, op: Op)
    requires forall t :: 0 <= t < |threads| ==> threads[t].pc.Idle?
    ensures Pending(threads, op) == 0
    decreases |threads|
  {
    if threads != [] {
      NothingPending(threads[..|threads| - 1], op);
    }
  }

  /** When all calls have returned, each was linearised exactly once. */
  lemma EveryCallTakesEffectOnce(v: Word, n: nat, acts: seq<Action>, op: Op)
    requires ValidRun(Init(v, n), acts) && Quiescent(Exec(Init(v, n), acts))
    ensures Logged(Exec(Init(v, n), acts).log, op) == Invoked(acts, op)
  {
    RunConservesCalls(Init(v, n), acts, op);
    NothingPending(Init(v, n).threads, op);
    NothingPending(Exec(Init(v, n), acts).threads, op);
  }

  lemma CellIsValueOfLog(v: Word, n: nat, acts: seq<Action>)
    requires ValidRun(Init(v, n), acts)
    ensures var e := Exec(Init(v, n), acts); Inv(e) && e.initial == v && e.cell == ValueAt(v, e.log)
  {
    InitInv(v, n);
    RunKeepsInv(Init(v, n), acts);
    SameInitial(Init(v, n), acts);
  }

  lemma {:induction false} SameInitial(s: State, acts: seq<Action>)
    requires ValidRun(s, acts)
    ensures Exec(s, acts).initial == s.initial
    decreases |acts|
  {
    if acts != [] {
      SameInitial(Step(s, acts[0]), acts[1..]);
    }
  }

  /* ---------- additions ---------- */

  /** The total of the increments of a log. */
  function Sum(log: seq<Entry>): int {
    if log == [] then 0
    else Sum(log[..|log| - 1]) + (var op := log[|log| - 1].op; if op.FetchAdd? then op.increment else 0)
  }

  function WithoutEntry(log: seq<Entry>, k: nat): seq<Entry>
    requires k < |log|
  {
    log[..k] + log[k + 1..]
  }

  lemma WithoutEntryPrefix(log: seq<Entry>, k: nat)
    requires k < |log| - 1
    ensures var rest := WithoutEntry(log, k);
            rest[..|rest| - 1] == WithoutEntry(log[..|log| - 1], k) && rest[|rest| - 1] == log[|log| - 1]
  {
  }

  lemma {:induction false} RemoveEntry(log: seq<Entry>, k: nat, op: Op)
    requires k < |log|
    ensures var gone := log[k].op;
            Sum(WithoutEntry(log, k)) == Sum(log) - (if gone.FetchAdd? then gone.increment else 0)
    ensures Logged(WithoutEntry(log, k), op) == Logged(log, op) - (if log[k].op == op then 1 else 0)
    decreases |log|
  {
    if k == |log| - 1 {
      assert WithoutEntry(log, k) == log[..k];
    } else {
      RemoveEntry(log[..|log| - 1], k, op);
      WithoutEntryPrefix(log, k);
    }
  }

  lemma {:induction false} LoggedHasEntry(log: seq<Entry>, op: Op) returns (k: nat)
    requires Logged(log, op) > 0
    ensures k < |log| && log[k].op == op
    decreases |log|
  {
    if log[|log| - 1].op == op {
      k := |log| - 1;
    } else {
      k := LoggedHasEntry(log[..|log| - 1], op);
    }
  }

  lemma {:induction false} EntryIsLogged(log: seq<Entry>, k: nat)
    requires k < |log|
    ensures Logged(log, log[k].op) > 0
    decreases |log|
  {
    if k < |log| - 1 {
      EntryIsLogged(log[..|log| - 1], k);
    }
  }

  lemma {:induction false} SumOfPermutation(a: seq<Entry>, b: seq<Entry>)
    requires forall op :: Logged(a, op) == Logged(b, op)
    ensures Sum(a) == Sum(b)
    decreases |a|
  {
    if a == [] {
      if b != [] {
        assert Logged(a, b[0].op) == Logged(b, b[0].op);
        EntryIsLogged(b, 0);
      }
    } else {
      var last := a[|a| - 1].op;
      EntryIsLogged(a, |a| - 1);
      var k := LoggedHasEntry(b, last);
      RemoveEntry(b, k, last);
      var a', b' := a[..|a| - 1], WithoutEntry(b, k);
      forall op
        ensures Logged(a', op) == Logged(b', op)
      {
        RemoveEntry(b, k, op);
        assert Logged(a, op) == Logged(b, op);
      }
      SumOfPermutation(a', b');
    }
  }

  lemma {:induction false} ValueOfAdditions(v: Word, log: seq<Entry>)
    requires forall i :: 0 <= i < |log| ==> log[i].op.FetchAdd?
    ensures ValueAt(v, log) == WrappingAdd(v, Sum(log))
    decreases |log|
  {
    if log != [] {
      var rest := log[..|log| - 1];
      ValueOfAdditions(v, rest);
      WrapTwice(v, Sum(rest), log[|log| - 1].op.increment);
    }
  }

  lemma WrapTwice(v: Word, a: int, b: int)
    ensures WrappingAdd(WrappingAdd(v, a), b) == WrappingAdd(v, a + b)
  {
  }

  lemma LoggedWasInvoked(v: Word, n: nat, acts: seq<Action>, i: nat)
    requires ValidRun(Init(v, n), acts) && i < |Exec(Init(v, n), acts).log|
    ensures Invoked(acts, Exec(Init(v, n), acts).log[i].op) > 0
  {
    var e := Exec(Init(v, n), acts);
    RunConservesCalls(Init(v, n), acts, e.log[i].op);
    NothingPending(Init(v, n).threads, e.log[i].op);
    EntryIsLogged(e.log, i);
  }

  ghost predicate AllAdds(acts: seq<Action>) {
    forall op :: Invoked(acts, op) > 0 ==> op.FetchAdd?
  }

  /** At every reachable state of a run of additions, the cell is the initial value plus the
      increments of the calls linearised so far, modulo 2^32. */
  lemma AdditionsConserved(v: Word, n: nat, acts: seq<Action>)
    requires ValidRun(Init(v, n), acts) && AllAdds(acts)
    ensures var e := Exec(Init(v, n), acts); e.cell == WrappingAdd(v, Sum(e.log))
  {
    var e := Exec(Init(v, n), acts);
    CellIsValueOfLog(v, n, acts);
    forall i | 0 <= i < |e.log|
      ensures e.log[i].op.FetchAdd?
    {
      LoggedWasInvoked(v, n, acts, i);
    }
    ValueOfAdditions(v, e.log);
  }

  /** The same calls, in any order and by any threads. */
  ghost predicate SameCalls(acts: seq<Action>, bcts: seq<Action>) {
    forall op :: Invoked(acts, op) == Invoked(bcts, op)
  }

  /** Two runs that make the same additions, in any order, by any number of threads, on any schedules,
      end with the same contents. */
  lemma AdditionsIndependentOfSchedule(v: Word, n: nat, acts: seq<Action>, m: nat, bcts: seq<Action>)
    requires ValidRun(Init(v, n), acts) && Quiescent(Exec(Init(v, n), acts))
    requires ValidRun(Init(v, m), bcts) && Quiescent(Exec(Init(v, m), bcts))
    requires SameCalls(acts, bcts) && AllAdds(acts)
    ensures Exec(Init(v, n), acts).cell == Exec(Init(v, m), bcts).cell
  {
    var a, b := Exec(Init(v, n), acts), Exec(Init(v, m), bcts);
    forall op
      ensures Logged(a.log, op) == Logged(b.log, op)
    {
      EveryCallTakesEffectOnce(v, n, acts, op);
      EveryCallTakesEffectOnce(v, m, bcts, op);
      assert Invoked(acts, op) == Invoked(bcts, op);
    }
    forall op | Invoked(bcts, op) > 0
      ensures op.FetchAdd?
    {
      assert Invoked(acts, op) > 0;
    }
    AdditionsConserved(v, n, acts);
    AdditionsConserved(v, m, bcts);
    SumOfPermutation(a.log, b.log);
  }

  /* ---------- or and and ---------- */

  /** Bit k is asked for by some or-mask. */
  ghost predicate SomeMaskHas(log: seq<Entry>, k: nat) {
    exists i :: 0 <= i < |log| && log[i].op.FetchOr? && Bit(log[i].op.mask, k)
  }

  lemma {:induction false} ValueOfOrs(v: Word, log: seq<Entry>, k: nat)
    requires forall i :: 0 <= i < |log| ==> log[i].op.FetchOr?
    ensures Bit(ValueAt(v, log), k) <==> Bit(v, k) || SomeMaskHas(log, k)
    decreases |log|
  {
    if log != [] {
      var rest := log[..|log| - 1];
      ValueOfOrs(v, rest, k);
      OrBit(ValueAt(v, rest), log[|log| - 1].op.mask, k);
    }
  }

  /** Bit k survives every and-mask. */
  ghost predicate EveryMaskHas(log: seq<Entry>, k: nat) {
    forall i :: 0 <= i < |log| ==> log[i].op.FetchAnd? && Bit(log[i].op.mask, k)
  }

  lemma {:induction false} ValueOfAnds(v: Word, log: seq<Entry>, k: nat)
    requires forall i :: 0 <= i < |log| ==> log[i].op.FetchAnd?
    ensures Bit(ValueAt(v, log), k) <==> Bit(v, k) && EveryMaskHas(log, k)
    decreases |log|
  {
    if log != [] {
      var rest := log[..|log| - 1];
      ValueOfAnds(v, rest, k);
      AndBit(ValueAt(v, rest), log[|log| - 1].op.mask, k);
    }
  }

  ghost predicate AllOrs(acts: seq<Action>) {
    forall op :: Invoked(acts, op) > 0 ==> op.FetchOr?
  }

  ghost predicate AllAnds(acts: seq<Action>) {
    forall op :: Invoked(acts, op) > 0 ==> op.FetchAnd?
  }

  lemma LoggedAreOrs(v: Word, n: nat, acts: seq<Action>)
    requires ValidRun(Init(v, n), acts) && AllOrs(acts)
    ensures var e := Exec(Init(v, n), acts);
            && Inv(e) && e.initial == v && forall i :: 0 <= i < |e.log| ==> e.log[i].op.FetchOr?
  {
    var e := Exec(Init(v, n), acts);
    CellIsValueOfLog(v, n, acts);
    forall i | 0 <= i < |e.log|
      ensures e.log[i].op.FetchOr?
    {
      LoggedWasInvoked(v, n, acts, i);
    }
  }

  /** Concurrent or-s: once every call has returned, the set bits are the initial ones and those of all
      masks, whatever the schedule. */
  lemma OrsIndependentOfSchedule(v: Word, n: nat, acts: seq<Action>, k: nat)
    requires ValidRun(Init(v, n), acts) && AllOrs(acts) && Quiescent(Exec(Init(v, n), acts))
    ensures Bit(Exec(Init(v, n), acts).cell, k) <==>
            Bit(v, k) || exists op :: Invoked(acts, op) > 0 && op.FetchOr? && Bit(op.mask, k)
  {
    var e := Exec(Init(v, n), acts);
    LoggedAreOrs(v, n, acts);
    ValueOfOrs(v, e.log, k);
    if SomeMaskHas(e.log, k) {
      var i :| 0 <= i < |e.log| && Bit(e.log[i].op.mask, k);
      LoggedWasInvoked(v, n, acts, i);
    }
    if op :| Invoked(acts, op) > 0 && op.FetchOr? && Bit(op.mask, k) {
      EveryCallTakesEffectOnce(v, n, acts, op);
      var i := LoggedHasEntry(e.log, op);
    }
  }

  /** Concurrent and-s: the bits left are the initial ones that every mask keeps. */
  lemma AndsIndependentOfSchedule(v: Word, n: nat, acts: seq<Action>, k: nat)
    requires ValidRun(Init(v, n), acts) && AllAnds(acts) && Quiescent(Exec(Init(v, n), acts))
    ensures Bit(Exec(Init(v, n), acts).cell, k) <==>
            Bit(v, k) && forall op :: Invoked(acts, op) > 0 ==> op.FetchAnd? && Bit(op.mask, k)
  {
    var e := Exec(Init(v, n), acts);
    CellIsValueOfLog(v, n, acts);
    forall i | 0 <= i < |e.log|
      ensures e.log[i].op.FetchAnd? && Invoked(acts, e.log[i].op) > 0
    {
      LoggedWasInvoked(v, n, acts, i);
    }
    ValueOfAnds(v, e.log, k);
    if EveryMaskHas(e.log, k) {
      forall op | Invoked(acts, op) > 0
        ensures op.FetchAnd? && Bit(op.mask, k)
      {
        EveryCallTakesEffectOnce(v, n, acts, op);
        var i := LoggedHasEntry(e.log, op);
      }
    }
  }

  lemma SameCallsSameOps(acts: seq<Action>, bcts: seq<Action>)
    requires SameCalls(acts, bcts)
    ensures forall op :: Invoked(acts, op) > 0 <==> Invoked(bcts, op) > 0
  {
    forall op
      ensures Invoked(acts, op) > 0 <==> Invoked(bcts, op) > 0
    {
      assert Invoked(acts, op) == Invoked(bcts, op);
    }
  }

  /** Two runs that make the same or-s, in any order, by any number of threads, on any schedules, end
      with the same contents. */
  lemma OrsGiveSameContents(v: Word, n: nat, acts: seq<Action>, m: nat, bcts: seq<Action>)
    requires ValidRun(Init(v, n), acts) && Quiescent(Exec(Init(v, n), acts))
    requires ValidRun(Init(v, m), bcts) && Quiescent(Exec(Init(v, m), bcts))
    requires SameCalls(acts, bcts) && AllOrs(acts)
    ensures Exec(Init(v, n), acts).cell == Exec(Init(v, m), bcts).cell
  {
    SameCallsSameOps(acts, bcts);
    var a, b := Exec(Init(v, n), acts).cell, Exec(Init(v, m), bcts).cell;
    forall k: nat
      ensures Bit(a, k) == Bit(b, k)
    {
      OrsIndependentOfSchedule(v, n, acts, k);
      OrsIndependentOfSchedule(v, m, bcts, k);
    }
    BitsDetermine(a, b);
  }

  /** The same for and-s. */
  lemma AndsGiveSameContents(v: Word, n: nat, acts: seq<Action>, m: nat, bcts: seq<Action>)
    requires ValidRun(Init(v, n), acts) && Quiescent(Exec(Init(v, n), acts))
    requires ValidRun(Init(v, m), bcts) && Quiescent(Exec(Init(v, m), bcts))
    requires SameCalls(acts, bcts) && AllAnds(acts)
    ensures Exec(Init(v, n), acts).cell == Exec(Init(v, m), bcts).cell
  {
    SameCallsSameOps(acts, bcts);
    var a, b := Exec(Init(v, n), acts).cell, Exec(Init(v, m), bcts).cell;
    forall k: nat
      ensures Bit(a, k) == Bit(b, k)
    {
      AndsIndependentOfSchedule(v, n, acts, k);
      AndsIndependentOfSchedule(v, m, bcts, k);
    }
    BitsDetermine(a, b);
  }

  /** A bit that is set stays set for the rest of a run of or-s: a state reached by a run, and any
      state reached from it by more steps. */
  lemma SetBitsNeverRevert(v: Word, n: nat, acts: seq<Action>, more: seq<Action>, k: nat)
    requires ValidRun(Init(v, n), acts) && ValidRun(Exec(Init(v, n), acts), more)
    requires AllOrs(acts) && AllOrs(more)
    ensures Bit(Exec(Init(v, n), acts).cell, k) ==> Bit(Exec(Exec(Init(v, n), acts), more).cell, k)
  {
    var a, b := Exec(Init(v, n), acts), Exec(Exec(Init(v, n), acts), more);
    RunConcat(Init(v, n), acts, more);
    forall op | Invoked(acts + more, op) > 0
      ensures op.FetchOr?
    {
      InvokedConcat(acts, more, op);
    }
    LoggedAreOrs(v, n, acts);
    LoggedAreOrs(v, n, acts + more);
    LogGrows(a, more);
    ValueOfOrs(v, a.log, k);
    ValueOfOrs(v, b.log, k);
    if SomeMaskHas(a.log, k) {
      var i :| 0 <= i < |a.log| && Bit(a.log[i].op.mask, k);
      assert b.log[i] == a.log[i];
    }
  }

  lemma {:induction false} InvokedConcat(acts: seq<Action>, more: seq<Action>, op: Op)
    ensures Invoked(acts + more, op) == Invoked(acts, op) + Invoked(more, op)
    decreases |acts|
  {
    if acts == [] {
      assert acts + more == more;
    } else {
      assert (acts + more)[1..] == acts[1..] + more;
      InvokedConcat(acts[1..], more, op);
    }
  }

  lemma {:induction false} LogGrows(s: State, acts: seq<Action>)
    requires ValidRun(s, acts)
    ensures s.log <= Exec(s, acts).log
    decreases |acts|
  {
    if acts != [] {
      LogGrows(Step(s, acts[0]), acts[1..]);
    }
  }

  /** The call's mask has bit k, and its result shows the bit clear. */
  ghost predicate FirstToSet(e: Entry, k: nat) {
    e.op.FetchOr? && Bit(e.op.mask, k) && !Bit(e.ret, k)
  }

  /** Of the calls that set an initially clear bit, exactly one is told that it was clear. */
  lemma ExactlyOneFirstSetter(v: Word, n: nat, acts: seq<Action>, k: nat)
    requires ValidRun(Init(v, n), acts) && AllOrs(acts) && !Bit(v, k)
    ensures var log := Exec(Init(v, n), acts).log;
            && (SomeMaskHas(log, k) <==> exists i :: 0 <= i < |log| && FirstToSet(log[i], k))
            && (forall i, j :: 0 <= i < |log| && 0 <= j < |log| && FirstToSet(log[i], k) && FirstToSet(log[j], k) ==> i == j)
  {
    var e := Exec(Init(v, n), acts);
    LoggedAreOrs(v, n, acts);
    forall i | 0 <= i < |e.log|
      ensures FirstToSet(e.log[i], k) <==> Bit(e.log[i].op.mask, k) && !SomeMaskHas(e.log[..i], k)
    {
      assert LegalEntry(v, e.log, |e.threads|, i);
      ValueOfOrs(v, e.log[..i], k);
    }
    forall i, j | 0 <= i < j < |e.log| && FirstToSet(e.log[i], k)
      ensures !FirstToSet(e.log[j], k)
    {
      assert e.log[..j][i] == e.log[i];
    }
    if SomeMaskHas(e.log, k) {
      var i := LeastWithMask(e.log, k);
      assert FirstToSet(e.log[i], k);
    }
  }

  lemma {:induction false} LeastWithMask(log: seq<Entry>, k: nat) returns (i: nat)
    requires SomeMaskHas(log, k)
    ensures i < |log| && log[i].op.FetchOr? && Bit(log[i].op.mask, k) && !SomeMaskHas(log[..i], k)
    decreases |log|
  {
    var rest := log[..|log| - 1];
    if SomeMaskHas(rest, k) {
      i := LeastWithMask(rest, k);
      assert log[..i] == rest[..i];
    } else {
      i := |log| - 1;
    }
  }
}

/** Concurrent calls on one shared 32-bit cell. Each retry loop is a load step and a compare-and-swap
    step of its own, and the steps of any number of threads interleave freely. The log of linearised
    calls and the counters of a thread are history variables: no step depends on them. */
module Atomics {
  import opened Words

  datatype Op =
    | FetchAdd(increment: int)
    | FetchAnd(mask: Word)
    | FetchOr(mask: Word)
    | CompareAndSet(expected: Word, replacement: Word)
    | Write(value: Word)
    | Read

  /** The operations that are written as a load and compare-and-swap loop. */
  predicate IsLoop(op: Op) {
    op.FetchAdd? || op.FetchAnd? || op.FetchOr?
  }

  /** The value a loop computes from the value it has loaded. */
  function NewValue(op: Op, prev: Word): Word
    requires IsLoop(op)
  {
    match op
    case FetchAdd(increment) => WrappingAdd(prev, increment)
    case FetchAnd(mask) => And(prev, mask)
    case FetchOr(mask) => Or(prev, mask)
  }

  /** `__sync_val_compare_and_swap`: the new cell contents, and the contents seen. */
  function SyncCas(cell: Word, expected: Word, replacement: Word): (Word, Word) {
    (if cell == expected then replacement else cell, cell)
  }

  /** The status of `android_atomic_cas`, zero on success. */
  function CasStatus(seen: Word, expected: Word): Word {
    if seen != expected then 1 else 0
  }

  /** What a call does when it is one indivisible step: the new contents, and the result. */
  function Atomically(op: Op, v: Word): (Word, Word) {
    match op
    case FetchAdd(increment) => (WrappingAdd(v, increment), v)
    case FetchAnd(mask) => (And(v, mask), v)
    case FetchOr(mask) => (Or(v, mask), v)
    case CompareAndSet(expected, replacement) => if v == expected then (replacement, 0) else (v, 1)
    case Write(value) => (value, 0)
    case Read => (v, v)
  }

  /* ---------- the machine ---------- */

  /** A linearised call: who, what, the contents just before, and the result. */
  datatype Entry = Entry(thread: nat, op: Op, before: Word, ret: Word)

  /** `since`, `seen` and `at` are log positions: of the invocation, of the last load, of the call's
      own entry. */
  datatype Pc =
    | Idle
    | Called(op: Op, since: nat)
    | Loaded(op: Op, since: nat, prev: Word, seen: nat)
    | Returning(op: Op, since: nat, ret: Word, at: nat)

  /** `fails` counts failed compare-and-swaps; `mark` is the log position of the last one. */
  datatype Thread = Thread(pc: Pc, fails: nat, mark: nat)

  datatype State = State(initial: Word, cell: Word, threads: seq<Thread>, log: seq<Entry>)

  datatype Action =
    | Invoke(t: nat, op: Op)
    | LoadPrev(t: nat)
    | TryCas(t: nat)
    | Single(t: nat)
    | Respond(t: nat)

  function Init(v: Word, n: nat): State {
    State(v, v, seq(n, _ => Thread(Idle, 0, 0)), [])
  }

  predicate Enabled(s: State, a: Action) {
    && a.t < |s.threads|
    && var pc := s.threads[a.t].pc;
       match a
       case Invoke(_, _) => pc.Idle?
       case LoadPrev(_) => pc.Called? && IsLoop(pc.op)
       case TryCas(_) => pc.Loaded? && IsLoop(pc.op)
       case Single(_) => pc.Called? && !IsLoop(pc.op)
       case Respond(_) => pc.Returning?
  }

  function SetPc(s: State, t: nat, pc: Pc): State
    requires t < |s.threads|
  {
    s.(threads := s.threads[t := s.threads[t].(pc := pc)])
  }

  /** Linearise the pending call of t with the given effect and result. */
  function Commit(s: State, t: nat, cell: Word, ret: Word): State
    requires t < |s.threads| && (s.threads[t].pc.Called? || s.threads[t].pc.Loaded?)
  {
    var pc := s.threads[t].pc;
    SetPc(s, t, Returning(pc.op, pc.since, ret, |s.log|))
    .(cell := cell, log := s.log + [Entry(t, pc.op, s.cell, ret)])
  }

  function Step(s: State, a: Action): State
    requires Enabled(s, a)
  {
    var th := s.threads[a.t];
    match a
    case Invoke(t, op) => SetPc(s, t, Called(op, |s.log|))
    case LoadPrev(t) => SetPc(s, t, Loaded(th.pc.op, th.pc.since, s.cell, |s.log|))
    case TryCas(t) =>
      var prev := th.pc.prev;
      var (cell, seen) := SyncCas(s.cell, prev, NewValue(th.pc.op, prev));
      if CasStatus(seen, prev) == 0 then Commit(s, t, cell, prev)
      else s.(cell := cell,
              threads := s.threads[t := Thread(Called(th.pc.op, th.pc.since), th.fails + 1, |s.log|)])
    case Single(t) =>
      (match th.pc.op
       case CompareAndSet(expected, replacement) =>
         var (cell, seen) := SyncCas(s.cell, expected, replacement);
         Commit(s, t, cell, CasStatus(seen, expected))
       case Write(value) => Commit(s, t, value, 0)
       case _ => Commit(s, t, s.cell, s.cell))
    case Respond(t) => SetPc(s, t, Idle)
  }

  predicate ValidRun(s: State, acts: seq<Action>)
    decreases |acts|
  {
    acts == [] || (Enabled(s, acts[0]) && ValidRun(Step(s, acts[0]), acts[1..]))
  }

  function Exec(s: State, acts: seq<Action>): State
    requires ValidRun(s, acts)
    decreases |acts|
  {
    if acts == [] then s else Exec(Step(s, acts[0]), acts[1..])
  }

  predicate Quiescent(s: State) {
    forall t :: 0 <= t < |s.threads| ==> s.threads[t].pc.Idle?
  }

  /* ---------- the invariant ---------- */

  /** The contents after a log of linearised calls. */
  function ValueAt(initial: Word, log: seq<Entry>): Word {
    if log == [] then initial
    else Atomically(log[|log| - 1].op, ValueAt(initial, log[..|log| - 1])).0
  }

  function Own(log: seq<Entry>, t: nat): nat {
    if log == [] then 0 else Own(log[..|log| - 1], t) + (if log[|log| - 1].thread == t then 1 else 0)
  }

  function Others(log: seq<Entry>, t: nat): nat {
    if log == [] then 0 else Others(log[..|log| - 1], t) + (if log[|log| - 1].thread != t then 1 else 0)
  }

  /** The call changed the contents: it is neither a look at the cell, nor a failed conditional write,
      nor a write of what was there. */
  predicate IsWrite(e: Entry) {
    Atomically(e.op, e.before).0 != e.before
  }

  /** The entries of a log that changed the contents. */
  function Writes(log: seq<Entry>): seq<Entry> {
    if log == [] then []
    else Writes(log[..|log| - 1]) + (if IsWrite(log[|log| - 1]) then [log[|log| - 1]] else [])
  }

  /** The writes of threads other than t. */
  function OtherWrites(log: seq<Entry>, t: nat): nat {
    Others(Writes(log), t)
  }

  /** Every entry saw the contents left by the entries before it, and returned what the indivisible
      operation returns on them. */
  ghost predicate LegalEntry(initial: Word, log: seq<Entry>, n: nat, i: nat)
    requires i < |log|
  {
    && log[i].thread < n
    && log[i].before == ValueAt(initial, log[..i])
    && log[i].ret == Atomically(log[i].op, log[i].before).1
  }

  ghost predicate LegalLog(initial: Word, log: seq<Entry>, n: nat) {
    forall i :: 0 <= i < |log| ==> LegalEntry(initial, log, n, i)
  }

  ghost predicate ThreadInv(initial: Word, log: seq<Entry>, t: nat, th: Thread) {
    && th.mark <= |log| && th.fails <= OtherWrites(log[..th.mark], t)
    && match th.pc
       case Idle => true
       case Called(op, since) =>
         since <= |log| && Own(log, t) == Own(log[..since], t)
       case Loaded(op, since, prev, seen) =>
         && IsLoop(op) && since <= seen <= |log| && th.mark <= seen
         && Own(log, t) == Own(log[..since], t)
         && prev == ValueAt(initial, log[..seen])
       case Returning(op, since, ret, at) =>
         && since <= at < |log| && Own(log, t) == Own(log[..since], t) + 1
         && log[at].thread == t && log[at].op == op && log[at].ret == ret
  }

  ghost predicate Inv(s: State) {
    && s.cell == ValueAt(s.initial, s.log)
    && LegalLog(s.initial, s.log, |s.threads|)
    && forall t {:trigger ThreadInv(s.initial, s.log, t, s.threads[t])} ::
         0 <= t < |s.threads| ==> ThreadInv(s.initial, s.log, t, s.threads[t])
  }

  lemma OwnAndOthers(log: seq<Entry>, t: nat)
    ensures Own(log, t) + Others(log, t) == |log|
  {
    if log != [] {
      OwnAndOthers(log[..|log| - 1], t);
    }
  }

  lemma {:induction false} OwnGrows(log: seq<Entry>, m: nat, t: nat)
    requires m <= |log|
    ensures Own(log[..m], t) <= Own(log, t)
    decreases |log|
  {
    if m < |log| {
      OwnGrows(log[..|log| - 1], m, t);
      assert log[..|log| - 1][..m] == log[..m];
    } else {
      assert log[..m] == log;
    }
  }

  lemma OthersAppend(log: seq<Entry>, e: Entry, t: nat)
    ensures Others(log + [e], t) == Others(log, t) + (if e.thread != t then 1 else 0)
  {
    assert (log + [e])[..|log|] == log;
  }

  /** The last entry of a log counts when it is another thread's write. */
  lemma OtherWritesStep(log: seq<Entry>, t: nat)
    requires log != []
    ensures var last := log[|log| - 1];
            OtherWrites(log, t) ==
            OtherWrites(log[..|log| - 1], t) + (if IsWrite(last) && last.thread != t then 1 else 0)
  {
    var before := Writes(log[..|log| - 1]);
    OthersAppend(before, log[|log| - 1], t);
    assert before + [] == before;
  }

  lemma {:induction false} OtherWritesGrow(log: seq<Entry>, m: nat, t: nat)
    requires m <= |log|
    ensures OtherWrites(log[..m], t) <= OtherWrites(log, t)
    decreases |log|
  {
    if m < |log| {
      OtherWritesGrow(log[..|log| - 1], m, t);
      assert log[..|log| - 1][..m] == log[..m];
      OtherWritesStep(log, t);
    } else {
      assert log[..m] == log;
    }
  }

  /** Another thread's write at or after m adds to the count. */
  lemma {:induction false} OtherWriteCounts(log: seq<Entry>, m: nat, i: nat, t: nat)
    requires m <= i < |log| && log[i].thread != t && IsWrite(log[i])
    ensures OtherWrites(log[..m], t) < OtherWrites(log, t)
    decreases |log|
  {
    var rest := log[..|log| - 1];
    assert rest[..m] == log[..m];
    OtherWritesStep(log, t);
    if i < |rest| {
      OtherWriteCounts(rest, m, i, t);
    } else {
      OtherWritesGrow(rest, m, t);
    }
  }

  /** A pending call has no entry of its own since its invocation. */
  lemma {:induction false} NoOwnEntrySince(log: seq<Entry>, since: nat, t: nat, i: nat)
    requires since <= i < |log| && Own(log, t) == Own(log[..since], t)
    ensures log[i].thread != t
    decreases |log|
  {
    var rest := log[..|log| - 1];
    OwnGrows(rest, since, t);
    assert rest[..since] == log[..since];
    if i < |log| - 1 {
      NoOwnEntrySince(rest, since, t, i);
    }
  }

  /** The contents differ only if some entry in between changed them. */
  lemma {:induction false} ChangeHasWriter(initial: Word, log: seq<Entry>, n: nat, seen: nat) returns (i: nat)
    requires LegalLog(initial, log, n) && seen <= |log|
    requires ValueAt(initial, log[..seen]) != ValueAt(initial, log)
    ensures seen <= i < |log| && IsWrite(log[i])
    decreases |log|
  {
    assert log[..|log|] == log;
    var rest := log[..|log| - 1];
    assert LegalEntry(initial, log, n, |log| - 1);
    if ValueAt(initial, rest) != ValueAt(initial, log) {
      i := |log| - 1;
    } else {
      assert rest[..seen] == log[..seen];
      forall j | 0 <= j < |rest|
        ensures LegalEntry(initial, rest, n, j)
      {
        assert LegalEntry(initial, log, n, j) && rest[..j] == log[..j];
      }
      i := ChangeHasWriter(initial, rest, n, seen);
    }
  }

  /** A compare-and-swap of a loop fails only if, since this thread's load, another thread's call has
      changed the cell. */
  lemma FailedCasHasWriter(s: State, t: nat) returns (i: nat)
    requires Inv(s) && t < |s.threads| && s.threads[t].pc.Loaded? && s.cell != s.threads[t].pc.prev
    ensures s.threads[t].pc.seen <= i < |s.log| && s.log[i].thread != t && IsWrite(s.log[i])
  {
    var pc := s.threads[t].pc;
    assert ThreadInv(s.initial, s.log, t, s.threads[t]);
    i := ChangeHasWriter(s.initial, s.log, |s.threads|, pc.seen);
    NoOwnEntrySince(s.log, pc.since, t, i);
  }

  lemma InitInv(v: Word, n: nat)
    ensures Inv(Init(v, n))
  {
  }

  /** Another thread's entry disturbs nothing that a thread relies on. */
  lemma ThreadInvSurvives(initial: Word, log: seq<Entry>, e: Entry, t: nat, th: Thread)
    requires ThreadInv(initial, log, t, th) && e.thread != t
    ensures ThreadInv(initial, log + [e], t, th)
  {
    var more := log + [e];
    assert more[..|more| - 1] == log;
    assert forall m :: 0 <= m <= |log| ==> more[..m] == log[..m];
  }

  lemma LegalLogExtends(initial: Word, log: seq<Entry>, n: nat, e: Entry)
    requires LegalLog(initial, log, n) && e.thread < n
    requires e.before == ValueAt(initial, log) && e.ret == Atomically(e.op, e.before).1
    ensures LegalLog(initial, log + [e], n)
    ensures ValueAt(initial, log + [e]) == Atomically(e.op, e.before).0
  {
    var more := log + [e];
    assert more[..|log|] == log;
    forall i | 0 <= i < |more|
      ensures LegalEntry(initial, more, n, i)
    {
      if i < |log| {
        assert LegalEntry(initial, log, n, i) && more[..i] == log[..i];
      }
    }
  }

  /** The acting thread's own entry. */
  lemma CommitKeepsActor(s: State, t: nat, cell: Word, ret: Word)
    requires Inv(s) && t < |s.threads| && (s.threads[t].pc.Called? || s.threads[t].pc.Loaded?)
    ensures var s' := Commit(s, t, cell, ret); ThreadInv(s.initial, s'.log, t, s'.threads[t])
  {
    var th, s' := s.threads[t], Commit(s, t, cell, ret);
    assert ThreadInv(s.initial, s.log, t, th);
    assert s'.log[..|s.log|] == s.log;
    assert s'.log[..th.mark] == s.log[..th.mark] && s'.log[..th.pc.since] == s.log[..th.pc.since];
  }

  /** Linearising keeps the invariant when effect and result are those of the indivisible operation. */
  lemma CommitKeepsInv(s: State, t: nat, cell: Word, ret: Word)
    requires Inv(s) && t < |s.threads| && (s.threads[t].pc.Called? || s.threads[t].pc.Loaded?)
    requires (cell, ret) == Atomically(s.threads[t].pc.op, s.cell)
    ensures Inv(Commit(s, t, cell, ret))
  {
    var e := Entry(t, s.threads[t].pc.op, s.cell, ret);
    var s' := Commit(s, t, cell, ret);
    LegalLogExtends(s.initial, s.log, |s.threads|, e);
    CommitKeepsActor(s, t, cell, ret);
    forall u | 0 <= u < |s'.threads| && u != t
      ensures ThreadInv(s.initial, s'.log, u, s'.threads[u])
    {
      assert ThreadInv(s.initial, s.log, u, s.threads[u]);
      ThreadInvSurvives(s.initial, s.log, e, u, s.threads[u]);
    }
  }

  /** Replacing one thread's record, with cell and log as they are. */
  lemma ThreadKeepsInv(s: State, t: nat, th: Thread)
    requires Inv(s) && t < |s.threads| && ThreadInv(s.initial, s.log, t, th)
    ensures Inv(s.(threads := s.threads[t := th]))
  {
    var s' := s.(threads := s.threads[t := th]);
    forall u | 0 <= u < |s'.threads|
      ensures ThreadInv(s.initial, s.log, u, s'.threads[u])
    {
      assert ThreadInv(s.initial, s.log, u, s.threads[u]);
    }
  }

  lemma InvokeKeepsInv(s: State, t: nat, op: Op)
    requires Inv(s) && Enabled(s, Invoke(t, op))
    ensures Inv(Step(s, Invoke(t, op)))
  {
    assert ThreadInv(s.initial, s.log, t, s.threads[t]);
    assert s.log[..|s.log|] == s.log;
    ThreadKeepsInv(s, t, s.threads[t].(pc := Called(op, |s.log|)));
  }

  lemma LoadKeepsInv(s: State, t: nat)
    requires Inv(s) && Enabled(s, LoadPrev(t))
    ensures Inv(Step(s, LoadPrev(t)))
  {
    var th := s.threads[t];
    assert ThreadInv(s.initial, s.log, t, th);
    assert s.log[..|s.log|] == s.log;
    ThreadKeepsInv(s, t, th.(pc := Loaded(th.pc.op, th.pc.since, s.cell, |s.log|)));
  }

  lemma RespondKeepsInv(s: State, t: nat)
    requires Inv(s) && Enabled(s, Respond(t))
    ensures Inv(Step(s, Respond(t)))
  {
    assert ThreadInv(s.initial, s.log, t, s.threads[t]);
    ThreadKeepsInv(s, t, s.threads[t].(pc := Idle));
  }

  /** A failed compare-and-swap is covered by a write of another thread since the last failure. */
  lemma FailurePaid(s: State, t: nat)
    requires Inv(s) && Enabled(s, TryCas(t)) && s.cell != s.threads[t].pc.prev
    ensures s.threads[t].fails + 1 <= OtherWrites(s.log, t)
  {
    var th := s.threads[t];
    assert ThreadInv(s.initial, s.log, t, th);
    var i := FailedCasHasWriter(s, t);
    assert s.log[..th.pc.seen][..th.mark] == s.log[..th.mark];
    OtherWritesGrow(s.log[..th.pc.seen], th.mark, t);
    OtherWriteCounts(s.log, th.pc.seen, i, t);
  }

  lemma TryCasKeepsInv(s: State, t: nat)
    requires Inv(s) && Enabled(s, TryCas(t))
    ensures Inv(Step(s, TryCas(t)))
  {
    var th := s.threads[t];
    if s.cell == th.pc.prev {
      CommitKeepsInv(s, t, NewValue(th.pc.op, th.pc.prev), th.pc.prev);
    } else {
      assert ThreadInv(s.initial, s.log, t, th);
      assert s.log[..|s.log|] == s.log;
      FailurePaid(s, t);
      ThreadKeepsInv(s, t, Thread(Called(th.pc.op, th.pc.since), th.fails + 1, |s.log|));
    }
  }

  lemma SingleKeepsInv(s: State, t: nat)
    requires Inv(s) && Enabled(s, Single(t))
    ensures Inv(Step(s, Single(t)))
  {
    var (cell, ret) := Atomically(s.threads[t].pc.op, s.cell);
    CommitKeepsInv(s, t, cell, ret);
  }

  lemma StepKeepsInv(s: State, a: Action)
    requires Inv(s) && Enabled(s, a)
    ensures Inv(Step(s, a))
  {
    match a
    case Invoke(t, op) => InvokeKeepsInv(s, t, op);
    case LoadPrev(t) => LoadKeepsInv(s, t);
    case TryCas(t) => TryCasKeepsInv(s, t);
    case Single(t) => SingleKeepsInv(s, t);
    case Respond(t) => RespondKeepsInv(s, t);
  }

  lemma {:induction false} RunKeepsInv(s: State, acts: seq<Action>)
    requires Inv(s) && ValidRun(s, acts)
    ensures Inv(Exec(s, acts))
    decreases |acts|
  {
    if acts != [] {
      StepKeepsInv(s, acts[0]);
      RunKeepsInv(Step(s, acts[0]), acts[1..]);
    }
  }
}

/** The retry loop as code: one thread's call in the middle of arbitrary interference by the others.
    The interference is an input: bursts of steps that the other threads take before each of this
    thread's accesses to the cell, and before it returns. A step that its thread cannot take is
    skipped. */
module AtomicLoop {
  import opened Words
  import opened Atomics
  import opened AtomicRefinement

  ghost predicate ByOthers(acts: seq<Action>, t: nat) {
    forall i :: 0 <= i < |acts| ==> acts[i].t != t
  }

  lemma RunOneMore(s: State, acts: seq<Action>, a: Action)
    requires ValidRun(s, acts) && Enabled(Exec(s, acts), a)
    ensures ValidRun(s, acts + [a]) && Exec(s, acts + [a]) == Step(Exec(s, acts), a)
  {
    SingleStepRun(Exec(s, acts), a);
    RunConcat(s, acts, [a]);
  }

  /** While the log grew from `before` to `log`, thread t made this one call: its entry is at `at`,
      and its result is the contents there. */
  ghost predicate OneCall(before: seq<Entry>, log: seq<Entry>, t: nat, op: Op, prev: Word, at: nat) {
    && before <= log && |before| <= at < |log| && log[at] == Entry(t, op, prev, prev)
    && forall i :: |before| <= i < |log| && i != at ==> log[i].thread != t
  }

  /** What the invariant says about a loop call that is about to return. */
  lemma CallOutcome(s: State, t: nat)
    requires Inv(s) && t < |s.threads| && s.threads[t].pc.Returning? && IsLoop(s.threads[t].pc.op)
    ensures var pc := s.threads[t].pc;
            pc.since <= |s.log| && OneCall(s.log[..pc.since], s.log, t, pc.op, pc.ret, pc.at)
  {
    var pc := s.threads[t].pc;
    assert ThreadInv(s.initial, s.log, t, s.threads[t]);
    assert LegalEntry(s.initial, s.log, |s.threads|, pc.at);
    forall i | pc.since <= i < |s.log| && i != pc.at
      ensures s.log[i].thread != t
    {
      OneOwnEntry(s.log, pc.since, t, pc.at, i);
    }
  }

  /** A longer log has at least the writes of a shorter one, and more after another thread's write. */
  lemma WritesOfLongerLog(before: seq<Entry>, log: seq<Entry>, t: nat)
    requires before <= log
    ensures OtherWrites(before, t) <= OtherWrites(log, t)
    ensures forall i :: |before| <= i < |log| && log[i].thread != t && IsWrite(log[i]) ==>
              OtherWrites(before, t) < OtherWrites(log, t)
  {
    assert log[..|before|] == before;
    OtherWritesGrow(log, |before|, t);
    if i: nat :| |before| <= i < |log| && log[i].thread != t && IsWrite(log[i]) {
      OtherWriteCounts(log, |before|, i, t);
    }
  }

  /* ---------- schedules ---------- */

  /** The burst at index i of a list that goes on with empty bursts. */
  function Burst<T>(bursts: seq<seq<T>>, i: nat): seq<T> {
    if i < |bursts| then bursts[i] else []
  }

  /** One pass of the loop with the interference before each of its two accesses. */
  function PassRun(t: nat, before: seq<Action>, between: seq<Action>): seq<Action> {
    before + ([LoadPrev(t)] + (between + [TryCas(t)]))
  }

  /** The pass with index i, counted from zero. */
  function Pass(t: nat, bursts: seq<seq<Action>>, i: nat): seq<Action> {
    PassRun(t, Burst(bursts, 2 * i), Burst(bursts, 2 * i + 1))
  }

  /** A call with its first k passes. */
  function Passes(t: nat, op: Op, bursts: seq<seq<Action>>, k: nat): seq<Action> {
    if k == 0 then [Invoke(t, op)]
    else Passes(t, op, bursts, k - 1) + Pass(t, bursts, k - 1)
  }

  /** A whole call of k passes. */
  function CallRun(t: nat, op: Op, bursts: seq<seq<Action>>, k: nat, last: seq<Action>): seq<Action> {
    Passes(t, op, bursts, k) + (last + [Respond(t)])
  }

  /** `prev` is in the cell at the load of pass k. */
  ghost predicate LoadsInPass(s: State, t: nat, op: Op, bursts: seq<seq<Action>>, k: nat, prev: Word) {
    && k > 0
    && var run := Passes(t, op, bursts, k - 1) + Burst(bursts, 2 * (k - 1));
       ValidRun(s, run) && Exec(s, run).cell == prev
  }

  lemma {:induction false} RunSplit(s: State, acts: seq<Action>, more: seq<Action>)
    requires ValidRun(s, acts + more)
    ensures ValidRun(s, acts) && ValidRun(Exec(s, acts), more)
    ensures Exec(s, acts + more) == Exec(Exec(s, acts), more)
    decreases |acts|
  {
    if acts == [] {
      assert acts + more == more;
    } else {
      assert (acts + more)[1..] == acts[1..] + more;
      RunSplit(Step(s, acts[0]), acts[1..], more);
    }
  }

  lemma {:induction false} OthersKeepThread(s: State, acts: seq<Action>, t: nat)
    requires ValidRun(s, acts) && ByOthers(acts, t) && t < |s.threads|
    ensures |Exec(s, acts).threads| == |s.threads| && Exec(s, acts).threads[t] == s.threads[t]
    decreases |acts|
  {
    if acts != [] {
      assert acts[0].t != t;
      OthersKeepThread(Step(s, acts[0]), acts[1..], t);
    }
  }

  /** In a run whose next step by thread t is `a`, that step is enabled in t's present state. */
  lemma NextOwnStep(s: State, acts: seq<Action>, a: Action, more: seq<Action>, t: nat)
    requires t < |s.threads| && ByOthers(acts, t) && a.t == t && ValidRun(s, acts + ([a] + more))
    ensures ValidRun(s, acts) && Enabled(Exec(s, acts), a)
    ensures |Exec(s, acts).threads| == |s.threads| && Exec(s, acts).threads[t] == s.threads[t]
  {
    RunSplit(s, acts, [a] + more);
    OthersKeepThread(s, acts, t);
  }

  lemma PassThen(t: nat, before: seq<Action>, between: seq<Action>, more: seq<Action>)
    ensures PassRun(t, before, between) + more == before + ([LoadPrev(t)] + (between + ([TryCas(t)] + more)))
  {
  }

  lemma Regroup<T>(a: seq<T>, b: seq<T>, c: seq<T>)
    ensures (a + b) + c == a + (b + c)
  {
  }

  /** What follows the pass with index i in a call of more passes. */
  lemma {:induction false} ScheduleAhead(t: nat, op: Op, bursts: seq<seq<Action>>, i: nat, k: nat, end: seq<Action>)
    returns (more: seq<Action>)
    requires i < k
    ensures Passes(t, op, bursts, k) + end
            == Passes(t, op, bursts, i) + (Pass(t, bursts, i) + more)
    decreases k
  {
    var pass := Pass(t, bursts, k - 1);
    Regroup(Passes(t, op, bursts, k - 1), pass, end);
    if i == k - 1 {
      more := end;
    } else {
      more := ScheduleAhead(t, op, bursts, i, k - 1, pass + end);
    }
  }

  /** After i passes the run so far is that of every schedule that can be carried out. A call whose last
      compare-and-swap failed has further passes ahead, and one whose last one succeeded has none. */
  ghost predicate OnSchedule(start: State, t: nat, op: Op, bursts: seq<seq<Action>>, last: seq<Action>, i: nat,
                             open: bool, prev: Word, done: seq<Action>)
  {
    forall k: nat :: ValidRun(start, CallRun(t, op, bursts, k, last)) ==>
      && done == Passes(t, op, bursts, i)
      && (if open then i < k else i == k && LoadsInPass(start, t, op, bursts, k, prev))
  }

  /** The next pass of a schedule that can be carried out. */
  lemma PassAhead(start: State, t: nat, op: Op, bursts: seq<seq<Action>>, last: seq<Action>, i: nat, k: nat)
    returns (more: seq<Action>)
    requires i < k && ValidRun(start, CallRun(t, op, bursts, k, last))
    ensures ValidRun(start, Passes(t, op, bursts, i))
    ensures var s := Exec(start, Passes(t, op, bursts, i));
            var pass := Pass(t, bursts, i);
            ValidRun(s, pass) && ValidRun(s, pass + more)
  {
    var head := Passes(t, op, bursts, i);
    var pass := Pass(t, bursts, i);
    more := ScheduleAhead(t, op, bursts, i, k, last + [Respond(t)]);
    RunSplit(start, head, pass + more);
    RunSplit(Exec(start, head), pass, more);
  }

  /** Only a call that has taken effect returns. */
  lemma ReturnIsDue(s: State, last: seq<Action>, t: nat)
    requires t < |s.threads| && ByOthers(last, t) && ValidRun(s, last + [Respond(t)])
    ensures s.threads[t].pc.Returning?
  {
    assert [Respond(t)] == [Respond(t)] + [];
    NextOwnStep(s, last, Respond(t), [], t);
  }

  /** A call that has taken effect does not load again. */
  lemma LoadingIsCalled(s: State, before: seq<Action>, between: seq<Action>, more: seq<Action>, t: nat)
    requires t < |s.threads| && ByOthers(before, t) && ValidRun(s, PassRun(t, before, between) + more)
    ensures s.threads[t].pc.Called? && ValidRun(s, before)
  {
    PassThen(t, before, between, more);
    NextOwnStep(s, before, LoadPrev(t), between + ([TryCas(t)] + more), t);
  }

  lemma BurstByOthers(bursts: seq<seq<Action>>, i: nat, t: nat)
    requires forall j :: 0 <= j < |bursts| ==> ByOthers(bursts[j], t)
    ensures ByOthers(Burst(bursts, i), t)
  {
  }

  /** A call that has not taken effect after i passes has a further one ahead, and one that has is at
      its return. */
  lemma PassesAhead(start: State, t: nat, op: Op, bursts: seq<seq<Action>>, last: seq<Action>, i: nat, k: nat, s: State)
    requires i <= k && ValidRun(start, CallRun(t, op, bursts, k, last))
    requires ByOthers(last, t) && forall j :: 0 <= j < |bursts| ==> ByOthers(bursts[j], t)
    requires ValidRun(start, Passes(t, op, bursts, i)) && Exec(start, Passes(t, op, bursts, i)) == s
    requires t < |s.threads|
    ensures if s.threads[t].pc.Returning? then i == k else i < k
    ensures i == k ==> ValidRun(s, last) && ValidRun(s, last + [Respond(t)])
  {
    if i == k {
      RunSplit(start, Passes(t, op, bursts, k), last + [Respond(t)]);
      RunSplit(s, last, [Respond(t)]);
      ReturnIsDue(s, last, t);
    } else {
      BurstByOthers(bursts, 2 * i, t);
      var more := PassAhead(start, t, op, bursts, last, i, k);
      LoadingIsCalled(s, Burst(bursts, 2 * i), Burst(bursts, 2 * i + 1), more, t);
    }
  }

  lemma ScheduleBegins(start: State, t: nat, op: Op, bursts: seq<seq<Action>>, last: seq<Action>, prev: Word)
    requires ByOthers(last, t) && forall j :: 0 <= j < |bursts| ==> ByOthers(bursts[j], t)
    requires Enabled(start, Invoke(t, op))
    ensures OnSchedule(start, t, op, bursts, last, 0, true, prev, [Invoke(t, op)])
  {
    SingleStepRun(start, Invoke(t, op));
    forall k: nat | ValidRun(start, CallRun(t, op, bursts, k, last))
      ensures 0 < k
    {
      PassesAhead(start, t, op, bursts, last, 0, k, Step(start, Invoke(t, op)));
    }
  }

  /** From s, reached by `done`, the loop has made this pass to s', loading `prev`. */
  ghost predicate PassMade(s: State, done: seq<Action>, t: nat, before: seq<Action>, between: seq<Action>,
                           prev: Word, s': State, done': seq<Action>)
  {
    && (ValidRun(s, before) ==> prev == Exec(s, before).cell)
    && (ValidRun(s, PassRun(t, before, between)) ==>
          s' == Exec(s, PassRun(t, before, between)) && done' == done + PassRun(t, before, between))
  }

  lemma CellAfter(start: State, done: seq<Action>, s: State, before: seq<Action>)
    requires ValidRun(start, done) && Exec(start, done) == s && ValidRun(s, before)
    ensures ValidRun(start, done + before) && Exec(start, done + before).cell == Exec(s, before).cell
  {
    RunConcat(start, done, before);
  }

  lemma NextPass(t: nat, op: Op, bursts: seq<seq<Action>>, i: nat)
    ensures Passes(t, op, bursts, i + 1)
            == Passes(t, op, bursts, i) + Pass(t, bursts, i)
  {
  }

  lemma OnePass(start: State, t: nat, op: Op, bursts: seq<seq<Action>>, last: seq<Action>, i: nat, k: nat,
                s: State, prev: Word, s': State, done: seq<Action>, done': seq<Action>)
    requires ByOthers(last, t) && forall j :: 0 <= j < |bursts| ==> ByOthers(bursts[j], t)
    requires ValidRun(start, CallRun(t, op, bursts, k, last)) && i < k && done == Passes(t, op, bursts, i)
    requires ValidRun(start, done) && Exec(start, done) == s && t < |s.threads|
    requires PassMade(s, done, t, Burst(bursts, 2 * i), Burst(bursts, 2 * i + 1), prev, s', done')
    ensures done' == Passes(t, op, bursts, i + 1)
    ensures LoadsInPass(start, t, op, bursts, i + 1, prev)
  {
    var before, between := Burst(bursts, 2 * i), Burst(bursts, 2 * i + 1);
    BurstByOthers(bursts, 2 * i, t);
    NextPass(t, op, bursts, i);
    var more := PassAhead(start, t, op, bursts, last, i, k);
    LoadingIsCalled(s, before, between, more, t);
    CellAfter(start, done, s, before);
  }

  lemma SchedulePass(start: State, t: nat, op: Op, bursts: seq<seq<Action>>, last: seq<Action>, i: nat, prev0: Word,
                     s: State, prev: Word, s': State, done: seq<Action>, done': seq<Action>)
    requires ByOthers(last, t) && forall j :: 0 <= j < |bursts| ==> ByOthers(bursts[j], t)
    requires OnSchedule(start, t, op, bursts, last, i, true, prev0, done)
    requires ValidRun(start, done) && Exec(start, done) == s && t < |s.threads|
    requires PassMade(s, done, t, Burst(bursts, 2 * i), Burst(bursts, 2 * i + 1), prev, s', done')
    requires ValidRun(start, done') && Exec(start, done') == s' && t < |s'.threads|
    ensures OnSchedule(start, t, op, bursts, last, i + 1, !s'.threads[t].pc.Returning?, prev, done')
  {
    forall k: nat | ValidRun(start, CallRun(t, op, bursts, k, last))
      ensures done' == Passes(t, op, bursts, i + 1)
      ensures if s'.threads[t].pc.Returning? then i + 1 == k && LoadsInPass(start, t, op, bursts, k, prev) else i + 1 < k
    {
      OnePass(start, t, op, bursts, last, i, k, s, prev, s', done, done');
      PassesAhead(start, t, op, bursts, last, i + 1, k, s');
    }
  }

  /** The call was the schedule, for every schedule that can be carried out. */
  ghost predicate Scheduled(start: State, t: nat, op: Op, bursts: seq<seq<Action>>, last: seq<Action>, passes: nat,
                            prev: Word, done: seq<Action>)
  {
    forall k: nat :: ValidRun(start, CallRun(t, op, bursts, k, last)) ==>
      passes == k && done == CallRun(t, op, bursts, k, last) && LoadsInPass(start, t, op, bursts, k, prev)
  }

  lemma ScheduleEnds(start: State, t: nat, op: Op, bursts: seq<seq<Action>>, last: seq<Action>, i: nat, prev: Word,
                     s: State, done: seq<Action>, done': seq<Action>)
    requires ByOthers(last, t) && forall j :: 0 <= j < |bursts| ==> ByOthers(bursts[j], t)
    requires OnSchedule(start, t, op, bursts, last, i, false, prev, done)
    requires ValidRun(start, done) && Exec(start, done) == s && t < |s.threads|
    requires ValidRun(s, last) ==> done' == done + last
    ensures Scheduled(start, t, op, bursts, last, i, prev, done' + [Respond(t)])
  {
    forall k: nat | ValidRun(start, CallRun(t, op, bursts, k, last))
      ensures done' + [Respond(t)] == CallRun(t, op, bursts, k, last)
    {
      PassesAhead(start, t, op, bursts, last, k, k, s);
      Regroup(done, last, [Respond(t)]);
    }
  }

  /* ---------- schedules that can be carried out ---------- */

  /** A pass goes through whenever its two bursts do, and its compare-and-swap succeeds exactly when the
      second burst leaves the contents that were loaded. */
  lemma PassGoesThrough(s: State, t: nat, before: seq<Action>, between: seq<Action>, s1: State, loaded: State, s2: State)
    requires t < |s.threads| && s.threads[t].pc.Called? && IsLoop(s.threads[t].pc.op)
    requires ByOthers(before, t) && ValidRun(s, before) && s1 == Exec(s, before)
    requires Enabled(s1, LoadPrev(t)) ==> loaded == Step(s1, LoadPrev(t))
    requires ByOthers(between, t) && ValidRun(loaded, between) && s2 == Exec(loaded, between)
    ensures Enabled(s2, TryCas(t)) && ValidRun(s, PassRun(t, before, between))
    ensures Exec(s, PassRun(t, before, between)) == Step(s2, TryCas(t))
    ensures var pc := Step(s2, TryCas(t)).threads[t].pc;
            if s2.cell == s1.cell then pc.Returning? && Step(s2, TryCas(t)).cell == NewValue(s.threads[t].pc.op, s1.cell)
            else pc == s.threads[t].pc && Step(s2, TryCas(t)).cell == s2.cell
  {
    OthersKeepThread(s, before, t);
    OthersKeepThread(loaded, between, t);
    SingleStepRun(s2, TryCas(t));
    RunConcat(loaded, between, [TryCas(t)]);
    SingleStepRun(s1, LoadPrev(t));
    RunConcat(s1, [LoadPrev(t)], between + [TryCas(t)]);
    RunConcat(s, before, [LoadPrev(t)] + (between + [TryCas(t)]));
  }

  lemma ReturnGoesThrough(s: State, t: nat, op: Op, bursts: seq<seq<Action>>, k: nat)
    requires ValidRun(s, Passes(t, op, bursts, k))
    requires Enabled(Exec(s, Passes(t, op, bursts, k)), Respond(t))
    ensures ValidRun(s, CallRun(t, op, bursts, k, []))
    ensures Exec(s, CallRun(t, op, bursts, k, [])).cell == Exec(s, Passes(t, op, bursts, k)).cell
  {
    RunOneMore(s, Passes(t, op, bursts, k), Respond(t));
    assert [] + [Respond(t)] == [Respond(t)];
  }

  lemma OnePassMore(s: State, t: nat, op: Op, bursts: seq<seq<Action>>, i: nat, s1: State)
    requires ValidRun(s, Passes(t, op, bursts, i)) && Exec(s, Passes(t, op, bursts, i)) == s1
    requires ValidRun(s1, Pass(t, bursts, i))
    ensures ValidRun(s, Passes(t, op, bursts, i + 1))
    ensures Exec(s, Passes(t, op, bursts, i + 1)) == Exec(s1, Pass(t, bursts, i))
  {
    NextPass(t, op, bursts, i);
    RunConcat(s, Passes(t, op, bursts, i), Pass(t, bursts, i));
  }

  /** Whatever the others do before the first load: a call that is not disturbed any more takes one pass
      and works on the contents they leave. */
  lemma DisturbedBeforeLoad(s: State, t: nat, op: Op, burst: seq<Action>)
    requires Enabled(s, Invoke(t, op)) && IsLoop(op) && ByOthers(burst, t)
    requires ValidRun(Step(s, Invoke(t, op)), burst)
    ensures var found := Exec(Step(s, Invoke(t, op)), burst).cell;
            && ValidRun(s, CallRun(t, op, [burst], 1, []))
            && Exec(s, CallRun(t, op, [burst], 1, [])).cell == NewValue(op, found)
  {
    var called, bursts := Step(s, Invoke(t, op)), [burst];
    var s1 := Exec(called, burst);
    SingleStepRun(s, Invoke(t, op));
    OthersKeepThread(called, burst, t);
    var loaded := Step(s1, LoadPrev(t));
    PassGoesThrough(called, t, burst, [], s1, loaded, loaded);
    OnePassMore(s, t, op, bursts, 0, called);
    ReturnGoesThrough(s, t, op, bursts, 1);
  }

  /** Whatever the others do between the load and the compare-and-swap: the call takes a second pass
      exactly when they leave other contents, and works on the contents they leave. */
  lemma DisturbedAfterLoad(s: State, t: nat, op: Op, burst: seq<Action>)
    requires Enabled(s, Invoke(t, op)) && IsLoop(op) && ByOthers(burst, t)
    requires ValidRun(Step(Step(s, Invoke(t, op)), LoadPrev(t)), burst)
    ensures var found := Exec(Step(Step(s, Invoke(t, op)), LoadPrev(t)), burst).cell;
            var passes := if found == s.cell then 1 else 2;
            && ValidRun(s, CallRun(t, op, [[], burst], passes, []))
            && Exec(s, CallRun(t, op, [[], burst], passes, [])).cell == NewValue(op, found)
  {
    var called, bursts := Step(s, Invoke(t, op)), [[], burst];
    var loaded := Step(called, LoadPrev(t));
    var s2 := Exec(loaded, burst);
    SingleStepRun(s, Invoke(t, op));
    OthersKeepThread(loaded, burst, t);
    PassGoesThrough(called, t, [], burst, called, loaded, s2);
    OnePassMore(s, t, op, bursts, 0, called);
    if s2.cell == s.cell {
      ReturnGoesThrough(s, t, op, bursts, 1);
    } else {
      var again := Step(s2, TryCas(t));
      var reloaded := Step(again, LoadPrev(t));
      PassGoesThrough(again, t, [], [], again, reloaded, reloaded);
      OnePassMore(s, t, op, bursts, 1, again);
      ReturnGoesThrough(s, t, op, bursts, 2);
    }
  }

  /** Another thread's whole addition between the load and the compare-and-swap makes a second pass
      necessary: the call then finds the sum. */
  lemma AdditionForcesRetry(s: State, t: nat, op: Op, u: nat, n: int)
    requires Enabled(s, Invoke(t, op)) && IsLoop(op) && t != u && Enabled(s, Invoke(u, FetchAdd(n)))
    requires n % 0x1_0000_0000 != 0
    ensures var bursts := [[], [Invoke(u, FetchAdd(n)), LoadPrev(u), TryCas(u)]];
            && ByOthers(bursts[1], t) && ValidRun(s, CallRun(t, op, bursts, 2, []))
            && Exec(s, CallRun(t, op, bursts, 2, [])).cell == NewValue(op, (s.cell + n) % 0x1_0000_0000)
  {
    var loaded := Step(Step(s, Invoke(t, op)), LoadPrev(t));
    var burst := [Invoke(u, FetchAdd(n)), LoadPrev(u), TryCas(u)];
    AdditionRun(loaded, u, n);
    AdditionChanges(s.cell, n);
    DisturbedAfterLoad(s, t, op, burst);
  }

  lemma AdditionChanges(cell: Word, n: int)
    requires n % 0x1_0000_0000 != 0
    ensures (cell + n) % 0x1_0000_0000 != cell
  {
  }

  lemma AdditionRun(s: State, u: nat, n: int)
    requires Enabled(s, Invoke(u, FetchAdd(n)))
    ensures var burst := [Invoke(u, FetchAdd(n)), LoadPrev(u), TryCas(u)];
            ValidRun(s, burst) && Exec(s, burst).cell == (s.cell + n) % 0x1_0000_0000
  {
    var a, b, c := Invoke(u, FetchAdd(n)), LoadPrev(u), TryCas(u);
    SingleStepRun(s, a);
    RunOneMore(s, [a], b);
    RunOneMore(s, [a] + [b], c);
    assert [a] + [b] + [c] == [a, b, c];
  }

  /** The burst has run up to index i, if all of it can. */
  ghost predicate BurstRunning(s0: State, burst: seq<Action>, i: nat, done: seq<Action>, s: State, done': seq<Action>)
    requires i <= |burst|
  {
    ValidRun(s0, burst) ==>
      && done' == done + burst[..i]
      && ValidRun(s, burst[i..]) && Exec(s, burst[i..]) == Exec(s0, burst)
  }

  lemma BurstStep(s0: State, burst: seq<Action>, i: nat, done: seq<Action>, s: State, done': seq<Action>)
    requires i < |burst| && BurstRunning(s0, burst, i, done, s, done')
    ensures Enabled(s, burst[i]) ==> BurstRunning(s0, burst, i + 1, done, Step(s, burst[i]), done' + [burst[i]])
    ensures !Enabled(s, burst[i]) ==> BurstRunning(s0, burst, i + 1, done, s, done')
  {
    assert burst[i..][1..] == burst[i + 1..];
    assert done + burst[..i] + [burst[i]] == done + burst[..i + 1];
  }

  lemma OthersStep(s: State, a: Action, t: nat)
    requires Inv(s) && Enabled(s, a) && a.t != t && t < |s.threads|
    ensures var s' := Step(s, a);
            Inv(s') && |s'.threads| == |s.threads| && s'.threads[t] == s.threads[t] && s.log <= s'.log
  {
    StepKeepsInv(s, a);
  }

  lemma PassFromHalves(s: State, done: seq<Action>, t: nat, before: seq<Action>, between: seq<Action>, prev: Word,
                       s1: State, done1: seq<Action>, s2: State, done2: seq<Action>, s': State)
    requires ValidRun(s, before) ==> done1 == done + before && s1 == Exec(s, before) && prev == s1.cell
    requires Enabled(s1, LoadPrev(t))
    requires var loaded := Step(s1, LoadPrev(t));
             ValidRun(loaded, between) ==> done2 == done1 + [LoadPrev(t)] + between && s2 == Exec(loaded, between)
    requires Enabled(s2, TryCas(t)) && s' == Step(s2, TryCas(t))
    ensures PassMade(s, done, t, before, between, prev, s', done2 + [TryCas(t)])
  {
    if ValidRun(s, PassRun(t, before, between)) {
      RunSplit(s, before, [LoadPrev(t)] + (between + [TryCas(t)]));
      RunSplit(s1, [LoadPrev(t)], between + [TryCas(t)]);
      SingleStepRun(s1, LoadPrev(t));
      RunSplit(Step(s1, LoadPrev(t)), between, [TryCas(t)]);
      SingleStepRun(s2, TryCas(t));
      PassPieces(done, t, before, between);
    }
  }

  lemma PassPieces(done: seq<Action>, t: nat, before: seq<Action>, between: seq<Action>)
    ensures done + before + [LoadPrev(t)] + between + [TryCas(t)] == done + PassRun(t, before, between)
  {
  }

  class SharedCell {
    var sys: State

    /** The other threads run for a while: this thread's own state stays as it was. */
    method Interfere(t: nat, burst: seq<Action>, ghost start: State, ghost done: seq<Action>)
      returns (ghost done': seq<Action>)
      requires Inv(sys) && t < |sys.threads| && ByOthers(burst, t)
      requires ValidRun(start, done) && Exec(start, done) == sys
      modifies this
      ensures Inv(sys) && |sys.threads| == old(|sys.threads|) && sys.threads[t] == old(sys.threads[t])
      ensures ValidRun(start, done') && Exec(start, done') == sys
      ensures old(sys.log) <= sys.log && (burst == [] ==> sys == old(sys))
      ensures ValidRun(old(sys), burst) ==> done' == done + burst && sys == Exec(old(sys), burst)
    {
      done' := done;
      for i := 0 to |burst|
        invariant Inv(sys) && |sys.threads| == old(|sys.threads|) && sys.threads[t] == old(sys.threads[t])
        invariant ValidRun(start, done') && Exec(start, done') == sys
        invariant old(sys.log) <= sys.log && (burst == [] ==> sys == old(sys))
        invariant BurstRunning(old(sys), burst, i, done, sys, done')
      {
        BurstStep(old(sys), burst, i, done, sys, done');
        if Enabled(sys, burst[i]) {
          OthersStep(sys, burst[i], t);
          RunOneMore(start, done', burst[i]);
          done' := done' + [burst[i]];
          sys := Step(sys, burst[i]);
        }
      }
    }

    /** This thread's own step. */
    method Own(a: Action, ghost start: State, ghost done: seq<Action>) returns (ghost done': seq<Action>)
      requires Inv(sys) && Enabled(sys, a)
      requires ValidRun(start, done) && Exec(start, done) == sys
      modifies this
      ensures sys == Step(old(sys), a) && Inv(sys) && done' == done + [a]
      ensures ValidRun(start, done') && Exec(start, done') == sys
    {
      StepKeepsInv(sys, a);
      RunOneMore(start, done, a);
      done' := done + [a];
      sys := Step(sys, a);
    }

    /** The body of the retry loop: a load, and a compare-and-swap on the value loaded. Status zero
        means success; a failure is the work of another thread's write since the load. */
    method Attempt(t: nat, op: Op, before: seq<Action>, between: seq<Action>, ghost start: State, ghost done: seq<Action>)
      returns (prev: Word, status: Word, ghost done': seq<Action>)
      requires Inv(sys) && t < |sys.threads| && sys.threads[t].pc.Called? && sys.threads[t].pc.op == op && IsLoop(op)
      requires ByOthers(before, t) && ByOthers(between, t)
      requires ValidRun(start, done) && Exec(start, done) == sys
      modifies this
      ensures Inv(sys) && |sys.threads| == old(|sys.threads|)
      ensures ValidRun(start, done') && Exec(start, done') == sys
      ensures status != 0 ==> sys.threads[t].pc == old(sys.threads[t].pc)
      ensures status == 0 ==>
                var pc := sys.threads[t].pc;
                pc.Returning? && pc.op == op && pc.since == old(sys.threads[t].pc.since) && pc.ret == prev
      ensures old(sys.log) <= sys.log
      ensures old(OtherWrites(sys.log, t)) + (if status != 0 then 1 else 0) <= OtherWrites(sys.log, t)
      ensures between == [] ==> status == 0
      ensures PassMade(old(sys), done, t, before, between, prev, sys, done')
    {
      ghost var log := sys.log;
      ghost var s0 := sys;
      done' := Interfere(t, before, start, done);
      prev := sys.cell;
      ghost var s1, done1 := sys, done';
      done' := Own(LoadPrev(t), start, done');
      done' := Interfere(t, between, start, done');
      ghost var s2, done2 := sys, done';
      var (_, seen) := SyncCas(sys.cell, prev, NewValue(op, prev));
      status := CasStatus(seen, prev);
      if status != 0 {
        ghost var i := FailedCasHasWriter(sys, t);
      }
      WritesOfLongerLog(log, sys.log, t);
      done' := Own(TryCas(t), start, done');
      WritesOfLongerLog(log, sys.log, t);
      PassFromHalves(s0, done, t, before, between, prev, s1, done1, s2, done2, sys);
    }

    /** The loop of the call that thread t has begun, until its compare-and-swap succeeds. */
    method RetryLoop(t: nat, op: Op, bursts: seq<seq<Action>>, ghost last: seq<Action>,
                     ghost start: State, ghost begun: seq<Action>)
      returns (prev: Word, loads: nat, ghost done: seq<Action>)
      requires Inv(sys) && t < |sys.threads| && IsLoop(op) && Enabled(start, Invoke(t, op))
      requires begun == [Invoke(t, op)] && sys == Step(start, Invoke(t, op))
      requires ValidRun(start, begun) && Exec(start, begun) == sys
      requires ByOthers(last, t) && forall i :: 0 <= i < |bursts| ==> ByOthers(bursts[i], t)
      modifies this
      ensures Inv(sys) && |sys.threads| == |start.threads| && start.log <= sys.log
      ensures ValidRun(start, done) && Exec(start, done) == sys
      ensures var pc := sys.threads[t].pc;
              pc.Returning? && pc.op == op && pc.since == |start.log| && pc.ret == prev
      ensures OtherWrites(start.log, t) + loads <= OtherWrites(sys.log, t) + 1
      ensures OnSchedule(start, t, op, bursts, last, loads, false, prev, done)
      ensures |bursts| <= 1 ==> loads == 1
    {
      done := begun;
      var status := 1;
      prev, loads := 0, 0;
      ScheduleBegins(start, t, op, bursts, last, prev);
      while status != 0
        invariant Inv(sys) && |sys.threads| == |start.threads| && start.log <= sys.log
        invariant ValidRun(start, done) && Exec(start, done) == sys
        invariant status != 0 ==> sys.threads[t].pc == Called(op, |start.log|)
        invariant status == 0 ==>
                    var pc := sys.threads[t].pc;
                    pc.Returning? && pc.op == op && pc.since == |start.log| && pc.ret == prev
        invariant OtherWrites(start.log, t) + loads <= OtherWrites(sys.log, t) + (if status != 0 then 0 else 1)
        invariant OnSchedule(start, t, op, bursts, last, loads, status != 0, prev, done)
        invariant |bursts| <= 1 ==> loads == if status != 0 then 0 else 1
        invariant loads <= |bursts| + 1 && (status != 0 ==> loads <= |bursts|)
        decreases |bursts| + 1 - loads
      {
        ghost var s0, prev0, done0 := sys, prev, done;
        BurstByOthers(bursts, 2 * loads, t);
        BurstByOthers(bursts, 2 * loads + 1, t);
        prev, status, done := Attempt(t, op, Burst(bursts, 2 * loads), Burst(bursts, 2 * loads + 1), start, done);
        SchedulePass(start, t, op, bursts, last, loads, prev0, s0, prev, sys, done0, done);
        loads := loads + 1;
      }
    }

    /** `android_atomic_add`, `android_atomic_and` and `android_atomic_or`. The call, with all its
        interference, is a run of the machine; it terminates for every finite interference; its result
        is the contents just before its own, single, indivisible effect; and it loads at most once more
        than other threads changed the cell meanwhile. */
    method FetchAndOp(t: nat, op: Op, bursts: seq<seq<Action>>, last: seq<Action>)
      returns (prev: Word, loads: nat, ghost at: nat, ghost done: seq<Action>)
      requires Inv(sys) && t < |sys.threads| && sys.threads[t].pc.Idle? && IsLoop(op)
      requires ByOthers(last, t) && forall i :: 0 <= i < |bursts| ==> ByOthers(bursts[i], t)
      modifies this
      ensures Inv(sys) && |sys.threads| == old(|sys.threads|) && sys.threads[t].pc.Idle?
      ensures ValidRun(old(sys), done) && Exec(old(sys), done) == sys
      ensures OneCall(old(sys.log), sys.log, t, op, prev, at)
      ensures loads <= 1 + OtherWrites(sys.log, t) - old(OtherWrites(sys.log, t))
      ensures |bursts| <= 1 ==> loads == 1
      ensures Scheduled(old(sys), t, op, bursts, last, loads, prev, done)
    {
      ghost var start := sys;
      assert ValidRun(start, []) && Exec(start, []) == sys;
      done := Own(Invoke(t, op), start, []);
      prev, loads, done := RetryLoop(t, op, bursts, last, start, done);
      ghost var s0, done0, log := sys, done, sys.log;
      done := Interfere(t, last, start, done);
      ScheduleEnds(start, t, op, bursts, last, loads, prev, s0, done0, done);
      WritesOfLongerLog(log, sys.log, t);
      at := sys.threads[t].pc.at;
      CallOutcome(sys, t);
      done := Own(Respond(t), start, done);
    }

    method AtomicInc(t: nat, bursts: seq<seq<Action>>, last: seq<Action>)
      returns (prev: Word, loads: nat, ghost at: nat, ghost done: seq<Action>)
      requires Inv(sys) && t < |sys.threads| && sys.threads[t].pc.Idle?
      requires ByOthers(last, t) && forall i :: 0 <= i < |bursts| ==> ByOthers(bursts[i], t)
      modifies this
      ensures Inv(sys) && |sys.threads| == old(|sys.threads|) && sys.threads[t].pc.Idle?
      ensures ValidRun(old(sys), done) && Exec(old(sys), done) == sys
      ensures OneCall(old(sys.log), sys.log, t, FetchAdd(1), prev, at)
      ensures loads <= 1 + OtherWrites(sys.log, t) - old(OtherWrites(sys.log, t))
      ensures |bursts| <= 1 ==> loads == 1
      ensures Scheduled(old(sys), t, FetchAdd(1), bursts, last, loads, prev, done)
    {
      prev, loads, at, done := FetchAndOp(t, FetchAdd(1), bursts, last);
    }

    method AtomicDec(t: nat, bursts: seq<seq<Action>>, last: seq<Action>)
      returns (prev: Word, loads: nat, ghost at: nat, ghost done: seq<Action>)
      requires Inv(sys) && t < |sys.threads| && sys.threads[t].pc.Idle?
      requires ByOthers(last, t) && forall i :: 0 <= i < |bursts| ==> ByOthers(bursts[i], t)
      modifies this
      ensures Inv(sys) && |sys.threads| == old(|sys.threads|) && sys.threads[t].pc.Idle?
      ensures ValidRun(old(sys), done) && Exec(old(sys), done) == sys
      ensures OneCall(old(sys.log), sys.log, t, FetchAdd(-1), prev, at)
      ensures loads <= 1 + OtherWrites(sys.log, t) - old(OtherWrites(sys.log, t))
      ensures |bursts| <= 1 ==> loads == 1
      ensures Scheduled(old(sys), t, FetchAdd(-1), bursts, last, loads, prev, done)
    {
      prev, loads, at, done := FetchAndOp(t, FetchAdd(-1), bursts, last);
    }
  }
}

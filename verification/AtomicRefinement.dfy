/** The interleaved retry loops have exactly the observable behaviours of a machine in which every
    call takes effect in one indivisible step. */
module AtomicRefinement {
  import opened Words
  import opened Atomics

  datatype APc = AIdle | APending(op: Op) | ADone(op: Op, ret: Word)

  datatype AState = AState(cell: Word, pcs: seq<APc>)

  datatype AAction = AInvoke(t: nat, op: Op) | ADo(t: nat) | ARespond(t: nat)

  predicate AEnabled(s: AState, a: AAction) {
    && a.t < |s.pcs|
    && match a
       case AInvoke(_, _) => s.pcs[a.t].AIdle?
       case ADo(_) => s.pcs[a.t].APending?
       case ARespond(_) => s.pcs[a.t].ADone?
  }

  function AStep(s: AState, a: AAction): AState
    requires AEnabled(s, a)
  {
    match a
    case AInvoke(t, op) => s.(pcs := s.pcs[t := APending(op)])
    case ADo(t) =>
      var (cell, ret) := Atomically(s.pcs[t].op, s.cell);
      AState(cell, s.pcs[t := ADone(s.pcs[t].op, ret)])
    case ARespond(t) => s.(pcs := s.pcs[t := AIdle])
  }

  predicate AValidRun(s: AState, acts: seq<AAction>)
    decreases |acts|
  {
    acts == [] || (AEnabled(s, acts[0]) && AValidRun(AStep(s, acts[0]), acts[1..]))
  }

  function AExec(s: AState, acts: seq<AAction>): AState
    requires AValidRun(s, acts)
    decreases |acts|
  {
    if acts == [] then s else AExec(AStep(s, acts[0]), acts[1..])
  }

  /* ---------- what callers observe ---------- */

  datatype Event = CallEvent(t: nat, op: Op) | ReturnEvent(t: nat, op: Op, ret: Word)

  function Observed(s: State, a: Action): seq<Event>
    requires Enabled(s, a)
  {
    match a
    case Invoke(t, op) => [CallEvent(t, op)]
    case Respond(t) => [ReturnEvent(t, s.threads[t].pc.op, s.threads[t].pc.ret)]
    case _ => []
  }

  function Trace(s: State, acts: seq<Action>): seq<Event>
    requires ValidRun(s, acts)
    decreases |acts|
  {
    if acts == [] then [] else Observed(s, acts[0]) + Trace(Step(s, acts[0]), acts[1..])
  }

  function AObserved(s: AState, a: AAction): seq<Event>
    requires AEnabled(s, a)
  {
    match a
    case AInvoke(t, op) => [CallEvent(t, op)]
    case ADo(_) => []
    case ARespond(t) => [ReturnEvent(t, s.pcs[t].op, s.pcs[t].ret)]
  }

  function ATrace(s: AState, acts: seq<AAction>): seq<Event>
    requires AValidRun(s, acts)
    decreases |acts|
  {
    if acts == [] then [] else AObserved(s, acts[0]) + ATrace(AStep(s, acts[0]), acts[1..])
  }

  /* ---------- from the loops to the indivisible steps ---------- */

  function AbsPc(pc: Pc): APc {
    match pc
    case Idle => AIdle
    case Called(op, _) => APending(op)
    case Loaded(op, _, _, _) => APending(op)
    case Returning(op, _, ret, _) => ADone(op, ret)
  }

  function Abs(s: State): AState {
    AState(s.cell, seq(|s.threads|, i requires 0 <= i < |s.threads| => AbsPc(s.threads[i].pc)))
  }

  /** Loads and failed compare-and-swaps are invisible; the successful one is the indivisible step. */
  function AbsAction(s: State, a: Action): seq<AAction>
    requires Enabled(s, a)
  {
    match a
    case Invoke(t, op) => [AInvoke(t, op)]
    case LoadPrev(_) => []
    case TryCas(t) => if s.cell == s.threads[t].pc.prev then [ADo(t)] else []
    case Single(t) => [ADo(t)]
    case Respond(t) => [ARespond(t)]
  }

  function AbsRun(s: State, acts: seq<Action>): seq<AAction>
    requires ValidRun(s, acts)
    decreases |acts|
  {
    if acts == [] then [] else AbsAction(s, acts[0]) + AbsRun(Step(s, acts[0]), acts[1..])
  }

  lemma StepRefines(s: State, a: Action)
    requires Enabled(s, a)
    ensures AbsAction(s, a) == [] ==> Abs(Step(s, a)) == Abs(s) && Observed(s, a) == []
    ensures AbsAction(s, a) != [] ==>
              && AEnabled(Abs(s), AbsAction(s, a)[0])
              && AStep(Abs(s), AbsAction(s, a)[0]) == Abs(Step(s, a))
              && AObserved(Abs(s), AbsAction(s, a)[0]) == Observed(s, a)
  {
    var s' := Step(s, a);
    if AbsAction(s, a) == [] {
      assert Abs(s').pcs == Abs(s).pcs;
    } else {
      assert AStep(Abs(s), AbsAction(s, a)[0]).pcs == Abs(s').pcs;
    }
  }

  /** Every interleaving of the retry loops, whatever the cell went through between a load and its
      compare-and-swap, is a run of indivisible operations with the same calls and results. */
  lemma {:induction false} LoopsRefineAtomicOps(s: State, acts: seq<Action>)
    requires ValidRun(s, acts)
    ensures AValidRun(Abs(s), AbsRun(s, acts))
    ensures AExec(Abs(s), AbsRun(s, acts)) == Abs(Exec(s, acts))
    ensures ATrace(Abs(s), AbsRun(s, acts)) == Trace(s, acts)
    decreases |acts|
  {
    if acts != [] {
      var first, rest := AbsAction(s, acts[0]), AbsRun(Step(s, acts[0]), acts[1..]);
      StepRefines(s, acts[0]);
      LoopsRefineAtomicOps(Step(s, acts[0]), acts[1..]);
      assert first == [] ==> AbsRun(s, acts) == rest;
      assert first != [] ==> AbsRun(s, acts)[0] == first[0] && AbsRun(s, acts)[1..] == rest;
    }
  }

  /* ---------- and back ---------- */

  /** No thread is between a load and its compare-and-swap. */
  ghost predicate NoneLoaded(s: State) {
    forall t :: 0 <= t < |s.threads| ==> !s.threads[t].pc.Loaded?
  }

  /** The indivisible step as an undisturbed load and compare-and-swap. */
  function LoopAction(s: State, a: AAction): seq<Action>
    requires a.t < |s.threads| && (a.ADo? ==> s.threads[a.t].pc.Called?)
  {
    match a
    case AInvoke(t, op) => [Invoke(t, op)]
    case ADo(t) => if IsLoop(s.threads[t].pc.op) then [LoadPrev(t), TryCas(t)] else [Single(t)]
    case ARespond(t) => [Respond(t)]
  }

  lemma {:induction false} RunConcat(s: State, acts: seq<Action>, more: seq<Action>)
    requires ValidRun(s, acts) && ValidRun(Exec(s, acts), more)
    ensures ValidRun(s, acts + more)
    ensures Exec(s, acts + more) == Exec(Exec(s, acts), more)
    ensures Trace(s, acts + more) == Trace(s, acts) + Trace(Exec(s, acts), more)
    decreases |acts|
  {
    if acts == [] {
      assert acts + more == more;
    } else {
      assert (acts + more)[1..] == acts[1..] + more;
      RunConcat(Step(s, acts[0]), acts[1..], more);
    }
  }

  lemma SingleStepRun(s: State, a: Action)
    requires Enabled(s, a)
    ensures ValidRun(s, [a]) && Exec(s, [a]) == Step(s, a) && Trace(s, [a]) == Observed(s, a)
  {
    var s1 := Step(s, a);
    assert [a][1..] == [];
    assert ValidRun(s1, []) && Exec(s1, []) == s1 && Trace(s1, []) == [];
  }

  /** Callers observe every invocation, with its operation, and every return, with its result, in the order
      in which they happen, and nothing else. */
  lemma TraceOneMore(s: State, acts: seq<Action>, a: Action)
    requires ValidRun(s, acts) && Enabled(Exec(s, acts), a)
    ensures ValidRun(s, acts + [a])
    ensures var pc := Exec(s, acts).threads[a.t].pc;
            Trace(s, acts + [a]) == Trace(s, acts) + (if a.Invoke? then [CallEvent(a.t, a.op)]
                                                      else if a.Respond? then [ReturnEvent(a.t, pc.op, pc.ret)]
                                                      else [])
  {
    SingleStepRun(Exec(s, acts), a);
    RunConcat(s, acts, [a]);
  }

  /** An undisturbed load and compare-and-swap has the effect of the indivisible step. */
  lemma LoopRealisesStep(s: State, t: nat)
    requires NoneLoaded(s) && t < |s.threads| && s.threads[t].pc.Called? && IsLoop(s.threads[t].pc.op)
    ensures Enabled(s, LoadPrev(t)) && Enabled(Step(s, LoadPrev(t)), TryCas(t))
    ensures var s' := Step(Step(s, LoadPrev(t)), TryCas(t));
            NoneLoaded(s') && Abs(s') == AStep(Abs(s), ADo(t))
  {
    var s' := Step(Step(s, LoadPrev(t)), TryCas(t));
    assert Abs(s').pcs == AStep(Abs(s), ADo(t)).pcs;
  }

  lemma AtomicStepRealised(s: State, a: AAction) returns (acts: seq<Action>)
    requires NoneLoaded(s) && AEnabled(Abs(s), a)
    ensures ValidRun(s, acts) && NoneLoaded(Exec(s, acts))
    ensures Abs(Exec(s, acts)) == AStep(Abs(s), a)
    ensures Trace(s, acts) == AObserved(Abs(s), a)
  {
    acts := LoopAction(s, a);
    SingleStepRun(s, acts[0]);
    if |acts| == 1 {
      assert acts == [acts[0]];
      assert Abs(Step(s, acts[0])).pcs == AStep(Abs(s), a).pcs;
    } else {
      LoopRealisesStep(s, a.t);
      SingleStepRun(Step(s, LoadPrev(a.t)), TryCas(a.t));
      RunConcat(s, [LoadPrev(a.t)], [TryCas(a.t)]);
      assert acts == [LoadPrev(a.t)] + [TryCas(a.t)];
    }
  }

  /** Every run of indivisible operations is the observable behaviour of some interleaving of the
      loops: the loops lose no behaviour. */
  lemma {:induction false} AtomicOpsRealisedByLoops(s: State, aacts: seq<AAction>) returns (acts: seq<Action>)
    requires NoneLoaded(s) && AValidRun(Abs(s), aacts)
    ensures ValidRun(s, acts)
    ensures Abs(Exec(s, acts)) == AExec(Abs(s), aacts)
    ensures Trace(s, acts) == ATrace(Abs(s), aacts)
    decreases |aacts|
  {
    if aacts == [] {
      acts := [];
    } else {
      var first := AtomicStepRealised(s, aacts[0]);
      var rest := AtomicOpsRealisedByLoops(Exec(s, first), aacts[1..]);
      RunConcat(s, first, rest);
      acts := first + rest;
    }
  }

  ghost predicate LoopBehaviour(s: State, trace: seq<Event>) {
    exists acts :: ValidRun(s, acts) && Trace(s, acts) == trace
  }

  ghost predicate AtomicBehaviour(s: AState, trace: seq<Event>) {
    exists acts :: AValidRun(s, acts) && ATrace(s, acts) == trace
  }

  /** From any initial contents, with any number of threads: the same call and return sequences. */
  lemma SameBehaviours(v: Word, n: nat, trace: seq<Event>)
    ensures LoopBehaviour(Init(v, n), trace) <==> AtomicBehaviour(Abs(Init(v, n)), trace)
  {
    var s := Init(v, n);
    if LoopBehaviour(s, trace) {
      var acts :| ValidRun(s, acts) && Trace(s, acts) == trace;
      LoopsRefineAtomicOps(s, acts);
    }
    if AtomicBehaviour(Abs(s), trace) {
      var aacts :| AValidRun(Abs(s), aacts) && ATrace(Abs(s), aacts) == trace;
      var acts := AtomicOpsRealisedByLoops(s, aacts);
    }
  }

  lemma {:induction false} OneOwnEntry(log: seq<Entry>, since: nat, t: nat, at: nat, i: nat)
    requires since <= at < |log| && since <= i < |log| && i != at && log[at].thread == t
    requires Own(log, t) == Own(log[..since], t) + 1
    ensures log[i].thread != t
    decreases |log|
  {
    var rest := log[..|log| - 1];
    assert rest[..since] == log[..since];
    if at == |log| - 1 {
      NoOwnEntrySince(rest, since, t, i);
    } else if log[|log| - 1].thread == t {
      NoOwnEntrySince(rest, since, t, at);
    } else if i < |log| - 1 {
      OneOwnEntry(rest, since, t, at, i);
    }
  }

  /** In every reachable state, a call about to return has exactly one point of effect, after its
      invocation: its result is the one the indivisible operation gives on the contents there, even if
      the cell changed and changed back between its load and its compare-and-swap. */
  lemma ResultIsFromItsOwnPoint(v: Word, n: nat, acts: seq<Action>, t: nat)
    requires ValidRun(Init(v, n), acts)
    requires var s := Exec(Init(v, n), acts); t < |s.threads| && s.threads[t].pc.Returning?
    ensures var s := Exec(Init(v, n), acts);
            var pc := s.threads[t].pc;
            && pc.since <= pc.at < |s.log| && s.log[pc.at].thread == t
            && pc.ret == Atomically(pc.op, ValueAt(s.initial, s.log[..pc.at])).1
            && (forall i :: pc.since <= i < |s.log| && i != pc.at ==> s.log[i].thread != t)
  {
    var s := Exec(Init(v, n), acts);
    InitInv(v, n);
    RunKeepsInv(Init(v, n), acts);
    var pc := s.threads[t].pc;
    assert ThreadInv(s.initial, s.log, t, s.threads[t]);
    assert LegalEntry(s.initial, s.log, |s.threads|, pc.at);
    forall i | pc.since <= i < |s.log| && i != pc.at
      ensures s.log[i].thread != t
    {
      OneOwnEntry(s.log, pc.since, t, pc.at, i);
    }
  }

  /** What an operation does to the contents `found`, leaving `left` and returning `ret`. */
  ghost predicate DoesItsJob(op: Op, found: Word, left: Word, ret: Word) {
    match op
    case FetchAdd(increment) => ret == found && left == (found + increment) % 0x1_0000_0000
    case FetchAnd(mask) => ret == found && forall k: nat :: k < 32 ==> (Bit(left, k) <==> Bit(found, k) && Bit(mask, k))
    case FetchOr(mask) => ret == found && forall k: nat :: k < 32 ==> (Bit(left, k) <==> Bit(found, k) || Bit(mask, k))
    case CompareAndSet(expected, replacement) =>
      && (ret == 0 <==> found == expected) && ret <= 1
      && left == if found == expected then replacement else found
    case Write(value) => left == value
    case Read => ret == found && left == found
  }

  lemma AtomicallyDoesItsJob(op: Op, v: Word)
    ensures DoesItsJob(op, v, Atomically(op, v).0, Atomically(op, v).1)
  {
    match op
    case FetchAnd(mask) =>
      forall k: nat | k < 32
        ensures Bit(And(v, mask), k) <==> Bit(v, k) && Bit(mask, k)
      {
        AndBit(v, mask, k);
      }
    case FetchOr(mask) =>
      forall k: nat | k < 32
        ensures Bit(Or(v, mask), k) <==> Bit(v, k) || Bit(mask, k)
      {
        OrBit(v, mask, k);
      }
    case _ =>
  }

  /** In every reachable state the cell is what the last call in the log left, and a call about to return
      found in the cell what the calls before its own entry left, did its job on it, and returns that. */
  lemma EachCallDoesItsJob(v: Word, n: nat, acts: seq<Action>, t: nat)
    requires ValidRun(Init(v, n), acts)
    requires var s := Exec(Init(v, n), acts); t < |s.threads| && s.threads[t].pc.Returning?
    ensures var s := Exec(Init(v, n), acts);
            var pc := s.threads[t].pc;
            && s.cell == ValueAt(s.initial, s.log) && pc.at < |s.log|
            && DoesItsJob(pc.op, ValueAt(s.initial, s.log[..pc.at]), ValueAt(s.initial, s.log[..pc.at + 1]), pc.ret)
  {
    var s := Exec(Init(v, n), acts);
    var pc := s.threads[t].pc;
    InitInv(v, n);
    RunKeepsInv(Init(v, n), acts);
    assert ThreadInv(s.initial, s.log, t, s.threads[t]);
    assert LegalEntry(s.initial, s.log, |s.threads|, pc.at);
    assert s.log[..pc.at + 1][..pc.at] == s.log[..pc.at];
    AtomicallyDoesItsJob(pc.op, ValueAt(s.initial, s.log[..pc.at]));
  }
}

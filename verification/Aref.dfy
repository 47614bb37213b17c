/** Reference counting on top of the atomic increment and decrement: any number of threads, each
    calling `aref_get` only while it holds a reference and `aref_put` once per reference, interleaved
    at the granularity of single loads and compare-and-swaps. */
module Aref {
  import opened Words
  import opened Atomics
  import opened AtomicLoop
  import opened AtomicProgress

  const INC: Op := FetchAdd(1)
  const DEC: Op := FetchAdd(-1)

  /** `held` are the references each thread may use; `released` counts runs of the release callback. */
  datatype World = World(sys: State, held: seq<nat>, released: nat)

  datatype Act =
    | Get(t: nat)
    | Put(t: nat)
    | Count(t: nat)
    | Inner(a: Action)
    | Finish(t: nat)
    | Give(t: nat, to: nat)

  /** `aref_init` by thread t: the count is one, and t holds that reference. */
  function InitWorld(n: nat, t: nat): World
    requires t < n
  {
    World(Init(1, n), seq(n, i => if i == t then 1 else 0), 0)
  }

  predicate CanUse(w: World, t: nat) {
    && t < |w.sys.threads| && |w.held| == |w.sys.threads|
    && w.sys.threads[t].pc.Idle? && w.held[t] > 0
  }

  predicate Allowed(w: World, a: Act) {
    match a
    case Get(t) => CanUse(w, t)
    case Put(t) => CanUse(w, t)
    case Count(t) => CanUse(w, t)
    case Inner(b) => !b.Invoke? && !b.Respond? && Enabled(w.sys, b)
    case Finish(t) => Enabled(w.sys, Respond(t)) && t < |w.held|
    case Give(t, to) => CanUse(w, t) && to < |w.held|
  }

  /** The call that returns from `aref_put` runs the callback when the decrement's result was one. */
  function Perform(w: World, a: Act): World
    requires Allowed(w, a)
  {
    match a
    case Get(t) => w.(sys := Step(w.sys, Invoke(t, INC)))
    case Put(t) => w.(sys := Step(w.sys, Invoke(t, DEC)), held := w.held[t := w.held[t] - 1])
    case Count(t) => w.(sys := Step(w.sys, Invoke(t, Read)))
    case Inner(b) => w.(sys := Step(w.sys, b))
    case Finish(t) =>
      var pc := w.sys.threads[t].pc;
      World(Step(w.sys, Respond(t)),
            if pc.op == INC then w.held[t := w.held[t] + 1] else w.held,
            if pc.op == DEC && pc.ret == 1 then w.released + 1 else w.released)
    case Give(t, to) =>
      var h := w.held[t := w.held[t] - 1];
      w.(held := h[to := h[to] + 1])
  }

  predicate AllowedRun(w: World, acts: seq<Act>)
    decreases |acts|
  {
    acts == [] || (Allowed(w, acts[0]) && AllowedRun(Perform(w, acts[0]), acts[1..]))
  }

  function Outcome(w: World, acts: seq<Act>): World
    requires AllowedRun(w, acts)
    decreases |acts|
  {
    if acts == [] then w else Outcome(Perform(w, acts[0]), acts[1..])
  }

  /* ---------- references ---------- */

  /** The references on thread t's account: those it holds, one more if a get has taken effect but not
      returned, and one if a put has been called but has not yet taken effect. */
  function Refs(th: Thread, held: nat): nat {
    held + (match th.pc
            case Returning(op, _, _, _) => if op == INC then 1 else 0
            case Called(op, _) => if op == DEC then 1 else 0
            case Loaded(op, _, _, _) => if op == DEC then 1 else 0
            case Idle => 0)
  }

  function SumRefs(threads: seq<Thread>, held: seq<nat>): nat
    requires |threads| == |held|
  {
    if threads == [] then 0
    else SumRefs(threads[..|threads| - 1], held[..|held| - 1]) + Refs(threads[|threads| - 1], held[|held| - 1])
  }

  function Outstanding(w: World): nat
    requires |w.sys.threads| == |w.held|
  {
    SumRefs(w.sys.threads, w.held)
  }

  /** A put whose decrement found one, and which has yet to run the callback. */
  function WillRelease(th: Thread): nat {
    if th.pc.Returning? && th.pc.op == DEC && th.pc.ret == 1 then 1 else 0
  }

  function SumReleases(threads: seq<Thread>): nat {
    if threads == [] then 0 else SumReleases(threads[..|threads| - 1]) + WillRelease(threads[|threads| - 1])
  }

  /** The callbacks run and about to run. */
  function Releases(w: World): nat {
    w.released + SumReleases(w.sys.threads)
  }

  lemma {:induction false} UpdateSums(threads: seq<Thread>, held: seq<nat>, t: nat, th: Thread, h: nat)
    requires |threads| == |held| && t < |threads|
    ensures SumRefs(threads[t := th], held[t := h]) == SumRefs(threads, held) + Refs(th, h) - Refs(threads[t], held[t])
    ensures SumReleases(threads[t := th]) == SumReleases(threads) + WillRelease(th) - WillRelease(threads[t])
    decreases |threads|
  {
    var m := |threads| - 1;
    if t < m {
      UpdateSums(threads[..m], held[..m], t, th, h);
      assert threads[t := th][..m] == threads[..m][t := th] && held[t := h][..m] == held[..m][t := h];
    } else {
      assert threads[t := th][..m] == threads[..m] && held[t := h][..m] == held[..m];
    }
  }

  lemma {:induction false} SumsInclude(threads: seq<Thread>, held: seq<nat>, t: nat)
    requires |threads| == |held| && t < |threads|
    ensures Refs(threads[t], held[t]) <= SumRefs(threads, held)
    ensures WillRelease(threads[t]) <= SumReleases(threads)
    decreases |threads|
  {
    if t < |threads| - 1 {
      SumsInclude(threads[..|threads| - 1], held[..|held| - 1], t);
    }
  }

  /** What a thread may be doing: a get or a look at the count is made on a held reference. */
  ghost predicate Disciplined(th: Thread, held: nat) {
    && (!th.pc.Idle? ==> th.pc.op in {INC, DEC, Read})
    && (th.pc.Called? && th.pc.op != DEC ==> held > 0)
    && (th.pc.Loaded? ==> IsLoop(th.pc.op) && (th.pc.op != DEC ==> held > 0))
  }

  ghost predicate Shape(w: World) {
    && |w.sys.threads| == |w.held|
    && forall t {:trigger Disciplined(w.sys.threads[t], w.held[t])} ::
         0 <= t < |w.held| ==> Disciplined(w.sys.threads[t], w.held[t])
  }

  /** In every state of every run, however many references there are, the count is their number modulo
      2^32. */
  ghost predicate Counted(w: World) {
    Shape(w) && w.sys.cell == Outstanding(w) % 0x1_0000_0000
  }

  /** The acting thread of an action, with its state and references afterwards. */
  function Actor(a: Act): nat {
    match a
    case Inner(b) => b.t
    case _ => a.t
  }

  /** All but a transfer of a reference changes one thread's state and account. */
  lemma OneThreadMoves(w: World, a: Act)
    requires Allowed(w, a) && !a.Give? && |w.held| == |w.sys.threads|
    ensures var t, w' := Actor(a), Perform(w, a);
            && t < |w.held| && |w'.held| == |w.held| && |w'.sys.threads| == |w.sys.threads|
            && w'.sys.threads == w.sys.threads[t := w'.sys.threads[t]]
            && w'.held == w.held[t := w'.held[t]]
  {
  }

  lemma {:induction false} UpdateHeld(threads: seq<Thread>, held: seq<nat>, t: nat, h: nat)
    requires |threads| == |held| && t < |threads|
    ensures SumRefs(threads, held[t := h]) == SumRefs(threads, held) + h - held[t]
    decreases |threads|
  {
    var m := |threads| - 1;
    if t < m {
      UpdateHeld(threads[..m], held[..m], t, h);
      assert held[t := h][..m] == held[..m][t := h];
    } else {
      assert held[t := h][..m] == held[..m];
    }
  }

  /** A transfer takes one reference from its giver and adds one to its receiver. */
  lemma GiveMovesOne(w: World, a: Act, u: nat)
    requires Allowed(w, a) && a.Give? && u < |w.held|
    ensures |Perform(w, a).held| == |w.held|
    ensures Perform(w, a).held[u] ==
            w.held[u] + (if u == a.to then 1 else 0) - (if u == a.t then 1 else 0)
  {
  }

  lemma GiveKeepsSums(w: World, a: Act)
    requires Allowed(w, a) && a.Give? && |w.held| == |w.sys.threads|
    ensures |Perform(w, a).held| == |w.held| && Perform(w, a).sys == w.sys
    ensures Outstanding(Perform(w, a)) == Outstanding(w)
    ensures Releases(Perform(w, a)) == Releases(w)
  {
    var h := w.held[a.t := w.held[a.t] - 1];
    UpdateHeld(w.sys.threads, w.held, a.t, w.held[a.t] - 1);
    UpdateHeld(w.sys.threads, h, a.to, h[a.to] + 1);
  }

  /** The change of the count by one step is the change of the acting thread's references. */
  lemma StepCounts(w: World, a: Act)
    requires Counted(w) && Allowed(w, a) && !a.Give?
    ensures var t, w' := Actor(a), Perform(w, a);
            var change := Refs(w'.sys.threads[t], w'.held[t]) - Refs(w.sys.threads[t], w.held[t]);
            && w'.sys.cell == WrappingAdd(w.sys.cell, change)
            && -1 <= change <= 1 && Disciplined(w'.sys.threads[t], w'.held[t])
  {
    var t := Actor(a);
    assert Disciplined(w.sys.threads[t], w.held[t]);
  }

  lemma StepKeepsShape(w: World, a: Act)
    requires Counted(w) && Allowed(w, a)
    ensures Shape(Perform(w, a))
  {
    var w' := Perform(w, a);
    if !a.Give? {
      OneThreadMoves(w, a);
      StepCounts(w, a);
    }
    forall u | 0 <= u < |w'.held|
      ensures Disciplined(w'.sys.threads[u], w'.held[u])
    {
      assert Disciplined(w.sys.threads[u], w.held[u]);
    }
  }

  lemma WrapCount(refs: nat, cell: Word, change: int, refs': nat)
    requires cell == refs % 0x1_0000_0000 && refs' == refs + change
    ensures WrappingAdd(cell, change) == refs' % 0x1_0000_0000
  {
    assert refs' == 0x1_0000_0000 * (refs / 0x1_0000_0000) + (cell + change);
  }

  /** The references outstanding move with those of the acting thread. */
  lemma OutstandingMoves(w: World, a: Act)
    requires |w.held| == |w.sys.threads| && Allowed(w, a) && !a.Give?
    ensures var t, w' := Actor(a), Perform(w, a);
            && |w'.sys.threads| == |w'.held| == |w.held| && t < |w.held|
            && Outstanding(w') == Outstanding(w) + Refs(w'.sys.threads[t], w'.held[t]) - Refs(w.sys.threads[t], w.held[t])
            && SumReleases(w'.sys.threads) ==
               SumReleases(w.sys.threads) + WillRelease(w'.sys.threads[t]) - WillRelease(w.sys.threads[t])
  {
    var t, w' := Actor(a), Perform(w, a);
    OneThreadMoves(w, a);
    UpdateSums(w.sys.threads, w.held, t, w'.sys.threads[t], w'.held[t]);
  }

  /** The cell follows the references outstanding, modulo 2^32. */
  lemma CellFollowsReferences(w: World, a: Act)
    requires Counted(w) && Allowed(w, a) && !a.Give?
    ensures |Perform(w, a).sys.threads| == |Perform(w, a).held|
    ensures Perform(w, a).sys.cell == Outstanding(Perform(w, a)) % 0x1_0000_0000
  {
    var t, w' := Actor(a), Perform(w, a);
    StepCounts(w, a);
    OutstandingMoves(w, a);
    var change := Refs(w'.sys.threads[t], w'.held[t]) - Refs(w.sys.threads[t], w.held[t]);
    WrapCount(Outstanding(w), w.sys.cell, change, Outstanding(w'));
  }

  lemma StepKeepsCounted(w: World, a: Act)
    requires Counted(w) && Allowed(w, a)
    ensures Counted(Perform(w, a))
  {
    StepKeepsShape(w, a);
    if a.Give? {
      GiveKeepsSums(w, a);
    } else {
      CellFollowsReferences(w, a);
    }
  }

  lemma {:induction false} RunKeepsCounted(w: World, acts: seq<Act>)
    requires Counted(w) && AllowedRun(w, acts)
    ensures Counted(Outcome(w, acts))
    decreases |acts|
  {
    if acts != [] {
      StepKeepsCounted(w, acts[0]);
      RunKeepsCounted(Perform(w, acts[0]), acts[1..]);
    }
  }

  lemma {:induction false} InitSums(threads: seq<Thread>, held: seq<nat>, t: nat)
    requires |threads| == |held| && forall u :: 0 <= u < |threads| ==> threads[u] == Thread(Idle, 0, 0)
    requires forall u :: 0 <= u < |held| ==> held[u] == if u == t then 1 else 0
    ensures SumRefs(threads, held) == (if t < |held| then 1 else 0) && SumReleases(threads) == 0
    decreases |threads|
  {
    if threads != [] {
      InitSums(threads[..|threads| - 1], held[..|held| - 1], t);
    }
  }

  lemma InitCounted(n: nat, t: nat)
    requires t < n
    ensures Counted(InitWorld(n, t)) && Outstanding(InitWorld(n, t)) == 1 && Releases(InitWorld(n, t)) == 0
  {
    InitSums(InitWorld(n, t).sys.threads, InitWorld(n, t).held, t);
  }

  /** The count is the number of outstanding references modulo 2^32, in every run without exception;
      as an `int32_t` it is that number, and positive, while there is one and fewer than 2^31. */
  lemma CountIsOutstanding(n: nat, t: nat, acts: seq<Act>)
    requires t < n && AllowedRun(InitWorld(n, t), acts)
    ensures var w := Outcome(InitWorld(n, t), acts);
            && |w.sys.threads| == |w.held| && w.sys.cell == Outstanding(w) % 0x1_0000_0000
            && (0 < Outstanding(w) < 0x8000_0000 ==> ToSigned(w.sys.cell) == Outstanding(w))
            && (forall u :: 0 <= u < |w.held| && w.held[u] > 0 ==> Outstanding(w) > 0)
  {
    var w := Outcome(InitWorld(n, t), acts);
    InitCounted(n, t);
    RunKeepsCounted(InitWorld(n, t), acts);
    forall u | 0 <= u < |w.held| && w.held[u] > 0
      ensures Outstanding(w) > 0
    {
      SumsInclude(w.sys.threads, w.held, u);
    }
  }

  /** A look at the count that takes effect in a reachable world changes nothing and returns the number
      of outstanding references there modulo 2^32, and with fewer than 2^31 that number, which is
      positive. */
  lemma CountReturnsOutstanding(n: nat, t: nat, acts: seq<Act>, u: nat)
    requires t < n && AllowedRun(InitWorld(n, t), acts)
    requires Allowed(Outcome(InitWorld(n, t), acts), Inner(Single(u)))
    ensures var w := Outcome(InitWorld(n, t), acts);
            && |w.sys.threads| == |w.held| && 0 < Outstanding(w)
            && LooksAt(w, u, Outstanding(w) % 0x1_0000_0000, Perform(w, Inner(Single(u))))
            && (Outstanding(w) < 0x8000_0000 ==> ToSigned(Outstanding(w) % 0x1_0000_0000) == Outstanding(w))
  {
    InitCounted(n, t);
    RunKeepsCounted(InitWorld(n, t), acts);
    LookSeesOutstanding(Outcome(InitWorld(n, t), acts), u);
  }

  /** Thread u's look at the count finds `count`, and only that thread's state changes. */
  ghost predicate LooksAt(w: World, u: nat, count: Word, w': World) {
    && w'.sys.cell == w.sys.cell && w'.held == w.held && w'.released == w.released
    && u < |w.sys.threads| == |w'.sys.threads|
    && w'.sys.threads == w.sys.threads[u := w'.sys.threads[u]]
    && var pc := w'.sys.threads[u].pc;
       pc.Returning? && pc.op == Read && pc.ret == count
  }

  lemma LookSeesOutstanding(w: World, u: nat)
    requires Counted(w) && Allowed(w, Inner(Single(u)))
    ensures 0 < Outstanding(w)
    ensures LooksAt(w, u, Outstanding(w) % 0x1_0000_0000, Perform(w, Inner(Single(u))))
  {
    assert Disciplined(w.sys.threads[u], w.held[u]);
    SumsInclude(w.sys.threads, w.held, u);
  }

  /* ---------- the cell underneath ---------- */

  function MachineSteps(a: Act): seq<Action> {
    match a
    case Get(t) => [Invoke(t, INC)]
    case Put(t) => [Invoke(t, DEC)]
    case Count(t) => [Invoke(t, Read)]
    case Inner(b) => [b]
    case Finish(t) => [Respond(t)]
    case Give(_, _) => []
  }

  function MachineRun(acts: seq<Act>): seq<Action> {
    if acts == [] then [] else MachineSteps(acts[0]) + MachineRun(acts[1..])
  }

  /** For the cell, every run is a run of the machine of atomic operations. */
  lemma {:induction false} IsMachineRun(w: World, acts: seq<Act>)
    requires AllowedRun(w, acts)
    ensures ValidRun(w.sys, MachineRun(acts)) && Exec(w.sys, MachineRun(acts)) == Outcome(w, acts).sys
    decreases |acts|
  {
    if acts != [] {
      var rest := MachineRun(acts[1..]);
      IsMachineRun(Perform(w, acts[0]), acts[1..]);
      assert acts[0].Give? ==> MachineRun(acts) == rest;
      assert !acts[0].Give? ==> MachineRun(acts)[0] == MachineSteps(acts[0])[0] && MachineRun(acts)[1..] == rest;
    }
  }

  lemma ReachesInv(n: nat, t: nat, acts: seq<Act>)
    requires t < n && AllowedRun(InitWorld(n, t), acts)
    ensures Inv(Outcome(InitWorld(n, t), acts).sys)
  {
    InitInv(1, n);
    IsMachineRun(InitWorld(n, t), acts);
    RunKeepsInv(Init(1, n), MachineRun(acts));
  }

  /** Gets, puts and looks at the count finish: at most 2 * n + 2 steps for each of them, under every
      schedule. */
  lemma CallsFinish(n: nat, t: nat, acts: seq<Act>)
    requires t < n && AllowedRun(InitWorld(n, t), acts)
    ensures |MachineRun(acts)| <= (2 * n + 2) * Invocations(MachineRun(acts))
  {
    IsMachineRun(InitWorld(n, t), acts);
    StepsBounded(1, n, MachineRun(acts));
  }

  /* ---------- release ---------- */

  const MAX_REFS: nat := 0x1_0000_0000

  /** No state of the run has more than `limit` references. */
  ghost predicate Within(w: World, acts: seq<Act>, limit: nat)
    requires AllowedRun(w, acts)
    decreases |acts|
  {
    && (|w.sys.threads| == |w.held| ==> Outstanding(w) <= limit)
    && (acts != [] ==> Within(Perform(w, acts[0]), acts[1..], limit))
  }

  /** While references are outstanding no callback has run or is due; once there are none, one has, or
      is due in the thread whose put took effect last. */
  ghost predicate ReleaseInv(w: World) {
    && Counted(w)
    && Releases(w) == (if Outstanding(w) > 0 then 0 else 1)
    && forall t :: 0 <= t < |w.held| && WillRelease(w.sys.threads[t]) == 1 ==> w.sys.threads[t].pc.at + 1 == |w.sys.log|
  }

  /** With no reference left, every thread has finished its accesses to the count, and can only return. */
  lemma OnlyReturnsWithoutReferences(w: World, a: Act)
    requires Counted(w) && Outstanding(w) == 0 && Allowed(w, a)
    ensures a.Finish? && w.sys.threads[a.t].pc.op != INC
  {
    SumsInclude(w.sys.threads, w.held, Actor(a));
    assert Disciplined(w.sys.threads[Actor(a)], w.held[Actor(a)]);
  }

  /** While no callback is due, a step makes one due exactly when it drops the last reference. */
  lemma LastDropIsDue(w: World, a: Act)
    requires Counted(w) && Allowed(w, a) && !a.Give?
    requires 0 < Outstanding(w) <= MAX_REFS && WillRelease(w.sys.threads[Actor(a)]) == 0
    ensures var t, w' := Actor(a), Perform(w, a);
            var change := Refs(w'.sys.threads[t], w'.held[t]) - Refs(w.sys.threads[t], w.held[t]);
            && w'.released == w.released
            && (WillRelease(w'.sys.threads[t]) == 1 <==> Outstanding(w) + change == 0)
            && (WillRelease(w'.sys.threads[t]) == 1 ==> w'.sys.threads[t].pc.at + 1 == |w'.sys.log|)
  {
    assert Disciplined(w.sys.threads[Actor(a)], w.held[Actor(a)]);
  }

  lemma StepWithReferences(w: World, a: Act)
    requires ReleaseInv(w) && 0 < Outstanding(w) <= MAX_REFS && Allowed(w, a) && !a.Give?
    ensures ReleaseInv(Perform(w, a))
  {
    var t, w' := Actor(a), Perform(w, a);
    NoneDue(w);
    OneThreadMoves(w, a);
    LastDropIsDue(w, a);
    StepKeepsCounted(w, a);
    OutstandingMoves(w, a);
  }

  lemma StepWithoutReferences(w: World, a: Act)
    requires ReleaseInv(w) && Outstanding(w) == 0 && Allowed(w, a)
    ensures ReleaseInv(Perform(w, a)) && Outstanding(Perform(w, a)) == 0
    ensures Perform(w, a).sys.log == w.sys.log && Perform(w, a).sys.cell == w.sys.cell
    ensures Perform(w, a).released >= w.released
  {
    var t, w' := Actor(a), Perform(w, a);
    OnlyReturnsWithoutReferences(w, a);
    OneThreadMoves(w, a);
    StepKeepsCounted(w, a);
    OutstandingMoves(w, a);
  }

  lemma StepKeepsReleaseInv(w: World, a: Act)
    requires ReleaseInv(w) && Outstanding(w) <= MAX_REFS && Allowed(w, a)
    ensures ReleaseInv(Perform(w, a))
  {
    if a.Give? {
      StepKeepsCounted(w, a);
      GiveKeepsSums(w, a);
    } else if Outstanding(w) > 0 {
      StepWithReferences(w, a);
    } else {
      StepWithoutReferences(w, a);
    }
  }

  lemma NoneDue(w: World)
    requires |w.held| == |w.sys.threads| && Releases(w) == 0
    ensures forall t :: 0 <= t < |w.held| ==> WillRelease(w.sys.threads[t]) == 0
  {
    forall t | 0 <= t < |w.held|
      ensures WillRelease(w.sys.threads[t]) == 0
    {
      SumsInclude(w.sys.threads, w.held, t);
    }
  }

  lemma {:induction false} RunKeepsReleaseInv(w: World, acts: seq<Act>)
    requires ReleaseInv(w) && AllowedRun(w, acts) && Within(w, acts, MAX_REFS)
    ensures ReleaseInv(Outcome(w, acts))
    decreases |acts|
  {
    if acts != [] {
      StepKeepsReleaseInv(w, acts[0]);
      RunKeepsReleaseInv(Perform(w, acts[0]), acts[1..]);
    }
  }

  lemma InitReleaseInv(n: nat, t: nat)
    requires t < n
    ensures ReleaseInv(InitWorld(n, t))
  {
    InitCounted(n, t);
    NoneDue(InitWorld(n, t));
  }

  /** For every interleaving of any number of threads with at most 2^32 references at a time: the
      callback runs at most once; when it has run no reference is outstanding; and when no call is in
      progress it has run exactly when no reference is left. */
  lemma ReleasedExactlyOnce(n: nat, t: nat, acts: seq<Act>)
    requires t < n && AllowedRun(InitWorld(n, t), acts) && Within(InitWorld(n, t), acts, MAX_REFS)
    ensures var w := Outcome(InitWorld(n, t), acts);
            && |w.sys.threads| == |w.held|
            && w.released <= 1
            && (w.released == 1 ==> Outstanding(w) == 0)
            && (Quiescent(w.sys) ==> (w.released == 1 <==> Outstanding(w) == 0))
  {
    var w := Outcome(InitWorld(n, t), acts);
    InitReleaseInv(n, t);
    RunKeepsReleaseInv(InitWorld(n, t), acts);
    if Quiescent(w.sys) {
      NoReleaseDueWhenQuiescent(w.sys.threads);
    }
  }

  lemma {:induction false} NoReleaseDueWhenQuiescent(threads: seq<Thread>)
    requires forall t :: 0 <= t < |threads| ==> threads[t].pc.Idle?
    ensures SumReleases(threads) == 0
    decreases |threads|
  {
    if threads != [] {
      NoReleaseDueWhenQuiescent(threads[..|threads| - 1]);
    }
  }

  /** What the invariant says about a return that runs the callback. */
  lemma ReleaserIsLast(w: World, u: nat)
    requires ReleaseInv(w) && Inv(w.sys) && Allowed(w, Finish(u)) && Perform(w, Finish(u)).released > w.released
    ensures Outstanding(w) == 0 && w.released == 0
    ensures |w.sys.log| > 0 && w.sys.log[|w.sys.log| - 1] == Entry(u, DEC, 1, 1)
  {
    SumsInclude(w.sys.threads, w.held, u);
    assert WillRelease(w.sys.threads[u]) == 1;
    CallOutcome(w.sys, u);
  }

  /** The callback is run by the put that dropped the last reference: its decrement is the last entry
      in the log, no callback ran before it, and no reference is outstanding when it runs. */
  lemma ReleaserDroppedTheLast(n: nat, t: nat, acts: seq<Act>, u: nat)
    requires t < n && AllowedRun(InitWorld(n, t), acts) && Within(InitWorld(n, t), acts, MAX_REFS)
    requires var w := Outcome(InitWorld(n, t), acts);
             Allowed(w, Finish(u)) && Perform(w, Finish(u)).released > w.released
    ensures var w := Outcome(InitWorld(n, t), acts);
            && |w.sys.threads| == |w.held| && Outstanding(w) == 0 && w.released == 0
            && |w.sys.log| > 0 && w.sys.log[|w.sys.log| - 1] == Entry(u, DEC, 1, 1)
  {
    InitReleaseInv(n, t);
    RunKeepsReleaseInv(InitWorld(n, t), acts);
    ReachesInv(n, t, acts);
    ReleaserIsLast(Outcome(InitWorld(n, t), acts), u);
  }

  lemma {:induction false} DeadWorldStays(w: World, acts: seq<Act>)
    requires ReleaseInv(w) && Outstanding(w) == 0 && AllowedRun(w, acts)
    ensures var w' := Outcome(w, acts);
            && ReleaseInv(w') && Outstanding(w') == 0
            && w'.sys.log == w.sys.log && w'.sys.cell == w.sys.cell && w'.released >= w.released
    decreases |acts|
  {
    if acts != [] {
      StepWithoutReferences(w, acts[0]);
      DeadWorldStays(Perform(w, acts[0]), acts[1..]);
    }
  }

  /** After the callback the object is gone for good: no thread can begin a call, none is about to
      load or to compare-and-swap the count, and no continuation changes it or releases again. */
  lemma NoAccessAfterRelease(n: nat, t: nat, acts: seq<Act>, more: seq<Act>)
    requires t < n && AllowedRun(InitWorld(n, t), acts) && Within(InitWorld(n, t), acts, MAX_REFS)
    requires Outcome(InitWorld(n, t), acts).released > 0
    requires AllowedRun(Outcome(InitWorld(n, t), acts), more)
    ensures var w, w' := Outcome(InitWorld(n, t), acts), Outcome(Outcome(InitWorld(n, t), acts), more);
            && w'.released == 1 && w'.sys.log == w.sys.log && w'.sys.cell == w.sys.cell
            && (forall a :: Allowed(w', a) ==> a.Finish?)
  {
    var w := Outcome(InitWorld(n, t), acts);
    InitReleaseInv(n, t);
    RunKeepsReleaseInv(InitWorld(n, t), acts);
    DeadWorldStays(w, more);
    var w' := Outcome(w, more);
    forall a | Allowed(w', a)
      ensures a.Finish?
    {
      OnlyReturnsWithoutReferences(w', a);
    }
  }

  /* ---------- the limit is exact ---------- */

  lemma {:induction false} RunThen(w: World, acts: seq<Act>, more: seq<Act>, limit: nat)
    requires AllowedRun(w, acts) && Within(w, acts, limit)
    requires AllowedRun(Outcome(w, acts), more) && Within(Outcome(w, acts), more, limit)
    ensures AllowedRun(w, acts + more) && Within(w, acts + more, limit)
    ensures Outcome(w, acts + more) == Outcome(Outcome(w, acts), more)
    decreases |acts|
  {
    if acts == [] {
      assert acts + more == more;
    } else {
      assert (acts + more)[1..] == acts[1..] + more;
      RunThen(Perform(w, acts[0]), acts[1..], more, limit);
    }
  }

  /** A world with a single thread that is between calls and holds `refs` references. */
  ghost predicate Alone(w: World, refs: nat) {
    && |w.sys.threads| == 1 && w.sys.threads[0].pc.Idle? && w.held == [refs]
    && Counted(w) && w.sys.cell == refs % 0x1_0000_0000
  }

  lemma AloneOutstanding(w: World, refs: nat)
    requires |w.sys.threads| == 1 && |w.held| == 1
    ensures Outstanding(w) == Refs(w.sys.threads[0], w.held[0])
  {
    assert SumRefs(w.sys.threads[..0], w.held[..0]) == 0;
  }

  lemma OneAct(w: World, a: Act, limit: nat)
    requires Allowed(w, a)
    requires (|w.sys.threads| == |w.held| ==> Outstanding(w) <= limit)
    requires var w' := Perform(w, a); (|w'.sys.threads| == |w'.held| ==> Outstanding(w') <= limit)
    ensures AllowedRun(w, [a]) && Within(w, [a], limit) && Outcome(w, [a]) == Perform(w, a)
  {
    assert [a][1..] == [];
    assert AllowedRun(Perform(w, a), []) && Within(Perform(w, a), [], limit);
  }

  /** One undisturbed get. */
  lemma AloneGets(w: World, refs: nat, limit: nat) returns (acts: seq<Act>)
    requires Alone(w, refs) && 0 < refs < limit
    ensures AllowedRun(w, acts) && Within(w, acts, limit)
    ensures Alone(Outcome(w, acts), refs + 1) && Outcome(w, acts).released == w.released
  {
    acts := AloneCalls(w, refs, Get(0), limit);
  }

  /** The steps of an undisturbed call of thread 0. */
  function DirectCall(call: Act): seq<Act> {
    [call] + [Inner(LoadPrev(0))] + [Inner(TryCas(0))] + [Finish(0)]
  }

  lemma FourActs(w: World, a: Act, b: Act, c: Act, d: Act, limit: nat)
    requires Allowed(w, a)
    requires var w1 := Perform(w, a); AloneWithin(w, limit) && AloneWithin(w1, limit) && Allowed(w1, b)
    requires var w2 := Perform(Perform(w, a), b); AloneWithin(w2, limit) && Allowed(w2, c)
    requires var w3 := Perform(Perform(Perform(w, a), b), c); AloneWithin(w3, limit) && Allowed(w3, d)
    requires AloneWithin(Perform(Perform(Perform(Perform(w, a), b), c), d), limit)
    ensures var acts := [a] + [b] + [c] + [d];
            && AllowedRun(w, acts) && Within(w, acts, limit)
            && Outcome(w, acts) == Perform(Perform(Perform(Perform(w, a), b), c), d)
  {
    var w1 := Perform(w, a);
    var w2 := Perform(w1, b);
    OneAct(w, a, limit);
    OneAct(w1, b, limit);
    OneAct(w2, c, limit);
    OneAct(Perform(w2, c), d, limit);
    RunThen(w, [a], [b], limit);
    RunThen(w, [a] + [b], [c], limit);
    RunThen(w, [a] + [b] + [c], [d], limit);
  }

  ghost predicate AloneWithin(w: World, limit: nat) {
    |w.sys.threads| == |w.held| ==> Outstanding(w) <= limit
  }

  /** The four worlds of an undisturbed call. */
  lemma DirectCallSteps(w: World, refs: nat, call: Act, limit: nat)
    requires Alone(w, refs) && 0 < refs <= limit && (call == Put(0) || (call == Get(0) && refs < limit))
    ensures var w1 := Perform(w, call); AloneWithin(w, limit) && AloneWithin(w1, limit) && Allowed(w1, Inner(LoadPrev(0)))
    ensures var w2 := Perform(Perform(w, call), Inner(LoadPrev(0))); AloneWithin(w2, limit) && Allowed(w2, Inner(TryCas(0)))
    ensures var w3 := Perform(Perform(Perform(w, call), Inner(LoadPrev(0))), Inner(TryCas(0)));
            && AloneWithin(w3, limit) && Allowed(w3, Finish(0))
            && AloneWithin(Perform(w3, Finish(0)), limit)
            && Perform(w3, Finish(0)).held == [if call == Get(0) then refs + 1 else refs - 1]
            && |Perform(w3, Finish(0)).sys.threads| == 1 && Perform(w3, Finish(0)).sys.threads[0].pc.Idle?
            && Perform(w3, Finish(0)).released ==
               w.released + (if call == Put(0) && refs % 0x1_0000_0000 == 1 then 1 else 0)
  {
    var w1 := Perform(w, call);
    var w2 := Perform(w1, Inner(LoadPrev(0)));
    var w3 := Perform(w2, Inner(TryCas(0)));
    var w4 := Perform(w3, Finish(0));
    AloneOutstanding(w, refs);
    AloneOutstanding(w1, refs);
    AloneOutstanding(w2, refs);
    AloneOutstanding(w3, refs);
    AloneOutstanding(w4, refs);
  }

  /** One undisturbed call, get or put, from invocation to return. */
  lemma AloneCalls(w: World, refs: nat, call: Act, limit: nat) returns (acts: seq<Act>)
    requires Alone(w, refs) && 0 < refs <= limit && (call == Put(0) || (call == Get(0) && refs < limit))
    ensures AllowedRun(w, acts) && Within(w, acts, limit)
    ensures Alone(Outcome(w, acts), if call == Get(0) then refs + 1 else refs - 1)
    ensures Outcome(w, acts).released ==
            w.released + (if call == Put(0) && refs % 0x1_0000_0000 == 1 then 1 else 0)
  {
    acts := DirectCall(call);
    DirectCallSteps(w, refs, call, limit);
    FourActs(w, call, Inner(LoadPrev(0)), Inner(TryCas(0)), Finish(0), limit);
    RunKeepsCounted(w, acts);
    AloneOutstanding(Outcome(w, acts), refs);
  }

  /** Any number of references can be taken. */
  lemma {:induction false} AloneReaches(refs: nat, limit: nat) returns (acts: seq<Act>)
    requires 0 < refs <= limit
    ensures AllowedRun(InitWorld(1, 0), acts) && Within(InitWorld(1, 0), acts, limit)
    ensures Alone(Outcome(InitWorld(1, 0), acts), refs) && Outcome(InitWorld(1, 0), acts).released == 0
    decreases refs
  {
    if refs == 1 {
      InitCounted(1, 0);
      acts := [];
      assert InitWorld(1, 0).held == [1];
    } else {
      var first := AloneReaches(refs - 1, limit);
      var last := AloneGets(Outcome(InitWorld(1, 0), first), refs - 1, limit);
      RunThen(InitWorld(1, 0), first, last, limit);
      acts := first + last;
    }
  }

  /** Every run with at most `limit` references at a time releases only without references. */
  ghost predicate SafeUpTo(limit: nat) {
    forall n: nat, t: nat, acts: seq<Act> ::
      t < n && AllowedRun(InitWorld(n, t), acts) && Within(InitWorld(n, t), acts, limit)
      && Outcome(InitWorld(n, t), acts).released > 0
      ==> NoneLeft(Outcome(InitWorld(n, t), acts))
  }

  ghost predicate NoneLeft(w: World) {
    |w.sys.threads| == |w.held| && Outstanding(w) == 0
  }

  lemma {:induction false} WithinLess(w: World, acts: seq<Act>, limit: nat, more: nat)
    requires AllowedRun(w, acts) && Within(w, acts, limit) && limit <= more
    ensures Within(w, acts, more)
    decreases |acts|
  {
    if acts != [] {
      WithinLess(Perform(w, acts[0]), acts[1..], limit, more);
    }
  }

  lemma WrappedPut(w: World, refs: nat, limit: nat) returns (acts: seq<Act>)
    requires Alone(w, refs) && refs == MAX_REFS + 1 && refs <= limit && w.released == 0
    ensures AllowedRun(w, acts) && Within(w, acts, limit)
    ensures Outcome(w, acts).released == 1 && Outcome(w, acts).held == [refs - 1]
    ensures !NoneLeft(Outcome(w, acts))
  {
    acts := AloneCalls(w, refs, Put(0), limit);
    AloneOutstanding(Outcome(w, acts), refs - 1);
  }

  /** With 2^32 + 1 references the count has wrapped to one, and a put releases. */
  lemma WrappedCountReleasesEarly(limit: nat) returns (acts: seq<Act>)
    requires limit > MAX_REFS
    ensures AllowedRun(InitWorld(1, 0), acts) && Within(InitWorld(1, 0), acts, limit)
    ensures Outcome(InitWorld(1, 0), acts).released == 1 && Outcome(InitWorld(1, 0), acts).held == [MAX_REFS]
    ensures !NoneLeft(Outcome(InitWorld(1, 0), acts))
  {
    var w, refs := InitWorld(1, 0), MAX_REFS + 1;
    var first := AloneReaches(refs, limit);
    var put := WrappedPut(Outcome(w, first), refs, limit);
    RunThen(w, first, put, limit);
    acts := first + put;
  }

  lemma SafeWithin(limit: nat, n: nat, t: nat, acts: seq<Act>)
    requires limit <= MAX_REFS
    requires t < n && AllowedRun(InitWorld(n, t), acts) && Within(InitWorld(n, t), acts, limit)
    requires Outcome(InitWorld(n, t), acts).released > 0
    ensures NoneLeft(Outcome(InitWorld(n, t), acts))
  {
    WithinLess(InitWorld(n, t), acts, limit, MAX_REFS);
    ReleasedExactlyOnce(n, t, acts);
  }

  /** The protocol is safe exactly up to 2^32 references at a time: with one more, the count wraps and
      a put releases while 2^32 references are still held. */
  lemma LimitIsExact(limit: nat)
    ensures SafeUpTo(limit) <==> limit <= MAX_REFS
  {
    if limit <= MAX_REFS {
      forall n: nat, t: nat, acts: seq<Act> |
        t < n && AllowedRun(InitWorld(n, t), acts) && Within(InitWorld(n, t), acts, limit)
        && Outcome(InitWorld(n, t), acts).released > 0
        ensures NoneLeft(Outcome(InitWorld(n, t), acts))
      {
        SafeWithin(limit, n, t, acts);
      }
    } else {
      var acts := WrappedCountReleasesEarly(limit);
    }
  }
}

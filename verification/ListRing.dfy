/** The intrusive circular doubly linked list. A ring is a sequence of distinct nodes, the sentinel
    head first, whose `next` and `prev` fields lead around it in both directions. */
module ListRing {

  class Node {
    var next: Node?
    var prev: Node?

    /** A node as it is before it is initialised or added: its links are unspecified. */
    constructor () {
    }
  }

  /** The index one step ahead of i in a ring of n nodes. */
  function Succ(i: nat, n: nat): (j: nat)
    requires i < n
    ensures j < n
  {
    if i + 1 < n then i + 1 else 0
  }

  function Pred(i: nat, n: nat): (j: nat)
    requires i < n
    ensures j < n && Succ(j, n) == i
  {
    if i > 0 then i - 1 else n - 1
  }

  ghost predicate Distinct(ns: seq<Node>) {
    forall i, j :: 0 <= i < j < |ns| ==> ns[i] != ns[j]
  }

  ghost predicate Ring(ns: seq<Node>)
    reads ns
  {
    && |ns| > 0
    && Distinct(ns)
    && (forall i {:trigger ns[i].next} :: 0 <= i < |ns| ==> ns[i].next == ns[Succ(i, |ns|)])
    && (forall i {:trigger ns[i].prev} :: 0 <= i < |ns| ==> ns[i].prev == ns[Pred(i, |ns|)])
  }

  /** In a ring each node is linked to those after and before it, around the end. */
  lemma RingLinks(ns: seq<Node>, i: nat)
    requires Ring(ns) && i < |ns|
    ensures ns[i].next == (if i == |ns| - 1 then ns[0] else ns[i + 1])
    ensures ns[i].prev == (if i == 0 then ns[|ns| - 1] else ns[i - 1])
  {
  }

  ghost predicate Disjoint(ns: seq<Node>, ms: seq<Node>) {
    forall x :: x in ns ==> x !in ms
  }

  /** The ring without its node at index k. */
  ghost function Without(ns: seq<Node>, k: nat): seq<Node>
    requires k < |ns|
  {
    ns[..k] + ns[k + 1..]
  }

  /** Following `next` from the head reaches the nodes in one order only: the heap determines the ring. */
  lemma {:induction false} RingUnique(ns: seq<Node>, ms: seq<Node>)
    requires Ring(ns) && Ring(ms) && ns[0] == ms[0]
    ensures ns == ms
  {
    if |ns| <= |ms| {
      RingPrefix(ns, ms, |ns|);
    } else {
      RingPrefix(ms, ns, |ms|);
    }
  }

  lemma {:induction false} RingPrefix(ns: seq<Node>, ms: seq<Node>, k: nat)
    requires Ring(ns) && Ring(ms) && ns[0] == ms[0]
    requires 1 <= k <= |ns| <= |ms|
    ensures ns[..k] == ms[..k]
    ensures k == |ns| ==> |ns| == |ms|
  {
    if k > 1 {
      RingPrefix(ns, ms, k - 1);
      assert ns[..k - 1][k - 2] == ms[..k - 1][k - 2];
      assert ns[k - 2].next == ns[k - 1] && ms[k - 2].next == ms[k - 1];
    }
    assert ns[k - 1] == ms[k - 1];
    assert ns[k - 1].next == ns[Succ(k - 1, |ns|)] && ms[k - 1].next == ms[Succ(k - 1, |ms|)];
  }

  /** The links around node k lead past it, all other links are those of the ring. */
  lemma WithoutIsRing(ns: seq<Node>, k: nat)
    requires 1 < |ns| && k < |ns| && Distinct(ns)
    requires forall i {:trigger ns[i].next} :: 0 <= i < |ns| && i != k ==>
               ns[i].next == ns[if i == Pred(k, |ns|) then Succ(k, |ns|) else Succ(i, |ns|)]
    requires forall i {:trigger ns[i].prev} :: 0 <= i < |ns| && i != k ==>
               ns[i].prev == ns[if i == Succ(k, |ns|) then Pred(k, |ns|) else Pred(i, |ns|)]
    ensures Ring(Without(ns, k))
  {
    var ms := Without(ns, k);
    forall i | 0 <= i < |ms|
      ensures ms[i].next == ms[Succ(i, |ms|)]
    {
      assert ms[i] == ns[if i < k then i else i + 1];
    }
    forall i | 0 <= i < |ms|
      ensures ms[i].prev == ms[Pred(i, |ms|)]
    {
      assert ms[i] == ns[if i < k then i else i + 1];
    }
  }

  /** The ring with a node inserted before index k, which for k == |ns| is before the head. */
  ghost function With(ns: seq<Node>, k: nat, item: Node): seq<Node>
    requires k <= |ns|
  {
    ns[..k] + [item] + ns[k..]
  }

  /** The links around index k lead through the new node, all other links are those of the ring. */
  lemma WithIsRing(ns: seq<Node>, k: nat, item: Node)
    requires 1 <= k <= |ns| && Distinct(ns) && item !in ns
    requires var at := if k < |ns| then k else 0;
             && item.next == ns[at] && item.prev == ns[k - 1]
             && (forall i {:trigger ns[i].next} :: 0 <= i < |ns| ==>
                   ns[i].next == if i == k - 1 then item else ns[Succ(i, |ns|)])
             && (forall i {:trigger ns[i].prev} :: 0 <= i < |ns| ==>
                   ns[i].prev == if i == at then item else ns[Pred(i, |ns|)])
    ensures Ring(With(ns, k, item))
  {
    var ms := With(ns, k, item);
    forall i | 0 <= i < |ms|
      ensures ms[i].next == ms[Succ(i, |ms|)] && ms[i].prev == ms[Pred(i, |ms|)]
    {
      assert i != k ==> ms[i] == ns[if i < k then i else i - 1];
    }
  }

  method ListInit(node: Node)
    modifies node
    ensures Ring([node])
  {
    node.next := node;
    node.prev := node;
  }

  method ListAddTail(head: Node, item: Node, ghost ns: seq<Node>)
    requires Ring(ns) && ns[0] == head && item !in ns
    modifies item, head, head.prev
    ensures Ring(ns + [item])
  {
    assert head.prev == ns[|ns| - 1];
    item.next := head;
    item.prev := head.prev;
    head.prev.next := item;
    head.prev := item;
    WithIsRing(ns, |ns|, item);
    assert With(ns, |ns|, item) == ns + [item];
  }

  method ListAddHead(head: Node, item: Node, ghost ns: seq<Node>)
    requires Ring(ns) && ns[0] == head && item !in ns
    modifies item, head, head.next
    ensures Ring([head, item] + ns[1..])
  {
    assert head.next == ns[Succ(0, |ns|)];
    item.next := head.next;
    item.prev := head;
    head.next.prev := item;
    head.next := item;
    WithIsRing(ns, 1, item);
    assert With(ns, 1, item) == [head, item] + ns[1..];
  }

  /** Any node may be removed, the head included; the removed node keeps its own links. Removing the
      only node of a ring leaves it as it is. */
  method ListRemove(item: Node, ghost ns: seq<Node>, ghost k: nat)
    requires Ring(ns) && k < |ns| && ns[k] == item
    modifies item.next, item.prev
    ensures |ns| > 1 ==> Ring(Without(ns, k)) && item.next == old(item.next) && item.prev == old(item.prev)
    ensures |ns| == 1 ==> Ring(ns)
  {
    item.next.prev := item.prev;
    item.prev.next := item.next;
    if |ns| > 1 {
      WithoutIsRing(ns, k);
    }
  }

  method ListEmpty(list: Node, ghost ns: seq<Node>) returns (r: bool)
    requires Ring(ns) && ns[0] == list
    ensures r <==> ns == [list]
  {
    r := list == list.next;
    assert ns[0].next == ns[Succ(0, |ns|)];
  }

  method ListHead(list: Node, ghost ns: seq<Node>) returns (r: Node)
    requires Ring(ns) && ns[0] == list
    ensures r == if |ns| > 1 then ns[1] else list
  {
    r := list.next;
  }

  /* ---------- traversals ---------- */

  function Reversed<T>(s: seq<T>): seq<T> {
    if s == [] then [] else [s[|s| - 1]] + Reversed(s[..|s| - 1])
  }

  lemma {:induction false} ReversedAt<T>(s: seq<T>, k: nat)
    requires k < |s|
    ensures |Reversed(s)| == |s| && Reversed(s)[k] == s[|s| - 1 - k]
    decreases |s|
  {
    if k > 0 {
      ReversedAt(s[..|s| - 1], k - 1);
    } else if |s| > 1 {
      ReversedAt(s[..|s| - 1], 0);
    }
  }

  /** `list_for_each` with a body that leaves the links alone. */
  method ForEach(list: Node, ghost ns: seq<Node>) returns (visited: seq<Node>)
    requires Ring(ns) && ns[0] == list
    ensures visited == ns[1..]
  {
    visited := [];
    var node := list.next;
    ghost var i := 1;
    while node != list
      invariant 1 <= i <= |ns| && node == ns[if i < |ns| then i else 0]
      invariant visited == ns[1..i]
      decreases |ns| - i
    {
      visited := visited + [node];
      node := node.next;
      i := i + 1;
    }
  }

  /** `list_for_each_reverse`: the exact reverse of the forward traversal. */
  method ForEachReverse(list: Node, ghost ns: seq<Node>) returns (visited: seq<Node>)
    requires Ring(ns) && ns[0] == list
    ensures visited == Reversed(ns[1..])
  {
    visited := [];
    var node := list.prev;
    ghost var i := |ns|;
    assert ns[1..i] == ns[1..];
    while node != list
      invariant 1 <= i <= |ns| && node == ns[i - 1]
      invariant visited + Reversed(ns[1..i]) == Reversed(ns[1..])
      decreases i
    {
      assert ns[1..i][..i - 2] == ns[1..i - 1];
      visited := visited + [node];
      node := node.prev;
      i := i - 1;
    }
  }

  /** The members of s inside, or outside, a set, in the order of s. */
  function Select(s: seq<Node>, chosen: set<Node>, inside: bool): seq<Node>
  {
    if s == [] then []
    else
      var last := s[|s| - 1];
      Select(s[..|s| - 1], chosen, inside) + (if (last in chosen) == inside then [last] else [])
  }

  lemma {:induction false} SelectMembers(s: seq<Node>, chosen: set<Node>, inside: bool, x: Node)
    ensures x in Select(s, chosen, inside) <==> x in s && (x in chosen) == inside
    decreases |s|
  {
    if s != [] {
      SelectMembers(s[..|s| - 1], chosen, inside, x);
      assert s == s[..|s| - 1] + [s[|s| - 1]];
    }
  }

  lemma AppendedMultiset(a: seq<Node>, b: seq<Node>, s: seq<Node>, x: Node)
    requires multiset(a) + multiset(b) == multiset(s)
    ensures multiset(a + [x]) + multiset(b) == multiset(s + [x])
    ensures multiset(a) + multiset(b + [x]) == multiset(s + [x])
  {
  }

  /** Selecting the members and the others splits the sequence without loss. */
  lemma {:induction false} SelectPartitions(s: seq<Node>, chosen: set<Node>)
    ensures multiset(Select(s, chosen, true)) + multiset(Select(s, chosen, false)) == multiset(s)
    decreases |s|
  {
    if s != [] {
      var rest, last := s[..|s| - 1], s[|s| - 1];
      SelectPartitions(rest, chosen);
      assert s == rest + [last];
      var a, b := Select(rest, chosen, true), Select(rest, chosen, false);
      assert a + [] == a && b + [] == b;
      AppendedMultiset(a, b, rest, last);
    }
  }

  lemma SelectNext(ns: seq<Node>, i: nat, chosen: set<Node>, inside: bool)
    requires 1 <= i < |ns|
    ensures ns[1..i + 1] == ns[1..i] + [ns[i]]
    ensures Select(ns[1..i + 1], chosen, inside)
            == Select(ns[1..i], chosen, inside) + (if (ns[i] in chosen) == inside then [ns[i]] else [])
  {
    assert ns[1..i + 1][..i - 1] == ns[1..i];
  }

  /** The ring in the middle of a traversal that has kept `kept` and not yet reached index i. */
  ghost function Midway(ns: seq<Node>, i: nat, kept: seq<Node>): seq<Node>
    requires 1 <= i <= |ns|
  {
    [ns[0]] + kept + ns[i..]
  }

  lemma MidwayStep(ns: seq<Node>, i: nat, kept: seq<Node>)
    requires 1 <= i < |ns|
    ensures Midway(ns, i, kept)[|kept| + 1] == ns[i]
    ensures Without(Midway(ns, i, kept), |kept| + 1) == Midway(ns, i + 1, kept)
    ensures Midway(ns, i, kept) == Midway(ns, i + 1, kept + [ns[i]])
    ensures i + 1 < |ns| ==> Midway(ns, i, kept)[|kept| + 2] == ns[i + 1]
    ensures |Midway(ns, i, kept)| == 1 + |kept| + |ns| - i
  {
  }

  lemma MidwayEnd(ns: seq<Node>, kept: seq<Node>)
    requires |ns| > 0
    ensures ns[1..|ns|] == ns[1..]
    ensures Midway(ns, |ns|, kept) == [ns[0]] + kept
  {
  }

  lemma Neighbours(ns: seq<Node>, k: nat)
    requires Ring(ns) && k < |ns|
    ensures ns[k].next == ns[Succ(k, |ns|)] && ns[k].prev == ns[Pred(k, |ns|)]
    ensures ns[k].next in ns && ns[k].prev in ns
  {
  }

  /** The state of a safe traversal at its loop test: `node` is the i-th original node, or the head
      at the end, and `n` its successor, read before the body runs. */
  ghost predicate Traversing(ns: seq<Node>, i: nat, kept: seq<Node>, node: Node, n: Node?)
    requires 1 <= i <= |ns|
    reads Midway(ns, i, kept), node
  {
    && Ring(Midway(ns, i, kept))
    && node == ns[if i < |ns| then i else 0] && n == node.next
    && forall x :: x in kept ==> x in ns
  }

  lemma TraversingLinks(ns: seq<Node>, i: nat, kept: seq<Node>, node: Node, n: Node?)
    requires 1 <= i < |ns| && Traversing(ns, i, kept, node, n)
    ensures n == ns[if i + 1 < |ns| then i + 1 else 0]
    ensures node.next in ns && node.prev in ns
  {
    MidwayStep(ns, i, kept);
    Neighbours(Midway(ns, i, kept), |kept| + 1);
  }

  /** One iteration: the body with `list_remove` on a dropped node, then the two cursors advance. */
  method RemoveStep(node: Node, n: Node?, drop: set<Node>, ghost ns: seq<Node>, ghost i: nat, ghost kept: seq<Node>)
    returns (node': Node, n': Node?, ghost kept': seq<Node>)
    requires 1 <= i < |ns| && Traversing(ns, i, kept, node, n)
    modifies ns
    ensures kept' == if node in drop then kept else kept + [node]
    ensures Traversing(ns, i + 1, kept', node', n')
  {
    kept' := if node in drop then kept else kept + [node];
    TraversingLinks(ns, i, kept, node, n);
    MidwayStep(ns, i, kept);
    if node in drop {
      ListRemove(node, Midway(ns, i, kept), |kept| + 1);
    }
    node' := n;
    n' := node'.next;
  }

  /** `list_for_each_safe` with a body that removes the current node when it is in `drop`: every
      original element is visited once in order, and the kept ones stay in their order. */
  method ForEachSafeRemove(list: Node, drop: set<Node>, ghost ns: seq<Node>) returns (visited: seq<Node>)
    requires Ring(ns) && ns[0] == list
    modifies ns
    ensures visited == ns[1..]
    ensures Ring([list] + Select(ns[1..], drop, false))
  {
    visited := [];
    ghost var i: nat, kept: seq<Node> := 1, [];
    assert ns == Midway(ns, 1, []);
    Neighbours(ns, 0);
    var node: Node, n: Node? := list.next, list.next.next;
    while node != list
      invariant 1 <= i <= |ns| && Traversing(ns, i, kept, node, n)
      invariant visited == ns[1..i] && kept == Select(ns[1..i], drop, false)
      decreases |ns| - i
    {
      SelectNext(ns, i, drop, false);
      visited := visited + [node];
      node, n, kept := RemoveStep(node, n, drop, ns, i, kept);
      i := i + 1;
    }
    assert i == |ns|;
    MidwayEnd(ns, kept);
  }

  lemma WithoutMembers(ns: seq<Node>, k: nat)
    requires k < |ns| && Distinct(ns)
    ensures forall x :: x in Without(ns, k) <==> x in ns && x != ns[k]
  {
    forall x | x in ns && x != ns[k]
      ensures x in Without(ns, k)
    {
      var j :| 0 <= j < |ns| && ns[j] == x;
      assert Without(ns, k)[if j < k then j else j - 1] == x;
    }
  }

  lemma DisjointAfterMove(ns: seq<Node>, k: nat, ms: seq<Node>)
    requires k < |ns| && Distinct(ns) && Disjoint(ns, ms)
    ensures Disjoint(Without(ns, k), ms + [ns[k]])
  {
    WithoutMembers(ns, k);
  }

  lemma WithoutMultiset(ns: seq<Node>, k: nat, ms: seq<Node>)
    requires k < |ns|
    ensures multiset(Without(ns, k)) + multiset(ms + [ns[k]]) == multiset(ns) + multiset(ms)
  {
    assert ns == ns[..k] + [ns[k]] + ns[k + 1..];
  }

  /** Taking a node out of one ring and appending it to a disjoint one. A third ring, if there is one,
      stays as it was. */
  method MoveToTail(node: Node, other: Node, ghost ns: seq<Node>, ghost k: nat, ghost ms: seq<Node>,
                    ghost third: seq<Node>)
    requires Ring(ns) && 1 < |ns| && k < |ns| && ns[k] == node
    requires Ring(ms) && ms[0] == other && Disjoint(ns, ms)
    requires third != [] ==> Ring(third) && Disjoint(ns, third) && Disjoint(ms, third)
    modifies node, node.next, node.prev, other, other.prev
    ensures third != [] ==> Ring(third)
    ensures Ring(Without(ns, k)) && Ring(ms + [node]) && Disjoint(Without(ns, k), ms + [node])
    ensures multiset(Without(ns, k)) + multiset(ms + [node]) == multiset(ns) + multiset(ms)
  {
    Neighbours(ns, k);
    Neighbours(ms, 0);
    DisjointAfterMove(ns, k, ms);
    WithoutMultiset(ns, k, ms);
    WithoutMembers(ns, k);
    ListRemove(node, ns, k);
    assert other.prev in ms && other in ms && node !in Without(ns, k);
    ListAddTail(other, node, ms);
  }

  /** The nodes of the two rings, in one fixed footprint. */
  ghost predicate Within(dst: seq<Node>, ns: seq<Node>, ms: seq<Node>) {
    forall x :: x in dst ==> x in ns || x in ms
  }

  /** One iteration: the body moves a chosen node to the other ring, then the two cursors advance. */
  method MoveStep(node: Node, n: Node?, other: Node, chosen: set<Node>, ghost ns: seq<Node>, ghost ms: seq<Node>,
                  ghost i: nat, ghost kept: seq<Node>, ghost dst: seq<Node>)
    returns (node': Node, n': Node?, ghost kept': seq<Node>, ghost dst': seq<Node>)
    requires 1 <= i < |ns| && Traversing(ns, i, kept, node, n)
    requires Ring(dst) && dst[0] == other && Disjoint(Midway(ns, i, kept), dst) && Within(dst, ns, ms)
    modifies ns, ms
    ensures kept' == if node in chosen then kept else kept + [node]
    ensures dst' == if node in chosen then dst + [node] else dst
    ensures Traversing(ns, i + 1, kept', node', n')
    ensures Ring(dst') && dst'[0] == other && Disjoint(Midway(ns, i + 1, kept'), dst') && Within(dst', ns, ms)
  {
    TraversingLinks(ns, i, kept, node, n);
    Neighbours(dst, 0);
    MidwayStep(ns, i, kept);
    assert other in dst && other.prev in dst;
    kept' := if node in chosen then kept else kept + [node];
    dst' := if node in chosen then dst + [node] else dst;
    if node in chosen {
      MoveToTail(node, other, Midway(ns, i, kept), |kept| + 1, dst, []);
    }
    node' := n;
    n' := node'.next;
  }

  lemma MoveConserves(s: seq<Node>, ms: seq<Node>, chosen: set<Node>)
    ensures multiset(Select(s, chosen, false)) + multiset(ms + Select(s, chosen, true)) == multiset(s) + multiset(ms)
  {
    SelectPartitions(s, chosen);
  }

  lemma SelectAppends(ns: seq<Node>, i: nat, chosen: set<Node>, ms: seq<Node>)
    requires 1 <= i < |ns|
    ensures var dst := ms + Select(ns[1..i], chosen, true);
            ms + Select(ns[1..i + 1], chosen, true) == if ns[i] in chosen then dst + [ns[i]] else dst
  {
    SelectNext(ns, i, chosen, true);
  }

  /** `list_for_each_safe` with a body that moves chosen nodes to the tail of a disjoint ring: both
      rings stay well formed, both orders are kept, and no node is lost or duplicated. Only nodes of
      the two rings are written, so any third ring is left as it was. */
  method ForEachSafeMove(list: Node, other: Node, chosen: set<Node>, ghost ns: seq<Node>, ghost ms: seq<Node>)
    returns (visited: seq<Node>)
    requires Ring(ns) && ns[0] == list && Ring(ms) && ms[0] == other && Disjoint(ns, ms)
    modifies ns, ms
    ensures visited == ns[1..]
    ensures Ring([list] + Select(ns[1..], chosen, false))
    ensures Ring(ms + Select(ns[1..], chosen, true))
    ensures multiset(Select(ns[1..], chosen, false)) + multiset(ms + Select(ns[1..], chosen, true))
            == multiset(ns[1..]) + multiset(ms)
  {
    visited := [];
    ghost var i: nat, kept: seq<Node>, dst: seq<Node> := 1, [], ms;
    assert ns == Midway(ns, 1, []);
    Neighbours(ns, 0);
    var node: Node, n: Node? := list.next, list.next.next;
    while node != list
      invariant 1 <= i <= |ns| && Traversing(ns, i, kept, node, n)
      invariant Ring(dst) && dst[0] == other && Disjoint(Midway(ns, i, kept), dst) && Within(dst, ns, ms)
      invariant visited == ns[1..i]
      invariant kept == Select(ns[1..i], chosen, false) && dst == ms + Select(ns[1..i], chosen, true)
      decreases |ns| - i
    {
      SelectNext(ns, i, chosen, false);
      SelectAppends(ns, i, chosen, ms);
      visited := visited + [node];
      node, n, kept, dst := MoveStep(node, n, other, chosen, ns, ms, i, kept, dst);
      i := i + 1;
    }
    assert i == |ns|;
    MidwayEnd(ns, kept);
    MoveConserves(ns[1..], ms, chosen);
  }

  /* ---------- runs of operations ---------- */

  datatype ListOp =
    | AddTail(item: Node)
    | AddHead(item: Node)
    | Remove(item: Node)
    | TakeHead

  predicate Enabled(q: seq<Node>, op: ListOp) {
    match op
    case AddTail(item) => item !in q
    case AddHead(item) => item !in q
    case Remove(item) => item in q
    case TakeHead => true
  }

  function RemoveFrom(q: seq<Node>, item: Node): seq<Node> {
    if q == [] then [] else if q[0] == item then q[1..] else [q[0]] + RemoveFrom(q[1..], item)
  }

  lemma {:induction false} RemoveFromIsWithout(q: seq<Node>, k: nat)
    requires k < |q| && forall j :: 0 <= j < k ==> q[j] != q[k]
    ensures RemoveFrom(q, q[k]) == Without(q, k)
    decreases k
  {
    if k > 0 {
      assert q[0] != q[k];
      RemoveFromIsWithout(q[1..], k - 1);
      assert Without(q, k) == [q[0]] + Without(q[1..], k - 1);
    }
  }

  /** The contents after one operation, and what it hands out. */
  function Apply(q: seq<Node>, op: ListOp): (seq<Node>, seq<Node>) {
    match op
    case AddTail(item) => (q + [item], [])
    case AddHead(item) => ([item] + q, [])
    case Remove(item) => (RemoveFrom(q, item), [])
    case TakeHead => if q == [] then (q, []) else (q[1..], [q[0]])
  }

  function ApplyAll(q: seq<Node>, ops: seq<ListOp>): (seq<Node>, seq<Node>) {
    if ops == [] then (q, [])
    else
      var (mid, taken) := ApplyAll(q, ops[..|ops| - 1]);
      var (after, more) := Apply(mid, ops[|ops| - 1]);
      (after, taken + more)
  }

  ghost predicate ValidScript(head: Node, q: seq<Node>, ops: seq<ListOp>) {
    forall i :: 0 <= i < |ops| ==>
      Enabled(ApplyAll(q, ops[..i]).0, ops[i]) && (!ops[i].TakeHead? ==> ops[i].item != head)
  }

  function Items(ops: seq<ListOp>): seq<Node> {
    if ops == [] then []
    else Items(ops[..|ops| - 1]) + (if ops[|ops| - 1].AddTail? then [ops[|ops| - 1].item] else [])
  }

  /** With only additions at the tail and removals at the head the ring is a first-in first-out queue. */
  lemma {:induction false} Fifo(q: seq<Node>, ops: seq<ListOp>)
    requires forall i :: 0 <= i < |ops| ==> ops[i].AddTail? || ops[i].TakeHead?
    ensures var (rest, taken) := ApplyAll(q, ops);
            taken + rest == q + Items(ops)
    decreases |ops|
  {
    if ops != [] {
      Fifo(q, ops[..|ops| - 1]);
      var (mid, taken) := ApplyAll(q, ops[..|ops| - 1]);
      var (rest, all) := ApplyAll(q, ops);
      if ops[|ops| - 1].AddTail? {
        assert all + rest == (taken + mid) + [ops[|ops| - 1].item];
      } else {
        assert all + rest == taken + mid;
        assert Items(ops) == Items(ops[..|ops| - 1]);
      }
    }
  }

  /* ---------- what a run of operations means ---------- */

  /** The number of elements after a run, counted from the number before it. */
  function SizeAfter(n: nat, ops: seq<ListOp>): int {
    if ops == [] then n
    else
      var m := SizeAfter(n, ops[..|ops| - 1]);
      match ops[|ops| - 1]
      case AddTail(_) => m + 1
      case AddHead(_) => m + 1
      case Remove(_) => m - 1
      case TakeHead => if m == 0 then 0 else m - 1
  }

  /** The number of removals at the head that meet an element. */
  function TakenCount(n: nat, ops: seq<ListOp>): nat {
    if ops == [] then 0
    else
      var m := SizeAfter(n, ops[..|ops| - 1]);
      TakenCount(n, ops[..|ops| - 1]) + (if ops[|ops| - 1].TakeHead? && m != 0 then 1 else 0)
  }

  lemma {:induction false} RemoveShortens(q: seq<Node>, item: Node)
    requires item in q
    ensures |RemoveFrom(q, item)| == |q| - 1
  {
    if q[0] != item {
      RemoveShortens(q[1..], item);
    }
  }

  /** The sizes of what is left and of what was handed out are those of the plain counters. */
  lemma {:induction false} SizesAddUp(head: Node, q: seq<Node>, ops: seq<ListOp>)
    requires ValidScript(head, q, ops)
    ensures |ApplyAll(q, ops).0| == SizeAfter(|q|, ops) && |ApplyAll(q, ops).1| == TakenCount(|q|, ops)
    decreases |ops|
  {
    if ops != [] {
      var before, op := ops[..|ops| - 1], ops[|ops| - 1];
      forall i | 0 <= i < |before|
        ensures Enabled(ApplyAll(q, before[..i]).0, before[i]) && (!before[i].TakeHead? ==> before[i].item != head)
      {
        assert before[..i] == ops[..i];
      }
      SizesAddUp(head, q, before);
      if op.Remove? {
        RemoveShortens(ApplyAll(q, before).0, op.item);
      }
    }
  }

  /** After a removal the element is gone, and the others are there in their order. */
  lemma RemoveTakesOut(q: seq<Node>, k: nat)
    requires Distinct(q) && k < |q|
    ensures Apply(q, Remove(q[k])).0 == q[..k] + q[k + 1..]
    ensures q[k] !in Apply(q, Remove(q[k])).0
    ensures Apply(q, Remove(q[k])).1 == []
  {
    RemoveFromIsWithout(q, k);
  }

  lemma {:induction false} ApplyInTurn(q: seq<Node>, ops: seq<ListOp>, more: seq<ListOp>)
    ensures var (mid, first) := ApplyAll(q, ops);
            var (rest, second) := ApplyAll(mid, more);
            ApplyAll(q, ops + more) == (rest, first + second)
    decreases |more|
  {
    if more == [] {
      var (mid, first) := ApplyAll(q, ops);
      assert ops + more == ops && first + [] == first;
    } else {
      var m := |more| - 1;
      assert (ops + more)[..|ops + more| - 1] == ops + more[..m] && (ops + more)[|ops + more| - 1] == more[m];
      ApplyInTurn(q, ops, more[..m]);
      var (mid, first) := ApplyAll(q, ops);
      var (near, second) := ApplyAll(mid, more[..m]);
      var third := Apply(near, more[m]).1;
      assert (first + second) + third == first + (second + third);
    }
  }

  /** Only additions and removals at the head, and no removal digs deeper than the n topmost elements. */
  ghost predicate OnTopOf(n: nat, ops: seq<ListOp>) {
    forall i :: 0 <= i < |ops| ==> ops[i].AddHead? || (ops[i].TakeHead? && SizeAfter(n, ops[..i]) > 0)
  }

  /** Such a run leaves what is below alone. */
  lemma {:induction false} BelowIsUntouched(top: seq<Node>, base: seq<Node>, ops: seq<ListOp>)
    requires OnTopOf(|top|, ops)
    ensures |ApplyAll(top, ops).0| == SizeAfter(|top|, ops)
    ensures ApplyAll(top + base, ops) == (ApplyAll(top, ops).0 + base, ApplyAll(top, ops).1)
    decreases |ops|
  {
    if ops != [] {
      var before := ops[..|ops| - 1];
      forall i | 0 <= i < |before|
        ensures before[i].AddHead? || (before[i].TakeHead? && SizeAfter(|top|, before[..i]) > 0)
      {
        assert before[..i] == ops[..i];
      }
      BelowIsUntouched(top, base, before);
      ApplyOnTop(ApplyAll(top, before).0, base, ops[|ops| - 1]);
    }
  }

  lemma ApplyOnTop(mid: seq<Node>, base: seq<Node>, op: ListOp)
    requires op.AddHead? || (op.TakeHead? && mid != [])
    ensures Apply(mid + base, op) == (Apply(mid, op).0 + base, Apply(mid, op).1)
  {
    if op.AddHead? {
      assert [op.item] + (mid + base) == ([op.item] + mid) + base;
    } else {
      assert (mid + base)[1..] == mid[1..] + base;
    }
  }

  lemma OneOp(q: seq<Node>, op: ListOp)
    ensures ApplyAll(q, [op]) == Apply(q, op)
  {
    assert [op][..0] == [];
    assert ApplyAll(q, []) == (q, []);
    assert [] + Apply(q, op).1 == Apply(q, op).1;
  }

  /** With additions and removals at the head the ring is a last-in first-out stack: after an addition and
      a run that takes back exactly what it has added, the next removal hands out that addition's item,
      and the contents are those before it. */
  lemma Lifo(q: seq<Node>, x: Node, ops: seq<ListOp>)
    requires OnTopOf(0, ops) && SizeAfter(0, ops) == 0
    ensures ApplyAll(q, [AddHead(x)] + ops + [TakeHead]) == (q, ApplyAll([], ops).1 + [x])
  {
    OneOp(q, AddHead(x));
    BelowIsUntouched([], [x] + q, ops);
    var inner := ApplyAll([], ops);
    assert [] + ([x] + q) == [x] + q && inner.0 == [] && inner.0 + ([x] + q) == [x] + q;
    ApplyInTurn(q, [AddHead(x)], ops);
    assert [] + inner.1 == inner.1;
    assert ApplyAll(q, [AddHead(x)] + ops) == ([x] + q, inner.1);
    OneOp([x] + q, TakeHead);
    ApplyInTurn(q, [AddHead(x)] + ops, [TakeHead]);
    assert ([x] + q)[1..] == q;
  }

  lemma QueueScript(q: seq<Node>, ops: seq<ListOp>)
    ensures (forall i :: 0 <= i < |ops| ==> ops[i].AddTail? || ops[i].TakeHead?) ==>
              ApplyAll(q, ops).1 + ApplyAll(q, ops).0 == q + Items(ops)
  {
    if forall i :: 0 <= i < |ops| ==> ops[i].AddTail? || ops[i].TakeHead? {
      Fifo(q, ops);
    }
  }

  /** One operation on the heap. */
  method Perform(list: Node, op: ListOp, ghost q: seq<Node>) returns (taken: seq<Node>)
    requires Ring([list] + q) && Enabled(q, op) && (!op.TakeHead? ==> op.item != list)
    modifies [list] + q, if op.TakeHead? then {} else {op.item}
    ensures Ring([list] + Apply(q, op).0)
    ensures taken == Apply(q, op).1
  {
    ghost var ns := [list] + q;
    assert ns[0] == list && ns[1..] == q;
    Neighbours(ns, 0);
    taken := [];
    match op {
      case AddTail(item) =>
        ListAddTail(list, item, ns);
        assert ns + [item] == [list] + (q + [item]);
      case AddHead(item) =>
        ListAddHead(list, item, ns);
        assert [list, item] + ns[1..] == [list] + ([item] + q);
      case Remove(item) =>
        ghost var k: nat :| k < |q| && q[k] == item;
        RemoveAt(list, item, q, k);
      case TakeHead =>
        taken := TakeFirst(list, q);
        assert q == [] ==> [list] + Apply(q, op).0 == [list];
    }
  }

  /** The node at the head of the list, if any, is removed and handed out. */
  method TakeFirst(list: Node, ghost q: seq<Node>) returns (taken: seq<Node>)
    requires Ring([list] + q)
    modifies [list] + q
    ensures q == [] ==> Ring([list]) && taken == []
    ensures q != [] ==> Ring([list] + q[1..]) && taken == [q[0]]
  {
    taken := [];
    var empty := ListEmpty(list, [list] + q);
    if !empty {
      assert q != [];
      var item := ListHead(list, [list] + q);
      RemoveAt(list, item, q, 0);
      taken := [item];
      RemoveFromIsWithout(q, 0);
    }
  }

  lemma DistinctTail(ns: seq<Node>, k: nat)
    requires Distinct(ns) && 1 <= k < |ns|
    ensures forall j :: 0 <= j < k - 1 ==> ns[1..][j] != ns[k]
  {
  }

  lemma WithoutTail(ns: seq<Node>, k: nat)
    requires 1 <= k < |ns|
    ensures Without(ns, k) == [ns[0]] + Without(ns[1..], k - 1)
  {
  }

  lemma RemoveFromRing(list: Node, q: seq<Node>, k: nat)
    requires Distinct([list] + q) && k < |q|
    ensures Without([list] + q, k + 1) == [list] + RemoveFrom(q, q[k])
  {
    var ns := [list] + q;
    assert ns[1..] == q;
    DistinctTail(ns, k + 1);
    RemoveFromIsWithout(q, k);
    WithoutTail(ns, k + 1);
  }

  method RemoveAt(list: Node, item: Node, ghost q: seq<Node>, ghost k: nat)
    requires Ring([list] + q) && k < |q| && q[k] == item
    modifies [list] + q
    ensures Ring([list] + RemoveFrom(q, item))
  {
    ghost var ns := [list] + q;
    assert ns[k + 1] == item;
    Neighbours(ns, k + 1);
    RemoveFromRing(list, q, k);
    ListRemove(item, ns, k + 1);
  }

  /** The nodes that a script may touch. */
  ghost function Footprint(list: Node, q: seq<Node>, ops: seq<ListOp>): set<Node> {
    {list} + (set x | x in q) + (set i | 0 <= i < |ops| && !ops[i].TakeHead? :: ops[i].item)
  }

  lemma ApplyStaysInside(q: seq<Node>, op: ListOp, nodes: set<Node>)
    requires (forall x :: x in q ==> x in nodes) && (!op.TakeHead? ==> op.item in nodes)
    ensures forall x :: x in Apply(q, op).0 ==> x in nodes
  {
    if op.Remove? {
      forall x | x in RemoveFrom(q, op.item)
        ensures x in nodes
      {
        RemoveFromInside(q, op.item, x);
      }
    }
  }

  lemma {:induction false} RemoveFromInside(q: seq<Node>, item: Node, x: Node)
    requires x in RemoveFrom(q, item)
    ensures x in q
  {
    if q[0] != item && x != q[0] {
      RemoveFromInside(q[1..], item, x);
    }
  }

  /** Any valid run of additions and removals on a ring of any length: the heap ring ends with the
      contents the run denotes, the removals at the head hand out what it denotes, and the two
      traversals of the result are exact reverses of each other. */
  method RunScript(list: Node, ops: seq<ListOp>, ghost q: seq<Node>)
    returns (taken: seq<Node>, forward: seq<Node>, backward: seq<Node>)
    requires Ring([list] + q) && ValidScript(list, q, ops)
    modifies Footprint(list, q, ops)
    ensures Ring([list] + ApplyAll(q, ops).0)
    ensures taken == ApplyAll(q, ops).1
    ensures forward == ApplyAll(q, ops).0 && backward == Reversed(forward)
    ensures |forward| == SizeAfter(|q|, ops) && |taken| == TakenCount(|q|, ops)
    ensures (forall i :: 0 <= i < |ops| ==> ops[i].AddTail? || ops[i].TakeHead?) ==> taken + forward == q + Items(ops)
  {
    ghost var nodes := Footprint(list, q, ops);
    ghost var cur := q;
    taken := [];
    assert ops[..0] == [];
    for k := 0 to |ops|
      invariant (cur, taken) == ApplyAll(q, ops[..k])
      invariant Ring([list] + cur)
      invariant forall x :: x in cur ==> x in nodes
    {
      assert ops[..k + 1][..k] == ops[..k];
      ApplyStaysInside(cur, ops[k], nodes);
      var out := Perform(list, ops[k], cur);
      cur := Apply(cur, ops[k]).0;
      taken := taken + out;
    }
    assert ops[..|ops|] == ops;
    forward := ForEach(list, [list] + cur);
    backward := ForEachReverse(list, [list] + cur);
    QueueScript(q, ops);
    SizesAddUp(list, q, ops);
  }
}

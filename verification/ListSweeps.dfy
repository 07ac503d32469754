/** The sweeps of the scheduler on the linked lists themselves.

The scheduler's model keeps its lists as sequences of thread identifiers.  Here
its two sweeps, that of __schedule over the sleep list and that of wake_up_all,
run as list_for_each_safe on rings of nodes, and the rings are proved to hold,
node by node, the sequences of the model before and after.
*/
module ListSweeps {
  import opened Basics
  import opened Scheduling
  import opened SchedulerSteps
  import Rings = IntrusiveList

  type Node = Rings.Node

  /** The threads whose list members the nodes are. */
  ghost function Tids(q: seq<Node>, tid: Node -> Tid): seq<Tid> {
    seq(|q|, i requires 0 <= i < |q| => tid(q[i]))
  }

  /** Ring 0 is the list `from`, ring p + 1 the ready list of priority p. */
  ghost predicate Mirrors(rings: seq<seq<Node>>, tid: Node -> Tid, s: State, from: ListId) {
    && |rings| == KTHREAD_PRI_MAX + 2 && (forall k :: 0 <= k < |rings| ==> rings[k] != [])
    && Tids(rings[0][1..], tid) == ListOf(s, from)
    && forall p: nat {:trigger ReadyMirrors(rings, tid, s, p)} :: p <= KTHREAD_PRI_MAX ==>
      ReadyMirrors(rings, tid, s, p)
  }

  ghost predicate ReadyMirrors(rings: seq<seq<Node>>, tid: Node -> Tid, s: State, p: nat) {
    p + 1 < |rings| && rings[p + 1] != [] && Tids(rings[p + 1][1..], tid) == ListOf(s, ReadyList(p))
  }

  // ---------------------------------------------------- selecting from a queue

  /** Where a sweep sends a thread: wake_up_all every thread to the ready list of its
      priority, __schedule those without ticks only; a negative value means stay. */
  function Dest(threads: seq<Thread>, all: bool, t: Tid): int {
    if t < |threads| && (all || threads[t].sleepTicks == 0) then threads[t].priority else -1
  }

  predicate Goes(d: int, k: int) {
    d == k || (d < 0 && k < 0)
  }

  /** The threads of a queue that go to k, in order. */
  ghost function Part(q: seq<Tid>, ths: seq<Thread>, all: bool, k: int): seq<Tid> {
    if q == [] then [] else (if Goes(Dest(ths, all, q[0]), k) then [q[0]] else []) + Part(q[1..], ths, all, k)
  }

  /** The threads of a queue that go anywhere. */
  ghost function Leaving(q: seq<Tid>, ths: seq<Thread>, all: bool): seq<Tid> {
    if q == [] then [] else (if Dest(ths, all, q[0]) >= 0 then [q[0]] else []) + Leaving(q[1..], ths, all)
  }

  lemma LeavingStep(q: seq<Tid>, ths: seq<Thread>, all: bool)
    requires q != []
    ensures Leaving(q, ths, all) == if Dest(ths, all, q[0]) >= 0 then [q[0]] + Leaving(q[1..], ths, all)
              else Leaving(q[1..], ths, all)
  {}

  lemma {:induction false} LeavingBelow(q: seq<Tid>, ths: seq<Thread>, all: bool, n: nat)
    requires Below(q, n)
    ensures Below(Leaving(q, ths, all), n)
  {
    if q != [] {
      LeavingBelow(q[1..], ths, all, n);
      LeavingStep(q, ths, all);
    }
  }

  lemma {:induction false} PartAppend(q: seq<Tid>, t: Tid, ths: seq<Thread>, all: bool, k: int)
    ensures Part(q + [t], ths, all, k) == Part(q, ths, all, k) + if Goes(Dest(ths, all, t), k) then [t] else []
  {
    if q == [] {
      assert [t][1..] == [] && (q + [t])[0] == t;
    } else {
      assert (q + [t])[1..] == q[1..] + [t];
      PartAppend(q[1..], t, ths, all, k);
    }
  }

  /** Selecting nodes selects their threads. */
  lemma {:induction false} SelectIsPart(q: seq<Node>, tid: Node -> Tid, f: Node -> int, ths: seq<Thread>, all: bool,
                                        k: int)
    requires forall i :: 0 <= i < |q| ==> f(q[i]) == Dest(ths, all, tid(q[i]))
    ensures Tids(Rings.Select(q, f, k), tid) == Part(Tids(q, tid), ths, all, k)
  {
    if q != [] {
      var n := |q| - 1;
      SelectIsPart(q[..n], tid, f, ths, all, k);
      assert Tids(q, tid) == Tids(q[..n], tid) + [tid(q[n])];
      PartAppend(Tids(q[..n], tid), tid(q[n]), ths, all, k);
    }
  }

  // ------------------------------------------------------- the model's sweep

  lemma WakeBehind(s: State, from: ListId, t: Tid, p: nat)
    requires !from.ReadyList? && t < |s.threads|
    ensures ListOf(Wake(s, from, t), ReadyList(p)) == ListOf(s, ReadyList(p)) + if s.threads[t].priority == p then [t]
              else []
    ensures |Wake(s, from, t).threads| == |s.threads|
    ensures forall x :: 0 <= x < |s.threads| ==> Wake(s, from, t).threads[x].priority == s.threads[x].priority
  {
    RelinkLists(s, t, Some(from), Some(ReadyList(s.threads[t].priority)), s.threads[t].(status := Ready), ReadyList(p));
  }

  lemma Associative(a: seq<Tid>, b: seq<Tid>, c: seq<Tid>)
    ensures (a + b) + c == a + (b + c)
  {}

  /** The threads of a queue that have a priority, in order. */
  ghost function OfPriority(ths: seq<Thread>, ts: seq<Tid>, p: nat): seq<Tid>
    requires Below(ts, |ths|)
  {
    if ts == [] then [] else (if ths[ts[0]].priority == p then [ts[0]] else []) + OfPriority(ths, ts[1..], p)
  }

  /** Waking threads appends each to the ready list of its priority, in order. */
  lemma {:induction false} WokenBehind(s: State, from: ListId, ts: seq<Tid>, ths: seq<Thread>, p: nat)
    requires !from.ReadyList? && Below(ts, |s.threads|)
    requires |ths| == |s.threads| && forall x :: 0 <= x < |ths| ==> ths[x].priority == s.threads[x].priority
    ensures ListOf(WakeMany(s, from, ts), ReadyList(p)) == ListOf(s, ReadyList(p)) + OfPriority(ths, ts, p)
    decreases |ts|
  {
    if ts != [] {
      var s1 := Wake(s, from, ts[0]);
      WakeBehind(s, from, ts[0], p);
      WokenBehind(s1, from, ts[1..], ths, p);
      var here := if ths[ts[0]].priority == p then [ts[0]] else [];
      assert OfPriority(ths, ts, p) == here + OfPriority(ths, ts[1..], p);
      Associative(ListOf(s, ReadyList(p)), here, OfPriority(ths, ts[1..], p));
    }
  }

  lemma {:induction false} LeavingOfPriority(q: seq<Tid>, ths: seq<Thread>, all: bool, p: nat)
    requires Below(Leaving(q, ths, all), |ths|)
    ensures OfPriority(ths, Leaving(q, ths, all), p) == Part(q, ths, all, p)
  {
    if q != [] {
      LeavingStep(q, ths, all);
      var ts, rest := Leaving(q, ths, all), Leaving(q[1..], ths, all);
      if Dest(ths, all, q[0]) >= 0 {
        assert ts[0] == q[0] && ts[1..] == rest;
      }
      LeavingOfPriority(q[1..], ths, all, p);
    }
  }

  /** A queue without the threads ts, unlinked one by one. */
  ghost function WithoutAll(q: seq<Tid>, ts: seq<Tid>): seq<Tid>
    decreases |ts|
  {
    if ts == [] then q else WithoutAll(Without(q, ts[0]), ts[1..])
  }

  lemma {:induction false} WakeManyFrom(s: State, from: ListId, ts: seq<Tid>)
    requires !from.ReadyList? && Below(ts, |s.threads|)
    ensures ListOf(WakeMany(s, from, ts), from) == WithoutAll(ListOf(s, from), ts)
    decreases |ts|
  {
    if ts != [] {
      RelinkLists(s, ts[0], Some(from), Some(ReadyList(s.threads[ts[0]].priority)), s.threads[ts[0]].(status := Ready),
        from);
      WakeManyFrom(Wake(s, from, ts[0]), from, ts[1..]);
    }
  }

  lemma WithoutHead(x: Tid, q: seq<Tid>)
    ensures Without([x] + q, x) == q
  {
    assert IndexOf([x] + q, x) == 0;
  }

  lemma WithoutOther(x: Tid, q: seq<Tid>, t: Tid)
    requires x != t
    ensures Without([x] + q, t) == [x] + Without(q, t)
  {
    if t in q {
      IndexBehind(x, q, t);
      CutBehind(x, q, IndexOf(q, t), IndexOf([x] + q, t));
    } else {
      assert t !in [x] + q;
    }
  }

  lemma CutBehind(x: Tid, q: seq<Tid>, i: nat, j: nat)
    requires i < |q| && j == i + 1
    ensures ([x] + q)[..j] + ([x] + q)[j + 1..] == [x] + (q[..i] + q[i + 1..])
  {}

  lemma IndexBehind(x: Tid, q: seq<Tid>, t: Tid)
    requires x != t && t in q
    ensures t in [x] + q && IndexOf([x] + q, t) == 1 + IndexOf(q, t)
  {
    var c := [x] + q;
    assert c[1..] == q && c[1 + IndexOf(q, t)] == t;
  }

  lemma {:induction false} WithoutAllCons(x: Tid, q: seq<Tid>, ts: seq<Tid>)
    requires x !in ts
    ensures WithoutAll([x] + q, ts) == [x] + WithoutAll(q, ts)
    decreases |ts|
  {
    if ts != [] {
      WithoutOther(x, q, ts[0]);
      WithoutAllCons(x, Without(q, ts[0]), ts[1..]);
    }
  }

  lemma {:induction false} LeavingMembers(q: seq<Tid>, ths: seq<Thread>, all: bool, x: Tid)
    requires x in Leaving(q, ths, all)
    ensures x in q && Dest(ths, all, x) >= 0
  {
    if x in Leaving(q[1..], ths, all) {
      LeavingMembers(q[1..], ths, all, x);
    }
  }

  /** What is left of a queue once the leaving threads are unlinked. */
  lemma {:induction false} StayingPart(q: seq<Tid>, ths: seq<Thread>, all: bool)
    ensures WithoutAll(q, Leaving(q, ths, all)) == Part(q, ths, all, -1)
  {
    if q != [] {
      var rest := q[1..];
      assert q == [q[0]] + rest;
      StayingPart(rest, ths, all);
      LeavingStep(q, ths, all);
      if Dest(ths, all, q[0]) >= 0 {
        WithoutHead(q[0], rest);
        var ts := Leaving(q, ths, all);
        assert ts[0] == q[0] && ts[1..] == Leaving(rest, ths, all);
      } else {
        if q[0] in Leaving(rest, ths, all) {
          LeavingMembers(rest, ths, all, q[0]);
        }
        WithoutAllCons(q[0], rest, Leaving(rest, ths, all));
      }
    }
  }

  // ------------------------------------------------------------ the refinement

  lemma TidsConcat(a: seq<Node>, b: seq<Node>, tid: Node -> Tid)
    ensures Tids(a + b, tid) == Tids(a, tid) + Tids(b, tid)
  {}

  lemma BehindHead(h: Node, a: seq<Node>, b: seq<Node>)
    ensures ([h] + a + b)[1..] == a + b
  {}

  lemma SweptFirst(rings: seq<seq<Node>>, f: Node -> int)
    requires rings != [] && rings[0] != []
    ensures var swept := Rings.SweptList(rings, f, |rings[0]| - 1, 0);
            swept != [] && swept[1..] == Rings.Select(rings[0][1..], f, -1)
  {
    var nodes := rings[0][1..];
    assert nodes[..|nodes|] == nodes && nodes[|nodes|..] == [];
    BehindHead(rings[0][0], Rings.Select(nodes, f, -1), []);
  }

  lemma SweptOther(rings: seq<seq<Node>>, f: Node -> int, k: nat)
    requires 0 < k < |rings| && rings[0] != [] && rings[k] != []
    ensures var swept := Rings.SweptList(rings, f, |rings[0]| - 1, k);
            swept != [] && swept[1..] == rings[k][1..] + Rings.Select(rings[0][1..], f, k - 1)
  {
    var nodes := rings[0][1..];
    assert nodes[..|nodes|] == nodes;
    assert rings[k] == [rings[k][0]] + rings[k][1..];
    BehindHead(rings[k][0], rings[k][1..], Rings.Select(nodes, f, k - 1));
  }

  /** What a whole sweep leaves behind the heads of the rings. */
  lemma SweptTails(rings: seq<seq<Node>>, f: Node -> int, k: nat)
    requires k < |rings| && rings[0] != [] && rings[k] != []
    ensures var nodes, swept := rings[0][1..], Rings.SweptList(rings, f, |rings[0]| - 1, k);
            swept != [] && swept[1..] == if k == 0 then Rings.Select(nodes, f, -1)
              else rings[k][1..] + Rings.Select(nodes, f, k - 1)
  {
    if k == 0 {
      SweptFirst(rings, f);
    } else {
      SweptOther(rings, f, k);
    }
  }

  /** The rings after a sweep mirror the model's lists after it. */
  lemma SweepMirrors(rings: seq<seq<Node>>, tid: Node -> Tid, f: Node -> int, all: bool, s: State, from: ListId)
    requires Mirrors(rings, tid, s, from) && !from.ReadyList? && Below(ListOf(s, from), |s.threads|)
    requires forall i :: 0 < i < |rings[0]| ==> f(rings[0][i]) == Dest(s.threads, all, tid(rings[0][i]))
    ensures Below(Leaving(ListOf(s, from), s.threads, all), |s.threads|)
    ensures Mirrors(Rings.Swept(rings, f, |rings[0]| - 1), tid,
              WakeMany(s, from, Leaving(ListOf(s, from), s.threads, all)), from)
  {
    LeavingBelow(ListOf(s, from), s.threads, all, |s.threads|);
    var s', swept := WakeMany(s, from, Leaving(ListOf(s, from), s.threads, all)), Rings.Swept(rings, f, |rings[0]| - 1);
    forall k | 0 <= k < |rings| ensures swept[k] != [] {
      SweptTails(rings, f, k);
    }
    assert Tids(swept[0][1..], tid) == ListOf(s', from) by {
      SweptTails(rings, f, 0);
      StaysInOrder(s, from, rings[0][1..], tid, f, all);
    }
    forall p: nat | p <= KTHREAD_PRI_MAX ensures ReadyMirrors(swept, tid, s', p) {
      ReadyMirrored(rings, tid, f, all, s, from, p);
    }
  }

  lemma ReadyMirrored(rings: seq<seq<Node>>, tid: Node -> Tid, f: Node -> int, all: bool, s: State, from: ListId,
                      p: nat)
    requires Mirrors(rings, tid, s, from) && !from.ReadyList? && Below(ListOf(s, from), |s.threads|)
               && p <= KTHREAD_PRI_MAX
    requires forall i :: 0 < i < |rings[0]| ==> f(rings[0][i]) == Dest(s.threads, all, tid(rings[0][i]))
    requires Below(Leaving(ListOf(s, from), s.threads, all), |s.threads|)
    ensures ReadyMirrors(Rings.Swept(rings, f, |rings[0]| - 1), tid,
              WakeMany(s, from, Leaving(ListOf(s, from), s.threads, all)), p)
  {
    assert ReadyMirrors(rings, tid, s, p);
    SweptTails(rings, f, p + 1);
    ReadiedInOrder(s, from, rings[p + 1][1..], rings[0][1..], tid, f, all, p);
  }

  lemma StaysInOrder(s: State, from: ListId, nodes: seq<Node>, tid: Node -> Tid, f: Node -> int, all: bool)
    requires !from.ReadyList? && Tids(nodes, tid) == ListOf(s, from)
               && Below(Leaving(ListOf(s, from), s.threads, all), |s.threads|)
    requires forall i :: 0 <= i < |nodes| ==> f(nodes[i]) == Dest(s.threads, all, tid(nodes[i]))
    ensures Tids(Rings.Select(nodes, f, -1), tid) ==
              ListOf(WakeMany(s, from, Leaving(ListOf(s, from), s.threads, all)), from)
  {
    WakeManyFrom(s, from, Leaving(ListOf(s, from), s.threads, all));
    StayingPart(ListOf(s, from), s.threads, all);
    SelectIsPart(nodes, tid, f, s.threads, all, -1);
  }

  lemma ReadiedInOrder(s: State, from: ListId, ready: seq<Node>, nodes: seq<Node>, tid: Node -> Tid, f: Node -> int,
                       all: bool, p: nat)
    requires !from.ReadyList? && Tids(nodes, tid) == ListOf(s, from) && Tids(ready, tid) == ListOf(s, ReadyList(p))
    requires Below(ListOf(s, from), |s.threads|) && Below(Leaving(ListOf(s, from), s.threads, all), |s.threads|)
    requires forall i :: 0 <= i < |nodes| ==> f(nodes[i]) == Dest(s.threads, all, tid(nodes[i]))
    ensures Tids(ready + Rings.Select(nodes, f, p), tid)
            == ListOf(WakeMany(s, from, Leaving(ListOf(s, from), s.threads, all)), ReadyList(p))
  {
    WokenBehind(s, from, Leaving(ListOf(s, from), s.threads, all), s.threads, p);
    LeavingOfPriority(ListOf(s, from), s.threads, all, p);
    SelectIsPart(nodes, tid, f, s.threads, all, p);
    TidsConcat(ready, Rings.Select(nodes, f, p), tid);
  }

  lemma {:induction false} RestedIsLeaving(s: State, q: seq<Tid>)
    requires Below(q, |s.threads|)
    ensures Rested(s.threads, q) == Leaving(q, s.threads, false)
  {
    if q != [] {
      RestedIsLeaving(s, q[1..]);
      LeavingStep(q, s.threads, false);
    }
  }

  lemma {:induction false} AllLeaving(s: State, q: seq<Tid>)
    requires Below(q, |s.threads|)
    ensures Leaving(q, s.threads, true) == q
  {
    if q != [] {
      AllLeaving(s, q[1..]);
      LeavingStep(q, s.threads, true);
    }
  }

  /** The sweep of __schedule over the sleep list. */
  method SweepSleepers(head: Node, heads: seq<Node>, f: Node -> int, ghost rings: seq<seq<Node>>,
                       ghost tid: Node -> Tid, ghost s: State)
    requires Rings.System(rings) && Mirrors(rings, tid, s, SleepList) && Below(ListOf(s, SleepList), |s.threads|)
    requires |heads| == KTHREAD_PRI_MAX + 1 && rings[0][0] == head && forall k :: 0 <= k < |heads| ==>
               rings[k + 1][0] == heads[k]
    requires forall x :: f(x) <= KTHREAD_PRI_MAX
    requires forall i :: 0 < i < |rings[0]| ==> f(rings[0][i]) == Dest(s.threads, false, tid(rings[0][i]))
    modifies Rings.NodesOf(rings)
    ensures Rings.System(Rings.Swept(rings, f, |rings[0]| - 1))
    ensures Mirrors(Rings.Swept(rings, f, |rings[0]| - 1), tid, WakeSleepers(s), SleepList)
  {
    RestedIsLeaving(s, ListOf(s, SleepList));
    SweepMirrors(rings, tid, f, false, s, SleepList);
    ghost var visited := Rings.SweepSafe(head, heads, f, rings);
  }

  /** wake_up_all over a wait list. */
  method WakeUpAll(head: Node, heads: seq<Node>, f: Node -> int, ghost rings: seq<seq<Node>>, ghost tid: Node -> Tid,
                   ghost s: State, ghost w: nat)
    requires Rings.System(rings) && Mirrors(rings, tid, s, WaitList(w)) && Below(ListOf(s, WaitList(w)), |s.threads|)
    requires |heads| == KTHREAD_PRI_MAX + 1 && rings[0][0] == head && forall k :: 0 <= k < |heads| ==>
               rings[k + 1][0] == heads[k]
    requires forall x :: f(x) <= KTHREAD_PRI_MAX
    requires forall i :: 0 < i < |rings[0]| ==> f(rings[0][i]) == Dest(s.threads, true, tid(rings[0][i]))
    modifies Rings.NodesOf(rings)
    ensures Rings.System(Rings.Swept(rings, f, |rings[0]| - 1))
    ensures Mirrors(Rings.Swept(rings, f, |rings[0]| - 1), tid, WakeMany(s, WaitList(w), ListOf(s, WaitList(w))),
              WaitList(w))
  {
    AllLeaving(s, ListOf(s, WaitList(w)));
    SweepMirrors(rings, tid, f, true, s, WaitList(w));
    ghost var visited := Rings.SweepSafe(head, heads, f, rings);
  }
}

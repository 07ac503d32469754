/** The message queue in place (kernel/mqueue.c).

A fixed number of message buffers move between a free list and one used list per
priority.  The ghost log is the priority FIFO of module PriorityFifo that the
queue stands for.
*/
module MessageQueueCode {
  import opened Basics
  import opened PriorityFifo

  const MQ_PRIO_MAX: nat := 5

  /** A message buffer: the size of the message and the bytes of its storage. */
  datatype Element = Element(size: nat, data: seq<Byte>)

  ghost function MsgIn(e: Element, p: nat): Msg {
    Msg(p, if e.size <= |e.data| then e.data[..e.size] else e.data)
  }

  /** The messages held by the buffers of a used list. */
  ghost function MsgsIn(buf: seq<Element>, q: seq<nat>, p: nat): seq<Msg>
    requires forall i :: 0 <= i < |q| ==> q[i] < |buf|
  {
    seq(|q|, i requires 0 <= i < |q| => MsgIn(buf[q[i]], p))
  }

  /** The buffers on the lists: place[b] is the priority of the used list buffer b
      is on, or -1 on the free list. */
  ghost predicate Partition(free: seq<nat>, used: seq<seq<nat>>, place: seq<int>) {
    && NoDup(free) && (forall p :: 0 <= p < |used| ==> NoDup(used[p]))
    && (forall b: nat {:trigger b in free} :: b in free <==> b < |place| && place[b] == -1)
    && (forall p, b: nat {:trigger b in used[p]} :: 0 <= p < |used| ==>
      (b in used[p] <==> b < |place| && place[b] == p))
    && (forall b :: 0 <= b < |place| ==> -1 <= place[b] < |used|)
  }

  lemma HeadAndTail(q: seq<nat>)
    requires NoDup(q) && q != []
    ensures NoDup(q[1..]) && forall x :: x in q[1..] <==> x in q && x != q[0]
  {}

  /** The first free buffer goes to the tail of used list p. */
  lemma TakeBuffer(free: seq<nat>, used: seq<seq<nat>>, place: seq<int>, p: nat)
    requires Partition(free, used, place) && p < |used| && free != []
    ensures free[0] < |place| && place[free[0]] == -1
    ensures Partition(free[1..], used[p := used[p] + [free[0]]], place[free[0] := p])
  {
    var b := free[0];
    assert b in free;
    HeadAndTail(free);
    AppendMembers(used[p], b);
  }

  /** The first buffer of used list p goes to the tail of the free list. */
  lemma ReturnBuffer(free: seq<nat>, used: seq<seq<nat>>, place: seq<int>, p: nat)
    requires Partition(free, used, place) && p < |used| && used[p] != []
    ensures used[p][0] < |place| && place[used[p][0]] == p
    ensures Partition(free + [used[p][0]], used[p := used[p][1..]], place[used[p][0] := -1])
  {
    var b := used[p][0];
    assert b in used[p];
    HeadAndTail(used[p]);
    AppendMembers(free, b);
  }

  /** Total length of the used lists below p. */
  ghost function Total(log: seq<Msg>, p: nat): nat {
    if p == 0 then 0 else Total(log, p - 1) + |Of(log, p - 1)|
  }

  lemma {:induction false} TotalStep(log: seq<Msg>, m: Msg, p: nat)
    ensures Total(log + [m], p) == Total(log, p) + if m.prio < p then 1 else 0
  {
    if p > 0 {
      TotalStep(log, m, p - 1);
      OfConcat(log, [m], p - 1);
    }
  }

  /** The number of messages is the total length of the used lists. */
  lemma {:induction false} TotalIsCount(log: seq<Msg>)
    requires forall i :: 0 <= i < |log| ==> log[i].prio <= MQ_PRIO_MAX
    ensures Total(log, MQ_PRIO_MAX + 1) == |log|
  {
    if log == [] {
      TotalEmpty(MQ_PRIO_MAX + 1);
    } else {
      var n := |log| - 1;
      TotalIsCount(log[..n]);
      TotalStep(log[..n], log[n], MQ_PRIO_MAX + 1);
      assert log == log[..n] + [log[n]];
    }
  }

  lemma {:induction false} TotalEmpty(p: nat)
    ensures Total([], p) == 0
  {
    if p > 0 {
      TotalEmpty(p - 1);
    }
  }

  /** The used lists hold the messages of the log, priority by priority. */
  ghost predicate Holds(buf: seq<Element>, used: seq<seq<nat>>, log: seq<Msg>) {
    forall p: nat {:trigger HoldsAt(buf, used, log, p)} :: p < |used| ==> HoldsAt(buf, used, log, p)
  }

  ghost predicate HoldsAt(buf: seq<Element>, used: seq<seq<nat>>, log: seq<Msg>, p: nat) {
    && p < |used| && (forall i :: 0 <= i < |used[p]| ==> used[p][i] < |buf|)
    && MsgsIn(buf, used[p], p) == Of(log, p)
  }

  lemma OfAppend(log: seq<Msg>, m: Msg, k: nat)
    ensures Of(log + [m], k) == if m.prio == k then Of(log, k) + [m] else Of(log, k)
  {}

  /** A message written to buffer b, which is on no used list, is added to the
      queue of its own priority only. */
  lemma SendAt(buf: seq<Element>, q: seq<nat>, b: nat, e: Element, log: seq<Msg>, p: nat, k: nat)
    requires b < |buf| && b !in q && (forall i :: 0 <= i < |q| ==> q[i] < |buf|) && MsgsIn(buf, q, k) == Of(log, k)
    ensures MsgsIn(buf[b := e], if k == p then q + [b] else q, k) == Of(log + [MsgIn(e, p)], k)
  {
    OfAppend(log, MsgIn(e, p), k);
  }

  lemma SendHolds(buf: seq<Element>, free: seq<nat>, used: seq<seq<nat>>, place: seq<int>, log: seq<Msg>, e: Element,
                  p: nat)
    requires Partition(free, used, place) && |place| == |buf| && free != [] && p < |used| && Holds(buf, used, log)
    ensures free[0] < |buf|
    ensures Holds(buf[free[0] := e], used[p := used[p] + [free[0]]], log + [MsgIn(e, p)])
  {
    var b := free[0];
    assert b in free;
    var buf', used', log' := buf[b := e], used[p := used[p] + [b]], log + [MsgIn(e, p)];
    forall k: nat | k < |used'| ensures HoldsAt(buf', used', log', k) {
      assert HoldsAt(buf, used, log, k) && b !in used[k];
      SendAt(buf, used[k], b, e, log, p, k);
    }
  }

  ghost function UsedTotal(used: seq<seq<nat>>, p: nat): nat
    requires p <= |used|
  {
    if p == 0 then 0 else UsedTotal(used, p - 1) + |used[p - 1]|
  }

  lemma HeldLength(buf: seq<Element>, used: seq<seq<nat>>, log: seq<Msg>, k: nat)
    requires Holds(buf, used, log) && k < |used|
    ensures |used[k]| == |Of(log, k)|
  {
    assert HoldsAt(buf, used, log, k);
  }

  lemma {:induction false} UsedIsTotal(used: seq<seq<nat>>, log: seq<Msg>, p: nat)
    requires p <= |used| && forall k: nat {:trigger used[k]} :: k < |used| ==> |used[k]| == |Of(log, k)|
    ensures UsedTotal(used, p) == Total(log, p)
  {
    if p > 0 {
      UsedIsTotal(used, log, p - 1);
    }
  }

  /** The highest non-empty priority is that of the message delivered next. */
  lemma HighestIsPicked(log: seq<Msg>, p: nat, limit: nat)
    requires p < limit && Of(log, p) != [] && (forall k: nat :: p < k < limit ==> Of(log, k) == [])
    requires forall i :: 0 <= i < |log| ==> log[i].prio < limit
    ensures log != [] && log[Pick(log)].prio == p
  {
    assert log != [];
    var m := log[Pick(log)];
    PickIsHead(log);
    if m.prio < p {
      PickLeavesOthers(log, p);
    }
  }

  /** The head of the highest non-empty used list is the message the priority
      FIFO delivers next. */
  lemma ReceiveHolds(buf: seq<Element>, used: seq<seq<nat>>, log: seq<Msg>, p: nat)
    requires Holds(buf, used, log) && p < |used| && used[p] != []
    requires forall k :: p < k < |used| ==> used[k] == []
    requires forall i :: 0 <= i < |log| ==> log[i].prio < |used|
    ensures log != [] && used[p][0] < |buf| && log[Pick(log)] == MsgIn(buf[used[p][0]], p)
    ensures Holds(buf, used[p := used[p][1..]], TakeOut(log, Pick(log)))
  {
    assert HoldsAt(buf, used, log, p);
    forall k: nat | p < k < |used| ensures Of(log, k) == [] {
      HeldLength(buf, used, log, k);
    }
    HighestIsPicked(log, p, |used|);
    HeadOfList(buf, used[p], log, p);
    ReceiveRest(buf, used, log, p);
  }

  lemma HeadOfList(buf: seq<Element>, q: seq<nat>, log: seq<Msg>, p: nat)
    requires q != [] && (forall i :: 0 <= i < |q| ==> q[i] < |buf|) && MsgsIn(buf, q, p) == Of(log, p)
    requires log != [] && log[Pick(log)].prio == p
    ensures log[Pick(log)] == MsgIn(buf[q[0]], p) && MsgsIn(buf, q[1..], p) == Of(TakeOut(log, Pick(log)), p)
  {
    PickIsHead(log);
    HeadSplits(buf, q, p, log[Pick(log)], Of(TakeOut(log, Pick(log)), p));
  }

  lemma HeadSplits(buf: seq<Element>, q: seq<nat>, p: nat, m: Msg, rest: seq<Msg>)
    requires q != [] && (forall i :: 0 <= i < |q| ==> q[i] < |buf|) && MsgsIn(buf, q, p) == [m] + rest
    ensures m == MsgIn(buf[q[0]], p) && MsgsIn(buf, q[1..], p) == rest
  {
    var all, tail := MsgsIn(buf, q, p), MsgsIn(buf, q[1..], p);
    assert all[0] == m && |tail| == |rest|;
    forall i | 0 <= i < |tail| ensures tail[i] == rest[i] {
      assert tail[i] == all[i + 1];
    }
  }

  lemma ReceiveRest(buf: seq<Element>, used: seq<seq<nat>>, log: seq<Msg>, p: nat)
    requires Holds(buf, used, log) && p < |used| && used[p] != [] && log != [] && log[Pick(log)].prio == p
    ensures Holds(buf, used[p := used[p][1..]], TakeOut(log, Pick(log)))
  {
    var used', log' := used[p := used[p][1..]], TakeOut(log, Pick(log));
    forall k: nat | k < |used'| ensures HoldsAt(buf, used', log', k) {
      assert HoldsAt(buf, used, log, k);
      if k != p {
        PickLeavesOthers(log, k);
      } else {
        HeadOfList(buf, used[p], log, p);
      }
    }
  }

  class MQueue {
    const size: nat
    const msgSize: nat
    var cnt: nat
    var freeList: seq<nat>
    const usedList: array<seq<nat>>
    const buf: array<Element>
    ghost var place: seq<int>
    ghost var log: seq<Msg>

    ghost predicate Valid()
      reads this, usedList, buf
    {
      && usedList.Length == MQ_PRIO_MAX + 1 && buf.Length == size == |place|
      && (forall b :: 0 <= b < buf.Length ==> |buf[b].data| == msgSize && buf[b].size <= msgSize)
      && Partition(freeList, usedList[..], place)
      && |freeList| + cnt == size
      && Holds(buf[..], usedList[..], log)
      && (forall i :: 0 <= i < |log| ==> log[i].prio <= MQ_PRIO_MAX)
      && cnt == |log|
    }

    /** The count is the number of buffers on the used lists, and the others are
        free. */
    lemma CountIsUsed()
      requires Valid()
      ensures cnt == UsedTotal(usedList[..], MQ_PRIO_MAX + 1) && |freeList| == size - cnt
    {
      TotalIsCount(log);
      ghost var used := usedList[..];
      forall k: nat | k < |used| ensures |used[k]| == |Of(log, k)| {
        HeldLength(buf[..], used, log, k);
      }
      UsedIsTotal(used, log, MQ_PRIO_MAX + 1);
    }

    /** __mq_allocate: all buffers start on the free list. */
    constructor (maxmsg: nat, msgsize: nat)
      ensures Valid() && log == [] && size == maxmsg && msgSize == msgsize
      ensures fresh(usedList) && fresh(buf)
    {
      size, msgSize, cnt := maxmsg, msgsize, 0;
      usedList := new seq<nat>[MQ_PRIO_MAX + 1](_ => []);
      buf := new Element[maxmsg](_ => Element(0, seq(msgsize, _ => 0)));
      var free: seq<nat> := [];
      var i := 0;
      while i < maxmsg
        invariant i <= maxmsg && |free| == i
        invariant forall k :: 0 <= k < i ==> free[k] == k
      {
        free := free + [i];
        i := i + 1;
      }
      freeList, log, place := free, [], seq(maxmsg, _ => -1);
      new;
      forall b: nat ensures b in freeList <==> b < size {
        if b < size {
          assert freeList[b] == b;
        }
      }
    }

    /** __mq_in. */
    method In(msg: seq<Byte>, prio: nat)
      requires Valid() && cnt < size && |msg| <= msgSize && prio <= MQ_PRIO_MAX
      modifies this`cnt, this`freeList, this`place, this`log, usedList, buf
      ensures Valid() && log == old(log) + [Msg(prio, msg)]
    {
      var b := freeList[0];
      TakeBuffer(freeList, usedList[..], place, prio);
      var e := Element(|msg|, msg + buf[b].data[|msg|..]);
      SendHolds(buf[..], freeList, usedList[..], place, log, e, prio);
      assert MsgIn(e, prio) == Msg(prio, msg);
      ghost var used' := usedList[..][prio := usedList[prio] + [b]];
      buf[b] := e;
      cnt := cnt + 1;
      freeList := freeList[1..];
      usedList[prio] := usedList[prio] + [b];
      place := place[b := prio];
      log := log + [Msg(prio, msg)];
      assert usedList[..] == used';
      assert buf[..] == old(buf[..])[b := e];
    }

    /** __mq_out. */
    method Out() returns (msg: seq<Byte>, prio: nat)
      requires Valid() && cnt > 0
      modifies this`cnt, this`freeList, this`place, this`log, usedList
      ensures Valid() && old(log) != []
      ensures Msg(prio, msg) == old(log)[Pick(old(log))] && log == TakeOut(old(log), Pick(old(log)))
    {
      prio := FindHighest();
      var b := usedList[prio][0];
      ReturnBuffer(freeList, usedList[..], place, prio);
      ReceiveHolds(buf[..], usedList[..], log, prio);
      ghost var used' := usedList[..][prio := usedList[prio][1..]];
      msg := buf[b].data[..buf[b].size];
      cnt := cnt - 1;
      usedList[prio] := usedList[prio][1..];
      freeList := freeList + [b];
      place := place[b := -1];
      log := TakeOut(log, Pick(log));
      assert usedList[..] == used';
    }

    /** The search of __mq_out for the highest priority with a message. */
    method FindHighest() returns (prio: nat)
      requires Valid() && cnt > 0
      ensures prio < usedList.Length && usedList[prio] != []
      ensures forall k :: prio < k < usedList.Length ==> usedList[k] == []
    {
      ghost var top := log[0].prio;
      assert usedList[top] != [] by {
        OfFirst(log);
        HeldLength(buf[..], usedList[..], log, top);
      }
      prio := MQ_PRIO_MAX;
      while usedList[prio] == []
        invariant top <= prio < usedList.Length
        invariant forall k :: prio < k < usedList.Length ==> usedList[k] == []
        decreases prio
      {
        prio := prio - 1;
      }
    }
  }

  lemma OfFirst(log: seq<Msg>)
    requires log != []
    ensures Of(log, log[0].prio) != []
  {}
}

/** The pipe (kernel/pipe.c) over the kernel FIFO in byte stream mode. */
module PipeCode {
  import opened Basics
  import opened Scheduling
  import opened SchedulerSteps
  import opened KernelCode
  import opened KFifoCode

  datatype Reply = Done(n: nat) | Again | Restart

  /** What a request of `size` bytes gets when `limit` bytes can be served: all of
      it, the part available for a non-blocking caller, EAGAIN, or a wait. */
  function Serve(limit: nat, size: nat, nonblock: bool): Reply {
    if size <= limit then Done(size)
    else if !nonblock then Restart
    else if limit > 0 then Done(limit)
    else Again
  }

  /** A request that fits is served whole; else a blocking caller waits, and a
      non-blocking one gets what there is, or EAGAIN if there is nothing. */
  ghost predicate Served(r: Reply, limit: int, size: nat, nonblock: bool) {
    && (r == Done(size) <==> size <= limit)
    && (r == Restart <==> size > limit && !nonblock)
    && (r == Again <==> size > limit && nonblock && limit == 0)
    && (size > limit && nonblock && limit > 0 ==> r == Done(limit))
  }

  // ------------------------------------------------------- whole streams

  datatype Call = Write(buf: seq<Byte>, wNonblock: bool) | Read(size: nat, rNonblock: bool)

  /** The bytes a call adds to the ring, and the bytes it takes from it. */
  function Added(ring: seq<Byte>, capacity: nat, c: Call): seq<Byte>
    requires |ring| <= capacity
  {
    match c
    case Write(buf, nb) => (match Serve(capacity - |ring|, |buf|, nb) case Done(n) => buf[..n] case _ => [])
    case Read(_, _) => []
  }

  function Taken(ring: seq<Byte>, c: Call): seq<Byte> {
    match c
    case Write(_, _) => []
    case Read(size, nb) => (match Serve(|ring|, size, nb) case Done(n) => ring[..n] case _ => [])
  }

  function After(ring: seq<Byte>, capacity: nat, c: Call): (r: seq<Byte>)
    requires |ring| <= capacity
    ensures |r| <= capacity
  {
    if c.Write? then ring + Added(ring, capacity, c) else ring[|Taken(ring, c)|..]
  }

  /** A read that is not served takes nothing. */
  lemma ReadOf(ring: seq<Byte>, capacity: nat, size: nat, nb: bool)
    requires |ring| <= capacity
    ensures match Serve(|ring|, size, nb)
            case Done(n) => Taken(ring, Read(size, nb)) == ring[..n]
              && After(ring, capacity, Read(size, nb)) == ring[n..]
            case _ => Taken(ring, Read(size, nb)) == [] && After(ring, capacity, Read(size, nb)) == ring
  {}

  /** The ring after a sequence of calls of any number of readers and writers,
      and all bytes accepted and returned by them, in order. */
  function RingAfter(calls: seq<Call>, capacity: nat): (r: seq<Byte>)
    ensures |r| <= capacity
  {
    if calls == [] then []
    else After(RingAfter(calls[..|calls| - 1], capacity), capacity, calls[|calls| - 1])
  }

  function Accepted(calls: seq<Call>, capacity: nat): seq<Byte> {
    if calls == [] then []
    else
      var before := calls[..|calls| - 1];
      Accepted(before, capacity) + Added(RingAfter(before, capacity), capacity, calls[|calls| - 1])
  }

  function Returned(calls: seq<Call>, capacity: nat): seq<Byte> {
    if calls == [] then []
    else
      var before := calls[..|calls| - 1];
      Returned(before, capacity) + Taken(RingAfter(before, capacity), calls[|calls| - 1])
  }

  /** Lossless streams: over any interleaving, the bytes accepted by writes are
      the bytes returned by reads followed by those still in the ring. */
  lemma {:induction false} Lossless(calls: seq<Call>, capacity: nat)
    ensures Accepted(calls, capacity) == Returned(calls, capacity) + RingAfter(calls, capacity)
  {
    if calls != [] {
      var before, c := calls[..|calls| - 1], calls[|calls| - 1];
      Lossless(before, capacity);
      LosslessStep(Accepted(before, capacity), Returned(before, capacity), RingAfter(before, capacity), capacity, c);
    }
  }

  lemma LosslessStep(a: seq<Byte>, r: seq<Byte>, ring: seq<Byte>, capacity: nat, c: Call)
    requires |ring| <= capacity && a == r + ring
    ensures a + Added(ring, capacity, c) == (r + Taken(ring, c)) + After(ring, capacity, c)
  {}

  lemma AcceptedGrows(calls: seq<Call>, capacity: nat)
    requires calls != []
    ensures var n := |calls| - 1;
            && Accepted(calls, capacity) ==
              Accepted(calls[..n], capacity) + Added(RingAfter(calls[..n], capacity), capacity, calls[n])
            && Accepted(calls[..n], capacity) <= Accepted(calls, capacity)
  {}

  lemma AppendKeepsPrefix(a: seq<Byte>, b: seq<Byte>, c: seq<Byte>)
    requires a <= b <= c
    ensures a <= c
  {}

  /** Each accepted write is contiguous in the stream: the bytes the k-th call adds
      stand together right after everything accepted before it. */
  lemma {:induction false} Contiguous(calls: seq<Call>, capacity: nat, k: nat)
    requires k < |calls|
    ensures var before := Accepted(calls[..k], capacity);
            before + Added(RingAfter(calls[..k], capacity), capacity, calls[k]) <= Accepted(calls, capacity)
    decreases |calls|
  {
    var n := |calls| - 1;
    AcceptedGrows(calls, capacity);
    if k < n {
      Contiguous(calls[..n], capacity, k);
      assert calls[..n][..k] == calls[..k] && calls[..n][k] == calls[k];
      AppendKeepsPrefix(Accepted(calls[..k], capacity) + Added(RingAfter(calls[..k], capacity), capacity, calls[k]),
                        Accepted(calls[..n], capacity), Accepted(calls, capacity));
    }
  }

  // --------------------------------------------------------- waking waiters

  /** The first thread of the highest priority among those of a queue whose
      request fits, or -1. */
  function FirstFitting(threads: seq<Thread>, requests: seq<nat>, q: seq<Tid>, avail: nat): (i: int)
    requires Below(q, |threads|) && |requests| == |threads|
    ensures -1 <= i < |q|
    ensures i < 0 ==> forall j :: 0 <= j < |q| ==> requests[q[j]] > avail
    ensures i >= 0 ==> requests[q[i]] <= avail
    ensures i >= 0 ==> forall j :: 0 <= j < |q| && requests[q[j]] <= avail ==>
              threads[q[j]].priority <= threads[q[i]].priority
    ensures i >= 0 ==> forall j :: 0 <= j < i && requests[q[j]] <= avail ==>
              threads[q[j]].priority < threads[q[i]].priority
  {
    if q == [] then -1
    else
      var n := |q| - 1;
      var i := FirstFitting(threads, requests, q[..n], avail);
      if requests[q[n]] <= avail && (i < 0 || threads[q[n]].priority > threads[q[i]].priority) then n else i
  }

  /** fifo_wake_up as a step of the scheduler. */
  function FifoWoken(s: State, requests: seq<nat>, id: ListId, avail: nat): State
    requires Below(ListOf(s, id), |s.threads|) && |requests| == |s.threads|
  {
    var i := FirstFitting(s.threads, requests, ListOf(s, id), avail);
    if i < 0 || ListOf(s, id)[i] == s.running then s else Wake(s, id, ListOf(s, id)[i])
  }

  /** fifo_wake_up makes one waiter ready, whose request fits, of the highest priority
      among those, and takes it off the list; without such a waiter, or if it is the
      running thread, nothing changes. */
  lemma FifoWokenReleases(s: State, requests: seq<nat>, id: ListId, avail: nat)
    requires Below(ListOf(s, id), |s.threads|) && |requests| == |s.threads| && !id.ReadyList?
    ensures var q, s' := ListOf(s, id), FifoWoken(s, requests, id, avail);
            if forall j :: 0 <= j < |q| ==> requests[q[j]] > avail then s' == s
            else
              var t := q[FirstFitting(s.threads, requests, q, avail)];
              && requests[t] <= avail
              && (forall j :: 0 <= j < |q| && requests[q[j]] <= avail ==>
                    s.threads[q[j]].priority <= s.threads[t].priority)
              && if t == s.running then s' == s
                 else
                   && s'.threads == s.threads[t := s.threads[t].(status := Ready)] && ListOf(s', id) == Without(q, t)
                   && var p := s.threads[t].priority; ListOf(s', ReadyList(p)) == ListOf(s, ReadyList(p)) + [t]
  {}

  /** fifo_wake_up. */
  method FifoWakeUp(k: Kernel, requests: array<nat>, id: ListId, avail: nat)
    requires Below(k.Queue(id), k.threads.Length) && requests.Length == k.threads.Length
    modifies k`lists, k.threads
    ensures k.St() == FifoWoken(old(k.St()), requests[..], id, avail)
  {
    var q := k.Queue(id);
    var best, i := -1, 0;
    while i < |q|
      invariant i <= |q| && best == FirstFitting(k.threads[..], requests[..], q[..i], avail)
    {
      assert q[..i + 1][..i] == q[..i];
      if requests[q[i]] <= avail && (best == -1 || k.threads[q[i]].priority > k.threads[q[best]].priority) {
        best := i;
      }
      i := i + 1;
    }
    assert q[..i] == q;
    if best != -1 {
      k.FinishWait(q[best], id);
    }
  }

  // --------------------------------------------------------------- the code

  /** The bytes of one-byte records. */
  ghost function Bytes(q: seq<seq<Byte>>): seq<Byte>
    requires forall i :: 0 <= i < |q| ==> |q[i]| == 1
  {
    seq(|q|, i requires 0 <= i < |q| => q[i][0])
  }

  /** The caller records its request and is put on a wait list. */
  method Suspend(k: Kernel, requests: array<nat>, size: nat, id: ListId)
    requires k.running < k.threads.Length == requests.Length
    modifies k`lists, k.threads, requests
    ensures requests[..] == old(requests[..])[k.running := size]
    ensures k.St() == PrepareToWait(old(k.St()), id, k.running)
  {
    requests[k.running] := size;
    k.PrepareToWait(id, k.running);
  }

  class Pipe {
    const fifo: KFifo
    const readers: ListId
    const writers: ListId

    ghost predicate Valid()
      reads this, fifo, fifo.data
    {
      fifo.Valid() && fifo.esize == 1 && forall i :: 0 <= i < fifo.count ==> |fifo.Contents()[i]| == 1
    }

    ghost function Stream(): seq<Byte>
      requires Valid()
      reads this, fifo, fifo.data
    {
      Bytes(fifo.Contents())
    }

    /** fifo_init. */
    constructor (f: KFifo, r: ListId, w: ListId)
      requires f.Valid() && f.esize == 1 && f.count == 0
      ensures Valid() && Stream() == [] && fifo == f && readers == r && writers == w
    {
      fifo, readers, writers := f, r, w;
    }

    /** The loop of __fifo_write: every byte finds room, so the FIFO never drops
        one. */
    method Push(buf: seq<Byte>)
      requires Valid() && |buf| <= fifo.Avail()
      modifies fifo`start, fifo`end, fifo`count, fifo.data
      ensures Valid() && Stream() == old(Stream()) + buf
    {
      var i := 0;
      while i < |buf|
        invariant i <= |buf| && Valid() && fifo.count == old(fifo.count) + i
        invariant Stream() == old(Stream()) + buf[..i]
      {
        ghost var was := fifo.Contents();
        fifo.In([buf[i]]);
        assert fifo.Contents() == was + [[buf[i]]];
        assert Bytes(was + [[buf[i]]]) == Bytes(was) + [buf[i]];
        i := i + 1;
      }
    }

    /** The loop of __fifo_read. */
    method PullBytes(n: nat) returns (buf: seq<Byte>)
      requires Valid() && n <= fifo.count
      modifies fifo`start, fifo`count
      ensures Valid() && old(Stream()) == buf + Stream() && |buf| == n
    {
      buf := [];
      var i := 0;
      while i < n
        invariant i <= n && Valid() && fifo.count == old(fifo.count) - i
        invariant old(Stream()) == buf + Stream() && |buf| == i
      {
        ghost var was := fifo.Contents();
        var got, b := fifo.Out(1);
        assert b == was[0];
        assert Bytes(was) == b + Bytes(was[1..]);
        buf := buf + b;
        i := i + 1;
      }
    }

    /** __fifo_read.  A caller that must wait records its request and is put on the
        readers' list; otherwise one fitting writer is woken. */
    method FifoRead(k: Kernel, requests: array<nat>, size: nat, nonblock: bool) returns (r: Reply, buf: seq<Byte>)
      requires Valid() && k.running < k.threads.Length == requests.Length && Below(k.Queue(writers), k.threads.Length)
      modifies fifo`start, fifo`count, k`lists, k.threads, requests
      ensures Valid() && Served(r, |old(Stream())|, size, nonblock) && r == Serve(|old(Stream())|, size, nonblock)
      ensures Stream() == After(old(Stream()), fifo.size, Read(size, nonblock))
      ensures buf == Taken(old(Stream()), Read(size, nonblock))
      ensures requests[..] == if r.Restart? then old(requests[..])[k.running := size] else old(requests[..])
      ensures k.St() == match r
                        case Done(_) => FifoWoken(old(k.St()), requests[..], writers, fifo.Avail())
                        case Again => old(k.St())
                        case Restart => PrepareToWait(old(k.St()), readers, k.running)
    {
      ReadOf(Stream(), fifo.size, size, nonblock);
      r, buf := ReadCases(k, requests, size, nonblock);
    }

    /** Its body, case by case. */
    method ReadCases(k: Kernel, requests: array<nat>, size: nat, nonblock: bool) returns (r: Reply, buf: seq<Byte>)
      requires Valid() && k.running < k.threads.Length == requests.Length && Below(k.Queue(writers), k.threads.Length)
      modifies fifo`start, fifo`count, k`lists, k.threads, requests
      ensures Valid() && r == Serve(|old(Stream())|, size, nonblock)
      ensures r.Done? ==> old(Stream()) == buf + Stream() && |buf| == r.n
      ensures !r.Done? ==> buf == [] && Stream() == old(Stream())
      ensures requests[..] == if r.Restart? then old(requests[..])[k.running := size] else old(requests[..])
      ensures r.Done? ==> k.St() == FifoWoken(old(k.St()), requests[..], writers, fifo.Avail())
      ensures r.Again? ==> k.St() == old(k.St())
      ensures r.Restart? ==> k.St() == PrepareToWait(old(k.St()), readers, k.running)
    {
      var n := size;
      if size > fifo.count {
        if nonblock {
          if fifo.count > 0 {
            n := fifo.count;
          } else {
            return Again, [];
          }
        } else {
          Suspend(k, requests, size, readers);
          return Restart, [];
        }
      }
      buf := ReadServed(k, requests, n);
      return Done(n), buf;
    }

    /** The part of __fifo_write that serves a request. */
    method WriteServed(k: Kernel, requests: array<nat>, part: seq<Byte>)
      requires Valid() && k.threads.Length == requests.Length && Below(k.Queue(readers), k.threads.Length)
      requires |part| <= fifo.Avail()
      modifies fifo`start, fifo`end, fifo`count, fifo.data, k`lists, k.threads
      ensures Valid() && Stream() == old(Stream()) + part
      ensures k.St() == FifoWoken(old(k.St()), requests[..], readers, fifo.count)
    {
      ghost var st, req := k.St(), requests[..];
      Push(part);
      assert k.St() == st && requests[..] == req;
      FifoWakeUp(k, requests, readers, fifo.count);
      assert requests[..] == req;
    }

    /** The part of __fifo_read that serves a request. */
    method ReadServed(k: Kernel, requests: array<nat>, n: nat) returns (buf: seq<Byte>)
      requires Valid() && k.threads.Length == requests.Length && Below(k.Queue(writers), k.threads.Length)
                 && n <= fifo.count
      modifies fifo`start, fifo`count, k`lists, k.threads
      ensures Valid() && old(Stream()) == buf + Stream() && |buf| == n
      ensures k.St() == FifoWoken(old(k.St()), requests[..], writers, fifo.Avail())
    {
      ghost var st, req := k.St(), requests[..];
      buf := PullBytes(n);
      assert k.St() == st && requests[..] == req;
      FifoWakeUp(k, requests, writers, fifo.Avail());
      assert requests[..] == req;
    }

    /** __fifo_write. */
    method FifoWrite(k: Kernel, requests: array<nat>, buf: seq<Byte>, nonblock: bool) returns (r: Reply)
      requires Valid() && k.running < k.threads.Length == requests.Length && Below(k.Queue(readers), k.threads.Length)
      modifies fifo`start, fifo`end, fifo`count, fifo.data, k`lists, k.threads, requests
      ensures Valid() && Served(r, fifo.size - |old(Stream())|, |buf|, nonblock)
      ensures r == Serve(fifo.size - |old(Stream())|, |buf|, nonblock)
      ensures Stream() == After(old(Stream()), fifo.size, Write(buf, nonblock))
      ensures Stream() == old(Stream()) + if r.Done? then buf[..r.n] else []
      ensures requests[..] == if r.Restart? then old(requests[..])[k.running := |buf|] else old(requests[..])
      ensures k.St() == match r
                        case Done(_) => FifoWoken(old(k.St()), requests[..], readers, fifo.count)
                        case Again => old(k.St())
                        case Restart => PrepareToWait(old(k.St()), writers, k.running)
    {
      var avail := fifo.Avail();
      var n := |buf|;
      if |buf| > avail {
        if nonblock {
          if avail > 0 {
            n := avail;
          } else {
            return Again;
          }
        } else {
          Suspend(k, requests, |buf|, writers);
          return Restart;
        }
      }
      WriteServed(k, requests, buf[..n]);
      return Done(n);
    }
  }
}

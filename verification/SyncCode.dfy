/** The blocking calls in place (kernel/semaphore.c, kernel/mutex.c,
    kernel/mqueue.c): one pass of each retry loop, on the fields of the object and
    of the kernel.  Every pass is proved to take exactly the action of module
    Blocking that models it, so the theorems of BlockingRuns hold for this code. */
module SyncCode {
  import opened Basics
  import opened Scheduling
  import opened SchedulerSteps
  import opened SchedulerRuns
  import opened KernelCode
  import opened PriorityFifo
  import opened Blocking
  import opened MessageQueueCode

  class KSemaphore {
    var count: int
    const o: nat

    /** One pass of the loop of down: false means the caller now waits. */
    method DownAttempt(k: Kernel, ghost s: Sys) returns (acquired: bool, ghost s': Sys)
      requires s.k == k.St() && Can(s, Down(o)) && s.objs[o] == Semaphore(count)
      modifies this, k`lists, k.threads
      ensures s' == DoDown(s, o) && k.St() == s'.k && s'.objs[o] == Semaphore(count)
      ensures acquired <==> old(count) > 0
      ensures count == if acquired then old(count) - 1 else old(count)
      ensures !acquired ==> k.Queue(WaitList(2 * o)) == old(k.Queue(WaitList(2 * o))) + [k.running]
      ensures !acquired ==> k.threads[k.running].status == Wait
    {
      s' := DoDown(s, o);
      if count <= 0 {
        k.PrepareToWait(WaitList(Gate(o, 0)), k.running);
        return false, s';
      }
      count := count - 1;
      return true, s';
    }

    /** down_trylock. */
    method DownTrylock(k: Kernel, ghost s: Sys) returns (acquired: bool, ghost s': Sys)
      requires s.k == k.St() && Can(s, TryDown(o)) && s.objs[o] == Semaphore(count)
      modifies this
      ensures s' == DoTryDown(s, o) && k.St() == s'.k && s'.objs[o] == Semaphore(count)
      ensures acquired <==> old(count) > 0
      ensures count == if acquired then old(count) - 1 else old(count)
    {
      s' := DoTryDown(s, o);
      if count <= 0 {
        return false, s'; // EAGAIN
      }
      count := count - 1;
      return true, s';
    }

    /** up: false is EOVERFLOW. */
    method UpCall(k: Kernel, ghost s: Sys) returns (ok: bool, ghost s': Sys)
      requires s.k == k.St() && Can(s, Up(o)) && s.objs[o] == Semaphore(count)
      modifies this, k`lists, k.threads
      ensures s' == DoUp(s, o) && k.St() == s'.k && s'.objs[o] == Semaphore(count)
      ensures ok <==> old(count) < 0x7fff_fffe
      ensures count == if ok then old(count) + 1 else old(count)
    {
      s' := DoUp(s, o);
      if count >= INT32_MAX - 1 {
        return false, s';
      }
      count := count + 1;
      if count > 0 && k.Queue(WaitList(Gate(o, 0))) != [] {
        k.WakeUp(WaitList(Gate(o, 0)));
      }
      return true, s';
    }
  }

  class KMutex {
    var owner: Option<Tid>
    const inherits: bool
    const o: nat

    /** One pass of the loop of mutex_lock. */
    method LockAttempt(k: Kernel, ghost s: Sys) returns (locked: bool, ghost s': Sys)
      requires s.k == k.St() && Consistent(s) && Can(s, Lock(o)) && s.objs[o] == Mutex(owner, inherits)
      modifies this, k`lists, k.threads
      ensures s' == DoLock(s, o) && k.St() == s'.k && s'.objs[o] == Mutex(owner, inherits)
      ensures locked <==> old(owner).None?
      ensures owner == if locked then Some(k.running) else old(owner)
      ensures !locked ==> k.Queue(WaitList(2 * o)) == old(k.Queue(WaitList(2 * o))) + [k.running]
      ensures !locked ==> k.threads[k.running].status == Wait
    {
      s' := DoLock(s, o);
      if owner.Some? {
        k.PrepareToWait(WaitList(Gate(o, 0)), k.running);
        if inherits {
          OwnerQueueNoDup(s, Gate(o, 0), owner.value);
          k.InheritPriority(owner.value);
        }
        return false, s';
      }
      owner := Some(k.running);
      k.ResetInherited();
      return true, s';
    }

    /** mutex_unlock: false is EPERM. */
    method UnlockCall(k: Kernel, ghost s: Sys) returns (ok: bool, ghost s': Sys)
      requires s.k == k.St() && Can(s, Unlock(o)) && s.objs[o] == Mutex(owner, inherits)
      modifies this, k`lists, k.threads
      ensures s' == DoUnlock(s, o) && k.St() == s'.k && s'.objs[o] == Mutex(owner, inherits)
      ensures ok <==> old(owner) == Some(s.k.running)
      ensures owner == if ok then None else old(owner)
    {
      s' := DoUnlock(s, o);
      if owner != Some(k.running) {
        return false, s';
      }
      owner := None;
      k.WakeUp(WaitList(Gate(o, 0)));
      return true, s';
    }
  }

  /** After the caller has been put on a wait list, the ready lists are still
      free of duplicates. */
  lemma OwnerQueueNoDup(s: Sys, w: nat, owner: Tid)
    requires Consistent(s) && Caller(s, w) && owner < |s.k.threads|
    ensures var k1 := PrepareToWait(s.k, WaitList(w), s.k.running);
            NoDup(ListOf(k1, ReadyList(k1.threads[owner].priority)))
  {
    PrepareToWaitInv(s.k, WaitList(w));
    var k1 := PrepareToWait(s.k, WaitList(w), s.k.running);
    assert LinkedOnce(k1);
  }

  /** One pass of sys_mq_send, with `open` for a valid descriptor.  The error returns before the queue is looked at
      leave everything unchanged. */
  method MqSendAttempt(k: Kernel, q: MQueue, o: nat, open: bool, writable: bool, nonblock: bool, msg: seq<Byte>,
                       prio: nat, ghost s: Sys)
    returns (r: Result<()>, ghost s': Sys)
    requires q.Valid() && s.k == k.St() && Can(s, Send(o, Msg(prio, msg), nonblock))
    requires s.objs[o] == MessageQueue(q.size, q.log)
    modifies q`cnt, q`freeList, q`place, q`log, q.usedList, q.buf, k`lists, k.threads
    ensures q.Valid() && k.St() == s'.k && o in s'.objs && s'.objs[o] == MessageQueue(q.size, q.log)
    ensures r == Err(EINVAL) <==> prio > MQ_PRIO_MAX
    ensures r == Err(EBADF) <==> prio <= MQ_PRIO_MAX && (!open || (|msg| <= q.msgSize && !writable))
    ensures r == Err(EMSGSIZE) <==> prio <= MQ_PRIO_MAX && open && |msg| > q.msgSize
    ensures r in {Err(EINVAL), Err(EMSGSIZE), Err(EBADF)} ==> s' == s
    ensures r !in {Err(EINVAL), Err(EMSGSIZE), Err(EBADF)} ==> s' == DoSend(s, o, Msg(prio, msg), nonblock)
    ensures var ready := prio <= MQ_PRIO_MAX && open && |msg| <= q.msgSize && writable;
            && (r == Ok(()) <==> ready && |old(q.log)| < q.size)
            && (r == Err(EAGAIN) <==> ready && |old(q.log)| == q.size && nonblock)
            && (r == Err(ERESTARTSYS) <==> ready && |old(q.log)| == q.size && !nonblock)
    ensures q.log == if r.Ok? then old(q.log) + [Msg(prio, msg)] else old(q.log)
    ensures r == Err(ERESTARTSYS) ==>
      && k.Queue(WaitList(2 * o + 1)) == old(k.Queue(WaitList(2 * o + 1))) + [k.running]
      && k.threads[k.running].status == Wait
  {
    s' := s;
    if prio > MQ_PRIO_MAX {
      return Err(EINVAL), s;
    }
    if !open {
      return Err(EBADF), s;
    }
    if |msg| > q.msgSize {
      return Err(EMSGSIZE), s;
    }
    if !writable {
      return Err(EBADF), s;
    }
    s' := DoSend(s, o, Msg(prio, msg), nonblock);
    if q.size - q.cnt <= 0 {
      if nonblock {
        return Err(EAGAIN), s';
      }
      k.PrepareToWait(WaitList(Gate(o, 1)), k.running);
      return Err(ERESTARTSYS), s';
    }
    q.In(msg, prio);
    k.WakeUp(WaitList(Gate(o, 0)));
    return Ok(()), s';
  }

  /** One pass of sys_mq_receive.  Its own check refuses a buffer larger than the
      message size and that of __mq_receive a smaller one, so only a buffer of
      exactly the message size gets through. */
  method MqReceiveAttempt(k: Kernel, q: MQueue, o: nat, open: bool, readable: bool, nonblock: bool, msgLen: nat,
                          ghost s: Sys)
    returns (r: Result<Msg>, ghost s': Sys)
    requires q.Valid() && s.k == k.St() && Can(s, Receive(o, nonblock))
    requires s.objs[o] == MessageQueue(q.size, q.log)
    modifies q`cnt, q`freeList, q`place, q`log, q.usedList, k`lists, k.threads
    ensures q.Valid() && k.St() == s'.k && o in s'.objs && s'.objs[o] == MessageQueue(q.size, q.log)
    ensures r == Err(EBADF) <==> !open || (msgLen <= q.msgSize && !readable)
    ensures r == Err(EMSGSIZE) <==> open && (msgLen > q.msgSize || (readable && msgLen < q.msgSize))
    ensures r in {Err(EMSGSIZE), Err(EBADF)} ==> s' == s
    ensures r !in {Err(EMSGSIZE), Err(EBADF)} ==> s' == DoReceive(s, o, nonblock)
    ensures var ready := open && readable && msgLen == q.msgSize;
            && (r.Ok? <==> ready && old(q.log) != [])
            && (r == Err(EAGAIN) <==> ready && old(q.log) == [] && nonblock)
            && (r == Err(ERESTARTSYS) <==> ready && old(q.log) == [] && !nonblock)
    ensures r.Ok? ==> r.value == old(q.log)[Pick(old(q.log))] && q.log == TakeOut(old(q.log), Pick(old(q.log)))
    ensures !r.Ok? ==> q.log == old(q.log)
    ensures r == Err(ERESTARTSYS) ==>
      && k.Queue(WaitList(2 * o)) == old(k.Queue(WaitList(2 * o))) + [k.running]
      && k.threads[k.running].status == Wait
  {
    s' := s;
    if !open {
      return Err(EBADF), s;
    }
    if msgLen > q.msgSize {
      return Err(EMSGSIZE), s;
    }
    if !readable {
      return Err(EBADF), s;
    }
    if msgLen < q.msgSize {
      return Err(EMSGSIZE), s;
    }
    s' := DoReceive(s, o, nonblock);
    if q.cnt <= 0 {
      if nonblock {
        return Err(EAGAIN), s';
      }
      k.PrepareToWait(WaitList(Gate(o, 0)), k.running);
      return Err(ERESTARTSYS), s';
    }
    var msg, prio := q.Out();
    k.WakeUp(WaitList(Gate(o, 1)));
    return Ok(Msg(prio, msg)), s';
  }
}

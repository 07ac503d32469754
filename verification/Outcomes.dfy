/** What a blocking call does to its caller (kernel/semaphore.c, kernel/mutex.c,
    kernel/mqueue.c): it waits exactly when it may and cannot go ahead. */
module Outcomes {
  import opened Basics
  import opened Scheduling
  import opened SchedulerSteps
  import opened SchedulerRuns
  import opened SchedulerPolicy
  import opened PriorityFifo
  import opened Blocking

  /** Thread t has stopped: it is the last on wait list w, inside its retry loop and
      not runnable, and no object has changed. */
  ghost predicate Stopped(s: Sys, s': Sys, t: Tid, w: nat) {
    && Waiters(s', w) == Waiters(s, w) + [t] && s'.pending == s.pending[t := w] && s'.objs == s.objs
    && t < |s'.k.threads| == |s.k.threads| && s'.k.threads[t].status == Wait && !Runnable(s'.k, t)
  }

  /** Only the threads a and b may have other records or other places. */
  ghost predicate OthersStay(k: State, k': State, a: Tid, b: Tid) {
    && |k'.threads| == |k.threads| && k'.running == k.running
    && (forall x: Tid :: x < |k.threads| && x != a && x != b ==> k'.threads[x] == k.threads[x])
    && (forall x: Tid, id {:trigger x in ListOf(k', id)} :: x != a && x != b ==>
          (x in ListOf(k', id) <==> x in ListOf(k, id)))
  }

  /** The first waiter of the highest priority on list w has become ready; the others
      wait on in their order, and no other record has changed. */
  ghost predicate WokeOne(k: State, k': State, w: nat)
    requires InTable(k)
  {
    var q := ListOf(k, WaitList(w));
    if q == [] then k' == k
    else
      var t := Chosen(k, w);
      && k'.threads == k.threads[t := k.threads[t].(status := Ready)]
      && ListOf(k', WaitList(w)) == Without(q, t) && k'.running == k.running
  }

  lemma ReleaseWakesOne(s: Sys, s1: Sys, g: nat, w: nat)
    requires InTable(s.k) && s1.k == s.k && g == w
    ensures var s' := Release(s1, g);
            && s'.objs == s1.objs && s'.pending == s1.pending && WokeOne(s.k, s'.k, w)
            && (Inv(s.k) && Executing(s.k) ==> Executing(s'.k))
  {
    WakeOneReleases(s.k, w);
    if Waiters(s, w) != [] && Inv(s.k) {
      OnItsList(s.k, Chosen(s.k, w), WaitList(w));
    }
  }

  lemma BlockOnStops(s: Sys, w: nat)
    requires Consistent(s) && Caller(s, w)
    ensures Stopped(s, BlockOn(s, w), s.k.running, w) && OthersStay(s.k, BlockOn(s, w).k, s.k.running, s.k.running)
  {
    var t, k' := s.k.running, BlockOn(s, w).k;
    PrepareToWaitInv(s.k, WaitList(w));
    PrepareToWaitPlaced(s.k, WaitList(w));
    RelinkLists(s.k, t, None, Some(WaitList(w)), s.k.threads[t].(status := Wait), WaitList(w));
    assert t in ListOf(k', WaitList(w));
    OnItsList(k', t, WaitList(w));
  }

  /** down: with a count of zero the caller waits; else the count falls by one and
      nothing else changes but that the caller is out of its loop. */
  lemma DownOutcome(s: Sys, o: nat)
    requires Consistent(s) && Can(s, Down(o))
    ensures var s', t, count := Do(s, Down(o)), s.k.running, s.objs[o].count;
            if count <= 0 then Stopped(s, s', t, 2 * o) && OthersStay(s.k, s'.k, t, t)
            else s'.k == s.k && s'.pending == s.pending - {t} && s'.objs == s.objs[o := Semaphore(count - 1)]
  {
    if s.objs[o].count <= 0 {
      BlockOnStops(s, Gate(o, 0));
    }
  }

  /** mutex_lock: with an owner the caller waits, and of the other threads only the
      owner may change, if the mutex inherits; else the caller is the owner and goes
      on, with the priority it has saved if it has inherited one. */
  lemma LockOutcome(s: Sys, o: nat)
    requires Consistent(s) && Can(s, Lock(o))
    ensures var s', t, m := Do(s, Lock(o)), s.k.running, s.objs[o];
            if m.owner.Some? then
              Stopped(s, s', t, 2 * o) && OthersStay(s.k, s'.k, t, if m.inherits then m.owner.value else t)
            else
              && s'.pending == s.pending - {t} && s'.objs == s.objs[o := Mutex(Some(t), m.inherits)]
              && s'.k.lists == s.k.lists && s'.k.running == t
              && var me := s.k.threads[t];
                 s'.k.threads == if me.priorityInherited then
                                   s.k.threads[t := me.(priority := me.originalPriority, priorityInherited := false)]
                                 else s.k.threads
  {
    var m := s.objs[o];
    if m.owner.Some? {
      BlockOnStops(s, Gate(o, 0));
      if m.inherits {
        InheritAfterBlock(s, BlockOn(s, Gate(o, 0)), Gate(o, 0), m.owner.value);
      }
    }
  }

  lemma InheritAfterBlock(s: Sys, s1: Sys, w: nat, owner: Tid)
    requires Consistent(s) && Caller(s, w) && s1 == BlockOn(s, w) && owner < |s.k.threads|
    ensures s1.k.running < |s1.k.threads| && owner < |s1.k.threads|
    ensures var s' := s1.(k := InheritPriority(s1.k, owner));
            Stopped(s, s', s.k.running, w) && OthersStay(s.k, s'.k, s.k.running, owner)
  {
    var t, k' := s.k.running, InheritPriority(s1.k, owner);
    BlockOnStops(s, w);
    BlockOnConsistent(s, w);
    InheritWaitList(s1.k, owner, w);
    InheritPriorityInv(s1.k, owner);
    InheritRecords(s1.k, owner);
    PlacedInTable(s1.k);
    forall x: Tid, id | x != owner ensures x in ListOf(k', id) <==> x in ListOf(s1.k, id) {
      InheritStays(s1.k, owner, x);
    }
    assert t in ListOf(k', WaitList(w));
    OnItsList(k', t, WaitList(w));
  }

  /** mq_send: with a full queue a blocking caller waits and a non-blocking one is
      left alone; else the message is added, a receiver is woken and the caller goes
      on. */
  lemma SendOutcome(s: Sys, o: nat, m: Msg, nonblock: bool)
    requires Consistent(s) && Can(s, Send(o, m, nonblock))
    ensures var s', t, q := Do(s, Send(o, m, nonblock)), s.k.running, s.objs[o];
            if |q.msgs| < q.size then
              && s'.pending == s.pending - {t} && s'.objs == s.objs[o := MessageQueue(q.size, q.msgs + [m])]
              && Executing(s'.k) && WokeOne(s.k, s'.k, 2 * o)
            else if nonblock then s' == s
            else Stopped(s, s', t, 2 * o + 1) && OthersStay(s.k, s'.k, t, t)
  {
    var q := s.objs[o];
    if |q.msgs| < q.size {
      ReleaseWakesOne(s, Finish(SetObj(s, o, q.(msgs := q.msgs + [m]))), Gate(o, 0), 2 * o);
    } else if !nonblock {
      BlockOnStops(s, Gate(o, 1));
    }
  }

  /** mq_receive: with an empty queue a blocking caller waits and a non-blocking one
      is left alone; else the message is taken out, a sender is woken and the caller
      goes on. */
  lemma ReceiveOutcome(s: Sys, o: nat, nonblock: bool)
    requires Consistent(s) && Can(s, Receive(o, nonblock))
    ensures var s', t, q := Do(s, Receive(o, nonblock)), s.k.running, s.objs[o];
            if q.msgs != [] then
              && s'.pending == s.pending - {t} && Executing(s'.k) && WokeOne(s.k, s'.k, 2 * o + 1)
              && s'.objs == s.objs[o := MessageQueue(q.size, TakeOut(q.msgs, Pick(q.msgs)))]
            else if nonblock then s' == s
            else Stopped(s, s', t, 2 * o) && OthersStay(s.k, s'.k, t, t)
  {
    var q := s.objs[o];
    if q.msgs != [] {
      ReleaseWakesOne(s, Finish(SetObj(s, o, q.(msgs := TakeOut(q.msgs, Pick(q.msgs))))), Gate(o, 1), 2 * o + 1);
    } else if !nonblock {
      BlockOnStops(s, Gate(o, 0));
    }
  }

  /** mutex_unlock: the mutex of its owner becomes free and one waiter is made ready;
      any other caller changes nothing. */
  lemma UnlockOutcome(s: Sys, o: nat)
    requires Consistent(s) && Can(s, Unlock(o))
    ensures var s', m := Do(s, Unlock(o)), s.objs[o];
            if m.owner != Some(s.k.running) then s' == s
            else
              && s'.objs == s.objs[o := Mutex(None, m.inherits)] && s'.pending == s.pending
              && Executing(s'.k) && WokeOne(s.k, s'.k, 2 * o)
  {
    ReleaseWakesOne(s, SetObj(s, o, s.objs[o].(owner := None)), Gate(o, 0), 2 * o);
  }

  /** up: the count grows by one, and one waiter is made ready once it is positive; at
      the limit nothing changes. */
  lemma UpOutcome(s: Sys, o: nat)
    requires Can(s, Up(o))
    ensures s.objs[o].count >= 0x7fff_fffe ==> Do(s, Up(o)) == s
    ensures s.objs[o].count < 0x7fff_fffe ==>
      && Do(s, Up(o)).objs == s.objs[o := Semaphore(s.objs[o].count + 1)]
      && Do(s, Up(o)).pending == s.pending
    ensures s.objs[o].count < 0 ==> Do(s, Up(o)).k == s.k
    ensures 0 <= s.objs[o].count < 0x7fff_fffe ==> WokeOne(s.k, Do(s, Up(o)).k, 2 * o)
  {
    var count := s.objs[o].count;
    if 0 <= count < 0x7fff_fffe {
      ReleaseWakesOne(s, SetObj(s, o, Semaphore(count + 1)), Gate(o, 0), 2 * o);
    }
  }
}

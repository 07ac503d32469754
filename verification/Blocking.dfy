/** Semaphores, mutexes and message queues over the scheduler
    (kernel/semaphore.c, kernel/mutex.c, kernel/mqueue.c and the retry loops of
    kernel/kernel.c).

A call that cannot proceed puts the caller on a wait list; a wake-up makes one
waiter ready, and that waiter tries again whenever it is dispatched, racing with
every other caller.  `pending` records which threads are inside such a retry
loop and on which wait list.  A pending thread that is not on its wait list has
been woken and has yet to retry.
*/
module Blocking {
  import opened Basics
  import opened Scheduling
  import opened SchedulerSteps
  import opened SchedulerRuns
  import opened SchedulerPolicy
  import opened PriorityFifo

  const INT32_MAX: int := 0x7fff_ffff

  datatype Object =
    | Semaphore(count: int)
    | Mutex(owner: Option<Tid>, inherits: bool)
    | MessageQueue(size: nat, msgs: seq<Msg>)

  datatype Sys = Sys(k: State, pending: map<Tid, nat>, objs: map<nat, Object>)

  /** The wait lists of an object: side 0 is that of a semaphore, of a mutex, or
      of the receivers of a queue; side 1 is that of the senders. */
  function Gate(o: nat, side: nat): (w: nat)
    requires side < 2
    ensures ObjectOf(w) == o
  {
    ObjectOfGate(o, side);
    2 * o + side
  }

  /** The object a wait list belongs to: half its number. */
  ghost function ObjectOf(w: nat): nat {
    if w < 2 then 0 else 1 + ObjectOf(w - 2)
  }

  lemma {:induction false} ObjectOfGate(o: nat, side: nat)
    requires side < 2
    ensures ObjectOf(2 * o + side) == o
  {
    if o > 0 {
      ObjectOfGate(o - 1, side);
      assert 2 * o + side - 2 == 2 * (o - 1) + side;
    }
  }

  ghost predicate IsGate(s: Sys, w: nat) {
    ObjectOf(w) in s.objs
  }

  /** How many callers at that side could go ahead now. */
  function Tokens(obj: Object, side: nat): int {
    match obj
    case Semaphore(count) => if side == 0 then count else 0
    case Mutex(owner, _) => if side == 0 && owner.None? then 1 else 0
    case MessageQueue(size, msgs) => if side == 0 then |msgs| else size - |msgs|
  }

  ghost function Waiters(s: Sys, w: nat): seq<Tid> {
    ListOf(s.k, WaitList(w))
  }

  /** Woken but not yet retried. */
  ghost function Retrying(s: Sys, w: nat): set<Tid> {
    RetryingOf(s.pending, Waiters(s, w), w)
  }

  ghost function RetryingOf(pending: map<Tid, nat>, q: seq<Tid>, w: nat): set<Tid> {
    set t | t in pending && pending[t] == w && t !in q
  }

  // ------------------------------------------------------------ invariant

  /** A pending thread is live and on no list but a ready list, the sleep list
      without ticks, or the wait list it is pending on. */
  ghost predicate PendingAt(s: Sys, t: Tid, w: nat) {
    && IsGate(s, w) && t < |s.k.threads|
    && s.k.threads[t].status != Terminated && s.k.threads[t].sleepTicks == 0
    && (forall id :: t in ListOf(s.k, id) ==> id.ReadyList? || id == SleepList || id == WaitList(w))
  }

  ghost predicate PendingOk(s: Sys) {
    forall t :: t in s.pending ==> PendingAt(s, t, s.pending[t])
  }

  ghost predicate GatesOk(s: Sys) {
    forall w, t {:trigger t in Waiters(s, w)} :: IsGate(s, w) && t in Waiters(s, w) ==>
      t in s.pending && s.pending[t] == w
  }

  ghost predicate Consistent(s: Sys) {
    Inv(s.k) && PendingOk(s) && GatesOk(s)
  }

  ghost predicate ObjectOk(obj: Object) {
    match obj
    case Semaphore(count) => 0 <= count <= INT32_MAX - 1
    case Mutex(_, _) => true
    case MessageQueue(size, msgs) => |msgs| <= size
  }

  /** No lost wakeup: while a thread waits, at least as many threads have been
      woken and have yet to retry as could go ahead now. */
  ghost predicate NoLostWakeup(s: Sys, o: nat, side: nat)
    requires o in s.objs && side < 2
  {
    Waiters(s, Gate(o, side)) != [] ==> |Retrying(s, Gate(o, side))| >= Tokens(s.objs[o], side)
  }

  ghost predicate ObjectSound(s: Sys, o: nat)
    requires o in s.objs
  {
    ObjectOk(s.objs[o]) && NoLostWakeup(s, o, 0) && NoLostWakeup(s, o, 1)
  }

  ghost predicate Sound(s: Sys) {
    Consistent(s) && forall o :: o in s.objs ==> ObjectSound(s, o)
  }

  // -------------------------------------------------- the three basic moves

  /** prepare_to_wait by the running thread, inside a retry loop. */
  ghost function BlockOn(s: Sys, w: nat): Sys
    requires InTable(s.k) && Executing(s.k)
  {
    s.(k := PrepareToWait(s.k, WaitList(w), s.k.running), pending := s.pending[s.k.running := w])
  }

  /** wake_up. */
  ghost function Release(s: Sys, w: nat): Sys
    requires InTable(s.k)
  {
    assert Below(ListOf(s.k, WaitList(w)), |s.k.threads|);
    s.(k := WakeUp(s.k, WaitList(w)))
  }

  /** The running thread leaves its retry loop. */
  ghost function Finish(s: Sys): Sys {
    s.(pending := s.pending - {s.k.running})
  }

  ghost predicate SameGate(s: Sys, s': Sys, w: nat) {
    Waiters(s', w) == Waiters(s, w) && Retrying(s', w) == Retrying(s, w)
  }

  /** A thread that is ready or executing is on no list but a ready list. */
  lemma ReadyPlace(k: State, t: Tid)
    requires Inv(k) && t < |k.threads| && k.threads[t].status in {Ready, Running}
    ensures k.threads[t].sleepTicks == 0
    ensures forall id :: t in ListOf(k, id) ==> id.ReadyList?
  {}

  ghost predicate Caller(s: Sys, w: nat) {
    && InTable(s.k) && Executing(s.k) && IsGate(s, w)
    && (s.k.running in s.pending ==> s.pending[s.k.running] == w)
  }

  /** The pending records agree but for thread x. */
  ghost predicate SamePending(s: Sys, s': Sys, x: Tid) {
    && s'.objs.Keys == s.objs.Keys
    && (forall t :: t != x && t in s'.pending ==> t in s.pending && s'.pending[t] == s.pending[t])
    && (forall t :: t != x && t in s.pending ==> t in s'.pending)
  }

  lemma MovedPending(s: Sys, s': Sys, x: Tid, to: Option<ListId>, th: Thread)
    requires PendingOk(s) && SamePending(s, s', x) && x < |s.k.threads| && Moved(s.k, s'.k, x, to, th)
    requires x in s'.pending ==> PendingAt(s', x, s'.pending[x])
    ensures PendingOk(s')
  {}

  lemma MovedGates(s: Sys, s': Sys, x: Tid, to: Option<ListId>, th: Thread)
    requires GatesOk(s) && SamePending(s, s', x) && x < |s.k.threads| && Moved(s.k, s'.k, x, to, th)
    requires to.Some? && to.value.WaitList? ==> x in s'.pending && s'.pending[x] == to.value.id
    ensures GatesOk(s')
  {
    forall w, t | IsGate(s', w) && t in Waiters(s', w) ensures t in s'.pending && s'.pending[t] == w {
      if t == x {
        assert to == Some(WaitList(w));
      } else {
        assert t in Waiters(s, w);
      }
    }
  }

  lemma BlockOnConsistent(s: Sys, w: nat)
    requires Consistent(s) && Caller(s, w)
    ensures Consistent(BlockOn(s, w))
  {
    var t, s' := s.k.running, BlockOn(s, w);
    var th := s.k.threads[t].(status := Wait);
    PrepareToWaitInv(s.k, WaitList(w));
    PrepareToWaitPlaced(s.k, WaitList(w));
    ReadyPlace(s.k, t);
    MovedPending(s, s', t, Some(WaitList(w)), th);
    MovedGates(s, s', t, Some(WaitList(w)), th);
  }

  lemma BlockOnOther(s: Sys, w: nat, v: nat)
    requires Caller(s, w) && v != w
    ensures SameGate(s, BlockOn(s, w), v)
  {}

  lemma BlockOnKeeps(s: Sys, w: nat)
    requires Consistent(s) && Caller(s, w)
    ensures Consistent(BlockOn(s, w))
    ensures forall v :: v != w ==> SameGate(s, BlockOn(s, w), v)
  {
    BlockOnConsistent(s, w);
    forall v | v != w ensures SameGate(s, BlockOn(s, w), v) {
      BlockOnOther(s, w, v);
    }
  }

  lemma FinishConsistent(s: Sys)
    requires Consistent(s) && Executing(s.k)
    ensures Consistent(Finish(s))
  {
    var t, s' := s.k.running, Finish(s);
    forall x | x in s'.pending ensures PendingAt(s', x, s'.pending[x]) {
      assert PendingAt(s, x, s.pending[x]);
    }
    forall v, x | IsGate(s', v) && x in Waiters(s', v) ensures x in s'.pending && s'.pending[x] == v {
      assert x in Waiters(s, v);
      OnItsList(s.k, x, WaitList(v));
    }
  }

  lemma FinishKeeps(s: Sys, w: nat)
    requires Consistent(s) && Caller(s, w)
    ensures Consistent(Finish(s))
    ensures forall v :: v != w ==> SameGate(s, Finish(s), v)
    ensures Waiters(Finish(s), w) == Waiters(s, w)
    ensures |Retrying(Finish(s), w)| >= |Retrying(s, w)| - 1
  {
    FinishConsistent(s);
    var t, s' := s.k.running, Finish(s);
    FinishRetrying(s.pending, s'.pending, t, Waiters(s, w), w);
    forall v | v != w ensures SameGate(s, s', v) {
      assert Waiters(s', v) == Waiters(s, v);
      assert forall x :: x in Retrying(s, v) ==> x != t;
    }
  }

  lemma FinishRetrying(pending: map<Tid, nat>, less: map<Tid, nat>, t: Tid, q: seq<Tid>, w: nat)
    requires less == pending - {t}
    ensures |RetryingOf(less, q, w)| >= |RetryingOf(pending, q, w)| - 1
  {
    var a, b := RetryingOf(less, q, w), RetryingOf(pending, q, w);
    assert a == b - {t};
    assert t in b ==> |b - {t}| == |b| - 1;
    assert t !in b ==> a == b;
  }

  lemma ReleaseKeeps(s: Sys, w: nat)
    requires Consistent(s) && InTable(s.k) && IsGate(s, w)
    ensures Consistent(Release(s, w))
    ensures forall v :: v != w ==> SameGate(s, Release(s, w), v)
    ensures Waiters(s, w) == [] ==> Release(s, w) == s
    ensures Waiters(s, w) != [] ==> |Retrying(Release(s, w), w)| == |Retrying(s, w)| + 1
  {
    var s' := Release(s, w);
    WakeUpInv(s.k, w);
    if Waiters(s, w) != [] {
      var x := Chosen(s.k, w);
      assert x in Waiters(s, w);
      ReleaseOne(s, s', w, x);
      forall v | v != w ensures SameGate(s, s', v) {
        WakeUpWaitList(s.k, w, v);
        assert Waiters(s', v) == Waiters(s, v);
      }
    }
  }

  lemma ReleaseOne(s: Sys, s': Sys, w: nat, x: Tid)
    requires Consistent(s) && InTable(s.k) && IsGate(s, w) && x in Waiters(s, w) && x < |s.k.threads|
    requires s' == s.(k := Wake(s.k, WaitList(w), x))
    ensures Consistent(s') && |Retrying(s', w)| == |Retrying(s, w)| + 1
  {
    OnItsList(s.k, x, WaitList(w));
    WakeInv(s.k, WaitList(w), x);
    WakePlaced(s.k, WaitList(w), x);
    ReadyPlace(s'.k, x);
    var to, th := Some(ReadyList(s.k.threads[x].priority)), s.k.threads[x].(status := Ready);
    assert PendingAt(s, x, w);
    MovedPending(s, s', x, to, th);
    MovedGates(s, s', x, to, th);
    forall t ensures t in Waiters(s', w) <==> t in Waiters(s, w) && t != x {}
    assert Retrying(s', w) == Retrying(s, w) + {x};
  }

  // --------------------------------------------- everything else that runs

  /** The steps of the scheduler that are not part of a retry loop: they leave
      the wait lists of the objects alone, and a thread inside a retry loop does
      nothing but retry. */
  ghost predicate KernelOk(s: Sys, e: Event) {
    && Enabled(s.k, e)
    && (e.Block? || e.Delay? || e.Yield? || e.JoinThread? || e.ExitThread? ==> s.k.running !in s.pending)
    && forall w :: IsGate(s, w) ==> !Concerns(e, w)
  }

  /** A pending thread waits on its wait list, or it is runnable and will retry. */
  lemma PendingEither(s: Sys, t: Tid)
    requires Consistent(s) && t in s.pending
    ensures t < |s.k.threads|
    ensures Runnable(s.k, t) || t in Waiters(s, s.pending[t])
    ensures t in Retrying(s, s.pending[t]) ==> Runnable(s.k, t)
  {}

  lemma EitherPending(s: Sys, t: Tid, w: nat)
    requires Inv(s.k) && IsGate(s, w) && (Runnable(s.k, t) || t in Waiters(s, w))
    ensures PendingAt(s, t, w)
  {}

  lemma KernelStepKeeps(s: Sys, e: Event)
    requires Consistent(s) && KernelOk(s, e)
    ensures var s' := s.(k := Next(s.k, e));
            Consistent(s') && forall w :: IsGate(s, w) ==> SameGate(s, s', w)
  {
    var s' := s.(k := Next(s.k, e));
    NextInv(s.k, e);
    forall w | IsGate(s, w) ensures Waiters(s', w) == Waiters(s, w) {
      NextWaitList(s.k, e, w);
    }
    forall t | t in s'.pending ensures PendingAt(s', t, s'.pending[t]) {
      KernelStepPending(s, e, t);
    }
    forall w, t | IsGate(s', w) && t in Waiters(s', w) ensures t in s'.pending && s'.pending[t] == w {
      assert IsGate(s, w) && t in Waiters(s, w);
    }
  }

  lemma KernelStepPending(s: Sys, e: Event, t: Tid)
    requires Consistent(s) && KernelOk(s, e) && t in s.pending
    ensures PendingAt(s.(k := Next(s.k, e)), t, s.pending[t])
  {
    var s', w := s.(k := Next(s.k, e)), s.pending[t];
    assert PendingAt(s, t, w);
    NextInv(s.k, e);
    PendingEither(s, t);
    if t in Waiters(s, w) {
      NextWaitList(s.k, e, w);
    } else {
      RunnableStays(s.k, e, t);
    }
    EitherPending(s', t, w);
  }

  // -------------------------------------------------------------- actions

  datatype Action =
    | KernelStep(e: Event)
    | Down(o: nat)
    | TryDown(o: nat)
    | Up(o: nat)
    | Lock(o: nat)
    | Unlock(o: nat)
    | Send(o: nat, m: Msg, nonblock: bool)
    | Receive(o: nat, nonblock: bool)

  /** Calls are made by the executing thread.  A thread inside a retry loop only
      repeats the call it is in; up may also come from an interrupt. */
  ghost predicate Can(s: Sys, a: Action) {
    match a
    case KernelStep(e) => KernelOk(s, e)
    case Down(o) => o in s.objs && s.objs[o].Semaphore? && Caller(s, Gate(o, 0))
    case TryDown(o) => o in s.objs && s.objs[o].Semaphore? && Caller(s, Gate(o, 0)) && s.k.running !in s.pending
    case Up(o) => o in s.objs && s.objs[o].Semaphore? && InTable(s.k)
    case Lock(o) => o in s.objs && s.objs[o].Mutex? && Caller(s, Gate(o, 0)) && OwnerKnown(s, o)
    case Unlock(o) => o in s.objs && s.objs[o].Mutex? && Caller(s, Gate(o, 0)) && s.k.running !in s.pending
    case Send(o, _, nonblock) =>
      o in s.objs && s.objs[o].MessageQueue? && Caller(s, Gate(o, 1)) && (nonblock ==> s.k.running !in s.pending)
    case Receive(o, nonblock) =>
      o in s.objs && s.objs[o].MessageQueue? && Caller(s, Gate(o, 0)) && (nonblock ==> s.k.running !in s.pending)
  }

  ghost predicate OwnerKnown(s: Sys, o: nat)
    requires o in s.objs && s.objs[o].Mutex?
  {
    s.objs[o].owner.Some? ==> s.objs[o].owner.value < |s.k.threads|
  }

  ghost function SetObj(s: Sys, o: nat, obj: Object): Sys {
    s.(objs := s.objs[o := obj])
  }

  /** One attempt of down. */
  ghost function DoDown(s: Sys, o: nat): Sys
    requires Can(s, Down(o))
  {
    var count := s.objs[o].count;
    if count <= 0 then BlockOn(s, Gate(o, 0)) else Finish(SetObj(s, o, Semaphore(count - 1)))
  }

  /** down_trylock. */
  ghost function DoTryDown(s: Sys, o: nat): Sys
    requires Can(s, TryDown(o))
  {
    var count := s.objs[o].count;
    if count <= 0 then s else SetObj(s, o, Semaphore(count - 1))
  }

  /** up. */
  ghost function DoUp(s: Sys, o: nat): Sys
    requires Can(s, Up(o))
  {
    var count := s.objs[o].count;
    if count >= INT32_MAX - 1 then s
    else
      var s1 := SetObj(s, o, Semaphore(count + 1));
      if count + 1 > 0 then Release(s1, Gate(o, 0)) else s1
  }

  /** One attempt of mutex_lock: mutex_trylock, then priority inheritance if the
      mutex is taken, or the reset of an inherited priority if it was free. */
  ghost function DoLock(s: Sys, o: nat): Sys
    requires Can(s, Lock(o))
  {
    var m := s.objs[o];
    if m.owner.Some? then
      var s1 := BlockOn(s, Gate(o, 0));
      if m.inherits then s1.(k := InheritPriority(s1.k, m.owner.value)) else s1
    else
      var s1 := Finish(SetObj(s, o, m.(owner := Some(s.k.running))));
      s1.(k := ResetInheritedPriority(s1.k))
  }

  /** mutex_unlock. */
  ghost function DoUnlock(s: Sys, o: nat): Sys
    requires Can(s, Unlock(o))
  {
    var m := s.objs[o];
    if m.owner != Some(s.k.running) then s
    else Release(SetObj(s, o, m.(owner := None)), Gate(o, 0))
  }

  /** One attempt of sys_mq_send. */
  ghost function DoSend(s: Sys, o: nat, m: Msg, nonblock: bool): Sys
    requires Can(s, Send(o, m, nonblock))
  {
    var q := s.objs[o];
    if |q.msgs| >= q.size then (if nonblock then s else BlockOn(s, Gate(o, 1)))
    else Release(Finish(SetObj(s, o, q.(msgs := q.msgs + [m]))), Gate(o, 0))
  }

  /** One attempt of sys_mq_receive. */
  ghost function DoReceive(s: Sys, o: nat, nonblock: bool): Sys
    requires Can(s, Receive(o, nonblock))
  {
    var q := s.objs[o];
    if q.msgs == [] then (if nonblock then s else BlockOn(s, Gate(o, 0)))
    else Release(Finish(SetObj(s, o, q.(msgs := TakeOut(q.msgs, Pick(q.msgs))))), Gate(o, 1))
  }

  ghost function Do(s: Sys, a: Action): Sys
    requires Can(s, a)
  {
    match a
    case KernelStep(e) => s.(k := Next(s.k, e))
    case Down(o) => DoDown(s, o)
    case TryDown(o) => DoTryDown(s, o)
    case Up(o) => DoUp(s, o)
    case Lock(o) => DoLock(s, o)
    case Unlock(o) => DoUnlock(s, o)
    case Send(o, m, nonblock) => DoSend(s, o, m, nonblock)
    case Receive(o, nonblock) => DoReceive(s, o, nonblock)
  }

  // ------------------------------------------------- preservation, by kind

  lemma SetObjConsistent(s: Sys, o: nat, obj: Object)
    requires Consistent(s) && o in s.objs
    ensures Consistent(SetObj(s, o, obj))
    ensures forall w :: SameGate(s, SetObj(s, o, obj), w)
  {
    var s' := SetObj(s, o, obj);
    assert s'.objs.Keys == s.objs.Keys;
    forall t | t in s'.pending ensures PendingAt(s', t, s'.pending[t]) {
      assert PendingAt(s, t, s.pending[t]);
    }
    forall w, t | IsGate(s', w) && t in Waiters(s', w) ensures t in s'.pending && s'.pending[t] == w {
      assert IsGate(s, w) && t in Waiters(s, w);
    }
  }

  /** The objects other than o keep their gates. */
  ghost predicate OthersSame(s: Sys, s': Sys, o: nat) {
    && s'.objs.Keys == s.objs.Keys
    && forall p :: p in s.objs && p != o ==>
      s'.objs[p] == s.objs[p] && SameGate(s, s', Gate(p, 0)) && SameGate(s, s', Gate(p, 1))
  }

  lemma OthersSound(s: Sys, s': Sys, o: nat)
    requires Sound(s) && Consistent(s') && OthersSame(s, s', o)
    requires o in s'.objs ==> ObjectSound(s', o)
    ensures Sound(s')
  {}

  lemma KernelStepSound(s: Sys, e: Event)
    requires Sound(s) && KernelOk(s, e)
    ensures Sound(s.(k := Next(s.k, e)))
  {
    var s' := s.(k := Next(s.k, e));
    KernelStepKeeps(s, e);
    forall p | p in s'.objs ensures ObjectSound(s', p) {
      assert ObjectSound(s, p);
      assert IsGate(s, Gate(p, 0)) && IsGate(s, Gate(p, 1));
    }
  }

  /** Blocking is sound at a side where nobody could go ahead. */
  lemma BlockOnSound(s: Sys, o: nat, side: nat)
    requires Sound(s) && o in s.objs && side < 2 && Caller(s, Gate(o, side)) && Tokens(s.objs[o], side) <= 0
    ensures Sound(BlockOn(s, Gate(o, side)))
  {
    var w := Gate(o, side);
    BlockOnKeeps(s, w);
    var s' := BlockOn(s, w);
    assert ObjectSound(s, o);
    assert SameGate(s, s', Gate(o, 1 - side));
    assert NoLostWakeup(s', o, side) && NoLostWakeup(s', o, 1 - side);
    OthersSound(s, s', o);
  }

  /** Going ahead at one side uses one token there. */
  lemma TakeToken(s: Sys, o: nat, side: nat, obj: Object)
    requires Consistent(s) && o in s.objs && side < 2 && Caller(s, Gate(o, side)) && NoLostWakeup(s, o, side)
    requires Tokens(obj, side) <= Tokens(s.objs[o], side) - 1
    ensures var s' := Finish(SetObj(s, o, obj));
            && Consistent(s') && OthersSame(s, s', o) && InTable(s'.k)
            && (Waiters(s', Gate(o, side)) != [] ==> |Retrying(s', Gate(o, side))| >= Tokens(obj, side))
            && SameGate(s, s', Gate(o, 1 - side))
  {
    var w := Gate(o, side);
    SetObjConsistent(s, o, obj);
    var s1 := SetObj(s, o, obj);
    FinishKeeps(s1, w);
    assert SameGate(s, s1, w) && SameGate(s, s1, Gate(o, 1 - side));
    var s' := Finish(s1);
    assert SameGate(s1, s', Gate(o, 1 - side));
    forall p | p in s.objs && p != o ensures SameGate(s, s', Gate(p, 0)) && SameGate(s, s', Gate(p, 1)) {
      assert SameGate(s, s1, Gate(p, 0)) && SameGate(s, s1, Gate(p, 1));
      assert SameGate(s1, s', Gate(p, 0)) && SameGate(s1, s', Gate(p, 1));
    }
  }

  /** Giving one token to a side and waking one of its waiters keeps the balance
      there and touches no other gate. */
  lemma GiveToken(s: Sys, o: nat, side: nat, before: int)
    requires Consistent(s) && InTable(s.k) && o in s.objs && side < 2
    requires Waiters(s, Gate(o, side)) != [] ==> |Retrying(s, Gate(o, side))| >= before
    requires Tokens(s.objs[o], side) <= before + 1
    ensures var s' := Release(s, Gate(o, side));
            && Consistent(s') && OthersSame(s, s', o) && s'.objs == s.objs
            && NoLostWakeup(s', o, side) && SameGate(s, s', Gate(o, 1 - side))
  {
    var w, s' := Gate(o, side), Release(s, Gate(o, side));
    ReleaseKeeps(s, w);
    assert SameGate(s, s', Gate(o, 1 - side));
    forall p | p in s.objs && p != o ensures SameGate(s, s', Gate(p, 0)) && SameGate(s, s', Gate(p, 1)) {
      assert Gate(p, 0) != w && Gate(p, 1) != w;
    }
  }

  // ------------------------------------------- every action keeps it sound

  /** After a token is taken at the only side an object has. */
  lemma TakeTokenSound(s: Sys, o: nat, obj: Object)
    requires Sound(s) && o in s.objs && Caller(s, Gate(o, 0)) && ObjectOk(obj)
    requires Tokens(obj, 0) <= Tokens(s.objs[o], 0) - 1 && Tokens(obj, 1) <= 0
    ensures Sound(Finish(SetObj(s, o, obj)))
  {
    var s' := Finish(SetObj(s, o, obj));
    assert NoLostWakeup(s, o, 0) by { assert ObjectSound(s, o); }
    TakeToken(s, o, 0, obj);
    assert ObjectSound(s', o);
    OthersSound(s, s', o);
  }

  /** After a token is given at the only side an object has. */
  lemma GiveTokenSound(s: Sys, o: nat, obj: Object)
    requires Sound(s) && InTable(s.k) && o in s.objs && ObjectOk(obj)
    requires Tokens(obj, 0) <= Tokens(s.objs[o], 0) + 1 && Tokens(obj, 1) <= 0
    ensures Sound(Release(SetObj(s, o, obj), Gate(o, 0)))
  {
    var s1 := SetObj(s, o, obj);
    SetObjConsistent(s, o, obj);
    assert ObjectSound(s, o) && SameGate(s, s1, Gate(o, 0));
    GiveToken(s1, o, 0, Tokens(s.objs[o], 0));
    var s' := Release(s1, Gate(o, 0));
    assert ObjectSound(s', o);
    OthersCompose(s, s1, s', o);
    OthersSound(s, s', o);
  }

  lemma OthersCompose(s: Sys, s1: Sys, s': Sys, o: nat)
    requires s1.objs.Keys == s.objs.Keys && (forall w :: SameGate(s, s1, w)) && OthersSame(s1, s', o)
    requires forall p :: p in s.objs && p != o ==> s1.objs[p] == s.objs[p]
    ensures OthersSame(s, s', o)
  {
    forall p | p in s.objs && p != o ensures SameGate(s, s', Gate(p, 0)) && SameGate(s, s', Gate(p, 1)) {
      assert SameGate(s, s1, Gate(p, 0)) && SameGate(s, s1, Gate(p, 1));
    }
  }

  lemma OthersTransitive(s: Sys, s1: Sys, s': Sys, o: nat)
    requires OthersSame(s, s1, o) && OthersSame(s1, s', o)
    ensures OthersSame(s, s', o)
  {}

  /** A message queue moves a token from one side to the other. */
  lemma MoveToken(s: Sys, o: nat, side: nat, other: nat, obj: Object)
    requires Consistent(s) && o in s.objs && side < 2 && other == 1 - side && Caller(s, Gate(o, side))
    requires ObjectOk(obj) && ObjectSound(s, o)
    requires Tokens(obj, side) <= Tokens(s.objs[o], side) - 1
    requires Tokens(obj, other) <= Tokens(s.objs[o], other) + 1
    ensures InTable(Finish(SetObj(s, o, obj)).k)
    ensures var s' := Release(Finish(SetObj(s, o, obj)), Gate(o, other));
            Consistent(s') && OthersSame(s, s', o) && ObjectSound(s', o)
  {
    assert NoLostWakeup(s, o, side) && NoLostWakeup(s, o, other);
    TakeToken(s, o, side, obj);
    var s1 := Finish(SetObj(s, o, obj));
    GiveToken(s1, o, other, Tokens(s.objs[o], other));
    var s' := Release(s1, Gate(o, other));
    OthersTransitive(s, s1, s', o);
    assert SameGate(s1, s', Gate(o, side));
    assert NoLostWakeup(s', o, side) && NoLostWakeup(s', o, other);
  }

  lemma MoveTokenSound(s: Sys, o: nat, side: nat, other: nat, obj: Object)
    requires Sound(s) && o in s.objs && side < 2 && other == 1 - side && Caller(s, Gate(o, side)) && ObjectOk(obj)
    requires Tokens(obj, side) <= Tokens(s.objs[o], side) - 1
    requires Tokens(obj, other) <= Tokens(s.objs[o], other) + 1
    ensures InTable(Finish(SetObj(s, o, obj)).k)
    ensures Sound(Release(Finish(SetObj(s, o, obj)), Gate(o, other)))
  {
    MoveToken(s, o, side, other, obj);
    OthersSound(s, Release(Finish(SetObj(s, o, obj)), Gate(o, other)), o);
  }

  lemma LockSound(s: Sys, o: nat)
    requires Sound(s) && Can(s, Lock(o))
    ensures Sound(DoLock(s, o))
  {
    var m := s.objs[o];
    if m.owner.Some? {
      BlockOnSound(s, o, 0);
      var s1 := BlockOn(s, Gate(o, 0));
      PlacedInTable(s1.k);
      if m.inherits {
        KernelStepSound(s1, Inherit(m.owner.value));
      }
    } else {
      TakeTokenSound(s, o, m.(owner := Some(s.k.running)));
      KernelStepSound(Finish(SetObj(s, o, m.(owner := Some(s.k.running)))), ResetPriority);
    }
  }

  lemma DownSound(s: Sys, o: nat)
    requires Sound(s) && Can(s, Down(o))
    ensures Sound(DoDown(s, o))
  {
    var count := s.objs[o].count;
    assert ObjectOk(s.objs[o]) by { assert ObjectSound(s, o); }
    if count > 0 {
      TakeTokenSound(s, o, Semaphore(count - 1));
    } else {
      BlockOnSound(s, o, 0);
    }
  }

  lemma TryDownSound(s: Sys, o: nat)
    requires Sound(s) && Can(s, TryDown(o))
    ensures Sound(DoTryDown(s, o))
  {
    assert ObjectOk(s.objs[o]) by { assert ObjectSound(s, o); }
    if s.objs[o].count > 0 {
      var obj := Semaphore(s.objs[o].count - 1);
      assert DoTryDown(s, o) == Finish(SetObj(s, o, obj)) by { assert s.pending - {s.k.running} == s.pending; }
      TakeTokenSound(s, o, obj);
    }
  }

  lemma UpSound(s: Sys, o: nat)
    requires Sound(s) && Can(s, Up(o))
    ensures Sound(DoUp(s, o))
  {
    assert ObjectOk(s.objs[o]) by { assert ObjectSound(s, o); }
    if s.objs[o].count < INT32_MAX - 1 {
      UpReleases(s, o);
      UpGives(s, o);
    }
  }

  lemma UpGives(s: Sys, o: nat)
    requires Sound(s) && InTable(s.k) && o in s.objs && s.objs[o].Semaphore? && 0 <= s.objs[o].count < INT32_MAX - 1
    ensures Sound(Release(SetObj(s, o, Semaphore(s.objs[o].count + 1)), Gate(o, 0)))
  {
    GiveTokenSound(s, o, Semaphore(s.objs[o].count + 1));
  }

  lemma UpReleases(s: Sys, o: nat)
    requires Can(s, Up(o)) && 0 <= s.objs[o].count < INT32_MAX - 1
    ensures InTable(s.k) && DoUp(s, o) == Release(SetObj(s, o, Semaphore(s.objs[o].count + 1)), Gate(o, 0))
  {}

  lemma SendSound(s: Sys, o: nat, m: Msg, nonblock: bool)
    requires Sound(s) && Can(s, Send(o, m, nonblock))
    ensures Sound(DoSend(s, o, m, nonblock))
  {
    var q := s.objs[o];
    assert ObjectOk(s.objs[o]) by { assert ObjectSound(s, o); }
    if |q.msgs| < q.size {
      MoveTokenSound(s, o, 1, 0, q.(msgs := q.msgs + [m]));
    } else if !nonblock {
      BlockOnSound(s, o, 1);
    }
  }

  lemma ReceiveSound(s: Sys, o: nat, nonblock: bool)
    requires Sound(s) && Can(s, Receive(o, nonblock))
    ensures Sound(DoReceive(s, o, nonblock))
  {
    var q := s.objs[o];
    assert ObjectOk(s.objs[o]) by { assert ObjectSound(s, o); }
    if q.msgs != [] {
      MoveTokenSound(s, o, 0, 1, q.(msgs := TakeOut(q.msgs, Pick(q.msgs))));
    } else if !nonblock {
      BlockOnSound(s, o, 0);
    }
  }

  lemma DoSound(s: Sys, a: Action)
    requires Sound(s) && Can(s, a)
    ensures Sound(Do(s, a))
  {
    match a
    case KernelStep(e) => KernelStepSound(s, e);
    case Down(o) => DownSound(s, o);
    case TryDown(o) => TryDownSound(s, o);
    case Up(o) => UpSound(s, o);
    case Lock(o) => LockSound(s, o);
    case Unlock(o) =>
      if s.objs[o].owner == Some(s.k.running) {
        GiveTokenSound(s, o, s.objs[o].(owner := None));
      }
    case Send(o, m, nonblock) => SendSound(s, o, m, nonblock);
    case Receive(o, nonblock) => ReceiveSound(s, o, nonblock);
  }
}

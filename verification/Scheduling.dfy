/** The scheduler's state and its atomic steps (kernel/kernel.c).

Every thread of the fixed thread table is linked by its `list` member on one of
the scheduling lists: a ready list per priority, the sleep list, a wait list, or
the join list of another thread.  Each section the kernel runs with preemption
disabled is one step.  Every step is made of one primitive, `Relink`: take a
thread off the list it is on, put it at the end of another, and update its
record.
*/
module Scheduling {
  import opened Basics

  type Tid = nat

  const KTHREAD_PRI_MAX: nat := 10 // THREAD_PRIORITY_MAX + PRI_RESERVED

  datatype Status = Wait | Ready | Running | Terminated

  datatype Thread = Thread(
    status: Status,
    priority: nat,
    sleepTicks: nat,
    priorityInherited: bool,
    originalPriority: nat,
    joinable: bool)

  datatype ListId = ReadyList(pri: nat) | SleepList | WaitList(id: nat) | JoinList(tid: Tid)

  datatype State = State(lists: map<ListId, seq<Tid>>, threads: seq<Thread>, running: Tid)

  function ListOf(s: State, id: ListId): seq<Tid> {
    if id in s.lists then s.lists[id] else []
  }

  function SetList(s: State, id: ListId, q: seq<Tid>): State {
    s.(lists := s.lists[id := q])
  }

  /** list_del from `from` if given, list_add to `to` if given, and the new
      thread record. */
  function Relink(s: State, t: Tid, from: Option<ListId>, to: Option<ListId>, th: Thread): State
    requires t < |s.threads|
  {
    var s1 := if from.Some? then SetList(s, from.value, Without(ListOf(s, from.value), t)) else s;
    var s2 := if to.Some? then SetList(s1, to.value, ListOf(s1, to.value) + [t]) else s1;
    s2.(threads := s2.threads[t := th])
  }

  // ------------------------------------------------------------ invariant

  ghost predicate OnSomeList(s: State, t: Tid) {
    exists id :: t in ListOf(s, id)
  }

  /** The record a thread has when linked on the list `id`. */
  ghost predicate Fits(th: Thread, id: ListId) {
    match id
    case ReadyList(p) => th.status == Ready && th.priority == p
    case SleepList => th.status == Wait
    case WaitList(_) => th.status == Wait && th.sleepTicks == 0
    case JoinList(_) => th.status == Wait && th.sleepTicks == 0
  }

  ghost predicate Sane(th: Thread) {
    && th.priority <= KTHREAD_PRI_MAX && th.originalPriority <= KTHREAD_PRI_MAX
    && (th.sleepTicks > 0 ==> th.status == Wait)
  }

  /** No thread is linked twice. */
  ghost predicate LinkedOnce(s: State) {
    && (forall id :: NoDup(ListOf(s, id)))
    && (forall id, id', t :: t in ListOf(s, id) && t in ListOf(s, id') ==> id == id')
  }

  /** A linked thread's record fits its list. */
  ghost predicate Fitting(s: State) {
    forall id, t {:trigger t in ListOf(s, id)} :: t in ListOf(s, id) ==> t < |s.threads| && Fits(s.threads[t], id)
  }

  /** Every waiting or ready thread is linked. */
  ghost predicate Complete(s: State) {
    forall t :: 0 <= t < |s.threads| && s.threads[t].status in {Wait, Ready} ==> OnSomeList(s, t)
  }

  /** Only the running thread may have status RUNNING. */
  ghost predicate Records(s: State) {
    && s.running < |s.threads|
    && forall t :: 0 <= t < |s.threads| ==> Sane(s.threads[t]) && (s.threads[t].status == Running ==> t == s.running)
  }

  /** The placement invariant of the scheduler. */
  ghost predicate Placed(s: State) {
    LinkedOnce(s) && Fitting(s) && Complete(s) && Records(s)
  }

  // --------------------------------------------------- the one proof needed

  /** The lists after a relink. */
  lemma RelinkLists(s: State, t: Tid, from: Option<ListId>, to: Option<ListId>, th: Thread, id: ListId)
    requires t < |s.threads|
    ensures var q := if from == Some(id) then Without(ListOf(s, id), t) else ListOf(s, id);
            ListOf(Relink(s, t, from, to, th), id) == if to == Some(id) then q + [t] else q
  {}

  /** t is linked on `from`, or on no list at all. */
  ghost predicate LinkedOn(s: State, t: Tid, from: Option<ListId>) {
    forall id :: t in ListOf(s, id) <==> from == Some(id)
  }

  /** s' differs from s in thread t only, which is now on `to` with record th. */
  ghost predicate Moved(s: State, s': State, t: Tid, to: Option<ListId>, th: Thread)
    requires t < |s.threads|
  {
    && s'.threads == s.threads[t := th] && s'.running == s.running
    && LinkedOnce(s')
    && forall id, x :: x in ListOf(s', id) <==> if x == t then to == Some(id) else x in ListOf(s, id)
  }

  lemma RelinkMoved(s: State, t: Tid, from: Option<ListId>, to: Option<ListId>, th: Thread)
    requires LinkedOnce(s) && t < |s.threads| && LinkedOn(s, t, from)
    ensures Moved(s, Relink(s, t, from, to, th), t, to, th)
  {
    var s' := Relink(s, t, from, to, th);
    forall id, x ensures x in ListOf(s', id) <==> if x == t then to == Some(id) else x in ListOf(s, id) {
      RelinkOne(s, t, from, to, th, id);
    }
    forall id ensures NoDup(ListOf(s', id)) {
      RelinkOne(s, t, from, to, th, id);
    }
  }

  lemma MovedComplete(s: State, s': State, t: Tid, to: Option<ListId>, th: Thread)
    requires Complete(s) && t < |s.threads| && Moved(s, s', t, to, th)
    requires th.status in {Wait, Ready} ==> to.Some?
    ensures Complete(s')
  {
    forall x | 0 <= x < |s'.threads| && s'.threads[x].status in {Wait, Ready} ensures OnSomeList(s', x) {
      if x == t {
        assert t in ListOf(s', to.value);
      } else {
        assert OnSomeList(s, x);
        var id :| x in ListOf(s, id);
        assert x in ListOf(s', id);
      }
    }
  }

  lemma MovedFitting(s: State, s': State, t: Tid, to: Option<ListId>, th: Thread)
    requires Fitting(s) && t < |s.threads| && Moved(s, s', t, to, th)
    requires to.Some? ==> Fits(th, to.value)
    ensures Fitting(s')
  {}

  /** Relinking a thread keeps the placement invariant, whatever the lists are,
      provided the thread was on the list it is taken from and its new record
      fits the list it is put on. */
  lemma RelinkPlaced(s: State, t: Tid, from: Option<ListId>, to: Option<ListId>, th: Thread)
    requires Placed(s) && t < |s.threads| && LinkedOn(s, t, from)
    requires Sane(th) && (th.status == Running ==> t == s.running)
    requires if to.Some? then Fits(th, to.value) else th.status in {Running, Terminated}
    ensures Placed(Relink(s, t, from, to, th))
    ensures Moved(s, Relink(s, t, from, to, th), t, to, th)
  {
    var s' := Relink(s, t, from, to, th);
    RelinkMoved(s, t, from, to, th);
    MovedComplete(s, s', t, to, th);
    MovedFitting(s, s', t, to, th);
  }

  lemma RelinkOne(s: State, t: Tid, from: Option<ListId>, to: Option<ListId>, th: Thread, id: ListId)
    requires NoDup(ListOf(s, id)) && t < |s.threads| && (t in ListOf(s, id) <==> from == Some(id))
    ensures var q := ListOf(Relink(s, t, from, to, th), id);
            NoDup(q) && forall x :: x in q <==> if x == t then to == Some(id) else x in ListOf(s, id)
  {
    RelinkLists(s, t, from, to, th, id);
    WithoutMembers(ListOf(s, id), t);
    var q := if from == Some(id) then Without(ListOf(s, id), t) else ListOf(s, id);
    AppendMembers(q, t);
  }

  // ---------------------------------------------------------------- steps

  /** Every thread id the lists or the running pointer hold is in the table. */
  ghost predicate InTable(s: State) {
    && s.running < |s.threads|
    && forall id :: Below(ListOf(s, id), |s.threads|)
  }

  ghost predicate Below(q: seq<Tid>, n: nat) {
    forall i :: 0 <= i < |q| ==> q[i] < n
  }

  /** prepare_to_wait. */
  function PrepareToWait(s: State, id: ListId, t: Tid): State
    requires t < |s.threads|
  {
    Relink(s, t, None, Some(id), s.threads[t].(status := Wait))
  }

  /** sys_delay_ticks. */
  function DelayTicks(s: State, ticks: nat): State
    requires s.running < |s.threads|
  {
    Relink(s, s.running, None, Some(SleepList), s.threads[s.running].(status := Wait, sleepTicks := ticks))
  }

  /** The move common to every wake-up: to the tail of the ready list of the
      thread's current priority. */
  function Wake(s: State, from: ListId, t: Tid): State
    requires t < |s.threads|
  {
    Relink(s, t, Some(from), Some(ReadyList(s.threads[t].priority)), s.threads[t].(status := Ready))
  }

  /** A sweep over a list that wakes the threads `ts` in this order. */
  function WakeMany(s: State, from: ListId, ts: seq<Tid>): State
    requires Below(ts, |s.threads|)
    decreases |ts|
  {
    if ts == [] then s else WakeMany(Wake(s, from, ts[0]), from, ts[1..])
  }

  /** The first thread of the highest priority in a list. */
  function FirstHighest(threads: seq<Thread>, q: seq<Tid>): (i: nat)
    requires q != [] && Below(q, |threads|)
    ensures i < |q|
    ensures forall j :: 0 <= j < |q| ==> threads[q[j]].priority <= threads[q[i]].priority
    ensures forall j :: 0 <= j < i ==> threads[q[j]].priority < threads[q[i]].priority
  {
    if |q| == 1 then 0
    else
      var n := |q| - 1;
      var i := FirstHighest(threads, q[..n]);
      if threads[q[n]].priority > threads[q[i]].priority then n else i
  }

  /** wake_up. */
  function WakeUp(s: State, id: ListId): State
    requires Below(ListOf(s, id), |s.threads|)
  {
    var q := ListOf(s, id);
    if q == [] then s else Wake(s, id, q[FirstHighest(s.threads, q)])
  }

  /** threads_ticks_update. */
  function TicksUpdate(s: State): State {
    s.(threads := seq(|s.threads|, t requires 0 <= t < |s.threads| =>
      var th := s.threads[t];
      if t in ListOf(s, SleepList) && th.sleepTicks > 0 then th.(sleepTicks := th.sleepTicks - 1) else th))
  }

  /** sys_pthread_join: the caller waits on the join list of a live joinable
      thread, unless that thread is waiting to join the caller. */
  function Join(s: State, t: Tid): State
    requires s.running < |s.threads|
  {
    if t >= |s.threads| || s.threads[t].status == Terminated || !s.threads[t].joinable then s
    else if t in ListOf(s, JoinList(s.running)) then s
    else PrepareToWait(s, JoinList(t), s.running)
  }

  /** thread_join_handler: the joiners become ready and the thread leaves. */
  function Exit(s: State): State
    requires InTable(s)
  {
    var s1 := WakeMany(s, JoinList(s.running), ListOf(s, JoinList(s.running)));
    WakeManyTable(s, JoinList(s.running), ListOf(s, JoinList(s.running)));
    Relink(s1, s1.running, None, None, s1.threads[s1.running].(status := Terminated))
  }

  /** The first part of thread_inherit_priority: the owner is marked, and the
      waiter's own priority is saved in the waiter. */
  function MarkInherited(s: State, owner: Tid): State
    requires s.running < |s.threads| && owner < |s.threads|
  {
    if s.threads[owner].priorityInherited then s
    else
      var me := s.threads[s.running];
      var saved := s.threads[s.running := me.(originalPriority := me.priority)];
      s.(threads := saved[owner := saved[owner].(priorityInherited := true)])
  }

  /** thread_inherit_priority, for the owner of a mutex the running thread waits
      for. */
  function InheritPriority(s: State, owner: Tid): State
    requires s.running < |s.threads| && owner < |s.threads|
  {
    var me := s.threads[s.running];
    var s1 := MarkInherited(s, owner);
    var th := s1.threads[owner];
    if me.priority <= th.priority then s1
    else if owner in ListOf(s1, ReadyList(th.priority)) then
      Relink(s1, owner, Some(ReadyList(th.priority)), Some(ReadyList(me.priority)), th.(priority := me.priority))
    else
      s1.(threads := s1.threads[owner := th.(priority := me.priority)])
  }

  /** thread_reset_inherited_priority. */
  function ResetInheritedPriority(s: State): State
    requires s.running < |s.threads|
  {
    var me := s.threads[s.running];
    if !me.priorityInherited then s
    else s.(threads := s.threads[s.running := me.(priority := me.originalPriority, priorityInherited := false)])
  }

  /** The lowest unused slot of the thread table, or the table size. */
  function FreeSlot(threads: seq<Thread>, i: nat): (r: nat)
    requires i <= |threads|
    ensures i <= r <= |threads|
    ensures r < |threads| ==> threads[r].status == Terminated
    ensures forall t :: i <= t < r ==> threads[t].status != Terminated
    decreases |threads| - i
  {
    if i == |threads| || threads[i].status == Terminated then i else FreeSlot(threads, i + 1)
  }

  datatype Detach = Detached | Joinable | OtherDetach

  /** A call of thread_create; `stack` says whether alloc_pages finds the stack. */
  datatype Request = Request(priority: int, kernelThread: bool, detach: Detach, roundRobin: bool, stack: bool)

  predicate GoodAttributes(r: Request) {
    && r.detach != OtherDetach && r.roundRobin
    && 0 <= r.priority <= if r.kernelThread then KTHREAD_PRI_MAX else KTHREAD_PRI_MAX - 2
  }

  function CreateOutcome(s: State, r: Request): Result<Tid> {
    var t := FreeSlot(s.threads, 0);
    if !GoodAttributes(r) then Err(EINVAL)
    else if t == |s.threads| then Err(EAGAIN)
    else if !r.stack then Err(ENOMEM)
    else Ok(t)
  }

  function NewThread(r: Request): Thread {
    Thread(Wait, if r.priority < 0 then 0 else r.priority, 0, false, 0, r.detach == Joinable)
  }

  /** thread_create: a new thread starts on the sleep list with no ticks; a slot
      taken for a thread without stack is given back. */
  function Create(s: State, r: Request): State {
    match CreateOutcome(s, r)
    case Err(_) => s
    case Ok(t) => Relink(SetList(s, JoinList(t), []), t, None, Some(SleepList), NewThread(r))
  }

  // --------------------------------------------------------- rescheduling

  /** First part of __schedule: a thread that is still running goes to the sleep
      list. */
  function StopCurrent(s: State): State
    requires s.running < |s.threads|
  {
    if s.threads[s.running].status == Running then PrepareToWait(s, SleepList, s.running) else s
  }

  /** The threads of a queue with no ticks left, in order. */
  function Rested(threads: seq<Thread>, q: seq<Tid>): (r: seq<Tid>)
    requires Below(q, |threads|)
    ensures Below(r, |threads|)
  {
    if q == [] then []
    else if threads[q[0]].sleepTicks == 0 then [q[0]] + Rested(threads, q[1..])
    else Rested(threads, q[1..])
  }

  /** Second part: the sweep over the sleep list. */
  function WakeSleepers(s: State): State
    requires Below(ListOf(s, SleepList), |s.threads|)
  {
    WakeMany(s, SleepList, Rested(s.threads, ListOf(s, SleepList)))
  }

  /** Highest non-empty ready list at or below p, or -1. */
  function HighestReady(s: State, p: int): (r: int)
    requires -1 <= p
    ensures -1 <= r <= p
    ensures r >= 0 ==> ListOf(s, ReadyList(r)) != []
    ensures forall k: nat :: r < k <= p ==> ListOf(s, ReadyList(k)) == []
    decreases p + 1
  {
    if p < 0 then -1 else if ListOf(s, ReadyList(p)) != [] then p else HighestReady(s, p - 1)
  }

  /** Third part: the head of ready list p is taken off and runs. */
  function Dispatch(s: State, p: nat): State
    requires ListOf(s, ReadyList(p)) != [] && ListOf(s, ReadyList(p))[0] < |s.threads|
  {
    var t := ListOf(s, ReadyList(p))[0];
    Relink(s.(running := t), t, Some(ReadyList(p)), None, s.threads[t].(status := Running))
  }

  /** The state in which __schedule searches the ready lists. */
  function Candidates(s: State): State
    requires InTable(s)
  {
    StopCurrentTable(s);
    assert Below(ListOf(StopCurrent(s), SleepList), |s.threads|);
    WakeSleepers(StopCurrent(s))
  }

  predicate CanSchedule(s: State)
    requires InTable(s)
  {
    HighestReady(Candidates(s), KTHREAD_PRI_MAX) >= 0
  }

  /** __schedule. */
  function Schedule(s: State): State
    requires InTable(s) && CanSchedule(s)
  {
    StopCurrentTable(s);
    var s1 := StopCurrent(s);
    WakeManyTable(s1, SleepList, Rested(s1.threads, ListOf(s1, SleepList)));
    var s2 := Candidates(s);
    var p := HighestReady(s2, KTHREAD_PRI_MAX);
    assert Below(ListOf(s2, ReadyList(p)), |s2.threads|);
    Dispatch(s2, p)
  }

  // --------------------------------------------- the table bounds are kept

  lemma RelinkTable(s: State, t: Tid, from: Option<ListId>, to: Option<ListId>, th: Thread)
    requires InTable(s) && t < |s.threads|
    ensures InTable(Relink(s, t, from, to, th))
  {
    var s' := Relink(s, t, from, to, th);
    forall id ensures Below(ListOf(s', id), |s'.threads|) {
      RelinkLists(s, t, from, to, th, id);
      assert Below(ListOf(s, id), |s.threads|);
    }
  }

  lemma StopCurrentTable(s: State)
    requires InTable(s)
    ensures InTable(StopCurrent(s))
  {
    RelinkTable(s, s.running, None, Some(SleepList), s.threads[s.running].(status := Wait));
  }

  lemma {:induction false} WakeManyTable(s: State, from: ListId, ts: seq<Tid>)
    requires InTable(s) && Below(ts, |s.threads|)
    ensures InTable(WakeMany(s, from, ts))
    ensures |WakeMany(s, from, ts).threads| == |s.threads| && WakeMany(s, from, ts).running == s.running
    decreases |ts|
  {
    if ts != [] {
      var t := ts[0];
      RelinkTable(s, t, Some(from), Some(ReadyList(s.threads[t].priority)), s.threads[t].(status := Ready));
      WakeManyTable(Wake(s, from, t), from, ts[1..]);
    }
  }
}

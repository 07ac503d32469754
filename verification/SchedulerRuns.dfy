/** Whole runs of the scheduler (kernel/kernel.c): every interleaving of thread
    creation, ticks, sleeping, blocking, waking, joining, exiting, priority
    inheritance and rescheduling. */
module SchedulerRuns {
  import opened Basics
  import opened Scheduling
  import opened SchedulerSteps

  datatype Event =
    | CreateThread(request: Request)
    | Tick
    | Delay(ticks: nat)
    | Yield
    | Block(w: nat)
    | WakeOne(w: nat)
    | WakeAll(w: nat)
    | FinishWait(t: Tid, from: ListId)
    | JoinThread(t: Tid)
    | ExitThread
    | Inherit(owner: Tid)
    | ResetPriority
    | Reschedule

  ghost predicate Executing(s: State) {
    s.running < |s.threads| && s.threads[s.running].status == Running
  }

  /** Steps of a thread's own code need it to be executing; finish_wait is only
      called for a linked thread that is not sleeping for ticks; __schedule needs
      a thread to dispatch. */
  ghost predicate Enabled(s: State, e: Event) {
    InTable(s) &&
    match e
    case Delay(_) => Executing(s)
    case Yield => Executing(s)
    case Block(_) => Executing(s)
    case JoinThread(_) => Executing(s)
    case ExitThread => Executing(s)
    case ResetPriority => Executing(s)
    case FinishWait(t, from) => t in ListOf(s, from) && t < |s.threads| && s.threads[t].sleepTicks == 0
    case Inherit(owner) => owner < |s.threads|
    case Reschedule => CanSchedule(s)
    case _ => true
  }

  ghost function Next(s: State, e: Event): State
    requires Enabled(s, e)
  {
    assert forall id :: Below(ListOf(s, id), |s.threads|);
    match e
    case CreateThread(r) => Create(s, r)
    case Tick => TicksUpdate(s)
    case Delay(n) => DelayTicks(s, n)
    case Yield => PrepareToWait(s, SleepList, s.running)
    case Block(w) => PrepareToWait(s, WaitList(w), s.running)
    case WakeOne(w) => WakeUp(s, WaitList(w))
    case WakeAll(w) => WakeMany(s, WaitList(w), ListOf(s, WaitList(w)))
    case FinishWait(t, from) => if t == s.running then s else Wake(s, from, t)
    case JoinThread(t) => Join(s, t)
    case ExitThread => Exit(s)
    case Inherit(owner) => InheritPriority(s, owner)
    case ResetPriority => ResetInheritedPriority(s)
    case Reschedule => Schedule(s)
  }

  lemma NextInv(s: State, e: Event)
    requires Inv(s) && Enabled(s, e)
    ensures Inv(Next(s, e))
  {
    match e
    case CreateThread(r) => CreateInv(s, r);
    case Tick => TicksUpdateInv(s);
    case Delay(n) => DelayTicksInv(s, n);
    case Yield => PrepareToWaitInv(s, SleepList);
    case Block(w) => PrepareToWaitInv(s, WaitList(w));
    case WakeOne(w) => WakeUpInv(s, w);
    case WakeAll(w) => WakeUpAllInv(s, w);
    case FinishWait(t, from) => WakeInv(s, from, t);
    case JoinThread(t) => JoinInv(s, t);
    case ExitThread => ExitInv(s);
    case Inherit(owner) => InheritPriorityInv(s, owner);
    case ResetPriority => ResetInheritedPriorityInv(s);
    case Reschedule => ScheduleInv(s);
  }

  /** The table after boot: the idle thread in slot 0 is running, the other slots
      are unused. */
  function Boot(n: nat): State
    requires n > 0
  {
    State(map[], seq(n, t => Thread(if t == 0 then Running else Terminated, 0, 0, false, 0, true)), 0)
  }

  lemma BootInv(n: nat)
    requires n > 0
    ensures Inv(Boot(n))
  {}

  ghost predicate StepAt(es: seq<Event>, run: seq<State>, i: nat)
    requires i < |es| && |run| == |es| + 1
  {
    Enabled(run[i], es[i]) && run[i + 1] == Next(run[i], es[i])
  }

  /** A run: enabled steps from a state that satisfies the invariant, such as
      the state after boot. */
  ghost predicate IsRun(es: seq<Event>, run: seq<State>) {
    && |run| == |es| + 1 && Inv(run[0])
    && (forall i: nat {:trigger StepAt(es, run, i)} :: i < |es| ==> StepAt(es, run, i))
  }

  /** Step k of a run. */
  lemma RunStep(es: seq<Event>, run: seq<State>, k: nat, s: State, e: Event, s': State)
    requires IsRun(es, run) && k < |es| && s == run[k] && e == es[k] && s' == run[k + 1]
    ensures Enabled(s, e) && s' == Next(s, e)
    ensures Inv(s) ==> Inv(s')
  {
    assert StepAt(es, run, k);
    if Inv(s) {
      NextInv(s, e);
    }
  }

  /** Every state of every run satisfies the invariant. */
  lemma {:induction false} RunInv(es: seq<Event>, run: seq<State>, n: nat)
    requires IsRun(es, run) && n < |run|
    ensures Inv(run[n])
  {
    if n > 0 {
      RunInv(es, run, n - 1);
      RunStep(es, run, n - 1, run[n - 1], es[n - 1], run[n]);
    }
  }

  /** Where a live thread is: executing and on no list, ready on the ready list
      of its own priority, or waiting on exactly one of the other lists; and a
      thread with ticks left to sleep is on the sleep list. */
  lemma Placement(s: State, t: Tid)
    requires Inv(s) && t < |s.threads|
    ensures s.threads[t].status in {Running, Terminated} <==> forall id :: t !in ListOf(s, id)
    ensures s.threads[t].status == Running ==> t == s.running
    ensures s.threads[t].status == Ready <==> t in ListOf(s, ReadyList(s.threads[t].priority))
    ensures s.threads[t].status in {Wait, Ready} ==>
              exists id :: t in ListOf(s, id) && forall id' :: t in ListOf(s, id') ==> id' == id
    ensures s.threads[t].sleepTicks > 0 ==> t in ListOf(s, SleepList)
  {}

  // ------------------------------------------------------- what moves when

  /** The thread wake_up takes from a non-empty wait list. */
  ghost function Chosen(s: State, w: nat): Tid
    requires InTable(s) && ListOf(s, WaitList(w)) != []
  {
    assert Below(ListOf(s, WaitList(w)), |s.threads|);
    ListOf(s, WaitList(w))[FirstHighest(s.threads, ListOf(s, WaitList(w)))]
  }

  /** The threads an event may move from one list to another. */
  ghost predicate Moves(s: State, e: Event, t: Tid)
    requires InTable(s)
  {
    match e
    case CreateThread(_) => t == FreeSlot(s.threads, 0)
    case Tick => false
    case Delay(_) => t == s.running
    case Yield => t == s.running
    case Block(_) => t == s.running
    case WakeOne(w) => ListOf(s, WaitList(w)) != [] && t == Chosen(s, w)
    case WakeAll(w) => t in ListOf(s, WaitList(w))
    case FinishWait(x, _) => t == x
    case JoinThread(_) => t == s.running
    case ExitThread => t == s.running || t in ListOf(s, JoinList(s.running))
    case Inherit(owner) => t == owner && t in ListOf(s, ReadyList(if t < |s.threads| then s.threads[t].priority else 0))
    case ResetPriority => false
    case Reschedule =>
      || (t == s.running && Executing(s))
      || (t in ListOf(s, SleepList) && t < |s.threads| && s.threads[t].sleepTicks == 0)
      || t in ListOf(s, ReadyList(if t < |s.threads| then s.threads[t].priority else 0))
  }

  /** t keeps its place and, but for ticks and inherited priorities, its record. */
  ghost predicate Stays(s: State, s': State, t: Tid, tick: bool) {
    && |s'.threads| == |s.threads|
    && (forall id :: t in ListOf(s', id) <==> t in ListOf(s, id))
    && (t < |s.threads| ==>
          && s'.threads[t].status == s.threads[t].status
          && (!tick ==> s'.threads[t].sleepTicks == s.threads[t].sleepTicks))
  }

  lemma MovedStays(s: State, s': State, x: Tid, to: Option<ListId>, th: Thread, t: Tid)
    requires x < |s.threads| && Moved(s, s', x, to, th) && t != x
    ensures Stays(s, s', t, false)
  {}

  /** An event leaves alone every thread it does not move. */
  lemma NextStays(s: State, e: Event, t: Tid)
    requires Inv(s) && Enabled(s, e) && !Moves(s, e, t)
    ensures Stays(s, Next(s, e), t, e.Tick?)
  {
    var s' := Next(s, e);
    match e
    case CreateThread(r) =>
      CreateStays(s, r, t);
    case Tick =>
      assert forall id :: ListOf(s', id) == ListOf(s, id);
    case Delay(n) =>
      DelayTicksPlaced(s, n);
      MovedStays(s, s', s.running, Some(SleepList), s.threads[s.running].(status := Wait, sleepTicks := n), t);
    case Yield =>
      PrepareToWaitPlaced(s, SleepList);
    case Block(w) =>
      PrepareToWaitPlaced(s, WaitList(w));
    case WakeOne(w) =>
      WakeUpStays(s, w, t);
    case WakeAll(w) =>
      WholeListWakeable(s, WaitList(w));
      WakeManyWoken(s, WaitList(w), ListOf(s, WaitList(w)));
    case FinishWait(x, from) =>
      WakePlaced(s, from, x);
    case JoinThread(x) =>
      if s' != s {
        PrepareToWaitPlaced(s, JoinList(x));
      }
    case ExitThread =>
      ExitStays(s, t);
    case Inherit(owner) =>
      InheritStays(s, owner, t);
    case ResetPriority =>
      assert forall id :: ListOf(s', id) == ListOf(s, id);
    case Reschedule =>
      ScheduleStays(s, t);
  }

  lemma CreateStays(s: State, r: Request, t: Tid)
    requires Inv(s) && t != FreeSlot(s.threads, 0)
    ensures Stays(s, Create(s, r), t, false)
  {
    var x := FreeSlot(s.threads, 0);
    if x < |s.threads| {
      OnNoList(s, x);
      var s1 := SetList(s, JoinList(x), []);
      assert forall id :: ListOf(s1, id) == ListOf(s, id);
      forall id ensures t in ListOf(Create(s, r), id) <==> t in ListOf(s, id) {
        RelinkLists(s1, x, None, Some(SleepList), NewThread(r), id);
      }
    }
  }

  lemma WakeUpStays(s: State, w: nat, t: Tid)
    requires Inv(s) && InTable(s) && !Moves(s, WakeOne(w), t)
    ensures Below(ListOf(s, WaitList(w)), |s.threads|) && Stays(s, WakeUp(s, WaitList(w)), t, false)
  {
    var q := ListOf(s, WaitList(w));
    assert Below(q, |s.threads|);
    if q != [] {
      var x := Chosen(s, w);
      assert x in q;
      OnItsList(s, x, WaitList(w));
      WakePlaced(s, WaitList(w), x);
    }
  }

  lemma ExitStays(s: State, t: Tid)
    requires Inv(s) && InTable(s) && Executing(s) && !Moves(s, ExitThread, t)
    ensures Stays(s, Exit(s), t, false)
  {
    var id := JoinList(s.running);
    var ts := ListOf(s, id);
    WholeListWakeable(s, id);
    WakeManyWoken(s, id, ts);
    var s1 := WakeMany(s, id, ts);
    forall id' ensures t in ListOf(Exit(s), id') <==> t in ListOf(s, id') {
      RelinkLists(s1, s1.running, None, None, s1.threads[s1.running].(status := Terminated), id');
    }
  }

  lemma InheritStays(s: State, owner: Tid, t: Tid)
    requires Inv(s) && InTable(s) && owner < |s.threads| && !Moves(s, Inherit(owner), t)
    ensures Stays(s, InheritPriority(s, owner), t, false)
  {
    var s1 := MarkInherited(s, owner);
    MarkInheritedInv(s, owner);
    assert forall id :: ListOf(s1, id) == ListOf(s, id);
    RaiseStays(s1, owner, s.threads[s.running].priority, t);
  }

  lemma RaiseStays(s: State, owner: Tid, high: nat, t: Tid)
    requires Inv(s) && owner < |s.threads|
    requires var id := ReadyList(s.threads[owner].priority); t == owner ==> owner !in ListOf(s, id)
    ensures var th, id := s.threads[owner], ReadyList(s.threads[owner].priority);
            var up := th.(priority := high);
            && (owner in ListOf(s, id) ==> Stays(s, Relink(s, owner, Some(id), Some(ReadyList(high)), up), t, false))
            && Stays(s, s.(threads := s.threads[owner := up]), t, false)
  {
    var th, id := s.threads[owner], ReadyList(s.threads[owner].priority);
    var up := th.(priority := high);
    if owner in ListOf(s, id) {
      OnItsList(s, owner, id);
      RelinkMoved(s, owner, Some(id), Some(ReadyList(high)), up);
      MovedStays(s, Relink(s, owner, Some(id), Some(ReadyList(high)), up), owner, Some(ReadyList(high)), up, t);
    }
    assert forall x :: ListOf(s.(threads := s.threads[owner := up]), x) == ListOf(s, x);
  }

  lemma CandidatesStays(s: State, t: Tid)
    requires Inv(s) && InTable(s) && !(t == s.running && Executing(s))
    requires !(t in ListOf(s, SleepList) && t < |s.threads| && s.threads[t].sleepTicks == 0)
    ensures Stays(s, Candidates(s), t, false)
  {
    StopCurrentStays(s, t);
    CandidatesInv(s);
    RestedNot(s, t);
    var s1 := StopCurrent(s);
  }

  lemma DispatchStays(s: State, p: nat, t: Tid)
    requires Inv(s) && ListOf(s, ReadyList(p)) != [] && t != ListOf(s, ReadyList(p))[0]
    requires forall x :: 0 <= x < |s.threads| ==> s.threads[x].status != Running
    ensures ListOf(s, ReadyList(p))[0] < |s.threads| && Stays(s, Dispatch(s, p), t, false)
  {
    DispatchInv(s, p);
    var x := ListOf(s, ReadyList(p))[0];
    assert forall id :: ListOf(s.(running := x), id) == ListOf(s, id);
    MovedStays(s.(running := x), Dispatch(s, p), x, None, s.threads[x].(status := Running), t);
  }

  lemma ScheduleStays(s: State, t: Tid)
    requires Inv(s) && InTable(s) && CanSchedule(s) && !Moves(s, Reschedule, t)
    ensures Stays(s, Schedule(s), t, false)
  {
    CandidatesStays(s, t);
    CandidatesInv(s);
    var s2 := Candidates(s);
    var p := HighestReady(s2, KTHREAD_PRI_MAX);
    NotDispatched(s, s2, p, t);
    DispatchStays(s2, p, t);
  }

  /** A thread that is ready stays on the list of its own priority, so one that is
      not ready is not dispatched. */
  lemma NotDispatched(s: State, s2: State, p: nat, t: Tid)
    requires Inv(s) && InTable(s) && Stays(s, s2, t, false) && ListOf(s2, ReadyList(p)) != []
    requires t !in ListOf(s, ReadyList(if t < |s.threads| then s.threads[t].priority else 0))
    ensures t != ListOf(s2, ReadyList(p))[0]
  {}

  lemma StopCurrentStays(s: State, t: Tid)
    requires Inv(s) && !(t == s.running && Executing(s))
    ensures Stays(s, StopCurrent(s), t, false)
  {}

  /** The sweep does not wake a thread that is not a rested sleeper. */
  lemma RestedNot(s: State, t: Tid)
    requires Inv(s) && InTable(s) && !(t == s.running && Executing(s))
    requires !(t in ListOf(s, SleepList) && t < |s.threads| && s.threads[t].sleepTicks == 0)
    ensures var s1 := StopCurrent(s);
            Below(ListOf(s1, SleepList), |s1.threads|) && t !in Rested(s1.threads, ListOf(s1, SleepList))
  {
    StopCurrentStays(s, t);
    CandidatesInv(s);
    var s1 := StopCurrent(s);
    StopCurrentInv(s);
    RestedMembers(s1.threads, ListOf(s1, SleepList));
  }

  /** The events that change the wait list w. */
  ghost predicate Concerns(e: Event, w: nat) {
    match e
    case Block(v) => v == w
    case WakeOne(v) => v == w
    case WakeAll(v) => v == w
    case FinishWait(_, from) => from == WaitList(w)
    case _ => false
  }

  /** All other events leave the wait list exactly as it is. */
  lemma NextWaitList(s: State, e: Event, w: nat)
    requires Inv(s) && Enabled(s, e) && !Concerns(e, w)
    ensures ListOf(Next(s, e), WaitList(w)) == ListOf(s, WaitList(w))
  {
    var id := WaitList(w);
    match e
    case WakeOne(v) => WakeUpWaitList(s, v, w);
    case WakeAll(v) =>
      WholeListWakeable(s, WaitList(v));
      WakeManyWoken(s, WaitList(v), ListOf(s, WaitList(v)));
    case ExitThread => ExitWaitList(s, w);
    case Reschedule => ScheduleWaitList(s, w);
    case Inherit(owner) => InheritWaitList(s, owner, w);
    case CreateThread(r) => CreateWaitList(s, r, w);
    case FinishWait(t, from) =>
      RelinkLists(s, t, Some(from), Some(ReadyList(s.threads[t].priority)), s.threads[t].(status := Ready), id);
    case Tick => assert ListOf(TicksUpdate(s), id) == ListOf(s, id);
    case ResetPriority => assert ListOf(ResetInheritedPriority(s), id) == ListOf(s, id);
    case Delay(n) =>
      RelinkLists(s, s.running, None, Some(SleepList), s.threads[s.running].(status := Wait, sleepTicks := n), id);
    case Yield => RelinkLists(s, s.running, None, Some(SleepList), s.threads[s.running].(status := Wait), id);
    case Block(v) => RelinkLists(s, s.running, None, Some(WaitList(v)), s.threads[s.running].(status := Wait), id);
    case JoinThread(t) => RelinkLists(s, s.running, None, Some(JoinList(t)), s.threads[s.running].(status := Wait), id);
  }

  lemma WakeUpWaitList(s: State, v: nat, w: nat)
    requires InTable(s) && v != w
    ensures Below(ListOf(s, WaitList(v)), |s.threads|)
    ensures ListOf(WakeUp(s, WaitList(v)), WaitList(w)) == ListOf(s, WaitList(w))
  {}

  lemma ExitWaitList(s: State, w: nat)
    requires Inv(s) && InTable(s) && Executing(s)
    ensures ListOf(Exit(s), WaitList(w)) == ListOf(s, WaitList(w))
  {
    var id := JoinList(s.running);
    WholeListWakeable(s, id);
    WakeManyWoken(s, id, ListOf(s, id));
    var s1 := WakeMany(s, id, ListOf(s, id));
    RelinkLists(s1, s1.running, None, None, s1.threads[s1.running].(status := Terminated), WaitList(w));
  }

  lemma InheritWaitList(s: State, owner: Tid, w: nat)
    requires Inv(s) && owner < |s.threads|
    ensures ListOf(InheritPriority(s, owner), WaitList(w)) == ListOf(s, WaitList(w))
  {}

  lemma CreateWaitList(s: State, r: Request, w: nat)
    ensures ListOf(Create(s, r), WaitList(w)) == ListOf(s, WaitList(w))
  {}

  lemma ScheduleWaitList(s: State, w: nat)
    requires Inv(s) && InTable(s) && CanSchedule(s)
    ensures ListOf(Schedule(s), WaitList(w)) == ListOf(s, WaitList(w))
  {
    var s1, s2 := StopCurrent(s), Candidates(s);
    CandidatesInv(s);
    if s1 != s {
      RelinkLists(s, s.running, None, Some(SleepList), s.threads[s.running].(status := Wait), WaitList(w));
    }
    assert ListOf(s2, WaitList(w)) == ListOf(s1, WaitList(w));
    var p := HighestReady(s2, KTHREAD_PRI_MAX);
    DispatchInv(s2, p);
    var t := ListOf(s2, ReadyList(p))[0];
    RelinkLists(s2.(running := t), t, Some(ReadyList(p)), None, s2.threads[t].(status := Running), WaitList(w));
  }
}

/** What the scheduling policy guarantees (kernel/kernel.c; SCHED_RR of section
    2.8.4 of the System Interfaces volume of POSIX.1-2017): the dispatched thread
    has the highest priority, equal priorities take turns, the idle thread keeps
    the search from failing, and delays last exactly as long as asked. */
module SchedulerPolicy {
  import opened Basics
  import opened Scheduling
  import opened SchedulerSteps
  import opened SchedulerRuns

  /** Executing, ready, or on the sleep list with no ticks left. */
  ghost predicate Runnable(s: State, t: Tid) {
    && t < |s.threads|
    && (s.threads[t].status in {Ready, Running} || (t in ListOf(s, SleepList) && s.threads[t].sleepTicks == 0))
  }

  // ------------------------------------------------- dispatch by priority

  lemma StopCurrentMembers(s: State)
    requires Inv(s)
    ensures var s1 := StopCurrent(s);
            && |s1.threads| == |s.threads| && s1.running == s.running
            && (forall id, x {:trigger x in ListOf(s1, id)} :: x in ListOf(s1, id) <==>
                  if x == s.running && Executing(s) then id == SleepList else x in ListOf(s, id))
            && (forall t :: 0 <= t < |s.threads| ==>
                  s1.threads[t] == if t == s.running && Executing(s) then s.threads[t].(status := Wait)
                    else s.threads[t])
  {
    if Executing(s) {
      PrepareToWaitPlaced(s, SleepList);
    }
  }

  /** The ready lists that __schedule searches hold exactly the runnable threads,
      each at its own priority. */
  lemma ReadyIffRunnable(s: State, t: Tid)
    requires Inv(s) && InTable(s) && t < |s.threads|
    ensures |Candidates(s).threads| == |s.threads| && Candidates(s).threads[t].priority == s.threads[t].priority
    ensures Runnable(s, t) <==> t in ListOf(Candidates(s), ReadyList(s.threads[t].priority))
    ensures Runnable(s, t) ==> Candidates(s).threads[t].status == Ready
  {
    StopCurrentMembers(s);
    StopCurrentInv(s);
    CandidatesInv(s);
    var s1 := StopCurrent(s);
    RestedMembers(s1.threads, ListOf(s1, SleepList));
    Placement(s, t);
    Placement(s1, t);
    assert Sane(s.threads[t]);
  }

  /** The level the priority search of __schedule finds. */
  ghost function Level(s: State): int
    requires InTable(s)
  {
    HighestReady(Candidates(s), KTHREAD_PRI_MAX)
  }

  lemma RunnableBelowLevel(s: State, t: Tid)
    requires Inv(s) && InTable(s) && Runnable(s, t)
    ensures s.threads[t].priority <= Level(s)
  {
    ReadyIffRunnable(s, t);
    assert Sane(s.threads[t]);
    NoMembersEmpty(ListOf(Candidates(s), ReadyList(s.threads[t].priority)));
  }

  lemma HeadOfLevel(s: State) returns (t: Tid)
    requires Inv(s) && InTable(s) && CanSchedule(s)
    ensures Runnable(s, t) && s.threads[t].priority == Level(s) && Schedule(s).running == t
    ensures ListOf(Candidates(s), ReadyList(Level(s))) != [] && t == ListOf(Candidates(s), ReadyList(Level(s)))[0]
  {
    CandidatesInv(s);
    var s2 := Candidates(s);
    t := ListOf(s2, ReadyList(Level(s)))[0];
    assert t in ListOf(s2, ReadyList(Level(s)));
    OnItsList(s2, t, ReadyList(Level(s)));
    ReadyIffRunnable(s, t);
  }

  /** __schedule can dispatch exactly when some thread is runnable. */
  lemma CanScheduleIff(s: State)
    requires Inv(s) && InTable(s)
    ensures CanSchedule(s) <==> exists t: Tid :: Runnable(s, t)
  {
    if CanSchedule(s) {
      var t := HeadOfLevel(s);
    }
    if t: Tid :| Runnable(s, t) {
      RunnableBelowLevel(s, t);
    }
  }

  /** __schedule dispatches a runnable thread of the highest priority among all
      runnable threads. */
  lemma ScheduleMaximal(s: State)
    requires Inv(s) && InTable(s) && CanSchedule(s)
    ensures var next := Schedule(s).running;
            && Runnable(s, next)
            && forall t: Tid :: Runnable(s, t) ==> s.threads[t].priority <= s.threads[next].priority
  {
    var next := HeadOfLevel(s);
    forall t: Tid | Runnable(s, t) ensures s.threads[t].priority <= s.threads[next].priority {
      RunnableBelowLevel(s, t);
    }
  }

  // ------------------------------------------- who becomes runnable, and who not

  /** thread_create: which request gets which answer, and what a new thread is; no
      other thread changes. */
  lemma CreateRunnable(s: State, r: Request)
    requires Inv(s)
    ensures var t, s', outcome := FreeSlot(s.threads, 0), Create(s, r), CreateOutcome(s, r);
            var limit := if r.kernelThread then 10 else 8;
            var good := r.detach in {Detached, Joinable} && r.roundRobin && 0 <= r.priority <= limit;
            var slot := exists x :: 0 <= x < |s.threads| && s.threads[x].status == Terminated;
            && (outcome == Err(EINVAL) <==> !good)
            && (outcome == Err(EAGAIN) <==> good && !slot)
            && (outcome == Err(ENOMEM) <==> good && slot && !r.stack)
            && (outcome == Ok(t) <==> good && slot && r.stack)
            && (outcome.Err? ==> s' == s)
            && (outcome.Ok? ==>
                  && t < |s.threads| && !Runnable(s, t) && Runnable(s', t) && s'.threads[t].priority == r.priority
                  && (s'.threads[t].joinable <==> r.detach == Joinable) && ListOf(s', JoinList(t)) == []
                  && (forall x: Tid :: x < |s.threads| && x != t ==> s'.threads[x] == s.threads[x]))
  {
    var t := FreeSlot(s.threads, 0);
    if t < |s.threads| {
      OnNoList(s, t);
      RelinkLists(SetList(s, JoinList(t), []), t, None, Some(SleepList), NewThread(r), SleepList);
      RelinkLists(SetList(s, JoinList(t), []), t, None, Some(SleepList), NewThread(r), JoinList(t));
    }
  }

  /** pthread_join: the caller waits on the join list of a live joinable thread that
      does not wait to join the caller; it is then not runnable, and no other thread
      changes.  Else nothing happens. */
  lemma JoinOutcome(s: State, t: Tid)
    requires Inv(s) && InTable(s) && Executing(s)
    ensures var s', me := Join(s, t), s.running;
            if t < |s.threads| && s.threads[t].status != Terminated && s.threads[t].joinable
               && t !in ListOf(s, JoinList(me))
            then
              && ListOf(s', JoinList(t)) == ListOf(s, JoinList(t)) + [me]
              && s'.threads == s.threads[me := s.threads[me].(status := Wait)] && !Runnable(s', me)
              && (forall id :: id != JoinList(t) ==> ListOf(s', id) == ListOf(s, id))
            else s' == s
  {
    PrepareToWaitPlaced(s, JoinList(t));
    forall id ensures ListOf(PrepareToWait(s, JoinList(t), s.running), id) ==
                      if id == JoinList(t) then ListOf(s, id) + [s.running] else ListOf(s, id)
    {
      RelinkLists(s, s.running, None, Some(JoinList(t)), s.threads[s.running].(status := Wait), id);
    }
    OnNoList(s, s.running);
  }

  ghost predicate Joining(s: State, x: Tid, t: Tid) {
    x < |s.threads| && x in ListOf(s, JoinList(t)) && s.threads[x].status == Wait && !Runnable(s, x)
  }

  lemma JoinerStays(s: State, e: Event, x: Tid, t: Tid)
    requires Inv(s) && Enabled(s, e) && Joining(s, x, t)
    requires !(e.ExitThread? && s.running == t) && !(e.FinishWait? && e.t == x)
    ensures Joining(Next(s, e), x, t)
  {
    OnItsList(s, x, JoinList(t));
    assert !Moves(s, e, x) by {
      if e.WakeOne? && ListOf(s, WaitList(e.w)) != [] {
        assert Chosen(s, e.w) in ListOf(s, WaitList(e.w));
      }
    }
    NextStays(s, e, x);
    NextInv(s, e);
    OnItsList(Next(s, e), x, JoinList(t));
  }

  /** A thread that joins t is not runnable, in any run, until t exits or finish_wait
      is called for it. */
  lemma {:induction false} JoinerWaits(es: seq<Event>, run: seq<State>, k: nat, n: nat, x: Tid, t: Tid)
    requires IsRun(es, run) && k <= n < |run| && Joining(run[k], x, t)
    requires forall i {:trigger es[i]} :: k <= i < n ==>
               !(es[i].ExitThread? && run[i].running == t) && !(es[i].FinishWait? && es[i].t == x)
    ensures Joining(run[n], x, t)
  {
    if k < n {
      JoinerWaits(es, run, k, n - 1, x, t);
      RunInv(es, run, n - 1);
      RunStep(es, run, n - 1, run[n - 1], es[n - 1], run[n]);
      JoinerStays(run[n - 1], es[n - 1], x, t);
    }
  }

  /** wake_up_all makes every waiter of the list ready and leaves none on it. */
  lemma WakeAllReleases(s: State, w: nat)
    requires Inv(s)
    ensures Below(ListOf(s, WaitList(w)), |s.threads|)
    ensures var s' := WakeMany(s, WaitList(w), ListOf(s, WaitList(w)));
            && ListOf(s', WaitList(w)) == [] && |s'.threads| == |s.threads|
            && forall t: Tid :: t < |s.threads| ==>
                 s'.threads[t] == if t in ListOf(s, WaitList(w)) then s.threads[t].(status := Ready) else s.threads[t]
  {
    WholeListWakeable(s, WaitList(w));
    WakeManyWoken(s, WaitList(w), ListOf(s, WaitList(w)));
    NoMembersEmpty(ListOf(WakeMany(s, WaitList(w), ListOf(s, WaitList(w))), WaitList(w)));
  }

  /** wake_up releases exactly one waiter, of the highest priority, or does nothing
      on an empty list. */
  lemma WakeOneReleases(s: State, w: nat)
    requires InTable(s)
    ensures Below(ListOf(s, WaitList(w)), |s.threads|)
    ensures var q, s' := ListOf(s, WaitList(w)), WakeUp(s, WaitList(w));
            if q == [] then s' == s
            else
              var t := Chosen(s, w);
              && t in q && t < |s.threads| && s'.threads == s.threads[t := s.threads[t].(status := Ready)]
              && ListOf(s', WaitList(w)) == Without(q, t)
              && forall i :: 0 <= i < |q| ==> q[i] < |s.threads| && s.threads[q[i]].priority <= s.threads[t].priority
  {
    var q := ListOf(s, WaitList(w));
    assert Below(q, |s.threads|);
    if q != [] {
      var t := Chosen(s, w);
      RelinkLists(s, t, Some(WaitList(w)), Some(ReadyList(s.threads[t].priority)), s.threads[t].(status := Ready),
        WaitList(w));
    }
  }

  /** When a thread exits, it stops being runnable and all its joiners become
      ready. */
  lemma ExitReleases(s: State)
    requires Inv(s) && InTable(s) && Executing(s)
    ensures var s' := Exit(s);
            && |s'.threads| == |s.threads| && s'.threads[s.running].status == Terminated && !Runnable(s', s.running)
            && forall t: Tid :: t < |s.threads| && t != s.running ==>
                 s'.threads[t] == if t in ListOf(s, JoinList(s.running)) then s.threads[t].(status := Ready)
                   else s.threads[t]
  {
    var id := JoinList(s.running);
    WholeListWakeable(s, id);
    WakeManyWoken(s, id, ListOf(s, id));
    ExitInv(s);
    OnNoList(Exit(s), s.running);
    OnNoList(s, s.running);
  }

  // ------------------------------------------------------ the idle thread

  /** The events by which the executing thread gives up being runnable. */
  ghost predicate GivesUp(e: Event) {
    (e.Delay? && e.ticks > 0) || e.Block? || e.JoinThread? || e.ExitThread?
  }

  /** A runnable thread stays runnable unless it gives that up itself. */
  lemma RunnableStays(s: State, e: Event, t: Tid)
    requires Inv(s) && Enabled(s, e) && Runnable(s, t)
    requires !(t == s.running && GivesUp(e))
    ensures Runnable(Next(s, e), t)
  {
    if !Moves(s, e, t) {
      NextStays(s, e, t);
    } else {
      MovedRunnable(s, e, t);
    }
  }

  lemma MovedRunnable(s: State, e: Event, t: Tid)
    requires Inv(s) && Enabled(s, e) && Runnable(s, t) && Moves(s, e, t)
    requires !(t == s.running && GivesUp(e))
    ensures Runnable(Next(s, e), t)
  {
    Placement(s, t);
    match e
    case Delay(n) => DelayTicksPlaced(s, n);
    case Yield => PrepareToWaitPlaced(s, SleepList);
    case WakeOne(w) => assert t in ListOf(s, WaitList(w)); OnItsList(s, t, WaitList(w));
    case WakeAll(w) => OnItsList(s, t, WaitList(w));
    case FinishWait(x, from) => WakePlaced(s, from, x);
    case ExitThread => OnItsList(s, t, JoinList(s.running));
    case Inherit(owner) => InheritKeepsStatus(s, owner);
    case Reschedule => ScheduleRunnable(s, t);
    case CreateThread(r) => assert false;
  }

  /** Between reschedulings a ready thread stays ready, and its priority does not
      fall. */
  lemma ReadyStays(s: State, e: Event, t: Tid)
    requires Inv(s) && Enabled(s, e) && !e.Reschedule? && t < |s.threads| && s.threads[t].status == Ready
    ensures var s' := Next(s, e);
            t < |s'.threads| && s'.threads[t].status == Ready && s'.threads[t].priority >= s.threads[t].priority
  {
    if e.FinishWait? && e.t == t {
      WakePlaced(s, e.from, t);
    } else if e.Inherit? && e.owner == t {
      InheritTurn(s, t);
    } else {
      OtherKeepsTurn(s, e, t);
    }
  }

  lemma InheritKeepsStatus(s: State, owner: Tid)
    requires Inv(s) && owner < |s.threads|
    ensures |InheritPriority(s, owner).threads| == |s.threads|
    ensures InheritPriority(s, owner).threads[owner].status == s.threads[owner].status
  {}

  lemma ScheduleRunnable(s: State, t: Tid)
    requires Inv(s) && InTable(s) && CanSchedule(s) && Runnable(s, t)
    ensures |Schedule(s).threads| == |s.threads| && Schedule(s).threads[t].status in {Ready, Running}
  {
    ReadyIffRunnable(s, t);
    CandidatesInv(s);
    var s2 := Candidates(s);
    var p := HighestReady(s2, KTHREAD_PRI_MAX);
    if t == ListOf(s2, ReadyList(p))[0] {
      DispatchInv(s2, p);
    } else {
      DispatchStays(s2, p, t);
    }
  }

  /** With a thread that never gives up being runnable, as the idle loop does
      not, the priority search of __schedule never falls through. */
  lemma IdleKeepsScheduling(es: seq<Event>, run: seq<State>, idle: Tid, n: nat)
    requires IsRun(es, run) && n < |run| && Runnable(run[0], idle)
    requires forall i :: 0 <= i < |es| ==> !(run[i].running == idle && GivesUp(es[i]))
    ensures Inv(run[n]) && Runnable(run[n], idle) && InTable(run[n]) && CanSchedule(run[n])
  {
    RunInv(es, run, n);
    PlacedInTable(run[n]);
    AlwaysRunnable(es, run, idle, n);
    CanScheduleIff(run[n]);
  }

  lemma {:induction false} AlwaysRunnable(es: seq<Event>, run: seq<State>, t: Tid, n: nat)
    requires IsRun(es, run) && n < |run| && Runnable(run[0], t)
    requires forall i :: 0 <= i < |es| ==> !(run[i].running == t && GivesUp(es[i]))
    ensures Runnable(run[n], t)
  {
    if n > 0 {
      AlwaysRunnable(es, run, t, n - 1);
      RunnableStep(es, run, n - 1, t);
    }
  }

  lemma RunnableStep(es: seq<Event>, run: seq<State>, k: nat, t: Tid)
    requires IsRun(es, run) && k < |es| && Runnable(run[k], t) && !(t == run[k].running && GivesUp(es[k]))
    ensures Runnable(run[k + 1], t)
  {
    RunInv(es, run, k);
    assert StepAt(es, run, k);
    RunnableStays(run[k], es[k], t);
  }

  // --------------------------------------------------------- round robin

  /** t is on the queue after, at most as far from the head as before. */
  ghost predicate NoFurther(q: seq<Tid>, q': seq<Tid>, t: Tid) {
    t in q && t in q' && IndexOf(q', t) <= IndexOf(q, t)
  }

  lemma FoundBy(q: seq<Tid>, t: Tid, k: nat)
    requires k < |q| && q[k] == t
    ensures t in q && IndexOf(q, t) <= k
  {}

  lemma AppendNoFurther(q: seq<Tid>, q': seq<Tid>, t: Tid)
    requires t in q && q <= q'
    ensures NoFurther(q, q', t)
  {}

  lemma WithoutNoFurther(q: seq<Tid>, x: Tid, t: Tid)
    requires t in q && x != t
    ensures NoFurther(q, Without(q, x), t)
    ensures x in q && IndexOf(q, x) < IndexOf(q, t) ==> IndexOf(Without(q, x), t) < IndexOf(q, t)
  {
    if x in q {
      var i, k := IndexOf(q, x), IndexOf(q, t);
      var w := q[..i] + q[i + 1..];
      if k < i {
        assert w[k] == q[k];
        FoundBy(w, t, k);
      } else {
        assert w[k - 1] == q[k];
        FoundBy(w, t, k - 1);
      }
    }
  }

  lemma RelinkNoFurther(s: State, x: Tid, from: Option<ListId>, to: Option<ListId>, th: Thread, t: Tid, p: nat)
    requires x < |s.threads| && x != t && t in ListOf(s, ReadyList(p))
    ensures NoFurther(ListOf(s, ReadyList(p)), ListOf(Relink(s, x, from, to, th), ReadyList(p)), t)
  {
    var q := ListOf(s, ReadyList(p));
    RelinkLists(s, x, from, to, th, ReadyList(p));
    WithoutNoFurther(q, x, t);
    var r := if from == Some(ReadyList(p)) then Without(q, x) else q;
    AppendNoFurther(r, r + [x], t);
  }

  /** A ready thread stays ready at its priority, and no further from the head. */
  ghost predicate KeepsTurn(s: State, s': State, t: Tid)
    requires t < |s.threads|
  {
    var p := s.threads[t].priority;
    && |s'.threads| == |s.threads| && s'.threads[t].status == s.threads[t].status && s'.threads[t].priority == p
    && NoFurther(ListOf(s, ReadyList(p)), ListOf(s', ReadyList(p)), t)
  }

  lemma RelinkKeepsTurn(s: State, x: Tid, from: Option<ListId>, to: Option<ListId>, th: Thread, t: Tid)
    requires Inv(s) && x < |s.threads| && x != t && t < |s.threads| && s.threads[t].status == Ready
    ensures KeepsTurn(s, Relink(s, x, from, to, th), t)
  {
    Placement(s, t);
    RelinkNoFurther(s, x, from, to, th, t, s.threads[t].priority);
  }

  lemma SameKeepsTurn(s: State, s': State, t: Tid)
    requires Inv(s) && t < |s.threads| && s.threads[t].status == Ready
    requires s'.lists == s.lists && |s'.threads| == |s.threads|
    requires s'.threads[t].status == Ready && s'.threads[t].priority == s.threads[t].priority
    ensures KeepsTurn(s, s', t)
  {}

  /** finish_wait of a ready thread that is not the last of its queue sends it to
      the end of the queue. */
  ghost predicate SentBack(s: State, e: Event, t: Tid) {
    && e.FinishWait? && e.t == t && t != s.running && t < |s.threads|
    && var q := ListOf(s, ReadyList(s.threads[t].priority)); t in q && IndexOf(q, t) + 1 < |q|
  }

  /** A thread of higher priority starts to wait for a mutex of the ready thread. */
  ghost predicate Raised(s: State, e: Event, t: Tid) {
    && e.Inherit? && e.owner == t && s.running < |s.threads| && t < |s.threads|
    && s.threads[s.running].priority > s.threads[t].priority
  }

  /** Between reschedulings a ready thread keeps its priority and never moves back
      in its queue, except by these two steps. */
  lemma NextKeepsTurn(s: State, e: Event, t: Tid)
    requires Inv(s) && Enabled(s, e) && !e.Reschedule? && t < |s.threads| && s.threads[t].status == Ready
    ensures KeepsTurn(s, Next(s, e), t) <==> !SentBack(s, e, t) && !Raised(s, e, t)
  {
    if e.FinishWait? && e.t == t {
      FinishTurn(s, e.from, t);
    } else if e.Inherit? && e.owner == t {
      InheritTurn(s, t);
    } else {
      OtherKeepsTurn(s, e, t);
    }
  }

  lemma FinishTurn(s: State, from: ListId, t: Tid)
    requires Inv(s) && Enabled(s, FinishWait(t, from)) && s.threads[t].status == Ready
    ensures KeepsTurn(s, Next(s, FinishWait(t, from)), t) <==> !SentBack(s, FinishWait(t, from), t)
    ensures t != s.running ==>
              var p := s.threads[t].priority;
              ReadyAt(Next(s, FinishWait(t, from)), t, p, |ListOf(s, ReadyList(p))| - 1)
  {
    Placement(s, t);
    OnItsList(s, t, from);
    var p := s.threads[t].priority;
    var q := ListOf(s, ReadyList(p));
    RelinkLists(s, t, Some(from), Some(ReadyList(p)), s.threads[t].(status := Ready), ReadyList(p));
    WithoutMembers(q, t);
    if t == s.running {
      SameKeepsTurn(s, s, t);
    } else {
      FoundBy(Without(q, t) + [t], t, |q| - 1);
    }
  }

  lemma InheritTurn(s: State, t: Tid)
    requires Inv(s) && t < |s.threads| && s.threads[t].status == Ready
    ensures KeepsTurn(s, InheritPriority(s, t), t) <==> !Raised(s, Inherit(t), t)
    ensures |InheritPriority(s, t).threads| == |s.threads| && InheritPriority(s, t).threads[t].status == Ready
    ensures InheritPriority(s, t).threads[t].priority >= s.threads[t].priority
  {
    InheritRaises(s, t);
    InheritKeepsStatus(s, t);
    if !Raised(s, Inherit(t), t) {
      SameKeepsTurn(s, InheritPriority(s, t), t);
    }
  }

  lemma OtherKeepsTurn(s: State, e: Event, t: Tid)
    requires Inv(s) && Enabled(s, e) && !e.Reschedule? && t < |s.threads| && s.threads[t].status == Ready
    requires !(e.FinishWait? && e.t == t) && !(e.Inherit? && e.owner == t)
    ensures KeepsTurn(s, Next(s, e), t)
  {
    var me := s.threads[s.running];
    match e
    case CreateThread(r) => CreateKeepsTurn(s, r, t);
    case Tick => SameKeepsTurn(s, TicksUpdate(s), t);
    case Delay(n) => RelinkKeepsTurn(s, s.running, None, Some(SleepList), me.(status := Wait, sleepTicks := n), t);
    case Yield => RelinkKeepsTurn(s, s.running, None, Some(SleepList), me.(status := Wait), t);
    case Block(w) => RelinkKeepsTurn(s, s.running, None, Some(WaitList(w)), me.(status := Wait), t);
    case WakeOne(w) => WakeUpKeepsTurn(s, w, t);
    case WakeAll(w) => WakeAllKeepsTurn(s, WaitList(w), t);
    case FinishWait(x, from) =>
      SameKeepsTurn(s, s, t);
      RelinkKeepsTurn(s, x, Some(from), Some(ReadyList(s.threads[x].priority)), s.threads[x].(status := Ready), t);
    case JoinThread(x) =>
      SameKeepsTurn(s, s, t);
      RelinkKeepsTurn(s, s.running, None, Some(JoinList(x)), me.(status := Wait), t);
    case ExitThread => ExitKeepsTurn(s, t);
    case Inherit(owner) => InheritKeepsTurn(s, owner, t);
    case ResetPriority => SameKeepsTurn(s, ResetInheritedPriority(s), t);
  }

  lemma CreateKeepsTurn(s: State, r: Request, t: Tid)
    requires Inv(s) && t < |s.threads| && s.threads[t].status == Ready
    ensures KeepsTurn(s, Create(s, r), t)
  {}

  lemma WakeUpKeepsTurn(s: State, w: nat, t: Tid)
    requires Inv(s) && InTable(s) && t < |s.threads| && s.threads[t].status == Ready
    ensures Below(ListOf(s, WaitList(w)), |s.threads|) && KeepsTurn(s, WakeUp(s, WaitList(w)), t)
  {
    var q := ListOf(s, WaitList(w));
    assert Below(q, |s.threads|);
    SameKeepsTurn(s, s, t);
    if q != [] {
      var x := Chosen(s, w);
      assert x in q;
      OnItsList(s, x, WaitList(w));
      RelinkKeepsTurn(s, x, Some(WaitList(w)), Some(ReadyList(s.threads[x].priority)), s.threads[x].(status := Ready),
        t);
    }
  }

  lemma WakeAllKeepsTurn(s: State, id: ListId, t: Tid)
    requires Inv(s) && (id.WaitList? || id.JoinList?) && t < |s.threads| && s.threads[t].status == Ready
    ensures Below(ListOf(s, id), |s.threads|) && KeepsTurn(s, WakeMany(s, id, ListOf(s, id)), t)
  {
    Placement(s, t);
    WholeListWakeable(s, id);
    WakeManyWoken(s, id, ListOf(s, id));
    var p := s.threads[t].priority;
    AppendNoFurther(ListOf(s, ReadyList(p)), ListOf(WakeMany(s, id, ListOf(s, id)), ReadyList(p)), t);
  }

  lemma ExitKeepsTurn(s: State, t: Tid)
    requires Inv(s) && InTable(s) && Executing(s) && t < |s.threads| && s.threads[t].status == Ready
    ensures KeepsTurn(s, Exit(s), t)
  {
    var id := JoinList(s.running);
    WakeAllKeepsTurn(s, id, t);
    WakeManyTable(s, id, ListOf(s, id));
    var s1 := WakeMany(s, id, ListOf(s, id));
    RelinkNoFurther(s1, s1.running, None, None, s1.threads[s1.running].(status := Terminated), t,
      s.threads[t].priority);
  }

  lemma InheritKeepsTurn(s: State, owner: Tid, t: Tid)
    requires Inv(s) && owner < |s.threads| && owner != t && t < |s.threads| && s.threads[t].status == Ready
    ensures KeepsTurn(s, InheritPriority(s, owner), t)
  {
    var s1 := MarkInherited(s, owner);
    MarkInheritedInv(s, owner);
    SameKeepsTurn(s, s1, t);
    var me, th := s.threads[s.running], s1.threads[owner];
    RelinkKeepsTurn(s1, owner, Some(ReadyList(th.priority)), Some(ReadyList(me.priority)), th.(priority := me.priority),
      t);
  }

  /** t is ready at priority p with i threads before it in its queue. */
  ghost predicate ReadyAt(s: State, t: Tid, p: nat, i: nat) {
    && t < |s.threads| && s.threads[t].status == Ready && s.threads[t].priority == p
    && t in ListOf(s, ReadyList(p)) && IndexOf(ListOf(s, ReadyList(p)), t) == i
  }

  ghost predicate NoneAbove(s: State, p: nat) {
    forall x: Tid :: Runnable(s, x) ==> s.threads[x].priority <= p
  }

  /** Gathering the candidates appends to the ready lists only. */
  lemma CandidatesBehind(s: State, t: Tid, p: nat, i: nat)
    requires Inv(s) && InTable(s) && ReadyAt(s, t, p, i)
    ensures ReadyAt(Candidates(s), t, p, i)
  {
    CandidatesInv(s);
    StopCurrentMembers(s);
    ReadyIffRunnable(s, t);
    var s1, s2 := StopCurrent(s), Candidates(s);
    assert ListOf(s1, ReadyList(p)) == ListOf(s, ReadyList(p));
    var q, q2 := ListOf(s, ReadyList(p)), ListOf(s2, ReadyList(p));
    assert q <= q2;
    IndexKept(q, q2, t);
  }

  lemma IndexKept(q: seq<Tid>, q': seq<Tid>, t: Tid)
    requires t in q && q <= q'
    ensures t in q' && IndexOf(q', t) == IndexOf(q, t)
  {
    var i := IndexOf(q, t);
    assert q'[i] == t && forall j :: 0 <= j < i ==> q'[j] == q[j];
  }

  /** Dispatching another thread from the head of its queue moves t one place
      forward. */
  lemma DispatchForward(s: State, t: Tid, p: nat, i: nat)
    requires Inv(s) && ReadyAt(s, t, p, i) && i > 0
    requires forall x :: 0 <= x < |s.threads| ==> s.threads[x].status != Running
    ensures ListOf(s, ReadyList(p))[0] < |s.threads| && ReadyAt(Dispatch(s, p), t, p, i - 1)
  {
    var q := ListOf(s, ReadyList(p));
    var x := q[0];
    DispatchInv(s, p);
    RelinkLists(s.(running := x), x, Some(ReadyList(p)), None, s.threads[x].(status := Running), ReadyList(p));
    HeadOut(q, t);
  }

  /** Taking out the head of a queue moves every other thread one place forward. */
  lemma HeadOut(q: seq<Tid>, t: Tid)
    requires t in q && IndexOf(q, t) > 0
    ensures Without(q, q[0]) == q[1..] && t in q[1..] && IndexOf(q[1..], t) == IndexOf(q, t) - 1
  {
    assert IndexOf(q, q[0]) == 0;
  }

  /** A rescheduling at the thread's own level dispatches it if it is the first of
      its queue, and else moves it exactly one place forward. */
  lemma ScheduleForward(s: State, t: Tid, p: nat, i: nat)
    requires Inv(s) && InTable(s) && CanSchedule(s) && ReadyAt(s, t, p, i) && NoneAbove(s, p)
    ensures if i == 0 then Schedule(s).running == t else Schedule(s).running != t && ReadyAt(Schedule(s), t, p, i - 1)
  {
    LevelIs(s, t, p);
    CandidatesBehind(s, t, p, i);
    var s2 := Candidates(s);
    assert Inv(s2) && forall x :: 0 <= x < |s2.threads| ==> s2.threads[x].status != Running by { CandidatesInv(s); }
    if i > 0 {
      DispatchForward(s2, t, p, i);
    }
  }

  lemma LevelIs(s: State, t: Tid, p: nat)
    requires Inv(s) && InTable(s) && CanSchedule(s) && Runnable(s, t) && s.threads[t].priority == p && NoneAbove(s, p)
    ensures Level(s) == p
    ensures ListOf(Candidates(s), ReadyList(p)) != []
              && ListOf(Candidates(s), ReadyList(p))[0] < |Candidates(s).threads|
    ensures Schedule(s) == Dispatch(Candidates(s), p)
  {
    var next := HeadOfLevel(s);
    RunnableBelowLevel(s, t);
    ReadyIffRunnable(s, next);
  }

  ghost function Reschedules(es: seq<Event>, k: nat): nat
    requires k <= |es|
    decreases |es| - k
  {
    if k == |es| then 0 else (if es[k].Reschedule? then 1 else 0) + Reschedules(es, k + 1)
  }

  /** A step other than a rescheduling brings a ready thread no further from the
      head of its queue, or raises it. */
  lemma QuietTurn(es: seq<Event>, run: seq<State>, k: nat, t: Tid, p: nat, i: nat) returns (i': nat)
    requires IsRun(es, run) && k < |es| && ReadyAt(run[k], t, p, i)
    requires !es[k].Reschedule? && !SentBack(run[k], es[k], t)
    ensures if Raised(run[k], es[k], t) then ReadyAbove(run[k + 1], t, p) else ReadyAt(run[k + 1], t, p, i') && i' <= i
  {
    RunInv(es, run, k);
    assert StepAt(es, run, k);
    NextKeepsTurn(run[k], es[k], t);
    if Raised(run[k], es[k], t) {
      InheritTurn(run[k], t);
      InheritRaises(run[k], t);
      i' := i;
    } else {
      i' := IndexOf(ListOf(run[k + 1], ReadyList(p)), t);
    }
  }

  ghost predicate ReadyAbove(s: State, t: Tid, p: nat) {
    t < |s.threads| && s.threads[t].status == Ready && s.threads[t].priority > p
  }

  /** A ready thread above a priority is still runnable at the next rescheduling. */
  lemma {:induction false} StillAbove(es: seq<Event>, run: seq<State>, k: nat, t: Tid, p: nat) returns (m: nat)
    requires IsRun(es, run) && k <= |es| && ReadyAbove(run[k], t, p) && Reschedules(es, k) > 0
    ensures k <= m < |es| && es[m].Reschedule? && !NoneAbove(run[m], p)
    decreases |es| - k
  {
    if es[k].Reschedule? {
      assert Runnable(run[k], t);
      m := k;
    } else {
      RunInv(es, run, k);
      assert StepAt(es, run, k);
      ReadyStays(run[k], es[k], t);
      m := StillAbove(es, run, k + 1, t, p);
    }
  }

  /** A rescheduling brings it one place nearer or dispatches it. */
  lemma ScheduleTurn(es: seq<Event>, run: seq<State>, k: nat, t: Tid, p: nat, i: nat)
    requires IsRun(es, run) && k < |es| && ReadyAt(run[k], t, p, i)
    requires es[k] == Reschedule && NoneAbove(run[k], p)
    ensures if i == 0 then run[k + 1].running == t else run[k + 1].running != t && ReadyAt(run[k + 1], t, p, i - 1)
  {
    RunInv(es, run, k);
    var s := run[k];
    assert Enabled(s, Reschedule) && run[k + 1] == Schedule(s) by { assert StepAt(es, run, k); }
    ScheduleForward(s, t, p, i);
  }

  ghost predicate SchedulesAt(es: seq<Event>, run: seq<State>, n: int, p: nat) {
    0 <= n < |es| && n < |run| && es[n] == Reschedule && NoneAbove(run[n], p)
  }

  /** The bound is exact: with reschedulings only, the thread is not dispatched by
      the first i of them. */
  lemma {:induction false} TurnExact(es: seq<Event>, run: seq<State>, k: nat, t: Tid, p: nat, i: nat, m: nat)
    requires IsRun(es, run) && k + m <= |es| && m <= i && ReadyAt(run[k], t, p, i)
    requires forall n {:trigger SchedulesAt(es, run, n, p)} :: k <= n < k + m ==> SchedulesAt(es, run, n, p)
    ensures ReadyAt(run[k + m], t, p, i - m)
    ensures forall n :: k < n <= k + m ==> run[n].running != t
  {
    if m > 0 {
      TurnExact(es, run, k, t, p, i, m - 1);
      assert SchedulesAt(es, run, k + m - 1, p);
      ScheduleTurn(es, run, k + m - 1, t, p, i - (m - 1));
    }
  }

  /** Round robin: a ready thread with i threads before it in its queue is
      dispatched within i + 1 reschedulings, as long as no thread of higher
      priority is runnable at them and finish_wait does not send it back. */
  lemma {:induction false} RoundRobin(es: seq<Event>, run: seq<State>, k: nat, t: Tid, p: nat, i: nat) returns (j: nat)
    requires IsRun(es, run) && k <= |es| && ReadyAt(run[k], t, p, i)
    requires forall m {:trigger es[m]} :: k <= m < |es| ==> !SentBack(run[m], es[m], t)
    requires forall m {:trigger es[m]} :: k <= m < |es| && es[m].Reschedule? ==> NoneAbove(run[m], p)
    requires Reschedules(es, k) > i
    ensures k < j <= |es| && es[j - 1].Reschedule? && run[j].running == t
    decreases |es| - k
  {
    var i';
    if es[k].Reschedule? {
      ScheduleTurn(es, run, k, t, p, i);
      if i == 0 {
        return k + 1;
      }
      i' := i - 1;
    } else {
      i' := QuietTurn(es, run, k, t, p, i);
      if Raised(run[k], es[k], t) {
        var m := StillAbove(es, run, k + 1, t, p);
        assert false;
      }
    }
    j := RoundRobin(es, run, k + 1, t, p, i');
  }

  lemma {:induction false} AllReschedules(es: seq<Event>, k: nat)
    requires k <= |es| && forall n :: k <= n < |es| ==> es[n].Reschedule?
    ensures Reschedules(es, k) == |es| - k
    decreases |es| - k
  {
    if k < |es| {
      AllReschedules(es, k + 1);
    }
  }

  /** The condition on finish_wait is exact: after any one step, the next i + 1
      reschedulings dispatch the thread if and only if that step has not sent it
      back. */
  lemma TurnKeptIff(es: seq<Event>, run: seq<State>, t: Tid, p: nat, i: nat)
    requires IsRun(es, run) && |es| == i + 2 && ReadyAt(run[0], t, p, i) && !es[0].Reschedule?
    requires forall n {:trigger SchedulesAt(es, run, n, p)} :: 1 <= n < |es| ==> SchedulesAt(es, run, n, p)
    ensures (exists j :: 1 < j <= |es| && run[j].running == t) <==> !SentBack(run[0], es[0], t)
  {
    if SentBack(run[0], es[0], t) {
      SentBackLate(es, run, t, p, i);
    } else {
      KeptInTime(es, run, t, p, i);
    }
  }

  lemma SentBackLate(es: seq<Event>, run: seq<State>, t: Tid, p: nat, i: nat)
    requires IsRun(es, run) && |es| == i + 2 && ReadyAt(run[0], t, p, i) && SentBack(run[0], es[0], t)
    requires forall n {:trigger SchedulesAt(es, run, n, p)} :: 1 <= n < |es| ==> SchedulesAt(es, run, n, p)
    ensures forall j :: 1 < j <= |es| ==> run[j].running != t
  {
    var s := run[0];
    assert Inv(s) && Enabled(s, es[0]) && run[1] == Next(s, es[0]) by { assert StepAt(es, run, 0); }
    FinishTurn(s, es[0].from, t);
    TurnExact(es, run, 1, t, p, |ListOf(s, ReadyList(p))| - 1, i + 1);
  }

  lemma KeptInTime(es: seq<Event>, run: seq<State>, t: Tid, p: nat, i: nat)
    requires IsRun(es, run) && |es| == i + 2 && ReadyAt(run[0], t, p, i) && !es[0].Reschedule?
               && !SentBack(run[0], es[0], t)
    requires forall n {:trigger SchedulesAt(es, run, n, p)} :: 1 <= n < |es| ==> SchedulesAt(es, run, n, p)
    ensures exists j :: 1 < j <= |es| && run[j].running == t
  {
    forall n | 1 <= n < |es| ensures es[n].Reschedule? && NoneAbove(run[n], p) {
      assert SchedulesAt(es, run, n, p);
    }
    AllReschedules(es, 1);
    var j := RoundRobin(es, run, 0, t, p, i);
  }

  /** Two ready threads of priority 3 behind a running one. */
  function TwoReady(): State {
    State(map[ReadyList(3) := [1, 2]],
          [Thread(Running, 3, 0, false, 0, true), Thread(Ready, 3, 0, false, 0, true),
            Thread(Ready, 3, 0, false, 0, true)], 0)
  }

  lemma TwoReadyInv()
    ensures Inv(TwoReady()) && InTable(TwoReady())
  {
    var s := TwoReady();
    assert ListOf(s, ReadyList(3)) == [1, 2] && forall id :: id != ReadyList(3) ==> ListOf(s, id) == [];
    forall t | 0 <= t < |s.threads| && s.threads[t].status in {Wait, Ready} ensures OnSomeList(s, t) {
      assert t in ListOf(s, ReadyList(3));
    }
    PlacedInTable(s);
  }

  /** finish_wait of the first of them puts it behind the other one, although no
      thread was before it. */
  lemma SentBackExample()
    ensures Enabled(TwoReady(), FinishWait(1, ReadyList(3))) && ReadyAt(TwoReady(), 1, 3, 0)
    ensures ReadyAt(Next(TwoReady(), FinishWait(1, ReadyList(3))), 1, 3, 1)
  {
    TwoReadyInv();
    assert ListOf(TwoReady(), ReadyList(3)) == [1, 2] && IndexOf([1, 2], 1) == 0;
    FinishTurn(TwoReady(), ReadyList(3), 1);
  }

  // ------------------------------------------------------- exact delays

  ghost predicate Asleep(s: State, t: Tid, n: nat) {
    t < |s.threads| && t in ListOf(s, SleepList) && s.threads[t].sleepTicks == n
  }

  /** finish_wait moves the thread, unless it is the running one. */
  ghost predicate Finishes(s: State, e: Event, t: Tid) {
    e.FinishWait? && e.t == t && t != s.running
  }

  /** A sleeper is left alone, ticks aside, until it has no ticks left. */
  lemma SleeperStays(s: State, e: Event, t: Tid, n: nat)
    requires Inv(s) && Enabled(s, e) && Asleep(s, t, n)
    requires n == 0 ==> !e.Reschedule? && !Finishes(s, e, t)
    ensures Asleep(Next(s, e), t, if e.Tick? && n > 0 then n - 1 else n)
  {
    OnItsList(s, t, SleepList);
    assert t !in ListOf(s, ReadyList(s.threads[t].priority));
    if !(e.FinishWait? && e.t == t) {
      assert !Moves(s, e, t) by {
        if e.WakeOne? && ListOf(s, WaitList(e.w)) != [] {
          assert Chosen(s, e.w) in ListOf(s, WaitList(e.w));
        }
      }
      NextStays(s, e, t);
    }
  }

  lemma AsleepStep(es: seq<Event>, run: seq<State>, k: nat, t: Tid, n: nat)
    requires IsRun(es, run) && k < |es| && Asleep(run[k], t, n)
    requires n == 0 ==> !es[k].Reschedule? && !Finishes(run[k], es[k], t)
    ensures Asleep(run[k + 1], t, if es[k].Tick? && n > 0 then n - 1 else n)
  {
    RunInv(es, run, k);
    assert StepAt(es, run, k);
    SleeperStays(run[k], es[k], t, n);
  }

  lemma DelayStep(es: seq<Event>, run: seq<State>, d: nat, n: nat)
    requires IsRun(es, run) && d < |es| && es[d] == Delay(n)
    ensures Asleep(run[d + 1], run[d].running, n)
  {
    RunInv(es, run, d);
    assert StepAt(es, run, d);
    DelayTicksPlaced(run[d], n);
  }

  /** Tick events among es[a..b]. */
  ghost function Ticks(es: seq<Event>, a: nat, b: nat): nat
    requires a <= b <= |es|
  {
    if a == b then 0 else Ticks(es, a, b - 1) + if es[b - 1].Tick? then 1 else 0
  }

  lemma {:induction false} TicksGrow(es: seq<Event>, a: nat, b: nat, c: nat)
    requires a <= b <= c <= |es|
    ensures Ticks(es, a, b) <= Ticks(es, a, c)
  {
    if b < c {
      TicksGrow(es, a, b, c - 1);
    }
  }

  /** Not before n ticks: after delay_ticks(n) at event d, the thread is on the
      sleep list with exactly the remaining ticks as long as these last. */
  lemma {:induction false} DelayNotEarly(es: seq<Event>, run: seq<State>, d: nat, n: nat, j: nat)
    requires IsRun(es, run) && d < j <= |es| && es[d] == Delay(n)
    requires Ticks(es, d + 1, j) < n || j == d + 1
    ensures Asleep(run[j], run[d].running, n - Ticks(es, d + 1, j))
  {
    if j == d + 1 {
      DelayStep(es, run, d, n);
    } else {
      TicksGrow(es, d + 1, j - 1, j);
      DelayNotEarly(es, run, d, n, j - 1);
      AsleepStep(es, run, j - 1, run[d].running, n - Ticks(es, d + 1, j - 1));
    }
  }

  /** Event r comes no later than the first rescheduling after the n-th tick
      following event d. */
  ghost predicate StillDue(es: seq<Event>, d: nat, n: nat, r: nat)
    requires d < r <= |es|
  {
    forall i {:trigger es[i]} :: d < i < r && es[i].Reschedule? ==> Ticks(es, d + 1, i) < n
  }

  /** finish_wait has moved the thread between events d and r. */
  ghost predicate FinishedBy(es: seq<Event>, run: seq<State>, d: nat, r: nat, t: Tid)
    requires d < r <= |es| < |run|
  {
    exists i {:trigger es[i]} :: d < i < r && Finishes(run[i], es[i], t)
  }

  /** A sleeper with ticks left, or without them waiting for the scheduler, or made
      ready by finish_wait once they are over. */
  ghost predicate Due(s: State, t: Tid, finished: bool, left: nat) {
    if finished then left == 0 && t < |s.threads| && s.threads[t].status == Ready else Asleep(s, t, left)
  }

  lemma DueNext(s: State, e: Event, t: Tid, finished: bool, left: nat)
    requires Inv(s) && Enabled(s, e) && Due(s, t, finished, left) && (left == 0 ==> !e.Reschedule?)
    ensures Due(Next(s, e), t, finished || Finishes(s, e, t), if e.Tick? && left > 0 then left - 1 else left)
  {
    if finished {
      ReadyStays(s, e, t);
    } else if Finishes(s, e, t) {
      WakePlaced(s, e.from, t);
    } else {
      SleeperStays(s, e, t, left);
    }
  }

  lemma DueStep(es: seq<Event>, run: seq<State>, k: nat, s': State, t: Tid, finished: bool, left: nat)
    requires IsRun(es, run) && k < |es| && s' == run[k + 1] && Due(run[k], t, finished, left)
               && (left == 0 ==> !es[k].Reschedule?)
    ensures Due(s', t, finished || Finishes(run[k], es[k], t), if es[k].Tick? && left > 0 then left - 1 else left)
  {
    RunInv(es, run, k);
    RunStep(es, run, k, run[k], es[k], s');
    DueNext(run[k], es[k], t, finished, left);
  }

  function Left(n: nat, c: nat): nat {
    if c < n then n - c else 0
  }

  /** Until the first rescheduling after its last tick the sleeper waits on the
      sleep list, if and only if finish_wait has not made it ready before; and that
      can only happen once its ticks are over. */
  lemma {:induction false} DelayUntilSchedule(es: seq<Event>, run: seq<State>, d: nat, n: nat, r: nat)
    requires IsRun(es, run) && d < r <= |es| && es[d] == Delay(n) && StillDue(es, d, n, r)
    ensures var t := run[d].running; Due(run[r], t, FinishedBy(es, run, d, r, t), Left(n, Ticks(es, d + 1, r)))
  {
    if r == d + 1 {
      DelayStep(es, run, d, n);
    } else {
      DelayUntilSchedule(es, run, d, n, r - 1);
      var t := run[d].running;
      DueStep(es, run, r - 1, run[r], t, FinishedBy(es, run, d, r - 1, t), Left(n, Ticks(es, d + 1, r - 1)));
      FinishedStep(es, run, d, r, t);
    }
  }

  lemma FinishedStep(es: seq<Event>, run: seq<State>, d: nat, r: nat, t: Tid)
    requires d + 1 < r <= |es| < |run|
    ensures FinishedBy(es, run, d, r, t) <==> FinishedBy(es, run, d, r - 1, t) || Finishes(run[r - 1], es[r - 1], t)
  {}

  /** Not late either, in any run: the first rescheduling after the n-th tick makes
      the thread ready, or dispatches it at once. */
  lemma DelayNotLate(es: seq<Event>, run: seq<State>, d: nat, n: nat, r: nat)
    requires IsRun(es, run) && d < r < |es| && es[d] == Delay(n) && StillDue(es, d, n, r)
    requires es[r].Reschedule? && Ticks(es, d + 1, r) >= n
    ensures run[d].running < |run[r + 1].threads| && run[r + 1].threads[run[d].running].status in {Ready, Running}
  {
    DelayUntilSchedule(es, run, d, n, r);
    RunInv(es, run, r);
    assert StepAt(es, run, r);
    ScheduleRunnable(run[r], run[d].running);
  }
}

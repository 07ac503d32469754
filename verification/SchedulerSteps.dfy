/** Every scheduler step keeps the placement invariant (kernel/kernel.c). */
module SchedulerSteps {
  import opened Basics
  import opened Scheduling

  /** Only live threads are waited for by joiners. */
  ghost predicate JoinsLive(s: State) {
    forall t: Tid :: ListOf(s, JoinList(t)) != [] ==> t < |s.threads| && s.threads[t].status != Terminated
  }

  ghost predicate Inv(s: State) {
    Placed(s) && JoinsLive(s)
  }

  lemma PlacedInTable(s: State)
    requires Placed(s)
    ensures InTable(s)
  {
    forall id ensures Below(ListOf(s, id), |s.threads|) {
      forall i | 0 <= i < |ListOf(s, id)| ensures ListOf(s, id)[i] < |s.threads| {
        assert ListOf(s, id)[i] in ListOf(s, id);
      }
    }
  }

  /** A thread is on the list that holds it and on no other. */
  lemma OnItsList(s: State, t: Tid, id: ListId)
    requires Placed(s) && t in ListOf(s, id)
    ensures t < |s.threads| && Fits(s.threads[t], id) && LinkedOn(s, t, Some(id))
  {}

  /** A running or terminated thread is on no list. */
  lemma OnNoList(s: State, t: Tid)
    requires Placed(s) && t < |s.threads| && s.threads[t].status in {Running, Terminated}
    ensures LinkedOn(s, t, None)
  {}

  /** A step that leaves the lists and the statuses alone. */
  lemma SameListsPlaced(s: State, s': State)
    requires Placed(s) && s'.lists == s.lists && s'.running == s.running && |s'.threads| == |s.threads|
    requires forall t :: 0 <= t < |s.threads| ==>
      var th, th' := s.threads[t], s'.threads[t];
      && th'.status == th.status && th'.sleepTicks <= th.sleepTicks && Sane(th')
      && (th.status == Ready ==> th'.priority == th.priority)
    ensures Placed(s')
  {
    forall id ensures ListOf(s', id) == ListOf(s, id) {}
    forall id, t | t in ListOf(s', id) ensures t < |s'.threads| && Fits(s'.threads[t], id) {
      OnItsList(s, t, id);
    }
    forall t | 0 <= t < |s'.threads| && s'.threads[t].status in {Wait, Ready} ensures OnSomeList(s', t) {
      assert OnSomeList(s, t);
      var id :| t in ListOf(s, id);
      assert t in ListOf(s', id);
    }
  }

  lemma PrepareToWaitPlaced(s: State, id: ListId)
    requires Placed(s) && s.threads[s.running].status == Running && !id.ReadyList?
    ensures Placed(PrepareToWait(s, id, s.running))
    ensures Moved(s, PrepareToWait(s, id, s.running), s.running, Some(id), s.threads[s.running].(status := Wait))
  {
    OnNoList(s, s.running);
    RelinkPlaced(s, s.running, None, Some(id), s.threads[s.running].(status := Wait));
  }

  lemma DelayTicksPlaced(s: State, n: nat)
    requires Placed(s) && s.threads[s.running].status == Running
    ensures Placed(DelayTicks(s, n))
    ensures Moved(s, DelayTicks(s, n), s.running, Some(SleepList),
              s.threads[s.running].(status := Wait, sleepTicks := n))
  {
    OnNoList(s, s.running);
    RelinkPlaced(s, s.running, None, Some(SleepList), s.threads[s.running].(status := Wait, sleepTicks := n));
  }

  lemma WakePlaced(s: State, from: ListId, t: Tid)
    requires Placed(s) && t in ListOf(s, from) && t < |s.threads| && s.threads[t].sleepTicks == 0
    ensures Placed(Wake(s, from, t))
    ensures Moved(s, Wake(s, from, t), t, Some(ReadyList(s.threads[t].priority)), s.threads[t].(status := Ready))
  {
    OnItsList(s, t, from);
    RelinkPlaced(s, t, Some(from), Some(ReadyList(s.threads[t].priority)), s.threads[t].(status := Ready));
  }

  // ------------------------------------------------------------- sweeps

  /** What a sweep that wakes the threads `ts` changes: exactly they become
      ready, each on the ready list of its priority, and every ready list keeps
      what it had as a prefix. */
  ghost predicate Woken(s: State, s': State, from: ListId, ts: seq<Tid>) {
    && s'.running == s.running && |s'.threads| == |s.threads|
    && (forall t: Tid :: t < |s.threads| ==>
          s'.threads[t] == if t in ts then s.threads[t].(status := Ready) else s.threads[t])
    && (forall id, x {:trigger x in ListOf(s', id)} :: x in ListOf(s', id) <==>
          if x in ts then x < |s.threads| && id == ReadyList(s.threads[x].priority) else x in ListOf(s, id))
    && (forall p :: ListOf(s, ReadyList(p)) <= ListOf(s', ReadyList(p)))
    && (forall id :: id != from && !id.ReadyList? ==> ListOf(s', id) == ListOf(s, id))
  }

  /** ts are threads of the list with no ticks to sleep. */
  ghost predicate Wakeable(s: State, from: ListId, ts: seq<Tid>) {
    && NoDup(ts)
    && forall i :: 0 <= i < |ts| ==> ts[i] in ListOf(s, from) && ts[i] < |s.threads| && s.threads[ts[i]].sleepTicks == 0
  }

  lemma WakeableRest(s: State, from: ListId, ts: seq<Tid>)
    requires Placed(s) && ts != [] && Wakeable(s, from, ts) && !from.ReadyList?
    ensures ts[0] < |s.threads| && Placed(Wake(s, from, ts[0])) && Wakeable(Wake(s, from, ts[0]), from, ts[1..])
    ensures Moved(s, Wake(s, from, ts[0]), ts[0], Some(ReadyList(s.threads[ts[0]].priority)),
              s.threads[ts[0]].(status := Ready))
  {
    WakePlaced(s, from, ts[0]);
    var s1 := Wake(s, from, ts[0]);
    forall i | 0 <= i < |ts[1..]|
      ensures var t := ts[1..][i]; t in ListOf(s1, from) && t < |s1.threads| && s1.threads[t].sleepTicks == 0
    {
      assert ts[1..][i] == ts[i + 1] != ts[0];
    }
  }

  lemma {:induction false} WakeManyWoken(s: State, from: ListId, ts: seq<Tid>)
    requires Placed(s) && !from.ReadyList? && Wakeable(s, from, ts)
    ensures Below(ts, |s.threads|)
    ensures Placed(WakeMany(s, from, ts)) && Woken(s, WakeMany(s, from, ts), from, ts)
    decreases |ts|
  {
    if ts != [] {
      var t := ts[0];
      WakeableRest(s, from, ts);
      var s1 := Wake(s, from, t);
      WakeManyWoken(s1, from, ts[1..]);
      WokenCons(s, s1, WakeMany(s1, from, ts[1..]), from, ts);
    }
  }

  lemma WokenCons(s: State, s1: State, s': State, from: ListId, ts: seq<Tid>)
    requires ts != [] && NoDup(ts) && ts[0] < |s.threads| && !from.ReadyList?
    requires s1 == Wake(s, from, ts[0]) && Woken(s1, s', from, ts[1..])
    requires Moved(s, s1, ts[0], Some(ReadyList(s.threads[ts[0]].priority)), s.threads[ts[0]].(status := Ready))
    ensures Woken(s, s', from, ts)
  {
    var t := ts[0];
    assert t !in ts[1..];
    assert forall x :: x in ts <==> x == t || x in ts[1..];
    forall p ensures ListOf(s, ReadyList(p)) <= ListOf(s', ReadyList(p)) {
      RelinkLists(s, t, Some(from), Some(ReadyList(s.threads[t].priority)), s.threads[t].(status := Ready),
        ReadyList(p));
      assert ListOf(s, ReadyList(p)) <= ListOf(s1, ReadyList(p));
    }
    forall id | id != from && !id.ReadyList? ensures ListOf(s', id) == ListOf(s, id) {
      RelinkLists(s, t, Some(from), Some(ReadyList(s.threads[t].priority)), s.threads[t].(status := Ready), id);
    }
  }

  lemma {:induction false} RestedMembers(threads: seq<Thread>, q: seq<Tid>)
    requires Below(q, |threads|) && NoDup(q)
    ensures NoDup(Rested(threads, q))
    ensures forall t :: t in Rested(threads, q) <==> t in q && t < |threads| && threads[t].sleepTicks == 0
  {
    if q != [] {
      RestedMembers(threads, q[1..]);
      assert q == [q[0]] + q[1..];
      assert q[0] !in q[1..];
    }
  }

  lemma RestedWakeable(s: State)
    requires Placed(s)
    ensures Below(ListOf(s, SleepList), |s.threads|)
    ensures Wakeable(s, SleepList, Rested(s.threads, ListOf(s, SleepList)))
  {
    PlacedInTable(s);
    var q := ListOf(s, SleepList);
    assert Below(q, |s.threads|);
    RestedMembers(s.threads, q);
    var r := Rested(s.threads, q);
    forall i | 0 <= i < |r| ensures r[i] in q && r[i] < |s.threads| && s.threads[r[i]].sleepTicks == 0 {
      assert r[i] in r;
    }
  }

  // ------------------------------------------------- the individual steps

  lemma PrepareToWaitInv(s: State, id: ListId)
    requires Inv(s) && s.threads[s.running].status == Running && !id.ReadyList?
    requires id.JoinList? ==> id.tid < |s.threads| && s.threads[id.tid].status != Terminated
    ensures Inv(PrepareToWait(s, id, s.running))
  {
    PrepareToWaitPlaced(s, id);
    MovedJoins(s, PrepareToWait(s, id, s.running), s.running, Some(id), s.threads[s.running].(status := Wait));
  }

  /** A relink that does not end a thread keeps the joined threads live. */
  lemma MovedJoins(s: State, s': State, t: Tid, to: Option<ListId>, th: Thread)
    requires Inv(s) && t < |s.threads| && Moved(s, s', t, to, th) && th.status != Terminated
    requires to.Some? && to.value.JoinList? ==>
               to.value.tid < |s.threads| && s.threads[to.value.tid].status != Terminated
    ensures JoinsLive(s')
  {
    forall u: Tid | ListOf(s', JoinList(u)) != [] ensures u < |s'.threads| && s'.threads[u].status != Terminated {
      var x := ListOf(s', JoinList(u))[0];
      assert x in ListOf(s', JoinList(u));
      assert x == t || ListOf(s, JoinList(u)) != [];
    }
  }

  lemma DelayTicksInv(s: State, n: nat)
    requires Inv(s) && s.threads[s.running].status == Running
    ensures Inv(DelayTicks(s, n))
  {
    DelayTicksPlaced(s, n);
    MovedJoins(s, DelayTicks(s, n), s.running, Some(SleepList), s.threads[s.running].(status := Wait, sleepTicks := n));
  }

  lemma WakeInv(s: State, from: ListId, t: Tid)
    requires Inv(s) && t in ListOf(s, from) && t < |s.threads| && s.threads[t].sleepTicks == 0
    ensures Inv(Wake(s, from, t))
  {
    WakePlaced(s, from, t);
    MovedJoins(s, Wake(s, from, t), t, Some(ReadyList(s.threads[t].priority)), s.threads[t].(status := Ready));
  }

  lemma WakeUpInv(s: State, w: nat)
    requires Inv(s)
    ensures Below(ListOf(s, WaitList(w)), |s.threads|) && Inv(WakeUp(s, WaitList(w)))
  {
    PlacedInTable(s);
    var q := ListOf(s, WaitList(w));
    assert Below(q, |s.threads|);
    if q != [] {
      var t := q[FirstHighest(s.threads, q)];
      assert t in q;
      OnItsList(s, t, WaitList(w));
      WakeInv(s, WaitList(w), t);
    }
  }

  /** The threads of a wait or join list can all be woken. */
  lemma WholeListWakeable(s: State, id: ListId)
    requires Placed(s) && (id.WaitList? || id.JoinList?)
    ensures Below(ListOf(s, id), |s.threads|) && Wakeable(s, id, ListOf(s, id))
  {
    PlacedInTable(s);
    var q := ListOf(s, id);
    assert Below(q, |s.threads|);
    forall i | 0 <= i < |q| ensures q[i] in q && s.threads[q[i]].sleepTicks == 0 {
      OnItsList(s, q[i], id);
    }
  }

  lemma WokenJoins(s: State, s': State, from: ListId, ts: seq<Tid>)
    requires Inv(s) && Woken(s, s', from, ts) && Placed(s')
    ensures JoinsLive(s')
  {
    forall u: Tid | ListOf(s', JoinList(u)) != [] ensures u < |s'.threads| && s'.threads[u].status != Terminated {
      var x := ListOf(s', JoinList(u))[0];
      assert x in ListOf(s', JoinList(u));
      assert x in ListOf(s, JoinList(u));
      assert ListOf(s, JoinList(u)) != [];
    }
  }

  lemma WakeUpAllInv(s: State, w: nat)
    requires Inv(s)
    ensures Below(ListOf(s, WaitList(w)), |s.threads|)
    ensures Inv(WakeMany(s, WaitList(w), ListOf(s, WaitList(w))))
  {
    WholeListWakeable(s, WaitList(w));
    WakeManyWoken(s, WaitList(w), ListOf(s, WaitList(w)));
    WokenJoins(s, WakeMany(s, WaitList(w), ListOf(s, WaitList(w))), WaitList(w), ListOf(s, WaitList(w)));
  }

  lemma TicksUpdateInv(s: State)
    requires Inv(s)
    ensures Inv(TicksUpdate(s))
  {
    var s' := TicksUpdate(s);
    SameListsPlaced(s, s');
    forall u: Tid | ListOf(s', JoinList(u)) != [] ensures u < |s'.threads| && s'.threads[u].status != Terminated {
      assert ListOf(s', JoinList(u)) == ListOf(s, JoinList(u));
    }
  }

  lemma JoinInv(s: State, t: Tid)
    requires Inv(s) && s.threads[s.running].status == Running
    ensures Inv(Join(s, t))
  {
    if t < |s.threads| && s.threads[t].status != Terminated {
      PrepareToWaitInv(s, JoinList(t));
    }
  }

  lemma NoMembersEmpty(q: seq<Tid>)
    ensures q == [] <==> forall x :: x !in q
  {
    assert q != [] ==> q[0] in q;
  }

  lemma ExitInv(s: State)
    requires Inv(s) && s.threads[s.running].status == Running
    ensures InTable(s) && Inv(Exit(s))
  {
    PlacedInTable(s);
    var id := JoinList(s.running);
    var ts := ListOf(s, id);
    WholeListWakeable(s, id);
    WakeManyWoken(s, id, ts);
    var s1 := WakeMany(s, id, ts);
    OnNoList(s, s.running);
    assert s1.threads[s1.running].status == Running;
    OnNoList(s1, s1.running);
    var th := s1.threads[s1.running].(status := Terminated);
    RelinkPlaced(s1, s1.running, None, None, th);
    WokenJoins(s, s1, id, ts);
    assert ListOf(s1, id) == [] by {
      assert forall x :: x !in ListOf(s1, id);
      NoMembersEmpty(ListOf(s1, id));
    }
    var s' := Exit(s);
    forall u: Tid | ListOf(s', JoinList(u)) != [] ensures u < |s'.threads| && s'.threads[u].status != Terminated {
      RelinkLists(s1, s1.running, None, None, th, JoinList(u));
    }
  }

  /** Replacing one record that stays as it is for the lists. */
  lemma SameListsInv(s: State, s': State)
    requires Inv(s) && s'.lists == s.lists && s'.running == s.running && |s'.threads| == |s.threads|
    requires forall t :: 0 <= t < |s.threads| ==>
      var th, th' := s.threads[t], s'.threads[t];
      && th'.status == th.status && th'.sleepTicks <= th.sleepTicks && Sane(th')
      && (th.status == Ready ==> th'.priority == th.priority)
    ensures Inv(s')
  {
    SameListsPlaced(s, s');
    forall u: Tid | ListOf(s', JoinList(u)) != [] ensures u < |s'.threads| && s'.threads[u].status != Terminated {
      assert ListOf(s', JoinList(u)) == ListOf(s, JoinList(u));
    }
  }

  lemma MarkInheritedInv(s: State, owner: Tid)
    requires Inv(s) && owner < |s.threads|
    ensures var s1 := MarkInherited(s, owner);
            && Inv(s1) && s1.lists == s.lists && s1.running == s.running && |s1.threads| == |s.threads|
            && forall t :: 0 <= t < |s.threads| ==>
                 && s1.threads[t].status == s.threads[t].status
                 && s1.threads[t].sleepTicks == s.threads[t].sleepTicks
                 && s1.threads[t].priority == s.threads[t].priority
  {
    SameListsInv(s, MarkInherited(s, owner));
  }

  /** Raising the owner's priority keeps it on the ready list of its priority,
      wherever the owner is. */
  lemma InheritPriorityInv(s: State, owner: Tid)
    requires Inv(s) && owner < |s.threads|
    ensures Inv(InheritPriority(s, owner))
  {
    var me := s.threads[s.running];
    var s1 := MarkInherited(s, owner);
    MarkInheritedInv(s, owner);
    var th := s1.threads[owner];
    var up := th.(priority := me.priority);
    if me.priority > th.priority {
      var id := ReadyList(th.priority);
      if owner in ListOf(s1, id) {
        OnItsList(s1, owner, id);
        RelinkPlaced(s1, owner, Some(id), Some(ReadyList(me.priority)), up);
        MovedJoins(s1, InheritPriority(s, owner), owner, Some(ReadyList(me.priority)), up);
      } else {
        assert th.status != Ready by {
          if th.status == Ready {
            assert OnSomeList(s1, owner);
            var at :| owner in ListOf(s1, at);
            OnItsList(s1, owner, at);
          }
        }
        SameListsInv(s1, s1.(threads := s1.threads[owner := up]));
      }
    }
  }

  lemma ResetInheritedPriorityInv(s: State)
    requires Inv(s) && s.threads[s.running].status == Running
    ensures Inv(ResetInheritedPriority(s))
  {
    SameListsInv(s, ResetInheritedPriority(s));
  }

  lemma CreateInv(s: State, r: Request)
    requires Inv(s)
    ensures Inv(Create(s, r))
  {
    var t := FreeSlot(s.threads, 0);
    if CreateOutcome(s, r).Ok? {
      OnNoList(s, t);
      assert ListOf(s, JoinList(t)) == [];
      var s1 := SetList(s, JoinList(t), []);
      assert forall id :: ListOf(s1, id) == ListOf(s, id);
      CreatePlaced(s, s1, t, NewThread(r));
    }
  }

  lemma CreatePlaced(s: State, s1: State, t: Tid, th: Thread)
    requires Inv(s) && t < |s.threads| && LinkedOn(s, t, None) && Sane(th) && Fits(th, SleepList)
    requires s1.threads == s.threads && s1.running == s.running && forall id :: ListOf(s1, id) == ListOf(s, id)
    ensures Inv(Relink(s1, t, None, Some(SleepList), th))
  {
    assert LinkedOnce(s1) && Fitting(s1);
    forall x | 0 <= x < |s1.threads| && s1.threads[x].status in {Wait, Ready} ensures OnSomeList(s1, x) {
      assert OnSomeList(s, x);
      var id :| x in ListOf(s, id);
      assert x in ListOf(s1, id);
    }
    assert Records(s1) && JoinsLive(s1);
    RelinkPlaced(s1, t, None, Some(SleepList), th);
    MovedJoins(s1, Relink(s1, t, None, Some(SleepList), th), t, Some(SleepList), th);
  }

  // ------------------------------------------------------------- __schedule

  /** After the first part no thread has status RUNNING. */
  lemma StopCurrentInv(s: State)
    requires Inv(s)
    ensures InTable(s) && Inv(StopCurrent(s)) && StopCurrent(s).running == s.running
    ensures forall t :: 0 <= t < |s.threads| ==> StopCurrent(s).threads[t].status != Running
    ensures |StopCurrent(s).threads| == |s.threads|
  {
    PlacedInTable(s);
    if s.threads[s.running].status == Running {
      PrepareToWaitInv(s, SleepList);
      PrepareToWaitPlaced(s, SleepList);
    }
  }

  /** The sweep makes ready exactly the sleepers without ticks. */
  lemma CandidatesInv(s: State)
    requires Inv(s)
    ensures InTable(s) && Inv(Candidates(s))
    ensures var s1 := StopCurrent(s);
            && Below(ListOf(s1, SleepList), |s1.threads|)
            && Woken(s1, Candidates(s), SleepList, Rested(s1.threads, ListOf(s1, SleepList)))
    ensures forall t :: 0 <= t < |s.threads| ==> Candidates(s).threads[t].status != Running
    ensures |Candidates(s).threads| == |s.threads|
  {
    StopCurrentInv(s);
    var s1 := StopCurrent(s);
    RestedWakeable(s1);
    var ts := Rested(s1.threads, ListOf(s1, SleepList));
    WakeManyWoken(s1, SleepList, ts);
    WokenJoins(s1, Candidates(s), SleepList, ts);
  }

  lemma DispatchInv(s: State, p: nat)
    requires Inv(s) && ListOf(s, ReadyList(p)) != []
    requires forall t :: 0 <= t < |s.threads| ==> s.threads[t].status != Running
    ensures ListOf(s, ReadyList(p))[0] < |s.threads| && Inv(Dispatch(s, p))
    ensures Dispatch(s, p).threads[Dispatch(s, p).running].status == Running
    ensures Moved(s.(running := ListOf(s, ReadyList(p))[0]), Dispatch(s, p), ListOf(s, ReadyList(p))[0], None,
                  s.threads[ListOf(s, ReadyList(p))[0]].(status := Running))
  {
    var t := ListOf(s, ReadyList(p))[0];
    assert t in ListOf(s, ReadyList(p));
    OnItsList(s, t, ReadyList(p));
    var s1 := s.(running := t);
    assert forall id :: ListOf(s1, id) == ListOf(s, id);
    assert LinkedOnce(s1) && Fitting(s1) && Records(s1) && JoinsLive(s1);
    forall x | 0 <= x < |s1.threads| && s1.threads[x].status in {Wait, Ready} ensures OnSomeList(s1, x) {
      assert OnSomeList(s, x);
      var id :| x in ListOf(s, id);
      assert x in ListOf(s1, id);
    }
    var th := s.threads[t].(status := Running);
    RelinkPlaced(s1, t, Some(ReadyList(p)), None, th);
    MovedJoins(s1, Dispatch(s, p), t, None, th);
  }

  lemma ScheduleInv(s: State)
    requires Inv(s) && (PlacedInTable(s); CanSchedule(s))
    ensures InTable(s) && Inv(Schedule(s))
    ensures Schedule(s).threads[Schedule(s).running].status == Running
  {
    CandidatesInv(s);
    DispatchInv(Candidates(s), HighestReady(Candidates(s), KTHREAD_PRI_MAX));
  }

  // -------------------------------------------------- priority inheritance

  /** Inheritance raises the owner to the priority of the waiter, if that is
      higher, and changes no other priority. */
  lemma InheritRaises(s: State, owner: Tid)
    requires s.running < |s.threads| && owner < |s.threads|
    ensures var s' := InheritPriority(s, owner);
            && |s'.threads| == |s.threads|
            && forall t: Tid :: t < |s.threads| ==>
                 s'.threads[t].priority ==
                   if t == owner && s.threads[s.running].priority > s.threads[t].priority
                   then s.threads[s.running].priority else s.threads[t].priority
  {}

  /** Exactly these fields change: the owner is marked and raised, and if it was not
      marked yet, the waiter saves its own priority. */
  lemma InheritRecords(s: State, owner: Tid)
    requires s.running < |s.threads| && owner < |s.threads|
    ensures var s', me, th := InheritPriority(s, owner), s.threads[s.running], s.threads[owner];
            && s'.running == s.running && |s'.threads| == |s.threads|
            && s'.threads[owner].priorityInherited && s'.threads[owner].status == th.status
            && (!th.priorityInherited ==> s'.threads[s.running].originalPriority == me.priority)
            && s'.threads[s.running].status == me.status && s'.threads[s.running].sleepTicks == me.sleepTicks
            && forall x: Tid :: x < |s.threads| && x != owner && x != s.running ==> s'.threads[x] == s.threads[x]
  {}

  /** The owner's priority once it has inherited from the running thread and has
      then reset its priority. */
  ghost function ResetAfterInherit(s: State, owner: Tid): nat
    requires s.running < |s.threads| && owner < |s.threads|
  {
    InheritRaises(s, owner);
    ResetInheritedPriority(InheritPriority(s, owner).(running := owner)).threads[owner].priority
  }

  /** The reset gives the owner its priority back exactly when the priority it has
      saved happens to be the one it has: thread_inherit_priority saves the
      priority of the waiter, in the waiter. */
  lemma RestoredIff(s: State, owner: Tid)
    requires s.running < |s.threads| && owner < |s.threads| && owner != s.running
    ensures ResetAfterInherit(s, owner) == s.threads[owner].priority <==>
              s.threads[owner].originalPriority == s.threads[owner].priority
  {}

  /** A thread of priority 3 that a thread of priority 5 waits for ends up with
      priority 0. */
  lemma InheritanceNotUndone()
    ensures var waiter, owner := Thread(Running, 5, 0, false, 0, true), Thread(Ready, 3, 0, false, 0, true);
            ResetAfterInherit(State(map[ReadyList(3) := [1]], [waiter, owner], 0), 1) == 0
  {}
}

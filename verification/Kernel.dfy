/** The scheduler's code in place (kernel/kernel.c).

The lists, the thread table and the running pointer are fields that the methods
update step by step, with the loops of the source.  Each method is proved to
have the effect of the step of module Scheduling that carries its name.  A sweep
with list_for_each_safe visits the nodes that were on the list when it began, in
order (module IntrusiveList), so it runs over a copy of the queue.
*/
module KernelCode {
  import opened Basics
  import opened Scheduling
  import opened SchedulerSteps

  class Kernel {
    var lists: map<ListId, seq<Tid>>
    const threads: array<Thread>
    var running: Tid

    ghost function St(): State
      reads this, threads
    {
      State(lists, threads[..], running)
    }

    function Queue(id: ListId): seq<Tid>
      reads this
    {
      if id in lists then lists[id] else []
    }

    /** list_add. */
    method ListAdd(t: Tid, id: ListId)
      modifies this`lists
      ensures lists == old(lists)[id := old(Queue(id)) + [t]]
    {
      lists := lists[id := Queue(id) + [t]];
    }

    /** list_del, from the list that holds the thread. */
    method ListDel(t: Tid, id: ListId)
      modifies this`lists
      ensures lists == old(lists)[id := Without(old(Queue(id)), t)]
    {
      lists := lists[id := Without(Queue(id), t)];
    }

    /** prepare_to_wait. */
    method PrepareToWait(id: ListId, t: Tid)
      requires t < threads.Length
      modifies this`lists, threads
      ensures St() == Scheduling.PrepareToWait(old(St()), id, t)
    {
      ListAdd(t, id);
      threads[t] := threads[t].(status := Wait);
    }

    /** The move to the ready list shared by every wake-up. */
    method MoveToReady(t: Tid, from: ListId)
      requires t < threads.Length
      modifies this`lists, threads
      ensures St() == Wake(old(St()), from, t)
    {
      ListDel(t, from);
      ListAdd(t, ReadyList(threads[t].priority));
      threads[t] := threads[t].(status := Ready);
    }

    /** finish_wait. */
    method FinishWait(t: Tid, from: ListId)
      requires t < threads.Length
      modifies this`lists, threads
      ensures St() == if t == running then old(St()) else Wake(old(St()), from, t)
    {
      if t != running {
        MoveToReady(t, from);
      }
    }

    /** wake_up: the loop keeps the first thread of the highest priority seen. */
    method WakeUp(id: ListId)
      requires InTable(St())
      modifies this`lists, threads
      ensures Below(ListOf(old(St()), id), |old(St()).threads|)
      ensures St() == Scheduling.WakeUp(old(St()), id)
    {
      var q := Queue(id);
      assert q == ListOf(St(), id) && Below(q, threads.Length);
      if q == [] {
        return;
      }
      var best, i := 0, 1;
      while i < |q|
        invariant 1 <= i <= |q| && best == FirstHighest(threads[..], q[..i])
      {
        assert q[..i + 1][..i] == q[..i];
        if threads[q[i]].priority > threads[q[best]].priority {
          best := i;
        }
        i := i + 1;
      }
      assert q[..i] == q;
      MoveToReady(q[best], id);
    }

    /** The sweep of wake_up_all, and of thread_join_handler. */
    method WakeUpAll(id: ListId)
      requires InTable(St())
      modifies this`lists, threads
      ensures Below(ListOf(old(St()), id), |old(St()).threads|)
      ensures St() == WakeMany(old(St()), id, ListOf(old(St()), id))
    {
      var q := Queue(id);
      assert q == ListOf(St(), id) && Below(q, threads.Length);
      var i := 0;
      while i < |q|
        invariant i <= |q| && running == old(running)
        invariant WakeMany(St(), id, q[i..]) == WakeMany(old(St()), id, q)
      {
        assert q[i..][0] == q[i] && q[i..][1..] == q[i + 1..];
        MoveToReady(q[i], id);
        i := i + 1;
      }
    }

    /** sys_delay_ticks. */
    method DelayTicks(ticks: nat)
      requires running < threads.Length
      modifies this`lists, threads
      ensures St() == Scheduling.DelayTicks(old(St()), ticks)
    {
      threads[running] := threads[running].(sleepTicks := ticks);
      threads[running] := threads[running].(status := Wait);
      ListAdd(running, SleepList);
    }

    /** sys_pthread_join, with its search for a thread that already waits to join
        the caller. */
    method PthreadJoin(t: Tid) returns (r: Result<()>)
      requires running < threads.Length
      modifies this`lists, threads
      ensures St() == Scheduling.Join(old(St()), t)
      ensures var live := t < threads.Length && old(threads[..])[t].status != Terminated;
              && (r == Err(ESRCH) <==> !live)
              && (r == Err(EINVAL) <==> live && !old(threads[..])[t].joinable)
              && (r == Err(EDEADLK) <==>
                    live && old(threads[..])[t].joinable && t in old(Queue(JoinList(running))))
              && (r == Ok(()) <==>
                    live && old(threads[..])[t].joinable && t !in old(Queue(JoinList(running))))
      ensures r.Ok? ==> Queue(JoinList(t)) == old(Queue(JoinList(t))) + [running] && threads[running].status == Wait
      ensures !r.Ok? ==> St() == old(St())
    {
      if t >= threads.Length || threads[t].status == Terminated {
        return Err(ESRCH);
      }
      if !threads[t].joinable {
        return Err(EINVAL);
      }
      var q, i := Queue(JoinList(running)), 0;
      while i < |q|
        invariant i <= |q| && t !in q[..i]
      {
        if q[i] == t {
          return Err(EDEADLK);
        }
        i := i + 1;
      }
      assert q[..i] == q;
      PrepareToWait(JoinList(t), running);
      return Ok(());
    }

    /** thread_create, as far as the scheduler is concerned. */
    method ThreadCreate(r: Request) returns (outcome: Result<Tid>)
      modifies this`lists, threads
      ensures outcome == CreateOutcome(old(St()), r) && St() == Create(old(St()), r)
    {
      if !GoodAttributes(r) {
        return Err(EINVAL);
      }
      var tid := 0;
      while tid < threads.Length && threads[tid].status != Terminated
        invariant tid <= threads.Length && FreeSlot(threads[..], tid) == FreeSlot(threads[..], 0)
      {
        tid := tid + 1;
      }
      if tid >= threads.Length {
        return Err(EAGAIN);
      }
      if !r.stack {
        return Err(ENOMEM);
      }
      threads[tid] := NewThread(r);
      lists := lists[JoinList(tid) := []];
      ListAdd(tid, SleepList);
      return Ok(tid);
    }

    /** thread_join_handler: every joiner that asked for it gets the return value
        and is finished, one by one, and the running thread leaves the system. */
    method ThreadJoinHandler(retval: int, asked: array<bool>, given: array<int>)
      requires InTable(St()) && running !in Queue(JoinList(running))
      requires asked.Length == given.Length == threads.Length
      modifies this`lists, threads, given
      ensures InTable(old(St())) && St() == Exit(old(St()))
      ensures given[..] == Handed(old(given[..]), asked[..], old(Queue(JoinList(running))), retval)
    {
      var q, id := Queue(JoinList(running)), JoinList(running);
      assert q == ListOf(St(), id) && Below(q, threads.Length);
      WakeManyTable(St(), id, q);
      FinishJoiners(q, id, retval, asked, given);
      threads[running] := threads[running].(status := Terminated);
    }

    /** Its sweep over the join list. */
    method FinishJoiners(q: seq<Tid>, id: ListId, retval: int, asked: array<bool>, given: array<int>)
      requires Below(q, threads.Length) && running !in q && asked.Length == given.Length == threads.Length
      modifies this`lists, threads, given
      ensures St() == WakeMany(old(St()), id, q)
      ensures given[..] == Handed(old(given[..]), asked[..], q, retval)
    {
      ghost var rest := q;
      var i := 0;
      while i < |q|
        invariant i <= |q| && running == old(running)
        invariant rest == q[i..] && Below(rest, threads.Length)
        invariant WakeMany(St(), id, rest) == WakeMany(old(St()), id, q)
        invariant given[..] == Handed(old(given[..]), asked[..], q[..i], retval)
      {
        assert rest[0] == q[i] != running;
        rest := rest[1..];
        HandedStep(old(given[..]), asked[..], q, i, retval);
        FinishJoiner(q[i], id, retval, asked, given);
        i := i + 1;
      }
      assert q[..i] == q;
    }

    method FinishJoiner(t: Tid, id: ListId, retval: int, asked: array<bool>, given: array<int>)
      requires t < threads.Length && t != running && asked.Length == given.Length == threads.Length
      modifies this`lists, threads, given
      ensures St() == Wake(old(St()), id, t)
      ensures given[..] == if asked[t] then old(given[..])[t := retval] else old(given[..])
    {
      if asked[t] {
        given[t] := retval;
      }
      FinishWait(t, id);
    }

    /** threads_ticks_update. */
    method ThreadsTicksUpdate()
      requires Below(Queue(SleepList), threads.Length) && NoDup(Queue(SleepList))
      modifies threads
      ensures St() == TicksUpdate(old(St()))
    {
      var q := Queue(SleepList);
      var i := 0;
      while i < |q|
        invariant i <= |q|
        invariant forall x :: 0 <= x < threads.Length ==>
          threads[x] == if x in q[..i] && old(threads[x]).sleepTicks > 0
                        then old(threads[x]).(sleepTicks := old(threads[x]).sleepTicks - 1) else old(threads[x])
      {
        var t := q[i];
        assert t !in q[..i];
        if threads[t].sleepTicks > 0 {
          threads[t] := threads[t].(sleepTicks := threads[t].sleepTicks - 1);
        }
        assert q[..i + 1] == q[..i] + [t];
        i := i + 1;
      }
      assert q[..i] == q;
      assert threads[..] == TicksUpdate(old(St())).threads;
    }

    /** thread_inherit_priority. */
    method InheritPriority(owner: Tid)
      requires running < threads.Length && owner < threads.Length
      requires NoDup(Queue(ReadyList(threads[owner].priority)))
      modifies this`lists, threads
      ensures St() == Scheduling.InheritPriority(old(St()), owner)
    {
      if !threads[owner].priorityInherited {
        threads[running] := threads[running].(originalPriority := threads[running].priority);
        threads[owner] := threads[owner].(priorityInherited := true);
      }
      assert St() == MarkInherited(old(St()), owner);
      if threads[running].priority > threads[owner].priority {
        MoveIfListed(owner, ReadyList(threads[owner].priority), ReadyList(threads[running].priority));
        threads[owner] := threads[owner].(priority := threads[running].priority);
      }
    }

    /** Its sweep over the ready list of the owner's old priority. */
    method MoveIfListed(owner: Tid, low: ListId, high: ListId)
      requires NoDup(Queue(low))
      modifies this`lists
      ensures lists == if owner in old(Queue(low)) then MovedLists(old(lists), owner, low, high) else old(lists)
    {
      var q := Queue(low);
      var i := 0;
      while i < |q|
        invariant i <= |q|
        invariant lists == if owner in q[..i] then MovedLists(old(lists), owner, low, high) else old(lists)
      {
        assert q[..i + 1] == q[..i] + [q[i]];
        if q[i] == owner {
          assert owner !in q[..i];
          ListDel(owner, low);
          ListAdd(owner, high);
        }
        i := i + 1;
      }
      assert q[..i] == q;
    }

    /** thread_reset_inherited_priority. */
    method ResetInherited()
      requires running < threads.Length
      modifies threads
      ensures St() == ResetInheritedPriority(old(St()))
    {
      if threads[running].priorityInherited {
        threads[running] := threads[running].(priority := threads[running].originalPriority);
        threads[running] := threads[running].(priorityInherited := false);
      }
    }

    static ghost function MovedLists(ls: map<ListId, seq<Tid>>, t: Tid, from: ListId, to: ListId): map<ListId, seq<Tid>>
    {
      var s := State(ls, [], 0);
      var s1 := SetList(s, from, Without(ListOf(s, from), t));
      SetList(s1, to, ListOf(s1, to) + [t]).lists
    }

    /** The sweep over the sleep list inside __schedule. */
    method SweepSleepers()
      requires Below(Queue(SleepList), threads.Length)
      modifies this`lists, threads
      ensures St() == WakeSleepers(old(St()))
    {
      var q := Queue(SleepList);
      ghost var rest := q;
      var i := 0;
      while i < |q|
        invariant i <= |q| && running == old(running)
        invariant rest == q[i..] && Below(rest, threads.Length)
        invariant Swept(St(), rest) == WakeSleepers(old(St()))
      {
        var t := q[i];
        SweepStep(St(), rest);
        rest := rest[1..];
        if threads[t].sleepTicks == 0 {
          MoveToReady(t, SleepList);
        }
        i := i + 1;
      }
    }

    /** The search for a ready list that contains runnable threads. */
    method FindReady() returns (pri: int)
      ensures pri == HighestReady(St(), KTHREAD_PRI_MAX)
    {
      pri := KTHREAD_PRI_MAX;
      while pri >= 0
        invariant -1 <= pri <= KTHREAD_PRI_MAX
        invariant HighestReady(St(), KTHREAD_PRI_MAX) == HighestReady(St(), pri)
      {
        if Queue(ReadyList(pri)) != [] {
          return;
        }
        pri := pri - 1;
      }
    }

    /** The selection of the first thread of a ready list. */
    method DispatchFirst(pri: nat)
      requires Queue(ReadyList(pri)) != [] && Queue(ReadyList(pri))[0] < threads.Length
      modifies this, threads
      ensures St() == Dispatch(old(St()), pri)
    {
      running := Queue(ReadyList(pri))[0];
      threads[running] := threads[running].(status := Running);
      ListDel(running, ReadyList(pri));
    }

    /** __schedule.  If every ready list is empty, the source goes on with the list
        before the first one; here the method then stops with `found` false. */
    method Schedule() returns (found: bool)
      requires InTable(St())
      modifies this, threads
      ensures InTable(old(St())) && (found <==> CanSchedule(old(St())))
      ensures St() == if found then Scheduling.Schedule(old(St())) else Candidates(old(St()))
    {
      ghost var s := St();
      if threads[running].status == Running {
        PrepareToWait(SleepList, running);
      }
      ghost var s1 := StopCurrent(s);
      StopCurrentTable(s);
      assert Below(ListOf(s1, SleepList), threads.Length);
      SweepSleepers();
      assert St() == Candidates(s);
      var pri := FindReady();
      if pri < 0 {
        return false;
      }
      WakeManyTable(s1, SleepList, Rested(s1.threads, ListOf(s1, SleepList)));
      assert Below(ListOf(St(), ReadyList(pri)), threads.Length);
      DispatchFirst(pri);
      return true;
    }
  }

  /** The values given to joiners: those of the queue that asked for it have got v,
      and no other value has changed. */
  ghost function Handed(given: seq<int>, asked: seq<bool>, q: seq<Tid>, v: int): seq<int>
    requires |asked| == |given|
  {
    seq(|given|, t requires 0 <= t < |given| => if t in q && asked[t] then v else given[t])
  }

  lemma HandedStep(given: seq<int>, asked: seq<bool>, q: seq<Tid>, i: nat, v: int)
    requires |asked| == |given| && i < |q| && q[i] < |given|
    ensures var before := Handed(given, asked, q[..i], v);
            Handed(given, asked, q[..i + 1], v) == if asked[q[i]] then before[q[i] := v] else before
  {
    assert q[..i + 1] == q[..i] + [q[i]];
  }

  /** The state once the sleepers `q` still to be visited have been swept. */
  ghost function Swept(s: State, q: seq<Tid>): State
    requires Below(q, |s.threads|)
  {
    WakeMany(s, SleepList, Rested(s.threads, q))
  }

  /** One iteration of the sweep over the sleep list. */
  lemma SweepStep(s: State, q: seq<Tid>)
    requires q != [] && Below(q, |s.threads|)
    ensures Below(q[1..], |s.threads|)
    ensures Swept(s, q) == Swept(if s.threads[q[0]].sleepTicks == 0 then Wake(s, SleepList, q[0]) else s, q[1..])
  {
    if s.threads[q[0]].sleepTicks == 0 {
      var s1 := Wake(s, SleepList, q[0]);
      RestedSameTicks(s.threads, s1.threads, q[1..]);
      var r := Rested(s.threads, q);
      assert r[0] == q[0] && r[1..] == Rested(s.threads, q[1..]);
    }
  }

  lemma {:induction false} RestedSameTicks(a: seq<Thread>, b: seq<Thread>, q: seq<Tid>)
    requires |a| == |b| && Below(q, |a|)
    requires forall t :: 0 <= t < |a| ==> a[t].sleepTicks == b[t].sleepTicks
    ensures Rested(a, q) == Rested(b, q)
  {
    if q != [] {
      RestedSameTicks(a, b, q[1..]);
    }
  }
}

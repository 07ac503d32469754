/** Whole runs of semaphores, mutexes and message queues over the scheduler: no
    wake-up is lost, and what each object goes through. */
module BlockingRuns {
  import opened Basics
  import opened Scheduling
  import opened SchedulerSteps
  import opened SchedulerRuns
  import opened SchedulerPolicy
  import opened PriorityFifo
  import opened Blocking

  ghost predicate ActsAt(acts: seq<Action>, run: seq<Sys>, i: nat)
    requires i < |acts| && |run| == |acts| + 1
  {
    Can(run[i], acts[i]) && run[i + 1] == Do(run[i], acts[i])
  }

  ghost predicate IsSysRun(acts: seq<Action>, run: seq<Sys>) {
    && |run| == |acts| + 1 && Sound(run[0])
    && forall i: nat {:trigger ActsAt(acts, run, i)} :: i < |acts| ==> ActsAt(acts, run, i)
  }

  /** With fresh objects and no pending call, any scheduler state is a start. */
  lemma StartSound(s: Sys)
    requires Inv(s.k) && s.pending == map[] && (forall o :: o in s.objs ==> ObjectOk(s.objs[o]))
    requires forall w :: IsGate(s, w) ==> Waiters(s, w) == []
    ensures Sound(s)
  {
    forall o | o in s.objs ensures ObjectSound(s, o) {
      assert IsGate(s, Gate(o, 0)) && IsGate(s, Gate(o, 1));
    }
  }

  /** Step k of a run. */
  lemma RunStepSound(acts: seq<Action>, run: seq<Sys>, k: nat, s: Sys, s': Sys)
    requires IsSysRun(acts, run) && k < |acts| && s == run[k] && s' == run[k + 1] && Sound(s)
    ensures Sound(s')
  {
    assert ActsAt(acts, run, k);
    DoSound(s, acts[k]);
  }

  /** No wakeup is lost in any state of any run, whatever the interleaving. */
  lemma {:induction false} RunSound(acts: seq<Action>, run: seq<Sys>, n: nat)
    requires IsSysRun(acts, run) && n < |run|
    ensures Sound(run[n])
  {
    if n > 0 {
      RunSound(acts, run, n - 1);
      RunStepSound(acts, run, n - 1, run[n - 1], run[n]);
    }
  }

  /** Progress: whenever a thread waits although a caller could go ahead, a woken
      thread that has yet to retry is runnable, so that the scheduler will
      dispatch it. */
  lemma WaitersProgress(acts: seq<Action>, run: seq<Sys>, n: nat, o: nat, side: nat) returns (t: Tid)
    requires IsSysRun(acts, run) && n < |run| && o in run[n].objs && side < 2
    requires Waiters(run[n], Gate(o, side)) != [] && Tokens(run[n].objs[o], side) > 0
    ensures t in Retrying(run[n], Gate(o, side)) && Runnable(run[n].k, t)
  {
    var s := run[n];
    RunSound(acts, run, n);
    assert ObjectSound(s, o) && NoLostWakeup(s, o, side);
    t :| t in Retrying(s, Gate(o, side));
    PendingEither(s, t);
  }

  // ------------------------------------------------ what the objects go through

  /** The object after an action, for the cases where it changes. */
  ghost function ObjAfter(s: Sys, a: Action, o: nat): Object
    requires Can(s, a) && o in s.objs
  {
    var obj := s.objs[o];
    match a
    case KernelStep(_) => obj
    case Down(p) => if p == o && obj.count > 0 then Semaphore(obj.count - 1) else obj
    case TryDown(p) => if p == o && obj.count > 0 then Semaphore(obj.count - 1) else obj
    case Up(p) => if p == o && obj.count < INT32_MAX - 1 then Semaphore(obj.count + 1) else obj
    case Lock(p) => if p == o && obj.owner.None? then obj.(owner := Some(s.k.running)) else obj
    case Unlock(p) => if p == o && obj.owner == Some(s.k.running) then obj.(owner := None) else obj
    case Send(p, m, _) => if p == o && |obj.msgs| < obj.size then obj.(msgs := obj.msgs + [m]) else obj
    case Receive(p, _) => if p == o && obj.msgs != [] then obj.(msgs := TakeOut(obj.msgs, Pick(obj.msgs))) else obj
  }

  lemma DoObj(s: Sys, a: Action, o: nat)
    requires Can(s, a) && o in s.objs
    ensures o in Do(s, a).objs && Do(s, a).objs[o] == ObjAfter(s, a, o)
  {}

  lemma RunObj(acts: seq<Action>, run: seq<Sys>, i: nat, o: nat)
    requires IsSysRun(acts, run) && i < |acts| && o in run[i].objs
    ensures Can(run[i], acts[i]) && o in run[i + 1].objs && run[i + 1].objs[o] == ObjAfter(run[i], acts[i], o)
  {
    assert ActsAt(acts, run, i);
    DoObj(run[i], acts[i], o);
  }

  /** Mutual exclusion: from the moment a thread owns a mutex, and as long as it
      does not unlock it, it stays the owner, so that every attempt to lock the
      mutex in between fails. */
  lemma {:induction false} MutexExclusion(acts: seq<Action>, run: seq<Sys>, i: nat, j: nat, o: nat, t: Tid)
    requires IsSysRun(acts, run) && i <= j < |run| && o in run[i].objs
    requires run[i].objs[o].Mutex? && run[i].objs[o].owner == Some(t)
    requires forall n {:trigger acts[n]} :: i <= n < j ==> !(acts[n] == Unlock(o) && run[n].k.running == t)
    ensures o in run[j].objs && run[j].objs[o].Mutex? && run[j].objs[o].owner == Some(t)
  {
    if i < j {
      MutexExclusion(acts, run, i, j - 1, o, t);
      RunObj(acts, run, j - 1, o);
    }
  }

  /** Completed downs and successful ups of semaphore o among the first n. */
  ghost function Downs(acts: seq<Action>, run: seq<Sys>, o: nat, n: nat): nat
    requires n <= |acts| && n < |run|
  {
    if n == 0 then 0
    else Downs(acts, run, o, n - 1) +
         if (acts[n - 1] == Down(o) || acts[n - 1] == TryDown(o)) && CountOf(run[n - 1], o) > 0 then 1 else 0
  }

  ghost function Ups(acts: seq<Action>, run: seq<Sys>, o: nat, n: nat): nat
    requires n <= |acts| && n < |run|
  {
    if n == 0 then 0
    else Ups(acts, run, o, n - 1) + if acts[n - 1] == Up(o) && CountOf(run[n - 1], o) < INT32_MAX - 1 then 1 else 0
  }

  ghost function CountOf(s: Sys, o: nat): int {
    if o in s.objs && s.objs[o].Semaphore? then s.objs[o].count else 0
  }

  /** The count is the initial value plus ups minus downs, and stays in range. */
  lemma {:induction false} SemaphoreBalance(acts: seq<Action>, run: seq<Sys>, o: nat, n: nat)
    requires IsSysRun(acts, run) && n < |run| && o in run[0].objs && run[0].objs[o].Semaphore?
    ensures o in run[n].objs && run[n].objs[o].Semaphore?
    ensures CountOf(run[n], o) == CountOf(run[0], o) + Ups(acts, run, o, n) - Downs(acts, run, o, n)
    ensures 0 <= CountOf(run[n], o) <= INT32_MAX - 1
  {
    RunSound(acts, run, n);
    if n > 0 {
      SemaphoreBalance(acts, run, o, n - 1);
      RunObj(acts, run, n - 1, o);
    }
    assert ObjectSound(run[n], o);
  }

  ghost function MsgsOf(s: Sys, o: nat): seq<Msg> {
    if o in s.objs && s.objs[o].MessageQueue? then s.objs[o].msgs else []
  }

  ghost function SizeOf(s: Sys, o: nat): nat {
    if o in s.objs && s.objs[o].MessageQueue? then s.objs[o].size else 0
  }

  /** Messages accepted by queue o, and messages handed out, among the first n. */
  ghost function Sent(acts: seq<Action>, run: seq<Sys>, o: nat, n: nat): seq<Msg>
    requires n <= |acts| && n < |run|
  {
    if n == 0 then []
    else Sent(acts, run, o, n - 1) +
         if Accepts(run[n - 1], acts[n - 1], o) then [acts[n - 1].m] else []
  }

  ghost function Received(acts: seq<Action>, run: seq<Sys>, o: nat, n: nat): seq<Msg>
    requires n <= |acts| && n < |run|
  {
    if n == 0 then []
    else Received(acts, run, o, n - 1) +
         var q := MsgsOf(run[n - 1], o);
         if Delivers(run[n - 1], acts[n - 1], o) then [q[Pick(q)]] else []
  }

  ghost predicate Accepts(s: Sys, a: Action, o: nat) {
    a.Send? && a.o == o && |MsgsOf(s, o)| < SizeOf(s, o)
  }

  ghost predicate Delivers(s: Sys, a: Action, o: nat) {
    a.Receive? && a.o == o && MsgsOf(s, o) != []
  }

  lemma QueueStep(acts: seq<Action>, run: seq<Sys>, i: nat, o: nat)
    requires IsSysRun(acts, run) && i < |acts| && o in run[i].objs && run[i].objs[o].MessageQueue?
    ensures o in run[i + 1].objs && run[i + 1].objs[o].MessageQueue? && SizeOf(run[i + 1], o) == SizeOf(run[i], o)
    ensures var q := MsgsOf(run[i], o);
            MsgsOf(run[i + 1], o) ==
              if Accepts(run[i], acts[i], o) then q + [acts[i].m]
              else if Delivers(run[i], acts[i], o) then TakeOut(q, Pick(q)) else q
  {
    RunObj(acts, run, i, o);
  }

  /** Over any interleaving a message queue is a priority FIFO: at every priority
      the messages received, followed by those still queued, are the messages
      sent, in the order sent; none is lost, duplicated or overtaken. */
  lemma {:induction false} QueueOrder(acts: seq<Action>, run: seq<Sys>, o: nat, n: nat, p: nat)
    requires IsSysRun(acts, run) && n < |run| && o in run[0].objs && run[0].objs[o].MessageQueue?
    ensures o in run[n].objs && run[n].objs[o].MessageQueue? && SizeOf(run[n], o) == SizeOf(run[0], o)
    ensures Balanced(MsgsOf(run[0], o), Sent(acts, run, o, n), Received(acts, run, o, n), MsgsOf(run[n], o), p)
  {
    var first := MsgsOf(run[0], o);
    if n == 0 {
      assert Of(first, p) + [] == [] + Of(first, p);
    } else {
      QueueOrder(acts, run, o, n - 1, p);
      QueueStep(acts, run, n - 1, o);
      var sent, got, q := Sent(acts, run, o, n - 1), Received(acts, run, o, n - 1), MsgsOf(run[n - 1], o);
      if Accepts(run[n - 1], acts[n - 1], o) {
        BalancedSend(first, sent, got, q, acts[n - 1].m, p);
        assert got + [] == got;
      } else if Delivers(run[n - 1], acts[n - 1], o) {
        BalancedReceive(first, sent, got, q, p);
        assert sent + [] == sent;
      } else {
        assert sent + [] == sent && got + [] == got;
      }
    }
  }

  /** The queue never holds more messages than its size. */
  lemma QueueBounded(acts: seq<Action>, run: seq<Sys>, o: nat, n: nat)
    requires IsSysRun(acts, run) && n < |run| && o in run[0].objs && run[0].objs[o].MessageQueue?
    ensures |MsgsOf(run[n], o)| <= SizeOf(run[0], o)
  {
    RunSound(acts, run, n);
    QueueOrder(acts, run, o, n, 0);
    assert ObjectSound(run[n], o);
  }
}

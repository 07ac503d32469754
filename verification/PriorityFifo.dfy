/** The bounded priority FIFO that a message queue is meant to be (mq_send and
    mq_receive, section 3 of the System Interfaces volume of POSIX.1-2017): the
    messages waiting, in order of arrival, from which a receiver takes the oldest
    message of the highest priority. */
module PriorityFifo {
  import opened Basics

  datatype Msg = Msg(prio: nat, data: seq<Byte>)

  /** The message received next: highest priority, and oldest among these. */
  function Pick(log: seq<Msg>): (i: nat)
    requires log != []
    ensures i < |log|
    ensures forall j :: 0 <= j < |log| ==> log[j].prio <= log[i].prio
    ensures forall j :: 0 <= j < i ==> log[j].prio < log[i].prio
  {
    if |log| == 1 then 0
    else
      var n := |log| - 1;
      var i := Pick(log[..n]);
      if log[n].prio > log[i].prio then n else i
  }

  function TakeOut(log: seq<Msg>, i: nat): seq<Msg>
    requires i < |log|
  {
    log[..i] + log[i + 1..]
  }

  /** The messages of one priority, in order. */
  function Of(log: seq<Msg>, p: nat): seq<Msg> {
    if log == [] then []
    else
      var n := |log| - 1;
      Of(log[..n], p) + if log[n].prio == p then [log[n]] else []
  }

  lemma {:induction false} OfConcat(a: seq<Msg>, b: seq<Msg>, p: nat)
    ensures Of(a + b, p) == Of(a, p) + Of(b, p)
  {
    if b == [] {
      assert a + b == a;
    } else {
      var n := |b| - 1;
      OfConcat(a, b[..n], p);
      assert (a + b)[..|a| + n] == a + b[..n];
    }
  }

  /** Taking out message i changes only the queue of its own priority. */
  lemma OfTakeOut(log: seq<Msg>, i: nat, p: nat)
    requires i < |log|
    ensures Of(log, p) == Of(log[..i], p) + Of([log[i]], p) + Of(log[i + 1..], p)
    ensures Of(TakeOut(log, i), p) == Of(log[..i], p) + Of(log[i + 1..], p)
  {
    assert log == (log[..i] + [log[i]]) + log[i + 1..];
    OfConcat(log[..i] + [log[i]], log[i + 1..], p);
    OfConcat(log[..i], [log[i]], p);
    OfConcat(log[..i], log[i + 1..], p);
  }

  lemma {:induction false} OfNone(log: seq<Msg>, p: nat)
    requires forall j :: 0 <= j < |log| ==> log[j].prio != p
    ensures Of(log, p) == []
  {
    if log != [] {
      OfNone(log[..|log| - 1], p);
    }
  }

  /** The picked message is the head of the queue of its priority. */
  lemma PickIsHead(log: seq<Msg>)
    requires log != []
    ensures var m := log[Pick(log)];
            Of(log, m.prio) == [m] + Of(TakeOut(log, Pick(log)), m.prio)
  {
    var i := Pick(log);
    var m := log[i];
    OfTakeOut(log, i, m.prio);
    OfNone(log[..i], m.prio);
    assert Of([m], m.prio) == [m];
  }

  /** The queues of the other priorities keep their messages, and those of
      higher priority are empty. */
  lemma PickLeavesOthers(log: seq<Msg>, p: nat)
    requires log != [] && p != log[Pick(log)].prio
    ensures Of(TakeOut(log, Pick(log)), p) == Of(log, p)
    ensures p > log[Pick(log)].prio ==> Of(log, p) == []
  {
    var i := Pick(log);
    OfTakeOut(log, i, p);
    OfNone([log[i]], p);
    if p > log[i].prio {
      OfNone(log, p);
    }
  }

  /** At priority p, what was there and what came in is what went out and what is
      still there, in order. */
  ghost predicate Balanced(first: seq<Msg>, sent: seq<Msg>, got: seq<Msg>, log: seq<Msg>, p: nat) {
    Of(first, p) + Of(sent, p) == Of(got, p) + Of(log, p)
  }

  lemma Extend(a: seq<Msg>, b: seq<Msg>, c: seq<Msg>, d: seq<Msg>, e: seq<Msg>)
    requires a + b == c + d
    ensures a + (b + e) == c + (d + e)
  {
    assert a + (b + e) == (a + b) + e;
    assert c + (d + e) == (c + d) + e;
  }

  lemma Shift(c: seq<Msg>, m: seq<Msg>, r: seq<Msg>)
    ensures (c + m) + r == c + (m + r)
  {}

  lemma BalancedSend(first: seq<Msg>, sent: seq<Msg>, got: seq<Msg>, log: seq<Msg>, m: Msg, p: nat)
    requires Balanced(first, sent, got, log, p)
    ensures Balanced(first, sent + [m], got, log + [m], p)
  {
    OfConcat(sent, [m], p);
    OfConcat(log, [m], p);
    Extend(Of(first, p), Of(sent, p), Of(got, p), Of(log, p), Of([m], p));
  }

  /** The queue of priority p is what the receiver takes from it and the rest. */
  lemma PickSplits(log: seq<Msg>, p: nat)
    requires log != []
    ensures Of(log, p) == Of([log[Pick(log)]], p) + Of(TakeOut(log, Pick(log)), p)
  {
    var m := log[Pick(log)];
    if p == m.prio {
      PickIsHead(log);
    } else {
      PickLeavesOthers(log, p);
    }
  }

  lemma BalancedReceive(first: seq<Msg>, sent: seq<Msg>, got: seq<Msg>, log: seq<Msg>, p: nat)
    requires Balanced(first, sent, got, log, p) && log != []
    ensures Balanced(first, sent, got + [log[Pick(log)]], TakeOut(log, Pick(log)), p)
  {
    var m, rest := [log[Pick(log)]], TakeOut(log, Pick(log));
    OfConcat(got, m, p);
    PickSplits(log, p);
    Shift(Of(got, p), Of(m, p), Of(rest, p));
  }
}

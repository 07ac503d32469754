/** Tick arithmetic (kernel/time.c, and timers_update and sys_timer_settime of
    kernel/kernel.c): two-field counters that lose or gain one tick at a time. */
module Timers {
  const SECOND: int := 1_000_000_000

  datatype Timespec = Timespec(sec: int, nsec: int)

  function Total(t: Timespec): int {
    t.sec * SECOND + t.nsec
  }

  ghost predicate Normalised(t: Timespec) {
    0 <= t.nsec < SECOND
  }

  ghost predicate NonNegative(t: Timespec) {
    t.sec >= 0 && t.nsec >= 0
  }

  /** timer_up_count by one tick of `tick` nanoseconds. */
  function UpCount(t: Timespec, tick: int): Timespec {
    var n := t.nsec + tick;
    if n >= SECOND then Timespec(t.sec + 1, n - SECOND) else Timespec(t.sec, n)
  }

  /** timer_down_count: a countdown that stops at zero. */
  function DownCount(t: Timespec, tick: int): Timespec {
    var n := t.nsec - tick;
    if n < 0 && t.sec > 0 then Timespec(t.sec - 1, n + SECOND)
    else if n <= 0 && t.sec <= 0 then Timespec(0, 0)
    else Timespec(t.sec, n)
  }

  /** The two fields count down as one number, and never below zero. */
  lemma DownCountTotal(t: Timespec, tick: int)
    requires NonNegative(t) && 0 < tick <= SECOND
    ensures NonNegative(DownCount(t, tick))
    ensures Total(DownCount(t, tick)) == if Total(t) >= tick then Total(t) - tick else 0
    ensures Total(t) == 0 <==> t == Timespec(0, 0)
  {}

  // ----------------------------------------------------------- the clock

  function ClockAfter(t: Timespec, tick: int, n: nat): Timespec {
    if n == 0 then t else UpCount(ClockAfter(t, tick, n - 1), tick)
  }

  /** After n ticks the clock is normalised and has advanced by exactly n ticks. */
  lemma {:induction false} ClockExact(t: Timespec, tick: int, n: nat)
    requires Normalised(t) && 0 < tick <= SECOND
    ensures Normalised(ClockAfter(t, tick, n))
    ensures Total(ClockAfter(t, tick, n)) == Total(t) + n * tick
  {
    if n > 0 {
      ClockExact(t, tick, n - 1);
      assert n * tick == (n - 1) * tick + tick;
    }
  }

  /** ktime_get, in milliseconds. */
  function KtimeGet(t: Timespec): int {
    t.sec * 1000 + t.nsec / 1_000_000
  }

  /** It is the clock rounded down. */
  lemma KtimeRoundsDown(t: Timespec)
    requires Normalised(t)
    ensures KtimeGet(t) == (t.sec * 1_000_000_000 + t.nsec) / 1_000_000
  {}

  // --------------------------------------------------------------- timers

  datatype Timer = Timer(enabled: bool, counter: Timespec, interval: Timespec, retTime: Timespec)

  /** sys_timer_settime for an existing timer: only a normalised value is accepted;
      the interval is not checked.  False is EINVAL. */
  function SetTime(t: Timer, value: Timespec, interval: Timespec): (bool, Timer) {
    if value.sec < 0 || value.nsec < 0 || value.nsec > 999_999_999 then (false, t)
    else (true, Timer(true, value, interval, value))
  }

  /** One timer in timers_update: does it expire on this tick, and what is left. */
  function TimerTick(t: Timer, tick: int): (bool, Timer) {
    if !t.enabled then (false, t)
    else
      var c := DownCount(t.counter, tick);
      if c.sec != 0 || c.nsec != 0 then (false, t.(counter := c, retTime := c))
      else (true, t.(enabled := t.interval.sec != 0 || t.interval.nsec != 0, counter := t.interval, retTime := c))
  }

  /** Whether the timer expires on the n-th tick from now. */
  predicate ExpiresOn(t: Timer, tick: int, n: nat)
    requires n > 0
    decreases n
  {
    if n == 1 then TimerTick(t, tick).0 else ExpiresOn(TimerTick(t, tick).1, tick, n - 1)
  }

  /** The duration of n ticks, n * tick. */
  function Lasting(n: nat, tick: int): int {
    if n == 0 then 0 else Lasting(n - 1, tick) + tick
  }

  lemma {:induction false} LastingIsProduct(n: nat, tick: int)
    ensures Lasting(n, tick) == n * tick
  {
    if n > 0 {
      LastingIsProduct(n - 1, tick);
      assert n * tick == (n - 1) * tick + tick;
    }
  }

  lemma {:induction false} TicksInSeconds(n: nat, tick: int)
    requires 0 < tick <= SECOND
    ensures 0 <= Lasting(n, tick) <= n * SECOND
  {
    if n > 0 {
      TicksInSeconds(n - 1, tick);
    }
  }

  /** The least number of ticks that add up to at least a. */
  function Ceil(a: int, tick: int): (n: nat)
    requires tick > 0
    decreases if a > 0 then a else 0
  {
    if a <= 0 then 0 else Ceil(a - tick, tick) + 1
  }

  lemma {:induction false} CeilIsLeast(a: int, tick: int, n: nat)
    requires tick > 0
    ensures Ceil(a, tick) <= n <==> a <= Lasting(n, tick)
    decreases n
  {
    if a <= 0 {
      LastingPositive(n, tick);
    } else if n > 0 {
      CeilIsLeast(a - tick, tick, n - 1);
    }
  }

  lemma CeilSmall(a: int, tick: int)
    requires tick > 0
    ensures Ceil(a, tick) == 0 <==> a <= 0
    ensures Ceil(a, tick) == 1 <==> 0 < a <= tick
  {
    if a > tick {
      assert Ceil(a - tick, tick) > 0;
    }
  }

  lemma {:induction false} LastingPositive(n: nat, tick: int)
    requires tick > 0
    ensures Lasting(n, tick) >= 0
  {
    if n > 0 {
      LastingPositive(n - 1, tick);
    }
  }

  /** Ticks until a countdown ends, from any two fields: a counter without seconds
      takes one tick at least; one whose total is over before its seconds, because
      of a negative second field, takes a tick more than it has seconds. */
  function Remaining(c: Timespec, tick: int): (n: nat)
    requires tick > 0
  {
    if c.sec <= 0 then (if c.nsec <= 0 then 1 else Ceil(c.nsec, tick))
    else if Total(c) < Lasting(c.sec, tick) then c.sec + 1
    else Ceil(Total(c), tick)
  }

  lemma RemainingPositive(c: Timespec, tick: int)
    requires tick > 0
    ensures Remaining(c, tick) > 0
  {
    if c.sec > 0 {
      LastingPositive(c.sec - 1, tick);
    }
  }

  lemma TickRemaining(t: Timer, tick: int)
    requires t.enabled && 0 < tick <= SECOND
    ensures TimerTick(t, tick).0 <==> Remaining(t.counter, tick) == 1
    ensures !TimerTick(t, tick).0 ==>
              var t' := TimerTick(t, tick).1;
              t'.enabled && t'.interval == t.interval && Remaining(t'.counter, tick) == Remaining(t.counter, tick) - 1
  {
    DownCountRemaining(t.counter, tick);
  }

  /** A tick ends the countdown or leaves one tick less. */
  lemma DownCountRemaining(c: Timespec, tick: int)
    requires 0 < tick <= SECOND
    ensures var c' := DownCount(c, tick);
            if c' == Timespec(0, 0) then Remaining(c, tick) == 1
            else Remaining(c, tick) > 1 && Remaining(c', tick) == Remaining(c, tick) - 1
  {
    CeilSmall(c.nsec, tick);
    CeilSmall(Total(c), tick);
    if c.sec > 0 {
      TicksInSeconds(c.sec, tick);
      assert Lasting(c.sec, tick) == Lasting(c.sec - 1, tick) + tick;
      LastingPositive(c.sec - 1, tick);
      if c.sec > 1 {
        assert Lasting(c.sec - 1, tick) == Lasting(c.sec - 2, tick) + tick;
        LastingPositive(c.sec - 2, tick);
      }
    }
  }

  lemma {:induction false} DisabledNeverExpires(t: Timer, tick: int, n: nat)
    requires n > 0 && !t.enabled
    ensures !ExpiresOn(t, tick, n)
  {
    if n > 1 {
      DisabledNeverExpires(t, tick, n - 1);
    }
  }

  lemma ModStep(x: nat, p: nat)
    requires x > 0 && p > 0
    ensures x % p == 0 <==> x >= p && (x - p) % p == 0
  {
    if x >= p {
      var q := (x - p) / p;
      assert x == (q + 1) * p + (x - p) % p;
      ModUnique(x, p, q + 1, (x - p) % p);
    }
  }

  lemma MulMonotone(a: nat, b: nat, p: nat)
    requires a <= b
    ensures a * p <= b * p
  {}

  lemma ModUnique(x: nat, p: nat, q: nat, r: nat)
    requires p > 0 && x == q * p + r && r < p
    ensures x % p == r
  {
    var d := x / p;
    assert x == d * p + x % p;
    if d > q {
      MulMonotone(q + 1, d, p);
    } else if d < q {
      MulMonotone(d + 1, q, p);
    }
  }

  /** x is a multiple of p. */
  predicate Divides(p: nat, x: nat)
    decreases x
  {
    x == 0 || (0 < p <= x && Divides(p, x - p))
  }

  lemma {:induction false} DividesIsMod(p: nat, x: nat)
    requires p > 0
    ensures Divides(p, x) <==> x % p == 0
    decreases x
  {
    if x > 0 {
      ModStep(x, p);
      if x >= p {
        DividesIsMod(p, x - p);
      }
    }
  }

  /** Exact expiry, for any counter and any interval: an enabled timer first expires
      when its counter runs out, and then every interval, or never again if the
      interval is zero. */
  lemma {:induction false} ExpiryTimes(t: Timer, tick: int, n: nat)
    requires t.enabled && 0 < tick <= SECOND && n > 0
    ensures var first := Remaining(t.counter, tick);
            ExpiresOn(t, tick, n) <==>
              n >= first && if t.interval == Timespec(0, 0) then n == first
                else Divides(Remaining(t.interval, tick), n - first)
    decreases n
  {
    var first := Remaining(t.counter, tick);
    TickRemaining(t, tick);
    RemainingPositive(t.counter, tick);
    RemainingPositive(t.interval, tick);
    if n > 1 {
      var t' := TimerTick(t, tick).1;
      if first > 1 {
        ExpiryTimes(t', tick, n - 1);
      } else if t.interval == Timespec(0, 0) {
        DisabledNeverExpires(t', tick, n - 1);
      } else {
        ExpiryTimes(t', tick, n - 1);
      }
    }
  }

  /** The number of ticks that make up a time, and one for no time at all. */
  function TicksOf(total: int, tick: int): (n: nat)
    requires tick > 0
  {
    if total <= 0 then 1 else Ceil(total, tick)
  }

  /** The two fields of an interval count as the time they add up to. */
  predicate CountsAsTotal(i: Timespec, tick: int) {
    i.sec == 0 || if i.sec < 0 then i.nsec <= tick else Lasting(i.sec, tick) <= Total(i)
  }

  /** The period of an interval is the number of ticks of its total exactly under
      this condition; every normalised interval that is not negative meets it. */
  lemma PeriodIff(i: Timespec, tick: int)
    requires 0 < tick <= SECOND
    ensures Remaining(i, tick) == TicksOf(Total(i), tick) <==> CountsAsTotal(i, tick)
    ensures Remaining(i, tick) >= TicksOf(Total(i), tick)
    ensures i.sec >= 0 && i.nsec >= 0 ==> CountsAsTotal(i, tick)
    ensures Normalised(i) ==> (CountsAsTotal(i, tick) <==> i.sec >= 0 || i.nsec <= tick)
  {
    CeilSmall(Total(i), tick);
    CeilSmall(i.nsec, tick);
    if i.sec > 0 {
      TicksInSeconds(i.sec, tick);
      LastingPositive(i.sec - 1, tick);
      CeilIsLeast(Total(i), tick, i.sec);
    } else if i.sec < 0 && i.nsec > tick {
      CeilMonotone(Total(i), i.nsec - tick, tick);
    } else {
      CeilMonotone(Total(i), i.nsec, tick);
    }
  }

  lemma {:induction false} CeilMonotone(a: int, b: int, tick: int)
    requires tick > 0 && a <= b
    ensures Ceil(a, tick) <= Ceil(b, tick)
    decreases if b > 0 then b else 0
  {
    if a > 0 {
      CeilMonotone(a - tick, b - tick, tick);
    }
  }

  /** sys_timer_settime accepts exactly the normalised values.  A timer set to value
      v and interval i expires on tick ceil(v / tick), or on the first tick if v is
      zero, and then every ceil(i / tick) ticks if the fields of i count as its
      total; with i zero it expires exactly once.  A refused call changes no
      expiry. */
  lemma ArmedTimer(t: Timer, value: Timespec, interval: Timespec, tick: int, n: nat)
    requires 0 < tick <= SECOND && n > 0
    ensures var (accepted, t') := SetTime(t, value, interval);
            var first := TicksOf(Total(value), tick);
            && (accepted <==> value.sec >= 0 && Normalised(value))
            && (!accepted ==> (ExpiresOn(t', tick, n) <==> ExpiresOn(t, tick, n)))
            && (accepted && interval == Timespec(0, 0) ==> (ExpiresOn(t', tick, n) <==> n == first))
            && (accepted && interval != Timespec(0, 0) && CountsAsTotal(interval, tick) ==>
                  (ExpiresOn(t', tick, n) <==> n >= first && Divides(TicksOf(Total(interval), tick), n - first)))
  {
    var t' := SetTime(t, value, interval).1;
    if SetTime(t, value, interval).0 {
      ExpiryTimes(t', tick, n);
      PeriodIff(value, tick);
      PeriodIff(interval, tick);
    }
  }

  /** The condition is exact: an armed timer with an interval expires again when the
      total of the interval is over if and only if its fields count as that total;
      else it is late. */
  lemma SecondExpiryIff(t: Timer, value: Timespec, interval: Timespec, tick: int)
    requires 0 < tick <= SECOND && value.sec >= 0 && Normalised(value) && interval != Timespec(0, 0)
    ensures var t', first := SetTime(t, value, interval).1, TicksOf(Total(value), tick);
            && ExpiresOn(t', tick, first)
            && (ExpiresOn(t', tick, first + TicksOf(Total(interval), tick)) <==> CountsAsTotal(interval, tick))
  {
    var t', first := SetTime(t, value, interval).1, TicksOf(Total(value), tick);
    var asked := TicksOf(Total(interval), tick);
    PeriodIff(value, tick);
    PeriodIff(interval, tick);
    ExpiryTimes(t', tick, first);
    ExpiryTimes(t', tick, first + asked);
    RemainingPositive(interval, tick);
    CeilSmall(Total(interval), tick);
  }

  /** Minus one second and two ticks: a negative total, but the timer does not
      expire on the tick after its first expiry. */
  lemma NegativeIntervalCounterexample(tick: int)
    requires 0 < tick <= SECOND
    ensures var i := Timespec(-1, 2 * tick);
            var t := Timer(true, Timespec(0, tick), i, i);
            && (2 * tick < SECOND ==> Total(i) < 0)
            && ExpiresOn(t, tick, 1) && !ExpiresOn(t, tick, 2)
  {
    var i := Timespec(-1, 2 * tick);
    var t := Timer(true, Timespec(0, tick), i, i);
    assert DownCount(i, tick) == Timespec(-1, tick);
    assert ExpiresOn(t, tick, 2) == TimerTick(TimerTick(t, tick).1, tick).0;
  }

  class TimeKeeper {
    const tick: int // NANOSECOND_TICKS
    var sysTime: Timespec
    const timers: array<Timer>

    /** system_timer_update. */
    method SystemTimerUpdate()
      modifies this`sysTime
      ensures sysTime == UpCount(old(sysTime), tick)
    {
      var nsec := sysTime.nsec + tick;
      sysTime := sysTime.(nsec := nsec);
      if sysTime.nsec >= SECOND {
        sysTime := sysTime.(sec := sysTime.sec + 1);
        sysTime := sysTime.(nsec := sysTime.nsec - SECOND);
      }
    }

    /** timer_down_count, in place. */
    method TimerDownCount(i: nat)
      requires i < timers.Length
      modifies timers
      ensures timers[..] == old(timers[..])[i := old(timers[i]).(counter := DownCount(old(timers[i]).counter, tick))]
    {
      var c := timers[i].counter;
      c := c.(nsec := c.nsec - tick);
      if c.nsec < 0 && c.sec > 0 {
        c := c.(sec := c.sec - 1);
        c := c.(nsec := c.nsec + SECOND);
      } else if c.nsec <= 0 && c.sec <= 0 {
        c := Timespec(0, 0);
      }
      timers[i] := timers[i].(counter := c);
    }

    /** timers_update: every timer takes its tick; expired[i] says that the signal
        of timer i is queued. */
    method TimersUpdate() returns (expired: seq<bool>)
      modifies timers
      ensures |expired| == timers.Length
      ensures forall i :: 0 <= i < timers.Length ==> (expired[i], timers[i]) == TimerTick(old(timers[i]), tick)
    {
      expired := [];
      var i := 0;
      while i < timers.Length
        invariant i <= timers.Length && |expired| == i
        invariant forall j :: 0 <= j < i ==> (expired[j], timers[j]) == TimerTick(old(timers[j]), tick)
        invariant forall j :: i <= j < timers.Length ==> timers[j] == old(timers[j])
      {
        var fire := false;
        if timers[i].enabled {
          ghost var before := timers[..];
          TimerDownCount(i);
          assert forall j :: 0 <= j < timers.Length && j != i ==> timers[j] == before[j];
          timers[i] := timers[i].(retTime := timers[i].counter);
          if timers[i].counter.sec == 0 && timers[i].counter.nsec == 0 {
            timers[i] := timers[i].(counter := timers[i].interval);
            if timers[i].interval.sec == 0 && timers[i].interval.nsec == 0 {
              timers[i] := timers[i].(enabled := false);
            }
            fire := true;
          }
        }
        expired := expired + [fire];
        i := i + 1;
      }
    }
  }
}

/**
  The timer process: second timers and microsecond timers driven by one loop.
*/
module Timer {
  import opened Words

  const TIMER_TICK := 1
  const TWO64: int := 0x1_0000_0000_0000_0000

  /** UTIMER_TICK is the text 100*1000, so dividing by it divides by 100 and multiplies by 1000. */
  const UTICK := 100 * 1000
  const MULTIPLE := TIMER_TICK * 1000000 / 100 * 1000 / 1000000

  /** A timer with the number of times its function was called. */
  datatype Timer = Timer(interval: u32, expires: nat, calls: nat)

  function Wrap64(x: nat): nat {
    x % 0x1_0000_0000_0000_0000
  }

  lemma Wrap64Id(x: nat)
    requires x < TWO64
    ensures Wrap64(x) == x
  {
  }

  // --- when a timer fires ---

  /** Ticks between two calls of a timer, if a tick is `unit` long: never less than one. */
  function Period(interval: nat, unit: nat): (p: nat)
    requires unit > 0
    ensures p > 0
  {
    if interval == 0 then 1 else (interval + unit - 1) / unit
  }

  /** The period is the least number of ticks, at least one, that covers the interval. */
  lemma PeriodCovers(interval: nat, unit: nat, n: nat)
    requires unit > 0 && n > 0
    ensures n * unit >= interval <==> n >= Period(interval, unit)
  {
    if interval > 0 {
      var p := Period(interval, unit);
      assert p * unit >= interval > (p - 1) * unit by {
        var x := interval + unit - 1;
        assert x == x / unit * unit + x % unit;
        assert (p - 1) * unit == p * unit - unit;
      }
      MulMono(p, n, unit);
      MulMono(n, p - 1, unit);
    }
  }

  lemma MulMono(a: nat, b: nat, c: nat)
    ensures a <= b ==> a * c <= b * c
  {
  }

  /** After n ticks since tick 0 a timer has been called once per period. */
  predicate OnSchedule(t: Timer, n: nat, unit: nat)
    requires unit > 0
  {
    var p := Period(t.interval, unit);
    t.calls * p <= n < t.calls * p + p && t.expires == t.calls * p * unit + t.interval
  }

  function Fired(t: Timer, now: nat, next: nat): Timer {
    if now >= t.expires then Timer(t.interval, next, t.calls + 1) else t
  }

  lemma FiresOnSchedule(t: Timer, n: nat, unit: nat)
    requires unit > 0 && OnSchedule(t, n, unit)
    ensures OnSchedule(Fired(t, (n + 1) * unit, (n + 1) * unit + t.interval), n + 1, unit)
  {
    hide Period;
    var p := Period(t.interval, unit);
    var last := t.calls * p;
    var since := n + 1 - last;
    PeriodCovers(t.interval, unit, since);
    assert (n + 1) * unit == last * unit + since * unit;
    assert (t.calls + 1) * p == last + p;
    if since * unit >= t.interval {
      assert n + 1 == last + p;
    }
  }

  lemma CallsAre(t: Timer, n: nat, unit: nat)
    requires unit > 0 && OnSchedule(t, n, unit)
    ensures t.calls == n / Period(t.interval, unit)
  {
    hide Period;
    QuotientIs(n, Period(t.interval, unit), t.calls);
  }

  lemma QuotientIs(n: nat, p: nat, q: nat)
    requires p > 0 && q * p <= n < q * p + p
    ensures n / p == q
  {
    var d := n / p;
    assert n == d * p + n % p;
    assert (d + 1) * p == d * p + p && (q + 1) * p == q * p + p;
    MulMono(d + 1, q, p);
    MulMono(q + 1, d, p);
  }

  ghost predicate AllOnSchedule(ts: seq<Timer>, n: nat, unit: nat)
    requires unit > 0
  {
    forall i :: 0 <= i < |ts| ==> OnSchedule(ts[i], n, unit)
  }

  predicate SameIntervals(a: seq<Timer>, b: seq<Timer>) {
    |a| == |b| && forall i :: 0 <= i < |a| ==> a[i].interval == b[i].interval
  }

  // --- the second clock ---

  /** The last tick of the 32-bit clock at which a timer is due. */
  function LastDue(interval: u32): (m: nat)
    ensures 0 < m < TWO32 <= m + Period(interval, 1)
  {
    var p := Period(interval, 1);
    LastMultiple(p);
    (TWO32 - 1) / p * p
  }

  lemma LastMultiple(p: nat)
    requires 0 < p < TWO32
    ensures var m := (TWO32 - 1) / p * p; 0 < m < TWO32 <= m + p
  {
    var x := TWO32 - 1;
    assert x == x / p * p + x % p;
  }

  /** A second timer after n ticks: on schedule until it is due for the last time.  The expiry
      computed then wraps around to a time that has passed, so from there on it is called on
      every tick. */
  predicate Scheduled(t: Timer, n: u32) {
    var m, p := LastDue(t.interval), Period(t.interval, 1);
    if n < m then OnSchedule(t, n, 1) else t.calls == m / p + (n - m) && t.expires == Wrap(n + t.interval)
  }

  lemma SecondPeriod(interval: nat)
    ensures Period(interval, 1) == if interval == 0 then 1 else interval
  {
  }

  lemma FiresScheduled(t: Timer, n: u32)
    requires Scheduled(t, n) && n + 1 < TWO32
    ensures Scheduled(Fired(t, n + 1, Wrap(n + 1 + t.interval)), n + 1)
  {
    var m, p := LastDue(t.interval), Period(t.interval, 1);
    var q := (TWO32 - 1) / p;
    assert m == q * p;
    SecondPeriod(t.interval);
    hide Period, LastDue, Wrap;
    if n >= m {
      WrapBack(n + t.interval);
    } else {
      FiresOnSchedule(t, n, 1);
      FiresBeforeLast(t, n, q, p, m);
      hide OnSchedule;
    }
  }

  lemma WrapBack(x: int)
    requires TWO32 <= x < 2 * TWO32
    ensures Wrap(x) == x - TWO32
  {
  }

  lemma FiresBeforeLast(t: Timer, n: u32, q: nat, p: nat, m: nat)
    requires p == Period(t.interval, 1) && t.interval <= p && n < m == q * p < TWO32 && OnSchedule(t, n, 1)
    ensures n + 1 < m && n + 1 >= t.expires ==> Wrap(n + 1 + t.interval) == n + 1 + t.interval
    ensures n + 1 == m ==> n + 1 >= t.expires && t.calls + 1 == m / p
  {
    hide Period, Wrap;
    DueAt(t.calls, q, p, n);
    QuotientIs(m, p, q);
    if n + 1 < m && n + 1 >= t.expires {
      DuePeriod(t, n);
      WrapId(n + 1 + t.interval);
    }
  }

  /** A timer on schedule fires at a multiple of its period. */
  lemma DuePeriod(t: Timer, n: nat)
    requires OnSchedule(t, n, 1) && n + 1 >= t.expires
    ensures n + 1 == t.calls * Period(t.interval, 1) + Period(t.interval, 1)
  {
    hide Period;
    PeriodCovers(t.interval, 1, n + 1 - t.calls * Period(t.interval, 1));
  }

  /** Between two due times nothing happens, and due times are a period apart. */
  lemma DueAt(calls: nat, q: nat, p: nat, n: nat)
    requires p > 0 && calls * p <= n < calls * p + p && n < q * p
    ensures calls < q && calls * p + p <= q * p && (n + 1 == q * p ==> calls + 1 == q)
    ensures n + 1 == calls * p + p && n + 1 < q * p ==> n + 1 + p <= q * p
  {
    MulMono(q, calls, p);
    MulMono(calls + 1, q, p);
    MulMono(calls + 2, q, p);
    assert (calls + 1) * p == calls * p + p && (calls + 2) * p == calls * p + 2 * p;
  }

  /** The number of calls after n ticks. */
  function SecondCalls(interval: u32, n: u32): int {
    n / Period(interval, 1) + if n > LastDue(interval) then n - LastDue(interval) else 0
  }

  /** A second timer is called once per period, and no more, if and only if its last due time
      has not passed. */
  lemma OncePerPeriodExactly(interval: u32, n: u32)
    ensures SecondCalls(interval, n) == n / Period(interval, 1) <==> n <= LastDue(interval)
  {
  }

  lemma ScheduledCalls(t: Timer, n: u32)
    requires Scheduled(t, n)
    ensures t.calls == SecondCalls(t.interval, n)
  {
    var m, p := LastDue(t.interval), Period(t.interval, 1);
    var q := (TWO32 - 1) / p;
    assert m == q * p;
    if n < m {
      CallsAre(t, n, 1);
    } else {
      hide Period, LastDue, Wrap;
      QuotientIs(n, p, q);
      QuotientIs(m, p, q);
    }
  }

  /** The calls between two wrap-arounds of the clock, and the one at the second. */
  function CallsPerWrap(interval: u32): int {
    SecondCalls(interval, TWO32 - 1) + 1
  }

  /** The number of calls after n ticks, however often the clock has wrapped around. */
  function TotalCalls(interval: u32, n: nat): int {
    n / TWO32 * CallsPerWrap(interval) + SecondCalls(interval, n % TWO32)
  }

  /** A second timer after n ticks: called as often as it should, and on schedule since the clock
      wrapped around last. */
  predicate Running(t: Timer, n: nat) {
    var before := n / TWO32 * CallsPerWrap(t.interval);
    0 <= before <= t.calls && Scheduled(t.(calls := t.calls - before), n % TWO32)
  }

  lemma RunningCalls(t: Timer, n: nat)
    requires Running(t, n)
    ensures t.calls == TotalCalls(t.interval, n)
  {
    hide Scheduled, SecondCalls;
    ScheduledCalls(t.(calls := t.calls - n / TWO32 * CallsPerWrap(t.interval)), n % TWO32);
  }

  /** A timer after a tick; all are called when the clock has wrapped around. */
  function Ticked(t: Timer, now: u32, wrapped: bool): Timer {
    if wrapped || now >= t.expires then Timer(t.interval, Wrap(now + t.interval), t.calls + 1) else t
  }

  /** Every tick, that of the wrap-around included, keeps a timer running. */
  lemma TicksRunning(t: Timer, n: nat)
    requires Running(t, n)
    ensures Running(Ticked(t, Wrap(n + 1), Wrap(n + 1) < Wrap(n)), n + 1)
  {
    hide Scheduled, CallsPerWrap;
    var q, r, e := n / TWO32, n % TWO32, CallsPerWrap(t.interval);
    assert n == q * TWO32 + r;
    var t' := Ticked(t, Wrap(n + 1), Wrap(n + 1) < Wrap(n));
    if r + 1 < TWO32 {
      NextTick(n, q, r);
      FiresScheduled(t.(calls := t.calls - q * e), r);
      assert t'.(calls := t'.calls - q * e) == Fired(t.(calls := t.calls - q * e), r + 1, Wrap(r + 1 + t.interval));
    } else {
      NextWrap(n, q);
      RunningCalls(t, n);
      CallsAtWrap(t.interval, n, q);
      NewScheduled(t.interval);
      assert t'.(calls := t'.calls - (q + 1) * e) == Timer(t.interval, Wrap(t.interval), 0);
    }
  }

  lemma NextTick(n: nat, q: nat, r: nat)
    requires n == q * TWO32 + r && r + 1 < TWO32
    ensures Wrap(n) == r && Wrap(n + 1) == r + 1 && (n + 1) / TWO32 == q && (n + 1) % TWO32 == r + 1
  {
  }

  lemma NextWrap(n: nat, q: nat)
    requires n == q * TWO32 + (TWO32 - 1)
    ensures Wrap(n) == TWO32 - 1 && Wrap(n + 1) == 0 && (n + 1) / TWO32 == q + 1 && (n + 1) % TWO32 == 0
  {
  }

  lemma CallsAtWrap(interval: u32, n: nat, q: nat)
    requires n / TWO32 == q && n % TWO32 == TWO32 - 1
    ensures TotalCalls(interval, n) + 1 == (q + 1) * CallsPerWrap(interval)
  {
    hide SecondCalls;
    var e := CallsPerWrap(interval);
    assert (q + 1) * e == q * e + e;
  }

  lemma NewScheduled(interval: u32)
    ensures Scheduled(Timer(interval, Wrap(interval), 0), 0)
  {
    hide OnSchedule;
    NewOnSchedule(interval, 1);
  }

  lemma NewOnSchedule(interval: u32, unit: nat)
    requires unit > 0
    ensures OnSchedule(Timer(interval, Wrap(interval), 0), 0, unit)
  {
  }

  ghost predicate AllRunning(ts: seq<Timer>, n: nat) {
    forall i :: 0 <= i < |ts| ==> Running(ts[i], n)
  }

  class Process {
    var jiffies: u32
    var ujiffies: nat
    var timers: seq<Timer>
    var utimers: seq<Timer>

    constructor ()
      ensures jiffies == 0 && ujiffies == 0 && timers == [] && utimers == []
    {
      jiffies, ujiffies, timers, utimers := 0, 0, [], [];
    }

    /** register_timer: a new timer goes in front and is due one interval from now. */
    method Register(interval: u32)
      modifies this`timers
      ensures timers == [Timer(interval, Wrap(jiffies + interval), 0)] + old(timers)
      ensures jiffies == 0 && AllRunning(old(timers), 0) ==> AllRunning(timers, 0)
    {
      hide OnSchedule, Wrap, Scheduled, CallsPerWrap;
      timers := [Timer(interval, Wrap(jiffies + interval), 0)] + timers;
      NewScheduled(interval);
    }

    /** register_utimer: due as counted from the second clock. */
    method RegisterU(interval: u32)
      modifies this`utimers
      ensures utimers == [Timer(interval, Wrap(jiffies + interval), 0)] + old(utimers)
      ensures jiffies == 0 && AllOnSchedule(old(utimers), 0, UTICK) ==> AllOnSchedule(utimers, 0, UTICK)
    {
      hide OnSchedule, Wrap;
      utimers := [Timer(interval, Wrap(jiffies + interval), 0)] + utimers;
      NewOnSchedule(interval, UTICK);
    }

    /** timer_ticker: advances the second clock and calls what is due; when the clock wraps
        around everything is called. */
    method Ticker(ghost n: nat)
      requires jiffies == Wrap(n)
      modifies this`jiffies, this`timers
      ensures jiffies == Wrap(n + TIMER_TICK) && SameIntervals(timers, old(timers))
      ensures jiffies < old(jiffies) ==> forall i :: 0 <= i < |timers| ==> timers[i].calls == old(timers)[i].calls + 1
      ensures AllRunning(old(timers), n) ==> AllRunning(timers, n + 1)
    {
      hide Running, Ticked, Wrap;
      var prev := jiffies;
      WrapNext(n);
      jiffies := Wrap(jiffies + TIMER_TICK);
      var i := 0;
      while i < |timers|
        invariant jiffies == Wrap(n + 1) && i <= |timers| == |old(timers)|
        invariant forall j :: 0 <= j < i ==> timers[j] == Ticked(old(timers)[j], jiffies, jiffies < prev)
        invariant forall j :: i <= j < |timers| ==> timers[j] == old(timers)[j]
      {
        timers := timers[i := Ticked(timers[i], jiffies, jiffies < prev)];
        i := i + 1;
      }
      TickKeeps(old(timers), timers, n);
    }

    static lemma WrapNext(n: nat)
      ensures Wrap(Wrap(n) + TIMER_TICK) == Wrap(n + 1)
    {
    }

    static lemma TickKeeps(was: seq<Timer>, ts: seq<Timer>, n: nat)
      requires |was| == |ts|
      requires forall j :: 0 <= j < |ts| ==> ts[j] == Ticked(was[j], Wrap(n + 1), Wrap(n + 1) < Wrap(n))
      ensures SameIntervals(ts, was)
      ensures Wrap(n + 1) < Wrap(n) ==> forall j :: 0 <= j < |ts| ==> ts[j].calls == was[j].calls + 1
      ensures AllRunning(was, n) ==> AllRunning(ts, n + 1)
    {
      hide Running, Wrap;
      if AllRunning(was, n) {
        forall j | 0 <= j < |ts|
          ensures Running(ts[j], n + 1)
        {
          TicksRunning(was[j], n);
        }
      }
    }

    /** utimer_ticker. */
    method UTicker(ghost n: nat)
      requires (n + 1) * UTICK + TWO32 < TWO64
      modifies this`ujiffies, this`utimers
      ensures SameIntervals(utimers, old(utimers))
      ensures old(ujiffies) == n * UTICK ==> ujiffies == (n + 1) * UTICK
      ensures old(ujiffies) == n * UTICK && AllOnSchedule(old(utimers), n, UTICK) ==>
          AllOnSchedule(utimers, n + 1, UTICK)
    {
      hide OnSchedule, Fired, Wrap64;
      Wrap64Id((n + 1) * UTICK);
      ujiffies := Wrap64(ujiffies + UTICK);
      var i := 0;
      while i < |utimers|
        invariant ujiffies == Wrap64(old(ujiffies) + UTICK)
        invariant i <= |utimers| == |old(utimers)| && SameIntervals(utimers, old(utimers))
        invariant forall j :: 0 <= j < i ==>
          utimers[j] == Fired(old(utimers)[j], ujiffies, Wrap64(ujiffies + old(utimers)[j].interval))
        invariant forall j :: i <= j < |utimers| ==> utimers[j] == old(utimers)[j]
      {
        utimers := utimers[i := Fired(utimers[i], ujiffies, Wrap64(ujiffies + utimers[i].interval))];
        FiredInterval(old(utimers)[i], ujiffies, Wrap64(ujiffies + old(utimers)[i].interval));
        i := i + 1;
      }
      if old(ujiffies) == n * UTICK {
        UTickKeeps(old(utimers), utimers, n);
      }
    }

    static lemma FiredInterval(t: Timer, now: nat, next: nat)
      ensures Fired(t, now, next).interval == t.interval
    {
    }

    static lemma UTickKeeps(was: seq<Timer>, ts: seq<Timer>, n: nat)
      requires |was| == |ts| && (n + 1) * UTICK + TWO32 < TWO64
      requires forall j :: 0 <= j < |ts| ==>
                 ts[j] == Fired(was[j], (n + 1) * UTICK, Wrap64((n + 1) * UTICK + was[j].interval))
      ensures AllOnSchedule(was, n, UTICK) ==> AllOnSchedule(ts, n + 1, UTICK)
    {
      hide OnSchedule, Fired, Wrap64;
      if AllOnSchedule(was, n, UTICK) {
        forall j | 0 <= j < |ts|
          ensures OnSchedule(ts[j], n + 1, UTICK)
        {
          FiresOnSchedule(was[j], n, UTICK);
          Wrap64Id((n + 1) * UTICK + was[j].interval);
        }
      }
    }

    /** run_timer_process for m turns of its loop, with the clocks and timers as at start. */
    method Run(m: nat)
      requires jiffies == 0 && ujiffies == 0 && AllRunning(timers, 0) && AllOnSchedule(utimers, 0, UTICK)
      requires utimers != [] ==> m * UTICK + TWO32 < TWO64
      modifies this
      ensures SameIntervals(timers, old(timers)) && SameIntervals(utimers, old(utimers))
      ensures jiffies == Wrap(Ticks(m)) && ujiffies == if utimers == [] then 0 else UTICK * m
      ensures forall i :: 0 <= i < |timers| ==> timers[i].calls == TotalCalls(timers[i].interval, Ticks(m))
      ensures utimers != [] ==>
        forall i :: 0 <= i < |utimers| ==> utimers[i].calls == m / Period(utimers[i].interval, UTICK)
    {
      hide TotalCalls, Period, Wrap64, AllRunning, AllOnSchedule, Wrap;
      var i, cnt := 0, 1;
      WrapId(0);
      while i < m
        invariant i <= m && 1 <= cnt <= MULTIPLE
        invariant SameIntervals(timers, old(timers)) && SameIntervals(utimers, old(utimers))
        invariant jiffies == Wrap(Ticks(i)) && ujiffies == if utimers == [] then 0 else UTICK * i
        invariant utimers != [] && timers != [] ==> cnt == i % 10 + 1
        invariant AllRunning(timers, Ticks(i)) && (utimers != [] ==> AllOnSchedule(utimers, i, UTICK))
      {
        if utimers == [] {
          Ticker(i);
        } else if timers == [] {
          UTicker(i);
        } else {
          UTicker(i);
          if cnt == MULTIPLE {
            Ticker(i / 10);
            cnt := 0;
          }
          cnt := cnt + 1;
        }
        i := i + 1;
      }
      Calls(timers, utimers, Ticks(m), m);
    }

    /** Ticks of the second clock in m turns. */
    function Ticks(m: nat): nat
      reads this
    {
      if utimers == [] then m else if timers == [] then 0 else m / 10
    }

    static lemma Calls(ts: seq<Timer>, us: seq<Timer>, n: nat, m: nat)
      requires AllRunning(ts, n)
      ensures forall i :: 0 <= i < |ts| ==> ts[i].calls == TotalCalls(ts[i].interval, n)
      ensures AllOnSchedule(us, m, UTICK) ==>
        forall i :: 0 <= i < |us| ==> us[i].calls == m / Period(us[i].interval, UTICK)
    {
      hide OnSchedule, Running, TotalCalls, Period;
      forall i | 0 <= i < |ts|
        ensures ts[i].calls == TotalCalls(ts[i].interval, n)
      {
        RunningCalls(ts[i], n);
      }
      if AllOnSchedule(us, m, UTICK) {
        forall i | 0 <= i < |us|
          ensures us[i].calls == m / Period(us[i].interval, UTICK)
        {
          CallsAre(us[i], m, UTICK);
        }
      }
    }
  }
}

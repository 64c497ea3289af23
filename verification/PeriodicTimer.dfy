/**
  The periodic timer of the example kernels (examples/irq-kernel/src/irq.rs and
  examples/smp-kernel/src/irq.rs): each handler run computes the next one-shot deadline.
 */
module PeriodicTimer {
  import opened Words

  const NANOS_PER_SEC: nat := 1_000_000_000
  const TICKS_PER_SEC: nat := 100

  /** PERIODIC_INTERVAL_NANOS of the irq-kernel. */
  const TICK_NANOS: nat := NANOS_PER_SEC / TICKS_PER_SEC

  /** The deadline a handler run programs when NEXT_DEADLINE is `next` and the clock reads `now`. */
  function Deadline(period: nat, next: nat, now: nat): nat { if now >= next then now + period else next }

  /** The deadline programmed by handler run `k`, the runs having read the clock as `times`. */
  function DeadlineAt(period: nat, times: seq<nat>, k: nat): nat
    requires k < |times|
  {
    Deadline(period, if k == 0 then 0 else DeadlineAt(period, times, k - 1) + period, times[k])
  }

  /** NEXT_DEADLINE after these runs. */
  function NextAfter(period: nat, times: seq<nat>): nat {
    if times == [] then 0 else DeadlineAt(period, times, |times| - 1) + period
  }

  lemma {:induction false} DeadlineOfPrefix(period: nat, times: seq<nat>, more: seq<nat>, k: nat)
    requires k < |times|
    ensures DeadlineAt(period, times + more, k) == DeadlineAt(period, times, k)
    decreases k
  {
    if k > 0 { DeadlineOfPrefix(period, times, more, k - 1); }
  }

  /** The value of a 64-bit counter after `n` increments (`fetch_add` wraps). */
  function Wrapped(n: nat): u64 { n % U64_LIMIT }

  /** The counter counts up to the word's limit and then starts again. */
  lemma WrappedCounts(n: nat)
    ensures n < U64_LIMIT ==> Wrapped(n) == n
    ensures Wrapped(n + 1) == if Wrapped(n) + 1 == U64_LIMIT then 0 else Wrapped(n) + 1
  {
  }

  /** Static state of the irq-kernel's `update_timer`; `history` holds the clock readings so far. */
  class TickTimer {
    const period: nat
    var irqCounter: u64
    var nextDeadline: u64
    var armed: Option<u64>
    ghost var history: seq<nat>

    ghost predicate Valid()
      reads this
    {
      && irqCounter == Wrapped(|history|)
      && nextDeadline == NextAfter(period, history)
      && (history != [] ==> armed == Some(DeadlineAt(period, history, |history| - 1)))
    }

    constructor (period: nat)
      ensures Valid() && history == [] && this.period == period && armed == None
    {
      this.period := period;
      irqCounter, nextDeadline, armed, history := 0, 0, None, [];
    }

    /**
      The handler. It panics exactly when the stored deadline would not fit in 64 bits; the counter
      has been incremented by then.
     */
    method UpdateTimer(now: u64) returns (panicked: bool)
      requires Valid()
      modifies this
      ensures panicked <==> Deadline(period, old(nextDeadline), now) + period >= U64_LIMIT
      ensures irqCounter == if old(irqCounter) + 1 == U64_LIMIT then 0 else old(irqCounter) + 1
      ensures !panicked ==> Valid() && history == old(history) + [now]
      ensures !panicked ==> var d := Deadline(period, old(nextDeadline), now);
                            nextDeadline == d + period && armed == Some(d)
      ensures panicked ==> nextDeadline == old(nextDeadline) && armed == old(armed) && history == old(history)
    {
      WrappedCounts(|history|);
      irqCounter := if irqCounter + 1 == U64_LIMIT then 0 else irqCounter + 1;
      var deadline := nextDeadline;
      if now >= deadline {
        if now + period >= U64_LIMIT { return true; }
        deadline := now + period;
      }
      if deadline + period >= U64_LIMIT { return true; }
      nextDeadline := deadline + period;
      armed := Some(deadline);
      RunRecorded(period, history, now);
      history := history + [now];
      return false;
    }
  }

  /** The counter is the number of handler runs, until there are 2^64 of them. */
  lemma CounterIsRuns(timer: TickTimer)
    requires timer.Valid() && |timer.history| < U64_LIMIT
    ensures timer.irqCounter == |timer.history|
  {
    WrappedCounts(|timer.history|);
  }

  lemma RunRecorded(period: nat, times: seq<nat>, now: nat)
    ensures var d, times' := Deadline(period, NextAfter(period, times), now), times + [now];
            DeadlineAt(period, times', |times'| - 1) == d && NextAfter(period, times') == d + period
  {
    Appended(period, times, now);
  }

  lemma Appended(period: nat, times: seq<nat>, now: nat)
    ensures DeadlineAt(period, times + [now], |times|) == Deadline(period, NextAfter(period, times), now)
  {
    if times != [] { DeadlineOfPrefix(period, times, [now], |times| - 1); }
  }

  /** Handler run `k` came less than one period after the deadline before it. */
  predicate OnTime(period: nat, times: seq<nat>, k: nat)
    requires 0 < k < |times|
  {
    times[k] < DeadlineAt(period, times, k - 1) + period
  }

  /**
    No drift, for arbitrary handler times. Every programmed deadline lies after the time read. It is
    exactly one period after the previous one iff the run was on time; a late run resynchronises to
    its own time and leaves a gap of at least two periods.
   */
  lemma DeadlineGap(period: nat, times: seq<nat>, k: nat)
    requires period > 0 && 0 < k < |times|
    ensures var previous, current := DeadlineAt(period, times, k - 1), DeadlineAt(period, times, k);
            && times[k] < current
            && (OnTime(period, times, k) <==> current == previous + period)
            && (!OnTime(period, times, k) ==> current == times[k] + period && current >= previous + 2 * period)
  {
  }

  /** Where the k-th deadline falls when no run is late. */
  function Grid(period: nat, first: nat, k: nat): nat { first + (k + 1) * period }

  lemma GridNext(period: nat, first: nat, k: nat)
    requires k > 0
    ensures Grid(period, first, k) == Grid(period, first, k - 1) + period
  {
    assert (k + 1) * period == k * period + period;
  }

  lemma DriftStep(period: nat, times: seq<nat>, k: nat, grid: nat, punctual: bool)
    requires period > 0 && 0 < k < |times|
    requires DeadlineAt(period, times, k - 1) >= grid
    requires DeadlineAt(period, times, k - 1) == grid <==> punctual
    ensures DeadlineAt(period, times, k) >= grid + period
    ensures DeadlineAt(period, times, k) == grid + period <==> punctual && OnTime(period, times, k)
  {
    DeadlineGap(period, times, k);
  }

  /** No run up to `k` was late by a period or more. */
  predicate OnTimeUpTo(period: nat, times: seq<nat>, k: nat)
    requires k < |times|
  {
    forall j :: 0 < j <= k ==> OnTime(period, times, j)
  }

  /** The k-th deadline is never before first + k * period, and equals it iff no run so far was late. */
  lemma {:induction false} OnTimeIffNoDrift(period: nat, times: seq<nat>, k: nat)
    requires period > 0 && k < |times|
    ensures DeadlineAt(period, times, k) >= times[0] + (k + 1) * period
    ensures DeadlineAt(period, times, k) == times[0] + (k + 1) * period <==> OnTimeUpTo(period, times, k)
    decreases k
  {
    if k > 0 {
      OnTimeIffNoDrift(period, times, k - 1);
      DriftStep(period, times, k, Grid(period, times[0], k - 1), OnTimeUpTo(period, times, k - 1));
      GridNext(period, times[0], k);
    }
  }

  // ---------- one timer per CPU (smp-kernel) ----------

  /** One handler run: which CPU, and what its clock read. */
  datatype CpuRun = CpuRun(cpu: nat, now: nat)

  /** NEXT_DEADLINE of all CPUs after interleaved handler runs. */
  function NextAfterRuns(period: nat, cpus: nat, runs: seq<CpuRun>): (next: seq<nat>)
    requires forall i :: 0 <= i < |runs| ==> runs[i].cpu < cpus
    ensures |next| == cpus
  {
    if runs == [] then seq(cpus, _ => 0)
    else
      var before := NextAfterRuns(period, cpus, runs[..|runs| - 1]);
      var r := runs[|runs| - 1];
      before[r.cpu := Deadline(period, before[r.cpu], r.now) + period]
  }

  /** NEXT_DEADLINE and the armed one-shot timer of each CPU; `runs` holds the handler runs so far. */
  class CpuTimers {
    const period: nat
    var nextDeadline: seq<u64>
    var armed: seq<Option<u64>>
    ghost var runs: seq<CpuRun>

    ghost predicate Valid()
      reads this
    {
      && |armed| == |nextDeadline|
      && (forall i :: 0 <= i < |runs| ==> runs[i].cpu < |nextDeadline|)
      && nextDeadline == NextAfterRuns(period, |nextDeadline|, runs)
    }

    constructor (period: nat, cpus: nat)
      ensures Valid() && this.period == period && |nextDeadline| == cpus && runs == []
      ensures armed == seq(cpus, _ => None)
    {
      this.period := period;
      nextDeadline := seq(cpus, _ => 0);
      armed := seq(cpus, _ => None);
      runs := [];
    }

    /** The handler on one CPU; the other CPUs' entries stay as they are. */
    method UpdateTimer(cpu: nat, now: u64) returns (panicked: bool)
      requires Valid() && cpu < |nextDeadline|
      modifies this
      ensures Valid() && |nextDeadline| == old(|nextDeadline|)
      ensures runs == if panicked then old(runs) else old(runs) + [CpuRun(cpu, now)]
      ensures var d := Deadline(period, old(nextDeadline[cpu]), now);
              && (panicked <==> d + period >= U64_LIMIT)
              && armed == (if panicked then old(armed) else old(armed)[cpu := Some(d)])
              && nextDeadline == (if panicked then old(nextDeadline) else old(nextDeadline)[cpu := d + period])
    {
      var deadline := nextDeadline[cpu];
      if now >= deadline {
        if now + period >= U64_LIMIT { return true; }
        deadline := now + period;
      }
      if deadline + period >= U64_LIMIT { return true; }
      nextDeadline := nextDeadline[cpu := deadline + period];
      armed := armed[cpu := Some(deadline)];
      runs := runs + [CpuRun(cpu, now)];
      assert runs[..|runs| - 1] == old(runs);
      return false;
    }
  }

  /** What one CPU saw of an interleaving. */
  function TimesOn(runs: seq<CpuRun>, cpu: nat): seq<nat> {
    if runs == [] then []
    else
      var r := runs[|runs| - 1];
      var before := TimesOn(runs[..|runs| - 1], cpu);
      if r.cpu == cpu then before + [r.now] else before
  }

  /** Independence: every CPU's timer behaves as if its own handler runs were the only ones. */
  lemma {:induction false} CpusAreIndependent(period: nat, cpus: nat, runs: seq<CpuRun>, cpu: nat)
    requires cpu < cpus && forall i :: 0 <= i < |runs| ==> runs[i].cpu < cpus
    ensures NextAfterRuns(period, cpus, runs)[cpu] == NextAfter(period, TimesOn(runs, cpu))
    decreases |runs|
  {
    if runs != [] {
      var before, r := runs[..|runs| - 1], runs[|runs| - 1];
      CpusAreIndependent(period, cpus, before, cpu);
      if r.cpu == cpu { Appended(period, TimesOn(before, cpu), r.now); }
    }
  }
}

/** The irq-kernel's self test: enough timer interrupts arrive while it waits. */
module TimerTest {
  import opened PeriodicTimer
  import opened Words

  /** The first reading at or after index `i` that reaches `deadline`, if the readings last that long. */
  function FirstReaching(clock: seq<nat>, i: nat, deadline: nat): (end: Option<nat>)
    requires i <= |clock|
    ensures end.Some? ==> i <= end.value < |clock| && clock[end.value] >= deadline
    ensures end.Some? ==> forall j :: i <= j < end.value ==> clock[j] < deadline
    ensures end.None? ==> forall j :: i <= j < |clock| ==> clock[j] < deadline
    decreases |clock| - i
  {
    if i == |clock| then None else if clock[i] >= deadline then Some(i) else FirstReaching(clock, i + 1, deadline)
  }

  /** `busy_wait(dur)`, entered at the clock reading with index `from`. */
  method BusyWait(clock: seq<nat>, from: nat, dur: nat) returns (end: Option<nat>)
    requires from < |clock|
    ensures end == FirstReaching(clock, from + 1, clock[from] + dur)
  {
    var deadline := clock[from] + dur;
    var i := from + 1;
    while i < |clock|
      invariant from < i <= |clock|
      invariant FirstReaching(clock, from + 1, deadline) == FirstReaching(clock, i, deadline)
    {
      if clock[i] >= deadline { return Some(i); }
      i := i + 1;
    }
    return None;
  }

  /** Where `n` successive waits of one second end. */
  function WaitEnd(clock: seq<nat>, from: nat, n: nat): (end: Option<nat>)
    requires from < |clock|
    ensures end.Some? ==> from <= end.value < |clock|
    decreases n
  {
    if n == 0 then Some(from)
    else
      match FirstReaching(clock, from + 1, clock[from] + NANOS_PER_SEC)
      case None => None
      case Some(at) => WaitEnd(clock, at, n - 1)
  }

  /** The waiting loop of `test_irq`. */
  method WaitSeconds(clock: seq<nat>, interval: nat) returns (end: Option<nat>)
    requires clock != []
    ensures end == WaitEnd(clock, 0, interval)
  {
    var at: nat := 0;
    for k := 0 to interval
      invariant at < |clock|
      invariant WaitEnd(clock, 0, interval) == WaitEnd(clock, at, interval - k)
    {
      end := BusyWait(clock, at, NANOS_PER_SEC);
      if end.None? { return; }
      at := end.value;
    }
    return Some(at);
  }

  /** The waits together take at least their number of seconds. */
  lemma {:induction false} WaitsAddUp(clock: seq<nat>, from: nat, n: nat)
    requires from < |clock| && WaitEnd(clock, from, n).Some?
    ensures clock[WaitEnd(clock, from, n).value] >= clock[from] + n * NANOS_PER_SEC
    decreases n
  {
    if n > 0 {
      WaitsAddUp(clock, FirstReaching(clock, from + 1, clock[from] + NANOS_PER_SEC).value, n - 1);
    }
  }

  lemma FirstReachingInTime(clock: seq<nat>, i: nat, deadline: nat, gap: nat)
    requires 0 < i <= |clock| && clock[i - 1] < deadline
    requires forall k, j :: 0 <= k < |clock| && j == k + 1 && j < |clock| ==> clock[j] <= clock[k] + gap
    requires FirstReaching(clock, i, deadline).Some?
    ensures clock[FirstReaching(clock, i, deadline).value] < deadline + gap
  {
    var end := FirstReaching(clock, i, deadline).value;
    assert clock[end] <= clock[end - 1] + gap;
  }

  /** With readings at most `gap` apart they take little longer: each notices its end within one reading. */
  lemma {:induction false} WaitsAreShort(clock: seq<nat>, from: nat, n: nat, gap: nat)
    requires from < |clock| && WaitEnd(clock, from, n).Some?
    requires forall i, j :: 0 <= i < |clock| && j == i + 1 && j < |clock| ==> clock[j] <= clock[i] + gap
    ensures clock[WaitEnd(clock, from, n).value] <= clock[from] + n * (NANOS_PER_SEC + gap)
    decreases n
  {
    if n > 0 {
      var deadline := clock[from] + NANOS_PER_SEC;
      var at := FirstReaching(clock, from + 1, deadline).value;
      FirstReachingInTime(clock, from + 1, deadline, gap);
      WaitsAreShort(clock, at, n - 1, gap);
      assert n * (NANOS_PER_SEC + gap) == (n - 1) * (NANOS_PER_SEC + gap) + NANOS_PER_SEC + gap;
    }
  }

  /** Exactly: one more wait ends at the first later reading that is a second after the last wait's end. */
  lemma {:induction false} OneMoreWait(clock: seq<nat>, from: nat, n: nat)
    requires from < |clock|
    ensures WaitEnd(clock, from, 0) == Some(from)
    ensures WaitEnd(clock, from, n + 1).Some? ==> WaitEnd(clock, from, n).Some?
    ensures WaitEnd(clock, from, n).Some? ==>
              var last, end := WaitEnd(clock, from, n).value, WaitEnd(clock, from, n + 1);
              && (end.Some? <==> exists j :: last < j < |clock| && clock[j] >= clock[last] + 1_000_000_000)
              && (end.Some? ==> last < end.value && clock[end.value] >= clock[last] + 1_000_000_000)
              && (end.Some? ==> forall j :: last < j < end.value ==> clock[j] < clock[last] + 1_000_000_000)
    decreases n
  {
    var first := FirstReaching(clock, from + 1, clock[from] + NANOS_PER_SEC);
    if n == 0 {
      assert first.Some? ==> WaitEnd(clock, first.value, 0) == first;
    } else if first.Some? {
      OneMoreWait(clock, first.value, n - 1);
    }
  }

  /** Every handler run after the first was on time, and at `now` none is overdue by a period. */
  predicate Prompt(period: nat, times: seq<nat>, now: nat)
    requires times != []
  {
    && OnTimeUpTo(period, times, |times| - 1)
    && now < DeadlineAt(period, times, |times| - 1) + period
  }

  lemma PeriodsFill(count: nat, interval: nat, first: nat, start: nat, now: nat)
    requires first <= start && start + interval * NANOS_PER_SEC <= now < first + count * TICK_NANOS + TICK_NANOS
    ensures count >= TICKS_PER_SEC * interval
  {
  }

  /**
    The test's lower bound is justified: if the first interrupt came before the wait and every later
    one is handled less than one period after its deadline, then at least TICKS_PER_SEC * interval
    interrupts have been handled when the wait of `interval` seconds is over.
   */
  lemma EnoughInterrupts(times: seq<nat>, clock: seq<nat>, interval: nat)
    requires clock != [] && WaitEnd(clock, 0, interval).Some?
    requires times != [] && times[0] <= clock[0]
    requires Prompt(TICK_NANOS, times, clock[WaitEnd(clock, 0, interval).value])
    ensures |times| >= TICKS_PER_SEC * interval
  {
    WaitsAddUp(clock, 0, interval);
    OnTimeIffNoDrift(TICK_NANOS, times, |times| - 1);
    PeriodsFill(|times|, interval, times[0], clock[0], clock[WaitEnd(clock, 0, interval).value]);
  }

  lemma AtLeastOnce(n: nat, period: nat)
    requires period > 0
    ensures n * period >= n
  {
  }

  lemma CountFits(period: nat, times: seq<nat>)
    requires period > 0 && NextAfter(period, times) < U64_LIMIT
    ensures |times| < U64_LIMIT
  {
    if times != [] {
      OnTimeIffNoDrift(period, times, |times| - 1);
      AtLeastOnce(|times|, period);
    }
  }

  /**
    The timer was punctual during a wait of `interval` seconds over these clock readings: its first
    interrupt came before the wait, and none was late by a period when the wait was over.
   */
  ghost predicate Punctual(timer: TickTimer, clock: seq<nat>, interval: nat)
    reads timer
  {
    && timer.period == TICK_NANOS
    && clock != [] && WaitEnd(clock, 0, interval).Some?
    && timer.history != [] && timer.history[0] <= clock[0]
    && Prompt(TICK_NANOS, timer.history, clock[WaitEnd(clock, 0, interval).value])
  }

  /** So the 64-bit counter passes the check: it has not wrapped as long as the deadlines fit. */
  lemma CheckPasses(timer: TickTimer, clock: seq<nat>, interval: nat)
    requires timer.Valid() && Punctual(timer, clock, interval)
    ensures timer.irqCounter >= TICKS_PER_SEC * interval
  {
    EnoughInterrupts(timer.history, clock, interval);
    CountFits(TICK_NANOS, timer.history);
    CounterIsRuns(timer);
  }

  /**
    The check at the end of `test_irq`, on the timer's state when the wait over `clock` has ended: a
    punctual timer passes it. In general it compares the number of handler runs, modulo 2^64.
   */
  method CheckCount(timer: TickTimer, ghost clock: seq<nat>, interval: nat) returns (panicked: bool)
    requires timer.Valid()
    ensures Punctual(timer, clock, interval) ==> !panicked
    ensures |timer.history| < U64_LIMIT ==> (panicked <==> |timer.history| < TICKS_PER_SEC * interval)
    ensures panicked <==> |timer.history| % U64_LIMIT < TICKS_PER_SEC * interval
  {
    WrappedCounts(|timer.history|);
    var irqCount := timer.irqCounter;
    var irqMinCount := TICKS_PER_SEC * interval;
    if Punctual(timer, clock, interval) { CheckPasses(timer, clock, interval); }
    return irqCount < irqMinCount;
  }

  /** A run in which one interrupt is handled exactly one period late and all others in time. */
  function OneLate(): seq<nat> { seq(99, k requires 0 <= k => LateReading(k)) }

  function LateReading(k: nat): nat { if k == 0 then 0 else (k + 1) * TICK_NANOS }

  /** NEXT_DEADLINE after `k` runs of it. */
  function LateNext(k: nat): nat {
    if k == 0 then 0 else if k == 1 then 2 * TICK_NANOS else (k + 2) * TICK_NANOS
  }

  lemma LateStep(k: nat)
    requires k < 99
    ensures Deadline(TICK_NANOS, LateNext(k), LateReading(k)) + TICK_NANOS == LateNext(k + 1)
    ensures LateReading(k) < U64_LIMIT && LateNext(k + 1) < U64_LIMIT
  {
  }

  lemma {:induction false} OneLateDeadline(k: nat)
    requires k < 99
    ensures DeadlineAt(TICK_NANOS, OneLate(), k) == if k == 0 then TICK_NANOS else (k + 2) * TICK_NANOS
    decreases k
  {
    if k > 0 {
      var times := OneLate();
      OneLateDeadline(k - 1);
      assert times[k] == (k + 1) * TICK_NANOS;
      DeadlineGap(TICK_NANOS, times, k);
    }
  }

  /**
    The premise that every run is on time cannot be dropped: with a single run late by one period
    the test fails.
   */
  lemma OneLateFails()
    ensures var times := OneLate();
            && DeadlineAt(TICK_NANOS, times, 0) + TICK_NANOS == times[1]
            && (forall k :: 1 < k < |times| ==> OnTime(TICK_NANOS, times, k))
            && NANOS_PER_SEC < DeadlineAt(TICK_NANOS, times, |times| - 1) + TICK_NANOS
            && |times| < TICKS_PER_SEC * 1
  {
    OneLateDeadline(0);
    OneLateDeadline(98);
    forall k | 1 < k < 99 ensures OnTime(TICK_NANOS, OneLate(), k) { OneLateDeadline(k - 1); }
  }

  /** The same run executed: no handler panics, and after a wait of one second the test does. */
  method OneLatePanics() returns (panicked: bool)
    ensures panicked
  {
    var timer := new TickTimer(TICK_NANOS);
    for k := 0 to 99
      invariant timer.Valid() && timer.period == TICK_NANOS && |timer.history| == k
      invariant timer.nextDeadline == LateNext(k)
    {
      LateStep(k);
      var overflow := timer.UpdateTimer(LateReading(k));
      assert !overflow;
    }
    panicked := CheckCount(timer, [0, NANOS_PER_SEC], 1);
  }

  /** The handler runs of a timer that is never late. */
  function Regular(n: nat): seq<nat> { seq(n, k requires 0 <= k => k * TICK_NANOS) }

  lemma {:induction false} RegularDeadline(n: nat, k: nat)
    requires k < n
    ensures DeadlineAt(TICK_NANOS, Regular(n), k) == (k + 1) * TICK_NANOS
    decreases k
  {
    if k > 0 {
      RegularDeadline(n, k - 1);
      DeadlineGap(TICK_NANOS, Regular(n), k);
    }
  }

  /** Clock readings once a second. */
  function Seconds(n: nat): seq<nat> { seq(n, i requires 0 <= i => i * NANOS_PER_SEC) }

  lemma RegularIsPrompt(n: nat, now: nat)
    requires n > 0 && now == n * TICK_NANOS
    ensures Prompt(TICK_NANOS, Regular(n), now)
  {
    var times := Regular(n);
    forall k | 0 < k < n ensures OnTime(TICK_NANOS, times, k) { RegularDeadline(n, k - 1); }
    RegularDeadline(n, n - 1);
  }

  lemma {:induction false} SecondsWait(total: nat, from: nat, n: nat)
    requires from + n < total
    ensures WaitEnd(Seconds(total), from, n) == Some(from + n)
    decreases n
  {
    if n > 0 {
      NextSecond(total, from);
      SecondsWait(total, from + 1, n - 1);
    }
  }

  lemma NextSecond(total: nat, from: nat)
    requires from + 1 < total
    ensures FirstReaching(Seconds(total), from + 1, Seconds(total)[from] + NANOS_PER_SEC) == Some(from + 1)
  {
    assert Seconds(total)[from + 1] == Seconds(total)[from] + NANOS_PER_SEC;
  }

  lemma TicksFillSeconds(interval: nat)
    ensures Seconds(interval + 1)[interval] == TICKS_PER_SEC * interval * TICK_NANOS
  {
  }

  /** The bound is the best possible: a timer that is never late can reach it without exceeding it. */
  lemma BoundIsTight(interval: nat)
    requires interval > 0
    ensures WaitEnd(Seconds(interval + 1), 0, interval) == Some(interval)
    ensures Prompt(TICK_NANOS, Regular(TICKS_PER_SEC * interval), Seconds(interval + 1)[interval])
    ensures |Regular(TICKS_PER_SEC * interval)| == TICKS_PER_SEC * interval
    ensures Regular(TICKS_PER_SEC * interval)[0] == Seconds(interval + 1)[0]
  {
    TicksFillSeconds(interval);
    RegularIsPrompt(TICKS_PER_SEC * interval, Seconds(interval + 1)[interval]);
    SecondsWait(interval + 1, 0, interval);
  }

  /** Such a timer is punctual during a wait that starts with its first interrupt. */
  lemma RegularIsPunctual(timer: TickTimer, interval: nat)
    requires interval > 0 && timer.period == TICK_NANOS && timer.history == Regular(TICKS_PER_SEC * interval)
    ensures Punctual(timer, Seconds(interval + 1), interval)
  {
    BoundIsTight(interval);
  }
}

/**
  Conversions between hardware ticks and nanoseconds
  (platforms/axplat-x86-pc, axplat-riscv64-qemu-virt and axplat-loongarch64-qemu-virt, src/time.rs).

  Every operation is an overflow-checked 64-bit operation; `None` stands for the panic.
 */
module Clocks {
  import opened Arithmetic
  import opened Words

  const NANOS_PER_SEC: nat := 1_000_000_000

  function Checked(n: int): (r: Option<u64>) { if 0 <= n < U64_LIMIT then Some(n) else None }

  /** Division rounding up. */
  function CeilDiv(a: nat, b: nat): nat
    requires b > 0
  {
    (a + b - 1) / b
  }

  /** Rounding down a multiple from which `r` is missing loses r / b, rounded up. */
  lemma MissingPart(n: nat, b: nat, r: nat)
    requires b > 0 && r <= n * b
    ensures CeilDiv(r, b) <= n && (n * b - r) / b == n - CeilDiv(r, b)
  {
    var c := CeilDiv(r, b);
    DivBounds(r + b - 1, b);
    assert r <= c * b < r + b;
    if c > n { MulMonotone(n + 1, c, b); }
    assert (n - c) * b == n * b - c * b;
    DivIs(n * b - r, b, n - c);
  }

  // ---------- x86: multiply, then divide ----------

  /** `ticks * 1_000 / CPU_FREQ_MHZ` */
  function X86TicksToNanos(mhz: nat, ticks: nat): Option<u64> {
    if ticks * 1000 >= U64_LIMIT || mhz == 0 then None
    else
      DivBounds(ticks * 1000, mhz);
      assert ticks * 1000 / mhz <= ticks * 1000 by {
        if ticks * 1000 / mhz > ticks * 1000 { MulMonotone(1, mhz, ticks * 1000 / mhz); }
      }
      Some(ticks * 1000 / mhz)
  }

  /** `nanos * CPU_FREQ_MHZ / 1_000` */
  function X86NanosToTicks(mhz: nat, nanos: nat): Option<u64> {
    if nanos * mhz >= U64_LIMIT then None else Some(nanos * mhz / 1000)
  }

  /** Each conversion rounds its exact value down, and is defined iff the product fits in 64 bits. */
  lemma X86ConversionsRoundDown(mhz: nat, n: nat)
    ensures X86TicksToNanos(mhz, n).Some? <==> mhz > 0 && n * 1000 < U64_LIMIT
    ensures X86TicksToNanos(mhz, n).Some? ==>
              var nanos := X86TicksToNanos(mhz, n).value; nanos * mhz <= n * 1000 < (nanos + 1) * mhz
    ensures X86NanosToTicks(mhz, n).Some? <==> n * mhz < U64_LIMIT
    ensures X86NanosToTicks(mhz, n).Some? ==>
              var ticks := X86NanosToTicks(mhz, n).value; ticks * 1000 <= n * mhz < (ticks + 1) * 1000
  {
    if mhz > 0 {
      DivBounds(n * 1000, mhz);
      assert (n * 1000 / mhz + 1) * mhz == n * 1000 / mhz * mhz + mhz;
    }
    DivBounds(n * mhz, 1000);
  }

  /**
    Ticks to nanoseconds and back, exactly: the way back never overflows and loses the remainder of
    the first division, in units of 1000, rounded up.
   */
  lemma X86TickRoundTrip(mhz: nat, ticks: nat)
    requires X86TicksToNanos(mhz, ticks).Some?
    ensures var back := X86NanosToTicks(mhz, X86TicksToNanos(mhz, ticks).value);
            && back.Some?
            && CeilDiv(ticks * 1000 % mhz, 1000) <= ticks
            && back.value == ticks - CeilDiv(ticks * 1000 % mhz, 1000)
  {
    var nanos := ticks * 1000 / mhz;
    DivBounds(ticks * 1000, mhz);
    assert nanos * mhz == ticks * 1000 - ticks * 1000 % mhz;
    MissingPart(ticks, 1000, ticks * 1000 % mhz);
  }

  /** Nanoseconds to ticks and back, exactly. */
  lemma X86NanoRoundTrip(mhz: nat, nanos: nat)
    requires mhz > 0 && X86NanosToTicks(mhz, nanos).Some?
    ensures var back := X86TicksToNanos(mhz, X86NanosToTicks(mhz, nanos).value);
            && back.Some?
            && CeilDiv(nanos * mhz % 1000, mhz) <= nanos
            && back.value == nanos - CeilDiv(nanos * mhz % 1000, mhz)
  {
    DivBounds(nanos * mhz, 1000);
    MissingPart(nanos, mhz, nanos * mhz % 1000);
  }

  lemma CeilDivMonotone(a: nat, b: nat, c: nat)
    requires c > 0 && a <= b
    ensures CeilDiv(a, c) <= CeilDiv(b, c)
  {
    DivMonotone(a + c - 1, b + c - 1, c);
  }

  /** Hence uniform bounds on what a round trip loses, in ticks and in nanoseconds. */
  lemma X86RoundTripLoss(mhz: nat, ticks: nat, nanos: nat)
    requires mhz > 0 && X86TicksToNanos(mhz, ticks).Some? && X86NanosToTicks(mhz, nanos).Some?
    ensures var back := X86NanosToTicks(mhz, X86TicksToNanos(mhz, ticks).value).value;
            back <= ticks <= back + CeilDiv(mhz - 1, 1000)
    ensures var back := X86TicksToNanos(mhz, X86NanosToTicks(mhz, nanos).value).value;
            back <= nanos <= back + CeilDiv(999, mhz)
  {
    X86TickRoundTrip(mhz, ticks);
    X86NanoRoundTrip(mhz, nanos);
    DivBounds(ticks * 1000, mhz);
    CeilDivMonotone(ticks * 1000 % mhz, mhz - 1, 1000);
    CeilDivMonotone(nanos * mhz % 1000, 999, mhz);
  }

  /** Ticks survive the round trip exactly when the first division is exact. */
  lemma X86TickRoundTripExact(mhz: nat, ticks: nat)
    requires X86TicksToNanos(mhz, ticks).Some?
    ensures X86NanosToTicks(mhz, X86TicksToNanos(mhz, ticks).value) == Some(ticks) <==> ticks * 1000 % mhz == 0
  {
    X86TickRoundTrip(mhz, ticks);
    DivBounds(ticks * 1000, mhz);
  }

  /** Both conversions preserve order, and succeed on everything below a value they succeed on. */
  lemma X86Monotone(mhz: nat, a: nat, b: nat)
    requires a <= b
    ensures X86TicksToNanos(mhz, b).Some? ==>
              X86TicksToNanos(mhz, a).Some? && X86TicksToNanos(mhz, a).value <= X86TicksToNanos(mhz, b).value
    ensures X86NanosToTicks(mhz, b).Some? ==>
              X86NanosToTicks(mhz, a).Some? && X86NanosToTicks(mhz, a).value <= X86NanosToTicks(mhz, b).value
  {
    MulMonotone(a, b, mhz);
    if mhz > 0 { DivMonotone(a * 1000, b * 1000, mhz); }
    DivMonotone(a * mhz, b * mhz, 1000);
  }

  // ---------- RISC-V and LoongArch: a whole number of nanoseconds per tick ----------

  /** `NANOS_PER_SEC / frequency`; a zero frequency panics. */
  function NanosPerTick(freq: nat): Option<nat> { if freq == 0 then None else Some(NANOS_PER_SEC / freq) }

  /** `ticks * NANOS_PER_TICK` */
  function TicksToNanos(unit: nat, ticks: nat): Option<u64> { Checked(ticks * unit) }

  /** `nanos / NANOS_PER_TICK` */
  function NanosToTicks(unit: nat, nanos: u64): Option<u64> {
    if unit == 0 then None
    else
      DivBounds(nanos, unit);
      assert nanos / unit <= nanos by { if nanos / unit > nanos { MulMonotone(1, unit, nanos / unit); } }
      Some(nanos / unit)
  }

  /** The tick's length is the exact one rounded down. */
  lemma TickLengthRoundsDown(freq: nat)
    ensures NanosPerTick(freq).Some? <==> freq > 0
    ensures freq > 0 ==>
              var unit := NanosPerTick(freq).value; unit * freq <= 1_000_000_000 < (unit + 1) * freq
  {
    if freq > 0 {
      DivBounds(NANOS_PER_SEC, freq);
      assert (NANOS_PER_SEC / freq + 1) * freq == NANOS_PER_SEC / freq * freq + freq;
    }
  }

  /** The second conversion works for all inputs iff a tick is at least a nanosecond long. */
  lemma UsableIffAtMostGigahertz(freq: nat, nanos: u64)
    requires freq > 0
    ensures NanosToTicks(NanosPerTick(freq).value, nanos).Some? <==> freq <= NANOS_PER_SEC
  {
    if freq <= NANOS_PER_SEC {
      DivMonotone(freq, NANOS_PER_SEC, freq);
      DivIs(freq, freq, 1);
    } else {
      DivIs(NANOS_PER_SEC, freq, 0);
    }
  }

  /** The two conversions form a Galois connection. */
  lemma Galois(unit: nat, ticks: nat, nanos: u64)
    requires unit > 0
    ensures (TicksToNanos(unit, ticks).Some? && TicksToNanos(unit, ticks).value <= nanos)
            <==> ticks <= NanosToTicks(unit, nanos).value
  {
    var q := nanos / unit;
    DivBounds(nanos, unit);
    if ticks <= q { MulMonotone(ticks, q, unit); } else { MulMonotone(q + 1, ticks, unit); }
  }

  /** Ticks survive the round trip exactly. */
  lemma TickRoundTrip(unit: nat, ticks: nat)
    requires unit > 0 && TicksToNanos(unit, ticks).Some?
    ensures NanosToTicks(unit, TicksToNanos(unit, ticks).value) == Some(ticks)
  {
    DivIs(ticks * unit, unit, ticks);
  }

  /** The clock never runs fast, and keeps exact time iff the frequency divides a billion. */
  lemma ClockRate(freq: nat, ticks: nat)
    requires 0 < freq && ticks > 0
    ensures ticks * NanosPerTick(freq).value * freq <= ticks * NANOS_PER_SEC
    ensures ticks * NanosPerTick(freq).value * freq == ticks * NANOS_PER_SEC <==> NANOS_PER_SEC % freq == 0
  {
    var unit, r := NANOS_PER_SEC / freq, NANOS_PER_SEC % freq;
    DivBounds(NANOS_PER_SEC, freq);
    assert ticks * NANOS_PER_SEC == ticks * (unit * freq) + ticks * r;
    assert ticks * unit * freq == ticks * (unit * freq);
    if r > 0 { MulMonotone(1, ticks, r); }
  }

  /** RISC-V: the tick value handed to the firmware. */
  function RiscvArm(unit: nat, deadline: u64): Option<u64> { NanosToTicks(unit, deadline) }

  /** The timer fires no later than asked for, and less than one tick early. */
  lemma RiscvArmsJustBefore(unit: nat, deadline: u64)
    requires unit > 0
    ensures var tick := RiscvArm(unit, deadline).value; tick * unit <= deadline < (tick + 1) * unit
  {
    DivBounds(deadline, unit);
    var tick := deadline / unit;
    assert (tick + 1) * unit == tick * unit + unit;
  }

  /** LoongArch: the countdown loaded into the timer when the tick counter reads `now`. */
  function LoongArm(unit: nat, now: u64, deadline: u64): Option<u64> {
    match NanosToTicks(unit, deadline)
    case None => None
    case Some(tick) => Checked(tick - now)
  }

  /**
    The countdown is computed without underflow exactly when the deadline has not passed at the
    moment of arming; it then runs out at the tick RISC-V would have chosen.
   */
  lemma LoongArmsIffNotPast(unit: nat, now: u64, deadline: u64)
    requires unit > 0
    ensures LoongArm(unit, now, deadline).Some? <==>
            TicksToNanos(unit, now).Some? && TicksToNanos(unit, now).value <= deadline
    ensures LoongArm(unit, now, deadline).Some? ==>
              RiscvArm(unit, deadline) == Some(now + LoongArm(unit, now, deadline).value)
  {
    Galois(unit, now, deadline);
  }

  /**
    The periodic handler on LoongArch reads the clock at tick `read`, computes a later deadline and
    arms the timer at tick `arm`. It survives iff no more ticks pass in between than the time left
    at the reading holds.
   */
  lemma LoongHandlerSurvives(unit: nat, read: u64, arm: u64, deadline: u64)
    requires unit > 0 && read <= arm
    requires TicksToNanos(unit, read).Some? && TicksToNanos(unit, read).value < deadline
    ensures LoongArm(unit, read, deadline).Some?
    ensures LoongArm(unit, arm, deadline).Some? <==>
            arm - read <= (deadline - TicksToNanos(unit, read).value) / unit
  {
    LoongArmsIffNotPast(unit, read, deadline);
    LoongArmsIffNotPast(unit, arm, deadline);
    Galois(unit, arm, deadline);
    var tick := deadline / unit;
    DivBounds(deadline, unit);
    assert (tick - read) * unit == tick * unit - read * unit;
    DivIs(deadline - read * unit, unit, tick - read);
  }

  /**
    A deadline that was in the future when the handler read the clock can still be fatal: with ten
    nanoseconds per tick, 95 ns is later than the 90 ns read at tick 9 and cannot be armed at tick 10.
   */
  lemma LoongArmTooLate()
    ensures TicksToNanos(10, 9) == Some(90)
    ensures LoongArm(10, 9, 95) == Some(0) && LoongArm(10, 10, 95) == None
  {
  }

  // ---------- wall clock at initialisation ----------

  /** RISC-V and LoongArch: epoch offset computed from the RTC reading at tick `now`. */
  function EpochOffset(unit: nat, rtcNanos: u64, now: nat): Option<u64> {
    match TicksToNanos(unit, now)
    case None => None
    case Some(mono) => Checked(rtcNanos - mono)
  }

  /** The offset can be computed iff the time since power-on does not exceed the RTC reading. */
  lemma EpochOffsetIff(unit: nat, rtcNanos: u64, now: nat)
    ensures EpochOffset(unit, rtcNanos, now).Some? <==> now * unit <= rtcNanos
  {
  }

  /** From then on wall time is the RTC reading plus the elapsed ticks. */
  lemma WallClockStartsAtRtc(unit: nat, rtcNanos: u64, init: nat, now: nat)
    requires init <= now && EpochOffset(unit, rtcNanos, init).Some? && TicksToNanos(unit, now).Some?
    ensures TicksToNanos(unit, now).value + EpochOffset(unit, rtcNanos, init).value
            == rtcNanos + (now - init) * unit
  {
    assert now * unit == init * unit + (now - init) * unit;
  }

  /** x86: the offset subtracts the tick count that `current_ticks` has already subtracted. */
  function X86EpochOffset(mhz: nat, rtcNanos: u64, initTick: nat): Option<u64> {
    match X86TicksToNanos(mhz, initTick)
    case None => None
    case Some(mono) => Checked(rtcNanos - mono)
  }

  /** x86: wall time when the counter reads `tsc`. */
  function X86WallTime(mhz: nat, rtcNanos: u64, initTick: nat, tsc: nat): Option<u64>
    requires initTick <= tsc
  {
    match (X86TicksToNanos(mhz, tsc - initTick), X86EpochOffset(mhz, rtcNanos, initTick))
    case (Some(mono), Some(offset)) => Checked(mono as int + offset as int)
    case _ => None
  }

  /**
    The x86 wall clock runs with the monotonic clock, behind the RTC reading by the time the counter
    had run before initialisation, whenever it is read.
   */
  lemma X86WallClockLags(mhz: nat, rtcNanos: u64, initTick: nat, tsc: nat)
    requires initTick <= tsc
    ensures X86EpochOffset(mhz, rtcNanos, initTick).Some? <==>
            X86TicksToNanos(mhz, initTick).Some? && X86TicksToNanos(mhz, initTick).value <= rtcNanos
    ensures X86EpochOffset(mhz, rtcNanos, initTick).Some? ==>
              var lag, elapsed := X86TicksToNanos(mhz, initTick).value, X86TicksToNanos(mhz, tsc - initTick);
              var wall := X86WallTime(mhz, rtcNanos, initTick, tsc);
              && (wall.Some? <==> elapsed.Some? && rtcNanos - lag + elapsed.value < U64_LIMIT)
              && (wall.Some? ==> wall.value + lag == rtcNanos + elapsed.value)
  {
  }

  /**
    On x86 the wall clock does not start at the RTC reading: it is behind by the time the counter
    had run before initialisation, so it agrees iff that was less than a nanosecond.
   */
  lemma X86WallClockStartsBehind(mhz: nat, rtcNanos: u64, initTick: nat)
    requires X86EpochOffset(mhz, rtcNanos, initTick).Some?
    ensures var wall := X86WallTime(mhz, rtcNanos, initTick, initTick);
            && wall.Some?
            && wall.value + X86TicksToNanos(mhz, initTick).value == rtcNanos
            && (wall.value == rtcNanos <==> initTick * 1000 < mhz)
  {
    DivIs(0, mhz, 0);
    DivBounds(initTick * 1000, mhz);
    if initTick * 1000 < mhz {
      DivIs(initTick * 1000, mhz, 0);
    } else {
      DivMonotone(mhz, initTick * 1000, mhz);
      DivIs(mhz, mhz, 1);
    }
  }

  /** For instance one microsecond of counting before initialisation at 4 GHz. */
  lemma X86WallClockExample()
    ensures X86WallTime(4000, 1_000_000_000, 4000, 4000) == Some(999_999_000)
  {
  }
}

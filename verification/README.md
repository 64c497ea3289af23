# Verified model of the axplat platform crates

A Dafny model of the parts of the axplat repository whose correctness depends on interleaving,
loops over ranges, bit manipulation or truncating arithmetic, with proofs about every input, every
run or every fair schedule. `dafny verify dfyconfig.toml` checks everything.

## What is modelled

- **Multi-core boot** (`BootSchedule.dfy`, `SmpBoot.dfy`, `SmpBootTheorems.dfy`, `CpuIds.dfy`). The
  primary and the secondary CPUs are interleaved step by step: the shared cell that carries the boot
  stack, the release of a parked CPU (spin-table slot or mailbox IPI, or the x86 pair of startup
  IPIs of which the first may be missed), the end of each CPU's initialisation, the counter that is
  first a handshake and then a barrier, and interrupt registration. Safety holds over every finite
  run; completion over every fair infinite run. The boot loop itself, the x86 startup page and the
  Phytium id lookup are separate.
- **Physical ranges** (`PhysRanges.dfy`, `RangeAlgebra.dfy`). The overlap check and the range
  difference as loops, with their panics and early exits, against a pure function whose laws are
  proved from an independent notion of covered addresses and joints.
- **LoongArch inter-processor interrupts** (`IpiWords.dfy`, `LoongIpi.dfy`, `IpiSystem.dfy`, module
  `LoongIrq` in `IrqHandlers.dfy`). Register words are 32-bit vectors. Senders run between any two
  steps of `handle_ipi`; histories say when a send is still owed a handler run. `IpiSystem` routes the
  words that `send_ipi` writes to any number of such receivers.
- **Periodic timer** (`PeriodicTimer.dfy`) over arbitrary handler times, the irq-kernel's self test,
  and the per-CPU copies of the smp-kernel.
- **Clock conversions** (`Clocks.dfy`) of x86, RISC-V and LoongArch, one-shot arming and the epoch
  offset.
- **Boot page tables** of 32-bit ARM and RISC-V (`ArmBootTable.dfy`, `Sv39BootTable.dfy`) as
  translation functions.
- **RISC-V interrupt handlers** (`IrqHandlers.dfy`) as one partial map over split storage, and
  **console output** (`Consoles.dfy`).

`Words.dfy` and `Arithmetic.dfy` hold what the modules share.

Conventions. Fixed-width arithmetic is overflow-checked: an operation that overflows panics, and the
model returns that outcome (`Panic`, `None`, `panicked`). A build without overflow checks would wrap
instead. `usize` has 64 bits except in the 32-bit ARM page table. Atomic operations and volatile
writes are sequentially consistent steps. Clock readings, firmware answers, missed startup IPIs and
the order in which CPUs run are unconstrained inputs.

## Where the code departs from what it promises

- `unregister` on LoongArch (platforms/axplat-loongarch64-qemu-virt/src/irq.rs:86-93) documents that
  it disables the IRQ if it succeeds; it always disables it. `LoongIrq.FailedUnregisterDisables` is a
  failing call in the state that late initialisation leaves
  (platforms/axplat-loongarch64-qemu-virt/src/init.rs:26-30);
  `LoongIrq.IrqController.Unregister` states exactly when it makes a difference.
- On x86 the epoch offset (platforms/axplat-x86-pc/src/time.rs:42-47) subtracts a tick count that
  `current_ticks` has already subtracted. `Clocks.X86WallClockExample` gives an input,
  `Clocks.X86WallClockStartsBehind` the error and when it is zero.
- `set_oneshot_timer` on LoongArch (platforms/axplat-loongarch64-qemu-virt/src/time.rs:120-128)
  underflows for a deadline that has passed. `Clocks.LoongArmTooLate` gives an input that was in the
  future when the handler read the clock, `Clocks.LoongArmsIffNotPast` and
  `Clocks.LoongHandlerSurvives` the conditions.
- `make_ipi_send_value` takes any CPU number; the send register has ten bits for it.
  `IpiWords.CpuOutOfField` gives an input, `IpiWords.SendWordRoundTrip`, `IpiWords.DeliversIffSmall`
  and `IpiSystem.ReachesIffSmall` the condition.
- `try_write_bytes` on RISC-V (platforms/axplat-riscv64-qemu-virt/src/console.rs:8-17) documents its
  result as the number of bytes written; it is the value field of the SBI answer, error or not.
  `SbiConsole.FailureSkips` gives an input on which output is lost, `SbiConsole.FaithfulIffTrusted`
  the condition.

## Limits of the range difference

`ranges_difference` emits exactly the addresses it promises (`RangeAlgebra.DifferenceExact`). What it
does not promise, and what an empty excluded range breaks, is that the pieces are maximal and that
exclusions compose by the addresses they cover: `RangeAlgebra.EmptyExclusionCuts` gives the input,
`RangeAlgebra.MaximalIffNoCut` and `RangeAlgebra.ComposesIffUnites` the exact conditions.

## Model

| member | source | states |
|---|---|---|
| PhysRanges.CheckSortedRangesOverlap | axplat/src/mem.rs:215-226 | accepts exactly the lists whose ranges fit and each end before all later ones start; otherwise reports start and end of the first overlapping neighbours, or panics at the first overflowing end, whichever comes first |
| PhysRanges.CheckUnsorted | axplat/src/mem.rs:295-298 | the unsorted list of the unit test is rejected with the pair that test expects |
| PhysRanges.RangesDifference | axplat/src/mem.rs:247-277 | succeeds iff `exclude` passes the check and all source ranges fit; emits nothing on a failed check, otherwise the difference of the source ranges before the first overflow |
| PhysRanges.ExcludeFromEach | axplat/src/mem.rs:257-275 | the outer loop handles source ranges in order and stops at the first whose end overflows |
| PhysRanges.ExcludeFromOne | axplat/src/mem.rs:258-274 | the inner loop with its moving start emits the survivors of one range; no subtraction underflows |
| PhysRanges.DifferenceConcat | axplat/src/mem.rs:257-275 | the difference of a concatenation is the concatenation of the differences |
| RangeAlgebra.CheckDecidesDisjointness | axplat/src/mem.rs:198-203 | for non-empty ranges the check means sorted by start and pairwise disjoint |
| RangeAlgebra.SurvivorsExact | axplat/src/mem.rs:261-274 | one source range: exactly its addresses outside all excluded ranges survive |
| RangeAlgebra.DifferenceExact | axplat/src/mem.rs:228-236 | for any source list an address is emitted iff it is in a source range and in no excluded one |
| RangeAlgebra.SurvivorsShape | axplat/src/mem.rs:261-274 | the pieces of one range are non-empty, inside it and in order |
| RangeAlgebra.DifferenceSpans | axplat/src/mem.rs:261-274 | two neighbouring addresses stay in one piece iff they were in one source range and no excluded range, even an empty one, touches their joint |
| RangeAlgebra.OrderedUnique | axplat/src/mem.rs:257-275 | covered addresses and joints determine an ordered list of non-empty ranges |
| RangeAlgebra.ExclusionsCommute | axplat/src/mem.rs:247-277 | removing A then B gives the same list in the same order as B then A, for all accepted A and B |
| RangeAlgebra.ComposesIffUnites | axplat/src/mem.rs:247-277 | removing A then B is removing C on every source list iff C covers the union and touches the same joints |
| RangeAlgebra.PositiveExclusionsCompose | axplat/src/mem.rs:247-277 | without empty ranges it is enough that C covers exactly the union |
| RangeAlgebra.EmptyExclusionCuts | axplat/src/mem.rs:263-270 | a concrete empty excluded range that covers nothing and still changes the output |
| RangeAlgebra.MaximalIffNoCut | axplat/src/mem.rs:261-274 | a source range yields its maximal surviving intervals iff no empty excluded range lies strictly inside one |
| RangeAlgebra.SurvivorsConserve | axplat/src/mem.rs:261-274 | surviving sizes plus intersections with all excluded ranges equal the size of the source range |
| RangeAlgebra.DifferenceConserves | axplat/src/mem.rs:257-275 | emitted sizes plus all pairwise intersections equal the source sizes |
| RangeAlgebra.DifferenceCloses | axplat/src/mem.rs:234-236 | every emitted range is non-empty and inside one source range; fitting and ordered sources give fitting and ordered outputs |
| RangeAlgebra.DifferenceBounded | axplat/src/mem.rs:257-275 | ordered sources give at most one extra piece per excluded range |
| BootSchedule.StartSecondaryCpus | examples/smp-kernel/src/mp.rs:12-29 | the loop issues exactly the boot requests of the schedule, in order |
| BootSchedule.RequestsAreExact | examples/smp-kernel/src/mp.rs:13-22 | for every primary id the schedule names each secondary once, in increasing order, never the primary, and gives the k-th the k-th stack |
| BootSchedule.SecondariesAre | examples/smp-kernel/src/mp.rs:14-15 | which CPUs are booted: all but the primary, or 0..N-2 if the primary's id is not below N |
| BootSchedule.StacksDisjoint | examples/smp-kernel/src/mp.rs:7-18 | distinct boot stacks share no address and lie inside the stack array |
| SmpBoot.NextKeepsInv | examples/smp-kernel/src/mp.rs:12-49 | every step of every CPU keeps the protocol invariant |
| SmpBoot.RunInv | examples/smp-kernel/src/main.rs:35-53 | the invariant holds after every interleaving, for every CPU count, primary id and missed first startup IPI |
| SmpBootSafety.CellNotOverwritten | platforms/axplat-aarch64-raspi/src/mp.rs:25-37 | the shared stack cell never changes while a released CPU has still to read it |
| SmpBootSafety.StackAsRequested | platforms/axplat-loongarch64-qemu-virt/src/mp.rs:11-21 | a CPU that has loaded its stack pointer has the stack named in its own boot request |
| SmpBootSafety.StacksNeverShared | platforms/axplat-x86-pc/src/mp.rs:36-49 | no two CPUs ever hold overlapping stacks |
| SmpBootSafety.RequestsFollowTheLoop | examples/smp-kernel/src/mp.rs:14-27 | the interleaved primary makes the calls of the sequential loop, in order and completely |
| SmpBootSafety.CounterCountsOnce | examples/smp-kernel/src/init.rs:5-9 | the counter equals the number of CPUs that have added themselves, never exceeds the CPU count, and is at most the number of requests until the primary joins |
| SmpBootSafety.CountedAfterInit | examples/smp-kernel/src/mp.rs:31-35 | a CPU adds itself to the counter only after its `init_kernel_secondary` has returned in an earlier step, the primary only after all secondaries are initialised and the timer handler is registered |
| SmpBootSafety.InitialisedByItself | examples/smp-kernel/src/mp.rs:31-33 | a CPU becomes initialised only by a step of its own, on its boot stack |
| SmpBootSafety.StepsAreAtomic | examples/smp-kernel/src/mp.rs:12-49 | the granularity of the interleaving: a step performs at most one access to shared memory or one local phase, and touches no other CPU except to release a parked one |
| SmpBootSafety.SpinsTestTheCounter | examples/smp-kernel/src/mp.rs:24-41 | the three spin loops are left exactly when their test of the counter succeeds |
| SmpBootSafety.ReleaseByPlatform | platforms/axplat-x86-pc/src/mp.rs:43-48 | one signal releases a CPU at once; of the two startup IPIs the first may be missed and leaves the CPU parked |
| SmpBootSafety.BarrierIsSafe | examples/smp-kernel/src/mp.rs:33-43 | counter full, primary past the barrier, or a CPU with interrupts enabled each imply that every secondary has returned from its initialisation and the timer handler is registered |
| SmpBootSafety.StableForever | examples/smp-kernel/src/init.rs:7-9 | in every continuation a full counter stays full and no CPU loses its stack, its initialisation or its enabled interrupts |
| SmpBootProgress.StepsDescend | examples/smp-kernel/src/mp.rs:14-27 | every step that is not a spin lowers a natural-number measure |
| SmpBootProgress.SomeoneMoves | examples/smp-kernel/src/mp.rs:24-26 | no deadlock: until all participants are past the barrier some actor has a step that changes the state |
| SmpBootProgress.MovesBounded | examples/smp-kernel/src/main.rs:42-52 | any run contains at most 11 * CPU_NUM + 10 steps that are not spins |
| SmpBootProgress.TraceIsRun | examples/smp-kernel/src/main.rs:35-53 | every moment of an infinite run is reached by a finite run, so the safety results hold there |
| SmpBootProgress.FairBootCompletes | examples/smp-kernel/src/main.rs:46-52 | in every fair run all participating CPUs are eventually past the barrier for good |
| SmpBootProgress.FairRunExists | examples/smp-kernel/src/main.rs:35-53 | taking turns is a fair run for every configuration, so completion is not vacuous |
| X86StartupPage.SetupStartupPage | platforms/axplat-x86-pc/src/mp.rs:14-33 | the page holds the trampoline code, then stack and entry in its last two words, and is otherwise unchanged |
| X86StartupPage.PageIsOneCell | platforms/axplat-x86-pc/src/mp.rs:22-32 | a repeated call changes the stack word only, the code stays, and the trampoline's offsets read the last stack and entry |
| PhytiumIds.BootedCoresKnowThemselves | platforms/axplat-aarch64-phytium-pi/src/boot.rs:42-47 | every core reports the id it was booted with iff the id list has no duplicates |
| PhytiumIds.LookupInverts | platforms/axplat-aarch64-phytium-pi/src/boot.rs:42-47 | the lookup succeeds exactly on listed ids and is then inverted by the list |
| PhytiumIds.ConfiguredIdsDistinct | platforms/axplat-aarch64-phytium-pi/axconfig.toml:40 | the configured list qualifies |
| IpiWords.ZeroIffNoBit | platforms/axplat-loongarch64-qemu-virt/src/irq.rs:34-39 | the status word is zero iff no bit is set |
| IpiWords.TrailingZeros | platforms/axplat-loongarch64-qemu-virt/src/irq.rs:40 | the position of the lowest set bit |
| IpiWords.TrailingZerosShift | platforms/axplat-loongarch64-qemu-virt/src/irq.rs:40 | the same in terms of shifts: the word shifted out and back by the result is unchanged, and one more bit would be lost |
| IpiWords.ClearBitBits | platforms/axplat-loongarch64-qemu-virt/src/irq.rs:41 | the mask update removes exactly the chosen bit |
| IpiWords.ClearMaskBits | platforms/axplat-loongarch64-qemu-virt/src/irq.rs:37 | the clear register removes exactly the written bits |
| IpiWords.SendWordRoundTrip | platforms/axplat-loongarch64-qemu-virt/src/irq.rs:24-30 | a send word decodes to CPU, vector and blocking bit iff the CPU is below 1024 and the vector below 32 |
| IpiWords.SendWordLayout | platforms/axplat-loongarch64-qemu-virt/src/irq.rs:24-30 | the fields lie in bits 4..0, 25..16 and 31 of the word, all other bits are zero |
| IpiWords.SendIpi | platforms/axplat-loongarch64-qemu-virt/src/irq.rs:115-131 | a directed request writes exactly one word, for its CPU; a broadcast writes one for each CPU below the count except the sender, in increasing order |
| IpiWords.RecipientsAddressed | platforms/axplat-loongarch64-qemu-virt/src/irq.rs:116-129 | the recipients are the CPU named, or all below the count but the sender |
| IpiWords.OthersBelow | platforms/axplat-loongarch64-qemu-virt/src/irq.rs:123-129 | a broadcast addresses each CPU below the count except the sender exactly once |
| IpiWords.DeliversIffSmall | platforms/axplat-loongarch64-qemu-virt/src/irq.rs:115-131 | every word of a request reaches its recipient iff all recipients are below 1024 |
| IpiWords.CpuOutOfField | platforms/axplat-loongarch64-qemu-virt/src/irq.rs:24-30 | the request for CPU 1024 names another CPU |
| LoongIpi.NoSendLost | platforms/axplat-loongarch64-qemu-virt/src/irq.rs:32-46 | in every interleaving a send not yet followed by a handler start has its bit in the register or in the local word |
| LoongIpi.OneAccessPerStep | platforms/axplat-loongarch64-qemu-virt/src/irq.rs:32-46 | reading the status, clearing it and running a handler are separate steps, and only bits read in an earlier step are cleared |
| LoongIpi.QuietMeansDone | platforms/axplat-loongarch64-qemu-virt/src/irq.rs:33-36 | an idle receiver with a clear register owes no handler run |
| LoongIpi.NoSpuriousStart | platforms/axplat-loongarch64-qemu-virt/src/irq.rs:37-45 | starts of a handler plus its outstanding bits never exceed its sends |
| LoongIpi.StartsAtMostSends | platforms/axplat-loongarch64-qemu-virt/src/irq.rs:37-45 | per vector, handlers start at most as often as they were asked for |
| LoongIpi.ReceiverAdvances | platforms/axplat-loongarch64-qemu-virt/src/irq.rs:32-46 | each receiver step starts the handler of a pending bit or shortens its wait |
| LoongIpi.PendingStarts | platforms/axplat-loongarch64-qemu-virt/src/irq.rs:39-45 | a pending bit's handler starts within its wait, counted in receiver steps, under any number of interleaved sends |
| LoongIpi.OwedIsServed | platforms/axplat-loongarch64-qemu-virt/src/irq.rs:32-46 | every outstanding send is served within 68 receiver steps |
| IpiWords.LowestIsHead | platforms/axplat-loongarch64-qemu-virt/src/irq.rs:39-41 | in the ordered list of set bits, the chosen vector is the head and the updated word has the tail |
| LoongIpi.TakeLowest | platforms/axplat-loongarch64-qemu-virt/src/irq.rs:40-41 | picks the first set bit and leaves the remaining ones |
| LoongIpi.Drain | platforms/axplat-loongarch64-qemu-virt/src/irq.rs:39-45 | the loop terminates and runs the handler once per set bit, lowest first |
| LoongIpi.HandleIpi | platforms/axplat-loongarch64-qemu-virt/src/irq.rs:32-46 | one undisturbed call handles all set bits in increasing order and clears what it read |
| IpiSystem.EachCpuAlone | platforms/axplat-loongarch64-qemu-virt/src/irq.rs:32-46 | in a system of any number of CPUs each behaves as a single receiver under the words that name it and its own steps |
| IpiSystem.WordIsServed | platforms/axplat-loongarch64-qemu-virt/src/irq.rs:32-46 | a word that names an existing CPU has its handler started there within 68 of that CPU's own steps, under any interleaving |
| IpiSystem.ReachesIffSmall | platforms/axplat-loongarch64-qemu-virt/src/irq.rs:115-131 | the word written for a CPU raises bit 0 of that CPU and touches no other iff its number is below 1024 |
| IpiSystem.RequestIsExact | platforms/axplat-loongarch64-qemu-virt/src/irq.rs:115-131 | the writes of a request raise the interrupt once at every addressed CPU and leave the state of every other CPU as it was |
| IpiSystem.WordDecodes | platforms/axplat-loongarch64-qemu-virt/src/irq.rs:24-30 | the controller delivers a fitting word to the CPU and vector encoded in it |
| IpiSystem.RequestIsServed | platforms/axplat-loongarch64-qemu-virt/src/irq.rs:115-131 | end to end: once the words of a request are written, whatever is interleaved, every recipient below 1024 starts its handler within 68 of its own steps after the last write |
| IpiSystem.StartsAtMostWrites | platforms/axplat-loongarch64-qemu-virt/src/irq.rs:32-46 | no CPU starts a handler more often than written words name it |
| LoongIrq.IrqController.SetEnable | platforms/axplat-loongarch64-qemu-virt/src/irq.rs:55-74 | changes exactly the line of a supported interrupt, keeps the IPI enable register in step with the IPI line |
| LoongIrq.IrqController.Register | platforms/axplat-loongarch64-qemu-virt/src/irq.rs:77-84 | success iff the slot is free; then the timer or IPI line is enabled; no line whose handler could be reached loses that; a failure changes nothing |
| LoongIrq.IrqController.Unregister | platforms/axplat-loongarch64-qemu-virt/src/irq.rs:86-93 | returns the handler, always disables the line; both enable registers are unchanged iff the line was off or unsupported |
| LoongIrq.FailedUnregisterDisables | platforms/axplat-loongarch64-qemu-virt/src/init.rs:26-30 | in the state after late initialisation an unregistration that finds no handler still turns the IPI line off |
| PeriodicTimer.TickTimer.UpdateTimer | examples/irq-kernel/src/irq.rs:22-36 | adds one to the counter (starting again at 2^64), arms the next deadline and stores the one after it; panics exactly when that does not fit in 64 bits |
| PeriodicTimer.CounterIsRuns | examples/irq-kernel/src/irq.rs:24 | the counter is the number of handler runs until there are 2^64 of them |
| PeriodicTimer.DeadlineGap | examples/irq-kernel/src/irq.rs:28-36 | each deadline is after the time read, exactly one period after the last iff the run was on time, otherwise at least two |
| PeriodicTimer.OnTimeIffNoDrift | examples/irq-kernel/src/irq.rs:28-36 | the k-th deadline is first + k periods iff no run so far was late by a period, and never earlier |
| PeriodicTimer.CpuTimers.UpdateTimer | examples/smp-kernel/src/irq.rs:14-32 | one CPU's run changes that CPU's deadline and timer only |
| PeriodicTimer.CpusAreIndependent | examples/smp-kernel/src/irq.rs:14-32 | under any interleaving each CPU's deadlines are those of its own runs alone |
| TimerTest.BusyWait | axplat/src/time.rs:67-76 | stops at the first later clock reading that reaches the deadline |
| TimerTest.WaitSeconds | examples/irq-kernel/src/irq.rs:50-57 | performs the given number of one-second waits one after the other |
| TimerTest.WaitsAddUp | examples/irq-kernel/src/irq.rs:50-57 | n waits of one second end at a reading at least n seconds after the first |
| TimerTest.WaitsAreShort | examples/irq-kernel/src/irq.rs:50-57 | they take at most one reading longer each |
| TimerTest.OneMoreWait | examples/irq-kernel/src/irq.rs:50-57 | each wait ends at the first later reading that is a second after the end of the one before |
| TimerTest.EnoughInterrupts | examples/irq-kernel/src/irq.rs:46-69 | if the first interrupt precedes the wait and none is handled a period late, at least TICKS_PER_SEC per second are counted |
| TimerTest.CheckCount | examples/irq-kernel/src/irq.rs:59-69 | a timer that was punctual during the wait passes; with fewer than 2^64 runs the test panics iff they are fewer than TICKS_PER_SEC per second |
| TimerTest.CheckPasses | examples/irq-kernel/src/irq.rs:59-69 | for a punctual timer the 64-bit counter has not wrapped and reaches the bound |
| TimerTest.OneLateFails | examples/irq-kernel/src/irq.rs:62-69 | a run with a single interrupt late by exactly one period on which the test's bound is missed |
| TimerTest.OneLatePanics | examples/irq-kernel/src/irq.rs:62-69 | that run executed through the handler and the test: it panics |
| TimerTest.BoundIsTight | examples/irq-kernel/src/irq.rs:62 | the bound cannot be raised: a timer that is never late can have exactly that many interrupts |
| TimerTest.RegularIsPunctual | examples/irq-kernel/src/irq.rs:22-36 | such a timer meets the hypothesis of the test for every interval |
| Clocks.X86ConversionsRoundDown | platforms/axplat-x86-pc/src/time.rs:86-93 | each conversion is its exact value rounded down, defined iff the product fits in 64 bits |
| Clocks.X86TickRoundTrip | platforms/axplat-x86-pc/src/time.rs:86-93 | the way back never overflows and loses exactly the first remainder over 1000, rounded up |
| Clocks.X86NanoRoundTrip | platforms/axplat-x86-pc/src/time.rs:86-93 | the opposite trip never overflows and loses exactly the first remainder over the frequency, rounded up |
| Clocks.X86RoundTripLoss | platforms/axplat-x86-pc/src/time.rs:86-93 | uniform bounds on both losses |
| Clocks.X86TickRoundTripExact | platforms/axplat-x86-pc/src/time.rs:86-93 | ticks survive iff the first division is exact |
| Clocks.X86Monotone | platforms/axplat-x86-pc/src/time.rs:86-93 | both conversions preserve order and are defined on an initial segment |
| Clocks.UsableIffAtMostGigahertz | platforms/axplat-loongarch64-qemu-virt/src/time.rs:83-84 | the conversion to ticks works iff the frequency is at most a gigahertz |
| Clocks.TickLengthRoundsDown | platforms/axplat-loongarch64-qemu-virt/src/time.rs:82-84 | a tick's length in nanoseconds is the exact one rounded down |
| Clocks.Galois | platforms/axplat-riscv64-qemu-virt/src/time.rs:49-56 | ticks_to_nanos(t) <= n iff t <= nanos_to_ticks(n) |
| Clocks.TickRoundTrip | platforms/axplat-loongarch64-qemu-virt/src/time.rs:105-112 | ticks survive the round trip exactly |
| Clocks.ClockRate | platforms/axplat-loongarch64-qemu-virt/src/time.rs:82-84 | the clock never runs fast and is exact iff the frequency divides a billion |
| Clocks.RiscvArmsJustBefore | platforms/axplat-riscv64-qemu-virt/src/time.rs:67-69 | the timer is armed at or before the deadline, less than one tick early |
| Clocks.LoongArmsIffNotPast | platforms/axplat-loongarch64-qemu-virt/src/time.rs:120-128 | the countdown does not underflow iff the deadline has not passed; it then ends at the deadline's tick |
| Clocks.LoongHandlerSurvives | platforms/axplat-loongarch64-qemu-virt/src/time.rs:120-128 | a handler whose deadline was in the future when it read the clock survives iff no more ticks pass before it arms than fit into the time that was left |
| Clocks.LoongArmTooLate | platforms/axplat-loongarch64-qemu-virt/src/time.rs:120-128 | a deadline in the future at the reading that underflows one tick later |
| Clocks.EpochOffsetIff | platforms/axplat-riscv64-qemu-virt/src/time.rs:24-27 | the offset can be computed iff the time since power-on does not exceed the RTC reading |
| Clocks.WallClockStartsAtRtc | platforms/axplat-riscv64-qemu-virt/src/time.rs:24-30 | wall time is the RTC reading plus the time since it was read |
| Clocks.X86WallClockLags | platforms/axplat-x86-pc/src/time.rs:42-47 | whenever it is read, x86 wall time is the RTC reading plus elapsed time minus the time counted before initialisation; when it panics |
| Clocks.X86WallClockStartsBehind | platforms/axplat-x86-pc/src/time.rs:42-47 | wall time at initialisation is behind the RTC by the earlier counter value, hence equal iff that is below a nanosecond |
| Clocks.X86WallClockExample | platforms/axplat-x86-pc/src/time.rs:46 | a concrete start at which the wall clock is a microsecond behind |
| ArmBootTable.InitPageTables | platforms/axplat-arm-qemu-virt/src/boot.rs:32-68 | the first phase writes the eight early sections and nothing else |
| ArmBootTable.InitPageTablesAfterMmu | platforms/axplat-arm-qemu-virt/src/boot.rs:76-102 | the second phase performs all 2048 writes of the linear map |
| ArmBootTable.BuildBootTable | platforms/axplat-arm-qemu-virt/src/boot.rs:15-102 | both phases on the empty table give the boot table |
| ArmBootTable.WalkIsIntended | platforms/axplat-arm-qemu-virt/src/boot.rs:76-102 | after every single write of the second phase, during which the table is in use, the hardware walk is exactly the intended map, for every address |
| ArmBootTable.EachWriteMapsOneMegabyte | platforms/axplat-arm-qemu-virt/src/boot.rs:80-102 | the k-th write maps the k-th megabyte of the linear map, as device memory below 0x4000_0000, and changes no other address |
| ArmBootTable.TranslationsNeverChange | platforms/axplat-arm-qemu-virt/src/boot.rs:80-102 | during the second phase no translated address changes its target or memory type |
| ArmBootTable.TranslationsInvert | platforms/axplat-arm-qemu-virt/src/mem.rs:34-42 | phys_to_virt and virt_to_phys are inverse between the lower and the upper two gigabytes |
| ArmBootTable.LinearMapRefined | platforms/axplat-arm-qemu-virt/src/mem.rs:34-42 | the final walk agrees with phys_to_virt and virt_to_phys everywhere and keeps only the early window below |
| ArmBootTable.EarlyImageAlwaysMapped | platforms/axplat-arm-qemu-virt/src/boot.rs:36-54 | the first four megabytes stay mapped at both addresses throughout |
| Sv39BootTable.InitBootPageTable | platforms/axplat-riscv64-qemu-virt/src/boot.rs:11-22 | whatever the table held, afterwards every address of the four windows translates to its target for every access and every other address translates as before; on the zeroed table that is the intended map and nothing else |
| Sv39BootTable.WindowsAreEntries | platforms/axplat-riscv64-qemu-virt/src/boot.rs:13-20 | the four written entries serve exactly the four windows named beside them, among all canonical addresses |
| Sv39BootTable.LeafWordBits | platforms/axplat-riscv64-qemu-virt/src/boot.rs:14-20 | the shift-and-or form of the entries has the value the model uses |
| Sv39BootTable.WalkIsExact | platforms/axplat-riscv64-qemu-virt/src/boot.rs:11-22 | for every address and access the walk translates the two gigabytes, at identity and linear offset, and nothing else |
| Sv39BootTable.FlagsAreNeeded | platforms/axplat-riscv64-qemu-virt/src/boot.rs:13-20 | 0xef, up to the global bit, is the only flag byte that makes a gigabyte readable, writable and executable for the supervisor |
| Sv39BootTable.TranslationsInvert | platforms/axplat-riscv64-qemu-virt/src/mem.rs:41-49 | phys_to_virt and virt_to_phys are inverse, between the addresses whose sum with the offset fits and the addresses from the offset on |
| Sv39BootTable.TranslationIsLinear | platforms/axplat-riscv64-qemu-virt/src/mem.rs:41-44 | translation keeps distances |
| Sv39BootTable.LinearMapIffMapped | platforms/axplat-riscv64-qemu-virt/src/mem.rs:41-44 | the walk inverts phys_to_virt exactly on the two mapped gigabytes, whose image is in the upper half |
| RiscvIrq.IrqController.Register | platforms/axplat-riscv64-qemu-virt/src/irq.rs:81-100 | succeeds iff the cause is the timer, software or a device number below 1024 and has no handler, and then inserts it into the one map; panics on an unknown cause |
| RiscvIrq.IrqController.Unregister | platforms/axplat-riscv64-qemu-virt/src/irq.rs:106-131 | acts as removal from the one map and returns what was there |
| RiscvIrq.IrqController.Handle | platforms/axplat-riscv64-qemu-virt/src/irq.rs:138-170 | starts exactly the handler the map holds for the cause, number 0 for external interrupts; panics on every other cause |
| RiscvIrq.OccupancyBalance | platforms/axplat-riscv64-qemu-virt/src/irq.rs:81-131 | over any sequence of operations, registrations minus removals is 1 or 0 and equals occupancy |
| RiscvIrq.RemovalReturnsLast | platforms/axplat-riscv64-qemu-virt/src/irq.rs:106-131 | an unregistration returns the handler of the last successful registration |
| HandlerTable.Table.RegisterHandler | platforms/axplat-riscv64-qemu-virt/src/irq.rs:91 | a slot operation that fails on an occupied slot and outside the table |
| HandlerTable.Table.UnregisterHandler | platforms/axplat-riscv64-qemu-virt/src/irq.rs:129 | a slot operation that returns and clears the slot |
| SbiConsole.TryWriteBytes | platforms/axplat-riscv64-qemu-virt/src/console.rs:8-17 | offers at most 256 bytes, delivers the prefix the firmware takes and returns the value field of the answer, of a failed call as well |
| SbiConsole.WriteBytes | platforms/axplat-riscv64-qemu-virt/src/console.rs:26-39 | unless a failed call reports a value other than zero, delivers a prefix of the input, each byte once and in order, whatever the firmware accepts; in all cases where the loop ends, what it delivers and when it panics |
| SbiConsole.FaithfulIffTrusted | platforms/axplat-riscv64-qemu-virt/src/console.rs:8-17 | the console receives the bytes up to where the loop ends iff no call it makes fails with a value other than zero |
| SbiConsole.AdvanceIsDelivery | platforms/axplat-riscv64-qemu-virt/src/console.rs:26-39 | the loop advances by the bytes delivered plus the values of failed calls |
| SbiConsole.FailureSkips | platforms/axplat-riscv64-qemu-virt/src/console.rs:8-17 | one failed call that reports the offered length loses the whole output |
| SbiConsole.ProgressCompletes | platforms/axplat-riscv64-qemu-virt/src/console.rs:29-38 | if nothing is skipped, enough calls with progress deliver everything; an unfinished write has used up all calls |
| SbiConsole.WillingFirmware | platforms/axplat-riscv64-qemu-virt/src/console.rs:29-38 | firmware that takes at least one byte per call needs at most one call per byte |
| SbiConsole.ObligingFirmware | platforms/axplat-riscv64-qemu-virt/src/console.rs:10-12 | firmware that always takes 256 bytes needs one call per 256 bytes |
| Pl011.ExpandOne | platforms/axplat-arm-peripherals/src/pl011.rs:10-18 | a line feed goes out as carriage return and line feed, every other byte as itself |
| Pl011.WriteBytes | platforms/axplat-arm-peripherals/src/pl011.rs:31-36 | the wire receives the newline expansion of the bytes |
| Pl011.ReadBytes | platforms/axplat-arm-peripherals/src/pl011.rs:40-51 | reads what arrives, also during the loop, until a read finds nothing or the buffer is full, in order, and leaves the rest of buffer and input alone |
| Pl011.EchoPending | platforms/axplat-arm-peripherals/src/pl011.rs:60-68 | the receive interrupt echoes every byte up to the first read that finds nothing, expanded |
| Pl011.ExpandConcat | platforms/axplat-arm-peripherals/src/pl011.rs:31-36 | writing in pieces puts the same bytes on the wire as writing at once |
| Pl011.ExpandInvertible | platforms/axplat-arm-peripherals/src/pl011.rs:10-18 | the newline expansion has a left inverse on all byte strings |
| Pl011.CollapseInvertibleIff | platforms/axplat-arm-peripherals/src/pl011.rs:10-18 | the wire can carry exactly the strings whose line feeds all follow a carriage return |

## Left out

- Device registers, assembly, cache and TLB maintenance, and firmware calls other than the abstract
  ones above.
- Weak memory: acquire and release orderings are not distinguished from sequential consistency.
- Firmware that fails to start a CPU (platforms/axplat-riscv64-qemu-virt/src/power.rs:18-21 returns
  silently, and the primary then spins forever): completion assumes that a release takes effect, on
  x86 at the second startup IPI at the latest.
- The four-entry spin table of the Raspberry Pi, whose index is out of range for a fifth CPU, and
  stack passing by register (RISC-V, PSCI), which needs no shared cell.
- What `init_kernel` and `init_kernel_secondary` do, beyond their place in the order of boot.
- Builds without overflow checks, and `usize` of 32 bits in the range functions.
- A failed SBI console call is taken to deliver nothing.
- UART input that never pauses: the polls of the PL011 model are a finite list, after which nothing
  arrives.
- The `int_ratio` conversions of the ARM and x86 timers, and the width of the LoongArch timer's
  initial-value field.
- Encoders of page table entries: ARM sections are a base and a memory type. Further translation
  levels of Sv39 and the AArch64 and LoongArch boot tables.
- RISC-V software interrupts: the handler runs before the pending bit is cleared, so no counterpart
  of the LoongArch no-loss result is stated.
- Two handler runs overlapping on one CPU.
- BootSchedule.StartSecondaryCpus: the spin on INITED_CPUS between two requests changes nothing the
  method promises and is absent from it; it is the step `AwaitCounter` of `SmpBoot`.
- SmpBootSafety.StacksNeverShared: compares the stacks of the secondary CPUs; the primary runs on a
  separate static, whose place is the linker's business.
- SmpBoot.NextKeepsInv: the protocol's steps are functions on a state value, because its statements
  range over all interleavings; `BootSchedule.StartSecondaryCpus` is the loop as a method.
- SbiConsole.WriteBytes: the retry loop of the source is unbounded; the model stops when the given
  description of the firmware ends, because the loop does not terminate if the firmware never makes
  progress.
- cargo-axplat, the macros, configuration plumbing and drivers of the remaining platforms.

/**
  The multi-core boot protocol (examples/smp-kernel/src/main.rs, mp.rs and init.rs) on platforms that
  hand the boot stack over through one shared cell: SECONDARY_STACK_TOP on raspi,
  SMP_BOOT_STACK_TOP on LoongArch, the last-but-one word of the startup page on x86.

  The primary and every secondary CPU take atomic steps in any order. A step that only spins leaves
  the state as it is. Memory is sequentially consistent.
 */
module SmpBoot {
  import opened BootSchedule

  /** How a parked CPU is released after its stack has been stored. */
  datatype Platform =
    | OneSignal      // spin-table slot, or mailbox and IPI
    | InitSipiSipi   // two startup IPIs; the first one may be missed

  datatype PrimaryPc =
    | LoopHead       // for i in 0..CPU_NUM
    | StoreStack     // cpu_boot: write the shared cell
    | Signal         // cpu_boot: release the CPU
    | SignalAgain    // cpu_boot on x86: second startup IPI
    | AwaitCounter   // while INITED_CPUS < logic_cpu_id
    | RegisterIrq    // init_irq
    | Join           // INITED_CPUS.fetch_add
    | Barrier        // while !init_smp_ok
    | Past

  datatype CpuPc =
    | Parked         // not released
    | Entered        // in the trampoline, the cell not yet read
    | OnStack        // sp loaded, in init_kernel_secondary
    | Inited         // about to INITED_CPUS.fetch_add
    | Waiting        // while !init_smp_ok
    | Running        // interrupts enabled

  /** `initialised` records that this CPU's `init_kernel_secondary` has returned. */
  datatype Cpu = Cpu(pc: CpuPc, sp: nat, initialised: bool) {
    /** This CPU has added itself to the counter. */
    predicate Counted() { pc == Waiting || pc == Running }

    predicate HasStack() { pc != Parked && pc != Entered }

    function Wake(): Cpu { if pc == Parked then this.(pc := Entered) else this }
  }

  const PARKED := Cpu(Parked, 0, false)

  /** `i` and `logic` are the loop's variables; `requests` is the history of `cpu_boot` calls. */
  datatype State = State(
    pc: PrimaryPc, i: nat, logic: nat, cell: nat, counter: nat, registered: bool,
    cpus: seq<Cpu>, requests: seq<BootRequest>)

  datatype Actor = Primary | Secondary(cpu: nat)

  /** One scheduling choice; `missed` says whether a first startup IPI has no effect. */
  datatype Event = Event(actor: Actor, missed: bool)

  function Init(cfg: Config): State {
    State(LoopHead, 0, 0, 0, 0, false, seq(cfg.n, _ => PARKED), [])
  }

  function PrimaryStep(cfg: Config, platform: Platform, s: State, missed: bool): State
    requires cfg.Valid() && |s.cpus| == cfg.n
  {
    match s.pc
    case LoopHead =>
      if s.i >= cfg.n then s.(pc := RegisterIrq)
      else if s.i != cfg.primary && s.logic < cfg.n - 1 then s.(pc := StoreStack)
      else s.(i := s.i + 1)
    case StoreStack =>
      s.(pc := Signal, cell := cfg.StackTop(s.logic),
         requests := s.requests + [BootRequest(s.i, cfg.StackTop(s.logic))])
    case Signal =>
      if s.i >= cfg.n then s
      else if platform == OneSignal then
        s.(pc := AwaitCounter, logic := s.logic + 1, cpus := s.cpus[s.i := s.cpus[s.i].Wake()])
      else if missed then s.(pc := SignalAgain)
      else s.(pc := SignalAgain, cpus := s.cpus[s.i := s.cpus[s.i].Wake()])
    case SignalAgain =>
      if s.i >= cfg.n then s
      else s.(pc := AwaitCounter, logic := s.logic + 1, cpus := s.cpus[s.i := s.cpus[s.i].Wake()])
    case AwaitCounter =>
      if s.counter < s.logic then s else s.(pc := LoopHead, i := s.i + 1)
    case RegisterIrq => s.(pc := Join, registered := true)
    case Join => s.(pc := Barrier, counter := s.counter + 1)
    case Barrier => if s.counter == cfg.n then s.(pc := Past) else s
    case Past => s
  }

  function SecondaryStep(cfg: Config, s: State, c: nat): State
    requires |s.cpus| == cfg.n
  {
    if c >= cfg.n then s
    else
      var cpu := s.cpus[c];
      match cpu.pc
      case Parked => s
      case Entered => s.(cpus := s.cpus[c := cpu.(pc := OnStack, sp := s.cell)])
      case OnStack => s.(cpus := s.cpus[c := cpu.(pc := Inited, initialised := true)])
      case Inited => s.(cpus := s.cpus[c := cpu.(pc := Waiting)], counter := s.counter + 1)
      case Waiting => if s.counter == cfg.n then s.(cpus := s.cpus[c := cpu.(pc := Running)]) else s
      case Running => s
  }

  function Next(cfg: Config, platform: Platform, s: State, e: Event): (s': State)
    requires cfg.Valid() && |s.cpus| == cfg.n
    ensures |s'.cpus| == cfg.n
  {
    match e.actor
    case Primary => PrimaryStep(cfg, platform, s, e.missed)
    case Secondary(c) => SecondaryStep(cfg, s, c)
  }

  /** The state after a finite run. */
  function Run(cfg: Config, platform: Platform, es: seq<Event>): (s: State)
    requires cfg.Valid()
    ensures |s.cpus| == cfg.n
  {
    if es == [] then Init(cfg)
    else Next(cfg, platform, Run(cfg, platform, es[..|es| - 1]), es[|es| - 1])
  }

  // ---------- the invariant ----------

  predicate InLoop(pc: PrimaryPc) {
    pc == LoopHead || pc == StoreStack || pc == Signal || pc == SignalAgain || pc == AwaitCounter
  }

  predicate Joined(pc: PrimaryPc) { pc == Barrier || pc == Past }

  function One(b: bool): nat { if b then 1 else 0 }

  function CountCounted(cpus: seq<Cpu>): nat {
    if cpus == [] then 0
    else CountCounted(cpus[..|cpus| - 1]) + One(cpus[|cpus| - 1].Counted())
  }

  /** Where the boot loop stands. */
  predicate LoopInv(cfg: Config, s: State)
    requires cfg.Valid() && |s.cpus| == cfg.n
  {
    && s.i <= cfg.n
    && (InLoop(s.pc) && s.pc != LoopHead ==> cfg.IsSecondary(s.i))
    && (s.pc == AwaitCounter ==> s.logic == cfg.RankOf(s.i) + 1)
    && (InLoop(s.pc) && s.pc != AwaitCounter ==> s.logic == cfg.BootedBefore(s.i))
    && (!InLoop(s.pc) ==> s.i == cfg.n && s.logic == cfg.n - 1)
  }

  /** The calls made so far, and what the cell holds while one is in progress. */
  predicate RequestInv(cfg: Config, s: State) {
    && s.requests == Requests(cfg, s.logic + One(s.pc == Signal || s.pc == SignalAgain))
    && (s.pc == Signal || s.pc == SignalAgain ==> s.cell == cfg.StackTop(s.logic))
  }

  /** The one CPU that may be between release and its increment. */
  predicate InFlight(s: State, c: nat) { c == s.i && (s.pc == SignalAgain || s.pc == AwaitCounter) }

  predicate CpuInv(cfg: Config, s: State, c: nat)
    requires cfg.Valid() && |s.cpus| == cfg.n && c < cfg.n
  {
    var cpu := s.cpus[c];
    && (!InFlight(s, c) ==>
          if cfg.IsSecondary(c) && cfg.RankOf(c) < s.logic then cpu.Counted() else cpu == PARKED)
    && (s.pc == AwaitCounter && c == s.i ==> cpu.pc != Parked)
    && (cpu.pc == Entered ==> s.cell == cfg.StackTop(cfg.RankOf(c)))
    && (cpu.HasStack() ==> cpu.sp == cfg.StackTop(cfg.RankOf(c)))
    && (cpu.initialised <==> cpu.pc == Inited || cpu.Counted())
    && (cpu.pc == Running ==> Joined(s.pc) && s.counter == cfg.n)
  }

  /** The counter is determined by the primary's position and the CPU in flight. */
  predicate CounterInv(cfg: Config, s: State)
    requires cfg.Valid() && |s.cpus| == cfg.n
  {
    match s.pc
    case LoopHead | StoreStack | Signal => s.counter == s.logic
    case SignalAgain => s.i < cfg.n && s.counter == s.logic + One(s.cpus[s.i].Counted())
    case AwaitCounter => s.i < cfg.n && s.counter + 1 == s.logic + One(s.cpus[s.i].Counted())
    case RegisterIrq | Join => s.counter == cfg.n - 1
    case Barrier | Past => s.counter == cfg.n
  }

  ghost predicate Inv(cfg: Config, s: State)
    requires cfg.Valid()
  {
    && |s.cpus| == cfg.n
    && LoopInv(cfg, s)
    && RequestInv(cfg, s)
    && (forall c :: 0 <= c < cfg.n ==> CpuInv(cfg, s, c))
    && CounterInv(cfg, s)
    && s.counter == CountCounted(s.cpus) + One(Joined(s.pc))
    && (s.registered <==> s.pc == Join || Joined(s.pc))
  }

  lemma {:induction false} CountUpdate(cpus: seq<Cpu>, c: nat, cpu: Cpu)
    requires c < |cpus|
    ensures CountCounted(cpus[c := cpu]) + One(cpus[c].Counted()) == CountCounted(cpus) + One(cpu.Counted())
    decreases |cpus|
  {
    var m := |cpus| - 1;
    if c < m {
      assert cpus[c := cpu][..m] == cpus[..m][c := cpu];
      CountUpdate(cpus[..m], c, cpu);
    } else {
      assert cpus[c := cpu][..m] == cpus[..m];
    }
  }

  lemma {:induction false} NoneCounted(cpus: seq<Cpu>)
    requires forall c :: 0 <= c < |cpus| ==> !cpus[c].Counted()
    ensures CountCounted(cpus) == 0
    decreases |cpus|
  {
    if cpus != [] { NoneCounted(cpus[..|cpus| - 1]); }
  }

  lemma InitInv(cfg: Config)
    requires cfg.Valid()
    ensures Inv(cfg, Init(cfg))
  {
    NoneCounted(Init(cfg).cpus);
  }

  lemma PrimaryKeepsLoop(cfg: Config, platform: Platform, s: State, missed: bool)
    requires cfg.Valid() && |s.cpus| == cfg.n && LoopInv(cfg, s)
    ensures LoopInv(cfg, PrimaryStep(cfg, platform, s, missed))
  {
  }

  lemma PrimaryKeepsRequests(cfg: Config, platform: Platform, s: State, missed: bool)
    requires cfg.Valid() && |s.cpus| == cfg.n && LoopInv(cfg, s) && RequestInv(cfg, s)
    ensures RequestInv(cfg, PrimaryStep(cfg, platform, s, missed))
  {
    if s.pc == StoreStack {
      assert Requests(cfg, s.logic + 1) == Requests(cfg, s.logic) + [Request(cfg, s.logic)];
    }
  }

  lemma PrimaryKeepsCpu(cfg: Config, platform: Platform, s: State, missed: bool, c: nat)
    requires cfg.Valid() && Inv(cfg, s) && c < cfg.n
    ensures CpuInv(cfg, PrimaryStep(cfg, platform, s, missed), c)
  {
    var s' := PrimaryStep(cfg, platform, s, missed);
    assert CpuInv(cfg, s, c);
    if (s.pc == Signal || s.pc == SignalAgain) && c == s.i {
      assert s'.cpus[c] == s.cpus[c] || s'.cpus[c] == s.cpus[c].Wake();
    } else {
      assert s'.cpus[c] == s.cpus[c];
    }
  }

  /** Releasing a CPU does not make it count as initialised. */
  lemma WakeKeepsCounter(cfg: Config, platform: Platform, s: State, missed: bool)
    requires cfg.Valid() && Inv(cfg, s) && (s.pc == Signal || s.pc == SignalAgain)
    ensures var s' := PrimaryStep(cfg, platform, s, missed);
            CounterInv(cfg, s') && s'.counter == CountCounted(s'.cpus) && !s'.registered && !Joined(s'.pc)
  {
    var cpu := s.cpus[s.i];
    assert CpuInv(cfg, s, s.i);
    CountUpdate(s.cpus, s.i, cpu.Wake());
    assert cpu.Wake().Counted() == cpu.Counted();
  }

  lemma PrimaryKeepsCounter(cfg: Config, platform: Platform, s: State, missed: bool)
    requires cfg.Valid() && Inv(cfg, s)
    ensures var s' := PrimaryStep(cfg, platform, s, missed);
            && CounterInv(cfg, s')
            && s'.counter == CountCounted(s'.cpus) + One(Joined(s'.pc))
            && (s'.registered <==> s'.pc == Join || Joined(s'.pc))
  {
    if s.pc == Signal || s.pc == SignalAgain {
      WakeKeepsCounter(cfg, platform, s, missed);
    } else if s.pc == AwaitCounter {
      assert CpuInv(cfg, s, s.i);
    }
  }

  lemma PrimaryKeepsInv(cfg: Config, platform: Platform, s: State, missed: bool)
    requires cfg.Valid() && Inv(cfg, s)
    ensures Inv(cfg, PrimaryStep(cfg, platform, s, missed))
  {
    PrimaryKeepsLoop(cfg, platform, s, missed);
    PrimaryKeepsRequests(cfg, platform, s, missed);
    PrimaryKeepsCounter(cfg, platform, s, missed);
    forall c | 0 <= c < cfg.n ensures CpuInv(cfg, PrimaryStep(cfg, platform, s, missed), c) {
      PrimaryKeepsCpu(cfg, platform, s, missed, c);
    }
  }

  lemma SecondaryKeepsCpu(cfg: Config, s: State, c: nat, d: nat)
    requires cfg.Valid() && Inv(cfg, s) && c < cfg.n && d < cfg.n
    ensures CpuInv(cfg, SecondaryStep(cfg, s, c), d)
  {
    assert CpuInv(cfg, s, c) && CpuInv(cfg, s, d);
  }

  lemma SecondaryKeepsCounter(cfg: Config, s: State, c: nat)
    requires cfg.Valid() && Inv(cfg, s) && c < cfg.n
    ensures var s' := SecondaryStep(cfg, s, c);
            CounterInv(cfg, s') && s'.counter == CountCounted(s'.cpus) + One(Joined(s'.pc))
  {
    assert CpuInv(cfg, s, c);
    CountUpdate(s.cpus, c, SecondaryStep(cfg, s, c).cpus[c]);
  }

  lemma SecondaryKeepsLoop(cfg: Config, s: State, c: nat)
    requires cfg.Valid() && |s.cpus| == cfg.n && LoopInv(cfg, s) && RequestInv(cfg, s)
    ensures var s' := SecondaryStep(cfg, s, c);
            && |s'.cpus| == cfg.n && LoopInv(cfg, s') && RequestInv(cfg, s')
            && s'.registered == s.registered && s'.pc == s.pc
  {
  }

  lemma SecondaryKeepsInv(cfg: Config, s: State, c: nat)
    requires cfg.Valid() && Inv(cfg, s)
    ensures Inv(cfg, SecondaryStep(cfg, s, c))
  {
    if c < cfg.n {
      SecondaryKeepsLoop(cfg, s, c);
      SecondaryKeepsCounter(cfg, s, c);
      forall d | 0 <= d < cfg.n ensures CpuInv(cfg, SecondaryStep(cfg, s, c), d) { SecondaryKeepsCpu(cfg, s, c, d); }
    }
  }

  lemma NextKeepsInv(cfg: Config, platform: Platform, s: State, e: Event)
    requires cfg.Valid() && Inv(cfg, s)
    ensures Inv(cfg, Next(cfg, platform, s, e))
  {
    match e.actor
    case Primary => PrimaryKeepsInv(cfg, platform, s, e.missed);
    case Secondary(c) => SecondaryKeepsInv(cfg, s, c);
  }

  lemma {:induction false} RunInv(cfg: Config, platform: Platform, es: seq<Event>)
    requires cfg.Valid()
    ensures Inv(cfg, Run(cfg, platform, es))
    decreases |es|
  {
    if es == [] {
      InitInv(cfg);
    } else {
      RunInv(cfg, platform, es[..|es| - 1]);
      NextKeepsInv(cfg, platform, Run(cfg, platform, es[..|es| - 1]), es[|es| - 1]);
    }
  }
}

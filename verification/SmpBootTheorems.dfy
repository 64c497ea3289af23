/** Safety of the boot protocol over every run: stacks, counter and barrier. */
module SmpBootSafety {
  import opened BootSchedule
  import opened SmpBoot

  /**
    The shared cell changes only when no released CPU still has to read it. This holds in every
    interleaving, for every CPU count and every primary id.
   */
  lemma CellNotOverwritten(cfg: Config, platform: Platform, es: seq<Event>, e: Event)
    requires cfg.Valid()
    ensures var s := Run(cfg, platform, es);
            Next(cfg, platform, s, e).cell != s.cell ==> forall c :: 0 <= c < cfg.n ==> s.cpus[c].pc != Entered
  {
    var s := Run(cfg, platform, es);
    RunInv(cfg, platform, es);
    forall c | 0 <= c < cfg.n && s.cpus[c].pc == Entered ensures InFlight(s, c) {
      assert CpuInv(cfg, s, c);
    }
  }

  /** A CPU that has loaded its stack pointer runs on the stack its boot request named. */
  lemma StackAsRequested(cfg: Config, platform: Platform, es: seq<Event>, c: nat)
    requires cfg.Valid() && c < cfg.n
    ensures var s := Run(cfg, platform, es);
            s.cpus[c].pc !in {Parked, Entered} ==>
              exists k :: 0 <= k < |s.requests| && s.requests[k] == BootRequest(c, s.cpus[c].sp)
  {
    var s := Run(cfg, platform, es);
    RunInv(cfg, platform, es);
    assert CpuInv(cfg, s, c);
    if s.cpus[c].HasStack() {
      assert s.requests[cfg.RankOf(c)] == BootRequest(c, s.cpus[c].sp);
    }
  }

  /** Two CPUs never hold overlapping stacks. */
  lemma StacksNeverShared(cfg: Config, platform: Platform, es: seq<Event>, c: nat, d: nat)
    requires cfg.Valid() && c < cfg.n && d < cfg.n && c != d
    ensures var s := Run(cfg, platform, es);
            s.cpus[c].pc !in {Parked, Entered} && s.cpus[d].pc !in {Parked, Entered} ==>
              || s.cpus[c].sp <= s.cpus[d].sp - cfg.stackSize
              || s.cpus[d].sp <= s.cpus[c].sp - cfg.stackSize
  {
    var s := Run(cfg, platform, es);
    RunInv(cfg, platform, es);
    assert CpuInv(cfg, s, c) && CpuInv(cfg, s, d);
    if s.cpus[c].HasStack() && s.cpus[d].HasStack() {
      var j, k := cfg.RankOf(c), cfg.RankOf(d);
      if j < k { StacksDisjoint(cfg, j, k); } else { StacksDisjoint(cfg, k, j); }
    }
  }

  /** The calls the primary makes in the protocol are a prefix of those of the sequential loop. */
  lemma RequestsFollowTheLoop(cfg: Config, platform: Platform, es: seq<Event>)
    requires cfg.Valid()
    ensures var s := Run(cfg, platform, es);
            s.requests <= Requests(cfg, cfg.n - 1) && (!InLoop(s.pc) ==> s.requests == Requests(cfg, cfg.n - 1))
  {
    RunInv(cfg, platform, es);
  }

  /**
    The counter is the number of CPUs that have added themselves, it never exceeds the CPU count,
    and until the primary's own increment it is the number of initialised secondaries, which is at
    most the number of boot requests.
   */
  lemma CounterCountsOnce(cfg: Config, platform: Platform, es: seq<Event>)
    requires cfg.Valid()
    ensures var s := Run(cfg, platform, es);
            && s.counter == CountCounted(s.cpus) + One(Joined(s.pc))
            && s.counter <= cfg.n
            && (!Joined(s.pc) ==> s.counter <= |s.requests| <= cfg.n - 1)
  {
    var s := Run(cfg, platform, es);
    RunInv(cfg, platform, es);
    if s.pc == SignalAgain || s.pc == AwaitCounter { assert CpuInv(cfg, s, s.i); }
  }

  /**
    A CPU adds itself to the counter only after its initialisation has returned, in an earlier step;
    the primary only after every secondary is initialised and the timer handler is registered.
   */
  lemma CountedAfterInit(cfg: Config, platform: Platform, es: seq<Event>, e: Event)
    requires cfg.Valid()
    ensures var s, s' := Run(cfg, platform, es), Next(cfg, platform, Run(cfg, platform, es), e);
            s'.counter != s.counter ==>
              && s'.counter == s.counter + 1
              && match e.actor
                 case Primary =>
                   s.registered && forall c :: 0 <= c < cfg.n && cfg.IsSecondary(c) ==> s.cpus[c].initialised
                 case Secondary(c) => c < cfg.n && s.cpus[c].initialised && s.cpus[c].pc == Inited
  {
    var s := Run(cfg, platform, es);
    RunInv(cfg, platform, es);
    if Next(cfg, platform, s, e).counter != s.counter {
      match e.actor
      case Primary => PrimaryCountsLast(cfg, platform, s, e.missed);
      case Secondary(c) => SecondaryCountsAfterInit(cfg, s, c);
    }
  }

  lemma PrimaryCountsLast(cfg: Config, platform: Platform, s: State, missed: bool)
    requires cfg.Valid() && Inv(cfg, s) && PrimaryStep(cfg, platform, s, missed).counter != s.counter
    ensures PrimaryStep(cfg, platform, s, missed).counter == s.counter + 1 && s.registered
    ensures forall c :: 0 <= c < cfg.n && cfg.IsSecondary(c) ==> s.cpus[c].initialised
  {
    assert s.pc == Join;
    forall c | 0 <= c < cfg.n && cfg.IsSecondary(c) ensures s.cpus[c].initialised { assert CpuInv(cfg, s, c); }
  }

  lemma SecondaryCountsAfterInit(cfg: Config, s: State, c: nat)
    requires cfg.Valid() && Inv(cfg, s) && SecondaryStep(cfg, s, c).counter != s.counter
    ensures SecondaryStep(cfg, s, c).counter == s.counter + 1
    ensures c < cfg.n && s.cpus[c].initialised && s.cpus[c].pc == Inited
  {
    if c < cfg.n { assert CpuInv(cfg, s, c); }
  }

  /** A CPU becomes initialised by a step of its own, taken on its boot stack. */
  lemma InitialisedByItself(cfg: Config, platform: Platform, es: seq<Event>, e: Event, c: nat)
    requires cfg.Valid() && c < cfg.n
    ensures var s, s' := Run(cfg, platform, es), Next(cfg, platform, Run(cfg, platform, es), e);
            s'.cpus[c].initialised != s.cpus[c].initialised ==>
              e.actor == Secondary(c) && s.cpus[c].pc == OnStack && s'.cpus[c].initialised
  {
    var s := Run(cfg, platform, es);
    RunInv(cfg, platform, es);
    match e.actor
    case Primary => PrimaryIsAtomic(cfg, platform, s, e.missed);
    case Secondary(d) => SecondaryInitialises(cfg, s, d, c);
  }

  lemma SecondaryInitialises(cfg: Config, s: State, d: nat, c: nat)
    requires cfg.Valid() && |s.cpus| == cfg.n && c < cfg.n
    ensures var s' := SecondaryStep(cfg, s, d);
            s'.cpus[c].initialised != s.cpus[c].initialised ==>
              d == c && s.cpus[c].pc == OnStack && s'.cpus[c].initialised
  {
  }

  /**
    The interleaving is fine enough. A step of the primary does at most one of storing a stack in the
    cell, releasing the CPU in hand, counting itself and registering the handler. A step of another
    CPU changes nothing but its own state and the counter, and at most one of loading its stack from
    the cell, finishing its initialisation and counting itself.
   */
  lemma StepsAreAtomic(cfg: Config, platform: Platform, s: State, e: Event)
    requires cfg.Valid() && Inv(cfg, s)
    ensures var s' := Next(cfg, platform, s, e);
            match e.actor
            case Primary =>
              var stored, counted := s'.cell != s.cell || s'.requests != s.requests, s'.counter != s.counter;
              && One(stored) + One(s'.cpus != s.cpus) + One(counted) + One(s'.registered != s.registered) <= 1
              && forall c :: 0 <= c < cfg.n && s'.cpus[c] != s.cpus[c] ==>
                   c == s.i && s.cpus[c].pc == Parked && s'.cpus[c] == s.cpus[c].(pc := Entered)
            case Secondary(c) =>
              && s'.(cpus := s.cpus, counter := s.counter) == s
              && (forall d :: 0 <= d < cfg.n && d != c ==> s'.cpus[d] == s.cpus[d])
              && (c < cfg.n ==>
                    var cpu, cpu' := s.cpus[c], s'.cpus[c];
                    && (cpu'.sp != cpu.sp ==> s'.counter == s.counter && cpu' == Cpu(OnStack, s.cell, false))
                    && (cpu'.initialised != cpu.initialised ==>
                          s'.counter == s.counter && cpu' == Cpu(Inited, cpu.sp, true))
                    && (s'.counter != s.counter ==> cpu' == Cpu(Waiting, cpu.sp, cpu.initialised)))
  {
    match e.actor
    case Primary => PrimaryIsAtomic(cfg, platform, s, e.missed);
    case Secondary(c) => if c < cfg.n { assert CpuInv(cfg, s, c); }
  }

  lemma PrimaryIsAtomic(cfg: Config, platform: Platform, s: State, missed: bool)
    requires cfg.Valid() && |s.cpus| == cfg.n
    ensures var s' := PrimaryStep(cfg, platform, s, missed);
            && (forall c :: 0 <= c < cfg.n && s'.cpus[c] != s.cpus[c] ==>
                  c == s.i && s.cpus[c].pc == Parked && s'.cpus[c] == s.cpus[c].(pc := Entered))
            && One(s'.requests != s.requests || s'.cell != s.cell) + One(s'.cpus != s.cpus)
                 + One(s'.counter != s.counter) + One(s'.registered != s.registered) <= 1
  {
    var s' := PrimaryStep(cfg, platform, s, missed);
    assert s'.cpus == s.cpus || (s.i < cfg.n && s'.cpus == s.cpus[s.i := s.cpus[s.i].Wake()]);
  }

  /** Each of the three spin loops is left exactly when its test succeeds, and spinning changes nothing. */
  lemma SpinsTestTheCounter(cfg: Config, platform: Platform, s: State, missed: bool, c: nat)
    requires cfg.Valid() && |s.cpus| == cfg.n && c < cfg.n
    ensures s.pc == AwaitCounter ==>
              PrimaryStep(cfg, platform, s, missed)
              == if s.counter >= s.logic then s.(pc := LoopHead, i := s.i + 1) else s
    ensures s.pc == Barrier ==>
              PrimaryStep(cfg, platform, s, missed) == if s.counter == cfg.n then s.(pc := Past) else s
    ensures s.cpus[c].pc == Waiting ==>
              SecondaryStep(cfg, s, c)
              == if s.counter == cfg.n then s.(cpus := s.cpus[c := s.cpus[c].(pc := Running)]) else s
  {
  }

  /**
    How a platform releases a CPU: with one signal, or with two of which the first may be missed, in
    which case the CPU stays parked until the second.
   */
  lemma ReleaseByPlatform(cfg: Config, platform: Platform, s: State, missed: bool)
    requires cfg.Valid() && Inv(cfg, s) && s.pc == Signal
    ensures var s' := PrimaryStep(cfg, platform, s, missed);
            && s'.pc == (if platform == OneSignal then AwaitCounter else SignalAgain)
            && (s'.cpus[s.i].pc == Parked <==> platform == InitSipiSipi && missed)
  {
    assert CpuInv(cfg, s, s.i);
  }

  /**
    The barrier opens exactly when everything is ready: the counter test, the primary behind the
    barrier, or a CPU with interrupts enabled each imply that every secondary has returned from its
    initialisation, the primary has joined and the timer handler is registered.
   */
  lemma BarrierIsSafe(cfg: Config, platform: Platform, es: seq<Event>)
    requires cfg.n > 0 && cfg.stackSize > 0
    ensures var s := Run(cfg, platform, es);
            var ready :=
              && (s.pc == Barrier || s.pc == Past)
              && s.registered
              && (forall c: nat :: c < cfg.n && cfg.IsSecondary(c) ==>
                    s.cpus[c].initialised && (s.cpus[c].pc == Waiting || s.cpus[c].pc == Running));
            && (s.counter == cfg.n <==> ready)
            && (s.pc == Past ==> s.counter == cfg.n)
            && (forall c :: 0 <= c < cfg.n && s.cpus[c].pc == Running ==> s.counter == cfg.n)
  {
    var s := Run(cfg, platform, es);
    RunInv(cfg, platform, es);
    if s.pc == SignalAgain || s.pc == AwaitCounter { assert CpuInv(cfg, s, s.i); }
    forall c | 0 <= c < cfg.n
      ensures s.cpus[c].pc == Running ==> s.counter == cfg.n
      ensures Joined(s.pc) && cfg.IsSecondary(c) ==> s.cpus[c].initialised && s.cpus[c].Counted()
    {
      assert CpuInv(cfg, s, c);
    }
  }

  /** What a CPU never takes back: its stack, its initialisation, its enabled interrupts. */
  predicate CpuKeeps(cpu: Cpu, cpu': Cpu) {
    && (cpu.HasStack() ==> cpu'.HasStack() && cpu'.sp == cpu.sp)
    && (cpu.initialised ==> cpu'.initialised)
    && (cpu.Counted() ==> cpu'.Counted())
    && (cpu.pc == Running ==> cpu'.pc == Running)
  }

  /** What no step ever takes back. */
  predicate Keeps(cfg: Config, s: State, s': State)
    requires |s.cpus| == cfg.n && |s'.cpus| == cfg.n
  {
    && (s.counter == cfg.n ==> s'.counter == cfg.n)
    && s.counter <= s'.counter
    && (s.registered ==> s'.registered)
    && s.requests <= s'.requests
    && (forall c :: 0 <= c < cfg.n ==> CpuKeeps(s.cpus[c], s'.cpus[c]))
  }

  lemma CounterBounded(cfg: Config, s: State)
    requires cfg.Valid() && Inv(cfg, s)
    ensures s.counter <= cfg.n
  {
    if s.pc == SignalAgain || s.pc == AwaitCounter { assert CpuInv(cfg, s, s.i); }
  }

  lemma PrimaryKeepsCpus(cfg: Config, platform: Platform, s: State, missed: bool)
    requires cfg.Valid() && |s.cpus| == cfg.n
    ensures forall c :: 0 <= c < cfg.n ==> CpuKeeps(s.cpus[c], PrimaryStep(cfg, platform, s, missed).cpus[c])
  {
    var s' := PrimaryStep(cfg, platform, s, missed);
    assert s'.cpus == s.cpus || (s.i < cfg.n && s'.cpus == s.cpus[s.i := s.cpus[s.i].Wake()]);
  }

  lemma PrimaryKeeps(cfg: Config, platform: Platform, s: State, missed: bool)
    requires cfg.Valid() && |s.cpus| == cfg.n && PrimaryStep(cfg, platform, s, missed).counter <= cfg.n
    ensures Keeps(cfg, s, PrimaryStep(cfg, platform, s, missed))
  {
    PrimaryKeepsCpus(cfg, platform, s, missed);
  }

  lemma SecondaryKeeps(cfg: Config, s: State, c: nat)
    requires |s.cpus| == cfg.n && SecondaryStep(cfg, s, c).counter <= cfg.n
    ensures Keeps(cfg, s, SecondaryStep(cfg, s, c))
  {
  }

  lemma StepKeeps(cfg: Config, platform: Platform, s: State, e: Event)
    requires cfg.Valid() && Inv(cfg, s)
    ensures Keeps(cfg, s, Next(cfg, platform, s, e))
  {
    NextKeepsInv(cfg, platform, s, e);
    CounterBounded(cfg, Next(cfg, platform, s, e));
    match e.actor
    case Primary => PrimaryKeeps(cfg, platform, s, e.missed);
    case Secondary(c) => SecondaryKeeps(cfg, s, c);
  }

  lemma {:induction false} RunKeeps(cfg: Config, platform: Platform, es: seq<Event>, more: seq<Event>)
    requires cfg.Valid()
    ensures Keeps(cfg, Run(cfg, platform, es), Run(cfg, platform, es + more))
    decreases |more|
  {
    if more == [] {
      assert es + more == es;
    } else {
      var m := |more| - 1;
      RunKeeps(cfg, platform, es, more[..m]);
      assert (es + more)[..|es + more| - 1] == es + more[..m];
      RunInv(cfg, platform, es + more[..m]);
      StepKeeps(cfg, platform, Run(cfg, platform, es + more[..m]), more[m]);
    }
  }

  /**
    Stability over every continuation: the counter test `== CPU_NUM` stays true, no CPU leaves its
    stack, undoes its initialisation or masks its interrupts again.
   */
  lemma StableForever(cfg: Config, platform: Platform, es: seq<Event>, more: seq<Event>, c: nat)
    requires cfg.n > 0 && cfg.stackSize > 0 && c < cfg.n
    ensures var s, s' := Run(cfg, platform, es), Run(cfg, platform, es + more);
            && s.counter <= s'.counter && (s.counter == cfg.n ==> s'.counter == cfg.n)
            && (s.registered ==> s'.registered)
            && s.requests <= s'.requests
            && (s.cpus[c].pc !in {Parked, Entered} ==>
                  s'.cpus[c].pc !in {Parked, Entered} && s'.cpus[c].sp == s.cpus[c].sp)
            && (s.cpus[c].initialised ==> s'.cpus[c].initialised)
            && (s.cpus[c].pc == Running ==> s'.cpus[c].pc == Running)
  {
    RunKeeps(cfg, platform, es, more);
  }
}

/** Progress of the boot protocol: bounded work and completion under fair scheduling. */
module SmpBootProgress {
  import opened Arithmetic
  import opened BootSchedule
  import opened SmpBoot

  function CpuWork(cpu: Cpu): nat {
    match cpu.pc
    case Parked => 5
    case Entered => 4
    case OnStack => 3
    case Inited => 2
    case Waiting => 1
    case Running => 0
  }

  function CpusWork(cpus: seq<Cpu>): nat {
    if cpus == [] then 0 else CpusWork(cpus[..|cpus| - 1]) + CpuWork(cpus[|cpus| - 1])
  }

  function PrimaryWork(cfg: Config, s: State): nat {
    var left := if s.i < cfg.n then 6 * (cfg.n - s.i) else 0;
    match s.pc
    case LoopHead => left + 10
    case StoreStack => left + 9
    case Signal => left + 8
    case SignalAgain => left + 7
    case AwaitCounter => left + 6
    case RegisterIrq => 3
    case Join => 2
    case Barrier => 1
    case Past => 0
  }

  /** An upper bound on the number of steps that still change anything. */
  function Measure(cfg: Config, s: State): nat { PrimaryWork(cfg, s) + CpusWork(s.cpus) }

  /** Every CPU that takes part has passed the barrier. */
  predicate AllPast(cfg: Config, s: State)
    requires cfg.Valid() && |s.cpus| == cfg.n
  {
    s.pc == Past && forall c :: 0 <= c < cfg.n && cfg.IsSecondary(c) ==> s.cpus[c].pc == Running
  }

  lemma {:induction false} WorkUpdate(cpus: seq<Cpu>, c: nat, cpu: Cpu)
    requires c < |cpus|
    ensures CpusWork(cpus[c := cpu]) + CpuWork(cpus[c]) == CpusWork(cpus) + CpuWork(cpu)
    decreases |cpus|
  {
    var m := |cpus| - 1;
    if c < m {
      assert cpus[c := cpu][..m] == cpus[..m][c := cpu];
      WorkUpdate(cpus[..m], c, cpu);
    } else {
      assert cpus[c := cpu][..m] == cpus[..m];
    }
  }

  lemma PrimaryDescends(cfg: Config, platform: Platform, s: State, missed: bool)
    requires cfg.Valid() && |s.cpus| == cfg.n && LoopInv(cfg, s)
    ensures var s' := PrimaryStep(cfg, platform, s, missed); s' != s ==> Measure(cfg, s') < Measure(cfg, s)
  {
    if s.pc == Signal || s.pc == SignalAgain {
      WorkUpdate(s.cpus, s.i, s.cpus[s.i].Wake());
    }
  }

  lemma SecondaryDescends(cfg: Config, s: State, c: nat)
    requires cfg.Valid() && |s.cpus| == cfg.n
    ensures var s' := SecondaryStep(cfg, s, c); s' != s ==> Measure(cfg, s') < Measure(cfg, s)
  {
    var s' := SecondaryStep(cfg, s, c);
    if c < cfg.n && s' != s {
      var cpu := s'.cpus[c];
      assert CpuWork(cpu) < CpuWork(s.cpus[c]);
      assert s'.cpus == s.cpus[c := cpu];
      assert PrimaryWork(cfg, s') == PrimaryWork(cfg, s);
      WorkUpdate(s.cpus, c, cpu);
    }
  }

  /** Every step that is not a spin lowers the measure. */
  lemma StepsDescend(cfg: Config, platform: Platform, s: State, e: Event)
    requires cfg.Valid() && Inv(cfg, s)
    ensures var s' := Next(cfg, platform, s, e); s' != s ==> Measure(cfg, s') < Measure(cfg, s)
  {
    match e.actor
    case Primary => PrimaryDescends(cfg, platform, s, e.missed);
    case Secondary(c) => SecondaryDescends(cfg, s, c);
  }

  predicate ValidActor(cfg: Config, a: Actor) { a.Secondary? ==> a.cpu < cfg.n }

  /** This actor's next step changes the state, whatever else is scheduled. */
  ghost predicate CanMove(cfg: Config, platform: Platform, s: State, a: Actor)
    requires cfg.Valid() && |s.cpus| == cfg.n
  {
    ValidActor(cfg, a) && forall missed :: Next(cfg, platform, s, Event(a, missed)) != s
  }

  /** No deadlock: while a participating CPU is not past the barrier, some actor can move. */
  lemma SomeoneMoves(cfg: Config, platform: Platform, s: State) returns (a: Actor)
    requires cfg.Valid() && Inv(cfg, s) && !AllPast(cfg, s)
    ensures CanMove(cfg, platform, s, a)
  {
    if s.pc == AwaitCounter && s.counter < s.logic {
      a := Secondary(s.i);
      assert CpuInv(cfg, s, s.i);
    } else if s.pc != Past {
      a := Primary;
    } else {
      var c :| 0 <= c < cfg.n && cfg.IsSecondary(c) && s.cpus[c].pc != Running;
      assert CpuInv(cfg, s, c);
      a := Secondary(c);
    }
  }

  lemma {:induction false} InitialWork(n: nat)
    ensures CpusWork(seq(n, _ => PARKED)) == 5 * n
    decreases n
  {
    if n > 0 {
      assert seq(n, _ => PARKED)[..n - 1] == seq(n - 1, _ => PARKED);
      InitialWork(n - 1);
    }
  }

  /** Step `i` of the run changed the state. */
  predicate Moved(cfg: Config, platform: Platform, es: seq<Event>, i: nat)
    requires cfg.Valid()
  {
    i < |es| && Run(cfg, platform, es[..i + 1]) != Run(cfg, platform, es[..i])
  }

  lemma MovedInPrefix(cfg: Config, platform: Platform, es: seq<Event>, m: nat, i: nat)
    requires cfg.Valid() && i < m <= |es|
    ensures Moved(cfg, platform, es[..m], i) <==> Moved(cfg, platform, es, i)
  {
    assert es[..m][..i] == es[..i] && es[..m][..i + 1] == es[..i + 1];
  }

  /** The last step of a run, if it is a move, lowers the measure. */
  lemma LastDescends(cfg: Config, platform: Platform, es: seq<Event>)
    requires cfg.Valid() && es != []
    ensures var m := |es| - 1;
            Measure(cfg, Run(cfg, platform, es)) + One(Moved(cfg, platform, es, m))
            <= Measure(cfg, Run(cfg, platform, es[..m]))
  {
    var m := |es| - 1;
    RunInv(cfg, platform, es[..m]);
    StepsDescend(cfg, platform, Run(cfg, platform, es[..m]), es[m]);
    assert es[..m + 1] == es;
  }

  /** Every move used up some of the measure. */
  lemma {:induction false} MovesAndMeasure(cfg: Config, platform: Platform, es: seq<Event>, moves: set<nat>)
    requires cfg.Valid() && forall i :: i in moves ==> Moved(cfg, platform, es, i)
    ensures |moves| + Measure(cfg, Run(cfg, platform, es)) <= 11 * cfg.n + 10
    decreases |es|
  {
    if es == [] {
      InitialWork(cfg.n);
      assert moves == {};
    } else {
      var m := |es| - 1;
      forall i | i in moves - {m} ensures Moved(cfg, platform, es[..m], i) { MovedInPrefix(cfg, platform, es, m, i); }
      MovesAndMeasure(cfg, platform, es[..m], moves - {m});
      LastDescends(cfg, platform, es);
    }
  }

  /**
    Bounded work: in any run whatsoever at most 11 * CPU_NUM + 10 steps are not spins. `moves` are
    places of steps that change the state.
   */
  lemma MovesBounded(cfg: Config, platform: Platform, es: seq<Event>, moves: set<nat>)
    requires cfg.n > 0 && cfg.stackSize > 0
    requires forall i :: i in moves ==> i < |es| && Run(cfg, platform, es[..i + 1]) != Run(cfg, platform, es[..i])
    ensures |moves| <= 11 * cfg.n + 10
  {
    MovesAndMeasure(cfg, platform, es, moves);
  }

  // ---------- infinite runs ----------

  type Schedule = nat -> Event
  type Trace = nat -> State

  ghost predicate Follows(cfg: Config, platform: Platform, schedule: Schedule, trace: Trace, t: nat)
    requires cfg.Valid()
  {
    |trace(t).cpus| == cfg.n && trace(t + 1) == Next(cfg, platform, trace(t), schedule(t))
  }

  /** `trace` is the infinite run that `schedule` produces. */
  ghost predicate IsRun(cfg: Config, platform: Platform, schedule: Schedule, trace: Trace)
    requires cfg.Valid()
  {
    trace(0) == Init(cfg) && forall t: nat :: Follows(cfg, platform, schedule, trace, t)
  }

  ghost predicate ScheduledFrom(schedule: Schedule, a: Actor, t: nat) {
    exists u: nat :: u >= t && schedule(u).actor == a
  }

  /** Every actor is scheduled again and again. */
  ghost predicate Fair(cfg: Config, schedule: Schedule) {
    forall a: Actor, t: nat :: ValidActor(cfg, a) ==> ScheduledFrom(schedule, a, t)
  }

  lemma {:induction false} TraceInv(cfg: Config, platform: Platform, schedule: Schedule, trace: Trace, t: nat)
    requires cfg.Valid() && IsRun(cfg, platform, schedule, trace)
    ensures Inv(cfg, trace(t))
    decreases t
  {
    if t == 0 {
      InitInv(cfg);
    } else {
      TraceInv(cfg, platform, schedule, trace, t - 1);
      assert Follows(cfg, platform, schedule, trace, t - 1);
      NextKeepsInv(cfg, platform, trace(t - 1), schedule(t - 1));
    }
  }

  /** The first `t` choices of a schedule. */
  function Prefix(schedule: Schedule, t: nat): seq<Event> { seq(t, k requires 0 <= k => schedule(k)) }

  /** Every moment of an infinite run is the end of a finite one, so what holds of those holds here. */
  lemma {:induction false} TraceIsRun(cfg: Config, platform: Platform, schedule: Schedule, trace: Trace, t: nat)
    requires cfg.Valid() && IsRun(cfg, platform, schedule, trace)
    ensures trace(t) == Run(cfg, platform, Prefix(schedule, t))
    decreases t
  {
    if t > 0 {
      TraceIsRun(cfg, platform, schedule, trace, t - 1);
      assert Follows(cfg, platform, schedule, trace, t - 1);
      assert Prefix(schedule, t)[..t - 1] == Prefix(schedule, t - 1);
    }
  }

  lemma TraceDescends(cfg: Config, platform: Platform, schedule: Schedule, trace: Trace, t: nat)
    requires cfg.Valid() && IsRun(cfg, platform, schedule, trace)
    ensures trace(t + 1) != trace(t) ==> Measure(cfg, trace(t + 1)) < Measure(cfg, trace(t))
  {
    TraceInv(cfg, platform, schedule, trace, t);
    assert Follows(cfg, platform, schedule, trace, t);
    StepsDescend(cfg, platform, trace(t), schedule(t));
  }

  /** Between t and u either nothing changed or the measure went down. */
  lemma {:induction false} StillOrDown(
    cfg: Config, platform: Platform, schedule: Schedule, trace: Trace, t: nat, u: nat)
    requires cfg.Valid() && IsRun(cfg, platform, schedule, trace) && t <= u
    ensures trace(u) == trace(t) || Measure(cfg, trace(u)) < Measure(cfg, trace(t))
    decreases u
  {
    if t < u {
      StillOrDown(cfg, platform, schedule, trace, t, u - 1);
      TraceDescends(cfg, platform, schedule, trace, u - 1);
    }
  }

  lemma ScheduledMoves(cfg: Config, platform: Platform, schedule: Schedule, trace: Trace, t: nat)
    requires cfg.Valid() && IsRun(cfg, platform, schedule, trace)
    requires |trace(t).cpus| == cfg.n && CanMove(cfg, platform, trace(t), schedule(t).actor)
    ensures trace(t + 1) != trace(t)
  {
    assert Follows(cfg, platform, schedule, trace, t);
    assert schedule(t) == Event(schedule(t).actor, schedule(t).missed);
  }

  /** Once an actor that can move is scheduled, the measure has gone down. */
  lemma NextDescent(cfg: Config, platform: Platform, schedule: Schedule, trace: Trace, t: nat) returns (u: nat)
    requires cfg.Valid() && IsRun(cfg, platform, schedule, trace) && Fair(cfg, schedule)
    requires |trace(t).cpus| == cfg.n && !AllPast(cfg, trace(t))
    ensures Measure(cfg, trace(u)) < Measure(cfg, trace(t))
  {
    TraceInv(cfg, platform, schedule, trace, t);
    var a := SomeoneMoves(cfg, platform, trace(t));
    assert ScheduledFrom(schedule, a, t);
    u :| u >= t && schedule(u).actor == a;
    StillOrDown(cfg, platform, schedule, trace, t, u);
    if trace(u) == trace(t) {
      ScheduledMoves(cfg, platform, schedule, trace, u);
      TraceDescends(cfg, platform, schedule, trace, u);
      u := u + 1;
    }
  }

  lemma {:induction false} FinishesAfter(
    cfg: Config, platform: Platform, schedule: Schedule, trace: Trace, t: nat) returns (done: nat)
    requires cfg.Valid() && IsRun(cfg, platform, schedule, trace) && Fair(cfg, schedule)
    ensures |trace(done).cpus| == cfg.n && AllPast(cfg, trace(done))
    decreases Measure(cfg, trace(t))
  {
    TraceInv(cfg, platform, schedule, trace, t);
    if AllPast(cfg, trace(t)) { return t; }
    var u := NextDescent(cfg, platform, schedule, trace, t);
    done := FinishesAfter(cfg, platform, schedule, trace, u);
  }

  lemma {:induction false} PastIsFinal(
    cfg: Config, platform: Platform, schedule: Schedule, trace: Trace, done: nat, t: nat)
    requires cfg.Valid() && IsRun(cfg, platform, schedule, trace) && done <= t
    requires |trace(done).cpus| == cfg.n && AllPast(cfg, trace(done))
    ensures |trace(t).cpus| == cfg.n && AllPast(cfg, trace(t))
    decreases t
  {
    if done < t {
      PastIsFinal(cfg, platform, schedule, trace, done, t - 1);
      assert Follows(cfg, platform, schedule, trace, t - 1);
    }
  }

  /**
    Liveness: in every fair run there is a moment from which on all participating CPUs are past the
    barrier, whichever startup IPIs were missed.
   */
  lemma FairBootCompletes(cfg: Config, platform: Platform, schedule: Schedule, trace: Trace) returns (done: nat)
    requires cfg.n > 0 && cfg.stackSize > 0
    requires IsRun(cfg, platform, schedule, trace) && Fair(cfg, schedule)
    ensures forall t: nat :: t >= done ==>
              && trace(t).pc == Past && |trace(t).cpus| == cfg.n
              && forall c: nat :: c < cfg.n && cfg.IsSecondary(c) ==> trace(t).cpus[c].pc == Running
  {
    done := FinishesAfter(cfg, platform, schedule, trace, 0);
    forall t: nat | t >= done ensures |trace(t).cpus| == cfg.n && AllPast(cfg, trace(t)) {
      PastIsFinal(cfg, platform, schedule, trace, done, t);
    }
  }

  // ---------- fair runs exist ----------

  /** Primary and secondaries take turns; no startup IPI is missed. */
  function TurnOf(cfg: Config, t: nat): Event {
    Event(if t % (cfg.n + 1) == 0 then Primary else Secondary(t % (cfg.n + 1) - 1), false)
  }

  lemma TurnComes(cfg: Config, a: Actor, t: nat) returns (u: nat)
    requires ValidActor(cfg, a)
    ensures u >= t && TurnOf(cfg, u).actor == a
  {
    var place, period := if a == Primary then 0 else a.cpu + 1, cfg.n + 1;
    u := t * period + place;
    assert t * period == t * cfg.n + t;
    RemainderIs(t, place, period);
  }

  /** Taking turns yields a fair run for every configuration and platform. */
  lemma FairRunExists(cfg: Config, platform: Platform) returns (schedule: Schedule, trace: Trace)
    requires cfg.Valid()
    ensures IsRun(cfg, platform, schedule, trace) && Fair(cfg, schedule)
  {
    schedule := (t: nat) => TurnOf(cfg, t);
    var turns := schedule;
    trace := (t: nat) => Run(cfg, platform, Prefix(turns, t));
    forall t: nat ensures Follows(cfg, platform, schedule, trace, t) {
      assert Prefix(schedule, t + 1)[..t] == Prefix(schedule, t);
    }
    forall a: Actor, t: nat | ValidActor(cfg, a) ensures ScheduledFrom(schedule, a, t) {
      var u := TurnComes(cfg, a, t);
      assert schedule(u).actor == a;
    }
  }
}

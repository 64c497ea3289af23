/**
  Receiving inter-processor interrupts on LoongArch
  (platforms/axplat-loongarch64-qemu-virt/src/irq.rs, `handle_ipi`).

  Senders raise bits of the status register at any moment, also between the steps of the receiver.
  The receiver reads the word, clears exactly what it read, and only then runs handlers.
 */
module LoongIpi {
  import opened IpiWords

  datatype Obs = Sent(v: nat) | Started(v: nat)

  datatype Pc =
    | Idle       // no handle_ipi in progress
    | Fetched    // status word read, IPI_CLEAR not yet written
    | Draining   // in the handler loop

  /** `local` is the receiver's variable `status`; `log` is the history. */
  datatype State = State(pc: Pc, status: bv32, local: bv32, log: seq<Obs>)

  datatype Event = Send(v: nat) | Receive

  function Receiver(s: State): State {
    match s.pc
    case Idle =>
      if s.status == 0 then s else s.(pc := Fetched, local := s.status)
    case Fetched =>
      s.(pc := Draining, status := ClearMask(s.status, s.local))
    case Draining =>
      if s.local == 0 then s.(pc := Idle)
      else
        var v := TrailingZeros(s.local);
        s.(local := ClearBit(s.local, v), log := s.log + [Started(v)])
  }

  /**
    The receiver's steps are single accesses: reading leaves the register and the history alone,
    writing IPI_CLEAR leaves the local word and the history alone and takes away nothing that was not
    read before, and a step of the handler loop leaves the register alone.
   */
  lemma OneAccessPerStep(s: State)
    ensures var s' := Receiver(s);
            && (s'.status != s.status ==>
                  s.pc == Fetched && s'.local == s.local && s'.log == s.log && s'.status == s.status & !s.local)
            && (s'.log != s.log ==> s.pc == Draining && s'.status == s.status && s'.local != s.local)
            && (s'.local != s.local ==> s.pc == Draining || (s.pc == Idle && s'.local == s.status))
  {
    if s.pc == Draining && s.local != 0 {
      ClearBitBits(s.local, TrailingZeros(s.local));
      assert Bit(s.local, TrailingZeros(s.local)) && !Bit(Receiver(s).local, TrailingZeros(s.local));
    }
  }

  predicate ValidEvent(e: Event) { e.Send? ==> e.v < 32 }

  predicate ValidRun(es: seq<Event>) { forall k :: 0 <= k < |es| ==> ValidEvent(es[k]) }

  function Next(s: State, e: Event): State
    requires ValidEvent(e)
  {
    match e
    case Send(v) => s.(status := SetBit(s.status, v), log := s.log + [Sent(v)])
    case Receive => Receiver(s)
  }

  /** Any interleaving of sends and receiver steps. */
  function Run(s: State, es: seq<Event>): State
    requires ValidRun(es)
    decreases |es|
  {
    if es == [] then s else Run(Next(s, es[0]), es[1..])
  }

  const START := State(Idle, 0, 0, [])

  // ---------- no send is lost ----------

  /** Some send of `v` has not been followed by a start of its handler. */
  predicate Owed(log: seq<Obs>, v: nat) {
    exists i :: 0 <= i < |log| && log[i] == Sent(v) && forall j :: i < j < |log| ==> log[j] != Started(v)
  }

  /** Bit `v` is in the register, or in the local word waiting to be drained. */
  predicate Pending(s: State, v: nat)
    requires v < 32
  {
    Bit(s.status, v) || (s.pc != Idle && Bit(s.local, v))
  }

  predicate NothingLost(s: State) { forall v :: 0 <= v < 32 && Owed(s.log, v) ==> Pending(s, v) }

  lemma OwedAppend(log: seq<Obs>, o: Obs, v: nat)
    ensures Owed(log + [o], v) <==> o == Sent(v) || (Owed(log, v) && o != Started(v))
  {
    var log' := log + [o];
    if o == Sent(v) { assert log'[|log|] == Sent(v); }
    if Owed(log, v) && o != Started(v) {
      var i :| 0 <= i < |log| && log[i] == Sent(v) && forall j :: i < j < |log| ==> log[j] != Started(v);
      assert log'[i] == Sent(v);
    }
    if Owed(log', v) && o != Sent(v) {
      var i :| 0 <= i < |log'| && log'[i] == Sent(v) && forall j :: i < j < |log'| ==> log'[j] != Started(v);
      assert log[i] == Sent(v) && log'[|log|] == o;
      assert forall j :: i < j < |log| ==> log[j] == log'[j];
    }
  }

  // What each kind of step does to the bits of the two words.

  predicate AfterSend(s: State, s': State, v: nat) {
    && s'.pc == s.pc && s'.local == s.local && s'.log == s.log + [Sent(v)]
    && forall i :: 0 <= i < 32 ==> (Bit(s'.status, i) <==> Bit(s.status, i) || i == v)
  }

  predicate AfterClear(s: State, s': State) {
    && s.pc == Fetched && s'.pc == Draining && s'.local == s.local && s'.log == s.log
    && forall i :: 0 <= i < 32 ==> (Bit(s'.status, i) <==> Bit(s.status, i) && !Bit(s.local, i))
  }

  predicate AfterDrain(s: State, s': State, t: nat)
    requires t < 32
  {
    && s.pc == s'.pc == Draining && s'.status == s.status && s'.log == s.log + [Started(t)]
    && Bit(s.local, t)
    && forall i :: 0 <= i < 32 ==> (Bit(s'.local, i) <==> Bit(s.local, i) && i != t)
  }

  lemma SendStep(s: State, v: nat)
    requires v < 32
    ensures AfterSend(s, Next(s, Send(v)), v)
  {
    SetBitBits(s.status, v);
  }

  lemma ClearStep(s: State)
    requires s.pc == Fetched
    ensures AfterClear(s, Receiver(s))
  {
    ClearMaskBits(s.status, s.local);
  }

  lemma DrainStep(s: State)
    requires s.pc == Draining && s.local != 0
    ensures AfterDrain(s, Receiver(s), TrailingZeros(s.local))
  {
    ClearBitBits(s.local, TrailingZeros(s.local));
  }

  lemma SendLosesNothing(s: State, s': State, v: nat)
    requires NothingLost(s) && AfterSend(s, s', v)
    ensures NothingLost(s')
  {
    forall u | 0 <= u < 32 && Owed(s'.log, u) ensures Pending(s', u) { OwedAppend(s.log, Sent(v), u); }
  }

  lemma DrainLosesNothing(s: State, s': State, t: nat)
    requires t < 32 && NothingLost(s) && AfterDrain(s, s', t)
    ensures NothingLost(s')
  {
    forall u | 0 <= u < 32 && Owed(s'.log, u) ensures Pending(s', u) { OwedAppend(s.log, Started(t), u); }
  }

  lemma ReceiverLosesNothing(s: State)
    requires NothingLost(s)
    ensures NothingLost(Receiver(s))
  {
    match s.pc
    case Idle =>
    case Fetched => ClearStep(s);
    case Draining =>
      ZeroIffNoBit(s.local);
      if s.local != 0 {
        DrainStep(s);
        DrainLosesNothing(s, Receiver(s), TrailingZeros(s.local));
      }
  }

  lemma NextLosesNothing(s: State, e: Event)
    requires NothingLost(s) && ValidEvent(e)
    ensures NothingLost(Next(s, e))
  {
    match e
    case Send(v) =>
      SendStep(s, v);
      SendLosesNothing(s, Next(s, e), v);
    case Receive => ReceiverLosesNothing(s);
  }

  /**
    No wakeup is lost: after any interleaving, every send that has not yet been followed by a start
    of its handler still has its bit in the register or in the word being drained.
   */
  lemma {:induction false} NoSendLost(s: State, es: seq<Event>)
    requires NothingLost(s) && ValidRun(es)
    ensures NothingLost(Run(s, es))
    decreases |es|
  {
    if es != [] {
      assert ValidEvent(es[0]) && ValidRun(es[1..]);
      NextLosesNothing(s, es[0]);
      NoSendLost(Next(s, es[0]), es[1..]);
    }
  }

  /** In particular, when the receiver is idle and the register is clear, nothing is outstanding. */
  lemma QuietMeansDone(es: seq<Event>, v: nat)
    requires ValidRun(es) && v < 32
    ensures var s := Run(START, es); s.pc == Idle && s.status == 0 ==> !Owed(s.log, v)
  {
    NoSendLost(START, es);
    ZeroIffNoBit(Run(START, es).status);
  }

  // ---------- no handler runs without a send ----------

  function Count(log: seq<Obs>, o: Obs): nat {
    if log == [] then 0 else Count(log[..|log| - 1], o) + if log[|log| - 1] == o then 1 else 0
  }

  /** Runs of the handler that `v` is still good for; a bit read but not yet cleared counts once. */
  function Tokens(s: State, v: nat): nat
    requires v < 32
  {
    (if Bit(s.status, v) then 1 else 0) + (if s.pc == Draining && Bit(s.local, v) then 1 else 0)
  }

  predicate NothingInvented(s: State) {
    && (s.pc == Fetched ==> forall v :: 0 <= v < 32 && Bit(s.local, v) ==> Bit(s.status, v))
    && (forall v :: 0 <= v < 32 ==> Count(s.log, Started(v)) + Tokens(s, v) <= Count(s.log, Sent(v)))
  }

  lemma CountAppend(log: seq<Obs>, o: Obs, p: Obs)
    ensures Count(log + [o], p) == Count(log, p) + if o == p then 1 else 0
  {
    assert (log + [o])[..|log|] == log;
  }

  lemma SendInventsNothing(s: State, s': State, v: nat)
    requires NothingInvented(s) && AfterSend(s, s', v)
    ensures NothingInvented(s')
  {
    forall u | 0 <= u < 32 ensures Count(s'.log, Started(u)) + Tokens(s', u) <= Count(s'.log, Sent(u)) {
      CountAppend(s.log, Sent(v), Sent(u));
      CountAppend(s.log, Sent(v), Started(u));
    }
  }

  lemma DrainInventsNothing(s: State, s': State, t: nat)
    requires t < 32 && NothingInvented(s) && AfterDrain(s, s', t)
    ensures NothingInvented(s')
  {
    forall u | 0 <= u < 32 ensures Count(s'.log, Started(u)) + Tokens(s', u) <= Count(s'.log, Sent(u)) {
      CountAppend(s.log, Started(t), Sent(u));
      CountAppend(s.log, Started(t), Started(u));
    }
  }

  lemma ReceiverInventsNothing(s: State)
    requires NothingInvented(s)
    ensures NothingInvented(Receiver(s))
  {
    match s.pc
    case Idle =>
    case Fetched => ClearStep(s);
    case Draining =>
      ZeroIffNoBit(s.local);
      if s.local != 0 {
        DrainStep(s);
        DrainInventsNothing(s, Receiver(s), TrailingZeros(s.local));
      }
  }

  lemma NextInventsNothing(s: State, e: Event)
    requires NothingInvented(s) && ValidEvent(e)
    ensures NothingInvented(Next(s, e))
  {
    match e
    case Send(v) =>
      SendStep(s, v);
      SendInventsNothing(s, Next(s, e), v);
    case Receive => ReceiverInventsNothing(s);
  }

  /** Handlers never start more often than they were asked for; sends may coalesce. */
  lemma {:induction false} NoSpuriousStart(s: State, es: seq<Event>)
    requires NothingInvented(s) && ValidRun(es)
    ensures NothingInvented(Run(s, es))
    decreases |es|
  {
    if es != [] {
      assert ValidEvent(es[0]) && ValidRun(es[1..]);
      NextInventsNothing(s, es[0]);
      NoSpuriousStart(Next(s, es[0]), es[1..]);
    }
  }

  /** The same from the start, for each vector. */
  lemma StartsAtMostSends(es: seq<Event>, v: nat)
    requires ValidRun(es) && v < 32
    ensures Count(Run(START, es).log, Started(v)) <= Count(Run(START, es).log, Sent(v))
  {
    ZeroIffNoBit(0);
    NoSpuriousStart(START, es);
  }

  // ---------- bounded waiting ----------

  function Receives(es: seq<Event>): nat
    decreases |es|
  {
    if es == [] then 0 else Receives(es[1..]) + if es[0] == Receive then 1 else 0
  }

  /** Receiver steps until a word has been drained and the loop left. */
  function DrainLength(w: bv32): nat { if w == 0 then 1 else 33 - TrailingZeros(w) }

  /** An upper bound on the receiver steps before the handler of a pending bit starts. */
  function Wait(s: State, v: nat): nat
    requires v < 32
  {
    match s.pc
    case Idle => v + 3
    case Fetched => if Bit(s.local, v) then v + 2 else v + 37
    case Draining =>
      if s.local != 0 && Bit(s.local, v) && TrailingZeros(s.local) <= v then v - TrailingZeros(s.local) + 1
      else DrainLength(s.local) + v + 3
  }

  /** The wait in the handler loop, for a lowest set bit `t` that gives way to the word `rest`. */
  lemma LoopWaitShrinks(word: bv32, rest: bv32, v: nat)
    requires word != 0 && v < 32 && v != TrailingZeros(word)
    requires forall i :: 0 <= i < 32 ==> (Bit(rest, i) <==> Bit(word, i) && i != TrailingZeros(word))
    ensures DrainLength(rest) < DrainLength(word)
    ensures Bit(word, v) ==> rest != 0 && TrailingZeros(word) < TrailingZeros(rest) <= v
  {
    ZeroIffNoBit(rest);
  }

  /** Bit `v` has been served, or is still pending with a shorter wait. */
  predicate Advances(s: State, s': State, v: nat)
    requires v < 32
  {
    s'.log == s.log + [Started(v)] || (Pending(s', v) && Wait(s', v) < Wait(s, v) && s.log <= s'.log)
  }

  lemma ClearAdvances(s: State, s': State, v: nat)
    requires v < 32 && Pending(s, v) && AfterClear(s, s')
    ensures Advances(s, s', v)
  {
    ZeroIffNoBit(s.local);
  }

  lemma DrainAdvances(s: State, s': State, v: nat)
    requires v < 32 && Pending(s, v) && s.local != 0 && AfterDrain(s, s', TrailingZeros(s.local))
    ensures Advances(s, s', v)
  {
    if TrailingZeros(s.local) != v { LoopWaitShrinks(s.local, s'.local, v); }
  }

  /** A receiver step starts the handler of a pending bit or brings it closer. */
  lemma ReceiverAdvances(s: State, v: nat)
    requires v < 32 && Pending(s, v)
    ensures Advances(s, Receiver(s), v)
  {
    match s.pc
    case Idle => ZeroIffNoBit(s.status);
    case Fetched =>
      ClearStep(s);
      ClearAdvances(s, Receiver(s), v);
    case Draining =>
      ZeroIffNoBit(s.local);
      if s.local != 0 {
        DrainStep(s);
        DrainAdvances(s, Receiver(s), v);
      }
  }

  /** A send delays nobody. */
  lemma SendDelaysNobody(s: State, u: nat, v: nat)
    requires u < 32 && v < 32 && Pending(s, v)
    ensures Pending(Next(s, Send(u)), v) && Wait(Next(s, Send(u)), v) == Wait(s, v)
  {
    SendStep(s, u);
  }

  lemma {:induction false} LogGrows(s: State, es: seq<Event>)
    requires ValidRun(es)
    ensures s.log <= Run(s, es).log
    decreases |es|
  {
    if es != [] {
      assert ValidEvent(es[0]) && ValidRun(es[1..]);
      LogGrows(Next(s, es[0]), es[1..]);
    }
  }

  /**
    Bounded waiting: once bit `v` is pending, its handler starts within `Wait` further steps of the
    receiver, however many sends are interleaved.
   */
  lemma {:induction false} PendingStarts(s: State, es: seq<Event>, v: nat)
    requires v < 32 && Pending(s, v) && ValidRun(es) && Receives(es) >= Wait(s, v)
    ensures s.log <= Run(s, es).log && Started(v) in Run(s, es).log[|s.log|..]
    decreases |es|
  {
    LogGrows(s, es);
    if es != [] {
      assert ValidEvent(es[0]) && ValidRun(es[1..]);
      var s' := Next(s, es[0]);
      LogGrows(s', es[1..]);
      var final := Run(s', es[1..]).log;
      match es[0]
      case Send(u) =>
        SendDelaysNobody(s, u, v);
        PendingStarts(s', es[1..], v);
        LaterSuffix(final, |s.log|, |s'.log|, Started(v));
      case Receive =>
        ReceiverAdvances(s, v);
        if s'.log == s.log + [Started(v)] {
          assert final[|s.log|] == Started(v);
          assert final[|s.log|..][0] == Started(v);
        } else {
          PendingStarts(s', es[1..], v);
          LaterSuffix(final, |s.log|, |s'.log|, Started(v));
        }
    }
  }

  lemma LaterSuffix(log: seq<Obs>, i: nat, j: nat, o: Obs)
    requires i <= j <= |log| && o in log[j..]
    ensures o in log[i..]
  {
    var k :| 0 <= k < |log[j..]| && log[j..][k] == o;
    assert log[i..][k + j - i] == o;
  }

  /** No wait is longer than 68 receiver steps, and every outstanding send is served within it. */
  lemma OwedIsServed(before: seq<Event>, es: seq<Event>, v: nat)
    requires ValidRun(before) && ValidRun(es) && v < 32 && Owed(Run(START, before).log, v)
    requires Receives(es) >= 68
    ensures var s := Run(START, before);
            s.log <= Run(s, es).log && Started(v) in Run(s, es).log[|s.log|..]
  {
    NoSendLost(START, before);
    PendingStarts(Run(START, before), es, v);
  }

  // ---------- handle_ipi as one call ----------

  /** The registers and the handler as `handle_ipi` sees them when nobody else writes. */
  class IpiPort {
    var status: bv32
    var started: seq<nat>

    constructor (status: bv32)
      ensures this.status == status && started == []
    { this.status := status; started := []; }

    method Handle(vector: nat)
      modifies this`started
      ensures started == old(started) + [vector]
    { started := started + [vector]; }
  }

  /** The first two lines of the loop body: pick the lowest bit and take it out. */
  method TakeLowest(status: bv32, ghost bits: seq<nat>) returns (vector: nat, rest: bv32)
    requires status != 0 && ListsBits(status, bits)
    ensures bits != [] && vector == bits[0] && ListsBits(rest, bits[1..])
  {
    LowestIsHead(status, bits);
    vector := TrailingZeros(status);
    rest := ClearBit(status, vector);
  }

  /** The handler loop: lowest bit first until the local word is empty. */
  method Drain(word: bv32, port: IpiPort)
    modifies port`started
    ensures port.started == old(port.started) + SetBits(word)
  {
    var status, vector := word, 0;
    ghost var todo := SetBits(word);
    ghost var goal := port.started + todo;
    while status != 0
      invariant ListsBits(status, todo)
      invariant port.started + todo == goal
      decreases |todo|
    {
      vector, status := TakeLowest(status, todo);
      todo := todo[1..];
      port.Handle(vector);
    }
    ZeroHasNoBits(status, todo);
  }

  lemma ZeroHasNoBits(w: bv32, bits: seq<nat>)
    requires w == 0 && ListsBits(w, bits)
    ensures bits == []
  {
    LowestIsHead(w, bits);
  }

  /** One undisturbed call runs the handler once per set bit, lowest first, and clears what it read. */
  method HandleIpi(port: IpiPort)
    modifies port
    ensures port.status == 0
    ensures port.started == old(port.started) + SetBits(old(port.status))
  {
    var status := port.status;
    if status == 0 {
      ZeroHasNoBits(status, SetBits(status));
      return;
    }
    port.status := ClearMask(port.status, status);
    Drain(status, port);
  }
}

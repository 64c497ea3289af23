/** The handler table of the `handler_table` crate: one compare-and-swap slot per IRQ number. */
module HandlerTable {
  import opened Words

  /** A handler, identified by its address. */
  type Handler = nat

  class Table {
    var slots: seq<Option<Handler>>

    constructor (size: nat)
      ensures slots == seq(size, _ => None)
    { slots := seq(size, _ => None); }

    /** Fails on an occupied slot and on a number outside the table. */
    method RegisterHandler(irq: nat, handler: Handler) returns (ok: bool)
      modifies this
      ensures ok <==> irq < old(|slots|) && old(slots[irq]).None?
      ensures slots == if ok then old(slots)[irq := Some(handler)] else old(slots)
    {
      if irq < |slots| && slots[irq].None? {
        slots := slots[irq := Some(handler)];
        return true;
      }
      return false;
    }

    method UnregisterHandler(irq: nat) returns (handler: Option<Handler>)
      modifies this
      ensures handler == if irq < old(|slots|) then old(slots[irq]) else None
      ensures slots == if irq < old(|slots|) then old(slots)[irq := None] else old(slots)
    {
      if irq < |slots| {
        handler := slots[irq];
        slots := slots[irq := None];
      } else {
        handler := None;
      }
    }
  }
}

/**
  RISC-V interrupt handlers (platforms/axplat-riscv64-qemu-virt/src/irq.rs): two atomic pointers and
  a table that together behave as one partial map from interrupt causes to handlers.
 */
module RiscvIrq {
  import opened Words
  import opened HandlerTable

  const INTC_IRQ_BASE: nat := 0x8000_0000_0000_0000
  const S_SOFT: nat := INTC_IRQ_BASE + 1
  const S_TIMER: nat := INTC_IRQ_BASE + 5
  const S_EXT: nat := INTC_IRQ_BASE + 9
  const MAX_IRQ_COUNT: nat := 1024

  /** A cause the platform knows; any other cause with the interrupt bit set is a panic. */
  predicate Known(irq: nat) { irq == S_TIMER || irq == S_SOFT || irq == S_EXT || irq < INTC_IRQ_BASE }

  /** A cause that can hold a handler. */
  predicate HasSlot(irq: nat) { irq == S_TIMER || irq == S_SOFT || irq < MAX_IRQ_COUNT }

  type Handlers = map<nat, Handler>

  datatype Op = Register(irq: nat, handler: Handler) | Unregister(irq: nat)

  datatype Answer = Registered(ok: bool) | Unregistered(handler: Option<Handler>) | Panicked

  // ---------- one map ----------

  function Get(m: Handlers, irq: nat): Option<Handler> { if irq in m then Some(m[irq]) else None }

  function AnswerTo(m: Handlers, op: Op): Answer {
    if !Known(op.irq) then Panicked
    else
      match op
      case Register(irq, handler) => Registered(HasSlot(irq) && irq !in m)
      case Unregister(irq) => Unregistered(Get(m, irq))
  }

  function Apply(m: Handlers, op: Op): Handlers {
    match op
    case Register(irq, handler) => if HasSlot(irq) && irq !in m then m[irq := handler] else m
    case Unregister(irq) => m - {irq}
  }

  // ---------- the split storage ----------

  /** Which handlers one external, timer or software interrupt starts. */
  datatype Dispatch = Dispatch(started: seq<Handler>, softCleared: bool, panicked: bool)

  class IrqController {
    var timerHandler: Option<Handler>
    var ipiHandler: Option<Handler>
    const table: Table

    ghost predicate Valid()
      reads this, table
    {
      |table.slots| == MAX_IRQ_COUNT
    }

    /** The partial map that the three stores implement. */
    ghost function Contents(): (m: Handlers)
      requires Valid()
      reads this, table
      ensures forall irq: nat :: Get(m, irq) == (
                if irq == S_TIMER then timerHandler
                else if irq == S_SOFT then ipiHandler
                else if irq < MAX_IRQ_COUNT then table.slots[irq]
                else None)
    {
      (map irq: nat | irq < MAX_IRQ_COUNT && table.slots[irq].Some? :: table.slots[irq].value)
      + (if timerHandler.Some? then map[S_TIMER := timerHandler.value] else map[])
      + (if ipiHandler.Some? then map[S_SOFT := ipiHandler.value] else map[])
    }

    constructor ()
      ensures Valid() && fresh(table) && Contents() == map[]
    {
      timerHandler, ipiHandler := None, None;
      table := new Table(MAX_IRQ_COUNT);
      new;
      SameHandlers(Contents(), map[]);
    }

    /** Registering is the map operation: it succeeds on a free slot and changes nothing otherwise. */
    method Register(irq: nat, handler: Handler) returns (answer: Answer)
      requires Valid()
      modifies this, table
      ensures Valid()
      ensures answer == if irq >= INTC_IRQ_BASE && irq != S_TIMER && irq != S_SOFT && irq != S_EXT then Panicked
                        else Registered((irq == S_TIMER || irq == S_SOFT || irq < 1024) && irq !in old(Contents()))
      ensures Contents() == if answer == Registered(true) then old(Contents())[irq := handler] else old(Contents())
      ensures answer == AnswerTo(old(Contents()), Op.Register(irq, handler))
      ensures Contents() == Apply(old(Contents()), Op.Register(irq, handler))
    {
      ghost var before := Contents();
      assert irq in before <==> Get(before, irq).Some?;
      if irq == S_TIMER {
        if timerHandler.None? {
          timerHandler := Some(handler);
          answer := Registered(true);
        } else {
          answer := Registered(false);
        }
      } else if irq == S_SOFT {
        if ipiHandler.None? {
          ipiHandler := Some(handler);
          answer := Registered(true);
        } else {
          answer := Registered(false);
        }
      } else if irq == S_EXT {
        answer := Registered(false);
      } else if irq < INTC_IRQ_BASE {
        var ok := table.RegisterHandler(irq, handler);
        answer := Registered(ok);
      } else {
        answer := Panicked;
      }
      if answer == Registered(true) {
        Inserted(before, Contents(), irq, handler);
      } else {
        SameHandlers(before, Contents());
      }
    }

    /** Unregistering takes the handler out of the map and returns it. */
    method Unregister(irq: nat) returns (answer: Answer)
      requires Valid()
      modifies this, table
      ensures Valid()
      ensures answer == if irq >= INTC_IRQ_BASE && irq != S_TIMER && irq != S_SOFT && irq != S_EXT then Panicked
                        else Unregistered(Get(old(Contents()), irq))
      ensures Contents() == old(Contents()) - {irq}
      ensures answer == AnswerTo(old(Contents()), Op.Unregister(irq))
      ensures Contents() == Apply(old(Contents()), Op.Unregister(irq))
    {
      ghost var before := Contents();
      if irq == S_TIMER {
        answer := Unregistered(timerHandler);
        timerHandler := None;
      } else if irq == S_SOFT {
        answer := Unregistered(ipiHandler);
        ipiHandler := None;
      } else if irq == S_EXT {
        answer := Unregistered(None);
      } else if irq < INTC_IRQ_BASE {
        var h := table.UnregisterHandler(irq);
        answer := Unregistered(h);
      } else {
        answer := Panicked;
      }
      Removed(before, Contents(), irq);
    }

    /**
      Handling a cause starts the handler the map holds for it, if any. External interrupts look up
      number 0; a device number is never handled directly.
     */
    method Handle(irq: nat) returns (d: Dispatch)
      requires Valid()
      ensures d.panicked <==> irq != S_TIMER && irq != S_SOFT && irq != S_EXT
      ensures !d.panicked ==>
                d.started == match Get(Contents(), if irq == S_EXT then 0 else irq)
                             case None => []
                             case Some(h) => [h]
      ensures d.panicked ==> d.started == []
      ensures d.softCleared <==> irq == S_SOFT
    {
      if irq == S_TIMER {
        d := Dispatch(if timerHandler.Some? then [timerHandler.value] else [], false, false);
      } else if irq == S_SOFT {
        d := Dispatch(if ipiHandler.Some? then [ipiHandler.value] else [], true, false);
      } else if irq == S_EXT {
        d := Dispatch(if table.slots[0].Some? then [table.slots[0].value] else [], false, false);
      } else {
        d := Dispatch([], false, true);
      }
    }
  }

  lemma SameHandlers(m: Handlers, n: Handlers)
    requires forall irq: nat :: Get(m, irq) == Get(n, irq)
    ensures m == n
  {
    forall irq: nat ensures (irq in m <==> irq in n) && (irq in m ==> m[irq] == n[irq]) {
      assert Get(m, irq) == Get(n, irq);
    }
  }

  lemma Inserted(m: Handlers, n: Handlers, irq: nat, handler: Handler)
    requires forall k: nat :: Get(n, k) == if k == irq then Some(handler) else Get(m, k)
    ensures n == m[irq := handler]
  {
    SameHandlers(n, m[irq := handler]);
  }

  lemma Removed(m: Handlers, n: Handlers, irq: nat)
    requires forall k: nat :: Get(n, k) == if k == irq then None else Get(m, k)
    ensures n == m - {irq}
  {
    SameHandlers(n, m - {irq});
  }

  // ---------- any sequence of atomic operations ----------

  /** The map after the operations of all CPUs, in the order in which they took effect. */
  function After(ops: seq<Op>): Handlers {
    if ops == [] then map[] else Apply(After(ops[..|ops| - 1]), ops[|ops| - 1])
  }

  /** The answer the k-th operation got. */
  function AnswerAt(ops: seq<Op>, k: nat): Answer
    requires k < |ops|
  {
    AnswerTo(After(ops[..k]), ops[k])
  }

  function Registrations(ops: seq<Op>, irq: nat): nat {
    if ops == [] then 0
    else
      var last := |ops| - 1;
      Registrations(ops[..last], irq)
      + if ops[last].Register? && ops[last].irq == irq && AnswerAt(ops, last) == Registered(true) then 1 else 0
  }

  function Removals(ops: seq<Op>, irq: nat): nat {
    if ops == [] then 0
    else
      var last := |ops| - 1;
      Removals(ops[..last], irq)
      + if ops[last].Unregister? && ops[last].irq == irq && AnswerAt(ops, last).Unregistered?
           && AnswerAt(ops, last).handler.Some? then 1 else 0
  }

  /**
    Conservation: successful registrations minus successful removals is one if the cause has a
    handler and zero otherwise; causes without a slot never get one.
   */
  lemma {:induction false} OccupancyBalance(ops: seq<Op>, irq: nat)
    ensures Registrations(ops, irq) == Removals(ops, irq) + if irq in After(ops) then 1 else 0
    ensures irq in After(ops) ==> HasSlot(irq)
    decreases |ops|
  {
    if ops != [] { OccupancyBalance(ops[..|ops| - 1], irq); }
  }

  /** The handler of the last successful registration of a cause, if it has not been removed since. */
  function LastRegistered(ops: seq<Op>, irq: nat): Option<Handler> {
    if ops == [] then None
    else
      var last := |ops| - 1;
      var op := ops[last];
      if op.irq != irq then LastRegistered(ops[..last], irq)
      else match op
           case Unregister(_) => None
           case Register(_, handler) =>
             if AnswerAt(ops, last) == Registered(true) then Some(handler) else LastRegistered(ops[..last], irq)
  }

  /** Every removal returns exactly the handler registered last, and a registration never replaces one. */
  lemma {:induction false} RemovalReturnsLast(ops: seq<Op>, irq: nat)
    ensures Get(After(ops), irq) == LastRegistered(ops, irq)
    ensures Known(irq) ==> AnswerAt(ops + [Unregister(irq)], |ops|) == Unregistered(LastRegistered(ops, irq))
    decreases |ops|
  {
    assert (ops + [Unregister(irq)])[..|ops|] == ops;
    if ops != [] {
      var before := ops[..|ops| - 1];
      RemovalReturnsLast(before, irq);
      OccupancyBalance(before, irq);
    }
  }
}

/**
  LoongArch interrupt control (platforms/axplat-loongarch64-qemu-virt/src/irq.rs): the handler table
  next to the enable bits of one CPU.
 */
module LoongIrq {
  import opened Words
  import opened HandlerTable

  const TIMER_IRQ: nat := 11
  const IPI_IRQ: nat := 12
  const MAX_IRQ_COUNT: nat := 13

  class IrqController {
    /** The lines whose bit is set in the ECFG register. */
    var enabledLines: set<nat>
    /** The IPI_ENABLE register is all ones. */
    var ipiEnabled: bool
    const table: Table

    ghost predicate Valid()
      reads this, table
    {
      && |table.slots| == MAX_IRQ_COUNT
      && (ipiEnabled <==> IPI_IRQ in enabledLines)
    }

    /** Interrupt `irq` reaches this CPU. */
    predicate Enabled(irq: nat)
      reads this
    {
      irq in enabledLines && (irq == IPI_IRQ ==> ipiEnabled)
    }

    constructor ()
      ensures Valid() && fresh(table)
      ensures enabledLines == {} && !ipiEnabled && table.slots == seq(MAX_IRQ_COUNT, _ => None)
    {
      enabledLines, ipiEnabled := {}, false;
      table := new Table(MAX_IRQ_COUNT);
    }

    method SetEnable(irq: nat, enabled: bool)
      requires Valid()
      modifies this
      ensures Valid()
      ensures irq == TIMER_IRQ || irq == IPI_IRQ ==> (Enabled(irq) <==> enabled)
      ensures enabledLines == if irq != TIMER_IRQ && irq != IPI_IRQ then old(enabledLines)
                              else if enabled then old(enabledLines) + {irq} else old(enabledLines) - {irq}
      ensures ipiEnabled == if irq == IPI_IRQ then enabled else old(ipiEnabled)
    {
      if irq == IPI_IRQ {
        ipiEnabled := enabled;
      } else if irq != TIMER_IRQ {
        return;
      }
      enabledLines := if enabled then enabledLines + {irq} else enabledLines - {irq};
    }

    /** A successful registration enables the line; a failed one changes nothing at all. */
    method Register(irq: nat, handler: Handler) returns (ok: bool)
      requires Valid()
      modifies this, table
      ensures Valid()
      ensures forall line :: line in {TIMER_IRQ, IPI_IRQ} && old(table.slots[line].Some? ==> Enabled(line)) ==>
                (table.slots[line].Some? ==> Enabled(line))
      ensures ok <==> irq < MAX_IRQ_COUNT && old(table.slots)[irq].None?
      ensures table.slots == if ok then old(table.slots)[irq := Some(handler)] else old(table.slots)
      ensures ok && (irq == TIMER_IRQ || irq == IPI_IRQ) ==> Enabled(irq)
      ensures enabledLines ==
              if ok && (irq == TIMER_IRQ || irq == IPI_IRQ) then old(enabledLines) + {irq} else old(enabledLines)
      ensures ipiEnabled == (old(ipiEnabled) || (ok && irq == IPI_IRQ))
    {
      ok := table.RegisterHandler(irq, handler);
      if ok {
        SetEnable(irq, true);
      }
    }

    /**
      The line is disabled whether or not a handler was there: unlike what the interface documents,
      a failed unregistration leaves the enable state alone only if the line was off already.
     */
    method Unregister(irq: nat) returns (handler: Option<Handler>)
      requires Valid()
      modifies this, table
      ensures Valid()
      ensures forall line :: line in {TIMER_IRQ, IPI_IRQ} && old(table.slots[line].Some? ==> Enabled(line)) ==>
                (table.slots[line].Some? ==> Enabled(line))
      ensures handler == if irq < MAX_IRQ_COUNT then old(table.slots)[irq] else None
      ensures table.slots == if irq < MAX_IRQ_COUNT then old(table.slots)[irq := None] else old(table.slots)
      ensures irq == TIMER_IRQ || irq == IPI_IRQ ==> !Enabled(irq)
      ensures enabledLines ==
              if irq == TIMER_IRQ || irq == IPI_IRQ then old(enabledLines) - {irq} else old(enabledLines)
      ensures ipiEnabled == (old(ipiEnabled) && irq != IPI_IRQ)
      ensures enabledLines == old(enabledLines) && ipiEnabled == old(ipiEnabled) <==>
              !((irq == TIMER_IRQ || irq == IPI_IRQ) && old(Enabled(irq)))
    {
      SetEnable(irq, false);
      handler := table.UnregisterHandler(irq);
    }
  }

  /**
    A failed unregistration that changes the enable state: the platform's late initialisation
    enables the IPI line before any handler exists, and unregistering then finds no handler but
    turns the line off.
   */
  method FailedUnregisterDisables() returns (wasEnabled: bool, handler: Option<Handler>, isEnabled: bool)
    ensures wasEnabled && handler == None && !isEnabled
  {
    var controller := new IrqController();
    controller.SetEnable(IPI_IRQ, true);
    wasEnabled := controller.Enabled(IPI_IRQ);
    handler := controller.Unregister(IPI_IRQ);
    isEnabled := controller.Enabled(IPI_IRQ);
  }
}

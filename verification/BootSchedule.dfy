/**
  Which CPU is booted on which stack (examples/smp-kernel/src/mp.rs, `start_secondary_cpus`).

  `CpuAt` and `RankOf` translate between the boot order and CPU ids: the primary is skipped, so CPUs
  above it move down by one. The busy wait between two boots is a step of module SmpBoot.
 */
module BootSchedule {
  import opened Arithmetic

  /** `n` is CPU_NUM; `primary` is the id of the booting CPU, which need not be below `n`. */
  datatype Config = Config(n: nat, primary: nat, stackBase: nat, stackSize: nat) {
    predicate Valid() { n > 0 && stackSize > 0 }

    /** The end of SECONDARY_BOOT_STACK[k]. */
    function StackTop(k: nat): nat { stackBase + (k + 1) * stackSize }

    /** The k-th CPU to be booted. */
    function CpuAt(k: nat): nat { if k < primary then k else k + 1 }

    /** The place of CPU `c` in the boot order. */
    function RankOf(c: nat): nat { if c > primary then c - 1 else c }

    /** CPU `c` is one of those that get booted. */
    predicate IsSecondary(c: nat)
      requires Valid()
    {
      c < n && c != primary && RankOf(c) < n - 1
    }

    /** The value of `logic_cpu_id` when the loop reaches index `i`. */
    function BootedBefore(i: nat): nat
      requires Valid()
    {
      if RankOf(i) < n - 1 then RankOf(i) else n - 1
    }
  }

  datatype BootRequest = BootRequest(cpu: nat, stackTop: nat)

  function Request(cfg: Config, k: nat): BootRequest { BootRequest(cfg.CpuAt(k), cfg.StackTop(k)) }

  /** The first `k` boot requests. */
  function Requests(cfg: Config, k: nat): (rs: seq<BootRequest>)
    ensures |rs| == k && forall j :: 0 <= j < k ==> rs[j] == Request(cfg, j)
  {
    seq(k, j requires 0 <= j => Request(cfg, j))
  }

  /** The firmware interface: it receives `cpu_boot` calls. */
  class Firmware {
    var booted: seq<BootRequest>

    constructor ()
      ensures booted == []
    { booted := []; }

    method CpuBoot(cpu: nat, stackTop: nat)
      modifies this
      ensures booted == old(booted) + [BootRequest(cpu, stackTop)]
    { booted := booted + [BootRequest(cpu, stackTop)]; }
  }

  method StartSecondaryCpus(cfg: Config, firmware: Firmware)
    requires cfg.Valid()
    modifies firmware
    ensures firmware.booted == old(firmware.booted) + Requests(cfg, cfg.n - 1)
  {
    var logic := 0;
    for i := 0 to cfg.n
      invariant logic == cfg.BootedBefore(i)
      invariant firmware.booted == old(firmware.booted) + Requests(cfg, logic)
    {
      if i != cfg.primary && logic < cfg.n - 1 {
        firmware.CpuBoot(i, cfg.StackTop(logic));
        assert Requests(cfg, logic + 1) == Requests(cfg, logic) + [Request(cfg, logic)];
        logic := logic + 1;
      }
    }
  }

  /**
    For every primary id, even one at or above `n`: the requests name each secondary CPU exactly
    once, in increasing order, never the primary, and the k-th request carries the k-th stack.
   */
  lemma RequestsAreExact(cfg: Config)
    requires cfg.n > 0 && cfg.stackSize > 0
    ensures var rs := Requests(cfg, cfg.n - 1);
            && (forall j, k :: 0 <= j < k < |rs| ==> rs[j].cpu < rs[k].cpu)
            && (forall k :: 0 <= k < |rs| ==> cfg.IsSecondary(rs[k].cpu) && cfg.RankOf(rs[k].cpu) == k)
            && (forall c: nat :: cfg.IsSecondary(c) ==>
                                   rs[cfg.RankOf(c)] == BootRequest(c, cfg.StackTop(cfg.RankOf(c))))
  {
  }

  /** If the primary's id is below `n`, everyone but the primary is booted; otherwise CPUs 0..n-2. */
  lemma SecondariesAre(cfg: Config, c: nat)
    requires cfg.Valid()
    ensures cfg.primary < cfg.n ==> (cfg.IsSecondary(c) <==> c < cfg.n && c != cfg.primary)
    ensures cfg.primary >= cfg.n ==> (cfg.IsSecondary(c) <==> c + 1 < cfg.n)
  {
  }

  /** The stacks [top - size, top) lie inside the stack array and do not share an address. */
  lemma StacksDisjoint(cfg: Config, j: nat, k: nat)
    requires cfg.Valid() && j < k < cfg.n - 1
    ensures cfg.StackTop(j) <= cfg.StackTop(k) - cfg.stackSize
    ensures cfg.stackBase <= cfg.StackTop(j) - cfg.stackSize
    ensures cfg.StackTop(k) <= cfg.stackBase + (cfg.n - 1) * cfg.stackSize
  {
    MulMonotone(j + 1, k, cfg.stackSize);
    MulMonotone(k + 1, cfg.n - 1, cfg.stackSize);
    MulMonotone(1, j + 1, cfg.stackSize);
    assert (k + 1) * cfg.stackSize == k * cfg.stackSize + cfg.stackSize;
  }
}

/**
  Hardware and logical CPU ids on the Phytium Pi (platforms/axplat-aarch64-phytium-pi/src/boot.rs and
  power.rs). A failing lookup panics; it is modelled as `None`.
 */
module PhytiumIds {
  import opened Words

  /** CPU_ID_LIST of the platform configuration. */
  const CPU_ID_LIST: seq<nat> := [0x200, 0x201, 0x00, 0x100]

  /** `hart_to_logid`: the position of the first equal entry. */
  function HartToLogId(ids: seq<nat>, hard: nat): Option<nat> { PositionFrom(ids, hard, 0) }

  function PositionFrom(ids: seq<nat>, hard: nat, k: nat): (r: Option<nat>)
    requires k <= |ids|
    ensures r.Some? ==> k <= r.value < |ids| && ids[r.value] == hard && forall j :: k <= j < r.value ==> ids[j] != hard
    ensures r.None? ==> forall j :: k <= j < |ids| ==> ids[j] != hard
    decreases |ids| - k
  {
    if k == |ids| then None else if ids[k] == hard then Some(k) else PositionFrom(ids, hard, k + 1)
  }

  /** The id `cpu_boot` passes to the firmware. */
  function HartOf(ids: seq<nat>, cpu: nat): Option<nat> { if cpu < |ids| then Some(ids[cpu]) else None }

  predicate NoDuplicates(ids: seq<nat>) { forall i, j :: 0 <= i < j < |ids| ==> ids[i] != ids[j] }

  /** The id a core reports after it was booted under logical id `cpu`. */
  function ReportedId(ids: seq<nat>, cpu: nat): Option<nat> {
    match HartOf(ids, cpu)
    case None => None
    case Some(hard) => HartToLogId(ids, hard)
  }

  /** Every core reports the id it was booted with iff the list has no duplicates. */
  lemma BootedCoresKnowThemselves(ids: seq<nat>)
    ensures (forall cpu :: 0 <= cpu < |ids| ==> ReportedId(ids, cpu) == Some(cpu)) <==> NoDuplicates(ids)
  {
    if forall cpu :: 0 <= cpu < |ids| ==> ReportedId(ids, cpu) == Some(cpu) {
      forall i, j | 0 <= i < j < |ids| ensures ids[i] != ids[j] {
        assert ReportedId(ids, i) == Some(i) && ReportedId(ids, j) == Some(j);
      }
    }
  }

  /** The lookup is defined exactly on the listed ids, finds the first place, and is inverted by the list. */
  lemma LookupInverts(ids: seq<nat>, hard: nat)
    ensures HartToLogId(ids, hard).Some? <==> hard in ids
    ensures HartToLogId(ids, hard).Some? ==>
              var cpu := HartToLogId(ids, hard).value;
              cpu < |ids| && ids[cpu] == hard && (forall j :: 0 <= j < cpu ==> ids[j] != hard)
    ensures HartToLogId(ids, hard).Some? ==> HartOf(ids, HartToLogId(ids, hard).value) == Some(hard)
  {
    if hard in ids {
      var j :| 0 <= j < |ids| && ids[j] == hard;
    }
  }

  /** The configured list qualifies. */
  lemma ConfiguredIdsDistinct()
    ensures forall cpu :: 0 <= cpu < 4 ==> ReportedId(CPU_ID_LIST, cpu) == Some(cpu)
  {
    BootedCoresKnowThemselves(CPU_ID_LIST);
  }
}

/** The x86 startup page (platforms/axplat-x86-pc/src/mp.rs, `setup_startup_page`). */
module X86StartupPage {
  import opened Words

  const U64_PER_PAGE: nat := 512

  /** Byte offsets at which the trampoline reads its stack and entry (ap_start.S). */
  const STACK_OFFSET: nat := 0xff0
  const ENTRY_OFFSET: nat := 0xff8

  /** The page after a call: trampoline code, then the two slots, otherwise as before. */
  function StartupPage(page: seq<u64>, code: seq<u64>, stackTop: u64, entry: u64): (r: seq<u64>)
    requires |page| == U64_PER_PAGE && |code| <= U64_PER_PAGE
    ensures |r| == U64_PER_PAGE
  {
    seq(U64_PER_PAGE, k requires 0 <= k < U64_PER_PAGE =>
      if k == U64_PER_PAGE - 2 then stackTop
      else if k == U64_PER_PAGE - 1 then entry
      else if k < |code| then code[k]
      else page[k])
  }

  method SetupStartupPage(page: array<u64>, code: seq<u64>, stackTop: u64, entry: u64)
    requires page.Length == U64_PER_PAGE && |code| <= U64_PER_PAGE
    modifies page
    ensures forall k :: 0 <= k < |code| && k < 510 ==> page[k] == code[k]
    ensures forall k :: |code| <= k < 510 ==> page[k] == old(page[k])
    ensures page[510] == stackTop && page[511] == entry
    ensures page[..] == StartupPage(old(page[..]), code, stackTop, entry)
  {
    forall k | 0 <= k < |code| { page[k] := code[k]; }
    page[U64_PER_PAGE - 2] := stackTop;
    page[U64_PER_PAGE - 1] := entry;
  }

  /**
    The page is a single cell: from the second call on, only the stack slot changes, and what the
    trampoline reads at its two offsets are the values of the last call.
   */
  lemma PageIsOneCell(page: seq<u64>, code: seq<u64>, first: u64, second: u64, entry: u64)
    requires |page| == U64_PER_PAGE && |code| <= U64_PER_PAGE
    ensures var once := StartupPage(page, code, first, entry);
            var twice := StartupPage(once, code, second, entry);
            && twice == once[STACK_OFFSET / 8 := second]
            && twice[STACK_OFFSET / 8] == second
            && twice[ENTRY_OFFSET / 8] == entry
            && forall k :: 0 <= k < |code| && k < STACK_OFFSET / 8 ==> twice[k] == code[k]
  {
  }
}

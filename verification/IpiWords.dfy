/**
  Words of the LoongArch inter-processor interrupt registers
  (platforms/axplat-loongarch64-qemu-virt/src/irq.rs; section 10.2 of the Loongson 3A5000 manual).
 */
module IpiWords {

  /** The bit at a machine-word position. */
  predicate BitAt(w: bv32, s: bv6)
    requires s < 32
  {
    (w >> s) & 1 == 1
  }

  /** Bit number `i`. */
  predicate Bit(w: bv32, i: nat)
    requires i < 32
  {
    Position(i);
    BitAt(w, i as bv6)
  }

  lemma Position(i: nat)
    requires i < 32
    ensures (i as bv6) < 32 && (i as bv6) as nat == i
  {
  }

  lemma ZeroWord(w: bv32)
    requires !BitAt(w, 0) && !BitAt(w, 1) && !BitAt(w, 2) && !BitAt(w, 3) && !BitAt(w, 4) && !BitAt(w, 5)
    requires !BitAt(w, 6) && !BitAt(w, 7) && !BitAt(w, 8) && !BitAt(w, 9) && !BitAt(w, 10) && !BitAt(w, 11)
    requires !BitAt(w, 12) && !BitAt(w, 13) && !BitAt(w, 14) && !BitAt(w, 15) && !BitAt(w, 16) && !BitAt(w, 17)
    requires !BitAt(w, 18) && !BitAt(w, 19) && !BitAt(w, 20) && !BitAt(w, 21) && !BitAt(w, 22) && !BitAt(w, 23)
    requires !BitAt(w, 24) && !BitAt(w, 25) && !BitAt(w, 26) && !BitAt(w, 27) && !BitAt(w, 28) && !BitAt(w, 29)
    requires !BitAt(w, 30) && !BitAt(w, 31)
    ensures w == 0
  {
  }

  lemma PositionOf(s: bv6)
    requires s < 32
    ensures (s as nat) < 32 && (s as nat) as bv6 == s
  {
  }

  lemma ZeroIffNoBit(w: bv32)
    ensures w == 0 <==> forall i :: 0 <= i < 32 ==> !Bit(w, i)
  {
    if forall i :: 0 <= i < 32 ==> !Bit(w, i) {
      forall s: bv6 | s < 32 ensures !BitAt(w, s) {
        PositionOf(s);
        assert !Bit(w, s as nat);
      }
      ZeroWord(w);
    }
  }

  /** `1 << v` */
  function OneBit(v: nat): bv32
    requires v < 32
  {
    Position(v);
    1 << (v as bv6)
  }

  /** Raising bit `v` of a register. */
  function SetBit(w: bv32, v: nat): bv32
    requires v < 32
  {
    w | OneBit(v)
  }

  /** The effect of writing `mask` to the IPI_CLEAR register. */
  function ClearMask(w: bv32, mask: bv32): bv32 { w & !mask }

  /** `status &= !(1 << v)` */
  function ClearBit(w: bv32, v: nat): bv32
    requires v < 32
  {
    ClearMask(w, OneBit(v))
  }

  lemma OneBitWord(v: bv6, i: bv6)
    requires v < 32 && i < 32
    ensures BitAt(1 << v, i) <==> i == v
  {
  }

  lemma OneBitAt(v: nat, i: nat)
    requires v < 32 && i < 32
    ensures Bit(OneBit(v), i) <==> i == v
  {
    Position(v);
    Position(i);
    OneBitWord(v as bv6, i as bv6);
  }

  lemma OrWord(a: bv32, b: bv32, s: bv6)
    requires s < 32
    ensures BitAt(a | b, s) <==> BitAt(a, s) || BitAt(b, s)
  {
  }

  lemma MaskWord(a: bv32, b: bv32, s: bv6)
    requires s < 32
    ensures BitAt(a & !b, s) <==> BitAt(a, s) && !BitAt(b, s)
  {
  }

  lemma ClearMaskBits(w: bv32, mask: bv32)
    ensures forall i :: 0 <= i < 32 ==> (Bit(ClearMask(w, mask), i) <==> Bit(w, i) && !Bit(mask, i))
  {
    forall i | 0 <= i < 32 ensures Bit(ClearMask(w, mask), i) <==> Bit(w, i) && !Bit(mask, i) {
      Position(i);
      MaskWord(w, mask, i as bv6);
    }
  }

  lemma SetBitBits(w: bv32, v: nat)
    requires v < 32
    ensures forall i :: 0 <= i < 32 ==> (Bit(SetBit(w, v), i) <==> Bit(w, i) || i == v)
  {
    forall i | 0 <= i < 32 ensures Bit(SetBit(w, v), i) <==> Bit(w, i) || i == v {
      Position(i);
      OneBitAt(v, i);
      OrWord(w, OneBit(v), i as bv6);
    }
  }

  lemma ClearBitBits(w: bv32, v: nat)
    requires v < 32
    ensures forall i :: 0 <= i < 32 ==> (Bit(ClearBit(w, v), i) <==> Bit(w, i) && i != v)
  {
    ClearMaskBits(w, OneBit(v));
    forall i | 0 <= i < 32 ensures Bit(OneBit(v), i) <==> i == v { OneBitAt(v, i); }
  }

  /** `status.trailing_zeros()` */
  function TrailingZeros(w: bv32): (v: nat)
    requires w != 0
    ensures v < 32 && Bit(w, v) && forall i :: 0 <= i < v ==> !Bit(w, i)
  {
    ZeroIffNoBit(w);
    LowestFrom(w, 0)
  }

  function LowestFrom(w: bv32, k: nat): (v: nat)
    requires exists i :: k <= i < 32 && Bit(w, i)
    ensures k <= v < 32 && Bit(w, v) && forall i :: k <= i < v ==> !Bit(w, i)
    decreases 32 - k
  {
    if Bit(w, k) then k else LowestFrom(w, k + 1)
  }

  /** `bits` lists the set bits of the word in increasing order. */
  ghost predicate ListsBits(w: bv32, bits: seq<nat>) {
    && (forall i, j :: 0 <= i < j < |bits| ==> bits[i] < bits[j])
    && (forall v :: v in bits <==> 0 <= v < 32 && Bit(w, v))
  }

  /** The set bits at or above position `k`, in increasing order. */
  function BitsFrom(w: bv32, k: nat): (bits: seq<nat>)
    requires k <= 32
    ensures forall v :: v in bits <==> k <= v < 32 && Bit(w, v)
    ensures forall i, j :: 0 <= i < j < |bits| ==> bits[i] < bits[j]
    decreases 32 - k
  {
    if k == 32 then []
    else
      var rest := BitsFrom(w, k + 1);
      assert forall j :: 0 <= j < |rest| ==> rest[j] in rest;
      if Bit(w, k) then [k] + rest else rest
  }

  /** Every word has such a list. */
  function SetBits(w: bv32): (bits: seq<nat>)
    ensures ListsBits(w, bits)
  {
    BitsFrom(w, 0)
  }

  lemma RestOfList(bits: seq<nat>, v: nat)
    requires bits != [] && forall i, j :: 0 <= i < j < |bits| ==> bits[i] < bits[j]
    ensures v in bits[1..] <==> v in bits && v != bits[0]
  {
    if v in bits && v != bits[0] {
      var i :| 0 <= i < |bits| && bits[i] == v;
      assert bits[1..][i - 1] == v;
    }
  }

  /** A word is zero iff its list is empty; otherwise the lowest bit is the head of the list. */
  lemma LowestIsHead(w: bv32, bits: seq<nat>)
    requires ListsBits(w, bits)
    ensures w == 0 <==> bits == []
    ensures w != 0 ==> bits[0] == TrailingZeros(w) && ListsBits(ClearBit(w, TrailingZeros(w)), bits[1..])
  {
    ZeroIffNoBit(w);
    if bits != [] { assert bits[0] in bits; }
    if w != 0 {
      var t := TrailingZeros(w);
      assert t in bits;
      ClearBitBits(w, t);
      forall v: nat ensures v in bits[1..] <==> v in bits && v != bits[0] { RestOfList(bits, v); }
    }
  }

  /** The `s` lowest bits of the word are zeros: shifting them out and back changes nothing. */
  predicate EndsInZeros(w: bv32, s: bv6)
    requires s < 32
  {
    (w >> s) << s == w
  }

  lemma OneMoreZero(w: bv32, s: bv6)
    requires s < 31 && EndsInZeros(w, s) && !BitAt(w, s)
    ensures EndsInZeros(w, s + 1)
  {
  }

  lemma NoZeros(w: bv32)
    ensures EndsInZeros(w, 0)
  {
  }

  lemma NextPosition(i: nat)
    requires i < 31
    ensures ((i + 1) as bv6) == (i as bv6) + 1 && (i as bv6) < 31
  {
  }

  lemma {:induction false} EndsInZerosUpTo(w: bv32, t: nat)
    requires t < 32 && forall i :: 0 <= i < t ==> !Bit(w, i)
    ensures (t as bv6) < 32 && EndsInZeros(w, t as bv6)
    decreases t
  {
    if t == 0 {
      NoZeros(w);
    } else {
      EndsInZerosUpTo(w, t - 1);
      NextPosition(t - 1);
      assert !Bit(w, t - 1);
      OneMoreZero(w, (t - 1) as bv6);
    }
  }

  lemma WordSplits(w: bv32, s: bv6)
    requires s < 32 && EndsInZeros(w, s) && BitAt(w, s)
    ensures (w >> s) << s == w && (w >> s) & 1 == 1
  {
  }

  /** The same without bit numbers: shifting by the result drops only zeros and brings a one to the end. */
  lemma TrailingZerosShift(w: bv32)
    requires w != 0
    ensures var t := TrailingZeros(w) as bv6; (w >> t) << t == w && (w >> t) & 1 == 1
  {
    EndsInZerosUpTo(w, TrailingZeros(w));
    assert Bit(w, TrailingZeros(w));
    WordSplits(w, TrailingZeros(w) as bv6);
  }

  // ---------- send words ----------

  /** The encoder on the truncated CPU number: the shift drops the bits it pushes out. */
  function SendWord(cpu: bv32, vector: bv32, blocking: bool): bv32 {
    var value := (cpu << 16) | vector;
    if blocking then value | (1 << 31) else value
  }

  /** `make_ipi_send_value`; `cpu_id as u32` truncates. */
  function MakeIpiSendValue(cpuId: nat, vector: bv32, blocking: bool): bv32 {
    SendWord((cpuId % 0x1_0000_0000) as bv32, vector, blocking)
  }

  /** Fields of the IPI_SEND register: vector in bits 4..0, CPU in bits 25..16, blocking in bit 31. */
  function CpuField(w: bv32): bv32 { (w >> 16) & 0x3ff }

  function SentCpu(w: bv32): nat { CpuField(w) as nat }

  function SentVector(w: bv32): bv32 { w & 0x1f }

  predicate SentBlocking(w: bv32) { w >> 31 == 1 }

  /** Where the fields lie: vector in bits 4..0, CPU in bits 25..16, blocking in bit 31, zeros elsewhere. */
  lemma SendWordLayout(cpu: bv32, vector: bv32, blocking: bool)
    requires cpu < 1024 && vector < 32
    ensures var w := SendWord(cpu, vector, blocking);
            && w & 0x1f == vector
            && w & 0x3ff_0000 == cpu << 16
            && w & 0x8000_0000 == (if blocking then 0x8000_0000 else 0)
            && w & 0x7c00_ffe0 == 0
  {
  }

  lemma TenBits(n: nat)
    requires n < 1024
    ensures (n as bv10) as nat == n
    ensures (n as bv32) == (n as bv10) as bv32
  {
  }

  lemma Widened(x: bv10)
    ensures (x as bv32) as nat == x as nat
    ensures (x as bv32) < 1024
  {
  }

  lemma SmallNumber(n: nat)
    requires n < 1024
    ensures (n as bv32) < 1024 && (n as bv32) as nat == n
  {
    TenBits(n);
    Widened(n as bv10);
  }

  lemma CpuFieldBound(w: bv32)
    ensures SentCpu(w) < 1024
  {
  }

  lemma FieldsSeparate(cpu: bv32, vector: bv32, blocking: bool)
    requires cpu < 1024
    ensures var w := SendWord(cpu, vector, blocking);
            && (vector < 32 ==> CpuField(w) == cpu && (SentBlocking(w) <==> blocking))
            && (SentVector(w) == vector <==> vector < 32)
  {
  }

  /** A send word decodes to what was encoded exactly when CPU and vector fit their fields. */
  lemma SendWordRoundTrip(cpuId: nat, vector: bv32, blocking: bool)
    ensures var w := MakeIpiSendValue(cpuId, vector, blocking);
            (SentCpu(w) == cpuId && SentVector(w) == vector && (SentBlocking(w) <==> blocking))
            <==> cpuId < 1024 && vector < 32
  {
    CpuFieldBound(MakeIpiSendValue(cpuId, vector, blocking));
    if cpuId < 1024 {
      SmallNumber(cpuId);
      FieldsSeparate(cpuId as bv32, vector, blocking);
    }
  }

  datatype IpiTarget =
    | Current(cpuId: nat)
    | Other(cpuId: nat)
    | AllExceptCurrent(cpuId: nat, cpuNum: nat)

  /** The CPUs 0..n-1 without `sender`, in order. */
  function OthersBelow(n: nat, sender: nat): (cpus: seq<nat>)
    ensures forall c :: c in cpus <==> 0 <= c < n && c != sender
    ensures forall i, j :: 0 <= i < j < |cpus| ==> cpus[i] < cpus[j]
    ensures |cpus| == if sender < n then n - 1 else n
  {
    if n == 0 then []
    else
      var rest := OthersBelow(n - 1, sender);
      assert forall j :: 0 <= j < |rest| ==> rest[j] in rest;
      if n - 1 == sender then rest else rest + [n - 1]
  }

  /** Position by position: the others keep their order and close the sender's gap. */
  lemma {:induction false} OthersInOrder(n: nat, sender: nat, k: nat)
    requires k < |OthersBelow(n, sender)|
    ensures OthersBelow(n, sender)[k] == if k < sender then k else k + 1
    decreases n
  {
    if k < |OthersBelow(n - 1, sender)| { OthersInOrder(n - 1, sender, k); }
  }

  /** Whom a request is meant for. */
  function Recipients(target: IpiTarget): seq<nat> {
    match target
    case Current(c) => [c]
    case Other(c) => [c]
    case AllExceptCurrent(c, n) => OthersBelow(n, c)
  }

  /** One blocking word with vector 0 per recipient. */
  function SendWords(cpus: seq<nat>): (ws: seq<bv32>)
    ensures |ws| == |cpus| && forall k :: 0 <= k < |cpus| ==> ws[k] == MakeIpiSendValue(cpus[k], 0, true)
  {
    seq(|cpus|, k requires 0 <= k < |cpus| => MakeIpiSendValue(cpus[k], 0, true))
  }

  lemma SendWordsConcat(a: seq<nat>, b: seq<nat>)
    ensures SendWords(a + b) == SendWords(a) + SendWords(b)
  {
  }

  /** The IPI_SEND register: every write is one interrupt request. */
  class SendPort {
    var written: seq<bv32>

    constructor ()
      ensures written == []
    { written := []; }

    method Write(w: bv32)
      modifies this
      ensures written == old(written) + [w]
    { written := written + [w]; }
  }

  method SendOne(cpuId: nat, port: SendPort)
    modifies port
    ensures port.written == old(port.written) + SendWords([cpuId])
  {
    port.Write(MakeIpiSendValue(cpuId, 0, true));
  }

  method SendToOthers(sender: nat, n: nat, port: SendPort)
    modifies port
    ensures port.written == old(port.written) + SendWords(OthersBelow(n, sender))
  {
    for i := 0 to n
      invariant port.written == old(port.written) + SendWords(OthersBelow(i, sender))
    {
      if i != sender {
        SendOne(i, port);
        SendWordsConcat(OthersBelow(i, sender), [i]);
      }
    }
  }

  /**
    `send_ipi`. A directed request writes one word, for its CPU. A broadcast writes one word for each
    CPU below the count except the sender, in increasing order.
   */
  method SendIpi(target: IpiTarget, port: SendPort)
    modifies port
    ensures match target
            case Current(c) => port.written == old(port.written) + [MakeIpiSendValue(c, 0, true)]
            case Other(c) => port.written == old(port.written) + [MakeIpiSendValue(c, 0, true)]
            case AllExceptCurrent(sender, n) =>
              var before := |old(port.written)|;
              && |port.written| == before + (if sender < n then n - 1 else n)
              && old(port.written) <= port.written
              && forall p :: before <= p < |port.written| ==>
                   port.written[p] ==
                   MakeIpiSendValue(if p - before < sender then p - before else p - before + 1, 0, true)
    ensures port.written == old(port.written) + SendWords(Recipients(target))
  {
    match target
    case Current(c) => SendOne(c, port);
    case Other(c) => SendOne(c, port);
    case AllExceptCurrent(c, n) =>
      SendToOthers(c, n, port);
      forall k | 0 <= k < |OthersBelow(n, c)| ensures OthersBelow(n, c)[k] == if k < c then k else k + 1 {
        OthersInOrder(n, c, k);
      }
  }

  /** The CPUs a request addresses, said directly. */
  predicate Addresses(target: IpiTarget, c: nat) {
    match target
    case Current(d) => c == d
    case Other(d) => c == d
    case AllExceptCurrent(sender, n) => c < n && c != sender
  }

  lemma RecipientsAddressed(target: IpiTarget, c: nat)
    ensures c in Recipients(target) <==> Addresses(target, c)
  {
  }

  /** The interrupt controller delivers each word of a request to the CPU it was meant for. */
  predicate Delivers(target: IpiTarget) {
    forall k :: 0 <= k < |Recipients(target)| ==> SentCpu(SendWords(Recipients(target))[k]) == Recipients(target)[k]
  }

  lemma SentIffSmall(c: nat)
    ensures SentCpu(MakeIpiSendValue(c, 0, true)) == c <==> c < 1024
  {
    SendWordRoundTrip(c, 0, true);
    CpuFieldBound(MakeIpiSendValue(c, 0, true));
  }

  /** A CPU the field cannot hold: the request for CPU 1024 names another one. */
  lemma CpuOutOfField()
    ensures SentCpu(MakeIpiSendValue(1024, 0, true)) != 1024
  {
    CpuFieldBound(MakeIpiSendValue(1024, 0, true));
  }

  lemma DeliversIffAllSmall(target: IpiTarget)
    ensures Delivers(target) <==> forall c :: c in Recipients(target) ==> c < 1024
  {
    var cpus := Recipients(target);
    forall k | 0 <= k < |cpus| ensures SentCpu(SendWords(cpus)[k]) == cpus[k] <==> cpus[k] < 1024 {
      SentIffSmall(cpus[k]);
    }
    forall k | 0 <= k < |cpus| ensures cpus[k] in cpus {}
    if Delivers(target) {
      forall c | c in cpus ensures c < 1024 {
        var k :| 0 <= k < |cpus| && cpus[k] == c;
        assert SentCpu(SendWords(cpus)[k]) == cpus[k];
      }
    }
  }

  /** A request is delivered correctly iff every recipient fits the ten-bit CPU field. */
  lemma DeliversIffSmall(target: IpiTarget)
    ensures Delivers(target) <==> match target
                                  case Current(c) => c < 1024
                                  case Other(c) => c < 1024
                                  case AllExceptCurrent(c, n) => n <= 1024 || (n == 1025 && c == 1024)
  {
    DeliversIffAllSmall(target);
    if target.AllExceptCurrent? {
      var far := if target.cpuId == 1024 then 1025 else 1024;
      assert far in Recipients(target) <==> far < target.cpuNum;
    } else {
      assert target.cpuId in Recipients(target);
    }
  }
}

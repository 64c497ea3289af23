/**
  Console output on RISC-V (platforms/axplat-riscv64-qemu-virt/src/console.rs) through the SBI debug
  console, which may accept fewer bytes than offered (Debug Console Extension of RISC-V SBI v2.0).
 */
module SbiConsole {
  import opened Words

  const MAX_RW_SIZE: nat := 256

  function Min(a: nat, b: nat): nat { if a < b then a else b }

  /** What one call of the firmware does: it takes up to `n` bytes, or fails with something in `value`. */
  datatype Reply = Took(n: nat) | Failed(value: u64) {
    /** The number of bytes that reach the console when `offered` are offered. */
    function Taken(offered: nat): nat { if Took? then Min(n, offered) else 0 }

    /** The value field of the answer. */
    function Reported(offered: nat): nat { if Took? then Min(n, offered) else value }

    /** A failure whose value field is not zero. */
    predicate Misleads() { Failed? && value > 0 }
  }

  datatype SbiRet = SbiRet(error: bool, value: u64)

  /** `output` is what has reached the console, `replies` says how the future calls turn out. */
  class Firmware {
    var output: seq<bv8>
    var replies: seq<Reply>

    constructor (replies: seq<Reply>)
      ensures output == [] && this.replies == replies
    {
      output := [];
      this.replies := replies;
    }

    method ConsoleWrite(bytes: seq<bv8>) returns (ret: SbiRet)
      requires replies != [] && |bytes| < U64_LIMIT
      modifies this
      ensures ret == SbiRet(old(replies)[0].Failed?, old(replies)[0].Reported(|bytes|))
      ensures output == old(output) + bytes[..old(replies)[0].Taken(|bytes|)] && replies == old(replies)[1..]
    {
      var reply := replies[0];
      ret := SbiRet(reply.Failed?, reply.Reported(|bytes|));
      output := output + bytes[..reply.Taken(|bytes|)];
      replies := replies[1..];
    }
  }

  /** Returns the value field; the error field is not looked at. */
  method TryWriteBytes(bytes: seq<bv8>, firmware: Firmware) returns (value: u64)
    requires firmware.replies != []
    modifies firmware
    ensures value == old(firmware.replies)[0].Reported(Min(|bytes|, MAX_RW_SIZE))
    ensures firmware.output == old(firmware.output) + bytes[..old(firmware.replies)[0].Taken(Min(|bytes|, MAX_RW_SIZE))]
    ensures firmware.replies == old(firmware.replies)[1..]
  {
    var offered := Min(|bytes|, MAX_RW_SIZE);
    ghost var taken := firmware.replies[0].Taken(offered);
    var ret := firmware.ConsoleWrite(bytes[..offered]);
    assert bytes[..offered][..taken] == bytes[..taken];
    return ret.value;
  }

  /** What the loop offers when it has `len` bytes and stands at `at`. */
  function Offered(len: nat, at: nat): nat
    requires at <= len
  {
    Min(len - at, MAX_RW_SIZE)
  }

  /** `write_len` when the loop ends, from `at` on; `None` if adding to it overflows. */
  function End(replies: seq<Reply>, len: nat, at: nat): Option<nat>
    decreases |replies|
  {
    if at >= len || replies == [] then Some(at)
    else
      var next := at + replies[0].Reported(Offered(len, at));
      if next >= U64_LIMIT then None else End(replies[1..], len, next)
  }

  /** The bytes that reach the console. */
  function Delivered(replies: seq<Reply>, bytes: seq<bv8>, at: nat): seq<bv8>
    decreases |replies|
  {
    if at >= |bytes| || replies == [] then []
    else
      var offered := Offered(|bytes|, at);
      var next := at + replies[0].Reported(offered);
      bytes[at..at + replies[0].Taken(offered)]
      + if next >= U64_LIMIT then [] else Delivered(replies[1..], bytes, next)
  }

  /** How many calls the loop makes. */
  function Calls(replies: seq<Reply>, len: nat, at: nat): (n: nat)
    ensures n <= |replies|
    decreases |replies|
  {
    if at >= len || replies == [] then 0
    else
      var next := at + replies[0].Reported(Offered(len, at));
      1 + if next >= U64_LIMIT then 0 else Calls(replies[1..], len, next)
  }

  /** No call that the loop makes fails with a value other than zero. */
  predicate Trusted(replies: seq<Reply>, len: nat, at: nat) {
    forall i :: 0 <= i < Calls(replies, len, at) ==> !replies[i].Misleads()
  }

  /** What the failed calls add to `write_len`. */
  function Skipped(replies: seq<Reply>, len: nat, at: nat): nat
    decreases |replies|
  {
    if at >= len || replies == [] then 0
    else
      var next := at + replies[0].Reported(Offered(len, at));
      (if replies[0].Failed? then replies[0].value else 0)
      + if next >= U64_LIMIT then 0 else Skipped(replies[1..], len, next)
  }

  /** Conservation: the loop advances by what was delivered plus what failed calls made it skip. */
  lemma {:induction false} AdvanceIsDelivery(replies: seq<Reply>, bytes: seq<bv8>, at: nat)
    requires End(replies, |bytes|, at).Some?
    ensures End(replies, |bytes|, at).value == at + |Delivered(replies, bytes, at)| + Skipped(replies, |bytes|, at)
    decreases |replies|
  {
    if at < |bytes| && replies != [] {
      AdvanceIsDelivery(replies[1..], bytes, at + replies[0].Reported(Offered(|bytes|, at)));
    }
  }

  lemma {:induction false} TrustedIffNothingSkipped(replies: seq<Reply>, len: nat, at: nat)
    ensures Trusted(replies, len, at) <==> Skipped(replies, len, at) == 0
    decreases |replies|
  {
    if at < len && replies != [] {
      var rest, next := replies[1..], at + replies[0].Reported(Offered(len, at));
      if next < U64_LIMIT {
        TrustedIffNothingSkipped(rest, len, next);
        assert forall i :: 0 <= i < Calls(rest, len, next) ==> rest[i] == replies[i + 1];
        assert Trusted(replies, len, at) <==> !replies[0].Misleads() && Trusted(rest, len, next) by {
          if Trusted(replies, len, at) { assert !replies[0].Misleads(); }
        }
      } else {
        assert Trusted(replies, len, at) <==> !replies[0].Misleads();
      }
    }
  }

  lemma JoinSlices(bytes: seq<bv8>, a: nat, b: nat, c: nat)
    requires a <= b <= c <= |bytes|
    ensures bytes[a..b] + bytes[b..c] == bytes[a..c]
  {
  }

  lemma {:induction false} TrustedDelivers(replies: seq<Reply>, bytes: seq<bv8>, at: nat)
    requires at <= |bytes| < U64_LIMIT && Skipped(replies, |bytes|, at) == 0
    ensures var end := End(replies, |bytes|, at);
            end.Some? && at <= end.value <= |bytes| && Delivered(replies, bytes, at) == bytes[at..end.value]
    decreases |replies|
  {
    if at < |bytes| && replies != [] {
      var taken, rest := replies[0].Taken(Offered(|bytes|, at)), replies[1..];
      assert replies[0].Reported(Offered(|bytes|, at)) == taken;
      TrustedDelivers(rest, bytes, at + taken);
      JoinSlices(bytes, at, at + taken, End(rest, |bytes|, at + taken).value);
    }
  }

  /**
    Exactly when the write is faithful: the console receives the bytes up to where the loop ends,
    each once and in order, iff no call that the loop makes fails with a value other than zero.
   */
  lemma FaithfulIffTrusted(replies: seq<Reply>, bytes: seq<bv8>)
    requires |bytes| < U64_LIMIT
    ensures var end := End(replies, |bytes|, 0);
            Trusted(replies, |bytes|, 0) <==>
            end.Some? && end.value <= |bytes| && Delivered(replies, bytes, 0) == bytes[..end.value]
  {
    TrustedIffNothingSkipped(replies, |bytes|, 0);
    if Skipped(replies, |bytes|, 0) == 0 {
      TrustedDelivers(replies, bytes, 0);
    } else if End(replies, |bytes|, 0).Some? {
      AdvanceIsDelivery(replies, bytes, 0);
    }
  }

  /** One failing call whose value is the length offered: nothing is written and the loop is done. */
  lemma FailureSkips(bytes: seq<bv8>)
    requires 0 < |bytes| <= MAX_RW_SIZE
    ensures End([Failed(|bytes|)], |bytes|, 0) == Some(|bytes|) && Delivered([Failed(|bytes|)], bytes, 0) == []
  {
  }

  lemma SliceOfSlice(bytes: seq<bv8>, at: nat, n: nat, k: nat)
    requires at + n <= |bytes| && k <= n
    ensures bytes[at..at + n][..k] == bytes[at..at + k]
  {
  }

  /** Result of the loop, what is on the console afterwards, and the calls not made. */
  datatype Played = Played(end: Option<nat>, output: seq<bv8>, unused: seq<Reply>)

  /** The loop from `at` on with `output` on the console: one call at a time. */
  function Play(replies: seq<Reply>, bytes: seq<bv8>, at: nat, output: seq<bv8>): Played
    decreases |replies|
  {
    if at >= |bytes| || replies == [] then Played(Some(at), output, replies)
    else
      var offered := Offered(|bytes|, at);
      var next := at + replies[0].Reported(offered);
      var output' := output + bytes[at..at + replies[0].Taken(offered)];
      if next >= U64_LIMIT then Played(None, output', replies[1..]) else Play(replies[1..], bytes, next, output')
  }

  lemma Associates(a: seq<bv8>, b: seq<bv8>, c: seq<bv8>)
    ensures (a + b) + c == a + (b + c)
  {
  }

  lemma TailOfTail(replies: seq<Reply>, k: nat)
    requires k < |replies|
    ensures replies[1..][k..] == replies[1 + k..]
  {
  }

  lemma {:induction false} PlayOutput(replies: seq<Reply>, bytes: seq<bv8>, at: nat, output: seq<bv8>)
    ensures Play(replies, bytes, at, output).output == output + Delivered(replies, bytes, at)
    decreases |replies|
  {
    if at < |bytes| && replies != [] {
      var offered := Offered(|bytes|, at);
      var next, part := at + replies[0].Reported(offered), bytes[at..at + replies[0].Taken(offered)];
      if next < U64_LIMIT {
        PlayOutput(replies[1..], bytes, next, output + part);
        Associates(output, part, Delivered(replies[1..], bytes, next));
      }
    }
  }

  lemma {:induction false} PlayEnd(replies: seq<Reply>, bytes: seq<bv8>, at: nat, output: seq<bv8>)
    ensures Play(replies, bytes, at, output).end == End(replies, |bytes|, at)
    ensures Play(replies, bytes, at, output).unused == replies[Calls(replies, |bytes|, at)..]
    decreases |replies|
  {
    if at < |bytes| && replies != [] {
      var offered := Offered(|bytes|, at);
      var next, part := at + replies[0].Reported(offered), bytes[at..at + replies[0].Taken(offered)];
      if next < U64_LIMIT {
        PlayEnd(replies[1..], bytes, next, output + part);
        TailOfTail(replies, Calls(replies[1..], |bytes|, next));
      }
    }
  }

  lemma PlayMeans(replies: seq<Reply>, bytes: seq<bv8>, output: seq<bv8>)
    requires |bytes| < U64_LIMIT
    ensures var p := Play(replies, bytes, 0, output);
            && p.end == End(replies, |bytes|, 0)
            && p.output == output + Delivered(replies, bytes, 0)
            && p.unused == replies[Calls(replies, |bytes|, 0)..]
            && (Trusted(replies, |bytes|, 0) ==>
                  p.end.Some? && p.end.value <= |bytes| && p.output == output + bytes[..p.end.value])
  {
    PlayOutput(replies, bytes, 0, output);
    PlayEnd(replies, bytes, 0, output);
    FaithfulIffTrusted(replies, bytes);
  }

  /**
    The retry loop, cut off when the description of the firmware ends. If no call misleads it, the
    console receives a prefix of the bytes, each byte once and in order; `None` is a panic.
   */
  method WriteBytes(bytes: seq<bv8>, firmware: Firmware) returns (end: Option<nat>)
    requires |bytes| < U64_LIMIT
    modifies firmware
    ensures Trusted(old(firmware.replies), |bytes|, 0) ==>
              end.Some? && end.value <= |bytes| && firmware.output == old(firmware.output) + bytes[..end.value]
    ensures end == End(old(firmware.replies), |bytes|, 0)
    ensures firmware.output == old(firmware.output) + Delivered(old(firmware.replies), bytes, 0)
    ensures firmware.replies == old(firmware.replies)[Calls(old(firmware.replies), |bytes|, 0)..]
  {
    ghost var replies, before := firmware.replies, firmware.output;
    PlayMeans(replies, bytes, before);
    var writeLen: u64 := 0;
    var buf := new bv8[MAX_RW_SIZE];
    while writeLen < |bytes| && firmware.replies != []
      invariant Play(firmware.replies, bytes, writeLen, firmware.output) == Play(replies, bytes, 0, before)
      decreases |firmware.replies|
    {
      var n := Min(buf.Length, |bytes| - writeLen);
      CopyChunk(buf, bytes, writeLen, n);
      SliceOfSlice(bytes, writeLen, n, firmware.replies[0].Taken(n));
      var value := TryWriteBytes(buf[..n], firmware);
      if writeLen + value >= U64_LIMIT { return None; }
      writeLen := writeLen + value;
    }
    return Some(writeLen);
  }

  method CopyChunk(buf: array<bv8>, bytes: seq<bv8>, at: nat, n: nat)
    requires n <= buf.Length && at + n <= |bytes|
    modifies buf
    ensures buf[..n] == bytes[at..at + n]
  {
    forall i | 0 <= i < n { buf[i] := bytes[at + i]; }
  }

  /** Calls in which the firmware is prepared to take at least one byte. */
  function PositiveCalls(replies: seq<Reply>): nat {
    if replies == [] then 0 else PositiveCalls(replies[1..]) + if replies[0].Took? && replies[0].n > 0 then 1 else 0
  }

  /**
    Completion: if no call misleads and the firmware makes progress in as many calls as there are
    bytes, everything is written; a loop that ends early has used up the whole description.
   */
  lemma {:induction false} ProgressCompletes(replies: seq<Reply>, len: nat, at: nat)
    requires at <= len < U64_LIMIT
    ensures PositiveCalls(replies) >= len - at && Skipped(replies, len, at) == 0 ==> End(replies, len, at) == Some(len)
    ensures End(replies, len, at).Some? && End(replies, len, at).value < len ==> Calls(replies, len, at) == |replies|
    decreases |replies|
  {
    if at < len && replies != [] {
      var next := at + replies[0].Reported(Offered(len, at));
      if next <= len {
        ProgressCompletes(replies[1..], len, next);
      } else if next < U64_LIMIT {
        assert End(replies[1..], len, next) == Some(next);
      }
    }
  }

  lemma {:induction false} AllPositive(replies: seq<Reply>)
    requires forall i :: 0 <= i < |replies| ==> replies[i].Took? && replies[i].n >= 1
    ensures PositiveCalls(replies) == |replies|
    decreases |replies|
  {
    if replies != [] { AllPositive(replies[1..]); }
  }

  /** Firmware that takes at least one byte each time needs at most one call per byte. */
  lemma WillingFirmware(replies: seq<Reply>, len: nat)
    requires forall i :: 0 <= i < |replies| ==> replies[i].Took? && replies[i].n >= 1
    requires len < U64_LIMIT && |replies| >= len
    ensures End(replies, len, 0) == Some(len)
  {
    AllPositive(replies);
    TrustedIffNothingSkipped(replies, len, 0);
    ProgressCompletes(replies, len, 0);
  }

  /** An obliging firmware needs one call per 256 bytes. */
  lemma {:induction false} ObligingFirmware(replies: seq<Reply>, len: nat, at: nat)
    requires at <= len < U64_LIMIT
    requires forall i :: 0 <= i < |replies| ==> replies[i].Took? && replies[i].n >= MAX_RW_SIZE
    requires |replies| * MAX_RW_SIZE >= len - at
    ensures End(replies, len, at) == Some(len)
    decreases |replies|
  {
    if at < len && replies != [] { ObligingFirmware(replies[1..], len, at + Offered(len, at)); }
  }
}

/** The PL011 UART driver (platforms/axplat-arm-peripherals/src/pl011.rs). */
module Pl011 {
  import opened Words

  const CR: bv8 := 13
  const LF: bv8 := 10

  /** What the wire carries for the given bytes: a carriage return before every line feed. */
  function Expand(bytes: seq<bv8>): seq<bv8> {
    if bytes == [] then []
    else (if bytes[0] == LF then [CR, LF] else [bytes[0]]) + Expand(bytes[1..])
  }

  /** Drops the carriage return of every CR LF pair. */
  function Collapse(wire: seq<bv8>): seq<bv8> {
    if wire == [] then []
    else if |wire| >= 2 && wire[0] == CR && wire[1] == LF then [LF] + Collapse(wire[2..])
    else [wire[0]] + Collapse(wire[1..])
  }

  /** `sent` is what went out on the wire; `polls` are the answers of future reads, `None` when no byte is there. */
  class Uart {
    var sent: seq<bv8>
    var polls: seq<Option<bv8>>

    constructor (polls: seq<Option<bv8>>)
      ensures sent == [] && this.polls == polls
    {
      sent := [];
      this.polls := polls;
    }

    method Putchar(c: bv8)
      modifies this`sent
      ensures sent == old(sent) + [c]
    { sent := sent + [c]; }

    /** After the last answer no further byte arrives. */
    method Getchar() returns (c: Option<bv8>)
      modifies this`polls
      ensures c == if old(polls) == [] then None else old(polls)[0]
      ensures polls == if old(polls) == [] then [] else old(polls)[1..]
    {
      if polls == [] { return None; }
      c := polls[0];
      polls := polls[1..];
    }
  }

  /** The bytes that successive reads return before the first one that finds nothing. */
  function Arriving(polls: seq<Option<bv8>>): (bytes: seq<bv8>)
    ensures |bytes| <= |polls|
    ensures forall i :: 0 <= i < |bytes| ==> polls[i] == Some(bytes[i])
    ensures |bytes| < |polls| ==> polls[|bytes|] == None
  {
    if polls == [] || polls[0].None? then [] else [polls[0].value] + Arriving(polls[1..])
  }

  method DoPutchar(uart: Uart, c: bv8)
    modifies uart`sent
    ensures uart.sent == old(uart.sent) + Expand([c])
  {
    if c == LF {
      uart.Putchar(CR);
      uart.Putchar(LF);
    } else {
      uart.Putchar(c);
    }
  }

  /** Byte by byte: a line feed (10) becomes carriage return (13) and line feed, every other byte stays. */
  lemma ExpandOne(c: bv8)
    ensures Expand([c]) == if c == 10 then [13, 10] else [c]
  {
    assert Expand([c][1..]) == [];
  }

  /** Writing in pieces is writing the whole. */
  lemma {:induction false} ExpandConcat(a: seq<bv8>, b: seq<bv8>)
    ensures Expand(a + b) == Expand(a) + Expand(b)
    decreases |a|
  {
    if a == [] {
      assert a + b == b;
    } else {
      assert (a + b)[1..] == a[1..] + b;
      ExpandConcat(a[1..], b);
    }
  }

  lemma ExpandNext(bytes: seq<bv8>, n: nat)
    requires n < |bytes|
    ensures Expand(bytes[..n + 1]) == Expand(bytes[..n]) + Expand([bytes[n]])
  {
    ExpandConcat(bytes[..n], [bytes[n]]);
    assert bytes[..n + 1] == bytes[..n] + [bytes[n]];
  }

  method WriteBytes(uart: Uart, bytes: seq<bv8>)
    modifies uart`sent
    ensures uart.sent == old(uart.sent) + Expand(bytes)
  {
    for i := 0 to |bytes|
      invariant uart.sent == old(uart.sent) + Expand(bytes[..i])
    {
      DoPutchar(uart, bytes[i]);
      ExpandNext(bytes, i);
    }
    assert bytes[..|bytes|] == bytes;
  }

  /** The answers left after reading `n` bytes and, unless the reader was full, finding nothing once. */
  function LeftAfter(polls: seq<Option<bv8>>, n: nat, full: bool): seq<Option<bv8>>
    requires n <= |polls|
  {
    if full || n == |polls| then polls[n..] else polls[n + 1..]
  }

  /**
    Reads bytes, also those that arrive while the loop runs, until a read finds nothing or the
    buffer is full; the rest of the buffer is untouched.
   */
  method ReadBytes(uart: Uart, bytes: array<bv8>) returns (readLen: nat)
    modifies uart`polls, bytes
    ensures var arriving := Arriving(old(uart.polls));
            && readLen == (if |arriving| < bytes.Length then |arriving| else bytes.Length)
            && bytes[..] == arriving[..readLen] + old(bytes[readLen..])
    ensures uart.polls == LeftAfter(old(uart.polls), readLen, readLen == bytes.Length)
  {
    ghost var polls, arriving := uart.polls, Arriving(uart.polls);
    readLen := 0;
    while readLen < bytes.Length
      invariant readLen <= bytes.Length && readLen <= |arriving|
      invariant uart.polls == polls[readLen..]
      invariant forall i :: 0 <= i < readLen ==> bytes[i] == arriving[i]
      invariant forall i :: readLen <= i < bytes.Length ==> bytes[i] == old(bytes[i])
    {
      var c := uart.Getchar();
      if c.None? { break; }
      assert c == polls[readLen] && readLen < |arriving|;
      bytes[readLen] := c.value;
      readLen := readLen + 1;
    }
    assert readLen < bytes.Length ==> readLen == |arriving|;
    assert bytes[..readLen] == arriving[..readLen] && bytes[readLen..] == old(bytes[readLen..]);
    assert bytes[..] == bytes[..readLen] + bytes[readLen..];
  }

  /** The receive interrupt echoes every byte up to the first read that finds nothing. */
  method EchoPending(uart: Uart)
    modifies uart
    ensures uart.sent == old(uart.sent) + Expand(Arriving(old(uart.polls)))
    ensures uart.polls == LeftAfter(old(uart.polls), |Arriving(old(uart.polls))|, false)
  {
    ghost var polls, arriving, n := uart.polls, Arriving(uart.polls), 0;
    while true
      invariant n <= |arriving| && uart.polls == polls[n..]
      invariant uart.sent == old(uart.sent) + Expand(arriving[..n])
      decreases |uart.polls|
    {
      var c := uart.Getchar();
      if c.None? { break; }
      DoPutchar(uart, c.value);
      ExpandNext(arriving, n);
      n := n + 1;
    }
    assert arriving[..n] == arriving;
  }

  /** The expansion loses nothing: it has a left inverse on all byte strings. */
  lemma {:induction false} ExpandInvertible(bytes: seq<bv8>)
    ensures Collapse(Expand(bytes)) == bytes
    ensures Expand(bytes) != [] ==> Expand(bytes)[0] != LF
    decreases |bytes|
  {
    if bytes != [] {
      ExpandInvertible(bytes[1..]);
      var wire, rest := Expand(bytes), Expand(bytes[1..]);
      if bytes[0] == LF { assert wire[2..] == rest; } else { assert wire[1..] == rest; }
      assert bytes == [bytes[0]] + bytes[1..];
    }
  }

  /** Every line feed on the wire follows a carriage return. */
  predicate WellFormed(wire: seq<bv8>) {
    forall i :: 0 <= i < |wire| && wire[i] == LF ==> i > 0 && wire[i - 1] == CR
  }

  /** The wire carries exactly the strings in which every line feed follows a carriage return. */
  lemma {:induction false} CollapseInvertibleIff(wire: seq<bv8>)
    ensures Expand(Collapse(wire)) == wire <==> WellFormed(wire)
    decreases |wire|
  {
    if wire == [] {
    } else if |wire| >= 2 && wire[0] == CR && wire[1] == LF {
      var rest := wire[2..];
      CollapseInvertibleIff(rest);
      assert ([LF] + Collapse(rest))[1..] == Collapse(rest);
      assert wire == [CR, LF] + rest;
      PairThenRest(rest);
    } else {
      var rest := wire[1..];
      CollapseInvertibleIff(rest);
      assert ([wire[0]] + Collapse(rest))[1..] == Collapse(rest);
      assert wire == [wire[0]] + rest;
      if wire[0] == LF {
        assert Expand(Collapse(wire))[0] == CR;
      } else {
        OneThenRest(wire[0], rest);
      }
    }
  }

  lemma PairThenRest(rest: seq<bv8>)
    ensures WellFormed([CR, LF] + rest) <==> WellFormed(rest)
  {
    var wire := [CR, LF] + rest;
    assert forall i :: 0 <= i < |rest| ==> rest[i] == wire[i + 2];
    if WellFormed(wire) {
      forall i | 0 <= i < |rest| && rest[i] == LF ensures i > 0 && rest[i - 1] == CR {
        assert wire[i + 2] == LF && wire[i + 1] == CR;
      }
    }
  }

  lemma OneThenRest(c: bv8, rest: seq<bv8>)
    requires c != LF && !(c == CR && rest != [] && rest[0] == LF)
    ensures WellFormed([c] + rest) <==> WellFormed(rest)
  {
    var wire := [c] + rest;
    assert forall i :: 0 <= i < |rest| ==> rest[i] == wire[i + 1];
    if WellFormed(wire) {
      forall i | 0 <= i < |rest| && rest[i] == LF ensures i > 0 && rest[i - 1] == CR {
        assert wire[i + 1] == LF && wire[i] == CR;
      }
    }
  }
}

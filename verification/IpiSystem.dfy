/**
  Senders and receivers together: the interrupt controller routes every word written to IPI_SEND to
  the CPU and vector it names, and each CPU runs the receiver of module LoongIpi
  (platforms/axplat-loongarch64-qemu-virt/src/irq.rs).
 */
module IpiSystem {
  import opened IpiWords
  import LoongIpi

  /** A word is written to IPI_SEND, by any CPU, or one CPU takes a step of its receiver. */
  datatype Event = Write(word: bv32) | Step(cpu: nat)

  type System = seq<LoongIpi.State>

  /** The vector the controller takes from a word. */
  function VectorOf(w: bv32): (v: nat)
    ensures v < 32
  {
    VectorFieldBound(w);
    SentVector(w) as nat
  }

  lemma VectorFieldBound(w: bv32)
    ensures (SentVector(w) as nat) < 32
  {
  }

  /** The CPU an event concerns. */
  function Target(e: Event): nat { if e.Write? then SentCpu(e.word) else e.cpu }

  function Effect(e: Event): (le: LoongIpi.Event)
    ensures LoongIpi.ValidEvent(le)
  {
    if e.Write? then LoongIpi.Send(VectorOf(e.word)) else LoongIpi.Receive
  }

  /** A word for a CPU that does not exist has no effect. */
  function Next(sys: System, e: Event): (sys': System)
    ensures |sys'| == |sys|
  {
    if Target(e) < |sys| then sys[Target(e) := LoongIpi.Next(sys[Target(e)], Effect(e))] else sys
  }

  function Run(sys: System, es: seq<Event>): (sys': System)
    ensures |sys'| == |sys|
    decreases |es|
  {
    if es == [] then sys else Run(Next(sys, es[0]), es[1..])
  }

  function Start(n: nat): System { seq(n, _ => LoongIpi.START) }

  /** The part of a run that concerns CPU `c`. */
  function SeenBy(es: seq<Event>, c: nat): (seen: seq<LoongIpi.Event>)
    ensures LoongIpi.ValidRun(seen)
    decreases |es|
  {
    if es == [] then []
    else if Target(es[0]) == c then [Effect(es[0])] + SeenBy(es[1..], c)
    else SeenBy(es[1..], c)
  }

  /** Every CPU behaves as a single receiver under the events that concern it. */
  lemma {:induction false} EachCpuAlone(sys: System, es: seq<Event>, c: nat)
    requires c < |sys|
    ensures Run(sys, es)[c] == LoongIpi.Run(sys[c], SeenBy(es, c))
    decreases |es|
  {
    if es != [] {
      EachCpuAlone(Next(sys, es[0]), es[1..], c);
      if Target(es[0]) == c { assert SeenBy(es, c)[0] == Effect(es[0]) && SeenBy(es, c)[1..] == SeenBy(es[1..], c); }
    }
  }

  lemma {:induction false} RunAppend(sys: System, a: seq<Event>, b: seq<Event>)
    ensures Run(sys, a + b) == Run(Run(sys, a), b)
    decreases |a|
  {
    if a == [] {
      assert a + b == b;
    } else {
      assert (a + b)[1..] == a[1..] + b;
      RunAppend(Next(sys, a[0]), a[1..], b);
    }
  }

  lemma RunLast(sys: System, es: seq<Event>, e: Event)
    ensures Run(sys, es + [e]) == Next(Run(sys, es), e)
  {
    RunAppend(sys, es, [e]);
    assert [e][1..] == [];
    assert Run(Run(sys, es), [e]) == Run(Next(Run(sys, es), e), []);
  }

  /** Steps that CPU `c` takes. */
  function Steps(es: seq<Event>, c: nat): nat
    decreases |es|
  {
    if es == [] then 0 else Steps(es[1..], c) + if es[0] == Step(c) then 1 else 0
  }

  lemma {:induction false} StepsAreReceives(es: seq<Event>, c: nat)
    ensures LoongIpi.Receives(SeenBy(es, c)) == Steps(es, c)
    decreases |es|
  {
    if es != [] {
      StepsAreReceives(es[1..], c);
      if Target(es[0]) == c { assert SeenBy(es, c)[0] == Effect(es[0]) && SeenBy(es, c)[1..] == SeenBy(es[1..], c); }
    }
  }

  lemma {:induction false} StepsOfSuffix(a: seq<Event>, b: seq<Event>, c: nat)
    ensures Steps(b, c) <= Steps(a + b, c)
    decreases |a|
  {
    if a == [] {
      assert a + b == b;
    } else {
      assert (a + b)[1..] == a[1..] + b;
      StepsOfSuffix(a[1..], b, c);
    }
  }

  /** CPU `c` has started the handler of `v` since its history was `before`. */
  predicate StartedSince(before: seq<LoongIpi.Obs>, now: seq<LoongIpi.Obs>, v: nat) {
    before <= now && LoongIpi.Started(v) in now[|before|..]
  }

  lemma SendIsServed(s: LoongIpi.State, v: nat, es: seq<LoongIpi.Event>)
    requires v < 32 && LoongIpi.ValidRun(es) && LoongIpi.Receives(es) >= 68
    ensures StartedSince(s.log, LoongIpi.Run(LoongIpi.Next(s, LoongIpi.Send(v)), es).log, v)
  {
    var sent := LoongIpi.Next(s, LoongIpi.Send(v));
    LoongIpi.SendStep(s, v);
    LoongIpi.PendingStarts(sent, es, v);
    LoongIpi.LaterSuffix(LoongIpi.Run(sent, es).log, |s.log|, |sent.log|, LoongIpi.Started(v));
  }

  /** A word that names an existing CPU is served there within 68 of that CPU's own steps. */
  lemma WordIsServed(sys: System, word: bv32, after: seq<Event>)
    requires SentCpu(word) < |sys| && Steps(after, SentCpu(word)) >= 68
    ensures var c := SentCpu(word);
            StartedSince(sys[c].log, Run(Next(sys, Write(word)), after)[c].log, VectorOf(word))
  {
    var c := SentCpu(word);
    EachCpuAlone(Next(sys, Write(word)), after, c);
    StepsAreReceives(after, c);
    SendIsServed(sys[c], VectorOf(word), SeenBy(after, c));
  }

  /** The word that `send_ipi` writes for CPU `c`. */
  function WordFor(c: nat): bv32 { MakeIpiSendValue(c, 0, true) }

  /** The controller takes from a word the CPU and vector that were encoded, if they fit. */
  lemma WordDecodes(c: nat, vector: bv32, blocking: bool)
    requires c < 1024 && vector < 32
    ensures var w := MakeIpiSendValue(c, vector, blocking);
            Target(Write(w)) == c && Effect(Write(w)) == LoongIpi.Send(vector as nat)
  {
    SendWordRoundTrip(c, vector, blocking);
  }

  lemma WordNames(c: nat)
    ensures VectorOf(WordFor(c)) == 0 || c >= 1024
    ensures SentCpu(WordFor(c)) == c <==> c < 1024
  {
    SentIffSmall(c);
    SendWordRoundTrip(c, 0, true);
  }

  /** The word reaches the CPU it is meant for, and only that one, iff the number fits its field. */
  lemma ReachesIffSmall(sys: System, c: nat)
    requires c < |sys|
    ensures Next(sys, Write(WordFor(c))) == sys[c := LoongIpi.Next(sys[c], LoongIpi.Send(0))] <==> c < 1024
  {
    WordNames(c);
    var w := WordFor(c);
    if SentCpu(w) != c {
      assert LoongIpi.Next(sys[c], LoongIpi.Send(0)).log != sys[c].log;
      assert Next(sys, Write(w))[c] == sys[c];
    }
  }

  /** The writes that send one word to each of these CPUs. */
  function WritesTo(cpus: seq<nat>): (es: seq<Event>)
    ensures |es| == |cpus| && forall k :: 0 <= k < |cpus| ==> es[k] == Write(SendWords(cpus)[k])
  {
    seq(|cpus|, k requires 0 <= k < |cpus| => Write(SendWords(cpus)[k]))
  }

  predicate Distinct(cpus: seq<nat>) { forall i, j :: 0 <= i < j < |cpus| ==> cpus[i] != cpus[j] }

  lemma {:induction false} WritesReach(sys: System, cpus: seq<nat>, d: nat)
    requires Distinct(cpus) && (forall k :: 0 <= k < |cpus| ==> cpus[k] < 1024) && d < |sys|
    ensures Run(sys, WritesTo(cpus))[d] == if d in cpus then LoongIpi.Next(sys[d], LoongIpi.Send(0)) else sys[d]
    decreases |cpus|
  {
    if cpus != [] {
      var c, rest := cpus[0], cpus[1..];
      var write := Write(WordFor(c));
      HeadAndTail(cpus, d);
      assert WritesTo(cpus)[0] == write && WritesTo(cpus)[1..] == WritesTo(rest);
      WordNames(c);
      WritesReach(Next(sys, write), rest, d);
      assert Target(write) == c && Effect(write) == LoongIpi.Send(0);
    }
  }

  lemma HeadAndTail(cpus: seq<nat>, d: nat)
    requires cpus != [] && Distinct(cpus)
    ensures Distinct(cpus[1..]) && cpus[0] !in cpus[1..]
    ensures d in cpus <==> d == cpus[0] || d in cpus[1..]
  {
    var rest := cpus[1..];
    assert forall k :: 0 <= k < |rest| ==> rest[k] == cpus[k + 1];
    assert forall k :: 0 < k < |cpus| ==> cpus[k] == rest[k - 1];
  }

  /**
    A request does what it says and no more: if the numbers fit, the writes of `send_ipi` raise the
    interrupt once at every CPU that is addressed and leave every other CPU as it was.
   */
  lemma RequestIsExact(sys: System, target: IpiTarget, d: nat)
    requires (forall c :: Addresses(target, c) ==> c < 1024) && d < |sys|
    ensures Run(sys, WritesTo(Recipients(target)))[d] ==
            if Addresses(target, d) then LoongIpi.Next(sys[d], LoongIpi.Send(0)) else sys[d]
  {
    forall c: nat ensures c in Recipients(target) <==> Addresses(target, c) { RecipientsAddressed(target, c); }
    assert forall k :: 0 <= k < |Recipients(target)| ==> Recipients(target)[k] in Recipients(target);
    WritesReach(sys, Recipients(target), d);
  }

  /**
    A request reaches everyone. Whatever else is interleaved before, during and after the writes of
    `send_ipi`, each recipient whose number fits the word has started its handler since the request
    began, once it has taken 68 steps after the last write.
   */
  lemma RequestIsServed(n: nat, target: IpiTarget, before: seq<Event>, during: seq<Event>, after: seq<Event>, c: nat)
    requires forall k :: 0 <= k < |Recipients(target)| ==> Write(SendWords(Recipients(target))[k]) in during
    requires Addresses(target, c) && c < n && c < 1024 && Steps(after, c) >= 68
    ensures StartedSince(Run(Start(n), before)[c].log, Run(Start(n), before + during + after)[c].log, 0)
  {
    RecipientsAddressed(target, c);
    var i := PlaceOfWord(target, during, c);
    StepsOfSuffix(during[i + 1..], after, c);
    OneWordIsServed(n, before, during[..i], during[i + 1..] + after, c);
    SplitAround(before, during, i, after);
  }

  lemma PlaceOfWord(target: IpiTarget, during: seq<Event>, c: nat) returns (i: nat)
    requires forall k :: 0 <= k < |Recipients(target)| ==> Write(SendWords(Recipients(target))[k]) in during
    requires c in Recipients(target)
    ensures i < |during| && during[i] == Write(WordFor(c))
  {
    var k :| 0 <= k < |Recipients(target)| && Recipients(target)[k] == c;
    assert Write(SendWords(Recipients(target))[k]) in during;
    i :| 0 <= i < |during| && during[i] == Write(WordFor(c));
  }

  lemma SplitAround(before: seq<Event>, during: seq<Event>, i: nat, after: seq<Event>)
    requires i < |during|
    ensures before + during[..i] + [during[i]] + (during[i + 1..] + after) == before + during + after
  {
    assert during == during[..i] + [during[i]] + during[i + 1..];
  }

  lemma OneWordIsServed(n: nat, before: seq<Event>, until: seq<Event>, after: seq<Event>, c: nat)
    requires c < n && c < 1024 && Steps(after, c) >= 68
    ensures StartedSince(
              Run(Start(n), before)[c].log,
              Run(Start(n), before + until + [Write(WordFor(c))] + after)[c].log, 0)
  {
    var sys, write := Run(Start(n), before), Write(WordFor(c));
    var sys' := Run(sys, until);
    WordNames(c);
    WordIsServed(sys', WordFor(c), after);
    EachCpuAlone(sys, until, c);
    LoongIpi.LogGrows(sys[c], SeenBy(until, c));
    RunAppend(Start(n), before, until);
    RunLast(Start(n), before + until, write);
    RunAppend(Start(n), before + until + [write], after);
    LoongIpi.LaterSuffix(Run(Next(sys', write), after)[c].log, |sys[c].log|, |sys'[c].log|, LoongIpi.Started(0));
  }

  /** How many written words name CPU `c` and vector `v`. */
  function WritesFor(es: seq<Event>, c: nat, v: nat): nat {
    if es == [] then 0
    else
      var e := es[|es| - 1];
      WritesFor(es[..|es| - 1], c, v) + if e.Write? && SentCpu(e.word) == c && VectorOf(e.word) == v then 1 else 0
  }

  /** No CPU starts a handler more often than words name it: nobody is disturbed by other CPUs' interrupts. */
  lemma StartsAtMostWrites(n: nat, es: seq<Event>, c: nat, v: nat)
    requires c < n && v < 32
    ensures LoongIpi.Count(Run(Start(n), es)[c].log, LoongIpi.Started(v)) <= WritesFor(es, c, v)
  {
    EachCpuAlone(Start(n), es, c);
    LoongIpi.StartsAtMostSends(SeenBy(es, c), v);
    SendsAreWrites(n, es, c, v);
  }

  lemma {:induction false} SendsAreWrites(n: nat, es: seq<Event>, c: nat, v: nat)
    requires c < n
    ensures LoongIpi.Count(Run(Start(n), es)[c].log, LoongIpi.Sent(v)) == WritesFor(es, c, v)
    decreases |es|
  {
    if es != [] {
      var before, e := es[..|es| - 1], es[|es| - 1];
      SendsAreWrites(n, before, c, v);
      RunLast(Start(n), before, e);
      assert es == before + [e];
      NextCounts(Run(Start(n), before), e, c, v);
    }
  }

  lemma NextCounts(sys: System, e: Event, c: nat, v: nat)
    requires c < |sys|
    ensures LoongIpi.Count(Next(sys, e)[c].log, LoongIpi.Sent(v))
            == LoongIpi.Count(sys[c].log, LoongIpi.Sent(v))
               + if e.Write? && SentCpu(e.word) == c && VectorOf(e.word) == v then 1 else 0
  {
    if Target(e) == c { StepCounts(sys[c], Effect(e), v); }
  }

  lemma StepCounts(s: LoongIpi.State, e: LoongIpi.Event, v: nat)
    requires LoongIpi.ValidEvent(e)
    ensures LoongIpi.Count(LoongIpi.Next(s, e).log, LoongIpi.Sent(v))
            == LoongIpi.Count(s.log, LoongIpi.Sent(v)) + if e == LoongIpi.Send(v) then 1 else 0
  {
    if e.Send? {
      LoongIpi.CountAppend(s.log, LoongIpi.Sent(e.v), LoongIpi.Sent(v));
    } else if s.pc == LoongIpi.Draining && s.local != 0 {
      LoongIpi.CountAppend(s.log, LoongIpi.Started(TrailingZeros(s.local)), LoongIpi.Sent(v));
    }
  }
}

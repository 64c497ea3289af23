/**
  Physical memory ranges (axplat/src/mem.rs).

  `RangesDifference` removes a sorted list of ranges from an arbitrary list. Its meaning is the
  pure function `Difference`; the laws of `Difference` are in module RangeAlgebra.
  `start + size` is an overflow-checked `usize` addition: a range that does not fit makes the
  code panic, which the outcome `Panic` records.
 */
module PhysRanges {
  import opened Words

  datatype RawRange = RawRange(start: nat, size: nat) {
    function End(): nat { start + size }

    /** The addition `start + size` does not overflow. */
    predicate Fits() { End() < U64_LIMIT }

    predicate Has(a: nat) { start <= a < End() }
  }

  /** The half-open `Range<usize>` that the error value carries. */
  datatype Span = Span(lo: nat, hi: nat)

  datatype Outcome = Ok | Err(prev: Span, cur: Span) | Panic

  predicate AllFit(rs: seq<RawRange>) { forall i :: 0 <= i < |rs| ==> rs[i].Fits() }

  predicate AllPositive(rs: seq<RawRange>) { forall i :: 0 <= i < |rs| ==> rs[i].size > 0 }

  /** Every range ends before every later one starts. */
  predicate Ordered(rs: seq<RawRange>) {
    forall i, j :: 0 <= i < j < |rs| ==> rs[i].End() <= rs[j].start
  }

  /** `k` is the first range that starts before its predecessor ends. */
  predicate FirstOverlap(rs: seq<RawRange>, k: int) {
    && 0 < k < |rs|
    && AllFit(rs[..k + 1])
    && Ordered(rs[..k])
    && rs[k].start < rs[k - 1].End()
  }

  /** `k` is the first range whose end overflows, and nothing before it overlaps. */
  predicate FirstOverflow(rs: seq<RawRange>, k: int) {
    && 0 <= k < |rs|
    && AllFit(rs[..k])
    && Ordered(rs[..k])
    && !rs[k].Fits()
  }

  /** The first `k` ranges fit and are ordered. */
  predicate Scanned(rs: seq<RawRange>, k: nat)
    requires k <= |rs|
  {
    AllFit(rs[..k]) && Ordered(rs[..k])
  }

  /** One step of the scan: it goes on, overflows or finds an overlap. */
  lemma ScanStep(rs: seq<RawRange>, k: nat)
    requires k < |rs| && Scanned(rs, k)
    ensures if !rs[k].Fits() then FirstOverflow(rs, k)
            else if k > 0 && rs[k - 1].End() > rs[k].start then FirstOverlap(rs, k)
            else Scanned(rs, k + 1)
  {
    var p, q := rs[..k], rs[..k + 1];
    assert q == p + [rs[k]];
    if k > 0 && rs[k - 1].End() <= rs[k].start {
      forall i | 0 <= i < k ensures q[i].End() <= q[k].start {
        assert i < k - 1 ==> p[i].End() <= p[k - 1].start;
      }
    }
  }

  /** Where the scan stops: the first overlap or the first overflow. */
  predicate Stops(rs: seq<RawRange>, k: int) { FirstOverlap(rs, k) || FirstOverflow(rs, k) }

  /** A scan cannot get past a place where it stops. */
  lemma NotScannedPast(rs: seq<RawRange>, j: nat, k: nat)
    requires j < k <= |rs| && Stops(rs, j)
    ensures !Scanned(rs, k)
  {
    assert rs[..k][j] == rs[j];
    if FirstOverlap(rs, j) { assert rs[..k][j - 1] == rs[j - 1]; }
  }

  /** The scan stops in one place and for one reason, and only on lists that are not fitting and ordered. */
  lemma StopIsUnique(rs: seq<RawRange>, k: int)
    requires Stops(rs, k)
    ensures !(AllFit(rs) && Ordered(rs))
    ensures forall j :: Stops(rs, j) ==> j == k
    ensures !(FirstOverlap(rs, k) && FirstOverflow(rs, k))
  {
    forall j | Stops(rs, j) ensures j == k {
      if j < k { NotScannedPast(rs, j, k); } else if k < j { NotScannedPast(rs, k, j); }
    }
    if FirstOverlap(rs, k) { assert rs[..k + 1][k] == rs[k]; }
  }

  lemma AcceptedHasNoStop(rs: seq<RawRange>)
    requires AllFit(rs) && Ordered(rs)
    ensures forall k :: !Stops(rs, k)
  {
  }

  /** The outcome of a scan that stops at `k`. */
  function StoppedAt(rs: seq<RawRange>, k: nat): Outcome
    requires k < |rs| && Stops(rs, k)
  {
    if FirstOverflow(rs, k) then Panic
    else Err(Span(rs[k - 1].start, rs[k - 1].End()), Span(rs[k].start, rs[k].End()))
  }

  /**
    What the check promises: it accepts exactly the fitting, ordered lists, and otherwise reports the
    neighbours at the first overlap, or panics at the first overflow, whichever comes first.
   */
  ghost predicate Describes(r: Outcome, rs: seq<RawRange>) {
    && (r.Ok? <==> AllFit(rs) && Ordered(rs))
    && (r.Err? <==> exists k :: FirstOverlap(rs, k))
    && (forall k :: FirstOverlap(rs, k) ==> r == Err(
          Span(rs[k - 1].start, rs[k - 1].start + rs[k - 1].size),
          Span(rs[k].start, rs[k].start + rs[k].size)))
    && (r.Panic? <==> exists k :: FirstOverflow(rs, k))
  }

  lemma StopDescribed(rs: seq<RawRange>, k: nat)
    requires k < |rs| && Stops(rs, k)
    ensures Describes(StoppedAt(rs, k), rs)
  {
    StopIsUnique(rs, k);
    forall j ensures FirstOverlap(rs, j) ==> j == k { assert FirstOverlap(rs, j) ==> Stops(rs, j); }
    forall j ensures FirstOverflow(rs, j) ==> j == k { assert FirstOverflow(rs, j) ==> Stops(rs, j); }
  }

  lemma AllScanned(rs: seq<RawRange>)
    requires Scanned(rs, |rs|)
    ensures Describes(Ok, rs)
  {
    assert rs[..|rs|] == rs;
    AcceptedHasNoStop(rs);
    forall k ensures !FirstOverlap(rs, k) && !FirstOverflow(rs, k) { assert !Stops(rs, k); }
  }

  /** The sortedness check. */
  method CheckSortedRangesOverlap(ranges: seq<RawRange>) returns (r: Outcome)
    ensures Describes(r, ranges)
  {
    var prev := Span(0, 0);
    var k := 0;
    while k < |ranges|
      invariant 0 <= k <= |ranges|
      invariant prev == if k == 0 then Span(0, 0) else Span(ranges[k - 1].start, ranges[k - 1].End())
      invariant Scanned(ranges, k)
    {
      var cur := ranges[k];
      ScanStep(ranges, k);
      if cur.start + cur.size >= U64_LIMIT {
        StopDescribed(ranges, k);
        return Panic;
      }
      if prev.hi > cur.start {
        StopDescribed(ranges, k);
        return Err(prev, Span(cur.start, cur.start + cur.size));
      }
      prev := Span(cur.start, cur.start + cur.size);
      k := k + 1;
    }
    AllScanned(ranges);
    return Ok;
  }

  /** A list that is not sorted is reported as an overlap of the two neighbours that are out of order. */
  method CheckUnsorted() returns (r: Outcome)
    ensures r == Err(Span(20, 30), Span(10, 20))
  {
    var ranges := [RawRange(0, 10), RawRange(20, 10), RawRange(10, 10)];
    assert FirstOverlap(ranges, 2);
    r := CheckSortedRangesOverlap(ranges);
  }

  /** What the inner loop still emits when it stands at `lo` before the ranges `exclude`. */
  function Survivors(lo: nat, end: nat, exclude: seq<RawRange>): seq<RawRange>
    decreases |exclude|
  {
    if exclude == [] || (exclude[0].End() > lo && exclude[0].start >= end) then
      if lo < end then [RawRange(lo, end - lo)] else []
    else if exclude[0].End() <= lo then
      Survivors(lo, end, exclude[1..])
    else
      var e := exclude[0];
      (if e.start > lo then [RawRange(lo, e.start - lo)] else []) + Survivors(e.End(), end, exclude[1..])
  }

  /** The emitted list: the survivors of each source range, in source order. */
  function Difference(from: seq<RawRange>, exclude: seq<RawRange>): seq<RawRange>
    decreases |from|
  {
    if from == [] then []
    else Survivors(from[0].start, from[0].End(), exclude) + Difference(from[1..], exclude)
  }

  lemma {:induction false} DifferenceConcat(xs: seq<RawRange>, ys: seq<RawRange>, exclude: seq<RawRange>)
    ensures Difference(xs + ys, exclude) == Difference(xs, exclude) + Difference(ys, exclude)
    decreases |xs|
  {
    if xs == [] {
      assert xs + ys == ys;
    } else {
      assert (xs + ys)[1..] == xs[1..] + ys;
      DifferenceConcat(xs[1..], ys, exclude);
    }
  }

  /** One more source range, appended to what has been emitted already. */
  lemma DifferenceNext(before: seq<RawRange>, from: seq<RawRange>, i: nat, exclude: seq<RawRange>)
    requires i < |from|
    ensures before + Difference(from[..i + 1], exclude)
            == before + Difference(from[..i], exclude) + Survivors(from[i].start, from[i].End(), exclude)
  {
    DifferenceConcat(from[..i], [from[i]], exclude);
    assert from[..i + 1] == from[..i] + [from[i]];
    assert [from[i]][1..] == [];
    assert Difference([from[i]], exclude) == Survivors(from[i].start, from[i].End(), exclude);
  }

  /** How many leading ranges can be processed before an addition overflows. */
  function FittingPrefix(rs: seq<RawRange>): (n: nat)
    ensures n <= |rs| && (forall i :: 0 <= i < n ==> rs[i].Fits())
    ensures n < |rs| ==> !rs[n].Fits()
  {
    if rs == [] || !rs[0].Fits() then 0 else 1 + FittingPrefix(rs[1..])
  }

  /** The caller's closure: it receives the emitted ranges one at a time. */
  class Sink {
    var emitted: seq<RawRange>

    constructor ()
      ensures emitted == []
    { emitted := []; }

    method Accept(r: RawRange)
      modifies this
      ensures emitted == old(emitted) + [r]
    { emitted := emitted + [r]; }
  }

  /** What one excluded range does to the survivors. */
  lemma SurvivorsHead(lo: nat, end: nat, exclude: seq<RawRange>, j: nat)
    requires j < |exclude|
    ensures var e, now, rest := exclude[j], Survivors(lo, end, exclude[j..]), exclude[j + 1..];
            if e.End() <= lo then now == Survivors(lo, end, rest)
            else if e.start >= end then now == if lo < end then [RawRange(lo, end - lo)] else []
            else if e.start > lo then now == [RawRange(lo, e.start - lo)] + Survivors(e.End(), end, rest)
            else now == Survivors(e.End(), end, rest)
  {
    var suffix := exclude[j..];
    assert suffix[0] == exclude[j] && suffix[1..] == exclude[j + 1..];
  }

  lemma Associates(a: seq<RawRange>, b: seq<RawRange>, c: seq<RawRange>)
    ensures a + (b + c) == a + b + c
  {
  }

  /** The inner loop: walks `exclude` with a moving `start` and emits what is left of one range. */
  method ExcludeFromOne(source: RawRange, exclude: seq<RawRange>, sink: Sink)
    requires source.Fits() && AllFit(exclude)
    modifies sink
    ensures sink.emitted == old(sink.emitted) + Survivors(source.start, source.End(), exclude)
  {
    var start: u64 := source.start;
    var end: u64 := source.start + source.size;
    var j := 0;
    while j < |exclude|
      invariant 0 <= j <= |exclude|
      invariant sink.emitted + Survivors(start, end, exclude[j..])
             == old(sink.emitted) + Survivors(source.start, end, exclude)
    {
      var e := exclude[j];
      SurvivorsHead(start, end, exclude, j);
      if e.End() > start && start < e.start < end {
        Associates(sink.emitted, [RawRange(start, e.start - start)], Survivors(e.End(), end, exclude[j + 1..]));
      }
      if e.End() <= start {
        j := j + 1;
        continue;
      } else if e.start >= end {
        break;
      } else if e.start > start {
        sink.Accept(RawRange(start, e.start - start));
      }
      start := e.End();
      j := j + 1;
    }
    if start < end {
      sink.Accept(RawRange(start, end - start));
    }
  }

  /** The outer loop: stops at the first source range whose end overflows. */
  method ExcludeFromEach(from: seq<RawRange>, exclude: seq<RawRange>, sink: Sink) returns (panicked: bool)
    requires AllFit(exclude)
    modifies sink
    ensures panicked <==> FittingPrefix(from) < |from|
    ensures sink.emitted == old(sink.emitted) + Difference(from[..FittingPrefix(from)], exclude)
  {
    ghost var before := sink.emitted;
    var i := 0;
    while i < |from|
      invariant 0 <= i <= FittingPrefix(from)
      invariant sink.emitted == before + Difference(from[..i], exclude)
    {
      if from[i].start + from[i].size >= U64_LIMIT {
        return true;
      }
      ExcludeFromOne(from[i], exclude, sink);
      DifferenceNext(before, from, i, exclude);
      i := i + 1;
    }
    return false;
  }

  /**
    Subtracts `exclude` from `from`. Nothing is emitted unless `exclude` passes the check. A source
    range that does not fit stops the run after all earlier source ranges have been processed.
   */
  method RangesDifference(from: seq<RawRange>, exclude: seq<RawRange>, sink: Sink) returns (r: Outcome)
    modifies sink
    ensures r.Ok? <==>
            && AllFit(exclude) && Ordered(exclude)
            && forall i :: 0 <= i < |from| ==> from[i].start + from[i].size < U64_LIMIT
    ensures r.Err? <==> exists k :: FirstOverlap(exclude, k)
    ensures forall k :: FirstOverlap(exclude, k) ==> r == Err(
              Span(exclude[k - 1].start, exclude[k - 1].start + exclude[k - 1].size),
              Span(exclude[k].start, exclude[k].start + exclude[k].size))
    ensures AllFit(exclude) && Ordered(exclude) ==>
              sink.emitted == old(sink.emitted) + Difference(from[..FittingPrefix(from)], exclude)
    ensures !(AllFit(exclude) && Ordered(exclude)) ==> sink.emitted == old(sink.emitted)
  {
    r := CheckSortedRangesOverlap(exclude);
    if r != Ok { return; }
    var panicked := ExcludeFromEach(from, exclude, sink);
    return if panicked then Panic else Ok;
  }
}

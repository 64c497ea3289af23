/**
  The laws of `PhysRanges.Difference`: exact set difference, canonical form, order independence,
  conservation of sizes, closure under the overlap check and a bound on the output length.
 */
module RangeAlgebra {
  import opened PhysRanges

  /** Some range of the list contains the address. */
  predicate Covers(rs: seq<RawRange>, a: nat) { exists i :: 0 <= i < |rs| && rs[i].Has(a) }

  /** Ordered with a gap of at least one address between neighbours. */
  predicate Separated(rs: seq<RawRange>) {
    forall i, j :: 0 <= i < j < |rs| ==> rs[i].End() < rs[j].start
  }

  /** Some range has both x - 1 and x: the joint at x is inside it. */
  predicate Spans(rs: seq<RawRange>, x: nat) { exists i :: 0 <= i < |rs| && rs[i].start < x < rs[i].End() }

  /** Some range, possibly empty, contains the joint at x or borders on it. */
  predicate Touches(rs: seq<RawRange>, x: nat) { exists i :: 0 <= i < |rs| && rs[i].start <= x <= rs[i].End() }

  /** Non-empty pieces inside [lo, end). */
  predicate Within(rs: seq<RawRange>, lo: nat, end: nat) {
    forall i :: 0 <= i < |rs| ==> lo <= rs[i].start < rs[i].End() <= end
  }

  lemma CoversConcat(xs: seq<RawRange>, ys: seq<RawRange>, a: nat)
    ensures Covers(xs + ys, a) <==> Covers(xs, a) || Covers(ys, a)
  {
    var zs := xs + ys;
    if Covers(xs, a) {
      var i :| 0 <= i < |xs| && xs[i].Has(a);
      assert zs[i].Has(a);
    }
    if Covers(ys, a) {
      var i :| 0 <= i < |ys| && ys[i].Has(a);
      assert zs[|xs| + i].Has(a);
    }
    if Covers(zs, a) {
      var i :| 0 <= i < |zs| && zs[i].Has(a);
      if i < |xs| { assert xs[i].Has(a); } else { assert ys[i - |xs|].Has(a); }
    }
  }

  lemma CoversHeadTail(rs: seq<RawRange>, a: nat)
    requires rs != []
    ensures Covers(rs, a) <==> rs[0].Has(a) || Covers(rs[1..], a)
  {
    assert rs == [rs[0]] + rs[1..];
    CoversConcat([rs[0]], rs[1..], a);
    assert Covers([rs[0]], a) <==> [rs[0]][0].Has(a);
  }

  /** Tails of an ordered list are ordered and start after the head ends. */
  lemma OrderedTail(rs: seq<RawRange>)
    requires rs != [] && Ordered(rs)
    ensures Ordered(rs[1..])
    ensures forall i :: 0 <= i < |rs[1..]| ==> rs[0].End() <= rs[1..][i].start
  {
  }

  lemma {:induction false} SurvivorsExact(lo: nat, end: nat, exclude: seq<RawRange>, a: nat)
    requires Ordered(exclude)
    ensures Covers(Survivors(lo, end, exclude), a) <==> lo <= a < end && !Covers(exclude, a)
    decreases |exclude|
  {
    if exclude != [] {
      CoversHeadTail(exclude, a);
      OrderedTail(exclude);
      var e, rest := exclude[0], exclude[1..];
      if e.End() <= lo {
        SurvivorsExact(lo, end, rest, a);
      } else if e.start < end {
        SurvivorsExact(e.End(), end, rest, a);
        var head := if e.start > lo then [RawRange(lo, e.start - lo)] else [];
        CoversConcat(head, Survivors(e.End(), end, rest), a);
        assert head != [] ==> (Covers(head, a) <==> head[0].Has(a));
      } else {
        SingleCovers(lo, end, a);
      }
    } else {
      SingleCovers(lo, end, a);
    }
  }

  lemma SingleCovers(lo: nat, end: nat, a: nat)
    ensures Covers(if lo < end then [RawRange(lo, end - lo)] else [], a) <==> lo <= a < end
  {
    if lo < end { assert [RawRange(lo, end - lo)][0].Has(a) <==> lo <= a < end; }
  }

  /**
    Exactness. For any list of source ranges (unsorted, overlapping, empty ones included), an
    address is in an emitted range iff it is in a source range and in no excluded one.
   */
  lemma {:induction false} DifferenceExact(from: seq<RawRange>, exclude: seq<RawRange>, a: nat)
    requires Ordered(exclude)
    ensures Covers(Difference(from, exclude), a) <==> Covers(from, a) && !Covers(exclude, a)
    decreases |from|
  {
    if from != [] {
      CoversHeadTail(from, a);
      SurvivorsExact(from[0].start, from[0].End(), exclude, a);
      DifferenceExact(from[1..], exclude, a);
      CoversConcat(Survivors(from[0].start, from[0].End(), exclude), Difference(from[1..], exclude), a);
    }
  }

  lemma {:induction false} SurvivorsShape(lo: nat, end: nat, exclude: seq<RawRange>)
    requires Ordered(exclude)
    ensures Within(Survivors(lo, end, exclude), lo, end)
    ensures Ordered(Survivors(lo, end, exclude))
    decreases |exclude|
  {
    if exclude != [] {
      var e, rest := exclude[0], exclude[1..];
      if e.End() <= lo {
        SurvivorsShape(lo, end, rest);
      } else if e.start < end {
        SurvivorsShape(e.End(), end, rest);
        var tail := Survivors(e.End(), end, rest);
        assert forall i :: 0 <= i < |tail| ==> e.End() <= tail[i].start;
      }
    }
  }

  lemma SpansConcat(xs: seq<RawRange>, ys: seq<RawRange>, x: nat)
    ensures Spans(xs + ys, x) <==> Spans(xs, x) || Spans(ys, x)
  {
    var zs := xs + ys;
    if i :| 0 <= i < |xs| && xs[i].start < x < xs[i].End() { assert zs[i] == xs[i]; }
    if i :| 0 <= i < |ys| && ys[i].start < x < ys[i].End() { assert zs[|xs| + i] == ys[i]; }
    if i :| 0 <= i < |zs| && zs[i].start < x < zs[i].End() {
      if i < |xs| { assert xs[i] == zs[i]; } else { assert ys[i - |xs|] == zs[i]; }
    }
  }

  lemma TouchesHeadTail(rs: seq<RawRange>, x: nat)
    requires rs != []
    ensures Touches(rs, x) <==> rs[0].start <= x <= rs[0].End() || Touches(rs[1..], x)
  {
    var tail := rs[1..];
    assert forall i :: 0 < i < |rs| ==> rs[i] == tail[i - 1];
    assert forall i :: 0 <= i < |tail| ==> tail[i] == rs[i + 1];
  }

  /** What an optional single piece reaches across. */
  lemma SingleSpans(lo: nat, end: nat, x: nat)
    ensures Spans(if lo < end then [RawRange(lo, end - lo)] else [], x) <==> lo < x < end
  {
    if lo < end { assert [RawRange(lo, end - lo)][0].End() == end; }
  }

  /** No range that starts at or after the end of another one touches a joint before that end. */
  lemma TailTouchesLater(rs: seq<RawRange>, x: nat)
    requires rs != [] && Ordered(rs) && x < rs[0].End()
    ensures !Touches(rs[1..], x)
  {
    OrderedTail(rs);
  }

  /** A piece reaches across x iff x is inside the source range and no excluded range touches it. */
  lemma {:induction false} SurvivorsSpan(lo: nat, end: nat, exclude: seq<RawRange>, x: nat)
    requires Ordered(exclude)
    ensures Spans(Survivors(lo, end, exclude), x) <==> lo < x < end && !Touches(exclude, x)
    decreases |exclude|
  {
    if exclude != [] {
      var e, rest := exclude[0], exclude[1..];
      OrderedTail(exclude);
      TouchesHeadTail(exclude, x);
      if e.End() <= lo {
        SurvivorsSpan(lo, end, rest, x);
      } else if e.start < end {
        SurvivorsSpan(e.End(), end, rest, x);
        if x < e.End() { TailTouchesLater(exclude, x); }
        SingleSpans(lo, e.start, x);
        SpansConcat(if lo < e.start then [RawRange(lo, e.start - lo)] else [], Survivors(e.End(), end, rest), x);
      } else {
        if x < e.End() { TailTouchesLater(exclude, x); }
        SingleSpans(lo, end, x);
      }
    } else {
      SingleSpans(lo, end, x);
    }
  }

  /** Excluding ranges keeps exactly the joints of the source that no excluded range touches. */
  lemma {:induction false} DifferenceSpans(from: seq<RawRange>, exclude: seq<RawRange>, x: nat)
    requires Ordered(exclude)
    ensures Spans(Difference(from, exclude), x) <==> Spans(from, x) && !Touches(exclude, x)
    decreases |from|
  {
    if from != [] {
      var r := from[0];
      assert from == [r] + from[1..];
      SpansConcat([r], from[1..], x);
      assert Spans([r], x) <==> r.start < x < r.End() by { assert [r][0] == r; }
      SurvivorsSpan(r.start, r.End(), exclude, x);
      DifferenceSpans(from[1..], exclude, x);
      SpansConcat(Survivors(r.start, r.End(), exclude), Difference(from[1..], exclude), x);
    }
  }

  /**
    Canonical form. An ordered list of non-empty ranges is determined by the addresses it covers
    and the joints it reaches across.
   */
  lemma {:induction false} OrderedUnique(xs: seq<RawRange>, ys: seq<RawRange>)
    requires Ordered(xs) && AllPositive(xs) && Ordered(ys) && AllPositive(ys)
    requires forall a: nat :: Covers(xs, a) <==> Covers(ys, a)
    requires forall a: nat :: Spans(xs, a) <==> Spans(ys, a)
    ensures xs == ys
    decreases |xs|
  {
    HeadCovered(xs);
    HeadCovered(ys);
    if xs != [] && ys != [] {
      HeadReaches(xs, ys);
      HeadReaches(ys, xs);
      forall a: nat
        ensures Covers(xs[1..], a) <==> Covers(ys[1..], a)
        ensures Spans(xs[1..], a) <==> Spans(ys[1..], a)
      {
        TailsAgree(xs, ys, a);
      }
      OrderedUnique(xs[1..], ys[1..]);
      assert xs == [xs[0]] + xs[1..] && ys == [ys[0]] + ys[1..];
    }
  }

  lemma TailsAgree(xs: seq<RawRange>, ys: seq<RawRange>, a: nat)
    requires xs != [] && Ordered(xs) && AllPositive(xs) && ys != [] && Ordered(ys) && AllPositive(ys)
    requires xs[0].End() == ys[0].End()
    requires (Covers(xs, a) <==> Covers(ys, a)) && (Spans(xs, a) <==> Spans(ys, a))
    ensures Covers(xs[1..], a) <==> Covers(ys[1..], a)
    ensures Spans(xs[1..], a) <==> Spans(ys[1..], a)
  {
    TailBeyondHead(xs, a);
    TailBeyondHead(ys, a);
  }

  lemma HeadCovered(rs: seq<RawRange>)
    requires AllPositive(rs)
    ensures rs != [] ==> Covers(rs, rs[0].start)
  {
    if rs != [] { assert rs[0].Has(rs[0].start); }
  }

  lemma TailBeyondHead(rs: seq<RawRange>, a: nat)
    requires rs != [] && Ordered(rs) && AllPositive(rs)
    ensures Covers(rs[1..], a) <==> Covers(rs, a) && a >= rs[0].End()
    ensures Spans(rs[1..], a) <==> Spans(rs, a) && a >= rs[0].End()
  {
    CoversHeadTail(rs, a);
    assert rs == [rs[0]] + rs[1..];
    SpansConcat([rs[0]], rs[1..], a);
    assert Spans([rs[0]], a) <==> rs[0].start < a < rs[0].End() by { assert [rs[0]][0] == rs[0]; }
  }

  /** The first range of ys starts no later and ends no earlier than that of xs. */
  lemma HeadReaches(xs: seq<RawRange>, ys: seq<RawRange>)
    requires xs != [] && ys != []
    requires Ordered(xs) && AllPositive(xs) && Ordered(ys) && AllPositive(ys)
    requires forall a: nat :: Covers(xs, a) <==> Covers(ys, a)
    requires forall a: nat :: Spans(xs, a) <==> Spans(ys, a)
    ensures ys[0].start <= xs[0].start && xs[0].End() <= ys[0].End()
  {
    HeadCovered(xs);
    HeadCovered(ys);
    TailBeyondHead(ys, xs[0].start);
    TailBeyondHead(xs, ys[0].start);
    CoversHeadTail(ys, xs[0].start);
    CoversHeadTail(xs, ys[0].start);
    assert ys[0].start == xs[0].start;
    if xs[0].End() > ys[0].End() {
      var b := ys[0].End();
      assert xs[0].start < b < xs[0].End() && Spans(xs, b);
    }
  }

  /** The addresses and joints of two successive exclusions. */
  lemma TwiceCoversAndSpans(from: seq<RawRange>, a: seq<RawRange>, b: seq<RawRange>, x: nat)
    requires Ordered(a) && Ordered(b)
    ensures Covers(Difference(Difference(from, a), b), x) <==>
            Covers(from, x) && !Covers(a, x) && !Covers(b, x)
    ensures Spans(Difference(Difference(from, a), b), x) <==>
            Spans(from, x) && !Touches(a, x) && !Touches(b, x)
  {
    DifferenceExact(from, a, x);
    DifferenceExact(Difference(from, a), b, x);
    DifferenceSpans(from, a, x);
    DifferenceSpans(Difference(from, a), b, x);
  }

  /** Two exclusions commute: the same list in the same order, empty excluded ranges included. */
  lemma {:induction false} ExclusionsCommute(from: seq<RawRange>, a: seq<RawRange>, b: seq<RawRange>)
    requires Ordered(a) && Ordered(b)
    ensures Difference(Difference(from, a), b) == Difference(Difference(from, b), a)
    decreases |from|
  {
    if |from| == 1 {
      var ab, ba := Difference(Difference(from, a), b), Difference(Difference(from, b), a);
      DifferenceCloses(from, a);
      DifferenceCloses(from, b);
      DifferenceCloses(Difference(from, a), b);
      DifferenceCloses(Difference(from, b), a);
      forall x: nat ensures (Covers(ab, x) <==> Covers(ba, x)) && (Spans(ab, x) <==> Spans(ba, x)) {
        TwiceCoversAndSpans(from, a, b, x);
        TwiceCoversAndSpans(from, b, a, x);
      }
      OrderedUnique(ab, ba);
    } else if from != [] {
      ExclusionsCommute(from[..1], a, b);
      ExclusionsCommute(from[1..], a, b);
      TwiceConcat(from[..1], from[1..], a, b);
      TwiceConcat(from[..1], from[1..], b, a);
      assert from == from[..1] + from[1..];
    }
  }

  lemma TwiceConcat(xs: seq<RawRange>, ys: seq<RawRange>, a: seq<RawRange>, b: seq<RawRange>)
    ensures Difference(Difference(xs + ys, a), b)
            == Difference(Difference(xs, a), b) + Difference(Difference(ys, a), b)
  {
    DifferenceConcat(xs, ys, a);
    DifferenceConcat(Difference(xs, a), Difference(ys, a), b);
  }

  /** `c` excludes what `a` and `b` exclude together, address by address and cut by cut. */
  ghost predicate Unites(a: seq<RawRange>, b: seq<RawRange>, c: seq<RawRange>) {
    && (forall x: nat :: Covers(c, x) <==> Covers(a, x) || Covers(b, x))
    && (forall x: nat :: x > 0 ==> (Touches(c, x) <==> Touches(a, x) || Touches(b, x)))
  }

  lemma {:induction false} UnionComposes(
    from: seq<RawRange>, a: seq<RawRange>, b: seq<RawRange>, c: seq<RawRange>)
    requires Ordered(a) && Ordered(b) && Ordered(c) && Unites(a, b, c)
    ensures Difference(Difference(from, a), b) == Difference(from, c)
    decreases |from|
  {
    if |from| == 1 {
      var twice, once := Difference(Difference(from, a), b), Difference(from, c);
      DifferenceCloses(from, a);
      DifferenceCloses(Difference(from, a), b);
      DifferenceCloses(from, c);
      forall x: nat ensures (Covers(twice, x) <==> Covers(once, x)) && (Spans(twice, x) <==> Spans(once, x)) {
        TwiceCoversAndSpans(from, a, b, x);
        DifferenceExact(from, c, x);
        DifferenceSpans(from, c, x);
      }
      OrderedUnique(twice, once);
    } else if from != [] {
      UnionComposes(from[..1], a, b, c);
      UnionComposes(from[1..], a, b, c);
      TwiceConcat(from[..1], from[1..], a, b);
      DifferenceConcat(from[..1], from[1..], c);
      assert from == from[..1] + from[1..];
    }
  }

  /** On this source list, removing `a` and then `b` emits what removing `c` emits. */
  ghost predicate SameAsOnce(from: seq<RawRange>, a: seq<RawRange>, b: seq<RawRange>, c: seq<RawRange>) {
    Difference(Difference(from, a), b) == Difference(from, c)
  }

  /**
    Composition, exactly. Removing `a` and then `b` emits for every source list what removing `c`
    emits iff `c` unites them.
   */
  lemma ComposesIffUnites(a: seq<RawRange>, b: seq<RawRange>, c: seq<RawRange>)
    requires Ordered(a) && Ordered(b) && Ordered(c)
    ensures (forall from: seq<RawRange> :: SameAsOnce(from, a, b, c)) <==> Unites(a, b, c)
  {
    if Unites(a, b, c) {
      forall from: seq<RawRange> ensures SameAsOnce(from, a, b, c) { UnionComposes(from, a, b, c); }
    }
    if forall from: seq<RawRange> :: SameAsOnce(from, a, b, c) {
      forall x: nat
        ensures Covers(c, x) <==> Covers(a, x) || Covers(b, x)
        ensures x > 0 ==> (Touches(c, x) <==> Touches(a, x) || Touches(b, x))
      {
        var probe := [RawRange(0, x + 1)];
        assert probe[0].Has(x) && Covers(probe, x);
        assert x > 0 ==> probe[0].start < x < probe[0].End() && Spans(probe, x);
        assert SameAsOnce(probe, a, b, c);
        TwiceCoversAndSpans(probe, a, b, x);
        DifferenceExact(probe, c, x);
        DifferenceSpans(probe, c, x);
      }
    }
  }

  /** Without empty ranges the addresses alone decide what touches a joint. */
  lemma PositiveTouches(exclude: seq<RawRange>, x: nat)
    requires AllPositive(exclude) && x > 0
    ensures Touches(exclude, x) <==> Covers(exclude, x - 1) || Covers(exclude, x)
  {
    if i :| 0 <= i < |exclude| && exclude[i].start <= x <= exclude[i].End() {
      assert exclude[i].Has(x - 1) || exclude[i].Has(x);
    }
  }

  /** Hence positive lists compose as soon as `c` covers exactly what `a` and `b` cover. */
  lemma PositiveExclusionsCompose(from: seq<RawRange>, a: seq<RawRange>, b: seq<RawRange>, c: seq<RawRange>)
    requires Ordered(a) && AllPositive(a) && Ordered(b) && AllPositive(b) && Ordered(c) && AllPositive(c)
    requires forall x: nat :: Covers(c, x) <==> Covers(a, x) || Covers(b, x)
    ensures Difference(Difference(from, a), b) == Difference(from, c)
  {
    forall x: nat | x > 0 ensures Touches(c, x) <==> Touches(a, x) || Touches(b, x) {
      PositiveTouches(a, x);
      PositiveTouches(b, x);
      PositiveTouches(c, x);
    }
    UnionComposes(from, a, b, c);
  }

  /** With an empty excluded range the covered addresses no longer determine the result. */
  lemma EmptyExclusionCuts()
    ensures var cut := [RawRange(5, 0)];
            && Ordered(cut)
            && (forall x: nat :: !Covers(cut, x))
            && Difference([RawRange(0, 10)], cut) == [RawRange(0, 5), RawRange(5, 5)]
            && Difference([RawRange(0, 10)], []) == [RawRange(0, 10)]
  {
    var cut := [RawRange(5, 0)];
    assert Survivors(5, 10, cut[1..]) == [RawRange(5, 5)];
    assert Survivors(0, 10, cut) == [RawRange(0, 5)] + Survivors(5, 10, cut[1..]);
  }

  /** Both addresses next to the joint at x are covered. */
  predicate CoversBothSides(rs: seq<RawRange>, x: nat) { x > 0 && Covers(rs, x - 1) && Covers(rs, x) }

  /** Ordered pieces are maximal iff they reach across every joint between covered addresses. */
  lemma SeparatedIffSpanning(rs: seq<RawRange>)
    requires Ordered(rs) && AllPositive(rs)
    ensures Separated(rs) <==> forall x: nat :: CoversBothSides(rs, x) ==> Spans(rs, x)
  {
    if Separated(rs) {
      forall x: nat | CoversBothSides(rs, x) ensures Spans(rs, x) {
        var i :| 0 <= i < |rs| && rs[i].Has(x - 1);
        var j :| 0 <= j < |rs| && rs[j].Has(x);
        assert i == j;
      }
    }
    if i, j :| 0 <= i < j < |rs| && rs[i].End() >= rs[j].start {
      var x := rs[j].start;
      assert rs[i].Has(x - 1) && rs[j].Has(x);
      assert CoversBothSides(rs, x);
      assert !Spans(rs, x);
    }
  }

  /** An empty excluded range strictly inside a surviving interval. */
  predicate Cuts(lo: nat, end: nat, exclude: seq<RawRange>, e: RawRange) {
    && e.size == 0
    && lo < e.start < end
    && !Covers(exclude, e.start - 1)
    && !Covers(exclude, e.start)
  }

  /**
    Exactly when a source range is returned as its maximal surviving intervals: no empty excluded
    range lies strictly inside one of them.
   */
  lemma MaximalIffNoCut(lo: nat, end: nat, exclude: seq<RawRange>)
    requires Ordered(exclude)
    ensures Separated(Survivors(lo, end, exclude)) <==>
            forall k :: 0 <= k < |exclude| ==> !Cuts(lo, end, exclude, exclude[k])
  {
    var out := Survivors(lo, end, exclude);
    SurvivorsShape(lo, end, exclude);
    SeparatedIffSpanning(out);
    forall x: nat | x > 0
      ensures CoversBothSides(out, x) && !Spans(out, x) <==>
              exists k :: 0 <= k < |exclude| && exclude[k].start == x && Cuts(lo, end, exclude, exclude[k])
    {
      SurvivorsExact(lo, end, exclude, x - 1);
      SurvivorsExact(lo, end, exclude, x);
      SurvivorsSpan(lo, end, exclude, x);
      if CoversBothSides(out, x) && !Spans(out, x) {
        var k :| 0 <= k < |exclude| && exclude[k].start <= x <= exclude[k].End();
        assert !exclude[k].Has(x - 1) && !exclude[k].Has(x);
      }
    }
    if k :| 0 <= k < |exclude| && Cuts(lo, end, exclude, exclude[k]) {
      assert CoversBothSides(out, exclude[k].start) && !Spans(out, exclude[k].start);
    }
  }

  function TotalSize(rs: seq<RawRange>): nat {
    if rs == [] then 0 else rs[0].size + TotalSize(rs[1..])
  }

  lemma {:induction false} TotalSizeConcat(xs: seq<RawRange>, ys: seq<RawRange>)
    ensures TotalSize(xs + ys) == TotalSize(xs) + TotalSize(ys)
    decreases |xs|
  {
    if xs == [] {
      assert xs + ys == ys;
    } else {
      assert (xs + ys)[1..] == xs[1..] + ys;
      TotalSizeConcat(xs[1..], ys);
    }
  }

  /** The number of addresses that [lo, end) shares with one range. */
  function Shared(lo: nat, end: nat, e: RawRange): nat {
    var top := if end < e.End() then end else e.End();
    var bottom := if lo > e.start then lo else e.start;
    if bottom < top then top - bottom else 0
  }

  function SharedWithAll(lo: nat, end: nat, exclude: seq<RawRange>): nat {
    if exclude == [] then 0 else Shared(lo, end, exclude[0]) + SharedWithAll(lo, end, exclude[1..])
  }

  function PairwiseShared(from: seq<RawRange>, exclude: seq<RawRange>): nat {
    if from == [] then 0
    else SharedWithAll(from[0].start, from[0].End(), exclude) + PairwiseShared(from[1..], exclude)
  }

  /** Ranges that start at or after `mid` share the same with [lo, end) as with [mid, end). */
  lemma {:induction false} SharedFromMiddle(lo: nat, mid: nat, end: nat, exclude: seq<RawRange>)
    requires lo <= mid && forall i :: 0 <= i < |exclude| ==> mid <= exclude[i].start
    ensures SharedWithAll(lo, end, exclude) == SharedWithAll(mid, end, exclude)
    ensures end <= mid ==> SharedWithAll(lo, end, exclude) == 0
    decreases |exclude|
  {
    if exclude != [] { SharedFromMiddle(lo, mid, end, exclude[1..]); }
  }

  lemma {:induction false} SurvivorsConserve(lo: nat, end: nat, exclude: seq<RawRange>)
    requires Ordered(exclude)
    ensures TotalSize(Survivors(lo, end, exclude)) + SharedWithAll(lo, end, exclude)
            == if lo < end then end - lo else 0
    decreases |exclude|
  {
    if exclude != [] {
      var e, rest := exclude[0], exclude[1..];
      OrderedTail(exclude);
      if e.End() <= lo {
        SurvivorsConserve(lo, end, rest);
      } else if e.start >= end {
        SharedFromMiddle(lo, if lo < e.End() then e.End() else lo, end, rest);
      } else {
        SurvivorsConserve(e.End(), end, rest);
        SharedFromMiddle(lo, e.End(), end, rest);
        TotalSizeConcat(if e.start > lo then [RawRange(lo, e.start - lo)] else [], Survivors(e.End(), end, rest));
      }
    }
  }

  /** Conservation: emitted sizes plus all pairwise intersections add up to the source sizes. */
  lemma {:induction false} DifferenceConserves(from: seq<RawRange>, exclude: seq<RawRange>)
    requires Ordered(exclude)
    ensures TotalSize(Difference(from, exclude)) + PairwiseShared(from, exclude) == TotalSize(from)
    decreases |from|
  {
    if from != [] {
      SurvivorsConserve(from[0].start, from[0].End(), exclude);
      DifferenceConserves(from[1..], exclude);
      TotalSizeConcat(Survivors(from[0].start, from[0].End(), exclude), Difference(from[1..], exclude));
    }
  }

  /**
    Closure. Every emitted range is non-empty and lies inside one source range; fitting inputs give
    fitting outputs, and a source list that passes the overlap check gives an output that passes it.
   */
  lemma {:induction false} DifferenceCloses(from: seq<RawRange>, exclude: seq<RawRange>)
    requires Ordered(exclude)
    ensures forall i :: 0 <= i < |Difference(from, exclude)| ==>
              var p := Difference(from, exclude)[i];
              p.size > 0 && exists k :: 0 <= k < |from| && from[k].start <= p.start && p.End() <= from[k].End()
    ensures AllFit(from) ==> AllFit(Difference(from, exclude))
    ensures Ordered(from) ==> Ordered(Difference(from, exclude))
    decreases |from|
  {
    if from != [] {
      var r, rest := from[0], from[1..];
      var head, tail := Survivors(r.start, r.End(), exclude), Difference(rest, exclude);
      SurvivorsShape(r.start, r.End(), exclude);
      DifferenceCloses(rest, exclude);
      forall i | 0 <= i < |tail|
        ensures exists k :: 0 < k < |from| && from[k].start <= tail[i].start && tail[i].End() <= from[k].End()
      {
        var k :| 0 <= k < |rest| && rest[k].start <= tail[i].start && tail[i].End() <= rest[k].End();
        assert from[k + 1] == rest[k];
      }
      forall i | 0 <= i < |head|
        ensures exists k :: 0 <= k < |from| && from[k].start <= head[i].start && head[i].End() <= from[k].End()
      {
        assert from[0].start <= head[i].start && head[i].End() <= from[0].End();
      }
    }
  }

  /** How many excluded ranges start at or after `lo`. */
  function StartsFrom(exclude: seq<RawRange>, lo: nat): nat {
    if exclude == [] then 0 else (if exclude[0].start >= lo then 1 else 0) + StartsFrom(exclude[1..], lo)
  }

  lemma {:induction false} StartsFromBounds(exclude: seq<RawRange>, lo: nat, hi: nat)
    requires lo <= hi
    ensures StartsFrom(exclude, hi) <= StartsFrom(exclude, lo) <= |exclude|
    decreases |exclude|
  {
    if exclude != [] { StartsFromBounds(exclude[1..], lo, hi); }
  }

  /** One range is cut at most once per excluded range that starts strictly inside it. */
  lemma {:induction false} SurvivorsCount(lo: nat, end: nat, exclude: seq<RawRange>)
    requires Ordered(exclude)
    ensures |Survivors(lo, end, exclude)|
            <= 1 + StartsFrom(exclude, lo + 1) - StartsFrom(exclude, if lo < end then end else lo + 1)
    decreases |exclude|
  {
    if exclude != [] {
      var e, rest := exclude[0], exclude[1..];
      OrderedTail(exclude);
      if e.End() <= lo {
        SurvivorsCount(lo, end, rest);
      } else if e.start < end {
        SurvivorsCount(e.End(), end, rest);
        StartsFromBounds(rest, lo + 1, e.End() + 1);
        if lo < end { StartsFromBounds(rest, lo + 1, end); }
        SurvivorsShape(e.End(), end, rest);
      } else {
        StartsFromBounds(exclude, lo + 1, if lo < end then end else lo + 1);
      }
    }
  }

  lemma {:induction false} DifferenceCountFrom(from: seq<RawRange>, exclude: seq<RawRange>, b: nat)
    requires Ordered(from) && Ordered(exclude)
    requires forall i :: 0 <= i < |from| ==> b <= from[i].start
    ensures |Difference(from, exclude)| <= |from| + StartsFrom(exclude, b)
    decreases |from|
  {
    if from != [] {
      var r := from[0];
      OrderedTail(from);
      SurvivorsCount(r.start, r.End(), exclude);
      DifferenceCountFrom(from[1..], exclude, r.End());
      StartsFromBounds(exclude, b, r.start + 1);
      if r.size == 0 { StartsFromBounds(exclude, b, r.End()); }
      SurvivorsShape(r.start, r.End(), exclude);
    }
  }

  /** Bound: disjoint source ranges give at most one extra piece per excluded range. */
  lemma DifferenceBounded(from: seq<RawRange>, exclude: seq<RawRange>)
    requires Ordered(from) && Ordered(exclude)
    ensures |Difference(from, exclude)| <= |from| + |exclude|
  {
    DifferenceCountFrom(from, exclude, 0);
    StartsFromBounds(exclude, 0, 0);
  }

  /**
    What the overlap check decides when no range is empty: it accepts iff the ranges are sorted by
    start and pairwise disjoint.
   */
  lemma CheckDecidesDisjointness(rs: seq<RawRange>)
    requires AllPositive(rs)
    ensures Ordered(rs) <==>
            && (forall i, j :: 0 <= i < j < |rs| ==> rs[i].start <= rs[j].start)
            && (forall i, j, a: nat :: 0 <= i < j < |rs| && rs[i].Has(a) ==> !rs[j].Has(a))
  {
    if forall i, j, a: nat :: 0 <= i < j < |rs| && rs[i].Has(a) ==> !rs[j].Has(a) {
      if forall i, j :: 0 <= i < j < |rs| ==> rs[i].start <= rs[j].start {
        forall i, j | 0 <= i < j < |rs| ensures rs[i].End() <= rs[j].start {
          assert rs[j].Has(rs[j].start);
          assert !rs[i].Has(rs[j].start);
        }
      }
    }
  }
}

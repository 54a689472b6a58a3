/** Gaps a verifier derives from the calendar alone, in 64-bit arithmetic. */
module Calendar {
  import opened Common

  newtype I64 = x: int | -0x8000_0000_0000_0000 <= x < 0x8000_0000_0000_0000

  predicate Fits(x: int) { -0x8000_0000_0000_0000 <= x < 0x8000_0000_0000_0000 }

  datatype CalendarPolicy = CalendarPolicy(intervalMs: I64, graceMs: I64)

  datatype Gap = Gap(startMs: I64, endMs: I64)

  /** An addition that stops the program when the sum does not fit. */
  function CheckedAdd(a: I64, b: I64): Option<I64> {
    var sum := a as int + b as int;
    if Fits(sum) then Some(sum as I64) else None
  }

  /** Where the `k`-th interval after the last committed end begins. */
  function Start(p: CalendarPolicy, last: I64, k: nat): int { last as int + k * p.intervalMs as int }

  /** When the `k`-th interval counts as missed. */
  function Deadline(p: CalendarPolicy, last: I64, k: nat): int { Start(p, last, k + 1) + p.graceMs as int }

  lemma StartSteps(p: CalendarPolicy, last: I64, k: nat)
    ensures Start(p, last, k + 1) == Start(p, last, k) + p.intervalMs as int
    ensures Start(p, last, 0) == last as int
  {
  }

  /** The two sums of iteration `k` are representable. */
  predicate StepFits(p: CalendarPolicy, last: I64, k: nat) {
    Fits(Start(p, last, k + 1)) && Fits(Deadline(p, last, k))
  }

  /** Iterations before `n` all find their interval missed. */
  ghost predicate MissedBefore(p: CalendarPolicy, last: I64, now: I64, n: nat) {
    forall k :: 0 <= k < n ==> StepFits(p, last, k) && Deadline(p, last, k) <= now as int
  }

  ghost predicate ListsFirst(p: CalendarPolicy, last: I64, gaps: seq<Gap>) {
    forall k :: 0 <= k < |gaps| ==>
      gaps[k].startMs as int == Start(p, last, k) && gaps[k].endMs as int == Start(p, last, k + 1)
  }

  /** Some iteration reached before `now` needs a sum that is not representable. */
  ghost predicate Overflows(p: CalendarPolicy, last: I64, now: I64) {
    exists n: nat :: MissedBefore(p, last, now, n) && !StepFits(p, last, n)
  }

  /** Exactly the intervals missed by `now`, in order. */
  ghost predicate AreGaps(p: CalendarPolicy, last: I64, now: I64, gaps: seq<Gap>) {
    && ListsFirst(p, last, gaps) && MissedBefore(p, last, now, |gaps|)
    && StepFits(p, last, |gaps|) && Deadline(p, last, |gaps|) > now as int
  }

  lemma GapsMeanNoOverflow(p: CalendarPolicy, last: I64, now: I64, gaps: seq<Gap>)
    requires AreGaps(p, last, now, gaps)
    ensures !Overflows(p, last, now)
  {
    hide StepFits, Deadline;
    forall n: nat | MissedBefore(p, last, now, n)
      ensures StepFits(p, last, n)
    {
      assert n <= |gaps|;
    }
  }

  /** Every interval missed by `now`; `None` stands for an overflowing sum. The loop
      would not end for an interval of zero that is already missed. */
  method DeriveGaps(p: CalendarPolicy, last: I64, now: I64) returns (r: Option<seq<Gap>>)
    requires p.intervalMs != 0 || !Fits(last as int + p.graceMs as int) || last as int + p.graceMs as int > now as int
    ensures r.None? <==> Overflows(p, last, now)
    ensures r.Some? ==> AreGaps(p, last, now, r.value)
  {
    hide Start, Overflows;
    var gaps: seq<Gap> := [];
    var start := last;
    StartSteps(p, last, 0);
    while true
      invariant start as int == Start(p, last, |gaps|)
      invariant MissedBefore(p, last, now, |gaps|) && ListsFirst(p, last, gaps)
      invariant p.intervalMs == 0 ==> gaps == []
      decreases if p.intervalMs > 0 then 0x8000_0000_0000_0000 - start as int else start as int + 0x8000_0000_0000_0000
    {
      StartSteps(p, last, |gaps|);
      var end := CheckedAdd(start, p.intervalMs);
      if end.None? {
        OverflowsAt(p, last, now, |gaps|);
        return None;
      }
      var deadline := CheckedAdd(end.value, p.graceMs);
      if deadline.None? {
        OverflowsAt(p, last, now, |gaps|);
        return None;
      }
      if deadline.value > now {
        break;
      }
      gaps := gaps + [Gap(start, end.value)];
      start := end.value;
    }
    r := Some(gaps);
    GapsMeanNoOverflow(p, last, now, gaps);
  }

  lemma OverflowsAt(p: CalendarPolicy, last: I64, now: I64, n: nat)
    requires MissedBefore(p, last, now, n) && !StepFits(p, last, n)
    ensures Overflows(p, last, now)
  {
    hide MissedBefore, StepFits;
  }

  // -------------------------------------------------------------- closed form

  /** How many intervals are missed by `now`. */
  function GapCount(p: CalendarPolicy, last: I64, now: int): nat
    requires p.intervalMs > 0
  {
    if Deadline(p, last, 0) > now then 0 else (now - Deadline(p, last, 0)) / p.intervalMs as int + 1
  }

  lemma DeadlineFrom(p: CalendarPolicy, last: I64, k: nat)
    ensures Deadline(p, last, k) == Deadline(p, last, 0) + k * p.intervalMs as int
  {
    Distribute(k, 1, p.intervalMs as int);
  }

  lemma Distribute(a: int, b: int, c: int)
    ensures (a + b) * c == a * c + b * c
  {
  }

  lemma DivBounds(a: int, b: int, k: int)
    requires a >= 0 && b > 0
    ensures k <= a / b <==> k * b <= a
  {
    var q, r := a / b, a % b;
    assert a == q * b + r && 0 <= r < b;
    if k <= q {
      MulMono(k, q, b);
    } else {
      MulMono(q + 1, k, b);
      Distribute(q, 1, b);
    }
  }

  lemma MulMono(x: int, y: int, b: int)
    requires x <= y && b >= 0
    ensures x * b <= y * b
  {
  }

  /** Interval `k` is missed by `now` exactly when it is among the first `GapCount`. */
  lemma MissedIff(p: CalendarPolicy, last: I64, now: int, k: nat)
    requires p.intervalMs > 0
    ensures Deadline(p, last, k) <= now <==> k < GapCount(p, last, now)
  {
    hide Start;
    var d, i := Deadline(p, last, 0), p.intervalMs as int;
    DeadlineFrom(p, last, k);
    hide Deadline;
    MulMono(0, k, i);
    if d <= now {
      DivBounds(now - d, i, k);
    }
  }

  lemma MissedAtMost(p: CalendarPolicy, last: I64, now: I64, n: nat)
    requires p.intervalMs > 0 && MissedBefore(p, last, now, n)
    ensures n <= GapCount(p, last, now as int)
  {
    hide Start, Deadline, GapCount;
    if n > 0 {
      MissedIff(p, last, now as int, n - 1);
    }
  }

  /** With a positive interval the number of gaps is the floor-division count, and
      gap `k` is the `k`-th interval. */
  lemma GapsClosedForm(p: CalendarPolicy, last: I64, now: I64, gaps: seq<Gap>)
    requires p.intervalMs > 0 && AreGaps(p, last, now, gaps)
    ensures |gaps| == GapCount(p, last, now as int)
    ensures forall k :: 0 <= k < |gaps| ==>
              && gaps[k].startMs as int == last as int + k * p.intervalMs as int
              && gaps[k].endMs as int == gaps[k].startMs as int + p.intervalMs as int
  {
    MissedAtMost(p, last, now, |gaps|);
    MissedIff(p, last, now as int, |gaps|);
    hide Deadline, GapCount;
    forall k | 0 <= k < |gaps|
      ensures gaps[k].endMs as int == gaps[k].startMs as int + p.intervalMs as int
    {
      StartSteps(p, last, k);
    }
  }

  /** No sum overflows when the first deadline and `now + interval` fit. */
  lemma NoOverflow(p: CalendarPolicy, last: I64, now: I64)
    requires p.intervalMs > 0 && p.graceMs >= 0
    requires Fits(Deadline(p, last, 0)) && Fits(now as int + p.intervalMs as int)
    ensures !Overflows(p, last, now)
  {
    forall n: nat | MissedBefore(p, last, now, n)
      ensures StepFits(p, last, n)
    {
      NextFits(p, last, now, n);
    }
  }

  lemma NextFits(p: CalendarPolicy, last: I64, now: I64, n: nat)
    requires p.intervalMs > 0 && p.graceMs >= 0
    requires Fits(Deadline(p, last, 0)) && Fits(now as int + p.intervalMs as int)
    requires MissedBefore(p, last, now, n)
    ensures StepFits(p, last, n)
  {
    hide Start;
    StartSteps(p, last, 0);
    StartSteps(p, last, n);
    if n > 0 {
      assert StepFits(p, last, n - 1) && Deadline(p, last, n - 1) <= now as int;
    }
  }

  /** Gaps at an earlier time are a prefix of the gaps at any later time. */
  lemma GapsOnlyGrow(p: CalendarPolicy, last: I64, now: I64, later: I64, gaps: seq<Gap>, gaps': seq<Gap>)
    requires p.intervalMs > 0 && now <= later
    requires AreGaps(p, last, now, gaps) && AreGaps(p, last, later, gaps')
    ensures gaps <= gaps'
  {
    hide Start, Deadline, GapCount;
    GapsClosedForm(p, last, now, gaps);
    GapsClosedForm(p, last, later, gaps');
    MissedIff(p, last, now as int, |gaps'|);
    assert |gaps| <= |gaps'|;
    forall k | 0 <= k < |gaps|
      ensures gaps[k] == gaps'[k]
    {
      var g, g' := gaps[k], gaps'[k];
      assert g.startMs as int == Start(p, last, k) == g'.startMs as int;
      assert g.endMs as int == Start(p, last, k + 1) == g'.endMs as int;
    }
  }
}

/** Continuity segments and late recovery. */
module Continuity {
  import opened Common
  import opened Calendar

  datatype Segment = Segment(startMs: I64, endMs: I64)

  datatype LateSupplement = LateSupplement(gap: Gap, recoveredAtMs: I64)

  datatype LateRecoveryError = NotLate(recoveredAtMs: I64, deadlineMs: I64)

  function Later(a: I64, b: I64): I64 { if a >= b then a else b }

  /** The segments from `cursor` on. */
  function Split(cursor: I64, trackEnd: I64, gaps: seq<Gap>): seq<Segment>
    decreases |gaps|
  {
    if gaps == [] then (if trackEnd > cursor then [Segment(cursor, trackEnd)] else [])
    else
      (if gaps[0].startMs > cursor then [Segment(cursor, gaps[0].startMs)] else [])
      + Split(Later(gaps[0].endMs, cursor), trackEnd, gaps[1..])
  }

  method SegmentsBetween(trackStart: I64, trackEnd: I64, gaps: seq<Gap>) returns (segments: seq<Segment>)
    ensures segments == Split(trackStart, trackEnd, gaps)
  {
    segments := [];
    var cursor := trackStart;
    for i := 0 to |gaps|
      invariant segments + Split(cursor, trackEnd, gaps[i..]) == Split(trackStart, trackEnd, gaps)
    {
      var gap := gaps[i];
      assert gaps[i..][0] == gap && gaps[i..][1..] == gaps[i + 1..];
      ghost var head := if gap.startMs > cursor then [Segment(cursor, gap.startMs)] else [];
      Regroup(segments, head, Split(Later(gap.endMs, cursor), trackEnd, gaps[i + 1..]));
      if gap.startMs > cursor {
        segments := segments + [Segment(cursor, gap.startMs)];
      } else {
        assert segments + head == segments;
      }
      cursor := Later(gap.endMs, cursor);
    }
    if trackEnd > cursor {
      segments := segments + [Segment(cursor, trackEnd)];
    }
  }

  lemma Regroup(a: seq<Segment>, b: seq<Segment>, c: seq<Segment>)
    ensures a + (b + c) == a + b + c
  {
  }

  /** Sorted and not overlapping, as the caller must supply them. */
  ghost predicate InOrder(gaps: seq<Gap>) {
    && (forall i :: 0 <= i < |gaps| ==> gaps[i].startMs <= gaps[i].endMs)
    && (forall i, j :: 0 <= i < j < |gaps| ==> gaps[i].endMs <= gaps[j].startMs)
  }

  /** How many of the gaps, and of the segments, hold the instant `t`. */
  function GapsAt(gaps: seq<Gap>, t: int): nat {
    if gaps == [] then 0
    else (if gaps[0].startMs as int <= t < gaps[0].endMs as int then 1 else 0) + GapsAt(gaps[1..], t)
  }

  function SegmentsAt(segments: seq<Segment>, t: int): nat {
    if segments == [] then 0
    else (if segments[0].startMs as int <= t < segments[0].endMs as int then 1 else 0) + SegmentsAt(segments[1..], t)
  }

  lemma SegmentsAtCons(s: seq<Segment>, rest: seq<Segment>, t: int)
    requires |s| <= 1
    ensures SegmentsAt(s + rest, t) == SegmentsAt(s, t) + SegmentsAt(rest, t)
  {
    if s == [] {
      assert s + rest == rest;
    } else {
      assert (s + rest)[1..] == rest;
    }
  }

  lemma {:induction false} NoGapYet(gaps: seq<Gap>, t: int)
    requires forall i :: 0 <= i < |gaps| ==> t < gaps[i].startMs as int
    ensures GapsAt(gaps, t) == 0
  {
    if gaps != [] {
      NoGapYet(gaps[1..], t);
    }
  }

  lemma {:induction false} NoSegmentBefore(cursor: I64, trackEnd: I64, gaps: seq<Gap>, t: int)
    requires t < cursor as int
    ensures SegmentsAt(Split(cursor, trackEnd, gaps), t) == 0
    decreases |gaps|
  {
    if gaps != [] {
      var rest := Split(Later(gaps[0].endMs, cursor), trackEnd, gaps[1..]);
      NoSegmentBefore(Later(gaps[0].endMs, cursor), trackEnd, gaps[1..], t);
      SegmentsAtCons(if gaps[0].startMs > cursor then [Segment(cursor, gaps[0].startMs)] else [], rest, t);
    }
  }

  /** Whether some gap begins after `t`. */
  ghost predicate GapAhead(gaps: seq<Gap>, t: int) {
    exists i :: 0 <= i < |gaps| && gaps[i].startMs as int > t
  }

  lemma {:induction false} CoverFrom(cursor: I64, trackEnd: I64, gaps: seq<Gap>, t: int)
    requires InOrder(gaps) && t >= cursor as int
    ensures SegmentsAt(Split(cursor, trackEnd, gaps), t) + GapsAt(gaps, t)
         == if t < trackEnd as int || GapAhead(gaps, t) || GapsAt(gaps, t) > 0 then 1 else 0
    decreases |gaps|
  {
    if gaps != [] {
      var g, rest := gaps[0], gaps[1..];
      var next := Later(g.endMs, cursor);
      SegmentsAtCons(if g.startMs > cursor then [Segment(cursor, g.startMs)] else [], Split(next, trackEnd, rest), t);
      if t < next as int {
        NoSegmentBefore(next, trackEnd, rest, t);
        NoGapYet(rest, t);
      } else {
        CoverFrom(next, trackEnd, rest, t);
        AheadTail(gaps, t);
      }
    }
  }

  lemma AheadTail(gaps: seq<Gap>, t: int)
    requires gaps != [] && gaps[0].startMs as int <= t
    ensures GapAhead(gaps, t) <==> GapAhead(gaps[1..], t)
  {
    if i :| 0 <= i < |gaps| && gaps[i].startMs as int > t {
      assert gaps[1..][i - 1] == gaps[i];
    }
    if i :| 0 <= i < |gaps[1..]| && gaps[1..][i].startMs as int > t {
      assert gaps[i + 1] == gaps[1..][i];
    }
  }

  /** Every instant of the track lies in exactly one segment or exactly one gap, and
      nothing before the track lies in a segment. Past its end a segment holds an
      instant only where no gap does and some gap is still ahead. */
  lemma Partition(trackStart: I64, trackEnd: I64, gaps: seq<Gap>, t: int)
    requires InOrder(gaps)
    ensures trackStart as int <= t < trackEnd as int ==>
              SegmentsAt(Split(trackStart, trackEnd, gaps), t) + GapsAt(gaps, t) == 1
    ensures t < trackStart as int ==> SegmentsAt(Split(trackStart, trackEnd, gaps), t) == 0
    ensures t >= trackStart as int && t >= trackEnd as int ==>
              (SegmentsAt(Split(trackStart, trackEnd, gaps), t) == 1 <==> GapsAt(gaps, t) == 0 && GapAhead(gaps, t))
  {
    if t < trackStart as int {
      NoSegmentBefore(trackStart, trackEnd, gaps, t);
    } else {
      CoverFrom(trackStart, trackEnd, gaps, t);
    }
  }

  /** Where a segment may begin, and where it may end. */
  ghost predicate BeginsAt(x: I64, cursor: I64, gaps: seq<Gap>) {
    x == cursor || exists i :: 0 <= i < |gaps| && gaps[i].endMs == x
  }

  ghost predicate EndsAt(x: I64, trackEnd: I64, gaps: seq<Gap>) {
    x == trackEnd || exists i :: 0 <= i < |gaps| && gaps[i].startMs == x
  }

  /** A segment is not empty, and runs from the start or the end of a gap to the start of
      a gap or the end. */
  ghost predicate WholeSegment(s: Segment, cursor: I64, trackEnd: I64, gaps: seq<Gap>) {
    cursor <= s.startMs < s.endMs && BeginsAt(s.startMs, cursor, gaps) && EndsAt(s.endMs, trackEnd, gaps)
  }

  /** All are whole, and they come in order without overlap. */
  ghost predicate Whole(segments: seq<Segment>, cursor: I64, trackEnd: I64, gaps: seq<Gap>) {
    && (forall k :: 0 <= k < |segments| ==> WholeSegment(segments[k], cursor, trackEnd, gaps))
    && forall k, l :: 0 <= k < l < |segments| ==> segments[k].endMs <= segments[l].startMs
  }

  lemma {:induction false} SegmentsAreWhole(cursor: I64, trackEnd: I64, gaps: seq<Gap>)
    requires InOrder(gaps)
    ensures Whole(Split(cursor, trackEnd, gaps), cursor, trackEnd, gaps)
    decreases |gaps|
  {
    if gaps != [] {
      var next, rest := Later(gaps[0].endMs, cursor), gaps[1..];
      SegmentsAreWhole(next, trackEnd, rest);
      WholeCons(cursor, trackEnd, gaps, Split(next, trackEnd, rest));
    }
  }

  lemma WholeCons(cursor: I64, trackEnd: I64, gaps: seq<Gap>, tail: seq<Segment>)
    requires InOrder(gaps) && gaps != []
    requires Whole(tail, Later(gaps[0].endMs, cursor), trackEnd, gaps[1..])
    ensures Whole((if gaps[0].startMs > cursor then [Segment(cursor, gaps[0].startMs)] else []) + tail,
                  cursor, trackEnd, gaps)
  {
    forall k | 0 <= k < |tail|
      ensures WholeSegment(tail[k], cursor, trackEnd, gaps) && gaps[0].endMs <= tail[k].startMs
    {
      WiderGaps(tail[k], cursor, trackEnd, gaps);
    }
    assert gaps[0].startMs <= gaps[0].endMs;
    hide InOrder, WholeSegment;
    if gaps[0].startMs > cursor {
      FirstIsWhole(cursor, trackEnd, gaps);
      PrependWhole(Segment(cursor, gaps[0].startMs), tail, cursor, trackEnd, gaps);
    } else {
      assert [] + tail == tail;
    }
  }

  lemma PrependWhole(s: Segment, tail: seq<Segment>, cursor: I64, trackEnd: I64, gaps: seq<Gap>)
    requires WholeSegment(s, cursor, trackEnd, gaps) && Whole(tail, cursor, trackEnd, gaps)
    requires forall k :: 0 <= k < |tail| ==> s.endMs <= tail[k].startMs
    ensures Whole([s] + tail, cursor, trackEnd, gaps)
  {
    hide WholeSegment;
  }

  lemma FirstIsWhole(cursor: I64, trackEnd: I64, gaps: seq<Gap>)
    requires gaps != [] && gaps[0].startMs > cursor
    ensures WholeSegment(Segment(cursor, gaps[0].startMs), cursor, trackEnd, gaps)
  {
  }

  lemma WiderGaps(s: Segment, cursor: I64, trackEnd: I64, gaps: seq<Gap>)
    requires gaps != [] && WholeSegment(s, Later(gaps[0].endMs, cursor), trackEnd, gaps[1..])
    ensures WholeSegment(s, cursor, trackEnd, gaps) && gaps[0].endMs <= s.startMs
  {
    if i :| 0 <= i < |gaps[1..]| && gaps[1..][i].endMs == s.startMs {
      assert gaps[i + 1].endMs == s.startMs;
    } else {
      assert s.startMs == cursor || gaps[0].endMs == s.startMs;
    }
    if i :| 0 <= i < |gaps[1..]| && gaps[1..][i].startMs == s.endMs {
      assert gaps[i + 1].startMs == s.endMs;
    }
  }

  /** Gap `i` begins no later than the track's end, or touches what came before it. */
  predicate NoOverrunAt(cursor: I64, trackEnd: I64, gaps: seq<Gap>, i: nat)
    requires i < |gaps|
  {
    gaps[i].startMs <= Later(trackEnd, if i == 0 then cursor else Later(cursor, gaps[i - 1].endMs))
  }

  ghost predicate NoOverrun(cursor: I64, trackEnd: I64, gaps: seq<Gap>) {
    forall i :: 0 <= i < |gaps| ==> NoOverrunAt(cursor, trackEnd, gaps, i)
  }

  ghost predicate EndWithin(segments: seq<Segment>, trackEnd: I64) {
    forall k :: 0 <= k < |segments| ==> segments[k].endMs <= trackEnd
  }

  lemma EndWithinConcat(head: seq<Segment>, tail: seq<Segment>, trackEnd: I64)
    ensures EndWithin(head + tail, trackEnd) <==> EndWithin(head, trackEnd) && EndWithin(tail, trackEnd)
  {
    assert forall k :: 0 <= k < |head| ==> (head + tail)[k] == head[k];
    assert forall k :: 0 <= k < |tail| ==> (head + tail)[|head| + k] == tail[k];
  }

  lemma NoOverrunTail(cursor: I64, trackEnd: I64, gaps: seq<Gap>)
    requires gaps != [] && InOrder(gaps)
    ensures NoOverrun(cursor, trackEnd, gaps) <==>
      NoOverrunAt(cursor, trackEnd, gaps, 0) && NoOverrun(Later(gaps[0].endMs, cursor), trackEnd, gaps[1..])
  {
    var next, rest := Later(gaps[0].endMs, cursor), gaps[1..];
    forall i | 0 <= i < |rest|
      ensures NoOverrunAt(next, trackEnd, rest, i) == NoOverrunAt(cursor, trackEnd, gaps, i + 1)
    {
      assert rest[i] == gaps[i + 1];
      assert i > 0 ==> rest[i - 1] == gaps[i];
    }
    if NoOverrun(next, trackEnd, rest) && NoOverrunAt(cursor, trackEnd, gaps, 0) {
      forall i | 0 <= i < |gaps|
        ensures NoOverrunAt(cursor, trackEnd, gaps, i)
      {
        assert i > 0 ==> NoOverrunAt(next, trackEnd, rest, i - 1);
      }
    }
    if NoOverrun(cursor, trackEnd, gaps) {
      forall i | 0 <= i < |rest|
        ensures NoOverrunAt(next, trackEnd, rest, i)
      {
        assert NoOverrunAt(cursor, trackEnd, gaps, i + 1);
      }
    }
  }

  /** The segments stay inside the track exactly when no gap begins past the track's
      end with open time before it. */
  lemma {:induction false} StaysInTrackIff(cursor: I64, trackEnd: I64, gaps: seq<Gap>)
    requires InOrder(gaps)
    ensures EndWithin(Split(cursor, trackEnd, gaps), trackEnd) <==> NoOverrun(cursor, trackEnd, gaps)
    decreases |gaps|
  {
    if gaps != [] {
      var next := Later(gaps[0].endMs, cursor);
      var head := if gaps[0].startMs > cursor then [Segment(cursor, gaps[0].startMs)] else [];
      TailInOrder(gaps);
      hide InOrder, NoOverrun, EndWithin;
      StaysInTrackIff(next, trackEnd, gaps[1..]);
      EndWithinConcat(head, Split(next, trackEnd, gaps[1..]), trackEnd);
      NoOverrunTail(cursor, trackEnd, gaps);
      HeadWithin(cursor, trackEnd, gaps);
    }
  }

  /** A gap that begins past the track's end, with open time before it, carries a
      segment past the end too. */
  lemma SegmentOverruns()
    ensures var gaps := [Gap(10, 12)];
            && InOrder(gaps) && !NoOverrun(0, 5, gaps)
            && Split(0, 5, gaps) == [Segment(0, 10)]
  {
    var gaps := [Gap(10, 12)];
    assert !NoOverrunAt(0, 5, gaps, 0);
    assert gaps[1..] == [];
  }

  lemma TailInOrder(gaps: seq<Gap>)
    requires gaps != [] && InOrder(gaps)
    ensures InOrder(gaps[1..])
  {
  }

  lemma HeadWithin(cursor: I64, trackEnd: I64, gaps: seq<Gap>)
    requires gaps != []
    ensures EndWithin(if gaps[0].startMs > cursor then [Segment(cursor, gaps[0].startMs)] else [], trackEnd)
       <==> NoOverrunAt(cursor, trackEnd, gaps, 0)
  {
    var head := if gaps[0].startMs > cursor then [Segment(cursor, gaps[0].startMs)] else [];
    assert head != [] ==> head[0].endMs == gaps[0].startMs;
  }

  lemma StartsAscend(p: CalendarPolicy, last: I64, j: nat, k: nat)
    requires p.intervalMs > 0 && j <= k
    ensures Start(p, last, j) <= Start(p, last, k)
  {
    MulMono(j, k, p.intervalMs as int);
  }

  /** Derived gaps are fit to split a track that ends when they were derived: they
      come in order and none overruns it, so `Partition` applies to them. */
  lemma DerivedGapsFit(p: CalendarPolicy, last: I64, now: I64, gaps: seq<Gap>, trackStart: I64)
    requires p.intervalMs > 0 && p.graceMs >= 0
    requires AreGaps(p, last, now, gaps)
    ensures InOrder(gaps)
    ensures EndWithin(Split(trackStart, now, gaps), now)
  {
    hide Start, Split;
    forall i | 0 <= i < |gaps|
      ensures gaps[i].startMs <= gaps[i].endMs <= now
    {
      assert Deadline(p, last, i) <= now as int;
      StartsAscend(p, last, i, i + 1);
    }
    forall i, j | 0 <= i < j < |gaps|
      ensures gaps[i].endMs <= gaps[j].startMs
    {
      StartsAscend(p, last, i + 1, j);
    }
    StaysInTrackIff(trackStart, now, gaps);
  }

  // ------------------------------------------------------------ late recovery

  /** The deadline sum must be representable, as the program demands. */
  function RecoverLate(p: CalendarPolicy, gap: Gap, recoveredAt: I64): Result<LateSupplement, LateRecoveryError>
    requires Fits(gap.endMs as int + p.graceMs as int)
  {
    var deadline := gap.endMs + p.graceMs;
    if recoveredAt <= deadline then Err(NotLate(recoveredAt, deadline)) else Ok(LateSupplement(gap, recoveredAt))
  }

  /** A recovery is late strictly after the gap's end and the grace; it records the gap
      and its time, and a refusal names the time and the deadline. */
  lemma RecoverLateInFull(p: CalendarPolicy, gap: Gap, at: I64)
    requires Fits(gap.endMs as int + p.graceMs as int)
    ensures RecoverLate(p, gap, at).Ok? <==> at as int > gap.endMs as int + p.graceMs as int
    ensures RecoverLate(p, gap, at).Ok? ==>
              RecoverLate(p, gap, at).value.gap == gap && RecoverLate(p, gap, at).value.recoveredAtMs == at
    ensures RecoverLate(p, gap, at).Err? ==>
              && RecoverLate(p, gap, at).error.recoveredAtMs == at
              && RecoverLate(p, gap, at).error.deadlineMs as int == gap.endMs as int + p.graceMs as int
  {
  }

  /** A late recovery of calendar interval `k` is accepted exactly when the interval
      counted as missed one instant earlier; at the very deadline it counts and the
      recovery is still refused as not late. */
  lemma LateMeansMissed(p: CalendarPolicy, last: I64, gap: Gap, k: nat, at: I64)
    requires p.intervalMs > 0 && gap.endMs as int == Start(p, last, k + 1) && Fits(Deadline(p, last, k))
    ensures RecoverLate(p, gap, at).Ok? <==> k < GapCount(p, last, at as int - 1)
    ensures RecoverLate(p, gap, at).Ok? ==> k < GapCount(p, last, at as int)
    ensures RecoverLate(p, gap, at).Err? && k < GapCount(p, last, at as int) <==> at as int == Deadline(p, last, k)
  {
    hide Start, GapCount;
    MissedIff(p, last, at as int, k);
    MissedIff(p, last, at as int - 1, k);
  }

  /** Interval `k` of the calendar as a gap. */
  predicate IsInterval(p: CalendarPolicy, last: I64, gap: Gap, k: nat) {
    gap.startMs as int == Start(p, last, k) && gap.endMs as int == Start(p, last, k + 1)
  }

  /** With `gaps` the list derived at the time of recovery, an interval is listed, in
      its own place, exactly when its late recovery is accepted or is made at the very
      deadline. With `earlier` the list of one instant before, it is accepted exactly
      when it was listed already. */
  lemma LateMeansListed(p: CalendarPolicy, last: I64, gap: Gap, k: nat, at: I64, gaps: seq<Gap>)
    requires p.intervalMs > 0 && IsInterval(p, last, gap, k) && Fits(Deadline(p, last, k))
    requires AreGaps(p, last, at, gaps)
    ensures gap in gaps <==> RecoverLate(p, gap, at).Ok? || at as int == Deadline(p, last, k)
    ensures gap in gaps <==> k < |gaps| && gaps[k] == gap
    ensures forall before: I64, earlier ::
              before as int == at as int - 1 && AreGaps(p, last, before, earlier) ==>
              (RecoverLate(p, gap, at).Ok? <==> gap in earlier)
  {
    assert Fits(gap.endMs as int + p.graceMs as int);
    hide Start, Deadline, GapCount;
    LateMeansMissed(p, last, gap, k, at);
    InListIff(p, last, gap, k, at, gaps);
    forall before: I64, earlier | before as int == at as int - 1 && AreGaps(p, last, before, earlier)
      ensures RecoverLate(p, gap, at).Ok? <==> gap in earlier
    {
      InListIff(p, last, gap, k, before, earlier);
    }
  }

  lemma InListIff(p: CalendarPolicy, last: I64, gap: Gap, k: nat, at: I64, gaps: seq<Gap>)
    requires p.intervalMs > 0 && IsInterval(p, last, gap, k) && AreGaps(p, last, at, gaps)
    ensures gap in gaps <==> k < GapCount(p, last, at as int)
    ensures gap in gaps <==> k < |gaps| && gaps[k] == gap
  {
    GapsClosedForm(p, last, at, gaps);
    hide Deadline, GapCount;
    if k < |gaps| {
      assert gaps[k].endMs as int == Start(p, last, k + 1);
      assert gaps[k] == gap;
    }
    if i :| 0 <= i < |gaps| && gaps[i] == gap {
      if i < k {
        StartSteps(p, last, i);
        StartsAscend(p, last, i + 1, k);
      } else if k < i {
        StartSteps(p, last, k);
        StartsAscend(p, last, k + 1, i);
      }
    }
  }
}

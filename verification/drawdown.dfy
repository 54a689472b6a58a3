/** Maximum drawdown with its tie-break rule, and the recovery that follows it. */
module Drawdown {
  import opened Common
  import opened Rational

  datatype IndexPoint = IndexPoint(timeMs: nat, index: real)

  datatype DrawdownEpisode = DrawdownEpisode(
    peakTimeMs: nat, peakIndex: real, troughTimeMs: nat, troughIndex: real, magnitude: real)

  datatype RecoveryStatus = Recovered(recoveredAtMs: nat) | StillOpen

  /** `p` is the earliest point that reaches the running maximum at `t`. */
  ghost predicate PeakAt(points: seq<IndexPoint>, p: nat, t: nat) {
    && p <= t < |points|
    && (forall u :: 0 <= u <= t ==> points[u].index <= points[p].index)
    && (forall u :: 0 <= u < p ==> points[u].index < points[p].index)
  }

  /** How far `t` lies below the peak at `p`, as a share of the peak. */
  function Magnitude(points: seq<IndexPoint>, p: nat, t: nat): real
    requires p < |points| && t < |points| && points[p].index > 0.0
  {
    1.0 - Ratio(points[t].index, points[p].index)
  }

  /** No earlier point falls as far below its running maximum, and no later one farther. */
  ghost predicate IsWorst(points: seq<IndexPoint>, p: nat, t: nat) {
    && PeakAt(points, p, t) && points[p].index > 0.0
    && forall q: nat, u: nat {:trigger PeakAt(points, q, u)} :: PeakAt(points, q, u) && points[q].index > 0.0 ==>
         && Magnitude(points, q, u) <= Magnitude(points, p, t)
         && (u < t ==> Magnitude(points, q, u) < Magnitude(points, p, t))
  }

  ghost predicate Describes(e: DrawdownEpisode, points: seq<IndexPoint>, p: nat, t: nat) {
    && p < |points| && t < |points| && points[p].index > 0.0
    && e == DrawdownEpisode(
              points[p].timeMs, points[p].index, points[t].timeMs, points[t].index, Magnitude(points, p, t))
  }

  lemma PeakUnique(points: seq<IndexPoint>, p: nat, q: nat, t: nat)
    requires PeakAt(points, p, t) && PeakAt(points, q, t)
    ensures p == q
  {
    assert points[p].index <= points[q].index && points[q].index <= points[p].index;
  }

  /** The worst fall so far, over the first `n` points. */
  ghost predicate WorstSoFar(points: seq<IndexPoint>, n: nat, best: Option<DrawdownEpisode>, p: nat, t: nat) {
    match best
    case None =>
      forall q: nat, u: nat {:trigger PeakAt(points, q, u)} ::
        PeakAt(points, q, u) && u < n ==> points[q].index <= 0.0
    case Some(e) =>
      && t < n && PeakAt(points, p, t) && Describes(e, points, p, t)
      && forall q: nat, u: nat {:trigger PeakAt(points, q, u)} ::
           PeakAt(points, q, u) && points[q].index > 0.0 && u < n ==>
           && Magnitude(points, q, u) <= e.magnitude
           && (u < t ==> Magnitude(points, q, u) < e.magnitude)
  }

  lemma PeakSteps(points: seq<IndexPoint>, p: nat, t: nat)
    requires t + 1 < |points| && PeakAt(points, p, t)
    ensures points[t + 1].index > points[p].index ==> PeakAt(points, t + 1, t + 1)
    ensures points[t + 1].index <= points[p].index ==> PeakAt(points, p, t + 1)
  {
  }

  /** Also returns, for the proof, the positions of the peak and the trough. */
  method MaxDrawdown(points: seq<IndexPoint>) returns (r: Option<DrawdownEpisode>, ghost peak: nat, ghost trough: nat)
    ensures r.None? <==> forall i :: 0 <= i < |points| ==> points[i].index <= 0.0
    ensures r.Some? ==> IsWorst(points, peak, trough) && Describes(r.value, points, peak, trough)
  {
    peak, trough := 0, 0;
    if |points| == 0 {
      return None, 0, 0;
    }
    hide Ratio;
    var runningPeak := points[0];
    ghost var top := 0;
    r := None;
    for i := 0 to |points|
      invariant top < |points| && points[top] == runningPeak
      invariant if i == 0 then top == 0 else PeakAt(points, top, i - 1)
      invariant WorstSoFar(points, i, r, peak, trough)
      invariant r.None? && i > 0 ==> runningPeak.index <= 0.0
    {
      var point := points[i];
      if i > 0 {
        PeakSteps(points, top, i - 1);
      }
      if point.index > runningPeak.index {
        runningPeak := point;
        top := i;
      }
      assert PeakAt(points, top, i);
      OnlyPeak(points, top, i);
      if runningPeak.index <= 0.0 {
        continue;
      }
      var magnitude := 1.0 - Ratio(point.index, runningPeak.index);
      if r.None? || magnitude > r.value.magnitude {
        r := Some(DrawdownEpisode(runningPeak.timeMs, runningPeak.index, point.timeMs, point.index, magnitude));
        peak, trough := top, i;
      }
    }
    if r.None? {
      assert forall i :: 0 <= i < |points| ==> points[i].index <= runningPeak.index;
    } else {
      WholeSeries(points, r, peak, trough);
      assert points[peak].index > 0.0;
    }
  }

  const FLAT_ZERO := [IndexPoint(0, 0.0)]

  /** A series that is not empty and has no worst episode, so nothing is returned. */
  lemma ZeroHasNoEpisode()
    ensures FLAT_ZERO != [] && PeakAt(FLAT_ZERO, 0, 0)
    ensures forall p: nat, t: nat :: !IsWorst(FLAT_ZERO, p, t)
  {
  }

  lemma OnlyPeak(points: seq<IndexPoint>, p: nat, t: nat)
    requires PeakAt(points, p, t)
    ensures forall q: nat {:trigger PeakAt(points, q, t)} :: PeakAt(points, q, t) ==> q == p
  {
    forall q: nat | PeakAt(points, q, t)
      ensures q == p
    {
      PeakUnique(points, p, q, t);
    }
  }

  lemma WholeSeries(points: seq<IndexPoint>, r: Option<DrawdownEpisode>, p: nat, t: nat)
    requires r.Some? && WorstSoFar(points, |points|, r, p, t)
    ensures IsWorst(points, p, t) && Describes(r.value, points, p, t)
  {
    hide Ratio;
  }

  /** Among equal falls the oldest peak wins, and below it the oldest trough. */
  lemma TiesGoToTheOldest(points: seq<IndexPoint>, p: nat, t: nat, q: nat, u: nat)
    requires IsWorst(points, p, t) && PeakAt(points, q, u) && points[q].index > 0.0
    requires Magnitude(points, q, u) == Magnitude(points, p, t)
    ensures p <= q && (p == q ==> t <= u)
  {
    assert t <= u;
    assert p <= u && points[p].index <= points[q].index;
  }

  /** The magnitude of the peak is the fall from it. */
  lemma MagnitudeInFull(points: seq<IndexPoint>, p: nat, t: nat)
    requires p < |points| && t < |points| && points[p].index > 0.0
    ensures Times(Magnitude(points, p, t), points[p].index) == points[p].index - points[t].index
  {
    hide Times, Ratio;
    var a, b := points[t].index, points[p].index;
    RatioIff(a, b, Ratio(a, b));
    TimesSum(b, 1.0, Ratio(a, b));
    TimesOne(b);
  }

  /** The magnitude is never negative, and at most one exactly for a trough that is
      not negative. */
  lemma MagnitudeRange(points: seq<IndexPoint>, p: nat, t: nat)
    requires PeakAt(points, p, t) && points[p].index > 0.0
    ensures Magnitude(points, p, t) >= 0.0
    ensures Magnitude(points, p, t) <= 1.0 <==> points[t].index >= 0.0
    ensures Magnitude(points, p, t) > 0.0 <==> points[t].index < points[p].index
  {
    var a, b := points[t].index, points[p].index;
    RatioOrder(a, b);
  }

  // ---------------------------------------------------------------- recovery

  ghost predicate BackAtPeak(point: IndexPoint, e: DrawdownEpisode) {
    point.timeMs > e.peakTimeMs && point.index >= e.peakIndex
  }

  /** Also returns, for the proof, the position of the recovery. */
  method RecoveryTime(points: seq<IndexPoint>, e: DrawdownEpisode) returns (r: RecoveryStatus, ghost at: nat)
    ensures r == StillOpen <==> forall i :: 0 <= i < |points| ==> !BackAtPeak(points[i], e)
    ensures r.Recovered? ==>
              && at < |points| && r.recoveredAtMs == points[at].timeMs && BackAtPeak(points[at], e)
              && forall i :: 0 <= i < at ==> !BackAtPeak(points[i], e)
  {
    at := 0;
    for i := 0 to |points|
      invariant forall k :: 0 <= k < i ==> !BackAtPeak(points[k], e)
    {
      if points[i].timeMs > e.peakTimeMs && points[i].index >= e.peakIndex {
        return Recovered(points[i].timeMs), i;
      }
    }
    r := StillOpen;
  }

  ghost predicate TimesIncrease(points: seq<IndexPoint>) {
    forall i, j :: 0 <= i < j < |points| ==> points[i].timeMs < points[j].timeMs
  }

  /** The series touches the peak level again before its trough. */
  ghost predicate Revisits(points: seq<IndexPoint>, p: nat, t: nat)
    requires p < |points| && t < |points|
  {
    exists j :: p < j < t && points[j].index == points[p].index
  }

  /** With increasing times and a positive drawdown, the reported recovery falls
      after the trough exactly when the series does not revisit the peak level
      between the peak and the trough. */
  lemma RecoveryAfterTroughIff(points: seq<IndexPoint>, e: DrawdownEpisode, p: nat, t: nat, at: nat)
    requires TimesIncrease(points) && PeakAt(points, p, t) && Describes(e, points, p, t) && e.magnitude > 0.0
    requires at < |points| && BackAtPeak(points[at], e) && forall i :: 0 <= i < at ==> !BackAtPeak(points[i], e)
    ensures points[at].timeMs > e.troughTimeMs <==> !Revisits(points, p, t)
  {
    MagnitudeRange(points, p, t);
    assert at > p;
    assert at != t;
    if at < t {
      assert points[at].index == points[p].index;
    } else {
      assert points[t].timeMs < points[at].timeMs;
    }
  }

  const TOUCHES_TWICE := [IndexPoint(0, 1.0), IndexPoint(1, 2.0), IndexPoint(2, 2.0), IndexPoint(3, 1.0)]

  /** A series whose recovery is reported before its own trough. */
  lemma RecoveryBeforeTrough()
    ensures TimesIncrease(TOUCHES_TWICE) && IsWorst(TOUCHES_TWICE, 1, 3)
    ensures forall e :: Describes(e, TOUCHES_TWICE, 1, 3) ==>
              e.troughTimeMs == 3 && e.magnitude > 0.0 && BackAtPeak(TOUCHES_TWICE[2], e)
              && !BackAtPeak(TOUCHES_TWICE[0], e) && !BackAtPeak(TOUCHES_TWICE[1], e)
  {
    var s := TOUCHES_TWICE;
    assert PeakAt(s, 0, 0) && PeakAt(s, 1, 1) && PeakAt(s, 1, 2) && PeakAt(s, 1, 3);
    OnlyPeak(s, 0, 0);
    OnlyPeak(s, 1, 1);
    OnlyPeak(s, 1, 2);
    OnlyPeak(s, 1, 3);
    assert Ratio(1.0, 1.0) == 1.0 && Ratio(2.0, 2.0) == 1.0 && Ratio(1.0, 2.0) == 0.5;
    forall q: nat, u: nat | PeakAt(s, q, u) && s[q].index > 0.0
      ensures Magnitude(s, q, u) <= Magnitude(s, 1, 3) && (u < 3 ==> Magnitude(s, q, u) < Magnitude(s, 1, 3))
    {
      assert u == 0 || u == 1 || u == 2 || u == 3;
    }
  }
}

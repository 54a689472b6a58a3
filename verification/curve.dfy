/** Summaries of a combined curve: its maximum drawdown and its daily thinning. */
module CurveSummary {
  import opened Rational
  import opened Combine
  import opened Drawdown

  const DAY_MS := 86_400_000

  /** The curve's values, positions standing in for times. */
  function Series(curve: seq<CurvePoint>): (r: seq<IndexPoint>)
    ensures |r| == |curve|
  {
    seq(|curve|, i requires 0 <= i < |curve| => IndexPoint(i, curve[i].growth))
  }

  /** `worst` is the largest fall below a positive running maximum over the first
      `n` values, zero when there is none; `p` and `t` show where, if it is positive. */
  ghost predicate LargestFall(points: seq<IndexPoint>, n: nat, worst: real, p: nat, t: nat) {
    && worst >= 0.0
    && (forall q: nat, u: nat {:trigger PeakAt(points, q, u)} ::
          PeakAt(points, q, u) && points[q].index > 0.0 && u < n ==> Magnitude(points, q, u) <= worst)
    && (worst > 0.0 ==> t < n && PeakAt(points, p, t) && points[p].index > 0.0 && Magnitude(points, p, t) == worst)
  }

  lemma FallIsMagnitude(peak: real, value: real)
    requires peak > 0.0
    ensures Ratio(peak - value, peak) == 1.0 - Ratio(value, peak)
  {
    hide Times, Ratio;
    var q := Ratio(value, peak);
    RatioIff(value, peak, q);
    TimesSum(peak, 1.0, q);
    TimesOne(peak);
    RatioIff(peak - value, peak, 1.0 - q);
  }

  /** The same over the whole curve, wherever the fall is. */
  ghost predicate IsLargestFall(curve: seq<CurvePoint>, worst: real) {
    exists p: nat, t: nat :: LargestFall(Series(curve), |curve|, worst, p, t)
  }

  method MaxDrawdownOf(curve: seq<CurvePoint>) returns (worst: real)
    ensures IsLargestFall(curve, worst)
  {
    hide Ratio;
    ghost var points := Series(curve);
    ghost var top, p, t := 0, 0, 0;
    var peak := 0.0;
    worst := 0.0;
    for i := 0 to |curve|
      invariant peak >= 0.0
      invariant i > 0 ==> PeakAt(points, top, i - 1)
      invariant i > 0 ==> peak == if points[top].index > 0.0 then points[top].index else 0.0
      invariant i == 0 ==> peak == 0.0
      invariant LargestFall(points, i, worst, p, t)
    {
      var growth := curve[i].growth;
      assert growth == points[i].index;
      if i == 0 {
        top := 0;
      } else {
        PeakSteps(points, top, i - 1);
        top := if growth > points[top].index then i else top;
      }
      assert PeakAt(points, top, i);
      OnlyPeak(points, top, i);
      peak := if growth > peak then growth else peak;
      if peak > 0.0 {
        FallIsMagnitude(peak, growth);
        var fall := Ratio(peak - growth, peak);
        if fall > worst {
          worst := fall;
          p, t := top, i;
        }
      }
    }
  }

  lemma SamePeak(a: seq<IndexPoint>, b: seq<IndexPoint>, p: nat, t: nat)
    requires |a| == |b| && forall i :: 0 <= i < |a| ==> a[i].index == b[i].index
    requires PeakAt(a, p, t)
    ensures PeakAt(b, p, t)
  {
    forall u | 0 <= u <= t
      ensures b[u].index <= b[p].index && (u < p ==> b[u].index < b[p].index)
    {
      assert a[u].index <= a[p].index;
    }
  }

  /** The drawdown of the curve is the magnitude of the worst episode of the same
      values, and zero when no value is positive. */
  lemma DrawdownsAgree(points: seq<IndexPoint>, curve: seq<CurvePoint>, worst: real, q: nat, u: nat)
    requires |points| == |curve| && forall i :: 0 <= i < |points| ==> points[i].index == curve[i].growth
    requires IsLargestFall(curve, worst)
    ensures IsWorst(points, q, u) ==> worst == Magnitude(points, q, u)
    ensures (forall i :: 0 <= i < |points| ==> points[i].index <= 0.0) ==> worst == 0.0
  {
    hide Ratio;
    var series := Series(curve);
    var p: nat, t: nat :| LargestFall(series, |curve|, worst, p, t);
    if IsWorst(points, q, u) {
      SamePeak(points, series, q, u);
      MagnitudeRange(points, q, u);
      assert Magnitude(series, q, u) == Magnitude(points, q, u);
      if worst > 0.0 {
        SamePeak(series, points, p, t);
        assert Magnitude(series, p, t) == Magnitude(points, p, t);
      }
    }
  }

  // -------------------------------------------------------------- once a day

  function DayOf(p: Point): int { p.timeMs / DAY_MS }

  /** The map from day to last point seen, in the order days first appeared. */
  function Remember(days: seq<Point>, p: Point): seq<Point> {
    if days == [] then [p]
    else if DayOf(days[0]) == DayOf(p) then [p] + days[1..]
    else [days[0]] + Remember(days[1..], p)
  }

  /** At most one kept point a day, and for every day of the first `n` points the
      last of that day's. */
  ghost predicate LastOfDays(points: seq<Point>, n: nat, kept: seq<Point>) {
    && n <= |points|
    && (forall i, j :: 0 <= i < j < |kept| ==> DayOf(kept[i]) != DayOf(kept[j]))
    && (forall k :: k in kept ==> k in points[..n])
    && (forall j :: 0 <= j < n && (forall m :: j < m < n ==> DayOf(points[m]) != DayOf(points[j])) ==>
          points[j] in kept)
  }

  lemma {:induction false} RememberReplaces(days: seq<Point>, p: Point)
    requires forall i, j :: 0 <= i < j < |days| ==> DayOf(days[i]) != DayOf(days[j])
    ensures forall i, j :: 0 <= i < j < |Remember(days, p)| ==>
              DayOf(Remember(days, p)[i]) != DayOf(Remember(days, p)[j])
    ensures forall x :: x in Remember(days, p) <==> x == p || (x in days && DayOf(x) != DayOf(p))
  {
    hide DayOf;
    if days != [] {
      assert days == [days[0]] + days[1..];
      if DayOf(days[0]) != DayOf(p) {
        RememberReplaces(days[1..], p);
        var rest := Remember(days[1..], p);
        forall i | 0 <= i < |rest|
          ensures DayOf(rest[i]) != DayOf(days[0])
        {
          assert rest[i] in rest;
        }
      }
    }
  }

  /** A day is 86,400,000 milliseconds, counted from the epoch. */
  lemma DayInFull(p: Point, day: int)
    ensures DayOf(p) == day <==> day * 86_400_000 <= p.timeMs < (day + 1) * 86_400_000
  {
  }

  /** The days in the order in which the points first reach them. */
  function FirstSeen(points: seq<Point>): seq<int> {
    if points == [] then []
    else
      var last, days := points[|points| - 1], FirstSeen(points[..|points| - 1]);
      if DayOf(last) in days then days else days + [DayOf(last)]
  }

  function Days(points: seq<Point>): (r: seq<int>)
    ensures |r| == |points|
  {
    seq(|points|, i requires 0 <= i < |points| => DayOf(points[i]))
  }

  lemma {:induction false} RememberKeepsDays(days: seq<Point>, p: Point)
    ensures Days(Remember(days, p)) == if DayOf(p) in Days(days) then Days(days) else Days(days) + [DayOf(p)]
  {
    hide DayOf;
    if days == [] {
      assert Days([p]) == [DayOf(p)];
    } else {
      RememberKeepsDays(days[1..], p);
      assert Days(days) == [DayOf(days[0])] + Days(days[1..]);
      if DayOf(days[0]) == DayOf(p) {
        assert Days([p] + days[1..]) == Days(days);
      } else {
        var rest := Remember(days[1..], p);
        assert Days([days[0]] + rest) == [DayOf(days[0])] + Days(rest);
      }
    }
  }

  ghost predicate DaysAscend(days: seq<Point>) {
    forall i, j :: 0 <= i < j < |days| ==> DayOf(days[i]) < DayOf(days[j])
  }

  ghost predicate InTimeOrder(points: seq<Point>) {
    forall i, j :: 0 <= i < j < |points| ==> points[i].timeMs <= points[j].timeMs
  }

  lemma {:induction false} RememberAscends(days: seq<Point>, p: Point)
    requires DaysAscend(days) && forall x :: x in days ==> DayOf(x) <= DayOf(p)
    ensures DaysAscend(Remember(days, p))
  {
    hide DayOf;
    if days != [] {
      assert days == [days[0]] + days[1..];
      assert |days| > 1 ==> days[1] in days;
      if DayOf(days[0]) != DayOf(p) {
        RememberAscends(days[1..], p);
        var rest := Remember(days[1..], p);
        assert days[0] in days;
        forall i | 0 <= i < |rest|
          ensures DayOf(days[0]) < DayOf(rest[i])
        {
          assert rest[i] in rest;
          RememberHolds(days[1..], p, rest[i]);
        }
      }
    }
  }

  lemma {:induction false} RememberHolds(days: seq<Point>, p: Point, x: Point)
    requires x in Remember(days, p)
    ensures x == p || x in days
  {
    hide DayOf;
    if days != [] && DayOf(days[0]) != DayOf(p) && x != days[0] {
      RememberHolds(days[1..], p, x);
    }
  }

  lemma KeptBefore(points: seq<Point>, i: nat, kept: seq<Point>)
    requires InTimeOrder(points) && i < |points| && LastOfDays(points, i, kept)
    ensures forall x :: x in kept ==> DayOf(x) <= DayOf(points[i])
  {
    forall x | x in kept
      ensures DayOf(x) <= DayOf(points[i])
    {
      assert x in points[..i];
      assert x.timeMs <= points[i].timeMs;
    }
  }

  /** In time order, the kept points come out in day order too. The step reported
      is never finer than a day, and otherwise the one given. */
  method AtMostDaily(points: seq<Point>, stepMs: int) returns (kept: seq<Point>, dailyStepMs: int)
    ensures LastOfDays(points, |points|, kept)
    ensures InTimeOrder(points) ==> DaysAscend(kept)
    ensures Days(kept) == FirstSeen(points)
    ensures dailyStepMs >= DAY_MS && dailyStepMs >= stepMs && (dailyStepMs == DAY_MS || dailyStepMs == stepMs)
  {
    hide DayOf, InTimeOrder, LastOfDays, DaysAscend, Days, FirstSeen, Remember;
    NothingKept(points);
    dailyStepMs := if stepMs > DAY_MS then stepMs else DAY_MS;
    kept := [];
    for i := 0 to |points|
      invariant LastOfDays(points, i, kept)
      invariant InTimeOrder(points) ==> DaysAscend(kept)
      invariant Days(kept) == FirstSeen(points[..i])
    {
      RememberKeepsDays(kept, points[i]);
      NextSeen(points, i);
      if InTimeOrder(points) {
        KeptBefore(points, i, kept);
        RememberAscends(kept, points[i]);
      }
      DayAdvances(points, i, kept);
      kept := Remember(kept, points[i]);
    }
    assert points[..|points|] == points;
  }

  lemma NothingKept(points: seq<Point>)
    ensures LastOfDays(points, 0, []) && DaysAscend([]) && Days([]) == FirstSeen(points[..0])
  {
  }

  lemma NextSeen(points: seq<Point>, i: nat)
    requires i < |points|
    ensures FirstSeen(points[..i + 1])
         == if DayOf(points[i]) in FirstSeen(points[..i]) then FirstSeen(points[..i])
            else FirstSeen(points[..i]) + [DayOf(points[i])]
  {
    hide DayOf;
    assert points[..i + 1][..i] == points[..i];
  }

  lemma DayAdvances(points: seq<Point>, i: nat, kept: seq<Point>)
    requires i < |points| && LastOfDays(points, i, kept)
    ensures LastOfDays(points, i + 1, Remember(kept, points[i]))
  {
    hide DayOf;
    var p, next := points[i], Remember(kept, points[i]);
    RememberReplaces(kept, p);
    assert points[..i + 1] == points[..i] + [p];
    forall j | 0 <= j < i + 1 && (forall m :: j < m < i + 1 ==> DayOf(points[m]) != DayOf(points[j]))
      ensures points[j] in next
    {
      if j < i {
        assert DayOf(points[i]) != DayOf(points[j]);
      }
    }
  }
}

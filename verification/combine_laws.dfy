/** The combined curve in the terms of navs and indexes alone, flows included. */
module CombineLaws {
  import opened Common
  import opened Rational
  import opened Combine

  /** What the first `n` accounts with points at both ends and a usable opening index
      held at the opening. */
  function Opening(before: seq<Option<Point>>, now: seq<Option<Point>>, n: nat): real
    requires n <= |before| == |now|
  {
    if n == 0 then 0.0
    else
      Opening(before, now, n - 1)
      + if before[n - 1].Some? && now[n - 1].Some? && before[n - 1].value.index != 0.0
        then before[n - 1].value.nav else 0.0
  }

  /** The same holdings carried on at each account's index ratio. */
  function Carried(before: seq<Option<Point>>, now: seq<Option<Point>>, n: nat): real
    requires n <= |before| == |now|
  {
    if n == 0 then 0.0
    else
      Carried(before, now, n - 1)
      + if before[n - 1].Some? && now[n - 1].Some? && before[n - 1].value.index != 0.0
        then Times(before[n - 1].value.nav, Ratio(now[n - 1].value.index, before[n - 1].value.index)) else 0.0
  }

  lemma {:induction false} SumsInFull(before: seq<Option<Point>>, now: seq<Option<Point>>, n: nat)
    requires n <= |before| == |now|
    ensures Total(before, now, n) == Opening(before, now, n)
    ensures Total(before, now, n) + Weighted(before, now, n) == Carried(before, now, n)
  {
    hide Times, Ratio;
    if n > 0 {
      SumsInFull(before, now, n - 1);
      if Counts(before[n - 1], now[n - 1]) {
        var nav, gain := before[n - 1].value.nav, Gain(before[n - 1], now[n - 1]);
        TimesSum(nav, gain, 1.0);
        TimesOne(nav);
      }
    }
  }

  /** Over an interval the curve moves from what was held at the opening to the same
      holdings at the closing indexes, whatever flowed in or out meanwhile; with
      nothing of value held it stands still. */
  lemma FactorInFull(before: seq<Option<Point>>, now: seq<Option<Point>>)
    requires |before| == |now|
    ensures var opening, carried := Opening(before, now, |before|), Carried(before, now, |before|);
            if opening > 0.0 then Times(Factor(before, now), opening) == carried else Factor(before, now) == 1.0
  {
    hide Times, Ratio, Total, Weighted, Opening, Carried;
    SumsInFull(before, now, |before|);
    var total, weighted := Total(before, now, |before|), Weighted(before, now, |before|);
    if total > 0.0 {
      var q := Ratio(weighted, total);
      RatioIff(weighted, total, q);
      TimesSum(total, 1.0, q);
      TimesOne(total);
    }
  }

  // ------------------------------------------------------------- one account

  ghost predicate Usable(points: seq<Point>) {
    && (forall a, b :: 0 <= a < b < |points| ==> points[a].timeMs <= points[b].timeMs)
    && forall a :: 0 <= a < |points| ==> points[a].nav > 0.0 && points[a].index > 0.0
  }

  /** The account's last point at `time`. */
  ghost predicate LastAt(points: seq<Point>, time: int, j: nat) {
    j < |points| && points[j].timeMs == time && forall a :: j < a < |points| ==> points[a].timeMs > time
  }

  lemma StandsAt(points: seq<Point>, k: nat) returns (j: nat)
    requires Usable(points) && k < |Timeline([points])|
    ensures LastAt(points, Timeline([points])[k], j) && At(points, Timeline([points])[k]) == Some(points[j])
  {
    var time := Timeline([points])[k];
    TimelineIsUnion([points]);
    assert time in Timeline([points]);
    var p :| p in points && p.timeMs == time;
    var i :| 0 <= i < |points| && points[i] == p;
    StandsAtLastPoint(points, time, i);
    j := Reached(points, time) - 1;
  }

  lemma OneFactor(p: Point, q: Point)
    requires p.nav > 0.0 && p.index > 0.0
    ensures Times(Factor([Some(p)], [Some(q)]), p.index) == q.index
  {
    hide Times, Ratio, Factor;
    var before, now := [Some(p)], [Some(q)];
    FactorInFull(before, now);
    OneSum(before, now);
    var f, x := Factor(before, now), Ratio(q.index, p.index);
    RatioIff(q.index, p.index, x);
    TimesComm(f, p.nav);
    CancelLeft(p.nav, f, x);
  }

  lemma OneSum(before: seq<Option<Point>>, now: seq<Option<Point>>)
    requires |before| == |now| == 1 && before[0].Some? && now[0].Some? && before[0].value.index > 0.0
    ensures Opening(before, now, 1) == before[0].value.nav
    ensures Carried(before, now, 1) == Times(before[0].value.nav, Ratio(now[0].value.index, before[0].value.index))
  {
    hide Times, Ratio;
    assert Opening(before, now, 0) == 0.0 && Carried(before, now, 0) == 0.0;
  }

  lemma CancelLeft(a: real, x: real, y: real)
    requires a > 0.0 && Times(a, x) == Times(a, y)
    ensures x == y
  {
    hide Times;
    TimesSum(a, x, y);
    TimesComm(a, x - y);
    TimesSign(x - y, a);
  }

  /** For one account in time order with positive navs and indexes, deposits and
      withdrawals allowed, the curve is its current index over its first. */
  lemma {:induction false} OneAccount(points: seq<Point>, k: nat) returns (first: nat, here: nat)
    requires Usable(points) && k < |Timeline([points])|
    ensures LastAt(points, Timeline([points])[0], first) && LastAt(points, Timeline([points])[k], here)
    ensures Growth([points], Timeline([points]), k) == Ratio(points[here].index, points[first].index)
  {
    hide Times, Ratio, Timeline, Factor;
    var times := Timeline([points]);
    if k == 0 {
      first := StandsAt(points, 0);
      here := first;
      TimesOne(points[first].index);
      RatioIff(points[first].index, points[first].index, 1.0);
    } else {
      var last;
      first, last := OneAccount(points, k - 1);
      here := StandsAt(points, k);
      var last' := StandsAt(points, k - 1);
      assert last == last';
      assert Now([points], times[k - 1]) == [Some(points[last])];
      assert Now([points], times[k]) == [Some(points[here])];
      OneFactor(points[last], points[here]);
      var f := Factor([Some(points[last])], [Some(points[here])]);
      Chained(points[first].index, points[last].index, points[here].index, f);
    }
  }

  lemma Chained(first: real, last: real, here: real, f: real)
    requires first > 0.0 && last > 0.0 && Times(f, last) == here
    ensures Times(Ratio(last, first), f) == Ratio(here, first)
  {
    hide Times, Ratio;
    var g := Ratio(last, first);
    RatioIff(last, first, g);
    TimesAssoc(f, g, first);
    TimesComm(f, g);
    RatioIff(here, first, Times(g, f));
  }
}

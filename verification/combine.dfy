/** Several accounts' return curves as one. Values are exact rationals; a point's
    numbers are assumed to have parsed, so "not a number" only ever means "the
    account has no point yet". */
module Combine {
  import opened Common
  import opened Rational

  datatype Point = Point(timeMs: int, nav: real, index: real)

  datatype CurvePoint = CurvePoint(timeMs: int, growth: real)

  // -------------------------------------------------------------- the timeline

  function InsertTime(t: int, times: seq<int>): seq<int> {
    if times == [] || t < times[0] then [t] + times
    else if t == times[0] then times
    else [times[0]] + InsertTime(t, times[1..])
  }

  function AddTimes(points: seq<Point>, times: seq<int>): seq<int> {
    if points == [] then times else InsertTime(points[0].timeMs, AddTimes(points[1..], times))
  }

  /** Every time at which some account has a point, ascending and once each. */
  function Timeline(accounts: seq<seq<Point>>): seq<int> {
    if accounts == [] then [] else AddTimes(accounts[0], Timeline(accounts[1..]))
  }

  ghost predicate Ascending(times: seq<int>) {
    forall i, j :: 0 <= i < j < |times| ==> times[i] < times[j]
  }

  lemma {:induction false} InsertTimeKeeps(t: int, times: seq<int>)
    requires Ascending(times)
    ensures Ascending(InsertTime(t, times))
    ensures forall x :: x in InsertTime(t, times) <==> x == t || x in times
  {
    if times != [] {
      assert times == [times[0]] + times[1..];
      if t > times[0] {
        InsertTimeKeeps(t, times[1..]);
        var rest := InsertTime(t, times[1..]);
        forall i | 0 <= i < |rest|
          ensures times[0] < rest[i]
        {
          assert rest[i] in rest;
        }
      }
    }
  }

  lemma {:induction false} AddTimesKeeps(points: seq<Point>, times: seq<int>)
    requires Ascending(times)
    ensures Ascending(AddTimes(points, times))
    ensures forall x :: x in AddTimes(points, times) <==> x in times || exists p :: p in points && p.timeMs == x
  {
    if points != [] {
      AddTimesKeeps(points[1..], times);
      InsertTimeKeeps(points[0].timeMs, AddTimes(points[1..], times));
      assert points == [points[0]] + points[1..];
      assert points[0] in points;
    }
  }

  lemma {:induction false} TimelineIsUnion(accounts: seq<seq<Point>>)
    ensures Ascending(Timeline(accounts))
    ensures forall x :: x in Timeline(accounts) <==> exists a, p :: a in accounts && p in a && p.timeMs == x
  {
    if accounts != [] {
      TimelineIsUnion(accounts[1..]);
      AddTimesKeeps(accounts[0], Timeline(accounts[1..]));
      assert accounts == [accounts[0]] + accounts[1..];
      assert accounts[0] in accounts;
    }
  }

  // ------------------------------------------------------- what counts, and how

  /** The length of the longest prefix of points that are not after `time`. */
  function Reached(points: seq<Point>, time: int): (n: nat)
    ensures n <= |points|
    ensures forall j :: 0 <= j < n ==> points[j].timeMs <= time
    ensures n < |points| ==> points[n].timeMs > time
  {
    if points == [] || points[0].timeMs > time then 0 else 1 + Reached(points[1..], time)
  }

  /** The point an account stands at. */
  function At(points: seq<Point>, time: int): Option<Point> {
    var n := Reached(points, time);
    if n == 0 then None else Some(points[n - 1])
  }

  function Now(accounts: seq<seq<Point>>, time: int): (r: seq<Option<Point>>)
    ensures |r| == |accounts|
  {
    seq(|accounts|, i requires 0 <= i < |accounts| => At(accounts[i], time))
  }

  /** An account counts over an interval when it has a usable point at both ends. */
  predicate Counts(before: Option<Point>, now: Option<Point>) {
    before.Some? && now.Some? && before.value.index != 0.0
  }

  /** One account's return over an interval. */
  function Gain(before: Option<Point>, now: Option<Point>): real
    requires Counts(before, now)
  {
    Ratio(now.value.index, before.value.index) - 1.0
  }

  /** The opening value of the first `n` accounts that count. */
  function Total(before: seq<Option<Point>>, now: seq<Option<Point>>, n: nat): real
    requires n <= |before| == |now|
  {
    if n == 0 then 0.0
    else Total(before, now, n - 1) + if Counts(before[n - 1], now[n - 1]) then before[n - 1].value.nav else 0.0
  }

  /** Their returns weighted by opening value. */
  function Weighted(before: seq<Option<Point>>, now: seq<Option<Point>>, n: nat): real
    requires n <= |before| == |now|
  {
    if n == 0 then 0.0
    else
      var last := if Counts(before[n - 1], now[n - 1])
                  then Times(before[n - 1].value.nav, Gain(before[n - 1], now[n - 1])) else 0.0;
      Weighted(before, now, n - 1) + last
  }

  /** The factor one interval contributes. */
  function Factor(before: seq<Option<Point>>, now: seq<Option<Point>>): real
    requires |before| == |now|
  {
    var total := Total(before, now, |before|);
    if total > 0.0 then 1.0 + Ratio(Weighted(before, now, |before|), total) else 1.0
  }

  function Growth(accounts: seq<seq<Point>>, times: seq<int>, k: nat): real
    requires k < |times|
  {
    if k == 0 then 1.0
    else Times(Growth(accounts, times, k - 1), Factor(Now(accounts, times[k - 1]), Now(accounts, times[k])))
  }

  lemma NextGrowth(before: seq<Option<Point>>, now: seq<Option<Point>>, growth: real)
    requires |before| == |now|
    ensures Times(growth, Factor(before, now))
         == if Total(before, now, |before|) > 0.0
            then Times(growth, 1.0 + Ratio(Weighted(before, now, |before|), Total(before, now, |before|)))
            else growth
  {
    hide Times;
    TimesOne(growth);
  }

  lemma ReachedGrows(points: seq<Point>, earlier: int, later: int)
    requires earlier <= later
    ensures Reached(points, earlier) <= Reached(points, later)
  {
  }

  /** Where the cursors sit after the time `last`, or before any time at all. */
  ghost predicate CursorsAt(accounts: seq<seq<Point>>, cursors: seq<int>, last: Option<int>) {
    && |cursors| == |accounts|
    && forall i :: 0 <= i < |accounts| ==>
         cursors[i] + 1 == if last.Some? then Reached(accounts[i], last.value) else 0
  }

  /** Moves a cursor to the last point of the leading run that is not after `time`. */
  method Advance(a: seq<Point>, start: int, time: int) returns (cursor: int)
    requires 0 <= start + 1 <= Reached(a, time)
    ensures cursor + 1 == Reached(a, time)
  {
    cursor := start;
    while cursor + 1 < |a| && a[cursor + 1].timeMs <= time
      invariant 0 <= cursor + 1 <= Reached(a, time)
      decreases |a| - cursor
    {
      cursor := cursor + 1;
    }
  }

  method Accumulate(before: seq<Option<Point>>, now: seq<Option<Point>>) returns (weighted: real, total: real)
    requires |before| == |now|
    ensures weighted == Weighted(before, now, |before|) && total == Total(before, now, |before|)
  {
    hide Times, Ratio;
    weighted, total := 0.0, 0.0;
    for i := 0 to |now|
      invariant weighted == Weighted(before, now, i) && total == Total(before, now, i)
    {
      if before[i].None? || now[i].None? || before[i].value.index == 0.0 {
        continue;
      }
      weighted := weighted + Times(before[i].value.nav, Ratio(now[i].value.index, before[i].value.index) - 1.0);
      total := total + before[i].value.nav;
    }
  }

  /** Moves every cursor up to `time` and reads where each account then stands. */
  method Sample(accounts: seq<seq<Point>>, cursors: array<int>, time: int, ghost last: Option<int>)
    returns (now: seq<Option<Point>>)
    requires CursorsAt(accounts, cursors[..], last) && (last.Some? ==> last.value <= time)
    modifies cursors
    ensures now == Now(accounts, time) && CursorsAt(accounts, cursors[..], Some(time))
  {
    hide Reached;
    now := [];
    for i := 0 to |accounts|
      invariant |now| == i
      invariant forall j :: 0 <= j < i ==>
                  now[j] == At(accounts[j], time) && cursors[j] + 1 == Reached(accounts[j], time)
      invariant forall j :: i <= j < |accounts| ==> cursors[j] == old(cursors[j])
    {
      assert old(cursors[..])[i] == cursors[i];
      if last.Some? {
        ReachedGrows(accounts[i], last.value, time);
      }
      cursors[i] := Advance(accounts[i], cursors[i], time);
      now := now + [if cursors[i] >= 0 then Some(accounts[i][cursors[i]]) else None];
    }
  }

  /** The curve over the first `k` times. */
  ghost predicate CurveSoFar(accounts: seq<seq<Point>>, times: seq<int>, curve: seq<CurvePoint>, k: nat) {
    && k <= |times| && |curve| == k
    && forall j :: 0 <= j < k ==> curve[j] == CurvePoint(times[j], Growth(accounts, times, j))
  }

  method CombineReturns(accounts: seq<seq<Point>>) returns (curve: seq<CurvePoint>)
    ensures CurveSoFar(accounts, Timeline(accounts), curve, |Timeline(accounts)|)
  {
    hide Times, Ratio, Factor, Timeline, Reached, Now, CursorsAt, CurveSoFar, Ascending, Growth, Weighted, Total;
    var times := Timeline(accounts);
    TimelineAscends(accounts);
    var cursors := new int[|accounts|](_ => -1);
    NoneReached(accounts, cursors[..]);
    curve := [];
    EmptyCurve(accounts, times);
    var growth := 1.0;
    var previous: Option<seq<Option<Point>>> := None;
    ghost var last: Option<int> := None;
    for k := 0 to |times|
      invariant CurveSoFar(accounts, times, curve, k)
      invariant CursorsAt(accounts, cursors[..], last)
      invariant last == (if k == 0 then None else Some(times[k - 1]))
      invariant previous == if k == 0 then None else Some(Now(accounts, times[k - 1]))
      invariant growth == if k == 0 then 1.0 else Growth(accounts, times, k - 1)
    {
      var time := times[k];
      if k > 0 {
        StepsUp(times, k);
      }
      var now := Sample(accounts, cursors, time, last);
      if previous.Some? {
        var weighted, total := Accumulate(previous.value, now);
        NextGrowth(previous.value, now, growth);
        if total > 0.0 {
          growth := Times(growth, 1.0 + Ratio(weighted, total));
        }
      }
      GrowthStep(accounts, times, k);
      CurveGrows(accounts, times, curve, k);
      curve := curve + [CurvePoint(time, growth)];
      previous, last := Some(now), Some(time);
    }
  }

  lemma EmptyCurve(accounts: seq<seq<Point>>, times: seq<int>)
    ensures CurveSoFar(accounts, times, [], 0)
  {
  }

  lemma GrowthStep(accounts: seq<seq<Point>>, times: seq<int>, k: nat)
    requires k < |times|
    ensures Growth(accounts, times, k) == if k == 0 then 1.0 else
      Times(Growth(accounts, times, k - 1), Factor(Now(accounts, times[k - 1]), Now(accounts, times[k])))
  {
    hide Times, Factor, Now;
  }

  lemma CurveGrows(accounts: seq<seq<Point>>, times: seq<int>, curve: seq<CurvePoint>, k: nat)
    requires CurveSoFar(accounts, times, curve, k) && k < |times|
    ensures CurveSoFar(accounts, times, curve + [CurvePoint(times[k], Growth(accounts, times, k))], k + 1)
  {
    hide Growth;
  }

  lemma StepsUp(times: seq<int>, k: nat)
    requires Ascending(times) && 0 < k < |times|
    ensures times[k - 1] < times[k]
  {
  }

  lemma NoneReached(accounts: seq<seq<Point>>, cursors: seq<int>)
    requires |cursors| == |accounts| && forall i :: 0 <= i < |cursors| ==> cursors[i] == -1
    ensures CursorsAt(accounts, cursors, None)
  {
  }

  lemma TimelineAscends(accounts: seq<seq<Point>>)
    ensures Ascending(Timeline(accounts))
  {
    TimelineIsUnion(accounts);
  }

  // ------------------------------------------------------------ what it means

  /** The opening value held by the first `n` accounts at a moment. */
  function Held(now: seq<Option<Point>>, n: nat): real
    requires n <= |now|
  {
    if n == 0 then 0.0 else Held(now, n - 1) + if now[n - 1].Some? then now[n - 1].value.nav else 0.0
  }

  /** No flows: every account's value is its own positive multiple of a positive
      index, and all accounts start at the same, earliest time. */
  ghost predicate SharedStart(accounts: seq<seq<Point>>, start: int, shares: seq<real>) {
    && |shares| == |accounts| > 0
    && (forall i :: 0 <= i < |accounts| ==> shares[i] > 0.0 && accounts[i] != [] && accounts[i][0].timeMs == start)
    && (forall i, j :: 0 <= i < |accounts| && 0 <= j < |accounts[i]| ==>
          && accounts[i][j].timeMs >= start
          && accounts[i][j].index > 0.0
          && accounts[i][j].nav == Times(shares[i], accounts[i][j].index))
  }

  lemma ShareStep(share: real, before: Point, now: Point)
    requires share > 0.0 && before.index > 0.0 && now.index > 0.0
    requires before.nav == Times(share, before.index) && now.nav == Times(share, now.index)
    ensures before.nav > 0.0
    ensures Times(before.nav, Gain(Some(before), Some(now))) == now.nav - before.nav
  {
    hide Times, Ratio;
    var q := Ratio(now.index, before.index);
    TimesSign(share, before.index);
    RatioIff(now.index, before.index, q);
    TimesSum(before.nav, q, 1.0);
    TimesOne(before.nav);
    TimesComm(q, before.index);
    TimesAssoc(share, before.index, q);
  }

  /** Everyone is present and holds a multiple of a positive index. */
  ghost predicate AllHold(now: seq<Option<Point>>, shares: seq<real>) {
    && |now| == |shares|
    && forall i :: 0 <= i < |now| ==>
         && now[i].Some? && now[i].value.index > 0.0 && shares[i] > 0.0
         && now[i].value.nav == Times(shares[i], now[i].value.index)
  }

  lemma {:induction false} SumsUnderShares(before: seq<Option<Point>>, now: seq<Option<Point>>,
                                           shares: seq<real>, n: nat)
    requires AllHold(before, shares) && AllHold(now, shares) && n <= |shares|
    ensures Total(before, now, n) == Held(before, n)
    ensures Weighted(before, now, n) == Held(now, n) - Held(before, n)
    ensures n > 0 ==> Held(before, n) > 0.0
    ensures Held(before, n) >= 0.0
  {
    hide Times, Gain;
    if n > 0 {
      SumsUnderShares(before, now, shares, n - 1);
      ShareStep(shares[n - 1], before[n - 1].value, now[n - 1].value);
    }
  }

  lemma FactorUnderShares(before: seq<Option<Point>>, now: seq<Option<Point>>, shares: seq<real>)
    requires AllHold(before, shares) && AllHold(now, shares) && |shares| > 0
    ensures Held(before, |before|) > 0.0
    ensures Factor(before, now) == Ratio(Held(now, |now|), Held(before, |before|))
  {
    hide Times, Ratio;
    SumsUnderShares(before, now, shares, |shares|);
    var x, y := Held(now, |now|), Held(before, |before|);
    RatioIff(x - y, y, Ratio(x - y, y));
    TimesSum(y, 1.0, Ratio(x - y, y));
    TimesOne(y);
    RatioIff(x, y, 1.0 + Ratio(x - y, y));
  }

  lemma PresentFromStart(accounts: seq<seq<Point>>, start: int, shares: seq<real>, time: int)
    requires SharedStart(accounts, start, shares) && time >= start
    ensures AllHold(Now(accounts, time), shares)
  {
    hide Times;
    forall i | 0 <= i < |accounts|
      ensures Now(accounts, time)[i].Some? && Now(accounts, time)[i].value in accounts[i]
    {
      assert Reached(accounts[i], time) > 0;
    }
  }

  lemma TimelineStart(accounts: seq<seq<Point>>, start: int, shares: seq<real>)
    requires SharedStart(accounts, start, shares)
    ensures Timeline(accounts) != [] && Timeline(accounts)[0] == start
    ensures forall k :: 0 <= k < |Timeline(accounts)| ==> Timeline(accounts)[k] >= start
  {
    hide Times;
    var times := Timeline(accounts);
    TimelineIsUnion(accounts);
    assert accounts[0] in accounts && accounts[0][0] in accounts[0];
    assert start in times;
    forall k | 0 <= k < |times|
      ensures times[k] >= start
    {
      assert times[k] in times;
    }
  }

  /** With a shared start and no flows, the combined curve is at every time the
      ratio of the total value to the starting total value. */
  lemma {:induction false} CurveIsTotalValue(accounts: seq<seq<Point>>, start: int, shares: seq<real>, k: nat)
    requires SharedStart(accounts, start, shares) && k < |Timeline(accounts)|
    ensures Held(Now(accounts, start), |accounts|) > 0.0
    ensures Growth(accounts, Timeline(accounts), k)
         == Ratio(Held(Now(accounts, Timeline(accounts)[k]), |accounts|), Held(Now(accounts, start), |accounts|))
  {
    hide Times, Ratio, Factor, Timeline, SharedStart, AllHold, Held, Now;
    var times := Timeline(accounts);
    TimelineStart(accounts, start, shares);
    PresentFromStart(accounts, start, shares, times[k]);
    PresentFromStart(accounts, start, shares, start);
    SharesGiven(accounts, start, shares);
    FactorUnderShares(Now(accounts, start), Now(accounts, start), shares);
    var opening, held := Held(Now(accounts, start), |accounts|), Held(Now(accounts, times[k]), |accounts|);
    if k == 0 {
      TimesOne(opening);
      RatioIff(opening, opening, 1.0);
    } else {
      CurveIsTotalValue(accounts, start, shares, k - 1);
      PresentFromStart(accounts, start, shares, times[k - 1]);
      FactorUnderShares(Now(accounts, times[k - 1]), Now(accounts, times[k]), shares);
      Telescopes(Held(Now(accounts, times[k - 1]), |accounts|), opening, held);
    }
  }

  lemma SharesGiven(accounts: seq<seq<Point>>, start: int, shares: seq<real>)
    requires SharedStart(accounts, start, shares)
    ensures |shares| == |accounts| > 0
  {
  }

  lemma Telescopes(middle: real, opening: real, held: real)
    requires middle > 0.0 && opening > 0.0
    ensures Times(Ratio(middle, opening), Ratio(held, middle)) == Ratio(held, opening)
  {
    hide Times, Ratio;
    var x, y := Ratio(middle, opening), Ratio(held, middle);
    RatioIff(middle, opening, x);
    RatioIff(held, middle, y);
    TimesAssoc(y, x, opening);
    TimesComm(x, y);
    RatioIff(held, opening, Times(x, y));
  }

  // ---------------------------------------------------------------- in between

  /** Every account that counts over the interval returned between `lo` and `hi`. */
  ghost predicate GainsWithin(before: seq<Option<Point>>, now: seq<Option<Point>>, lo: real, hi: real)
    requires |before| == |now|
  {
    forall i :: 0 <= i < |before| && Counts(before[i], now[i]) ==>
      before[i].value.nav >= 0.0 && lo <= 1.0 + Gain(before[i], now[i]) <= hi
  }

  lemma TimesMonotone(w: real, x: real, y: real)
    requires w >= 0.0 && x <= y
    ensures Times(w, x) <= Times(w, y)
  {
    hide Times;
    TimesSum(w, y, x);
    if w > 0.0 {
      TimesComm(w, y - x);
      TimesSign(y - x, w);
    } else {
      TimesZero(y - x);
    }
  }

  lemma TimesZero(x: real)
    ensures Times(0.0, x) == 0.0
  {
  }

  lemma {:induction false} WeightedWithin(before: seq<Option<Point>>, now: seq<Option<Point>>,
                                          lo: real, hi: real, n: nat)
    requires |before| == |now| && n <= |before| && GainsWithin(before, now, lo, hi)
    ensures Times(Total(before, now, n), lo - 1.0) <= Weighted(before, now, n) <= Times(Total(before, now, n), hi - 1.0)
    ensures Total(before, now, n) >= 0.0
  {
    hide Times, Gain;
    if n == 0 {
      TimesZero(lo - 1.0);
      TimesZero(hi - 1.0);
    } else {
      WeightedWithin(before, now, lo, hi, n - 1);
      if Counts(before[n - 1], now[n - 1]) {
        var w, g := before[n - 1].value.nav, Gain(before[n - 1], now[n - 1]);
        TimesMonotone(w, lo - 1.0, g);
        TimesMonotone(w, g, hi - 1.0);
        TimesSum(lo - 1.0, Total(before, now, n - 1), w);
        TimesSum(hi - 1.0, Total(before, now, n - 1), w);
      }
    }
  }

  /** A step factor lies between the smallest and the largest factor of the accounts
      counted; when nothing of value counts, the curve stands still. */
  lemma FactorWithin(before: seq<Option<Point>>, now: seq<Option<Point>>, lo: real, hi: real)
    requires |before| == |now| && GainsWithin(before, now, lo, hi)
    ensures Total(before, now, |before|) > 0.0 ==> lo <= Factor(before, now) <= hi
    ensures Total(before, now, |before|) <= 0.0 ==> Factor(before, now) == 1.0
  {
    hide Times, Ratio, Gain, Total, Weighted;
    var total, weighted := Total(before, now, |before|), Weighted(before, now, |before|);
    WeightedWithin(before, now, lo, hi, |before|);
    if total > 0.0 {
      var q := Ratio(weighted, total);
      RatioIff(weighted, total, q);
      TimesComm(q, total);
      TimesSum(total, q, lo - 1.0);
      TimesSum(total, hi - 1.0, q);
      TimesComm(total, q - (lo - 1.0));
      TimesComm(total, hi - 1.0 - q);
      TimesSign(q - (lo - 1.0), total);
      TimesSign(hi - 1.0 - q, total);
    }
  }

  /** For points in time order, an account stands at its last point not after the
      current time. */
  lemma StandsAtLastPoint(points: seq<Point>, time: int, j: nat)
    requires forall a, b :: 0 <= a < b < |points| ==> points[a].timeMs <= points[b].timeMs
    requires j < |points|
    ensures points[j].timeMs <= time <==> j < Reached(points, time)
  {
  }
}

/** Win rate over FIFO-matched round trips. Quantities and prices are decimals at
    a fixed scale, so they are whole numbers of their smallest step. */
module WinRate {
  import opened Common

  datatype Fill = Fill(timeMs: nat, qty: int, price: int, isBuy: bool)

  datatype Lot = Lot(qty: int, price: int)

  datatype WinRateError = NoClosedRoundTrips

  datatype WinRateResult = WinRateResult(closedRoundTrips: nat, wins: nat, winRate: real)

  // --------------------------------------------------- chronological order

  /** Before every fill that is not earlier, so equal times keep their order. */
  function InsertByTime(f: Fill, sorted: seq<Fill>): seq<Fill> {
    if sorted == [] || f.timeMs <= sorted[0].timeMs then [f] + sorted
    else [sorted[0]] + InsertByTime(f, sorted[1..])
  }

  /** The stable sort by time. */
  function Chronological(fills: seq<Fill>): seq<Fill> {
    if fills == [] then [] else InsertByTime(fills[0], Chronological(fills[1..]))
  }

  function AtTime(fills: seq<Fill>, time: nat): seq<Fill> {
    if fills == [] then []
    else (if fills[0].timeMs == time then [fills[0]] else []) + AtTime(fills[1..], time)
  }

  ghost predicate TimesAscend(fills: seq<Fill>) {
    forall i, j :: 0 <= i < j < |fills| ==> fills[i].timeMs <= fills[j].timeMs
  }

  lemma {:induction false} InsertByTimePermutes(f: Fill, sorted: seq<Fill>)
    ensures multiset(InsertByTime(f, sorted)) == multiset(sorted) + multiset{f}
  {
    if sorted != [] {
      InsertByTimePermutes(f, sorted[1..]);
      assert sorted == [sorted[0]] + sorted[1..];
    }
  }

  lemma AscendCons(head: Fill, rest: seq<Fill>)
    requires TimesAscend(rest) && forall x :: x in multiset(rest) ==> head.timeMs <= x.timeMs
    ensures TimesAscend([head] + rest)
  {
    forall i | 0 <= i < |rest|
      ensures head.timeMs <= rest[i].timeMs
    {
      assert rest[i] in multiset(rest);
    }
  }

  lemma AscendTail(sorted: seq<Fill>)
    requires sorted != [] && TimesAscend(sorted)
    ensures TimesAscend(sorted[1..])
    ensures forall x :: x in multiset(sorted) ==> sorted[0].timeMs <= x.timeMs
    ensures forall x :: x in multiset(sorted[1..]) ==> sorted[0].timeMs <= x.timeMs
  {
  }

  lemma {:induction false} InsertByTimeSorts(f: Fill, sorted: seq<Fill>)
    requires TimesAscend(sorted)
    ensures TimesAscend(InsertByTime(f, sorted))
  {
    hide TimesAscend;
    if sorted == [] {
      AscendCons(f, sorted);
    } else {
      AscendTail(sorted);
      if f.timeMs <= sorted[0].timeMs {
        AscendCons(f, sorted);
      } else {
        InsertByTimeSorts(f, sorted[1..]);
        InsertByTimePermutes(f, sorted[1..]);
        AscendCons(sorted[0], InsertByTime(f, sorted[1..]));
      }
    }
  }

  lemma AtTimeCons(f: Fill, rest: seq<Fill>, time: nat)
    ensures AtTime([f] + rest, time) == (if f.timeMs == time then [f] else []) + AtTime(rest, time)
  {
    assert ([f] + rest)[1..] == rest;
  }

  lemma {:induction false} InsertByTimeIsStable(f: Fill, sorted: seq<Fill>, time: nat)
    ensures AtTime(InsertByTime(f, sorted), time) == AtTime([f] + sorted, time)
  {
    if sorted != [] && f.timeMs > sorted[0].timeMs {
      var head, tail := sorted[0], sorted[1..];
      InsertByTimeIsStable(f, tail, time);
      AtTimeCons(head, InsertByTime(f, tail), time);
      AtTimeCons(f, tail, time);
      AtTimeCons(f, sorted, time);
    }
  }

  /** Matching runs over the same fills, earliest first, ties in input order. */
  lemma {:induction false} ChronologicalIsStable(fills: seq<Fill>, time: nat)
    ensures TimesAscend(Chronological(fills))
    ensures multiset(Chronological(fills)) == multiset(fills)
    ensures AtTime(Chronological(fills), time) == AtTime(fills, time)
  {
    if fills != [] {
      var sorted := Chronological(fills[1..]);
      ChronologicalIsStable(fills[1..], time);
      InsertByTimeSorts(fills[0], sorted);
      InsertByTimePermutes(fills[0], sorted);
      InsertByTimeIsStable(fills[0], sorted, time);
      AtTimeCons(fills[0], sorted, time);
      assert fills == [fills[0]] + fills[1..];
    }
  }

  lemma ChronologicalLength(fills: seq<Fill>)
    ensures |Chronological(fills)| == |fills|
  {
    ChronologicalIsStable(fills, 0);
    assert |multiset(Chronological(fills))| == |multiset(fills)|;
  }

  // ------------------------------------------------------ matching by lots

  datatype Tally = Tally(lots: seq<Lot>, closed: nat, wins: nat)

  function Profit(price: int, lotPrice: int, matched: int): int { (price - lotPrice) * matched }

  /** What a sell of `remaining` at `price` does to the lots and the counts. */
  function Sell(t: Tally, remaining: int, price: int): Tally
    decreases |t.lots| + (if remaining > 0 then 1 else 0)
  {
    if remaining <= 0 || t.lots == [] then t
    else
      var lot := t.lots[0];
      var matched := if remaining <= lot.qty then remaining else lot.qty;
      var won := if Profit(price, lot.price, matched) > 0 then 1 else 0;
      var lots := if lot.qty == matched then t.lots[1..] else t.lots[0 := lot.(qty := lot.qty - matched)];
      Sell(Tally(lots, t.closed + 1, t.wins + won), remaining - matched, price)
  }

  function Step(t: Tally, f: Fill): Tally {
    if f.isBuy then t.(lots := t.lots + [Lot(f.qty, f.price)]) else Sell(t, f.qty, f.price)
  }

  function Play(t: Tally, fills: seq<Fill>): Tally
    decreases |fills|
  {
    if fills == [] then t else Play(Step(t, fills[0]), fills[1..])
  }

  /** The tally of a whole history. */
  function TallyOf(fills: seq<Fill>): Tally { Play(Tally([], 0, 0), Chronological(fills)) }

  method ComputeWinRate(fills: seq<Fill>) returns (r: Result<WinRateResult, WinRateError>)
    ensures TallyOf(fills).closed == 0 <==> r == Err(NoClosedRoundTrips)
    ensures r.Ok? ==>
              && r.value.closedRoundTrips == TallyOf(fills).closed
              && r.value.wins == TallyOf(fills).wins
              && r.value.wins <= r.value.closedRoundTrips <= |fills|
              && r.value.winRate == r.value.wins as real / r.value.closedRoundTrips as real
  {
    hide Chronological, Profit;
    var openLots: seq<Lot> := [];
    var wins, closed := 0, 0;
    var ordered := Chronological(fills);
    ChronologicalLength(fills);
    for i := 0 to |ordered|
      invariant wins <= closed && closed + |openLots| <= i
      invariant Play(Tally(openLots, closed, wins), ordered[i..]) == TallyOf(fills)
    {
      var fill := ordered[i];
      ghost var before := Tally(openLots, closed, wins);
      assert ordered[i..][1..] == ordered[i + 1..];
      if fill.isBuy {
        openLots := openLots + [Lot(fill.qty, fill.price)];
        continue;
      }
      var remaining := fill.qty;
      while remaining > 0
        invariant wins <= closed
        invariant closed + |openLots| <= i + (if remaining <= 0 then 1 else 0)
        invariant Sell(Tally(openLots, closed, wins), remaining, fill.price) == Step(before, fill)
        decreases |openLots| + (if remaining > 0 then 1 else 0)
      {
        if |openLots| == 0 {
          break;
        }
        var lot := openLots[0];
        var matched := if remaining <= lot.qty then remaining else lot.qty;
        var pnl := Profit(fill.price, lot.price, matched);
        closed := closed + 1;
        if pnl > 0 {
          wins := wins + 1;
        }
        remaining := remaining - matched;
        var remainingLot := lot.qty - matched;
        if remainingLot == 0 {
          openLots := openLots[1..];
        } else {
          openLots := openLots[0 := Lot(remainingLot, lot.price)];
        }
      }
    }
    if closed == 0 {
      return Err(NoClosedRoundTrips);
    }
    r := Ok(WinRateResult(closed, wins, wins as real / closed as real));
  }
}

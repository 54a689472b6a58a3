/** Reconstructing a quantity at a common cut, and valuing a portfolio there.
    Decimals are exact rationals. */
module Reconstruct {
  import opened Common
  import opened Rearranging

  datatype BalanceSnapshot = BalanceSnapshot(free: real, locked: real, observedAtMs: nat) {
    function Total(): real { free + locked }
  }

  datatype TimedDelta = TimedDelta(timeMs: nat, delta: real)

  datatype ReconstructError = AmbiguousOrdering(eventTimeMs: nat, snapshotTimeMs: nat)

  /** The deltas strictly after `lo`, up to and including `hi`. */
  function DeltasIn(events: seq<TimedDelta>, lo: nat, hi: nat): real {
    if events == [] then 0.0
    else (if lo < events[0].timeMs <= hi then events[0].delta else 0.0) + DeltasIn(events[1..], lo, hi)
  }

  ghost predicate Ambiguous(s: BalanceSnapshot, events: seq<TimedDelta>) {
    exists i :: 0 <= i < |events| && events[i].timeMs == s.observedAtMs
  }

  /** The quantity at a cut on either side of the snapshot. */
  function Quantity(s: BalanceSnapshot, events: seq<TimedDelta>, cut: nat): real {
    if cut >= s.observedAtMs then s.Total() + DeltasIn(events, s.observedAtMs, cut)
    else s.Total() - DeltasIn(events, cut, s.observedAtMs)
  }

  method ReconstructQuantity(s: BalanceSnapshot, events: seq<TimedDelta>, cut: nat)
    returns (r: Result<real, ReconstructError>)
    ensures Ambiguous(s, events) ==> r == Err(AmbiguousOrdering(s.observedAtMs, s.observedAtMs))
    ensures !Ambiguous(s, events) ==> r == Ok(Quantity(s, events, cut))
  {
    for i := 0 to |events|
      invariant forall k :: 0 <= k < i ==> events[k].timeMs != s.observedAtMs
    {
      if events[i].timeMs == s.observedAtMs {
        return Err(AmbiguousOrdering(events[i].timeMs, s.observedAtMs));
      }
    }
    var quantity := s.Total();
    if cut >= s.observedAtMs {
      for i := 0 to |events|
        invariant quantity + DeltasIn(events[i..], s.observedAtMs, cut) == Quantity(s, events, cut)
      {
        assert events[i..][1..] == events[i + 1..];
        if s.observedAtMs < events[i].timeMs <= cut {
          quantity := quantity + events[i].delta;
        }
      }
    } else {
      for i := 0 to |events|
        invariant quantity - DeltasIn(events[i..], cut, s.observedAtMs) == Quantity(s, events, cut)
      {
        assert events[i..][1..] == events[i + 1..];
        if cut < events[i].timeMs <= s.observedAtMs {
          quantity := quantity - events[i].delta;
        }
      }
    }
    r := Ok(quantity);
  }

  /** At the snapshot's own time the quantity is what was free and what was locked. */
  lemma {:induction false} AtSnapshot(s: BalanceSnapshot, events: seq<TimedDelta>)
    ensures Quantity(s, events, s.observedAtMs) == s.free + s.locked
  {
    NoDeltas(events, s.observedAtMs);
  }

  /** One more event counts after its own time and not before: it adds its delta at cuts
      from its time on when it is later than the snapshot, and takes it off at cuts
      before its time when it is not. */
  lemma OneMoreEvent(s: BalanceSnapshot, e: TimedDelta, events: seq<TimedDelta>, cut: nat)
    ensures Quantity(s, [e] + events, cut) == Quantity(s, events, cut) +
      if s.observedAtMs < e.timeMs && e.timeMs <= cut then e.delta
      else if e.timeMs <= s.observedAtMs && cut < e.timeMs then -e.delta
      else 0.0
  {
    assert ([e] + events)[1..] == events;
  }

  lemma {:induction false} DeltasSplit(events: seq<TimedDelta>, lo: nat, mid: nat, hi: nat)
    requires lo <= mid <= hi
    ensures DeltasIn(events, lo, hi) == DeltasIn(events, lo, mid) + DeltasIn(events, mid, hi)
  {
    if events != [] {
      DeltasSplit(events[1..], lo, mid, hi);
    }
  }

  lemma {:induction false} NoDeltas(events: seq<TimedDelta>, at: nat)
    ensures DeltasIn(events, at, at) == 0.0
  {
    if events != [] {
      NoDeltas(events[1..], at);
    }
  }

  /** Reconstruction is path-independent: between any two cuts the quantity moves by
      exactly the deltas between them, wherever the snapshot lies. */
  lemma MovesByDeltas(s: BalanceSnapshot, events: seq<TimedDelta>, a: nat, b: nat)
    requires a <= b
    ensures Quantity(s, events, b) - Quantity(s, events, a) == DeltasIn(events, a, b)
  {
    var t := s.observedAtMs;
    if t <= a {
      DeltasSplit(events, t, a, b);
    } else if t <= b {
      DeltasSplit(events, a, t, b);
    } else {
      DeltasSplit(events, a, b, t);
    }
  }

  /** Two snapshots agree at one cut exactly when they agree at every other, and
      exactly when one reconstructs the other. */
  lemma SnapshotsAgreeIff(s: BalanceSnapshot, s': BalanceSnapshot, events: seq<TimedDelta>, a: nat, b: nat)
    ensures Quantity(s, events, a) == Quantity(s', events, a) <==> Quantity(s, events, b) == Quantity(s', events, b)
    ensures Quantity(s, events, a) == Quantity(s', events, a) <==> Quantity(s, events, s'.observedAtMs) == s'.Total()
  {
    var t := s'.observedAtMs;
    Moves(s, s', events, a, b);
    Moves(s, s', events, a, t);
    NoDeltas(events, t);
  }

  lemma Moves(s: BalanceSnapshot, s': BalanceSnapshot, events: seq<TimedDelta>, a: nat, b: nat)
    ensures Quantity(s, events, a) - Quantity(s', events, a) == Quantity(s, events, b) - Quantity(s', events, b)
  {
    var lo, hi := if a <= b then a else b, if a <= b then b else a;
    MovesByDeltas(s, events, lo, hi);
    MovesByDeltas(s', events, lo, hi);
  }

  lemma {:induction false} DeltasConcat(a: seq<TimedDelta>, b: seq<TimedDelta>, lo: nat, hi: nat)
    ensures DeltasIn(a + b, lo, hi) == DeltasIn(a, lo, hi) + DeltasIn(b, lo, hi)
  {
    if a == [] {
      assert a + b == b;
    } else {
      assert (a + b)[1..] == a[1..] + b;
      DeltasConcat(a[1..], b, lo, hi);
    }
  }

  lemma {:induction false} DeltasReordered(a: seq<TimedDelta>, b: seq<TimedDelta>, lo: nat, hi: nat)
    requires multiset(a) == multiset(b)
    ensures DeltasIn(a, lo, hi) == DeltasIn(b, lo, hi)
    decreases |a|
  {
    if a == [] {
      assert |multiset(b)| == 0;
    } else {
      HeadOut(a);
      var i := PlaceOf(b, a[0]);
      WithoutOne(b, i);
      DeltasReordered(a[1..], b[..i] + b[i + 1..], lo, hi);
      DeltasConcat(b[..i], b[i + 1..], lo, hi);
      DeltasConcat(b[..i] + [b[i]], b[i + 1..], lo, hi);
      DeltasConcat(b[..i], [b[i]], lo, hi);
      assert [b[i]][1..] == [];
    }
  }

  /** The order of the events cannot be seen, in the quantity or in the refusal. */
  lemma OrderIsInvisible(s: BalanceSnapshot, a: seq<TimedDelta>, b: seq<TimedDelta>, cut: nat)
    requires multiset(a) == multiset(b)
    ensures Quantity(s, a, cut) == Quantity(s, b, cut)
    ensures Ambiguous(s, a) <==> Ambiguous(s, b)
  {
    DeltasReordered(a, b, s.observedAtMs, cut);
    DeltasReordered(a, b, cut, s.observedAtMs);
    if i :| 0 <= i < |a| && a[i].timeMs == s.observedAtMs {
      assert a[i] in multiset(b);
      var j := PlaceOf(b, a[i]);
    }
    if i :| 0 <= i < |b| && b[i].timeMs == s.observedAtMs {
      assert b[i] in multiset(a);
      var j := PlaceOf(a, b[i]);
    }
  }
}

module PortfolioValue {
  import opened Common
  import opened Rational
  import opened Reconstruct

  datatype AssetInput = AssetInput(asset: string, snapshot: BalanceSnapshot, events: seq<TimedDelta>)

  datatype AssetValuation = AssetValuation(asset: string, quantity: real, price: real, value: real)

  datatype Valuation = Valuation(cutMs: nat, assets: seq<AssetValuation>, nav: real)

  datatype ValuationError =
    | AssetAmbiguous(asset: string, source: ReconstructError)
    | UnsupportedAsset(asset: string)

  /** An asset can be valued when its reconstruction is unambiguous and it has a price. */
  ghost predicate Usable(input: AssetInput, prices: map<string, real>) {
    !Ambiguous(input.snapshot, input.events) && input.asset in prices
  }

  ghost predicate AllUsable(inputs: seq<AssetInput>, prices: map<string, real>) {
    forall i :: 0 <= i < |inputs| ==> Usable(inputs[i], prices)
  }

  /** The value of every asset at the cut. */
  function Nav(inputs: seq<AssetInput>, prices: map<string, real>, cut: nat): real
    requires forall i :: 0 <= i < |inputs| ==> inputs[i].asset in prices
  {
    if inputs == [] then 0.0
    else
      var last := inputs[|inputs| - 1];
      Nav(inputs[..|inputs| - 1], prices, cut) + Times(Quantity(last.snapshot, last.events, cut), prices[last.asset])
  }

  function Valued(input: AssetInput, prices: map<string, real>, cut: nat): AssetValuation
    requires input.asset in prices
  {
    var q := Quantity(input.snapshot, input.events, cut);
    AssetValuation(input.asset, q, prices[input.asset], Times(q, prices[input.asset]))
  }

  function SumOfValues(assets: seq<AssetValuation>): real {
    if assets == [] then 0.0 else SumOfValues(assets[..|assets| - 1]) + assets[|assets| - 1].value
  }

  /** The reason the first unusable asset is refused. */
  ghost predicate Explains(e: ValuationError, input: AssetInput, prices: map<string, real>) {
    if Ambiguous(input.snapshot, input.events) then
      e == AssetAmbiguous(input.asset, AmbiguousOrdering(input.snapshot.observedAtMs, input.snapshot.observedAtMs))
    else input.asset !in prices && e == UnsupportedAsset(input.asset)
  }

  method ValueAtCut(inputs: seq<AssetInput>, prices: map<string, real>, cut: nat)
    returns (r: Result<Valuation, ValuationError>)
    ensures r.Ok? <==> AllUsable(inputs, prices)
    ensures r.Ok? ==>
              && r.value.cutMs == cut && r.value.nav == Nav(inputs, prices, cut)
              && |r.value.assets| == |inputs|
              && forall i :: 0 <= i < |inputs| ==> r.value.assets[i] == Valued(inputs[i], prices, cut)
    ensures r.Ok? ==>
              && r.value.nav == SumOfValues(r.value.assets)
              && forall i :: 0 <= i < |inputs| ==>
                   var a := r.value.assets[i];
                   && a.asset == inputs[i].asset && a.asset in prices && a.price == prices[a.asset]
                   && a.quantity == Quantity(inputs[i].snapshot, inputs[i].events, cut)
                   && a.value == Times(a.quantity, a.price)
    ensures r.Err? ==> exists i :: 0 <= i < |inputs| && AllUsable(inputs[..i], prices)
                         && Explains(r.error, inputs[i], prices)
  {
    hide Times, Quantity, Ambiguous;
    var assets: seq<AssetValuation> := [];
    var nav := 0.0;
    for i := 0 to |inputs|
      invariant AllUsable(inputs[..i], prices)
      invariant nav == Nav(inputs[..i], prices, cut) == SumOfValues(assets)
      invariant |assets| == i && forall k :: 0 <= k < i ==> assets[k] == Valued(inputs[k], prices, cut)
    {
      var input := inputs[i];
      var quantity := ReconstructQuantity(input.snapshot, input.events, cut);
      if quantity.Err? {
        return Err(AssetAmbiguous(input.asset, quantity.error));
      }
      if input.asset !in prices {
        return Err(UnsupportedAsset(input.asset));
      }
      var value := Times(quantity.value, prices[input.asset]);
      assert inputs[..i + 1][..i] == inputs[..i];
      nav := nav + value;
      ghost var before := assets;
      assets := assets + [AssetValuation(input.asset, quantity.value, prices[input.asset], value)];
      assert assets[..|assets| - 1] == before;
    }
    assert inputs[..|inputs|] == inputs;
    r := Ok(Valuation(cut, assets, nav));
  }

  /** Price-weighted deltas of every asset between two cuts. */
  function WeightedDeltas(inputs: seq<AssetInput>, prices: map<string, real>, a: nat, b: nat): real
    requires forall i :: 0 <= i < |inputs| ==> inputs[i].asset in prices
  {
    if inputs == [] then 0.0
    else
      var last := inputs[|inputs| - 1];
      WeightedDeltas(inputs[..|inputs| - 1], prices, a, b) + Times(DeltasIn(last.events, a, b), prices[last.asset])
  }

  /** At fixed prices the portfolio's value moves by the price-weighted deltas. */
  lemma {:induction false} NavMovesByDeltas(inputs: seq<AssetInput>, prices: map<string, real>, a: nat, b: nat)
    requires a <= b && forall i :: 0 <= i < |inputs| ==> inputs[i].asset in prices
    ensures Nav(inputs, prices, b) - Nav(inputs, prices, a) == WeightedDeltas(inputs, prices, a, b)
  {
    hide Times, Quantity, DeltasIn;
    if inputs != [] {
      var last := inputs[|inputs| - 1];
      NavMovesByDeltas(inputs[..|inputs| - 1], prices, a, b);
      MovesByDeltas(last.snapshot, last.events, a, b);
      var x, y := Quantity(last.snapshot, last.events, b), Quantity(last.snapshot, last.events, a);
      TimesSum(prices[last.asset], x, y);
    }
  }
}

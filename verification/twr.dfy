/** The time-weighted return index of one continuous segment. Amounts are exact
    rationals: decimal rounding and range errors are not modelled. */
module Twr {
  import opened Common
  import opened Rational

  datatype TimelineEvent = Valuation(timeMs: nat, nav: real) | Flow(timeMs: nat, amount: real)

  datatype ReturnError = NonPositiveBaseline(vStart: real)

  datatype TwrResult = TwrResult(index: real, subReturns: seq<real>)

  type Outcome = Result<TwrResult, ReturnError>

  function CheckedRatioMinusOne(numerator: real, denominator: real): Result<real, ReturnError> {
    if denominator <= 0.0 then Err(NonPositiveBaseline(denominator)) else Ok(Ratio(numerator, denominator) - 1.0)
  }

  function ChainIndex(index: real, r: real): real { Times(index, 1.0 + r) }

  /** `R[a,b]` between two points of one segment. */
  function CumulativeReturn(indexA: real, indexB: real): Result<real, ReturnError> {
    CheckedRatioMinusOne(indexB, indexA)
  }

  /** The value standing after an event, given the one before it. */
  function Standing(before: Option<real>, e: TimelineEvent): real {
    match e
    case Valuation(_, nav) => nav
    case Flow(_, amount) => (if before.Some? then before.value else 0.0) + amount
  }

  function StandingAfter(before: Option<real>, events: seq<TimelineEvent>): Option<real>
    decreases |events|
  {
    if events == [] then before else StandingAfter(Some(Standing(before, events[0])), events[1..])
  }

  /** First one part of a stream, then the next. */
  function Then(first: Outcome, next: Outcome): Outcome {
    match first
    case Err(_) => first
    case Ok(a) =>
      match next
      case Err(_) => next
      case Ok(b) => Ok(TwrResult(Times(a.index, b.index), a.subReturns + b.subReturns))
  }

  /** The return a single event closes, if it closes one. */
  function Closing(before: Option<real>, e: TimelineEvent): Outcome {
    if e.Valuation? && before.Some? then
      match CheckedRatioMinusOne(e.nav, before.value)
      case Err(error) => Err(error)
      case Ok(r) => Ok(TwrResult(1.0 + r, [r]))
    else Ok(TwrResult(1.0, []))
  }

  /** The result over a stream that starts with `before` standing. */
  function TwrFrom(before: Option<real>, events: seq<TimelineEvent>): Outcome
    decreases |events|
  {
    if events == [] then Ok(TwrResult(1.0, []))
    else Then(Closing(before, events[0]), TwrFrom(Some(Standing(before, events[0])), events[1..]))
  }

  lemma ThenAssoc(a: Outcome, b: Outcome, c: Outcome)
    ensures Then(Then(a, b), c) == Then(a, Then(b, c))
  {
    if a.Ok? && b.Ok? && c.Ok? {
      var left, right := Then(Then(a, b), c).value, Then(a, Then(b, c)).value;
      TimesAssoc(a.value.index, b.value.index, c.value.index);
      assert left.index == right.index;
      assert left.subReturns == right.subReturns;
    }
  }

  lemma ThenUnit(a: Outcome)
    ensures Then(Ok(TwrResult(1.0, [])), a) == a && Then(a, Ok(TwrResult(1.0, []))) == a
  {
    if a.Ok? {
      assert [] + a.value.subReturns == a.value.subReturns == a.value.subReturns + [];
    }
  }

  method ComputeTwr(events: seq<TimelineEvent>) returns (r: Outcome)
    ensures r == TwrFrom(None, events)
  {
    hide Then, Closing, ChainIndex;
    var index, subReturns := 1.0, [];
    var currentNav: Option<real> := None;
    ThenUnit(TwrFrom(None, events));
    for i := 0 to |events|
      invariant Then(Ok(TwrResult(index, subReturns)), TwrFrom(currentNav, events[i..])) == TwrFrom(None, events)
    {
      ghost var soFar, rest := Ok(TwrResult(index, subReturns)), events[i..];
      ghost var before := currentNav;
      assert rest[0] == events[i] && rest[1..] == events[i + 1..];
      ThenAssoc(soFar, Closing(before, rest[0]), TwrFrom(Some(Standing(before, rest[0])), rest[1..]));
      match events[i]
      case Valuation(_, nav) =>
        if currentNav.Some? {
          var v := currentNav.value;
          if v <= 0.0 {
            FailedClosing(soFar, before, events[i], TwrFrom(Some(Standing(before, rest[0])), rest[1..]));
            return Err(NonPositiveBaseline(v));
          }
          var ratio := CheckedRatioMinusOne(nav, v);
          CloseStep(index, subReturns, v, events[i]);
          index := ChainIndex(index, ratio.value);
          subReturns := subReturns + [ratio.value];
        } else {
          NoClosing(soFar, before, events[i]);
        }
        currentNav := Some(nav);
      case Flow(_, amount) =>
        NoClosing(soFar, before, events[i]);
        var standing := if currentNav.Some? then currentNav.value else 0.0;
        currentNav := Some(standing + amount);
    }
    ThenUnit(Ok(TwrResult(index, subReturns)));
    r := Ok(TwrResult(index, subReturns));
  }

  lemma FailedClosing(soFar: Outcome, before: Option<real>, e: TimelineEvent, rest: Outcome)
    requires soFar.Ok? && e.Valuation? && before.Some? && before.value <= 0.0
    ensures Then(Then(soFar, Closing(before, e)), rest) == Err(NonPositiveBaseline(before.value))
  {
  }

  lemma NoClosing(soFar: Outcome, before: Option<real>, e: TimelineEvent)
    requires e.Flow? || before.None?
    ensures Then(soFar, Closing(before, e)) == soFar
  {
    ThenUnit(soFar);
  }

  lemma CloseStep(index: real, subReturns: seq<real>, v: real, e: TimelineEvent)
    requires e.Valuation? && v > 0.0
    ensures CheckedRatioMinusOne(e.nav, v).Ok?
    ensures var r := CheckedRatioMinusOne(e.nav, v).value;
            Then(Ok(TwrResult(index, subReturns)), Closing(Some(v), e))
            == Ok(TwrResult(ChainIndex(index, r), subReturns + [r]))
  {
    var r := CheckedRatioMinusOne(e.nav, v).value;
    var joined := Then(Ok(TwrResult(index, subReturns)), Closing(Some(v), e));
    assert joined.Ok? && joined.value.index == ChainIndex(index, r);
    assert joined.value.subReturns == subReturns + [r];
  }

  // -------------------------------------------------------- the simulated fund

  /** A fund whose holders buy and sell units at the standing price. */
  datatype Fund = Empty | Holding(units: real, price: real) | Broken

  /** The first money buys units at price one; a flow trades units at the standing
      price; a valuation reprices the units held. */
  function FundStep(f: Fund, e: TimelineEvent): Fund {
    match f
    case Broken => Broken
    case Empty =>
      match e {
        case Valuation(_, nav) => Holding(nav, 1.0)
        case Flow(_, amount) => Holding(amount, 1.0)
      }
    case Holding(units, price) =>
      match e
      case Valuation(_, nav) => if units == 0.0 then Broken else Holding(units, Ratio(nav, units))
      case Flow(_, amount) => if price == 0.0 then Broken else Holding(units + Ratio(amount, price), price)
  }

  function FundAfter(f: Fund, events: seq<TimelineEvent>): Fund
    decreases |events|
  {
    if events == [] then f else FundAfter(FundStep(f, events[0]), events[1..])
  }

  ghost predicate PositiveNavs(events: seq<TimelineEvent>) {
    forall i :: 0 <= i < |events| && events[i].Valuation? ==> events[i].nav > 0.0
  }

  lemma Repriced(units: real, price: real, v: real, nav: real)
    requires Times(units, price) == v && v > 0.0 && price > 0.0 && nav > 0.0
    ensures units > 0.0 && Times(units, Ratio(nav, units)) == nav && Ratio(nav, units) > 0.0
    ensures Ratio(nav, units) == Times(price, 1.0 + (Ratio(nav, v) - 1.0))
  {
    hide Times, Ratio;
    TimesSign(units, price);
    RatioIff(nav, units, Ratio(nav, units));
    TimesComm(units, Ratio(nav, units));
    RatioOrder(nav, units);
    RatioIff(nav, v, Ratio(nav, v));
    TimesAssoc(Ratio(nav, v), price, units);
    TimesComm(units, price);
    TimesComm(Ratio(nav, v), price);
    RatioIff(nav, units, Times(price, Ratio(nav, v)));
  }

  lemma Traded(units: real, price: real, v: real, amount: real)
    requires Times(units, price) == v && price > 0.0
    ensures Times(units + Ratio(amount, price), price) == v + amount
  {
    hide Times, Ratio;
    TimesSum(price, units, Ratio(amount, price));
    RatioIff(amount, price, Ratio(amount, price));
  }

  lemma FirstStep(v: real, events: seq<TimelineEvent>)
    requires events != [] && TwrFrom(Some(v), events).Ok?
    ensures var e := events[0];
            var rest := TwrFrom(Some(Standing(Some(v), e)), events[1..]);
            && rest.Ok?
            && (e.Valuation? ==>
                  v > 0.0
                  && TwrFrom(Some(v), events).value.index == Times(1.0 + (Ratio(e.nav, v) - 1.0), rest.value.index))
            && (e.Flow? ==> TwrFrom(Some(v), events).value.index == rest.value.index)
  {
  }

  lemma {:induction false} FundFollows(units: real, price: real, v: real, events: seq<TimelineEvent>)
    requires Times(units, price) == v && price > 0.0 && PositiveNavs(events) && TwrFrom(Some(v), events).Ok?
    ensures FundAfter(Holding(units, price), events).Holding?
    ensures FundAfter(Holding(units, price), events).price == Times(price, TwrFrom(Some(v), events).value.index)
    decreases |events|
  {
    hide TwrFrom, Then, Closing, Times, Ratio;
    if events == [] {
      NoEvents(v);
      TimesOne(price);
    } else {
      var e, rest := events[0], events[1..];
      FirstStep(v, events);
      match e
      case Valuation(_, nav) =>
        Repriced(units, price, v, nav);
        FundFollows(units, Ratio(nav, units), nav, rest);
        TimesAssoc(price, 1.0 + (Ratio(nav, v) - 1.0), TwrFrom(Some(nav), rest).value.index);
      case Flow(_, amount) =>
        Traded(units, price, v, amount);
        FundFollows(units + Ratio(amount, price), price, v + amount, rest);
    }
  }

  lemma NoEvents(v: real)
    ensures TwrFrom(Some(v), []) == Ok(TwrResult(1.0, []))
  {
  }

  /** While every valuation is positive, the index is the final unit price of the
      simulated fund, which never has to trade or reprice at zero. */
  lemma IndexIsUnitPrice(events: seq<TimelineEvent>)
    requires events != [] && PositiveNavs(events) && TwrFrom(None, events).Ok?
    ensures FundAfter(Empty, events).Holding?
    ensures FundAfter(Empty, events).price == TwrFrom(None, events).value.index
  {
    var v := Standing(None, events[0]);
    ThenUnit(TwrFrom(Some(v), events[1..]));
    TimesOne(v);
    FundFollows(v, 1.0, v, events[1..]);
    TimesOne(TwrFrom(Some(v), events[1..]).value.index);
  }

  // ------------------------------------------------------- the sub-returns

  /** A subperiod a valuation closes: the value standing before it, and the new one. */
  datatype Span = Span(from: real, to: real)

  /** The subperiods of a stream that starts with `value` standing, if any. */
  function Closed(value: Option<real>, events: seq<TimelineEvent>): seq<Span>
    decreases |events|
  {
    if events == [] then []
    else
      match (events[0], value)
      case (Valuation(_, nav), Some(v)) => [Span(v, nav)] + Closed(Some(nav), events[1..])
      case (Valuation(_, nav), None) => Closed(Some(nav), events[1..])
      case (Flow(_, amount), Some(v)) => Closed(Some(v + amount), events[1..])
      case (Flow(_, amount), None) => Closed(Some(amount), events[1..])
  }

  function Compounded(rs: seq<real>): real {
    if rs == [] then 1.0 else Times(1.0 + rs[0], Compounded(rs[1..]))
  }

  /** Each return takes its subperiod's opening value to its closing value. */
  ghost predicate Spanned(rs: seq<real>, spans: seq<Span>) {
    && |rs| == |spans|
    && forall j :: 0 <= j < |spans| ==> spans[j].from > 0.0 && Times(1.0 + rs[j], spans[j].from) == spans[j].to
  }

  lemma SpannedCons(r: real, span: Span, rs: seq<real>, spans: seq<Span>)
    requires Spanned(rs, spans) && span.from > 0.0 && Times(1.0 + r, span.from) == span.to
    ensures Spanned([r] + rs, [span] + spans) && Compounded([r] + rs) == Times(1.0 + r, Compounded(rs))
  {
    hide Times;
    assert ([r] + rs)[1..] == rs;
  }

  lemma ClosingSpans(v: real, nav: real, rest: TwrResult)
    requires v > 0.0
    ensures CheckedRatioMinusOne(nav, v).Ok?
    ensures var r := CheckedRatioMinusOne(nav, v).value;
            && Times(1.0 + r, v) == nav
            && forall t: nat :: Then(Closing(Some(v), Valuation(t, nav)), Ok(rest))
                             == Ok(TwrResult(Times(1.0 + r, rest.index), [r] + rest.subReturns))
  {
    hide Times, Ratio;
    RatioIff(nav, v, Ratio(nav, v));
  }

  /** The sub-returns are those of the closed subperiods, and the index compounds them. */
  lemma {:induction false} SubReturnsInFull(before: Option<real>, events: seq<TimelineEvent>)
    requires TwrFrom(before, events).Ok?
    ensures Spanned(TwrFrom(before, events).value.subReturns, Closed(before, events))
    ensures TwrFrom(before, events).value.index == Compounded(TwrFrom(before, events).value.subReturns)
    decreases |events|
  {
    hide Times, Ratio, Spanned, Compounded, CheckedRatioMinusOne;
    if events == [] {
      NothingSpanned();
    } else {
      var e := events[0];
      var next := Some(Standing(before, e));
      var rest := TwrFrom(next, events[1..]);
      if e.Valuation? && before.Some? {
        PositiveClosing(before.value, e);
        SubReturnsInFull(next, events[1..]);
        ClosingSpans(before.value, e.nav, rest.value);
        var r := CheckedRatioMinusOne(e.nav, before.value).value;
        SpannedCons(r, Span(before.value, e.nav), rest.value.subReturns, Closed(next, events[1..]));
      } else {
        NoClosing(Ok(TwrResult(1.0, [])), before, e);
        ThenUnit(rest);
        SubReturnsInFull(next, events[1..]);
      }
    }
  }

  lemma PositiveClosing(v: real, e: TimelineEvent)
    requires e.Valuation? && Closing(Some(v), e).Ok?
    ensures v > 0.0
  {
  }

  lemma NothingSpanned()
    ensures Spanned([], []) && Compounded([]) == 1.0
  {
  }

  /** The return between two points takes the first index to the second. */
  lemma CumulativeInFull(indexA: real, indexB: real)
    ensures indexA <= 0.0 ==> CumulativeReturn(indexA, indexB) == Err(NonPositiveBaseline(indexA))
    ensures indexA > 0.0 ==>
              && CumulativeReturn(indexA, indexB).Ok?
              && Times(1.0 + CumulativeReturn(indexA, indexB).value, indexA) == indexB
  {
    hide Times, Ratio;
    if indexA > 0.0 {
      RatioIff(indexB, indexA, Ratio(indexB, indexA));
    }
  }

  // ------------------------------------------------------------ when it refuses

  /** The stream is refused exactly when some valuation closes on a baseline that is
      not positive, and the first such baseline is the one reported. */
  lemma {:induction false} RefusedIff(before: Option<real>, events: seq<TimelineEvent>)
    ensures TwrFrom(before, events).Ok? <==>
      forall k :: 0 <= k < |events| && events[k].Valuation? && StandingAfter(before, events[..k]).Some? ==>
        StandingAfter(before, events[..k]).value > 0.0
    ensures forall k ::
              (&& 0 <= k < |events| && events[k].Valuation? && StandingAfter(before, events[..k]).Some?
               && StandingAfter(before, events[..k]).value <= 0.0 && TwrFrom(before, events[..k]).Ok?) ==>
                TwrFrom(before, events) == Err(NonPositiveBaseline(StandingAfter(before, events[..k]).value))
    decreases |events|
  {
    if events != [] {
      var next, rest := Some(Standing(before, events[0])), events[1..];
      RefusedIff(next, rest);
      assert events[..0] == [];
      forall k | 0 < k <= |events|
        ensures StandingAfter(before, events[..k]) == StandingAfter(next, rest[..k - 1])
        ensures TwrFrom(before, events[..k]) == Then(Closing(before, events[0]), TwrFrom(next, rest[..k - 1]))
      {
        assert events[..k][1..] == rest[..k - 1];
      }
    }
  }

  // ----------------------------------------------------------------- the laws

  lemma {:induction false} TwrSplits(before: Option<real>, a: seq<TimelineEvent>, b: seq<TimelineEvent>)
    ensures TwrFrom(before, a + b) == Then(TwrFrom(before, a), TwrFrom(StandingAfter(before, a), b))
    decreases |a|
  {
    hide Then, Closing;
    if a == [] {
      assert a + b == b;
      ThenUnit(TwrFrom(before, b));
    } else {
      assert (a + b)[1..] == a[1..] + b;
      var next := Some(Standing(before, a[0]));
      TwrSplits(next, a[1..], b);
      ThenAssoc(Closing(before, a[0]), TwrFrom(next, a[1..]), TwrFrom(StandingAfter(before, a), b));
    }
  }

  lemma {:induction false} StandingSplits(before: Option<real>, a: seq<TimelineEvent>, b: seq<TimelineEvent>)
    ensures StandingAfter(before, a + b) == StandingAfter(StandingAfter(before, a), b)
    decreases |a|
  {
    if a == [] {
      assert a + b == b;
    } else {
      assert (a + b)[1..] == a[1..] + b;
      StandingSplits(Some(Standing(before, a[0])), a[1..], b);
    }
  }

  /** Splitting a stream at a valuation multiplies the two indexes and concatenates
      the sub-returns; a refusal of either half is the refusal of the whole. */
  lemma SplitAtValuation(a: seq<TimelineEvent>, v: TimelineEvent, b: seq<TimelineEvent>)
    requires v.Valuation?
    ensures TwrFrom(None, a + [v] + b) == Then(TwrFrom(None, a + [v]), TwrFrom(None, [v] + b))
  {
    hide Then;
    TwrSplits(None, a + [v], b);
    StandingSplits(None, a, [v]);
    assert ([v] + b)[1..] == b && [v][1..] == [];
    ThenUnit(TwrFrom(Some(v.nav), b));
    assert TwrFrom(None, [v] + b) == TwrFrom(Some(v.nav), b);
    assert StandingAfter(None, a + [v]) == Some(v.nav);
  }

  /** A flow followed by the matching revaluation adds a zero sub-return and leaves
      the index as it was. */
  lemma FlowIsNeutral(a: seq<TimelineEvent>, v: TimelineEvent, flow: TimelineEvent, w: TimelineEvent)
    requires v.Valuation? && flow.Flow? && w.Valuation? && w.nav == v.nav + flow.amount && w.nav > 0.0
    requires TwrFrom(None, a + [v]).Ok?
    ensures TwrFrom(None, a + [v] + [flow, w]) == Ok(TwrResult(
      TwrFrom(None, a + [v]).value.index, TwrFrom(None, a + [v]).value.subReturns + [0.0]))
  {
    hide TwrFrom, Times;
    TwrSplits(None, a + [v], [flow, w]);
    StandingSplits(None, a, [v]);
    assert [v][1..] == [];
    FlowThenRevalued(v.nav, flow, w);
    TimesOne(TwrFrom(None, a + [v]).value.index);
  }

  lemma FlowThenRevalued(v: real, flow: TimelineEvent, w: TimelineEvent)
    requires flow.Flow? && w.Valuation? && w.nav == v + flow.amount && w.nav > 0.0
    ensures TwrFrom(Some(v), [flow, w]) == Ok(TwrResult(1.0, [0.0]))
  {
    assert [flow, w][1..] == [w] && [w][1..] == [];
    TimesOne(w.nav);
    RatioIff(w.nav, w.nav, 1.0);
    assert Ratio(w.nav, w.nav) == 1.0;
    ThenUnit(Ok(TwrResult(1.0, [0.0])));
    assert Closing(Some(w.nav), w) == Ok(TwrResult(1.0, [0.0]));
    assert TwrFrom(Some(w.nav), [w]) == Ok(TwrResult(1.0, [0.0]));
  }

  function ScaledEvent(c: real, e: TimelineEvent): TimelineEvent {
    match e
    case Valuation(t, nav) => Valuation(t, Times(c, nav))
    case Flow(t, amount) => Flow(t, Times(c, amount))
  }

  function Scaled(c: real, events: seq<TimelineEvent>): (r: seq<TimelineEvent>)
    ensures |r| == |events|
  {
    seq(|events|, i requires 0 <= i < |events| => ScaledEvent(c, events[i]))
  }

  function ScaledStanding(c: real, v: Option<real>): Option<real> {
    match v
    case None => None
    case Some(x) => Some(Times(c, x))
  }

  function ScaledError(c: real, r: Outcome): Outcome {
    match r
    case Ok(_) => r
    case Err(NonPositiveBaseline(v)) => Err(NonPositiveBaseline(Times(c, v)))
  }

  lemma ScaledRatio(c: real, x: real, y: real)
    requires c > 0.0
    ensures Times(c, y) > 0.0 <==> y > 0.0
    ensures y > 0.0 ==> Ratio(Times(c, x), Times(c, y)) == Ratio(x, y)
  {
    hide Times, Ratio;
    TimesComm(c, y);
    TimesSign(y, c);
    if y > 0.0 {
      var q := Ratio(x, y);
      RatioIff(x, y, q);
      TimesComm(c, x);
      TimesAssoc(q, y, c);
      RatioIff(Times(c, x), Times(c, y), q);
    }
  }

  lemma {:induction false} ScaleFrom(c: real, before: Option<real>, events: seq<TimelineEvent>)
    requires c > 0.0
    ensures TwrFrom(ScaledStanding(c, before), Scaled(c, events)) == ScaledError(c, TwrFrom(before, events))
    decreases |events|
  {
    if events != [] {
      var e := events[0];
      assert Scaled(c, events)[1..] == Scaled(c, events[1..]);
      ScaleFrom(c, Some(Standing(before, e)), events[1..]);
      ScaleStep(c, before, e);
      ScaledThen(c, Closing(before, e), TwrFrom(Some(Standing(before, e)), events[1..]));
      var next := Some(Standing(ScaledStanding(c, before), ScaledEvent(c, e)));
      assert next == ScaledStanding(c, Some(Standing(before, e)));
    }
  }

  lemma ScaledThen(c: real, a: Outcome, b: Outcome)
    ensures Then(ScaledError(c, a), ScaledError(c, b)) == ScaledError(c, Then(a, b))
  {
  }

  lemma ScaleStep(c: real, before: Option<real>, e: TimelineEvent)
    requires c > 0.0
    ensures Standing(ScaledStanding(c, before), ScaledEvent(c, e)) == Times(c, Standing(before, e))
    ensures Closing(ScaledStanding(c, before), ScaledEvent(c, e)) == ScaledError(c, Closing(before, e))
  {
    if e.Valuation? && before.Some? {
      ScaledRatio(c, e.nav, before.value);
    }
  }

  /** Measuring every amount in another unit changes no return; a refusal reports
      the same baseline in that unit. */
  lemma ScaleInvariant(c: real, events: seq<TimelineEvent>)
    requires c > 0.0
    ensures TwrFrom(None, Scaled(c, events)) == ScaledError(c, TwrFrom(None, events))
  {
    ScaleFrom(c, None, events);
  }

  /** Returns over adjacent spans of one segment compound to the return over both. */
  lemma ReturnsCompound(a: real, b: real, c: real)
    requires a > 0.0 && b > 0.0
    ensures CumulativeReturn(a, b).Ok? && CumulativeReturn(b, c).Ok? && CumulativeReturn(a, c).Ok?
    ensures Times(1.0 + CumulativeReturn(a, b).value, 1.0 + CumulativeReturn(b, c).value)
         == 1.0 + CumulativeReturn(a, c).value
  {
    hide Times, Ratio;
    var x, y := Ratio(b, a), Ratio(c, b);
    RatioIff(b, a, x);
    RatioIff(c, b, y);
    TimesAssoc(y, x, a);
    TimesComm(x, y);
    RatioIff(c, a, Times(x, y));
  }
}

/** What FIFO matching means: a queue of single units, taken off the front one by
    one. The queue of lots is its run-length form after every fill. */
module FifoMeaning {
  import opened WinRate

  /** One unit held, remembering the fill that bought it. */
  datatype Unit = Unit(lot: nat, price: int)

  datatype Book = Book(queue: seq<Unit>, closed: nat, wins: nat, matched: nat, skipped: nat)

  function NonNegative(n: int): nat { if n < 0 then 0 else n }

  function Copies(u: Unit, n: int): (r: seq<Unit>)
    ensures |r| == NonNegative(n)
    ensures forall i :: 0 <= i < |r| ==> r[i] == u
  {
    seq(NonNegative(n), i => u)
  }

  /** The lots among these units, and those bought below `price`. */
  function LotsOf(units: seq<Unit>): set<nat> { set u | u in units :: u.lot }

  function WinningLots(units: seq<Unit>, price: int): set<nat> { set u | u in units && u.price < price :: u.lot }

  /** A buy queues its units; a sell takes units off the front one by one, closes
      one round trip per lot it touched, and skips what the queue cannot supply. */
  function UnitStep(b: Book, k: nat, f: Fill): Book {
    var q := NonNegative(f.qty);
    if f.isBuy then b.(queue := b.queue + Copies(Unit(k, f.price), q))
    else
      var m := if q <= |b.queue| then q else |b.queue|;
      var taken := b.queue[..m];
      Book(b.queue[m..], b.closed + |LotsOf(taken)|, b.wins + |WinningLots(taken, f.price)|,
           b.matched + m, b.skipped + q - m)
  }

  /** Plays `fills`, the first of which is number `k`. */
  function UnitPlay(b: Book, k: nat, fills: seq<Fill>): Book
    decreases |fills|
  {
    if fills == [] then b else UnitPlay(UnitStep(b, k, fills[0]), k + 1, fills[1..])
  }

  const EMPTY_BOOK := Book([], 0, 0, 0, 0)

  function BookOf(fills: seq<Fill>): Book { UnitPlay(EMPTY_BOOK, 0, Chronological(fills)) }

  /** The units a queue of lots stands for, `ids[i]` being the fill behind lot `i`. */
  function Expand(lots: seq<Lot>, ids: seq<nat>): seq<Unit>
    requires |lots| == |ids|
  {
    if lots == [] then [] else Copies(Unit(ids[0], lots[0].price), lots[0].qty) + Expand(lots[1..], ids[1..])
  }

  /** `lots` is the run-length form of `queue`: one run per buying fill, oldest first,
      a lot of no positive quantity standing for no unit. */
  ghost predicate RunLength(lots: seq<Lot>, ids: seq<nat>, queue: seq<Unit>) {
    && |lots| == |ids|
    && (forall i, j :: 0 <= i < j < |ids| ==> ids[i] < ids[j])
    && Expand(lots, ids) == queue
  }

  ghost predicate Refines(t: Tally, ids: seq<nat>, b: Book) {
    RunLength(t.lots, ids, b.queue) && t.closed == b.closed && t.wins == b.wins
  }

  /** A sell of `remaining` reaches a lot of no positive quantity. */
  predicate Touches(lots: seq<Lot>, remaining: int)
    decreases |lots|
  {
    remaining > 0 && lots != [] && (lots[0].qty <= 0 || Touches(lots[1..], remaining - lots[0].qty))
  }

  /** No sell of these fills does. */
  predicate Untouched(t: Tally, fills: seq<Fill>)
    decreases |fills|
  {
    fills == []
    || ((fills[0].isBuy || !Touches(t.lots, fills[0].qty)) && Untouched(Step(t, fills[0]), fills[1..]))
  }

  ghost predicate AllPositive(lots: seq<Lot>) { forall i :: 0 <= i < |lots| ==> lots[i].qty > 0 }

  ghost predicate PositiveBuys(fills: seq<Fill>) {
    forall i :: 0 <= i < |fills| && fills[i].isBuy ==> fills[i].qty > 0
  }

  lemma {:induction false} ExpandAppend(lots: seq<Lot>, ids: seq<nat>, lot: Lot, id: nat)
    requires |lots| == |ids|
    ensures Expand(lots + [lot], ids + [id]) == Expand(lots, ids) + Copies(Unit(id, lot.price), lot.qty)
  {
    if lots == [] {
      assert lots + [lot] == [lot] && ids + [id] == [id];
    } else {
      ExpandAppend(lots[1..], ids[1..], lot, id);
      assert (lots + [lot])[1..] == lots[1..] + [lot] && (ids + [id])[1..] == ids[1..] + [id];
    }
  }

  lemma {:induction false} ExpandLots(lots: seq<Lot>, ids: seq<nat>)
    requires |lots| == |ids|
    ensures forall u :: u in Expand(lots, ids) ==> u.lot in ids
  {
    if lots != [] {
      ExpandLots(lots[1..], ids[1..]);
    }
  }

  const NO_FILLS := Tally([], 0, 0)

  // ------------------------------------------------------------- refinement

  lemma TakeCopies(u: Unit, n: nat, rest: seq<Unit>, m: nat)
    requires m <= |rest|
    ensures (Copies(u, n) + rest)[..n + m] == Copies(u, n) + rest[..m]
    ensures (Copies(u, n) + rest)[n + m..] == rest[m..]
  {
  }

  lemma CountOneMore(u: Unit, n: nat, others: seq<Unit>, price: int)
    requires n > 0 && forall x :: x in others ==> x.lot != u.lot
    ensures |LotsOf(Copies(u, n) + others)| == 1 + |LotsOf(others)|
    ensures |WinningLots(Copies(u, n) + others, price)|
         == (if u.price < price then 1 else 0) + |WinningLots(others, price)|
  {
    var taken := Copies(u, n) + others;
    assert taken[0] == u;
    forall x
      ensures x in taken <==> x == u || x in others
    {
    }
    assert LotsOf(taken) == LotsOf(others) + {u.lot};
    if u.price < price {
      assert WinningLots(taken, price) == WinningLots(others, price) + {u.lot};
    } else {
      assert WinningLots(taken, price) == WinningLots(others, price);
    }
  }

  lemma SplitCopies(u: Unit, n: nat, m: nat, rest: seq<Unit>)
    requires m < n
    ensures (Copies(u, n) + rest)[..m] == Copies(u, m)
    ensures (Copies(u, n) + rest)[m..] == Copies(u, n - m) + rest
  {
  }

  lemma LotsOfCopies(u: Unit, m: nat, price: int)
    requires m > 0
    ensures |LotsOf(Copies(u, m))| == 1
    ensures |WinningLots(Copies(u, m), price)| == if u.price < price then 1 else 0
  {
    assert Copies(u, m)[0] == u;
    assert LotsOf(Copies(u, m)) == {u.lot};
    assert WinningLots(Copies(u, m), price) == if u.price < price then {u.lot} else {};
  }

  lemma ProfitSign(price: int, lotPrice: int, matched: int)
    requires matched > 0
    ensures Profit(price, lotPrice, matched) > 0 <==> lotPrice < price
  {
  }

  lemma RunTail(lots: seq<Lot>, ids: seq<nat>, queue: seq<Unit>)
    requires lots != [] && RunLength(lots, ids, queue)
    ensures |lots| == |ids|
    ensures RunLength(lots[1..], ids[1..], Expand(lots[1..], ids[1..]))
    ensures queue == Copies(Unit(ids[0], lots[0].price), lots[0].qty) + Expand(lots[1..], ids[1..])
    ensures forall x :: x in Expand(lots[1..], ids[1..]) ==> x.lot != ids[0]
  {
    hide Copies;
    ExpandLots(lots[1..], ids[1..]);
  }

  lemma RunShrinks(lots: seq<Lot>, ids: seq<nat>, queue: seq<Unit>, m: nat)
    requires lots != [] && RunLength(lots, ids, queue) && m < lots[0].qty
    ensures RunLength(lots[0 := lots[0].(qty := lots[0].qty - m)], ids, queue[m..])
  {
    hide Copies;
    var lots' := lots[0 := lots[0].(qty := lots[0].qty - m)];
    assert lots'[1..] == lots[1..];
    SplitCopies(Unit(ids[0], lots[0].price), lots[0].qty, m, Expand(lots[1..], ids[1..]));
  }

  function Least(a: nat, b: nat): nat { if a <= b then a else b }

  /** `t` follows the counts `closed` and `wins` once the first `q` units of `queue`,
      as far as they go, were sold. */
  ghost predicate SoldFirst(closed: nat, wins: nat, t: Tally, ids: seq<nat>, queue: seq<Unit>, q: nat, price: int) {
    var m := Least(q, |queue|);
    && RunLength(t.lots, ids, queue[m..])
    && t.closed == closed + |LotsOf(queue[..m])|
    && t.wins == wins + |WinningLots(queue[..m], price)|
  }

  lemma SellPartOfLot(t: Tally, ids: seq<nat>, queue: seq<Unit>, remaining: nat, price: int)
    requires t.lots != [] && RunLength(t.lots, ids, queue) && 0 < remaining < t.lots[0].qty
    ensures SoldFirst(t.closed, t.wins, Sell(t, remaining, price), ids, queue, remaining, price)
  {
    hide Profit, Copies, LotsOf, WinningLots, RunLength, Expand;
    RunTail(t.lots, ids, queue);
    var u := Unit(ids[0], t.lots[0].price);
    ProfitSign(price, u.price, remaining);
    SplitCopies(u, t.lots[0].qty, remaining, Expand(t.lots[1..], ids[1..]));
    LotsOfCopies(u, remaining, price);
    RunShrinks(t.lots, ids, queue, remaining);
  }

  lemma SellWholeLot(closed: nat, wins: nat, t: Tally, ids: seq<nat>, u: Unit, n: nat,
                     rest: seq<Unit>, q: nat, price: int)
    requires n > 0 && q >= n && forall x :: x in rest ==> x.lot != u.lot
    requires SoldFirst(closed + 1, wins + if u.price < price then 1 else 0, t, ids, rest, q - n, price)
    ensures SoldFirst(closed, wins, t, ids, Copies(u, n) + rest, q, price)
  {
    hide Copies, LotsOf, WinningLots, RunLength;
    var m := Least(q - n, |rest|);
    TakeCopies(u, n, rest, m);
    CountOneMore(u, n, rest[..m], price);
  }

  lemma NothingSold(t: Tally, ids: seq<nat>, queue: seq<Unit>, remaining: int, price: int)
    requires RunLength(t.lots, ids, queue) && (remaining <= 0 || t.lots == [])
    ensures SoldFirst(t.closed, t.wins, Sell(t, remaining, price), ids, queue, NonNegative(remaining), price)
  {
    hide LotsOf, WinningLots;
    assert queue[0..] == queue;
    NoUnits(queue, price);
  }

  /** One turn of the loop that uses up the oldest lot. */
  lemma WholeLotStep(t: Tally, remaining: int, price: int)
    requires t.lots != [] && remaining > 0 && remaining >= t.lots[0].qty && !Touches(t.lots, remaining)
    ensures var lot := t.lots[0];
            && lot.qty > 0 && !Touches(t.lots[1..], remaining - lot.qty)
            && Sell(t, remaining, price)
               == Sell(Tally(t.lots[1..], t.closed + 1, t.wins + if lot.price < price then 1 else 0),
                       remaining - lot.qty, price)
  {
    hide Profit;
    if t.lots[0].qty > 0 {
      ProfitSign(price, t.lots[0].price, t.lots[0].qty);
    }
  }

  /** The inner matching loop takes exactly the first units of the queue. */
  lemma {:induction false} SellRefines(t: Tally, ids: seq<nat>, queue: seq<Unit>, remaining: int, price: int)
    returns (ids': seq<nat>)
    requires RunLength(t.lots, ids, queue) && !Touches(t.lots, remaining)
    ensures SoldFirst(t.closed, t.wins, Sell(t, remaining, price), ids', queue, NonNegative(remaining), price)
    ensures forall x :: x in ids' ==> x in ids
    decreases |t.lots|
  {
    hide Copies, RunLength, Expand, SoldFirst, Sell, Touches;
    ids' := ids;
    if remaining <= 0 || t.lots == [] {
      NothingSold(t, ids, queue, remaining, price);
    } else if remaining < t.lots[0].qty {
      SellPartOfLot(t, ids, queue, remaining, price);
    } else {
      RunTail(t.lots, ids, queue);
      WholeLotStep(t, remaining, price);
      var lot, rest := t.lots[0], Expand(t.lots[1..], ids[1..]);
      var won := if lot.price < price then 1 else 0;
      ids' := SellRefines(Tally(t.lots[1..], t.closed + 1, t.wins + won), ids[1..], rest, remaining - lot.qty, price);
      SellWholeLot(t.closed, t.wins, Sell(t, remaining, price), ids', Unit(ids[0], lot.price), lot.qty,
                   rest, remaining, price);
    }
  }

  lemma NoUnits(queue: seq<Unit>, price: int)
    ensures LotsOf(queue[..0]) == {} && WinningLots(queue[..0], price) == {}
  {
  }

  lemma StepRefines(t: Tally, ids: seq<nat>, b: Book, k: nat, f: Fill) returns (ids': seq<nat>)
    requires Refines(t, ids, b) && (forall x :: x in ids ==> x < k) && (f.isBuy || !Touches(t.lots, f.qty))
    ensures Refines(Step(t, f), ids', UnitStep(b, k, f))
    ensures forall x :: x in ids' ==> x < k + 1
  {
    hide LotsOf, WinningLots;
    if f.isBuy {
      assert Copies(Unit(k, f.price), f.qty) == Copies(Unit(k, f.price), NonNegative(f.qty));
      hide Copies;
      ExpandAppend(t.lots, ids, Lot(f.qty, f.price), k);
      ids' := ids + [k];
      forall i | 0 <= i < |ids|
        ensures ids[i] < k
      {
        assert ids[i] in ids;
      }
    } else {
      hide Copies;
      ids' := SellRefines(t, ids, b.queue, f.qty, f.price);
    }
  }

  lemma {:induction false} PlayRefines(t: Tally, ids: seq<nat>, b: Book, k: nat, fills: seq<Fill>)
    returns (ids': seq<nat>)
    requires Refines(t, ids, b) && (forall x :: x in ids ==> x < k) && Untouched(t, fills)
    ensures Refines(Play(t, fills), ids', UnitPlay(b, k, fills))
    decreases |fills|
  {
    hide Refines, Step, UnitStep;
    ids' := ids;
    if fills != [] {
      ids' := StepRefines(t, ids, b, k, fills[0]);
      ids' := PlayRefines(Step(t, fills[0]), ids', UnitStep(b, k, fills[0]), k + 1, fills[1..]);
    }
  }

  // ----------------------------------------------- exactly when it refines

  /** How many lots the first `q` units of the queue belong to. */
  function FirstLots(queue: seq<Unit>, q: int): nat { |LotsOf(queue[..Least(NonNegative(q), |queue|)])| }

  lemma FrontLots(u: Unit, n: int, rest: seq<Unit>, q: int)
    requires forall x :: x in rest ==> x.lot != u.lot
    ensures FirstLots(Copies(u, n) + rest, q)
         <= (if q > 0 && n > 0 then 1 else 0) + FirstLots(rest, q - NonNegative(n))
  {
    NoUnits(Copies(u, n) + rest, 0);
    if n <= 0 {
      assert Copies(u, n) + rest == rest;
    } else if 0 < q < n {
      SplitCopies(u, n, q, rest);
      LotsOfCopies(u, q, 0);
    } else if q >= n {
      hide LotsOf, Copies;
      var m := Least(q - n, |rest|);
      TakeCopies(u, n, rest, m);
      CountOneMore(u, n, rest[..m], 0);
    }
  }

  lemma NoLots(ids: seq<nat>, queue: seq<Unit>)
    requires RunLength([], ids, queue)
    ensures queue == []
  {
  }

  /** A sell of at least `remaining` closes a round trip for every lot among the first
      `remaining` units. */
  lemma {:induction false} SellClosesAtLeast(t: Tally, ids: seq<nat>, queue: seq<Unit>,
                                             more: int, remaining: int, price: int)
    requires RunLength(t.lots, ids, queue) && more >= remaining
    ensures Sell(t, more, price).closed >= t.closed + FirstLots(queue, remaining)
    decreases |t.lots|
  {
    hide Profit, LotsOf, RunLength, Copies, Expand;
    NoUnits(queue, price);
    if t.lots == [] {
      NoLots(ids, queue);
    } else if more > 0 {
      RunTail(t.lots, ids, queue);
      var lot, rest := t.lots[0], Expand(t.lots[1..], ids[1..]);
      FrontLots(Unit(ids[0], lot.price), lot.qty, rest, remaining);
      if more < lot.qty {
        NoUnits(rest, price);
      } else {
        var won := if Profit(price, lot.price, lot.qty) > 0 then 1 else 0;
        SellClosesAtLeast(Tally(t.lots[1..], t.closed + 1, t.wins + won), ids[1..], rest,
                          more - lot.qty, remaining - NonNegative(lot.qty), price);
      }
    }
  }

  /** A sell that reaches a lot of no positive quantity closes a round trip too many. */
  lemma {:induction false} SellClosesMore(t: Tally, ids: seq<nat>, queue: seq<Unit>, remaining: int, price: int)
    requires RunLength(t.lots, ids, queue) && Touches(t.lots, remaining)
    ensures Sell(t, remaining, price).closed > t.closed + FirstLots(queue, remaining)
    decreases |t.lots|
  {
    hide Profit, LotsOf, RunLength, Copies, Expand, FirstLots;
    RunTail(t.lots, ids, queue);
    var lot, rest := t.lots[0], Expand(t.lots[1..], ids[1..]);
    FrontLots(Unit(ids[0], lot.price), lot.qty, rest, remaining);
    var won := if Profit(price, lot.price, lot.qty) > 0 then 1 else 0;
    var t' := Tally(t.lots[1..], t.closed + 1, t.wins + won);
    if lot.qty <= 0 {
      SellClosesAtLeast(t', ids[1..], rest, remaining - lot.qty, remaining, price);
    } else {
      SellClosesMore(t', ids[1..], rest, remaining - lot.qty, price);
    }
  }

  lemma PlaysCons(t: Tally, b: Book, k: nat, fills: seq<Fill>, n: nat)
    requires n < |fills|
    ensures Play(t, fills[..n + 1]) == Play(Step(t, fills[0]), fills[1..][..n])
    ensures UnitPlay(b, k, fills[..n + 1]) == UnitPlay(UnitStep(b, k, fills[0]), k + 1, fills[1..][..n])
    ensures Untouched(t, fills[..n + 1])
       <==> (fills[0].isBuy || !Touches(t.lots, fills[0].qty)) && Untouched(Step(t, fills[0]), fills[1..][..n])
  {
    hide Step, UnitStep, Touches;
    assert fills[..n + 1][0] == fills[0] && fills[..n + 1][1..] == fills[1..][..n];
  }

  lemma {:induction false} UntouchedPrefix(t: Tally, fills: seq<Fill>, n: nat)
    requires Untouched(t, fills) && n <= |fills|
    ensures Untouched(t, fills[..n])
    decreases n
  {
    hide Step, Touches;
    if n > 0 {
      UntouchedPrefix(Step(t, fills[0]), fills[1..], n - 1);
      PlaysCons(t, EMPTY_BOOK, 0, fills, n - 1);
    }
  }

  /** The first sell that reaches such a lot makes the counts differ. */
  lemma {:induction false} TouchedDiverges(t: Tally, ids: seq<nat>, b: Book, k: nat, fills: seq<Fill>) returns (n: nat)
    requires Refines(t, ids, b) && (forall x :: x in ids ==> x < k) && !Untouched(t, fills)
    ensures n <= |fills| && Play(t, fills[..n]).closed > UnitPlay(b, k, fills[..n]).closed
    decreases |fills|
  {
    hide Sell, RunLength, LotsOf, WinningLots, Touches;
    var f := fills[0];
    if !f.isBuy && Touches(t.lots, f.qty) {
      SellClosesMore(t, ids, b.queue, f.qty, f.price);
      n := 1;
      PlaysCons(t, b, k, fills, 0);
      assert fills[1..][..0] == [];
      TouchedIsSell(t.lots, f.qty);
    } else {
      var ids' := StepRefines(t, ids, b, k, f);
      n := TouchedDiverges(Step(t, f), ids', UnitStep(b, k, f), k + 1, fills[1..]);
      PlaysCons(t, b, k, fills, n);
      n := n + 1;
    }
  }

  lemma TouchedIsSell(lots: seq<Lot>, remaining: int)
    requires Touches(lots, remaining)
    ensures remaining > 0
  {
  }

  /** The lots and the units after the first `n` fills in time order. */
  function TallyAt(fills: seq<Fill>, n: nat): Tally
    requires n <= |Chronological(fills)|
  {
    Play(NO_FILLS, Chronological(fills)[..n])
  }

  function BookAt(fills: seq<Fill>, n: nat): Book
    requires n <= |Chronological(fills)|
  {
    UnitPlay(EMPTY_BOOK, 0, Chronological(fills)[..n])
  }

  ghost predicate RefinesAt(fills: seq<Fill>, n: nat)
    requires n <= |Chronological(fills)|
  {
    exists ids :: Refines(TallyAt(fills, n), ids, BookAt(fills, n))
  }

  ghost predicate CountsAgreeAt(fills: seq<Fill>, n: nat)
    requires n <= |Chronological(fills)|
  {
    TallyAt(fills, n).closed == BookAt(fills, n).closed && TallyAt(fills, n).wins == BookAt(fills, n).wins
  }

  lemma UntouchedRefines(fills: seq<Fill>, n: nat)
    requires Untouched(NO_FILLS, Chronological(fills)) && n <= |Chronological(fills)|
    ensures RefinesAt(fills, n) && CountsAgreeAt(fills, n)
  {
    hide RunLength, Chronological, Play, UnitPlay;
    UntouchedPrefix(NO_FILLS, Chronological(fills), n);
    EmptyRefines();
    var ids := PlayRefines(NO_FILLS, [], EMPTY_BOOK, 0, Chronological(fills)[..n]);
    assert Refines(TallyAt(fills, n), ids, BookAt(fills, n));
  }

  lemma EmptyRefines()
    ensures Refines(NO_FILLS, [], EMPTY_BOOK)
  {
  }

  /** After every fill the queue of lots is the run-length form of the unit queue, and
      the round trips and wins counted are those of the units sold, exactly when no
      sell reaches a lot of no positive quantity. */
  lemma AfterEveryFill(fills: seq<Fill>)
    ensures (forall n: nat :: n <= |Chronological(fills)| ==> RefinesAt(fills, n))
       <==> Untouched(NO_FILLS, Chronological(fills))
  {
    hide Chronological, Play, UnitPlay, RunLength, TallyAt, BookAt;
    if Untouched(NO_FILLS, Chronological(fills)) {
      forall n: nat | n <= |Chronological(fills)|
        ensures RefinesAt(fills, n)
      {
        UntouchedRefines(fills, n);
      }
    } else {
      var n := CountsDiffer(fills);
    }
  }

  lemma CountsDiffer(fills: seq<Fill>) returns (n: nat)
    requires !Untouched(NO_FILLS, Chronological(fills))
    ensures n <= |Chronological(fills)| && !RefinesAt(fills, n) && !CountsAgreeAt(fills, n)
  {
    hide Chronological, Play, UnitPlay, RunLength;
    EmptyRefines();
    n := TouchedDiverges(NO_FILLS, [], EMPTY_BOOK, 0, Chronological(fills));
  }

  /** The counts alone, after every fill, are those of the unit-by-unit queue in
      exactly the same case; the counts reported are then too. */
  lemma TallyIsBook(fills: seq<Fill>)
    ensures (forall n: nat :: n <= |Chronological(fills)| ==> CountsAgreeAt(fills, n))
       <==> Untouched(NO_FILLS, Chronological(fills))
    ensures Untouched(NO_FILLS, Chronological(fills)) ==>
              TallyOf(fills).closed == BookOf(fills).closed && TallyOf(fills).wins == BookOf(fills).wins
  {
    hide Chronological, Play, UnitPlay, RunLength;
    if Untouched(NO_FILLS, Chronological(fills)) {
      forall n: nat | n <= |Chronological(fills)|
        ensures CountsAgreeAt(fills, n)
      {
        UntouchedRefines(fills, n);
      }
      var n := |Chronological(fills)|;
      assert Chronological(fills)[..n] == Chronological(fills);
      assert CountsAgreeAt(fills, n);
    } else {
      var n := CountsDiffer(fills);
    }
  }

  /** Fills whose buys all have a positive quantity, as an exchange reports them, keep
      every lot positive and so never meet the exception. */
  lemma {:induction false} PositiveBuysNeverTouch(t: Tally, fills: seq<Fill>)
    requires AllPositive(t.lots) && PositiveBuys(fills)
    ensures Untouched(t, fills) && AllPositive(Play(t, fills).lots)
    decreases |fills|
  {
    hide Touches, Sell;
    if fills != [] {
      var f := fills[0];
      if !f.isBuy {
        PositiveSell(t, f.qty, f.price);
      }
      PositiveBuysNeverTouch(Step(t, f), fills[1..]);
    }
  }

  lemma {:induction false} PositiveSell(t: Tally, remaining: int, price: int)
    requires AllPositive(t.lots)
    ensures !Touches(t.lots, remaining) && AllPositive(Sell(t, remaining, price).lots)
    decreases |t.lots|
  {
    hide Profit;
    if remaining > 0 && t.lots != [] && remaining >= t.lots[0].qty {
      var lot := t.lots[0];
      var won := if Profit(price, lot.price, lot.qty) > 0 then 1 else 0;
      PositiveSell(Tally(t.lots[1..], t.closed + 1, t.wins + won), remaining - lot.qty, price);
    }
  }

  lemma PositiveNeverTouches(fills: seq<Fill>)
    requires PositiveBuys(fills)
    ensures Untouched(NO_FILLS, Chronological(fills)) && PositiveBuys(Chronological(fills))
  {
    hide Untouched;
    var ordered := Chronological(fills);
    ChronologicalIsStable(fills, 0);
    forall i | 0 <= i < |ordered| && ordered[i].isBuy
      ensures ordered[i].qty > 0
    {
      assert ordered[i] in multiset(fills);
    }
    PositiveBuysNeverTouch(NO_FILLS, ordered);
  }

  lemma ExchangeFillsRefine(fills: seq<Fill>, n: nat)
    requires PositiveBuys(fills) && n <= |Chronological(fills)|
    ensures RefinesAt(fills, n) && CountsAgreeAt(fills, n) && AllPositive(TallyAt(fills, n).lots)
  {
    hide Untouched, Refines;
    PositiveNeverTouches(fills);
    PositiveBuysNeverTouch(NO_FILLS, Chronological(fills)[..n]);
    UntouchedRefines(fills, n);
  }

  const EMPTY_BUY := [Fill(0, 0, 1, true), Fill(1, 1, 2, false)]

  /** A buy of nothing counts as a closed round trip once a sell reaches it. */
  lemma EmptyBuyIsCounted()
    ensures TallyOf(EMPTY_BUY).closed == 1 && BookOf(EMPTY_BUY).closed == 0
    ensures !Untouched(NO_FILLS, Chronological(EMPTY_BUY))
  {
    var s := EMPTY_BUY;
    assert s[1..] == [s[1]] && s[1..][1..] == [];
    assert Chronological(s) == s;
    var bought := Step(NO_FILLS, s[0]);
    assert bought.lots == [Lot(0, 1)] && bought.lots[1..] == [];
    assert Step(bought, s[1]) == Sell(Tally([], 1, 0), 1, 2);
  }

  // ------------------------------------------------------------ conservation

  function Bought(fills: seq<Fill>): nat {
    if fills == [] then 0 else (if fills[0].isBuy then NonNegative(fills[0].qty) else 0) + Bought(fills[1..])
  }

  function Sold(fills: seq<Fill>): nat {
    if fills == [] then 0 else (if fills[0].isBuy then 0 else NonNegative(fills[0].qty)) + Sold(fills[1..])
  }

  /** Matched plus open is bought; matched plus skipped is sold. */
  lemma {:induction false} UnitsConserved(b: Book, k: nat, fills: seq<Fill>)
    ensures UnitPlay(b, k, fills).matched + |UnitPlay(b, k, fills).queue| == b.matched + |b.queue| + Bought(fills)
    ensures UnitPlay(b, k, fills).matched + UnitPlay(b, k, fills).skipped == b.matched + b.skipped + Sold(fills)
    decreases |fills|
  {
    if fills != [] {
      UnitsConserved(UnitStep(b, k, fills[0]), k + 1, fills[1..]);
    }
  }

  /** Bought minus sold over a stretch of fills. */
  function Net(fills: seq<Fill>): int { Bought(fills) - Sold(fills) }

  lemma {:induction false} OpenFrom(b: Book, k: nat, fills: seq<Fill>)
    ensures var open := |UnitPlay(b, k, fills).queue|;
            && open >= |b.queue| + Net(fills)
            && (forall i :: 0 <= i <= |fills| ==> open >= Net(fills[i..]))
            && (open == |b.queue| + Net(fills) || exists i :: 0 <= i <= |fills| && open == Net(fills[i..]))
    decreases |fills|
  {
    if fills == [] {
      assert fills[0..] == [];
    } else {
      var next, rest := UnitStep(b, k, fills[0]), fills[1..];
      var open := |UnitPlay(b, k, fills).queue|;
      OpenFrom(next, k + 1, rest);
      assert fills[0..] == fills && rest[0..] == rest;
      forall i | 0 < i <= |fills|
        ensures fills[i..] == rest[i - 1..]
      {
      }
      if i :| 0 <= i <= |rest| && open == Net(rest[i..]) {
        assert open == Net(fills[i + 1..]);
      }
    }
  }

  /** What is still open is the largest of bought minus sold over the suffixes of
      the history, the empty one included. */
  lemma OpenIsLargestSuffix(fills: seq<Fill>)
    ensures var ordered, open := Chronological(fills), |BookOf(fills).queue|;
            && (forall i :: 0 <= i <= |ordered| ==> Net(ordered[i..]) <= open)
            && (exists i :: 0 <= i <= |ordered| && Net(ordered[i..]) == open)
  {
    var ordered := Chronological(fills);
    OpenFrom(EMPTY_BOOK, 0, ordered);
    assert ordered[0..] == ordered;
  }

  /** The units that lots of positive quantity still hold. */
  function Held(lots: seq<Lot>): nat { if lots == [] then 0 else NonNegative(lots[0].qty) + Held(lots[1..]) }

  function TotalQty(lots: seq<Lot>): int { if lots == [] then 0 else lots[0].qty + TotalQty(lots[1..]) }

  lemma {:induction false} HeldIsTotal(lots: seq<Lot>)
    requires AllPositive(lots)
    ensures Held(lots) == TotalQty(lots)
  {
    if lots != [] {
      HeldIsTotal(lots[1..]);
    }
  }

  lemma {:induction false} ExpandHolds(lots: seq<Lot>, ids: seq<nat>)
    requires |lots| == |ids|
    ensures |Expand(lots, ids)| == Held(lots)
  {
    if lots != [] {
      ExpandHolds(lots[1..], ids[1..]);
    }
  }

  /** After every fill, as long as no sell reaches a lot of no positive quantity, what
      the open lots hold is what was bought and not matched, and it is the largest of
      bought minus sold over the suffixes of the fills so far. */
  lemma LotsHoldLargestSuffix(fills: seq<Fill>, n: nat)
    requires Untouched(NO_FILLS, Chronological(fills)) && n <= |Chronological(fills)|
    ensures var played, open, b := Chronological(fills)[..n], Held(TallyAt(fills, n).lots), BookAt(fills, n);
            && b.matched + open == Bought(played) && b.matched + b.skipped == Sold(played)
            && (forall i :: 0 <= i <= n ==> Net(played[i..]) <= open)
            && (exists i :: 0 <= i <= n && Net(played[i..]) == open)
  {
    hide Untouched, Chronological, Net;
    var played := Chronological(fills)[..n];
    UntouchedRefines(fills, n);
    var ids :| Refines(TallyAt(fills, n), ids, BookAt(fills, n));
    ExpandHolds(TallyAt(fills, n).lots, ids);
    UnitsConserved(EMPTY_BOOK, 0, played);
    OpenFrom(EMPTY_BOOK, 0, played);
    assert played[0..] == played;
  }

  /** With buys of positive quantity that is the plain sum of the open lots. */
  lemma ExchangeLotsSum(fills: seq<Fill>, n: nat)
    requires PositiveBuys(fills) && n <= |Chronological(fills)|
    ensures var played, open := Chronological(fills)[..n], TotalQty(TallyAt(fills, n).lots);
            && (forall i :: 0 <= i <= n ==> Net(played[i..]) <= open)
            && (exists i :: 0 <= i <= n && Net(played[i..]) == open)
  {
    ExchangeFillsRefine(fills, n);
    HeldIsTotal(TallyAt(fills, n).lots);
    hide Chronological, Net, Play;
    PositiveNeverTouches(fills);
    LotsHoldLargestSuffix(fills, n);
  }

  // -------------------------------------------------------- first in, first out

  /** Every unit ever bought, in the order of the fills, the first of which is number `k`. */
  function Purchases(k: nat, fills: seq<Fill>): seq<Unit>
    decreases |fills|
  {
    if fills == [] then []
    else
      (if fills[0].isBuy then seq(NonNegative(fills[0].qty), i => Unit(k, fills[0].price)) else [])
      + Purchases(k + 1, fills[1..])
  }

  lemma PurchasesSteps(k: nat, fills: seq<Fill>)
    requires fills != []
    ensures fills[0].isBuy ==>
              Purchases(k, fills)
              == Copies(Unit(k, fills[0].price), NonNegative(fills[0].qty)) + Purchases(k + 1, fills[1..])
    ensures !fills[0].isBuy ==> Purchases(k, fills) == Purchases(k + 1, fills[1..])
  {
    var u := Unit(k, fills[0].price);
    assert seq(NonNegative(fills[0].qty), i => u) == Copies(u, NonNegative(fills[0].qty));
    assert [] + Purchases(k + 1, fills[1..]) == Purchases(k + 1, fills[1..]);
  }

  lemma StepOnQueue(b: Book, k: nat, f: Fill)
    ensures var next := UnitStep(b, k, f);
            && (f.isBuy ==>
                  next.matched == b.matched
                  && next.queue == b.queue + Copies(Unit(k, f.price), NonNegative(f.qty)))
            && (!f.isBuy ==>
                  0 <= next.matched - b.matched <= |b.queue| && next.queue == b.queue[next.matched - b.matched..])
  {
    hide Copies, LotsOf, WinningLots;
  }

  /** `queue` is `bought` less its first `m` units. */
  ghost predicate LeftOf(bought: seq<Unit>, m: int, queue: seq<Unit>) {
    0 <= m <= |bought| && queue == bought[m..]
  }

  /** The queue is what was bought, in order, less as many of the oldest units as were
      matched. */
  lemma {:induction false} OldestGoFirst(b: Book, k: nat, fills: seq<Fill>)
    ensures var after := UnitPlay(b, k, fills);
            LeftOf(b.queue + Purchases(k, fills), after.matched - b.matched, after.queue)
    decreases |fills|
  {
    hide Copies, UnitStep, LeftOf;
    if fills == [] {
      NothingLeft(b.queue);
    } else {
      var f, next, later := fills[0], UnitStep(b, k, fills[0]), Purchases(k + 1, fills[1..]);
      var after := UnitPlay(next, k + 1, fills[1..]);
      OldestGoFirst(next, k + 1, fills[1..]);
      PurchasesSteps(k, fills);
      StepOnQueue(b, k, f);
      if f.isBuy {
        Joined(b.queue, Copies(Unit(k, f.price), NonNegative(f.qty)), later);
      } else {
        DropsFront(b.queue, later, next.matched - b.matched, after.matched - next.matched, after.queue);
      }
    }
  }

  lemma NothingLeft(queue: seq<Unit>)
    ensures LeftOf(queue + [], 0, queue)
  {
  }

  lemma Joined(a: seq<Unit>, b: seq<Unit>, c: seq<Unit>)
    ensures a + b + c == a + (b + c)
  {
  }

  lemma DropsFront(queue: seq<Unit>, later: seq<Unit>, m: nat, n: int, rest: seq<Unit>)
    requires m <= |queue| && LeftOf(queue[m..] + later, n, rest)
    ensures LeftOf(queue + later, m + n, rest)
  {
    assert (queue[m..] + later)[n..] == (queue + later)[m + n..];
  }
}

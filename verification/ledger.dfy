/** The ledger accumulator. Decimal parsing is a foreign library and so a parameter. */
module Ledger {
  import opened Common

  datatype LedgerLeg = LedgerLeg(asset: string, amount: string, isCredit: bool)

  datatype LedgerEvent = LedgerEvent(
    sourceNamespace: string, sourceId: string, economicTimeMs: nat, observedTimeMs: nat,
    legs: seq<LedgerLeg>, fee: Option<LedgerLeg>)
  {
    function Key(): (string, string) { (sourceNamespace, sourceId) }

    /** The legs, and the fee after them. */
    function Entries(): seq<LedgerLeg> { legs + if fee.Some? then [fee.value] else [] }
  }

  datatype LedgerError =
    | Conflict(sourceNamespace: string, sourceId: string)
    | InvalidAmount(asset: string, amount: string)

  type Parser = string -> Option<real>
  type Events = map<(string, string), LedgerEvent>
  type Balances = map<string, real>

  function SignedAmount(parse: Parser, leg: LedgerLeg): Result<real, LedgerError> {
    match parse(leg.amount)
    case None => Err(InvalidAmount(leg.asset, leg.amount))
    case Some(amount) => Ok(if leg.isCredit then amount else -amount)
  }

  /** What a leg adds to its asset, nothing if it does not parse. */
  function Signed(parse: Parser, leg: LedgerLeg): real {
    match SignedAmount(parse, leg)
    case Ok(amount) => amount
    case Err(_) => 0.0
  }

  predicate Parses(parse: Parser, legs: seq<LedgerLeg>) {
    forall i :: 0 <= i < |legs| ==> parse(legs[i].amount).Some?
  }

  function BalanceOf(b: Balances, asset: string): real { if asset in b then b[asset] else 0.0 }

  function Applied(parse: Parser, b: Balances, legs: seq<LedgerLeg>): Balances
    decreases |legs|
  {
    if legs == [] then b
    else Applied(parse, b[legs[0].asset := BalanceOf(b, legs[0].asset) + Signed(parse, legs[0])], legs[1..])
  }

  function Deltas(parse: Parser, legs: seq<LedgerLeg>): (r: seq<real>)
    ensures |r| == |legs|
  {
    seq(|legs|, i requires 0 <= i < |legs| => Signed(parse, legs[i]))
  }

  ghost predicate FailsAs(parse: Parser, leg: LedgerLeg, e: LedgerError) {
    parse(leg.amount).None? && e == InvalidAmount(leg.asset, leg.amount)
  }

  /** Events are told apart by namespace and source id together. */
  lemma SameKeyIff(e: LedgerEvent, f: LedgerEvent)
    ensures e.Key() == f.Key() <==> e.sourceNamespace == f.sourceNamespace && e.sourceId == f.sourceId
  {
  }

  lemma AppliedStep(parse: Parser, b: Balances, legs: seq<LedgerLeg>, i: nat)
    requires i < |legs|
    ensures Applied(parse, b, legs[i..])
         == Applied(parse, b[legs[i].asset := BalanceOf(b, legs[i].asset) + Signed(parse, legs[i])], legs[i + 1..])
  {
    assert legs[i..][0] == legs[i] && legs[i..][1..] == legs[i + 1..];
  }

  class Book {
    const parse: Parser
    var events: Events
    var balances: Balances

    /** Each balance is the sum of the recorded events, each counted once. */
    ghost predicate Valid()
      reads this
    {
      Reconciled(parse, State(events, balances))
    }

    constructor (parse: Parser)
      ensures this.parse == parse && events == map[] && balances == map[]
      ensures Valid()
    {
      this.parse := parse;
      events, balances := map[], map[];
      new;
      EmptyIsReconciled(parse);
    }

    /** Parses every leg before anything changes; the first that fails is the error. */
    method ParseLegs(legs: seq<LedgerLeg>) returns (r: Result<seq<real>, LedgerError>)
      ensures Parses(parse, legs) ==> r == Ok(Deltas(parse, legs))
      ensures !Parses(parse, legs) ==>
                r.Err? && exists i :: 0 <= i < |legs| && Parses(parse, legs[..i]) && FailsAs(parse, legs[i], r.error)
    {
      var deltas: seq<real> := [];
      for i := 0 to |legs|
        invariant Parses(parse, legs[..i]) && |deltas| == i
        invariant forall k :: 0 <= k < i ==> deltas[k] == Signed(parse, legs[k])
      {
        var amount := SignedAmount(parse, legs[i]);
        if amount.Err? {
          return Err(amount.error);
        }
        deltas := deltas + [amount.value];
      }
      assert legs[..|legs|] == legs && deltas == Deltas(parse, legs);
      r := Ok(deltas);
    }

    /** Records an event once. A repeat of the same event and every refusal change
        nothing; a refusal names the conflict or the first amount that does not parse. */
    method Ingest(event: LedgerEvent) returns (r: Result<(), LedgerError>)
      requires Valid()
      modifies this
      ensures Valid()
      ensures State(events, balances) == Ingested(parse, State(old(events), old(balances)), event)
      ensures event.Key() in old(events) ==>
                && events == old(events) && balances == old(balances)
                && r == if old(events)[event.Key()] == event then Ok(())
                        else Err(Conflict(event.sourceNamespace, event.sourceId))
      ensures event.Key() !in old(events) && Parses(parse, event.Entries()) ==>
                && r == Ok(()) && events == old(events)[event.Key() := event]
                && balances == Applied(parse, old(balances), event.Entries())
      ensures event.Key() !in old(events) && !Parses(parse, event.Entries()) ==>
                && events == old(events) && balances == old(balances) && r.Err?
                && exists i :: 0 <= i < |event.Entries()| && Parses(parse, event.Entries()[..i])
                     && FailsAs(parse, event.Entries()[i], r.error)
    {
      hide Parses, Signed, FailsAs, Reconciled;
      IngestKeepsReconciled(parse, State(events, balances), event);
      var key := event.Key();
      if key in events {
        if events[key] == event {
          return Ok(());
        }
        return Err(Conflict(key.0, key.1));
      }
      var legs := event.Entries();
      var deltas := ParseLegs(legs);
      if deltas.Err? {
        return Err(deltas.error);
      }
      for i := 0 to |legs|
        invariant Applied(parse, balances, legs[i..]) == Applied(parse, old(balances), legs)
        invariant events == old(events)
      {
        AppliedStep(parse, balances, legs, i);
        balances := balances[legs[i].asset := BalanceOf(balances, legs[i].asset) + deltas.value[i]];
      }
      events := events[key := event];
      r := Ok(());
    }

    /** The signed legs and fees of every recorded event in this asset. */
    function Balance(asset: string): (r: real)
      requires Valid()
      reads this
      ensures r == NetOfAll(parse, Recorded(events), asset)
    {
      BalanceOf(balances, asset)
    }
  }

  // ------------------------------------------------------------ what a ledger holds

  datatype State = State(events: Events, balances: Balances)

  /** The state after one ingest, as `Book.Ingest` leaves it. */
  function Ingested(parse: Parser, s: State, e: LedgerEvent): State {
    if e.Key() in s.events || !Parses(parse, e.Entries()) then s
    else State(s.events[e.Key() := e], Applied(parse, s.balances, e.Entries()))
  }

  function IngestAll(parse: Parser, s: State, list: seq<LedgerEvent>): State
    decreases |list|
  {
    if list == [] then s else IngestAll(parse, Ingested(parse, s, list[0]), list[1..])
  }

  const EMPTY := State(map[], map[])

  /** The signed legs, the fee included, of one event in one asset. */
  function Net(parse: Parser, legs: seq<LedgerLeg>, asset: string): real {
    if legs == [] then 0.0
    else (if legs[0].asset == asset then Signed(parse, legs[0]) else 0.0) + Net(parse, legs[1..], asset)
  }

  /** The same summed over a set of events, each once. */
  ghost function NetOfAll(parse: Parser, events: set<LedgerEvent>, asset: string): real {
    if events == {} then 0.0
    else
      var e :| e in events;
      Net(parse, e.Entries(), asset) + NetOfAll(parse, events - {e}, asset)
  }

  lemma {:induction false} NetOfAllAdds(parse: Parser, events: set<LedgerEvent>, e: LedgerEvent, asset: string)
    requires e !in events
    ensures NetOfAll(parse, events + {e}, asset) == NetOfAll(parse, events, asset) + Net(parse, e.Entries(), asset)
    decreases |events|
  {
    hide Net;
    var all := events + {e};
    var x :| x in all
             && NetOfAll(parse, all, asset) == Net(parse, x.Entries(), asset) + NetOfAll(parse, all - {x}, asset);
    if x == e {
      assert all - {x} == events;
    } else {
      assert all - {x} == events - {x} + {e};
      assert events - {x} + {x} == events;
      NetOfAllAdds(parse, events - {x}, e, asset);
      NetOfAllAdds(parse, events - {x}, x, asset);
    }
  }

  ghost function Recorded(events: Events): set<LedgerEvent> { set k | k in events :: events[k] }

  ghost function Mentioned(legs: seq<LedgerLeg>): set<string> { set leg | leg in legs :: leg.asset }

  ghost predicate KeysMatch(events: Events) { forall k :: k in events ==> events[k].Key() == k }

  /** Each balance is the sum of the recorded events' signed legs and fees, each event
      counted once, and a balance exists for exactly the assets they mention. */
  ghost predicate Reconciled(parse: Parser, s: State) {
    && KeysMatch(s.events)
    && (forall asset :: BalanceOf(s.balances, asset) == NetOfAll(parse, Recorded(s.events), asset))
    && (forall asset :: asset in s.balances <==> exists e :: e in Recorded(s.events) && asset in Mentioned(e.Entries()))
  }

  lemma {:induction false} AppliedNet(parse: Parser, b: Balances, legs: seq<LedgerLeg>, asset: string)
    ensures BalanceOf(Applied(parse, b, legs), asset) == BalanceOf(b, asset) + Net(parse, legs, asset)
    ensures asset in Applied(parse, b, legs) <==> asset in b || asset in Mentioned(legs)
    decreases |legs|
  {
    hide Signed;
    if legs != [] {
      var leg := legs[0];
      AppliedNet(parse, b[leg.asset := BalanceOf(b, leg.asset) + Signed(parse, leg)], legs[1..], asset);
      assert legs == [leg] + legs[1..];
      assert Mentioned(legs) == {leg.asset} + Mentioned(legs[1..]);
    }
  }

  lemma RecordedAdds(events: Events, e: LedgerEvent)
    requires KeysMatch(events) && e.Key() !in events
    ensures e !in Recorded(events) && Recorded(events[e.Key() := e]) == Recorded(events) + {e}
  {
    var events' := events[e.Key() := e];
    forall k | k in events
      ensures events[k] in Recorded(events') && events[k] != e
    {
      assert events'[k] == events[k];
    }
    assert events'[e.Key()] == e;
  }

  lemma IngestKeepsReconciled(parse: Parser, s: State, e: LedgerEvent)
    requires Reconciled(parse, s)
    ensures Reconciled(parse, Ingested(parse, s, e))
  {
    hide Net, NetOfAll, Applied, Mentioned, Parses;
    var s' := Ingested(parse, s, e);
    if s' != s {
      RecordedAdds(s.events, e);
      forall asset
        ensures BalanceOf(s'.balances, asset) == NetOfAll(parse, Recorded(s'.events), asset)
        ensures asset in s'.balances <==> exists x :: x in Recorded(s'.events) && asset in Mentioned(x.Entries())
      {
        AppliedNet(parse, s.balances, e.Entries(), asset);
        NetOfAllAdds(parse, Recorded(s.events), e, asset);
      }
    }
  }

  /** Every reachable ledger is reconciled. */
  lemma {:induction false} ReachableIsReconciled(parse: Parser, s: State, list: seq<LedgerEvent>)
    requires Reconciled(parse, s)
    ensures Reconciled(parse, IngestAll(parse, s, list))
    decreases |list|
  {
    hide Reconciled, Ingested;
    if list != [] {
      IngestKeepsReconciled(parse, s, list[0]);
      ReachableIsReconciled(parse, Ingested(parse, s, list[0]), list[1..]);
    }
  }

  lemma EmptyIsReconciled(parse: Parser)
    ensures Reconciled(parse, EMPTY)
  {
    assert Recorded(map[]) == {};
  }

  // ----------------------------------------------------------- order and repeats

  ghost predicate ConflictFree(list: seq<LedgerEvent>) {
    forall i, j :: 0 <= i < |list| && 0 <= j < |list| && list[i].Key() == list[j].Key() ==> list[i] == list[j]
  }

  ghost predicate AllParse(parse: Parser, list: seq<LedgerEvent>) {
    forall i :: 0 <= i < |list| ==> Parses(parse, list[i].Entries())
  }

  /** The ledger records exactly the listed events on top of what it held. */
  lemma {:induction false} RecordsList(parse: Parser, s: State, list: seq<LedgerEvent>)
    requires KeysMatch(s.events) && AllParse(parse, list) && ConflictFree(list)
    requires forall i :: 0 <= i < |list| && list[i].Key() in s.events ==> s.events[list[i].Key()] == list[i]
    ensures KeysMatch(IngestAll(parse, s, list).events)
    ensures forall e :: e in Recorded(IngestAll(parse, s, list).events) <==> e in Recorded(s.events) || e in list
    decreases |list|
  {
    hide Parses, Applied;
    if list != [] {
      var e, rest := list[0], list[1..];
      var s' := Ingested(parse, s, e);
      assert list == [e] + rest;
      if e.Key() in s.events {
        assert s.events[e.Key()] in Recorded(s.events);
      } else {
        RecordedAdds(s.events, e);
      }
      RecordsList(parse, s', rest);
    }
  }

  /** A reconciled ledger is determined by the set of events it recorded. */
  lemma EventsDetermineLedger(parse: Parser, s: State, s': State)
    requires Reconciled(parse, s) && Reconciled(parse, s') && Recorded(s.events) == Recorded(s'.events)
    ensures s == s'
  {
    hide NetOfAll;
    forall k
      ensures k in s.events <==> k in s'.events
      ensures k in s.events && k in s'.events ==> s.events[k] == s'.events[k]
    {
      if k in s.events {
        assert s.events[k] in Recorded(s'.events);
        var k' :| k' in s'.events && s'.events[k'] == s.events[k];
        assert k' == k;
      }
      if k in s'.events {
        assert s'.events[k] in Recorded(s.events);
        var k' :| k' in s.events && s.events[k'] == s'.events[k];
        assert k' == k;
      }
    }
    assert s.events == s'.events;
    forall asset
      ensures asset in s.balances <==> asset in s'.balances
      ensures asset in s.balances && asset in s'.balances ==> s.balances[asset] == s'.balances[asset]
    {
      assert BalanceOf(s.balances, asset) == BalanceOf(s'.balances, asset);
    }
    assert s.balances == s'.balances;
  }

  /** Any order and any repetition of a conflict-free list of events that parse
      leaves the same ledger. */
  lemma OrderAndRepeatsAreInvisible(parse: Parser, a: seq<LedgerEvent>, b: seq<LedgerEvent>)
    requires ConflictFree(a) && AllParse(parse, a)
    requires forall e :: e in a <==> e in b
    ensures IngestAll(parse, EMPTY, a) == IngestAll(parse, EMPTY, b)
  {
    hide Parses, Reconciled, Recorded, IngestAll;
    EmptyIsReconciled(parse);
    ReachableIsReconciled(parse, EMPTY, a);
    ReachableIsReconciled(parse, EMPTY, b);
    SameListFacts(parse, a, b);
    RecordsList(parse, EMPTY, a);
    RecordsList(parse, EMPTY, b);
    assert Recorded(IngestAll(parse, EMPTY, a).events) == Recorded(IngestAll(parse, EMPTY, b).events);
    EventsDetermineLedger(parse, IngestAll(parse, EMPTY, a), IngestAll(parse, EMPTY, b));
  }

  lemma SameListFacts(parse: Parser, a: seq<LedgerEvent>, b: seq<LedgerEvent>)
    requires ConflictFree(a) && AllParse(parse, a) && forall e :: e in a <==> e in b
    ensures ConflictFree(b) && AllParse(parse, b)
  {
    hide Parses;
    forall i | 0 <= i < |b|
      ensures Parses(parse, b[i].Entries())
    {
      assert b[i] in a;
    }
    forall i, j | 0 <= i < |b| && 0 <= j < |b| && b[i].Key() == b[j].Key()
      ensures b[i] == b[j]
    {
      assert b[i] in a && b[j] in a;
    }
  }

  // ------------------------------------------------------- credits less debits

  /** The parsed amounts of the entries in one asset on one side. */
  function SideOf(parse: Parser, legs: seq<LedgerLeg>, asset: string, credit: bool): real {
    if legs == [] then 0.0
    else
      (match parse(legs[0].amount)
       case Some(amount) => if legs[0].asset == asset && legs[0].isCredit == credit then amount else 0.0
       case None => 0.0)
      + SideOf(parse, legs[1..], asset, credit)
  }

  /** An event's side in one asset: its legs and, when it has one, its fee. */
  function EventSide(parse: Parser, e: LedgerEvent, asset: string, credit: bool): real {
    SideOf(parse, e.legs, asset, credit)
    + match e.fee case Some(fee) => SideOf(parse, [fee], asset, credit) case None => 0.0
  }

  lemma {:induction false} NetIsSides(parse: Parser, legs: seq<LedgerLeg>, asset: string)
    ensures Net(parse, legs, asset) == SideOf(parse, legs, asset, true) - SideOf(parse, legs, asset, false)
  {
    if legs != [] {
      NetIsSides(parse, legs[1..], asset);
    }
  }

  lemma {:induction false} SideSplits(parse: Parser, a: seq<LedgerLeg>, b: seq<LedgerLeg>, asset: string, credit: bool)
    ensures SideOf(parse, a + b, asset, credit) == SideOf(parse, a, asset, credit) + SideOf(parse, b, asset, credit)
  {
    if a == [] {
      assert a + b == b;
    } else {
      assert (a + b)[1..] == a[1..] + b;
      SideSplits(parse, a[1..], b, asset, credit);
    }
  }

  lemma EventIsSides(parse: Parser, e: LedgerEvent, asset: string)
    ensures Net(parse, e.Entries(), asset) == EventSide(parse, e, asset, true) - EventSide(parse, e, asset, false)
  {
    var extra := if e.fee.Some? then [e.fee.value] else [];
    NetIsSides(parse, e.Entries(), asset);
    SideSplits(parse, e.legs, extra, asset, true);
    SideSplits(parse, e.legs, extra, asset, false);
  }

  /** A newly recorded event moves each balance by its credits less its debits, the fee
      included. */
  lemma IngestMovesBalances(parse: Parser, s: State, e: LedgerEvent, asset: string)
    requires e.Key() !in s.events && Parses(parse, e.Entries())
    ensures BalanceOf(Ingested(parse, s, e).balances, asset)
         == BalanceOf(s.balances, asset) + EventSide(parse, e, asset, true) - EventSide(parse, e, asset, false)
  {
    hide Net, Applied, EventSide;
    AppliedNet(parse, s.balances, e.Entries(), asset);
    EventIsSides(parse, e, asset);
  }

  /** One side of a list of events. */
  function ListSide(parse: Parser, list: seq<LedgerEvent>, asset: string, credit: bool): real {
    if list == [] then 0.0 else EventSide(parse, list[0], asset, credit) + ListSide(parse, list[1..], asset, credit)
  }

  /** `list` names each recorded event once. */
  ghost predicate Lists(list: seq<LedgerEvent>, events: set<LedgerEvent>) {
    && (forall i, j :: 0 <= i < j < |list| ==> list[i] != list[j])
    && forall e :: e in events <==> e in list
  }

  lemma {:induction false} ListedNet(parse: Parser, list: seq<LedgerEvent>, events: set<LedgerEvent>, asset: string)
    requires Lists(list, events)
    ensures NetOfAll(parse, events, asset) == ListSide(parse, list, asset, true) - ListSide(parse, list, asset, false)
  {
    hide Net, EventSide, NetOfAll;
    if list == [] {
      assert events == {};
      NothingNets(parse, asset);
    } else {
      var e, rest := list[0], list[1..];
      assert list == [e] + rest;
      var others := events - {e};
      forall x
        ensures x in others <==> x in rest
      {
        if x in rest {
          var i :| 0 <= i < |rest| && rest[i] == x;
          assert list[i + 1] == x;
        }
      }
      assert Lists(rest, others);
      ListedNet(parse, rest, others, asset);
      NetOfAllAdds(parse, others, e, asset);
      assert others + {e} == events;
      EventIsSides(parse, e, asset);
    }
  }

  lemma NothingNets(parse: Parser, asset: string)
    ensures NetOfAll(parse, {}, asset) == 0.0
  {
  }

  /** A balance is the credits less the debits of the recorded events, in whatever
      order they are listed. */
  lemma BalanceInFull(book: Book, asset: string, list: seq<LedgerEvent>)
    requires book.Valid() && Lists(list, Recorded(book.events))
    ensures book.Balance(asset)
         == ListSide(book.parse, list, asset, true) - ListSide(book.parse, list, asset, false)
  {
    hide NetOfAll, ListSide;
    ListedNet(book.parse, list, Recorded(book.events), asset);
  }
}

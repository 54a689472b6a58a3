/** Single-use sign-in challenges kept in memory, in the order they were issued.
    Random values and the clock are parameters. */
module NonceStore {
  import opened Common

  const NONCE_TTL_MS := 5 * 60 * 1000
  const NONCE_CAPACITY := 10_000

  datatype Entry = Entry(nonce: string, expiresAt: int)

  // ------------------------------------------------------ the ordered map, as values

  function Find(s: seq<Entry>, nonce: string): Option<int> {
    if s == [] then None else if s[0].nonce == nonce then Some(s[0].expiresAt) else Find(s[1..], nonce)
  }

  function Without(s: seq<Entry>, nonce: string): seq<Entry> {
    if s == [] then [] else if s[0].nonce == nonce then s[1..] else [s[0]] + Without(s[1..], nonce)
  }

  /** A key already present keeps its place. */
  function Put(s: seq<Entry>, e: Entry): seq<Entry> {
    if s == [] then [e] else if s[0].nonce == e.nonce then [e] + s[1..] else [s[0]] + Put(s[1..], e)
  }

  function Unexpired(s: seq<Entry>, now: int): seq<Entry> {
    if s == [] then [] else (if s[0].expiresAt <= now then [] else [s[0]]) + Unexpired(s[1..], now)
  }

  /** The newest entries that leave room for one more. */
  function Newest(s: seq<Entry>): seq<Entry> {
    if |s| >= NONCE_CAPACITY then s[|s| - NONCE_CAPACITY + 1..] else s
  }

  function Issued(s: seq<Entry>, nonce: string, now: int): seq<Entry> {
    Put(Newest(if |s| >= NONCE_CAPACITY then Unexpired(s, now) else s), Entry(nonce, now + NONCE_TTL_MS))
  }

  lemma {:induction false} UnexpiredSplits(a: seq<Entry>, b: seq<Entry>, now: int)
    ensures Unexpired(a + b, now) == Unexpired(a, now) + Unexpired(b, now)
  {
    if a == [] {
      assert a + b == b;
    } else {
      assert (a + b)[1..] == a[1..] + b;
      UnexpiredSplits(a[1..], b, now);
    }
  }

  class MemoryNonceStore {
    var issued: seq<Entry>

    constructor ()
      ensures issued == []
    {
      issued := [];
    }

    method Issue(nonce: string, now: int)
      modifies this
      ensures issued == Issued(old(issued), nonce, now)
    {
      if |issued| >= NONCE_CAPACITY {
        EvictExpired(now);
      }
      ghost var full := issued;
      while |issued| >= NONCE_CAPACITY
        invariant |issued| <= |full| && issued == full[|full| - |issued|..]
        invariant |full| >= NONCE_CAPACITY ==> |issued| >= NONCE_CAPACITY - 1
        invariant |full| < NONCE_CAPACITY ==> issued == full
      {
        issued := issued[1..];
      }
      issued := Put(issued, Entry(nonce, now + NONCE_TTL_MS));
    }

    method Consume(nonce: string, now: int) returns (ok: bool)
      modifies this
      ensures issued == Without(old(issued), nonce)
      ensures ok <==> Find(old(issued), nonce).Some? && Find(old(issued), nonce).value > now
    {
      var expiresAt := Find(issued, nonce);
      if expiresAt.None? {
        NothingToRemove(issued, nonce);
        return false;
      }
      issued := Without(issued, nonce);
      ok := expiresAt.value > now;
    }

    method EvictExpired(now: int)
      modifies this
      ensures issued == Unexpired(old(issued), now)
    {
      var i := 0;
      ghost var seen, all := 0, issued;
      while i < |issued|
        invariant i <= |issued| && 0 <= seen <= |all| && issued[i..] == all[seen..]
        invariant issued[..i] == Unexpired(all[..seen], now)
        decreases |issued| - i
      {
        assert issued[i..][0] == issued[i] && issued[i..][1..] == issued[i + 1..];
        assert all[seen..][0] == all[seen] && all[seen..][1..] == all[seen + 1..];
        UnexpiredSplits(all[..seen], [all[seen]], now);
        assert all[..seen + 1] == all[..seen] + [all[seen]];
        if issued[i].expiresAt <= now {
          issued := issued[..i] + issued[i + 1..];
        } else {
          assert issued[..i + 1] == issued[..i] + [issued[i]];
          i := i + 1;
        }
        seen := seen + 1;
      }
      assert all[..seen] == all && issued[..i] == issued;
    }
  }

  lemma {:induction false} NothingToRemove(s: seq<Entry>, nonce: string)
    requires Find(s, nonce).None?
    ensures Without(s, nonce) == s
  {
    if s != [] {
      NothingToRemove(s[1..], nonce);
    }
  }

  // ------------------------------------------------------------------- whole runs

  datatype Op = Issue(nonce: string, now: int) | Consume(nonce: string, now: int)

  function After(s: seq<Entry>, op: Op): seq<Entry> {
    match op
    case Issue(nonce, now) => Issued(s, nonce, now)
    case Consume(nonce, _) => Without(s, nonce)
  }

  function AfterAll(s: seq<Entry>, ops: seq<Op>): seq<Entry>
    decreases |ops|
  {
    if ops == [] then s else AfterAll(After(s, ops[0]), ops[1..])
  }

  /** Whether operation `i` of a run is a consume that succeeds. */
  predicate AcceptedAt(ops: seq<Op>, i: nat)
    requires i < |ops|
  {
    var found := Find(AfterAll([], ops[..i]), ops[i].nonce);
    ops[i].Consume? && found.Some? && found.value > ops[i].now
  }

  /** Every issued value is new. */
  ghost predicate FreshNonces(ops: seq<Op>) {
    forall i, j :: 0 <= i < j < |ops| && ops[i].Issue? && ops[j].Issue? ==> ops[i].nonce != ops[j].nonce
  }

  ghost predicate ClockRuns(ops: seq<Op>) {
    forall i, j :: 0 <= i < j < |ops| ==> ops[i].now <= ops[j].now
  }

  ghost predicate Distinct(s: seq<Entry>) {
    forall i, j :: 0 <= i < j < |s| ==> s[i].nonce != s[j].nonce
  }

  lemma {:induction false} AfterAllSplits(s: seq<Entry>, a: seq<Op>, b: seq<Op>)
    ensures AfterAll(s, a + b) == AfterAll(AfterAll(s, a), b)
    decreases |a|
  {
    hide After;
    if a == [] {
      assert a + b == b;
    } else {
      assert (a + b)[1..] == a[1..] + b;
      AfterAllSplits(After(s, a[0]), a[1..], b);
    }
  }

  lemma AfterAllStep(ops: seq<Op>, i: nat)
    requires i < |ops|
    ensures AfterAll([], ops[..i + 1]) == After(AfterAll([], ops[..i]), ops[i])
  {
    hide After;
    assert ops[..i + 1] == ops[..i] + [ops[i]];
    AfterAllSplits([], ops[..i], [ops[i]]);
    assert [ops[i]][1..] == [];
  }

  // -- sizes

  lemma {:induction false} Sizes(s: seq<Entry>, e: Entry, nonce: string, now: int)
    ensures |Put(s, e)| <= |s| + 1 && |Without(s, nonce)| <= |s| && |Unexpired(s, now)| <= |s|
  {
    if s != [] {
      Sizes(s[1..], e, nonce, now);
    }
  }

  /** The table never holds more than its capacity. */
  lemma {:induction false} NeverOverCapacity(ops: seq<Op>, i: nat)
    requires i <= |ops|
    ensures |AfterAll([], ops[..i])| <= NONCE_CAPACITY
  {
    if i > 0 {
      NeverOverCapacity(ops, i - 1);
      AfterAllStep(ops, i - 1);
      OpSize(AfterAll([], ops[..i - 1]), ops[i - 1]);
    }
  }

  /** Eviction keeps what expires later than `now` and nothing else, in order. */
  lemma UnexpiredInFull(s: seq<Entry>, e: Entry, now: int)
    ensures Unexpired([], now) == []
    ensures Unexpired(s + [e], now) == if e.expiresAt > now then Unexpired(s, now) + [e] else Unexpired(s, now)
  {
    UnexpiredSplits(s, [e], now);
    assert [e][1..] == [];
    assert Unexpired(s, now) + [] == Unexpired(s, now);
  }

  /** A consumed nonce leaves the table, and every other one stays, in order. */
  lemma {:induction false} WithoutInFull(s: seq<Entry>, nonce: string)
    requires Distinct(s)
    ensures (forall q :: 0 <= q < |s| ==> s[q].nonce != nonce) ==> Without(s, nonce) == s
    ensures forall q :: 0 <= q < |s| && s[q].nonce == nonce ==> Without(s, nonce) == s[..q] + s[q + 1..]
  {
    if s != [] {
      var rest := s[1..];
      assert s == [s[0]] + rest;
      WithoutInFull(rest, nonce);
      forall q | 0 <= q < |s| && s[q].nonce == nonce
        ensures Without(s, nonce) == s[..q] + s[q + 1..]
      {
        if q > 0 {
          assert rest[q - 1] == s[q];
          assert s[..q] == [s[0]] + rest[..q - 1] && s[q + 1..] == rest[q..];
        }
      }
    }
  }

  /** A new nonce goes last; one already held is renewed where it stands. */
  lemma {:induction false} PutInFull(s: seq<Entry>, e: Entry)
    requires Distinct(s)
    ensures (forall q :: 0 <= q < |s| ==> s[q].nonce != e.nonce) ==> Put(s, e) == s + [e]
    ensures forall q :: 0 <= q < |s| && s[q].nonce == e.nonce ==> Put(s, e) == s[q := e]
  {
    if s != [] {
      var rest := s[1..];
      assert s == [s[0]] + rest;
      PutInFull(rest, e);
      forall q | 0 <= q < |s| && s[q].nonce == e.nonce
        ensures Put(s, e) == s[q := e]
      {
        if q > 0 {
          assert rest[q - 1] == s[q];
          assert s[q := e] == [s[0]] + rest[q - 1 := e];
        }
      }
    }
  }

  /** Issuing evicts nothing below capacity; at capacity it drops the expired entries
      and then the oldest, until one place is free. */
  lemma IssueInFull(s: seq<Entry>, nonce: string, now: int)
    ensures var e, live := Entry(nonce, now + 300_000), Unexpired(s, now);
            && (|s| < 10_000 ==> Issued(s, nonce, now) == Put(s, e))
            && (|s| >= 10_000 && |live| < 10_000 ==> Issued(s, nonce, now) == Put(live, e))
            && (|s| >= 10_000 && |live| >= 10_000 ==> Issued(s, nonce, now) == Put(live[|live| - 9_999..], e))
  {
    hide Put, Unexpired;
  }

  lemma OpSize(s: seq<Entry>, op: Op)
    requires |s| <= NONCE_CAPACITY
    ensures |After(s, op)| <= NONCE_CAPACITY
  {
    match op
    case Issue(nonce, now) =>
      var e := Entry(nonce, now + NONCE_TTL_MS);
      Sizes(s, e, nonce, now);
      Sizes(Newest(if |s| >= NONCE_CAPACITY then Unexpired(s, now) else s), e, nonce, now);
    case Consume(nonce, now) => Sizes(s, Entry(nonce, 0), nonce, now);
  }

  // -- what is in the table, and where it came from

  lemma {:induction false} FoundIn(s: seq<Entry>, nonce: string, x: int)
    requires Find(s, nonce) == Some(x)
    ensures Entry(nonce, x) in s
  {
    if s != [] && s[0].nonce != nonce {
      FoundIn(s[1..], nonce, x);
      assert s == [s[0]] + s[1..];
    }
  }

  lemma {:induction false} MembersOfParts(s: seq<Entry>, e: Entry, nonce: string, now: int)
    ensures forall x :: x in Put(s, e) ==> x == e || x in s
    ensures forall x :: x in Without(s, nonce) ==> x in s
    ensures forall x :: x in Unexpired(s, now) ==> x in s
  {
    if s != [] {
      MembersOfParts(s[1..], e, nonce, now);
      assert s == [s[0]] + s[1..];
    }
  }

  lemma MembersAfter(s: seq<Entry>, op: Op)
    ensures forall x :: x in After(s, op) ==> x in s || (op.Issue? && x == Entry(op.nonce, op.now + NONCE_TTL_MS))
  {
    var e := Entry(op.nonce, op.now + NONCE_TTL_MS);
    MembersOfParts(s, e, op.nonce, op.now);
    if op.Issue? {
      var t := if |s| >= NONCE_CAPACITY then Unexpired(s, op.now) else s;
      MembersOfParts(Newest(t), e, op.nonce, op.now);
    }
  }

  /** Whatever the table holds was issued, and expires its time to live later. */
  lemma {:induction false} HeldWasIssued(ops: seq<Op>, i: nat, e: Entry) returns (k: nat)
    requires i <= |ops| && e in AfterAll([], ops[..i])
    ensures k < i && ops[k].Issue? && ops[k].nonce == e.nonce && e.expiresAt == ops[k].now + NONCE_TTL_MS
  {
    hide After;
    assert i > 0;
    k := i - 1;
    AfterAllStep(ops, k);
    MembersAfter(AfterAll([], ops[..k]), ops[k]);
    if e in AfterAll([], ops[..k]) {
      k := HeldWasIssued(ops, k, e);
    }
  }

  /** A nonce is accepted only after it was issued and before it expires. */
  lemma AcceptedWasIssued(ops: seq<Op>, i: nat) returns (k: nat)
    requires i < |ops| && AcceptedAt(ops, i)
    ensures k < i && ops[k].Issue? && ops[k].nonce == ops[i].nonce && ops[i].now < ops[k].now + NONCE_TTL_MS
  {
    var s := AfterAll([], ops[..i]);
    FoundIn(s, ops[i].nonce, Find(s, ops[i].nonce).value);
    k := HeldWasIssued(ops, i, Entry(ops[i].nonce, Find(s, ops[i].nonce).value));
  }

  lemma {:induction false} PartsDistinct(s: seq<Entry>, e: Entry, nonce: string, now: int)
    requires Distinct(s)
    ensures Distinct(Put(s, e)) && Distinct(Without(s, nonce)) && Distinct(Unexpired(s, now))
    ensures forall x :: x in Without(s, nonce) ==> x.nonce != nonce
  {
    if s != [] {
      var tail := s[1..];
      assert s == [s[0]] + tail;
      PartsDistinct(tail, e, nonce, now);
      MembersOfParts(tail, e, nonce, now);
      ConsDistinct(s[0], Without(tail, nonce));
      ConsDistinct(s[0], Unexpired(tail, now));
      if s[0].nonce == e.nonce {
        ConsDistinct(e, tail);
      } else {
        ConsDistinct(s[0], Put(tail, e));
      }
    }
  }

  lemma ConsDistinct(e: Entry, s: seq<Entry>)
    requires Distinct(s) && forall x :: x in s ==> x.nonce != e.nonce
    ensures Distinct([e] + s)
  {
    forall i | 0 <= i < |s|
      ensures s[i].nonce != e.nonce
    {
      assert s[i] in s;
    }
  }

  lemma {:induction false} AlwaysDistinct(ops: seq<Op>, i: nat)
    requires i <= |ops|
    ensures Distinct(AfterAll([], ops[..i]))
  {
    hide Distinct, Put, Without, Unexpired;
    if i == 0 {
      NothingDistinct();
    } else {
      AlwaysDistinct(ops, i - 1);
      AfterAllStep(ops, i - 1);
      var s, op := AfterAll([], ops[..i - 1]), ops[i - 1];
      var e := Entry(op.nonce, op.now + NONCE_TTL_MS);
      PartsDistinct(s, e, op.nonce, op.now);
      if op.Issue? {
        var t := if |s| >= NONCE_CAPACITY then Unexpired(s, op.now) else s;
        SuffixDistinct(t);
        PartsDistinct(Newest(t), e, op.nonce, op.now);
      }
    }
  }

  lemma NothingDistinct()
    ensures Distinct([])
  {
  }

  lemma SuffixDistinct(s: seq<Entry>)
    requires Distinct(s)
    ensures Distinct(Newest(s))
  {
  }

  lemma {:induction false} GoneUntilIssued(ops: seq<Op>, i: nat, j: nat, e: Entry)
    requires i < j <= |ops| && ops[i].Consume? && ops[i].nonce == e.nonce
    requires forall k :: i < k < j && ops[k].Issue? ==> ops[k].nonce != e.nonce
    ensures e !in AfterAll([], ops[..j])
  {
    hide After;
    AfterAllStep(ops, j - 1);
    var s := AfterAll([], ops[..j - 1]);
    if j == i + 1 {
      AlwaysDistinct(ops, i);
      ConsumedIsGone(s, ops[i], e);
    } else {
      GoneUntilIssued(ops, i, j - 1, e);
      MembersAfter(s, ops[j - 1]);
    }
  }

  lemma ConsumedIsGone(s: seq<Entry>, op: Op, e: Entry)
    requires Distinct(s) && op.Consume? && op.nonce == e.nonce
    ensures e !in After(s, op)
  {
    PartsDistinct(s, e, op.nonce, op.now);
  }

  /** Over any run with fresh nonces a nonce is accepted at most once. */
  lemma AcceptedOnce(ops: seq<Op>, i: nat, j: nat)
    requires FreshNonces(ops) && i < j < |ops| && ops[i].nonce == ops[j].nonce
    ensures !(AcceptedAt(ops, i) && AcceptedAt(ops, j))
  {
    if AcceptedAt(ops, i) && AcceptedAt(ops, j) {
      var k := AcceptedWasIssued(ops, i);
      var s := AfterAll([], ops[..j]);
      var e := Entry(ops[j].nonce, Find(s, ops[j].nonce).value);
      FoundIn(s, e.nonce, e.expiresAt);
      GoneUntilIssued(ops, i, j, e);
    }
  }

  // -- liveness

  /** `e` is held with at most `room` entries behind it. */
  ghost predicate Held(s: seq<Entry>, e: Entry, room: int) {
    exists q :: 0 <= q < |s| && s[q] == e && |s| - 1 - q <= room
  }

  lemma HeldUnexpired(s: seq<Entry>, e: Entry, room: int, now: int)
    requires Held(s, e, room) && e.expiresAt > now
    ensures Held(Unexpired(s, now), e, room)
  {
    var q :| 0 <= q < |s| && s[q] == e && |s| - 1 - q <= room;
    assert s == s[..q] + ([e] + s[q + 1..]);
    UnexpiredSplits(s[..q], [e] + s[q + 1..], now);
    UnexpiredSplits([e], s[q + 1..], now);
    assert [e][1..] == [];
    Sizes(s[q + 1..], e, e.nonce, now);
    var a, b := Unexpired(s[..q], now), Unexpired(s[q + 1..], now);
    assert Unexpired(s, now) == a + ([e] + b);
    assert (a + ([e] + b))[|a|] == e;
  }

  lemma HeldNewest(s: seq<Entry>, e: Entry, room: int)
    requires Held(s, e, room) && room < NONCE_CAPACITY - 1
    ensures Held(Newest(s), e, room)
  {
    var q :| 0 <= q < |s| && s[q] == e && |s| - 1 - q <= room;
    if |s| >= NONCE_CAPACITY {
      assert Newest(s)[q - (|s| - NONCE_CAPACITY + 1)] == e;
    }
  }

  lemma HeldPut(s: seq<Entry>, e: Entry, room: int, other: Entry)
    requires Held(s, e, room) && other.nonce != e.nonce
    ensures Held(Put(s, other), e, room + 1)
  {
    var q :| 0 <= q < |s| && s[q] == e && |s| - 1 - q <= room;
    PutAt(s, other, q);
    assert Put(s, other)[q] == e;
  }

  lemma {:induction false} PutAt(s: seq<Entry>, other: Entry, q: nat)
    requires q < |s| && s[q].nonce != other.nonce
    ensures |s| <= |Put(s, other)| <= |s| + 1 && Put(s, other)[q] == s[q]
  {
    if s[0].nonce == other.nonce {
      assert q > 0;
    } else if q > 0 {
      PutAt(s[1..], other, q - 1);
    } else {
      Sizes(s, other, other.nonce, 0);
      PutKeepsSize(s, other);
    }
  }

  lemma {:induction false} PutKeepsSize(s: seq<Entry>, other: Entry)
    ensures |Put(s, other)| >= |s|
  {
    if s != [] {
      PutKeepsSize(s[1..], other);
    }
  }

  lemma {:induction false} HeldWithout(s: seq<Entry>, e: Entry, room: int, nonce: string)
    requires Held(s, e, room) && nonce != e.nonce
    ensures Held(Without(s, nonce), e, room)
  {
    var q :| 0 <= q < |s| && s[q] == e && |s| - 1 - q <= room;
    if s[0].nonce == nonce {
      assert s[1..][q - 1] == e;
    } else if q == 0 {
      Sizes(s[1..], e, nonce, 0);
      assert Without(s, nonce)[0] == e;
    } else {
      assert s[1..][q - 1] == e;
      HeldWithout(s[1..], e, room, nonce);
      var r :| 0 <= r < |Without(s[1..], nonce)| && Without(s[1..], nonce)[r] == e
               && |Without(s[1..], nonce)| - 1 - r <= room;
      assert Without(s, nonce)[r + 1] == e;
    }
  }

  function IssueCount(ops: seq<Op>): nat {
    if ops == [] then 0 else (if ops[0].Issue? then 1 else 0) + IssueCount(ops[1..])
  }

  /** No operation names the nonce, and all happen before it expires. */
  ghost predicate LeavesAlone(ops: seq<Op>, e: Entry) {
    forall i :: 0 <= i < |ops| ==> ops[i].nonce != e.nonce && ops[i].now < e.expiresAt
  }

  lemma {:induction false} HeldThrough(s: seq<Entry>, ops: seq<Op>, e: Entry, room: int)
    requires Held(s, e, room) && LeavesAlone(ops, e) && room + IssueCount(ops) < NONCE_CAPACITY
    ensures Held(AfterAll(s, ops), e, room + IssueCount(ops))
    decreases |ops|
  {
    hide Held, Put, Without, Unexpired, Newest;
    if ops != [] {
      var op := ops[0];
      match op
      case Issue(nonce, now) =>
        if |s| >= NONCE_CAPACITY {
          HeldUnexpired(s, e, room, now);
        }
        var t := if |s| >= NONCE_CAPACITY then Unexpired(s, now) else s;
        HeldNewest(t, e, room);
        HeldPut(Newest(t), e, room, Entry(nonce, now + NONCE_TTL_MS));
        HeldThrough(After(s, op), ops[1..], e, room + 1);
      case Consume(nonce, _) =>
        HeldWithout(s, e, room, nonce);
        HeldThrough(After(s, op), ops[1..], e, room);
    }
  }

  lemma {:induction false} JustIssued(s: seq<Entry>, e: Entry)
    requires forall x :: x in s ==> x.nonce != e.nonce
    ensures Held(Put(s, e), e, 0)
  {
    if s == [] {
      assert Put(s, e)[0] == e;
    } else {
      assert s == [s[0]] + s[1..];
      JustIssued(s[1..], e);
      var q :| 0 <= q < |Put(s[1..], e)| && Put(s[1..], e)[q] == e && |Put(s[1..], e)| - 1 - q <= 0;
      assert Put(s, e)[q + 1] == e;
    }
  }

  lemma {:induction false} FindHeld(s: seq<Entry>, e: Entry, room: int)
    requires Held(s, e, room) && Distinct(s)
    ensures Find(s, e.nonce) == Some(e.expiresAt)
  {
    var q :| 0 <= q < |s| && s[q] == e && |s| - 1 - q <= room;
    if q > 0 {
      assert s[0].nonce != s[q].nonce;
      assert s[1..][q - 1] == e;
      FindHeld(s[1..], e, room);
    }
  }

  /** A nonce issued at `i`, named by nothing in between and followed by fewer than
      `NONCE_CAPACITY` issues, is accepted at `j` as long as it has not expired. */
  lemma LiveNonceIsAccepted(ops: seq<Op>, i: nat, j: nat)
    requires ClockRuns(ops) && FreshNonces(ops)
    requires i < j < |ops| && ops[i].Issue? && ops[j].Consume? && ops[i].nonce == ops[j].nonce
    requires ops[j].now < ops[i].now + NONCE_TTL_MS
    requires forall k :: i < k < j ==> ops[k].nonce != ops[i].nonce
    requires IssueCount(ops[i + 1..j]) < NONCE_CAPACITY
    ensures AcceptedAt(ops, j)
  {
    hide Held, After, Distinct;
    var e, before, between := Entry(ops[i].nonce, ops[i].now + NONCE_TTL_MS), AfterAll([], ops[..i]), ops[i + 1..j];
    NotYetIssued(ops, i);
    IssuePlaces(before, ops[i]);
    AfterAllStep(ops, i);
    HeldThrough(AfterAll([], ops[..i + 1]), between, e, 0);
    assert ops[..j] == ops[..i + 1] + between;
    AfterAllSplits([], ops[..i + 1], between);
    AlwaysDistinct(ops, j);
    FindHeld(AfterAll([], ops[..j]), e, IssueCount(between));
  }

  lemma NotYetIssued(ops: seq<Op>, i: nat)
    requires FreshNonces(ops) && i < |ops| && ops[i].Issue?
    ensures forall x :: x in AfterAll([], ops[..i]) ==> x.nonce != ops[i].nonce
  {
    forall x | x in AfterAll([], ops[..i])
      ensures x.nonce != ops[i].nonce
    {
      var k := HeldWasIssued(ops, i, x);
    }
  }

  lemma IssuePlaces(s: seq<Entry>, op: Op)
    requires op.Issue? && forall x :: x in s ==> x.nonce != op.nonce
    ensures Held(After(s, op), Entry(op.nonce, op.now + NONCE_TTL_MS), 0)
  {
    var e := Entry(op.nonce, op.now + NONCE_TTL_MS);
    MembersOfParts(s, e, op.nonce, op.now);
    JustIssued(Newest(if |s| >= NONCE_CAPACITY then Unexpired(s, op.now) else s), e);
  }
}

/** The stateful indexer and the in-memory projection store it drives. */
module Indexing {
  import opened Common
  import opened IndexerSpec

  datatype SyncError = UnknownBlock(number: nat) | DuplicateApply | RevertOfUnapplied

  /** The key of a block in the store: its number and hash. */
  function Key(b: IndexedBlock): (nat, string) { (b.header.number, b.header.hash) }

  /** Blocks are told apart by number and hash together. */
  lemma SameKeyIff(a: IndexedBlock, b: IndexedBlock)
    ensures Key(a) == Key(b) <==> a.header.number == b.header.number && a.header.hash == b.header.hash
  {
  }

  predicate HasKey(s: seq<IndexedBlock>, key: (nat, string)) {
    exists i :: 0 <= i < |s| && Key(s[i]) == key
  }

  function Without(s: seq<IndexedBlock>, key: (nat, string)): seq<IndexedBlock> {
    if s == [] then []
    else if Key(s[0]) == key then s[1..]
    else [s[0]] + Without(s[1..], key)
  }

  function Keys(s: seq<IndexedBlock>): multiset<(nat, string)> {
    multiset(seq(|s|, i requires 0 <= i < |s| => Key(s[i])))
  }

  /** The blocks of an apply log that count as applied when `net` says how many more
      applies than reverts each key saw: of every such key the last one logged, in
      the order they were logged. */
  function Survivors(log: seq<IndexedBlock>, net: multiset<(nat, string)>): seq<IndexedBlock> {
    if log == [] then []
    else (if net[Key(log[0])] > 0 && !HasKey(log[1..], Key(log[0])) then [log[0]] else []) + Survivors(log[1..], net)
  }

  lemma KeysSnoc(s: seq<IndexedBlock>, b: IndexedBlock)
    ensures Keys(s + [b]) == Keys(s) + multiset{Key(b)}
  {
    var keys := seq(|s|, i requires 0 <= i < |s| => Key(s[i]));
    assert seq(|s + [b]|, i requires 0 <= i < |s + [b]| => Key((s + [b])[i])) == keys + [Key(b)];
  }

  lemma KeysHas(s: seq<IndexedBlock>, key: (nat, string))
    ensures HasKey(s, key) <==> Keys(s)[key] > 0
  {
    var keys := seq(|s|, i requires 0 <= i < |s| => Key(s[i]));
    assert Keys(s)[key] > 0 <==> key in keys;
    if i :| 0 <= i < |s| && Key(s[i]) == key {
      assert keys[i] == key;
    }
  }

  lemma HasKeyCons(head: IndexedBlock, rest: seq<IndexedBlock>, key: (nat, string))
    ensures HasKey([head] + rest, key) <==> Key(head) == key || HasKey(rest, key)
  {
    var s := [head] + rest;
    assert s[0] == head;
    if i :| 0 <= i < |rest| && Key(rest[i]) == key {
      assert s[i + 1] == rest[i];
    }
    if i :| 0 < i < |s| && Key(s[i]) == key {
      assert s[i] == rest[i - 1];
    }
  }

  /** A key is among the survivors exactly when it was applied more often than reverted. */
  lemma {:induction false} SurvivorsHas(log: seq<IndexedBlock>, net: multiset<(nat, string)>, key: (nat, string))
    ensures HasKey(Survivors(log, net), key) <==> net[key] > 0 && HasKey(log, key)
  {
    hide HasKey;
    if log == [] {
      KeysHas(log, key);
    } else {
      var head, rest := log[0], log[1..];
      SurvivorsHas(rest, net, key);
      HasKeyCons(head, rest, key);
      HasKeyCons(head, Survivors(rest, net), key);
      assert log == [head] + rest;
      assert [] + Survivors(rest, net) == Survivors(rest, net);
    }
  }

  lemma HasKeySnoc(s: seq<IndexedBlock>, b: IndexedBlock, key: (nat, string))
    ensures HasKey(s + [b], key) <==> HasKey(s, key) || Key(b) == key
  {
    KeysSnoc(s, b);
    KeysHas(s, key);
    KeysHas(s + [b], key);
  }

  lemma {:induction false} SurvivorsSnoc(log: seq<IndexedBlock>, net: multiset<(nat, string)>, b: IndexedBlock)
    requires net[Key(b)] == 0
    ensures Survivors(log + [b], net + multiset{Key(b)}) == Survivors(log, net) + [b]
  {
    hide HasKey;
    var net' := net + multiset{Key(b)};
    if log == [] {
      assert log + [b] == [b];
      KeysHas([b][1..], Key(b));
      assert Survivors([b], net') == [b] + Survivors([b][1..], net');
    } else {
      var head, rest := log[0], log[1..];
      SurvivorsSnoc(rest, net, b);
      assert (log + [b])[0] == head && (log + [b])[1..] == rest + [b];
      HasKeySnoc(rest, b, Key(head));
      assert net'[Key(head)] > 0 && Key(head) != Key(b) ==> net[Key(head)] > 0;
    }
  }

  lemma {:induction false} WithoutAbsent(s: seq<IndexedBlock>, key: (nat, string))
    requires !HasKey(s, key)
    ensures Without(s, key) == s
  {
    if s != [] {
      assert s == [s[0]] + s[1..];
      hide HasKey;
      HasKeyCons(s[0], s[1..], key);
      WithoutAbsent(s[1..], key);
    }
  }

  lemma WithoutCons(head: IndexedBlock, rest: seq<IndexedBlock>, key: (nat, string))
    ensures Without([head] + rest, key) == if Key(head) == key then rest else [head] + Without(rest, key)
  {
    assert ([head] + rest)[1..] == rest;
  }

  lemma {:induction false} SurvivorsWithout(log: seq<IndexedBlock>, net: multiset<(nat, string)>, key: (nat, string))
    requires net[key] == 1
    ensures Survivors(log, net - multiset{key}) == Without(Survivors(log, net), key)
  {
    hide HasKey, Key;
    if log != [] {
      var head, rest, net' := log[0], log[1..], net - multiset{key};
      SurvivorsWithout(rest, net, key);
      WithoutCons(head, Survivors(rest, net), key);
      assert [] + Survivors(rest, net) == Survivors(rest, net);
      assert [] + Survivors(rest, net') == Survivors(rest, net');
      if Key(head) == key {
        assert Survivors(log, net') == Survivors(rest, net');
        SurvivorsHas(rest, net, key);
        if HasKey(rest, key) {
          assert Survivors(log, net) == Survivors(rest, net);
        } else {
          assert Survivors(log, net) == [head] + Survivors(rest, net);
          WithoutAbsent(Survivors(rest, net), key);
        }
      } else {
        assert net'[Key(head)] == net[Key(head)];
      }
    }
  }

  /** Blocks in insertion order, one per key, with a log of every call. */
  class MemoryProjectionStore {
    var applied: seq<IndexedBlock>
    var applyLog: seq<IndexedBlock>
    var revertLog: seq<IndexedBlock>

    /** How many more times each key was applied than reverted. */
    ghost function Net(): multiset<(nat, string)>
      reads this
    {
      Keys(applyLog) - Keys(revertLog)
    }

    /** No key was reverted more often than applied, or is applied twice over, and the
        applied blocks are those the two logs say survived. */
    ghost predicate Valid()
      reads this
    {
      && Keys(revertLog) <= Keys(applyLog)
      && (forall key :: Net()[key] <= 1)
      && applied == Survivors(applyLog, Net())
    }

    constructor ()
      ensures applied == [] && applyLog == [] && revertLog == []
      ensures Valid()
    {
      applied, applyLog, revertLog := [], [], [];
    }

    method Apply(block: IndexedBlock) returns (r: Result<(), SyncError>)
      requires Valid()
      modifies this
      ensures Valid()
      ensures revertLog == old(revertLog)
      ensures HasKey(old(applied), Key(block)) ==>
                r == Err(DuplicateApply) && applied == old(applied) && applyLog == old(applyLog)
      ensures !HasKey(old(applied), Key(block)) ==>
                r == Ok(()) && applied == old(applied) + [block] && applyLog == old(applyLog) + [block]
    {
      hide HasKey, Keys, Survivors;
      if HasKey(applied, Key(block)) {
        return Err(DuplicateApply);
      }
      SurvivorsHas(applyLog, Net(), Key(block));
      KeysHas(applyLog, Key(block));
      SurvivorsSnoc(applyLog, Net(), block);
      KeysSnoc(applyLog, block);
      assert Keys(applyLog + [block]) - Keys(revertLog) == Net() + multiset{Key(block)};
      applied := applied + [block];
      applyLog := applyLog + [block];
      r := Ok(());
    }

    method Revert(block: IndexedBlock) returns (r: Result<(), SyncError>)
      requires Valid()
      modifies this
      ensures Valid()
      ensures applyLog == old(applyLog)
      ensures !HasKey(old(applied), Key(block)) ==>
                r == Err(RevertOfUnapplied) && applied == old(applied) && revertLog == old(revertLog)
      ensures HasKey(old(applied), Key(block)) ==>
                r == Ok(()) && applied == Without(old(applied), Key(block)) && revertLog == old(revertLog) + [block]
    {
      hide HasKey, Keys, Survivors, Without;
      if !HasKey(applied, Key(block)) {
        return Err(RevertOfUnapplied);
      }
      SurvivorsHas(applyLog, Net(), Key(block));
      SurvivorsWithout(applyLog, Net(), Key(block));
      KeysSnoc(revertLog, block);
      assert Keys(applyLog) - Keys(revertLog + [block]) == Net() - multiset{Key(block)};
      applied := Without(applied, Key(block));
      revertLog := revertLog + [block];
      r := Ok(());
    }

    /** Blocks that survived every revert, in application order: what the two logs say,
        and so one block for every key applied more often than reverted. */
    method Current() returns (r: seq<IndexedBlock>)
      requires Valid()
      ensures r == Survivors(applyLog, Net())
      ensures forall key :: HasKey(r, key) <==> Keys(applyLog)[key] > Keys(revertLog)[key]
    {
      r := applied;
      hide HasKey, Keys, Survivors;
      forall key
        ensures HasKey(r, key) <==> Keys(applyLog)[key] > Keys(revertLog)[key]
      {
        SurvivorsHas(applyLog, Net(), key);
        KeysHas(applyLog, key);
      }
    }
  }

  lemma {:induction false} WithoutLast(s: seq<IndexedBlock>, key: (nat, string))
    requires s != [] && Linked(Headers(s)) && Key(s[|s| - 1]) == key
    ensures HasKey(s, key) && Without(s, key) == s[..|s| - 1]
  {
    var h := Headers(s);
    assert h[0].number == s[0].header.number && h[|s| - 1].number == s[|s| - 1].header.number;
    if |s| > 1 {
      assert Headers(s[1..]) == h[1..];
      WithoutLast(s[1..], key);
      assert s == [s[0]] + s[1..];
    }
  }

  lemma NextKeyIsNew(s: seq<IndexedBlock>, b: IndexedBlock)
    requires Linked(Headers(s)) && (s != [] ==> b.header.number >= s[0].header.number + |s|)
    ensures !HasKey(s, Key(b))
  {
    forall i | 0 <= i < |s|
      ensures Key(s[i]) != Key(b)
    {
      assert Headers(s)[i].number == Headers(s)[0].number + i;
    }
  }

  lemma AppendOk(chain: seq<IndexedBlock>, applied: seq<IndexedBlock>, c: Client, n: nat,
                                    block: IndexedBlock, universe: set<BlockHeader>)
    requires ChainOk(Headers(chain), universe) && Headers(applied) == Headers(chain) && Consistent(c, universe)
    requires n < |c.blocks| && block.header == c.blocks[n]
    requires chain != [] ==>
      n == chain[0].header.number + |chain| && c.blocks[n - 1] == chain[|chain| - 1].header
    ensures !HasKey(applied, Key(block))
    ensures ChainOk(Headers(chain + [block]), universe)
    ensures Headers(applied + [block]) == Headers(chain + [block])
    ensures block.header.number == n
  {
    assert c.blocks[n].number == n;
    assert Headers(chain + [block]) == Headers(chain) + [block.header];
    assert Headers(applied + [block]) == Headers(applied) + [block.header];
    if chain != [] {
      assert Headers(applied)[0] == Headers(chain)[0];
      assert c.blocks[n].parentHash == c.blocks[n - 1].hash;
    }
    NextKeyIsNew(applied, block);
    SnocOk(Headers(chain), block.header, universe);
  }

  lemma SnocOk(s: seq<BlockHeader>, h: BlockHeader, universe: set<BlockHeader>)
    requires ChainOk(s, universe) && h in universe
    requires s != [] ==> h.number == s[0].number + |s| && h.parentHash == s[|s| - 1].hash
    ensures ChainOk(s + [h], universe)
  {
  }

  lemma UndoTip(chain: seq<IndexedBlock>, applied: seq<IndexedBlock>, m: nat, universe: set<BlockHeader>)
    requires ChainOk(Headers(chain), universe) && 0 < m <= |chain|
    requires Headers(applied) == Headers(chain[..m])
    ensures HasKey(applied, Key(chain[m - 1]))
    ensures Headers(Without(applied, Key(chain[m - 1]))) == Headers(chain[..m - 1])
  {
    assert Headers(chain[..m]) == Headers(chain)[0..m];
    SliceOk(Headers(chain), 0, m, universe);
    assert Headers(applied)[m - 1] == Headers(chain[..m])[m - 1];
    WithoutLast(applied, Key(chain[m - 1]));
    assert Headers(applied[..m - 1]) == Headers(applied)[..m - 1];
    assert Headers(chain[..m - 1]) == Headers(chain[..m])[..m - 1];
  }

  lemma TaggedSnoc(c: Client, from: nat, n: nat)
    requires from <= n < |c.blocks| && c.blocks[n].number == n
    ensures Tagged(Stretch(c.blocks, from, n), c.snapshot) + [IndexedBlock(c.blocks[n], TagFor(n, c.snapshot))]
         == Tagged(Stretch(c.blocks, from, n + 1), c.snapshot)
  {
  }

  lemma EmptyStretch(c: Client, from: nat, to: nat)
    ensures Tagged(Stretch(c.blocks, from, from), c.snapshot) == []
    ensures to < from ==> Tagged(Stretch(c.blocks, from, to + 1), c.snapshot) == []
  {
  }

  lemma NothingReverted(chain: seq<IndexedBlock>, p: nat)
    requires p <= |chain|
    ensures p == |chain| ==> chain[..p] == chain && Reversed(chain[p..]) == []
  {
  }

  lemma ReversedFromTip(chain: seq<IndexedBlock>, p: nat)
    requires p <= |chain|
    ensures |Reversed(chain[p..])| == |chain| - p
    ensures forall x :: 0 <= x < |chain| - p ==> Reversed(chain[p..])[x] == chain[|chain| - 1 - x]
  {
  }

  /** Retagging the kept prefix with the new blocks gives the specified chain. */
  lemma RetagFits(chain: seq<IndexedBlock>, c: Client, fromNumber: nat, universe: set<BlockHeader>)
    requires ChainOk(Headers(chain), universe) && Consistent(c, universe)
    ensures var kept := chain[..Agreed(Headers(chain), c.blocks)];
            Tagged(Headers(kept + Tagged(Fresh(Headers(chain), c, fromNumber), c.snapshot)), c.snapshot)
            == Tagged(Synced(Headers(chain), c, fromNumber), c.snapshot)
  {
    hide Linked, Agreed, Synced, Fresh;
    SyncedSplits(Headers(chain), c, fromNumber, universe);
    var kept, news := chain[..Agreed(Headers(chain), c.blocks)], Fresh(Headers(chain), c, fromNumber);
    assert Headers(kept + Tagged(news, c.snapshot)) == Headers(chain)[..|kept|] + news;
  }

  /** Where the walk stops: the cut's number, and the block below it. */
  lemma CutFacts(chain: seq<IndexedBlock>, c: Client, universe: set<BlockHeader>)
    requires chain != [] && ChainOk(Headers(chain), universe) && Consistent(c, universe)
    ensures var p := Agreed(Headers(chain), c.blocks);
            && Headers(chain)[0] == chain[0].header
            && Headers(chain[..p]) == Headers(chain)[..p]
            && ChainOk(Headers(chain[..p]), universe)
            && (forall i :: 0 <= i < |chain| ==> chain[i].header.number == chain[0].header.number + i)
            && (p > 0 ==> OnChain(chain[p - 1].header, c.blocks))
  {
    var p := Agreed(Headers(chain), c.blocks);
    assert Headers(chain[..p]) == Headers(chain)[0..p];
    SliceOk(Headers(chain), 0, p, universe);
    forall i | 0 <= i < |chain|
      ensures chain[i].header.number == chain[0].header.number + i
    {
      assert Headers(chain)[i].number == Headers(chain)[0].number + i;
    }
    if p > 0 {
      assert OnChain(Headers(chain)[p - 1], c.blocks);
    }
  }

  class Indexer {
    var chain: seq<IndexedBlock>
    const projections: MemoryProjectionStore

    /** The local view is contiguous and hash-linked, and the store holds the same
        headers in the same order. */
    ghost predicate Valid(universe: set<BlockHeader>)
      reads this, projections
    {
      projections.Valid() && ChainOk(Headers(chain), universe) && Headers(projections.applied) == Headers(chain)
    }

    constructor (projections: MemoryProjectionStore)
      ensures chain == [] && this.projections == projections
      ensures forall universe :: projections.Valid() && projections.applied == [] ==> Valid(universe)
    {
      this.chain := [];
      this.projections := projections;
    }

    /** Walks from the tip down to the first local block that still matches. */
    method FindDivergence(c: Client, ghost universe: set<BlockHeader>) returns (r: Result<Option<nat>, SyncError>)
      requires Valid(universe) && Consistent(c, universe) && HashesIdentify(universe)
      ensures TipUnknown(Headers(chain), c) ==> r == Err(UnknownBlock(chain[|chain| - 1].header.number))
      ensures !TipUnknown(Headers(chain), c) ==>
                var p := Agreed(Headers(chain), c.blocks);
                r == Ok(if p == |chain| then None else Some(chain[p].header.number))
    {
      hide MemoryProjectionStore.Valid, Linked, Within, OnChain, Agreed;
      ghost var local := Headers(chain);
      ghost var p := Agreed(local, c.blocks);
      if chain != [] {
        CutFacts(chain, c, universe);
      }
      var divergedAt: Option<nat> := None;
      var i := |chain|;
      while i > 0
        invariant 0 <= i <= |chain|
        invariant i < |chain| ==> !TipUnknown(local, c) && p <= i
        invariant divergedAt == if i == |chain| then None else Some(chain[i].header.number)
      {
        var number := chain[i - 1].header.number;
        assert local[i - 1].number == number;
        if number >= |c.blocks| {
          return Err(UnknownBlock(number));
        }
        AgreedIsACut(local, c, universe, i - 1);
        if c.blocks[number].hash == chain[i - 1].header.hash {
          break;
        }
        divergedAt := Some(number);
        i := i - 1;
      }
      r := Ok(divergedAt);
    }

    /** Fetches, tags, applies and appends every block from `from` to `to`. */
    method ExtendTo(c: Client, from: nat, to: nat, ghost universe: set<BlockHeader>)
      returns (applied: seq<IndexedBlock>)
      requires Valid(universe) && Consistent(c, universe)
      requires to < |c.blocks|
      requires chain != [] ==>
        && from == chain[0].header.number + |chain|
        && from > 0 && from - 1 < |c.blocks| && c.blocks[from - 1] == chain[|chain| - 1].header
      modifies this, projections
      ensures Valid(universe)
      ensures applied == Tagged(Stretch(c.blocks, from, to + 1), c.snapshot)
      ensures chain == old(chain) + applied
      ensures projections.applyLog == old(projections.applyLog) + applied
      ensures projections.revertLog == old(projections.revertLog)
    {
      hide MemoryProjectionStore.Valid, ChainOk, Consistent, Stretch, HasKey, OnChain, Tagged, Headers, TagFor, Key;
      EmptyStretch(c, from, to);
      applied := [];
      var n := from;
      while n <= to
        invariant n == from || from < n <= to + 1
        invariant applied == Tagged(Stretch(c.blocks, from, n), c.snapshot)
        invariant chain == old(chain) + applied
        invariant chain != [] ==>
          n == chain[0].header.number + |chain| && c.blocks[n - 1] == chain[|chain| - 1].header
        invariant Valid(universe)
        invariant projections.applyLog == old(projections.applyLog) + applied
        invariant projections.revertLog == old(projections.revertLog)
      {
        var header := c.blocks[n];
        var block := IndexedBlock(header, TagFor(n, c.snapshot));
        AppendOk(chain, projections.applied, c, n, block, universe);
        var outcome := projections.Apply(block);
        assert outcome == Ok(());
        chain := chain + [block];
        applied := applied + [block];
        TaggedSnoc(c, from, n);
        n := n + 1;
      }
    }

    method Retag(snapshot: ChainSnapshot)
      modifies `chain
      ensures chain == Tagged(Headers(old(chain)), snapshot)
      ensures Headers(chain) == Headers(old(chain))
    {
      HeadersOfTagged(Headers(chain), snapshot);
      chain := seq(|chain|, i requires 0 <= i < |chain| reads this =>
        chain[i].(tag := TagFor(chain[i].header.number, snapshot)));
    }

    /** Undoes the given blocks, tip first. */
    method RevertAll(reverted: seq<IndexedBlock>, ghost keep: nat, ghost universe: set<BlockHeader>)
      requires Valid(universe) && keep <= |chain| && |reverted| == |chain| - keep
      requires forall k :: 0 <= k < |reverted| ==> reverted[k] == chain[|chain| - 1 - k]
      modifies projections
      ensures projections.Valid() && Headers(projections.applied) == Headers(chain[..keep])
      ensures projections.revertLog == old(projections.revertLog) + reverted
      ensures projections.applyLog == old(projections.applyLog)
    {
      hide MemoryProjectionStore.Valid;
      for k := 0 to |reverted|
        invariant projections.Valid()
        invariant Headers(projections.applied) == Headers(chain[..|chain| - k])
        invariant projections.revertLog == old(projections.revertLog) + reverted[..k]
        invariant projections.applyLog == old(projections.applyLog)
      {
        UndoTip(chain, projections.applied, |chain| - k, universe);
        var outcome := projections.Revert(reverted[k]);
        assert outcome == Ok(());
      }
    }

    /** The reorg branch of a tick: undo from `number` up, then follow the node. */
    method Reorganise(c: Client, number: nat, ghost fromNumber: nat, ghost universe: set<BlockHeader>)
      returns (report: ReorgReport)
      requires Valid(universe) && Consistent(c, universe)
      requires Agreed(Headers(chain), c.blocks) < |chain|
      requires number == chain[Agreed(Headers(chain), c.blocks)].header.number
      modifies this, projections
      ensures Valid(universe)
      ensures var p := Agreed(Headers(old(chain)), c.blocks);
              var news := Tagged(Fresh(Headers(old(chain)), c, fromNumber), c.snapshot);
              && chain == old(chain)[..p] + news
              && report == ReorgReport(number - 1, Reversed(old(chain)[p..]), news)
              && projections.applyLog == old(projections.applyLog) + news
              && projections.revertLog == old(projections.revertLog) + Reversed(old(chain)[p..])
    {
      hide MemoryProjectionStore.Valid, Linked, Within, Agreed, Headers, Tagged, Stretch, Reversed;
      ghost var p := Agreed(Headers(chain), c.blocks);
      CutFacts(chain, c, universe);
      var revertIndex := IndexOf(number);
      assert revertIndex == p;
      var reverted := Reversed(chain[revertIndex..]);
      ReversedFromTip(chain, p);
      RevertAll(reverted, p, universe);
      chain := chain[..revertIndex];
      var applied := ExtendTo(c, number, c.snapshot.included.number, universe);
      report := ReorgReport(number - 1, reverted, applied);
    }

    /** One polling tick. It fails, changing nothing, only when the node does not
        know the local tip; otherwise the view, the tags, the report and the two
        logs are exactly what `IndexerSpec` says, and the store is never misused. */
    method SyncOnce(c: Client, fromNumber: nat, ghost universe: set<BlockHeader>)
      returns (r: Result<Option<ReorgReport>, SyncError>)
      requires Valid(universe) && Consistent(c, universe) && HashesIdentify(universe)
      modifies this, projections
      ensures Valid(universe)
      ensures chain == Tick(old(chain), c, fromNumber)
      ensures TipUnknown(Headers(old(chain)), c) ==>
                && r == Err(UnknownBlock(old(chain)[|old(chain)| - 1].header.number))
                && unchanged(projections)
      ensures !TipUnknown(Headers(old(chain)), c) ==>
                && r == Ok(Report(old(chain), c, fromNumber))
                && projections.applyLog ==
                   old(projections.applyLog) + Tagged(Fresh(Headers(old(chain)), c, fromNumber), c.snapshot)
                && projections.revertLog ==
                   old(projections.revertLog) + Reversed(old(chain)[Agreed(Headers(old(chain)), c.blocks)..])
      ensures !TipUnknown(Headers(old(chain)), c) ==>
                && |old(projections.revertLog)| <= |projections.revertLog|
                && var undone := projections.revertLog[|old(projections.revertLog)|..];
                && |undone| == |old(chain)| - Agreed(Headers(old(chain)), c.blocks)
                && forall x :: 0 <= x < |undone| ==> undone[x] == old(chain)[|old(chain)| - 1 - x]
    {
      hide MemoryProjectionStore.Valid, Linked, Within, Agreed, Headers, Tagged, Stretch, Reversed, Synced;
      ghost var before := chain;
      ghost var p := Agreed(Headers(before), c.blocks);
      ghost var news := Fresh(Headers(before), c, fromNumber);
      var snapshot := c.snapshot;
      NothingReverted(before, p);
      ReversedFromTip(before, p);

      if |chain| == 0 {
        var applied := ExtendTo(c, fromNumber, snapshot.included.number, universe);
        Retag(snapshot);
        RetagFits(before, c, fromNumber, universe);
        return Ok(None);
      }

      var divergedAt := FindDivergence(c, universe);
      if divergedAt.Err? {
        return Err(divergedAt.error);
      }
      var report: Option<ReorgReport> := None;
      if divergedAt.value.Some? {
        var made := Reorganise(c, divergedAt.value.value, fromNumber, universe);
        report := Some(made);
      } else {
        CutFacts(before, c, universe);
        var tip := chain[|chain| - 1].header.number;
        var applied := ExtendTo(c, tip + 1, snapshot.included.number, universe);
      }
      Retag(snapshot);
      RetagFits(before, c, fromNumber, universe);
      r := Ok(report);
    }

    /** The position of the first block with this number. */
    method IndexOf(number: nat) returns (k: nat)
      requires exists i :: 0 <= i < |chain| && chain[i].header.number == number
      ensures k < |chain| && chain[k].header.number == number
      ensures forall i :: 0 <= i < k ==> chain[i].header.number != number
    {
      k := 0;
      while chain[k].header.number != number
        invariant k < |chain|
        invariant forall i :: 0 <= i < k ==> chain[i].header.number != number
        decreases |chain| - k
      {
        k := k + 1;
      }
    }
  }
}

/** Blocks, snapshots and what one polling tick of the indexer should do,
    stated on values. */
module IndexerSpec {
  import opened Common

  datatype BlockTag = Included | Safe | Finalized

  datatype BlockHeader = BlockHeader(number: nat, hash: string, parentHash: string)

  datatype ChainSnapshot = ChainSnapshot(
    included: BlockHeader, safe: Option<BlockHeader>, finalized: Option<BlockHeader>)

  datatype IndexedBlock = IndexedBlock(header: BlockHeader, tag: BlockTag)

  datatype ReorgReport = ReorgReport(commonAncestor: int, reverted: seq<IndexedBlock>, applied: seq<IndexedBlock>)

  /** A node during one tick: its snapshot and every block it can return, from
      genesis on. Asking for any other number fails. */
  datatype Client = Client(snapshot: ChainSnapshot, blocks: seq<BlockHeader>) {
    function Included(): nat { snapshot.included.number }
  }

  ghost predicate OnChain(h: BlockHeader, blocks: seq<BlockHeader>) {
    h.number < |blocks| && blocks[h.number] == h
  }

  /** Consecutive numbers, each header naming its predecessor's hash. */
  ghost predicate Linked(s: seq<BlockHeader>) {
    && (forall i :: 0 <= i < |s| ==> s[i].number == s[0].number + i)
    && (forall i, j :: 0 <= i && j == i + 1 < |s| ==> s[j].parentHash == s[i].hash)
  }

  /** Within `universe` a hash belongs to one header. */
  ghost predicate HashesIdentify(universe: set<BlockHeader>) {
    forall a, b :: a in universe && b in universe && a.hash == b.hash ==> a == b
  }

  ghost predicate Within(s: seq<BlockHeader>, universe: set<BlockHeader>) {
    forall i :: 0 <= i < |s| ==> s[i] in universe
  }

  /** The node answers from one hash-linked chain; its tags lie on that chain. */
  ghost predicate Consistent(c: Client, universe: set<BlockHeader>) {
    && Linked(c.blocks) && Within(c.blocks, universe)
    && c.blocks != [] && c.blocks[0].number == 0
    && OnChain(c.snapshot.included, c.blocks)
    && (c.snapshot.safe.Some? ==> OnChain(c.snapshot.safe.value, c.blocks))
    && (c.snapshot.finalized.Some? ==> OnChain(c.snapshot.finalized.value, c.blocks))
  }

  function Headers(chain: seq<IndexedBlock>): (r: seq<BlockHeader>)
    ensures |r| == |chain|
  {
    seq(|chain|, i requires 0 <= i < |chain| => chain[i].header)
  }

  /** A local view: contiguous and hash-linked. */
  ghost predicate ChainOk(local: seq<BlockHeader>, universe: set<BlockHeader>) {
    Linked(local) && Within(local, universe)
  }

  function TagFor(number: int, snapshot: ChainSnapshot): BlockTag {
    if snapshot.finalized.Some? && number <= snapshot.finalized.value.number then Finalized
    else if snapshot.safe.Some? && number <= snapshot.safe.value.number then Safe
    else Included
  }

  function Tagged(headers: seq<BlockHeader>, snapshot: ChainSnapshot): (r: seq<IndexedBlock>)
    ensures |r| == |headers|
  {
    seq(|headers|, i requires 0 <= i < |headers| => IndexedBlock(headers[i], TagFor(headers[i].number, snapshot)))
  }

  function Reversed<T>(s: seq<T>): (r: seq<T>)
    ensures |r| == |s|
  {
    seq(|s|, i requires 0 <= i < |s| => s[|s| - 1 - i])
  }

  /** The number of leading local headers that are canonical. */
  ghost function Agreed(local: seq<BlockHeader>, blocks: seq<BlockHeader>): (p: nat)
    ensures p <= |local|
    ensures forall i :: 0 <= i < p ==> OnChain(local[i], blocks)
    ensures p < |local| ==> !OnChain(local[p], blocks)
  {
    if local == [] || !OnChain(local[0], blocks) then 0 else 1 + Agreed(local[1..], blocks)
  }

  ghost function Base(local: seq<BlockHeader>, fromNumber: nat): nat {
    if local == [] then fromNumber else local[0].number
  }

  /** The node cannot answer for the local tip, so the tick fails untouched. */
  ghost predicate TipUnknown(local: seq<BlockHeader>, c: Client) {
    local != [] && local[|local| - 1].number >= |c.blocks|
  }

  /** The local view one tick should produce: every canonical header from the
      first indexed number to the included tip, or just the agreed part when the
      included tip is below it. */
  ghost function Synced(local: seq<BlockHeader>, c: Client, fromNumber: nat): seq<BlockHeader>
    requires c.Included() < |c.blocks|
  {
    var base, p := Base(local, fromNumber), Agreed(local, c.blocks);
    if c.Included() < base + p then local[..p] else c.blocks[base..c.Included() + 1]
  }

  /** The blocks numbered from `from` up to but not including `to`. */
  function Stretch(blocks: seq<BlockHeader>, from: nat, to: nat): seq<BlockHeader> {
    if from <= to <= |blocks| then blocks[from..to] else []
  }

  /** The headers one tick should apply. */
  ghost function Fresh(local: seq<BlockHeader>, c: Client, fromNumber: nat): seq<BlockHeader>
    requires c.Included() < |c.blocks|
  {
    Stretch(c.blocks, Base(local, fromNumber) + Agreed(local, c.blocks), c.Included() + 1)
  }

  ghost function Report(chain: seq<IndexedBlock>, c: Client, fromNumber: nat): Option<ReorgReport>
    requires c.Included() < |c.blocks|
  {
    var local := Headers(chain);
    var p := Agreed(local, c.blocks);
    if p == |chain| then None
    else Some(ReorgReport(
      chain[p].header.number - 1,
      Reversed(chain[p..]),
      Tagged(Fresh(local, c, fromNumber), c.snapshot)))
  }

  // ------------------------------------------------------- why the walk may stop

  /** Hash links fix the whole prefix: two linked sequences that meet in one
      header agree on every number below it that both hold. */
  lemma {:induction false} LinksFixPrefix(a: seq<BlockHeader>, b: seq<BlockHeader>, i: nat, j: nat, depth: nat,
                                          universe: set<BlockHeader>)
    requires Linked(a) && Linked(b) && Within(a, universe) && Within(b, universe)
    requires HashesIdentify(universe)
    requires depth <= i < |a| && depth <= j < |b| && a[i].hash == b[j].hash
    ensures a[i - depth] == b[j - depth]
    decreases depth
  {
    assert a[i] == b[j];
    if depth > 0 {
      assert a[i].parentHash == a[i - 1].hash && b[j].parentHash == b[j - 1].hash;
      LinksFixPrefix(a, b, i - 1, j - 1, depth - 1, universe);
    }
  }

  /** A local header whose hash is canonical settles that everything up to it is,
      and the first one whose hash is not settles that nothing from it on is. */
  lemma {:induction false} AgreedIsACut(local: seq<BlockHeader>, c: Client, universe: set<BlockHeader>, i: nat)
    requires ChainOk(local, universe) && Consistent(c, universe) && HashesIdentify(universe)
    requires i < |local| && local[i].number < |c.blocks|
    ensures c.blocks[local[i].number].hash == local[i].hash <==> i < Agreed(local, c.blocks)
    ensures OnChain(local[i], c.blocks) <==> i < Agreed(local, c.blocks)
  {
    var p, n := Agreed(local, c.blocks), local[i].number;
    if c.blocks[n].hash == local[i].hash {
      if p <= i {
        LinksFixPrefix(local, c.blocks, i, n, i - p, universe);
        assert OnChain(local[p], c.blocks);
      }
    }
    if i < p {
      assert OnChain(local[i], c.blocks);
    }
  }

  lemma SliceOk(s: seq<BlockHeader>, lo: nat, hi: nat, universe: set<BlockHeader>)
    requires ChainOk(s, universe) && lo <= hi <= |s|
    ensures ChainOk(s[lo..hi], universe)
  {
  }

  /** The agreed part is a stretch of the node's own blocks. */
  lemma AgreedIsStretch(local: seq<BlockHeader>, blocks: seq<BlockHeader>, base: nat)
    requires Linked(local) && (local != [] ==> local[0].number == base)
    ensures var p := Agreed(local, blocks);
            p > 0 ==> base + p <= |blocks| && local[..p] == blocks[base..base + p]
  {
    hide Agreed;
    var p := Agreed(local, blocks);
    forall i | 0 <= i < p
      ensures base + i < |blocks| && local[i] == blocks[base + i]
    {
      assert OnChain(local[i], blocks) && local[i].number == base + i;
    }
    if p > 0 {
      assert OnChain(local[p - 1], blocks) && local[p - 1].number == base + (p - 1);
    }
  }

  lemma Rejoin(s: seq<BlockHeader>, i: nat, j: nat, k: nat)
    requires i <= j <= k <= |s|
    ensures s[i..k] == s[i..j] + s[j..k]
  {
  }

  lemma SyncedSplits(local: seq<BlockHeader>, c: Client, fromNumber: nat, universe: set<BlockHeader>)
    requires ChainOk(local, universe) && Consistent(c, universe)
    ensures Synced(local, c, fromNumber) == local[..Agreed(local, c.blocks)] + Fresh(local, c, fromNumber)
  {
    var base, p := Base(local, fromNumber), Agreed(local, c.blocks);
    AgreedIsStretch(local, c.blocks, base);
    hide Linked, Within, Agreed;
    if c.Included() >= base + p {
      Rejoin(c.blocks, base, base + p, c.Included() + 1);
    }
  }

  /** After a tick the local view is exactly the canonical headers from the first
      indexed number up, to the included tip unless that lies below the agreed part. */
  lemma {:induction false} SyncedIsCanonical(local: seq<BlockHeader>, c: Client, fromNumber: nat,
                                             universe: set<BlockHeader>)
    requires ChainOk(local, universe) && Consistent(c, universe)
    ensures ChainOk(Synced(local, c, fromNumber), universe)
    ensures forall i :: 0 <= i < |Synced(local, c, fromNumber)| ==>
              && OnChain(Synced(local, c, fromNumber)[i], c.blocks)
              && Synced(local, c, fromNumber)[i].number == Base(local, fromNumber) + i
    ensures c.Included() >= Base(local, fromNumber) + Agreed(local, c.blocks) ==>
              |Synced(local, c, fromNumber)| == c.Included() + 1 - Base(local, fromNumber)
    ensures Synced(local, c, fromNumber) == local[..Agreed(local, c.blocks)] + Fresh(local, c, fromNumber)
  {
    var base, p := Base(local, fromNumber), Agreed(local, c.blocks);
    var synced := Synced(local, c, fromNumber);
    if c.Included() < base + p {
      SliceOk(local, 0, p, universe);
      assert synced == local[0..p];
    } else {
      SliceOk(c.blocks, base, c.Included() + 1, universe);
      forall i | 0 <= i < |synced|
        ensures OnChain(synced[i], c.blocks) && synced[i].number == base + i
      {
        assert synced[i] == c.blocks[base + i];
      }
    }
    hide Linked, Agreed;
    SyncedSplits(local, c, fromNumber, universe);
  }

  /** What a report lists: the blocks undone, from the old tip down to just above the
      common ancestor, and the node's blocks from there up to its included tip. */
  lemma ReportInOrder(chain: seq<IndexedBlock>, c: Client, fromNumber: nat, universe: set<BlockHeader>)
    requires ChainOk(Headers(chain), universe) && Consistent(c, universe)
    ensures var p, report := Agreed(Headers(chain), c.blocks), Report(chain, c, fromNumber);
            && (report.None? <==> p == |chain|)
            && (report.Some? ==>
                  var r := report.value;
                  && |r.reverted| == |chain| - p
                  && (forall x :: 0 <= x < |r.reverted| ==>
                        && r.reverted[x] == chain[|chain| - 1 - x]
                        && r.reverted[x].header.number == chain[|chain| - 1].header.number - x)
                  && r.reverted[|r.reverted| - 1].header.number == r.commonAncestor + 1
                  && (p > 0 ==> chain[p - 1].header.number == r.commonAncestor)
                  && |r.applied| == (if c.Included() > r.commonAncestor then c.Included() - r.commonAncestor else 0)
                  && (forall y :: 0 <= y < |r.applied| ==>
                        && r.applied[y].header.number == r.commonAncestor + 1 + y
                        && OnChain(r.applied[y].header, c.blocks)))
  {
    var local := Headers(chain);
    var p, news := Agreed(local, c.blocks), Fresh(local, c, fromNumber);
    forall i | 0 <= i < |chain|
      ensures chain[i].header.number == chain[0].header.number + i
    {
      assert local[i].number == local[0].number + i;
    }
    FreshInOrder(local, c, fromNumber, universe);
    hide Agreed, Linked, Within, OnChain, Fresh;
  }

  lemma FreshInOrder(local: seq<BlockHeader>, c: Client, fromNumber: nat, universe: set<BlockHeader>)
    requires Consistent(c, universe)
    ensures var lo, news := Base(local, fromNumber) + Agreed(local, c.blocks), Fresh(local, c, fromNumber);
            && |news| == (if c.Included() + 1 > lo then c.Included() + 1 - lo else 0)
            && forall y :: 0 <= y < |news| ==> news[y].number == lo + y && OnChain(news[y], c.blocks)
  {
    hide Agreed;
  }

  // ----------------------------------------------------------------- whole runs

  /** The chain after one tick, failed ticks leaving it alone. */
  ghost function Tick(chain: seq<IndexedBlock>, c: Client, fromNumber: nat): seq<IndexedBlock>
    requires c.Included() < |c.blocks|
  {
    if TipUnknown(Headers(chain), c) then chain
    else Tagged(Synced(Headers(chain), c, fromNumber), c.snapshot)
  }

  /** Tick `k` asks node `clients[k]` and is told to start from `froms[k]`. */
  ghost predicate Run(chains: seq<seq<IndexedBlock>>, clients: seq<Client>, froms: seq<nat>,
                      universe: set<BlockHeader>)
  {
    && |chains| == |clients| + 1 && |froms| == |clients| && chains[0] == []
    && HashesIdentify(universe)
    && (forall k :: 0 <= k < |clients| ==> Consistent(clients[k], universe))
    && (forall k :: 0 <= k < |clients| ==> chains[k + 1] == Tick(chains[k], clients[k], froms[k]))
  }

  /** The nodes of a run never take a header they reported finalized back. */
  ghost predicate FinalityKept(clients: seq<Client>) {
    forall k, j :: 0 <= k < j < |clients| && clients[k].snapshot.finalized.Some? ==>
      OnChain(clients[k].snapshot.finalized.value, clients[j].blocks)
  }

  ghost predicate FinalAt(h: BlockHeader, c: Client) {
    OnChain(h, c.blocks) && c.snapshot.finalized.Some? && h.number <= c.snapshot.finalized.value.number
  }

  lemma HeadersOfTagged(headers: seq<BlockHeader>, snapshot: ChainSnapshot)
    ensures Headers(Tagged(headers, snapshot)) == headers
  {
  }

  /** Every tick from a good view gives a good view, so every run has its trace. */
  lemma TickKeepsChainOk(chain: seq<IndexedBlock>, c: Client, fromNumber: nat, universe: set<BlockHeader>)
    requires ChainOk(Headers(chain), universe) && Consistent(c, universe)
    ensures ChainOk(Headers(Tick(chain, c, fromNumber)), universe)
  {
    if !TipUnknown(Headers(chain), c) {
      SyncedIsCanonical(Headers(chain), c, fromNumber, universe);
      HeadersOfTagged(Synced(Headers(chain), c, fromNumber), c.snapshot);
    }
  }

  /** The local view is contiguous and hash-linked all along a run. */
  lemma {:induction false} RunKeepsChainOk(chains: seq<seq<IndexedBlock>>, clients: seq<Client>, froms: seq<nat>,
                                           universe: set<BlockHeader>, k: nat)
    requires Run(chains, clients, froms, universe) && k < |chains|
    ensures ChainOk(Headers(chains[k]), universe)
  {
    if k > 0 {
      hide Linked, Tick;
      RunKeepsChainOk(chains, clients, froms, universe, k - 1);
      TickKeepsChainOk(chains[k - 1], clients[k - 1], froms[k - 1], universe);
    }
  }

  /** Whether one tick brings the view to the node's included tip: the node knows the
      local tip, and the included tip is not below the last block the two share. */
  ghost predicate Follows(local: seq<BlockHeader>, c: Client, fromNumber: nat) {
    var p := Agreed(local, c.blocks);
    !TipUnknown(local, c) && (p == 0 || Base(local, fromNumber) + p <= c.Included() + 1)
  }

  lemma SyncedReachesTipIff(local: seq<BlockHeader>, c: Client, fromNumber: nat, universe: set<BlockHeader>)
    requires ChainOk(local, universe) && Consistent(c, universe)
    ensures var base, p := Base(local, fromNumber), Agreed(local, c.blocks);
            Synced(local, c, fromNumber) == Stretch(c.blocks, base, c.Included() + 1)
            <==> p == 0 || base + p <= c.Included() + 1
  {
    AgreedIsStretch(local, c.blocks, Base(local, fromNumber));
  }

  lemma UnknownTipIsOffChain(local: seq<BlockHeader>, c: Client, fromNumber: nat, to: nat)
    requires Linked(local) && Linked(c.blocks) && c.blocks != [] && c.blocks[0].number == 0
    requires TipUnknown(local, c)
    ensures local != Stretch(c.blocks, Base(local, fromNumber), to)
  {
    var base := Base(local, fromNumber);
    var s := Stretch(c.blocks, base, to);
    if s != [] {
      assert s[|s| - 1] == c.blocks[base + |s| - 1];
    }
  }

  lemma TickFollowsIff(chain: seq<IndexedBlock>, c: Client, fromNumber: nat, universe: set<BlockHeader>)
    requires ChainOk(Headers(chain), universe) && Consistent(c, universe)
    ensures Headers(Tick(chain, c, fromNumber)) == Stretch(c.blocks, Base(Headers(chain), fromNumber), c.Included() + 1)
       <==> Follows(Headers(chain), c, fromNumber)
  {
    hide Agreed, Synced;
    var local := Headers(chain);
    if TipUnknown(local, c) {
      UnknownTipIsOffChain(local, c, fromNumber, c.Included() + 1);
    } else {
      hide Linked, Within;
      SyncedReachesTipIff(local, c, fromNumber, universe);
      HeadersOfTagged(Synced(local, c, fromNumber), c.snapshot);
    }
  }

  /** After a tick of a run the local headers are the node's blocks from the first
      indexed number to its included tip, exactly when `Follows` holds. */
  lemma RunFollowsTheNode(chains: seq<seq<IndexedBlock>>, clients: seq<Client>, froms: seq<nat>,
                                             universe: set<BlockHeader>, k: nat)
    requires Run(chains, clients, froms, universe) && k < |clients|
    ensures Headers(chains[k + 1])
         == Stretch(clients[k].blocks, Base(Headers(chains[k]), froms[k]), clients[k].Included() + 1)
       <==> Follows(Headers(chains[k]), clients[k], froms[k])
  {
    hide Linked, Agreed, Synced, Tick, Follows;
    RunKeepsChainOk(chains, clients, froms, universe, k);
    TickFollowsIff(chains[k], clients[k], froms[k], universe);
  }

  const FIRST := BlockHeader(0, "a", "")
  const SECOND := BlockHeader(1, "b", "a")
  const THIRD := BlockHeader(2, "c", "b")
  const THREE_BLOCKS := [FIRST, SECOND, THIRD]

  /** A node that knows all three blocks and reports number `i` as included. */
  function NodeAt(i: nat): Client
    requires i < 3
  {
    Client(ChainSnapshot(THREE_BLOCKS[i], None, None), THREE_BLOCKS)
  }

  lemma ThreeHashesIdentify()
    ensures HashesIdentify({FIRST, SECOND, THIRD})
  {
    assert FIRST.hash[0] == 'a' && SECOND.hash[0] == 'b' && THIRD.hash[0] == 'c';
  }

  lemma NodeIsConsistent(i: nat)
    requires i < 3
    ensures Consistent(NodeAt(i), {FIRST, SECOND, THIRD})
  {
  }

  lemma AllThreeAgree()
    ensures Agreed(THREE_BLOCKS, THREE_BLOCKS) == 3
  {
    var p := Agreed(THREE_BLOCKS, THREE_BLOCKS);
    assert p == 0 || p == 1 || p == 2 || p == 3;
  }

  /** A node that reports an included tip below the local one, without a reorg,
      leaves the view ahead of that tip. */
  lemma LaggingTipIsNotFollowed()
    ensures var view := Tagged(THREE_BLOCKS, NodeAt(2).snapshot);
            && Run([[], view, Tick(view, NodeAt(1), 0)], [NodeAt(2), NodeAt(1)], [0, 0], {FIRST, SECOND, THIRD})
            && Headers(Tick(view, NodeAt(1), 0)) == THREE_BLOCKS
            && Stretch(THREE_BLOCKS, 0, NodeAt(1).Included() + 1) == THREE_BLOCKS[..2]
  {
    NodeIsConsistent(1);
    NodeIsConsistent(2);
    ThreeHashesIdentify();
    AllThreeAgree();
    hide Agreed, Consistent, HashesIdentify;
    var view := Tagged(THREE_BLOCKS, NodeAt(2).snapshot);
    assert Headers([]) == [];
    assert Tick([], NodeAt(2), 0) == view;
    HeadersOfTagged(THREE_BLOCKS, NodeAt(2).snapshot);
    assert THREE_BLOCKS[..3] == THREE_BLOCKS;
    HeadersOfTagged(THREE_BLOCKS, NodeAt(1).snapshot);
  }

  // ------------------------------------------------- where indexing starts from

  lemma SyncedFromEmpty(c: Client, from: nat, universe: set<BlockHeader>)
    requires Consistent(c, universe)
    ensures Synced([], c, from) == Stretch(c.blocks, from, c.Included() + 1)
    ensures from <= c.Included() ==> |Synced([], c, from)| == c.Included() + 1 - from
    ensures c.Included() < from ==> Synced([], c, from) == []
  {
  }

  /** The first number a tick is told to start from matters exactly when the view is
      empty and one of the two numbers is not above the included tip. */
  lemma FirstNumberMattersIff(chain: seq<IndexedBlock>, c: Client, f: nat, g: nat, universe: set<BlockHeader>)
    requires ChainOk(Headers(chain), universe) && Consistent(c, universe)
    ensures Tick(chain, c, f) != Tick(chain, c, g)
       <==> chain == [] && f != g && (f <= c.Included() || g <= c.Included())
  {
    if chain == [] {
      SyncedFromEmpty(c, f, universe);
      SyncedFromEmpty(c, g, universe);
      hide Synced;
      assert |Tick(chain, c, f)| == |Synced([], c, f)| && |Tick(chain, c, g)| == |Synced([], c, g)|;
    }
  }

  /** A tick leaves the view empty exactly when it was empty and indexing starts above
      the included tip, or when nothing of it is canonical any more and all of it was
      above that tip. */
  lemma EmptiedIff(chain: seq<IndexedBlock>, c: Client, f: nat, universe: set<BlockHeader>)
    requires ChainOk(Headers(chain), universe) && Consistent(c, universe)
    ensures Tick(chain, c, f) == []
       <==> if chain == [] then c.Included() < f
            else !TipUnknown(Headers(chain), c) && Agreed(Headers(chain), c.blocks) == 0
                 && c.Included() < chain[0].header.number
  {
    if chain == [] {
      SyncedFromEmpty(c, f, universe);
    } else {
      assert Headers(chain)[0] == chain[0].header;
    }
  }

  const BRANCH := [BlockHeader(0, "x", ""), BlockHeader(1, "y", "x"), BlockHeader(2, "z", "y")]

  const ALL_SIX := {FIRST, SECOND, THIRD, BRANCH[0], BRANCH[1], BRANCH[2]}

  /** The same as `NodeAt` for a node on the other branch. */
  function BranchAt(i: nat): Client
    requires i < 3
  {
    Client(ChainSnapshot(BRANCH[i], None, None), BRANCH)
  }

  lemma SixHashesIdentify()
    ensures HashesIdentify(ALL_SIX)
  {
    assert FIRST.hash[0] == 'a' && SECOND.hash[0] == 'b' && THIRD.hash[0] == 'c';
    assert BRANCH[0].hash[0] == 'x' && BRANCH[1].hash[0] == 'y' && BRANCH[2].hash[0] == 'z';
  }

  lemma BothAreConsistent(i: nat)
    requires i < 3
    ensures Consistent(NodeAt(i), ALL_SIX) && Consistent(BranchAt(i), ALL_SIX)
  {
  }

  /** A reorg to a branch still below the first indexed number empties the view, and
      the next tick starts from the number it is given: 1 and 2 give different views. */
  lemma FirstNumberMattersAgain(from: nat)
    requires from == 1 || from == 2
    ensures var view := Tagged([SECOND, THIRD], NodeAt(2).snapshot);
            var next := Tagged(BRANCH[from..], BranchAt(2).snapshot);
            Run([[], view, [], next], [NodeAt(2), BranchAt(0), BranchAt(2)], [1, 1, from], ALL_SIX)
  {
    SixHashesIdentify();
    BothAreConsistent(2);
    BothAreConsistent(0);
    StartsAtOne();
    BranchEmpties();
    BranchFrom(from);
    hide Consistent, HashesIdentify, Tick, Tagged, Run, NodeAt, BranchAt;
    ThreeTicks(NodeAt(2), BranchAt(0), BranchAt(2), 1, 1, from, ALL_SIX);
  }

  lemma NoTicks(universe: set<BlockHeader>)
    requires HashesIdentify(universe)
    ensures Run([[]], [], [], universe)
  {
  }

  /** Any run can go on with any consistent node. */
  lemma RunGoesOn(chains: seq<seq<IndexedBlock>>, clients: seq<Client>, froms: seq<nat>, universe: set<BlockHeader>,
                  c: Client, from: nat)
    requires Run(chains, clients, froms, universe) && Consistent(c, universe)
    ensures Run(chains + [Tick(chains[|clients|], c, from)], clients + [c], froms + [from], universe)
  {
    hide HashesIdentify, Consistent, Tick;
    assert c.Included() < |c.blocks| by {
      InBounds(c, universe);
    }
    var chains', clients', froms' := chains + [Tick(chains[|clients|], c, from)], clients + [c], froms + [from];
    forall k | 0 <= k < |clients'|
      ensures Consistent(clients'[k], universe)
    {
      assert k < |clients| ==> clients'[k] == clients[k];
    }
    forall k | 0 <= k < |clients'|
      ensures clients'[k].Included() < |clients'[k].blocks|
      ensures chains'[k + 1] == Tick(chains'[k], clients'[k], froms'[k])
    {
      InBounds(clients'[k], universe);
      if k < |clients| {
        assert chains'[k + 1] == chains[k + 1] && chains'[k] == chains[k];
        assert clients'[k] == clients[k] && froms'[k] == froms[k];
      }
    }
  }

  lemma InBounds(c: Client, universe: set<BlockHeader>)
    requires Consistent(c, universe)
    ensures c.Included() < |c.blocks|
  {
  }

  lemma ThreeTicks(c: Client, d: Client, e: Client, f: nat, g: nat, h: nat, universe: set<BlockHeader>)
    requires HashesIdentify(universe)
    requires Consistent(c, universe) && Consistent(d, universe) && Consistent(e, universe)
    ensures c.Included() < |c.blocks| && d.Included() < |d.blocks| && e.Included() < |e.blocks|
    ensures var first := Tick([], c, f);
            var second := Tick(first, d, g);
            Run([[], first, second, Tick(second, e, h)], [c, d, e], [f, g, h], universe)
  {
    InBounds(c, universe);
    InBounds(d, universe);
    InBounds(e, universe);
    hide HashesIdentify, Consistent, Tick, Run;
    var first := Tick([], c, f);
    var second := Tick(first, d, g);
    NoTicks(universe);
    RunGoesOn([[]], [], [], universe, c, f);
    assert [[]] + [first] == [[], first] && [] + [c] == [c] && [] + [f] == [f];
    RunGoesOn([[], first], [c], [f], universe, d, g);
    assert [[], first] + [second] == [[], first, second] && [c] + [d] == [c, d] && [f] + [g] == [f, g];
    RunGoesOn([[], first, second], [c, d], [f, g], universe, e, h);
    assert [[], first, second] + [Tick(second, e, h)] == [[], first, second, Tick(second, e, h)];
    assert [c, d] + [e] == [c, d, e] && [f, g] + [h] == [f, g, h];
  }

  lemma StartsAtOne()
    ensures NodeAt(2).Included() < |NodeAt(2).blocks|
    ensures Tick([], NodeAt(2), 1) == Tagged([SECOND, THIRD], NodeAt(2).snapshot)
  {
    hide Tagged;
    assert Headers([]) == [];
    assert THREE_BLOCKS[1..3] == [SECOND, THIRD];
  }

  lemma BranchEmpties()
    ensures BranchAt(0).Included() < |BranchAt(0).blocks|
    ensures Tick(Tagged([SECOND, THIRD], NodeAt(2).snapshot), BranchAt(0), 1) == []
  {
    HeadersOfTagged([SECOND, THIRD], NodeAt(2).snapshot);
    SecondIsOffBranch();
    assert Agreed([SECOND, THIRD], BRANCH) == 0;
    hide Agreed, OnChain;
  }

  lemma BranchFrom(from: nat)
    requires from == 1 || from == 2
    ensures BranchAt(2).Included() < |BranchAt(2).blocks|
    ensures Tick([], BranchAt(2), from) == Tagged(BRANCH[from..], BranchAt(2).snapshot)
  {
    hide Tagged;
    assert Headers([]) == [];
    assert BRANCH[from..3] == BRANCH[from..];
  }

  lemma SecondIsOffBranch()
    ensures !OnChain(SECOND, BRANCH)
  {
    assert SECOND.hash[0] == 'b' && BRANCH[1].hash[0] == 'y';
  }

  // ------------------------------------------------------------------ the tags

  /** The last of the first `k` ticks that did not fail; the first never does. */
  ghost function LastSuccess(chains: seq<seq<IndexedBlock>>, clients: seq<Client>, k: nat): (m: nat)
    requires 0 < k <= |clients| < |chains| && chains[0] == []
    ensures m < k && !TipUnknown(Headers(chains[m]), clients[m])
    ensures forall j :: m < j < k ==> TipUnknown(Headers(chains[j]), clients[j])
  {
    if TipUnknown(Headers(chains[k - 1]), clients[k - 1]) then LastSuccess(chains, clients, k - 1) else k - 1
  }

  /** At or below the header, when the snapshot has it. */
  predicate Reaches(h: Option<BlockHeader>, number: nat) { h.Some? && number <= h.value.number }

  ghost function Rank(t: BlockTag): nat {
    match t
    case Finalized => 0
    case Safe => 1
    case Included => 2
  }

  /** Tags as far as `snapshot` allows and no farther, so in the order finalized,
      safe, included. */
  ghost predicate TagsFit(chain: seq<IndexedBlock>, snapshot: ChainSnapshot) {
    && (forall i :: 0 <= i < |chain| ==>
          var b, n := chain[i], chain[i].header.number;
          && (b.tag == Finalized <==> Reaches(snapshot.finalized, n))
          && (b.tag == Safe <==> !Reaches(snapshot.finalized, n) && Reaches(snapshot.safe, n))
          && (b.tag == Included <==> !Reaches(snapshot.finalized, n) && !Reaches(snapshot.safe, n)))
    && (forall i, j :: 0 <= i < j < |chain| ==> Rank(chain[i].tag) <= Rank(chain[j].tag))
  }

  lemma TaggedFits(headers: seq<BlockHeader>, snapshot: ChainSnapshot)
    requires Linked(headers)
    ensures TagsFit(Tagged(headers, snapshot), snapshot)
  {
  }

  /** After every tick of a run, failed or not, the view holds blocks of the node that
      last answered, and the tags are exactly those of the snapshot it gave. */
  lemma {:induction false} TagsInOrder(chains: seq<seq<IndexedBlock>>, clients: seq<Client>, froms: seq<nat>,
                                       universe: set<BlockHeader>, k: nat)
    requires Run(chains, clients, froms, universe) && 0 < k < |chains|
    ensures var c := clients[LastSuccess(chains, clients, k)];
            && TagsFit(chains[k], c.snapshot)
            && forall i :: 0 <= i < |chains[k]| ==> OnChain(chains[k][i].header, c.blocks)
  {
    hide Linked, Within, Synced, TagsFit;
    var chain, c := chains[k - 1], clients[k - 1];
    if TipUnknown(Headers(chain), c) {
      FailedTick(chain, c, froms[k - 1]);
      TagsInOrder(chains, clients, froms, universe, k - 1);
    } else {
      RunKeepsChainOk(chains, clients, froms, universe, k - 1);
      SyncedIsCanonical(Headers(chain), c, froms[k - 1], universe);
      TaggedFits(Synced(Headers(chain), c, froms[k - 1]), c.snapshot);
    }
  }

  lemma TickTagsFinal(chain: seq<IndexedBlock>, c: Client, fromNumber: nat, universe: set<BlockHeader>,
                                         b: IndexedBlock)
    requires ChainOk(Headers(chain), universe) && Consistent(c, universe) && !TipUnknown(Headers(chain), c)
    requires b in Tick(chain, c, fromNumber) && b.tag == Finalized
    ensures FinalAt(b.header, c)
  {
    hide Synced, Linked;
    SyncedIsCanonical(Headers(chain), c, fromNumber, universe);
  }

  lemma {:induction false} TaggedFinalWasFinal(chains: seq<seq<IndexedBlock>>, clients: seq<Client>, froms: seq<nat>,
                                               universe: set<BlockHeader>, k: nat, b: IndexedBlock) returns (m: nat)
    requires Run(chains, clients, froms, universe)
    requires k < |chains| && b in chains[k] && b.tag == Finalized
    ensures m < k && FinalAt(b.header, clients[m])
  {
    hide Tick, FinalAt, ChainOk, Linked;
    m := k - 1;
    RunKeepsChainOk(chains, clients, froms, universe, m);
    if TipUnknown(Headers(chains[m]), clients[m]) {
      FailedTick(chains[m], clients[m], froms[m]);
      m := TaggedFinalWasFinal(chains, clients, froms, universe, m, b);
    } else {
      TickTagsFinal(chains[m], clients[m], froms[m], universe, b);
    }
  }

  lemma FailedTick(chain: seq<IndexedBlock>, c: Client, fromNumber: nat)
    requires c.Included() < |c.blocks| && TipUnknown(Headers(chain), c)
    ensures Tick(chain, c, fromNumber) == chain
  {
  }

  lemma FinalStaysCanonical(clients: seq<Client>, m: nat, j: nat, h: BlockHeader, universe: set<BlockHeader>)
    requires HashesIdentify(universe) && FinalityKept(clients)
    requires forall k :: 0 <= k < |clients| ==> Consistent(clients[k], universe)
    requires m < j < |clients| && FinalAt(h, clients[m])
    ensures OnChain(h, clients[j].blocks)
  {
    var f := clients[m].snapshot.finalized.value;
    assert OnChain(f, clients[j].blocks);
    LinksFixPrefix(clients[m].blocks, clients[j].blocks, f.number, f.number, f.number - h.number, universe);
  }

  /** Everything a tick reverts is off the canonical chain. */
  lemma RevertedAreNotCanonical(chain: seq<IndexedBlock>, c: Client, fromNumber: nat, universe: set<BlockHeader>)
    requires ChainOk(Headers(chain), universe) && Consistent(c, universe) && HashesIdentify(universe)
    requires !TipUnknown(Headers(chain), c) && Report(chain, c, fromNumber).Some?
    ensures forall r :: r in Report(chain, c, fromNumber).value.reverted ==> !OnChain(r.header, c.blocks)
  {
    var local := Headers(chain);
    var p, reverted := Agreed(local, c.blocks), Report(chain, c, fromNumber).value.reverted;
    forall r | r in reverted
      ensures !OnChain(r.header, c.blocks)
    {
      var x :| 0 <= x < |reverted| && reverted[x] == r;
      var i := |chain| - 1 - x;
      assert r == chain[i] && local[i] == r.header && i >= p;
      AgreedIsACut(local, c, universe, i);
    }
  }

  /** No block that was ever tagged finalized is reverted by a later tick. */
  lemma FinalizedNeverReverted(chains: seq<seq<IndexedBlock>>, clients: seq<Client>, froms: seq<nat>,
                                                  universe: set<BlockHeader>, k: nat, j: nat, b: IndexedBlock)
    requires Run(chains, clients, froms, universe) && FinalityKept(clients)
    requires k <= j < |clients| && b in chains[k] && b.tag == Finalized
    requires !TipUnknown(Headers(chains[j]), clients[j])
    ensures var report := Report(chains[j], clients[j], froms[j]);
            report.Some? ==> forall r :: r in report.value.reverted ==> r.header != b.header
  {
    var m := TaggedFinalWasFinal(chains, clients, froms, universe, k, b);
    FinalStaysCanonical(clients, m, j, b.header, universe);
    if Report(chains[j], clients[j], froms[j]).Some? {
      RunKeepsChainOk(chains, clients, froms, universe, j);
      RevertedAreNotCanonical(chains[j], clients[j], froms[j], universe);
    }
  }
}

/** The Merkle tree over leaf digests, its inclusion proofs and the account-set
    root. Every soundness statement is of the form "or two of the byte strings
    hashed along the way collide under `h`"; the candidate strings are an explicit
    finite set, because *some* collision of a 32-byte hash always exists. */
module Merkle {
  import opened Common
  import opened Framing

  type U64 = n: nat | n < U64_LIMIT

  function Ascii(s: string): (r: Bytes)
    ensures |r| == |s|
  {
    seq(|s|, i requires 0 <= i < |s| => (s[i] as int % 256) as Byte)
  }

  const LEAF_TAG := Ascii("LZK/leaf/v1")
  const NODE_TAG := Ascii("LZK/node/v1")
  const TREE_TAG := Ascii("LZK/tree/v1")
  const EMPTY_TAG := Ascii("LZK/empty/v1")

  datatype MerkleError =
    | IndexOutOfRange(index: U64, count: U64)
    | InvalidSiblingCount(expected: nat, actual: nat)
    | RootMismatch
    | EmptyTree

  datatype InclusionProof = InclusionProof(index: U64, count: U64, siblings: seq<Digest>)

  datatype MerkleTree = MerkleTree(root: Digest, count: U64, levels: seq<seq<Digest>>)

  // ---------------------------------------------------------------- preimages

  function LeafPreimage(salt: Digest, record: Bytes): Bytes { Frame(LEAF_TAG, [salt, record]) }

  function NodePreimage(left: Digest, right: Digest): Bytes { Frame(NODE_TAG, [left, right]) }

  function TreePreimage(count: U64, top: Digest): Bytes { Frame(TREE_TAG, [BigEndian(count, 8), top]) }

  function EmptyPreimage(): Bytes { Frame(EMPTY_TAG, []) }

  lemma TagsDiffer()
    ensures LEAF_TAG != NODE_TAG && LEAF_TAG != TREE_TAG && LEAF_TAG != EMPTY_TAG
    ensures NODE_TAG != TREE_TAG && NODE_TAG != EMPTY_TAG && TREE_TAG != EMPTY_TAG
  {
    assert LEAF_TAG[4] == 'l' as int as Byte && NODE_TAG[4] == 'n' as int as Byte;
    assert TREE_TAG[4] == 't' as int as Byte && EMPTY_TAG[4] == 'e' as int as Byte;
  }

  /** Leaf, node, tree and empty preimages are pairwise distinct. */
  lemma DomainsSeparated(salt: Digest, record: Bytes, l: Digest, r: Digest, count: U64, top: Digest)
    requires |record| < U64_LIMIT
    ensures LeafPreimage(salt, record) != NodePreimage(l, r)
    ensures LeafPreimage(salt, record) != TreePreimage(count, top)
    ensures LeafPreimage(salt, record) != EmptyPreimage()
    ensures NodePreimage(l, r) != TreePreimage(count, top)
    ensures NodePreimage(l, r) != EmptyPreimage()
    ensures TreePreimage(count, top) != EmptyPreimage()
  {
    TagsDiffer();
    DecodeOfFrame(LEAF_TAG, [salt, record]);
    DecodeOfFrame(NODE_TAG, [l, r]);
    DecodeOfFrame(TREE_TAG, [BigEndian(count, 8), top]);
    DecodeOfFrame(EMPTY_TAG, []);
  }

  /** The four tags, byte by byte. */
  lemma TagBytes()
    ensures LEAF_TAG == [0x4c, 0x5a, 0x4b, 0x2f, 0x6c, 0x65, 0x61, 0x66, 0x2f, 0x76, 0x31]
    ensures NODE_TAG == [0x4c, 0x5a, 0x4b, 0x2f, 0x6e, 0x6f, 0x64, 0x65, 0x2f, 0x76, 0x31]
    ensures TREE_TAG == [0x4c, 0x5a, 0x4b, 0x2f, 0x74, 0x72, 0x65, 0x65, 0x2f, 0x76, 0x31]
    ensures EMPTY_TAG == [0x4c, 0x5a, 0x4b, 0x2f, 0x65, 0x6d, 0x70, 0x74, 0x79, 0x2f, 0x76, 0x31]
  {
  }

  /** What a decoder reads from each preimage: its tag, and its parts in order, the
      salt before the record, the left child before the right, the count before the top. */
  lemma PreimagesDecode(salt: Digest, record: Bytes, left: Digest, right: Digest, count: U64, top: Digest)
    requires |record| < U64_LIMIT
    ensures Decode(LeafPreimage(salt, record)) == Some((LEAF_TAG, [salt, record]))
    ensures Decode(NodePreimage(left, right)) == Some((NODE_TAG, [left, right]))
    ensures Decode(EmptyPreimage()) == Some((EMPTY_TAG, []))
    ensures exists c: Bytes :: |c| == 8 && FromBigEndian(c) == count
              && Decode(TreePreimage(count, top)) == Some((TREE_TAG, [c, top]))
  {
    DecodeOfFrame(LEAF_TAG, [salt, record]);
    DecodeOfFrame(NODE_TAG, [left, right]);
    DecodeOfFrame(EMPTY_TAG, []);
    DecodeOfFrame(TREE_TAG, [BigEndian(count, 8), top]);
    PrefixWidths();
    BigEndianRoundTrip(count, 8);
  }

  lemma NodePreimageInjective(l: Digest, r: Digest, l': Digest, r': Digest)
    requires NodePreimage(l, r) == NodePreimage(l', r')
    ensures l == l' && r == r'
  {
    FrameInjective(NODE_TAG, [l, r], NODE_TAG, [l', r']);
    assert [l, r][0] == [l', r'][0] && [l, r][1] == [l', r'][1];
  }

  lemma TreePreimageInjective(count: U64, top: Digest, count': U64, top': Digest)
    requires TreePreimage(count, top) == TreePreimage(count', top')
    ensures count == count' && top == top'
  {
    var a, b := [BigEndian(count, 8), top], [BigEndian(count', 8), top'];
    FrameInjective(TREE_TAG, a, TREE_TAG, b);
    assert a[0] == b[0] && a[1] == b[1];
    PrefixWidths();
    BigEndianRoundTrip(count, 8);
    BigEndianRoundTrip(count', 8);
  }

  lemma LeafPreimageInjective(salt: Digest, record: Bytes, salt': Digest, record': Bytes)
    requires |record| < U64_LIMIT && |record'| < U64_LIMIT
    requires LeafPreimage(salt, record) == LeafPreimage(salt', record')
    ensures salt == salt' && record == record'
  {
    var a, b := [salt, record], [salt', record'];
    FrameInjective(LEAF_TAG, a, LEAF_TAG, b);
    assert a[0] == b[0] && a[1] == b[1];
  }

  ghost predicate CollisionIn(h: Bytes -> Digest, hashed: set<Bytes>) {
    exists x, y :: x in hashed && y in hashed && x != y && h(x) == h(y)
  }

  lemma CollisionFree(h: Bytes -> Digest, hashed: set<Bytes>, part: set<Bytes>)
    requires !CollisionIn(h, hashed) && part <= hashed
    ensures !CollisionIn(h, part)
  {
  }

  lemma SamePreimage(h: Bytes -> Digest, hashed: set<Bytes>, x: Bytes, y: Bytes)
    requires !CollisionIn(h, hashed) && x in hashed && y in hashed && h(x) == h(y)
    ensures x == y
  {
  }

  // --------------------------------------------------------------- the levels

  function NodeHash(h: Bytes -> Digest, left: Digest, right: Digest): Digest {
    h(NodePreimage(left, right))
  }

  /** The right child of pair `i`; the last node of an odd level pairs with itself. */
  function RightOf(level: seq<Digest>, i: nat): Digest
    requires 2 * i < |level|
  {
    if 2 * i + 1 < |level| then level[2 * i + 1] else level[2 * i]
  }

  function Reduce(h: Bytes -> Digest, level: seq<Digest>): (r: seq<Digest>)
    ensures |r| == (|level| + 1) / 2
  {
    seq<Digest>((|level| + 1) / 2, i requires 0 <= i < (|level| + 1) / 2 =>
      NodeHash(h, level[2 * i], RightOf(level, i)))
  }

  lemma ReduceAt(h: Bytes -> Digest, level: seq<Digest>, i: nat)
    requires 2 * i < |level|
    ensures Reduce(h, level)[i] == NodeHash(h, level[2 * i], RightOf(level, i))
  {
  }

  function Top(h: Bytes -> Digest, level: seq<Digest>): Digest
    requires |level| > 0
    decreases |level|
  {
    if |level| == 1 then level[0] else Top(h, Reduce(h, level))
  }

  function Levels(h: Bytes -> Digest, level: seq<Digest>): (r: seq<seq<Digest>>)
    requires |level| > 0
    ensures |r| > 0 && r[0] == level
    decreases |level|
  {
    if |level| == 1 then [level] else [level] + Levels(h, Reduce(h, level))
  }

  /** The number of halvings, rounding up, that bring `n` down to one. */
  function Height(n: nat): nat {
    if n <= 1 then 0 else 1 + Height((n + 1) / 2)
  }

  /** The digest committed beside the leaf count. */
  function Apex(h: Bytes -> Digest, leaves: seq<Digest>): Digest {
    if leaves == [] then h(EmptyPreimage()) else Top(h, leaves)
  }

  lemma ApexIsTop(h: Bytes -> Digest, leaves: seq<Digest>)
    requires leaves != []
    ensures Apex(h, leaves) == Top(h, leaves)
  {
  }

  /** `expected_height` of the count is the number of reductions `Build` makes. */
  lemma {:induction false} LevelsHeight(h: Bytes -> Digest, level: seq<Digest>)
    requires |level| > 0
    ensures |Levels(h, level)| == Height(|level|) + 1
    decreases |level|
  {
    hide Reduce;
    if |level| > 1 {
      LevelsHeight(h, Reduce(h, level));
    }
  }

  function RootOf(h: Bytes -> Digest, leaves: seq<Digest>): Digest
    requires |leaves| < U64_LIMIT
  {
    h(TreePreimage(|leaves|, Apex(h, leaves)))
  }

  /** `t` is the tree `Build` makes from `leaves`. */
  ghost predicate TreeOver(h: Bytes -> Digest, t: MerkleTree, leaves: seq<Digest>) {
    && |leaves| < U64_LIMIT
    && t.count == |leaves|
    && t.root == RootOf(h, leaves)
    && t.levels == if leaves == [] then [] else Levels(h, leaves)
  }

  method ReduceLevel(h: Bytes -> Digest, level: seq<Digest>) returns (next: seq<Digest>)
    ensures next == Reduce(h, level)
  {
    hide NodePreimage;
    next := [];
    var i := 0;
    while i < |level|
      invariant i == 2 * |next| <= |level| + 1
      invariant forall k :: 0 <= k < |next| ==> next[k] == NodeHash(h, level[2 * k], RightOf(level, k))
    {
      var left := level[i];
      var right := if i + 1 < |level| then level[i + 1] else left;
      next := next + [NodeHash(h, left, right)];
      i := i + 2;
    }
  }

  method Build(h: Bytes -> Digest, leaves: seq<Digest>) returns (t: MerkleTree)
    requires |leaves| < U64_LIMIT
    ensures TreeOver(h, t, leaves)
  {
    hide NodePreimage, TreePreimage, EmptyPreimage, Reduce;
    if leaves == [] {
      return MerkleTree(h(TreePreimage(0, h(EmptyPreimage()))), 0, []);
    }
    var levels := [leaves];
    while |levels[|levels| - 1]| > 1
      invariant |levels| > 0 && |levels[|levels| - 1]| > 0
      invariant Top(h, levels[|levels| - 1]) == Top(h, leaves)
      invariant levels[..|levels| - 1] + Levels(h, levels[|levels| - 1]) == Levels(h, leaves)
      decreases |levels[|levels| - 1]|
    {
      var last := levels[|levels| - 1];
      var next := ReduceLevel(h, last);
      assert levels[..|levels| - 1] + Levels(h, last)
          == levels + Levels(h, next) by {
        assert Levels(h, last) == [last] + Levels(h, next);
        assert levels == levels[..|levels| - 1] + [last];
      }
      levels := levels + [next];
    }
    assert levels == levels[..|levels| - 1] + [levels[|levels| - 1]];
    var top := levels[|levels| - 1][0];
    t := MerkleTree(h(TreePreimage(|leaves|, top)), |leaves|, levels);
  }

  /** `next` holds the hash of every pair of `level`, left before right, the last node
      of an odd level paired with itself. */
  ghost predicate PairsHashed(h: Bytes -> Digest, level: seq<Digest>, next: seq<Digest>) {
    && |next| == (|level| + 1) / 2
    && forall i :: 0 <= i < |next| ==>
         next[i] == h(Frame(NODE_TAG, [level[2 * i], if 2 * i + 1 < |level| then level[2 * i + 1] else level[2 * i]]))
  }

  lemma ReduceInFull(h: Bytes -> Digest, level: seq<Digest>)
    ensures PairsHashed(h, level, Reduce(h, level))
  {
    hide Frame;
  }

  /** Every level but the last has more than one node, and the next hashes its pairs. */
  ghost predicate Stacked(h: Bytes -> Digest, levels: seq<seq<Digest>>) {
    |levels| > 1 ==>
      |levels[0]| > 1 && PairsHashed(h, levels[0], levels[1]) && Stacked(h, levels[1..])
  }

  lemma StackedCons(h: Bytes -> Digest, level: seq<Digest>, levels: seq<seq<Digest>>)
    requires levels != [] && Stacked(h, levels) && |level| > 1 && PairsHashed(h, level, levels[0])
    ensures Stacked(h, [level] + levels)
  {
    hide PairsHashed;
    assert ([level] + levels)[1..] == levels;
  }

  lemma {:induction false} LevelsInFull(h: Bytes -> Digest, level: seq<Digest>)
    requires |level| > 0
    ensures Stacked(h, Levels(h, level))
    ensures Levels(h, level)[|Levels(h, level)| - 1] == [Top(h, level)]
    decreases |level|
  {
    hide PairsHashed, Reduce;
    if |level| > 1 {
      hide Stacked;
      var next := Reduce(h, level);
      LevelsInFull(h, next);
      ReduceInFull(h, level);
      StackedCons(h, level, Levels(h, next));
    }
  }

  /** The built tree in full: the leaves at the bottom, every level the hashed pairs of
      the one below, one node at the top, and a root that frames count and top. */
  lemma TreeInFull(h: Bytes -> Digest, t: MerkleTree, leaves: seq<Digest>)
    requires TreeOver(h, t, leaves)
    ensures t.count == |leaves|
    ensures leaves == [] ==>
              && t.levels == []
              && t.root == h(Frame(TREE_TAG, [[0, 0, 0, 0, 0, 0, 0, 0], h(Frame(EMPTY_TAG, []))]))
    ensures leaves != [] ==>
              && |t.levels| > 0 && t.levels[0] == leaves && |t.levels[|t.levels| - 1]| == 1
              && Stacked(h, t.levels)
              && t.root == h(Frame(TREE_TAG, [BigEndian(|leaves|, 8), t.levels[|t.levels| - 1][0]]))
  {
    hide Frame, PairsHashed, Levels, Top, Stacked;
    if leaves == [] {
      ZeroCount();
    } else {
      LevelsInFull(h, leaves);
      LevelsStart(h, leaves);
    }
  }

  lemma LevelsStart(h: Bytes -> Digest, leaves: seq<Digest>)
    requires leaves != []
    ensures |Levels(h, leaves)| > 0 && Levels(h, leaves)[0] == leaves
  {
  }

  lemma ZeroCount()
    ensures BigEndian(0, 8) == [0, 0, 0, 0, 0, 0, 0, 0]
  {
    assert BigEndian(0, 4) == [0, 0, 0, 0];
    assert BigEndian(0, 8) == BigEndian(0, 4) + [0] + [0] + [0] + [0];
  }

  // --------------------------------------------------------------- the proofs

  /** The position of the other member of `i`'s pair; an unpaired last node is its own sibling. */
  function SiblingIndex(len: nat, i: nat): (s: nat)
    requires i < len
    ensures s < len
  {
    if i % 2 == 0 then (if i + 1 < len then i + 1 else i) else i - 1
  }

  function SiblingOf(level: seq<Digest>, i: nat): Digest
    requires i < |level|
  {
    level[SiblingIndex(|level|, i)]
  }

  function Siblings(h: Bytes -> Digest, level: seq<Digest>, i: nat): seq<Digest>
    requires i < |level|
    decreases |level|
  {
    if |level| == 1 then [] else [SiblingOf(level, i)] + Siblings(h, Reduce(h, level), i / 2)
  }

  lemma {:induction false} SiblingsHeight(h: Bytes -> Digest, level: seq<Digest>, i: nat)
    requires i < |level|
    ensures |Siblings(h, level, i)| == Height(|level|)
    decreases |level|
  {
    hide Reduce;
    if |level| > 1 {
      SiblingsHeight(h, Reduce(h, level), i / 2);
    }
  }

  function StepPreimage(hash: Digest, index: nat, sibling: Digest): Bytes {
    if index % 2 == 0 then NodePreimage(hash, sibling) else NodePreimage(sibling, hash)
  }

  function Fold(h: Bytes -> Digest, hash: Digest, index: nat, siblings: seq<Digest>): Digest
    decreases |siblings|
  {
    if siblings == [] then hash
    else Fold(h, h(StepPreimage(hash, index, siblings[0])), index / 2, siblings[1..])
  }

  lemma Cons(s: seq<Digest>, head: Digest, tail: seq<Digest>)
    requires s != [] && s[0] == head && s[1..] == tail
    ensures s == [head] + tail
  {
  }

  lemma {:induction false} LevelsStep(h: Bytes -> Digest, levels: seq<seq<Digest>>, k: nat)
    requires k + 1 < |levels| && |levels[k]| > 0 && Levels(h, levels[k]) == levels[k..]
    ensures |levels[k]| > 1 && levels[k + 1] == Reduce(h, levels[k])
    ensures Levels(h, levels[k + 1]) == levels[k + 1..]
  {
    hide Reduce;
    assert levels[k..][1..] == levels[k + 1..];
    assert levels[k + 1] == levels[k + 1..][0];
  }

  lemma {:induction false} SiblingsStep(h: Bytes -> Digest, level: seq<Digest>, i: nat, all: seq<Digest>, k: nat)
    requires i < |level| && |level| > 1 && k <= |all| && Siblings(h, level, i) == all[k..]
    ensures k < |all| && all[k] == SiblingOf(level, i)
    ensures Siblings(h, Reduce(h, level), i / 2) == all[k + 1..]
  {
    hide Reduce, SiblingOf;
    assert all[k..][0] == all[k];
    assert all[k..][1..] == all[k + 1..];
  }

  method Prove(h: Bytes -> Digest, t: MerkleTree, ghost leaves: seq<Digest>, index: U64)
    returns (r: Result<InclusionProof, MerkleError>)
    requires TreeOver(h, t, leaves)
    ensures t.count == 0 ==> r == Err(EmptyTree)
    ensures 0 < t.count <= index ==> r == Err(IndexOutOfRange(index, t.count))
    ensures index < t.count ==> r == Ok(InclusionProof(index, t.count, Siblings(h, leaves, index)))
  {
    hide Reduce, Height, SiblingIndex, Levels, Siblings;
    if t.count == 0 {
      return Err(EmptyTree);
    }
    if index >= t.count {
      return Err(IndexOutOfRange(index, t.count));
    }
    ghost var all := Siblings(h, leaves, index);
    LevelsHeight(h, leaves);
    SiblingsHeight(h, leaves, index);
    assert t.levels[0..] == t.levels && all[0..] == all;
    var siblings: seq<Digest>, i: nat := [], index;
    for k := 0 to |t.levels| - 1
      invariant i < |t.levels[k]|
      invariant |t.levels[k]| > 0 && Levels(h, t.levels[k]) == t.levels[k..]
      invariant k <= |all| && siblings == all[..k]
      invariant Siblings(h, t.levels[k], i) == all[k..]
    {
      var level := t.levels[k];
      LevelsStep(h, t.levels, k);
      var siblingIndex := SiblingIndex(|level|, i);
      SiblingsStep(h, level, i, all, k);
      siblings := siblings + [level[siblingIndex]];
      i := i / 2;
    }
    assert all[..|all|] == all;
    r := Ok(InclusionProof(index, t.count, siblings));
  }

  method ExpectedHeight(count: U64) returns (height: nat)
    ensures height == Height(count)
  {
    if count <= 1 {
      return 0;
    }
    height := 0;
    var n: nat := count;
    while n > 1
      invariant height + Height(n) == Height(count)
    {
      n := (n + 1) / 2;
      height := height + 1;
    }
  }

  ghost predicate Accepts(h: Bytes -> Digest, leaf: Digest, proof: InclusionProof, root: Digest) {
    && proof.index < proof.count
    && |proof.siblings| == Height(proof.count)
    && h(TreePreimage(proof.count, Fold(h, leaf, proof.index, proof.siblings))) == root
  }

  method VerifyInclusion(h: Bytes -> Digest, leaf: Digest, proof: InclusionProof, root: Digest)
    returns (r: Result<(), MerkleError>)
    ensures r.Ok? <==> Accepts(h, leaf, proof, root)
    ensures proof.count == 0 ==> r == Err(EmptyTree)
    ensures 0 < proof.count <= proof.index ==> r == Err(IndexOutOfRange(proof.index, proof.count))
    ensures proof.index < proof.count && |proof.siblings| != Height(proof.count) ==>
              r == Err(InvalidSiblingCount(Height(proof.count), |proof.siblings|))
    ensures proof.index < proof.count && |proof.siblings| == Height(proof.count) && r.Err? ==>
              r == Err(RootMismatch)
  {
    if proof.count == 0 {
      return Err(EmptyTree);
    }
    if proof.index >= proof.count {
      return Err(IndexOutOfRange(proof.index, proof.count));
    }
    var height := ExpectedHeight(proof.count);
    if |proof.siblings| != height {
      return Err(InvalidSiblingCount(height, |proof.siblings|));
    }
    var hash: Digest, index: nat := leaf, proof.index;
    for k := 0 to |proof.siblings|
      invariant Fold(h, hash, index, proof.siblings[k..]) == Fold(h, leaf, proof.index, proof.siblings)
    {
      var sibling := proof.siblings[k];
      hash := if index % 2 == 0 then NodeHash(h, hash, sibling) else NodeHash(h, sibling, hash);
      index := index / 2;
      assert proof.siblings[k..][1..] == proof.siblings[k + 1..];
    }
    if h(TreePreimage(proof.count, hash)) != root {
      return Err(RootMismatch);
    }
    r := Ok(());
  }

  // ------------------------------------------------- what each operation hashes

  function LevelHashed(level: seq<Digest>): set<Bytes> {
    set i | 0 <= i < (|level| + 1) / 2 :: NodePreimage(level[2 * i], RightOf(level, i))
  }

  function NodesHashed(h: Bytes -> Digest, level: seq<Digest>): set<Bytes>
    decreases |level|
  {
    if |level| <= 1 then {} else LevelHashed(level) + NodesHashed(h, Reduce(h, level))
  }

  /** The byte strings hashed while building the tree over `leaves`. */
  function BuildHashed(h: Bytes -> Digest, leaves: seq<Digest>): set<Bytes>
    requires |leaves| < U64_LIMIT
  {
    (if leaves == [] then {EmptyPreimage()} else NodesHashed(h, leaves))
    + {TreePreimage(|leaves|, Apex(h, leaves))}
  }

  function PathHashed(h: Bytes -> Digest, hash: Digest, index: nat, siblings: seq<Digest>): set<Bytes>
    decreases |siblings|
  {
    if siblings == [] then {}
    else
      var p := StepPreimage(hash, index, siblings[0]);
      {p} + PathHashed(h, h(p), index / 2, siblings[1..])
  }

  /** The byte strings hashed while verifying `proof` for `leaf`. */
  function VerifyHashed(h: Bytes -> Digest, leaf: Digest, proof: InclusionProof): set<Bytes> {
    PathHashed(h, leaf, proof.index, proof.siblings)
    + {TreePreimage(proof.count, Fold(h, leaf, proof.index, proof.siblings))}
  }

  // ------------------------------------------------------------------ binding

  lemma PairInLevel(level: seq<Digest>, i: nat)
    requires 2 * i < |level|
    ensures NodePreimage(level[2 * i], RightOf(level, i)) in LevelHashed(level)
  {
  }

  lemma ReduceBinds(h: Bytes -> Digest, a: seq<Digest>, b: seq<Digest>, hashed: set<Bytes>)
    requires |a| == |b| && Reduce(h, a) == Reduce(h, b)
    requires LevelHashed(a) + LevelHashed(b) <= hashed && !CollisionIn(h, hashed)
    ensures a == b
  {
    hide NodePreimage, Reduce, CollisionIn;
    forall k | 0 <= k < |a|
      ensures a[k] == b[k]
    {
      var i := k / 2;
      PairInLevel(a, i);
      PairInLevel(b, i);
      ReduceAt(h, a, i);
      ReduceAt(h, b, i);
      SamePreimage(h, hashed, NodePreimage(a[2 * i], RightOf(a, i)), NodePreimage(b[2 * i], RightOf(b, i)));
      NodePreimageInjective(a[2 * i], RightOf(a, i), b[2 * i], RightOf(b, i));
    }
  }

  lemma {:induction false} TopBinds(h: Bytes -> Digest, a: seq<Digest>, b: seq<Digest>, hashed: set<Bytes>)
    requires |a| == |b| > 0 && Top(h, a) == Top(h, b)
    requires NodesHashed(h, a) + NodesHashed(h, b) <= hashed && !CollisionIn(h, hashed)
    ensures a == b
    decreases |a|
  {
    hide LevelHashed, Reduce, CollisionIn;
    if |a| > 1 {
      TopBinds(h, Reduce(h, a), Reduce(h, b), hashed);
      ReduceBinds(h, a, b, hashed);
    }
  }

  /** The root binds the whole ordered leaf list, whatever the two lengths. */
  lemma RootBinds(h: Bytes -> Digest, a: seq<Digest>, b: seq<Digest>)
    requires |a| < U64_LIMIT && |b| < U64_LIMIT
    requires RootOf(h, a) == RootOf(h, b)
    ensures a == b || CollisionIn(h, BuildHashed(h, a) + BuildHashed(h, b))
  {
    hide Apex, TreePreimage, EmptyPreimage, NodesHashed, Top, CollisionIn;
    var all := BuildHashed(h, a) + BuildHashed(h, b);
    if !CollisionIn(h, all) {
      SamePreimage(h, all, TreePreimage(|a|, Apex(h, a)), TreePreimage(|b|, Apex(h, b)));
      TreePreimageInjective(|a|, Apex(h, a), |b|, Apex(h, b));
      if a != [] {
        ApexIsTop(h, a);
        ApexIsTop(h, b);
        TopBinds(h, a, b, all);
      }
    }
  }

  // -------------------------------------------------------- inclusion proofs

  lemma {:induction false} FoldOfSiblings(h: Bytes -> Digest, level: seq<Digest>, i: nat)
    requires i < |level|
    ensures Fold(h, level[i], i, Siblings(h, level, i)) == Top(h, level)
    decreases |level|
  {
    hide NodePreimage, Reduce;
    if |level| > 1 {
      var s := Siblings(h, level, i);
      assert s[1..] == Siblings(h, Reduce(h, level), i / 2);
      ReduceAt(h, level, i / 2);
      assert h(StepPreimage(level[i], i, s[0])) == Reduce(h, level)[i / 2];
      FoldOfSiblings(h, Reduce(h, level), i / 2);
    }
  }

  lemma StepBinds(h: Bytes -> Digest, level: seq<Digest>, i: nat, hash: Digest,
                                     sibling: Digest, hashed: set<Bytes>)
    requires i < |level| && h(StepPreimage(hash, i, sibling)) == Reduce(h, level)[i / 2]
    requires {StepPreimage(hash, i, sibling)} + LevelHashed(level) <= hashed && !CollisionIn(h, hashed)
    ensures hash == level[i] && sibling == SiblingOf(level, i)
  {
    hide NodePreimage, Reduce, CollisionIn;
    var l, r := level[i / 2 * 2], RightOf(level, i / 2);
    PairInLevel(level, i / 2);
    ReduceAt(h, level, i / 2);
    SamePreimage(h, hashed, StepPreimage(hash, i, sibling), NodePreimage(l, r));
    if i % 2 == 0 {
      NodePreimageInjective(hash, sibling, l, r);
    } else {
      NodePreimageInjective(sibling, hash, l, r);
    }
  }

  lemma {:induction false} FoldBinds(h: Bytes -> Digest, level: seq<Digest>, i: nat, leaf: Digest,
                                     siblings: seq<Digest>, hashed: set<Bytes>)
    requires i < |level| && |siblings| == Height(|level|)
    requires Fold(h, leaf, i, siblings) == Top(h, level)
    requires PathHashed(h, leaf, i, siblings) + NodesHashed(h, level) <= hashed && !CollisionIn(h, hashed)
    ensures leaf == level[i] && siblings == Siblings(h, level, i)
    decreases |level|
  {
    hide StepPreimage, LevelHashed, Reduce, CollisionIn, SiblingOf, NodeHash;
    if |level| > 1 {
      FoldBinds(h, Reduce(h, level), i / 2, h(StepPreimage(leaf, i, siblings[0])), siblings[1..], hashed);
      StepBinds(h, level, i, leaf, siblings[0], hashed);
      Cons(siblings, SiblingOf(level, i), Siblings(h, Reduce(h, level), i / 2));
    }
  }

  /** Completeness: the proof `Prove` returns is accepted. */
  lemma ProofAccepted(h: Bytes -> Digest, leaves: seq<Digest>, i: U64)
    requires i < |leaves| < U64_LIMIT
    ensures Accepts(h, leaves[i], InclusionProof(i, |leaves|, Siblings(h, leaves, i)), RootOf(h, leaves))
  {
    FoldOfSiblings(h, leaves, i);
    SiblingsHeight(h, leaves, i);
  }

  lemma {:induction false} AcceptedWithoutCollision(h: Bytes -> Digest, leaves: seq<Digest>, leaf: Digest,
                                                    proof: InclusionProof, hashed: set<Bytes>)
    requires |leaves| < U64_LIMIT
    requires Accepts(h, leaf, proof, RootOf(h, leaves))
    requires VerifyHashed(h, leaf, proof) + BuildHashed(h, leaves) <= hashed && !CollisionIn(h, hashed)
    ensures proof.index < |leaves| == proof.count
    ensures leaf == leaves[proof.index] && proof.siblings == Siblings(h, leaves, proof.index)
  {
    hide TreePreimage, Apex, Top, Siblings, NodesHashed, PathHashed, Fold, Height, CollisionIn;
    var folded := Fold(h, leaf, proof.index, proof.siblings);
    SamePreimage(h, hashed, TreePreimage(proof.count, folded), TreePreimage(|leaves|, Apex(h, leaves)));
    TreePreimageInjective(proof.count, folded, |leaves|, Apex(h, leaves));
    ApexIsTop(h, leaves);
    FoldBinds(h, leaves, proof.index, leaf, proof.siblings, hashed);
  }

  /** The proof `Prove` returns for the leaf it returns it for. */
  ghost predicate Genuine(h: Bytes -> Digest, leaves: seq<Digest>, leaf: Digest, proof: InclusionProof) {
    && proof.index < |leaves| == proof.count
    && leaf == leaves[proof.index]
    && proof.siblings == Siblings(h, leaves, proof.index)
  }

  /** Against a built root `VerifyInclusion` accepts exactly the leaf at that index
      with exactly the proof `Prove` returns, so nothing against the empty tree. */
  lemma AcceptedIffGenuine(h: Bytes -> Digest, leaves: seq<Digest>, leaf: Digest, proof: InclusionProof)
    requires |leaves| < U64_LIMIT
    ensures Genuine(h, leaves, leaf, proof) ==> Accepts(h, leaf, proof, RootOf(h, leaves))
    ensures Accepts(h, leaf, proof, RootOf(h, leaves)) ==>
              || Genuine(h, leaves, leaf, proof)
              || CollisionIn(h, VerifyHashed(h, leaf, proof) + BuildHashed(h, leaves))
  {
    hide Accepts, CollisionIn, RootOf, VerifyHashed, BuildHashed, Siblings;
    var all := VerifyHashed(h, leaf, proof) + BuildHashed(h, leaves);
    if Genuine(h, leaves, leaf, proof) {
      ProofAccepted(h, leaves, proof.index);
      assert proof == InclusionProof(proof.index, |leaves|, Siblings(h, leaves, proof.index));
    }
    if Accepts(h, leaf, proof, RootOf(h, leaves)) && !CollisionIn(h, all) {
      AcceptedWithoutCollision(h, leaves, leaf, proof, all);
    }
  }

  // ---------------------------------------------------------- committed records

  /** The leaf digests of salted canonical records. */
  function RecordLeaves(h: Bytes -> Digest, records: seq<(Digest, Bytes)>): (r: seq<Digest>)
    ensures |r| == |records|
  {
    seq<Digest>(|records|, i requires 0 <= i < |records| => h(LeafPreimage(records[i].0, records[i].1)))
  }

  lemma RecordLeafInFull(h: Bytes -> Digest, records: seq<(Digest, Bytes)>, i: nat)
    requires i < |records|
    ensures RecordLeaves(h, records)[i] == h(Frame(LEAF_TAG, [records[i].0, records[i].1]))
  {
    hide Frame;
    var salt, record := records[i].0, records[i].1;
    assert LeafPreimage(salt, record) == Frame(LEAF_TAG, [salt, record]);
  }

  function RecordsHashed(records: seq<(Digest, Bytes)>): set<Bytes> {
    set i | 0 <= i < |records| :: LeafPreimage(records[i].0, records[i].1)
  }

  /** The root of a tree over records binds every salt and every record. */
  lemma RecordsBound(h: Bytes -> Digest, a: seq<(Digest, Bytes)>, b: seq<(Digest, Bytes)>)
    requires |a| < U64_LIMIT && |b| < U64_LIMIT
    requires forall i :: 0 <= i < |a| ==> |a[i].1| < U64_LIMIT
    requires forall i :: 0 <= i < |b| ==> |b[i].1| < U64_LIMIT
    requires RootOf(h, RecordLeaves(h, a)) == RootOf(h, RecordLeaves(h, b))
    ensures a == b || CollisionIn(h,
      BuildHashed(h, RecordLeaves(h, a)) + BuildHashed(h, RecordLeaves(h, b)) + RecordsHashed(a) + RecordsHashed(b))
  {
    var la, lb := RecordLeaves(h, a), RecordLeaves(h, b);
    hide LeafPreimage, BuildHashed, CollisionIn;
    var all := BuildHashed(h, la) + BuildHashed(h, lb) + RecordsHashed(a) + RecordsHashed(b);
    if !CollisionIn(h, all) {
      CollisionFree(h, all, BuildHashed(h, la) + BuildHashed(h, lb));
      RootBinds(h, la, lb);
      forall i | 0 <= i < |a|
        ensures a[i] == b[i]
      {
        assert la[i] == lb[i];
        SamePreimage(h, all, LeafPreimage(a[i].0, a[i].1), LeafPreimage(b[i].0, b[i].1));
        LeafPreimageInjective(a[i].0, a[i].1, b[i].0, b[i].1);
      }
    }
  }
}

/** Recomputing an account-set root from the member ids. */
module AccountSet {
  import opened Common
  import opened Framing
  import opened Merkle

  function MemberLeaves(h: Bytes -> Digest, ids: seq<Bytes>): (r: seq<Digest>)
    ensures |r| == |ids|
  {
    seq<Digest>(|ids|, i requires 0 <= i < |ids| => h(ids[i]))
  }

  /** The leaves are the hashes of the ids, in the order given. */
  lemma MembersInFull(h: Bytes -> Digest, ids: seq<Bytes>, leaves: seq<Digest>)
    ensures leaves == MemberLeaves(h, ids)
       <==> |leaves| == |ids| && forall i :: 0 <= i < |ids| ==> leaves[i] == h(ids[i])
  {
  }

  function IdsHashed(ids: seq<Bytes>): set<Bytes> { set i | 0 <= i < |ids| :: ids[i] }

  method VerifyAccountSetRoot(h: Bytes -> Digest, claimedRoot: Digest, memberIds: seq<Bytes>)
    returns (r: Result<(), MerkleError>)
    requires |memberIds| < U64_LIMIT
    ensures r == if RootOf(h, MemberLeaves(h, memberIds)) == claimedRoot then Ok(()) else Err(RootMismatch)
  {
    var tree := Build(h, MemberLeaves(h, memberIds));
    if tree.root != claimedRoot {
      return Err(RootMismatch);
    }
    r := Ok(());
  }

  /** One root is accepted for at most one ordered list of member ids. */
  lemma AtMostOneMembership(h: Bytes -> Digest, root: Digest, a: seq<Bytes>, b: seq<Bytes>)
    requires |a| < U64_LIMIT && |b| < U64_LIMIT
    requires RootOf(h, MemberLeaves(h, a)) == root == RootOf(h, MemberLeaves(h, b))
    ensures a == b || CollisionIn(h,
      BuildHashed(h, MemberLeaves(h, a)) + BuildHashed(h, MemberLeaves(h, b)) + IdsHashed(a) + IdsHashed(b))
  {
    var la, lb := MemberLeaves(h, a), MemberLeaves(h, b);
    hide BuildHashed, CollisionIn;
    var all := BuildHashed(h, la) + BuildHashed(h, lb) + IdsHashed(a) + IdsHashed(b);
    if !CollisionIn(h, all) {
      CollisionFree(h, all, BuildHashed(h, la) + BuildHashed(h, lb));
      RootBinds(h, la, lb);
      forall i | 0 <= i < |a|
        ensures a[i] == b[i]
      {
        assert la[i] == lb[i];
        SamePreimage(h, all, a[i], b[i]);
      }
    }
  }
}

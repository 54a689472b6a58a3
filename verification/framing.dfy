/** Domain-separated hash framing: `H(tag, fields...)` hashes
    `u32be(|tag|) || tag || (u64be(|field|) || field)*`.
    The hash itself is an arbitrary function `h` from byte strings to digests. */
module Framing {
  import opened Common

  newtype Byte = b: int | 0 <= b < 256
  type Bytes = seq<Byte>
  type Digest = d: Bytes | |d| == 32 witness seq(32, _ => 0)

  const U32_LIMIT := 0x1_0000_0000
  const U64_LIMIT := 0x1_0000_0000_0000_0000

  datatype FramingError = TagTooLong(length: nat) | FieldTooLong(length: nat)

  /** The `width` low-order base-256 digits of `n`, most significant first. */
  function BigEndian(n: nat, width: nat): (r: Bytes)
    ensures |r| == width
  {
    if width == 0 then [] else BigEndian(n / 256, width - 1) + [(n % 256) as Byte]
  }

  function FromBigEndian(b: Bytes): nat
  {
    if b == [] then 0 else FromBigEndian(b[..|b| - 1]) * 256 + b[|b| - 1] as int
  }

  function Pow256(n: nat): nat
  {
    if n == 0 then 1 else 256 * Pow256(n - 1)
  }

  predicate Encodable(tag: Bytes, fields: seq<Bytes>) {
    |tag| < U32_LIMIT && forall i :: 0 <= i < |fields| ==> |fields[i]| < U64_LIMIT
  }

  /** The bytes fed to the hasher for the fields alone. */
  function FrameFields(fields: seq<Bytes>): Bytes {
    if fields == [] then []
    else BigEndian(|fields[0]|, 8) + fields[0] + FrameFields(fields[1..])
  }

  /** The whole hash preimage. */
  function Frame(tag: Bytes, fields: seq<Bytes>): Bytes {
    BigEndian(|tag|, 4) + tag + FrameFields(fields)
  }

  function DecodeFields(b: Bytes): Option<seq<Bytes>> {
    if b == [] then Some([])
    else if |b| < 8 then None
    else
      var n := FromBigEndian(b[..8]);
      if |b| < 8 + n then None
      else
        match DecodeFields(b[8 + n..])
        case None => None
        case Some(rest) => Some([b[8..8 + n]] + rest)
  }

  /** Reads a preimage back; `None` when the bytes are not a framing at all. */
  function Decode(b: Bytes): Option<(Bytes, seq<Bytes>)> {
    if |b| < 4 then None
    else
      var n := FromBigEndian(b[..4]);
      if |b| < 4 + n then None
      else
        match DecodeFields(b[4 + n..])
        case None => None
        case Some(fields) => Some((b[4..4 + n], fields))
  }

  lemma {:induction false} BigEndianRoundTrip(n: nat, width: nat)
    requires n < Pow256(width)
    ensures FromBigEndian(BigEndian(n, width)) == n
  {
    if width > 0 {
      BigEndianRoundTrip(n / 256, width - 1);
      assert BigEndian(n, width)[..width - 1] == BigEndian(n / 256, width - 1);
    }
  }

  lemma {:induction false} FromBigEndianRoundTrip(b: Bytes)
    ensures FromBigEndian(b) < Pow256(|b|)
    ensures BigEndian(FromBigEndian(b), |b|) == b
  {
    if b != [] {
      FromBigEndianRoundTrip(b[..|b| - 1]);
      assert b == b[..|b| - 1] + [b[|b| - 1]];
    }
  }

  lemma PrefixWidths()
    ensures Pow256(4) == U32_LIMIT && Pow256(8) == U64_LIMIT
  {
    assert Pow256(4) == U32_LIMIT;
    assert Pow256(8) == 256 * (256 * (256 * (256 * Pow256(4))));
  }

  lemma SplitParts(p: Bytes, f: Bytes, rest: Bytes)
    ensures (p + f + rest)[..|p|] == p
    ensures (p + f + rest)[|p|..|p| + |f|] == f
    ensures (p + f + rest)[|p| + |f|..] == rest
  {
  }

  lemma Rejoin(b: Bytes, i: nat, j: nat)
    requires i <= j <= |b|
    ensures b[..i] + b[i..j] + b[j..] == b
  {
  }

  lemma FrameFieldsCons(f: Bytes, fields: seq<Bytes>)
    ensures FrameFields([f] + fields) == BigEndian(|f|, 8) + f + FrameFields(fields)
  {
    assert ([f] + fields)[1..] == fields;
  }

  lemma NothingDecoded()
    ensures DecodeFields([]) == Some([]) && FrameFields([]) == []
  {
  }

  lemma DecodesField(p: Bytes, f: Bytes, rest: Bytes, fields: seq<Bytes>)
    requires |p| == 8 && FromBigEndian(p) == |f| && DecodeFields(rest) == Some(fields)
    ensures DecodeFields(p + f + rest) == Some([f] + fields)
  {
    hide FromBigEndian;
    SplitParts(p, f, rest);
  }

  lemma {:induction false} DecodeFieldsOfFrame(fields: seq<Bytes>)
    requires forall i :: 0 <= i < |fields| ==> |fields[i]| < U64_LIMIT
    ensures DecodeFields(FrameFields(fields)) == Some(fields)
  {
    hide BigEndian, FromBigEndian, Pow256, DecodeFields;
    NothingDecoded();
    if fields != [] {
      PrefixWidths();
      BigEndianRoundTrip(|fields[0]|, 8);
      DecodeFieldsOfFrame(fields[1..]);
      DecodesField(BigEndian(|fields[0]|, 8), fields[0], FrameFields(fields[1..]), fields[1..]);
      assert fields == [fields[0]] + fields[1..];
    }
  }

  /** What a successful decoding reads first. */
  lemma FirstDecoded(b: Bytes) returns (n: nat)
    requires b != [] && DecodeFields(b).Some?
    ensures 8 + n <= |b| && n == FromBigEndian(b[..8]) && DecodeFields(b[8 + n..]).Some?
    ensures DecodeFields(b).value == [b[8..8 + n]] + DecodeFields(b[8 + n..]).value
  {
    hide FromBigEndian;
    n := FromBigEndian(b[..8]);
  }

  lemma {:induction false} FrameOfDecodeFields(b: Bytes)
    requires DecodeFields(b).Some?
    ensures forall i :: 0 <= i < |DecodeFields(b).value| ==> |DecodeFields(b).value[i]| < U64_LIMIT
    ensures FrameFields(DecodeFields(b).value) == b
    decreases |b|
  {
    hide BigEndian, FromBigEndian, Pow256, DecodeFields, FrameFields;
    NothingDecoded();
    if b != [] {
      var n := FirstDecoded(b);
      FrameOfDecodeFields(b[8 + n..]);
      PrefixWidths();
      FromBigEndianRoundTrip(b[..8]);
      Rejoin(b, 8, 8 + n);
      FrameFieldsCons(b[8..8 + n], DecodeFields(b[8 + n..]).value);
    }
  }

  lemma DecodeOfFrame(tag: Bytes, fields: seq<Bytes>)
    requires Encodable(tag, fields)
    ensures Decode(Frame(tag, fields)) == Some((tag, fields))
  {
    PrefixWidths();
    BigEndianRoundTrip(|tag|, 4);
    SplitParts(BigEndian(|tag|, 4), tag, FrameFields(fields));
    DecodeFieldsOfFrame(fields);
  }

  lemma FrameOfDecode(b: Bytes)
    requires Decode(b).Some?
    ensures Encodable(Decode(b).value.0, Decode(b).value.1)
    ensures Frame(Decode(b).value.0, Decode(b).value.1) == b
  {
    var n := FromBigEndian(b[..4]);
    PrefixWidths();
    FromBigEndianRoundTrip(b[..4]);
    FrameOfDecodeFields(b[4 + n..]);
    Rejoin(b, 4, 4 + n);
  }

  /** The framing is unambiguous: the decoder returns `(tag, fields)` from `b`
      exactly when `b` is the framing of those encodable parts. */
  lemma DecodeIffFramed(b: Bytes, tag: Bytes, fields: seq<Bytes>)
    ensures Decode(b) == Some((tag, fields)) <==> Encodable(tag, fields) && b == Frame(tag, fields)
  {
    if Encodable(tag, fields) {
      DecodeOfFrame(tag, fields);
    }
    if Decode(b).Some? {
      FrameOfDecode(b);
    }
  }

  /** Different `(tag, fields)` never share a preimage. */
  lemma FrameInjective(tag: Bytes, fields: seq<Bytes>, tag': Bytes, fields': seq<Bytes>)
    requires Encodable(tag, fields) && Encodable(tag', fields')
    requires Frame(tag, fields) == Frame(tag', fields')
    ensures tag == tag' && fields == fields'
  {
    DecodeIffFramed(Frame(tag, fields), tag, fields);
    DecodeIffFramed(Frame(tag, fields), tag', fields');
  }

  lemma {:induction false} FrameFieldsSnoc(fields: seq<Bytes>, f: Bytes)
    ensures FrameFields(fields + [f]) == FrameFields(fields) + BigEndian(|f|, 8) + f
  {
    if fields != [] {
      FrameFieldsSnoc(fields[1..], f);
      assert (fields + [f])[1..] == fields[1..] + [f];
    } else {
      assert fields + [f] == [f];
    }
  }

  /** The hasher is fed the tag and then each field; the first length that does
      not fit its prefix rejects the call. */
  method FrameHash(h: Bytes -> Digest, tag: Bytes, fields: seq<Bytes>)
    returns (r: Result<Digest, FramingError>)
    ensures Encodable(tag, fields) ==> r == Ok(h(Frame(tag, fields)))
    ensures |tag| >= U32_LIMIT ==> r == Err(TagTooLong(|tag|))
    ensures forall i :: 0 <= i < |fields| && |fields[i]| >= U64_LIMIT && Encodable(tag, fields[..i]) ==>
              r == Err(FieldTooLong(|fields[i]|))
  {
    if |tag| >= U32_LIMIT {
      return Err(TagTooLong(|tag|));
    }
    var absorbed := BigEndian(|tag|, 4);
    absorbed := absorbed + tag;
    assert fields[..0] == [];
    for i := 0 to |fields|
      invariant Encodable(tag, fields[..i])
      invariant absorbed == Frame(tag, fields[..i])
    {
      if |fields[i]| >= U64_LIMIT {
        return Err(FieldTooLong(|fields[i]|));
      }
      absorbed := absorbed + BigEndian(|fields[i]|, 8) + fields[i];
      FrameFieldsSnoc(fields[..i], fields[i]);
      assert fields[..i + 1] == fields[..i] + [fields[i]];
    }
    assert fields[..|fields|] == fields;
    r := Ok(h(absorbed));
  }

  // ------------------------------------------------------------- byte by byte

  /** What four bytes and eight bytes stand for, the most significant first. */
  lemma BytesStandFor(b: Bytes)
    ensures |b| == 4 ==>
              FromBigEndian(b)
              == b[0] as int * 0x100_0000 + b[1] as int * 0x1_0000 + b[2] as int * 0x100 + b[3] as int
    ensures |b| == 8 ==>
              FromBigEndian(b)
              == b[0] as int * 0x100_0000_0000_0000 + b[1] as int * 0x1_0000_0000_0000
                 + b[2] as int * 0x100_0000_0000 + b[3] as int * 0x1_0000_0000
                 + b[4] as int * 0x100_0000 + b[5] as int * 0x1_0000 + b[6] as int * 0x100 + b[7] as int
  {
    if |b| == 4 {
      FourBytes(b);
    } else if |b| == 8 {
      FourBytes(b[..4]);
      LastByte(b[..5]);
      LastByte(b[..6]);
      LastByte(b[..7]);
      LastByte(b);
      assert b[..7][..6] == b[..6] && b[..6][..5] == b[..5] && b[..5][..4] == b[..4];
    }
  }

  lemma LastByte(b: Bytes)
    requires b != []
    ensures FromBigEndian(b) == FromBigEndian(b[..|b| - 1]) * 256 + b[|b| - 1] as int
  {
  }

  lemma FourBytes(b: Bytes)
    requires |b| == 4
    ensures FromBigEndian(b) ==
      b[0] as int * 0x100_0000 + b[1] as int * 0x1_0000 + b[2] as int * 0x100 + b[3] as int
  {
    hide FromBigEndian;
    LastByte(b);
    LastByte(b[..3]);
    LastByte(b[..2]);
    LastByte(b[..1]);
    assert b[..3][..2] == b[..2] && b[..2][..1] == b[..1] && b[..1][..0] == [];
    NoByte();
  }

  lemma NoByte()
    ensures FromBigEndian([]) == 0
  {
  }

  /** From `lo` to `hi` the bytes are eight of the field's length and then the field. */
  ghost predicate FieldBetween(b: Bytes, lo: nat, hi: nat, f: Bytes) {
    lo + 8 + |f| == hi <= |b| && FromBigEndian(b[lo..lo + 8]) == |f| && b[lo + 8..hi] == f
  }

  /** `at` are the places where the fields begin in `b`, and where it ends. */
  ghost predicate LaidOut(b: Bytes, fields: seq<Bytes>, at: seq<nat>) {
    && |at| == |fields| + 1 && at[|fields|] == |b|
    && forall i, j :: 0 <= i < |fields| && j == i + 1 ==> FieldBetween(b, at[i], at[j], fields[i])
  }

  /** The preimage in full: four bytes of tag length, the tag, and then every field in
      order behind eight bytes of its length. */
  lemma FrameInFull(tag: Bytes, fields: seq<Bytes>) returns (at: seq<nat>)
    requires Encodable(tag, fields)
    ensures |Frame(tag, fields)| >= 4 + |tag|
    ensures FromBigEndian(Frame(tag, fields)[..4]) == |tag| && Frame(tag, fields)[4..4 + |tag|] == tag
    ensures LaidOut(Frame(tag, fields), fields, at) && at[0] == 4 + |tag|
  {
    PrefixWidths();
    BigEndianRoundTrip(|tag|, 4);
    at := FieldsLaidOut(BigEndian(|tag|, 4) + tag, fields);
    SplitParts(BigEndian(|tag|, 4), tag, FrameFields(fields));
  }

  lemma {:induction false} FieldsLaidOut(head: Bytes, fields: seq<Bytes>) returns (at: seq<nat>)
    requires forall i :: 0 <= i < |fields| ==> |fields[i]| < U64_LIMIT
    ensures LaidOut(head + FrameFields(fields), fields, at) && at[0] == |head|
    decreases |fields|
  {
    if fields == [] {
      at := [|head|];
    } else {
      hide BigEndian, FromBigEndian, FieldBetween;
      var f := fields[0];
      var head' := head + BigEndian(|f|, 8) + f;
      var rest := FieldsLaidOut(head', fields[1..]);
      at := [|head|] + rest;
      FirstField(head, f, FrameFields(fields[1..]));
      var b := head + FrameFields(fields);
      assert b == head' + FrameFields(fields[1..]);
      forall i, j | 0 <= i < |fields| && j == i + 1
        ensures FieldBetween(b, at[i], at[j], fields[i])
      {
        if i > 0 {
          assert fields[i] == fields[1..][i - 1] && at[i] == rest[i - 1] && at[j] == rest[j - 1];
        }
      }
    }
  }

  lemma FirstField(head: Bytes, f: Bytes, rest: Bytes)
    requires |f| < U64_LIMIT
    ensures head + (BigEndian(|f|, 8) + f + rest) == head + BigEndian(|f|, 8) + f + rest
    ensures FieldBetween(head + BigEndian(|f|, 8) + f + rest, |head|, |head + BigEndian(|f|, 8) + f|, f)
  {
    hide BigEndian, FromBigEndian;
    PrefixWidths();
    BigEndianRoundTrip(|f|, 8);
    Extends(head, BigEndian(|f|, 8), f, rest);
  }

  lemma Extends(head: Bytes, prefix: Bytes, f: Bytes, rest: Bytes)
    ensures head + (prefix + f + rest) == head + prefix + f + rest
    ensures (head + prefix + f + rest)[|head|..|head| + |prefix|] == prefix
    ensures (head + prefix + f + rest)[|head| + |prefix|..|head| + |prefix| + |f|] == f
  {
  }
}

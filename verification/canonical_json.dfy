/** The canonical text that consent is signed over: JSON with object keys sorted
    by UTF-16 code units. Strings are sequences of code units. */
module CanonicalJson {
  import opened Common

  newtype Unit = u: int | 0 <= u < 0x1_0000
  type Text = seq<Unit>

  /** A value as the program holds it: object entries in insertion order, and a number
      as the decimal it prints as. */
  datatype Json =
    | Undefined
    | Null
    | Bool(b: bool)
    | Num(decimal: Text)
    | Str(s: Text)
    | Arr(items: seq<Json>)
    | Obj(entries: seq<Field>)

  datatype Field = Field(key: Text, value: Json)

  /** A value without the order its objects were built in: an object is a mapping. */
  datatype Doc =
    | DUndefined
    | DNull
    | DBool(b: bool)
    | DNum(decimal: Text)
    | DStr(s: Text)
    | DArr(items: seq<Doc>)
    | DObj(fields: map<Text, Doc>)

  function Keys(entries: seq<Field>): (r: seq<Text>)
    ensures |r| == |entries|
  {
    seq(|entries|, i requires 0 <= i < |entries| => entries[i].key)
  }

  predicate Distinct(keys: seq<Text>) {
    forall i, j :: 0 <= i < j < |keys| ==> keys[i] != keys[j]
  }

  predicate Digit(u: Unit) { 0x30 <= u < 0x3a }

  /** A digit, a sign, a point or the mark of an exponent. */
  predicate NumberUnit(u: Unit) { Digit(u) || u == 0x2b || u == 0x2d || u == 0x2e || u == 0x65 }

  predicate NumberStart(u: Unit) { Digit(u) || u == 0x2d }

  /** The shape of every printed number. */
  predicate Decimal(t: Text) {
    t != [] && NumberStart(t[0]) && forall i :: 0 <= i < |t| ==> NumberUnit(t[i])
  }

  /** No object holds the same key twice, as in any JavaScript object. */
  ghost predicate WellFormed(v: Json) {
    match v
    case Num(decimal) => Decimal(decimal)
    case Arr(items) => forall i :: 0 <= i < |items| ==> WellFormed(items[i])
    case Obj(entries) =>
      && Distinct(Keys(entries))
      && forall i :: 0 <= i < |entries| ==> WellFormed(entries[i].value)
    case _ => true
  }

  predicate Blank(items: seq<Json>) { |items| == 1 && items[0].Undefined? }

  /** What the text of a value shows: all of it, but an array of one undefined item
      looks empty. */
  ghost function Shown(v: Json): Doc {
    match v
    case Undefined => DUndefined
    case Null => DNull
    case Bool(b) => DBool(b)
    case Num(decimal) => DNum(decimal)
    case Str(s) => DStr(s)
    case Arr(items) => DArr(if Blank(items) then [] else ItemsShown(items))
    case Obj(entries) => DObj(FieldsShown(entries))
  }

  ghost function ItemsShown(items: seq<Json>): (r: seq<Doc>)
    ensures |r| == |items|
  {
    seq(|items|, i requires 0 <= i < |items| => Shown(items[i]))
  }

  ghost function FieldsShown(entries: seq<Field>): map<Text, Doc> {
    if entries == [] then map[]
    else FieldsShown(entries[1..])[entries[0].key := Shown(entries[0].value)]
  }

  // ------------------------------------------------------------ sorting keys

  /** Lexicographic order on code units. */
  predicate Less(a: Text, b: Text) {
    b != [] && (a == [] || a[0] < b[0] || (a[0] == b[0] && Less(a[1..], b[1..])))
  }

  function Insert(k: Text, sorted: seq<Text>): seq<Text> {
    if sorted == [] || Less(k, sorted[0]) then [k] + sorted
    else [sorted[0]] + Insert(k, sorted[1..])
  }

  function SortKeys(keys: seq<Text>): seq<Text> {
    if keys == [] then [] else Insert(keys[0], SortKeys(keys[1..]))
  }

  ghost predicate Ascending(keys: seq<Text>) {
    forall i, j :: 0 <= i < j < |keys| ==> Less(keys[i], keys[j])
  }

  lemma {:induction false} LessTotal(a: Text, b: Text)
    ensures a == b || Less(a, b) || Less(b, a)
    ensures !(Less(a, b) && Less(b, a)) && !Less(a, a)
  {
    if a != [] {
      LessTotal(a[1..], a[1..]);
      if b != [] {
        LessTotal(a[1..], b[1..]);
        if a[0] == b[0] && a[1..] == b[1..] {
          assert a == [a[0]] + a[1..] && b == [b[0]] + b[1..];
        }
      }
    }
  }

  lemma {:induction false} LessTransitive(a: Text, b: Text, c: Text)
    requires Less(a, b) && Less(b, c)
    ensures Less(a, c)
  {
    if a != [] && a[0] == b[0] == c[0] {
      LessTransitive(a[1..], b[1..], c[1..]);
    }
  }

  lemma {:induction false} InsertSorts(k: Text, sorted: seq<Text>)
    requires Ascending(sorted) && k !in sorted
    ensures Ascending(Insert(k, sorted))
    ensures forall x :: x in Insert(k, sorted) <==> x == k || x in sorted
  {
    if sorted != [] {
      var tail := sorted[1..];
      assert sorted == [sorted[0]] + tail;
      LessTotal(k, sorted[0]);
      if Less(k, sorted[0]) {
        forall i | 0 < i < |sorted|
          ensures Less(k, sorted[i])
        {
          LessTransitive(k, sorted[0], sorted[i]);
        }
      } else {
        InsertSorts(k, tail);
        forall x | x in Insert(k, tail)
          ensures Less(sorted[0], x)
        {
        }
      }
    }
  }

  lemma {:induction false} SortKeysSorts(keys: seq<Text>)
    requires Distinct(keys)
    ensures Ascending(SortKeys(keys))
    ensures forall x :: x in SortKeys(keys) <==> x in keys
  {
    if keys != [] {
      SortKeysSorts(keys[1..]);
      assert keys == [keys[0]] + keys[1..];
      InsertSorts(keys[0], SortKeys(keys[1..]));
    }
  }

  /** A set of keys has one ascending listing. */
  lemma {:induction false} AscendingUnique(a: seq<Text>, b: seq<Text>)
    requires Ascending(a) && Ascending(b)
    requires forall x :: x in a <==> x in b
    ensures a == b
  {
    assert a != [] ==> a[0] in b;
    assert b != [] ==> b[0] in a;
    if a != [] && b != [] {
      LessTotal(a[0], b[0]);
      assert a[0] == b[0];
      assert a == [a[0]] + a[1..] && b == [b[0]] + b[1..];
      LessTotal(a[0], a[0]);
      forall x
        ensures x in a[1..] <==> x in a && x != a[0]
        ensures x in b[1..] <==> x in b && x != b[0]
      {
      }
      AscendingUnique(a[1..], b[1..]);
    }
  }

  // -------------------------------------------------------------- the printer

  const QUOTE: Unit := 0x22
  const BACKSLASH: Unit := 0x5c
  const COMMA: Unit := 0x2c
  const COLON: Unit := 0x3a
  const OPEN_LIST: Unit := 0x5b
  const CLOSE_LIST: Unit := 0x5d
  const OPEN_OBJECT: Unit := 0x7b
  const CLOSE_OBJECT: Unit := 0x7d
  const UNDEFINED_TEXT: Text := [0x75, 0x6e, 0x64, 0x65, 0x66, 0x69, 0x6e, 0x65, 0x64]
  const NULL_TEXT: Text := [0x6e, 0x75, 0x6c, 0x6c]
  const TRUE_TEXT: Text := [0x74, 0x72, 0x75, 0x65]
  const FALSE_TEXT: Text := [0x66, 0x61, 0x6c, 0x73, 0x65]

  predicate HighSurrogate(u: Unit) { 0xd800 <= u < 0xdc00 }

  predicate LowSurrogate(u: Unit) { 0xdc00 <= u < 0xe000 }

  function HexDigit(d: Unit): Unit
    requires d < 16
  {
    if d < 10 then 0x30 + d else 0x57 + d
  }

  function UnicodeEscape(u: Unit): Text {
    [BACKSLASH, 0x75, HexDigit(u / 4096), HexDigit(u / 256 % 16), HexDigit(u / 16 % 16), HexDigit(u % 16)]
  }

  /** The letter of a two-unit escape, for the units that have one. */
  function ShortEscape(u: Unit): Option<Unit> {
    if u == 0x08 then Some(0x62)
    else if u == 0x09 then Some(0x74)
    else if u == 0x0a then Some(0x6e)
    else if u == 0x0c then Some(0x66)
    else if u == 0x0d then Some(0x72)
    else if u == QUOTE || u == BACKSLASH then Some(u)
    else None
  }

  /** One code unit that is not half of a surrogate pair. */
  function EscapeUnit(u: Unit): Text {
    match ShortEscape(u)
    case Some(letter) => [BACKSLASH, letter]
    case None =>
      if u < 0x20 || HighSurrogate(u) || LowSurrogate(u) then UnicodeEscape(u) else [u]
  }

  function QuoteBody(s: Text): Text {
    if s == [] then []
    else if |s| >= 2 && HighSurrogate(s[0]) && LowSurrogate(s[1]) then s[..2] + QuoteBody(s[2..])
    else EscapeUnit(s[0]) + QuoteBody(s[1..])
  }

  function Quote(s: Text): Text { [QUOTE] + QuoteBody(s) + [QUOTE] }

  function Join(texts: seq<Text>): Text {
    if texts == [] then []
    else if |texts| == 1 then texts[0]
    else texts[0] + [COMMA] + Join(texts[1..])
  }

  function Member(key: Text, value: Text): Text { Quote(key) + [COLON] + value }

  /** An undefined member prints as the word, the way a template literal spells it. */
  function Canonical(v: Json): Text {
    match v
    case Undefined => UNDEFINED_TEXT
    case Null => NULL_TEXT
    case Bool(b) => if b then TRUE_TEXT else FALSE_TEXT
    case Num(decimal) => decimal
    case Str(s) => Quote(s)
    case Arr(items) => [OPEN_LIST] + Join(ItemTexts(items)) + [CLOSE_LIST]
    case Obj(entries) =>
      var values := FieldTexts(entries);
      var keys := SortKeys(Keys(entries));
      [OPEN_OBJECT] + Join(MemberTexts(keys, values)) + [CLOSE_OBJECT]
  }

  /** Joining prints an undefined item as nothing at all. */
  function ItemTexts(items: seq<Json>): (r: seq<Text>)
    ensures |r| == |items|
  {
    seq(|items|, i requires 0 <= i < |items| => if items[i].Undefined? then [] else Canonical(items[i]))
  }

  function FieldTexts(entries: seq<Field>): map<Text, Text> {
    if entries == [] then map[]
    else FieldTexts(entries[1..])[entries[0].key := Canonical(entries[0].value)]
  }

  function MemberTexts(keys: seq<Text>, values: map<Text, Text>): seq<Text> {
    seq(|keys|, i requires 0 <= i < |keys| =>
      Member(keys[i], if keys[i] in values then values[keys[i]] else []))
  }

  // --------------------------------------------------------------- the parser

  function HexValue(u: Unit): (r: Option<Unit>)
    ensures r.Some? ==> r.value < 16
  {
    if 0x30 <= u < 0x3a then Some(u - 0x30)
    else if 0x61 <= u < 0x67 then Some(u - 0x57)
    else None
  }

  function HexPair(high: Unit, low: Unit): (r: Option<Unit>)
    ensures r.Some? ==> r.value < 256
  {
    match (HexValue(high), HexValue(low))
    case (Some(a), Some(b)) => Some(a * 16 + b)
    case _ => None
  }

  function ShortUnescape(letter: Unit): Option<Unit> {
    if letter == 0x62 then Some(0x08)
    else if letter == 0x74 then Some(0x09)
    else if letter == 0x6e then Some(0x0a)
    else if letter == 0x66 then Some(0x0c)
    else if letter == 0x72 then Some(0x0d)
    else if letter == QUOTE || letter == BACKSLASH then Some(letter)
    else None
  }

  /** One unit of a string body and what follows it. */
  function ParseUnit(t: Text): (r: Option<(Unit, Text)>)
    requires t != []
    ensures r.Some? ==> |r.value.1| < |t|
  {
    if t[0] != BACKSLASH then (if t[0] < 0x20 then None else Some((t[0], t[1..])))
    else if |t| < 2 then None
    else if t[1] == 0x75 then
      if |t| < 6 then None
      else
        match (HexPair(t[2], t[3]), HexPair(t[4], t[5]))
        case (Some(high), Some(low)) => Some((high * 256 + low, t[6..]))
        case _ => None
    else
      match ShortUnescape(t[1])
      case Some(u) => Some((u, t[2..]))
      case None => None
  }

  /** A string body up to and including its closing quote. */
  function ParseBody(t: Text): (r: Option<(Text, Text)>)
    ensures r.Some? ==> |r.value.1| < |t|
    decreases |t|
  {
    if t == [] then None
    else if t[0] == QUOTE then Some(([], t[1..]))
    else
      match ParseUnit(t)
      case None => None
      case Some((u, rest)) =>
        match ParseBody(rest)
        case None => None
        case Some((s, rest')) => Some(([u] + s, rest'))
  }

  function ParseString(t: Text): (r: Option<(Text, Text)>)
    ensures r.Some? ==> |r.value.1| < |t|
  {
    if t != [] && t[0] == QUOTE then ParseBody(t[1..]) else None
  }

  /** How many units of a number `t` starts with. */
  function NumberSpan(t: Text): (n: nat)
    ensures n <= |t|
  {
    if t == [] || !NumberUnit(t[0]) then 0 else 1 + NumberSpan(t[1..])
  }

  function ParseNumber(t: Text): (r: (Doc, Text))
    requires t != [] && NumberStart(t[0])
    ensures |r.1| < |t|
  {
    (DNum(t[..NumberSpan(t)]), t[NumberSpan(t)..])
  }

  function ParseValue(t: Text): (r: Option<(Doc, Text)>)
    ensures r.Some? ==> |r.value.1| < |t|
    decreases |t|, 1
  {
    if t == [] then None
    else if t[0] == QUOTE then
      match ParseString(t)
      case None => None
      case Some((s, rest)) => Some((DStr(s), rest))
    else if t[0] == OPEN_LIST then
      if |t| > 1 && t[1] == CLOSE_LIST then Some((DArr([]), t[2..]))
      else
        match ParseItems(t[1..])
        case None => None
        case Some((items, rest)) => Some((DArr(items), rest))
    else if t[0] == OPEN_OBJECT then
      if |t| > 1 && t[1] == CLOSE_OBJECT then Some((DObj(map[]), t[2..]))
      else
        match ParseMembers(t[1..])
        case None => None
        case Some((fields, rest)) => Some((DObj(fields), rest))
    else if NumberStart(t[0]) then Some(ParseNumber(t))
    else if UNDEFINED_TEXT <= t then Some((DUndefined, t[9..]))
    else if NULL_TEXT <= t then Some((DNull, t[4..]))
    else if TRUE_TEXT <= t then Some((DBool(true), t[4..]))
    else if FALSE_TEXT <= t then Some((DBool(false), t[5..]))
    else None
  }

  /** What may follow an item. */
  predicate ItemEnd(u: Unit) { u == COMMA || u == CLOSE_LIST }

  /** A value, or nothing for an undefined item. */
  function ParseItem(t: Text): (r: Option<(Doc, Text)>)
    ensures r.Some? ==> |r.value.1| <= |t|
    decreases |t|, 2
  {
    if t != [] && ItemEnd(t[0]) then Some((DUndefined, t)) else ParseValue(t)
  }

  /** One or more comma-separated items and the closing bracket. */
  function ParseItems(t: Text): (r: Option<(seq<Doc>, Text)>)
    ensures r.Some? ==> |r.value.1| < |t|
    decreases |t|, 3
  {
    match ParseItem(t)
    case None => None
    case Some((d, rest)) =>
      if rest == [] then None
      else if rest[0] == CLOSE_LIST then Some(([d], rest[1..]))
      else if rest[0] != COMMA then None
      else
        match ParseItems(rest[1..])
        case None => None
        case Some((ds, rest')) => Some(([d] + ds, rest'))
  }

  /** One or more comma-separated members and the closing brace. */
  function ParseMembers(t: Text): (r: Option<(map<Text, Doc>, Text)>)
    ensures r.Some? ==> |r.value.1| < |t|
    decreases |t|, 2
  {
    match ParseString(t)
    case None => None
    case Some((key, afterKey)) =>
      if afterKey == [] || afterKey[0] != COLON then None
      else
        match ParseValue(afterKey[1..])
        case None => None
        case Some((d, rest)) =>
          if rest == [] then None
          else if rest[0] == CLOSE_OBJECT then Some((map[key := d], rest[1..]))
          else if rest[0] != COMMA then None
          else
            match ParseMembers(rest[1..])
            case None => None
            case Some((fields, rest')) => Some((fields[key := d], rest'))
  }
}

/** The canonical text in full, in code units: which characters appear, and in what
    order the members of an object do. */
module CanonicalJsonText {
  import opened CanonicalJson
  import opened CanonicalJsonProofs

  // ------------------------------------------------------------ order of keys

  /** `a` comes before `b`: it ends first, or has the smaller unit where they part. */
  ghost predicate Precedes(a: Text, b: Text) {
    exists i :: 0 <= i <= |a| && i < |b| && a[..i] == b[..i] && (i == |a| || a[i] < b[i])
  }

  lemma {:induction false} LessMeansPrecedes(a: Text, b: Text)
    ensures Less(a, b) <==> Precedes(a, b)
  {
    if a == [] || b == [] {
      assert b != [] ==> a[..0] == b[..0];
    } else {
      LessMeansPrecedes(a[1..], b[1..]);
      PrecedesTail(a, b);
    }
  }

  lemma PrecedesTail(a: Text, b: Text)
    requires a != [] && b != []
    ensures Precedes(a, b) <==> a[0] < b[0] || (a[0] == b[0] && Precedes(a[1..], b[1..]))
  {
    if a[0] < b[0] {
      assert a[..0] == b[..0];
    } else if a[0] == b[0] && Precedes(a[1..], b[1..]) {
      var i :| 0 <= i <= |a[1..]| && i < |b[1..]| && a[1..][..i] == b[1..][..i]
               && (i == |a[1..]| || a[1..][i] < b[1..][i]);
      assert a[..i + 1] == [a[0]] + a[1..][..i] && b[..i + 1] == [b[0]] + b[1..][..i];
    }
    if Precedes(a, b) {
      var i :| 0 <= i <= |a| && i < |b| && a[..i] == b[..i] && (i == |a| || a[i] < b[i]);
      if i > 0 {
        assert a[..i][0] == b[..i][0];
        assert a[..i][1..] == a[1..][..i - 1] && b[..i][1..] == b[1..][..i - 1];
      }
    }
  }

  // -------------------------------------------------------------- whole values

  /** Texts with a comma between each and the next. */
  lemma JoinInFull(texts: seq<Text>)
    ensures texts == [] ==> Join(texts) == []
    ensures |texts| == 1 ==> Join(texts) == texts[0]
    ensures |texts| > 1 ==> Join(texts) == texts[0] + [',' as int as Unit] + Join(texts[1..])
  {
  }

  function Chars(s: string): Text { seq(|s|, i requires 0 <= i < |s| => (s[i] as int % 0x1_0000) as Unit) }

  lemma ScalarsInFull(decimal: Text)
    ensures Canonical(Null) == Chars("null")
    ensures Canonical(Bool(true)) == Chars("true") && Canonical(Bool(false)) == Chars("false")
    ensures Canonical(Undefined) == Chars("undefined")
    ensures Canonical(Num(decimal)) == decimal
  {
  }

  /** An array is its items in order, an undefined one left blank, inside brackets. */
  lemma ArrayInFull(items: seq<Json>) returns (parts: seq<Text>)
    ensures |parts| == |items|
    ensures forall i :: 0 <= i < |items| ==> parts[i] == if items[i].Undefined? then [] else Canonical(items[i])
    ensures Canonical(Arr(items)) == ['[' as int as Unit] + Join(parts) + [']' as int as Unit]
  {
    hide Join;
    parts := ItemTexts(items);
  }

  /** An object is its members inside braces, each a quoted key, a colon and the text of
      the value under that key, the keys in ascending order of code units. */
  lemma ObjectInFull(entries: seq<Field>) returns (keys: seq<Text>, parts: seq<Text>)
    requires Distinct(Keys(entries))
    ensures |parts| == |keys|
    ensures forall i, j :: 0 <= i < j < |keys| ==> Precedes(keys[i], keys[j])
    ensures forall i :: 0 <= i < |entries| ==> entries[i].key in keys
    ensures forall i :: 0 <= i < |keys| ==> MemberOf(entries, keys[i], parts[i])
    ensures Canonical(Obj(entries)) == ['{' as int as Unit] + Join(parts) + ['}' as int as Unit]
  {
    hide Join, Precedes, SortKeys, Canonical, FieldTexts;
    keys := SortKeys(Keys(entries));
    parts := MemberTexts(keys, FieldTexts(entries));
    SortKeysSorts(Keys(entries));
    ObjectText(entries);
    forall i | 0 <= i < |entries|
      ensures entries[i].key in keys
    {
      assert Keys(entries)[i] == entries[i].key;
    }
    forall i, j | 0 <= i < j < |keys|
      ensures Precedes(keys[i], keys[j])
    {
      LessMeansPrecedes(keys[i], keys[j]);
    }
    forall i | 0 <= i < |keys|
      ensures MemberOf(entries, keys[i], parts[i])
    {
      assert keys[i] in keys;
      var e := EntryOf(entries, keys[i]);
      FieldAt(entries, e);
    }
  }

  ghost predicate MemberOf(entries: seq<Field>, key: Text, part: Text) {
    exists e :: 0 <= e < |entries| && entries[e].key == key
      && part == Quote(key) + [':' as int as Unit] + Canonical(entries[e].value)
  }

  // ------------------------------------------------------------------ strings

  /** The first two units are a surrogate pair. */
  predicate Pair(s: Text) { |s| >= 2 && 0xd800 <= s[0] <= 0xdbff && 0xdc00 <= s[1] <= 0xdfff }

  /** A quoted string unit by unit: a surrogate pair as it is, and any other unit by
      `EscapeInFull`. */
  lemma QuoteInFull(s: Text)
    ensures Quote(s) == ['"' as int as Unit] + QuoteBody(s) + ['"' as int as Unit]
    ensures QuoteBody([]) == []
    ensures Pair(s) ==> QuoteBody(s) == [s[0], s[1]] + QuoteBody(s[2..])
    ensures s != [] && !Pair(s) ==> QuoteBody(s) == EscapeUnit(s[0]) + QuoteBody(s[1..])
  {
    QuoteEnds(s);
    hide EscapeUnit, Quote;
    if Pair(s) {
      assert s[..2] == [s[0], s[1]];
    }
  }

  lemma QuoteEnds(s: Text)
    ensures Quote(s) == ['"' as int as Unit] + QuoteBody(s) + ['"' as int as Unit]
  {
    hide QuoteBody;
  }

  predicate LowerHex(c: Unit) { '0' as int <= c as int <= '9' as int || 'a' as int <= c as int <= 'f' as int }

  function LowerHexValue(c: Unit): int
    requires LowerHex(c)
  {
    if c as int <= '9' as int then c as int - '0' as int else c as int - 'a' as int + 10
  }

  /** The letter JSON gives a unit after a backslash, for the seven that have one. */
  function Letter(u: Unit): char {
    if u == 8 then 'b' else if u == 9 then 't' else if u == 10 then 'n' else if u == 12 then 'f'
    else if u == 13 then 'r' else if u == 34 then '"' else if u == 92 then '\\' else ' '
  }

  /** Section 7 of RFC 8259: seven short escapes, four lower-case hexadecimal digits for
      other controls and lone surrogates, and every other unit as it is. */
  lemma EscapeInFull(u: Unit)
    ensures Letter(u) != ' ' ==> EscapeUnit(u) == ['\\' as int as Unit, Letter(u) as int as Unit]
    ensures Letter(u) == ' ' && (u < 0x20 || 0xd800 <= u <= 0xdfff) ==>
              var e := EscapeUnit(u);
              && |e| == 6 && e[..2] == Chars("\\u")
              && LowerHex(e[2]) && LowerHex(e[3]) && LowerHex(e[4]) && LowerHex(e[5])
              && u as int == LowerHexValue(e[2]) * 4096 + LowerHexValue(e[3]) * 256
                             + LowerHexValue(e[4]) * 16 + LowerHexValue(e[5])
    ensures Letter(u) == ' ' && u >= 0x20 && !(0xd800 <= u <= 0xdfff) ==> EscapeUnit(u) == [u]
  {
    hide HexDigit;
    HexIsLower(u / 4096);
    HexIsLower(u / 256 % 16);
    HexIsLower(u / 16 % 16);
    HexIsLower(u % 16);
    HexDigitsOf(u);
    assert UnicodeEscape(u)[..2] == Chars("\\u");
  }

  lemma HexIsLower(d: Unit)
    requires d < 16
    ensures LowerHex(HexDigit(d)) && LowerHexValue(HexDigit(d)) == d as int
  {
  }
}

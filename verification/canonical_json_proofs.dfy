/** The canonical text determines what is shown and is determined by it. */
module CanonicalJsonProofs {
  import opened Common
  import opened CanonicalJson

  /** `rest` does not go on with what ends `doc`, which only a number could. */
  predicate Ends(doc: Doc, rest: Text) { doc.DNum? && rest != [] ==> !NumberUnit(rest[0]) }

  /** A parser reads `doc` off any text that starts with `text`. */
  ghost predicate Parses(text: Text, doc: Doc) {
    forall rest: Text :: Ends(doc, rest) ==> ParseValue(text + rest) == Some((doc, rest))
  }

  /** A parser reads the item `doc` off `text`, whatever items follow. */
  ghost predicate ItemParses(text: Text, doc: Doc) {
    forall after: Text :: after != [] && ItemEnd(after[0]) ==> ParseItem(text + after) == Some((doc, after))
  }

  lemma {:induction false} SpanOf(t: Text, rest: Text)
    requires forall i :: 0 <= i < |t| ==> NumberUnit(t[i])
    requires rest != [] ==> !NumberUnit(rest[0])
    ensures NumberSpan(t + rest) == |t|
  {
    if t == [] {
      assert t + rest == rest;
    } else {
      assert (t + rest)[1..] == t[1..] + rest;
      SpanOf(t[1..], rest);
    }
  }

  lemma NumberParses(t: Text, rest: Text)
    requires Decimal(t) && Ends(DNum(t), rest)
    ensures ParseValue(t + rest) == Some((DNum(t), rest))
  {
    SpanOf(t, rest);
    assert (t + rest)[0] == t[0];
    assert (t + rest)[..|t|] == t && (t + rest)[|t|..] == rest;
  }

  // ------------------------------------------------------------------ strings

  lemma HexDigitsOf(u: Unit)
    ensures u / 4096 < 16
    ensures ((u / 4096 * 16 + u / 256 % 16) * 16 + u / 16 % 16) * 16 + u % 16 == u
  {
    assert u / 256 == u / 4096 * 16 + u / 256 % 16;
    assert u / 16 == u / 256 * 16 + u / 16 % 16;
  }

  lemma UnicodeEscapeParses(u: Unit, rest: Text)
    ensures ParseUnit(UnicodeEscape(u) + rest) == Some((u, rest))
  {
    hide HexValue, HexDigit;
    assert (UnicodeEscape(u) + rest)[6..] == rest;
    HexDigitsOf(u);
    HexParses(u / 4096);
    HexParses(u / 256 % 16);
    HexParses(u / 16 % 16);
    HexParses(u % 16);
  }

  lemma EscapeParses(u: Unit, rest: Text)
    ensures EscapeUnit(u) != [] && EscapeUnit(u)[0] != QUOTE
    ensures ParseUnit(EscapeUnit(u) + rest) == Some((u, rest))
  {
    hide HexValue, HexDigit;
    match ShortEscape(u)
    case Some(letter) => assert ([BACKSLASH, letter] + rest)[2..] == rest;
    case None =>
      if u < 0x20 || HighSurrogate(u) || LowSurrogate(u) {
        UnicodeEscapeParses(u, rest);
      } else {
        assert ([u] + rest)[1..] == rest;
      }
  }

  lemma HexParses(d: Unit)
    requires d < 16
    ensures HexValue(HexDigit(d)) == Some(d)
  {
  }

  lemma BodyStep(e: Text, u: Unit, tail: Text, s: Text, rest: Text)
    requires e != [] && e[0] != QUOTE
    requires ParseUnit(e + tail) == Some((u, tail)) && ParseBody(tail) == Some((s, rest))
    ensures ParseBody(e + tail) == Some(([u] + s, rest))
  {
    hide ParseUnit;
  }

  lemma PlainParses(u: Unit, tail: Text)
    requires HighSurrogate(u) || LowSurrogate(u)
    ensures ParseUnit([u] + tail) == Some((u, tail))
  {
    assert ([u] + tail)[1..] == tail;
  }

  lemma PairStep(s: Text, body: Text, close: Text, rest: Text)
    requires |s| >= 2 && HighSurrogate(s[0]) && LowSurrogate(s[1])
    requires ParseBody(body + close) == Some((s[2..], rest))
    ensures ParseBody(s[..2] + body + close) == Some((s, rest))
  {
    hide ParseBody, ParseUnit;
    var tail := body + close;
    PlainParses(s[1], tail);
    BodyStep([s[1]], s[1], tail, s[2..], rest);
    PlainParses(s[0], [s[1]] + tail);
    BodyStep([s[0]], s[0], [s[1]] + tail, [s[1]] + s[2..], rest);
    assert s[..2] + body + close == [s[0]] + ([s[1]] + tail);
    assert s == [s[0]] + ([s[1]] + s[2..]);
  }

  lemma EscapeStep(s: Text, body: Text, close: Text, rest: Text)
    requires s != [] && ParseBody(body + close) == Some((s[1..], rest))
    ensures ParseBody(EscapeUnit(s[0]) + body + close) == Some((s, rest))
  {
    hide EscapeUnit, ParseBody, ParseUnit;
    EscapeParses(s[0], body + close);
    BodyStep(EscapeUnit(s[0]), s[0], body + close, s[1..], rest);
    assert EscapeUnit(s[0]) + body + close == EscapeUnit(s[0]) + (body + close);
    assert s == [s[0]] + s[1..];
  }

  lemma {:induction false} BodyParses(s: Text, rest: Text)
    ensures ParseBody(QuoteBody(s) + ([QUOTE] + rest)) == Some((s, rest))
    decreases |s|
  {
    hide EscapeUnit, ParseBody;
    var close := [QUOTE] + rest;
    if s == [] {
      CloseParses(rest);
      assert [] + close == close;
    } else if |s| >= 2 && HighSurrogate(s[0]) && LowSurrogate(s[1]) {
      BodyParses(s[2..], rest);
      PairStep(s, QuoteBody(s[2..]), close, rest);
    } else {
      BodyParses(s[1..], rest);
      EscapeStep(s, QuoteBody(s[1..]), close, rest);
    }
  }

  lemma CloseParses(rest: Text)
    ensures ParseBody([QUOTE] + rest) == Some(([], rest))
  {
    assert ([QUOTE] + rest)[1..] == rest;
  }

  lemma QuoteParses(s: Text, rest: Text)
    ensures ParseString(Quote(s) + rest) == Some((s, rest))
  {
    hide ParseBody, QuoteBody;
    BodyParses(s, rest);
    assert (Quote(s) + rest)[1..] == QuoteBody(s) + ([QUOTE] + rest);
  }

  // ------------------------------------------------------- arrays and objects

  lemma ItemsStep(text: Text, doc: Doc, after: Text)
    requires ItemParses(text, doc) && after != [] && ItemEnd(after[0])
    ensures ParseItems(text + after) ==
      if after[0] == CLOSE_LIST then Some(([doc], after[1..]))
      else match ParseItems(after[1..])
           case None => None
           case Some((docs, rest)) => Some(([doc] + docs, rest))
  {
    hide ParseItem;
    assert ParseItem(text + after) == Some((doc, after));
  }

  /** An item that is a value parses as one. */
  lemma ValueIsItem(text: Text, doc: Doc)
    requires Parses(text, doc)
    ensures ItemParses(text, doc) && text != []
  {
    hide ParseItems, ParseMembers, ParseString, ParseNumber;
    assert ParseValue(text + []) == Some((doc, [])) && text + [] == text;
    forall after: Text | after != [] && ItemEnd(after[0])
      ensures ParseItem(text + after) == Some((doc, after))
    {
      assert ParseValue(text + after) == Some((doc, after));
    }
  }

  lemma NothingIsItem()
    ensures ItemParses([], DUndefined)
  {
    forall after: Text | after != [] && ItemEnd(after[0])
      ensures ParseItem([] + after) == Some((DUndefined, after))
    {
      assert [] + after == after;
    }
  }

  lemma JoinSplits(texts: seq<Text>, close: Text)
    requires |texts| > 1
    ensures Join(texts) + close == texts[0] + ([COMMA] + (Join(texts[1..]) + close))
  {
    Regroup(texts[0], [COMMA], Join(texts[1..]), close);
  }

  lemma RestrictCons(keys: seq<Text>, docs: map<Text, Doc>)
    requires keys != [] && forall k :: k in keys ==> k in docs
    ensures (map k | k in keys :: docs[k]) == (map k | k in keys[1..] :: docs[k])[keys[0] := docs[keys[0]]]
  {
    assert keys == [keys[0]] + keys[1..];
  }

  lemma {:induction false} ItemsParse(texts: seq<Text>, docs: seq<Doc>, rest: Text)
    requires |texts| == |docs| > 0
    requires forall i :: 0 <= i < |texts| ==> ItemParses(texts[i], docs[i])
    ensures ParseItems(Join(texts) + ([CLOSE_LIST] + rest)) == Some((docs, rest))
  {
    hide ParseItems, ItemParses;
    var close := [CLOSE_LIST] + rest;
    if |texts| == 1 {
      ItemsStep(texts[0], docs[0], close);
      assert close[1..] == rest && docs == [docs[0]];
    } else {
      var after := [COMMA] + (Join(texts[1..]) + close);
      ItemsParse(texts[1..], docs[1..], rest);
      ItemsStep(texts[0], docs[0], after);
      assert after[1..] == Join(texts[1..]) + close;
      JoinSplits(texts, close);
      assert docs == [docs[0]] + docs[1..];
    }
  }

  lemma MemberStep(key: Text, text: Text, doc: Doc, after: Text)
    requires Parses(text, doc) && after != [] && !NumberUnit(after[0])
    ensures ParseMembers(Member(key, text) + after) ==
      if after[0] == CLOSE_OBJECT then Some((map[key := doc], after[1..]))
      else if after[0] != COMMA then None
      else match ParseMembers(after[1..])
           case None => None
           case Some((fields, rest)) => Some((fields[key := doc], rest))
  {
    hide ParseValue, ParseString, Quote;
    var afterKey := [COLON] + (text + after);
    QuoteParses(key, afterKey);
    assert Member(key, text) + after == Quote(key) + afterKey;
    assert afterKey[1..] == text + after;
    assert ParseValue(text + after) == Some((doc, after));
  }

  lemma {:induction false} MembersParse(keys: seq<Text>, values: map<Text, Text>, docs: map<Text, Doc>, rest: Text)
    requires keys != []
    requires forall k :: k in keys ==> k in values && k in docs && Parses(values[k], docs[k])
    ensures ParseMembers(Join(MemberTexts(keys, values)) + ([CLOSE_OBJECT] + rest))
         == Some((map k | k in keys :: docs[k], rest))
  {
    hide ParseMembers, Parses, Member;
    var close := [CLOSE_OBJECT] + rest;
    var key, texts := keys[0], MemberTexts(keys, values);
    assert key in keys;
    if |keys| == 1 {
      MemberStep(key, values[key], docs[key], close);
      assert close[1..] == rest;
      assert (map k | k in keys :: docs[k]) == map[key := docs[key]];
    } else {
      var tail := keys[1..];
      assert texts[1..] == MemberTexts(tail, values);
      var after := [COMMA] + (Join(texts[1..]) + close);
      MembersParse(tail, values, docs, rest);
      MemberStep(key, values[key], docs[key], after);
      assert after[1..] == Join(texts[1..]) + close;
      JoinSplits(texts, close);
      RestrictCons(keys, docs);
    }
  }

  // -------------------------------------------------------------- whole values

  lemma {:induction false} FieldKeys(entries: seq<Field>)
    ensures forall k :: k in FieldTexts(entries) <==> k in Keys(entries)
    ensures forall k :: k in FieldsShown(entries) <==> k in Keys(entries)
  {
    hide Canonical, Shown;
    if entries != [] {
      FieldKeys(entries[1..]);
      assert Keys(entries) == [entries[0].key] + Keys(entries[1..]);
    }
  }

  /** Both per-field maps hold each entry's own value under its key. */
  lemma {:induction false} FieldAt(entries: seq<Field>, i: nat)
    requires Distinct(Keys(entries)) && i < |entries|
    ensures entries[i].key in FieldTexts(entries)
    ensures FieldTexts(entries)[entries[i].key] == Canonical(entries[i].value)
    ensures entries[i].key in FieldsShown(entries)
    ensures FieldsShown(entries)[entries[i].key] == Shown(entries[i].value)
  {
    hide Canonical, Shown;
    if i > 0 {
      assert Keys(entries)[0] != Keys(entries)[i];
      assert Keys(entries)[1..] == Keys(entries[1..]);
      FieldAt(entries[1..], i - 1);
    }
  }

  lemma EntryOf(entries: seq<Field>, key: Text) returns (i: nat)
    requires key in Keys(entries)
    ensures i < |entries| && entries[i].key == key
  {
    i :| 0 <= i < |entries| && Keys(entries)[i] == key;
  }

  /** The parser recovers what is shown from the canonical text, whatever follows it,
      except that a number must not be followed by more of a number. */
  lemma CanonicalParses(v: Json)
    requires WellFormed(v)
    ensures Parses(Canonical(v), Shown(v))
  {
    forall rest: Text | Ends(Shown(v), rest)
      ensures ParseValue(Canonical(v) + rest) == Some((Shown(v), rest))
    {
      CanonicalParsesBefore(v, rest);
    }
  }

  lemma {:induction false} CanonicalParsesBefore(v: Json, rest: Text)
    requires WellFormed(v) && Ends(Shown(v), rest)
    ensures ParseValue(Canonical(v) + rest) == Some((Shown(v), rest))
    decreases v
  {
    var t := Canonical(v) + rest;
    match v
    case Undefined => assert t[9..] == rest;
    case Num(decimal) => NumberParses(decimal, rest);
    case Null => assert t[4..] == rest;
    case Bool(b) => assert t[|Canonical(v)|..] == rest;
    case Str(s) => QuoteParses(s, rest);
    case Arr(items) =>
      forall i, r: Text | 0 <= i < |items| && Ends(Shown(items[i]), r)
        ensures ParseValue(Canonical(items[i]) + r) == Some((Shown(items[i]), r))
      {
        CanonicalParsesBefore(items[i], r);
      }
      ArrayParses(items, rest);
    case Obj(entries) =>
      forall i, r: Text | 0 <= i < |entries| && Ends(Shown(entries[i].value), r)
        ensures ParseValue(Canonical(entries[i].value) + r) == Some((Shown(entries[i].value), r))
      {
        CanonicalParsesBefore(entries[i].value, r);
      }
      ObjectParses(entries, rest);
  }

  lemma ArrayParses(items: seq<Json>, rest: Text)
    requires forall i :: 0 <= i < |items| ==> Parses(Canonical(items[i]), Shown(items[i]))
    ensures ParseValue(Canonical(Arr(items)) + rest) == Some((Shown(Arr(items)), rest))
  {
    hide ParseValue, Parses, ItemParses, Join;
    NothingIsItem();
    forall i | 0 <= i < |items|
      ensures ItemParses(ItemTexts(items)[i], ItemsShown(items)[i])
      ensures ItemTexts(items)[i] == [] ==> items[i].Undefined?
    {
      ValueIsItem(Canonical(items[i]), Shown(items[i]));
    }
    if Blank(items) {
      BlankText(items);
      ListParses([], [], rest);
    } else {
      ListParses(ItemTexts(items), ItemsShown(items), rest);
    }
    Regroup([OPEN_LIST], Join(ItemTexts(items)), [CLOSE_LIST], rest);
  }

  lemma ListParses(texts: seq<Text>, docs: seq<Doc>, rest: Text)
    requires |texts| == |docs| && texts != [[]]
    requires forall i :: 0 <= i < |texts| ==> ItemParses(texts[i], docs[i])
    ensures ParseValue([OPEN_LIST] + (Join(texts) + ([CLOSE_LIST] + rest))) == Some((DArr(docs), rest))
  {
    hide ParseItems, ItemParses;
    var inner := Join(texts) + ([CLOSE_LIST] + rest);
    var t := [OPEN_LIST] + inner;
    assert t[1..] == inner;
    if texts == [] {
      assert t == [OPEN_LIST, CLOSE_LIST] + rest;
      assert t[2..] == rest;
    } else {
      ItemsParse(texts, docs, rest);
      ItemsStart(texts[0], docs[0]);
      if |texts| > 1 {
        JoinSplits(texts, [CLOSE_LIST] + rest);
      }
    }
  }

  lemma ItemsStart(text: Text, doc: Doc)
    requires ItemParses(text, doc)
    ensures text != [] ==> text[0] != CLOSE_LIST
  {
    assert ParseItem(text + [COMMA]) == Some((doc, [COMMA]));
  }

  lemma BlankText(items: seq<Json>)
    requires Blank(items)
    ensures Join(ItemTexts(items)) == Join([]) == []
  {
  }

  lemma ObjectParses(entries: seq<Field>, rest: Text)
    requires Distinct(Keys(entries))
    requires forall i :: 0 <= i < |entries| ==> Parses(Canonical(entries[i].value), Shown(entries[i].value))
    ensures ParseValue(Canonical(Obj(entries)) + rest) == Some((Shown(Obj(entries)), rest))
  {
    hide Parses, ParseValue, SortKeys, MemberTexts, Join, FieldTexts, FieldsShown;
    var keys, values, docs := SortKeys(Keys(entries)), FieldTexts(entries), FieldsShown(entries);
    FieldsParse(entries);
    MapParses(keys, values, docs, rest);
    Regroup([OPEN_OBJECT], Join(MemberTexts(keys, values)), [CLOSE_OBJECT], rest);
  }

  lemma Regroup(open: Text, body: Text, close: Text, rest: Text)
    ensures open + body + close + rest == open + (body + (close + rest))
  {
  }

  lemma {:induction false} FieldsParse(entries: seq<Field>)
    requires Distinct(Keys(entries))
    requires forall i :: 0 <= i < |entries| ==> Parses(Canonical(entries[i].value), Shown(entries[i].value))
    ensures forall k :: k in SortKeys(Keys(entries)) ==>
              && k in FieldTexts(entries) && k in FieldsShown(entries)
              && Parses(FieldTexts(entries)[k], FieldsShown(entries)[k])
    ensures (map k | k in SortKeys(Keys(entries)) :: FieldsShown(entries)[k]) == FieldsShown(entries)
  {
    hide Parses, Canonical, Shown, FieldTexts, FieldsShown, SortKeys;
    SortKeysSorts(Keys(entries));
    FieldKeys(entries);
    forall k | k in SortKeys(Keys(entries))
      ensures Parses(FieldTexts(entries)[k], FieldsShown(entries)[k])
    {
      var i := EntryOf(entries, k);
      FieldAt(entries, i);
    }
  }

  lemma MapParses(keys: seq<Text>, values: map<Text, Text>, docs: map<Text, Doc>, rest: Text)
    requires forall k :: k in keys ==> k in values && k in docs && Parses(values[k], docs[k])
    ensures ParseValue([OPEN_OBJECT] + (Join(MemberTexts(keys, values)) + ([CLOSE_OBJECT] + rest)))
         == Some((DObj(map k | k in keys :: docs[k]), rest))
  {
    hide ParseMembers, Parses;
    var inner := Join(MemberTexts(keys, values)) + ([CLOSE_OBJECT] + rest);
    var t := [OPEN_OBJECT] + inner;
    assert t[1..] == inner;
    if keys == [] {
      assert t == [OPEN_OBJECT, CLOSE_OBJECT] + rest;
      assert t[2..] == rest;
    } else {
      MembersParse(keys, values, docs, rest);
      MembersStart(inner);
    }
  }

  lemma MembersStart(t: Text)
    requires ParseMembers(t).Some?
    ensures t != [] && t[0] == QUOTE
  {
  }

  lemma {:induction false} SameShownSameText(v: Json, w: Json)
    requires WellFormed(v) && WellFormed(w) && Shown(v) == Shown(w)
    ensures Canonical(v) == Canonical(w)
    decreases v
  {
    match v
    case Arr(items) =>
      var others := w.items;
      if Shown(v).items == [] {
        NoItemsText(items);
        NoItemsText(others);
      } else {
        var docs, docs' := Shown(v).items, Shown(w).items;
        forall i | 0 <= i < |items|
          ensures ItemTexts(items)[i] == ItemTexts(others)[i]
        {
          assert docs[i] == docs'[i];
          SameShownSameText(items[i], others[i]);
        }
        assert ItemTexts(items) == ItemTexts(others);
      }
    case Obj(entries) =>
      var others := w.entries;
      forall i, j | 0 <= i < |entries| && 0 <= j < |others| && Shown(entries[i].value) == Shown(others[j].value)
        ensures Canonical(entries[i].value) == Canonical(others[j].value)
      {
        SameShownSameText(entries[i].value, others[j].value);
      }
      SameFieldsSameText(entries, others);
    case _ =>
  }

  lemma NoItemsText(items: seq<Json>)
    requires items == [] || Blank(items)
    ensures Canonical(Arr(items)) == [OPEN_LIST] + [] + [CLOSE_LIST]
  {
    if Blank(items) {
      BlankText(items);
    }
  }

  lemma SameFieldsSameText(entries: seq<Field>, others: seq<Field>)
    requires Distinct(Keys(entries)) && Distinct(Keys(others))
    requires FieldsShown(entries) == FieldsShown(others)
    requires forall i, j :: 0 <= i < |entries| && 0 <= j < |others|
               && Shown(entries[i].value) == Shown(others[j].value)
               ==> Canonical(entries[i].value) == Canonical(others[j].value)
    ensures Canonical(Obj(entries)) == Canonical(Obj(others))
  {
    hide Canonical, Shown, FieldTexts, FieldsShown, SortKeys;
    FieldKeys(entries);
    FieldKeys(others);
    SortKeysSorts(Keys(entries));
    SortKeysSorts(Keys(others));
    AscendingUnique(SortKeys(Keys(entries)), SortKeys(Keys(others)));
    forall k | k in FieldTexts(entries)
      ensures k in FieldTexts(others) && FieldTexts(entries)[k] == FieldTexts(others)[k]
    {
      assert k in FieldsShown(entries);
      var i := EntryOf(entries, k);
      var j := EntryOf(others, k);
      FieldAt(entries, i);
      FieldAt(others, j);
    }
    assert FieldTexts(entries) == FieldTexts(others);
    ObjectText(entries);
    ObjectText(others);
  }

  lemma ObjectText(entries: seq<Field>)
    ensures Canonical(Obj(entries))
         == [OPEN_OBJECT] + Join(MemberTexts(SortKeys(Keys(entries)), FieldTexts(entries))) + [CLOSE_OBJECT]
  {
    hide SortKeys, FieldTexts, Join, MemberTexts;
  }

  /** Two values have the same canonical text exactly when it shows the same. */
  lemma SameTextIffSameShown(v: Json, w: Json)
    requires WellFormed(v) && WellFormed(w)
    ensures Canonical(v) == Canonical(w) <==> Shown(v) == Shown(w)
  {
    CanonicalParses(v);
    CanonicalParses(w);
    assert ParseValue(Canonical(v) + []) == Some((Shown(v), []));
    assert ParseValue(Canonical(w) + []) == Some((Shown(w), []));
    if Shown(v) == Shown(w) {
      SameShownSameText(v, w);
    }
  }
}

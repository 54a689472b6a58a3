/** When the canonical text determines the value itself. */
module CanonicalJsonMeaning {
  import opened CanonicalJson
  import opened CanonicalJsonProofs

  /** What a value means: all of it but the insertion order of its objects. */
  ghost function Meaning(v: Json): Doc {
    match v
    case Undefined => DUndefined
    case Null => DNull
    case Bool(b) => DBool(b)
    case Num(decimal) => DNum(decimal)
    case Str(s) => DStr(s)
    case Arr(items) => DArr(ItemMeanings(items))
    case Obj(entries) => DObj(FieldMeanings(entries))
  }

  ghost function ItemMeanings(items: seq<Json>): (r: seq<Doc>)
    ensures |r| == |items|
  {
    seq(|items|, i requires 0 <= i < |items| => Meaning(items[i]))
  }

  ghost function FieldMeanings(entries: seq<Field>): map<Text, Doc> {
    if entries == [] then map[]
    else FieldMeanings(entries[1..])[entries[0].key := Meaning(entries[0].value)]
  }

  /** Some array in the value, at any depth, is that of one undefined item. */
  ghost predicate HasBlank(v: Json) {
    match v
    case Arr(items) => Blank(items) || exists i :: 0 <= i < |items| && HasBlank(items[i])
    case Obj(entries) => exists i :: 0 <= i < |entries| && HasBlank(entries[i].value)
    case _ => false
  }

  /** Some array in the value, at any depth, is that or empty. */
  ghost predicate Hollow(v: Json) {
    match v
    case Arr(items) => items == [] || Blank(items) || exists i :: 0 <= i < |items| && Hollow(items[i])
    case Obj(entries) => exists i :: 0 <= i < |entries| && Hollow(entries[i].value)
    case _ => false
  }

  ghost predicate HasEmpty(d: Doc) {
    match d
    case DArr(items) => items == [] || exists i :: 0 <= i < |items| && HasEmpty(items[i])
    case DObj(fields) => exists k :: k in fields && HasEmpty(fields[k])
    case _ => false
  }

  lemma {:induction false} MeaningAt(entries: seq<Field>, i: nat)
    requires Distinct(Keys(entries)) && i < |entries|
    ensures entries[i].key in FieldMeanings(entries)
    ensures FieldMeanings(entries)[entries[i].key] == Meaning(entries[i].value)
  {
    hide Meaning;
    if i > 0 {
      assert Keys(entries)[0] != Keys(entries)[i];
      assert Keys(entries)[1..] == Keys(entries[1..]);
      MeaningAt(entries[1..], i - 1);
    }
  }

  /** A value without such an array shows all it means. */
  lemma {:induction false} AllIsShown(v: Json)
    requires !HasBlank(v)
    ensures Shown(v) == Meaning(v)
    decreases v
  {
    match v
    case Arr(items) =>
      forall i | 0 <= i < |items|
        ensures ItemsShown(items)[i] == ItemMeanings(items)[i]
      {
        AllIsShown(items[i]);
      }
      assert ItemsShown(items) == ItemMeanings(items);
    case Obj(entries) => FieldsAreShown(entries);
    case _ =>
  }

  lemma {:induction false} FieldsAreShown(entries: seq<Field>)
    requires forall i :: 0 <= i < |entries| ==> !HasBlank(entries[i].value)
    ensures FieldsShown(entries) == FieldMeanings(entries)
    decreases entries
  {
    if entries != [] {
      AllIsShown(entries[0].value);
      FieldsAreShown(entries[1..]);
    }
  }

  lemma {:induction false} BlankIsHollow(v: Json)
    requires HasBlank(v)
    ensures Hollow(v)
    decreases v
  {
    match v
    case Arr(items) =>
      if !Blank(items) {
        var i :| 0 <= i < |items| && HasBlank(items[i]);
        BlankIsHollow(items[i]);
      }
    case Obj(entries) =>
      var i :| 0 <= i < |entries| && HasBlank(entries[i].value);
      BlankIsHollow(entries[i].value);
  }

  lemma {:induction false} HollowShowsEmpty(v: Json)
    requires WellFormed(v)
    ensures Hollow(v) <==> HasEmpty(Shown(v))
    decreases v
  {
    match v
    case Arr(items) =>
      if !Blank(items) {
        forall i | 0 <= i < |items|
          ensures Hollow(items[i]) <==> HasEmpty(ItemsShown(items)[i])
        {
          HollowShowsEmpty(items[i]);
        }
      }
    case Obj(entries) =>
      var fields := FieldsShown(entries);
      FieldKeys(entries);
      forall i | 0 <= i < |entries|
        ensures entries[i].key in fields && (Hollow(entries[i].value) <==> HasEmpty(fields[entries[i].key]))
      {
        FieldAt(entries, i);
        HollowShowsEmpty(entries[i].value);
      }
      if k :| k in fields && HasEmpty(fields[k]) {
        var i := EntryOf(entries, k);
      }
    case _ =>
  }

  /** Any value with a hollow array has a twin: another meaning, the same text. */
  lemma {:induction false} Twin(v: Json) returns (w: Json)
    requires WellFormed(v) && Hollow(v)
    ensures WellFormed(w) && Shown(w) == Shown(v) && Meaning(w) != Meaning(v)
    decreases v
  {
    match v
    case Arr(items) =>
      if items == [] {
        w := Arr([Undefined]);
      } else if Blank(items) {
        w := Arr([]);
      } else {
        var i :| 0 <= i < |items| && Hollow(items[i]);
        var x := Twin(items[i]);
        w := Arr(items[i := x]);
        TwinItem(items, i, x);
      }
    case Obj(entries) =>
      var i :| 0 <= i < |entries| && Hollow(entries[i].value);
      var x := Twin(entries[i].value);
      w := Obj(entries[i := Field(entries[i].key, x)]);
      TwinField(entries, i, x);
  }

  lemma TwinItem(items: seq<Json>, i: nat, x: Json)
    requires i < |items| && !Blank(items) && Hollow(items[i])
    requires Shown(x) == Shown(items[i]) && Meaning(x) != Meaning(items[i])
    ensures Shown(Arr(items[i := x])) == Shown(Arr(items)) && Meaning(Arr(items[i := x])) != Meaning(Arr(items))
  {
    var others := items[i := x];
    assert !Blank(others);
    assert ItemsShown(others) == ItemsShown(items);
    assert ItemMeanings(others)[i] != ItemMeanings(items)[i];
  }

  lemma TwinField(entries: seq<Field>, i: nat, x: Json)
    requires i < |entries| && WellFormed(Obj(entries)) && WellFormed(x)
    requires Shown(x) == Shown(entries[i].value) && Meaning(x) != Meaning(entries[i].value)
    ensures var others := entries[i := Field(entries[i].key, x)];
            && WellFormed(Obj(others))
            && Shown(Obj(others)) == Shown(Obj(entries)) && Meaning(Obj(others)) != Meaning(Obj(entries))
  {
    hide FieldsShown, FieldMeanings;
    var others := entries[i := Field(entries[i].key, x)];
    assert Keys(others) == Keys(entries);
    MeaningAt(entries, i);
    MeaningAt(others, i);
    SameFieldsShown(entries, others);
  }

  lemma SameFieldsShown(entries: seq<Field>, others: seq<Field>)
    requires Keys(others) == Keys(entries) && Distinct(Keys(entries))
    requires forall j :: 0 <= j < |entries| ==> Shown(entries[j].value) == Shown(others[j].value)
    ensures FieldsShown(others) == FieldsShown(entries)
  {
    hide FieldsShown, Shown;
    FieldKeys(entries);
    FieldKeys(others);
    forall k | k in Keys(entries)
      ensures FieldsShown(others)[k] == FieldsShown(entries)[k]
    {
      var j := EntryOf(entries, k);
      assert others[j].key == Keys(others)[j] == Keys(entries)[j] == k;
      FieldAt(entries, j);
      FieldAt(others, j);
    }
  }

  /** Two values without an array of one undefined item, as all claim sets are, have
      the same canonical text exactly when they mean the same: the order keys were
      inserted in never matters and everything else does. */
  lemma SameTextIffSameMeaning(v: Json, w: Json)
    requires WellFormed(v) && WellFormed(w) && !HasBlank(v) && !HasBlank(w)
    ensures Canonical(v) == Canonical(w) <==> Meaning(v) == Meaning(w)
  {
    AllIsShown(v);
    AllIsShown(w);
    SameTextIffSameShown(v, w);
  }

  /** Among all values, the text of `v` determines its meaning exactly when no array in
      it is empty or holds one undefined item alone. */
  lemma TextDeterminesMeaningIff(v: Json)
    requires WellFormed(v)
    ensures (forall w :: WellFormed(w) && Canonical(w) == Canonical(v) ==> Meaning(w) == Meaning(v)) <==> !Hollow(v)
  {
    hide Canonical, Meaning, Shown, WellFormed, Hollow, HasBlank;
    if Hollow(v) {
      var w := Twin(v);
      SameTextIffSameShown(v, w);
      assert WellFormed(w) && Canonical(w) == Canonical(v) && Meaning(w) != Meaning(v);
    } else {
      forall w | WellFormed(w) && Canonical(w) == Canonical(v)
        ensures Meaning(w) == Meaning(v)
      {
        SameTextIffSameShown(v, w);
        HollowShowsEmpty(v);
        HollowShowsEmpty(w);
        NotHollowIsShown(v);
        NotHollowIsShown(w);
      }
    }
  }

  lemma NotHollowIsShown(v: Json)
    requires !Hollow(v)
    ensures Shown(v) == Meaning(v)
  {
    if HasBlank(v) {
      BlankIsHollow(v);
    } else {
      AllIsShown(v);
    }
  }

  /** The shortest such pair: two different values with one text. */
  lemma BlankIsLost()
    ensures Meaning(Arr([Undefined])) != Meaning(Arr([])) && Canonical(Arr([Undefined])) == Canonical(Arr([]))
    ensures WellFormed(Arr([Undefined])) && WellFormed(Arr([]))
  {
    NoItemsText([Undefined]);
    NoItemsText([]);
  }
}

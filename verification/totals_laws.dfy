/** What the exact sum guarantees: the value, the scale, and that neither grouping
    nor order can be seen in the result. */
module TotalsLaws {
  import opened Common
  import opened Rearranging
  import opened Rational
  import opened Totals

  // ------------------------------------------------------------ the output reads

  lemma SliceDigits(s: string, n: nat)
    requires AllDigits(s) && n <= |s|
    ensures AllDigits(s[..n]) && AllDigits(s[n..]) && s[..n] + s[n..] == s
  {
  }

  lemma PointedReads(digits: string, scale: nat)
    requires AllDigits(digits) && scale < |digits|
    ensures var cut := |digits| - scale;
            && digits[..cut] != [] && AllDigits(digits[..cut]) && AllDigits(digits[cut..])
            && digits[..cut] + digits[cut..] == digits
            && digits[..cut] + Tail(digits[cut..]) == Pointed(digits, scale)
  {
    SliceDigits(digits, |digits| - scale);
    if scale == 0 {
      assert digits[..|digits|] == digits && digits[|digits|..] == [];
    }
  }

  /** The output is a figure with exactly `scale` decimals and the given coefficient. */
  lemma RenderReads(total: int, scale: nat) returns (d: Decimal)
    ensures WellFormed(d) && Parse(Render(total, scale)) == Some(d)
    ensures |d.fraction| == scale && Coefficient(d) == total
    ensures Render(total, scale) == Text(d)
  {
    hide Digits, NatOf, Parse, AllDigits, Pointed, Tail, PadStart;
    var n := if total < 0 then -total else total;
    var digits := PadStart(Digits(n), scale + 1);
    PaddedWidth(Digits(n), scale + 1);
    NatOfPadded(Digits(n), scale + 1);
    NatOfDigits(n);
    PointedReads(digits, scale);
    d := Decimal(total < 0, digits[..|digits| - scale], digits[|digits| - scale..]);
    TextIsParsed(d);
  }

  lemma PaddedWidth(s: string, width: nat)
    ensures |PadStart(s, width)| >= width
  {
  }

  lemma TrimKeeps(s: string)
    requires s != [] && !IsSpace(s[0]) && !IsSpace(s[|s| - 1])
    ensures Trim(s) == s
  {
  }

  /** Nothing at either end of a written figure is white space. */
  lemma TextIsTrimmed(d: Decimal)
    requires WellFormed(d)
    ensures Trim(Text(d)) == Text(d)
  {
    hide Trim, AllDigits;
    var sign: string := if d.negative then ['-'] else [];
    var pre := if d.fraction == [] then sign else sign + d.whole + ['.'];
    var body := if d.fraction == [] then d.whole else d.fraction;
    assert Text(d) == pre + body;
    SomeDigits(body);
    SomeDigits(d.whole);
    assert Text(d)[0] == if d.negative then '-' else d.whole[0];
    TrimKeeps(pre + body);
  }

  lemma SomeDigits(s: string)
    requires s != [] && AllDigits(s)
    ensures IsDigit(s[0]) && IsDigit(s[|s| - 1])
  {
  }

  // ------------------------------------------------------------ changing scale

  lemma AmountShifts(d: Decimal, scale: nat)
    requires WellFormed(d) && |d.fraction| <= scale
    ensures Amount(d, scale) == Coefficient(d) * Pow10(scale - |d.fraction|)
  {
    hide NatOf, AllDigits, Pow10;
    var k := scale - |d.fraction|;
    NatOfPadded(d.fraction, scale);
    NatOfConcat(d.whole, PadEnd(d.fraction, scale));
    NatOfConcat(d.whole, d.fraction);
    PowAdds(|d.fraction|, k);
    Distribute(NatOf(d.whole), Pow10(|d.fraction|), NatOf(d.fraction), Pow10(k));
    Negate(NatOf(d.whole + d.fraction), Pow10(k));
  }

  lemma Distribute(w: nat, p: nat, f: nat, q: nat)
    ensures (w * p + f) * q == w * (p * q) + f * q
  {
  }

  lemma Negate(x: int, q: int)
    ensures (-x) * q == -(x * q)
  {
  }

  lemma {:induction false} TotalShifts(ds: seq<Decimal>, scale: nat, wider: nat)
    requires AllWellFormed(ds) && WidestScale(ds) <= scale <= wider
    ensures TotalAt(ds, wider) == TotalAt(ds, scale) * Pow10(wider - scale)
  {
    hide Amount, Coefficient, Pow10, WellFormed;
    if ds != [] {
      var d, k := ds[0], scale - |ds[0].fraction|;
      TotalShifts(ds[1..], scale, wider);
      AmountShifts(d, scale);
      AmountShifts(d, wider);
      PowAdds(k, wider - scale);
      Regroup(Coefficient(d), Pow10(k), Pow10(wider - scale), TotalAt(ds[1..], scale));
    }
  }

  lemma Regroup(c: int, p: int, q: int, t: int)
    ensures c * (p * q) + t * q == (c * p + t) * q
  {
  }

  lemma {:induction false} TotalSplits(a: seq<Decimal>, b: seq<Decimal>, scale: nat)
    requires AllWellFormed(a) && AllWellFormed(b)
    ensures AllWellFormed(a + b) && TotalAt(a + b, scale) == TotalAt(a, scale) + TotalAt(b, scale)
    ensures WidestScale(a + b) == Larger(WidestScale(a), WidestScale(b))
  {
    hide WellFormed, Amount;
    if a == [] {
      assert a + b == b;
    } else {
      TotalSplits(a[1..], b, scale);
      assert (a + b)[1..] == a[1..] + b;
    }
  }

  // ------------------------------------------------------------------ exactness

  /** The number a figure stands for. */
  function Value(d: Decimal): real
    requires WellFormed(d)
  {
    Ratio(Coefficient(d) as real, Pow10(|d.fraction|) as real)
  }

  function SumOfValues(ds: seq<Decimal>): real
    requires AllWellFormed(ds)
  {
    if ds == [] then 0.0 else Value(ds[0]) + SumOfValues(ds[1..])
  }

  lemma IntTimes(a: int, b: int)
    ensures Times(a as real, b as real) == (a * b) as real
  {
  }

  lemma ValueAtScale(d: Decimal, scale: nat)
    requires WellFormed(d) && |d.fraction| <= scale
    ensures Times(Value(d), Pow10(scale) as real) == Amount(d, scale) as real
  {
    hide Times, Ratio, Pow10, Coefficient, Amount;
    var p, q := Pow10(|d.fraction|), Pow10(scale - |d.fraction|);
    AmountShifts(d, scale);
    PowAdds(|d.fraction|, scale - |d.fraction|);
    RatioIff(Coefficient(d) as real, p as real, Value(d));
    TimesAssoc(Value(d), p as real, q as real);
    IntTimes(p, q);
    IntTimes(Coefficient(d), q);
  }

  lemma {:induction false} SumAtScale(ds: seq<Decimal>, scale: nat)
    requires AllWellFormed(ds) && WidestScale(ds) <= scale
    ensures Times(SumOfValues(ds), Pow10(scale) as real) == TotalAt(ds, scale) as real
  {
    hide Times, Pow10, Amount, Value, WellFormed;
    if ds == [] {
      TimesNothing(Pow10(scale) as real);
    } else {
      ValueAtScale(ds[0], scale);
      SumAtScale(ds[1..], scale);
      TimesSum(Pow10(scale) as real, Value(ds[0]), SumOfValues(ds[1..]));
    }
  }

  lemma TimesNothing(x: real)
    ensures Times(0.0, x) == 0.0
  {
  }

  /** The returned string reads back as the exact sum of the values, at the widest
      scale any of them carries; it is withheld exactly when some value is no figure. */
  lemma SumIsExact(values: seq<string>)
    ensures Sum(values).None? <==> exists i :: 0 <= i < |values| && Parse(Trim(values[i])).None?
    ensures Sum(values).Some? ==>
              var ds, d := ParseAll(values).value, Parse(Trim(Sum(values).value));
              && d.Some? && WellFormed(d.value)
              && |d.value.fraction| == WidestScale(ds)
              && Value(d.value) == SumOfValues(ds)
  {
    hide Parse, Trim, Times, Ratio, Coefficient, Amount, Pow10;
    ParseAllNone(values);
    if Sum(values).Some? {
      var ds := ParseAll(values).value;
      var scale := WidestScale(ds);
      var d := RenderReads(TotalAt(ds, scale), scale);
      TextIsTrimmed(d);
      SumAtScale(ds, scale);
      RatioIff(TotalAt(ds, scale) as real, Pow10(scale) as real, SumOfValues(ds));
    }
  }

  lemma {:induction false} ParseAllNone(values: seq<string>)
    ensures ParseAll(values).None? <==> exists i :: 0 <= i < |values| && Parse(Trim(values[i])).None?
  {
    hide Parse, Trim;
    if values != [] {
      ParseAllNone(values[1..]);
      if i :| 0 <= i < |values[1..]| && Parse(Trim(values[1..][i])).None? {
        assert values[i + 1] == values[1..][i];
      }
      if i :| 0 < i < |values| && Parse(Trim(values[i])).None? {
        assert values[1..][i - 1] == values[i];
      }
    }
  }

  // ---------------------------------------------------------- grouping and order

  /** Two lists that parse alike and total alike at every scale wide enough. */
  ghost predicate Alike(a: seq<string>, b: seq<string>) {
    if ParseAll(a).None? || ParseAll(b).None? then ParseAll(a).None? && ParseAll(b).None?
    else
      var ds, es := ParseAll(a).value, ParseAll(b).value;
      && WidestScale(ds) == WidestScale(es)
      && forall scale: nat :: scale >= WidestScale(ds) ==> TotalAt(ds, scale) == TotalAt(es, scale)
  }

  lemma AlikeSums(a: seq<string>, b: seq<string>)
    requires Alike(a, b)
    ensures Sum(a) == Sum(b)
  {
    hide Render;
  }

  lemma AlikeConcat(a: seq<string>, a': seq<string>, b: seq<string>, b': seq<string>)
    requires Alike(a, a') && Alike(b, b')
    ensures Alike(a + b, a' + b')
  {
    hide WidestScale, TotalAt, ParseAll;
    ParseAllSplits(a, b);
    ParseAllSplits(a', b');
    if ParseAll(a).Some? && ParseAll(b).Some? {
      forall scale: nat
        ensures TotalAt(ParseAll(a).value + ParseAll(b).value, scale)
             == TotalAt(ParseAll(a).value, scale) + TotalAt(ParseAll(b).value, scale)
        ensures TotalAt(ParseAll(a').value + ParseAll(b').value, scale)
             == TotalAt(ParseAll(a').value, scale) + TotalAt(ParseAll(b').value, scale)
      {
        TotalSplits(ParseAll(a).value, ParseAll(b).value, scale);
        TotalSplits(ParseAll(a').value, ParseAll(b').value, scale);
      }
      TotalSplits(ParseAll(a).value, ParseAll(b).value, 0);
      TotalSplits(ParseAll(a').value, ParseAll(b').value, 0);
    }
  }

  lemma SubtotalAlike(group: seq<string>)
    requires Sum(group).Some?
    ensures Alike([Sum(group).value], group)
  {
    hide Parse, Trim, Amount, Coefficient, TotalAt, WidestScale, ParseAll, Pow10;
    var ds := ParseAll(group).value;
    var w := WidestScale(ds);
    var d := RenderReads(TotalAt(ds, w), w);
    TextIsTrimmed(d);
    ParseOne(Sum(group).value);
    forall scale: nat | scale >= w
      ensures TotalAt([d], scale) == TotalAt(ds, scale)
    {
      TotalShifts(ds, w, scale);
      AmountShifts(d, scale);
      TotalOfOne(d, scale);
    }
    TotalOfOne(d, 0);
  }

  lemma TotalOfOne(d: Decimal, scale: nat)
    requires WellFormed(d)
    ensures TotalAt([d], scale) == Amount(d, scale) && WidestScale([d]) == |d.fraction|
  {
    hide Amount;
    assert [d][1..] == [];
  }

  function Flatten(groups: seq<seq<string>>): seq<string> {
    if groups == [] then [] else groups[0] + Flatten(groups[1..])
  }

  lemma {:induction false} SubtotalsAlike(groups: seq<seq<string>>, subtotals: seq<string>)
    requires |groups| == |subtotals|
    requires forall i :: 0 <= i < |groups| ==> Sum(groups[i]) == Some(subtotals[i])
    ensures Alike(subtotals, Flatten(groups))
  {
    hide Sum, Alike;
    if groups == [] {
      AlikeSelf([]);
    } else {
      SubtotalAlike(groups[0]);
      SubtotalsAlike(groups[1..], subtotals[1..]);
      AlikeConcat([subtotals[0]], groups[0], subtotals[1..], Flatten(groups[1..]));
      assert subtotals == [subtotals[0]] + subtotals[1..];
    }
  }

  lemma AlikeSelf(a: seq<string>)
    ensures Alike(a, a)
  {
  }

  lemma {:induction false} FlattenFails(groups: seq<seq<string>>, i: nat)
    requires i < |groups| && Sum(groups[i]).None?
    ensures Sum(Flatten(groups)).None?
  {
    hide ParseAll, Render;
    ParseAllSplits(groups[0], Flatten(groups[1..]));
    if i > 0 {
      FlattenFails(groups[1..], i - 1);
    }
  }

  /** Summing sub-totals gives the identical string as summing everything at once,
      and a group with no total means the whole has none. */
  lemma GroupingIsInvisible(groups: seq<seq<string>>, subtotals: seq<string>)
    requires |groups| == |subtotals|
    ensures (forall i :: 0 <= i < |groups| ==> Sum(groups[i]) == Some(subtotals[i])) ==>
              Sum(subtotals) == Sum(Flatten(groups))
    ensures (exists i :: 0 <= i < |groups| && Sum(groups[i]).None?) ==> Sum(Flatten(groups)).None?
  {
    hide Sum, Alike;
    if forall i :: 0 <= i < |groups| ==> Sum(groups[i]) == Some(subtotals[i]) {
      SubtotalsAlike(groups, subtotals);
      AlikeSums(subtotals, Flatten(groups));
    }
    if i :| 0 <= i < |groups| && Sum(groups[i]).None? {
      FlattenFails(groups, i);
    }
  }

  lemma SwapAlike(a: seq<string>, b: seq<string>)
    ensures Alike(a + b, b + a)
  {
    hide WidestScale, TotalAt, ParseAll;
    ParseAllSplits(a, b);
    ParseAllSplits(b, a);
    if ParseAll(a).Some? && ParseAll(b).Some? {
      var ds, es := ParseAll(a).value, ParseAll(b).value;
      forall scale: nat
        ensures TotalAt(ds + es, scale) == TotalAt(es + ds, scale)
      {
        TotalSplits(ds, es, scale);
        TotalSplits(es, ds, scale);
      }
      TotalSplits(ds, es, 0);
      TotalSplits(es, ds, 0);
    }
  }

  lemma AlikeTransitive(a: seq<string>, b: seq<string>, c: seq<string>)
    requires Alike(a, b) && Alike(b, c)
    ensures Alike(a, c)
  {
    hide WidestScale, TotalAt, ParseAll;
  }

  lemma MoveToFront(before: seq<string>, x: string, after: seq<string>)
    ensures Alike([x] + (before + after), before + [x] + after)
  {
    hide Alike;
    SwapAlike([x], before);
    AlikeSelf(after);
    AlikeConcat([x] + before, before + [x], after, after);
    assert [x] + before + after == [x] + (before + after);
  }

  lemma {:induction false} PermutationAlike(a: seq<string>, b: seq<string>)
    requires multiset(a) == multiset(b)
    ensures Alike(a, b)
    decreases |a|, 0
  {
    hide Alike;
    if a == [] {
      assert |multiset(b)| == 0;
      AlikeSelf(a);
    } else {
      HeadOut(a);
      var i := PlaceOf(b, a[0]);
      WithoutOne(b, i);
      PermutationStep(a[0], a[1..], b[..i], b[i + 1..]);
    }
  }

  lemma {:induction false} PermutationStep(x: string, rest: seq<string>, before: seq<string>, after: seq<string>)
    requires multiset(rest) == multiset(before + after)
    ensures Alike([x] + rest, before + [x] + after)
    decreases |rest|, 1
  {
    hide Alike;
    PermutationAlike(rest, before + after);
    AlikeSelf([x]);
    AlikeConcat([x], [x], rest, before + after);
    MoveToFront(before, x, after);
    AlikeTransitive([x] + rest, [x] + (before + after), before + [x] + after);
  }

  /** The order of the values cannot be seen in the result. */
  lemma OrderIsInvisible(a: seq<string>, b: seq<string>)
    requires multiset(a) == multiset(b)
    ensures Sum(a) == Sum(b)
  {
    hide Sum, Alike;
    PermutationAlike(a, b);
    AlikeSums(a, b);
  }
}

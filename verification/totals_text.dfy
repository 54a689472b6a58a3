/** Figures and their sums in characters: what is read, what is written, and how many
    decimals a sum carries. */
module TotalsText {
  import opened Common
  import opened Totals
  import opened TotalsLaws

  predicate Decimals(s: string) { forall i :: 0 <= i < |s| ==> '0' <= s[i] <= '9' }

  /** A string is a figure exactly when it is an optional minus, digits, and optionally
      a point and more digits. */
  lemma FigureInFull(s: string, d: Decimal)
    ensures Parse(s) == Some(d) <==>
      && d.whole != "" && Decimals(d.whole) && Decimals(d.fraction)
      && s == (if d.negative then "-" else "") + d.whole + (if d.fraction == "" then "" else "." + d.fraction)
  {
    ParseIff(s, d);
    DigitsAreDecimals(d.whole);
    DigitsAreDecimals(d.fraction);
    TextInFull(d);
    hide Parse, AllDigits, Decimals, Text;
  }

  lemma TextInFull(d: Decimal)
    ensures Text(d) == (if d.negative then "-" else "") + d.whole + (if d.fraction == "" then "" else "." + d.fraction)
  {
    var tail := if d.fraction == "" then "" else "." + d.fraction;
    if d.negative {
      assert "-" + d.whole + tail == "-" + (d.whole + tail);
    } else {
      assert "" + d.whole == d.whole;
    }
  }

  /** Trimming takes white space off both ends and nothing else. */
  lemma TrimInFull(s: string) returns (i: nat, j: nat)
    ensures i <= j <= |s| && Trim(s) == s[i..j]
    ensures forall k :: 0 <= k < i || j <= k < |s| ==> IsSpace(s[k])
    ensures i < j ==> !IsSpace(s[i]) && !IsSpace(s[j - 1])
  {
    hide IsSpace;
    i := StartTrimmed(s);
    var n := EndTrimmed(s[i..]);
    j := i + n;
  }

  lemma {:induction false} StartTrimmed(s: string) returns (i: nat)
    ensures i <= |s| && TrimStart(s) == s[i..]
    ensures (forall k :: 0 <= k < i ==> IsSpace(s[k])) && (i < |s| ==> !IsSpace(s[i]))
  {
    hide IsSpace;
    i := 0;
    if s != [] && IsSpace(s[0]) {
      var n := StartTrimmed(s[1..]);
      i := n + 1;
      forall k | 0 <= k < i
        ensures IsSpace(s[k])
      {
        assert k > 0 ==> s[k] == s[1..][k - 1];
      }
    }
  }

  lemma {:induction false} EndTrimmed(s: string) returns (j: nat)
    ensures j <= |s| && TrimEnd(s) == s[..j]
    ensures (forall k :: j <= k < |s| ==> IsSpace(s[k])) && (j > 0 ==> !IsSpace(s[j - 1]))
  {
    hide IsSpace;
    j := |s|;
    if s != [] && IsSpace(s[|s| - 1]) {
      j := EndTrimmed(s[..|s| - 1]);
      assert s[..|s| - 1][..j] == s[..j];
      forall k | j <= k < |s|
        ensures IsSpace(s[k])
      {
        assert k < |s| - 1 ==> s[k] == s[..|s| - 1][k];
      }
    }
  }

  /** A numeral is read in base ten, the last digit counting once. */
  lemma NumeralInFull(s: string, c: char)
    requires AllDigits(s) && '0' <= c <= '9'
    ensures NatOf("") == 0
    ensures AllDigits(s + [c]) && NatOf(s + [c]) == 10 * NatOf(s) + (c as int - '0' as int)
  {
    assert (s + [c])[..|s|] == s;
  }

  /** The scale of a sum is the widest of its figures, zero when there is none. */
  lemma {:induction false} ScaleInFull(ds: seq<Decimal>)
    ensures forall i :: 0 <= i < |ds| ==> |ds[i].fraction| <= WidestScale(ds)
    ensures ds == [] ==> WidestScale(ds) == 0
    ensures ds != [] ==> exists i :: 0 <= i < |ds| && |ds[i].fraction| == WidestScale(ds)
  {
    if ds != [] {
      ScaleInFull(ds[1..]);
      if |ds| > 1 && |ds[0].fraction| < WidestScale(ds[1..]) {
        var i :| 0 <= i < |ds[1..]| && |ds[1..][i].fraction| == WidestScale(ds[1..]);
        assert ds[i + 1] == ds[1..][i];
      } else {
        assert |ds[0].fraction| == WidestScale(ds);
      }
    }
  }

  lemma {:induction false} NoLeadingZero(n: nat)
    ensures Digits(n)[0] == '0' <==> n == 0
    ensures n == 0 ==> Digits(n) == "0"
  {
    if n >= 10 {
      NoLeadingZero(n / 10);
    }
  }

  /** The digits of a number, padded to more than `scale`, cut before the last `scale`. */
  lemma CutInFull(n: nat, scale: nat) returns (whole: string, fraction: string)
    ensures PadStart(Digits(n), scale + 1) == whole + fraction && |fraction| == scale
    ensures AllDigits(whole) && AllDigits(fraction)
    ensures whole != "" && (whole[0] == '0' ==> whole == "0")
  {
    var raw := Digits(n);
    NoLeadingZero(n);
    PadInFull(raw, scale + 1);
    hide Digits, PadStart, AllDigits;
    var digits := PadStart(raw, scale + 1);
    SliceDigits(digits, |digits| - scale);
    whole, fraction := digits[..|digits| - scale], digits[|digits| - scale..];
    if |raw| <= scale {
      assert whole == [digits[0]];
    }
  }

  lemma PointedInFull(whole: string, fraction: string)
    requires whole != ""
    ensures Pointed(whole + fraction, |fraction|) == whole + (if fraction == "" then "" else "." + fraction)
  {
    var digits := whole + fraction;
    assert digits[..|whole|] == whole && digits[|whole|..] == fraction;
    assert fraction == "" ==> digits == whole;
  }

  /** How a total is written: a minus exactly below zero, a whole part without a
      leading zero unless it is "0", and exactly `scale` decimals behind a point. */
  lemma RenderInFull(total: int, scale: nat) returns (whole: string, fraction: string)
    ensures Render(total, scale)
         == (if total < 0 then "-" else "") + (whole + (if scale == 0 then "" else "." + fraction))
    ensures Decimals(whole) && Decimals(fraction) && |fraction| == scale
    ensures whole != "" && (whole[0] == '0' ==> whole == "0")
  {
    var n := if total < 0 then -total else total;
    whole, fraction := CutInFull(n, scale);
    DigitsAreDecimals(whole);
    DigitsAreDecimals(fraction);
    hide Digits, PadStart, Pointed, AllDigits, Decimals;
    PointedInFull(whole, fraction);
    var body := whole + (if scale == 0 then "" else "." + fraction);
    assert "" + body == body;
  }

  lemma DigitsAreDecimals(s: string)
    ensures AllDigits(s) <==> Decimals(s)
  {
  }

  lemma PadInFull(s: string, width: nat)
    requires AllDigits(s)
    ensures AllDigits(PadStart(s, width))
    ensures |s| >= width ==> PadStart(s, width) == s
    ensures |s| < width ==> |PadStart(s, width)| == width && PadStart(s, width)[0] == '0'
  {
    if |s| >= width {
      assert Zeros(width - |s|) == [];
    }
  }

  /** Nothing sums to zero. */
  lemma SumsWritten()
    ensures Sum([]) == Some("0")
  {
    assert Digits(0) == "0";
    PadInFull("0", 1);
  }
}

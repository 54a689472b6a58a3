/** Adding decimal strings exactly. */
module Totals {
  import opened Common

  /** A matched figure; an absent fraction is the empty string. */
  datatype Decimal = Decimal(negative: bool, whole: string, fraction: string)

  // ------------------------------------------------------------------- reading

  /** The white space and line terminators `trim` removes. */
  predicate IsSpace(c: char) {
    var u := c as int;
    || 0x09 <= u <= 0x0d || u == 0x20 || u == 0xa0 || u == 0x1680 || 0x2000 <= u <= 0x200a
    || u == 0x2028 || u == 0x2029 || u == 0x202f || u == 0x205f || u == 0x3000 || u == 0xfeff
  }

  function TrimStart(s: string): string {
    if s != [] && IsSpace(s[0]) then TrimStart(s[1..]) else s
  }

  function TrimEnd(s: string): string {
    if s != [] && IsSpace(s[|s| - 1]) then TrimEnd(s[..|s| - 1]) else s
  }

  function Trim(s: string): string { TrimEnd(TrimStart(s)) }

  predicate IsDigit(c: char) { '0' <= c <= '9' }

  predicate AllDigits(s: string) { forall i :: 0 <= i < |s| ==> IsDigit(s[i]) }

  function LeadingDigits(s: string): (n: nat)
    ensures n <= |s| && AllDigits(s[..n])
    ensures n < |s| ==> !IsDigit(s[n])
  {
    if s == [] || !IsDigit(s[0]) then 0
    else
      var n := 1 + LeadingDigits(s[1..]);
      assert s[..n] == [s[0]] + s[1..][..n - 1];
      n
  }

  /** Digits, and optionally a point with more digits. */
  function ParseMagnitude(t: string): Option<(string, string)> {
    var n := LeadingDigits(t);
    if n == 0 then None
    else if n == |t| then Some((t, []))
    else if t[n] == '.' && n + 1 < |t| && AllDigits(t[n + 1..]) then Some((t[..n], t[n + 1..]))
    else None
  }

  /** The same behind an optional minus. */
  function Parse(s: string): Option<Decimal> {
    var negative := s != [] && s[0] == '-';
    match ParseMagnitude(if negative then s[1..] else s)
    case None => None
    case Some((whole, fraction)) => Some(Decimal(negative, whole, fraction))
  }

  predicate WellFormed(d: Decimal) { d.whole != [] && AllDigits(d.whole) && AllDigits(d.fraction) }

  function Tail(fraction: string): string { if fraction == [] then [] else ['.'] + fraction }

  /** How a figure is written. */
  function Text(d: Decimal): string {
    if d.negative then ['-'] + (d.whole + Tail(d.fraction)) else d.whole + Tail(d.fraction)
  }

  lemma {:induction false} LeadingDigitsOf(whole: string, rest: string)
    requires AllDigits(whole) && (rest != [] ==> !IsDigit(rest[0]))
    ensures LeadingDigits(whole + rest) == |whole|
  {
    if whole == [] {
      assert whole + rest == rest;
    } else {
      LeadingDigitsOf(whole[1..], rest);
      assert (whole + rest)[1..] == whole[1..] + rest;
    }
  }

  lemma MagnitudeRead(t: string)
    requires ParseMagnitude(t).Some?
    ensures var (whole, fraction) := ParseMagnitude(t).value;
            whole != [] && AllDigits(whole) && AllDigits(fraction) && t == whole + Tail(fraction)
  {
    var n := LeadingDigits(t);
    assert t[..|t|] == t;
    if n < |t| {
      assert t == t[..n] + ([t[n]] + t[n + 1..]);
    }
  }

  lemma MagnitudeWritten(whole: string, fraction: string)
    requires whole != [] && AllDigits(whole) && AllDigits(fraction)
    ensures ParseMagnitude(whole + Tail(fraction)) == Some((whole, fraction))
    ensures (whole + Tail(fraction))[0] != '-'
  {
    var rest := Tail(fraction);
    var t, n := whole + rest, |whole|;
    LeadingDigitsOf(whole, rest);
    assert t[0] == whole[0] && IsDigit(whole[0]);
    assert t[..n] == whole && t[n..] == rest;
    if fraction != [] {
      assert t[n] == '.';
      assert t[n + 1..] == fraction;
    } else {
      assert t == whole;
    }
  }

  /** A string is read as `d` exactly when it is how `d` is written. */
  lemma ParseIff(s: string, d: Decimal)
    ensures Parse(s) == Some(d) <==> WellFormed(d) && s == Text(d)
  {
    if Parse(s) == Some(d) {
      ParsedIsText(s, d);
    }
    if WellFormed(d) && s == Text(d) {
      TextIsParsed(d);
    }
  }

  lemma ParsedIsText(s: string, d: Decimal)
    requires Parse(s) == Some(d)
    ensures WellFormed(d) && s == Text(d)
  {
    hide ParseMagnitude, AllDigits, Tail;
    MagnitudeRead(if d.negative then s[1..] else s);
    if d.negative {
      assert s == ['-'] + s[1..];
    }
  }

  lemma TextIsParsed(d: Decimal)
    requires WellFormed(d)
    ensures Parse(Text(d)) == Some(d)
  {
    hide ParseMagnitude, AllDigits, Tail;
    MagnitudeWritten(d.whole, d.fraction);
    var t := d.whole + Tail(d.fraction);
    assert (['-'] + t)[1..] == t;
  }

  // ------------------------------------------------------------------- numbers

  function Pow10(n: nat): (r: nat)
    ensures r > 0
  {
    if n == 0 then 1 else 10 * Pow10(n - 1)
  }

  function DigitValue(c: char): nat
    requires IsDigit(c)
  {
    c as int - '0' as int
  }

  function DigitChar(n: nat): (c: char)
    requires n < 10
    ensures IsDigit(c) && DigitValue(c) == n
  {
    ('0' as int + n) as char
  }

  function NatOf(s: string): nat
    requires AllDigits(s)
  {
    if s == [] then 0 else NatOf(s[..|s| - 1]) * 10 + DigitValue(s[|s| - 1])
  }

  function Digits(n: nat): (s: string)
    ensures AllDigits(s) && s != []
  {
    if n < 10 then [DigitChar(n)] else Digits(n / 10) + [DigitChar(n % 10)]
  }

  function Zeros(n: int): (s: string)
    ensures AllDigits(s) && |s| == if n < 0 then 0 else n
  {
    seq(if n < 0 then 0 else n, i => '0')
  }

  function PadStart(s: string, width: nat): string { Zeros(width - |s|) + s }

  function PadEnd(s: string, width: nat): string { s + Zeros(width - |s|) }

  lemma {:induction false} PowAdds(m: nat, n: nat)
    ensures Pow10(m + n) == Pow10(m) * Pow10(n)
  {
    if n > 0 {
      PowAdds(m, n - 1);
      assert Pow10(m + n) == 10 * Pow10(m + (n - 1));
    }
  }

  lemma NatOfSnoc(s: string, c: char)
    requires AllDigits(s) && IsDigit(c)
    ensures AllDigits(s + [c]) && NatOf(s + [c]) == NatOf(s) * 10 + DigitValue(c)
  {
    assert (s + [c])[..|s|] == s;
  }

  lemma ConcatDigits(a: string, b: string)
    requires AllDigits(a) && AllDigits(b)
    ensures AllDigits(a + b)
  {
  }

  lemma {:induction false} NatOfConcat(a: string, b: string)
    requires AllDigits(a) && AllDigits(b)
    ensures AllDigits(a + b)
    ensures NatOf(a + b) == NatOf(a) * Pow10(|b|) + NatOf(b)
  {
    ConcatDigits(a, b);
    if b == [] {
      assert a + b == a;
    } else {
      hide DigitValue, AllDigits, IsDigit, NatOf;
      var head, c := b[..|b| - 1], b[|b| - 1];
      LastDigit(b);
      NatOfConcat(a, head);
      NatOfSnoc(a + head, c);
      NatOfSnoc(head, c);
      assert a + b == a + head + [c] && b == head + [c];
      Shift(NatOf(a), Pow10(|head|), NatOf(head));
    }
  }

  lemma LastDigit(b: string)
    requires AllDigits(b) && b != []
    ensures AllDigits(b[..|b| - 1]) && IsDigit(b[|b| - 1])
  {
  }

  lemma Shift(x: nat, p: nat, y: nat)
    ensures (x * p + y) * 10 == x * (10 * p) + y * 10
  {
  }

  lemma {:induction false} NatOfZeros(n: nat)
    ensures NatOf(Zeros(n)) == 0
  {
    if n > 0 {
      NatOfZeros(n - 1);
      assert Zeros(n)[..n - 1] == Zeros(n - 1);
    }
  }

  lemma {:induction false} NatOfDigits(n: nat)
    ensures NatOf(Digits(n)) == n
  {
    if n < 10 {
      assert Digits(n)[..0] == [];
    } else {
      NatOfDigits(n / 10);
      assert Digits(n)[..|Digits(n)| - 1] == Digits(n / 10);
    }
  }

  lemma NatOfPadded(s: string, width: nat)
    requires AllDigits(s)
    ensures AllDigits(PadStart(s, width)) && NatOf(PadStart(s, width)) == NatOf(s)
    ensures AllDigits(PadEnd(s, width))
    ensures width >= |s| ==> NatOf(PadEnd(s, width)) == NatOf(s) * Pow10(width - |s|)
  {
    var n := if width < |s| then 0 else width - |s|;
    assert Zeros(width - |s|) == Zeros(n);
    NatOfZeros(n);
    NatOfConcat(Zeros(n), s);
    NatOfConcat(s, Zeros(n));
  }

  // ------------------------------------------------------------------ the sum

  function Signed(negative: bool, n: int): int { if negative then -n else n }

  /** A figure in units of its own last digit. */
  function Coefficient(d: Decimal): int
    requires WellFormed(d)
  {
    Signed(d.negative, NatOf(d.whole + d.fraction))
  }

  /** A figure in units of `10^-scale`, as the second loop reads it. */
  function Amount(d: Decimal, scale: nat): int
    requires WellFormed(d)
  {
    NatOfPadded(d.fraction, scale);
    NatOfConcat(d.whole, PadEnd(d.fraction, scale));
    Signed(d.negative, NatOf(d.whole + PadEnd(d.fraction, scale)))
  }

  ghost predicate AllWellFormed(ds: seq<Decimal>) { forall i :: 0 <= i < |ds| ==> WellFormed(ds[i]) }

  function Larger(a: nat, b: nat): nat { if a >= b then a else b }

  /** The widest scale any figure carries. */
  function WidestScale(ds: seq<Decimal>): nat {
    if ds == [] then 0 else Larger(|ds[0].fraction|, WidestScale(ds[1..]))
  }

  function TotalAt(ds: seq<Decimal>, scale: nat): int
    requires AllWellFormed(ds)
  {
    if ds == [] then 0 else Amount(ds[0], scale) + TotalAt(ds[1..], scale)
  }

  /** Digits with a point before the last `scale` of them. */
  function Pointed(digits: string, scale: nat): string
    requires scale < |digits|
  {
    if scale == 0 then digits
    else digits[..|digits| - scale] + (['.'] + digits[|digits| - scale..])
  }

  function Render(total: int, scale: nat): string {
    var digits := PadStart(Digits(if total < 0 then -total else total), scale + 1);
    if total < 0 then ['-'] + Pointed(digits, scale) else Pointed(digits, scale)
  }

  /** The figures behind the values, or nothing when one of them is not a figure. */
  function ParseAll(values: seq<string>): (r: Option<seq<Decimal>>)
    ensures r.Some? ==> |r.value| == |values| && AllWellFormed(r.value)
  {
    if values == [] then Some([])
    else
      match Parse(Trim(values[0]))
      case None => None
      case Some(d) =>
        ParsedIsText(Trim(values[0]), d);
        match ParseAll(values[1..])
        case None => None
        case Some(rest) => Some([d] + rest)
  }

  function Sum(values: seq<string>): Option<string> {
    match ParseAll(values)
    case None => None
    case Some(ds) => Some(Render(TotalAt(ds, WidestScale(ds)), WidestScale(ds)))
  }

  lemma {:induction false} WidestSnoc(ds: seq<Decimal>, d: Decimal)
    ensures WidestScale(ds + [d]) == Larger(WidestScale(ds), |d.fraction|)
  {
    if ds == [] {
      assert ds + [d] == [d];
    } else {
      assert (ds + [d])[1..] == ds[1..] + [d];
      WidestSnoc(ds[1..], d);
    }
  }

  lemma {:induction false} ParseAllSplits(a: seq<string>, b: seq<string>)
    ensures ParseAll(a + b) ==
      if ParseAll(a).Some? && ParseAll(b).Some? then Some(ParseAll(a).value + ParseAll(b).value) else None
  {
    hide Parse, Trim;
    if a == [] {
      assert a + b == b;
      if ParseAll(b).Some? {
        assert [] + ParseAll(b).value == ParseAll(b).value;
      }
    } else {
      assert (a + b)[1..] == a[1..] + b;
      ParseAllSplits(a[1..], b);
      if ParseAll(a).Some? && ParseAll(b).Some? {
        var d := ParseAll(a).value[0];
        assert [d] + (ParseAll(a[1..]).value + ParseAll(b).value) == [d] + ParseAll(a[1..]).value + ParseAll(b).value;
      }
    }
  }

  method SumDecimals(values: seq<string>) returns (r: Option<string>)
    ensures r == Sum(values)
  {
    hide Parse, Trim, Amount, Render;
    var scale := 0;
    var parsed: seq<Decimal> := [];
    for i := 0 to |values|
      invariant ParseAll(values[..i]) == Some(parsed) && scale == WidestScale(parsed)
    {
      var m := Parse(Trim(values[i]));
      ParseOne(values[i]);
      ParseAllSplits(values[..i], [values[i]]);
      assert values[..i + 1] == values[..i] + [values[i]];
      if m.None? {
        ParseAllSplits(values[..i + 1], values[i + 1..]);
        assert values == values[..i + 1] + values[i + 1..];
        return None;
      }
      WidestSnoc(parsed, m.value);
      parsed := parsed + [m.value];
      scale := Larger(scale, |m.value.fraction|);
    }
    assert values[..|values|] == values;
    var total := 0;
    for i := 0 to |parsed|
      invariant total + TotalAt(parsed[i..], scale) == TotalAt(parsed, scale)
    {
      assert parsed[i..][1..] == parsed[i + 1..];
      total := total + Amount(parsed[i], scale);
    }
    r := Some(Render(total, scale));
  }

  lemma ParseOne(value: string)
    ensures ParseAll([value]) == (match Parse(Trim(value)) case None => None case Some(d) => Some([d]))
  {
    hide Parse, Trim;
    assert [value][1..] == [];
    if Parse(Trim(value)).Some? {
      assert [Parse(Trim(value)).value] + [] == [Parse(Trim(value)).value];
    }
  }
}

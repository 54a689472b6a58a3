/** Result shapes shared by every module. */
module Common {
  datatype Option<+T> = None | Some(value: T)

  datatype Result<+T, +E> = Ok(value: T) | Err(error: E)
}

/** Taking a list apart one element at a time, to compare two orders of it. */
module Rearranging {
  lemma HeadOut<T>(a: seq<T>)
    requires a != []
    ensures a == [a[0]] + a[1..] && a[0] in multiset(a)
    ensures multiset(a[1..]) == multiset(a) - multiset{a[0]}
  {
    assert a == [a[0]] + a[1..];
  }

  lemma PlaceOf<T>(b: seq<T>, x: T) returns (i: nat)
    requires x in multiset(b)
    ensures i < |b| && b[i] == x
  {
    i :| 0 <= i < |b| && b[i] == x;
  }

  lemma WithoutOne<T>(b: seq<T>, i: nat)
    requires i < |b|
    ensures b == b[..i] + [b[i]] + b[i + 1..]
    ensures multiset(b[..i] + b[i + 1..]) == multiset(b) - multiset{b[i]}
  {
    assert b == b[..i] + [b[i]] + b[i + 1..];
  }
}

/** Exact products and quotients, named so that proofs can treat them as opaque and
    cite the few laws they need. */
module Rational {
  function Times(a: real, b: real): real { a * b }

  function Ratio(a: real, b: real): real
    requires b != 0.0
  {
    a / b
  }

  lemma TimesAssoc(a: real, b: real, c: real)
    ensures Times(Times(a, b), c) == Times(a, Times(b, c))
  {
  }

  lemma TimesComm(a: real, b: real)
    ensures Times(a, b) == Times(b, a)
  {
  }

  lemma TimesOne(x: real)
    ensures Times(x, 1.0) == x == Times(1.0, x)
  {
  }

  lemma TimesSum(a: real, b: real, c: real)
    ensures Times(a, b + c) == Times(a, b) + Times(a, c)
    ensures Times(b + c, a) == Times(b, a) + Times(c, a)
    ensures Times(a, b - c) == Times(a, b) - Times(a, c)
    ensures Times(b - c, a) == Times(b, a) - Times(c, a)
  {
  }

  lemma TimesSign(x: real, b: real)
    requires b > 0.0
    ensures Times(x, b) > 0.0 <==> x > 0.0
    ensures Times(x, b) < 0.0 <==> x < 0.0
  {
  }

  /** A quotient is the one number that multiplies back. */
  lemma RatioIff(a: real, b: real, q: real)
    requires b != 0.0
    ensures Ratio(a, b) == q <==> Times(q, b) == a
  {
    assert a / b * b == a;
    if q * b == a {
      assert (a / b - q) * b == a / b * b - q * b;
    }
  }

  lemma RatioOrder(a: real, b: real)
    requires b > 0.0
    ensures Ratio(a, b) <= 1.0 <==> a <= b
    ensures Ratio(a, b) < 1.0 <==> a < b
    ensures Ratio(a, b) >= 0.0 <==> a >= 0.0
    ensures Ratio(a, b) > 0.0 <==> a > 0.0
  {
    var r := Ratio(a, b);
    RatioIff(a, b, r);
    hide Times, Ratio;
    TimesSum(b, r, 1.0);
    TimesOne(b);
    TimesSign(r, b);
    TimesSign(r - 1.0, b);
  }
}

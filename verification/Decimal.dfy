/** Decimal digits, most significant first, and the numerals written with them. */
module Decimal {

  type Digit = d: int | 0 <= d < 10

  function Pow10(n: nat): (p: nat)
    ensures p > 0
  {
    if n == 0 then 1 else 10 * Pow10(n - 1)
  }

  function Val(ds: seq<Digit>): nat
  {
    if ds == [] then 0 else Val(ds[..|ds| - 1]) * 10 + ds[|ds| - 1]
  }

  lemma {:induction false} Pow10Sum(m: nat, n: nat)
    ensures Pow10(m + n) == Pow10(m) * Pow10(n)
    decreases n
  {
    if n != 0 {
      Pow10Sum(m, n - 1);
      TenFold(Pow10(m), Pow10(n - 1));
    }
  }

  lemma TenFold(p: nat, q: nat)
    ensures p * (10 * q) == 10 * (p * q)
  {
  }

  lemma {:induction false} ValConcat(a: seq<Digit>, b: seq<Digit>)
    ensures Val(a + b) == Val(a) * Pow10(|b|) + Val(b)
    decreases |b|
  {
    if b == [] {
      assert a + b == a;
    } else {
      var c, d := b[..|b| - 1], b[|b| - 1];
      ValConcat(a, c);
      ValSnoc(a + c, d);
      ValSnoc(c, d);
      assert a + b == (a + c) + [d] && b == c + [d];
      MulTen(Val(a), Pow10(|c|), Val(c), d);
    }
  }

  lemma ValSnoc(ds: seq<Digit>, d: Digit)
    ensures Val(ds + [d]) == Val(ds) * 10 + d
  {
    assert (ds + [d])[..|ds|] == ds;
  }

  lemma MulTen(x: nat, p: nat, y: nat, d: nat)
    ensures (x * p + y) * 10 + d == x * (10 * p) + (y * 10 + d)
  {
  }

  lemma {:induction false} ValBound(ds: seq<Digit>)
    ensures Val(ds) < Pow10(|ds|)
    decreases |ds|
  {
    if ds != [] {
      ValBound(ds[..|ds| - 1]);
    }
  }

  /** Leading zeros do not count. */
  lemma {:induction false} ValZeros(ds: seq<Digit>)
    requires forall i :: 0 <= i < |ds| ==> ds[i] == 0
    ensures Val(ds) == 0
    decreases |ds|
  {
    if ds != [] {
      ValZeros(ds[..|ds| - 1]);
    }
  }

  lemma ValSkipZeros(ds: seq<Digit>, k: nat)
    requires k <= |ds| && forall i :: 0 <= i < k ==> ds[i] == 0
    ensures Val(ds[k..]) == Val(ds)
  {
    hide Val, Pow10;
    ValConcat(ds[..k], ds[k..]);
    ValZeros(ds[..k]);
    assert ds == ds[..k] + ds[k..];
  }

  /** Digits of a given length are determined by their value. */
  lemma {:induction false} ValInjective(a: seq<Digit>, b: seq<Digit>)
    requires |a| == |b| && Val(a) == Val(b)
    ensures a == b
    decreases |a|
  {
    if a != [] {
      ValInjective(a[..|a| - 1], b[..|b| - 1]);
      assert a == a[..|a| - 1] + [a[|a| - 1]] && b == b[..|b| - 1] + [b[|b| - 1]];
    }
  }

  /** A leading non-zero digit gives the value its full size. */
  lemma ValLeading(ds: seq<Digit>)
    requires ds != [] && ds[0] != 0
    ensures Val(ds) >= Pow10(|ds| - 1)
  {
    ValConcat(ds[..1], ds[1..]);
    ValSnoc([], ds[0]);
    assert ds == ds[..1] + ds[1..] && ds[..1] == [] + [ds[0]];
    MulAtLeast(ds[0], Pow10(|ds| - 1));
  }

  lemma MulAtLeast(d: nat, p: nat)
    requires d > 0
    ensures d * p >= p
  {
  }

  lemma {:induction false} Pow10Mono(m: nat, n: nat)
    requires m <= n
    ensures Pow10(m) <= Pow10(n)
    decreases n - m
  {
    if m < n {
      Pow10Mono(m, n - 1);
    }
  }

  // ---------------------------------------------------------------- numerals

  function DigitChar(d: Digit): char { (d + 48) as char }

  function Chars(ds: seq<Digit>): (s: string)
    ensures |s| == |ds| && forall i :: 0 <= i < |s| ==> s[i] == DigitChar(ds[i])
  { seq(|ds|, i requires 0 <= i < |ds| => DigitChar(ds[i])) }

  /** ds written with its last k digits after the point, and no point for k = 0. */
  function Text(neg: bool, ds: seq<Digit>, k: nat): string
    requires k <= |ds|
  {
    (if neg then "-" else "") + Chars(ds[..|ds| - k]) + if k > 0 then "." + Chars(ds[|ds| - k..]) else ""
  }

  /** At least one digit before the point, and no superfluous leading zero. */
  ghost predicate Canonical(ds: seq<Digit>, k: nat) { k < |ds| && (|ds| == k + 1 || ds[0] != 0) }

  /** There is one canonical way to write a number. */
  lemma CanonicalUnique(a: seq<Digit>, b: seq<Digit>, k: nat)
    requires Canonical(a, k) && Canonical(b, k) && Val(a) == Val(b)
    ensures a == b
  {
    if |a| < |b| {
      Longer(a, b);
    } else if |b| < |a| {
      Longer(b, a);
    }
    ValInjective(a, b);
  }

  lemma Longer(a: seq<Digit>, b: seq<Digit>)
    requires |a| < |b| && b[0] != 0
    ensures Val(a) < Val(b)
  {
    ValBound(a);
    ValLeading(b);
    Pow10Mono(|a|, |b| - 1);
  }

  /** The canonical digits of n, with at least k + 1 of them. */
  function CanonDigits(n: nat, k: nat): seq<Digit>
    decreases n + k
  {
    if n < 10 && k == 0 then [n] else CanonDigits(n / 10, if k > 0 then k - 1 else 0) + [n % 10]
  }

  lemma {:induction false} CanonDigitsCorrect(n: nat, k: nat)
    ensures Val(CanonDigits(n, k)) == n && Canonical(CanonDigits(n, k), k)
    decreases n + k
  {
    hide Val, CanonDigits;
    CanonDigitsStep(n, k);
    if n < 10 && k == 0 {
      ValOne(n);
    } else {
      var j := if k > 0 then k - 1 else 0;
      var ds := CanonDigits(n / 10, j);
      CanonDigitsCorrect(n / 10, j);
      ValSnoc(ds, n % 10);
      if |ds| == 1 {
        assert ds == [ds[0]];
        ValOne(ds[0]);
      }
    }
  }

  lemma CanonDigitsStep(n: nat, k: nat)
    ensures CanonDigits(n, k)
         == if n < 10 && k == 0 then [n] else CanonDigits(n / 10, if k > 0 then k - 1 else 0) + [n % 10]
  {
  }

  lemma ValOne(d: Digit)
    ensures Val([d]) == d
  {
    ValSnoc([], d);
    assert [d] == [] + [d];
  }

  /** Adding one in the last place. */
  function Increment(ds: seq<Digit>): (r: seq<Digit>)
    ensures |r| == |ds|
  {
    if ds == [] then []
    else if ds[|ds| - 1] == 9 then Increment(ds[..|ds| - 1]) + [0]
    else ds[..|ds| - 1] + [ds[|ds| - 1] + 1]
  }

  lemma {:induction false} IncrementAddsOne(ds: seq<Digit>)
    requires Val(ds) + 1 < Pow10(|ds|)
    ensures Val(Increment(ds)) == Val(ds) + 1
    decreases |ds|
  {
    var n := |ds| - 1;
    var r := Increment(ds);
    if ds[n] == 9 {
      IncrementAddsOne(ds[..n]);
      assert r[..n] == Increment(ds[..n]);
    } else {
      assert r[..n] == ds[..n];
    }
  }
}

/** Numbers written in a base, the highest digit first. */
module Numerals {
  import opened Arith
  import opened Wrappers

  function Pow(base: nat, n: nat): nat {
    if n == 0 then 1 else Pow(base, n - 1) * base
  }

  predicate Proper(base: nat, ds: seq<nat>) {
    forall i :: 0 <= i < |ds| ==> ds[i] < base
  }

  function Value(base: nat, ds: seq<nat>): nat {
    if ds == [] then 0 else Value(base, ds[..|ds| - 1]) * base + ds[|ds| - 1]
  }

  /** The lowest n digits of v. */
  function Digits(base: nat, n: nat, v: nat): (ds: seq<nat>)
    requires base > 0
    ensures |ds| == n && Proper(base, ds)
  {
    if n == 0 then [] else Digits(base, n - 1, v / base) + [v % base]
  }

  lemma {:induction false} DigitsOfValue(base: nat, ds: seq<nat>)
    requires base > 0 && Proper(base, ds)
    ensures Digits(base, |ds|, Value(base, ds)) == ds
  {
    if ds != [] {
      var front, last := ds[..|ds| - 1], ds[|ds| - 1];
      DigitsOfValue(base, front);
      DivModUnique(last, Value(base, front), base);
      assert ds == front + [last];
    }
  }

  lemma {:induction false} ValueOfDigits(base: nat, n: nat, v: nat)
    requires base > 0 && v < Pow(base, n)
    ensures Value(base, Digits(base, n, v)) == v
  {
    if n > 0 {
      QuotientBound(v, base, Pow(base, n - 1));
      ValueOfDigits(base, n - 1, v / base);
      assert Digits(base, n, v)[..n - 1] == Digits(base, n - 1, v / base);
      DivModSum(v, base);
    }
  }

  lemma {:induction false} ValueBound(base: nat, ds: seq<nat>)
    requires base > 0 && Proper(base, ds)
    ensures Value(base, ds) < Pow(base, |ds|)
  {
    if ds != [] {
      var front := ds[..|ds| - 1];
      ValueBound(base, front);
      AppendBound(Value(base, front), ds[|ds| - 1], Pow(base, |ds| - 1), base);
    }
  }

  /** Reading from the highest digit gives the same value. */
  lemma {:induction false} ValueHead(base: nat, d: nat, rest: seq<nat>)
    ensures Value(base, [d] + rest) == d * Pow(base, |rest|) + Value(base, rest)
  {
    var ds := [d] + rest;
    if rest == [] {
      assert ds[..|ds| - 1] == [];
      assert Pow(base, 0) == 1;
    } else {
      var front := rest[..|rest| - 1];
      assert ds[..|ds| - 1] == [d] + front;
      ValueHead(base, d, front);
      Spread(d, Pow(base, |front|), Value(base, front), base);
    }
  }

  lemma Spread(d: nat, p: nat, w: nat, base: nat)
    ensures (d * p + w) * base == d * (p * base) + w * base
  {
    assert (d * p + w) * base == d * p * base + w * base;
  }

  lemma {:induction false} ZeroDigits(base: nat, n: nat, j: nat)
    requires base > 0 && j < n
    ensures Digits(base, n, 0)[j] == 0
  {
    if j < n - 1 {
      assert 0 / base == 0;
      ZeroDigits(base, n - 1, j);
    }
  }

  function ToBytes(n: nat, v: nat): (b: Bytes)
    ensures b == Digits(256, n, v)
  {
    var ds := Digits(256, n, v);
    seq(n, i requires 0 <= i < n => ds[i])
  }

  /** What is left of v above its lowest j digits. */
  function Above(base: nat, v: nat, j: nat): nat
    requires base > 0
    decreases j
  {
    if j == 0 then v else Above(base, v / base, j - 1)
  }

  lemma {:induction false} DigitsSplit(base: nat, v: nat, i: nat, j: nat)
    requires base > 0
    ensures Digits(base, i + j, v) == Digits(base, i, Above(base, v, j)) + Digits(base, j, v)
    decreases j
  {
    hide Digits;
    if j == 0 {
      assert Digits(base, 0, v) == [];
    } else {
      DigitsSplit(base, v / base, i, j - 1);
      DigitsStep(base, i + j, v);
      DigitsStep(base, j, v);
      Join(Digits(base, i, Above(base, v, j)), Digits(base, j - 1, v / base), v % base);
    }
  }

  lemma PowStep(base: nat, k: nat)
    ensures Pow(base, k) == if k == 0 then 1 else Pow(base, k - 1) * base
  {}

  lemma DigitsStep(base: nat, n: nat, v: nat)
    requires base > 0 && n > 0
    ensures Digits(base, n, v) == Digits(base, n - 1, v / base) + [v % base]
  {}

  lemma Join<T>(a: seq<T>, b: seq<T>, x: T)
    ensures a + b + [x] == a + (b + [x])
  {}
}

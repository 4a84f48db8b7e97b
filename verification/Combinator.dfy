/** Enumeration and counting of combinations. */
module Combinations {
  import opened Arith

  datatype Result<+T> = Ok(value: T) | TooManyElements | NoElements

  // ----- the specification

  /** x in front of each selection. */
  function Prefixed(x: nat, sels: seq<seq<nat>>): seq<seq<nat>> {
    seq(|sels|, j requires 0 <= j < |sels| => [x] + sels[j])
  }

  /** The selections of k indices in [from, n), those with the smallest index first. */
  function Selections(n: nat, from: nat, k: nat): seq<seq<nat>>
    decreases n - from, k
  {
    if k == 0 then [[]]
    else if from + k > n then []
    else Prefixed(from, Selections(n, from + 1, k - 1)) + Selections(n, from + 1, k)
  }

  /** k indices of [from, n), strictly increasing. */
  predicate IsSelection(s: seq<nat>, n: nat, from: nat, k: nat) {
    && |s| == k
    && (forall i :: 0 <= i < k ==> from <= s[i] < n)
    && (forall i, j :: 0 <= i < j < k ==> s[i] < s[j])
  }

  /** Lexicographic order. */
  predicate Less(s: seq<nat>, t: seq<nat>) {
    && s != [] && t != []
    && (s[0] < t[0] || (s[0] == t[0] && Less(s[1..], t[1..])))
  }

  /** Pascal's triangle. */
  function Binomial(n: nat, k: nat): nat {
    if k == 0 then 1 else if n == 0 then 0 else Binomial(n - 1, k - 1) + Binomial(n - 1, k)
  }

  // ----- the enumeration is sound, complete, ordered and of the right size

  /** The selections that start with `from` come first. */
  lemma SelectionsSplit(n: nat, from: nat, k: nat)
    requires k > 0 && from + k <= n
    ensures var first, rest := Selections(n, from + 1, k - 1), Selections(n, from + 1, k);
            var all := Selections(n, from, k);
            && |all| == |first| + |rest|
            && (forall j :: 0 <= j < |first| ==> all[j] == [from] + first[j])
            && (forall j :: 0 <= j < |rest| ==> all[|first| + j] == rest[j])
  {}

  lemma {:induction false} SelectionsSound(n: nat, from: nat, k: nat, j: nat)
    requires j < |Selections(n, from, k)|
    ensures IsSelection(Selections(n, from, k)[j], n, from, k)
    decreases n - from, k
  {
    if k > 0 {
      SelectionsSplit(n, from, k);
      hide Selections;
      var first := Selections(n, from + 1, k - 1);
      if j < |first| {
        SelectionsSound(n, from + 1, k - 1, j);
      } else {
        SelectionsSound(n, from + 1, k, j - |first|);
      }
    }
  }

  lemma {:induction false} SelectionsComplete(n: nat, from: nat, s: seq<nat>)
    requires IsSelection(s, n, from, |s|)
    ensures s in Selections(n, from, |s|)
    decreases n - from, |s|
  {
    if s == [] {
      assert Selections(n, from, 0) == [[]];
    } else {
      EnoughRoom(s, n, from);
      SelectionsSplit(n, from, |s|);
      hide Selections, IsSelection;
      var all, first := Selections(n, from, |s|), Selections(n, from + 1, |s| - 1);
      if s[0] == from {
        TailSelection(s, n, from);
        SelectionsComplete(n, from + 1, s[1..]);
        var j :| 0 <= j < |first| && first[j] == s[1..];
        assert all[j] == [from] + first[j] == s;
      } else {
        HeadAbove(s, n, from);
        SelectionsComplete(n, from + 1, s);
        var j :| 0 <= j < |Selections(n, from + 1, |s|)| && Selections(n, from + 1, |s|)[j] == s;
        assert all[|first| + j] == s;
      }
    }
  }

  lemma {:induction false} EnoughRoom(s: seq<nat>, n: nat, from: nat)
    requires s != [] && IsSelection(s, n, from, |s|)
    ensures from + |s| <= n
  {
    assert from <= s[0] < n;
    if |s| > 1 {
      TailSelection(s, n, from);
      EnoughRoom(s[1..], n, from + 1);
    }
  }

  lemma TailSelection(s: seq<nat>, n: nat, from: nat)
    requires s != [] && IsSelection(s, n, from, |s|)
    ensures IsSelection(s[1..], n, from + 1, |s| - 1)
  {
    var t := s[1..];
    forall i | 0 <= i < |t| ensures from + 1 <= t[i] < n {
      assert t[i] == s[i + 1] && s[0] < s[i + 1];
    }
  }

  lemma HeadAbove(s: seq<nat>, n: nat, from: nat)
    requires s != [] && IsSelection(s, n, from, |s|) && s[0] != from
    ensures IsSelection(s, n, from + 1, |s|)
  {
    forall i | 0 <= i < |s| ensures from + 1 <= s[i] {
      if i > 0 { assert s[0] < s[i]; }
    }
  }

  lemma LessHead(x: nat, s: seq<nat>, t: seq<nat>)
    requires t != [] && x < t[0]
    ensures Less([x] + s, t)
  {}

  lemma LessCons(x: nat, s: seq<nat>, t: seq<nat>)
    requires Less(s, t)
    ensures Less([x] + s, [x] + t)
  {
    assert ([x] + s)[1..] == s && ([x] + t)[1..] == t;
  }

  lemma SeveralSelections(n: nat, from: nat, k: nat)
    requires |Selections(n, from, k)| > 1
    ensures k > 0 && from + k <= n
  {}

  lemma StartsAbove(n: nat, from: nat, k: nat, j: nat)
    requires k > 0 && j < |Selections(n, from, k)|
    ensures var s := Selections(n, from, k)[j]; s != [] && s[0] >= from
  {
    SelectionsSound(n, from, k, j);
  }

  lemma {:induction false} SelectionsOrdered(n: nat, from: nat, k: nat, i: nat, j: nat)
    requires i < j < |Selections(n, from, k)|
    ensures Less(Selections(n, from, k)[i], Selections(n, from, k)[j])
    decreases n - from, k
  {
    hide Less, IsSelection;
    SeveralSelections(n, from, k);
    SelectionsSplit(n, from, k);
    hide Selections;
    var first, rest := Selections(n, from + 1, k - 1), Selections(n, from + 1, k);
    if j < |first| {
      SelectionsOrdered(n, from + 1, k - 1, i, j);
      LessCons(from, first[i], first[j]);
    } else if i < |first| {
      StartsAbove(n, from + 1, k, j - |first|);
      LessHead(from, first[i], rest[j - |first|]);
    } else {
      SelectionsOrdered(n, from + 1, k, i - |first|, j - |first|);
    }
  }

  lemma {:induction false} SelectionsCount(n: nat, from: nat, k: nat)
    requires from <= n
    ensures |Selections(n, from, k)| == Binomial(n - from, k)
    decreases n - from, k
  {
    if k > 0 {
      if from + k > n {
        BinomialZero(n - from, k);
      } else {
        SelectionsCount(n, from + 1, k - 1);
        SelectionsCount(n, from + 1, k);
      }
    }
  }

  lemma {:induction false} BinomialZero(n: nat, k: nat)
    requires k > n
    ensures Binomial(n, k) == 0
  {
    if n > 0 {
      BinomialZero(n - 1, k - 1);
      BinomialZero(n - 1, k);
    }
  }

  // ----- the enumerating object

  function Values<T>(origin: seq<T>, indices: seq<nat>): seq<T>
    requires forall i :: 0 <= i < |indices| ==> indices[i] < |origin|
  {
    seq(|indices|, i requires 0 <= i < |indices| => origin[indices[i]])
  }

  ghost predicate InRange<T>(origin: seq<T>, sels: seq<seq<nat>>) {
    forall j :: 0 <= j < |sels| ==> forall i :: 0 <= i < |sels[j]| ==> sels[j][i] < |origin|
  }

  /** The values of `current` followed by each selection. */
  function Outputs<T>(origin: seq<T>, current: seq<nat>, sels: seq<seq<nat>>): seq<seq<T>>
    requires InRange(origin, [current]) && InRange(origin, sels)
  {
    seq(|sels|, j requires 0 <= j < |sels| =>
      assert [current][0] == current;
      Values(origin, current + sels[j]))
  }

  lemma SelectionsInRange<T>(origin: seq<T>, from: nat, k: nat)
    ensures InRange(origin, Selections(|origin|, from, k))
  {
    forall j | 0 <= j < |Selections(|origin|, from, k)|
      ensures forall i :: 0 <= i < |Selections(|origin|, from, k)[j]| ==> Selections(|origin|, from, k)[j][i] < |origin|
    {
      SelectionsSound(|origin|, from, k, j);
    }
  }

  class Combinator<T> {
    const origin: seq<T>
    var combinations: seq<seq<T>>
    var current: seq<nat>

    constructor (v: seq<T>)
      ensures origin == v && combinations == [] && current == []
    {
      origin, combinations, current := v, [], [];
    }

    /** All selections of k elements, in lexicographic order of their indices. */
    method Combine(k: nat) returns (r: Result<seq<seq<T>>>)
      requires current == []
      modifies this
      ensures current == []
      ensures r.TooManyElements? <==> k > |origin|
      ensures r.NoElements? <==> k == 0
      ensures r.Ok? ==>
        && r.value == combinations && InRange(origin, [[]]) && InRange(origin, Selections(|origin|, 0, k))
        && r.value == Outputs(origin, [], Selections(|origin|, 0, k))
        && |r.value| == Binomial(|origin|, k)
    {
      if k > |origin| {
        return TooManyElements;
      }
      if k == 0 {
        return NoElements;
      }
      combinations := [];
      SelectionsInRange(origin, 0, k);
      SelectionsCount(|origin|, 0, k);
      DoCombine(0, k);
      assert [] + Outputs(origin, [], Selections(|origin|, 0, k)) == Outputs(origin, [], Selections(|origin|, 0, k));
      return Ok(combinations);
    }

    method DoCombine(from: nat, k: nat)
      requires 0 < k <= |origin| && from + k <= |origin| + 1
      requires InRange(origin, [current])
      modifies this
      ensures current == old(current)
      ensures InRange(origin, Selections(|origin|, from, k))
      ensures combinations == old(combinations) + Outputs(origin, current, Selections(|origin|, from, k))
      decreases k
    {
      hide Selections, Outputs;
      ghost var n := |origin|;
      ghost var c := current;
      SelectionsInRange(origin, from, k);
      current := current + [0];
      var i := from;
      while i <= |origin| - k
        invariant from <= i <= |origin| - k + 1
        invariant |current| == |c| + 1 && current[..|c|] == c
        invariant InRange(origin, Selections(n, i, k))
        invariant combinations + Outputs(origin, c, Selections(n, i, k))
               == old(combinations) + Outputs(origin, c, Selections(n, from, k))
      {
        current := current[..|current| - 1] + [i];
        assert current == c + [i];
        ghost var before := combinations;
        SelectionsInRange(origin, i + 1, k - 1);
        SelectionsInRange(origin, i + 1, k);
        assert InRange(origin, [current]) by { assert [c][0] == c; }
        if k > 1 {
          DoCombine(i + 1, k - 1);
        } else {
          combinations := combinations + [Values(origin, current)];
          OutputsLeaf(origin, current, i + 1);
        }
        OutputsStep(origin, c, i, k);
        assert combinations == before + Outputs(origin, current, Selections(n, i + 1, k - 1));
        Regroup(before, Outputs(origin, current, Selections(n, i + 1, k - 1)), Outputs(origin, c, Selections(n, i + 1, k)));
        i := i + 1;
      }
      NoOutputs(origin, c, i, k);
      assert combinations + [] == combinations;
      current := current[..|current| - 1];
    }
  }

  lemma Regroup<T>(a: seq<T>, b: seq<T>, c: seq<T>)
    ensures a + (b + c) == a + b + c
  {}

  lemma OutputsLeaf<T>(origin: seq<T>, c: seq<nat>, i: nat)
    requires InRange(origin, [c]) && InRange(origin, Selections(|origin|, i, 0))
    ensures forall j :: 0 <= j < |c| ==> c[j] < |origin|
    ensures Outputs(origin, c, Selections(|origin|, i, 0)) == [Values(origin, c)]
  {
    assert [c][0] == c && c + [] == c;
  }

  lemma NoOutputs<T>(origin: seq<T>, c: seq<nat>, i: nat, k: nat)
    requires InRange(origin, [c]) && InRange(origin, Selections(|origin|, i, k)) && k > 0 && i + k > |origin|
    ensures Outputs(origin, c, Selections(|origin|, i, k)) == []
  {}

  /** Selections that start with i, then those that start later. */
  lemma OutputsStep<T>(origin: seq<T>, c: seq<nat>, i: nat, k: nat)
    requires k > 0 && i + k <= |origin| && InRange(origin, [c]) && InRange(origin, [c + [i]])
    requires InRange(origin, Selections(|origin|, i, k))
    requires InRange(origin, Selections(|origin|, i + 1, k - 1)) && InRange(origin, Selections(|origin|, i + 1, k))
    ensures Outputs(origin, c, Selections(|origin|, i, k))
         == Outputs(origin, c + [i], Selections(|origin|, i + 1, k - 1)) + Outputs(origin, c, Selections(|origin|, i + 1, k))
  {
    var first := Selections(|origin|, i + 1, k - 1);
    forall j | 0 <= j < |first| ensures c + ([i] + first[j]) == c + [i] + first[j] {}
  }

  // ----- counting

  const LIMIT: nat := 0x1_0000_0000_0000_0000

  /** The step of the product formula: i * C(n, i) == (n - i + 1) * C(n, i - 1). */
  lemma {:induction false} ProductStep(n: nat, i: nat)
    requires 1 <= i <= n
    ensures i * Binomial(n, i) == (n - i + 1) * Binomial(n, i - 1)
  {
    var a, x := Binomial(n - 1, i - 1), Binomial(n - 1, i);
    if i < n { ProductStep(n - 1, i); } else { BinomialZero(n - 1, n); }
    assert i * x == (n - i) * a;
    Distribute(i, n - i, a);
    if i > 1 {
      var b := Binomial(n - 1, i - 2);
      ProductStep(n - 1, i - 1);
      TwoTerms(n, i, a, b);
    }
    Expand(i, a, x);
  }

  lemma TwoTerms(n: int, i: int, a: int, b: int)
    requires (i - 1) * a == (n - i + 1) * b
    ensures (n - i + 1) * (b + a) == n * a
  {
    Expand(n - i + 1, b, a);
    Distribute(i - 1, n - i + 1, a);
  }

  lemma Expand(x: int, y: int, z: int)
    ensures x * (y + z) == x * y + x * z
  {}

  /** None of the products formed on the way to C(n, k) exceeds 64 bits. */
  predicate NoOverflow(n: nat, k: nat) {
    forall i :: 1 <= i <= k ==> i * Binomial(n, i) < LIMIT
  }

  /** The 64-bit loop returns C(n, k) exactly when no product overflows; otherwise less. */
  method CombinationsCount(k: nat, n: nat) returns (r: Result<nat>)
    ensures r.TooManyElements? <==> k > n
    ensures r.TooManyElements? || r.Ok?
    ensures r.Ok? ==> r.value <= Binomial(n, k)
    ensures r.Ok? ==> (r.value == Binomial(n, k) <==> NoOverflow(n, k))
  {
    if k > n {
      return TooManyElements;
    }
    var c: nat := 1;
    var m := n;
    for i := 1 to k + 1
      invariant m == n - i + 1
      invariant c <= Binomial(n, i - 1)
      invariant c == Binomial(n, i - 1) <==> NoOverflow(n, i - 1)
    {
      CountStep(n, i, c);
      ghost var before := c;
      c := (c * m) % LIMIT;
      m := m - 1;
      c := c / i;
      assert NoOverflow(n, i) <==> NoOverflow(n, i - 1) && i * Binomial(n, i) < LIMIT;
    }
    return Ok(c);
  }

  lemma CountStep(n: nat, i: nat, c: nat)
    requires 1 <= i <= n && c <= Binomial(n, i - 1)
    ensures var c' := (c * (n - i + 1)) % LIMIT / i;
            && c' <= Binomial(n, i)
            && (c' == Binomial(n, i) <==> c == Binomial(n, i - 1) && i * Binomial(n, i) < LIMIT)
  {
    hide Binomial;
    ProductStep(n, i);
    CountArithmetic(i, n - i + 1, c, Binomial(n, i - 1), Binomial(n, i));
  }

  lemma CountArithmetic(i: nat, m: nat, c: nat, b: nat, b': nat)
    requires i > 0 && m > 0 && c <= b && i * b' == m * b
    ensures var c' := (c * m) % LIMIT / i;
            c' <= b' && (c' == b' <==> c == b && i * b' < LIMIT)
  {
    var p := c * m;
    var q := p % LIMIT;
    if c == b && i * b' < LIMIT {
      Exact(q, i, b');
    } else {
      if c < b { StrictProduct(c, b, m); }
      assert q < i * b';
      QuotientBound(q, i, b');
    }
  }

  lemma Exact(q: nat, i: nat, b: nat)
    requires i > 0 && q == i * b
    ensures q / i == b
  {
    assert q == 0 + b * i;
    DivModUnique(0, b, i);
  }

  lemma StrictProduct(c: nat, b: nat, m: nat)
    requires c < b && m > 0
    ensures c * m < m * b
  {
    Distribute(b, c, m);
    MultipleBound(b - c, m);
  }

  /** An input on which the count is wrong: 3 out of 2^22. */
  lemma OverflowExample()
    ensures !NoOverflow(0x40_0000, 3)
  {
    var n := 0x40_0000;
    ProductStep(n, 1);
    ProductStep(n, 2);
    ProductStep(n, 3);
    assert 3 * Binomial(n, 3) >= LIMIT;
  }
}

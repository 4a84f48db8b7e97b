/** The curve operations that the signature code calls, as one value: the group law,
    the base point, point encoding and the two hashes. Nothing is assumed of them
    beyond `Lawful`. In particular the group is not assumed to have prime order, so
    keys may carry a torsion part, as they may on the real curve. */
module CurveGroup {
  import opened Arith
  import opened Wrappers

  /** `order` is the order l of the base point; `reduce` is reduction modulo l, in which
      the sc_ operations end; `hashToScalar` is the hash reduced modulo l; `hashToPoint`
      is the hash to the prime-order subgroup (hash_to_ec). */
  datatype Curve<!P(!new)> = Curve(
    add: (P, P) -> P,
    neg: P -> P,
    zero: P,
    mul: (nat, P) -> P,
    base: P,
    order: nat,
    reduce: int -> nat,
    encode: P -> Bytes,
    decode: Bytes -> Option<P>,
    hashToScalar: Bytes -> nat,
    hashToPoint: Bytes -> P)

  // Marks the terms at which the group laws below may be instantiated.
  ghost predicate Use<P>(p: P) { true }
  ghost predicate Use3<P>(p: P, q: P, r: P) { true }
  ghost predicate UseMul<P>(n: nat, p: P) { true }

  ghost predicate GroupLaws<P(!new)>(c: Curve<P>) {
    && (forall p, q, r {:trigger Use3(p, q, r)} :: c.add(c.add(p, q), r) == c.add(p, c.add(q, r)))
    && (forall p {:trigger Use(p)} :: c.add(p, c.zero) == p == c.add(c.zero, p))
    && (forall p {:trigger Use(p)} :: c.add(p, c.neg(p)) == c.zero == c.add(c.neg(p), p))
    && (forall p {:trigger Use(p)} :: c.mul(0, p) == c.zero)
    && (forall n: nat, p {:trigger UseMul(n, p)} :: n > 0 ==> c.mul(n, p) == c.add(p, c.mul(n - 1, p)))
  }

  predicate Divides(d: int, n: int)
    requires d > 0
  {
    n % d == 0
  }

  predicate Prime(n: int) {
    1 < n && forall d :: 1 < d < n ==> !Divides(d, n)
  }

  /** n-fold sum of a point (ge_scalarmult). */
  function Mul<P(!new)>(c: Curve<P>, n: nat, p: P): P {
    c.mul(n, p)
  }

  /** Integer multiple of a point. */
  function Times<P(!new)>(c: Curve<P>, z: int, p: P): P {
    if z >= 0 then Mul(c, z, p) else c.neg(Mul(c, -z, p))
  }

  ghost predicate InSubgroup<P(!new)>(c: Curve<P>, p: P) {
    Mul(c, c.order, p) == c.zero
  }

  ghost predicate UseInt(z: int) { true }

  ghost predicate ScalarLaws<P(!new)>(c: Curve<P>) {
    && Prime(c.order)
    && (forall z {:trigger UseInt(z)} :: c.reduce(z) == z % c.order)
    && (forall m :: c.hashToScalar(m) < c.order)
  }

  ghost predicate Lawful<P(!new)>(c: Curve<P>) {
    && GroupLaws(c)
    && ScalarLaws(c)
    && InSubgroup(c, c.base)
    && (forall k: nat :: 0 < k < c.order ==> Mul(c, k, c.base) != c.zero)
    && (forall m :: InSubgroup(c, c.hashToPoint(m)))
    && (forall p :: c.decode(c.encode(p)) == Some(p) && |c.encode(p)| == 32)
  }

  // ----- group facts

  lemma Assoc<P(!new)>(c: Curve<P>, p: P, q: P, r: P)
    requires GroupLaws(c)
    ensures c.add(c.add(p, q), r) == c.add(p, c.add(q, r))
  {
    assert Use3(p, q, r);
  }

  lemma Zero<P(!new)>(c: Curve<P>, p: P)
    requires GroupLaws(c)
    ensures c.add(p, c.zero) == p == c.add(c.zero, p)
    ensures c.add(p, c.neg(p)) == c.zero == c.add(c.neg(p), p)
  {
    assert Use(p);
  }

  lemma CancelLeft<P(!new)>(c: Curve<P>, p: P, q: P, r: P)
    requires GroupLaws(c)
    requires c.add(p, q) == c.add(p, r)
    ensures q == r
  {
    Assoc(c, c.neg(p), p, q);
    Assoc(c, c.neg(p), p, r);
    Zero(c, p);
    Zero(c, q);
    Zero(c, r);
  }

  lemma CancelRight<P(!new)>(c: Curve<P>, p: P, q: P, r: P)
    requires GroupLaws(c)
    requires c.add(q, p) == c.add(r, p)
    ensures q == r
  {
    Assoc(c, q, p, c.neg(p));
    Assoc(c, r, p, c.neg(p));
    Zero(c, p);
    Zero(c, q);
    Zero(c, r);
  }

  /** An inverse is the only solution of p + q = 0. */
  lemma NegUnique<P(!new)>(c: Curve<P>, p: P, q: P)
    requires GroupLaws(c)
    requires c.add(p, q) == c.zero
    ensures q == c.neg(p)
  {
    Zero(c, p);
    CancelLeft(c, p, q, c.neg(p));
  }

  lemma MulStep<P(!new)>(c: Curve<P>, n: nat, p: P)
    requires GroupLaws(c)
    ensures Mul(c, 0, p) == c.zero
    ensures Mul(c, n + 1, p) == c.add(p, Mul(c, n, p))
  {
    assert Use(p) && UseMul(n + 1, p);
  }

  lemma {:induction false} MulAdd<P(!new)>(c: Curve<P>, a: nat, b: nat, p: P)
    requires GroupLaws(c)
    ensures Mul(c, a + b, p) == c.add(Mul(c, a, p), Mul(c, b, p))
  {
    if a == 0 {
      MulStep(c, 0, p);
      Zero(c, Mul(c, b, p));
    } else {
      MulAdd(c, a - 1, b, p);
      MulStep(c, a - 1, p);
      MulStep(c, a - 1 + b, p);
      Assoc(c, p, Mul(c, a - 1, p), Mul(c, b, p));
    }
  }

  lemma {:induction false} MulZero<P(!new)>(c: Curve<P>, n: nat)
    requires GroupLaws(c)
    ensures Mul(c, n, c.zero) == c.zero
  {
    if n == 0 {
      MulStep(c, 0, c.zero);
    } else {
      MulZero(c, n - 1);
      MulStep(c, n - 1, c.zero);
      Zero(c, c.zero);
    }
  }

  lemma {:induction false} MulMul<P(!new)>(c: Curve<P>, a: nat, b: nat, p: P)
    requires GroupLaws(c)
    ensures Mul(c, a * b, p) == Mul(c, a, Mul(c, b, p))
  {
    if a == 0 {
      MulStep(c, 0, p);
      MulStep(c, 0, Mul(c, b, p));
    } else {
      MulMul(c, a - 1, b, p);
      MulStep(c, a - 1, Mul(c, b, p));
      assert a * b == b + (a - 1) * b;
      MulAdd(c, b, (a - 1) * b, p);
    }
  }

  /** Subtracting integers subtracts the multiples. */
  lemma {:induction false} MulSub<P(!new)>(c: Curve<P>, a: nat, b: nat, p: P)
    requires GroupLaws(c)
    ensures Times(c, a - b, p) == c.add(c.neg(Mul(c, b, p)), Mul(c, a, p))
  {
    if a >= b {
      MulAdd(c, b, a - b, p);
      NegThenAdd(c, Mul(c, b, p), Mul(c, a - b, p));
    } else {
      MulAdd(c, a, b - a, p);
      NegSumThenAdd(c, Mul(c, a, p), Mul(c, b - a, p));
    }
  }

  lemma NegThenAdd<P(!new)>(c: Curve<P>, p: P, q: P)
    requires GroupLaws(c)
    ensures c.add(c.neg(p), c.add(p, q)) == q
  {
    Assoc(c, c.neg(p), p, q);
    Zero(c, p);
    Zero(c, q);
  }

  lemma NegSumThenAdd<P(!new)>(c: Curve<P>, p: P, q: P)
    requires GroupLaws(c)
    ensures c.add(c.neg(c.add(p, q)), p) == c.neg(q)
  {
    var s := c.add(p, q);
    Assoc(c, c.neg(s), p, q);
    Zero(c, s);
    Zero(c, q);
    CancelRight(c, q, c.add(c.neg(s), p), c.neg(q));
  }

  /** In the prime-order subgroup only the residue of a multiplier matters. */
  lemma {:induction false} MulReduce<P(!new)>(c: Curve<P>, a: nat, p: P)
    requires GroupLaws(c) && ScalarLaws(c) && InSubgroup(c, p)
    ensures Mul(c, c.reduce(a), p) == Mul(c, a, p)
  {
    Reduce(c, a);
    var q := a / c.order;
    var r := a % c.order;
    MulAdd(c, q * c.order, r, p);
    MulMul(c, q, c.order, p);
    MulZero(c, q);
    Zero(c, Mul(c, r, p));
  }

  lemma MulCongruent<P(!new)>(c: Curve<P>, a: nat, b: nat, p: P)
    requires GroupLaws(c) && ScalarLaws(c) && InSubgroup(c, p)
    requires c.reduce(a) == c.reduce(b)
    ensures Mul(c, a, p) == Mul(c, b, p)
  {
    MulReduce(c, a, p);
    MulReduce(c, b, p);
  }

  // ----- scalars modulo the order

  lemma Reduce<P(!new)>(c: Curve<P>, z: int)
    requires ScalarLaws(c)
    ensures c.reduce(z) == z % c.order
  {
    assert UseInt(z);
  }

  lemma ReduceRange<P(!new)>(c: Curve<P>, z: int)
    requires ScalarLaws(c)
    ensures c.reduce(z) < c.order
    ensures 0 <= z < c.order ==> c.reduce(z) == z
  {
    Reduce(c, z);
    if 0 <= z < c.order { DivModUnique(z, 0, c.order); }
  }

  lemma SameResidue<P(!new)>(c: Curve<P>, y: int, z: int, k: int)
    requires ScalarLaws(c)
    requires y == z + k * c.order
    ensures c.reduce(y) == c.reduce(z)
  {
    Reduce(c, y);
    Reduce(c, z);
    ModShift(z, k, c.order);
  }

  /** Reducing an intermediate result changes nothing. */
  lemma ReduceStep<P(!new)>(c: Curve<P>, y: int, z: int)
    requires ScalarLaws(c)
    ensures c.reduce(c.reduce(y) + z) == c.reduce(y + z)
    ensures c.reduce(z - c.reduce(y)) == c.reduce(z - y)
  {
    Reduce(c, y);
    var q := y / c.order;
    SameResidue(c, y + z, y % c.order + z, q);
    SameResidue(c, z - y % c.order, z - y, q);
  }

  /** Bezout's identity. */
  lemma {:induction false} Bezout(a: nat, b: nat) returns (g: nat, x: int, y: int)
    requires a > 0
    ensures g > 0 && x * a + y * b == g
    ensures a % g == 0 && b % g == 0
    decreases b
  {
    if b == 0 {
      g, x, y := a, 1, 0;
    } else {
      var g', x', y' := Bezout(b, a % b);
      g, x, y := g', y', x' - y' * (a / b);
      DivisorOfSum(a, b, g);
      var q := a / b;
      assert a % b == a - q * b;
      calc {
        x * a + y * b;
        y' * a + (x' - y' * q) * b;
        { Distribute(x', y' * q, b); assert y' * q * b == y' * (q * b); }
        y' * a + x' * b - y' * (q * b);
        { assert y' * a - y' * (q * b) == y' * (a - q * b); }
        x' * b + y' * (a - q * b);
        g;
      }
    }
  }

  lemma DivisorOfSum(a: nat, b: nat, g: nat)
    requires b > 0 && g > 0 && b % g == 0 && (a % b) % g == 0
    ensures a % g == 0
  {
    var q, m, n := a / b, b / g, (a % b) / g;
    assert a == q * b + a % b;
    assert a == (q * m + n) * g by {
      assert b == m * g && a % b == n * g;
      assert q * (m * g) == (q * m) * g;
    }
    DivModUnique(0, q * m + n, g);
  }

  /** Every non-zero scalar is invertible modulo the prime order. */
  lemma Inverse(d: nat, l: nat) returns (u: nat)
    requires Prime(l) && 0 < d < l
    ensures (u * d) % l == 1
  {
    var g, x, y := Bezout(d, l);
    DivisorBound(d, g);
    assert g == 1 by { assert Divides(g, l); }
    var t: nat := if x >= 0 then 0 else -x;
    u := NonNegative(x, t, l);
    ShiftedInverse(x, y, t, d, l);
    DivModUnique(1, t * d - y, l);
  }

  lemma ShiftedInverse(x: int, y: int, t: int, d: int, l: int)
    requires x * d + y * l == 1
    ensures (x + t * l) * d == 1 + (t * d - y) * l
  {
    Distribute(x, t * l, d);
    Distribute(t * d, y, l);
    assert (t * l) * d == (t * d) * l;
  }

  lemma NonNegative(x: int, t: nat, l: nat) returns (u: nat)
    requires x + t >= 0 && l >= 1
    ensures u == x + t * l
  {
    assert t * l >= t;
    u := x + t * l;
  }
}

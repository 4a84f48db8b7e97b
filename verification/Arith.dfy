/** The few facts about products and remainders that the other modules share. */
module Arith {

  /** A non-zero multiple of l is at least l away from zero. */
  lemma MultipleBound(k: int, l: int)
    requires l > 0
    ensures k >= 1 ==> k * l >= l
    ensures k <= -1 ==> k * l <= -l
  {}

  lemma Distribute(x: int, y: int, z: int)
    ensures (x - y) * z == x * z - y * z
    ensures (x + y) * z == x * z + y * z
  {}

  /** Quotient and remainder are determined by r + k * l with 0 <= r < l. */
  lemma DivModUnique(r: int, k: int, l: int)
    requires 0 <= r < l
    ensures (r + k * l) % l == r
    ensures (r + k * l) / l == k
  {
    var n := r + k * l;
    Distribute(k, n / l, l);
    MultipleBound(k - n / l, l);
  }

  lemma ModShift(z: int, k: int, l: int)
    requires l > 0
    ensures (z + k * l) % l == z % l
  {
    Distribute(z / l, k, l);
    DivModUnique(z % l, z / l + k, l);
  }

  /** A divisor of a positive number is at most that number. */
  lemma DivisorBound(d: int, g: int)
    requires d > 0 && g > 0 && d % g == 0
    ensures g <= d
  {
    MultipleBound(d / g, g);
  }

  function Pow2(k: nat): (p: nat)
    ensures p > 0
  {
    if k == 0 then 1 else 2 * Pow2(k - 1)
  }

  lemma {:induction false} Pow2Add(a: nat, b: nat)
    ensures Pow2(a + b) == Pow2(a) * Pow2(b)
  {
    if a > 0 { Pow2Add(a - 1, b); }
  }

  lemma {:induction false} Pow2Monotone(a: nat, b: nat)
    requires a <= b
    ensures Pow2(a) <= Pow2(b)
  {
    if a < b { Pow2Monotone(a, b - 1); }
  }

  lemma Scale(x: int, y: int, z: nat)
    requires x <= y
    ensures x * z <= y * z
  {
    Distribute(y, x, z);
  }

  lemma DivModSum(v: nat, base: nat)
    requires base > 0
    ensures v / base * base + v % base == v
  {}

  lemma QuotientBound(v: nat, base: nat, p: nat)
    requires base > 0 && v < p * base
    ensures v / base < p
  {
    if v / base >= p {
      Scale(p, v / base, base);
    }
  }

  lemma AppendBound(x: int, d: int, p: int, base: nat)
    requires x < p && d < base
    ensures x * base + d < p * base
  {
    Scale(x + 1, p, base);
  }

  /** Bit by bit, the lowest n bits. */
  function XorBits(a: nat, b: nat, n: nat): (x: nat)
    ensures x < Pow2(n)
  {
    if n == 0 then 0 else (a + b) % 2 + 2 * XorBits(a / 2, b / 2, n - 1)
  }

  lemma {:induction false} XorZero(a: nat, n: nat)
    requires a < Pow2(n)
    ensures XorBits(a, 0, n) == a
  {
    if n > 0 {
      XorZero(a / 2, n - 1);
    }
  }

  lemma {:induction false} XorCommutes(a: nat, b: nat, n: nat)
    ensures XorBits(a, b, n) == XorBits(b, a, n)
  {
    if n > 0 {
      XorCommutes(a / 2, b / 2, n - 1);
    }
  }

  // ----- bits

  function Bit(a: nat, i: nat): nat {
    a / Pow2(i) % 2
  }

  lemma BitStep(a: nat, i: nat)
    ensures Bit(a, 0) == a % 2
    ensures Bit(a, i + 1) == Bit(a / 2, i)
  {
    DivTwice(a, Pow2(i));
  }

  lemma DivTwice(a: nat, p: nat)
    requires p > 0
    ensures a / (2 * p) == a / 2 / p
  {
    var h := a / 2;
    var q, r := h / p, h % p;
    assert a == 2 * (q * p + r) + a % 2;
    assert 2 * (q * p) == q * (2 * p);
    DivModUnique(2 * r + a % 2, q, 2 * p);
  }

  /** The bits of a number put together from lo, below place q, and hi, from there on. */
  lemma {:induction false} BitOfSplit(lo: nat, hi: nat, q: nat, i: nat)
    requires lo < Pow2(q)
    ensures Bit(lo + hi * Pow2(q), i) == if i < q then Bit(lo, i) else Bit(hi, i - q)
    decreases q
  {
    hide Bit;
    if q > 0 {
      var n := lo + hi * Pow2(q);
      HalveSplit(lo, hi, Pow2(q - 1));
      if i == 0 {
        BitStep(n, 0);
        BitStep(lo, 0);
      } else {
        BitStep(n, i - 1);
        BitStep(lo, i - 1);
        BitOfSplit(lo / 2, hi, q - 1, i - 1);
      }
    }
  }

  lemma HalveSplit(lo: nat, hi: nat, p: nat)
    ensures (lo + hi * (2 * p)) / 2 == lo / 2 + hi * p
    ensures (lo + hi * (2 * p)) % 2 == lo % 2
  {
    assert hi * (2 * p) == 2 * (hi * p);
  }

  /** Numbers with the same bits are the same. */
  lemma {:induction false} SameBits(a: nat, b: nat, n: nat)
    requires a < Pow2(n) && b < Pow2(n) && forall i :: 0 <= i < n ==> Bit(a, i) == Bit(b, i)
    ensures a == b
  {
    if n > 0 {
      BitStep(a, 0);
      BitStep(b, 0);
      assert Bit(a, 0) == Bit(b, 0);
      forall i | 0 <= i < n - 1
        ensures Bit(a / 2, i) == Bit(b / 2, i)
      {
        BitStep(a, i);
        BitStep(b, i);
        assert Bit(a, i + 1) == Bit(b, i + 1);
      }
      SameBits(a / 2, b / 2, n - 1);
    }
  }

  /** Exclusive or, bit by bit. */
  lemma {:induction false} XorBit(a: nat, b: nat, n: nat, i: nat)
    requires i < n
    ensures Bit(XorBits(a, b, n), i) == (Bit(a, i) + Bit(b, i)) % 2
    decreases n
  {
    hide Bit;
    var x := XorBits(a, b, n);
    if i == 0 {
      BitStep(a, 0);
      BitStep(b, 0);
      BitStep(x, 0);
    } else {
      BitStep(a, i - 1);
      BitStep(b, i - 1);
      BitStep(x, i - 1);
      XorBit(a / 2, b / 2, n - 1, i - 1);
    }
  }

  lemma XorTwice(a: nat, b: nat, n: nat)
    requires a < Pow2(n)
    ensures XorBits(XorBits(a, b, n), b, n) == a
  {
    hide Bit, XorBits, Pow2;
    var x := XorBits(a, b, n);
    forall i | 0 <= i < n
      ensures Bit(XorBits(x, b, n), i) == Bit(a, i)
    {
      XorBit(x, b, n, i);
      XorBit(a, b, n, i);
      BitRange(a, i);
      BitRange(b, i);
    }
    SameBits(XorBits(x, b, n), a, n);
  }

  lemma BitRange(a: nat, i: nat)
    ensures 0 <= Bit(a, i) <= 1
  {}
}

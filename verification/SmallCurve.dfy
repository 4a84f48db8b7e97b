/** The integers modulo 6 with base point 2: the smallest group that meets every law assumed of
    the curve and has points outside the subgroup of the base point. */
module SmallCurve {
  import opened CurveGroup
  import opened Wrappers

  type Six = x: nat | x < 6

  function Encode(p: Six): Bytes {
    [p] + seq(31, _ => 0)
  }

  function Decode(m: Bytes): Option<Six> {
    if |m| == 32 && m[0] < 6 then Some(m[0]) else None
  }

  function Sum(p: Six, q: Six): Six { if p + q < 6 then p + q else p + q - 6 }

  function Negated(p: Six): Six { if p == 0 then 0 else 6 - p }

  function Multiple(n: nat, p: Six): Six { n * p % 6 }

  function SmallCurve(): Curve<Six> {
    Curve(Sum, Negated, 0, Multiple, 2, 3, (z: int) => z % 3, Encode, Decode, _ => 0, _ => 2)
  }

  lemma MultipleStep(n: nat, p: Six)
    requires n > 0
    ensures Multiple(n, p) == Sum(p, Multiple(n - 1, p))
  {
    Wrap((n - 1) * p, p);
    assert n * p == p + (n - 1) * p;
  }

  lemma Wrap(x: nat, p: Six)
    ensures (p + x) % 6 == Sum(p, x % 6)
  {
  }

  lemma SumLaws(p: Six, q: Six, r: Six)
    ensures Sum(Sum(p, q), r) == Sum(p, Sum(q, r))
    ensures Sum(p, 0) == p == Sum(0, p)
    ensures Sum(p, Negated(p)) == 0 == Sum(Negated(p), p)
  {}

  lemma SmallGroupLaws()
    ensures GroupLaws(SmallCurve())
  {
    hide Sum, Negated, Multiple;
    var c := SmallCurve();
    forall p: Six, q: Six, r: Six
      ensures c.add(c.add(p, q), r) == c.add(p, c.add(q, r))
    {
      SumLaws(p, q, r);
    }
    forall p: Six
      ensures c.add(p, c.zero) == p == c.add(c.zero, p)
      ensures c.add(p, c.neg(p)) == c.zero == c.add(c.neg(p), p)
      ensures c.mul(0, p) == c.zero
    {
      SumLaws(p, p, p);
      NoMultiple(p);
    }
    forall n: nat, p: Six | n > 0
      ensures c.mul(n, p) == c.add(p, c.mul(n - 1, p))
    {
      MultipleStep(n, p);
    }
  }

  lemma NoMultiple(p: Six)
    ensures Multiple(0, p) == 0
  {}

  lemma EncodeDecodes(p: Six)
    ensures Decode(Encode(p)) == Some(p) && |Encode(p)| == 32
  {}

  /** The laws can be met, by a curve with torsion. */
  lemma LawsCanBeMet()
    ensures Lawful(SmallCurve()) && SmallCurve().order > 2 && !InSubgroup(SmallCurve(), 1)
  {
    var c := SmallCurve();
    SmallGroupLaws();
    assert ScalarLaws(c) by {
      assert !Divides(2, 3);
    }
    forall p: Six
      ensures c.decode(c.encode(p)) == Some(p) && |c.encode(p)| == 32
    {
      EncodeDecodes(p);
    }
    forall k: nat | 0 < k < c.order
      ensures Mul(c, k, c.base) != c.zero
    {
      assert k == 1 || k == 2;
    }
  }
}

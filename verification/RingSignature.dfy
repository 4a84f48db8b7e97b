/** CryptoNote ring signatures: generation, verification and the two facts that make
    them a signature scheme. Random scalars are parameters of the generator. */
module RingSignature {
  import opened CurveGroup
  import opened Wrappers

  datatype Signature = Signature(c: nat, r: nat)

  /** The two commitments of one ring member: (c*P + r*G, r*H(P) + c*I). */
  function Commitment<P(!new)>(cv: Curve<P>, image: P, pub: P, key: Bytes, s: Signature): (P, P) {
    (cv.add(Mul(cv, s.c, pub), Mul(cv, s.r, cv.base)),
     cv.add(Mul(cv, s.r, cv.hashToPoint(key)), Mul(cv, s.c, image)))
  }

  function EncodePair<P(!new)>(cv: Curve<P>, ab: (P, P)): (Bytes, Bytes) {
    (cv.encode(ab.0), cv.encode(ab.1))
  }

  predicate Decodes<P(!new)>(cv: Curve<P>, image: Bytes, pubs: seq<Bytes>) {
    cv.decode(image).Some? && forall i :: 0 <= i < |pubs| ==> cv.decode(pubs[i]).Some?
  }

  predicate Reduced<P(!new)>(cv: Curve<P>, s: Signature) {
    s.c < cv.order && s.r < cv.order
  }

  /** The commitments that the verifier recomputes from a signature. */
  function Commitments<P(!new)>(cv: Curve<P>, image: Bytes, pubs: seq<Bytes>, sigs: seq<Signature>): seq<(P, P)>
    requires |sigs| == |pubs| && Decodes(cv, image, pubs)
  {
    seq(|pubs|, i requires 0 <= i < |pubs| =>
      Commitment(cv, cv.decode(image).value, cv.decode(pubs[i]).value, pubs[i], sigs[i]))
  }

  /** The hashed buffer: the message followed by the encoded commitment pairs. */
  function Flatten(prefix: Bytes, ab: seq<(Bytes, Bytes)>): Bytes {
    if ab == [] then prefix
    else var last := ab[|ab| - 1]; Flatten(prefix, ab[..|ab| - 1]) + last.0 + last.1
  }

  function EncodeAll<P(!new)>(cv: Curve<P>, abs: seq<(P, P)>): seq<(Bytes, Bytes)> {
    seq(|abs|, i requires 0 <= i < |abs| => EncodePair(cv, abs[i]))
  }

  /** Sum of the first n challenges. */
  function ChallengeSum(sigs: seq<Signature>, n: nat): nat
    requires n <= |sigs|
  {
    if n == 0 then 0 else ChallengeSum(sigs, n - 1) + sigs[n - 1].c
  }

  /** The verifier's equations with the hash challenge as an input. */
  ghost predicate SatisfiesChallenge<P(!new)>(
    cv: Curve<P>, image: Bytes, pubs: seq<Bytes>, sigs: seq<Signature>, abs: seq<(P, P)>, h: nat)
  {
    && |sigs| == |pubs| && Decodes(cv, image, pubs)
    && (forall i :: 0 <= i < |sigs| ==> Reduced(cv, sigs[i]))
    && Commitments(cv, image, pubs, sigs) == abs
    && cv.reduce(ChallengeSum(sigs, |sigs|)) == h
  }

  /** What an acceptable ring signature is. */
  ghost predicate RingAccepts<P(!new)>(
    cv: Curve<P>, prefix: Bytes, image: Bytes, pubs: seq<Bytes>, sigs: seq<Signature>)
    requires |sigs| == |pubs|
  {
    && Decodes(cv, image, pubs)
    && var abs := Commitments(cv, image, pubs, sigs);
       SatisfiesChallenge(cv, image, pubs, sigs, abs, cv.hashToScalar(Flatten(prefix, EncodeAll(cv, abs))))
  }

  /** `ab` holds the encoded commitments of member i. */
  ghost predicate Recomputed<P(!new)>(
    cv: Curve<P>, image: P, key: Bytes, s: Signature, ab: (Bytes, Bytes))
  {
    cv.decode(key).Some? && ab == EncodePair(cv, Commitment(cv, image, cv.decode(key).value, key, s))
  }

  /** What is left to check once the commitments have been recomputed. */
  lemma {:induction false} AcceptsIffSumIsHash<P(!new)>(
    cv: Curve<P>, prefix: Bytes, image: Bytes, pubs: seq<Bytes>, sigs: seq<Signature>, ab: seq<(Bytes, Bytes)>)
    requires ScalarLaws(cv)
    requires |sigs| == |pubs| == |ab| && Decodes(cv, image, pubs)
    requires forall i :: 0 <= i < |sigs| ==> Reduced(cv, sigs[i])
    requires forall i :: 0 <= i < |sigs| ==> Recomputed(cv, cv.decode(image).value, pubs[i], sigs[i], ab[i])
    ensures RingAccepts(cv, prefix, image, pubs, sigs) <==>
            cv.reduce(ChallengeSum(sigs, |sigs|)) == cv.hashToScalar(Flatten(prefix, ab))
  {
    assert ab == EncodeAll(cv, Commitments(cv, image, pubs, sigs));
  }

  // ----- what is hashed

  /** The places of member i in the hashed buffer. */
  function FirstOf(buf: Bytes, i: nat): Bytes
    requires 96 + 64 * i <= |buf|
  {
    buf[32 + 64 * i..64 + 64 * i]
  }

  function SecondOf(buf: Bytes, i: nat): Bytes
    requires 96 + 64 * i <= |buf|
  {
    buf[64 + 64 * i..96 + 64 * i]
  }

  predicate Parts32(ab: seq<(Bytes, Bytes)>) {
    forall i :: 0 <= i < |ab| ==> |ab[i].0| == 32 && |ab[i].1| == 32
  }

  /** The message in the first 32 bytes, then 64 bytes for each member. */
  predicate LaidOut(buf: Bytes, prefix: Bytes, ab: seq<(Bytes, Bytes)>) {
    && |buf| == 32 + 64 * |ab| && buf[..32] == prefix
    && forall i :: 0 <= i < |ab| ==> FirstOf(buf, i) == ab[i].0 && SecondOf(buf, i) == ab[i].1
  }

  lemma {:induction false} FlattenIsLaidOut(prefix: Bytes, ab: seq<(Bytes, Bytes)>)
    requires |prefix| == 32 && Parts32(ab)
    ensures LaidOut(Flatten(prefix, ab), prefix, ab)
  {
    if ab != [] {
      var n := |ab| - 1;
      var front, last := ab[..n], ab[n];
      FlattenIsLaidOut(prefix, front);
      var buf, buf' := Flatten(prefix, front), Flatten(prefix, ab);
      assert buf' == buf + last.0 + last.1;
      assert buf'[..32] == buf[..32];
      forall i | 0 <= i < |ab|
        ensures FirstOf(buf', i) == ab[i].0 && SecondOf(buf', i) == ab[i].1
      {
        if i < n {
          assert FirstOf(buf', i) == FirstOf(buf, i) && SecondOf(buf', i) == SecondOf(buf, i);
          assert ab[i] == front[i];
        }
      }
    }
  }

  /** Only one buffer has a layout. */
  lemma {:induction false} LayoutDetermines(buf: Bytes, prefix: Bytes, ab: seq<(Bytes, Bytes)>)
    requires |prefix| == 32 && Parts32(ab) && LaidOut(buf, prefix, ab)
    ensures buf == Flatten(prefix, ab)
  {
    if ab == [] {
      assert buf == buf[..32];
    } else {
      var n := |ab| - 1;
      var m := 32 + 64 * n;
      var front, buf' := ab[..n], buf[..m];
      assert buf'[..32] == buf[..32];
      forall i | 0 <= i < n
        ensures FirstOf(buf', i) == front[i].0 && SecondOf(buf', i) == front[i].1
      {
        assert FirstOf(buf', i) == FirstOf(buf, i) && SecondOf(buf', i) == SecondOf(buf, i);
      }
      LayoutDetermines(buf', prefix, front);
      assert FirstOf(buf, n) == ab[n].0 && SecondOf(buf, n) == ab[n].1;
      assert buf == buf' + FirstOf(buf, n) + SecondOf(buf, n);
    }
  }

  /** Different messages or different commitments are hashed differently. */
  lemma FlattenInjective(prefix: Bytes, ab: seq<(Bytes, Bytes)>, prefix': Bytes, ab': seq<(Bytes, Bytes)>)
    requires |prefix| == |prefix'| == 32 && Parts32(ab) && Parts32(ab') && Flatten(prefix, ab) == Flatten(prefix', ab')
    ensures prefix == prefix' && ab == ab'
  {
    hide Flatten;
    FlattenIsLaidOut(prefix, ab);
    FlattenIsLaidOut(prefix', ab');
    var buf := Flatten(prefix, ab);
    forall i | 0 <= i < |ab|
      ensures ab[i] == ab'[i]
    {
      assert FirstOf(buf, i) == ab[i].0 && SecondOf(buf, i) == ab[i].1;
      assert FirstOf(buf, i) == ab'[i].0 && SecondOf(buf, i) == ab'[i].1;
    }
  }

  /** The buffer of c*P + r*G and r*H(P) + c*I for each member, in order. */
  ghost predicate SignedBuffer<P(!new)>(
    cv: Curve<P>, prefix: Bytes, image: Bytes, pubs: seq<Bytes>, sigs: seq<Signature>, buf: Bytes)
    requires |sigs| == |pubs| && Decodes(cv, image, pubs)
  {
    && |buf| == 32 + 64 * |pubs| && buf[..32] == prefix
    && forall i :: 0 <= i < |pubs| ==>
         var (c, r, p) := (sigs[i].c, sigs[i].r, cv.decode(pubs[i]).value);
         && FirstOf(buf, i) == cv.encode(cv.add(cv.mul(c, p), cv.mul(r, cv.base)))
         && SecondOf(buf, i) == cv.encode(cv.add(cv.mul(r, cv.hashToPoint(pubs[i])), cv.mul(c, cv.decode(image).value)))
  }

  /** Acceptance spelled out: all keys decode, all scalars are below the order, and the challenges
      sum to the hash of the message and all recomputed commitments. */
  lemma RingAcceptsIff<P(!new)>(cv: Curve<P>, prefix: Bytes, image: Bytes, pubs: seq<Bytes>, sigs: seq<Signature>)
    requires Lawful(cv) && |prefix| == 32 && |sigs| == |pubs|
    ensures RingAccepts(cv, prefix, image, pubs, sigs) <==>
      && Decodes(cv, image, pubs)
      && (forall i :: 0 <= i < |sigs| ==> sigs[i].c < cv.order && sigs[i].r < cv.order)
      && exists buf :: SignedBuffer(cv, prefix, image, pubs, sigs, buf) && ChallengeSum(sigs, |sigs|) % cv.order == cv.hashToScalar(buf)
  {
    hide GroupLaws, Flatten, ChallengeSum;
    Reduce(cv, ChallengeSum(sigs, |sigs|));
    if Decodes(cv, image, pubs) {
      var ab := EncodeAll(cv, Commitments(cv, image, pubs, sigs));
      assert Parts32(ab);
      FlattenIsLaidOut(prefix, ab);
      assert SignedBuffer(cv, prefix, image, pubs, sigs, Flatten(prefix, ab));
      forall buf | SignedBuffer(cv, prefix, image, pubs, sigs, buf)
        ensures buf == Flatten(prefix, ab)
      {
        assert LaidOut(buf, prefix, ab);
        LayoutDetermines(buf, prefix, ab);
      }
    }
  }

  method CheckRingSignature<P(!new)>(
    cv: Curve<P>, prefix: Bytes, image: Bytes, pubs: seq<Bytes>, sig: seq<Signature>)
    returns (ok: bool)
    requires ScalarLaws(cv)
    requires |sig| == |pubs|
    ensures ok == RingAccepts(cv, prefix, image, pubs, sig)
  {
    hide Commitment, Flatten;
    if cv.decode(image).None? {
      return false;
    }
    var imagePoint := cv.decode(image).value;
    var sum := cv.reduce(0);
    var ab: seq<(Bytes, Bytes)> := [];
    for i := 0 to |pubs|
      invariant |ab| == i
      invariant forall j :: 0 <= j < i ==> Reduced(cv, sig[j])
      invariant forall j :: 0 <= j < i ==> Recomputed(cv, imagePoint, pubs[j], sig[j], ab[j])
      invariant sum == cv.reduce(ChallengeSum(sig, i))
    {
      if sig[i].c >= cv.order || sig[i].r >= cv.order {
        return false;
      }
      if cv.decode(pubs[i]).None? {
        return false;
      }
      ab := ab + [EncodePair(cv, Commitment(cv, imagePoint, cv.decode(pubs[i]).value, pubs[i], sig[i]))];
      ReduceStep(cv, ChallengeSum(sig, i), sig[i].c);
      sum := cv.reduce(sum + sig[i].c);
    }
    AcceptsIffSumIsHash(cv, prefix, image, pubs, sig, ab);
    var h := cv.hashToScalar(Flatten(prefix, ab));
    DifferenceIsZero(cv, h, ChallengeSum(sig, |sig|));
    ok := cv.reduce(h - sum) == 0;
  }

  lemma {:induction false} DifferenceIsZero<P(!new)>(cv: Curve<P>, h: nat, sum: nat)
    requires ScalarLaws(cv) && h < cv.order
    ensures cv.reduce(h - cv.reduce(sum)) == 0 <==> cv.reduce(sum) == h
  {
    var s := cv.reduce(sum);
    ReduceRange(cv, sum);
    if h < s {
      SameResidue(cv, h - s, h - s + cv.order, -1);
      ReduceRange(cv, h - s + cv.order);
    } else {
      ReduceRange(cv, h - s);
    }
  }

  /** The response (k - c*x) mod l turns the commitments into those of the nonce k. */
  lemma {:induction false} ResponseCancels<P(!new)>(cv: Curve<P>, q: P, x: nat, k: nat, s: Signature)
    requires GroupLaws(cv) && ScalarLaws(cv) && InSubgroup(cv, q)
    requires s.r == cv.reduce(k - s.c * x)
    ensures cv.add(Mul(cv, s.c, Mul(cv, x, q)), Mul(cv, s.r, q)) == Mul(cv, k, q)
    ensures cv.add(Mul(cv, s.r, q), Mul(cv, s.c, Mul(cv, x, q))) == Mul(cv, k, q)
  {
    var y := Product(s.c, x);
    ReduceStep(cv, k - y, y);
    MulMul(cv, s.c, x, q);
    MulAdd(cv, y, s.r, q);
    MulAdd(cv, s.r, y, q);
    MulCongruent(cv, s.r + y, k, q);
  }

  lemma {:induction false} SignerCommitment<P(!new)>(cv: Curve<P>, x: nat, k: nat, s: Signature, key: Bytes)
    requires Lawful(cv)
    requires s.r == cv.reduce(k - s.c * x)
    ensures Commitment(cv, Mul(cv, x, cv.hashToPoint(key)), Mul(cv, x, cv.base), key, s)
         == (Mul(cv, k, cv.base), Mul(cv, k, cv.hashToPoint(key)))
  {
    ResponseCancels(cv, cv.base, x, k, s);
    ResponseCancels(cv, cv.hashToPoint(key), x, k, s);
  }

  lemma {:induction false} Product(a: nat, b: nat) returns (y: nat)
    ensures y == a * b
  {
    y := a * b;
  }

  /** Changing one challenge changes the sum by as much. */
  lemma {:induction false} SumChangesBy(a: seq<Signature>, b: seq<Signature>, s: nat, n: nat)
    requires n <= |a| == |b|
    requires forall i :: 0 <= i < |a| && i != s ==> a[i].c == b[i].c
    ensures ChallengeSum(b, n) == ChallengeSum(a, n) + if s < n then b[s].c - a[s].c else 0
  {
    if n > 0 {
      SumChangesBy(a, b, s, n - 1);
    }
  }

  /** Signs with the member at `secIndex`. The two random scalars of each other member are
      in `random`; `k` is the signer's nonce. False models the two aborts on a key that
      does not decode. Whatever the ring, the signer and the randomness, what is written
      into `sig` is accepted by the verifier. */
  method GenerateRingSignature<P(!new)>(
    cv: Curve<P>, prefix: Bytes, image: Bytes, pubs: seq<Bytes>, sec: nat, secIndex: nat,
    k: nat, random: seq<Signature>, sig: array<Signature>)
    returns (ok: bool)
    requires Lawful(cv)
    requires secIndex < |pubs| == |random| == sig.Length
    requires sec < cv.order && k < cv.order
    requires forall i :: 0 <= i < |random| ==> Reduced(cv, random[i])
    requires pubs[secIndex] == cv.encode(Mul(cv, sec, cv.base))
    requires image == cv.encode(Mul(cv, sec, cv.hashToPoint(pubs[secIndex])))
    modifies sig
    ensures ok == Decodes(cv, image, pubs)
    ensures ok ==> RingAccepts(cv, prefix, image, pubs, sig[..])
    ensures ok ==> forall i :: 0 <= i < |pubs| && i != secIndex ==> sig[i] == random[i]
  {
    hide RingAccepts, Commitment, EncodePair, GroupLaws;
    if cv.decode(image).None? {
      return false;
    }
    ok := true;
    ghost var zeroed := random[secIndex := Signature(0, 0)];
    var sum, ab;
    ok, sum, ab := FillRing(cv, cv.decode(image).value, pubs, secIndex, k, random, sig);
    if ok {
      var h: int := cv.hashToScalar(Flatten(prefix, ab));
      var ch := cv.reduce(h - sum);
      sig[secIndex] := Signature(ch, cv.reduce(k - ch * sec));
      SignatureAccepted(cv, prefix, image, pubs, sec, secIndex, k, zeroed, sig[..], ab);
    }
  }

  /** The signer's loop over the ring. */
  method FillRing<P(!new)>(
    cv: Curve<P>, image: P, pubs: seq<Bytes>, secIndex: nat, k: nat, random: seq<Signature>, sig: array<Signature>)
    returns (ok: bool, sum: nat, ab: seq<(Bytes, Bytes)>)
    requires ScalarLaws(cv)
    requires secIndex < |pubs| == |random| == sig.Length
    modifies sig
    ensures ok == forall i :: 0 <= i < |pubs| && i != secIndex ==> cv.decode(pubs[i]).Some?
    ensures ok ==> |ab| == |pubs| && forall i :: 0 <= i < |pubs| && i != secIndex ==>
      sig[i] == random[i] && Recomputed(cv, image, pubs[i], random[i], ab[i])
    ensures ok ==>
      ab[secIndex] == EncodePair(cv, (Mul(cv, k, cv.base), Mul(cv, k, cv.hashToPoint(pubs[secIndex]))))
    ensures ok ==> sum == cv.reduce(ChallengeSum(random[secIndex := Signature(0, 0)], |random|))
  {
    hide Commitment, EncodePair;
    sum, ab := cv.reduce(0), [];
    ghost var zeroed := random[secIndex := Signature(0, 0)];
    for i := 0 to |pubs|
      invariant |ab| == i
      invariant forall j :: 0 <= j < i && j != secIndex ==>
        sig[j] == random[j] && Recomputed(cv, image, pubs[j], random[j], ab[j])
      invariant secIndex < i ==>
        ab[secIndex] == EncodePair(cv, (Mul(cv, k, cv.base), Mul(cv, k, cv.hashToPoint(pubs[secIndex]))))
      invariant sum == cv.reduce(ChallengeSum(zeroed, i))
    {
      if i == secIndex {
        ab := ab + [EncodePair(cv, (Mul(cv, k, cv.base), Mul(cv, k, cv.hashToPoint(pubs[i]))))];
      } else {
        sig[i] := random[i];
        if cv.decode(pubs[i]).None? {
          return false, sum, ab;
        }
        ab := ab + [EncodePair(cv, Commitment(cv, image, cv.decode(pubs[i]).value, pubs[i], sig[i]))];
        ReduceStep(cv, ChallengeSum(zeroed, i), zeroed[i].c);
        sum := cv.reduce(sum + sig[i].c);
      }
    }
    ok := true;
  }

  /** The signed ring, its buffer and its challenges satisfy the verifier. */
  lemma {:induction false} SignatureAccepted<P(!new)>(
    cv: Curve<P>, prefix: Bytes, image: Bytes, pubs: seq<Bytes>, sec: nat, secIndex: nat, k: nat,
    zeroed: seq<Signature>, sigs: seq<Signature>, ab: seq<(Bytes, Bytes)>)
    requires Lawful(cv)
    requires secIndex < |pubs| == |zeroed| == |sigs| == |ab|
    requires pubs[secIndex] == cv.encode(Mul(cv, sec, cv.base))
    requires image == cv.encode(Mul(cv, sec, cv.hashToPoint(pubs[secIndex])))
    requires zeroed[secIndex].c == 0
    requires forall i :: 0 <= i < |pubs| && i != secIndex ==>
      sigs[i] == zeroed[i] && Reduced(cv, sigs[i]) &&
      Recomputed(cv, cv.decode(image).value, pubs[i], sigs[i], ab[i])
    requires ab[secIndex] == EncodePair(cv, (Mul(cv, k, cv.base), Mul(cv, k, cv.hashToPoint(pubs[secIndex]))))
    requires sigs[secIndex].c
          == cv.reduce(cv.hashToScalar(Flatten(prefix, ab)) - cv.reduce(ChallengeSum(zeroed, |sigs|)))
    requires sigs[secIndex].r == cv.reduce(k - sigs[secIndex].c * sec)
    ensures RingAccepts(cv, prefix, image, pubs, sigs)
  {
    hide GroupLaws, ChallengeSum, Flatten, RingAccepts;
    var h := cv.hashToScalar(Flatten(prefix, ab));
    SignedSum(cv, zeroed, sigs, secIndex, h);
    SignerCommitment(cv, sec, k, sigs[secIndex], pubs[secIndex]);
    ReduceRange(cv, h - cv.reduce(ChallengeSum(zeroed, |sigs|)));
    ReduceRange(cv, k - sigs[secIndex].c * sec);
    AcceptsIffSumIsHash(cv, prefix, image, pubs, sigs, ab);
  }

  /** The signer's challenge completes the sum of the others to the hash. */
  lemma {:induction false} SignedSum<P(!new)>(cv: Curve<P>, zeroed: seq<Signature>, sigs: seq<Signature>, s: nat, h: nat)
    requires ScalarLaws(cv) && h < cv.order
    requires s < |zeroed| == |sigs| && zeroed[s].c == 0
    requires forall i :: 0 <= i < |sigs| && i != s ==> sigs[i] == zeroed[i]
    requires sigs[s].c == cv.reduce(h - cv.reduce(ChallengeSum(zeroed, |sigs|)))
    ensures cv.reduce(ChallengeSum(sigs, |sigs|)) == h
  {
    var total := ChallengeSum(zeroed, |sigs|);
    SumChangesBy(zeroed, sigs, s, |sigs|);
    ReduceStep(cv, total, h);
    ReduceStep(cv, h - total, total);
    ReduceRange(cv, h);
  }

  /** Two different challenges answered for the same commitments: some member answered
      them with different scalars, and that gives two relations on its key and the image. */
  lemma {:induction false} ChallengesDiffer(a: seq<Signature>, b: seq<Signature>) returns (j: nat)
    requires |a| == |b| && ChallengeSum(a, |a|) != ChallengeSum(b, |b|)
    ensures j < |a| && a[j].c != b[j].c
  {
    if forall i :: 0 <= i < |a| ==> a[i].c == b[i].c {
      SumChangesBy(a, b, |a|, |a|);
      assert false;
    }
    j :| 0 <= j < |a| && a[j].c != b[j].c;
  }

  /** a*p + r*q = b*p + s*q gives (a - b)*p = (s - r)*q. */
  lemma {:induction false} LinearRelation<P(!new)>(cv: Curve<P>, p: P, q: P, a: nat, b: nat, r: nat, s: nat)
    requires GroupLaws(cv) && a > b
    requires cv.add(Mul(cv, a, p), Mul(cv, r, q)) == cv.add(Mul(cv, b, p), Mul(cv, s, q))
    ensures Mul(cv, a - b, p) == cv.add(Mul(cv, s, q), cv.neg(Mul(cv, r, q)))
  {
    MulAdd(cv, b, a - b, p);
    Assoc(cv, Mul(cv, b, p), Mul(cv, a - b, p), Mul(cv, r, q));
    CancelLeft(cv, Mul(cv, b, p), cv.add(Mul(cv, a - b, p), Mul(cv, r, q)), Mul(cv, s, q));
    Assoc(cv, Mul(cv, a - b, p), Mul(cv, r, q), cv.neg(Mul(cv, r, q)));
    Zero(cv, Mul(cv, r, q));
    Zero(cv, Mul(cv, a - b, p));
  }

  /** r*q + a*p = s*q + b*p gives (a - b)*p = (s - r)*q. */
  lemma {:induction false} LinearRelationFlipped<P(!new)>(cv: Curve<P>, p: P, q: P, a: nat, b: nat, r: nat, s: nat)
    requires GroupLaws(cv) && a > b
    requires cv.add(Mul(cv, r, q), Mul(cv, a, p)) == cv.add(Mul(cv, s, q), Mul(cv, b, p))
    ensures Mul(cv, a - b, p) == Times(cv, s - r, q)
  {
    MulAdd(cv, a - b, b, p);
    Assoc(cv, Mul(cv, r, q), Mul(cv, a - b, p), Mul(cv, b, p));
    CancelRight(cv, Mul(cv, b, p), cv.add(Mul(cv, r, q), Mul(cv, a - b, p)), Mul(cv, s, q));
    NegThenAdd(cv, Mul(cv, r, q), Mul(cv, a - b, p));
    MulSub(cv, s, r, q);
  }

  lemma {:induction false} MultiplesCommute<P(!new)>(cv: Curve<P>, a: nat, b: nat, p: P)
    requires GroupLaws(cv)
    ensures cv.add(Mul(cv, a, p), cv.neg(Mul(cv, b, p))) == Times(cv, a - b, p)
  {
    MulSub(cv, a, b, p);
    // both are the x with x + b*p = a*p
    var x := cv.add(cv.neg(Mul(cv, b, p)), Mul(cv, a, p));
    var y := cv.add(Mul(cv, a, p), cv.neg(Mul(cv, b, p)));
    MulAdd(cv, a, b, p);
    MulAdd(cv, b, a, p);
    Assoc(cv, cv.neg(Mul(cv, b, p)), Mul(cv, a, p), Mul(cv, b, p));
    NegThenAdd(cv, Mul(cv, b, p), Mul(cv, a, p));
    Assoc(cv, Mul(cv, a, p), cv.neg(Mul(cv, b, p)), Mul(cv, b, p));
    Zero(cv, Mul(cv, b, p));
    Zero(cv, Mul(cv, a, p));
    CancelRight(cv, Mul(cv, b, p), x, y);
  }

  /** Special soundness, on any group: two answers s, t to different challenges with the
      same commitments single out a member j of the ring whose key P and the image I satisfy
      (c_j - c'_j)*P = (r'_j - r_j)*G and (c_j - c'_j)*I = (r'_j - r_j)*H(P). */
  lemma {:induction false} SpecialSoundness<P(!new)>(
    cv: Curve<P>, image: Bytes, pubs: seq<Bytes>, s: seq<Signature>, t: seq<Signature>,
    abs: seq<(P, P)>, h: nat, h': nat) returns (j: nat)
    requires Lawful(cv)
    requires SatisfiesChallenge(cv, image, pubs, s, abs, h)
    requires SatisfiesChallenge(cv, image, pubs, t, abs, h')
    requires h != h'
    ensures j < |pubs| && s[j].c != t[j].c
    ensures var d := s[j].c - t[j].c; var e := t[j].r - s[j].r;
            Related(cv, image, pubs[j], d, e) || Related(cv, image, pubs[j], -d, -e)
  {
    j := ChallengesDiffer(s, t);
    assert Commitments(cv, image, pubs, s)[j] == Commitments(cv, image, pubs, t)[j];
    if s[j].c > t[j].c {
      MemberRelated(cv, image, pubs[j], s[j], t[j]);
    } else {
      MemberRelated(cv, image, pubs[j], t[j], s[j]);
    }
  }

  /** d*P = e*G and d*I = e*H(P), for a positive d. */
  ghost predicate Related<P(!new)>(cv: Curve<P>, image: Bytes, key: Bytes, d: int, e: int) {
    && d > 0 && cv.decode(image).Some? && cv.decode(key).Some?
    && Times(cv, d, cv.decode(key).value) == Times(cv, e, cv.base)
    && Times(cv, d, cv.decode(image).value) == Times(cv, e, cv.hashToPoint(key))
  }

  lemma {:induction false} MemberRelated<P(!new)>(cv: Curve<P>, image: Bytes, key: Bytes, s: Signature, t: Signature)
    requires GroupLaws(cv) && cv.decode(image).Some? && cv.decode(key).Some?
    requires s.c > t.c
    requires Commitment(cv, cv.decode(image).value, cv.decode(key).value, key, s)
          == Commitment(cv, cv.decode(image).value, cv.decode(key).value, key, t)
    ensures Related(cv, image, key, s.c - t.c, t.r - s.r)
  {
    LinearRelation(cv, cv.decode(key).value, cv.base, s.c, t.c, s.r, t.r);
    MultiplesCommute(cv, t.r, s.r, cv.base);
    LinearRelationFlipped(cv, cv.decode(image).value, cv.hashToPoint(key), s.c, t.c, s.r, t.r);
  }

  /** Key extraction: when the member's key and the image lie in the prime-order subgroup,
      the relation yields the secret key x, and the image is the key image of that member. */
  lemma {:induction false} ExtractKey<P(!new)>(cv: Curve<P>, image: Bytes, key: Bytes, d: nat, e: int) returns (x: nat)
    requires Lawful(cv) && Related(cv, image, key, d, e) && d < cv.order
    requires InSubgroup(cv, cv.decode(key).value) && InSubgroup(cv, cv.decode(image).value)
    ensures x < cv.order
    ensures cv.decode(key).value == Mul(cv, x, cv.base)
    ensures cv.decode(image).value == Mul(cv, x, cv.hashToPoint(key))
  {
    var u := Inverse(d, cv.order);
    Reduce(cv, u * d);
    x := cv.reduce(u * cv.reduce(e));
    ReduceRange(cv, u * cv.reduce(e));
    assert InSubgroup(cv, cv.hashToPoint(key));
    DivideBy(cv, cv.decode(key).value, cv.base, d, e, u);
    DivideBy(cv, cv.decode(image).value, cv.hashToPoint(key), d, e, u);
  }

  lemma {:induction false} DivideBy<P(!new)>(cv: Curve<P>, p: P, q: P, d: nat, e: int, u: nat)
    requires GroupLaws(cv) && ScalarLaws(cv) && InSubgroup(cv, p) && InSubgroup(cv, q)
    requires Mul(cv, d, p) == Times(cv, e, q) && cv.reduce(u * d) == 1
    ensures p == Mul(cv, cv.reduce(u * cv.reduce(e)), q)
  {
    var e' := cv.reduce(e);
    TimesReduce(cv, e, q);
    var ud := Product(u, d);
    var ue := Product(u, e');
    MulMul(cv, u, d, p);
    MulMul(cv, u, e', q);
    MulReduce(cv, ud, p);
    MulReduce(cv, ue, q);
    MulStep(cv, 0, p);
    Zero(cv, p);
  }

  lemma {:induction false} TimesReduce<P(!new)>(cv: Curve<P>, e: int, q: P)
    requires GroupLaws(cv) && ScalarLaws(cv) && InSubgroup(cv, q)
    ensures Times(cv, e, q) == Mul(cv, cv.reduce(e), q)
  {
    if e >= 0 {
      MulReduce(cv, e, q);
    } else {
      var k: nat := -e;
      MulAdd(cv, k, cv.reduce(e), q);
      ReduceStep(cv, e, k);
      MulCongruent(cv, k + cv.reduce(e), 0, q);
      MulStep(cv, 0, q);
      NegUnique(cv, Mul(cv, k, q), Mul(cv, cv.reduce(e), q));
    }
  }

  /** Whoever can answer two challenges for one commitment with a ring and an image in the
      prime-order subgroup knows the secret key of a member whose key image it is. */
  lemma {:induction false} TwoAnswersRevealSigner<P(!new)>(
    cv: Curve<P>, image: Bytes, pubs: seq<Bytes>, s: seq<Signature>, t: seq<Signature>,
    abs: seq<(P, P)>, h: nat, h': nat) returns (j: nat, x: nat)
    requires Lawful(cv)
    requires SatisfiesChallenge(cv, image, pubs, s, abs, h)
    requires SatisfiesChallenge(cv, image, pubs, t, abs, h')
    requires h != h'
    requires InSubgroup(cv, cv.decode(image).value)
    requires forall i :: 0 <= i < |pubs| ==> InSubgroup(cv, cv.decode(pubs[i]).value)
    ensures j < |pubs| && x < cv.order
    ensures cv.decode(pubs[j]).value == Mul(cv, x, cv.base)
    ensures cv.decode(image).value == Mul(cv, x, cv.hashToPoint(pubs[j]))
  {
    j := SpecialSoundness(cv, image, pubs, s, t, abs, h, h');
    assert Reduced(cv, s[j]) && Reduced(cv, t[j]);
    var d, e := s[j].c - t[j].c, t[j].r - s[j].r;
    if d > 0 {
      x := ExtractKey(cv, image, pubs[j], d, e);
    } else {
      x := ExtractKey(cv, image, pubs[j], -d, -e);
    }
  }
}

/** Schnorr signatures, transaction proofs and one-time key derivation. Every function
    here hashes the byte layout that the source hashes. */
module TxProof {
  import opened CurveGroup
  import opened RingSignature
  import opened Wrappers
  import Varint

  // ----- Schnorr signatures

  /** The signature that one nonce gives. */
  function Attempt<P(!new)>(cv: Curve<P>, prefix: Bytes, pub: Bytes, sec: nat, k: nat): Signature {
    var c := cv.hashToScalar(prefix + pub + cv.encode(Mul(cv, k, cv.base)));
    Signature(c, cv.reduce(k - c * sec))
  }

  /** Nonces that generation does not discard. */
  predicate Usable<P(!new)>(cv: Curve<P>, prefix: Bytes, pub: Bytes, sec: nat, k: nat) {
    var s := Attempt(cv, prefix, pub, sec, k);
    s.c != 0 && s.r != 0
  }

  predicate CheckSignature<P(!new)>(cv: Curve<P>, prefix: Bytes, pub: Bytes, s: Signature) {
    && cv.decode(pub).Some?
    && s.c < cv.order && s.r < cv.order && s.c != 0
    && var comm := cv.encode(cv.add(Mul(cv, s.c, cv.decode(pub).value), Mul(cv, s.r, cv.base)));
       && comm != cv.encode(cv.zero)
       && cv.reduce(cv.hashToScalar(prefix + pub + comm) - s.c as int) == 0
  }

  /** Tries the nonces in turn. The result is the signature of the first usable one, there is
      none only when no nonce is usable, and the verifier accepts it. */
  method GenerateSignature<P(!new)>(cv: Curve<P>, prefix: Bytes, pub: Bytes, sec: nat, nonces: seq<nat>)
    returns (sig: Option<Signature>)
    requires Lawful(cv) && sec < cv.order && pub == cv.encode(Mul(cv, sec, cv.base))
    requires forall i :: 0 <= i < |nonces| ==> 0 < nonces[i] < cv.order
    ensures sig.None? <==> forall i :: 0 <= i < |nonces| ==> !Usable(cv, prefix, pub, sec, nonces[i])
    ensures sig.Some? ==>
      exists i :: (0 <= i < |nonces| && Usable(cv, prefix, pub, sec, nonces[i]) &&
                   sig.value == Attempt(cv, prefix, pub, sec, nonces[i]) &&
                   forall j :: 0 <= j < i ==> !Usable(cv, prefix, pub, sec, nonces[j]))
    ensures sig.Some? ==> CheckSignature(cv, prefix, pub, sig.value)
  {
    hide GroupLaws, CheckSignature;
    for i := 0 to |nonces|
      invariant forall j :: 0 <= j < i ==> !Usable(cv, prefix, pub, sec, nonces[j])
    {
      var s := Attempt(cv, prefix, pub, sec, nonces[i]);
      if s.c != 0 && s.r != 0 {
        AttemptAccepted(cv, prefix, pub, sec, nonces[i]);
        return Some(s);
      }
    }
    return None;
  }

  /** c*P + r*G is the nonce's point, which is never the point at infinity. */
  lemma {:induction false} AttemptAccepted<P(!new)>(cv: Curve<P>, prefix: Bytes, pub: Bytes, sec: nat, k: nat)
    requires Lawful(cv) && pub == cv.encode(Mul(cv, sec, cv.base))
    requires 0 < k < cv.order && Attempt(cv, prefix, pub, sec, k).c != 0
    ensures CheckSignature(cv, prefix, pub, Attempt(cv, prefix, pub, sec, k))
  {
    var s := Attempt(cv, prefix, pub, sec, k);
    ResponseCancels(cv, cv.base, sec, k, s);
    ReduceRange(cv, k - s.c * sec);
    ReduceRange(cv, 0);
    assert cv.decode(cv.encode(cv.zero)) == Some(cv.zero);
  }

  /** The nonce c*x + r with which the secret x gives the answer (c, r). */
  lemma {:induction false} NonceOf<P(!new)>(cv: Curve<P>, x: nat, s: Signature) returns (k: nat)
    requires ScalarLaws(cv) && s.r < cv.order
    ensures k < cv.order && s.r == cv.reduce(k - s.c * x)
  {
    var y := Product(s.c, x);
    k := cv.reduce(y + s.r);
    ReduceRange(cv, y + s.r);
    ReduceStep(cv, y + s.r, -y);
    ReduceRange(cv, s.r);
  }

  /** The verifier accepts exactly the signatures that the secret key gives: it recomputes the
      commitment, refuses infinity, and compares the hash. */
  lemma {:induction false} CheckSignatureIff<P(!new)>(cv: Curve<P>, prefix: Bytes, pub: Bytes, sec: nat, s: Signature)
    requires Lawful(cv) && pub == cv.encode(Mul(cv, sec, cv.base))
    ensures CheckSignature(cv, prefix, pub, s) <==>
            s.c != 0 && exists k :: 0 < k < cv.order && s == Attempt(cv, prefix, pub, sec, k)
  {
    hide GroupLaws;
    if CheckSignature(cv, prefix, pub, s) {
      var k := NonceOf(cv, sec, s);
      ResponseCancels(cv, cv.base, sec, k, s);
      MulStep(cv, 0, cv.base);
      DifferenceIsZero(cv, cv.hashToScalar(prefix + pub + cv.encode(Mul(cv, k, cv.base))), s.c);
      ReduceRange(cv, s.c);
      assert s == Attempt(cv, prefix, pub, sec, k);
    }
    if k :| s.c != 0 && 0 < k < cv.order && s == Attempt(cv, prefix, pub, sec, k) {
      AttemptAccepted(cv, prefix, pub, sec, k);
    }
  }

  /** The commitment that the verifier recomputes. */
  function SchnorrPoint<P(!new)>(cv: Curve<P>, key: P, base: P, s: Signature): P {
    cv.add(Mul(cv, s.c, key), Mul(cv, s.r, base))
  }

  /** Two answers to different challenges for one commitment: the quotient by the difference of the
      challenges relates key and base. */
  lemma {:induction false} TwoAnswers<P(!new)>(cv: Curve<P>, key: P, base: P, s: Signature, t: Signature, u: nat)
    requires GroupLaws(cv) && ScalarLaws(cv) && InSubgroup(cv, key) && InSubgroup(cv, base)
    requires s.c > t.c && cv.reduce(u * (s.c - t.c)) == 1
    requires SchnorrPoint(cv, key, base, s) == SchnorrPoint(cv, key, base, t)
    ensures key == Mul(cv, cv.reduce(u * cv.reduce(t.r - s.r)), base)
  {
    LinearRelation(cv, key, base, s.c, t.c, s.r, t.r);
    MultiplesCommute(cv, t.r, s.r, base);
    DivideBy(cv, key, base, s.c - t.c, t.r - s.r, u);
  }

  /** Special soundness: two accepted signatures with one commitment and different challenges, under
      whatever hashes, give the secret key. */
  lemma {:induction false} SignatureSound<P(!new)>(
    cv: Curve<P>, hash: Bytes -> nat, prefix: Bytes, prefix': Bytes, pub: Bytes, s: Signature, t: Signature) returns (x: nat)
    requires Lawful(cv) && CheckSignature(cv, prefix, pub, s)
    requires CheckSignature(cv.(hashToScalar := hash), prefix', pub, t)
    requires InSubgroup(cv, cv.decode(pub).value) && s.c != t.c
    requires SchnorrPoint(cv, cv.decode(pub).value, cv.base, s) == SchnorrPoint(cv, cv.decode(pub).value, cv.base, t)
    ensures x < cv.order && cv.decode(pub).value == Mul(cv, x, cv.base)
  {
    hide GroupLaws;
    var (a, b) := if s.c > t.c then (s, t) else (t, s);
    var u := Inverse(a.c - b.c, cv.order);
    Reduce(cv, u * (a.c - b.c));
    TwoAnswers(cv, cv.decode(pub).value, cv.base, a, b, u);
    x := cv.reduce(u * cv.reduce(b.r - a.r));
    ReduceRange(cv, u * cv.reduce(b.r - a.r));
  }

  // ----- transaction proofs

  /** s_comm_2: message, D, X, Y, domain separator, R, A, B. */
  function ProofBuffer(msg: Bytes, d: Bytes, x: Bytes, y: Bytes, sep: Bytes, r: Bytes, a: Bytes, b: Bytes): Bytes {
    msg + d + x + y + sep + r + a + b
  }

  /** What a proof is about; `b` is absent for a standard address. */
  datatype Claim = Claim(msg: Bytes, sep: Bytes, r: Bytes, a: Bytes, b: Option<Bytes>, d: Bytes)

  predicate ClaimSizes(cl: Claim) {
    |cl.msg| == |cl.sep| == |cl.r| == |cl.a| == |cl.d| == 32 && (cl.b.Some? ==> |cl.b.value| == 32)
  }

  function SpendBytes(cl: Claim): Bytes {
    if cl.b.Some? then cl.b.value else seq(32, _ => 0)
  }

  predicate ClaimDecodes<P(!new)>(cv: Curve<P>, cl: Claim) {
    && cv.decode(cl.r).Some? && cv.decode(cl.a).Some? && cv.decode(cl.d).Some?
    && (cl.b.Some? ==> cv.decode(cl.b.value).Some?)
  }

  /** The base of the first relation: the spend key if there is one, else G. */
  function ProofBase<P(!new)>(cv: Curve<P>, cl: Claim): P
    requires ClaimDecodes(cv, cl)
  {
    if cl.b.Some? then cv.decode(cl.b.value).value else cv.base
  }

  /** Version 1 hashes message, D, X and Y; version 2 hashes the whole buffer. */
  function GenerateTxProofV1<P(!new)>(cv: Curve<P>, cl: Claim, sec: nat, k: nat): Option<Signature> {
    if !ClaimDecodes(cv, cl) then None
    else
      var x := cv.encode(Mul(cv, k, ProofBase(cv, cl)));
      var y := cv.encode(Mul(cv, k, cv.decode(cl.a).value));
      var c := cv.hashToScalar(cl.msg + cl.d + x + y);
      Some(Signature(c, cv.reduce(k - c * sec)))
  }

  function GenerateTxProof<P(!new)>(cv: Curve<P>, cl: Claim, sec: nat, k: nat): Option<Signature> {
    if !ClaimDecodes(cv, cl) then None
    else
      var x := cv.encode(Mul(cv, k, ProofBase(cv, cl)));
      var y := cv.encode(Mul(cv, k, cv.decode(cl.a).value));
      var c := cv.hashToScalar(ProofBuffer(cl.msg, cl.d, x, y, cl.sep, cl.r, cl.a, SpendBytes(cl)));
      Some(Signature(c, cv.reduce(k - c * sec)))
  }

  /** X and Y as the verifier recomputes them: c*R + r*B and c*D + r*A. */
  function ProofPoints<P(!new)>(cv: Curve<P>, cl: Claim, s: Signature): (P, P)
    requires ClaimDecodes(cv, cl)
  {
    (cv.add(Mul(cv, s.c, cv.decode(cl.r).value), Mul(cv, s.r, ProofBase(cv, cl))),
     cv.add(Mul(cv, s.c, cv.decode(cl.d).value), Mul(cv, s.r, cv.decode(cl.a).value)))
  }

  predicate CheckTxProof<P(!new)>(cv: Curve<P>, cl: Claim, s: Signature, version: int)
    requires ClaimSizes(cl)
  {
    && ClaimDecodes(cv, cl)
    && s.c < cv.order && s.r < cv.order
    && var xy := ProofPoints(cv, cl, s);
       var buf := ProofBuffer(cl.msg, cl.d, cv.encode(xy.0), cv.encode(xy.1), cl.sep, cl.r, cl.a, SpendBytes(cl));
       var hashed := if version == 1 then buf[..|buf| - 4 * 32] else buf;
       && (version == 1 || version == 2)
       && cv.reduce(cv.hashToScalar(hashed) - s.c as int) == 0
  }

  /** Dropping three points and a hash from the end of the buffer leaves the version 1 struct. */
  lemma V1IsPrefix(msg: Bytes, d: Bytes, x: Bytes, y: Bytes, sep: Bytes, r: Bytes, a: Bytes, b: Bytes)
    requires |sep| == |r| == |a| == |b| == 32
    ensures var buf := ProofBuffer(msg, d, x, y, sep, r, a, b);
            |buf| >= 128 && buf[..|buf| - 4 * 32] == msg + d + x + y
  {
    assert ProofBuffer(msg, d, x, y, sep, r, a, b) == (msg + d + x + y) + (sep + r + a + b);
  }

  /** What the prover claims to know: R = sec*B (or sec*G) and D = sec*A. */
  ghost predicate Honest<P(!new)>(cv: Curve<P>, cl: Claim, sec: nat) {
    && ClaimSizes(cl) && ClaimDecodes(cv, cl)
    && cl.r == cv.encode(Mul(cv, sec, ProofBase(cv, cl)))
    && cl.d == cv.encode(Mul(cv, sec, cv.decode(cl.a).value))
  }

  ghost predicate KeysInSubgroup<P(!new)>(cv: Curve<P>, cl: Claim)
    requires ClaimDecodes(cv, cl)
  {
    InSubgroup(cv, cv.decode(cl.a).value) && InSubgroup(cv, ProofBase(cv, cl))
  }

  /** Proofs of either version are accepted at their version, with or without a spend key. */
  lemma {:induction false} TxProofAccepted<P(!new)>(cv: Curve<P>, cl: Claim, sec: nat, k: nat)
    requires Lawful(cv) && Honest(cv, cl, sec) && KeysInSubgroup(cv, cl)
    ensures var s := GenerateTxProofV1(cv, cl, sec, k); s.Some? && CheckTxProof(cv, cl, s.value, 1)
    ensures var s := GenerateTxProof(cv, cl, sec, k); s.Some? && CheckTxProof(cv, cl, s.value, 2)
  {
    hide GroupLaws;
    var s1, s2 := GenerateTxProofV1(cv, cl, sec, k).value, GenerateTxProof(cv, cl, sec, k).value;
    PointsAreNonces(cv, cl, sec, k, s1);
    PointsAreNonces(cv, cl, sec, k, s2);
    var x := cv.encode(Mul(cv, k, ProofBase(cv, cl)));
    var y := cv.encode(Mul(cv, k, cv.decode(cl.a).value));
    V1IsPrefix(cl.msg, cl.d, x, y, cl.sep, cl.r, cl.a, SpendBytes(cl));
    ReduceRange(cv, k - s1.c * sec);
    ReduceRange(cv, k - s2.c * sec);
    ReduceRange(cv, 0);
  }

  lemma {:induction false} PointsAreNonces<P(!new)>(cv: Curve<P>, cl: Claim, sec: nat, k: nat, s: Signature)
    requires Lawful(cv) && Honest(cv, cl, sec) && KeysInSubgroup(cv, cl)
    requires s.r == cv.reduce(k - s.c * sec)
    ensures ProofPoints(cv, cl, s) == (Mul(cv, k, ProofBase(cv, cl)), Mul(cv, k, cv.decode(cl.a).value))
  {
    ResponseCancels(cv, ProofBase(cv, cl), sec, k, s);
    ResponseCancels(cv, cv.decode(cl.a).value, sec, k, s);
  }

  /** The verifier accepts exactly the proofs that the prover can give, one for each nonce, at the two
      versions there are. */
  lemma {:induction false} CheckTxProofIff<P(!new)>(cv: Curve<P>, cl: Claim, sec: nat, s: Signature, version: int)
    requires Lawful(cv) && Honest(cv, cl, sec) && KeysInSubgroup(cv, cl)
    ensures CheckTxProof(cv, cl, s, version) <==>
            (version == 1 || version == 2) && exists k :: 0 <= k < cv.order && ProofAt(cv, cl, sec, k, version) == Some(s)
  {
    hide GroupLaws;
    if CheckTxProof(cv, cl, s, version) {
      var k := NonceOf(cv, sec, s);
      PointsAreNonces(cv, cl, sec, k, s);
      var x, y := cv.encode(Mul(cv, k, ProofBase(cv, cl))), cv.encode(Mul(cv, k, cv.decode(cl.a).value));
      V1IsPrefix(cl.msg, cl.d, x, y, cl.sep, cl.r, cl.a, SpendBytes(cl));
      var buf := ProofBuffer(cl.msg, cl.d, x, y, cl.sep, cl.r, cl.a, SpendBytes(cl));
      DifferenceIsZero(cv, cv.hashToScalar(if version == 1 then buf[..|buf| - 4 * 32] else buf), s.c);
      ReduceRange(cv, s.c);
      assert ProofAt(cv, cl, sec, k, version) == Some(s);
    }
    if k :| (version == 1 || version == 2) && 0 <= k < cv.order && ProofAt(cv, cl, sec, k, version) == Some(s) {
      TxProofAccepted(cv, cl, sec, k);
    }
  }

  function ProofAt<P(!new)>(cv: Curve<P>, cl: Claim, sec: nat, k: nat, version: int): Option<Signature> {
    if version == 1 then GenerateTxProofV1(cv, cl, sec, k) else GenerateTxProof(cv, cl, sec, k)
  }

  /** Special soundness: two accepted proofs of one claim with the same X and Y and different
      challenges, under whatever hashes and versions, show that the claim is true. */
  lemma {:induction false} TxProofSound<P(!new)>(
    cv: Curve<P>, hash: Bytes -> nat, cl: Claim, s: Signature, t: Signature, version: int, version': int) returns (x: nat)
    requires Lawful(cv) && ClaimSizes(cl) && CheckTxProof(cv, cl, s, version)
    requires CheckTxProof(cv.(hashToScalar := hash), cl, t, version')
    requires KeysInSubgroup(cv, cl) && InSubgroup(cv, cv.decode(cl.r).value) && InSubgroup(cv, cv.decode(cl.d).value)
    requires s.c != t.c && ProofPoints(cv, cl, s) == ProofPoints(cv, cl, t)
    ensures x < cv.order
    ensures cv.decode(cl.r).value == Mul(cv, x, ProofBase(cv, cl)) && cv.decode(cl.d).value == Mul(cv, x, cv.decode(cl.a).value)
  {
    hide GroupLaws;
    var (a, b) := if s.c > t.c then (s, t) else (t, s);
    var u := Inverse(a.c - b.c, cv.order);
    Reduce(cv, u * (a.c - b.c));
    TwoAnswers(cv, cv.decode(cl.r).value, ProofBase(cv, cl), a, b, u);
    TwoAnswers(cv, cv.decode(cl.d).value, cv.decode(cl.a).value, a, b, u);
    x := cv.reduce(u * cv.reduce(b.r - a.r));
    ReduceRange(cv, u * cv.reduce(b.r - a.r));
  }

  /** The hashed struct, field by field. */
  lemma ProofLayout(msg: Bytes, d: Bytes, x: Bytes, y: Bytes, sep: Bytes, r: Bytes, a: Bytes, b: Bytes)
    requires |msg| == |d| == |x| == |y| == |sep| == |r| == |a| == |b| == 32
    ensures var buf := ProofBuffer(msg, d, x, y, sep, r, a, b);
            && |buf| == 256 && buf[..32] == msg && buf[32..64] == d && buf[64..96] == x && buf[96..128] == y
            && buf[128..160] == sep && buf[160..192] == r && buf[192..224] == a && buf[224..] == b
  {
    var u, v := msg + d + x + y, sep + r + a + b;
    assert ProofBuffer(msg, d, x, y, sep, r, a, b) == u + v;
    assert u[..32] == msg && u[32..64] == d && u[64..96] == x && u[96..] == y;
    assert v[..32] == sep && v[32..64] == r && v[64..96] == a && v[96..] == b;
    var buf := u + v;
    assert buf[..32] == u[..32] && buf[32..64] == u[32..64] && buf[64..96] == u[64..96] && buf[96..128] == u[96..];
    assert buf[128..160] == v[..32] && buf[160..192] == v[32..64] && buf[192..224] == v[64..96] && buf[224..] == v[96..];
  }

  /** The honest claim about given keys. */
  function HonestClaim<P(!new)>(cv: Curve<P>, msg: Bytes, sep: Bytes, a: P, b: Option<P>, sec: nat): Claim {
    var base := if b.Some? then b.value else cv.base;
    Claim(msg, sep, cv.encode(Mul(cv, sec, base)), cv.encode(a),
          if b.Some? then Some(cv.encode(b.value)) else None, cv.encode(Mul(cv, sec, a)))
  }

  /** The proof of this version made with this hash, secret and nonce is accepted. */
  ghost predicate AcceptedWith<P(!new)>(
    cv: Curve<P>, msg: Bytes, sep: Bytes, a: P, b: Option<P>, version: int, hash: Bytes -> nat, sec: nat, k: nat)
    requires |msg| == |sep| == 32 && Lawful(cv) && (version == 1 || version == 2)
  {
    var cv' := cv.(hashToScalar := hash);
    var cl := HonestClaim(cv', msg, sep, a, b, sec);
    var s := ProofAt(cv', cl, sec, k, version);
    s.Some? && CheckTxProof(cv', cl, s.value, version)
  }

  ghost predicate ScalarHash<P(!new)>(cv: Curve<P>, hash: Bytes -> nat) {
    forall m :: hash(m) < cv.order
  }

  /** Reducing the response modulo l is harmless only in the prime-order subgroup: honest
      proofs of either version about the view key a and the spend key b are accepted under
      every hash, secret and nonce exactly when both keys have no torsion. */
  lemma {:induction false} TxProofAcceptedIff<P(!new)>(
    cv: Curve<P>, msg: Bytes, sep: Bytes, a: P, b: Option<P>, version: int)
    requires |msg| == |sep| == 32 && Lawful(cv) && cv.order > 2 && (version == 1 || version == 2)
    ensures (forall hash, sec: nat, k: nat | ScalarHash(cv, hash) && sec < cv.order && 0 < k < cv.order ::
               AcceptedWith(cv, msg, sep, a, b, version, hash, sec, k))
       <==> InSubgroup(cv, a) && (b.Some? ==> InSubgroup(cv, b.value))
  {
    hide GroupLaws, AcceptedWith;
    if InSubgroup(cv, a) && (b.Some? ==> InSubgroup(cv, b.value)) {
      forall hash, sec: nat, k: nat | ScalarHash(cv, hash) && sec < cv.order && 0 < k < cv.order
        ensures AcceptedWith(cv, msg, sep, a, b, version, hash, sec, k)
      {
        SubgroupAccepted(cv, msg, sep, a, b, version, hash, sec, k);
      }
    } else {
      var hash := TorsionRejected(cv, msg, sep, a, b, version);
    }
  }

  lemma {:induction false} OtherHashLawful<P(!new)>(cv: Curve<P>, hash: Bytes -> nat)
    requires Lawful(cv) && ScalarHash(cv, hash)
    ensures Lawful(cv.(hashToScalar := hash))
  {
    var cv' := cv.(hashToScalar := hash);
    assert GroupLaws(cv') by {
      forall p, q, r ensures cv.add(cv.add(p, q), r) == cv.add(p, cv.add(q, r)) { Assoc(cv, p, q, r); }
      forall p ensures cv.add(p, cv.zero) == p == cv.add(cv.zero, p) { Zero(cv, p); }
      forall p ensures cv.add(p, cv.neg(p)) == cv.zero == cv.add(cv.neg(p), p) { Zero(cv, p); }
      forall p ensures cv.mul(0, p) == cv.zero { MulStep(cv, 0, p); }
      forall n: nat, p | n > 0 ensures cv.mul(n, p) == cv.add(p, cv.mul(n - 1, p)) { MulStep(cv, n - 1, p); }
    }
    assert ScalarLaws(cv') by {
      forall z ensures cv.reduce(z) == z % cv.order { Reduce(cv, z); }
    }
    assert forall m :: InSubgroup(cv', cv'.hashToPoint(m)) <== InSubgroup(cv, cv.hashToPoint(m));
    assert forall k: nat :: Mul(cv', k, cv'.base) == Mul(cv, k, cv.base);
  }

  lemma {:induction false} SubgroupAccepted<P(!new)>(
    cv: Curve<P>, msg: Bytes, sep: Bytes, a: P, b: Option<P>, version: int, hash: Bytes -> nat, sec: nat, k: nat)
    requires |msg| == |sep| == 32 && Lawful(cv) && ScalarHash(cv, hash) && (version == 1 || version == 2)
    requires InSubgroup(cv, a) && (b.Some? ==> InSubgroup(cv, b.value))
    ensures AcceptedWith(cv, msg, sep, a, b, version, hash, sec, k)
  {
    hide GroupLaws;
    var cv' := cv.(hashToScalar := hash);
    OtherHashLawful(cv, hash);
    TxProofAccepted(cv', HonestClaim(cv', msg, sep, a, b, sec), sec, k);
  }

  /** With a torsion key, secret 2 and nonce 1, a hash that tells the prover's buffer from
      the verifier's makes the verifier reject, at either version. */
  lemma {:induction false} TorsionRejected<P(!new)>(
    cv: Curve<P>, msg: Bytes, sep: Bytes, a: P, b: Option<P>, version: int) returns (hash: Bytes -> nat)
    requires |msg| == |sep| == 32 && Lawful(cv) && cv.order > 2 && (version == 1 || version == 2)
    requires !(InSubgroup(cv, a) && (b.Some? ==> InSubgroup(cv, b.value)))
    ensures ScalarHash(cv, hash) && !AcceptedWith(cv, msg, sep, a, b, version, hash, 2, 1)
  {
    hide GroupLaws, InSubgroup;
    var cl := HonestClaim(cv, msg, sep, a, b, 2);
    var base := if b.Some? then b.value else cv.base;
    var x, y := cv.encode(Mul(cv, 1, base)), cv.encode(Mul(cv, 1, a));
    var sent := if version == 1 then msg + cl.d + x + y else ProofBuffer(msg, cl.d, x, y, sep, cl.r, cl.a, SpendBytes(cl));
    hash := m => if m == sent then 1 else 0;
    var cv' := cv.(hashToScalar := hash);
    var s := Signature(1, cv.reduce(1 - 2));
    assert HonestClaim(cv', msg, sep, a, b, 2) == cl;
    assert ProofAt(cv', cl, 2, 1, version) == Some(s);
    WrappedResponse(cv, base);
    WrappedResponse(cv, a);
    var xy := ProofPoints(cv', cl, s);
    assert xy.0 != Mul(cv, 1, base) || xy.1 != Mul(cv, 1, a);
    EncodeInjective(cv, xy.0, Mul(cv, 1, base));
    EncodeInjective(cv, xy.1, Mul(cv, 1, a));
    var x', y' := cv.encode(xy.0), cv.encode(xy.1);
    BuffersDiffer(msg, cl.d, x, y, x', y', sep, cl.r, cl.a, SpendBytes(cl));
    V1IsPrefix(msg, cl.d, x', y', sep, cl.r, cl.a, SpendBytes(cl));
    NegativeOne(cv);
  }

  lemma EncodeInjective<P(!new)>(cv: Curve<P>, p: P, q: P)
    requires Lawful(cv)
    ensures cv.encode(p) == cv.encode(q) ==> p == q
    ensures |cv.encode(p)| == |cv.encode(q)| == 32
  {
    assert cv.decode(cv.encode(p)) == Some(p) && cv.decode(cv.encode(q)) == Some(q);
  }

  lemma NegativeOne<P(!new)>(cv: Curve<P>)
    requires ScalarLaws(cv)
    ensures cv.reduce(0 - 1) != 0
  {
    SameResidue(cv, -1, cv.order - 1, -1);
    ReduceRange(cv, cv.order - 1);
  }

  lemma BuffersDiffer(msg: Bytes, d: Bytes, x: Bytes, y: Bytes, x': Bytes, y': Bytes,
                      sep: Bytes, r: Bytes, a: Bytes, b: Bytes)
    requires |x| == |x'| && |y| == |y'| && (x != x' || y != y')
    requires |sep| == |r| == |a| == |b| == 32
    ensures msg + d + x + y != msg + d + x' + y'
    ensures ProofBuffer(msg, d, x, y, sep, r, a, b) != ProofBuffer(msg, d, x', y', sep, r, a, b)
  {
    var i, j := |msg + d|, |msg + d + x|;
    var u, v := msg + d + x + y, msg + d + x' + y';
    assert u[i..j] == x && v[i..j] == x' && u[j..] == y && v[j..] == y';
    V1IsPrefix(msg, d, x, y, sep, r, a, b);
    V1IsPrefix(msg, d, x', y', sep, r, a, b);
  }

  /** 1*(2*p) + (l - 1)*p is p exactly when l*p = 0. */
  lemma {:induction false} WrappedResponse<P(!new)>(cv: Curve<P>, p: P)
    requires GroupLaws(cv) && ScalarLaws(cv)
    ensures cv.add(Mul(cv, 1, Mul(cv, 2, p)), Mul(cv, cv.reduce(1 - 2), p)) == Mul(cv, 1, p)
       <==> InSubgroup(cv, p)
  {
    var l := cv.order;
    SameResidue(cv, -1, l - 1, -1);
    ReduceRange(cv, l - 1);
    MulMul(cv, 1, 2, p);
    MulAdd(cv, 2, l - 1, p);
    MulAdd(cv, 1, l, p);
    Zero(cv, Mul(cv, 1, p));
    if cv.add(Mul(cv, 1, p), Mul(cv, l, p)) == Mul(cv, 1, p) {
      CancelLeft(cv, Mul(cv, 1, p), Mul(cv, l, p), cv.zero);
    }
  }

  // ----- one-time keys

  /** generate_key_derivation: 8*sec*pub. */
  function KeyDerivation<P(!new)>(cv: Curve<P>, pub: Bytes, sec: nat): Option<Bytes> {
    if cv.decode(pub).None? then None
    else Some(cv.encode(Mul(cv, 8, Mul(cv, sec, cv.decode(pub).value))))
  }

  /** derivation_to_scalar: the output index follows as a varint. */
  function DerivationScalar<P(!new)>(cv: Curve<P>, derivation: Bytes, index: nat): nat {
    cv.hashToScalar(derivation + Varint.Encoded(index))
  }

  function DerivePublicKey<P(!new)>(cv: Curve<P>, derivation: Bytes, index: nat, base: Bytes): Option<Bytes> {
    if cv.decode(base).None? then None
    else Some(cv.encode(cv.add(cv.decode(base).value, Mul(cv, DerivationScalar(cv, derivation, index), cv.base))))
  }

  function DeriveSecretKey<P(!new)>(cv: Curve<P>, derivation: Bytes, index: nat, base: nat): nat {
    cv.reduce(base + DerivationScalar(cv, derivation, index))
  }

  function DeriveSubaddressPublicKey<P(!new)>(cv: Curve<P>, out: Bytes, derivation: Bytes, index: nat): Option<Bytes> {
    if cv.decode(out).None? then None
    else Some(cv.encode(cv.add(cv.decode(out).value, cv.neg(Mul(cv, DerivationScalar(cv, derivation, index), cv.base)))))
  }

  /** The sender, who knows r, and the receiver, who knows the view key v, derive the same
      bytes; the receiver can then derive the secret of the one-time key that the sender
      made, and recover the spend key it was made for. */
  lemma {:induction false} OneTimeKeys<P(!new)>(cv: Curve<P>, r: nat, v: nat, spend: nat, index: nat)
    requires Lawful(cv)
    ensures var sender := KeyDerivation(cv, cv.encode(Mul(cv, v, cv.base)), r);
            var receiver := KeyDerivation(cv, cv.encode(Mul(cv, r, cv.base)), v);
            var spendPub := cv.encode(Mul(cv, spend, cv.base));
            sender.Some? && sender == receiver && sender.value == cv.encode(Mul(cv, 8 * (r * v), cv.base)) &&
            var out := DerivePublicKey(cv, sender.value, index, spendPub);
            out.Some? &&
            out.value == cv.encode(Mul(cv, spend + cv.hashToScalar(sender.value + Varint.Encoded(index)), cv.base)) &&
            out.value == cv.encode(Mul(cv, DeriveSecretKey(cv, receiver.value, index, spend), cv.base)) &&
            DeriveSubaddressPublicKey(cv, out.value, receiver.value, index) == Some(spendPub)
  {
    hide GroupLaws;
    MulMul(cv, r, v, cv.base);
    MulMul(cv, v, r, cv.base);
    assert r * v == v * r;
    MulMul(cv, 8, r * v, cv.base);
    var d := KeyDerivation(cv, cv.encode(Mul(cv, v, cv.base)), r).value;
    var s := DerivationScalar(cv, d, index);
    MulAdd(cv, spend, s, cv.base);
    MulReduce(cv, spend + s, cv.base);
    Assoc(cv, Mul(cv, spend, cv.base), Mul(cv, s, cv.base), cv.neg(Mul(cv, s, cv.base)));
    Zero(cv, Mul(cv, s, cv.base));
    Zero(cv, Mul(cv, spend, cv.base));
  }

  /** Different outputs of a transaction get different hash inputs. */
  lemma DerivationInputsDiffer(d: Bytes, d': Bytes, index: nat, index': nat)
    requires |d| == |d'| && d + Varint.Encoded(index) == d' + Varint.Encoded(index')
    ensures d == d' && index == index'
  {
    hide Varint.Encoded;
    var u, v := d + Varint.Encoded(index), d' + Varint.Encoded(index');
    assert u[..|d|] == d && v[..|d|] == d';
    assert u[|d|..] == Varint.Encoded(index) && v[|d|..] == Varint.Encoded(index');
    Varint.EncodedInjective(index, index');
  }
}

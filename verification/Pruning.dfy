/** Which blocks a pruned node keeps. Bit operations on seeds are written as arithmetic:
    masks of the form 2^k - 1 are remainders and shifts are divisions. */
module Pruning {
  import opened Arith
  import opened Wrappers

  const STRIPE_SIZE: nat := 4096
  const LOG_STRIPES: nat := 3
  const TIP_BLOCKS: nat := 5500
  const MAX_BLOCK_NUMBER: nat := 500_000_000
  const U64: nat := 0x1_0000_0000_0000_0000

  // ----- seeds

  /** None where the source throws. */
  function MakePruningSeed(stripe: nat, logStripes: nat): Option<nat> {
    if logStripes > 7 || stripe == 0 || stripe > Pow2(logStripes) then None
    else Some(logStripes * 128 + (stripe - 1))
  }

  function SeedLogStripes(seed: nat): nat {
    (seed / 128) % 8
  }

  function SeedStripe(seed: nat): nat {
    if seed == 0 then 0 else 1 + seed % 128
  }

  // ----- blocks

  /** The last blocks of the chain, which everyone keeps; the sum is taken in 64 bits. */
  predicate InTip(height: nat, chain: nat) {
    (height + TIP_BLOCKS) % U64 >= chain
  }

  function StripeOf(height: nat, stripes: nat): nat
    requires stripes > 0
  {
    (height / STRIPE_SIZE) % stripes + 1
  }

  function BlockStripe(height: nat, chain: nat, logStripes: nat): nat {
    if InTip(height, chain) then 0 else StripeOf(height, Pow2(logStripes))
  }

  predicate HasUnprunedBlock(height: nat, chain: nat, seed: nat) {
    var stripe := SeedStripe(seed);
    stripe == 0 ||
    var blockStripe := BlockStripe(height, chain, SeedLogStripes(seed));
    blockStripe == 0 || blockStripe == stripe
  }

  function PruningSeed(height: nat, chain: nat, logStripes: nat): Option<nat> {
    var stripe := BlockStripe(height, chain, logStripes);
    if stripe == 0 then Some(0) else MakePruningSeed(stripe, logStripes)
  }

  /** A seed without log stripes stands for the default here, unlike in HasUnprunedBlock. */
  function SeedStripes(seed: nat): (p: nat)
    ensures p > 0
  {
    Pow2(if SeedLogStripes(seed) != 0 then SeedLogStripes(seed) else LOG_STRIPES)
  }

  /** The first height of the next run of a stripe. */
  function NextRun(height: nat, stripes: nat, stripe: nat): nat
    requires stripes > 0 && stripe > 0
  {
    var cycles := height / STRIPE_SIZE / stripes;
    var start := cycles + if stripe > StripeOf(height, stripes) then 0 else 1;
    start * (STRIPE_SIZE * stripes) + (stripe - 1) * STRIPE_SIZE
  }

  function NextUnprunedBlockHeight(height: nat, chain: nat, seed: nat): nat {
    var stripe := SeedStripe(seed);
    if height > MAX_BLOCK_NUMBER + 1 || chain > MAX_BLOCK_NUMBER + 1 then height
    else if stripe == 0 || InTip(height, chain) then height
    else
      var stripes := SeedStripes(seed);
      if StripeOf(height, stripes) == stripe then height
      else
        var h := NextRun(height, stripes, stripe);
        if h + TIP_BLOCKS > chain then (if chain < TIP_BLOCKS then 0 else chain - TIP_BLOCKS)
        else if h < height then height
        else h
  }

  function NextPrunedBlockHeight(height: nat, chain: nat, seed: nat): nat {
    var stripe := SeedStripe(seed);
    if stripe == 0 || InTip(height, chain) then chain
    else
      var stripes := SeedStripes(seed);
      if StripeOf(height, stripes) != stripe then height
      else
        var next := MakePruningSeed(1 + stripe % stripes, if SeedLogStripes(seed) != 0 then SeedLogStripes(seed) else LOG_STRIPES);
        NextUnprunedBlockHeight(height, chain, next.value)
  }

  // ----- seeds round-trip

  lemma Pow2Bound(k: nat)
    requires k <= 7
    ensures Pow2(k) <= 128 && if k == 0 then Pow2(k) == 1 else Pow2(k) >= 2
  {
    assert Pow2(0) == 1 && Pow2(1) == 2 && Pow2(2) == 4 && Pow2(3) == 8;
    assert Pow2(4) == 16 && Pow2(5) == 32 && Pow2(6) == 64 && Pow2(7) == 128;
  }

  /** Seeds on which the functions below are right. */
  predicate GoodSeed(seed: nat) {
    seed == 0 || (SeedLogStripes(seed) >= 1 && SeedStripe(seed) <= Pow2(SeedLogStripes(seed)))
  }

  /** Both parts can be read back, except that a single stripe is the seed of no pruning. */
  lemma SeedRoundTrip(stripe: nat, logStripes: nat)
    requires MakePruningSeed(stripe, logStripes).Some?
    ensures var seed := MakePruningSeed(stripe, logStripes).value;
            && GoodSeed(seed) && SeedLogStripes(seed) == logStripes
            && (SeedStripe(seed) == stripe <==> logStripes >= 1)
  {
    hide Pow2;
    Pow2Bound(logStripes);
    DivModUnique(stripe - 1, logStripes, 128);
  }

  // ----- each block is kept once

  /** Below the tip, exactly one stripe keeps the block; its seed is what PruningSeed gives. */
  lemma KeptByOneStripe(height: nat, chain: nat, logStripes: nat)
    requires 1 <= logStripes <= 7 && !InTip(height, chain)
    ensures PruningSeed(height, chain, logStripes).Some?
    ensures HasUnprunedBlock(height, chain, PruningSeed(height, chain, logStripes).value)
    ensures forall stripe :: MakePruningSeed(stripe, logStripes).Some? ==>
      (HasUnprunedBlock(height, chain, MakePruningSeed(stripe, logStripes).value) <==>
       stripe == BlockStripe(height, chain, logStripes))
  {
    Pow2Bound(logStripes);
    forall stripe | MakePruningSeed(stripe, logStripes).Some?
      ensures HasUnprunedBlock(height, chain, MakePruningSeed(stripe, logStripes).value) <==>
              stripe == BlockStripe(height, chain, logStripes)
    {
      SeedRoundTrip(stripe, logStripes);
    }
    SeedRoundTrip(BlockStripe(height, chain, logStripes), logStripes);
  }

  /** A block in the tip is kept by every seed, and has seed 0. */
  lemma TipKept(height: nat, chain: nat, logStripes: nat, seed: nat)
    requires InTip(height, chain)
    ensures HasUnprunedBlock(height, chain, seed) && PruningSeed(height, chain, logStripes) == Some(0)
  {}

  /** The last 5500 blocks of every chain are taken for the tip exactly below heights at which the
      64-bit sum wraps. */
  lemma TipIff(height: nat)
    requires height < U64
    ensures (forall chain: nat :: chain < U64 ==> (InTip(height, chain) <==> height + TIP_BLOCKS >= chain)) <==>
            height + TIP_BLOCKS < U64
  {
    if height + TIP_BLOCKS >= U64 {
      assert !InTip(height, U64 - 1);
    }
  }

  /** What is pruned stays pruned as the chain grows. */
  lemma PrunedStaysPruned(height: nat, chain: nat, chain': nat, seed: nat)
    requires chain <= chain' && !HasUnprunedBlock(height, chain, seed)
    ensures !HasUnprunedBlock(height, chain', seed)
  {}

  // ----- the next unpruned height

  ghost predicate LeastUnpruned(r: nat, height: nat, chain: nat, seed: nat) {
    && height <= r && HasUnprunedBlock(r, chain, seed)
    && forall g :: height <= g < r ==> !HasUnprunedBlock(g, chain, seed)
  }

  /** The next number with remainder t. */
  function NextResidue(b: nat, p: nat, t: nat): nat
    requires p > 0
  {
    (b / p + if t > b % p then 0 else 1) * p + t
  }

  lemma NextResidueIs(b: nat, p: nat, t: nat)
    requires t < p && b % p != t
    ensures NextResidue(b, p, t) > b && NextResidue(b, p, t) % p == t
  {
    var c := b / p + if t > b % p then 0 else 1;
    DivModUnique(t, c, p);
    Distribute(b / p, 1, p);
  }

  lemma NextResidueLeast(b: nat, p: nat, t: nat, x: nat)
    requires t < p && b % p != t && b <= x < NextResidue(b, p, t)
    ensures x % p != t
  {
    if x % p == t {
      var u, v := x / p, b / p;
      var c := v + if t > b % p then 0 else 1;
      SmallerQuotient(u, c, p);
      SmallerQuotient(v, u, p);
    }
  }

  lemma SmallerQuotient(u: int, v: int, p: nat)
    requires p > 0
    ensures u * p < v * p ==> u < v
    ensures u > v ==> u * p >= v * p + p
  {
    Distribute(u, v, p);
    MultipleBound(u - v, p);
  }

  lemma NextRunIs(height: nat, stripes: nat, stripe: nat)
    requires stripes > 0 && stripe > 0
    ensures NextRun(height, stripes, stripe) == STRIPE_SIZE * NextResidue(height / STRIPE_SIZE, stripes, stripe - 1)
  {
    var b := height / STRIPE_SIZE;
    var start := b / stripes + if stripe > StripeOf(height, stripes) then 0 else 1;
    assert start * (STRIPE_SIZE * stripes) == STRIPE_SIZE * (start * stripes);
  }

  lemma BelowMultiple(g: nat, b: nat)
    requires g < STRIPE_SIZE * b
    ensures g / STRIPE_SIZE < b
  {}

  /** From a height of another stripe, the next run begins at the least height of this one. */
  lemma NextRunLeast(height: nat, stripes: nat, stripe: nat)
    requires 1 <= stripe <= stripes && StripeOf(height, stripes) != stripe
    ensures NextRun(height, stripes, stripe) > height
    ensures StripeOf(NextRun(height, stripes, stripe), stripes) == stripe
    ensures forall g :: height <= g < NextRun(height, stripes, stripe) ==> StripeOf(g, stripes) != stripe
  {
    var b := height / STRIPE_SIZE;
    var r := NextResidue(b, stripes, stripe - 1);
    NextRunIs(height, stripes, stripe);
    NextResidueIs(b, stripes, stripe - 1);
    DivModUnique(0, r, STRIPE_SIZE);
    forall g | height <= g < STRIPE_SIZE * r ensures StripeOf(g, stripes) != stripe {
      BelowMultiple(g, r);
      NextResidueLeast(b, stripes, stripe - 1, g / STRIPE_SIZE);
    }
  }

  /** The run found always lies ahead, for any stripe, so that the guard against going back is never
      needed. */
  lemma NextRunAhead(height: nat, stripes: nat, stripe: nat)
    requires stripes > 0 && stripe > 0 && stripe != StripeOf(height, stripes)
    ensures NextRun(height, stripes, stripe) > height
  {
    NextRunIs(height, stripes, stripe);
    var b := height / STRIPE_SIZE;
    DivModSum(b, stripes);
    Distribute(b / stripes, 1, stripes);
    assert NextResidue(b, stripes, stripe - 1) > b;
  }

  lemma GoodSeedShape(seed: nat)
    requires GoodSeed(seed) && seed != 0
    ensures SeedStripes(seed) == Pow2(SeedLogStripes(seed)) >= 2
    ensures 1 <= SeedStripe(seed) <= SeedStripes(seed)
  {
    Pow2Bound(SeedLogStripes(seed));
  }

  lemma NextUnprunedLeast(height: nat, chain: nat, seed: nat)
    requires GoodSeed(seed) && height <= MAX_BLOCK_NUMBER + 1 && chain <= MAX_BLOCK_NUMBER + 1
    ensures LeastUnpruned(NextUnprunedBlockHeight(height, chain, seed), height, chain, seed)
  {
    hide *;
    var r := NextUnprunedBlockHeight(height, chain, seed);
    if Kept(height, chain, seed) {
      NextIsHere(height, chain, seed);
    } else {
      NextIs(height, chain, seed);
      GoodSeedShape(seed);
      NextRunLeast(height, SeedStripes(seed), SeedStripe(seed));
      HasMeans(r, chain, seed);
      TipStays(r, r, if r > chain then r else chain);
      forall g: nat | height <= g < r
        ensures !HasUnprunedBlock(g, chain, seed)
      {
        HasMeans(g, chain, seed);
        TipStays(g, g, chain);
      }
    }
    LeastIf(r, height, chain, seed);
  }

  /** The cases in which a block is kept. */
  predicate Kept(height: nat, chain: nat, seed: nat) {
    seed == 0 || InTip(height, chain) || StripeOf(height, SeedStripes(seed)) == SeedStripe(seed)
  }

  lemma NextIsHere(height: nat, chain: nat, seed: nat)
    requires GoodSeed(seed) && Kept(height, chain, seed) && height <= MAX_BLOCK_NUMBER + 1 && chain <= MAX_BLOCK_NUMBER + 1
    ensures NextUnprunedBlockHeight(height, chain, seed) == height && HasUnprunedBlock(height, chain, seed)
  {
    hide Pow2, NextRun, StripeOf;
    if seed != 0 {
      HasMeans(height, chain, seed);
    }
  }

  lemma NextIs(height: nat, chain: nat, seed: nat)
    requires GoodSeed(seed) && !Kept(height, chain, seed) && height <= MAX_BLOCK_NUMBER + 1 && chain <= MAX_BLOCK_NUMBER + 1
    ensures seed != 0 && StripeOf(height, SeedStripes(seed)) != SeedStripe(seed) > 0 && height + TIP_BLOCKS < chain
    ensures var h := NextRun(height, SeedStripes(seed), SeedStripe(seed));
            NextUnprunedBlockHeight(height, chain, seed) == if h + TIP_BLOCKS > chain then chain - TIP_BLOCKS else h
  {
    hide Pow2, NextRun, StripeOf, SeedStripes;
    NextRunAhead(height, SeedStripes(seed), SeedStripe(seed));
  }

  lemma LeastIf(r: nat, height: nat, chain: nat, seed: nat)
    requires height <= r && HasUnprunedBlock(r, chain, seed)
    requires forall g: nat :: height <= g < r ==> !HasUnprunedBlock(g, chain, seed)
    ensures LeastUnpruned(r, height, chain, seed)
  {}

  /** On every pair of heights within the guard the function returns the least unpruned
      height exactly for the good seeds. */
  lemma NextUnprunedLeastIff(seed: nat)
    ensures (forall height: nat, chain: nat ::
               height <= MAX_BLOCK_NUMBER + 1 && chain <= MAX_BLOCK_NUMBER + 1 ==>
               LeastUnpruned(NextUnprunedBlockHeight(height, chain, seed), height, chain, seed))
       <==> GoodSeed(seed)
  {
    if GoodSeed(seed) {
      forall height: nat, chain: nat | height <= MAX_BLOCK_NUMBER + 1 && chain <= MAX_BLOCK_NUMBER + 1
        ensures LeastUnpruned(NextUnprunedBlockHeight(height, chain, seed), height, chain, seed)
      {
        NextUnprunedLeast(height, chain, seed);
      }
    } else {
      var height := BadSeedWitness(seed);
    }
  }

  /** A height at which a bad seed goes wrong on a long chain. */
  lemma BadSeedWitness(seed: nat) returns (height: nat)
    requires !GoodSeed(seed)
    ensures height <= MAX_BLOCK_NUMBER
    ensures !LeastUnpruned(NextUnprunedBlockHeight(height, MAX_BLOCK_NUMBER + 1, seed), height, MAX_BLOCK_NUMBER + 1, seed)
  {
    var stripe, log := SeedStripe(seed), SeedLogStripes(seed);
    if log == 0 && stripe == 1 {
      height := STRIPE_SIZE;
      BadFirst(seed);
    } else if log == 0 && stripe <= 8 {
      height := (stripe - 1) * STRIPE_SIZE;
      BadOwn(seed);
    } else {
      height := 0;
      BadFar(seed);
    }
  }

  /** No log stripes, stripe 1: every block is kept, but the second stripe is skipped. */
  lemma BadFirst(seed: nat)
    requires SeedLogStripes(seed) == 0 && SeedStripe(seed) == 1
    ensures HasUnprunedBlock(STRIPE_SIZE, MAX_BLOCK_NUMBER + 1, seed)
    ensures NextUnprunedBlockHeight(STRIPE_SIZE, MAX_BLOCK_NUMBER + 1, seed) > STRIPE_SIZE
  {
    assert Pow2(3) == 8 && Pow2(0) == 1;
  }

  /** No log stripes, another stripe: nothing is kept, but a run of the default is found. */
  lemma BadOwn(seed: nat)
    requires SeedLogStripes(seed) == 0 && 2 <= SeedStripe(seed) <= 8
    ensures var h := (SeedStripe(seed) - 1) * STRIPE_SIZE;
            NextUnprunedBlockHeight(h, MAX_BLOCK_NUMBER + 1, seed) == h && !HasUnprunedBlock(h, MAX_BLOCK_NUMBER + 1, seed)
  {
    assert Pow2(3) == 8 && Pow2(0) == 1;
    var h := (SeedStripe(seed) - 1) * STRIPE_SIZE;
    assert h / STRIPE_SIZE == SeedStripe(seed) - 1;
  }

  /** A stripe beyond the number of stripes: its supposed run holds other stripes. */
  lemma BadFar(seed: nat)
    requires SeedStripe(seed) > SeedStripes(seed)
    ensures var r := NextUnprunedBlockHeight(0, MAX_BLOCK_NUMBER + 1, seed);
            !HasUnprunedBlock(r, MAX_BLOCK_NUMBER + 1, seed)
  {
    var stripe := SeedStripe(seed);
    var h := (stripe - 1) * STRIPE_SIZE;
    assert stripe <= 128;
    StripeAtMost(0, SeedStripes(seed));
    FirstRun(SeedStripes(seed), stripe);
    assert NextUnprunedBlockHeight(0, MAX_BLOCK_NUMBER + 1, seed) == h;
    StripeAtMost(h, Pow2(SeedLogStripes(seed)));
    assert Pow2(3) == 8 && Pow2(0) == 1;
  }

  lemma FirstRun(stripes: nat, stripe: nat)
    requires stripes > 0 && stripe > stripes
    ensures NextRun(0, stripes, stripe) == (stripe - 1) * STRIPE_SIZE
  {
    DivModUnique(0, 0, stripes);
  }

  lemma StripeAtMost(height: nat, stripes: nat)
    requires stripes > 0
    ensures 1 <= StripeOf(height, stripes) <= stripes
  {}

  // ----- the next pruned height

  /** Everything up to r is kept; r is pruned or in the tip. */
  ghost predicate RunEnds(r: nat, height: nat, chain: nat, seed: nat) {
    && height <= r <= chain
    && (forall g :: height <= g < r ==> HasUnprunedBlock(g, chain, seed))
    && (HasUnprunedBlock(r, chain, seed) ==> InTip(r, chain))
  }

  /** Inside a kept run, the next pruned height is where the stripe ends, or the tip. */
  lemma EndOfStripe(height: nat, chain: nat, seed: nat)
    requires GoodSeed(seed) && seed != 0 && height < chain <= MAX_BLOCK_NUMBER + 1 && !InTip(height, chain)
    requires StripeOf(height, SeedStripes(seed)) == SeedStripe(seed)
    ensures var end := STRIPE_SIZE * (height / STRIPE_SIZE + 1);
            && NextPrunedBlockHeight(height, chain, seed) == (if end + TIP_BLOCKS > chain then chain - TIP_BLOCKS else end)
            && (forall g :: height <= g < end ==> StripeOf(g, SeedStripes(seed)) == SeedStripe(seed))
            && StripeOf(end, SeedStripes(seed)) != SeedStripe(seed)
  {
    hide *;
    GoodSeedShape(seed);
    var stripe, stripes := SeedStripe(seed), SeedStripes(seed);
    var next := 1 + stripe % stripes;
    NextStripe(stripe, stripes);
    var seed' := NextSeed(height, chain, seed);
    RunOfStripe(height, stripes);
    NextRunLeast(height, stripes, next);
    OtherNotKept(height, chain, seed', next);
    NextIs(height, chain, seed');
  }

  lemma OtherNotKept(height: nat, chain: nat, seed: nat, stripe: nat)
    requires seed != 0 && !InTip(height, chain) && SeedStripe(seed) == stripe != StripeOf(height, SeedStripes(seed))
    ensures !Kept(height, chain, seed)
  {}

  /** The seed that the search for the next pruned height uses. */
  lemma NextSeed(height: nat, chain: nat, seed: nat) returns (seed': nat)
    requires GoodSeed(seed) && seed != 0 && !InTip(height, chain) && StripeOf(height, SeedStripes(seed)) == SeedStripe(seed)
    ensures GoodSeed(seed') && seed' != 0 && SeedStripes(seed') == SeedStripes(seed) >= 2
    ensures SeedStripe(seed') == 1 + SeedStripe(seed) % SeedStripes(seed)
    ensures NextPrunedBlockHeight(height, chain, seed) == NextUnprunedBlockHeight(height, chain, seed')
  {
    hide Pow2, NextUnprunedBlockHeight, StripeOf;
    GoodSeedShape(seed);
    var stripe, stripes := SeedStripe(seed), SeedStripes(seed);
    NextStripe(stripe, stripes);
    SeedRoundTrip(1 + stripe % stripes, SeedLogStripes(seed));
    seed' := MakePruningSeed(1 + stripe % stripes, SeedLogStripes(seed)).value;
  }

  lemma HasMeans(g: nat, chain: nat, seed: nat)
    requires GoodSeed(seed) && seed != 0
    ensures HasUnprunedBlock(g, chain, seed) <==> InTip(g, chain) || StripeOf(g, SeedStripes(seed)) == SeedStripe(seed)
  {
    GoodSeedShape(seed);
  }

  lemma TipStays(g: nat, h: nat, chain: nat)
    requires g <= h <= chain <= MAX_BLOCK_NUMBER + 1
    ensures InTip(g, chain) <==> g + TIP_BLOCKS >= chain
    ensures InTip(g, chain) ==> InTip(h, chain)
  {}

  lemma OwnStripeEndsRun(height: nat, chain: nat, seed: nat)
    requires GoodSeed(seed) && seed != 0 && height < chain <= MAX_BLOCK_NUMBER + 1 && !InTip(height, chain)
    requires StripeOf(height, SeedStripes(seed)) == SeedStripe(seed)
    ensures RunEnds(NextPrunedBlockHeight(height, chain, seed), height, chain, seed)
    ensures NextPrunedBlockHeight(height, chain, seed) > height
  {
    hide *;
    EndOfStripe(height, chain, seed);
    var r := NextPrunedBlockHeight(height, chain, seed);
    TipStays(height, height, chain);
    AboveOwnBlock(height);
    forall g: nat | height <= g < r ensures HasUnprunedBlock(g, chain, seed) {
      HasMeans(g, chain, seed);
    }
    HasMeans(r, chain, seed);
    TipStays(r, r, chain);
    RunEndsIf(r, height, chain, seed);
  }

  lemma AboveOwnBlock(height: nat)
    ensures height < STRIPE_SIZE * (height / STRIPE_SIZE + 1)
  {}

  lemma RunEndsIf(r: nat, height: nat, chain: nat, seed: nat)
    requires height <= r <= chain && (HasUnprunedBlock(r, chain, seed) ==> InTip(r, chain))
    requires forall g: nat :: height <= g < r ==> HasUnprunedBlock(g, chain, seed)
    ensures RunEnds(r, height, chain, seed)
  {}

  lemma NextPrunedEndsRun(height: nat, chain: nat, seed: nat)
    requires GoodSeed(seed) && height < chain <= MAX_BLOCK_NUMBER + 1
    ensures RunEnds(NextPrunedBlockHeight(height, chain, seed), height, chain, seed)
    ensures HasUnprunedBlock(height, chain, seed) ==> NextPrunedBlockHeight(height, chain, seed) > height
  {
    hide *;
    if seed == 0 || InTip(height, chain) {
      TipEndsRun(height, chain, seed);
    } else if StripeOf(height, SeedStripes(seed)) == SeedStripe(seed) {
      OwnStripeEndsRun(height, chain, seed);
    } else {
      OtherStripe(height, chain, seed);
    }
  }

  lemma TipEndsRun(height: nat, chain: nat, seed: nat)
    requires height < chain <= MAX_BLOCK_NUMBER + 1 && (seed == 0 || InTip(height, chain))
    ensures NextPrunedBlockHeight(height, chain, seed) == chain && RunEnds(chain, height, chain, seed)
  {
    TipStays(chain, chain, chain);
    forall g: nat | height <= g < chain ensures HasUnprunedBlock(g, chain, seed) {
      TipStays(height, g, chain);
    }
    hide HasUnprunedBlock;
    RunEndsIf(chain, height, chain, seed);
  }

  lemma OtherStripe(height: nat, chain: nat, seed: nat)
    requires GoodSeed(seed) && seed != 0 && height < chain && !InTip(height, chain)
    requires StripeOf(height, SeedStripes(seed)) != SeedStripe(seed)
    ensures !HasUnprunedBlock(height, chain, seed)
    ensures NextPrunedBlockHeight(height, chain, seed) == height && RunEnds(height, height, chain, seed)
  {
    HasMeans(height, chain, seed);
  }

  lemma NextStripe(stripe: nat, stripes: nat)
    requires 1 <= stripe <= stripes && stripes >= 2
    ensures 1 <= 1 + stripe % stripes <= stripes && 1 + stripe % stripes != stripe
  {
    if stripe < stripes { DivModUnique(stripe, 0, stripes); } else { DivModUnique(0, 1, stripes); }
  }

  /** Until the next stripe begins, heights keep their stripe. */
  lemma RunOfStripe(height: nat, stripes: nat)
    requires stripes >= 2
    ensures var next := 1 + StripeOf(height, stripes) % stripes;
            next >= 1 &&
            NextRun(height, stripes, next) == STRIPE_SIZE * (height / STRIPE_SIZE + 1)
    ensures forall g :: height <= g < STRIPE_SIZE * (height / STRIPE_SIZE + 1) ==>
              StripeOf(g, stripes) == StripeOf(height, stripes)
  {
    var b := height / STRIPE_SIZE;
    var next := 1 + StripeOf(height, stripes) % stripes;
    NextStripe(StripeOf(height, stripes), stripes);
    NextRunIs(height, stripes, next);
    if b % stripes + 1 < stripes {
      DivModUnique(b % stripes + 1, 0, stripes);
    } else {
      DivModUnique(0, 1, stripes);
      Distribute(b / stripes, -1, stripes);
    }
    forall g | height <= g < STRIPE_SIZE * (b + 1) ensures StripeOf(g, stripes) == StripeOf(height, stripes) {
      BelowMultiple(g, b + 1);
    }
  }

  // ----- alternating the two

  /** The kept spans [u, p) from a height on, as a downloader enumerates them. */
  ghost function Spans(height: nat, chain: nat, seed: nat): seq<(nat, nat)>
    requires GoodSeed(seed) && height <= chain <= MAX_BLOCK_NUMBER + 1
    decreases chain - height
  {
    NextUnprunedLeast(height, chain, seed);
    var u := NextUnprunedBlockHeight(height, chain, seed);
    if u >= chain then []
    else
      NextPrunedEndsRun(u, chain, seed);
      var p := NextPrunedBlockHeight(u, chain, seed);
      [(u, p)] + Spans(p, chain, seed)
  }

  /** The spans are disjoint, in order and non-empty, and together hold exactly the heights
      that are kept. */
  lemma {:induction false} SpansExact(height: nat, chain: nat, seed: nat)
    requires GoodSeed(seed) && height <= chain <= MAX_BLOCK_NUMBER + 1
    ensures forall g :: height <= g < chain ==>
      (HasUnprunedBlock(g, chain, seed) <==> InSpans(g, Spans(height, chain, seed)))
    ensures Ordered(Spans(height, chain, seed), height, chain)
    decreases chain - height
  {
    hide HasUnprunedBlock, NextUnprunedBlockHeight, NextPrunedBlockHeight;
    NextUnprunedLeast(height, chain, seed);
    var u := NextUnprunedBlockHeight(height, chain, seed);
    if u < chain {
      NextPrunedEndsRun(u, chain, seed);
      var p := NextPrunedBlockHeight(u, chain, seed);
      SpansExact(p, chain, seed);
      var rest := Spans(p, chain, seed);
      forall g | height <= g < chain
        ensures HasUnprunedBlock(g, chain, seed) <==> InSpans(g, [(u, p)] + rest)
      {
        InSpansCons(g, u, p, rest);
        OrderedAbove(g, rest, p, chain);
      }
    }
  }

  predicate InSpans(g: nat, spans: seq<(nat, nat)>) {
    exists i :: 0 <= i < |spans| && spans[i].0 <= g < spans[i].1
  }

  predicate Ordered(spans: seq<(nat, nat)>, from: nat, to: nat) {
    spans == [] || (from <= spans[0].0 < spans[0].1 <= to && Ordered(spans[1..], spans[0].1, to))
  }

  lemma InSpansCons(g: nat, u: nat, p: nat, rest: seq<(nat, nat)>)
    ensures InSpans(g, [(u, p)] + rest) <==> u <= g < p || InSpans(g, rest)
  {
    var all := [(u, p)] + rest;
    if u <= g < p { assert all[0].0 <= g < all[0].1; }
    if InSpans(g, rest) {
      var i :| 0 <= i < |rest| && rest[i].0 <= g < rest[i].1;
      assert all[i + 1] == rest[i];
    }
  }

  lemma {:induction false} OrderedAbove(g: nat, spans: seq<(nat, nat)>, from: nat, to: nat)
    requires Ordered(spans, from, to)
    ensures InSpans(g, spans) ==> from <= g < to
  {
    if spans != [] {
      OrderedAbove(g, spans[1..], spans[0].1, to);
      InSpansCons(g, spans[0].0, spans[0].1, spans[1..]);
      assert spans == [spans[0]] + spans[1..];
    }
  }
}

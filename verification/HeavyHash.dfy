/** The main loops of the heavy hash: one step a pass in hardware, two steps a pass with the
    roles of two registers exchanged in software. */
module HeavyHash {
  import opened Arith
  import opened RandomMath

  const HALF := 0x1_0000_0000
  const WORD := 0x1_0000_0000_0000_0000

  type U64 = w: nat | w < 0x1_0000_0000_0000_0000

  datatype Block = Block(lo: U64, hi: U64)

  // ----- the product in 64-bit arithmetic

  lemma FourProducts(a: nat, b: nat, c: nat, d: nat)
    ensures (a * HALF + b) * (c * HALF + d) == a * c * WORD + (a * d + b * c) * HALF + b * d
  {
    var m := c * HALF + d;
    assert (a * HALF + b) * m == a * m * HALF + b * m;
    assert a * m == a * c * HALF + a * d;
    assert b * m == b * c * HALF + b * d;
  }

  lemma HalfProduct(a: nat, b: nat)
    requires a < HALF && b < HALF
    ensures a * b <= (HALF - 1) * (HALF - 1)
  {
    Scale(a, HALF - 1, b);
  }

  /** Four 32-bit products, with every sum wrapped to 64 bits: high and low words of the exact
      128-bit product. */
  method Umul128(multiplier: U64, multiplicand: U64) returns (hi: U64, lo: U64)
    ensures hi * WORD + lo == multiplier * multiplicand
    ensures hi == High(multiplier, multiplicand) && lo == Low(multiplier, multiplicand)
  {
    var a, b := multiplier / HALF, multiplier % HALF;
    var c, d := multiplicand / HALF, multiplicand % HALF;
    FourProducts(a, b, c, d);
    var ac, ad, bc, bd := a * c, a * d, b * c, b * d;
    HalfProduct(a, c);
    HalfProduct(a, d);
    HalfProduct(b, c);
    HalfProduct(b, d);
    hi, lo := Combine(ac, ad, bc, bd);
    DivModUnique(lo, hi, WORD);
  }

  method Combine(ac: U64, ad: U64, bc: U64, bd: U64) returns (hi: U64, lo: U64)
    requires ac <= (HALF - 1) * (HALF - 1) && ad <= (HALF - 1) * (HALF - 1)
    requires bc <= (HALF - 1) * (HALF - 1) && bd <= (HALF - 1) * (HALF - 1)
    ensures hi * WORD + lo == ac * WORD + (ad + bc) * HALF + bd
  {
    var adbc := (ad + bc) % WORD;
    var adbcCarry := if adbc < ad then 1 else 0;
    lo := (bd + adbc * HALF % WORD) % WORD;
    var loCarry := if lo < bd then 1 else 0;
    hi := (ac + adbc / HALF + adbcCarry * HALF + loCarry) % WORD;
    assert ad + bc == adbc + adbcCarry * WORD;
    assert adbc * HALF % WORD == adbc % HALF * HALF;
    assert bd + adbc % HALF * HALF == lo + loCarry * WORD;
  }

  function HighPart(a: nat, b: nat, w: nat): (h: nat)
    requires a < w && b < w
    ensures h < w
  {
    ProductFits(a, b, w);
    a * b / w
  }

  function High(a: U64, b: U64): U64 {
    HighPart(a, b, WORD)
  }

  lemma ProductFits(a: nat, b: nat, w: nat)
    requires a < w && b < w
    ensures a * b / w < w
  {
    if b > 0 {
      AppendBound(a, 0, w, b);
      Scale(b, w, w);
      QuotientBound(a * b, w, w);
    }
  }

  function Low(a: U64, b: U64): U64 {
    a * b % WORD
  }

  // ----- the step

  function Xor64(a: U64, b: U64): U64 {
    Width();
    Pow2Add(32, 32);
    XorBits(a, b, 64)
  }

  function XorBlock(x: Block, y: Block): Block {
    Block(Xor64(x.lo, y.lo), Xor64(x.hi, y.hi))
  }

  function Plus(a: U64, b: U64): U64 {
    (a + b) % WORD
  }

  /** A 32-bit number as a signed one, in 64 bits. */
  function SignExtend(d: nat): U64
    requires d < HALF
  {
    if d < HALF / 2 then d else d + WORD - HALF
  }

  /** The AES round, the signed quotient n / (d | 5), the number of 16-byte slots (a power of
      two), and the version. */
  datatype Kit = Kit(aes: (Block, Block) -> Block, quotient: (U64, nat) -> U64, slots: nat, version: nat)

  /** The slot of an address, of which 32 bits are taken. */
  function Slot(k: Kit, idx: U64): (i: nat)
    requires k.slots > 0
    ensures i < k.slots
  {
    idx % HALF / 16 % k.slots
  }

  /** For a power of two, at most 2^28, the byte offset of the slot is the address with all but the
      bits of the pad's size, and its lowest four, masked away. */
  lemma SlotIsMasked(k: Kit, idx: U64, m: nat)
    requires m <= 28 && k.slots == Pow2(m)
    ensures 16 * Slot(k, idx) + idx % 16 == idx % (16 * k.slots)
  {
    hide Pow2;
    PadSize(m);
    MaskedHalf(idx, 16 * k.slots, Pow2(28 - m));
    MaskedHalf(idx, 16, HALF / 16);
    SlotOf(idx % HALF, k.slots);
  }

  lemma PadSize(m: nat)
    requires m <= 28
    ensures 16 * Pow2(m) * Pow2(28 - m) == HALF
  {
    Width();
    Pow2Add(28, 4);
    assert Pow2(2) == 4 && Pow2(4) == 16;
    Pow2Add(m, 28 - m);
    Sixteen(Pow2(m), Pow2(28 - m));
  }

  lemma Sixteen(p: nat, q: nat)
    ensures 16 * p * q == p * q * 16
  {}

  lemma MaskedHalf(idx: nat, size: nat, t: nat)
    requires size > 0 && size * t == HALF
    ensures idx % HALF % size == idx % size
  {
    var q := idx / HALF;
    assert q * HALF == q * t * size;
    ModShift(idx % HALF, q * t, size);
  }

  lemma SlotOf(x: nat, s: nat)
    requires s > 0
    ensures 16 * (x / 16 % s) + x % 16 == x % (16 * s)
  {
    var y := x / 16;
    DivModSum(y, s);
    var q, r := y / s, y % s;
    assert 16 * (q * s) == q * (16 * s);
    DivModUnique(16 * r + x % 16, q, 16 * s);
  }

  /** The number that w bits stand for in two's complement. */
  function Signed(x: nat, w: nat): int {
    if 2 * x < w then x else x - w
  }

  lemma SignExtendKeeps(d: nat)
    requires d < HALF
    ensures Signed(SignExtend(d), WORD) == Signed(d, HALF)
  {}

  lemma WordLaws(a: U64, b: U64, i: nat)
    requires i < 64
    ensures Plus(a, b) == if a + b < WORD then a + b else a + b - WORD
    ensures Bit(Xor64(a, b), i) == (Bit(a, i) + Bit(b, i)) % 2
  {
    hide Bit, XorBits;
    XorBit(a, b, 64, i);
  }

  datatype State = State(a: Block, b: Block, idx: U64, pad: seq<Block>)

  predicate Fits(k: Kit, s: State) {
    k.slots > 0 && |s.pad| == k.slots
  }

  /** The AES half: the round of what is at idx, the pad cell replaced. */
  function Encrypt(k: Kit, s: State): (s': State)
    requires Fits(k, s)
    ensures Fits(k, s')
  {
    var i := Slot(k, s.idx);
    var cx := k.aes(s.pad[i], s.a);
    State(s.a, cx, cx.lo, s.pad[i := XorBlock(s.b, cx)])
  }

  /** The multiplication half. */
  function Multiply(k: Kit, s: State): (s': State)
    requires Fits(k, s)
    ensures Fits(k, s')
  {
    var i := Slot(k, s.idx);
    var c := s.pad[i];
    var sum := Block(Plus(s.a.lo, High(s.b.lo, c.lo)), Plus(s.a.hi, Low(s.b.lo, c.lo)));
    var a := XorBlock(sum, c);
    State(a, s.b, a.lo, s.pad[i := sum])
  }

  /** What the multiplication adds to the register, its low word first, is the exact product of the
      last round's result and the cell, high word first; the sum replaces the cell. */
  lemma MultiplyAdds(k: Kit, s: State)
    requires Fits(k, s)
    ensures var i := Slot(k, s.idx);
            var sum := Multiply(k, s).pad[i];
            (sum.lo - s.a.lo) % WORD * WORD + (sum.hi - s.a.hi) % WORD == s.b.lo * s.pad[i].lo
  {
    hide Slot, XorBlock;
    var c := s.pad[Slot(k, s.idx)];
    Added(s.a.lo, High(s.b.lo, c.lo));
    Added(s.a.hi, Low(s.b.lo, c.lo));
    DivModSum(s.b.lo * c.lo, WORD);
  }

  lemma Added(a: U64, x: U64)
    ensures (Plus(a, x) - a) % WORD == x
  {}

  /** The division of later versions. */
  function Divide(k: Kit, s: State): (s': State)
    requires Fits(k, s)
    ensures Fits(k, s')
  {
    if k.version == 0 then s
    else
      var i := Slot(k, s.idx);
      var n, d := s.pad[i].lo, s.pad[i].hi % HALF;
      var q := k.quotient(n, d);
      State(s.a, s.b, Xor64(SignExtend(d), q), s.pad[i := Block(Xor64(n, q), s.pad[i].hi)])
  }

  function Step(k: Kit, s: State): (s': State)
    requires Fits(k, s)
    ensures Fits(k, s')
  {
    Divide(k, Multiply(k, Encrypt(k, s)))
  }

  function Run(k: Kit, n: nat, s: State): (s': State)
    requires Fits(k, s)
    ensures Fits(k, s')
  {
    if n == 0 then s else Step(k, Run(k, n - 1, s))
  }

  // ----- nothing is lost

  /** An AES round can be undone by one who knows its key. */
  ghost predicate Invertible(k: Kit) {
    forall x, y, key :: k.aes(x, key) == k.aes(y, key) ==> x == y
  }

  lemma XorCancels(x: U64, y: U64, z: U64)
    requires Xor64(x, z) == Xor64(y, z)
    ensures x == y
  {
    hide XorBits, Pow2;
    Width();
    Pow2Add(32, 32);
    XorTwice(x, z, 64);
    XorTwice(y, z, 64);
  }

  lemma XorBlockCancels(x: Block, y: Block, z: Block)
    requires XorBlock(x, z) == XorBlock(y, z)
    ensures x == y
  {
    hide Xor64;
    XorCancels(x.lo, y.lo, z.lo);
    XorCancels(x.hi, y.hi, z.hi);
  }

  lemma SamePad(p: seq<Block>, q: seq<Block>, i: nat, x: Block, y: Block)
    requires |p| == |q| && i < |p| && p[i := x] == q[i := y]
    ensures x == y && (p[i] == q[i] ==> p == q)
  {
    assert x == p[i := x][i] == q[i := y][i] == y;
    if p[i] == q[i] {
      forall j | 0 <= j < |p|
        ensures p[j] == q[j]
      {
        assert j != i ==> p[i := x][j] == q[i := y][j];
      }
    }
  }

  lemma EncryptInjective(k: Kit, s: State, t: State)
    requires Fits(k, s) && Fits(k, t) && Invertible(k) && s.idx == s.a.lo && t.idx == t.a.lo
    requires Encrypt(k, s) == Encrypt(k, t)
    ensures s == t
  {
    hide Slot, XorBlock;
    var i, cx := Slot(k, s.idx), Encrypt(k, s).b;
    SamePad(s.pad, t.pad, i, XorBlock(s.b, cx), XorBlock(t.b, cx));
    XorBlockCancels(s.b, t.b, cx);
  }

  lemma MultiplyInjective(k: Kit, s: State, t: State)
    requires Fits(k, s) && Fits(k, t) && s.idx == s.b.lo && t.idx == t.b.lo
    requires Multiply(k, s) == Multiply(k, t)
    ensures s == t
  {
    hide Slot, XorBlock, High, Low, Plus;
    var i := Slot(k, s.idx);
    var c, c' := s.pad[i], t.pad[i];
    var sum := Multiply(k, s).pad[i];
    SamePad(s.pad, t.pad, i, sum, Multiply(k, t).pad[i]);
    XorBlockCommutes(sum, c);
    XorBlockCommutes(sum, c');
    XorBlockCancels(c, c', sum);
    PlusCancels(s.a.lo, t.a.lo, High(s.b.lo, c.lo));
    PlusCancels(s.a.hi, t.a.hi, Low(s.b.lo, c.lo));
  }

  lemma PlusCancels(x: U64, y: U64, z: U64)
    requires Plus(x, z) == Plus(y, z)
    ensures x == y
  {}

  lemma XorBlockCommutes(x: Block, y: Block)
    ensures XorBlock(x, y) == XorBlock(y, x)
  {
    XorCommutes(x.lo, y.lo, 64);
    XorCommutes(x.hi, y.hi, 64);
  }

  /** In version 0 no two states run into the same one: the loop loses nothing of what it is
      given. */
  lemma {:induction false} RunInjective(k: Kit, n: nat, s: State, t: State)
    requires Fits(k, s) && Fits(k, t) && Invertible(k) && k.version == 0 && s.idx == s.a.lo && t.idx == t.a.lo
    requires Run(k, n, s) == Run(k, n, t)
    ensures s == t
  {
    hide Slot, High, Low, Plus, XorBlock;
    if n > 0 {
      var s', t' := Run(k, n - 1, s), Run(k, n - 1, t);
      IndexFollows(k, n - 1, s);
      IndexFollows(k, n - 1, t);
      MultiplyInjective(k, Encrypt(k, s'), Encrypt(k, t'));
      EncryptInjective(k, s', t');
      RunInjective(k, n - 1, s, t);
    }
  }

  lemma {:induction false} IndexFollows(k: Kit, n: nat, s: State)
    requires Fits(k, s) && k.version == 0 && s.idx == s.a.lo
    ensures Run(k, n, s).idx == Run(k, n, s).a.lo
  {
    hide Slot, High, Low, Plus, XorBlock;
    if n > 0 {
      IndexFollows(k, n - 1, s);
    }
  }

  /** One step a pass. */
  method Hardware(k: Kit, iterations: nat, a: Block, b: Block, pad: array<Block>)
    returns (al: U64, ah: U64, bx: Block, idx: U64)
    requires k.slots > 0 && pad.Length == k.slots
    modifies pad
    ensures State(Block(al, ah), bx, idx, pad[..]) == Run(k, iterations, State(a, b, a.lo, old(pad[..])))
  {
    hide High, Low, Plus, Xor64, Slot, SignExtend;
    al, ah, bx, idx := a.lo, a.hi, b, a.lo;
    for i := 0 to iterations
      invariant State(Block(al, ah), bx, idx, pad[..]) == Run(k, i, State(a, b, a.lo, old(pad[..])))
    {
      ghost var s := State(Block(al, ah), bx, idx, pad[..]);
      var cx := pad[Slot(k, idx)];
      cx := k.aes(cx, Block(al, ah));
      pad[Slot(k, idx)] := XorBlock(bx, cx);
      idx := cx.lo;
      bx := cx;
      ghost var s1 := State(Block(al, ah), bx, idx, pad[..]);
      assert s1 == Encrypt(k, s);
      var cl, ch := pad[Slot(k, idx)].lo, pad[Slot(k, idx)].hi;
      var hi, lo := High(idx, cl), Low(idx, cl);
      al := Plus(al, hi);
      ah := Plus(ah, lo);
      pad[Slot(k, idx)] := Block(al, ah);
      ah := Xor64(ah, ch);
      al := Xor64(al, cl);
      idx := al;
      ghost var s2 := State(Block(al, ah), bx, idx, pad[..]);
      assert s2 == Multiply(k, s1);
      if k.version > 0 {
        var n, d := pad[Slot(k, idx)].lo, pad[Slot(k, idx)].hi % HALF;
        var q := k.quotient(n, d);
        pad[Slot(k, idx)] := Block(Xor64(n, q), pad[Slot(k, idx)].hi);
        idx := Xor64(SignExtend(d), q);
      }
      assert State(Block(al, ah), bx, idx, pad[..]) == Divide(k, s2);
    }
  }

  /** Two steps a pass: what the first half leaves in cx the second uses as bx, and the other
      way round. */
  method Software(k: Kit, iterations: nat, a: Block, b: Block, pad: array<Block>)
    returns (ax: Block, bx: Block, at: nat)
    requires k.slots > 0 && pad.Length == k.slots
    modifies pad
    ensures var s := Run(k, iterations / 2 * 2, State(a, b, a.lo, old(pad[..])));
            ax == s.a && bx == s.b && at == Slot(k, s.idx) && pad[..] == s.pad
  {
    hide Slot, Encrypt, Multiply, Divide;
    ax, bx, at := a, b, Slot(k, a.lo);
    var cx: Block;
    ghost var s := State(a, b, a.lo, pad[..]);
    for i := 0 to iterations / 2
      invariant s == Run(k, i * 2, State(a, b, a.lo, old(pad[..])))
      invariant ax == s.a && bx == s.b && at == Slot(k, s.idx) && pad[..] == s.pad
    {
      ax, cx, bx, at := Half(k, ax, bx, at, pad, s);
      s := Step(k, s);
      ax, bx, cx, at := Half(k, ax, cx, at, pad, s);
      s := Step(k, s);
    }
  }

  /** Half a pass. The first register stays `a`; the one that held the last round's result is
      spent, and ends as the cell the product came from; the other gets the new result. An address
      is kept as its slot. */
  method Half(k: Kit, a: Block, last: Block, at: nat, pad: array<Block>, ghost s: State)
    returns (ax: Block, cx: Block, bx: Block, at': nat)
    requires k.slots > 0 && pad.Length == k.slots && s == State(a, last, s.idx, pad[..]) && at == Slot(k, s.idx)
    modifies pad
    ensures var t := Step(k, s); ax == t.a && cx == t.b && at' == Slot(k, t.idx) && pad[..] == t.pad
  {
    hide High, Low, Plus, Xor64, Slot, SignExtend;
    ax, bx, at' := a, last, at;
    cx := pad[at'];
    cx := k.aes(cx, ax);
    bx := XorBlock(bx, cx);
    pad[at'] := bx;
    at' := Slot(k, cx.lo);
    ghost var s1 := State(ax, cx, cx.lo, pad[..]);
    assert s1 == Encrypt(k, s);
    bx := pad[at'];
    var hi, lo := Umul128(cx.lo, bx.lo);
    ax := Block(Plus(ax.lo, hi), Plus(ax.hi, lo));
    pad[at'] := ax;
    ax := XorBlock(ax, bx);
    at' := Slot(k, ax.lo);
    ghost var s2 := State(ax, cx, ax.lo, pad[..]);
    assert s2 == Multiply(k, s1);
    if k.version > 0 {
      var n, d := pad[at'].lo, pad[at'].hi % HALF;
      var q := k.quotient(n, d);
      pad[at'] := Block(Xor64(n, q), pad[at'].hi);
      at' := Slot(k, Xor64(SignExtend(d), q));
    }
  }

  /** For every even count, pad and starting registers the two loops end alike. */
  method BothLoops(k: Kit, iterations: nat, a: Block, b: Block, pad: array<Block>, pad': array<Block>)
    returns (hard: (Block, Block, nat), soft: (Block, Block, nat))
    requires k.slots > 0 && pad.Length == k.slots && pad != pad' && pad[..] == pad'[..] && iterations % 2 == 0
    modifies pad, pad'
    ensures hard == soft && pad[..] == pad'[..]
  {
    hide Run, Slot;
    assert pad'.Length == |pad[..]|;
    var al, ah, bx, idx := Hardware(k, iterations, a, b, pad);
    var ax, bx', at := Software(k, iterations, a, b, pad');
    return (Block(al, ah), bx, Slot(k, idx)), (ax, bx', at);
  }
}

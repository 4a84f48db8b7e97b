/** BLAKE-256 and BLAKE-224 as a fold over the padded message, and the streaming state as a
    value. The compression function, the output conversion and the initial value are
    parameters; `bit` is the last padding bit, 1 for BLAKE-256 and 0 for BLAKE-224. */
module BlakeSpec {
  import opened Arith
  import opened Numerals
  import opened Wrappers

  type PadBit = b: nat | b < 2

  datatype Blake<!H> = Blake(iv: H, compress: (H, Bytes, nat) -> H, output: H -> Bytes, bit: PadBit)

  const WORD: nat := 0x1_0000_0000

  // ----- the specification

  function Zeros(n: nat): Bytes {
    seq(n, _ => 0)
  }

  /** A one bit, zero bits up to 7 bytes short of a block's length field, the last bit. */
  function PadBytes(len: nat, bit: PadBit): Bytes {
    var n := if len % 64 <= 55 then 56 - len % 64 else 120 - len % 64;
    if n == 1 then [0x80 + bit] else [0x80] + Zeros(n - 2) + [bit]
  }

  function Padded(m: Bytes, bit: PadBit): Bytes {
    m + PadBytes(|m|, bit) + ToBytes(8, 8 * |m|)
  }

  /** The number of message bits up to and including block i, or 0 if it holds none. */
  function Counter(len: nat, i: nat): nat {
    if len <= 64 * i then 0 else if len <= 64 * (i + 1) then 8 * len else 512 * (i + 1)
  }

  /** The chaining value after i blocks of the padded message p of a message of length len. */
  function Chain<H>(b: Blake<H>, p: Bytes, len: nat, i: nat): H
    requires 64 * i <= |p|
  {
    if i == 0 then b.iv
    else b.compress(Chain(b, p, len, i - 1), p[64 * (i - 1)..64 * i], Counter(len, i - 1))
  }

  /** Section 2.1.3 of the BLAKE proposal: fold the compression over the padded blocks. */
  function BlakeHash<H>(b: Blake<H>, m: Bytes): Bytes {
    var p := Padded(m, b.bit);
    b.output(Chain(b, p, |m|, |p| / 64))
  }

  // ----- the streaming state

  /** The fields of the state struct; `pending` is the used part of the buffer. */
  datatype Raw<H> = Raw(h: H, t0: nat, t1: nat, nullt: bool, pending: Bytes)

  function Compressed<H>(b: Blake<H>, r: Raw<H>, block: Bytes): Raw<H> {
    var t0 := (r.t0 + 512) % WORD;
    var t1 := if t0 == 0 then (r.t1 + 1) % WORD else r.t1;
    Raw(b.compress(r.h, block, if r.nullt then 0 else t1 * WORD + t0), t0, t1, r.nullt, [])
  }

  /** Takes in data: compresses every block that becomes full. */
  function Absorb<H>(b: Blake<H>, r: Raw<H>, data: Bytes): (r': Raw<H>)
    requires |r.pending| < 64
    ensures |r'.pending| < 64
    decreases |data|
  {
    var n := 64 - |r.pending|;
    if |data| < n then r.(pending := r.pending + data)
    else Absorb(b, Compressed(b, r, r.pending + data[..n]), data[n..])
  }

  /** blake256_update as written: with no data the buffer is declared empty. */
  function Updated<H>(b: Blake<H>, r: Raw<H>, data: Bytes): (r': Raw<H>)
    requires |r.pending| < 64
    ensures |r'.pending| < 64
  {
    if data == [] then r.(pending := []) else Absorb(b, r, data)
  }

  function MinusBits<H>(r: Raw<H>, bits: nat): Raw<H> {
    r.(t0 := (r.t0 - bits) % WORD)
  }

  /** blake256_final_h: the padding that leaves room for the length in a block. Its bits are
      taken off the counter beforehand; a block without message bits sets nullt. */
  function PaddedState<H>(b: Blake<H>, r: Raw<H>): (r': Raw<H>)
    requires |r.pending| < 64
    ensures |r'.pending| < 64
  {
    var n := |r.pending|;
    if n == 55 then Updated(b, MinusBits(r, 8), [0x80 + b.bit])
    else MinusBits(Updated(b, if n < 55 then Filled(b, r) else Overflowed(b, r), [b.bit]), 8)
  }

  /** Room in the current block. */
  function Filled<H>(b: Blake<H>, r: Raw<H>): (r': Raw<H>)
    requires |r.pending| < 55
    ensures |r'.pending| < 64
  {
    var n := |r.pending|;
    Updated(b, MinusBits(if n == 0 then r.(nullt := true) else r, 440 - 8 * n), [0x80] + Zeros(54 - n))
  }

  /** No room: the current block is completed and another one started. */
  function Overflowed<H>(b: Blake<H>, r: Raw<H>): (r': Raw<H>)
    requires 55 < |r.pending| < 64
    ensures |r'.pending| < 64
  {
    var n := |r.pending|;
    var first := Updated(b, MinusBits(r, 512 - 8 * n), [0x80] + Zeros(63 - n));
    Updated(b, MinusBits(first, 440), Zeros(55)).(nullt := true)
  }

  /** The two words of the message length. */
  function LengthWords(t0: nat, t1: nat, n: nat): Bytes {
    var lo := (t0 + 8 * n) % WORD;
    var hi := if lo < 8 * n then (t1 + 1) % WORD else t1;
    ToBytes(4, hi) + ToBytes(4, lo)
  }

  /** blake256_final_h up to the output. */
  function Finished<H>(b: Blake<H>, r: Raw<H>): Raw<H>
    requires |r.pending| < 64
  {
    Updated(b, MinusBits(PaddedState(b, r), 64), LengthWords(r.t0, r.t1, |r.pending|))
  }

  /** The state after the message m. */
  function StateOf<H>(b: Blake<H>, m: Bytes): Raw<H> {
    var k := |m| / 64;
    Raw(Chain(b, m, |m|, k), 512 * (k % BLOCKS), k / BLOCKS, false, m[64 * k..])
  }

  /** The counter has 64 bits. */
  const MAX_BITS: nat := 0x1_0000_0000_0000_0000
  const MAX_BLOCKS: nat := 0x80_0000_0000_0000

  /** Blocks per carry of the counter's low word: 2^32 / 512. */
  const BLOCKS: nat := 0x80_0000

  // ----- the state follows the message

  /** The carry test on zero is right because the low word is a multiple of 512. */
  lemma CounterStep(k: nat)
    requires k + 1 < MAX_BLOCKS
    ensures var t0 := (512 * (k % BLOCKS) + 512) % WORD;
            var t1 := if t0 == 0 then (k / BLOCKS + 1) % WORD else k / BLOCKS;
            && t0 == 512 * ((k + 1) % BLOCKS) && t1 == (k + 1) / BLOCKS
            && t1 * WORD + t0 == 512 * (k + 1)
  {
    var q, r := k / BLOCKS, k % BLOCKS;
    if r + 1 < BLOCKS {
      DivModUnique(r + 1, q, BLOCKS);
    } else {
      DivModUnique(0, q + 1, BLOCKS);
      assert (512 * r + 512) == WORD;
    }
  }

  lemma {:induction false} ChainPrefix<H>(b: Blake<H>, p: Bytes, q: Bytes, len: nat, len': nat, i: nat)
    requires p <= q && 64 * i <= |p| && 64 * i <= len && 64 * i <= len'
    ensures Chain(b, p, len, i) == Chain(b, q, len', i)
  {
    if i > 0 {
      ChainPrefix(b, p, q, len, len', i - 1);
      assert p[64 * (i - 1)..64 * i] == q[64 * (i - 1)..64 * i];
    }
  }

  /** Absorbing data takes the state of m to the state of m + data. */
  lemma {:induction false} AbsorbFollows<H>(b: Blake<H>, m: Bytes, data: Bytes)
    requires 8 * |m + data| < MAX_BITS
    ensures Absorb(b, StateOf(b, m), data) == StateOf(b, m + data)
    decreases |data|
  {
    var r := StateOf(b, m);
    var k := |m| / 64;
    var n := 64 - |r.pending|;
    if |data| < n {
      SmallStep(b, m, data);
    } else {
      FullBlock(b, m, data[..n]);
      assert m + data[..n] + data[n..] == m + data;
      AbsorbFollows(b, m + data[..n], data[n..]);
    }
  }

  lemma SmallStep<H>(b: Blake<H>, m: Bytes, data: Bytes)
    requires |m| % 64 + |data| < 64
    ensures StateOf(b, m).(pending := StateOf(b, m).pending + data) == StateOf(b, m + data)
  {
    var k := |m| / 64;
    DivModUnique(|m| % 64 + |data|, k, 64);
    assert |m + data| / 64 == k;
    ChainPrefix(b, m, m + data, |m|, |m + data|, k);
    assert (m + data)[64 * k..] == m[64 * k..] + data;
  }

  lemma FullBlock<H>(b: Blake<H>, m: Bytes, data: Bytes)
    requires |m| % 64 + |data| == 64 && 8 * |m + data| < MAX_BITS
    ensures Compressed(b, StateOf(b, m), StateOf(b, m).pending + data) == StateOf(b, m + data)
  {
    hide Chain;
    var k := |m| / 64;
    FullBlockSlices(m, data, k);
    ChainPrefix(b, m, m + data, |m|, |m + data|, k);
    ChainStep(b, m + data, |m + data|, k);
    CounterStep(k);
  }

  lemma FullBlockSlices(m: Bytes, data: Bytes, k: nat)
    requires k == |m| / 64 && |m| % 64 + |data| == 64
    ensures |m + data| == 64 * (k + 1) && |m + data| / 64 == k + 1
    ensures (m + data)[64 * k..64 * (k + 1)] == m[64 * k..] + data && (m + data)[64 * (k + 1)..] == []
  {
    DivModUnique(0, k + 1, 64);
  }

  // ----- the final blocks

  lemma AbsorbFits<H>(b: Blake<H>, r: Raw<H>, data: Bytes)
    requires data != [] && |r.pending| + |data| < 64
    ensures Updated(b, r, data) == r.(pending := r.pending + data)
  {}

  lemma AbsorbCompletes<H>(b: Blake<H>, r: Raw<H>, data: Bytes)
    requires data != [] && |r.pending| + |data| == 64
    ensures Updated(b, r, data) == Compressed(b, r, r.pending + data)
  {
    var n := 64 - |r.pending|;
    assert data[..n] == data && data[n..] == [];
    var r' := Compressed(b, r, r.pending + data);
    assert Absorb(b, r', []) == r'.(pending := r'.pending + []) == r';
    assert Absorb(b, r, data) == Absorb(b, Compressed(b, r, r.pending + data[..n]), data[n..]);
  }

  lemma LengthIsRight(k: nat, n: nat)
    requires n < 64 && 8 * (64 * k + n) < MAX_BITS
    ensures LengthWords(512 * (k % BLOCKS), k / BLOCKS, n) == ToBytes(8, 8 * (64 * k + n))
    ensures |LengthWords(512 * (k % BLOCKS), k / BLOCKS, n)| == 8
  {
    hide ToBytes, Digits, Pow;
    var lo, hi := 512 * (k % BLOCKS) + 8 * n, k / BLOCKS;
    assert hi * WORD + lo == 8 * (64 * k + n);
    WordBytes(hi, lo);
  }

  lemma WordBytes(hi: nat, lo: nat)
    requires lo < WORD
    ensures ToBytes(8, hi * WORD + lo) == ToBytes(4, hi) + ToBytes(4, lo)
  {
    hide ToBytes, Digits, Above;
    var v := hi * WORD + lo;
    DigitsSplit(256, v, 4, 4);
    LowBytes(hi, lo, 4, 0x1_0000_0000);
  }

  lemma {:induction false} LowBytes(hi: nat, lo: nat, j: nat, w: nat)
    requires (j == 0 && w == 1) || (j == 1 && w == 0x100) || (j == 2 && w == 0x1_0000) || (j == 3 && w == 0x100_0000) || (j == 4 && w == 0x1_0000_0000)
    requires lo < w
    ensures Digits(256, j, hi * w + lo) == Digits(256, j, lo) && Above(256, hi * w + lo, j) == hi
    decreases j
  {
    if j > 0 {
      var v := hi * w + lo;
      assert v % 256 == lo % 256 && v / 256 == hi * (w / 256) + lo / 256;
      LowBytes(hi, lo / 256, j - 1, w / 256);
    }
  }

  /** The counter of the last block that holds message bits: the subtracted padding bits and
      the 512 added by the compression cancel, without a carry. */
  lemma LastCounter(k: nat, n: nat, a: nat)
    requires 0 < n < 64 && 8 * (64 * k + n) < MAX_BITS
    requires a == 512 - 8 * n
    ensures var t0 := (512 * (k % BLOCKS) - a) % WORD;
            (t0 + 512) % WORD == 512 * (k % BLOCKS) + 8 * n != 0
    ensures k / BLOCKS * WORD + 512 * (k % BLOCKS) + 8 * n == 8 * (64 * k + n)
  {
    var t := 512 * (k % BLOCKS);
    assert t <= WORD - 512;
  }

  /** The state that the padding leaves in a block with room for the length. */
  lemma PaddedOneByte<H>(b: Blake<H>, r: Raw<H>)
    requires |r.pending| == 55
    ensures PaddedState(b, r) == MinusBits(r, 8).(pending := r.pending + PadBytes(55, b.bit))
  {
    AbsorbFits(b, MinusBits(r, 8), [0x80 + b.bit]);
  }

  lemma PaddedMoreBytes<H>(b: Blake<H>, r: Raw<H>)
    requires |r.pending| < 55
    ensures var n := |r.pending|;
            var r0 := if n == 0 then r.(nullt := true) else r;
            PaddedState(b, r) == MinusBits(MinusBits(r0, 440 - 8 * n), 8).(pending := r.pending + PadBytes(n, b.bit))
  {
    hide Updated, Absorb;
    var n := |r.pending|;
    var r0 := if n == 0 then r.(nullt := true) else r;
    AbsorbFits(b, MinusBits(r0, 440 - 8 * n), [0x80] + Zeros(54 - n));
    AbsorbFits(b, Filled(b, r), [b.bit]);
    assert r.pending + ([0x80] + Zeros(54 - n)) + [b.bit] == r.pending + PadBytes(n, b.bit);
  }

  lemma MinusTwice<H>(r: Raw<H>, a: nat, b: nat)
    ensures MinusBits(MinusBits(r, a), b) == MinusBits(r, a + b)
  {}

  /** All of the padding has been taken off the counter before the length comes. */
  lemma RoomState<H>(b: Blake<H>, r: Raw<H>)
    requires |r.pending| <= 55
    ensures var n := |r.pending|;
            MinusBits(PaddedState(b, r), 64)
              == MinusBits(r, 512 - 8 * n).(nullt := r.nullt || n == 0, pending := r.pending + PadBytes(n, b.bit))
  {
    hide PaddedState, PadBytes;
    var n := |r.pending|;
    if n == 55 {
      PaddedOneByte(b, r);
      MinusTwice(r, 8, 64);
    } else {
      PaddedMoreBytes(b, r);
      MinusTwice(r, 440 - 8 * n, 8);
      MinusTwice(r, 448 - 8 * n, 64);
    }
  }

  lemma BlockWithRoom<H>(b: Blake<H>, r: Raw<H>, k: nat, len: Bytes)
    requires |r.pending| <= 55 && |len| == 8 && !r.nullt && 8 * (64 * k + |r.pending|) < MAX_BITS
    requires r.t0 == 512 * (k % BLOCKS) && r.t1 == k / BLOCKS
    ensures var n := |r.pending|;
            Updated(b, MinusBits(PaddedState(b, r), 64), len).h
              == b.compress(r.h, r.pending + PadBytes(n, b.bit) + len, if n == 0 then 0 else 8 * (64 * k + n))
  {
    hide Updated, PaddedState, PadBytes;
    var n := |r.pending|;
    RoomState(b, r);
    PadFills(n, b.bit);
    AbsorbCompletes(b, MinusBits(PaddedState(b, r), 64), len);
    if n > 0 { LastCounter(k, n, 512 - 8 * n); }
  }

  lemma PadFills(n: nat, bit: PadBit)
    requires n <= 55
    ensures n + |PadBytes(n, bit)| == 56
  {}

  lemma BlockWithoutRoom<H>(b: Blake<H>, r: Raw<H>, k: nat, len: Bytes)
    requires 55 < |r.pending| < 64 && |len| == 8 && !r.nullt && 8 * (64 * k + |r.pending|) < MAX_BITS
    requires r.t0 == 512 * (k % BLOCKS) && r.t1 == k / BLOCKS
    ensures var n := |r.pending|;
            Updated(b, MinusBits(PaddedState(b, r), 64), len).h
              == b.compress(b.compress(r.h, r.pending + ([0x80] + Zeros(63 - n)), 8 * (64 * k + n)),
                            Zeros(55) + [b.bit] + len, 0)
  {
    hide Updated, Absorb;
    var n := |r.pending|;
    AbsorbCompletes(b, MinusBits(r, 512 - 8 * n), [0x80] + Zeros(63 - n));
    LastCounter(k, n, 512 - 8 * n);
    var first := Updated(b, MinusBits(r, 512 - 8 * n), [0x80] + Zeros(63 - n));
    AbsorbFits(b, MinusBits(first, 440), Zeros(55));
    assert [] + Zeros(55) == Zeros(55);
    AbsorbFits(b, Overflowed(b, r), [b.bit]);
    AbsorbCompletes(b, MinusBits(PaddedState(b, r), 64), len);
  }

  lemma ZerosSplit(i: nat, j: nat)
    ensures Zeros(i + j) == Zeros(i) + Zeros(j)
  {}

  lemma PadOf(k: nat, n: nat, bit: PadBit)
    requires n < 64
    ensures PadBytes(64 * k + n, bit) == PadBytes(n, bit)
    ensures |PadBytes(n, bit)| == if n <= 55 then 56 - n else 120 - n
  {
    DivModUnique(n, k, 64);
    DivModUnique(n, 0, 64);
  }

  /** The last block of a padded message that has room for the padding. */
  lemma PaddedBlock(m: Bytes, bit: PadBit, k: nat, n: nat)
    requires |m| == 64 * k + n && n <= 55
    ensures var p := Padded(m, bit);
            |p| == 64 * (k + 1) && p[64 * k..64 * (k + 1)] == m[64 * k..] + PadBytes(n, bit) + ToBytes(8, 8 * |m|)
  {
    hide ToBytes, PadBytes;
    PadOf(k, n, bit);
  }

  /** The last two blocks otherwise. */
  lemma PaddedTwoBlocks(m: Bytes, bit: PadBit, k: nat, n: nat)
    requires |m| == 64 * k + n && 55 < n < 64
    ensures var p := Padded(m, bit);
            && |p| == 64 * (k + 2)
            && p[64 * k..64 * (k + 1)] == m[64 * k..] + ([0x80] + Zeros(63 - n))
            && p[64 * (k + 1)..64 * (k + 2)] == Zeros(55) + [bit] + ToBytes(8, 8 * |m|)
  {
    hide ToBytes;
    PadOf(k, n, bit);
    PadSplit(n, bit);
    hide PadBytes, Zeros;
    TwoSlices(m, [0x80] + Zeros(63 - n), Zeros(55) + [bit], ToBytes(8, 8 * |m|), k);
  }

  lemma TwoSlices(m: Bytes, u: Bytes, v: Bytes, w: Bytes, k: nat)
    requires 64 * k <= |m| && |m| + |u| == 64 * (k + 1) && |v| + |w| == 64
    ensures var p := m + (u + v) + w;
            && |p| == 64 * (k + 2)
            && p[64 * k..64 * (k + 1)] == m[64 * k..] + u
            && p[64 * (k + 1)..64 * (k + 2)] == v + w
  {}

  lemma PadSplit(n: nat, bit: PadBit)
    requires 55 < n < 64
    ensures PadBytes(n, bit) == ([0x80] + Zeros(63 - n)) + (Zeros(55) + [bit])
  {
    DivModUnique(n, 0, 64);
    ZerosSplit(63 - n, 55);
  }

  /** Finishing the state of m ends in the fold over the padded message. */
  lemma FinishedIsChain<H>(b: Blake<H>, m: Bytes)
    requires 8 * |m| < MAX_BITS
    ensures var p := Padded(m, b.bit);
            Finished(b, StateOf(b, m)).h == Chain(b, p, |m|, |p| / 64)
  {
    hide Updated, ToBytes, PadBytes, Padded, PaddedState, LengthWords, Chain, Finished;
    var k, n := |m| / 64, |m| % 64;
    PaddedExtends(m, b.bit);
    ChainPrefix(b, m, Padded(m, b.bit), |m|, |m|, k);
    if n <= 55 {
      FinishedInOne(b, m, k, n);
    } else {
      FinishedInTwo(b, m, k, n);
    }
  }

  lemma FinishedInOne<H>(b: Blake<H>, m: Bytes, k: nat, n: nat)
    requires 8 * |m| < MAX_BITS && k == |m| / 64 && n == |m| % 64 <= 55
    requires m <= Padded(m, b.bit) && Chain(b, m, |m|, k) == Chain(b, Padded(m, b.bit), |m|, k)
    ensures var p := Padded(m, b.bit); Finished(b, StateOf(b, m)).h == Chain(b, p, |m|, |p| / 64)
  {
    hide Updated, ToBytes, PadBytes, Padded, PaddedState, LengthWords, Chain;
    LengthIsRight(k, n);
    PaddedBlock(m, b.bit, k, n);
    BlockWithRoom(b, StateOf(b, m), k, ToBytes(8, 8 * |m|));
    ChainStep(b, Padded(m, b.bit), |m|, k);
  }

  lemma FinishedInTwo<H>(b: Blake<H>, m: Bytes, k: nat, n: nat)
    requires 8 * |m| < MAX_BITS && k == |m| / 64 && n == |m| % 64 > 55
    requires m <= Padded(m, b.bit) && Chain(b, m, |m|, k) == Chain(b, Padded(m, b.bit), |m|, k)
    ensures var p := Padded(m, b.bit); Finished(b, StateOf(b, m)).h == Chain(b, p, |m|, |p| / 64)
  {
    hide Updated, ToBytes, PadBytes, Padded, PaddedState, LengthWords, Chain;
    LengthIsRight(k, n);
    PaddedTwoBlocks(m, b.bit, k, n);
    BlockWithoutRoom(b, StateOf(b, m), k, ToBytes(8, 8 * |m|));
    ChainStep(b, Padded(m, b.bit), |m|, k);
    ChainStep(b, Padded(m, b.bit), |m|, k + 1);
  }

  lemma ChainStep<H>(b: Blake<H>, p: Bytes, len: nat, i: nat)
    requires 64 * (i + 1) <= |p|
    ensures Chain(b, p, len, i + 1) == b.compress(Chain(b, p, len, i), p[64 * i..64 * (i + 1)], Counter(len, i))
  {}

  lemma PaddedExtends(m: Bytes, bit: PadBit)
    ensures m <= Padded(m, bit)
  {}

  /** The padded message is whole blocks, and different messages are padded differently. */
  lemma PaddedInjective(m: Bytes, m': Bytes, bit: PadBit)
    requires 8 * |m| < MAX_BITS && 8 * |m'| < MAX_BITS
    ensures |Padded(m, bit)| % 64 == 0
    ensures Padded(m, bit) == Padded(m', bit) ==> m == m'
  {
    hide ToBytes, Pow, Value, Digits;
    var p, p' := Padded(m, bit), Padded(m', bit);
    if p == p' {
      assert ToBytes(8, 8 * |m|) == p[|p| - 8..] == p'[|p| - 8..] == ToBytes(8, 8 * |m'|);
      EightBytes();
      ValueOfDigits(256, 8, 8 * |m|);
      ValueOfDigits(256, 8, 8 * |m'|);
      assert m == p[..|m|] && m' == p'[..|m|];
    }
  }

  lemma EightBytes()
    ensures Pow(256, 8) == MAX_BITS
  {
    assert Pow(256, 4) == WORD;
  }

  // ----- whole streams

  function Concat(chunks: seq<Bytes>): Bytes {
    if chunks == [] then [] else Concat(chunks[..|chunks| - 1]) + chunks[|chunks| - 1]
  }

  function Streamed<H>(b: Blake<H>, chunks: seq<Bytes>): (r: Raw<H>)
    ensures |r.pending| < 64
  {
    if chunks == [] then Raw(b.iv, 0, 0, false, [])
    else Updated(b, Streamed(b, chunks[..|chunks| - 1]), chunks[|chunks| - 1])
  }

  /** An update appends its data exactly when it has data or nothing is buffered. */
  lemma UpdateAppendsIff<H>(b: Blake<H>, m: Bytes, data: Bytes)
    requires 8 * |m + data| < MAX_BITS
    ensures Updated(b, StateOf(b, m), data) == StateOf(b, m + data) <==> data != [] || |m| % 64 == 0
  {
    hide Chain;
    AbsorbFollows(b, m, data);
    if data == [] {
      assert m + data == m;
    }
  }

  /** What a state of m has taken in after an update: with no data, the whole blocks of m. */
  function Taken(m: Bytes, data: Bytes): (r: Bytes)
    ensures |r| <= |m + data|
  {
    if data == [] then m[..64 * (|m| / 64)] else m + data
  }

  lemma UpdateTakes<H>(b: Blake<H>, m: Bytes, data: Bytes)
    requires 8 * |m + data| < MAX_BITS
    ensures Updated(b, StateOf(b, m), data) == StateOf(b, Taken(m, data))
  {
    hide Chain;
    if data == [] {
      var k := |m| / 64;
      var whole := m[..64 * k];
      DivModUnique(0, k, 64);
      ChainPrefix(b, whole, m, |whole|, |m|, k);
    } else {
      UpdateAppendsIff(b, m, data);
    }
  }

  function TakenAll(chunks: seq<Bytes>): (r: Bytes)
    ensures |r| <= |Concat(chunks)|
  {
    if chunks == [] then [] else Taken(TakenAll(chunks[..|chunks| - 1]), chunks[|chunks| - 1])
  }

  /** The state after any sequence of updates. */
  lemma {:induction false} StreamedTakes<H>(b: Blake<H>, chunks: seq<Bytes>)
    requires 8 * |Concat(chunks)| < MAX_BITS
    ensures Streamed(b, chunks) == StateOf(b, TakenAll(chunks))
  {
    hide Updated, StateOf, Taken;
    if chunks == [] {
      EmptyState(b);
    } else {
      var front, last := chunks[..|chunks| - 1], chunks[|chunks| - 1];
      StreamedTakes(b, front);
      UpdateTakes(b, TakenAll(front), last);
    }
  }

  /** Every empty chunk comes where the buffer is empty. */
  predicate NothingLost(chunks: seq<Bytes>) {
    chunks == [] || (NothingLost(chunks[..|chunks| - 1])
                     && (chunks[|chunks| - 1] == [] ==> |Concat(chunks[..|chunks| - 1])| % 64 == 0))
  }

  lemma {:induction false} TakenAllIff(chunks: seq<Bytes>)
    ensures NothingLost(chunks) ==> TakenAll(chunks) == Concat(chunks)
    ensures !NothingLost(chunks) ==> |TakenAll(chunks)| < |Concat(chunks)|
  {
    if chunks != [] {
      var front, last := chunks[..|chunks| - 1], chunks[|chunks| - 1];
      TakenAllIff(front);
      assert last == [] ==> Concat(chunks) == Concat(front);
    }
  }

  /** The state knows the length of its message. */
  lemma StateLength<H>(b: Blake<H>, m: Bytes)
    ensures var r := StateOf(b, m); 64 * (r.t1 * BLOCKS + r.t0 / 512) + |r.pending| == |m|
  {
    hide Chain;
    var k := |m| / 64;
    assert 512 * (k % BLOCKS) / 512 == k % BLOCKS;
  }

  /** Updates append their data exactly when every empty one comes where the buffer is empty. */
  lemma StreamedFollowsIff<H>(b: Blake<H>, chunks: seq<Bytes>)
    requires 8 * |Concat(chunks)| < MAX_BITS
    ensures Streamed(b, chunks) == StateOf(b, Concat(chunks)) <==> NothingLost(chunks)
  {
    hide StateOf, Streamed;
    StreamedTakes(b, chunks);
    TakenAllIff(chunks);
    StateLength(b, TakenAll(chunks));
    StateLength(b, Concat(chunks));
  }

  lemma EmptyState<H>(b: Blake<H>)
    ensures StateOf(b, []) == Raw(b.iv, 0, 0, false, [])
  {}

  /** However a message is split into chunks of which nothing is lost, its streamed hash is
      its hash. */
  lemma StreamedHash<H>(b: Blake<H>, chunks: seq<Bytes>)
    requires NothingLost(chunks) && 8 * |Concat(chunks)| < MAX_BITS
    ensures b.output(Finished(b, Streamed(b, chunks)).h) == BlakeHash(b, Concat(chunks))
  {
    hide Finished, Padded, Chain;
    StreamedFollowsIff(b, chunks);
    FinishedIsChain(b, Concat(chunks));
  }

  /** In particular, into non-empty chunks. */
  lemma {:induction false} NonEmptyChunks(chunks: seq<Bytes>)
    requires forall i :: 0 <= i < |chunks| ==> chunks[i] != []
    ensures NothingLost(chunks)
  {
    if chunks != [] {
      NonEmptyChunks(chunks[..|chunks| - 1]);
    }
  }

  /** One byte and then an empty update: the byte is gone. */
  lemma ByteDropped<H>(b: Blake<H>, x: Byte)
    ensures Streamed(b, [[x], []]) == StateOf(b, []) != StateOf(b, [x])
  {
    hide Streamed, StateOf;
    var chunks: seq<Bytes> := [[x], []];
    assert chunks[..1] == [[x]] && [[x]][..0] == [];
    assert TakenAll([[x]]) == [x] && Concat([[x]]) == [x] && Concat(chunks) == [x];
    assert TakenAll(chunks) == [];
    StreamedTakes(b, chunks);
    StateLength(b, []);
    StateLength(b, [x]);
  }
}

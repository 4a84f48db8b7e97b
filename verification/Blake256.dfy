/** The streaming BLAKE state and HMAC as objects updated in place, proved against the fold
    over the padded message and against the construction of section 2 of RFC 2104. */
module Blake256 {
  import opened Arith
  import opened BlakeSpec
  import opened Numerals
  import opened Wrappers

  class State<H> {
    const b: Blake<H>
    var h: H
    var t0: nat
    var t1: nat
    var buflen: nat
    var nullt: bool
    const buf: array<Byte>

    ghost predicate Valid()
      reads this
    {
      buf.Length == 64 && buflen % 8 == 0 && buflen < 512
    }

    function View(): Raw<H>
      reads this, buf
      requires Valid()
    {
      Raw(h, t0, t1, nullt, buf[..buflen / 8])
    }

    constructor (b: Blake<H>)
      ensures Valid() && fresh(buf) && this.b == b
      ensures View() == StateOf(b, [])
    {
      this.b := b;
      h := b.iv;
      t0, t1, buflen, nullt := 0, 0, 0, false;
      buf := new Byte[64];
    }

    /** Advances the counter by a block and compresses. */
    method Compress(block: Bytes)
      modifies this`h, this`t0, this`t1
      ensures forall p :: Raw(h, t0, t1, nullt, []) == Compressed(b, Raw(old(h), old(t0), old(t1), nullt, p), block)
    {
      t0 := (t0 + 512) % WORD;
      if t0 == 0 {
        t1 := (t1 + 1) % WORD;
      }
      h := b.compress(h, block, if nullt then 0 else t1 * WORD + t0);
    }

    method Copy(at: nat, data: Bytes)
      requires at + |data| <= buf.Length
      modifies buf
      ensures buf[..at + |data|] == old(buf[..at]) + data
    {
      forall j | 0 <= j < |data| {
        buf[at + j] := data[j];
      }
    }

    /** Compresses whole blocks of data from `start` on, past the buffer. */
    method CompressBlocks(data: Bytes, start: nat) returns (pos: nat)
      requires start <= |data|
      modifies this`h, this`t0, this`t1
      ensures start <= pos <= |data| < pos + 64
      ensures |data| < start + 64 ==> pos == start && h == old(h) && t0 == old(t0) && t1 == old(t1)
      ensures Absorb(b, Raw(old(h), old(t0), old(t1), nullt, []), data[start..])
           == Absorb(b, Raw(h, t0, t1, nullt, []), data[pos..])
    {
      hide Compressed, Absorb;
      pos := start;
      while |data| - pos >= 64
        invariant start <= pos <= |data|
        invariant |data| < start + 64 ==> pos == start && h == old(h) && t0 == old(t0) && t1 == old(t1)
        invariant Absorb(b, Raw(old(h), old(t0), old(t1), nullt, []), data[start..])
               == Absorb(b, Raw(h, t0, t1, nullt, []), data[pos..])
      {
        AbsorbBlock(b, Raw(h, t0, t1, nullt, []), data[pos..]);
        assert data[pos..][..64] == data[pos..pos + 64] && data[pos..][64..] == data[pos + 64..];
        Compress(data[pos..pos + 64]);
        pos := pos + 64;
      }
    }

    method Update(data: Bytes)
      requires Valid()
      modifies this, buf
      ensures Valid() && View() == Updated(b, old(View()), data)
    {
      hide Compressed, Absorb;
      ghost var r := View();
      var left := buflen / 8;
      var fill := 64 - left;
      var pos := 0;
      if left != 0 && |data| >= fill {
        Copy(left, data[..fill]);
        assert buf[..] == r.pending + data[..fill];
        Compress(buf[..]);
        AbsorbFull(b, r, data, fill);
        pos := fill;
        left := 0;
      } else if left == 0 {
        assert r.pending == [] && data[0..] == data;
      }
      assert left == 0 ==> Absorb(b, r, data) == Absorb(b, Raw(h, t0, t1, nullt, []), data[pos..]);
      pos := CompressBlocks(data, pos);
      if pos < |data| {
        var rest := data[pos..];
        ghost var before := Raw(h, t0, t1, nullt, buf[..left]);
        assert left != 0 ==> rest == data && before == r;
        assert left == 0 ==> before == Raw(h, t0, t1, nullt, []);
        AbsorbFits(b, before, rest);
        Copy(left, rest);
        buflen := 8 * (left + |rest|);
        assert View() == before.(pending := before.pending + rest);
      } else {
        buflen := 0;
        assert data[pos..] == [];
        NothingToAbsorb(b, Raw(h, t0, t1, nullt, []));
      }
    }

    /** Takes padding bits off the counter's low word. */
    method Discount(bits: nat)
      requires Valid()
      modifies this`t0
      ensures Valid() && View() == MinusBits(old(View()), bits)
    {
      t0 := (t0 - bits) % WORD;
    }

    /** The padding, up to where the length goes. */
    method Pad()
      requires Valid()
      modifies this, buf
      ensures Valid() && View() == PaddedState(b, old(View()))
    {
      hide Updated, MinusBits;
      var n := buflen / 8;
      ghost var r := View();
      if buflen == 440 {
        Discount(8);
        Update([0x80 + b.bit]);
      } else {
        if buflen < 440 {
          if buflen == 0 {
            nullt := true;
          }
          Discount(440 - buflen);
          Update([0x80] + Zeros(54 - n));
          assert View() == Filled(b, r);
        } else {
          Discount(512 - buflen);
          Update([0x80] + Zeros(63 - n));
          Discount(440);
          Update(Zeros(55));
          nullt := true;
          assert View() == Overflowed(b, r);
        }
        Update([b.bit]);
        Discount(8);
      }
    }

    method Final() returns (digest: Bytes)
      requires Valid()
      modifies this, buf
      ensures Valid() && digest == b.output(Finished(b, old(View())).h)
    {
      hide Updated, MinusBits, PaddedState, ToBytes;
      var lo := (t0 + buflen) % WORD;
      var hi := if lo < buflen then (t1 + 1) % WORD else t1;
      var msglen := ToBytes(4, hi) + ToBytes(4, lo);
      Pad();
      Discount(64);
      Update(msglen);
      digest := b.output(h);
    }
  }

  /** blake256_hash, and blake224_hash with its own parameters. */
  method Hash<H>(b: Blake<H>, m: Bytes) returns (digest: Bytes)
    requires 8 * |m| < MAX_BITS
    ensures digest == BlakeHash(b, m)
  {
    hide Updated, Finished, StateOf, Chain, Padded;
    var s := new State(b);
    UpdateAppendsIff(b, [], m);
    assert [] + m == m;
    s.Update(m);
    digest := s.Final();
    FinishedIsChain(b, m);
  }

  // ----- HMAC

  /** The key filled up with zeros to a block, hashed first if it is longer than a block. */
  function KeyBlock<H(!new)>(b: Blake<H>, key: Bytes): (k: Bytes)
    requires OutputSize(b)
    ensures |k| == 64
  {
    var k := if |key| > 64 then BlakeHash(b, key) else key;
    k + Zeros(64 - |k|)
  }

  ghost predicate OutputSize<H(!new)>(b: Blake<H>) {
    forall h {:trigger b.output(h)} :: |b.output(h)| == 32
  }

  function XorByte(x: Byte, y: Byte): Byte {
    assert Pow2(4) == 16 && Pow2(8) == 256;
    XorBits(x, y, 8)
  }

  function XorAll(block: Bytes, x: Byte): Bytes {
    seq(|block|, i requires 0 <= i < |block| => XorByte(x, block[i]))
  }

  /** Each pad byte is the exclusive or of the key byte and the constant, so the pad determines the
      key block. */
  lemma PadBits(block: Bytes, x: Byte, k: nat, i: nat)
    requires k < |block| && i < 8
    ensures |XorAll(block, x)| == |block| && Bit(XorAll(block, x)[k], i) == (Bit(x, i) + Bit(block[k], i)) % 2
    ensures XorBits(XorAll(block, x)[k], block[k], 8) == x
  {
    hide Bit, XorBits;
    assert Pow2(4) == 16 && Pow2(8) == 256;
    XorBit(x, block[k], 8, i);
    XorTwice(x, block[k], 8);
  }

  /** H((K ^ opad) || H((K ^ ipad) || m)). */
  function HmacSpec<H(!new)>(b: Blake<H>, key: Bytes, m: Bytes): Bytes
    requires OutputSize(b)
  {
    var k := KeyBlock(b, key);
    BlakeHash(b, XorAll(k, 0x5c) + BlakeHash(b, XorAll(k, 0x36) + m))
  }

  /** memset and the loop over the key bytes. */
  method MakePad(key: Bytes, x: Byte) returns (pad: Bytes)
    requires |key| <= 64
    ensures pad == XorAll(key + Zeros(64 - |key|), x)
  {
    var a := new Byte[64](_ => x);
    for i := 0 to |key|
      invariant forall j :: 0 <= j < i ==> a[j] == XorByte(x, key[j])
      invariant forall j :: i <= j < 64 ==> a[j] == x
    {
      a[i] := XorByte(a[i], key[i]);
    }
    assert XorByte(x, 0) == x by {
      assert Pow2(4) == 16 && Pow2(8) == 256;
      XorZero(x, 8);
    }
    pad := a[..];
  }

  /** A state that has taken in one pad. */
  method Started<H>(b: Blake<H>, pad: Bytes) returns (s: State<H>)
    requires |pad| == 64
    ensures fresh(s) && s.Valid() && fresh(s.buf) && s.b == b && s.View() == StateOf(b, pad)
  {
    hide Updated, StateOf;
    s := new State(b);
    s.Update(pad);
    UpdateAppendsIff(b, [], pad);
    assert [] + pad == pad;
  }

  class Hmac<H(!new)> {
    const b: Blake<H>
    const inner: State<H>
    const outer: State<H>

    ghost predicate Valid()
      reads this, inner, outer
    {
      inner.Valid() && outer.Valid() && inner != outer && inner.buf != outer.buf && inner.b == outer.b == b
    }

    /** The inner state has taken in the key block and m, the outer one the key block. */
    ghost predicate Holds(key: Bytes, m: Bytes)
      reads this, inner, outer, inner.buf, outer.buf
      requires Valid() && OutputSize(b)
    {
      && inner.View() == StateOf(b, XorAll(KeyBlock(b, key), 0x36) + m)
      && outer.View() == StateOf(b, XorAll(KeyBlock(b, key), 0x5c))
    }

    constructor (b: Blake<H>, key: Bytes)
      requires OutputSize(b) && 8 * |key| < MAX_BITS
      ensures Valid() && this.b == b && Holds(key, [])
      ensures fresh(inner) && fresh(outer) && fresh(inner.buf) && fresh(outer.buf)
    {
      hide Updated, StateOf, Chain, BlakeHash;
      var k := key;
      if |key| > 64 {
        k := Hash(b, key);
        HashSize(b, key);
      }
      var pad := MakePad(k, 0x36);
      var i := Started(b, pad);
      assert pad + [] == pad;
      pad := MakePad(k, 0x5c);
      var o := Started(b, pad);
      this.b, inner, outer := b, i, o;
    }

    method Update(data: Bytes, ghost key: Bytes, ghost m: Bytes)
      requires Valid() && OutputSize(b) && Holds(key, m) && 8 * (64 + |m + data|) < MAX_BITS
      modifies inner, inner.buf
      ensures Valid() && Holds(key, Taken(m, data))
    {
      hide Updated, StateOf, KeyBlock;
      ghost var k := XorAll(KeyBlock(b, key), 0x36);
      UpdateTakes(b, k + m, data);
      TakenBehind(k, m, data);
      inner.Update(data);
    }

    method Final(ghost key: Bytes, ghost m: Bytes) returns (digest: Bytes)
      requires Valid() && OutputSize(b) && Holds(key, m) && 8 * (64 + |m|) < MAX_BITS
      modifies inner, inner.buf, outer, outer.buf
      ensures digest == HmacSpec(b, key, m)
    {
      hide Updated, StateOf, KeyBlock, Finished, Chain, Padded;
      ghost var k := KeyBlock(b, key);
      FinishedIsChain(b, XorAll(k, 0x36) + m);
      var ihash := inner.Final();
      outer.Update(ihash);
      UpdateAppendsIff(b, XorAll(k, 0x5c), ihash);
      FinishedIsChain(b, XorAll(k, 0x5c) + ihash);
      digest := outer.Final();
    }
  }

  lemma TakenBehind(k: Bytes, m: Bytes, data: Bytes)
    requires |k| == 64
    ensures Taken(k + m, data) == k + Taken(m, data)
  {
    assert |k + m| / 64 == 1 + |m| / 64;
  }

  lemma HashSize<H(!new)>(b: Blake<H>, m: Bytes)
    requires OutputSize(b)
    ensures |BlakeHash(b, m)| == 32
  {}

  /** hmac_blake256_hash is HMAC over BLAKE-256. */
  method HmacHash<H(!new)>(b: Blake<H>, key: Bytes, m: Bytes) returns (digest: Bytes)
    requires OutputSize(b) && 8 * |key| < MAX_BITS && 8 * (64 + |m|) < MAX_BITS
    ensures digest == HmacSpec(b, key, m)
  {
    var s := new Hmac(b, key);
    assert [] + m == m;
    s.Update(m, key, []);
    digest := s.Final(key, m);
  }

  lemma AbsorbBlock<H>(b: Blake<H>, r: Raw<H>, data: Bytes)
    requires r.pending == [] && |data| >= 64
    ensures Absorb(b, r, data) == Absorb(b, Compressed(b, r, data[..64]), data[64..])
  {
    assert [] + data[..64] == data[..64];
  }

  lemma AbsorbFull<H>(b: Blake<H>, r: Raw<H>, data: Bytes, fill: nat)
    requires |r.pending| < 64 && fill == 64 - |r.pending| <= |data|
    ensures Absorb(b, r, data) == Absorb(b, Compressed(b, r, r.pending + data[..fill]), data[fill..])
  {}

  lemma NothingToAbsorb<H>(b: Blake<H>, r: Raw<H>)
    requires r.pending == []
    ensures Absorb(b, r, []) == r
  {}
}

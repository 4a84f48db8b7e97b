/** Variable-length integers: seven bits a byte, low bits first, high bit on all but the
    last. Placing bits that do not overlap is written as addition. */
module Varint {
  import opened Arith
  import opened Wrappers

  lemma Pow2Seven(k: nat)
    ensures Pow2(7) == 128 && Pow2(k + 7) == 128 * Pow2(k)
  {
    Pow2Add(7, k);
    assert Pow2(7) == 128 by { assert Pow2(1) == 2 && Pow2(3) == 8 && Pow2(5) == 32; }
  }

  // ----- writing

  function Encoded(v: nat): Bytes {
    if v < 128 then [v] else [v % 128 + 128] + Encoded(v / 128)
  }

  method WriteVarint(v: nat) returns (dest: Bytes)
    ensures dest == Encoded(v)
  {
    var i := v;
    dest := [];
    while i >= 0x80
      invariant dest + Encoded(i) == Encoded(v)
    {
      ghost var before := dest;
      dest := dest + [i % 128 + 128];
      assert before + Encoded(i) == dest + Encoded(i / 128);
      i := i / 128;
    }
    dest := dest + [i];
  }

  // ----- reading

  /** Read: a count of bytes and a value. The count covers input that ends in mid-number. */
  datatype ReadResult = Overflow | NotCanonical | Read(count: nat, value: nat)

  /** Continues after n bytes that gave `value`. */
  function ReadFrom(bits: nat, input: Bytes, n: nat, value: nat): ReadResult
    requires n <= |input| && 7 * n <= bits
    decreases |input| - n
  {
    var shift := 7 * n;
    if n == |input| then Read(n, value)
    else if shift + 7 >= bits && input[n] >= Pow2(bits - shift) then Overflow
    else if input[n] == 0 && shift != 0 then NotCanonical
    else
      var value' := value + (input[n] % 128) * Pow2(shift);
      if input[n] < 128 then Read(n + 1, value')
      else
        LastByteHasNoFlag(bits - shift);
        ReadFrom(bits, input, n + 1, value')
  }

  function ReadAll(bits: nat, input: Bytes): ReadResult {
    ReadFrom(bits, input, 0, 0)
  }

  /** Where at most seven bits are left, a byte that fits them has no continuation flag; so
      the shift never exceeds the width. */
  lemma LastByteHasNoFlag(left: nat)
    ensures left <= 7 ==> Pow2(left) <= 128
  {
    if left <= 7 {
      Pow2Monotone(left, 7);
      Pow2Seven(0);
    }
  }

  method ReadVarint(bits: nat, input: Bytes) returns (r: ReadResult)
    ensures r == ReadAll(bits, input)
  {
    var read, write, shift := 0, 0, 0;
    while true
      invariant read <= |input| && shift == 7 * read <= bits && write >= 0
      invariant ReadAll(bits, input) == ReadFrom(bits, input, read, write)
      decreases |input| - read
    {
      if read == |input| {
        return Read(read, write);
      }
      var byte := input[read];
      read := read + 1;
      if shift + 7 >= bits && byte >= Pow2(bits - shift) {
        return Overflow;
      }
      if byte == 0 && shift != 0 {
        return NotCanonical;
      }
      write := write + (byte % 128) * Pow2(shift);
      if byte < 128 {
        return Read(read, write);
      }
      LastByteHasNoFlag(bits - shift);
      shift := shift + 7;
    }
  }

  // ----- reading inverts writing

  lemma {:induction false} ReadInverts(bits: nat, input: Bytes, n: nat, v: nat, acc: nat)
    requires 7 * n <= bits && v < Pow2(bits - 7 * n) && (n > 0 ==> v > 0)
    requires n + |Encoded(v)| <= |input| && input[n..n + |Encoded(v)|] == Encoded(v)
    ensures ReadFrom(bits, input, n, acc) == Read(n + |Encoded(v)|, acc + v * Pow2(7 * n))
    decreases v
  {
    hide Pow2;
    var shift := 7 * n;
    LastByteHasNoFlag(bits - shift);
    assert input[n] == Encoded(v)[0];
    if v >= 128 {
      assert shift + 7 < bits;
      Pow2Seven(bits - shift - 7);
      Pow2Seven(shift);
      assert input[n + 1..n + |Encoded(v)|] == Encoded(v)[1..] == Encoded(v / 128);
      ReadInverts(bits, input, n + 1, v / 128, acc + (v % 128) * Pow2(shift));
      SplitValue(v, Pow2(shift));
    }
  }

  lemma SplitValue(v: nat, p: nat)
    ensures (v % 128) * p + (v / 128) * (128 * p) == v * p
  {
    assert (v / 128) * (128 * p) == (v / 128 * 128) * p;
    Distribute(v % 128, -(v / 128 * 128), p);
  }

  /** For every width: what was written is read back, whatever follows it. */
  lemma ReadWritten(bits: nat, v: nat, suffix: Bytes)
    requires v < Pow2(bits)
    ensures ReadAll(bits, Encoded(v) + suffix) == Read(|Encoded(v)|, v)
  {
    ReadInverts(bits, Encoded(v) + suffix, 0, v, 0);
    assert Pow2(0) == 1;
  }

  // ----- only what was written is read

  lemma {:induction false} ReadCanonical(bits: nat, input: Bytes, n: nat, acc: nat) returns (w: nat)
    requires n <= |input| && 7 * n <= bits
    requires var r := ReadFrom(bits, input, n, acc); r.Read? && r.count > n && r.count <= |input| && input[r.count - 1] < 128
    ensures var r := ReadFrom(bits, input, n, acc);
            && r.value == acc + w * Pow2(7 * n) && input[n..r.count] == Encoded(w)
            && w < Pow2(bits - 7 * n) && (n > 0 ==> w > 0)
    decreases |input| - n
  {
    var r := ReadFrom(bits, input, n, acc);
    var b, shift := input[n], 7 * n;
    LastByteHasNoFlag(bits - shift);
    if b < 128 {
      w := b;
      assert input[n..n + 1] == [b];
      if shift + 7 < bits {
        Pow2Monotone(7, bits - shift);
        Pow2Seven(0);
      }
    } else {
      var acc' := acc + (b % 128) * Pow2(shift);
      CountGrows(bits, input, n + 1, acc');
      var w' := ReadCanonical(bits, input, n + 1, acc');
      w := b % 128 + 128 * w';
      assert w / 128 == w' && w % 128 == b % 128 == b - 128;
      assert input[n..r.count] == [b] + input[n + 1..r.count];
      Pow2Seven(shift);
      Pow2Seven(bits - shift - 7);
      SplitValue(w, Pow2(shift));
    }
  }

  /** A read does not stop after a continuation byte unless the input ends there. */
  lemma {:induction false} CountGrows(bits: nat, input: Bytes, n: nat, acc: nat)
    requires n <= |input| && 7 * n <= bits && ReadFrom(bits, input, n, acc).Read?
    ensures var r := ReadFrom(bits, input, n, acc);
            && n <= r.count <= |input|
            && (r.count == n <==> n == |input|)
            && (forall i :: n <= i < r.count - 1 ==> input[i] >= 128)
            && (r.count < |input| ==> input[r.count - 1] < 128)
    decreases |input| - n
  {
    if n < |input| && input[n] >= 128 {
      LastByteHasNoFlag(bits - 7 * n);
      CountGrows(bits, input, n + 1, acc + (input[n] % 128) * Pow2(7 * n));
    }
  }

  /** A successful read that ends in a byte without flag consumed exactly what writing its
      value gives; any other ran out of input. */
  lemma ReadIsWritten(bits: nat, input: Bytes)
    requires ReadAll(bits, input).Read?
    ensures var r := ReadAll(bits, input);
            && r.count <= |input|
            && (r.count > 0 && input[r.count - 1] < 128 ==>
                  input[..r.count] == Encoded(r.value) && r.value < Pow2(bits))
            && (r.count == 0 || input[r.count - 1] >= 128 ==>
                  r.count == |input| && forall i :: 0 <= i < |input| ==> input[i] >= 128)
  {
    hide Pow2, Encoded, ReadFrom;
    Pow2Seven(0);
    var r := ReadAll(bits, input);
    CountGrows(bits, input, 0, 0);
    if r.count > 0 && input[r.count - 1] < 128 {
      var w := ReadCanonical(bits, input, 0, 0);
      assert input[0..r.count] == input[..r.count];
    }
  }

  lemma {:induction false} EncodedEnds(v: nat)
    ensures Encoded(v) != [] && Encoded(v)[|Encoded(v)| - 1] < 128
  {
    if v >= 128 { EncodedEnds(v / 128); }
  }

  lemma {:induction false} EncodedInjective(v: nat, w: nat)
    requires Encoded(v) == Encoded(w)
    ensures v == w
    decreases v
  {
    EncodedSize(v);
    EncodedSize(w);
    assert Encoded(v)[0] == Encoded(w)[0];
    if v >= 128 {
      assert Encoded(v)[1..] == Encoded(v / 128) && Encoded(w)[1..] == Encoded(w / 128);
      EncodedInjective(v / 128, w / 128);
    }
  }

  lemma EncodedSize(v: nat)
    ensures |Encoded(v)| >= 1 && (v >= 128 <==> Encoded(v)[0] >= 128)
  {}
}

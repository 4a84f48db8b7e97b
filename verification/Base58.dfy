/** Base-58 text in blocks: eight bytes to eleven symbols, shorter last blocks to fewer. */
module Base58 {
  import opened Arith
  import opened Numerals
  import opened Wrappers

  const WORD := 0x1_0000_0000_0000_0000

  const ALPHABET := "123456789" + "ABCDEFGH" + "JKLMN" + "PQRSTUVWXYZ" + "abcdefghijk" + "mnopqrstuvwxyz"

  /** The alphabet as its six runs of consecutive characters. */
  function Symbol(d: nat): char
    requires d < 58
  {
    if d < 9 then ('1' as int + d) as char
    else if d < 17 then ('A' as int + d - 9) as char
    else if d < 22 then ('J' as int + d - 17) as char
    else if d < 33 then ('P' as int + d - 22) as char
    else if d < 44 then ('a' as int + d - 33) as char
    else ('m' as int + d - 44) as char
  }

  lemma AlphabetIsSymbols(d: nat)
    requires d < 58
    ensures |ALPHABET| == 58 && ALPHABET[d] == Symbol(d)
  {}

  /** The place of c in the alphabet, or -1. */
  function Digit(c: char): (d: int)
    ensures -1 <= d < 58
    ensures d >= 0 ==> Symbol(d) == c
    ensures d < 0 ==> forall k: nat :: k < 58 ==> Symbol(k) != c
  {
    var x := c as int;
    if '1' as int <= x <= '9' as int then x - '1' as int
    else if 'A' as int <= x <= 'H' as int then x - 'A' as int + 9
    else if 'J' as int <= x <= 'N' as int then x - 'J' as int + 17
    else if 'P' as int <= x <= 'Z' as int then x - 'P' as int + 22
    else if 'a' as int <= x <= 'k' as int then x - 'a' as int + 33
    else if 'm' as int <= x <= 'z' as int then x - 'm' as int + 44
    else -1
  }

  function Lookup(table: seq<int>, c: char): int {
    var idx := c as int - '1' as int;
    if 0 <= idx < |table| then table[idx] else -1
  }

  method ReverseAlphabet() returns (data: array<int>)
    ensures fresh(data) && forall c: char :: Lookup(data[..], c) == Digit(c)
  {
    data := new int[74](_ => -1);
    for i := 0 to 58
      invariant forall c: char :: Lookup(data[..], c) == if Digit(c) < i then Digit(c) else -1
    {
      AlphabetIsSymbols(i);
      data[ALPHABET[i] as int - '1' as int] := i;
    }
  }

  function EncodedSize(n: nat): (m: nat)
    requires n <= 8
    ensures n <= m <= 11 && (n < 8 ==> m < 11)
  {
    [0, 2, 3, 5, 6, 7, 9, 10, 11][n]
  }

  function DecodedSize(m: nat): (n: int)
    requires m <= 11
    ensures -1 <= n <= 8 && (n == 0 <==> m == 0) && (n == 8 <==> m == 11)
  {
    [0, -1, 1, 2, -1, 3, 4, 5, -1, 6, 7, 8][m]
  }

  // ----- one block

  function Spell(ds: seq<nat>): string
    requires Proper(58, ds)
  {
    seq(|ds|, i requires 0 <= i < |ds| => Symbol(ds[i]))
  }

  predicate Symbols(s: string) {
    forall i :: 0 <= i < |s| ==> Digit(s[i]) >= 0
  }

  function Unspell(s: string): (ds: seq<nat>)
    requires Symbols(s)
    ensures |ds| == |s| && Proper(58, ds)
  {
    seq(|s|, i requires 0 <= i < |s| => Digit(s[i]))
  }

  /** The big-endian number in the block, in as many base-58 digits as its size calls for. */
  function BlockText(block: Bytes): (s: string)
    requires 1 <= |block| <= 8
    ensures |s| == EncodedSize(|block|)
  {
    Spell(Digits(58, EncodedSize(|block|), Value(256, block)))
  }

  /** A block is refused for its length, for a character outside the alphabet, or for a number
      too large for the bytes; nothing else. */
  function BlockBytes(s: string): Option<Bytes>
    requires 1 <= |s| <= 11
  {
    var n := DecodedSize(|s|);
    if n < 0 || !Symbols(s) then None
    else if Value(58, Unspell(s)) >= Pow(256, n) then None
    else Some(ToBytes(n, Value(58, Unspell(s))))
  }

  lemma Powers()
    ensures Pow(256, 1) == 0x100 && Pow(256, 2) == 0x1_0000 && Pow(256, 3) == 0x100_0000
    ensures Pow(256, 4) == 0x1_0000_0000 && Pow(256, 5) == 0x100_0000_0000
    ensures Pow(256, 6) == 0x1_0000_0000_0000 && Pow(256, 7) == 0x100_0000_0000_0000
    ensures Pow(256, 8) == WORD
    ensures Pow(58, 2) == 3364 && Pow(58, 3) == 195112 && Pow(58, 5) == 656356768
    ensures Pow(58, 6) == 38068692544 && Pow(58, 7) == 2207984167552
    ensures Pow(58, 9) == 7427658739644928 && Pow(58, 10) == 430804206899405824
    ensures Pow(58, 11) == 24986644000165537792
  {
    assert Pow(256, 0) == 1 && Pow(58, 0) == 1 && Pow(58, 1) == 58;
    assert Pow(58, 4) == 11316496 && Pow(58, 8) == 128063081718016;
  }

  /** The size table gives every block enough symbols. */
  lemma TextHoldsBlock(n: nat)
    requires 1 <= n <= 8
    ensures Pow(256, n) <= Pow(58, EncodedSize(n)) && Pow(256, n) <= WORD
    ensures DecodedSize(EncodedSize(n)) == n
  {
    hide Pow;
    Powers();
  }

  lemma SizesMatch(m: nat)
    requires m <= 11 && DecodedSize(m) >= 0
    ensures DecodedSize(m) <= 8 && EncodedSize(DecodedSize(m)) == m
  {}

  lemma UnspellSpell(ds: seq<nat>)
    requires Proper(58, ds)
    ensures Symbols(Spell(ds)) && Unspell(Spell(ds)) == ds
  {
    forall i | 0 <= i < |ds|
      ensures Digit(Spell(ds)[i]) == ds[i]
    {
      SymbolsDiffer(ds[i], Digit(Spell(ds)[i]));
    }
  }

  lemma SymbolsDiffer(d: nat, k: int)
    requires d < 58 && -1 <= k < 58
    ensures k >= 0 && Symbol(k) == Symbol(d) ==> k == d
  {}

  lemma BlockDecodes(block: Bytes)
    requires 1 <= |block| <= 8
    ensures BlockBytes(BlockText(block)) == Some(block)
  {
    hide Pow, Symbol, Digits, Value, Digit;
    var n, v := |block|, Value(256, block);
    TextHoldsBlock(n);
    ValueBound(256, block);
    UnspellSpell(Digits(58, EncodedSize(n), v));
    ValueOfDigits(58, EncodedSize(n), v);
    DigitsOfValue(256, block);
  }

  lemma BlockEncodes(s: string)
    requires 1 <= |s| <= 11 && BlockBytes(s).Some?
    ensures var b := BlockBytes(s).value; 1 <= |b| <= 8 && DecodedSize(|s|) == |b| && BlockText(b) == s
  {
    hide Pow, Symbol, Digits, Value, Digit;
    var ds := Unspell(s);
    SizesMatch(|s|);
    ValueOfDigits(256, DecodedSize(|s|), Value(58, ds));
    DigitsOfValue(58, ds);
    assert Spell(ds) == s;
  }

  /** Fills a slot that holds only '1', from its end; never writes before the slot. */
  method EncodeBlock(block: Bytes, res: array<char>, at: nat)
    requires 1 <= |block| <= 8 && at + EncodedSize(|block|) <= res.Length
    requires forall j :: at <= j < at + EncodedSize(|block|) ==> res[j] == '1'
    modifies res
    ensures res[..] == old(res[..at]) + BlockText(block) + old(res[at + EncodedSize(|block|)..])
  {
    hide Pow, Value, EncodedSize, DecodedSize, Digits, Symbol;
    ghost var size, v := EncodedSize(|block|), Value(256, block);
    ghost var digits := Digits(58, size, v);
    ValueBound(256, block);
    TextHoldsBlock(|block|);
    var num := Value(256, block);
    var i := EncodedSize(|block|) - 1;
    while 0 < num
      invariant -1 <= i < size && 0 <= num < Pow(58, i + 1)
      invariant Digits(58, i + 1, num) == digits[..i + 1]
      invariant forall j :: at <= j <= at + i ==> res[j] == '1'
      invariant forall j :: at + i < j < at + size ==> res[j] == Symbol(digits[j - at])
      invariant forall j :: (0 <= j < at || at + size <= j < res.Length) ==> res[j] == old(res[j])
    {
      NextDigit(i, num);
      assert digits[..i + 1][i] == num % 58;
      assert digits[..i] == digits[..i + 1][..i];
      res[at + i] := Symbol(num % 58);
      num := num / 58;
      i := i - 1;
    }
    SlotFilled(old(res[..]), res[..], at, digits, i);
  }

  lemma SlotFilled(before: string, after: string, at: nat, digits: seq<nat>, i: int)
    requires |before| == |after| && at + |digits| <= |before| && -1 <= i < |digits|
    requires Proper(58, digits) && Digits(58, i + 1, 0) == digits[..i + 1]
    requires forall j :: at <= j <= at + i ==> after[j] == '1'
    requires forall j :: at + i < j < at + |digits| ==> after[j] == Symbol(digits[j - at])
    requires forall j :: (0 <= j < at || at + |digits| <= j < |before|) ==> after[j] == before[j]
    ensures after == before[..at] + Spell(digits) + before[at + |digits|..]
  {
    hide Symbol, Digits;
    forall j | 0 <= j <= i
      ensures Symbol(digits[j]) == '1'
    {
      FirstSymbol();
      ZeroDigits(58, i + 1, j);
      assert digits[..i + 1][j] == digits[j];
    }
  }

  lemma FirstSymbol()
    ensures Symbol(0) == '1'
  {}

  lemma NextDigit(i: int, num: nat)
    requires -1 <= i && 0 < num < Pow(58, i + 1)
    ensures i >= 0 && num / 58 < Pow(58, i)
    ensures Digits(58, i + 1, num) == Digits(58, i, num / 58) + [num % 58]
  {}

  method DecodeBlock(block: string, res: array<Byte>, at: nat) returns (ok: bool)
    requires 1 <= |block| <= 11 && at + DecodedSize(|block|) <= res.Length
    modifies res
    ensures ok == BlockBytes(block).Some?
    ensures ok ==> DecodedSize(|block|) >= 0 && res[..] == old(res[..at]) + BlockBytes(block).value + old(res[at + DecodedSize(|block|)..])
    ensures !ok ==> res[..] == old(res[..])
  {
    hide Pow, Value, Digits, Digit, DecodedSize, EncodedSize, ToBytes, Symbols, Unspell;
    var size := DecodedSize(|block|);
    if size <= 0 {
      return false;
    }
    Powers();
    TextHoldsBlock(size);
    var number := BlockNumber(block);
    if number.None? {
      return false;
    }
    if size < 8 && Pow(256, size) <= number.value {
      return false;
    }
    var bytes := ToBytes(size, number.value);
    CopyBytes(bytes, res, at);
    return true;
  }

  method CopyBytes(bytes: Bytes, res: array<Byte>, at: nat)
    requires at + |bytes| <= res.Length
    modifies res
    ensures res[..] == old(res[..at]) + bytes + old(res[at + |bytes|..])
  {
    for j := 0 to |bytes|
      invariant res[..] == old(res[..at]) + bytes[..j] + old(res[at + j..])
    {
      res[at + j] := bytes[j];
    }
  }

  /** The scan from the last symbol, in 64-bit arithmetic that may not wrap unnoticed. */
  method BlockNumber(block: string) returns (r: Option<nat>)
    requires 1 <= |block| <= 11
    ensures r.Some? <==> Symbols(block) && Value(58, Unspell(block)) < WORD
    ensures r.Some? ==> r.value == Value(58, Unspell(block))
  {
    hide Pow, Value, Digit, DecodedSize, EncodedSize, Unspell, Symbols, Product, NextOrder;
    var resNum, order := 0, 1;
    var i := |block|;
    assert block[|block|..] == [];
    EmptyNumber();
    while i > 0
      invariant 0 <= i <= |block| && 0 <= resNum < WORD && 0 <= order < WORD
      invariant Symbols(block[i..]) && resNum == Value(58, Unspell(block[i..]))
      invariant |block| - i <= 10 ==> order == Pow(58, |block| - i)
    {
      i := i - 1;
      var digit := Digit(block[i]);
      if digit < 0 {
        NotSymbol(block, i);
        return None;
      }
      NextValue(block, i);
      var sum := AddChecked(resNum, order, digit);
      if sum.None? {
        TailValue(block, i);
        return None;
      }
      resNum := sum.value;
      OrderFits(|block| - i, order);
      order := NextOrder(order);
    }
    assert block[0..] == block;
    return Some(resNum);
  }

  lemma NotSymbol(s: string, i: nat)
    requires i < |s| && Digit(s[i]) < 0
    ensures !Symbols(s)
  {}

  lemma EmptyNumber()
    ensures Pow(58, 0) == 1 && Symbols([]) && Value(58, Unspell([])) == 0
  {}

  function Product(a: nat, b: nat): nat {
    a * b
  }

  function NextOrder(order: nat): (r: nat)
    ensures r < WORD
  {
    order * 58 % WORD
  }

  /** 64-bit addition of a 128-bit product, refused where the sum does not fit. */
  method AddChecked(resNum: nat, order: nat, digit: nat) returns (r: Option<nat>)
    requires resNum < WORD
    ensures var sum := resNum + Product(order, digit); r == if sum < WORD then Some(sum) else None
  {
    var product := Product(order, digit);
    var productHi, productLo := product / WORD, product % WORD;
    var tmp := (resNum + productLo) % WORD;
    if tmp < resNum || productHi != 0 {
      return None;
    }
    return Some(tmp);
  }

  lemma OrderFits(k: nat, order: nat)
    requires 1 <= k <= 11 && order == Pow(58, k - 1)
    ensures k <= 10 ==> NextOrder(order) == Pow(58, k)
  {
    hide Pow;
    Powers();
    PowStep(58, k);
    if k <= 10 {
      PowGrows(58, k, 10);
    }
  }

  lemma {:induction false} PowGrows(base: nat, a: nat, b: nat)
    requires base >= 1 && a <= b
    ensures Pow(base, a) <= Pow(base, b)
  {
    if a < b {
      PowGrows(base, a, b - 1);
      Scale(1, base, Pow(base, b - 1));
    }
  }

  lemma NextValue(s: string, i: nat)
    requires i < |s| && Symbols(s[i + 1..]) && Digit(s[i]) >= 0
    ensures Symbols(s[i..])
    ensures Value(58, Unspell(s[i..])) == Product(Pow(58, |s| - i - 1), Digit(s[i])) + Value(58, Unspell(s[i + 1..]))
  {
    hide Pow, Value, Digit;
    assert forall j :: 0 < j < |s[i..]| ==> s[i..][j] == s[i + 1..][j - 1];
    assert Unspell(s[i..]) == [Digit(s[i])] + Unspell(s[i + 1..]);
    ValueHead(58, Digit(s[i]), Unspell(s[i + 1..]));
  }

  /** A tail of a number is at most the number. */
  lemma {:induction false} TailValue(s: string, i: nat)
    requires i <= |s| && Symbols(s[i..])
    ensures Symbols(s) ==> Value(58, Unspell(s[i..])) <= Value(58, Unspell(s))
  {
    hide Pow, Value, Digit;
    assert s[0..] == s;
    if Symbols(s) && i > 0 {
      NextValue(s, i - 1);
      TailValue(s, i - 1);
    }
  }

  // ----- the whole text

  function Encoded(data: Bytes): string {
    if data == [] then []
    else if |data| < 8 then BlockText(data)
    else BlockText(data[..8]) + Encoded(data[8..])
  }

  function Decoded(enc: string): Option<Bytes> {
    if enc == [] then Some([])
    else if |enc| < 11 then BlockBytes(enc)
    else
      match (BlockBytes(enc[..11]), Decoded(enc[11..]))
      case (Some(b), Some(rest)) => Some(b + rest)
      case _ => None
  }

  lemma {:induction false} DecodeEncoded(data: Bytes)
    ensures Decoded(Encoded(data)) == Some(data)
  {
    hide BlockText, BlockBytes;
    if data != [] {
      if |data| < 8 {
        BlockDecodes(data);
      } else {
        BlockDecodes(data[..8]);
        DecodeEncoded(data[8..]);
        var text, rest := BlockText(data[..8]), Encoded(data[8..]);
        assert (text + rest)[..11] == text && (text + rest)[11..] == rest;
        assert data[..8] + data[8..] == data;
      }
    }
  }

  lemma {:induction false} EncodeDecoded(enc: string)
    requires Decoded(enc).Some?
    ensures Encoded(Decoded(enc).value) == enc
  {
    hide BlockText, BlockBytes;
    if enc != [] {
      if |enc| < 11 {
        BlockEncodes(enc);
      } else {
        BlockEncodes(enc[..11]);
        EncodeDecoded(enc[11..]);
        var b, rest := BlockBytes(enc[..11]).value, Decoded(enc[11..]).value;
        assert (b + rest)[..8] == b && (b + rest)[8..] == rest;
        assert enc[..11] + enc[11..] == enc;
      }
    }
  }

  method Encode(data: Bytes) returns (s: string)
    ensures s == Encoded(data)
  {
    hide BlockText, EncodedSize, Encoded;
    FullSizes();
    EncodedRest(data, |data| / 8);
    if |data| == 0 {
      return [];
    }
    var fullBlocks, lastSize := |data| / 8, |data| % 8;
    var res := new char[11 * fullBlocks + EncodedSize(lastSize)](_ => '1');
    assert data[0..] == data;
    for i := 0 to fullBlocks
      invariant res[..11 * i] + Encoded(data[8 * i..]) == Encoded(data)
      invariant forall j :: 11 * i <= j < res.Length ==> res[j] == '1'
    {
      ghost var before := res[..];
      EncodeBlock(data[8 * i..8 * i + 8], res, 11 * i);
      EncodedStep(data, i);
      Append(before, res[..], 11 * i, BlockText(data[8 * i..8 * i + 8]), Encoded(data[8 * (i + 1)..]));
    }
    if 0 < lastSize {
      EncodeBlock(data[8 * fullBlocks..], res, 11 * fullBlocks);
    }
    return res[..];
  }

  lemma EncodedRest(data: Bytes, k: nat)
    requires 8 * k <= |data| < 8 * k + 8
    ensures Encoded(data[8 * k..]) == if |data| == 8 * k then [] else BlockText(data[8 * k..])
  {}

  lemma FullSizes()
    ensures EncodedSize(8) == 11 && EncodedSize(0) == 0 && DecodedSize(11) == 8 && DecodedSize(0) == 0
  {}

  lemma EncodedStep(data: Bytes, i: nat)
    requires 8 * i + 8 <= |data|
    ensures Encoded(data[8 * i..]) == BlockText(data[8 * i..8 * i + 8]) + Encoded(data[8 * (i + 1)..])
  {
    assert data[8 * i..][..8] == data[8 * i..8 * i + 8];
    assert data[8 * i..][8..] == data[8 * (i + 1)..];
  }

  lemma Append<T>(before: seq<T>, after: seq<T>, at: nat, mid: seq<T>, rest: seq<T>)
    requires at + |mid| <= |before| && after == before[..at] + mid + before[at + |mid|..]
    ensures after[..at + |mid|] + rest == before[..at] + (mid + rest)
    ensures forall j :: at + |mid| <= j < |after| ==> after[j] == before[j]
  {}

  method Decode(enc: string) returns (r: Option<Bytes>)
    ensures r == Decoded(enc)
  {
    hide BlockBytes, DecodedSize, Decoded;
    FullSizes();
    DecodedRest(enc, |enc| / 11);
    if |enc| == 0 {
      return Some([]);
    }
    var fullBlocks, lastSize := |enc| / 11, |enc| % 11;
    var lastDecoded := DecodedSize(lastSize);
    if lastDecoded < 0 {
      BadLength(enc);
      return None;
    }
    var data := new Byte[8 * fullBlocks + lastDecoded](_ => 0);
    assert enc[0..] == enc;
    JoinedNothing(data[..0], Decoded(enc));
    for i := 0 to fullBlocks
      invariant Decoded(enc) == Joined(data[..8 * i], Decoded(enc[11 * i..]))
    {
      ghost var before := data[..];
      DecodedStep(enc, i);
      var ok := DecodeBlock(enc[11 * i..11 * i + 11], data, 8 * i);
      if !ok {
        return None;
      }
      ghost var b := BlockBytes(enc[11 * i..11 * i + 11]).value;
      assert data[..8 * (i + 1)] == before[..8 * i] + b;
      JoinedTwice(before[..8 * i], b, Decoded(enc[11 * (i + 1)..]));
    }
    ghost var done := data[..8 * fullBlocks];
    if 0 < lastSize {
      var ok := DecodeBlock(enc[11 * fullBlocks..], data, 8 * fullBlocks);
      if !ok {
        return None;
      }
      assert data[..] == done + BlockBytes(enc[11 * fullBlocks..]).value;
    }
    assert lastSize == 0 ==> data[..] == data[..8 * fullBlocks] + [];
    return Some(data[..]);
  }

  lemma DecodedRest(enc: string, k: nat)
    requires 11 * k <= |enc| < 11 * k + 11
    ensures Decoded(enc[11 * k..]) == if |enc| == 11 * k then Some([]) else BlockBytes(enc[11 * k..])
  {}

  lemma JoinedNothing(a: Bytes, rest: Option<Bytes>)
    requires a == []
    ensures Joined(a, rest) == rest
  {
    if rest.Some? {
      assert a + rest.value == rest.value;
    }
  }

  lemma JoinedTwice(a: Bytes, b: Bytes, rest: Option<Bytes>)
    ensures Joined(a, Joined(b, rest)) == Joined(a + b, rest)
  {
    if rest.Some? {
      assert a + (b + rest.value) == a + b + rest.value;
    }
  }

  function Joined(done: Bytes, rest: Option<Bytes>): Option<Bytes> {
    match rest
    case Some(b) => Some(done + b)
    case None => None
  }

  lemma DecodedStep(enc: string, i: nat)
    requires 11 * i + 11 <= |enc|
    ensures Decoded(enc[11 * i..]) == match BlockBytes(enc[11 * i..11 * i + 11]) {
      case Some(b) => Joined(b, Decoded(enc[11 * (i + 1)..]))
      case None => None
    }
  {
    assert enc[11 * i..][..11] == enc[11 * i..11 * i + 11];
    assert enc[11 * i..][11..] == enc[11 * (i + 1)..];
  }

  lemma {:induction false} BadLength(enc: string)
    requires DecodedSize(|enc| % 11) < 0
    ensures Decoded(enc).None?
  {
    if |enc| >= 11 {
      assert (|enc| - 11) % 11 == |enc| % 11;
      BadLength(enc[11..]);
    }
  }
}

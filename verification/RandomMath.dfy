/** The random-math programs of CryptonightR: nine 32-bit registers, of which four can be
    written, and the interpreter for them. */
module RandomMath {
  import opened Arith

  const W := 0x1_0000_0000

  type Word = w: nat | w < 0x1_0000_0000

  datatype Opcode = MUL | ADD | SUB | ROR | ROL | XOR | RET

  type DstIndex = d: nat | d < 4
  type SrcIndex = s: nat | s < 9

  datatype Instruction = Instruction(op: Opcode, dst: DstIndex, src: SrcIndex, C: Word)

  type Registers = r: seq<Word> | |r| == 9 witness [0, 0, 0, 0, 0, 0, 0, 0, 0]

  function Mul(a: Word, b: Word): Word { a * b % W }

  function Add(a: Word, b: Word): Word { (a + b) % W }

  function Sub(a: Word, b: Word): Word { (a - b) % W }

  function Xor(a: Word, b: Word): Word {
    Width();
    XorBits(a, b, 32)
  }

  lemma Width()
    ensures Pow2(32) == W
  {
    Pow2Add(16, 16);
    Pow2Add(8, 8);
    assert Pow2(8) == 256;
  }

  /** The part above the lowest digit to base p moves down, that digit moves to the top. */
  function Rotated(a: Word, p: nat, q: nat): Word
    requires p > 0 && p * q == W
  {
    PartsFit(a, p, q);
    a / p + a % p * q
  }

  function Ror(a: Word, k: nat): Word
    requires k < 32
  {
    Halves(k, 32 - k);
    Rotated(a, Pow2(k), Pow2(32 - k))
  }

  function Rol(a: Word, k: nat): Word
    requires k < 32
  {
    Halves(32 - k, k);
    Rotated(a, Pow2(32 - k), Pow2(k))
  }

  /** Exchanging the upper j and the lower k bits of a word. */
  lemma ExchangedBit(upper: nat, lower: nat, k: nat, j: nat, i: nat)
    requires k + j == 32 && i < 32 && upper < Pow2(j) && lower < Pow2(k)
    ensures Bit(upper + lower * Pow2(j), i) == Bit(lower + upper * Pow2(k), (i + k) % 32)
  {
    hide Bit, Pow2;
    BitOfSplit(upper, lower, j, i);
    BitOfSplit(lower, upper, k, if i < j then i + k else i - j);
  }

  lemma RotatedBit(a: Word, k: nat, p: nat, q: nat, i: nat)
    requires k <= 32 && i < 32 && p == Pow2(k) && q == Pow2(32 - k) && p * q == W
    ensures Bit(Rotated(a, p, q), i) == Bit(a, (i + k) % 32)
  {
    hide Bit, Pow2;
    QuotientBound(a, p, q);
    DivModSum(a, p);
    ExchangedBit(a / p, a % p, k, 32 - k, i);
  }

  /** Rotating right brings bit i + k to place i; rotating left brings bit i to place i + k. */
  lemma RotationBits(a: Word, k: nat, i: nat)
    requires k < 32 && i < 32
    ensures Bit(Ror(a, k), i) == Bit(a, (i + k) % 32)
    ensures Bit(Rol(a, k), (i + k) % 32) == Bit(a, i)
  {
    hide Bit, Pow2, Rotated;
    Halves(k, 32 - k);
    Halves(32 - k, k);
    RotatedBit(a, k, Pow2(k), Pow2(32 - k), i);
    RotatedBit(a, 32 - k, Pow2(32 - k), Pow2(k), (i + k) % 32);
  }

  /** The other operations: sums and products wrap, and exclusive or works on each bit. */
  lemma WordOperations(a: Word, b: Word, i: nat)
    requires i < 32
    ensures Add(a, b) == if a + b < W then a + b else a + b - W
    ensures Sub(a, b) == if a >= b then a - b else a - b + W
    ensures exists q: nat :: a * b == q * W + Mul(a, b)
    ensures Bit(Xor(a, b), i) == (Bit(a, i) + Bit(b, i)) % 2
  {
    hide Bit, Pow2, XorBits;
    XorBit(a, b, 32, i);
    var q: nat := a * b / W;
    DivModSum(a * b, W);
    assert a * b == q * W + Mul(a, b);
  }

  lemma Halves(k: nat, j: nat)
    requires k + j == 32
    ensures Pow2(k) * Pow2(j) == W
  {
    Width();
    Pow2Add(k, j);
  }

  lemma PartsFit(a: nat, p: nat, q: nat)
    requires p > 0 && a < p * q
    ensures a / p + a % p * q < p * q
  {
    QuotientBound(a, p, q);
    Scale(a % p, p - 1, q);
    Distribute(p, 1, q);
  }

  function Result(inst: Instruction, d: Word, s: Word): Word {
    match inst.op
    case MUL => Mul(d, s)
    case ADD => Add(d, Add(s, inst.C))
    case SUB => Sub(d, s)
    case ROR => Ror(d, s % 32)
    case ROL => Rol(d, s % 32)
    case XOR => Xor(d, s)
    case RET => d
  }

  function Exec(inst: Instruction, r: Registers): Registers {
    r[inst.dst := Result(inst, r[inst.dst], r[inst.src])]
  }

  /** What an operation on d and s means for its result x; for operations on bits, for bit i. */
  ghost predicate Means(op: Opcode, d: nat, s: nat, C: nat, x: nat, i: nat) {
    match op
    case MUL => exists q: nat :: d * s == q * W + x
    case ADD => exists q: nat :: d + s + C == q * W + x
    case SUB => x == if d >= s then d - s else d - s + W
    case ROR => Bit(x, i) == Bit(d, (i + s) % 32)
    case ROL => Bit(x, (i + s) % 32) == Bit(d, i)
    case XOR => Bit(x, i) == (Bit(d, i) + Bit(s, i)) % 2
    case RET => x == d
  }

  lemma SumOfThree(d: Word, s: Word, C: Word)
    ensures exists q: nat :: d + s + C == q * W + Add(d, Add(s, C))
  {
    var q: nat := (if s + C < W then 0 else 1) + if d + Add(s, C) < W then 0 else 1;
    assert d + s + C == q * W + Add(d, Add(s, C));
  }

  lemma ResultMeans(inst: Instruction, d: Word, s: Word, i: nat)
    requires i < 32
    ensures Means(inst.op, d, s, inst.C, Result(inst, d, s), i)
  {
    hide Bit, Mul, Add, Ror, Rol, Xor;
    match inst.op
    case ADD => SumOfThree(d, s, inst.C);
    case ROR | ROL =>
      RotationBits(d, s % 32, i);
      assert (i + s % 32) % 32 == (i + s) % 32;
    case RET =>
    case _ => WordOperations(d, s, i);
  }

  /** No other register changes. */
  lemma InstructionMeaning(inst: Instruction, r: Registers, i: nat)
    requires i < 32
    ensures Means(inst.op, r[inst.dst], r[inst.src], inst.C, Exec(inst, r)[inst.dst], i)
    ensures forall k: SrcIndex :: k != inst.dst ==> Exec(inst, r)[k] == r[k]
  {
    hide Means, Result;
    ResultMeans(inst, r[inst.dst], r[inst.src], i);
  }

  /** The registers after the instructions from i up to n. */
  function Interpreted(code: seq<Instruction>, i: nat, n: nat, r: Registers): Registers
    requires i <= n <= |code|
    decreases n - i
  {
    if i == n then r else Interpreted(code, i + 1, n, Exec(code[i], r))
  }

  /** n is the place of the first RET. */
  predicate EndsAt(code: seq<Instruction>, n: nat) {
    n < |code| && code[n].op == RET && forall i :: 0 <= i < n ==> code[i].op != RET
  }

  /** The interpreter, unrolled for seventy instructions. */
  method V4RandomMath(code: seq<Instruction>, r: array<Word>, ghost n: nat)
    requires EndsAt(code, n) && r.Length == 9
    modifies r
    ensures r[..] == Interpreted(code, 0, if n < 70 then n else 70, old(r[..]))
  {
    ghost var stop := if n < 70 then n else 70;
    for i := 0 to 70
      invariant i <= n
      invariant Interpreted(code, i, stop, r[..]) == Interpreted(code, 0, stop, old(r[..]))
    {
      var inst := code[i];
      if inst.op == RET {
        return;
      }
      var src := r[inst.src];
      r[inst.dst] := Result(inst, r[inst.dst], src);
    }
  }
}

/** The code generator for random-math programs: templates copied one after the other, with the
    load of a rotation count left out where the count register still holds it. */
module Jit {
  import opened Arith
  import opened Numerals
  import opened RandomMath
  import opened Wrappers

  // ----- the machine

  /** Register 8 is r9d; `count` is ecx. */
  datatype Op =
    | MovCount(s: SrcIndex)
    | Imul(d: DstIndex, s: SrcIndex)
    | AddReg(d: DstIndex, s: SrcIndex)
    | AddConst(d: DstIndex, C: Word)
    | SubReg(d: DstIndex, s: SrcIndex)
    | RorCl(d: DstIndex)
    | RolCl(d: DstIndex)
    | XorReg(d: DstIndex, s: SrcIndex)

  datatype Machine = Machine(regs: Registers, count: Word)

  /** A rotation by cl uses the low five bits of the low byte. */
  function ByCl(count: Word): (k: nat)
    ensures k == count % 32 && k < 32
  {
    ModShift(count % 256, count / 256 * 8, 32);
    count % 256 % 32
  }

  function Step(op: Op, m: Machine): Machine {
    var r := m.regs;
    match op
    case MovCount(s) => m.(count := r[s])
    case Imul(d, s) => m.(regs := r[d := Mul(r[d], r[s])])
    case AddReg(d, s) => m.(regs := r[d := Add(r[d], r[s])])
    case AddConst(d, C) => m.(regs := r[d := Add(r[d], C)])
    case SubReg(d, s) => m.(regs := r[d := Sub(r[d], r[s])])
    case RorCl(d) => m.(regs := r[d := Ror(r[d], ByCl(m.count))])
    case RolCl(d) => m.(regs := r[d := Rol(r[d], ByCl(m.count))])
    case XorReg(d, s) => m.(regs := r[d := Xor(r[d], r[s])])
  }

  function Steps(ops: seq<Op>, m: Machine): Machine {
    if ops == [] then m else Steps(ops[1..], Step(ops[0], m))
  }

  // ----- the templates

  type Index = c: nat | c < 256

  function Shift(op: Opcode): (k: nat)
    requires op != RET
    ensures k < 8
  {
    match op
    case MUL => 0
    case ADD => 3
    case SUB => 4
    case ROR => 5
    case ROL => 6
    case XOR => 7
  }

  /** The table index: opcode, destination, and source, where source 8 is written as the
      destination. */
  function TableIndex(inst: Instruction): Index
    requires inst.op != RET
  {
    Shift(inst.op) + inst.dst * 8 + (if inst.src == 8 then inst.dst else inst.src) * 32
  }

  /** What the template at c does: one whose source is its destination takes register 8, except
      in a multiplication. The constant of an addition is the one patched in. */
  function CodeOps(c: Index, constant: Word): seq<Op> {
    var op, d: DstIndex, s: SrcIndex := c % 8, c / 8 % 4, c / 32;
    var source: SrcIndex := if s == d then 8 else s;
    if op <= 2 then [Imul(d, s)]
    else if op == 3 then [AddReg(d, source), AddConst(d, constant)]
    else if op == 4 then [SubReg(d, source)]
    else if op == 5 then [RorCl(d)]
    else if op == 6 then [RolCl(d)]
    else [XorReg(d, source)]
  }

  function MovOps(c: Index): seq<Op> {
    if c % 8 == 5 || c % 8 == 6 then [MovCount(c / 32)] else []
  }

  // ----- the plan: which templates, in order

  datatype Chunk = Mov(c: Index) | Code(c: Index, constant: Word)

  predicate Rotation(op: Opcode) {
    op == ROR || op == ROL
  }

  /** -1 where the count register holds no known register's value. */
  type PrevSource = p: int | -1 <= p < 9

  function Chunks(inst: Instruction, prev: PrevSource): seq<Chunk>
    requires inst.op != RET
  {
    (if Rotation(inst.op) && inst.src != prev then [Mov(TableIndex(inst))] else [])
    + [Code(TableIndex(inst), inst.C)]
  }

  function NextPrev(inst: Instruction, prev: PrevSource): PrevSource {
    var loaded := if Rotation(inst.op) then inst.src else prev;
    if inst.dst == loaded then -1 else loaded
  }

  function Plan(code: seq<Instruction>, i: nat, n: nat, prev: PrevSource): seq<Chunk>
    requires i <= n && EndsAt(code, n)
    decreases n - i
  {
    if i == n then [] else Chunks(code[i], prev) + Plan(code, i + 1, n, NextPrev(code[i], prev))
  }

  function ChunkOps(ch: Chunk): seq<Op> {
    match ch
    case Mov(c) => MovOps(c)
    case Code(c, constant) => CodeOps(c, constant)
  }

  function RunChunks(plan: seq<Chunk>, m: Machine): Machine {
    if plan == [] then m else RunChunks(plan[1..], Steps(ChunkOps(plan[0]), m))
  }

  /** The whole routine: nine registers are loaded, four are stored. `junk` is what the count
      register held before. */
  function Routine(code: seq<Instruction>, n: nat, memory: Registers, junk: Word): Registers
    requires EndsAt(code, n)
  {
    RunChunks(Plan(code, 0, n, -1), Machine(memory, junk)).regs[..4] + memory[4..]
  }

  // ----- it computes what the interpreter computes

  /** The instructions whose table index loses nothing. */
  predicate Faithful(inst: Instruction) {
    match inst.op
    case MUL | ROR | ROL => inst.src != 8
    case ADD | SUB | XOR => inst.src != inst.dst
    case RET => true
  }

  lemma IndexFields(inst: Instruction)
    requires inst.op != RET
    ensures var c := TableIndex(inst);
            && c % 8 == Shift(inst.op)
            && c / 8 % 4 == inst.dst
            && c / 32 == if inst.src == 8 then inst.dst else inst.src
  {
    var source := if inst.src == 8 then inst.dst else inst.src;
    DivModUnique(Shift(inst.op), inst.dst + source * 4, 8);
    DivModUnique(inst.dst, source, 4);
    DivModUnique(Shift(inst.op) + inst.dst * 8, source, 32);
  }

  /** The count register holds the value that register `prev` has now. */
  predicate Holds(prev: PrevSource, m: Machine) {
    prev >= 0 ==> m.count == m.regs[prev]
  }

  lemma TwoAdditions(d: Word, s: Word, C: Word)
    ensures Add(Add(d, s), C) == Add(d, Add(s, C))
  {}

  lemma {:induction false} RunTwo(a: seq<Chunk>, b: seq<Chunk>, m: Machine)
    ensures RunChunks(a + b, m) == RunChunks(b, RunChunks(a, m))
  {
    if a == [] {
      assert a + b == b;
    } else {
      assert (a + b)[1..] == a[1..] + b;
      RunTwo(a[1..], b, Steps(ChunkOps(a[0]), m));
    }
  }

  lemma RunOne(ch: Chunk, m: Machine)
    ensures RunChunks([ch], m) == Steps(ChunkOps(ch), m)
  {}

  lemma OneStep(op: Op, m: Machine)
    ensures Steps([op], m) == Step(op, m)
  {}

  lemma TwoSteps(op: Op, next: Op, m: Machine)
    ensures Steps([op, next], m) == Step(next, Step(op, m))
  {
    assert [op, next][1..] == [next];
    OneStep(next, Step(op, m));
  }

  /** The template of a faithful instruction does what the instruction does, given the count. */
  lemma CodeExecutes(inst: Instruction, m: Machine)
    requires inst.op != RET && Faithful(inst)
    requires Rotation(inst.op) ==> m.count == m.regs[inst.src]
    ensures Steps(CodeOps(TableIndex(inst), inst.C), m) == Machine(Exec(inst, m.regs), m.count)
  {
    hide Mul, Add, Sub, Xor, Ror, Rol, ByCl, TableIndex, Steps;
    IndexFields(inst);
    var c := TableIndex(inst);
    var ops := CodeOps(c, inst.C);
    if inst.op == ADD {
      TwoSteps(ops[0], ops[1], m);
      TwoAdditions(m.regs[inst.dst], m.regs[inst.src], inst.C);
    } else {
      OneStep(ops[0], m);
    }
  }

  lemma MovExecutes(inst: Instruction, m: Machine)
    requires Rotation(inst.op) && inst.src != 8
    ensures Steps(MovOps(TableIndex(inst)), m) == m.(count := m.regs[inst.src])
  {
    hide TableIndex, Steps;
    IndexFields(inst);
    OneStep(MovCount(inst.src), m);
  }

  /** One instruction, with or without the load. */
  lemma ChunksExecute(inst: Instruction, prev: PrevSource, m: Machine)
    requires inst.op != RET && Faithful(inst) && Holds(prev, m)
    ensures var m' := RunChunks(Chunks(inst, prev), m);
            m'.regs == Exec(inst, m.regs) && Holds(NextPrev(inst, prev), m')
  {
    hide TableIndex, Result, CodeOps, MovOps, Steps, RunChunks;
    var c := TableIndex(inst);
    var code := Code(c, inst.C);
    if Rotation(inst.op) && inst.src != prev {
      RunTwo([Mov(c)], [code], m);
      RunOne(Mov(c), m);
      MovExecutes(inst, m);
      var loaded := m.(count := m.regs[inst.src]);
      RunOne(code, loaded);
      CodeExecutes(inst, loaded);
    } else {
      assert Chunks(inst, prev) == [code];
      RunOne(code, m);
      CodeExecutes(inst, m);
    }
  }

  lemma {:induction false} PlanExecutes(code: seq<Instruction>, i: nat, n: nat, prev: PrevSource, m: Machine)
    requires i <= n && EndsAt(code, n) && Holds(prev, m)
    requires forall k :: i <= k < n ==> Faithful(code[k])
    ensures RunChunks(Plan(code, i, n, prev), m).regs == Interpreted(code, i, n, m.regs)
    decreases n - i
  {
    hide Chunks, Exec, Holds, NextPrev, Faithful;
    if i < n {
      ChunksExecute(code[i], prev, m);
      var next := NextPrev(code[i], prev);
      RunTwo(Chunks(code[i], prev), Plan(code, i + 1, n, next), m);
      PlanExecutes(code, i + 1, n, next, RunChunks(Chunks(code[i], prev), m));
    }
  }

  lemma {:induction false} ConstantsKept(code: seq<Instruction>, i: nat, n: nat, r: Registers)
    requires i <= n <= |code|
    ensures Interpreted(code, i, n, r)[4..] == r[4..]
    decreases n - i
  {
    hide Result;
    if i < n {
      ConstantsKept(code, i + 1, n, Exec(code[i], r));
    }
  }

  /** For every program, all registers and any previous count: the generated routine leaves in
      memory what the interpreter leaves, though it skips loads and stores four registers. */
  lemma RoutineIsInterpreter(code: seq<Instruction>, n: nat, memory: Registers, junk: Word)
    requires EndsAt(code, n) && forall k :: 0 <= k < n ==> Faithful(code[k])
    ensures Routine(code, n, memory, junk) == Interpreted(code, 0, n, memory)
  {
    hide RunChunks, Plan, Interpreted, Faithful;
    PlanExecutes(code, 0, n, -1, Machine(memory, junk));
    ConstantsKept(code, 0, n, memory);
    var r := Interpreted(code, 0, n, memory);
    assert r == r[..4] + r[4..];
  }

  ghost predicate CompiledRight(code: seq<Instruction>, n: nat)
    requires EndsAt(code, n)
  {
    forall memory: Registers, junk: Word :: Routine(code, n, memory, junk) == Interpreted(code, 0, n, memory)
  }

  // ----- and only for faithful instructions

  function Single(inst: Instruction): seq<Instruction> {
    [inst, Instruction(RET, 0, 0, 0)]
  }

  /** Register d holds 1, all others 0. */
  function Probe(d: DstIndex): Registers {
    [0, 0, 0, 0, 0, 0, 0, 0, 0][d := 1]
  }

  lemma SingleRoutine(inst: Instruction, memory: Registers, junk: Word)
    requires inst.op != RET
    ensures Routine(Single(inst), 1, memory, junk)
         == RunChunks(Chunks(inst, -1), Machine(memory, junk)).regs[..4] + memory[4..]
  {
    var code := Single(inst);
    assert Plan(code, 1, 1, NextPrev(inst, -1)) == [];
    assert Plan(code, 0, 1, -1) == Chunks(inst, -1) + [] == Chunks(inst, -1);
  }

  /** What the destination holds afterwards differs between machine and interpreter. */
  lemma ProbeResult(inst: Instruction)
    requires inst.op != RET && !Faithful(inst)
    ensures RunChunks(Chunks(inst, -1), Machine(Probe(inst.dst), 0)).regs[inst.dst]
         != Exec(inst, Probe(inst.dst))[inst.dst]
  {
    hide RunChunks, TableIndex, Steps, ByCl, Ror, Rol, Xor;
    var d := inst.dst;
    var m := Machine(Probe(d), 0);
    var c := TableIndex(inst);
    var code := Code(c, inst.C);
    var ops := CodeOps(c, inst.C);
    IndexFields(inst);
    if Rotation(inst.op) {
      var loaded := m.(count := 1);
      RunTwo([Mov(c)], [code], m);
      RunOne(Mov(c), m);
      OneStep(MovCount(d), m);
      RunOne(code, loaded);
      OneStep(ops[0], loaded);
      OneRotated();
    } else {
      assert Chunks(inst, -1) == [code];
      RunOne(code, m);
      if inst.op == ADD {
        TwoSteps(ops[0], ops[1], m);
      } else {
        OneStep(ops[0], m);
        OneXor();
      }
    }
  }

  lemma ProbeDiffers(inst: Instruction)
    requires inst.op != RET && !Faithful(inst)
    ensures Routine(Single(inst), 1, Probe(inst.dst), 0) != Exec(inst, Probe(inst.dst))
  {
    hide *;
    SingleRoutine(inst, Probe(inst.dst), 0);
    ProbeResult(inst);
    var regs := RunChunks(Chunks(inst, -1), Machine(Probe(inst.dst), 0)).regs;
    assert (regs[..4] + Probe(inst.dst)[4..])[inst.dst] == regs[inst.dst];
  }

  lemma OneRotated()
    ensures Ror(1, 1) != 1 && Rol(1, 1) != 1 && Ror(1, 0) == 1 && Rol(1, 0) == 1
  {
    hide Pow2, Rotated;
    EvenPower(0);
    EvenPower(1);
    EvenPower(31);
    EvenPower(32);
    Halves(0, 32);
    Halves(1, 31);
    RotatedOne(1, W);
    RotatedOne(Pow2(1), Pow2(31));
    RotatedOne(Pow2(31), Pow2(1));
    RotatedOne(W, 1);
  }

  lemma RotatedOne(p: nat, q: nat)
    requires p > 0 && p * q == W
    ensures Rotated(1, p, q) == if p == 1 then 1 else q
  {}

  lemma EvenPower(k: nat)
    ensures k == 0 ==> Pow2(k) == 1
    ensures k > 0 ==> Pow2(k) % 2 == 0 && Pow2(k) > 1
  {}

  lemma LowBit(a: nat, b: nat, n: nat)
    ensures XorBits(a, b, n + 1) % 2 == (a + b) % 2
  {}

  lemma OneXor()
    ensures Xor(1, 0) != Xor(1, 1)
  {
    LowBit(1, 0, 31);
    LowBit(1, 1, 31);
  }

  /** A one-instruction program is compiled correctly exactly when the instruction is faithful. */
  lemma SingleIffFaithful(inst: Instruction)
    requires inst.op != RET
    ensures CompiledRight(Single(inst), 1) <==> Faithful(inst)
  {
    hide Routine, Probe, Exec, Faithful;
    var code := Single(inst);
    if Faithful(inst) {
      forall memory: Registers, junk: Word
        ensures Routine(code, 1, memory, junk) == Interpreted(code, 0, 1, memory)
      {
        RoutineIsInterpreter(code, 1, memory, junk);
      }
    } else {
      ProbeDiffers(inst);
      assert Interpreted(code, 0, 1, Probe(inst.dst)) == Exec(inst, Probe(inst.dst));
    }
  }

  // ----- writing the code into its buffer

  /** The assembled machine code. An addition ends in the four bytes of its constant. */
  datatype Templates = Templates(prologue: Bytes, code: Index -> Bytes, mov: Index -> Bytes, epilogue: Bytes) {
    ghost predicate Valid() {
      forall c: Index :: c % 8 == 3 ==> |code(c)| >= 4
    }
  }

  function LittleEndian(C: Word): Bytes {
    [C % 256, C / 0x100 % 256, C / 0x1_0000 % 256, C / 0x100_0000]
  }

  /** Byte i is the i-th byte of the constant from the lowest. */
  lemma LittleEndianValue(C: Word)
    ensures |LittleEndian(C)| == 4
    ensures Value(256, [LittleEndian(C)[3], LittleEndian(C)[2], LittleEndian(C)[1], LittleEndian(C)[0]]) == C
  {
    FourDigits(LittleEndian(C)[3], LittleEndian(C)[2], LittleEndian(C)[1], LittleEndian(C)[0]);
    FourBytes(C);
  }

  lemma FourBytes(C: nat)
    ensures C % 256 + C / 0x100 % 256 * 0x100 + C / 0x1_0000 % 256 * 0x1_0000 + C / 0x100_0000 * 0x100_0000 == C
  {
    var x := C / 256;
    assert C == x * 256 + C % 256;
    var y := x / 256;
    assert x == y * 256 + x % 256 && C / 0x1_0000 == y;
    assert y == y / 256 * 256 + y % 256 && C / 0x100_0000 == y / 256;
  }

  lemma FourDigits(a: nat, b: nat, c: nat, d: nat)
    ensures Value(256, [a, b, c, d]) == ((a * 256 + b) * 256 + c) * 256 + d
  {
    assert [a, b, c, d][..3] == [a, b, c] && [a, b, c][..2] == [a, b] && [a, b][..1] == [a] && [a][..0] == [];
    assert Value(256, [a]) == a && Value(256, [a, b]) == a * 256 + b;
  }

  ghost function ChunkBytes(t: Templates, ch: Chunk): Bytes
    requires t.Valid()
  {
    match ch
    case Mov(c) => t.mov(c)
    case Code(c, constant) =>
      if c % 8 == 3 then t.code(c)[..|t.code(c)| - 4] + LittleEndian(constant) else t.code(c)
  }

  ghost function Flat(t: Templates, plan: seq<Chunk>): Bytes
    requires t.Valid()
  {
    if plan == [] then [] else ChunkBytes(t, plan[0]) + Flat(t, plan[1..])
  }

  ghost function Program(t: Templates, code: seq<Instruction>, n: nat): Bytes
    requires t.Valid() && EndsAt(code, n)
  {
    t.prologue + Flat(t, Plan(code, 0, n, -1)) + t.epilogue
  }

  /** Copies `src` to position `at`, or nothing where it would pass the end. */
  method Append(buf: array<Byte>, at: nat, src: Bytes) returns (ok: bool)
    requires at <= buf.Length
    modifies buf
    ensures ok <==> at + |src| <= buf.Length
    ensures ok ==> buf[..] == old(buf[..at]) + src + old(buf[at + |src|..])
    ensures !ok ==> buf[..] == old(buf[..])
  {
    if at + |src| > buf.Length {
      return false;
    }
    for j := 0 to |src|
      invariant buf[..] == old(buf[..at]) + src[..j] + old(buf[at + j..])
    {
      buf[at + j] := src[j];
    }
    return true;
  }

  method AppendCode(t: Templates, buf: array<Byte>, at: nat, c: Index, op: Opcode, constant: Word) returns (ok: bool)
    requires t.Valid() && at <= buf.Length && (op == ADD <==> c % 8 == 3)
    modifies buf
    ensures var src := ChunkBytes(t, Code(c, constant));
            && (ok <==> at + |src| <= buf.Length)
            && (ok ==> buf[..] == old(buf[..at]) + src + old(buf[at + |src|..]))
            && (!ok ==> buf[..] == old(buf[..]))
  {
    var template := t.code(c);
    ok := Append(buf, at, template);
    if ok && op == ADD {
      ghost var before := buf[..];
      Patch(buf, at + |template|, constant);
      Patched(old(buf[..]), before, buf[..], at, template, LittleEndian(constant));
    }
  }

  /** Overwrites the four bytes before `end`. */
  method Patch(buf: array<Byte>, end: nat, constant: Word)
    requires 4 <= end <= buf.Length
    modifies buf
    ensures buf[..] == old(buf[..end - 4]) + LittleEndian(constant) + old(buf[end..])
  {
    var bytes := LittleEndian(constant);
    buf[end - 4] := bytes[0];
    buf[end - 3] := bytes[1];
    buf[end - 2] := bytes[2];
    buf[end - 1] := bytes[3];
  }

  lemma Patched(was: Bytes, before: Bytes, now: Bytes, at: nat, template: Bytes, last: Bytes)
    requires |template| >= 4 == |last| && at + |template| <= |was|
    requires before == was[..at] + template + was[at + |template|..]
    requires now == before[..at + |template| - 4] + last + before[at + |template|..]
    ensures now == was[..at] + (template[..|template| - 4] + last) + was[at + |template|..]
  {
    assert before[..at + |template| - 4] == was[..at] + template[..|template| - 4];
    assert before[at + |template|..] == was[at + |template|..];
  }

  lemma FlatStep(t: Templates, inst: Instruction, prev: PrevSource, rest: seq<Chunk>)
    requires t.Valid() && inst.op != RET
    ensures Flat(t, Chunks(inst, prev) + rest)
         == MovBytes(t, inst, prev) + (ChunkBytes(t, Code(TableIndex(inst), inst.C)) + Flat(t, rest))
  {
    hide TableIndex;
    var code := Code(TableIndex(inst), inst.C);
    assert ([code] + rest)[1..] == rest;
    if Rotation(inst.op) && inst.src != prev {
      var mov := Mov(TableIndex(inst));
      assert Chunks(inst, prev) + rest == [mov] + ([code] + rest);
      assert ([mov] + ([code] + rest))[1..] == [code] + rest;
    } else {
      assert Chunks(inst, prev) + rest == [code] + rest;
    }
  }

  /** `whole` is what stands in the buffer up to `at`, then `rest`; the buffer behind is as it
      was. */
  ghost predicate Partly(whole: Bytes, was: Bytes, now: Bytes, at: nat, rest: Bytes) {
    at <= |now| == |was| && whole == now[..at] + rest && now[at..] == was[at..]
  }

  lemma PartlyStep(whole: Bytes, was: Bytes, before: Bytes, now: Bytes, at: nat, src: Bytes, rest: Bytes)
    requires Partly(whole, was, before, at, src + rest) && at + |src| <= |was|
    requires now == before[..at] + src + before[at + |src|..]
    ensures Partly(whole, was, now, at + |src|, rest)
  {
    assert now[..at + |src|] == before[..at] + src;
    assert before[..at] + (src + rest) == before[..at] + src + rest;
    assert now[at + |src|..] == before[at..][|src|..] == was[at..][|src|..] == was[at + |src|..];
  }

  /** The buffer holds the first `at` bytes of `whole`, and behind them what it held before. */
  ghost predicate Begun(whole: Bytes, was: Bytes, now: Bytes, at: nat) {
    at <= |whole| && at <= |was| == |now| && now == whole[..at] + was[at..]
  }

  lemma PartlyBegun(whole: Bytes, was: Bytes, now: Bytes, at: nat, rest: Bytes)
    requires Partly(whole, was, now, at, rest)
    ensures at + |rest| == |whole| && at <= |was| == |now| && Begun(whole, was, now, at)
  {
    assert now == now[..at] + now[at..];
  }

  method AppendPart(buf: array<Byte>, at: nat, src: Bytes, ghost whole: Bytes, ghost was: Bytes, ghost rest: Bytes)
    returns (ok: bool)
    requires Partly(whole, was, buf[..], at, src + rest)
    modifies buf
    ensures ok ==> Partly(whole, was, buf[..], at + |src|, rest)
    ensures !ok ==> |whole| > buf.Length && Begun(whole, was, buf[..], at)
  {
    ghost var before := buf[..];
    PartlyBegun(whole, was, before, at, src + rest);
    ok := Append(buf, at, src);
    if ok {
      PartlyStep(whole, was, before, buf[..], at, src, rest);
    }
  }

  ghost function MovBytes(t: Templates, inst: Instruction, prev: PrevSource): Bytes
    requires inst.op != RET
  {
    if Rotation(inst.op) && inst.src != prev then t.mov(TableIndex(inst)) else []
  }

  lemma AddIndex(inst: Instruction)
    requires inst.op != RET
    ensures TableIndex(inst) % 8 == 3 <==> inst.op == ADD
  {
    IndexFields(inst);
  }

  method AppendCodePart(t: Templates, buf: array<Byte>, at: nat, c: Index, op: Opcode, constant: Word,
                        ghost whole: Bytes, ghost was: Bytes, ghost rest: Bytes)
    returns (ok: bool)
    requires t.Valid() && (op == ADD <==> c % 8 == 3)
    requires Partly(whole, was, buf[..], at, ChunkBytes(t, Code(c, constant)) + rest)
    modifies buf
    ensures ok ==> Partly(whole, was, buf[..], at + |t.code(c)|, rest)
    ensures !ok ==> |whole| > buf.Length && Begun(whole, was, buf[..], at)
  {
    hide ChunkBytes, Partly, Begun;
    ghost var before, src := buf[..], ChunkBytes(t, Code(c, constant));
    PartlyBegun(whole, was, before, at, src + rest);
    PatchKeepsSize(t, c, constant);
    ok := AppendCode(t, buf, at, c, op, constant);
    if ok {
      PartlyStep(whole, was, before, buf[..], at, src, rest);
    }
  }

  /** The body of the loop: the count unless it is there, then the instruction. */
  method GenerateOne(t: Templates, inst: Instruction, prev: PrevSource, buf: array<Byte>, at: nat,
                     ghost whole: Bytes, ghost was: Bytes, ghost rest: Bytes)
    returns (ok: bool, at': nat, prev': PrevSource)
    requires t.Valid() && inst.op != RET
    requires Partly(whole, was, buf[..], at,
                    MovBytes(t, inst, prev) + (ChunkBytes(t, Code(TableIndex(inst), inst.C)) + rest))
    modifies buf
    ensures ok ==> Partly(whole, was, buf[..], at', rest) && prev' == NextPrev(inst, prev)
    ensures !ok ==> |whole| > buf.Length && Begun(whole, was, buf[..], at')
  {
    hide ChunkBytes, TableIndex, Partly, Begun;
    AddIndex(inst);
    ghost var codeBytes := ChunkBytes(t, Code(TableIndex(inst), inst.C));
    var c := TableIndex(inst);
    at', prev' := at, prev;
    if Rotation(inst.op) {
      if inst.src != prev {
        prev' := inst.src;
        ok := AppendPart(buf, at, t.mov(c), whole, was, codeBytes + rest);
        if !ok {
          return;
        }
        at' := at + |t.mov(c)|;
      }
    }
    assert [] + (codeBytes + rest) == codeBytes + rest;
    if inst.dst == prev' {
      prev' := -1;
    }
    ok := AppendCodePart(t, buf, at', c, inst.op, inst.C, whole, was, rest);
    if !ok {
      return;
    }
    at' := at' + |t.code(c)|;
  }

  lemma PatchKeepsSize(t: Templates, c: Index, constant: Word)
    requires t.Valid()
    ensures |ChunkBytes(t, Code(c, constant))| == |t.code(c)|
  {}

  /** The loop: all instructions up to RET. */
  method GenerateBody(t: Templates, code: seq<Instruction>, buf: array<Byte>, at: nat,
                      ghost n: nat, ghost whole: Bytes, ghost was: Bytes)
    returns (ok: bool, at': nat)
    requires t.Valid() && EndsAt(code, n)
    requires Partly(whole, was, buf[..], at, Flat(t, Plan(code, 0, n, -1)) + t.epilogue)
    modifies buf
    ensures ok ==> Partly(whole, was, buf[..], at', t.epilogue)
    ensures !ok ==> |whole| > buf.Length && Begun(whole, was, buf[..], at')
  {
    hide Flat, Plan, Partly, Begun, Chunks, ChunkBytes, TableIndex, NextPrev;
    var prev: PrevSource, i := -1, 0;
    at' := at;
    while code[i].op != RET
      invariant 0 <= i <= n
      invariant Partly(whole, was, buf[..], at', Flat(t, Plan(code, i, n, prev)) + t.epilogue)
      decreases n - i
    {
      PlanBytes(t, code, i, n, prev);
      ok, at', prev := GenerateOne(t, code[i], prev, buf, at', whole, was,
                                   Flat(t, Plan(code, i + 1, n, NextPrev(code[i], prev))) + t.epilogue);
      if !ok {
        return;
      }
      i := i + 1;
    }
    PlanEnds(t, code, n, prev);
    ok := true;
  }

  /** True exactly when both protection changes succeed and the code fits; the buffer is always
      some prefix of the code followed by what it held before. */
  method GenerateJitCode(t: Templates, code: seq<Instruction>, buf: array<Byte>, writable: bool, executable: bool,
                         ghost n: nat)
    returns (ok: bool, ghost used: nat)
    requires t.Valid() && EndsAt(code, n)
    modifies buf
    ensures ok <==> writable && executable && |Program(t, code, n)| <= buf.Length
    ensures Begun(Program(t, code, n), old(buf[..]), buf[..], used)
    ensures ok ==> used == |Program(t, code, n)|
  {
    hide Flat, Plan, Partly, Begun, Program;
    ghost var whole, was := Program(t, code, n), buf[..];
    ghost var body := Flat(t, Plan(code, 0, n, -1)) + t.epilogue;
    Start(t, code, n, was);
    PartlyBegun(whole, was, was, 0, t.prologue + body);
    if !writable {
      return false, 0;
    }
    ok := AppendPart(buf, 0, t.prologue, whole, was, body);
    if !ok {
      return false, 0;
    }
    var at;
    ok, at := GenerateBody(t, code, buf, |t.prologue|, n, whole, was);
    if !ok {
      return false, at;
    }
    assert t.epilogue + [] == t.epilogue;
    ok := AppendPart(buf, at, t.epilogue, whole, was, []);
    if !ok {
      return false, at;
    }
    PartlyBegun(whole, was, buf[..], at + |t.epilogue|, []);
    return executable, |whole|;
  }

  lemma Start(t: Templates, code: seq<Instruction>, n: nat, was: Bytes)
    requires t.Valid() && EndsAt(code, n)
    ensures Partly(Program(t, code, n), was, was, 0, t.prologue + (Flat(t, Plan(code, 0, n, -1)) + t.epilogue))
  {
    hide Flat, Plan;
    assert was[..0] == [];
  }

  lemma PlanBytes(t: Templates, code: seq<Instruction>, i: nat, n: nat, prev: PrevSource)
    requires t.Valid() && EndsAt(code, n) && i < n
    ensures Flat(t, Plan(code, i, n, prev)) + t.epilogue
         == MovBytes(t, code[i], prev) + (ChunkBytes(t, Code(TableIndex(code[i]), code[i].C))
            + (Flat(t, Plan(code, i + 1, n, NextPrev(code[i], prev))) + t.epilogue))
  {
    hide Flat, Chunks, ChunkBytes, TableIndex, NextPrev;
    var rest := Plan(code, i + 1, n, NextPrev(code[i], prev));
    FlatStep(t, code[i], prev, rest);
    Regroup(MovBytes(t, code[i], prev), ChunkBytes(t, Code(TableIndex(code[i]), code[i].C)), Flat(t, rest), t.epilogue);
  }

  lemma Regroup(a: Bytes, b: Bytes, c: Bytes, d: Bytes)
    ensures a + (b + c) + d == a + (b + (c + d))
  {}

  lemma PlanEnds(t: Templates, code: seq<Instruction>, n: nat, prev: PrevSource)
    requires t.Valid() && EndsAt(code, n)
    ensures Flat(t, Plan(code, n, n, prev)) + t.epilogue == t.epilogue
  {}
}

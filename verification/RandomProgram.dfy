/** One pass of the generator of random-math programs, from hashed bytes to instructions. */
module RandomProgram {
  import opened RandomMath
  import opened Jit
  import opened Schedule
  import opened Wrappers

  const INSTRUCTIONS_MIN := 60
  const INSTRUCTIONS_MAX := 70

  type Block = b: Bytes | |b| == 32 witness seq(32, _ => 0)

  function AsicLatency(op: Opcode): nat {
    if op == MUL then 3 else 1
  }

  /** Hashed bytes, hashed again when too few are left. */
  class Source {
    var data: Block
    var index: nat
    const rehash: Block -> Block

    predicate Valid()
      reads this
    {
      index <= 32
    }

    constructor (seed: Block, rehash: Block -> Block)
      ensures Valid() && data == seed && index == 32 && this.rehash == rehash
    {
      data, index := seed, 32;
      this.rehash := rehash;
    }

    method Take(count: nat) returns (bytes: Bytes)
      requires Valid() && count <= 32
      modifies this
      ensures Valid() && |bytes| == count
      ensures var d := if old(index) + count > 32 then rehash(old(data)) else old(data);
              var i := if old(index) + count > 32 then 0 else old(index);
              data == d && index == i + count && bytes == d[i..i + count]
    {
      if index + count > 32 {
        data := rehash(data);
        index := 0;
      }
      bytes := data[index..index + count];
      index := index + count;
    }
  }

  /** The first cycle from `start` on with a free unit, or TOTAL_LATENCY and -1. */
  method FindAlu(busy: array2<bool>, op: Opcode, start: nat, rotations: nat) returns (cycle: nat, alu: int)
    requires busy.Length0 == TOTAL_LATENCY + 1 && busy.Length1 == 3 && start <= TOTAL_LATENCY
    ensures start <= cycle <= TOTAL_LATENCY && -1 <= alu < 3
    ensures alu == -1 <==> cycle == TOTAL_LATENCY
    ensures alu >= 0 ==> alu < Alus(op) && Free(busy, op, cycle, alu, rotations)
    ensures forall u :: 0 <= alu < u < Alus(op) ==> !Free(busy, op, cycle, u, rotations)
    ensures forall c, u :: start <= c < cycle && 0 <= u < Alus(op) ==> !Free(busy, op, c, u, rotations)
  {
    cycle, alu := start, -1;
    while cycle < TOTAL_LATENCY
      invariant start <= cycle <= TOTAL_LATENCY && alu == -1
      invariant forall c, u :: start <= c < cycle && 0 <= u < Alus(op) ==> !Free(busy, op, c, u, rotations)
    {
      for i := Alus(op) downto 0
        invariant alu == -1
        invariant forall u :: i <= u < Alus(op) ==> !Free(busy, op, cycle, u, rotations)
      {
        if busy[cycle, i] || (op == ADD && busy[cycle + 1, i]) || (Rotation(op) && cycle < rotations * Latency(op)) {
          continue;
        }
        alu := i;
        break;
      }
      if alu >= 0 {
        break;
      }
      cycle := cycle + 1;
    }
  }

  ghost predicate Free(busy: array2<bool>, op: Opcode, cycle: nat, unit: nat, rotations: nat)
    requires busy.Length0 == TOTAL_LATENCY + 1 && busy.Length1 == 3 && cycle < TOTAL_LATENCY && unit < 3
    reads busy
  {
    && !busy[cycle, unit]
    && (op == ADD ==> !busy[cycle + 1, unit])
    && (Rotation(op) ==> cycle >= rotations * Latency(op))
  }

  // ----- what the passes keep

  ghost predicate AllFaithful(code: seq<Instruction>) {
    forall k :: 0 <= k < |code| ==> code[k].op != RET && Faithful(code[k])
  }

  /** The last instruction that writes d, if any, is a rotation. */
  function RotatedLast(code: seq<Instruction>, n: nat, d: DstIndex): bool
    requires n <= |code|
  {
    n > 0 && if code[n - 1].dst == d then Rotation(code[n - 1].op) else RotatedLast(code, n - 1, d)
  }

  ghost predicate NoDoubleRotation(code: seq<Instruction>) {
    forall j :: 0 <= j < |code| && Rotation(code[j].op) ==> !RotatedLast(code, j, code[j].dst)
  }

  lemma {:induction false} RotatedLastPrefix(a: seq<Instruction>, b: seq<Instruction>, n: nat, d: DstIndex)
    requires n <= |a| && n <= |b| && a[..n] == b[..n]
    ensures RotatedLast(a, n, d) == RotatedLast(b, n, d)
  {
    if n > 0 {
      assert a[n - 1] == a[..n][n - 1] == b[..n][n - 1] == b[n - 1];
      assert a[..n - 1] == a[..n][..n - 1] == b[..n][..n - 1] == b[..n - 1];
      RotatedLastPrefix(a, b, n - 1, d);
    }
  }

  lemma NoDoubleAppended(code: seq<Instruction>, inst: Instruction)
    requires NoDoubleRotation(code)
    requires Rotation(inst.op) ==> !RotatedLast(code, |code|, inst.dst)
    ensures NoDoubleRotation(code + [inst])
    ensures forall d: DstIndex :: RotatedLast(code + [inst], |code + [inst]|, d)
                               == if d == inst.dst then Rotation(inst.op) else RotatedLast(code, |code|, d)
  {
    var code' := code + [inst];
    forall j: nat, d: DstIndex | j <= |code|
      ensures RotatedLast(code', j, d) == RotatedLast(code, j, d)
    {
      RotatedLastPrefix(code', code, j, d);
    }
    assert code'[|code|] == inst;
    forall d: DstIndex
      ensures RotatedLast(code', |code'|, d) == if d == inst.dst then Rotation(inst.op) else RotatedLast(code, |code|, d)
    {
      assert RotatedLast(code', |code|, d) == RotatedLast(code, |code|, d);
    }
  }

  /** The longest chain of dependent instructions that ends in register r, in the cycles of
      hardware with as many units as it needs. */
  function CriticalPath(code: seq<Instruction>, n: nat, r: SrcIndex): nat
    requires n <= |code|
  {
    if n == 0 then 0
    else
      var i := code[n - 1];
      if i.dst == r then Max(CriticalPath(code, n - 1, i.dst), CriticalPath(code, n - 1, i.src)) + AsicLatency(i.op)
      else CriticalPath(code, n - 1, r)
  }

  lemma {:induction false} CriticalPathPrefix(a: seq<Instruction>, b: seq<Instruction>, n: nat, r: SrcIndex)
    requires n <= |a| && a <= b
    ensures CriticalPath(a, n, r) == CriticalPath(b, n, r)
  {
    if n > 0 {
      CriticalPathPrefix(a, b, n - 1, r);
      CriticalPathPrefix(a, b, n - 1, a[n - 1].dst);
      CriticalPathPrefix(a, b, n - 1, a[n - 1].src);
    }
  }

  /** `asic` holds the critical path of every register. */
  ghost predicate Tracks(asic: seq<nat>, code: seq<Instruction>) {
    |asic| == 9 && forall r: SrcIndex :: asic[r] == CriticalPath(code, |code|, r)
  }

  lemma TracksAppended(asic: seq<nat>, code: seq<Instruction>, inst: Instruction)
    requires Tracks(asic, code)
    ensures Tracks(asic[inst.dst := Max(asic[inst.dst], asic[inst.src]) + AsicLatency(inst.op)], code + [inst])
  {
    var code' := code + [inst];
    forall r: SrcIndex
      ensures CriticalPath(code', |code|, r) == CriticalPath(code, |code|, r)
    {
      CriticalPathPrefix(code, code', |code|, r);
    }
    assert code'[|code|] == inst;
  }

  lemma NothingTracked()
    ensures Tracks(seq(9, _ => 0), [])
  {}

  /** The byte that comes next. */
  function Next(data: Block, index: nat, rehash: Block -> Block): Byte {
    if index + 1 > 32 then rehash(data)[0] else data[index]
  }

  /** Eight codes for six operations; `direction` chooses between the rotations. */
  function OpcodeOf(number: nat, direction: Byte): (op: Opcode)
    ensures op != RET
  {
    if number <= 2 then MUL
    else if number == 3 then ADD
    else if number == 4 then SUB
    else if number == 5 then (if direction < 128 then ROR else ROL)
    else XOR
  }

  /** The fields of an instruction that byte c begins. */
  predicate FromByte(c: Byte, op: Opcode, dst: DstIndex, src: SrcIndex) {
    && (if c % 8 == 5 then Rotation(op) else op == OpcodeOf(c % 8, 0)) && dst == c / 8 % 4
    && src == if (op == ADD || op == SUB || op == XOR) && c / 32 == dst then 8 else c / 32
  }

  /** An opcode, its destination and its source, as the first byte and the direction byte give
      them. Source 8 replaces a source equal to the destination. */
  method ReadInstruction(source: Source)
    returns (op: Opcode, dst: DstIndex, src: SrcIndex, ghost c: Byte, ghost direction: Byte)
    requires source.Valid()
    modifies source
    ensures source.Valid() && op != RET && Faithful(Instruction(op, dst, src, 0))
    ensures c == Next(old(source.data), old(source.index), source.rehash)
    ensures op == OpcodeOf(c % 8, direction) && FromByte(c, op, dst, src)
    ensures c % 8 == 5 ==> 1 <= source.index && direction == source.data[source.index - 1]
  {
    direction := 0;
    var first := source.Take(1);
    c := first[0];
    var byte: nat := first[0];
    var number := byte % 8;
    if number == 5 {
      var second := source.Take(1);
      direction := second[0];
      op := if second[0] < 128 then ROR else ROL;
    } else if number >= 6 {
      op := XOR;
    } else {
      op := if number <= 2 then MUL else if number == 3 then ADD else SUB;
    }
    dst, src := byte / 8 % 4, byte / 32;
    if (op == ADD || op == SUB || op == XOR) && dst == src {
      src := 8;
    }
  }

  function FromLittleEndian(b0: nat, b1: nat, b2: nat, b3: nat): Word
    requires b0 < 256 && b1 < 256 && b2 < 256 && b3 < 256
  {
    b0 + b1 * 0x100 + b2 * 0x1_0000 + b3 * 0x100_0000
  }

  /** The constant that the generated code gets back byte by byte. */
  lemma ConstantBytes(C: Word)
    ensures var b := LittleEndian(C); |b| == 4 && FromLittleEndian(b[0], b[1], b[2], b[3]) == C
  {
    FourBytes(C);
  }

  ghost predicate HoldsReady(latency: seq<nat>, code: seq<Instruction>, slots: seq<Slot>)
    requires |slots| == |code|
  {
    |latency| == 9 && forall r: SrcIndex :: latency[r] == ReadyAt(code, slots, |code|, r) <= TOTAL_LATENCY
  }

  ghost predicate HoldsEntries(inst: seq<nat>, code: seq<Instruction>) {
    |inst| == 9 && forall r: SrcIndex :: inst[r] == Entry(code, |code|, r)
  }

  ghost predicate HoldsRotated(rotated: seq<bool>, code: seq<Instruction>) {
    |rotated| == 4 && forall d: DstIndex :: rotated[d] == RotatedLast(code, |code|, d)
  }

  /** What a pass keeps of each register; inst: value, opcode and source value of the last
      instruction on it, eight bits each. */
  datatype Tables = Tables(latency: seq<nat>, asic: seq<nat>, inst: seq<nat>, rotated: seq<bool>, rotations: nat) {
    ghost predicate Valid(code: seq<Instruction>, slots: seq<Slot>) {
      && |slots| == |code| && HoldsReady(latency, code, slots) && Tracks(asic, code) && HoldsEntries(inst, code)
      && HoldsRotated(rotated, code) && rotations == Rotations(code, |code|)
    }

    predicate Done()
      requires |latency| == 9
    {
      forall d :: 0 <= d < 4 ==> latency[d] >= TOTAL_LATENCY
    }
  }

  /** The table of busy units is that of the schedule. */
  ghost predicate Marks(busy: array2<bool>, code: seq<Instruction>, slots: seq<Slot>)
    requires busy.Length0 == TOTAL_LATENCY + 1 && busy.Length1 == 3 && |slots| == |code|
    reads busy
  {
    forall c: nat, u: nat :: c <= TOTAL_LATENCY && u < 3 ==> (busy[c, u] <==> !Idle(code, slots, |code|, c, u))
  }

  lemma FreeIffCanStart(
    busy: array2<bool>, code: seq<Instruction>, slots: seq<Slot>, op: Opcode, cycle: nat, unit: nat, rotations: nat)
    requires busy.Length0 == TOTAL_LATENCY + 1 && busy.Length1 == 3 && |slots| == |code|
    requires Marks(busy, code, slots) && cycle < TOTAL_LATENCY && unit < 3 && rotations == Rotations(code, |code|)
    ensures Free(busy, op, cycle, unit, rotations) <==> CanStart(code, slots, |code|, op, cycle, unit)
  {
    hide Idle, Rotations;
  }

  ghost predicate GoodCode(code: seq<Instruction>) {
    AllFaithful(code) && NoDoubleRotation(code) && RepeatFree(code)
  }

  /** No unit is free for the operation from one cycle up to another. */
  ghost predicate NoStart(code: seq<Instruction>, slots: seq<Slot>, op: Opcode, from: nat, to: int)
    requires |slots| == |code|
  {
    forall c: nat, u: nat :: from <= c < to && u < Alus(op) ==> !CanStart(code, slots, |code|, op, c, u)
  }

  /** A candidate is dropped if it rotates a register twice, repeats an operation, or would leave
      its register unchanged for more than seven cycles. */
  ghost predicate Dropped(code: seq<Instruction>, slots: seq<Slot>, op: Opcode, a: DstIndex, b: SrcIndex)
    requires |slots| == |code|
  {
    var idle := ReadyAt(code, slots, |code|, a) + 7;
    || (Rotation(op) && RotatedLast(code, |code|, a))
    || (op != MUL && Repeats(code, op, a, b))
    || (idle < TOTAL_LATENCY && NoStart(code, slots, op, OperandsAt(code, slots, |code|, a, b), idle + 1))
  }

  /** It is too late if it cannot end in time. */
  ghost predicate Late(code: seq<Instruction>, slots: seq<Slot>, op: Opcode, a: DstIndex, b: SrcIndex)
    requires |slots| == |code|
  {
    NoStart(code, slots, op, OperandsAt(code, slots, |code|, a, b), TOTAL_LATENCY - Latency(op) + 1)
  }

  /** FindAlu in terms of the schedule. */
  method FindSlot(t: Tables, busy: array2<bool>, ghost code: seq<Instruction>, ghost slots: seq<Slot>, op: Opcode, a: DstIndex, b: SrcIndex)
    returns (cycle: nat, alu: int)
    requires busy.Length0 == TOTAL_LATENCY + 1 && busy.Length1 == 3
    requires t.Valid(code, slots) && Marks(busy, code, slots)
    ensures cycle <= TOTAL_LATENCY && (alu == -1 <==> cycle == TOTAL_LATENCY)
    ensures NoStart(code, slots, op, OperandsAt(code, slots, |code|, a, b), cycle)
    ensures cycle < TOTAL_LATENCY ==>
      0 <= alu < 3 && Earliest(code, slots, |code|, op, OperandsAt(code, slots, |code|, a, b), Slot(cycle, alu))
  {
    hide Idle, Rotations, ReadyAt, CanStart, Free, LastWrite;
    cycle, alu := FindAlu(busy, op, Max(t.latency[a], t.latency[b]), t.rotations);
    forall c: nat, u: nat | c < TOTAL_LATENCY && u < 3
      ensures Free(busy, op, c, u, t.rotations) <==> CanStart(code, slots, |code|, op, c, u)
    {
      FreeIffCanStart(busy, code, slots, op, c, u, t.rotations);
    }
  }

  /** What the cycle found decides. */
  lemma Decided(code: seq<Instruction>, slots: seq<Slot>, op: Opcode, a: DstIndex, b: SrcIndex, s: Slot)
    requires |slots| == |code| && s.cycle <= TOTAL_LATENCY
    requires NoStart(code, slots, op, OperandsAt(code, slots, |code|, a, b), s.cycle)
    requires s.cycle < TOTAL_LATENCY ==> Earliest(code, slots, |code|, op, OperandsAt(code, slots, |code|, a, b), s)
    ensures s.cycle > ReadyAt(code, slots, |code|, a) + 7 ==> Dropped(code, slots, op, a, b)
    ensures s.cycle <= ReadyAt(code, slots, |code|, a) + 7 && Dropped(code, slots, op, a, b) ==>
              (Rotation(op) && RotatedLast(code, |code|, a)) || (op != MUL && Repeats(code, op, a, b))
    ensures s.cycle + Latency(op) > TOTAL_LATENCY <==> Late(code, slots, op, a, b)
  {
    hide Rotations, ReadyAt, CanStart, LastWrite, Repeats, RotatedLast;
  }

  lemma GoodAppended(code: seq<Instruction>, i: Instruction)
    requires GoodCode(code) && i.op != RET && Faithful(i)
    requires Rotation(i.op) ==> !RotatedLast(code, |code|, i.dst)
    requires i.op != MUL ==> !Repeats(code, i.op, i.dst, i.src)
    ensures GoodCode(code + [i])
  {
    hide NoDoubleRotation, RepeatFree, RotatedLast, Repeats, Faithful;
    NoDoubleAppended(code, i);
    RepeatFreeAppended(code, i);
  }

  /** The tables after one more instruction. */
  lemma TablesAppended(t: Tables, code: seq<Instruction>, slots: seq<Slot>, i: Instruction, s: Slot, t': Tables)
    requires t.Valid(code, slots) && |code| < 256 && NoDoubleRotation(code)
    requires Rotation(i.op) ==> !RotatedLast(code, |code|, i.dst)
    requires s.cycle + Latency(i.op) <= TOTAL_LATENCY
    requires t' == Tables(t.latency[i.dst := s.cycle + Latency(i.op)],
                          t.asic[i.dst := Max(t.asic[i.dst], t.asic[i.src]) + AsicLatency(i.op)],
                          t.inst[i.dst := |code| + OpcodeNumber(i.op) * 256 + t.inst[i.src] % 256 * 0x1_0000],
                          t.rotated[i.dst := Rotation(i.op)],
                          if Rotation(i.op) then t.rotations + 1 else t.rotations)
    ensures t'.Valid(code + [i], slots + [s])
  {
    hide Rotations, HoldsReady, HoldsEntries, HoldsRotated, NoDoubleRotation, Tracks;
    ReadyAppended(t.latency, code, slots, i, s);
    InstAppended(t.inst, code, i);
    RotatedAppended(t.rotated, code, i);
    TracksAppended(t.asic, code, i);
    ViewAppended(code, slots, i, s, 0);
  }

  lemma ReadyAppended(latency: seq<nat>, code: seq<Instruction>, slots: seq<Slot>, i: Instruction, s: Slot)
    requires |slots| == |code| && HoldsReady(latency, code, slots) && s.cycle + Latency(i.op) <= TOTAL_LATENCY
    ensures HoldsReady(latency[i.dst := s.cycle + Latency(i.op)], code + [i], slots + [s])
  {
    hide ReadyAt, LastWrite, Rotations;
    forall r: SrcIndex
      ensures latency[i.dst := s.cycle + Latency(i.op)][r] == ReadyAt(code + [i], slots + [s], |code + [i]|, r) <= TOTAL_LATENCY
    {
      ViewAppended(code, slots, i, s, r);
    }
  }

  lemma InstAppended(inst: seq<nat>, code: seq<Instruction>, i: Instruction)
    requires HoldsEntries(inst, code) && |code| < 256
    ensures HoldsEntries(inst[i.dst := |code| + OpcodeNumber(i.op) * 256 + inst[i.src] % 256 * 0x1_0000], code + [i])
  {
    hide LastWrite, Entry, ValueByte;
    EntryBytes(code, |code|, i.src);
    forall r: SrcIndex
      ensures inst[i.dst := |code| + OpcodeNumber(i.op) * 256 + inst[i.src] % 256 * 0x1_0000][r]
           == Entry(code + [i], |code + [i]|, r)
    {
      EntryAppended(code, i, r);
    }
  }

  lemma RotatedAppended(rotated: seq<bool>, code: seq<Instruction>, i: Instruction)
    requires HoldsRotated(rotated, code) && NoDoubleRotation(code)
    requires Rotation(i.op) ==> !RotatedLast(code, |code|, i.dst)
    ensures HoldsRotated(rotated[i.dst := Rotation(i.op)], code + [i])
  {
    hide RotatedLast, NoDoubleRotation;
    NoDoubleAppended(code, i);
  }

  /** Marks a unit, for an addition in two cycles. */
  method Occupy(busy: array2<bool>, cycle: nat, alu: nat, ghost code: seq<Instruction>, ghost slots: seq<Slot>, i: Instruction)
    requires busy.Length0 == TOTAL_LATENCY + 1 && busy.Length1 == 3 && |slots| == |code|
    requires Marks(busy, code, slots) && cycle < TOTAL_LATENCY && alu < 3
    modifies busy
    ensures Marks(busy, code + [i], slots + [Slot(cycle, alu)])
  {
    hide Idle;
    busy[cycle, alu] := true;
    if i.op == ADD {
      busy[cycle + 1, alu] := true;
    }
    forall c: nat, u: nat | c <= TOTAL_LATENCY && u < 3
      ensures busy[c, u] <==> !Idle(code + [i], slots + [Slot(cycle, alu)], |code + [i]|, c, u)
    {
      assert old(busy[c, u]) <==> !Idle(code, slots, |code|, c, u);
      IdleAppended(code, slots, i, Slot(cycle, alu), c, u);
    }
  }

  /** The constant of an addition is read, the tables are brought up to date and the unit is marked. */
  method Emit(t: Tables, busy: array2<bool>, source: Source, code: seq<Instruction>, ghost slots: seq<Slot>,
              op: Opcode, a: DstIndex, b: SrcIndex, cycle: nat, alu: nat)
    returns (t': Tables, inst: Instruction)
    requires source.Valid() && |code| < INSTRUCTIONS_MIN && GoodCode(code)
    requires busy.Length0 == TOTAL_LATENCY + 1 && busy.Length1 == 3
    requires t.Valid(code, slots) && Scheduled(code, slots) && Marks(busy, code, slots)
    requires op != RET && Faithful(Instruction(op, a, b, 0)) && Fits(code, slots, Instruction(op, a, b, 0), Slot(cycle, alu))
    requires (Rotation(op) ==> !RotatedLast(code, |code|, a)) && (op != MUL ==> !Repeats(code, op, a, b))
    modifies source, busy
    ensures source.Valid() && inst.op == op && inst.dst == a && inst.src == b && GoodCode(code + [inst])
    ensures var slots' := slots + [Slot(cycle, alu)];
            t'.Valid(code + [inst], slots') && Scheduled(code + [inst], slots') && Marks(busy, code + [inst], slots')
    ensures op == ADD ==>
      var k := source.index;
      k >= 4 && inst.C == FromLittleEndian(source.data[k - 4], source.data[k - 3], source.data[k - 2], source.data[k - 1])
  {
    hide Idle, Rotations, ReadyAt, CanStart, LastWrite, Scheduled, RotatedLast, Repeats, RepeatFree, NoDoubleRotation;
    var C: Word := 0;
    if op == ADD {
      var bytes := source.Take(4);
      C := FromLittleEndian(bytes[0], bytes[1], bytes[2], bytes[3]);
    }
    inst := Instruction(op, a, b, C);
    t' := Tables(t.latency[a := cycle + Latency(op)],
                 t.asic[a := Max(t.asic[a], t.asic[b]) + AsicLatency(op)],
                 t.inst[a := |code| + OpcodeNumber(op) * 256 + t.inst[b] % 256 * 0x1_0000],
                 t.rotated[a := Rotation(op)],
                 if Rotation(op) then t.rotations + 1 else t.rotations);
    Occupy(busy, cycle, alu, code, slots, inst);
    TablesAppended(t, code, slots, inst, Slot(cycle, alu), t');
    ScheduledAppended(code, slots, inst, Slot(cycle, alu));
    GoodAppended(code, inst);
  }

  datatype Tried = Skipped | Retry | Emitted

  /** One candidate: dropped, put off, or appended at the earliest start. */
  method Try(t: Tables, busy: array2<bool>, source: Source, code: seq<Instruction>, ghost slots: seq<Slot>)
    returns (t': Tables, code': seq<Instruction>, tried: Tried, ghost slots': seq<Slot>, ghost i: Instruction)
    requires source.Valid() && |code| < INSTRUCTIONS_MIN && GoodCode(code)
    requires busy.Length0 == TOTAL_LATENCY + 1 && busy.Length1 == 3
    requires t.Valid(code, slots) && Scheduled(code, slots) && Marks(busy, code, slots)
    modifies source, busy
    ensures source.Valid() && GoodCode(code')
    ensures t'.Valid(code', slots') && Scheduled(code', slots') && Marks(busy, code', slots')
    ensures if tried == Emitted then code' == code + [i] && slots == slots'[..|code|] else code' == code && slots' == slots
    ensures tried == Skipped <==> Dropped(code, slots, i.op, i.dst, i.src)
    ensures tried == Retry <==> !Dropped(code, slots, i.op, i.dst, i.src) && Late(code, slots, i.op, i.dst, i.src)
    ensures FromByte(Next(old(source.data), old(source.index), source.rehash), i.op, i.dst, i.src)
    ensures tried == Emitted && i.op == ADD ==>
      var k := source.index;
      k >= 4 && i.C == FromLittleEndian(source.data[k - 4], source.data[k - 3], source.data[k - 2], source.data[k - 1])
  {
    hide FromByte, Uses, Idle, Rotations, ReadyAt, CanStart, Earliest, LastWrite, Scheduled;
    hide Entry, ValueByte, NoDoubleRotation, RepeatFree, RotatedLast;
    t', code', tried, slots' := t, code, Skipped, slots;
    var op, a, b, _, _ := ReadInstruction(source);
    i := Instruction(op, a, b, 0);
    if Rotation(op) && t.rotated[a] {
      return;
    }
    if op != MUL {
      EntriesTell(code, op, a, b);
    }
    if op != MUL && t.inst[a] / 256 % 0x1_0000 == OpcodeNumber(op) + t.inst[b] % 256 * 256 {
      return;
    }
    var cycle, alu := FindSlot(t, busy, code, slots, op, a, b);
    Decided(code, slots, op, a, b, Slot(cycle, if alu < 0 then 0 else alu));
    if cycle > t.latency[a] + 7 {
      return;
    }
    var next := cycle + Latency(op);
    if next > TOTAL_LATENCY {
      tried := Retry;
      return;
    }
    var inst;
    t', inst := Emit(t, busy, source, code, slots, op, a, b, cycle, alu);
    i, slots' := inst, slots + [Slot(cycle, alu)];
    code', tried := code + [inst], Emitted;
  }

  /** The first loop: until every variable register is as late as wanted, sixty instructions
      stand, or the tries run out. */
  method FirstPhase(source: Source)
    returns (t: Tables, code: seq<Instruction>, ghost slots: seq<Slot>, ghost retries: nat, ghost iterations: nat)
    requires source.Valid()
    modifies source
    ensures source.Valid() && t.Valid(code, slots) && Scheduled(code, slots) && GoodCode(code) && |code| <= INSTRUCTIONS_MIN
    ensures |code| == INSTRUCTIONS_MIN || retries == 64 || iterations > 256 ||
            forall d: DstIndex :: ReadyAt(code, slots, |code|, d) == TOTAL_LATENCY
  {
    hide ReadyAt, Entry, LastWrite, RotatedLast, Tracks, Rotations, GoodCode;
    var busy := new bool[TOTAL_LATENCY + 1, 3]((_, _) => false);
    t := Tables(seq(9, _ => 0), seq(9, _ => 0), seq(9, i => if i < 4 then i else 0xFFFFFF), seq(4, _ => false), 0);
    code, slots := [], [];
    NothingYet(t);
    var tries, total := 0, 0;
    while !t.Done() && tries < 64
      invariant t.Valid(code, slots) && Scheduled(code, slots) && Marks(busy, code, slots)
      invariant GoodCode(code) && source.Valid() && |code| < INSTRUCTIONS_MIN
      invariant 0 <= tries <= 64 && 0 <= total <= 256
      decreases 256 - total
    {
      total := total + 1;
      if total > 256 {
        break;
      }
      var tried;
      ghost var i;
      t, code, tried, slots, i := Try(t, busy, source, code, slots);
      if tried == Retry {
        tries := tries + 1;
      } else if tried == Emitted && |code| >= INSTRUCTIONS_MIN {
        break;
      }
    }
    retries, iterations := tries, total;
  }

  lemma NothingYet(t: Tables)
    requires t == Tables(seq(9, _ => 0), seq(9, _ => 0), seq(9, i => if i < 4 then i else 0xFFFFFF), seq(4, _ => false), 0)
    ensures t.Valid([], []) && GoodCode([]) && Scheduled([], [])
  {
    NothingTracked();
  }

  /** The second loop: multiplications and rotations on the register that is earliest, until one
      is late enough for parallel hardware. */
  method SecondPhase(t: Tables, code: seq<Instruction>) returns (code': seq<Instruction>)
    requires Tracks(t.asic, code) && AllFaithful(code) && |code| <= INSTRUCTIONS_MIN
    ensures AllFaithful(code') && |code| <= |code'| <= INSTRUCTIONS_MAX && code'[..|code|] == code
    ensures forall k :: |code| <= k < |code'| ==> code'[k].op == (if (k - |code|) % 3 == 0 then ROR else MUL) && code'[k].src < 4
    ensures |code'| == INSTRUCTIONS_MAX || exists d: DstIndex :: CriticalPath(code', |code'|, d) >= TOTAL_LATENCY
  {
    code' := code;
    var asic: seq<nat> := t.asic;
    while |code'| < INSTRUCTIONS_MAX && forall d: nat :: d < 4 ==> asic[d] < TOTAL_LATENCY
      invariant Tracks(asic, code') && AllFaithful(code') && |code| <= |code'| <= INSTRUCTIONS_MAX && code'[..|code|] == code
      invariant forall k :: |code| <= k < |code'| ==> code'[k].op == (if (k - |code|) % 3 == 0 then ROR else MUL) && code'[k].src < 4
      decreases INSTRUCTIONS_MAX - |code'|
    {
      var min: DstIndex, max: DstIndex := 0, 0;
      for i := 1 to 4
        invariant forall k :: 0 <= k < i ==> asic[min] <= asic[k] <= asic[max]
      {
        if asic[i] < asic[min] { min := i; }
        if asic[i] > asic[max] { max := i; }
      }
      var op := if (|code'| - |code|) % 3 == 0 then ROR else MUL;
      TracksAppended(asic, code', Instruction(op, min, max, 0));
      asic := asic[min := asic[max] + AsicLatency(op)];
      code' := code' + [Instruction(op, min, max, 0)];
    }
    if |code'| < INSTRUCTIONS_MAX {
      ghost var d: nat :| d < 4 && asic[d] >= TOTAL_LATENCY;
      assert CriticalPath(code', |code'|, d) >= TOTAL_LATENCY;
    }
  }

  /** The first part of a program: what the first loop promises of it. */
  ghost predicate FirstPart(code: seq<Instruction>) {
    GoodCode(code) && exists slots :: Scheduled(code, slots)
  }

  /** A whole pass. Every program it yields is one the code generator compiles as the interpreter
      runs it. */
  method Pass(source: Source) returns (code: seq<Instruction>, size: nat, r8Used: bool, ghost n: nat)
    requires source.Valid()
    modifies source
    ensures source.Valid() && n <= INSTRUCTIONS_MIN && n <= size <= INSTRUCTIONS_MAX && |code| == size + 1
    ensures EndsAt(code, size) && CompiledRight(code, size) && FirstPart(code[..n])
    ensures r8Used <==> exists k :: 0 <= k < size && code[k].src == 8
    ensures size == INSTRUCTIONS_MAX || exists d: DstIndex :: CriticalPath(code, size, d) >= TOTAL_LATENCY
  {
    hide Routine, Interpreted, NoDoubleRotation, RepeatFree, Faithful, Scheduled;
    var t, first, slots, _, _ := FirstPhase(source);
    r8Used := exists k :: 0 <= k < |first| && first[k].src == 8;
    var body := SecondPhase(t, first);
    size, n := |body|, |first|;
    code := body + [Instruction(RET, 0, 0, 0)];
    assert code[..n] == body[..n] == first;
    assert forall k :: 0 <= k < |first| ==> body[..|first|][k] == code[k];
    if size < INSTRUCTIONS_MAX {
      ghost var d: DstIndex :| CriticalPath(body, |body|, d) >= TOTAL_LATENCY;
      CriticalPathPrefix(body, code, size, d);
    }
    forall memory: Registers, junk: Word
      ensures Routine(code, size, memory, junk) == Interpreted(code, 0, size, memory)
    {
      RoutineIsInterpreter(code, size, memory, junk);
    }
  }

  /** Passes are repeated until one uses register 8 and has sixty to seventy instructions; None
      where none of the given number of passes does. */
  method Init(source: Source, passes: nat) returns (r: Option<(seq<Instruction>, nat)>, ghost n: nat)
    requires source.Valid()
    modifies source
    ensures source.Valid()
    ensures r.Some? ==>
      var (code, size) := r.value;
      && INSTRUCTIONS_MIN <= size <= INSTRUCTIONS_MAX && EndsAt(code, size) && CompiledRight(code, size)
      && n <= INSTRUCTIONS_MIN && FirstPart(code[..n])
      && (exists k :: 0 <= k < size && code[k].src == 8)
      && (size == INSTRUCTIONS_MAX || exists d: DstIndex :: CriticalPath(code, size, d) >= TOTAL_LATENCY)
  {
    hide CompiledRight, CriticalPath, FirstPart;
    n := 0;
    for i := 0 to passes
      invariant source.Valid()
    {
      var code, size, r8Used;
      code, size, r8Used, n := Pass(source);
      if r8Used && INSTRUCTIONS_MIN <= size <= INSTRUCTIONS_MAX {
        return Some((code, size)), n;
      }
    }
    return None, n;
  }
}

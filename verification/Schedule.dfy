/** When the instructions of a random-math program start on the abstract processor for which the
    generator makes it: three pipelined units, of which one multiplies. */
module Schedule {
  import opened RandomMath
  import opened Jit

  const TOTAL_LATENCY := 45

  function Latency(op: Opcode): (k: nat)
    ensures 1 <= k <= 3
  {
    match op
    case MUL => 3
    case ADD | ROR | ROL => 2
    case SUB | XOR | RET => 1
  }

  function Alus(op: Opcode): (n: nat)
    ensures 1 <= n <= 3
  {
    if op == MUL then 1 else 3
  }

  /** The cycle in which an instruction starts, and its unit. */
  datatype Slot = Slot(cycle: nat, unit: nat)

  /** The last instruction before n that writes r, or -1. */
  function LastWrite(code: seq<Instruction>, n: nat, r: SrcIndex): (w: int)
    requires n <= |code|
    ensures -1 <= w < n
  {
    if n == 0 then -1 else if code[n - 1].dst == r then n - 1 else LastWrite(code, n - 1, r)
  }

  /** The cycle from which the value that instruction n finds in r can be used. */
  function ReadyAt(code: seq<Instruction>, slots: seq<Slot>, n: nat, r: SrcIndex): nat
    requires n <= |code| && n <= |slots|
  {
    var w := LastWrite(code, n, r);
    if w < 0 then 0 else slots[w].cycle + Latency(code[w].op)
  }

  /** A three-way addition takes its unit for two cycles. */
  predicate Uses(inst: Instruction, s: Slot, cycle: nat, unit: nat) {
    s.unit == unit && (s.cycle == cycle || (inst.op == ADD && s.cycle + 1 == cycle))
  }

  /** None of the first n instructions uses the unit in the cycle. */
  predicate Idle(code: seq<Instruction>, slots: seq<Slot>, n: nat, cycle: nat, unit: nat)
    requires n <= |code| && n <= |slots|
  {
    forall i :: 0 <= i < n ==> !Uses(code[i], slots[i], cycle, unit)
  }

  function Rotations(code: seq<Instruction>, n: nat): nat
    requires n <= |code|
  {
    if n == 0 then 0 else Rotations(code, n - 1) + if Rotation(code[n - 1].op) then 1 else 0
  }

  /** The unit is free for an operation that follows the first n instructions. */
  predicate CanStart(code: seq<Instruction>, slots: seq<Slot>, n: nat, op: Opcode, cycle: nat, unit: nat)
    requires n <= |code| && n <= |slots|
  {
    && Idle(code, slots, n, cycle, unit)
    && (op == ADD ==> Idle(code, slots, n, cycle + 1, unit))
    && (Rotation(op) ==> cycle >= Rotations(code, n) * Latency(op))
  }

  function Max(a: nat, b: nat): nat {
    if a > b then a else b
  }

  /** The cycle in which both operands of an operation on a and b can be used. */
  function OperandsAt(code: seq<Instruction>, slots: seq<Slot>, n: nat, a: DstIndex, b: SrcIndex): nat
    requires n <= |code| && n <= |slots|
  {
    Max(ReadyAt(code, slots, n, a), ReadyAt(code, slots, n, b))
  }

  /** The first cycle from `start` on, before the last, in which a unit is free, and the highest
      such unit. */
  predicate Earliest(code: seq<Instruction>, slots: seq<Slot>, n: nat, op: Opcode, start: nat, s: Slot)
    requires n <= |code| && n <= |slots|
  {
    && start <= s.cycle < TOTAL_LATENCY && s.unit < Alus(op)
    && CanStart(code, slots, n, op, s.cycle, s.unit)
    && (forall u :: s.unit < u < Alus(op) ==> !CanStart(code, slots, n, op, s.cycle, u))
    && (forall c, u :: start <= c < s.cycle && 0 <= u < Alus(op) ==> !CanStart(code, slots, n, op, c, u))
  }

  /** Instruction n starts as early as the ones before it allow, ends in time, and leaves its
      register unchanged for seven cycles at most. */
  predicate Placed(code: seq<Instruction>, slots: seq<Slot>, n: nat)
    requires n < |code| && n < |slots|
  {
    var (i, s) := (code[n], slots[n]);
    && Earliest(code, slots, n, i.op, OperandsAt(code, slots, n, i.dst, i.src), s)
    && s.cycle <= ReadyAt(code, slots, n, i.dst) + 7
    && s.cycle + Latency(i.op) <= TOTAL_LATENCY
  }

  ghost predicate Scheduled(code: seq<Instruction>, slots: seq<Slot>) {
    |slots| == |code| && forall n :: 0 <= n < |code| ==> Placed(code, slots, n)
  }

  // ----- what a schedule is worth

  /** No unit is used twice in a cycle, operands are ready when an instruction starts, and of the
      rotations, number k starts in cycle 2 * k or later. */
  lemma ScheduleSound(code: seq<Instruction>, slots: seq<Slot>, i: nat, j: nat, cycle: nat, unit: nat)
    requires Scheduled(code, slots) && i < j < |code|
    ensures !(Uses(code[i], slots[i], cycle, unit) && Uses(code[j], slots[j], cycle, unit))
    ensures i == LastWrite(code, j, code[j].src) || i == LastWrite(code, j, code[j].dst) ==>
              slots[i].cycle + Latency(code[i].op) <= slots[j].cycle
    ensures Rotation(code[j].op) ==> slots[j].cycle >= 2 * Rotations(code, j)
  {
    hide LastWrite, Rotations;
    assert Placed(code, slots, j);
  }

  /** A program has at most one schedule. */
  lemma {:induction false} ScheduleUnique(code: seq<Instruction>, slots: seq<Slot>, slots': seq<Slot>, n: nat)
    requires Scheduled(code, slots) && Scheduled(code, slots') && n <= |code|
    ensures slots[..n] == slots'[..n]
  {
    if n > 0 {
      var m := n - 1;
      ScheduleUnique(code, slots, slots', m);
      assert forall i :: 0 <= i < m ==> slots[i] == slots[..m][i] == slots'[..m][i] == slots'[i];
      assert Placed(code, slots, m) && Placed(code, slots', m);
      SameView(code, slots, code, slots', m);
      var (s, s') := (slots[m], slots'[m]);
      assert CanStart(code, slots, m, code[m].op, s'.cycle, s'.unit);
      assert CanStart(code, slots', m, code[m].op, s.cycle, s.unit);
      assert slots[..n] == slots[..m] + [s] && slots'[..n] == slots'[..m] + [s'];
    }
  }

  /** The units are in use from one cycle up to another, as far as the first n instructions go. */
  ghost predicate AllBusy(code: seq<Instruction>, slots: seq<Slot>, n: nat, from: nat, to: nat)
    requires n <= |code| && n <= |slots|
  {
    forall c: nat, u: nat :: from <= c < to && u < 3 ==> !Idle(code, slots, n, c, u)
  }

  /** A rotation waits for the end of an earlier one exactly when, from its operands and its number on,
      no unit is idle until then. */
  lemma {:induction false} RotationWaitsIff(code: seq<Instruction>, slots: seq<Slot>, i: nat, j: nat)
    requires Scheduled(code, slots) && i < j < |code| && Rotation(code[i].op) && Rotation(code[j].op)
    ensures slots[i].cycle + 2 <= slots[j].cycle <==>
            AllBusy(code, slots, j, Max(OperandsAt(code, slots, j, code[j].dst, code[j].src), 2 * Rotations(code, j)),
                    slots[i].cycle + 2)
  {
    hide LastWrite, Rotations, Idle, OperandsAt;
    assert Placed(code, slots, j);
    var start := Max(OperandsAt(code, slots, j, code[j].dst, code[j].src), 2 * Rotations(code, j));
    if slots[i].cycle + 2 <= slots[j].cycle {
      forall c: nat, u: nat | start <= c < slots[i].cycle + 2 && u < 3
        ensures !Idle(code, slots, j, c, u)
      {
        assert !CanStart(code, slots, j, code[j].op, c, u);
      }
    } else {
      assert CanStart(code, slots, j, code[j].op, slots[j].cycle, slots[j].unit);
    }
  }

  /** So two rotations may overlap. */
  lemma RotationsOverlap()
    ensures var code := [Instruction(MUL, 1, 4, 0), Instruction(ROR, 1, 4, 0), Instruction(ROR, 3, 4, 0)];
            Scheduled(code, [Slot(0, 0), Slot(3, 2), Slot(2, 2)])
  {
    var code := [Instruction(MUL, 1, 4, 0), Instruction(ROR, 1, 4, 0), Instruction(ROR, 3, 4, 0)];
    var slots := [Slot(0, 0), Slot(3, 2), Slot(2, 2)];
    assert Rotations(code, 0) == Rotations(code, 1) == 0 && Rotations(code, 2) == 1;
    assert LastWrite(code, 1, 4) == LastWrite(code, 2, 3) == LastWrite(code, 2, 4) == -1 && LastWrite(code, 1, 1) == 0;
    assert Placed(code, slots, 0) && Placed(code, slots, 1) && Placed(code, slots, 2);
  }

  predicate SameBelow(code: seq<Instruction>, slots: seq<Slot>, code': seq<Instruction>, slots': seq<Slot>, n: nat) {
    && n <= |code| && n <= |slots| && n <= |code'| && n <= |slots'|
    && (forall i :: 0 <= i < n ==> code[i] == code'[i])
    && (forall i :: 0 <= i < n ==> slots[i] == slots'[i])
  }

  /** What is asked about instruction n depends on the instructions before it only. */
  lemma SameView(code: seq<Instruction>, slots: seq<Slot>, code': seq<Instruction>, slots': seq<Slot>, n: nat)
    requires SameBelow(code, slots, code', slots', n)
    ensures forall r: SrcIndex :: LastWrite(code, n, r) == LastWrite(code', n, r)
    ensures forall r: SrcIndex :: ReadyAt(code, slots, n, r) == ReadyAt(code', slots', n, r)
    ensures Rotations(code, n) == Rotations(code', n)
    ensures forall op, c, u :: CanStart(code, slots, n, op, c, u) == CanStart(code', slots', n, op, c, u)
  {
    hide LastWrite, Rotations;
    forall r: SrcIndex
      ensures LastWrite(code, n, r) == LastWrite(code', n, r)
    {
      LastWritePrefix(code, code', n, r);
    }
    RotationsPrefix(code, code', n);
  }

  lemma {:induction false} LastWritePrefix(code: seq<Instruction>, code': seq<Instruction>, n: nat, r: SrcIndex)
    requires n <= |code| && n <= |code'| && forall i :: 0 <= i < n ==> code[i] == code'[i]
    ensures LastWrite(code, n, r) == LastWrite(code', n, r)
  {
    if n > 0 {
      LastWritePrefix(code, code', n - 1, r);
    }
  }

  lemma {:induction false} RotationsPrefix(code: seq<Instruction>, code': seq<Instruction>, n: nat)
    requires n <= |code| && n <= |code'| && forall i :: 0 <= i < n ==> code[i] == code'[i]
    ensures Rotations(code, n) == Rotations(code', n)
  {
    if n > 0 {
      RotationsPrefix(code, code', n - 1);
    }
  }

  // ----- one more instruction

  /** The next instruction may start in s. */
  predicate Fits(code: seq<Instruction>, slots: seq<Slot>, i: Instruction, s: Slot)
    requires |slots| == |code|
  {
    && Earliest(code, slots, |code|, i.op, OperandsAt(code, slots, |code|, i.dst, i.src), s)
    && s.cycle <= ReadyAt(code, slots, |code|, i.dst) + 7
    && s.cycle + Latency(i.op) <= TOTAL_LATENCY
  }

  lemma PlacedStays(code: seq<Instruction>, slots: seq<Slot>, code': seq<Instruction>, slots': seq<Slot>, n: nat)
    requires SameBelow(code, slots, code', slots', n + 1) && Placed(code, slots, n)
    ensures Placed(code', slots', n)
  {
    hide LastWrite, Rotations, CanStart, ReadyAt;
    SameView(code, slots, code', slots', n);
  }

  lemma ScheduledAppended(code: seq<Instruction>, slots: seq<Slot>, i: Instruction, s: Slot)
    requires Scheduled(code, slots) && Fits(code, slots, i, s)
    ensures Scheduled(code + [i], slots + [s])
  {
    hide Placed, LastWrite, Rotations, CanStart, ReadyAt;
    var (code', slots') := (code + [i], slots + [s]);
    forall n | 0 <= n < |code'|
      ensures Placed(code', slots', n)
    {
      if n < |code| {
        PlacedStays(code, slots, code', slots', n);
      } else {
        FitsPlaced(code, slots, i, s);
      }
    }
  }

  lemma FitsPlaced(code: seq<Instruction>, slots: seq<Slot>, i: Instruction, s: Slot)
    requires |slots| == |code| && Fits(code, slots, i, s)
    ensures Placed(code + [i], slots + [s], |code|)
  {
    hide LastWrite, Rotations, CanStart, ReadyAt;
    SameView(code, slots, code + [i], slots + [s], |code|);
  }

  /** How the next instruction changes what later ones find. */
  lemma ViewAppended(code: seq<Instruction>, slots: seq<Slot>, i: Instruction, s: Slot, r: SrcIndex)
    requires |slots| == |code|
    ensures LastWrite(code + [i], |code| + 1, r) == if r == i.dst then |code| else LastWrite(code, |code|, r)
    ensures ReadyAt(code + [i], slots + [s], |code| + 1, r)
         == if r == i.dst then s.cycle + Latency(i.op) else ReadyAt(code, slots, |code|, r)
    ensures Rotations(code + [i], |code| + 1) == Rotations(code, |code|) + (if Rotation(i.op) then 1 else 0)
  {
    LastWritePrefix(code, code + [i], |code|, r);
    RotationsPrefix(code, code + [i], |code|);
    assert (code + [i])[|code|] == i;
  }

  lemma IdleAppended(code: seq<Instruction>, slots: seq<Slot>, i: Instruction, s: Slot, c: nat, u: nat)
    requires |slots| == |code|
    ensures Idle(code + [i], slots + [s], |code| + 1, c, u) <==> Idle(code, slots, |code|, c, u) && !Uses(i, s, c, u)
  {
    var (code', slots', n) := (code + [i], slots + [s], |code|);
    assert forall k :: 0 <= k < n ==> code'[k] == code[k] && slots'[k] == slots[k];
    assert code'[n] == i && slots'[n] == s;
  }

  // ----- the same operation twice

  function OpcodeNumber(op: Opcode): nat {
    match op
    case MUL => 0
    case ADD => 1
    case SUB => 2
    case ROR => 3
    case ROL => 4
    case XOR => 5
    case RET => 6
  }

  /** The byte that stands for the value that instruction n finds in r: the instruction that made
      it, the register itself, or one byte for all constants. */
  function ValueByte(code: seq<Instruction>, n: nat, r: SrcIndex): nat
    requires n <= |code|
  {
    if r >= 4 then 255 else if LastWrite(code, n, r) < 0 then r else LastWrite(code, n, r)
  }

  /** The table entry of a register: value, opcode and source value of the last instruction on it. */
  function Entry(code: seq<Instruction>, n: nat, r: SrcIndex): nat
    requires n <= |code|
  {
    var w := LastWrite(code, n, r);
    if r >= 4 then 0xFFFFFF
    else if w < 0 then r
    else w + OpcodeNumber(code[w].op) * 256 + ValueByte(code, w, code[w].src) * 0x1_0000
  }

  /** The last instruction on a has the same opcode and a source with the same byte. */
  predicate Repeats(code: seq<Instruction>, op: Opcode, a: DstIndex, b: SrcIndex) {
    var w := LastWrite(code, |code|, a);
    w >= 0 && code[w].op == op && ValueByte(code, w, code[w].src) == ValueByte(code, |code|, b)
  }

  /** The comparison of table entries is the test for a repetition. */
  lemma EntriesTell(code: seq<Instruction>, op: Opcode, a: DstIndex, b: SrcIndex)
    requires |code| < 256 && op != MUL
    ensures Entry(code, |code|, a) / 256 % 0x1_0000 == OpcodeNumber(op) + Entry(code, |code|, b) % 256 * 256
       <==> Repeats(code, op, a, b)
  {
    EntryBytes(code, |code|, a);
    EntryBytes(code, |code|, b);
  }

  lemma EntryBytes(code: seq<Instruction>, n: nat, r: SrcIndex)
    requires n <= |code| < 256
    ensures Entry(code, n, r) % 256 == ValueByte(code, n, r)
    ensures r < 4 ==>
      var w := LastWrite(code, n, r);
      Entry(code, n, r) / 256 % 0x1_0000
        == if w < 0 then 0 else OpcodeNumber(code[w].op) + ValueByte(code, w, code[w].src) * 256
  {}

  /** Both find the same value in their sources: the same register, not written in between, or
      registers that are never written. */
  predicate SameSource(code: seq<Instruction>, i: nat, j: nat)
    requires i < |code| && j < |code|
  {
    var (p, q) := (code[i].src, code[j].src);
    (p >= 4 && q >= 4) || (p == q && LastWrite(code, i, p) == LastWrite(code, j, q))
  }

  /** No two consecutive instructions on a register, other than multiplications, do the same
      operation with the same value. */
  ghost predicate RepeatFree(code: seq<Instruction>) {
    forall j :: 0 <= j < |code| && code[j].op != MUL ==> Fresh(code, j)
  }

  predicate Fresh(code: seq<Instruction>, j: nat)
    requires j < |code|
  {
    var w := LastWrite(code, j, code[j].dst);
    w >= 0 && code[w].op == code[j].op ==> !SameSource(code, w, j)
  }

  lemma RepeatFreeAppended(code: seq<Instruction>, i: Instruction)
    requires RepeatFree(code) && (i.op != MUL ==> !Repeats(code, i.op, i.dst, i.src))
    ensures RepeatFree(code + [i])
  {
    hide LastWrite;
    var code' := code + [i];
    forall n: nat, r: SrcIndex | n <= |code|
      ensures LastWrite(code', n, r) == LastWrite(code, n, r)
    {
      LastWritePrefix(code, code', n, r);
    }
    forall j | 0 <= j < |code'| && code'[j].op != MUL
      ensures Fresh(code', j)
    {
      if j < |code| {
        assert Fresh(code, j);
        assert code'[j] == code[j];
      }
    }
  }

  lemma EntryAppended(code: seq<Instruction>, i: Instruction, r: SrcIndex)
    ensures Entry(code + [i], |code| + 1, r)
         == if r == i.dst then |code| + OpcodeNumber(i.op) * 256 + ValueByte(code, |code|, i.src) * 0x1_0000
            else Entry(code, |code|, r)
  {
    var code' := code + [i];
    var w := LastWrite(code, |code|, r);
    LastWritePrefix(code, code', |code|, r);
    if r == i.dst {
      LastWritePrefix(code, code', |code|, i.src);
    } else if w >= 0 {
      LastWritePrefix(code, code', w, code[w].src);
    }
  }
}

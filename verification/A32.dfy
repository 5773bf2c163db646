/**
 The few A32 instructions that the dynamic linker's stubs are made of. Memory is a map from
 addresses to words; code and pointers are at multiples of four, so words do not overlap.
 */
module A32 {
  type Word = w: int | 0 <= w < 0x1_0000_0000

  type Mem = map<Word, Word>

  /** Addition modulo 2^32, as in the guest and in a release build of the emulator. */
  function Plus(a: Word, n: int): Word {
    (a as int + n) % 0x1_0000_0000
  }

  function Read(mem: Mem, a: Word): Word {
    if a in mem then mem[a] else 0
  }

  /** The words at `a`, `a + 4`, ... */
  ghost predicate Holds(mem: Mem, a: Word, words: seq<Word>) {
    forall k :: 0 <= k < |words| ==> Read(mem, Plus(a, 4 * k)) == words[k]
  }

  /** Writes words at `a`, `a + 4`, ... */
  function WriteWords(mem: Mem, a: Word, words: seq<Word>): Mem
    decreases |words|
  {
    if words == [] then mem else WriteWords(mem[a := words[0]], Plus(a, 4), words[1..])
  }

  // ---------------------------------------------------------------- encodings

  const RET: Word := 0xe12fff1e
  const TRAP: Word := 0xe7ffdefe

  /** Or-ing the immediate into the opcode adds it, since it has 24 bits. */
  function EncodeSvc(imm: Word): Word
    requires imm < 0x100_0000
  {
    0xef00_0000 + imm
  }

  datatype Instruction =
    | Svc(imm: Word)
    | BranchToLr
    | BranchLink(rm: nat)
    | Load(rt: nat, rn: nat, offset: Word)
    | Add(rd: nat, rn: nat, rm: nat)
    | PushR0Lr
    | PopR0Pc
    | Other

  function Decode(w: Word): (i: Instruction)
    ensures i.Load? ==> i.rt < 16 && i.rn < 16
    ensures i.Add? ==> i.rd < 16 && i.rn < 16 && i.rm < 16
    ensures i.BranchLink? ==> i.rm < 16
  {
    if w / 0x100_0000 == 0xef then Svc(w % 0x100_0000)
    else if w == RET then BranchToLr
    else if w / 0x10 == 0xe12fff3 then BranchLink(w % 0x10)
    else if w / 0x10_0000 == 0xe59 then Load(w / 0x1000 % 0x10, w / 0x1_0000 % 0x10, w % 0x1000)
    else if w / 0x10_0000 == 0xe08 && w / 0x10 % 0x100 == 0 then Add(w / 0x1000 % 0x10, w / 0x1_0000 % 0x10, w % 0x10)
    else if w == 0xe92d_4001 then PushR0Lr
    else if w == 0xe8bd_8001 then PopR0Pc
    else Other
  }

  lemma DecodeEncodeSvc(imm: Word)
    requires imm < 0x100_0000
    ensures Decode(EncodeSvc(imm)) == Svc(imm)
  {
    assert (0xef00_0000 + imm) / 0x100_0000 == 0xef;
  }

  // ---------------------------------------------------------------- execution

  const SP := 13
  const LR := 14
  const PC := 15

  datatype Cpu = Cpu(regs: seq<Word>, thumb: bool) {
    predicate Valid() {
      |regs| == 16
    }
  }

  /** After one or more steps; `Outside` is what this model does not cover. */
  datatype Outcome = Next(cpu: Cpu, mem: Mem) | Trapped(svc: Word, cpu: Cpu, mem: Mem) | Outside

  /** Reading PC as an operand yields the address of the instruction plus 8. */
  function Operand(cpu: Cpu, r: nat): Word
    requires cpu.Valid() && r < 16
  {
    if r == PC then Plus(cpu.regs[PC], 8) else cpu.regs[r]
  }

  /** An interworking branch: bit 0 selects the instruction set. */
  function Branch(cpu: Cpu, target: Word): (c: Cpu)
    requires cpu.Valid()
    ensures c.Valid()
  {
    Cpu(cpu.regs[PC := target - target % 2], target % 2 == 1)
  }

  function Advance(cpu: Cpu): (c: Cpu)
    requires cpu.Valid()
    ensures c.Valid()
  {
    cpu.(regs := cpu.regs[PC := Plus(cpu.regs[PC], 4)])
  }

  function SetRegister(cpu: Cpu, r: nat, v: Word): (c: Cpu)
    requires cpu.Valid() && r < 16
    ensures c.Valid()
  {
    if r == PC then Branch(cpu, v) else var c := Advance(cpu); c.(regs := c.regs[r := v])
  }

  function Step(cpu: Cpu, mem: Mem): (o: Outcome)
    requires cpu.Valid()
    ensures !o.Outside? ==> o.cpu.Valid()
  {
    if cpu.thumb then Outside
    else match Decode(Read(mem, cpu.regs[PC]))
      case Svc(imm) => Trapped(imm, Advance(cpu), mem)
      case BranchToLr => Next(Branch(cpu, cpu.regs[LR]), mem)
      case BranchLink(rm) =>
        Next(Branch(cpu.(regs := cpu.regs[LR := Plus(cpu.regs[PC], 4)]), Operand(cpu, rm)), mem)
      case Load(rt, rn, offset) => Next(SetRegister(cpu, rt, Read(mem, Plus(Operand(cpu, rn), offset))), mem)
      case Add(rd, rn, rm) => Next(SetRegister(cpu, rd, Plus(Operand(cpu, rn), Operand(cpu, rm))), mem)
      case PushR0Lr =>
        var sp := Plus(cpu.regs[SP], -8);
        var c := Advance(cpu);
        Next(c.(regs := c.regs[SP := sp]), WriteWords(mem, sp, [cpu.regs[0], cpu.regs[LR]]))
      case PopR0Pc =>
        var sp := cpu.regs[SP];
        var c := cpu.(regs := cpu.regs[0 := Read(mem, sp)][SP := Plus(sp, 8)]);
        Next(Branch(c, Read(mem, Plus(sp, 4))), mem)
      case Other => Outside
  }

  function Steps(cpu: Cpu, mem: Mem, n: nat): (o: Outcome)
    requires cpu.Valid()
    decreases n
    ensures !o.Outside? ==> o.cpu.Valid()
  {
    if n == 0 then Next(cpu, mem)
    else match Step(cpu, mem)
      case Next(c, m) => Steps(c, m, n - 1)
      case Trapped(svc, c, m) => Trapped(svc, c, m)
      case Outside => Outside
  }

  // ---------------------------------------------------------------- the stubs' instructions

  /** `a | b` */
  function BitOr(a: nat, b: nat): nat {
    if a == 0 then b
    else if b == 0 then a
    else 2 * BitOr(a / 2, b / 2) + (if a % 2 == 1 || b % 2 == 1 then 1 else 0)
  }

  function Pow2(k: nat): (p: nat)
    ensures p > 0
  {
    if k == 0 then 1 else 2 * Pow2(k - 1)
  }

  /** Where the low bits of one operand are clear, those of the other come through. */
  lemma BitOrSplits(a: nat, b: nat)
    ensures BitOr(2 * a, b) == 2 * BitOr(a, b / 2) + b % 2
  {
  }

  lemma BitOrSplitsDigit(a: nat, b: nat)
    ensures BitOr(0x10 * a, b) == 0x10 * BitOr(a, b / 0x10) + b % 0x10
  {
    hide BitOr;
    BitOrSplits(8 * a, b);
    BitOrSplits(4 * a, b / 2);
    BitOrSplits(2 * a, b / 4);
    BitOrSplits(a, b / 8);
    assert b / 2 / 2 == b / 4 && b / 4 / 2 == b / 8 && b / 8 / 2 == b / 0x10;
  }

  lemma {:induction false} BitOrBelow(a: nat, b: nat, k: nat)
    requires a < Pow2(k) && b < Pow2(k)
    ensures BitOr(a, b) < Pow2(k)
  {
    if a != 0 && b != 0 {
      BitOrBelow(a / 2, b / 2, k - 1);
    }
  }

  /** Bit `k`, from the least significant. */
  predicate HasBit(n: nat, k: nat) {
    if k == 0 then n % 2 == 1 else HasBit(n / 2, k - 1)
  }

  lemma {:induction false} ZeroHasNoBit(k: nat)
    ensures !HasBit(0, k)
  {
    if k > 0 { ZeroHasNoBit(k - 1); }
  }

  /** Each bit of the result is set if it is in one of the operands. */
  lemma {:induction false} BitOrBits(a: nat, b: nat, k: nat)
    ensures HasBit(BitOr(a, b), k) <==> HasBit(a, k) || HasBit(b, k)
  {
    if a == 0 || b == 0 {
      ZeroHasNoBit(k);
    } else if k > 0 {
      BitOrBits(a / 2, b / 2, k - 1);
    }
  }

  const LOAD_PC_FROM_LITERAL: Word := 0xe59ff000

  lemma OneWordBits(distance: Word)
    ensures
      BitOr(LOAD_PC_FROM_LITERAL, distance) == BitOr(0xe59ff, distance / 0x1000) * 0x1000 + distance % 0x1000 < 0x1_0000_0000
  {
    assert Pow2(8) == 0x100;
    assert Pow2(16) == 0x1_0000;
    assert Pow2(20) == 0x10_0000;
    hide BitOr, Pow2;
    BitOrSplitsDigit(0xe59ff00, distance);
    BitOrSplitsDigit(0xe59ff0, distance / 0x10);
    BitOrSplitsDigit(0xe59ff, distance / 0x100);
    BitOrBelow(0xe59ff, distance / 0x1000, 20);
    assert distance / 0x10 / 0x10 == distance / 0x100 && distance / 0x100 / 0x10 == distance / 0x1000;
  }

  /** The one-word stub with the distance to the pointers put in. */
  function OneWordStub(distance: Word): (w: Word)
    ensures w / 0x1000 == BitOr(0xe59ff, distance / 0x1000) && w % 0x1000 == distance % 0x1000
  {
    OneWordBits(distance);
    BitOr(LOAD_PC_FROM_LITERAL, distance)
  }

  /** Beyond twelve bits the distance has only bits that the instruction has anyway. */
  predicate LeavesInstruction(distance: Word) {
    BitOr(0xe59ff, distance / 0x1000) == 0xe59ff
  }

  lemma LoadsIntoPc(w: Word)
    ensures Decode(w) == Load(15, 15, w % 0x1000) <==> w / 0x1000 == 0xe59ff
    ensures w / 0x1000 == 0xe59ff ==> w == LOAD_PC_FROM_LITERAL + w % 0x1000
  {
    var q, r := w / 0x1000, w % 0x1000;
    assert w == q * 0x1000 + r;
    assert w / 0x10_0000 == q / 0x100 && w / 0x1_0000 == q / 0x10 && w / 0x100_0000 == q / 0x1000;
    assert w / 0x10 / 0x100 == q;
    if q == 0xe59ff {
      assert w / 0x10 >= 0xe59ff00;
    } else {
      assert q / 0x100 == 0xe59 && q / 0x10 % 0x10 == 15 ==> q % 0x10 != 15;
    }
  }

  /** Exactly then the stub still is the load it should be. */
  lemma OneWordStubDecodes(distance: Word)
    ensures Decode(OneWordStub(distance)) == Load(15, 15, distance % 0x1000) <==> LeavesInstruction(distance)
    ensures distance < 0x1000 ==> LeavesInstruction(distance) && OneWordStub(distance) == LOAD_PC_FROM_LITERAL + distance
  {
    LoadsIntoPc(OneWordStub(distance));
    assert BitOr(0xe59ff, 0) == 0xe59ff;
    hide OneWordStub, BitOr, Decode;
    assert distance < 0x1000 ==> distance / 0x1000 == 0 && distance % 0x1000 == distance;
  }

  /** Only the program counter and r12 may differ. */
  predicate KeepsRegisters(before: Cpu, after: Cpu) {
    && before.Valid() && after.Valid()
    && forall r | 0 <= r < 16 && r != 12 && r != PC :: after.regs[r] == before.regs[r]
  }

  predicate IsAt(cpu: Cpu, target: Word) {
    cpu.Valid() && cpu.regs[PC] == target - target % 2 && (cpu.thumb <==> target % 2 == 1)
  }

  /** `ldr pc, [pc, #offset]` */
  lemma RunsOneWordStub(cpu: Cpu, mem: Mem, distance: Word)
    requires cpu.Valid() && !cpu.thumb && LeavesInstruction(distance)
    requires Read(mem, cpu.regs[PC]) == OneWordStub(distance)
    ensures
      var o := Steps(cpu, mem, 1);
      && o.Next? && o.mem == mem && KeepsRegisters(cpu, o.cpu)
      && IsAt(o.cpu, Read(mem, Plus(cpu.regs[PC], distance as int % 0x1000 + 8)))
  {
    OneWordStubDecodes(distance);
    var offset: int := distance as int % 0x1000;
    PlusPlus(cpu.regs[PC], 8, offset);
    hide Decode, OneWordStub, LeavesInstruction, Plus;
    assert Steps(cpu, mem, 1) == Steps(Step(cpu, mem).cpu, mem, 0);
  }

  const ABSOLUTE_STUB: seq<Word> := [0xe59fc000, 0xe59cf000]
  const PIC_STUB: seq<Word> := [0xe59fc004, 0xe08fc00c, 0xe59cf000]

  /** `ldr r12, [pc, #0]; ldr pc, [r12]`, followed by the address of the pointer. */
  lemma RunsAbsoluteStub(cpu: Cpu, mem: Mem)
    requires cpu.Valid() && !cpu.thumb && Holds(mem, cpu.regs[PC], ABSOLUTE_STUB)
    ensures
      var o := Steps(cpu, mem, 2);
      && o.Next? && o.mem == mem && KeepsRegisters(cpu, o.cpu)
      && IsAt(o.cpu, Read(mem, Read(mem, Plus(cpu.regs[PC], 8))))
  {
    var a := cpu.regs[PC];
    assert Read(mem, Plus(a, 4 * 0)) == ABSOLUTE_STUB[0] && Read(mem, Plus(a, 4 * 1)) == ABSOLUTE_STUB[1];
    assert Decode(0xe59fc000) == Load(12, 15, 0) && Decode(0xe59cf000) == Load(15, 12, 0);
    var c := Step(cpu, mem).cpu;
    assert Step(cpu, mem) == Next(c, mem) && c.regs[PC] == Plus(a, 4) && c.regs[12] == Read(mem, Plus(a, 8));
    assert Steps(cpu, mem, 2) == Steps(c, mem, 1) == Steps(Step(c, mem).cpu, mem, 0);
  }

  /** `ldr r12, [pc, #4]; add r12, pc, r12; ldr pc, [r12]`, followed by the offset of the pointer. */
  lemma RunsPicStub(cpu: Cpu, mem: Mem)
    requires cpu.Valid() && !cpu.thumb && Holds(mem, cpu.regs[PC], PIC_STUB)
    ensures
      var o := Steps(cpu, mem, 3);
      && o.Next? && o.mem == mem && KeepsRegisters(cpu, o.cpu)
      && IsAt(o.cpu, Read(mem, Plus(cpu.regs[PC], Read(mem, Plus(cpu.regs[PC], 12)) as int + 12)))
  {
    var a := cpu.regs[PC];
    assert Read(mem, Plus(a, 4 * 0)) == PIC_STUB[0] && Read(mem, Plus(a, 4 * 1)) == PIC_STUB[1];
    assert Read(mem, Plus(a, 4 * 2)) == PIC_STUB[2];
    assert Decode(0xe59fc004) == Load(12, 15, 4) && Decode(0xe59cf000) == Load(15, 12, 0);
    assert Decode(0xe08fc00c) == Add(12, 15, 12);
    hide Decode, Step, Holds, Plus;
    PlusPlus(a, 8, 4);
    PlusPlus(a, 4, 4);
    PlusPlus(a, 4, 8);
    PlusPlus(a, 12, Read(mem, Plus(a, 12)));
    LoadStep(cpu, mem, 12, 15, 4);
    var c := SetRegister(cpu, 12, Read(mem, Plus(a, 12)));
    AddStep(c, mem, 12, 15, 12);
    var slot := Plus(a, Read(mem, Plus(a, 12)) as int + 12);
    var d := SetRegister(c, 12, slot);
    assert d.regs[PC] == Plus(a, 8) && d.regs[12] == slot && !d.thumb;
    PlusPlus(slot, 0, 0);
    LoadStep(d, mem, 15, 12, 0);
    ThreeSteps(cpu, mem, c, d, Branch(d, Read(mem, slot)));
  }

  lemma ThreeSteps(cpu: Cpu, mem: Mem, c: Cpu, d: Cpu, e: Cpu)
    requires cpu.Valid() && c.Valid() && d.Valid() && e.Valid()
    requires Step(cpu, mem) == Next(c, mem) && Step(c, mem) == Next(d, mem) && Step(d, mem) == Next(e, mem)
    ensures Steps(cpu, mem, 3) == Next(e, mem)
  {
    hide Step;
    assert Steps(cpu, mem, 3) == Steps(c, mem, 2) == Steps(d, mem, 1) == Steps(e, mem, 0);
  }

  lemma PlusPlus(a: Word, m: int, n: int)
    ensures Plus(Plus(a, m), n) == Plus(a, m + n)
    ensures Plus(a, 0) == a
  {
  }

  lemma LoadStep(cpu: Cpu, mem: Mem, rt: nat, rn: nat, offset: Word)
    requires cpu.Valid() && !cpu.thumb && rt < 16 && rn < 16
    requires Decode(Read(mem, cpu.regs[PC])) == Load(rt, rn, offset)
    ensures Step(cpu, mem) == Next(SetRegister(cpu, rt, Read(mem, Plus(Operand(cpu, rn), offset))), mem)
  {
  }

  lemma AddStep(cpu: Cpu, mem: Mem, rd: nat, rn: nat, rm: nat)
    requires cpu.Valid() && !cpu.thumb && rd < 16 && rn < 16 && rm < 16
    requires Decode(Read(mem, cpu.regs[PC])) == Add(rd, rn, rm)
    ensures Step(cpu, mem) == Next(SetRegister(cpu, rd, Plus(Operand(cpu, rn), Operand(cpu, rm))), mem)
  {
  }

  // ---------------------------------------------------------------- memory

  /** What `WriteWords` writes, when the block does not wrap around. */
  lemma {:induction false} ReadWritten(mem: Mem, a: Word, words: seq<Word>, b: Word)
    requires a + 4 * |words| <= 0x1_0000_0000
    ensures Read(WriteWords(mem, a, words), b) ==
      if a <= b < a + 4 * |words| && (b - a) % 4 == 0 then words[(b - a) / 4] else Read(mem, b)
    decreases |words|
  {
    if |words| == 1 {
      assert words[1..] == [];
    } else if words != [] {
      ReadWritten(mem[a := words[0]], a + 4, words[1..], b);
      if a + 4 <= b < a + 4 * |words| && (b - a) % 4 == 0 {
        assert (b - a) / 4 == (b - (a + 4)) / 4 + 1;
      }
    }
  }

  lemma WrittenHolds(mem: Mem, a: Word, words: seq<Word>)
    requires a + 4 * |words| <= 0x1_0000_0000
    ensures Holds(WriteWords(mem, a, words), a, words)
  {
    hide WriteWords;
    forall k | 0 <= k < |words| ensures Read(WriteWords(mem, a, words), Plus(a, 4 * k)) == words[k] {
      ReadWritten(mem, a, words, a + 4 * k);
    }
  }
}

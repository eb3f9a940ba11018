/** The sequential machine the pipeline must agree with: one instruction at a time, registers and
    memory updated at once. What single instructions compute is a parameter (the functions held
    by Isa), so every result below holds for every choice of ALU, multiplier, divider, branch and
    read-modify-write function. */
module Isa {
  import opened Words
  import opened StoreQueue
  import opened Boards

  /** The classes the Issue stage distinguishes. Branch covers conditional branches, JAL and
      JALR; Trap covers ECALL and EBREAK taken to a handler. */
  datatype Kind = Alu | Mul | Div | Load | Store | Branch | Amo | Trap

  type AccessSize = n: nat | n in {1, 2, 4, 8} witness 1

  /** Latencies a unit can be started with. */
  type Cycles = n: int | n >= 1 witness 1

  /** A decoded instruction; code stands for the remaining opcode and function bits. */
  datatype Instr = Instr(kind: Kind, rd: Reg, rs1: Reg, rs2: Reg, imm: Word,
                         size: AccessSize, signed: bool, length: nat, code: int)

  datatype Isa = Isa(
    fetch: Word -> Instr,
    compute: (Instr, Word, Word, Word) -> Word,  // instruction, pc, rs1, rs2
    taken: (Instr, Word, Word) -> bool,
    target: (Instr, Word, Word, Word) -> Word,
    update: (Instr, Word, Word) -> Word,         // read-modify-write: instruction, old value, rs2
    divCycles: (Instr, Word, Word) -> Cycles)

  datatype Arch = Arch(pc: Word, regs: seq<Word>, mem: Memory)

  /** Stores and traps have no destination register. */
  function Dest(i: Instr): Reg { if i.kind == Store || i.kind == Trap then 0 else i.rd }

  function Operand(regs: seq<Word>, r: Reg): Word
    requires |regs| == NREGS
  {
    if r == 0 then 0 else regs[r]
  }

  function SetReg(regs: seq<Word>, r: Reg, v: Word): (s: seq<Word>)
    requires |regs| == NREGS
    ensures |s| == NREGS
  {
    if r == 0 then regs else regs[r := v]
  }

  /** The address of a load, store (base plus offset, wrapping) or AMO (base alone). */
  function Ea(i: Instr, x: Word): Word { if i.kind == Amo then x else Wrap(x + i.imm) }

  /** Sign- or zero-extension of n bytes to a word. */
  function Extend(n: nat, signed: bool, raw: nat): Word {
    Wrap(if signed && 2 * raw >= Pow256(n) then raw - Pow256(n) else raw)
  }

  function LoadValue(i: Instr, raw: nat): Word { Extend(i.size, i.signed, raw) }

  function FallThrough(i: Instr, pc: Word): Word { Wrap(pc + i.length) }

  function StoreOf(i: Instr, x: Word, y: Word, transId: int): StoreEntry {
    StoreEntry(true, Ea(i, x), y, i.size, transId)
  }

  function AmoStore(isa: Isa, i: Instr, x: Word, y: Word, mem: Memory): StoreEntry {
    StoreEntry(true, x, isa.update(i, Wrap(ReadLE(mem, x, i.size)), y), i.size, -1)
  }

  function ResultOf(isa: Isa, i: Instr, pc: Word, x: Word, y: Word, mem: Memory): Word {
    match i.kind
    case Alu | Mul | Div => isa.compute(i, pc, x, y)
    case Load | Amo => LoadValue(i, ReadLE(mem, Ea(i, x), i.size))
    case Branch => FallThrough(i, pc)
    case Store | Trap => 0
  }

  function MemAfter(isa: Isa, i: Instr, x: Word, y: Word, mem: Memory): Memory {
    match i.kind
    case Store => Write(mem, StoreOf(i, x, y, -1))
    case Amo => Write(mem, AmoStore(isa, i, x, y, mem))
    case _ => mem
  }

  function PcAfter(isa: Isa, i: Instr, pc: Word, x: Word, y: Word): Word {
    if i.kind == Branch && isa.taken(i, x, y) then isa.target(i, pc, x, y) else FallThrough(i, pc)
  }

  // ---------------------------------------------------------------- the machine

  function At(isa: Isa, a: Arch): Instr { isa.fetch(a.pc) }

  function X(isa: Isa, a: Arch): Word
    requires |a.regs| == NREGS
  {
    Operand(a.regs, At(isa, a).rs1)
  }

  function Y(isa: Isa, a: Arch): Word
    requires |a.regs| == NREGS
  {
    Operand(a.regs, At(isa, a).rs2)
  }

  function Value(isa: Isa, a: Arch): Word
    requires |a.regs| == NREGS
  {
    ResultOf(isa, At(isa, a), a.pc, X(isa, a), Y(isa, a), a.mem)
  }

  function Step(isa: Isa, a: Arch): (b: Arch)
    requires |a.regs| == NREGS
    ensures |b.regs| == NREGS
  {
    var i, x, y := At(isa, a), X(isa, a), Y(isa, a);
    Arch(PcAfter(isa, i, a.pc, x, y), SetReg(a.regs, Dest(i), Value(isa, a)), MemAfter(isa, i, x, y, a.mem))
  }

  /** n instructions from a. */
  function Run(isa: Isa, a: Arch, n: nat): (b: Arch)
    requires |a.regs| == NREGS
    ensures |b.regs| == NREGS
    decreases n
  {
    if n == 0 then a else Run(isa, Step(isa, a), n - 1)
  }

  lemma {:induction false} RunRun(isa: Isa, a: Arch, m: nat, n: nat)
    requires |a.regs| == NREGS
    ensures Run(isa, Run(isa, a, m), n) == Run(isa, a, m + n)
    decreases m
  {
    hide Step;
    if m > 0 { RunRun(isa, Step(isa, a), m - 1, n); }
  }
}

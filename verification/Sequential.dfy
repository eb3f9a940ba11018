/** What the sequential machine computes, said on registers, bytes and numbers without the functions it
    is written with, and carried to the register a retired load writes. */
module Sequential {
  import opened Words
  import opened StoreQueue
  import opened Boards
  import opened Pipeline
  import opened Invariant
  import opened ExProof
  import opened CycleProof
  import opened Runs
  import I = Isa

  /** x as an n-bit two's complement number. */
  function Signed(x: int, bits: nat): int { if x < Pow2(bits) / 2 then x else x - Pow2(bits) }

  /** v is the n bytes raw widened to a register: raw itself, or for a signed access the register with
      the same two's complement value. */
  predicate Widened(n: nat, signed: bool, raw: nat, v: Word) {
    if signed then Signed(v, 64) == Signed(raw, 8 * n) else v == raw
  }

  /** The bytes of a little-endian number of 1, 2, 4 or 8 bytes at a. */
  predicate LittleEndian(m: Memory, a: int, n: nat, raw: nat) {
    match n
    case 1 => raw == m(a)
    case 2 => raw == m(a) + 0x100 * m(a + 1)
    case 4 => raw == m(a) + 0x100 * m(a + 1) + 0x1_0000 * m(a + 2) + 0x100_0000 * m(a + 3)
    case 8 =>
      raw == m(a) + 0x100 * m(a + 1) + 0x1_0000 * m(a + 2) + 0x100_0000 * m(a + 3) +
             0x1_0000_0000 * (m(a + 4) + 0x100 * m(a + 5) + 0x1_0000 * m(a + 6) + 0x100_0000 * m(a + 7))
    case _ => false
  }

  lemma ReadIsLittleEndian(m: Memory, a: int, n: nat)
    requires n == 1 || n == 2 || n == 4 || n == 8
    ensures LittleEndian(m, a, n, ReadLE(m, a, n))
  {
    ReadStep(m, a, n);
    if n > 1 { ReadStep(m, a + 1, n - 1); }
    if n > 2 {
      ReadStep(m, a + 2, n - 2);
      ReadStep(m, a + 3, n - 3);
    }
    if n > 4 {
      ReadStep(m, a + 4, n - 4);
      ReadStep(m, a + 5, n - 5);
      ReadStep(m, a + 6, n - 6);
      ReadStep(m, a + 7, n - 7);
    }
  }

  lemma ReadStep(m: Memory, a: int, n: nat)
    requires n > 0
    ensures ReadLE(m, a, n) == m(a) + 256 * ReadLE(m, a + 1, n - 1) && ReadLE(m, a + 1, 0) == 0
  {}

  lemma SizesInBits()
    ensures Pow2(8) == 0x100 && Pow2(16) == 0x1_0000 && Pow2(32) == 0x1_0000_0000 && Pow2(64) == 0x1_0000_0000_0000_0000
  {
    Pow2Values();
  }

  /** Loads sign-extend and zero-extend: the bytes 00 00 00 80 give 0xFFFFFFFF80000000 for LW and
      0x80000000 for LWU. */
  lemma LoadWidens(i: I.Instr, raw: nat)
    requires raw < Pow256(i.size)
    ensures Widened(i.size, i.signed, raw, I.LoadValue(i, raw))
    ensures i.signed ==> (I.LoadValue(i, raw) - raw) % Pow256(i.size) == 0
  {
    SizesInBits();
    Pow256Sizes();
    hide Pow2, Pow256;
    var n, v := i.size, I.LoadValue(i, raw);
    if n == 1 {
      WidensAt(n, raw, v, 0x100);
    } else if n == 2 {
      WidensAt(n, raw, v, 0x1_0000);
    } else if n == 4 {
      WidensAt(n, raw, v, 0x1_0000_0000);
    } else {
      WidensAt(n, raw, v, 0x1_0000_0000_0000_0000);
    }
  }

  lemma Pow256Sizes()
    ensures Pow256(1) == 0x100 && Pow256(2) == 0x1_0000 && Pow256(4) == 0x1_0000_0000 && Pow256(8) == 0x1_0000_0000_0000_0000
  {
    assert Pow256(2) == 256 * Pow256(1);
    assert Pow256(4) == 256 * Pow256(3) && Pow256(3) == 256 * Pow256(2);
    assert Pow256(8) == 256 * Pow256(7) && Pow256(7) == 256 * Pow256(6) && Pow256(6) == 256 * Pow256(5);
    assert Pow256(5) == 256 * Pow256(4);
  }

  lemma WidensAt(n: nat, raw: nat, v: Word, p: int)
    requires p == 0x100 || p == 0x1_0000 || p == 0x1_0000_0000 || p == 0x1_0000_0000_0000_0000
    requires raw < p && (v == raw || (2 * raw >= p && v == Wrap(raw - p)))
    ensures (v - raw) % p == 0
    ensures 2 * raw < p ==> v == raw
  {
    if v != raw {
      assert v == raw - p + 0x1_0000_0000_0000_0000;
      assert (0x1_0000_0000_0000_0000 - p) % p == 0;
    }
  }

  lemma LittleEndianBound(m: Memory, a: int, n: nat, raw: nat)
    requires LittleEndian(m, a, n, raw)
    ensures raw < Pow256(n)
  {
    Pow256Sizes();
  }

  // ---------------------------------------------------------------- one instruction

  /** Register r as an instruction reads it. */
  function Source(a: I.Arch, r: Reg): Word
    requires |a.regs| == NREGS
  {
    if r == 0 then 0 else a.regs[r]
  }

  /** Every register but rd is as before. */
  predicate OnlyRegister(a: I.Arch, b: I.Arch, rd: Reg)
    requires |a.regs| == NREGS && |b.regs| == NREGS
  {
    forall r :: 0 <= r < NREGS && r != rd ==> b.regs[r] == a.regs[r]
  }

  /** Memory outside n bytes at address is as before, inside it holds the bytes of data, lowest first. */
  ghost predicate Stored(m: Memory, r: Memory, address: int, n: nat, data: Word) {
    forall z: int ::
      r(z) == if address <= z < address + n then (data / Pow256(z - address)) % 256 else m(z)
  }

  predicate SameRegisters(a: I.Arch, b: I.Arch) { b.regs == a.regs }

  /** Computation: rd gets the unit's value of the two operands. */
  lemma ComputeStep(isa: I.Isa, a: I.Arch)
    requires |a.regs| == NREGS
    ensures var i, b := isa.fetch(a.pc), I.Step(isa, a); var x, y := Source(a, i.rs1), Source(a, i.rs2);
      i.kind == I.Alu || i.kind == I.Mul || i.kind == I.Div ==>
        && b.pc == (a.pc + i.length) % 0x1_0000_0000_0000_0000 && b.mem == a.mem && OnlyRegister(a, b, i.rd)
        && (i.rd != 0 ==> b.regs[i.rd] == isa.compute(i, a.pc, x, y)) && (i.rd == 0 ==> SameRegisters(a, b))
  {}

  /** A branch or jump: the target if taken, and the address after it as link. */
  lemma BranchStep(isa: I.Isa, a: I.Arch)
    requires |a.regs| == NREGS
    ensures var i, b := isa.fetch(a.pc), I.Step(isa, a); var x, y := Source(a, i.rs1), Source(a, i.rs2);
      var after := (a.pc + i.length) % 0x1_0000_0000_0000_0000;
      i.kind == I.Branch ==>
        && b.pc == (if isa.taken(i, x, y) then isa.target(i, a.pc, x, y) else after)
        && b.mem == a.mem && OnlyRegister(a, b, i.rd)
        && (i.rd != 0 ==> b.regs[i.rd] == after) && (i.rd == 0 ==> SameRegisters(a, b))
  {}

  /** A load: rd gets the bytes at base plus offset, widened. */
  lemma LoadStep(isa: I.Isa, a: I.Arch) returns (raw: nat)
    requires |a.regs| == NREGS && isa.fetch(a.pc).kind == I.Load
    ensures var i, b := isa.fetch(a.pc), I.Step(isa, a);
      && LittleEndian(a.mem, (Source(a, i.rs1) + i.imm) % 0x1_0000_0000_0000_0000, i.size, raw)
      && b.pc == (a.pc + i.length) % 0x1_0000_0000_0000_0000 && b.mem == a.mem && OnlyRegister(a, b, i.rd)
      && (i.rd != 0 ==> Widened(i.size, i.signed, raw, b.regs[i.rd])) && (i.rd == 0 ==> SameRegisters(a, b))
  {
    hide ReadLE, LittleEndian, Widened, I.Step, I.LoadValue, Pow256;
    var i := isa.fetch(a.pc);
    var address := (Source(a, i.rs1) + i.imm) % 0x1_0000_0000_0000_0000;
    raw := ReadLE(a.mem, address, i.size);
    ReadIsLittleEndian(a.mem, address, i.size);
    LittleEndianBound(a.mem, address, i.size, raw);
    LoadWidens(i, raw);
    LoadParts(isa, a);
  }

  lemma LoadParts(isa: I.Isa, a: I.Arch)
    requires |a.regs| == NREGS && isa.fetch(a.pc).kind == I.Load
    ensures var i, b := isa.fetch(a.pc), I.Step(isa, a);
      var v := I.LoadValue(i, ReadLE(a.mem, (Source(a, i.rs1) + i.imm) % 0x1_0000_0000_0000_0000, i.size));
      && b.pc == (a.pc + i.length) % 0x1_0000_0000_0000_0000 && b.mem == a.mem && OnlyRegister(a, b, i.rd)
      && (i.rd != 0 ==> b.regs[i.rd] == v) && (i.rd == 0 ==> SameRegisters(a, b))
  {
    hide I.LoadValue, ReadLE;
  }

  lemma WriteIsStored(m: Memory, e: StoreEntry)
    requires e.valid
    ensures Stored(m, Write(m, e), e.address, e.size, e.data)
  {
    forall z: int
      ensures Write(m, e)(z) == if e.address <= z < e.address + e.size then (e.data / Pow256(z - e.address)) % 256 else m(z)
    {
      if e.address <= z < e.address + e.size { WrittenByte(m, e, z - e.address); }
    }
  }

  lemma WrittenByte(m: Memory, e: StoreEntry, k: nat)
    requires e.valid && k < e.size
    ensures Write(m, e)(e.address + k) == (e.data / Pow256(k)) % 256
  {
    hide Pow256;
    assert Write(m, e)(e.address + k) == ByteOf(e.data, k);
  }

  /** A store: the low bytes of rs2 at base plus offset, and no register. */
  lemma StoreStep(isa: I.Isa, a: I.Arch)
    requires |a.regs| == NREGS
    ensures var i, b := isa.fetch(a.pc), I.Step(isa, a);
      i.kind == I.Store ==>
        && b.pc == (a.pc + i.length) % 0x1_0000_0000_0000_0000 && SameRegisters(a, b)
        && Stored(a.mem, b.mem, (Source(a, i.rs1) + i.imm) % 0x1_0000_0000_0000_0000, i.size, Source(a, i.rs2))
  {
    hide Pow256, Stored, Write;
    var i := isa.fetch(a.pc);
    WriteIsStored(a.mem, I.StoreOf(i, I.X(isa, a), I.Y(isa, a), -1));
  }

  /** A read-modify-write at the base register: rd gets the old bytes widened, memory what update makes
      of them and rs2. */
  lemma AmoStep(isa: I.Isa, a: I.Arch) returns (raw: nat)
    requires |a.regs| == NREGS && isa.fetch(a.pc).kind == I.Amo
    ensures var i, b := isa.fetch(a.pc), I.Step(isa, a);
      && LittleEndian(a.mem, Source(a, i.rs1), i.size, raw) && raw < 0x1_0000_0000_0000_0000
      && b.pc == (a.pc + i.length) % 0x1_0000_0000_0000_0000 && OnlyRegister(a, b, i.rd)
      && (i.rd != 0 ==> Widened(i.size, i.signed, raw, b.regs[i.rd])) && (i.rd == 0 ==> SameRegisters(a, b))
      && Stored(a.mem, b.mem, Source(a, i.rs1), i.size, isa.update(i, raw, Source(a, i.rs2)))
  {
    hide I.LoadValue, ReadLE, LittleEndian, Widened, Pow256, I.Step, Stored;
    var i := isa.fetch(a.pc);
    var address := Source(a, i.rs1);
    raw := ReadLE(a.mem, address, i.size);
    ReadIsLittleEndian(a.mem, address, i.size);
    LittleEndianBound(a.mem, address, i.size, raw);
    Pow256Sizes();
    LoadWidens(i, raw);
    AmoParts(isa, a, raw);
  }

  lemma AmoParts(isa: I.Isa, a: I.Arch, raw: nat)
    requires |a.regs| == NREGS && isa.fetch(a.pc).kind == I.Amo
    requires raw == ReadLE(a.mem, Source(a, isa.fetch(a.pc).rs1), isa.fetch(a.pc).size) < 0x1_0000_0000_0000_0000
    ensures var i, b := isa.fetch(a.pc), I.Step(isa, a);
      && b.pc == (a.pc + i.length) % 0x1_0000_0000_0000_0000 && OnlyRegister(a, b, i.rd)
      && (i.rd != 0 ==> b.regs[i.rd] == I.LoadValue(i, raw)) && (i.rd == 0 ==> SameRegisters(a, b))
      && Stored(a.mem, b.mem, Source(a, i.rs1), i.size, isa.update(i, raw, Source(a, i.rs2)))
  {
    hide I.LoadValue, ReadLE, Stored, Write;
    var i := isa.fetch(a.pc);
    WriteIsStored(a.mem, I.AmoStore(isa, i, I.X(isa, a), I.Y(isa, a), a.mem));
  }

  lemma TrapStep(isa: I.Isa, a: I.Arch)
    requires |a.regs| == NREGS
    ensures var i, b := isa.fetch(a.pc), I.Step(isa, a); i.kind == I.Trap ==> SameRegisters(a, b) && b.mem == a.mem
  {}

  // ---------------------------------------------------------------- in the pipeline

  /** A load retired by the pipeline: after any undisturbed run that retired n instructions and then a load,
      its destination register holds, widened, the little-endian bytes that sequential memory had at its
      address. */
  lemma RetiredLoad(cfg: Config, a: I.Arch, s: Core, ins: seq<Input>, n: nat) returns (raw: nat)
    requires Sim(cfg.isa, a, s) && ShapeOk(s) && ScopedRun(cfg, s, ins) && Undisturbed(cfg, s, ins) && |a.regs| == NREGS
    requires RunCycles(cfg, s, ins).instret == s.instret + n + 1
    requires cfg.isa.fetch(I.Run(cfg.isa, a, n).pc).kind == I.Load
    ensures var b := I.Run(cfg.isa, a, n); var i := cfg.isa.fetch(b.pc); var f := RunCycles(cfg, s, ins);
      && |f.regs| == NREGS
      && LittleEndian(b.mem, (Source(b, i.rs1) + i.imm) % 0x1_0000_0000_0000_0000, i.size, raw)
      && (i.rd != 0 ==> Widened(i.size, i.signed, raw, f.regs[i.rd]))
  {
    hide Sim, RunCycles, ScopedRun, Undisturbed, I.Step, LittleEndian, Widened, Overlay, NoAmoInFlight;
    RetiredPrefix(cfg, a, s, ins);
    I.RunRun(cfg.isa, a, n, 1);
    raw := LoadStep(cfg.isa, I.Run(cfg.isa, a, n));
    RunSingle(cfg.isa, I.Run(cfg.isa, a, n));
  }

  lemma RunSingle(isa: I.Isa, a: I.Arch)
    requires |a.regs| == NREGS
    ensures I.Run(isa, a, 1) == I.Step(isa, a)
  {
    hide I.Step;
    assert I.Run(isa, I.Step(isa, a), 0) == I.Step(isa, a);
  }
}

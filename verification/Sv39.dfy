/** Sv39 page tables: page table entries, the three-level walk of inc/MMU.h, and the translation
    process of section 4.3.2 of the RISC-V Privileged Architecture v1.10 written independently. */
module Sv39 {
  import opened Words

  /** Page table memory, one 64-bit word per 8-byte aligned address. */
  type PageMem = int -> Word

  datatype Access = Fetch | Load | Store

  /** Mode 2 is reserved, but the privilege register can hold it; the walker checks no U bit then. */
  datatype Priv = U | S | ModeTwo | M

  datatype Perm = Perm(r: bool, w: bool, x: bool, u: bool)

  type Level = l: int | 0 <= l <= 2

  const PPNS := 0x1000_0000_0000 // 2^44

  // ---------------------------------------------------------------- fields

  function Bit(w: Word, weight: int): bool
    requires weight > 0
  {
    (w / weight) % 2 == 1
  }

  predicate PteV(p: Word) { Bit(p, 1) }
  predicate PteR(p: Word) { Bit(p, 2) }
  predicate PteW(p: Word) { Bit(p, 4) }
  predicate PteX(p: Word) { Bit(p, 8) }
  predicate PteU(p: Word) { Bit(p, 16) }
  predicate PteG(p: Word) { Bit(p, 32) }
  predicate PteA(p: Word) { Bit(p, 64) }
  predicate PteD(p: Word) { Bit(p, 128) }
  function PtePpn(p: Word): int { (p / 1024) % PPNS }
  function PtePerm(p: Word): Perm { Perm(PteR(p), PteW(p), PteX(p), PteU(p)) }

  /** OR with a single-bit mask. */
  function SetBit(p: Word, weight: int): Word
    requires weight in {64, 128}
  {
    if Bit(p, weight) then p else Wrap(p + weight)
  }

  /** 512^l: pages per entry at level l. */
  function Pages(l: Level): int { if l == 0 then 1 else if l == 1 then 512 else 262144 }

  /** Bytes mapped by a leaf at level l. */
  function PageSize(l: Level): int { 4096 * Pages(l) }

  function VpnField(va: Word, l: Level): int { (va / 4096 / Pages(l)) % 512 }

  function PteAddress(table: int, va: Word, l: Level): int { table * 4096 + VpnField(va, l) * 8 }

  /** PA = (ppn >> 9*level) << (12 + 9*level) | va & (page size - 1). */
  function MakePaddr(ppn: int, va: Word, l: Level): int {
    (ppn / Pages(l)) * PageSize(l) + va % PageSize(l)
  }

  function CheckPerm(p: Perm, access: Access, priv: Priv, sum: bool, mxr: bool): bool {
    if priv == U && !p.u then false
    else if priv == S && p.u && (access == Fetch || !sum) then false
    else
      match access
      case Fetch => p.x
      case Load => p.r || (mxr && p.x)
      case Store => p.w
  }

  function FaultCause(access: Access): int {
    match access case Fetch => 12 case Load => 13 case Store => 15
  }

  // ---------------------------------------------------------------- the walk

  datatype Walk = NoLeaf | Leaf(ppn: int, perm: Perm, level: Level, global: bool, address: int)

  /** The walk down to a leaf, before any permission check. */
  function WalkFrom(mem: PageMem, table: int, va: Word, l: Level): Walk
    decreases l
  {
    var address := PteAddress(table, va, l);
    var pte := mem(address);
    if !PteV(pte) then NoLeaf
    else if !PteR(pte) && !PteX(pte) then
      if l == 0 then NoLeaf else WalkFrom(mem, PtePpn(pte), va, l - 1)
    else if PtePpn(pte) % Pages(l) != 0 then NoLeaf
    else Leaf(PtePpn(pte), PtePerm(pte), l, PteG(pte), address)
  }

  function WalkRoot(mem: PageMem, root: int, va: Word): Walk { WalkFrom(mem, root, va, 2) }

  /** The A bit, and for a store the D bit, of the leaf are set in memory. */
  function Touched(pte: Word, access: Access): Word {
    var a := SetBit(pte, 64);
    if access == Store then SetBit(a, 128) else a
  }

  function StorePte(mem: PageMem, address: int, pte: Word): PageMem {
    (x: int) => if x == address then pte else mem(x)
  }

  // ---------------------------------------------------------------- A and D bits do not matter

  /** Equal but for the A and D bits, as far as the walk looks. */
  predicate SameFields(p: Word, q: Word) {
    PteV(p) == PteV(q) && PtePerm(p) == PtePerm(q) && PteG(p) == PteG(q) && PtePpn(p) == PtePpn(q)
  }

  ghost predicate SameTables(m: PageMem, n: PageMem) { forall x: int :: SameFields(m(x), n(x)) }

  /** Words with equal residue modulo 64 have equal low bits. */
  lemma LowBits(p: Word, q: Word)
    requires p % 64 == q % 64
    ensures Bit(p, 1) == Bit(q, 1) && Bit(p, 2) == Bit(q, 2) && Bit(p, 4) == Bit(q, 4)
    ensures Bit(p, 8) == Bit(q, 8) && Bit(p, 16) == Bit(q, 16) && Bit(p, 32) == Bit(q, 32)
  {
    LowBit(p, 1);
    LowBit(q, 1);
    LowBit(p, 2);
    LowBit(q, 2);
    LowBit(p, 4);
    LowBit(q, 4);
    LowBit(p, 8);
    LowBit(q, 8);
    LowBit(p, 16);
    LowBit(q, 16);
    LowBit(p, 32);
    LowBit(q, 32);
  }

  lemma LowBit(p: Word, weight: int)
    requires weight in {1, 2, 4, 8, 16, 32}
    ensures Bit(p, weight) == Bit(p % 64, weight)
  {
    var k := if weight == 1 then 32 else if weight == 2 then 16 else if weight == 4 then 8
      else if weight == 8 then 4 else if weight == 16 then 2 else 1;
    ShiftOut(p / 64, p % 64, weight, k);
  }

  lemma ShiftOut(hi: nat, lo: nat, weight: nat, k: nat)
    requires weight > 0 && weight * k == 32
    ensures ((64 * hi + lo) / weight) % 2 == (lo / weight) % 2
  {
    var q, r, x := lo / weight, lo % weight, k * hi;
    Scaled(hi, weight, k);
    MulAdd(2 * x, q, weight);
    DivModUnique(64 * hi + lo, weight, 2 * x + q, r);
    EvenPlus(x, q);
  }

  lemma Scaled(hi: nat, weight: nat, k: nat)
    requires weight * k == 32
    ensures (2 * (k * hi)) * weight == 64 * hi
  {
    assert (2 * (k * hi)) * weight == 2 * ((weight * k) * hi);
  }

  lemma EvenPlus(x: int, q: int)
    ensures (2 * x + q) % 2 == q % 2
  {}

  lemma SetBitSame(p: Word, weight: int)
    requires weight in {64, 128}
    ensures SameFields(p, SetBit(p, weight)) && Bit(SetBit(p, weight), weight)
    ensures weight == 64 ==> PteD(SetBit(p, 64)) == PteD(p)
    ensures weight == 128 ==> PteA(SetBit(p, 128)) == PteA(p)
  {
    hide Bit, PtePerm, PteV, PteG, PtePpn;
    if !Bit(p, weight) {
      BitClear(p, weight);
      BitSet(p, p + weight);
      OtherKept(p, weight);
    }
  }

  lemma OtherKept(p: Word, weight: int)
    requires weight in {64, 128} && !Bit(p, weight)
    ensures p + weight < TWO64
    ensures weight == 64 ==> Bit(p + 64, 128) == Bit(p, 128)
    ensures weight == 128 ==> Bit(p + 128, 64) == Bit(p, 64)
  {
    BitClear(p, weight);
  }

  /** What setting A or D leaves alone. */
  lemma BitSet(p: Word, q: Word)
    requires q % 64 == p % 64 && q / 256 == p / 256
    ensures SameFields(p, q)
  {
    LowBits(p, q);
    SameLow(p, q);
    assert q / 1024 == (q / 256) / 4 && p / 1024 == (p / 256) / 4;
    hide PtePerm, PteV, PteG, Bit;
  }

  lemma SameLow(p: Word, q: Word)
    requires Bit(p, 1) == Bit(q, 1) && Bit(p, 2) == Bit(q, 2) && Bit(p, 4) == Bit(q, 4)
    requires Bit(p, 8) == Bit(q, 8) && Bit(p, 16) == Bit(q, 16) && Bit(p, 32) == Bit(q, 32)
    ensures PteV(p) == PteV(q) && PtePerm(p) == PtePerm(q) && PteG(p) == PteG(q)
  {}

  /** Adding the weight of a clear bit carries nowhere. */
  lemma BitClear(p: Word, weight: int)
    requires weight in {64, 128} && !Bit(p, weight)
    ensures p + weight < TWO64 && (p + weight) % 64 == p % 64 && (p + weight) / 256 == p / 256
    ensures Bit(p + weight, weight)
    ensures weight == 64 ==> (p + 64) / 128 == p / 128
    ensures weight == 128 ==> ((p + 128) / 64) % 2 == (p / 64) % 2
  {
    if weight == 64 { ClearA(p); } else { ClearD(p); }
  }

  lemma ClearA(p: Word)
    requires !Bit(p, 64)
    ensures p + 64 < TWO64 && (p + 64) % 64 == p % 64 && (p + 64) / 256 == p / 256
    ensures Bit(p + 64, 64) && (p + 64) / 128 == p / 128
  {
    var hi, lo := p / 128, p % 128;
    assert p == 128 * hi + lo;
    assert p / 64 == 2 * hi + lo / 64;
    assert lo < 64;
    assert (p + 64) / 64 == 2 * hi + 1;
    assert (p + 64) / 256 == ((p + 64) / 128) / 2;
  }

  lemma ClearD(p: Word)
    requires !Bit(p, 128)
    ensures p + 128 < TWO64 && (p + 128) % 64 == p % 64 && (p + 128) / 256 == p / 256
    ensures Bit(p + 128, 128) && ((p + 128) / 64) % 2 == (p / 64) % 2
  {
    ClearDHigh(p, p / 128);
    ClearDLow(p);
  }

  lemma ClearDHigh(p: int, c: int)
    requires 0 <= p < TWO64 && c == p / 128 && c % 2 == 0
    ensures p + 128 < TWO64 && (p + 128) / 128 == c + 1 && (p + 128) / 256 == p / 256
  {
    assert (p + 128) / 256 == ((p + 128) / 128) / 2 && p / 256 == (p / 128) / 2;
  }

  lemma ClearDLow(p: int)
    requires 0 <= p
    ensures (p + 128) % 64 == p % 64 && ((p + 128) / 64) % 2 == (p / 64) % 2
  {
    assert (p + 128) / 64 == p / 64 + 2;
  }

  lemma TouchedSame(p: Word, access: Access)
    ensures SameFields(p, Touched(p, access)) && PteA(Touched(p, access))
    ensures PteD(Touched(p, access)) <==> PteD(p) || access == Store
  {
    SetBitSame(p, 64);
    SetBitSame(SetBit(p, 64), 128);
  }

  /** The walk's result is unaffected by any setting of A and D bits, anywhere in the tables. */
  lemma {:induction false} WalkIgnoresAD(m: PageMem, n: PageMem, table: int, va: Word, l: Level)
    requires SameTables(m, n)
    ensures WalkFrom(m, table, va, l) == WalkFrom(n, table, va, l)
    decreases l
  {
    var address := PteAddress(table, va, l);
    assert SameFields(m(address), n(address));
    if l > 0 { WalkIgnoresAD(m, n, PtePpn(m(address)), va, l - 1); }
  }

  lemma TouchKeepsTables(m: PageMem, address: int, access: Access)
    ensures SameTables(m, StorePte(m, address, Touched(m(address), access)))
  {
    TouchedSame(m(address), access);
  }

  // ---------------------------------------------------------------- one leaf serves its whole page

  predicate SamePage(v1: int, v2: int, l: Level) { v1 / Pages(l) == v2 / Pages(l) }

  lemma SamePageFields(va1: Word, va2: Word, l: Level, k: Level)
    requires SamePage(va1 / 4096, va2 / 4096, l) && l <= k
    ensures VpnField(va1, k) == VpnField(va2, k)
  {
    var x, y := va1 / 4096, va2 / 4096;
    assert (x / 512) / 512 == x / 262144 && (y / 512) / 512 == y / 262144;
  }

  /** Any address in the page of a leaf reaches the same leaf. */
  lemma {:induction false} LeafServesPage(mem: PageMem, table: int, va1: Word, va2: Word, l: Level)
    requires WalkFrom(mem, table, va1, l).Leaf?
    requires SamePage(va1 / 4096, va2 / 4096, WalkFrom(mem, table, va1, l).level)
    ensures WalkFrom(mem, table, va1, l).level <= l
    ensures WalkFrom(mem, table, va2, l) == WalkFrom(mem, table, va1, l)
    decreases l
  {
    LeafLevel(mem, table, va1, l);
    SamePageFields(va1, va2, WalkFrom(mem, table, va1, l).level, l);
    var pte := mem(PteAddress(table, va1, l));
    if !PteR(pte) && !PteX(pte) { LeafServesPage(mem, PtePpn(pte), va1, va2, l - 1); }
  }

  lemma {:induction false} LeafLevel(mem: PageMem, table: int, va: Word, l: Level)
    ensures WalkFrom(mem, table, va, l).Leaf? ==>
      var w := WalkFrom(mem, table, va, l); w.level <= l && w.ppn % Pages(w.level) == 0 && 0 <= w.ppn < PPNS
    decreases l
  {
    var pte := mem(PteAddress(table, va, l));
    if l > 0 { LeafLevel(mem, PtePpn(pte), va, l - 1); }
  }

  /** At every level the physical address is ppn*4096 plus the address modulo the page size. */
  lemma PaddrMeaning(mem: PageMem, root: int, va: Word)
    ensures var w := WalkRoot(mem, root, va);
      w.Leaf? ==> MakePaddr(w.ppn, va, w.level) == w.ppn * 4096 + va % PageSize(w.level)
  {
    hide WalkFrom, MakePaddr, Pages, PageSize;
    LeafLevel(mem, root, va, 2);
    var w := WalkRoot(mem, root, va);
    if w.Leaf? { AlignedPaddr(w.ppn, va, w.level); }
  }

  lemma AlignedPaddr(ppn: nat, va: Word, l: Level)
    requires ppn % Pages(l) == 0
    ensures MakePaddr(ppn, va, l) == ppn * 4096 + va % PageSize(l)
  {
    if l == 0 {
      assert ppn / Pages(l) == ppn;
    } else if l == 1 {
      assert ppn == 512 * (ppn / 512);
    } else {
      assert ppn == 262144 * (ppn / 262144);
    }
  }

  // ---------------------------------------------------------------- the architecture's process

  datatype Outcome = PageFault(cause: int) | Translated(pa: int)

  /** Bits 63..39 all equal bit 38. */
  predicate Canonical(va: Word) { va < 0x40_0000_0000 || va >= TWO64 - 0x40_0000_0000 }

  predicate Reserved(pte: Word) { !PteR(pte) && PteW(pte) }

  /** pa.ppn[2:i] from the entry, pa.ppn[i-1:0] and the page offset from the address. */
  function Combine(ppn: int, va: Word, l: Level): int {
    if l == 0 then ppn * 4096 + va % 4096
    else if l == 1 then (ppn / 512) * 0x20_0000 + VpnField(va, 0) * 4096 + va % 4096
    else (ppn / 262144) * 0x4000_0000 + VpnField(va, 1) * 0x20_0000 + VpnField(va, 0) * 4096 + va % 4096
  }

  /** Sections 4.3.1 and 4.1.3: the permission an access needs (an executable page is readable under
      MXR), user pages for U-mode only, except that S-mode data accesses may use them under SUM. */
  predicate Permits(p: Perm, access: Access, priv: Priv, sum: bool, mxr: bool) {
    && (access == Fetch ==> p.x)
    && (access == Load ==> p.r || (mxr && p.x))
    && (access == Store ==> p.w)
    && (priv == U ==> p.u)
    && (priv == S && p.u ==> sum && access != Fetch)
  }

  lemma CheckPermIsPermits(p: Perm, access: Access, priv: Priv, sum: bool, mxr: bool)
    ensures CheckPerm(p, access, priv, sum, mxr) <==> Permits(p, access, priv, sum, mxr)
  {}

  /** Step 6: a superpage whose lower page-number fields are not all zero. */
  predicate Misaligned(ppn: int, l: Level) { (l >= 1 && ppn % 512 != 0) || (l == 2 && (ppn / 512) % 512 != 0) }

  /** Steps 2 to 8 at level l of the table at page number table. */
  function Process(mem: PageMem, table: int, va: Word, l: Level, access: Access, priv: Priv, sum: bool, mxr: bool): Outcome
    decreases l
  {
    var pte := mem(table * 4096 + VpnField(va, l) * 8);
    if !PteV(pte) || Reserved(pte) then PageFault(FaultCause(access))
    else if PteR(pte) || PteX(pte) then
      if !Permits(PtePerm(pte), access, priv, sum, mxr) then PageFault(FaultCause(access))
      else if Misaligned(PtePpn(pte), l) then PageFault(FaultCause(access))
      else Translated(Combine(PtePpn(pte), va, l))
    else if l == 0 then PageFault(FaultCause(access))
    else Process(mem, PtePpn(pte), va, l - 1, access, priv, sum, mxr)
  }

  function Architecture(mem: PageMem, root: int, va: Word, access: Access, priv: Priv, sum: bool, mxr: bool): Outcome {
    if !Canonical(va) then PageFault(FaultCause(access))
    else Process(mem, root, va, 2, access, priv, sum, mxr)
  }

  /** What the simulator's walk with its permission check amounts to. */
  function WalkOutcome(w: Walk, va: Word, access: Access, priv: Priv, sum: bool, mxr: bool): Outcome {
    match w
    case NoLeaf => PageFault(FaultCause(access))
    case Leaf(ppn, perm, level, _, _) =>
      if CheckPerm(perm, access, priv, sum, mxr) then Translated(MakePaddr(ppn, va, level))
      else PageFault(FaultCause(access))
  }

  /** The walk meets an entry with R=0 and W=1, an encoding the architecture reserves. */
  predicate MeetsReserved(mem: PageMem, table: int, va: Word, l: Level)
    decreases l
  {
    var pte := mem(PteAddress(table, va, l));
    PteV(pte) &&
    (Reserved(pte) || (!PteR(pte) && !PteX(pte) && l > 0 && MeetsReserved(mem, PtePpn(pte), va, l - 1)))
  }

  lemma CombineIsPaddr(ppn: int, va: Word, l: Level)
    requires 0 <= ppn
    ensures Combine(ppn, va, l) == MakePaddr(ppn, va, l)
  {
    if l == 1 { MegaOffset(va); } else if l == 2 { GigaOffset(va); }
  }

  lemma MegaOffset(va: Word)
    ensures va % 0x20_0000 == VpnField(va, 0) * 4096 + va % 4096
  {
    var x := va / 4096;
    var q, r := x / 512, x % 512;
    assert va == q * 0x20_0000 + (r * 4096 + va % 4096);
  }

  lemma GigaOffset(va: Word)
    ensures va % 0x4000_0000 == VpnField(va, 1) * 0x20_0000 + VpnField(va, 0) * 4096 + va % 4096
  {
    MegaOffset(va);
    GigaSplit(va, va / 0x20_0000);
  }

  lemma GigaSplit(va: int, y: int)
    requires 0 <= va && y == va / 0x20_0000
    ensures va / 4096 / 512 == y && va % 0x4000_0000 == (y % 512) * 0x20_0000 + va % 0x20_0000
  {
    var q, r := y / 512, y % 512;
    assert va == q * 0x4000_0000 + (r * 0x20_0000 + va % 0x20_0000);
  }

  lemma AlignedParts(ppn: int)
    requires 0 <= ppn
    ensures ppn % 262144 == 0 <==> ppn % 512 == 0 && (ppn / 512) % 512 == 0
  {
    assert ppn % 262144 == ((ppn / 512) % 512) * 512 + ppn % 512;
  }

  /** One leaf entry, checked either way round. */
  lemma LeafConforms(pte: Word, address: int, va: Word, l: Level, access: Access, priv: Priv, sum: bool, mxr: bool)
    ensures
      WalkOutcome(if PtePpn(pte) % Pages(l) != 0 then NoLeaf else Leaf(PtePpn(pte), PtePerm(pte), l, PteG(pte), address),
                  va, access, priv, sum, mxr)
      == if !Permits(PtePerm(pte), access, priv, sum, mxr) then PageFault(FaultCause(access))
         else if Misaligned(PtePpn(pte), l) then PageFault(FaultCause(access))
         else Translated(Combine(PtePpn(pte), va, l))
  {
    hide CheckPerm, Permits, MakePaddr, Combine, PtePerm, PteG, FaultCause;
    CheckPermIsPermits(PtePerm(pte), access, priv, sum, mxr);
    CombineIsPaddr(PtePpn(pte), va, l);
    AlignedParts(PtePpn(pte));
  }

  /** The walk is the process of section 4.3.2 wherever no reserved entry is met; where one is met
      the process faults. */
  lemma {:induction false} WalkIsProcess(mem: PageMem, table: int, va: Word, l: Level,
                                         access: Access, priv: Priv, sum: bool, mxr: bool)
    ensures !MeetsReserved(mem, table, va, l) ==>
      WalkOutcome(WalkFrom(mem, table, va, l), va, access, priv, sum, mxr)
        == Process(mem, table, va, l, access, priv, sum, mxr)
    ensures MeetsReserved(mem, table, va, l) ==>
      Process(mem, table, va, l, access, priv, sum, mxr) == PageFault(FaultCause(access))
    decreases l
  {
    hide CheckPerm, Permits, MakePaddr, Combine, VpnField, PteV, PteR, PteW, PteX, PteU, PteG, PtePerm, FaultCause,
      PtePpn, Pages, WalkOutcome, Misaligned;
    var pte := mem(PteAddress(table, va, l));
    if !PteV(pte) {
      OutcomeOfNoLeaf(va, access, priv, sum, mxr);
    } else if PteR(pte) || PteX(pte) {
      LeafConforms(pte, PteAddress(table, va, l), va, l, access, priv, sum, mxr);
    } else if l == 0 {
      OutcomeOfNoLeaf(va, access, priv, sum, mxr);
    } else {
      WalkIsProcess(mem, PtePpn(pte), va, l - 1, access, priv, sum, mxr);
    }
  }

  lemma OutcomeOfNoLeaf(va: Word, access: Access, priv: Priv, sum: bool, mxr: bool)
    ensures WalkOutcome(NoLeaf, va, access, priv, sum, mxr) == PageFault(FaultCause(access))
  {}

  /** The entries on the way of va, whatever its upper bits and whether or not some are reserved,
      lead to an aligned leaf that permits the access. */
  predicate LeafGrants(mem: PageMem, table: int, va: Word, l: Level, access: Access, priv: Priv, sum: bool, mxr: bool)
    decreases l
  {
    var pte := mem(PteAddress(table, va, l));
    PteV(pte) &&
    if PteR(pte) || PteX(pte) then !Misaligned(PtePpn(pte), l) && Permits(PtePerm(pte), access, priv, sum, mxr)
    else l > 0 && LeafGrants(mem, PtePpn(pte), va, l - 1, access, priv, sum, mxr)
  }

  /** The simulator translates exactly where the tables grant the access. */
  lemma {:induction false} TranslatesIffGranted(mem: PageMem, table: int, va: Word, l: Level,
                                                access: Access, priv: Priv, sum: bool, mxr: bool)
    ensures WalkOutcome(WalkFrom(mem, table, va, l), va, access, priv, sum, mxr).Translated?
       <==> LeafGrants(mem, table, va, l, access, priv, sum, mxr)
    decreases l
  {
    hide CheckPerm, Permits, MakePaddr, Combine, VpnField, PteV, PteR, PteW, PteX, PteU, PteG, PtePerm, FaultCause,
      PtePpn, Pages, WalkOutcome, Misaligned;
    var pte := mem(PteAddress(table, va, l));
    if !PteV(pte) {
      OutcomeOfNoLeaf(va, access, priv, sum, mxr);
    } else if PteR(pte) || PteX(pte) {
      LeafConforms(pte, PteAddress(table, va, l), va, l, access, priv, sum, mxr);
    } else if l == 0 {
      OutcomeOfNoLeaf(va, access, priv, sum, mxr);
    } else {
      TranslatesIffGranted(mem, PtePpn(pte), va, l - 1, access, priv, sum, mxr);
    }
  }

  /** The simulator translates as the architecture says if and only if the address is canonical and
      no reserved entry is on its way, or the tables do not grant the access anyway. */
  lemma WalkConforms(mem: PageMem, root: int, va: Word, access: Access, priv: Priv, sum: bool, mxr: bool)
    ensures WalkOutcome(WalkRoot(mem, root, va), va, access, priv, sum, mxr)
            == Architecture(mem, root, va, access, priv, sum, mxr)
       <==> (Canonical(va) && !MeetsReserved(mem, root, va, 2)) || !LeafGrants(mem, root, va, 2, access, priv, sum, mxr)
  {
    hide WalkFrom, Process, LeafGrants, MeetsReserved, Canonical, WalkOutcome, FaultCause;
    WalkIsProcess(mem, root, va, 2, access, priv, sum, mxr);
    TranslatesIffGranted(mem, root, va, 2, access, priv, sum, mxr);
    FaultCauses(WalkRoot(mem, root, va), va, access, priv, sum, mxr);
  }

  // ---------------------------------------------------------------- where it does not conform

  /** V, R, W, X, U, A and D set, physical page 0: a leaf that permits everything in U-mode. */
  const OPEN_LEAF: Word := 0xDF

  /** V, W, X and U set, R clear: an encoding the architecture reserves. */
  const RESERVED_LEAF: Word := 0x1D

  /** V and W set, R and X clear, page 1. */
  const RESERVED_POINTER: Word := 0x405

  lemma WitnessFields()
    ensures PteV(OPEN_LEAF) && PtePerm(OPEN_LEAF) == Perm(true, true, true, true) && PtePpn(OPEN_LEAF) == 0
    ensures PteV(RESERVED_LEAF) && PtePerm(RESERVED_LEAF) == Perm(false, true, true, true) && PtePpn(RESERVED_LEAF) == 0
    ensures PteV(RESERVED_POINTER) && !PteR(RESERVED_POINTER) && PteW(RESERVED_POINTER) && !PteX(RESERVED_POINTER)
    ensures PtePpn(RESERVED_POINTER) == 1
  {}

  /** A leaf for page 0 that permits the access takes address 0 of its page to physical address 0. */
  lemma LeafAtZero(mem: PageMem, table: int, va: Word, l: Level, access: Access)
    requires va % PageSize(l) == 0
    requires var pte := mem(PteAddress(table, va, l));
      PteV(pte) && (PteR(pte) || PteX(pte)) && PtePpn(pte) == 0 && CheckPerm(PtePerm(pte), access, U, false, false)
    ensures WalkOutcome(WalkFrom(mem, table, va, l), va, access, U, false, false) == Translated(0)
  {
    hide PteV, PteR, PteX, PtePpn, PtePerm, CheckPerm, PteAddress;
  }

  /** An address that is not canonical translates. */
  lemma NonCanonicalTranslates()
    ensures var m: PageMem := x => OPEN_LEAF; var va := 0x40_0000_0000;
      WalkOutcome(WalkRoot(m, 0, va), va, Load, U, false, false) == Translated(0) &&
      Architecture(m, 0, va, Load, U, false, false) == PageFault(13)
  {
    hide WalkFrom, WalkOutcome, Process, PteV, PtePpn, PteR, PteW, PteX, PteU;
    WitnessFields();
    LeafAtZero(x => OPEN_LEAF, 0, 0x40_0000_0000, 2, Load);
  }

  /** A leaf with R=0, W=1, X=1 is accepted: here for a fetch. */
  lemma ReservedLeafAccepted()
    ensures var m: PageMem := x => RESERVED_LEAF;
      WalkOutcome(WalkRoot(m, 0, 0), 0, Fetch, U, false, false) == Translated(0) &&
      Architecture(m, 0, 0, Fetch, U, false, false) == PageFault(12)
  {
    hide WalkFrom, WalkOutcome, PteV, PtePpn, PteR, PteW, PteX, PteU, VpnField;
    WitnessFields();
    LeafAtZero(x => RESERVED_LEAF, 0, 0, 2, Fetch);
  }

  /** An entry with R=0, W=1, X=0 is followed as a pointer: here to a table in page 1. */
  lemma ReservedPointerFollowed()
    ensures var m: PageMem := x => if x < 4096 then RESERVED_POINTER else OPEN_LEAF;
      WalkOutcome(WalkRoot(m, 0, 0), 0, Load, U, false, false) == Translated(0) &&
      Architecture(m, 0, 0, Load, U, false, false) == PageFault(13)
  {
    hide WalkOutcome, WalkFrom, Process, PteV, PtePpn, PteR, PteW, PteX, PteU, PteAddress, VpnField;
    var m: PageMem := x => if x < 4096 then RESERVED_POINTER else OPEN_LEAF;
    WitnessFields();
    ZeroAddress(0, 2);
    ZeroAddress(1, 1);
    ReservedPointerStep(m, 0, 0, 2, Load);
    LeafAtZero(m, 1, 0, 1, Load);
  }

  lemma ZeroAddress(table: nat, l: Level)
    ensures PteAddress(table, 0, l) == table * 4096
  {}

  lemma ReservedPointerStep(mem: PageMem, table: int, va: Word, l: Level, access: Access)
    requires l > 0
    requires var pte := mem(PteAddress(table, va, l)); PteV(pte) && Reserved(pte) && !PteX(pte)
    ensures WalkFrom(mem, table, va, l) == WalkFrom(mem, PtePpn(mem(PteAddress(table, va, l))), va, l - 1)
    ensures Process(mem, table, va, l, access, U, false, false) == PageFault(FaultCause(access))
  {
    hide PteV, PteR, PteW, PteX, PtePpn, VpnField;
  }

  lemma FaultCauses(w: Walk, va: Word, access: Access, priv: Priv, sum: bool, mxr: bool)
    ensures var o := WalkOutcome(w, va, access, priv, sum, mxr); o.PageFault? ==> o.cause == FaultCause(access)
  {}
}

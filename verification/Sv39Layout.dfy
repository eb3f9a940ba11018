/** Where the fields are: page table entries, virtual addresses, satp and mstatus as numbers, and what the
    walk makes of them. */
module Sv39Layout {
  import opened Words
  import opened Sv39
  import opened Tlbs
  import opened Translation

  function B(on: bool): nat { if on then 1 else 0 }

  /** Dividing a number by the weight of its upper part. */
  lemma Upper(x: int, low: int, weight: int, high: int)
    requires weight > 0 && x == low + weight * high && 0 <= low < weight
    ensures x / weight == high && x % weight == low
  {
    DivModUnique(x, weight, high, low);
  }

  /** A page table entry: V, R, W, X, U, G, A and D are bits 0 to 7, two bits for software follow, the
      page number is bits 10 to 53, and bits 54 to 63 are left over. */
  function Entry(v: bool, r: bool, w: bool, x: bool, u: bool, g: bool, a: bool, d: bool, rsw: nat, ppn: nat, high: nat): nat {
    B(v) + 2 * B(r) + 4 * B(w) + 8 * B(x) + 16 * B(u) + 32 * B(g) + 64 * B(a) + 128 * B(d) +
    256 * rsw + 1024 * ppn + 0x40_0000_0000_0000 * high
  }

  lemma EntryLayout(v: bool, r: bool, w: bool, x: bool, u: bool, g: bool, a: bool, d: bool, rsw: nat, ppn: nat, high: nat)
    requires rsw < 4 && ppn < 0x1000_0000_0000 && high < 0x400
    ensures var p := Entry(v, r, w, x, u, g, a, d, rsw, ppn, high);
      && p < 0x1_0000_0000_0000_0000
      && PteV(p) == v && PteR(p) == r && PteW(p) == w && PteX(p) == x && PteU(p) == u && PteG(p) == g
      && PteA(p) == a && PteD(p) == d && PtePpn(p) == ppn && PtePerm(p) == Perm(r, w, x, u)
  {
    hide B, Bit;
    Switch();
    var p := Entry(v, r, w, x, u, g, a, d, rsw, ppn, high);
    var top := ppn + 0x1000_0000_0000 * high;
    var q8 := rsw + 4 * top;
    var q7 := B(d) + 2 * q8;
    var q6 := B(a) + 2 * q7;
    var q5 := B(g) + 2 * q6;
    var q4 := B(u) + 2 * q5;
    var q3 := B(x) + 2 * q4;
    var q2 := B(w) + 2 * q3;
    var q1 := B(r) + 2 * q2;
    BitAt(p, 0, 1, v, q1);
    BitAt(p, p - 2 * q1, 2, r, q2);
    BitAt(p, p - 4 * q2, 4, w, q3);
    BitAt(p, p - 8 * q3, 8, x, q4);
    BitAt(p, p - 16 * q4, 16, u, q5);
    BitAt(p, p - 32 * q5, 32, g, q6);
    BitAt(p, p - 64 * q6, 64, a, q7);
    BitAt(p, p - 128 * q7, 128, d, q8);
    Upper(p, p - 1024 * top, 1024, top);
    Upper(top, ppn, 0x1000_0000_0000, high);
  }

  lemma BitAt(x: Word, low: int, weight: int, on: bool, rest: nat)
    requires weight > 0 && x == low + weight * (B(on) + 2 * rest) && 0 <= low < weight
    ensures Bit(x, weight) == on
  {
    Upper(x, low, weight, B(on) + 2 * rest);
  }

  lemma Switch()
    ensures forall on {:trigger B(on)} :: 0 <= B(on) <= 1
  {}

  /** A virtual address: offset, three nine-bit fields, and the upper bits, which must copy bit 38. */
  lemma AddressLayout(offset: nat, v0: nat, v1: nat, v2: nat, upper: nat)
    requires offset < 4096 && v0 < 512 && v1 < 512 && v2 < 512 && upper < 0x200_0000
    ensures var va := offset + 0x1000 * v0 + 0x20_0000 * v1 + 0x4000_0000 * v2 + 0x80_0000_0000 * upper;
      && va < 0x1_0000_0000_0000_0000
      && VpnField(va, 0) == v0 && VpnField(va, 1) == v1 && VpnField(va, 2) == v2 && Vpn(va) == va / 0x1000
      && (Canonical(va) <==> (v2 < 256 && upper == 0) || (v2 >= 256 && upper == 0x1FF_FFFF))
      && (forall table: int ::
            PteAddress(table, va, 0) == 0x1000 * table + 8 * v0 && PteAddress(table, va, 1) == 0x1000 * table + 8 * v1 &&
            PteAddress(table, va, 2) == 0x1000 * table + 8 * v2)
  {
    var va := offset + 0x1000 * v0 + 0x20_0000 * v1 + 0x4000_0000 * v2 + 0x80_0000_0000 * upper;
    var q2 := v2 + 512 * upper;
    var q1 := v1 + 512 * q2;
    var q0 := v0 + 512 * q1;
    Upper(va, offset, 0x1000, q0);
    Upper(q0, v0, 512, q1);
    Upper(q0, v0 + 512 * v1, 262144, q2);
    Upper(q1, v1, 512, q2);
    Upper(q2, v2, 512, upper);
  }

  /** The physical address: the leaf's page number, of which the fields a larger page leaves out come from
      the address, and the offset. */
  lemma PhysicalLayout(p0: nat, p1: nat, p2: nat, offset: nat, v0: nat, v1: nat, rest: nat)
    requires p0 < 512 && p1 < 512 && offset < 4096 && v0 < 512 && v1 < 512 && rest < 0x4_0000_0000
    ensures var va: Word := offset + 0x1000 * v0 + 0x20_0000 * v1 + 0x4000_0000 * rest;
      var ppn := p0 + 512 * p1 + 262144 * p2;
      && MakePaddr(ppn, va, 0) == offset + 0x1000 * p0 + 0x20_0000 * p1 + 0x4000_0000 * p2
      && MakePaddr(ppn, va, 1) == offset + 0x1000 * v0 + 0x20_0000 * p1 + 0x4000_0000 * p2
      && MakePaddr(ppn, va, 2) == offset + 0x1000 * v0 + 0x20_0000 * v1 + 0x4000_0000 * p2
  {
    var va := offset + 0x1000 * v0 + 0x20_0000 * v1 + 0x4000_0000 * rest;
    var ppn := p0 + 512 * p1 + 262144 * p2;
    Upper(ppn, p0, 512, p1 + 512 * p2);
    Upper(ppn, p0 + 512 * p1, 262144, p2);
    Upper(va, offset, 0x1000, v0 + 512 * v1 + 262144 * rest);
    Upper(va, offset + 0x1000 * v0, 0x20_0000, v1 + 512 * rest);
    Upper(va, offset + 0x1000 * v0 + 0x20_0000 * v1, 0x4000_0000, rest);
  }

  /** The causes: instruction, load and store page fault. */
  lemma Causes()
    ensures FaultCause(Fetch) == 12 && FaultCause(Load) == 13 && FaultCause(Store) == 15
  {}

  /** The write-back adds the weight of the A bit if it is clear, and that of D if the access is a store
      and it is clear; no other bit of the entry moves. */
  lemma TouchedExact(p: Word, access: Access)
    ensures Touched(p, access) ==
      p + (if (p / 64) % 2 == 0 then 64 else 0) + (if access == Store && (p / 128) % 2 == 0 then 128 else 0)
  {
    SetAdds(p, 64);
    SetAdds(p, 128);
    SetAdds(SetBit(p, 64), 128);
    SetBitSame(p, 64);
    hide SetBit, SameFields;
  }

  lemma SetAdds(p: Word, weight: int)
    requires weight in {64, 128}
    ensures SetBit(p, weight) == p + (if (p / weight) % 2 == 0 then weight else 0)
  {
    if !Bit(p, weight) { BitClear(p, weight); }
  }

  // ---------------------------------------------------------------- satp and mstatus

  /** satp is the mode in bits 63:60, the address space in 59:44 and the root table in 43:0. */
  lemma SatpLayout(mode: nat, asid: nat, root: nat)
    requires mode < 16 && asid < 0x1_0000 && root < 0x1000_0000_0000
    ensures var satp := mode * 0x1000_0000_0000_0000 + asid * 0x1000_0000_0000 + root;
      && satp < 0x1_0000_0000_0000_0000 && (Sv39Mode(satp) <==> mode == 8) && Asid(satp) == asid && Root(satp) == root
  {
    var satp := mode * 0x1000_0000_0000_0000 + asid * 0x1000_0000_0000 + root;
    Upper(satp, root, 0x1000_0000_0000, asid + 0x1_0000 * mode);
    Upper(satp, root + 0x1000_0000_0000 * asid, 0x1000_0000_0000_0000, mode);
    Upper(asid + 0x1_0000 * mode, asid, 0x1_0000, mode);
  }
}

/** Physical memory protection (inc/CSR_File.h): region decoding and the access check, against a
    reference that speaks of the bytes each entry covers (section 3.6.1 of the Privileged
    Architecture). */
module Pmp {
  import opened Words

  const ENTRIES := 16
  const ALL_ONES: Word := 0xFFFF_FFFF_FFFF_FFFF

  datatype Registers = Registers(cfg0: Word, cfg2: Word, addr: seq<Word>)

  ghost predicate Valid(p: Registers) { |p.addr| == ENTRIES }

  /** The configuration byte of entry i: eight to a register, odd registers unused. */
  function Cfg(p: Registers, i: nat): Byte
    requires i < ENTRIES
  {
    if i < 8 then ByteOf(p.cfg0, i) else ByteOf(p.cfg2, i - 8)
  }

  /** The address-matching field: 0 off, 1 top of range, 2 four bytes, 3 power of two. */
  function Matching(cfg: Byte): nat { (cfg / 8) % 4 }

  /** What the configuration says of an access its entry decides. */
  predicate Verdict(cfg: Byte, machine: bool, write: bool, exec: bool) {
    if machine && cfg / 128 == 0 then true
    else if exec then (cfg / 4) % 2 == 1
    else if write then (cfg / 2) % 2 == 1
    else cfg % 2 == 1
  }

  // ---------------------------------------------------------------- the check as coded

  function Shl2(a: int): Word { Wrap(4 * a) }

  function Plus(a: int, b: int): Word { Wrap(a + b) }

  function TrailingOnes(a: nat): nat { if a % 2 == 1 then 1 + TrailingOnes(a / 2) else 0 }

  /** The range of a power-of-two entry as the counting loop finds it. */
  function NapotRange(a: Word): (Word, Word) {
    var log := 3 + TrailingOnes(a);
    if log >= 64 then (0, ALL_ONES)
    else
      var size := Pow2(log);
      (Wrap(Below(Shl2(a), size)), Plus(Below(Shl2(a), size), size))
  }

  /** x with the bits under size cleared. */
  function Below(x: nat, size: nat): nat
    requires size > 0
  {
    x / size * size
  }

  function Range(p: Registers, i: nat): (Word, Word)
    requires Valid(p) && i < ENTRIES
  {
    var m := Matching(Cfg(p, i));
    if m == 1 then (if i > 0 then Shl2(p.addr[i - 1]) else 0, Shl2(p.addr[i]))
    else if m == 2 then (Shl2(p.addr[i]), Plus(Shl2(p.addr[i]), 4))
    else if m == 3 then NapotRange(p.addr[i])
    else (0, 0)
  }

  predicate Hit(range: (Word, Word), paddr: Word, size: nat) {
    paddr < range.1 && (range.1 == ALL_ONES || Plus(paddr, size) > range.0) && paddr >= range.0
  }

  predicate AnyActive(p: Registers) { exists i: nat :: i < ENTRIES && Matching(Cfg(p, i)) != 0 }

  /** The verdict of the first active entry from i on whose range is hit. */
  predicate CheckFrom(p: Registers, i: nat, machine: bool, paddr: Word, size: nat, write: bool, exec: bool)
    requires Valid(p) && i <= ENTRIES
    decreases ENTRIES - i
  {
    if i == ENTRIES then machine
    else if Matching(Cfg(p, i)) != 0 && Hit(Range(p, i), paddr, size) then Verdict(Cfg(p, i), machine, write, exec)
    else CheckFrom(p, i + 1, machine, paddr, size, write, exec)
  }

  predicate Check(p: Registers, machine: bool, paddr: Word, size: nat, write: bool, exec: bool)
    requires Valid(p)
  {
    AnyActive(p) ==> CheckFrom(p, 0, machine, paddr, size, write, exec)
  }

  /** The loop that counts trailing ones, and the range it gives. */
  method DecodeNapot(a: Word) returns (base: Word, top: Word)
    ensures (base, top) == NapotRange(a)
  {
    var v, log: nat := a, 3;
    while v % 2 == 1 && log < 64
      invariant log <= 64 && log + TrailingOnes(v) == 3 + TrailingOnes(a)
      decreases 64 - log
    {
      log := log + 1;
      v := v / 2;
    }
    if log >= 64 {
      base, top := 0, ALL_ONES;
    } else {
      assert TrailingOnes(v) == 0;
      var size := Pow2(log);
      base := Wrap(Below(Shl2(a), size));
      top := Plus(Below(Shl2(a), size), size);
    }
  }

  method PmpCheck(p: Registers, machine: bool, paddr: Word, size: nat, write: bool, exec: bool) returns (ok: bool)
    requires Valid(p)
    ensures ok == Check(p, machine, paddr, size, write, exec)
  {
    hide Verdict, ByteOf, TrailingOnes, NapotRange, Hit;
    var anyActive := false;
    for i := 0 to ENTRIES
      invariant anyActive <==> exists j: nat :: j < i && Matching(Cfg(p, j)) != 0
    {
      if Matching(Cfg(p, i)) != 0 { anyActive := true; }
    }
    if !anyActive { return true; }
    for i := 0 to ENTRIES
      invariant CheckFrom(p, 0, machine, paddr, size, write, exec) == CheckFrom(p, i, machine, paddr, size, write, exec)
    {
      var cfg := Cfg(p, i);
      var m := Matching(cfg);
      if m != 0 {
        var base: Word, top: Word := 0, 0;
        if m == 1 {
          base := if i > 0 then Shl2(p.addr[i - 1]) else 0;
          top := Shl2(p.addr[i]);
        } else if m == 2 {
          base := Shl2(p.addr[i]);
          top := Plus(base, 4);
        } else if m == 3 {
          base, top := DecodeNapot(p.addr[i]);
        }
        if Hit((base, top), paddr, size) { return Verdict(cfg, machine, write, exec); }
      }
    }
    return machine;
  }

  // ---------------------------------------------------------------- the encoding inverted

  /** The register value that names the aligned block of 2^(k+3) bytes numbered u. */
  function NapotEncode(u: nat, k: nat): nat { u * Pow2(k + 1) + Pow2(k) - 1 }

  lemma {:induction false} EncodeTrailingOnes(u: nat, k: nat)
    ensures TrailingOnes(NapotEncode(u, k)) == k
    decreases k
  {
    hide NapotEncode, Pow2;
    if k == 0 {
      EncodeSmallest(u);
    } else {
      EncodeTrailingOnes(u, k - 1);
      EncodeStep(u, k);
      HalfOfOdd(NapotEncode(u, k - 1));
    }
  }

  lemma HalfOfOdd(h: nat)
    ensures (2 * h + 1) % 2 == 1 && (2 * h + 1) / 2 == h && (2 * h) % 2 == 0
  {}

  lemma EncodeSmallest(u: nat)
    ensures NapotEncode(u, 0) == 2 * u && NapotEncode(u, 0) % 2 == 0
  {
    assert Pow2(1) == 2;
    HalfOfOdd(u);
  }

  lemma EncodeStep(u: nat, k: nat)
    requires k > 0
    ensures NapotEncode(u, k) == 2 * NapotEncode(u, k - 1) + 1
  {
    assert Pow2(k + 1) == 2 * Pow2(k) && Pow2(k) == 2 * Pow2(k - 1);
    assert u * (2 * Pow2(k)) == 2 * (u * Pow2(k));
  }

  function BlockNumber(a: nat): nat { Quotient(a, Pow2(TrailingOnes(a) + 1)) }

  lemma {:induction false} EncodeUnique(a: nat)
    ensures a == NapotEncode(BlockNumber(a), TrailingOnes(a))
  {
    hide NapotEncode, Pow2, Quotient;
    if a % 2 == 1 {
      EncodeUnique(a / 2);
      BlockNumberStep(a);
      EncodeStep(BlockNumber(a), TrailingOnes(a));
    } else {
      SmallestBlock(a);
      EncodeSmallest(a / 2);
    }
  }

  lemma SmallestBlock(a: nat)
    ensures Quotient(a, Pow2(1)) == a / 2
  {
    assert Pow2(1) == 2;
  }

  lemma BlockNumberStep(a: nat)
    requires a % 2 == 1
    ensures BlockNumber(a) == BlockNumber(a / 2)
  {
    var k := TrailingOnes(a / 2) + 1;
    assert Pow2(k + 1) == 2 * Pow2(k);
    hide Pow2;
    DivTwice(a, Pow2(k));
  }

  lemma DivTwice(a: nat, d: nat)
    requires d > 0
    ensures (a / 2) / d == a / (2 * d)
  {
    var q, r := a / 2, a % 2;
    var q2, r2 := q / d, q % d;
    assert q == q2 * d + r2;
    assert a == 2 * (q2 * d + r2) + r;
    assert 2 * (q2 * d) == q2 * (2 * d);
    DivModUnique(a, 2 * d, q2, 2 * r2 + r);
  }

  /** Below this value, 2^61 - 1, every encoded block ends inside the 64-bit address space. */
  const LIMIT: Word := 0x1FFF_FFFF_FFFF_FFFF

  /** Decoding inverts encoding: for every size 2^(k+3) and every aligned block encoded below the
      limit, the range found is that block. */
  lemma NapotInverts(u: nat, k: nat)
    requires NapotEncode(u, k) < LIMIT
    ensures NapotEncode(u, k) < TWO64 && NapotRange(NapotEncode(u, k)) == (u * Pow2(k + 3), (u + 1) * Pow2(k + 3))
  {
    EncodeTrailingOnes(u, k);
    EncodeFits(u, k);
    EncodeTimesFour(u, k);
    RangeOfSize(NapotEncode(u, k), u, k);
  }

  lemma RangeOfSize(a: Word, u: nat, k: nat)
    requires TrailingOnes(a) == k <= 60 && 4 * a < TWO64 && (u + 1) * Pow2(k + 3) <= TOP_LIMIT
    requires u * Pow2(k + 3) <= 4 * a < u * Pow2(k + 3) + Pow2(k + 3)
    ensures NapotRange(a) == (u * Pow2(k + 3), (u + 1) * Pow2(k + 3))
  {
    hide Pow2, Below, TrailingOnes, Plus, Wrap, Shl2;
    var size := Pow2(k + 3);
    ClearLow(4 * a, size, u);
    SmallShl2(a);
    SmallPlus(u * size, 0);
    SmallPlus(u * size, size);
  }

  lemma SmallShl2(a: nat)
    requires 4 * a < TWO64
    ensures Shl2(a) == 4 * a
  {}

  lemma SmallPlus(a: nat, b: nat)
    requires a + b < TWO64
    ensures Plus(a, b) == a + b == Wrap(a + b)
  {}

  lemma ClearLow(x: nat, size: nat, u: nat)
    requires u * size <= x < u * size + size
    ensures Below(x, size) == u * size && (u + 1) * size == u * size + size
  {
    DivModUnique(x, size, u, x - u * size);
  }

  lemma EncodeTimesFour(u: nat, k: nat)
    ensures 4 * NapotEncode(u, k) == u * Pow2(k + 3) + (4 * Pow2(k) - 4) && 0 <= 4 * Pow2(k) - 4 < Pow2(k + 3)
  {
    assert Pow2(k + 3) == 2 * Pow2(k + 2) && Pow2(k + 2) == 2 * Pow2(k + 1) && Pow2(k + 1) == 2 * Pow2(k);
    assert 4 * (u * Pow2(k + 1)) == u * (4 * Pow2(k + 1));
  }

  const TOP_LIMIT: Word := 0xC000_0000_0000_0000

  lemma EncodeFits(u: nat, k: nat)
    requires NapotEncode(u, k) < LIMIT
    ensures k <= 60 && 4 * NapotEncode(u, k) < TWO64 && (u + 1) * Pow2(k + 3) <= TOP_LIMIT
  {
    Sixty();
    EncodeTimesFour(u, k);
    SizeFits(u, k);
    Pow2Mono(k, 60);
    assert Pow2(k + 3) == 8 * Pow2(k) by { assert Pow2(k + 3) == 2 * Pow2(k + 2) && Pow2(k + 2) == 2 * Pow2(k + 1); }
    MulAdd(u, 1, Pow2(k + 3));
  }

  lemma Sixty()
    ensures Pow2(60) == 0x1000_0000_0000_0000 && Pow2(61) == 0x2000_0000_0000_0000
    ensures Pow2(62) == 0x4000_0000_0000_0000
  {
    Pow2Values();
    assert Pow2(63) == 2 * Pow2(62) && Pow2(62) == 2 * Pow2(61) && Pow2(61) == 2 * Pow2(60);
  }

  lemma SizeFits(u: nat, k: nat)
    requires NapotEncode(u, k) < LIMIT
    ensures k <= 60
  {
    Sixty();
    if k > 60 {
      Pow2Mono(61, k);
      MulMono(0, u, Pow2(k + 1));
    }
  }

  // ---------------------------------------------------------------- the reference

  /** Bit k of entry i's configuration, where it is in the registers: bit 8*i + k of pmpcfg0 for the first
      eight entries, bit 8*(i - 8) + k of pmpcfg2 for the others. */
  predicate CfgBit(p: Registers, i: nat, k: nat) {
    if i < 8 then (p.cfg0 / Pow2(8 * i + k)) % 2 == 1 else (p.cfg2 / Pow2(8 * (i - 8) + k)) % 2 == 1
  }

  /** The address-matching field, bits 4:3. */
  function Mode(p: Registers, i: nat): nat { (if CfgBit(p, i, 3) then 1 else 0) + (if CfgBit(p, i, 4) then 2 else 0) }

  /** Entry i allows the access: machine mode with L (bit 7) clear, or else X (bit 2) for a fetch, W (bit 1)
      for a write and R (bit 0) for a read. */
  predicate Grants(p: Registers, i: nat, machine: bool, write: bool, exec: bool) {
    (machine && !CfgBit(p, i, 7)) || CfgBit(p, i, if exec then 2 else if write then 1 else 0)
  }

  ghost predicate SomeActive(p: Registers) { exists i: nat :: i < ENTRIES && Mode(p, i) != 0 }

  lemma DivProduct(w: nat, p: nat, d: nat)
    requires p > 0 && d > 0
    ensures p * d > 0 && (w / p) / d == w / (p * d)
  {
    var q, r := w / p, w % p;
    var q2, r2 := q / d, q % d;
    assert w == q * p + r && q == q2 * d + r2;
    assert q * p == (q2 * d) * p + r2 * p by { MulAdd(q2 * d, r2, p); }
    assert (q2 * d) * p == q2 * (p * d) by { assert (q2 * d) * p == q2 * (d * p); assert d * p == p * d; }
    assert r2 * p + r < p * d by {
      MulMono(r2 + 1, d, p);
      MulAdd(r2, 1, p);
      assert d * p == p * d;
    }
    MulMono(0, r2, p);
    MulMono(1, p, d);
    DivModUnique(w, p * d, q2, r2 * p + r);
  }

  /** A byte of a word, bit by bit. */
  lemma ByteBit(w: Word, j: nat, k: nat)
    requires k < 8
    ensures (ByteOf(w, j) / Pow2(k)) % 2 == (w / Pow2(8 * j + k)) % 2
  {
    hide Pow2, ByteOf, Quotient;
    ByteIs(w, j);
    LowBits(Quotient(w, Pow2(8 * j)), k);
    UpperBit(w, 8 * j, k);
  }

  lemma ByteIs(w: Word, j: nat)
    ensures ByteOf(w, j) == Quotient(w, Pow2(8 * j)) % 256
  {
    hide Pow2, Pow256;
    BytePower(j);
  }

  lemma UpperBit(w: Word, n: nat, k: nat)
    ensures Quotient(w, Pow2(n)) / Pow2(k) == w / Pow2(n + k)
  {
    hide Pow2;
    Pow2Sum(n, k);
    DivProduct(w, Pow2(n), Pow2(k));
  }

  lemma {:induction false} BytePower(j: nat)
    ensures Pow256(j) == Pow2(8 * j)
  {
    if j > 0 {
      BytePower(j - 1);
      Pow2Sum(8, 8 * (j - 1));
      Pow2Values();
    }
  }

  lemma LowBits(x: nat, k: nat)
    requires k < 8
    ensures ((x % 256) / Pow2(k)) % 2 == (x / Pow2(k)) % 2
  {
    hide Pow2;
    SmallPowers();
    var e := if k == 0 then 128 else if k == 1 then 64 else if k == 2 then 32 else if k == 3 then 16
             else if k == 4 then 8 else if k == 5 then 4 else if k == 6 then 2 else 1;
    LowBit(x, Pow2(k), e);
  }

  lemma LowBit(x: nat, p: nat, e: nat)
    requires p > 0 && e * p == 128
    ensures ((x % 256) / p) % 2 == (x / p) % 2
  {
    var q, r := x / 256, x % 256;
    var a, b := r / p, r % p;
    assert r == a * p + b;
    assert 128 * (2 * q) == (2 * q * e) * p by { MulAssoc(2 * q, e, p); }
    MulAdd(2 * q * e, a, p);
    DivModUnique(x, p, 2 * q * e + a, b);
    Even(q * e, a);
    assert 2 * q * e == 2 * (q * e);
  }

  lemma Even(n: nat, a: nat)
    ensures (2 * n + a) % 2 == a % 2
  {}

  lemma SmallPowers()
    ensures Pow2(0) == 1 && Pow2(1) == 2 && Pow2(2) == 4 && Pow2(3) == 8
    ensures Pow2(4) == 16 && Pow2(5) == 32 && Pow2(6) == 64 && Pow2(7) == 128
  {
    assert Pow2(3) == 2 * Pow2(2) && Pow2(5) == 2 * Pow2(4) && Pow2(7) == 2 * Pow2(6);
    Pow2Values();
  }

  lemma CfgBitOf(p: Registers, i: nat, k: nat)
    requires i < ENTRIES && k < 8
    ensures CfgBit(p, i, k) <==> (Cfg(p, i) / Pow2(k)) % 2 == 1
  {
    hide ByteOf, Pow2;
    ByteBit(if i < 8 then p.cfg0 else p.cfg2, if i < 8 then i else i - 8, k);
  }

  lemma ByteFields(c: Byte)
    ensures (c / 8) % 4 == (c / 8) % 2 + 2 * ((c / 16) % 2)
    ensures (c / 128) % 2 == c / 128
  {
    var m := c / 8;
    assert c / 16 == m / 2;
    LowTwo(m);
  }

  lemma LowTwo(m: nat)
    ensures m % 4 == m % 2 + 2 * ((m / 2) % 2)
  {}

  /** The configuration byte the check reads, and the bits of the registers. */
  lemma ConfigBits(p: Registers, i: nat, machine: bool, write: bool, exec: bool)
    requires i < ENTRIES
    ensures Matching(Cfg(p, i)) == Mode(p, i)
    ensures Verdict(Cfg(p, i), machine, write, exec) == Grants(p, i, machine, write, exec)
  {
    hide Cfg, CfgBit, Pow2;
    SmallPowers();
    CfgBitOf(p, i, 0);
    CfgBitOf(p, i, 1);
    CfgBitOf(p, i, 2);
    CfgBitOf(p, i, 3);
    CfgBitOf(p, i, 4);
    CfgBitOf(p, i, 7);
    ByteFields(Cfg(p, i));
  }

  lemma ActiveSame(p: Registers)
    ensures AnyActive(p) == SomeActive(p)
  {
    forall i: nat | i < ENTRIES ensures Matching(Cfg(p, i)) == Mode(p, i) { ConfigBits(p, i, false, false, false); }
    hide Matching, Cfg, Mode;
  }

  /** Byte b is in the region of entry i. */
  ghost predicate InRegion(p: Registers, i: nat, b: nat)
    requires Valid(p) && i < ENTRIES
  {
    var m := Mode(p, i);
    if m == 1 then (if i > 0 then p.addr[i - 1] else 0) <= b / 4 < p.addr[i]
    else if m == 2 then b / 4 == p.addr[i]
    else if m == 3 then InBlock(p.addr[i], b)
    else false
  }

  /** a encodes an aligned power-of-two block that holds b. */
  ghost predicate InBlock(a: nat, b: nat) {
    exists k: nat :: a == NapotEncode(BlockOf(b, k), k)
  }

  /** The number of the block of 2^(k+3) bytes that holds byte b. */
  function BlockOf(b: nat, k: nat): nat { Quotient(b, Pow2(k + 3)) }

  ghost predicate Touches(p: Registers, i: nat, paddr: nat, size: nat)
    requires Valid(p) && i < ENTRIES
  {
    exists b: nat :: paddr <= b < paddr + size && InRegion(p, i, b)
  }

  ghost predicate Covers(p: Registers, i: nat, paddr: nat, size: nat)
    requires Valid(p) && i < ENTRIES
  {
    forall b: nat :: paddr <= b < paddr + size ==> InRegion(p, i, b)
  }

  /** The lowest-numbered entry from i on that matches any byte of the access; ENTRIES if none. */
  ghost function Decider(p: Registers, i: nat, paddr: nat, size: nat): (d: nat)
    requires Valid(p) && i <= ENTRIES
    ensures d <= ENTRIES
    decreases ENTRIES - i
  {
    if i == ENTRIES || Touches(p, i, paddr, size) then i else Decider(p, i + 1, paddr, size)
  }

  /** The deciding entry holds some bytes of the access and not others. */
  ghost predicate Split(p: Registers, paddr: nat, size: nat)
    requires Valid(p)
  {
    var d := Decider(p, 0, paddr, size);
    d < ENTRIES && !Covers(p, d, paddr, size)
  }

  /** With no entry touched only machine mode is allowed; otherwise the lowest-numbered touched entry
      decides, and must hold the whole access. */
  ghost predicate Reference(p: Registers, machine: bool, paddr: nat, size: nat, write: bool, exec: bool)
    requires Valid(p)
  {
    var d := Decider(p, 0, paddr, size);
    if d == ENTRIES then machine
    else Covers(p, d, paddr, size) && Grants(p, d, machine, write, exec)
  }

  /** All ones from bit 0 up to bit 60 or beyond, and nothing else: a power-of-two entry with this
      address covers every 64-bit address. */
  predicate WholeSpace(a: Word) {
    a == LIMIT || a == 0x3FFF_FFFF_FFFF_FFFF || a == 0x7FFF_FFFF_FFFF_FFFF || a == ALL_ONES
  }

  /** The address registers hold addresses below the limit, or in a power-of-two or unused entry the whole
      space. */
  ghost predicate AddressesFit(p: Registers)
    requires Valid(p)
  {
    forall i :: 0 <= i < ENTRIES ==>
      p.addr[i] < LIMIT || (WholeSpace(p.addr[i]) && Mode(p, i) != 1 && Mode(p, i) != 2)
  }

  /** Whole-space entries do not see the last byte of the address space: it must be another byte, or there
      must be no such entry. */
  ghost predicate LastByteSeen(p: Registers, paddr: Word)
    requires Valid(p)
  {
    paddr < ALL_ONES || forall i :: 0 <= i < ENTRIES ==> p.addr[i] < LIMIT
  }

  lemma WholeEncoded(a: Word) returns (k: nat)
    requires WholeSpace(a)
    ensures 61 <= k <= 64 && a == NapotEncode(0, k)
  {
    Sixty();
    Pow2Values();
    k := if a == LIMIT then 61 else if a == 0x3FFF_FFFF_FFFF_FFFF then 62 else if a == ALL_ONES then 64 else 63;
  }

  lemma WholeRange(a: Word)
    requires WholeSpace(a)
    ensures NapotRange(a) == (0, ALL_ONES) && forall b: Word :: InBlock(a, b)
  {
    hide NapotEncode, TrailingOnes, Pow2, BlockOf;
    var k := WholeEncoded(a);
    EncodeTrailingOnes(0, k);
    forall b: Word ensures InBlock(a, b) {
      BlockZero(b, k);
      assert a == NapotEncode(BlockOf(b, k), k);
    }
  }

  lemma BlockZero(b: Word, k: nat)
    requires k >= 61
    ensures BlockOf(b, k) == 0
  {
    Pow2Values();
    Pow2Mono(64, k + 3);
    DivModUnique(b, Pow2(k + 3), 0, b);
  }

  lemma BlockIsRange(a: Word, b: Word)
    requires a < LIMIT
    ensures InBlock(a, b) <==> NapotRange(a).0 <= b < NapotRange(a).1
    ensures NapotRange(a).1 <= TOP_LIMIT
  {
    hide TrailingOnes, NapotRange, NapotEncode, Pow2, InBlock, BlockNumber;
    EncodeUnique(a);
    var u, k := BlockNumber(a), TrailingOnes(a);
    NapotInverts(u, k);
    EncodeFits(u, k);
    BlockOfEncoding(a, b, u, k);
  }

  /** Only one block is encoded by a. */
  lemma BlockOfEncoding(a: nat, b: nat, u: nat, k: nat)
    requires a == NapotEncode(u, k)
    ensures InBlock(a, b) <==> u * Pow2(k + 3) <= b < (u + 1) * Pow2(k + 3)
  {
    InQuotient(b, Pow2(k + 3), u);
    hide TrailingOnes, NapotEncode, Pow2;
    if BlockOf(b, k) == u { assert a == NapotEncode(BlockOf(b, k), k); }
    if InBlock(a, b) {
      var k' :| a == NapotEncode(BlockOf(b, k'), k');
      EncodeTrailingOnes(BlockOf(b, k'), k');
      EncodeTrailingOnes(u, k);
      EncodeInjective(u, BlockOf(b, k), k);
    }
  }

  lemma InQuotient(b: nat, d: nat, u: nat)
    requires d > 0
    ensures b / d == u <==> u * d <= b < (u + 1) * d
  {
    var q, r := b / d, b % d;
    assert b == q * d + r;
    MulAdd(u, 1, d);
    if u * d <= b < (u + 1) * d { DivModUnique(b, d, u, b - u * d); }
  }

  lemma EncodeInjective(u: nat, v: nat, k: nat)
    requires NapotEncode(u, k) == NapotEncode(v, k)
    ensures u == v
  {
    var d := Pow2(k + 1);
    assert u * d == v * d;
    if u < v { MulMono(u + 1, v, d); MulAdd(u, 1, d); }
    if v < u { MulMono(v + 1, u, d); MulAdd(v, 1, d); }
  }

  /** An entry is hit exactly when its region holds the first byte of the access. */
  lemma HitIsFirstByte(p: Registers, i: nat, paddr: Word, size: nat)
    requires Valid(p) && AddressesFit(p) && LastByteSeen(p, paddr) && i < ENTRIES && 1 <= size <= 8
    ensures Matching(Cfg(p, i)) != 0 && Hit(Range(p, i), paddr, size) <==> InRegion(p, i, paddr)
  {
    hide Pow2, Cfg, CfgBit, Mode, Matching, TrailingOnes, NapotEncode, InBlock, NapotRange;
    ConfigBits(p, i, false, false, false);
    var m := Mode(p, i);
    if m == 1 {
      HitGranules(if i > 0 then p.addr[i - 1] else 0, p.addr[i], paddr, size);
    } else if m == 2 {
      HitGranules(p.addr[i], p.addr[i] + 1, paddr, size);
    } else if m == 3 {
      HitBlock(p.addr[i], paddr, size);
    }
  }

  lemma HitBlock(a: Word, paddr: Word, size: nat)
    requires a < LIMIT || (WholeSpace(a) && paddr < ALL_ONES)
    requires 1 <= size <= 8
    ensures Hit(NapotRange(a), paddr, size) <==> InBlock(a, paddr)
  {
    hide NapotRange, InBlock;
    if a < LIMIT {
      BlockIsRange(a, paddr);
      HitRange(NapotRange(a), paddr, size);
    } else {
      WholeRange(a);
    }
  }

  lemma HitRange(range: (Word, Word), paddr: Word, size: nat)
    requires range.1 <= TOP_LIMIT && 1 <= size <= 8
    ensures Hit(range, paddr, size) <==> range.0 <= paddr < range.1
  {}

  /** Bounds in granules; a lower bound at the whole-space values, from the entry before, excludes all. */
  lemma HitGranules(lo: Word, hi: Word, paddr: Word, size: nat)
    requires (lo < LIMIT || WholeSpace(lo)) && hi <= LIMIT && 1 <= size <= 8
    ensures Shl2(hi) == 4 * hi && (lo < LIMIT ==> Plus(Shl2(lo), 4) == Shl2(lo + 1) == 4 * lo + 4)
    ensures Hit((Shl2(lo), Shl2(hi)), paddr, size) <==> lo <= paddr / 4 < hi
  {
    HitRange((Shl2(lo), Shl2(hi)), paddr, size);
  }

  /** The lowest-numbered entry from i on whose region holds byte b; ENTRIES if none. */
  ghost function First(p: Registers, i: nat, b: nat): (f: nat)
    requires Valid(p) && i <= ENTRIES
    ensures i <= f <= ENTRIES
    decreases ENTRIES - i
  {
    if i == ENTRIES || InRegion(p, i, b) then i else First(p, i + 1, b)
  }

  /** What the entry that holds the first byte alone would say; machine mode only when there is none. */
  ghost predicate FirstByteAllows(p: Registers, i: nat, machine: bool, paddr: nat, write: bool, exec: bool)
    requires Valid(p) && i <= ENTRIES
  {
    var f := First(p, i, paddr);
    if f == ENTRIES then machine else Grants(p, f, machine, write, exec)
  }

  /** The check is decided by the first byte of the access. */
  lemma {:induction false} CheckIsFirstByte(p: Registers, i: nat, machine: bool, paddr: Word, size: nat,
                                            write: bool, exec: bool)
    requires Valid(p) && AddressesFit(p) && LastByteSeen(p, paddr) && i <= ENTRIES && 1 <= size <= 8
    ensures CheckFrom(p, i, machine, paddr, size, write, exec) <==> FirstByteAllows(p, i, machine, paddr, write, exec)
    decreases ENTRIES - i
  {
    hide Verdict, Grants, Mode, Matching, Cfg, Hit, Range, InRegion;
    if i < ENTRIES {
      HitIsFirstByte(p, i, paddr, size);
      ConfigBits(p, i, machine, write, exec);
      if !InRegion(p, i, paddr) { CheckIsFirstByte(p, i + 1, machine, paddr, size, write, exec); }
    }
  }

  /** Where the deciding entry holds the whole access it is the one that holds the first byte, and
      where no entry is touched none holds the first byte. */
  lemma {:induction false} DeciderHoldsFirst(p: Registers, i: nat, paddr: nat, size: nat)
    requires Valid(p) && i <= ENTRIES && size >= 1
    ensures var d := Decider(p, i, paddr, size);
      d == ENTRIES || Covers(p, d, paddr, size) ==> First(p, i, paddr) == d
    decreases ENTRIES - i
  {
    hide InRegion;
    if i < ENTRIES {
      if Touches(p, i, paddr, size) {
        if Covers(p, i, paddr, size) { assert InRegion(p, i, paddr); }
      } else {
        assert !InRegion(p, i, paddr);
        DeciderHoldsFirst(p, i + 1, paddr, size);
      }
    }
  }

  lemma {:induction false} NoneActive(p: Registers, i: nat, paddr: nat, size: nat)
    requires Valid(p) && !SomeActive(p) && i <= ENTRIES
    ensures Decider(p, i, paddr, size) == ENTRIES
    decreases ENTRIES - i
  {
    hide Mode;
    if i < ENTRIES {
      assert Mode(p, i) == 0;
      NoneActive(p, i + 1, paddr, size);
    }
  }

  /** The check is the byte-set reference if and only if: with no entry active, the access is machine
      mode's; with some active, no entry decides the access by holding a part of it, or the entry holding
      its first byte (machine mode, if there is none) denies it. The reference denies every split access,
      and every access below machine mode that no entry touches. */
  lemma CheckIsReference(p: Registers, machine: bool, paddr: Word, size: nat, write: bool, exec: bool)
    requires Valid(p) && AddressesFit(p) && LastByteSeen(p, paddr) && 1 <= size <= 8
    ensures Check(p, machine, paddr, size, write, exec) == Reference(p, machine, paddr, size, write, exec)
       <==> if SomeActive(p) then Split(p, paddr, size) ==> !FirstByteAllows(p, 0, machine, paddr, write, exec)
            else machine
  {
    hide Grants, CheckFrom, Decider, Covers, First, AnyActive, SomeActive;
    ActiveSame(p);
    CheckIsFirstByte(p, 0, machine, paddr, size, write, exec);
    DeciderHoldsFirst(p, 0, paddr, size);
    if !SomeActive(p) { NoneActive(p, 0, paddr, size); }
  }

  /** At reset every entry is off: a user access is allowed, though the reference denies it. */
  lemma AllOffAllowed()
    ensures var p := Registers(0, 0, seq(ENTRIES, _ => 0));
      Valid(p) && Check(p, false, 0x8000_0000, 4, false, false) && !Reference(p, false, 0x8000_0000, 4, false, false)
  {
    var p := Registers(0, 0, seq(ENTRIES, _ => 0));
    forall i: nat | i < ENTRIES ensures Mode(p, i) == 0 {
      ConfigBits(p, i, false, false, false);
      ZeroByte(if i < 8 then i else i - 8);
    }
    hide Mode, Decider, AnyActive;
    ActiveSame(p);
    NoneActive(p, 0, 0x8000_0000, 4);
  }

  lemma ZeroByte(k: nat)
    ensures ByteOf(0, k) == 0
  {}

  // ---------------------------------------------------------------- the last byte

  /** No entry is hit at the last byte of the address space. */
  lemma {:induction false} LastByteUnseen(p: Registers, i: nat, machine: bool, size: nat, write: bool, exec: bool)
    requires Valid(p) && AddressesFit(p) && i <= ENTRIES && 1 <= size <= 8
    ensures CheckFrom(p, i, machine, ALL_ONES, size, write, exec) == machine
    decreases ENTRIES - i
  {
    if i < ENTRIES {
      NotHitLast(p, i, size);
      hide Verdict, Matching, Cfg, Hit, Range, AddressesFit;
      LastByteUnseen(p, i + 1, machine, size, write, exec);
    }
  }

  lemma NotHitLast(p: Registers, i: nat, size: nat)
    requires Valid(p) && AddressesFit(p) && i < ENTRIES && 1 <= size <= 8
    ensures !Hit(Range(p, i), ALL_ONES, size)
  {
    hide Pow2, Cfg, CfgBit, Mode, Matching, TrailingOnes, NapotEncode, InBlock, NapotRange;
    ConfigBits(p, i, false, false, false);
    var m := Mode(p, i);
    if m == 1 {
      HitGranules(if i > 0 then p.addr[i - 1] else 0, p.addr[i], ALL_ONES, size);
    } else if m == 2 {
      HitGranules(p.addr[i], p.addr[i] + 1, ALL_ONES, size);
    } else if m == 3 {
      if p.addr[i] < LIMIT { BlockIsRange(p.addr[i], ALL_ONES); } else { WholeRange(p.addr[i]); }
    }
  }

  /** For the last byte the check is the reference if and only if: with no entry active, the access is
      machine mode's; with some active, an entry that decides says what machine mode alone would. */
  lemma LastByteIsReference(p: Registers, machine: bool, write: bool, exec: bool)
    requires Valid(p) && AddressesFit(p)
    ensures Check(p, machine, ALL_ONES, 1, write, exec) == Reference(p, machine, ALL_ONES, 1, write, exec)
       <==> if SomeActive(p) then
              var d := Decider(p, 0, ALL_ONES, 1); d < ENTRIES ==> Grants(p, d, machine, write, exec) == machine
            else machine
  {
    hide Grants, CheckFrom, AnyActive, SomeActive, InRegion, Decider;
    ActiveSame(p);
    LastByteUnseen(p, 0, machine, 1, write, exec);
    if SomeActive(p) { OneByteHeld(p, 0, ALL_ONES); } else { NoneActive(p, 0, ALL_ONES, 1); }
  }

  lemma {:induction false} OneByteHeld(p: Registers, i: nat, paddr: nat)
    requires Valid(p) && i <= ENTRIES
    ensures var d := Decider(p, i, paddr, 1); d < ENTRIES ==> Covers(p, d, paddr, 1)
    decreases ENTRIES - i
  {
    hide InRegion;
    if i < ENTRIES && !Touches(p, i, paddr, 1) { OneByteHeld(p, i + 1, paddr); }
  }

  /** A readable entry for the whole space denies the last byte, though the reference allows it. */
  lemma LastByteDenied(p: Registers)
    requires Valid(p) && AddressesFit(p)
    requires Mode(p, 0) == 3 && CfgBit(p, 0, 0) && p.addr[0] == ALL_ONES
    ensures !Check(p, false, ALL_ONES, 1, false, false) && Reference(p, false, ALL_ONES, 1, false, false)
  {
    hide CfgBit, Mode, InBlock, NapotRange, AnyActive, AddressesFit;
    ActiveSame(p);
    WholeRange(ALL_ONES);
    assert InRegion(p, 0, ALL_ONES) && Touches(p, 0, ALL_ONES, 1);
    LastByteUnseen(p, 0, false, 1, false, false);
  }

  /** Regions are made of whole four-byte granules. */
  lemma RegionOfGranules(p: Registers, i: nat, b: nat, b': nat)
    requires Valid(p) && i < ENTRIES && b / 4 == b' / 4 && InRegion(p, i, b)
    ensures InRegion(p, i, b')
  {
    hide Mode, NapotEncode, Pow2, BlockOf;
    if Mode(p, i) == 3 {
      var a := p.addr[i];
      var k: nat :| a == NapotEncode(BlockOf(b, k), k);
      SameBlock(b, b', k);
      assert a == NapotEncode(BlockOf(b', k), k);
    }
  }

  lemma SameBlock(b: nat, b': nat, k: nat)
    requires b / 4 == b' / 4
    ensures BlockOf(b, k) == BlockOf(b', k)
  {
    assert Pow2(k + 3) == 4 * Pow2(k + 1) by { assert Pow2(k + 3) == 2 * Pow2(k + 2); }
    DivFour(b, Pow2(k + 1));
    DivFour(b', Pow2(k + 1));
  }

  lemma DivFour(b: nat, d: nat)
    requires d > 0
    ensures (b / 4) / d == b / (4 * d)
  {
    DivTwice(b, d);
    DivTwice(b / 2, d);
    DivTwice(b, 2 * d);
    assert (b / 2) / 2 == b / 4;
    assert 2 * (2 * d) == 4 * d;
  }

  /** A naturally aligned access of one, two or four bytes is never split: the check is the reference
      if and only if some entry is active or the access is machine mode's. */
  lemma SmallAlignedAccess(p: Registers, machine: bool, paddr: Word, size: nat, write: bool, exec: bool)
    requires Valid(p) && AddressesFit(p) && LastByteSeen(p, paddr)
    requires (size == 1 || size == 2 || size == 4) && paddr % size == 0
    ensures !Split(p, paddr, size)
    ensures Check(p, machine, paddr, size, write, exec) == Reference(p, machine, paddr, size, write, exec)
       <==> SomeActive(p) || machine
  {
    hide Check, Reference, Decider, Covers, SomeActive, FirstByteAllows;
    NeverSplit(p, paddr, size, 0);
    CheckIsReference(p, machine, paddr, size, write, exec);
  }

  lemma SameGranule(paddr: nat, size: nat, b: nat)
    requires (size == 1 || size == 2 || size == 4) && paddr % size == 0 && paddr <= b < paddr + size
    ensures b / 4 == paddr / 4
  {
    if size == 2 { assert paddr % 2 == 0; }
    if size == 4 { assert paddr % 4 == 0; }
  }

  lemma {:induction false} NeverSplit(p: Registers, paddr: Word, size: nat, i: nat)
    requires Valid(p) && (size == 1 || size == 2 || size == 4) && paddr % size == 0 && i <= ENTRIES
    ensures var d := Decider(p, i, paddr, size); d < ENTRIES ==> Covers(p, d, paddr, size)
    decreases ENTRIES - i
  {
    hide InRegion;
    if i < ENTRIES {
      if Touches(p, i, paddr, size) {
        var b: nat :| paddr <= b < paddr + size && InRegion(p, i, b);
        forall b': nat | paddr <= b' < paddr + size ensures InRegion(p, i, b') {
          SameGranule(paddr, size, b);
          SameGranule(paddr, size, b');
          RegionOfGranules(p, i, b, b');
        }
      } else {
        NeverSplit(p, paddr, size, i + 1);
      }
    }
  }

  /** The split case exists: a doubleword read whose first half alone lies in a readable four-byte
      entry is allowed, though the reference denies it. */
  lemma SplitReadAllowed(p: Registers, n: nat)
    requires Valid(p) && Mode(p, 0) == 2 && CfgBit(p, 0, 0) && p.addr[0] == n
    requires n < 0x40_0000_0000_0000 && n % 2 == 0
    ensures Check(p, false, 4 * n, 8, false, false) && !Reference(p, false, 4 * n, 8, false, false)
  {
    hide CfgBit, Mode, Cfg, Matching, Verdict, NapotRange, InBlock, AnyActive;
    ActiveSame(p);
    ConfigBits(p, 0, false, false, false);
    HitGranules(n, n + 1, 4 * n, 8);
    assert InRegion(p, 0, 4 * n) && !InRegion(p, 0, 4 * n + 4);
    assert Touches(p, 0, 4 * n, 8) && Decider(p, 0, 4 * n, 8) == 0;
  }
}

/** Latency of the early-terminating divider (src/CPU_P64_6_Cycle.cpp): leading-zero counts of
    both operand magnitudes, their difference, and what it says about the quotient. */
module Divider {
  import opened Words

  /** Number of significant bits. */
  function BitLength(v: nat): nat { if v == 0 then 0 else 1 + BitLength(v / 2) }

  /** v has k significant bits iff it lies between 2^(k-1) and 2^k. */
  lemma {:induction false} BitLengthBounds(v: nat)
    ensures v < Pow2(BitLength(v))
    ensures v > 0 ==> BitLength(v) > 0 && Pow2(BitLength(v) - 1) <= v
  {
    if v > 0 { BitLengthBounds(v / 2); }
  }

  lemma {:induction false} BitLengthUnique(v: nat, k: nat)
    requires v < Pow2(k) && (k > 0 ==> Pow2(k - 1) <= v)
    ensures BitLength(v) == k
  {
    if k > 0 { BitLengthUnique(v / 2, k - 1); }
  }

  lemma {:induction false} BitLengthMono(v: nat, k: nat)
    requires v < Pow2(k)
    ensures BitLength(v) <= k
  {
    if v > 0 { BitLengthMono(v / 2, k - 1); }
  }

  /** The binary search shifts val left while its top half, quarter, ... is zero: a mask of the
      top bits is clear iff the value is below the mask's lowest bit. */
  method Clz64(v: Word) returns (n: nat)
    ensures n == 64 - BitLength(v)
  {
    hide Pow2, BitLength, Shifted;
    if v == 0 {
      ZeroLength();
      return 64;
    }
    n := 0;
    var val := v;
    Pow2Values();
    ShiftZero(v);
    if val < 0x1_0000_0000 { ShiftMore(v, n, val, 32); n, val := n + 32, val * 0x1_0000_0000; }
    if val < 0x1_0000_0000_0000 { ShiftMore(v, n, val, 16); n, val := n + 16, val * 0x1_0000; }
    if val < 0x100_0000_0000_0000 { ShiftMore(v, n, val, 8); n, val := n + 8, val * 0x100; }
    if val < 0x1000_0000_0000_0000 { ShiftMore(v, n, val, 4); n, val := n + 4, val * 0x10; }
    if val < 0x4000_0000_0000_0000 { ShiftMore(v, n, val, 2); n, val := n + 2, val * 4; }
    if val < 0x8000_0000_0000_0000 { ShiftMore(v, n, val, 1); n, val := n + 1, val * 2; }
    Normalised(v, n, val);
  }

  lemma ZeroLength()
    ensures BitLength(0) == 0
  {}

  /** val is v shifted left by n. */
  ghost predicate Shifted(v: nat, n: nat, val: nat) { val == v * Pow2(n) }

  lemma ShiftZero(v: nat)
    ensures Shifted(v, 0, v)
  {}

  lemma ShiftMore(v: nat, n: nat, val: nat, k: nat)
    requires Shifted(v, n, val)
    ensures Shifted(v, n + k, val * Pow2(k))
  {
    hide Pow2;
    Pow2Sum(n, k);
    MulAssoc(v, Pow2(n), Pow2(k));
  }

  /** Shifted left by n so that bit 63 is the top one, v has 64-n significant bits. */
  lemma Normalised(v: Word, n: nat, val: Word)
    requires Shifted(v, n, val) && 0x8000_0000_0000_0000 <= val && n <= 63
    ensures BitLength(v) == 64 - n
  {
    Pow2Values();
    Pow2Sum(64 - n, n);
    Pow2Sum(63 - n, n);
    if v >= Pow2(64 - n) { MulMono(Pow2(64 - n), v, Pow2(n)); }
    if v < Pow2(63 - n) { Below(v, Pow2(63 - n), Pow2(n)); }
    BitLengthUnique(v, 64 - n);
  }

  lemma Below(a: nat, b: nat, c: nat)
    requires a < b && c > 0
    ensures a * c < b * c
  {}

  // ---------------------------------------------------------------- latency

  const HALF := 0x8000_0000_0000_0000

  /** The dividend's magnitude, ~A + 1 when negative. */
  function MagA(a: Word, signed: bool): Word { if signed && a >= HALF then Wrap(TWO64 - a) else a }

  /** The divisor as the counter sees it: ~B when negative, one below the magnitude. */
  function SeenB(b: Word, signed: bool): Word { if signed && b >= HALF then TWO64 - 1 - b else b }

  /** The divisor's magnitude. */
  function MagB(b: Word, signed: bool): Word { if signed && b >= HALF then Wrap(TWO64 - b) else b }

  /** One cycle when the quotient is trivially known, else six more than the difference in length. */
  function Latency(a: Word, b: Word, signed: bool): int {
    var x, y := BitLength(MagA(a, signed)), BitLength(SeenB(b, signed));
    if SeenB(b, signed) == 0 || x < y then 1 else x - y + 6
  }

  method DivCycles(a: Word, b: Word, signed: bool) returns (cycles: int)
    ensures cycles == Latency(a, b, signed)
  {
    var aNegative, bNegative := signed && a >= HALF, signed && b >= HALF;
    var lzcA := if aNegative then Wrap(TWO64 - 1 - a + 1) else a;
    var lzcB := if bNegative then TWO64 - 1 - b else b;
    var zerosA := Clz64(lzcA);
    var zerosB := Clz64(lzcB);
    var shiftA := if lzcA == 0 then 64 else zerosA;
    var divShift: int := zerosB as int - shiftA as int;
    var bZero, bMinusOne := lzcB == 0 && !bNegative, lzcB == 0 && bNegative;
    cycles := if divShift < 0 || bZero || bMinusOne then 1 else divShift + 6;
  }

  /** x as a signed 64-bit number, or as it is. */
  function Number(x: Word, signed: bool): int {
    if signed && x >= 0x8000_0000_0000_0000 then x - 0x1_0000_0000_0000_0000 else x
  }

  function Abs(x: int): nat { if x < 0 then -x else x }

  /** The magnitudes of the operands, and the divisor one below its magnitude when negative. */
  lemma Magnitudes(a: Word, b: Word, signed: bool)
    ensures MagA(a, signed) == Abs(Number(a, signed)) && MagB(b, signed) == Abs(Number(b, signed))
    ensures SeenB(b, signed) == Abs(Number(b, signed)) - if Number(b, signed) < 0 then 1 else 0
  {}

  /** The latency from the lengths: the dividend's magnitude has m bits, and the divisor's, less one when
      negative, has n. */
  lemma LatencyExact(a: Word, b: Word, signed: bool, m: nat, n: nat)
    requires var x := Abs(Number(a, signed)); x < Pow2(m) && (m > 0 ==> Pow2(m - 1) <= x)
    requires var y := Abs(Number(b, signed)) - if Number(b, signed) < 0 then 1 else 0;
      y < Pow2(n) && (n > 0 ==> Pow2(n - 1) <= y)
    ensures Latency(a, b, signed) == if n == 0 || m < n then 1 else m - n + 6
  {
    hide Pow2, MagA, SeenB, BitLength;
    Magnitudes(a, b, signed);
    BitLengthUnique(MagA(a, signed), m);
    BitLengthUnique(SeenB(b, signed), n);
    if n == 0 { assert Pow2(0) == 1 by { PowZero(); } } else { PowPositive(n - 1); }
  }

  lemma PowZero()
    ensures Pow2(0) == 1
  {}

  lemma PowPositive(n: nat)
    ensures Pow2(n) > 0
  {}

  /** The latency is 1, or between 6 and 69. */
  lemma LatencyRange(a: Word, b: Word, signed: bool)
    ensures Latency(a, b, signed) == 1 || 6 <= Latency(a, b, signed) <= 69
  {
    Pow2Values();
    BitLengthMono(MagA(a, signed), 64);
    BitLengthBounds(SeenB(b, signed));
  }

  /** On the slow path the latency bounds the quotient from both sides: with s = latency - 6,
      2^s times the divisor seen is below twice the dividend, and the dividend is below 2^(s+1)
      times the divisor seen. */
  lemma LatencyBoundsQuotient(a: Word, b: Word, signed: bool)
    requires Latency(a, b, signed) != 1
    ensures var s := Latency(a, b, signed) - 6; var x, y := MagA(a, signed), SeenB(b, signed);
      s >= 0 && y > 0 && Pow2(s) * y < 2 * x && x < Pow2(s + 1) * y
  {
    LengthsBound(MagA(a, signed), SeenB(b, signed));
  }

  lemma LengthsBound(x: nat, y: nat)
    requires y > 0 && BitLength(x) >= BitLength(y)
    ensures var s := BitLength(x) - BitLength(y); Pow2(s) * y < 2 * x && x < Pow2(s + 1) * y
  {
    BitLengthBounds(x);
    BitLengthBounds(y);
    var m, n := BitLength(x), BitLength(y);
    ScaledBelow(x, y, m, n);
    ScaledAbove(x, y, m, n);
  }

  lemma ScaledBelow(x: nat, y: nat, m: nat, n: nat)
    requires 0 < n <= m && y < Pow2(n) && Pow2(m - 1) <= x
    ensures Pow2(m - n) * y < 2 * x
  {
    assert Pow2(m) == 2 * Pow2(m - 1);
    hide Pow2;
    Pow2Sum(m - n, n);
    Below(y, Pow2(n), Pow2(m - n));
  }

  lemma ScaledAbove(x: nat, y: nat, m: nat, n: nat)
    requires 0 < n <= m && Pow2(n - 1) <= y && x < Pow2(m)
    ensures x < Pow2(m - n + 1) * y
  {
    hide Pow2;
    Pow2Sum(m - n + 1, n - 1);
    MulMono(Pow2(n - 1), y, Pow2(m - n + 1));
  }

  /** The quotient of the magnitudes fits in s+1 bits; with a non-negative divisor it needs at
      least s of them, so the divider never spins for more than one idle bit. */
  lemma QuotientBits(a: Word, b: Word, signed: bool)
    requires Latency(a, b, signed) != 1
    ensures var s := Latency(a, b, signed) - 6;
      s >= 0 && MagB(b, signed) > 0 && Quotient(MagA(a, signed), MagB(b, signed)) < Pow2(s + 1) &&
      (!(signed && b >= HALF) && s >= 1 ==> Quotient(MagA(a, signed), MagB(b, signed)) >= Pow2(s - 1))
  {
    hide Latency, BitLength, Pow2, MagA, Quotient;
    LatencyBoundsQuotient(a, b, signed);
    var s := Latency(a, b, signed) - 6;
    UpperQuotient(MagA(a, signed), SeenB(b, signed), MagB(b, signed), Pow2(s + 1));
    if !(signed && b >= HALF) && s >= 1 { LowerQuotient(MagA(a, signed), SeenB(b, signed), s); }
  }

  lemma UpperQuotient(x: nat, y: nat, d: nat, k: nat)
    requires 0 < y <= d && x < k * y
    ensures Quotient(x, d) < k
  {
    hide Quotient;
    MulMono(y, d, k);
    QuotientBounds(x, d, k);
  }

  lemma LowerQuotient(x: nat, y: nat, s: nat)
    requires y > 0 && s >= 1 && Pow2(s) * y < 2 * x
    ensures Quotient(x, y) >= Pow2(s - 1)
  {
    assert Pow2(s) == 2 * Pow2(s - 1);
    hide Pow2, Quotient;
    MulAssoc(2, Pow2(s - 1), y);
    QuotientBounds(x, y, Pow2(s - 1));
  }

  /** The one-cycle path with a usable divisor is taken only when the quotient is 0. */
  lemma FastMeansZero(a: Word, b: Word, signed: bool)
    requires Latency(a, b, signed) == 1 && SeenB(b, signed) != 0
    ensures MagA(a, signed) < MagB(b, signed) && Quotient(MagA(a, signed), MagB(b, signed)) == 0
  {
    hide BitLength, Quotient;
    ShorterIsLess(MagA(a, signed), SeenB(b, signed));
    QuotientBounds(MagA(a, signed), MagB(b, signed), 1);
  }

  lemma ShorterIsLess(x: nat, y: nat)
    requires BitLength(x) < BitLength(y)
    ensures x < y
  {
    BitLengthBounds(x);
    BitLengthBounds(y);
    var m, n: nat := BitLength(x), BitLength(y) - 1;
    Pow2Mono(m, n);
  }

  // ---------------------------------------------------------------- 32-bit operations

  /** The 32-bit operand sign- or zero-extended to 64 bits. */
  function Extend32(v: Word, signed: bool): Word {
    var low := v % 0x1_0000_0000;
    if signed && low >= 0x8000_0000 then low + (TWO64 - 0x1_0000_0000) else low
  }

  /** The operand of a W-form division is its low 32 bits, as a signed or unsigned number. */
  lemma WordOperand(v: Word, signed: bool)
    ensures var low := v % 0x1_0000_0000;
      Number(Extend32(v, signed), signed) == if signed && low >= 0x8000_0000 then low - 0x1_0000_0000 else low
  {}

  /** The W-form divisions take at most 37 cycles. */
  lemma WordLatency(a: Word, b: Word, signed: bool)
    ensures var l := Latency(Extend32(a, signed), Extend32(b, signed), signed); l == 1 || 6 <= l <= 37
  {
    Pow2Values();
    var x, y := MagA(Extend32(a, signed), signed), SeenB(Extend32(b, signed), signed);
    assert x < Pow2(32);
    BitLengthMono(x, 32);
    BitLengthBounds(y);
  }
}

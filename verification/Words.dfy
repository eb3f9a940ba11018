/** Machine words, bytes and byte-addressed memory.
    A word is an unsigned 64-bit number; wrap-around is written out where the simulator's
    uint64_t arithmetic performs it. Shifts by whole bytes are division by a power of 256. */
module Words {

  const TWO64: int := 0x1_0000_0000_0000_0000

  type Word = x: int | 0 <= x < 0x1_0000_0000_0000_0000
  type Byte = x: int | 0 <= x < 256

  /** Memory is a total map from physical address to byte. */
  type Memory = int -> Byte

  function Wrap(x: int): Word { x % TWO64 }

  function Max(x: int, y: int): int { if x < y then y else x }

  function Min(x: int, y: int): int { if y < x then y else x }

  function Pow256(n: nat): (p: int)
    ensures p >= 1
  {
    if n == 0 then 1 else 256 * Pow256(n - 1)
  }

  /** Byte k of a word, byte 0 being the least significant. */
  function ByteOf(w: nat, k: nat): Byte { (w / Pow256(k)) % 256 }

  /** The n bytes at address a, read little-endian. */
  function ReadLE(m: Memory, a: int, n: nat): nat
    decreases n
  {
    if n == 0 then 0 else m(a) + 256 * ReadLE(m, a + 1, n - 1)
  }

  lemma {:induction false} ReadLEBound(m: Memory, a: int, n: nat)
    ensures 0 <= ReadLE(m, a, n) < Pow256(n)
    decreases n
  {
    if n > 0 { ReadLEBound(m, a + 1, n - 1); }
  }

  /** Euclidean quotient and remainder are unique. */
  lemma DivModUnique(x: int, d: int, q: int, r: int)
    requires d > 0 && x == q * d + r && 0 <= r < d
    ensures x / d == q && x % d == r
  {
    var q', r' := x / d, x % d;
    assert x == q' * d + r';
    assert (q - q') * d == r' - r;
    if q > q' {
      MulMono(1, q - q', d);
    } else if q < q' {
      MulMono(1, q' - q, d);
    }
  }

  function Quotient(x: nat, d: nat): nat
    requires d > 0
  {
    x / d
  }

  /** x / d is below k, or at least k, as x is below or at least k times d. */
  lemma QuotientBounds(x: nat, d: nat, k: nat)
    requires d > 0
    ensures x < k * d <==> Quotient(x, d) < k
  {
    var q, r := x / d, x % d;
    assert x == q * d + r;
    if q < k {
      MulMono(q + 1, k, d);
      MulAdd(q, 1, d);
    } else {
      MulMono(k, q, d);
    }
  }

  lemma MulMono(a: int, b: int, d: int)
    requires a <= b && d >= 0
    ensures a * d <= b * d
  {}

  /** Dividing by p and then by 256 is dividing by 256*p. */
  lemma DivDiv(x: nat, p: int)
    requires p > 0
    ensures (x / p) / 256 == x / (256 * p)
  {
    var q, r := x / p, x % p;
    var q2, r2 := q / 256, q % 256;
    assert x == q * p + r;
    assert q == q2 * 256 + r2;
    assert q * p == (q2 * 256) * p + r2 * p by { MulAdd(q2 * 256, r2, p); }
    assert (q2 * 256) * p == q2 * (256 * p);
    assert r2 * p + r < 256 * p by { MulMono(r2, 255, p); }
    assert r2 * p >= 0 by { MulMono(0, r2, p); }
    DivModUnique(x, 256 * p, q2, r2 * p + r);
  }

  lemma MulAdd(a: int, b: int, c: int)
    ensures (a + b) * c == a * c + b * c
  {}

  /** The low byte and the rest recompose a remainder modulo 256*p. */
  lemma ModSplit(x: nat, p: int)
    requires p > 0
    ensures x % 256 + 256 * ((x / 256) % p) == x % (256 * p)
  {
    var q, r := x / 256, x % 256;
    var q2, r2 := q / p, q % p;
    assert q == q2 * p + r2;
    assert x == 256 * (q2 * p + r2) + r;
    assert 256 * (q2 * p) == q2 * (256 * p);
    DivModUnique(x, 256 * p, q2, 256 * r2 + r);
  }

  lemma SliceStep(m: Memory, a: int, n: nat, x: nat)
    requires n > 0 && m(a) == x % 256
    requires ReadLE(m, a + 1, n - 1) == (x / 256) % Pow256(n - 1)
    ensures ReadLE(m, a, n) == x % Pow256(n)
  {
    ModSplit(x, Pow256(n - 1));
  }

  /** Memory holding the bytes off..off+n of w at a reads back as that slice of w. */
  lemma {:induction false} ReadSlice(m: Memory, a: int, n: nat, w: nat, off: nat)
    requires forall x :: a <= x < a + n ==> m(x) == ByteOf(w, off + x - a)
    ensures ReadLE(m, a, n) == (w / Pow256(off)) % Pow256(n)
    decreases n
  {
    if n > 0 {
      var x, p := w / Pow256(off), Pow256(n - 1);
      assert m(a) == x % 256;
      assert ReadLE(m, a + 1, n - 1) == (x / 256) % p by {
        ReadSlice(m, a + 1, n - 1, w, off + 1);
        DivDiv(w, Pow256(off));
      }
      SliceStep(m, a, n, x);
    }
  }

  lemma Assoc<T>(a: seq<T>, b: seq<T>, c: seq<T>)
    ensures (a + b) + c == a + (b + c)
  {}

  /** Reads see only the bytes they cover. */
  lemma {:induction false} ReadSame(m1: Memory, m2: Memory, a: int, n: nat)
    requires forall x :: a <= x < a + n ==> m1(x) == m2(x)
    ensures ReadLE(m1, a, n) == ReadLE(m2, a, n)
    decreases n
  {
    if n > 0 { ReadSame(m1, m2, a + 1, n - 1); }
  }

  // ---------------------------------------------------------------- powers of two

  function Pow2(k: nat): (p: nat)
    ensures p > 0
  {
    if k == 0 then 1 else 2 * Pow2(k - 1)
  }

  lemma MulAssoc(a: nat, b: nat, c: nat)
    ensures (a * b) * c == a * (b * c)
  {}

  lemma {:induction false} Pow2Sum(a: nat, b: nat)
    ensures Pow2(a + b) == Pow2(a) * Pow2(b)
  {
    if a > 0 {
      Pow2Sum(a - 1, b);
      MulAssoc(2, Pow2(a - 1), Pow2(b));
    }
  }

  lemma {:induction false} Pow2Mono(a: nat, b: nat)
    requires a <= b
    ensures Pow2(a) <= Pow2(b)
    decreases b
  {
    if a < b { Pow2Mono(a, b - 1); }
  }

  lemma Pow2Values()
    ensures Pow2(1) == 2 && Pow2(2) == 4 && Pow2(4) == 0x10 && Pow2(8) == 0x100 && Pow2(16) == 0x1_0000
    ensures Pow2(31) == 0x8000_0000 && Pow2(32) == 0x1_0000_0000
    ensures Pow2(63) == 0x8000_0000_0000_0000 && Pow2(64) == TWO64
  {
    assert Pow2(2) == 2 * Pow2(1);
    Pow2Sum(2, 2);
    Pow2Sum(4, 4);
    Pow2Sum(8, 8);
    Pow2Sum(16, 16);
    Pow2Sum(32, 32);
    assert Pow2(32) == 2 * Pow2(31) && Pow2(64) == 2 * Pow2(63);
  }
}

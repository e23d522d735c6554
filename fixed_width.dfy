/**
 * The C++ fixed-width integer semantics the kernel relies on, stated over
 * unbounded integers: the widths as subset types, the conversions
 * (static_cast) as reductions modulo 2^w, `<<` as multiplication, `>>` as
 * floor division, `|` as a bitwise OR on naturals and `x & (1 << i)` as a
 * single-bit test, together with the arithmetic facts the proofs use.
 */
module FixedWidth {

  const TWO_8: int := 0x100
  const TWO_32: int := 0x1_0000_0000
  const TWO_63: int := 0x8000_0000_0000_0000
  const TWO_64: int := 0x1_0000_0000_0000_0000
  const TWO_127: int := 0x8000_0000_0000_0000_0000_0000_0000_0000
  const TWO_128: int := 0x1_0000_0000_0000_0000_0000_0000_0000_0000

  /** uint8_t, uint32_t, uint64_t, unsigned __int128 */
  type u8 = x: int | 0 <= x < TWO_8
  type u32 = x: int | 0 <= x < TWO_32
  type u64 = x: int | 0 <= x < TWO_64
  type u128 = x: int | 0 <= x < TWO_128
  /** int64_t, __int128 */
  type i64 = x: int | -TWO_63 <= x < TWO_63
  type i128 = x: int | -TWO_127 <= x < TWO_127

  predicate InI64(x: int) { -TWO_63 <= x < TWO_63 }
  predicate InI128(x: int) { -TWO_127 <= x < TWO_127 }

  function Abs(x: int): nat { if x < 0 then -x else x }

  // ---------------------------------------------------------------------------
  // Conversions: every static_cast to an unsigned type keeps the value modulo
  // 2^w; a cast to a signed type reads those w bits as two's complement.
  // ---------------------------------------------------------------------------

  function ToU8(x: int): u8 { x % TWO_8 }
  function ToU32(x: int): u32 { x % TWO_32 }
  function ToU64(x: int): u64 { x % TWO_64 }
  function ToU128(x: int): u128 { x % TWO_128 }

  function ToI64(x: int): (r: i64)
    ensures (r - x) % TWO_64 == 0
    ensures InI64(x) ==> r == x
  {
    var u := x % TWO_64;
    if u < TWO_63 then u else u - TWO_64
  }

  function ToI128(x: int): (r: i128)
    ensures (r - x) % TWO_128 == 0
    ensures InI128(x) ==> r == x
  {
    var u := x % TWO_128;
    if u < TWO_127 then u else u - TWO_128
  }

  // ---------------------------------------------------------------------------
  // Powers of two, bit tests and bitwise OR
  // ---------------------------------------------------------------------------

  /** 2^n; it is positive, which every division and remainder by a power of two needs. */
  function Pow2(n: nat): (r: nat)
    ensures r >= 1
  {
    if n == 0 then 1 else 2 * Pow2(n - 1)
  }

  /** `x & (1 << i)` is non-zero */
  predicate BitSet(x: nat, i: nat) {
    (x / Pow2(i)) % 2 == 1
  }

  /** Bitwise OR of two non-negative integers, bit by bit from the least significant. */
  function BitOr(x: nat, y: nat): nat
    decreases x + y
  {
    if x == 0 then y
    else if y == 0 then x
    else 2 * BitOr(x / 2, y / 2) + (if x % 2 == 1 || y % 2 == 1 then 1 else 0)
  }

  lemma Pow2Values()
    ensures Pow2(1) == 2 && Pow2(32) == TWO_32 && Pow2(64) == TWO_64
    ensures Pow2(127) == TWO_127 && Pow2(128) == TWO_128
  {
    assert Pow2(4) == 16;
    Pow2Add(4, 4);
    assert Pow2(8) == 0x100;
    Pow2Add(8, 8);
    assert Pow2(16) == 0x1_0000;
    Pow2Add(16, 16);
    assert Pow2(32) == 0x1_0000_0000;
    Pow2Add(32, 32);
    assert Pow2(64) == TWO_64;
    Pow2Add(64, 64);
    assert Pow2(128) == TWO_128;
    assert Pow2(128) == 2 * Pow2(127);
  }

  lemma {:induction false} Pow2Add(a: nat, b: nat)
    ensures Pow2(a + b) == Pow2(a) * Pow2(b)
    decreases a
  {
    if a > 0 {
      Pow2Add(a - 1, b);
      assert Pow2(a + b) == 2 * Pow2(a - 1 + b);
    }
  }

  lemma {:induction false} Pow2Monotone(a: nat, b: nat)
    requires a <= b
    ensures Pow2(a) <= Pow2(b)
    decreases b
  {
    if a < b {
      Pow2Monotone(a, b - 1);
    }
  }

  /** OR-ing a value below 2^n into a multiple of 2^n is addition: the bits do not overlap. */
  lemma {:induction false} OrDisjoint(x: nat, y: nat, n: nat)
    requires y < Pow2(n)
    ensures BitOr(x * Pow2(n), y) == x * Pow2(n) + y
    decreases n
  {
    if n == 0 {
      assert y == 0;
    } else if x == 0 || y == 0 {
    } else {
      var h := x * Pow2(n - 1);
      assert x * Pow2(n) == 2 * h;
      assert (2 * h) / 2 == h && (2 * h) % 2 == 0;
      assert y / 2 < Pow2(n - 1);
      OrDisjoint(x, y / 2, n - 1);
      assert BitOr(2 * h, y) == 2 * BitOr(h, y / 2) + y % 2;
    }
  }

  // ---------------------------------------------------------------------------
  // Division facts
  // ---------------------------------------------------------------------------

  /** Euclidean division is determined by the identity and the bound on the remainder. */
  lemma DivModUnique(x: int, d: int, q: int, r: int)
    requires d > 0 && 0 <= r < d && x == q * d + r
    ensures x / d == q && x % d == r
  {
    var q0, r0 := x / d, x % d;
    assert x == q0 * d + r0;
    assert (q0 - q) * d == r - r0 by {
      assert (q0 - q) * d == q0 * d - q * d;
    }
    if q0 > q {
      MulAtLeast(q0 - q, d);
    } else if q0 < q {
      MulAtLeast(q - q0, d);
    }
  }

  lemma MulAtLeast(m: int, d: int)
    requires m >= 1 && d > 0
    ensures m * d >= d
  {
    assert m * d == (m - 1) * d + d;
  }

  /** The quotient of a natural by a positive divisor is a natural no larger than it. */
  lemma DivBounds(x: nat, d: int)
    requires d > 0
    ensures 0 <= x / d <= x
  {
    var q := x / d;
    DivModIdentity(x, d);
    MulLeIf(q, -1, d);
    assert q >= 0;
    MulLe(1, d, q);
  }

  /** Adding a multiple of the divisor moves the quotient and keeps the remainder. */
  lemma DivModAddMultiple(x: int, k: int, d: int)
    requires d > 0
    ensures (k * d + x) / d == k + x / d && (k * d + x) % d == x % d
  {
    DivModUnique(k * d + x, d, k + x / d, x % d);
  }

  /** Euclid's identity for a positive divisor. */
  lemma DivModIdentity(x: int, d: int)
    requires d > 0
    ensures x == (x / d) * d + x % d && 0 <= x % d < d
  {
  }

  /** Splitting y into its halves: y * P + r regrouped around 2 * P. */
  lemma HalveAlgebra(x: int, y: int, r: int, q: int, b: int, p: int)
    requires p > 0 && x == y * p + r && y == 2 * q + b && 0 <= b <= 1 && 0 <= r < p
    ensures x == q * (2 * p) + (b * p + r) && 0 <= b * p + r < 2 * p
  {
    assert y * p == q * (2 * p) + b * p;
    if b == 0 {
      assert b * p == 0;
    } else {
      assert b * p == p;
    }
  }

  /** Shifting right by i+1 is shifting right by i and then by one. */
  lemma {:induction false} DivPow2Step(x: nat, i: nat)
    ensures x / Pow2(i) == 2 * (x / Pow2(i + 1)) + (x / Pow2(i)) % 2
  {
    var p := Pow2(i);
    assert Pow2(i + 1) == 2 * p;
    var y := x / p;
    DivModIdentity(x, p);
    DivModIdentity(y, 2);
    HalveAlgebra(x, y, x % p, y / 2, y % 2, p);
    DivModUnique(x, 2 * p, y / 2, (y % 2) * p + x % p);
  }

  /** The low i+1 bits of x are its bit i above its low i bits. */
  lemma {:induction false} ModPow2Step(x: nat, i: nat)
    ensures x % Pow2(i + 1) == (if BitSet(x, i) then Pow2(i) else 0) + x % Pow2(i)
  {
    var p := Pow2(i);
    assert Pow2(i + 1) == 2 * p;
    var y := x / p;
    DivModIdentity(x, p);
    DivModIdentity(y, 2);
    HalveAlgebra(x, y, x % p, y / 2, y % 2, p);
    DivModUnique(x, 2 * p, y / 2, (y % 2) * p + x % p);
    if BitSet(x, i) {
      assert (y % 2) * p == p;
    } else {
      assert (y % 2) * p == 0;
    }
  }

  /** Setting bit k of a value whose low k+1 bits are clear adds 2^k and stays below 2^128. */
  lemma SetBit(q: nat, k: nat)
    requires k < 128 && q < TWO_128 && q % Pow2(k + 1) == 0
    ensures BitOr(q, Pow2(k)) == q + Pow2(k)
    ensures q + Pow2(k) < TWO_128
    ensures (q + Pow2(k)) % Pow2(k) == 0
  {
    var t := Pow2(k);
    var p := Pow2(k + 1);
    assert p == 2 * t;
    var m := q / p;
    DivModIdentity(q, p);
    OrDisjoint(m, t, k + 1);
    var top := Pow2(127 - k);
    assert TWO_128 == p * top by {
      Pow2Add(k + 1, 127 - k);
      Pow2Values();
    }
    OddMultipleBelow(m, t, top);
  }

  /** An odd multiple of t placed above an even multiple of t below 2t * top is still
      below 2t * top. */
  lemma OddMultipleBelow(m: nat, t: int, top: int)
    requires t > 0 && m * (2 * t) < (2 * t) * top
    ensures m * (2 * t) + t < (2 * t) * top
    ensures (m * (2 * t) + t) % t == 0
  {
    MulLeIf(top, m, 2 * t);
    MulLe(m + 1, top, 2 * t);
    MulSucc(m, 2 * t);
    MulDouble(m, t);
    DivModAddMultiple(0, 2 * m + 1, t);
  }

  lemma MulDouble(m: int, t: int)
    ensures m * (2 * t) == (2 * m) * t
    ensures (2 * m) * t + t == (2 * m + 1) * t
  {
  }

  lemma MulSucc(m: int, p: int)
    ensures (m + 1) * p == m * p + p
  {
  }

  lemma MulLe(a: int, b: int, c: nat)
    requires a <= b
    ensures a * c <= b * c
  {
    assert b * c == a * c + (b - a) * c;
  }

  /** MulLe stated as an implication, for proofs by contradiction that need no case split. */
  lemma MulLeIf(a: int, b: int, c: nat)
    ensures a <= b ==> a * c <= b * c
  {
    if a <= b {
      MulLe(a, b, c);
    }
  }

  /** Two factors below n multiply to less than n * n. */
  lemma MulStrict(x: int, y: int, n: int)
    requires 0 <= x < n && 0 <= y < n
    ensures 0 <= x * y < n * n
  {
    MulLe(x, n - 1, y);
    MulLe(y, n - 1, n - 1);
    assert (n - 1) * y == y * (n - 1);
    assert (n - 1) * (n - 1) < n * n;
  }

  /** Setting the lowest bit of an even value adds one. */
  lemma OrOne(x: nat)
    requires x % 2 == 0
    ensures BitOr(x, 1) == x + 1
  {
    assert x == (x / 2) * Pow2(1);
    OrDisjoint(x / 2, 1, 1);
  }

  /** Zero is a multiple of every power of two. */
  lemma ZeroMultiple(k: nat)
    ensures 0 % Pow2(k) == 0
  {
    DivModUnique(0, Pow2(k), 0, 0);
  }

  /** Clearing multiples: a value that is a multiple of 2^(i+1) is a multiple of 2^i. */
  lemma MultipleOfPow2Weaken(q: nat, i: nat)
    requires q % Pow2(i + 1) == 0
    ensures q % Pow2(i) == 0
  {
    var m := q / Pow2(i + 1);
    assert q == m * Pow2(i + 1);
    assert q == (2 * m) * Pow2(i);
    DivModAddMultiple(0, 2 * m, Pow2(i));
  }
}

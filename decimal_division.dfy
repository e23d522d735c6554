/**
 * Spark's decimal division with ROUND_HALF_UP (decimal_division.hpp): a and b are
 * the scaled integers of two DECIMAL values, and the result is a * 10^k / b rounded
 * half away from zero. The magnitudes are divided in unsigned 128-bit arithmetic
 * when |a| * 10^k fits, through the 256-bit product and the 256 / 128 division
 * otherwise, and the sign is put back after rounding.
 */
module DecimalDivision {
  import opened FixedWidth
  import opened WideInteger

  // ---------------------------------------------------------------------------
  // Specification
  // ---------------------------------------------------------------------------

  /** n / d rounded half up: the truncated quotient, plus one when the remainder is
      at least half the divisor. */
  function HalfUpMagnitude(n: nat, d: nat): nat
    requires d > 0
  {
    n / d + (if 2 * (n % d) >= d then 1 else 0)
  }

  /** a * 10^k / b over unbounded integers, rounded half away from zero: the magnitude
      is rounded first and then gets the sign of the quotient. */
  function SparkDivide(a: int, b: int, k: nat): int
    requires b != 0
  {
    var m: int := HalfUpMagnitude(Abs(a) * Pow10(k), Abs(b));
    if (a < 0) != (b < 0) then -m else m
  }

  /** Rounding half up is floor(n / d + 1/2). */
  lemma HalfUpIsFloorOfHalfAdded(n: nat, d: nat)
    requires d > 0
    ensures HalfUpMagnitude(n, d) == (2 * n + d) / (2 * d)
  {
    var q, r := n / d, n % d;
    DivModIdentity(n, d);
    if 2 * r >= d {
      assert 2 * n + d == (q + 1) * (2 * d) + (2 * r - d);
      DivModUnique(2 * n + d, 2 * d, q + 1, 2 * r - d);
    } else {
      assert 2 * n + d == q * (2 * d) + (2 * r + d);
      DivModUnique(2 * n + d, 2 * d, q, 2 * r + d);
    }
  }

  /** The rounded quotient m is within half a divisor of n: m*d - d/2 <= n < m*d + d/2. */
  lemma HalfUpWithinHalf(n: nat, d: nat)
    requires d > 0
    ensures var m := HalfUpMagnitude(n, d);
      2 * (m * d) - d <= 2 * n < 2 * (m * d) + d
  {
    var q, r := n / d, n % d;
    DivModIdentity(n, d);
    if 2 * r >= d {
      assert (q + 1) * d == q * d + d;
    }
  }

  /** Only one multiple of d is that close, so the bounds determine the rounded quotient. */
  lemma HalfUpUnique(n: nat, d: nat, m: int)
    requires d > 0
    requires 2 * (m * d) - d <= 2 * n < 2 * (m * d) + d
    ensures m == HalfUpMagnitude(n, d)
  {
    var h := HalfUpMagnitude(n, d);
    HalfUpWithinHalf(n, d);
    MulSucc(h, d);
    MulSucc(m, d);
    MulLeIf(h + 1, m, d);
    MulLeIf(m + 1, h, d);
  }

  /** An exact midpoint q + 1/2 rounds up to q + 1, never to the even neighbour. */
  lemma HalfUpMidpointRoundsUp(q: nat, d: nat)
    requires d > 0 && d % 2 == 0
    ensures HalfUpMagnitude(q * d + d / 2, d) == q + 1
  {
    DivModUnique(q * d + d / 2, d, q, d / 2);
  }

  /** The result is negative only when exactly one operand is, and positive only when
      neither or both are; its magnitude is the rounded magnitude. */
  lemma SparkDivideSign(a: int, b: int, k: nat)
    requires b != 0
    ensures SparkDivide(a, b, k) < 0 ==> (a < 0) != (b < 0)
    ensures SparkDivide(a, b, k) > 0 ==> (a < 0) == (b < 0)
    ensures Abs(SparkDivide(a, b, k)) == HalfUpMagnitude(Abs(a) * Pow10(k), Abs(b))
  {
  }

  /** No rounding happens when d divides n. */
  lemma HalfUpExact(q: nat, d: nat)
    requires d > 0
    ensures HalfUpMagnitude(q * d, d) == q
  {
    DivModUnique(q * d, d, q, 0);
  }

  /** Zero divided by anything is zero. */
  lemma HalfUpOfZero(d: nat)
    requires d > 0
    ensures HalfUpMagnitude(0, d) == 0
  {
    HalfUpExact(0, d);
  }

  /** The sign is applied after rounding, so negating either operand negates the result. */
  lemma SparkDivideOdd(a: int, b: int, k: nat)
    requires b != 0
    ensures SparkDivide(-a, b, k) == -SparkDivide(a, b, k)
    ensures SparkDivide(a, -b, k) == -SparkDivide(a, b, k)
  {
    if a == 0 {
      HalfUpOfZero(Abs(b));
    }
  }

  /** With no scaling the magnitude is the truncating quotient |a| / |b|, plus one when
      twice the remainder reaches |b|. */
  lemma SparkDivideUnscaled(a: int, b: int)
    requires b != 0
    ensures Abs(SparkDivide(a, b, 0)) == Abs(a) / Abs(b) + (if 2 * (Abs(a) % Abs(b)) >= Abs(b) then 1 else 0)
    ensures 2 * (Abs(a) % Abs(b)) < Abs(b) ==> SparkDivide(a, b, 0) == (if (a < 0) != (b < 0) then -(Abs(a) / Abs(b)) else Abs(a) / Abs(b))
  {
    assert Pow10(0) == 1;
  }

  /** Worked cases: 123.45 / 2.00 at eight more digits, and the halves -2.5 and 2.5. */
  lemma SparkDivideExamples()
    ensures SparkDivide(12345, 200, 8) == 6172500000
    ensures SparkDivide(5, 2, 0) == 3 && SparkDivide(-5, 2, 0) == -3 && SparkDivide(5, -2, 0) == -3
    ensures SparkDivide(1, 3, 1) == 3 && SparkDivide(2, 3, 0) == 1
  {
    assert Pow10(8) == 100000000 by {
      assert Pow10(4) == 10000;
    }
    HalfUpExact(6172500000, 200);
    assert Pow10(0) == 1 && Pow10(1) == 10;
    HalfUpMidpointRoundsUp(2, 2);
    DivModUnique(10, 3, 3, 1);
    DivModUnique(2, 3, 0, 2);
  }

  // ---------------------------------------------------------------------------
  // The kernel's arithmetic steps
  // ---------------------------------------------------------------------------

  /** `abs_a != 0 && pow10_val > (2^128 - 1) / abs_a` holds exactly when the product
      does not fit in 128 bits. */
  lemma OverflowTestExact(x: u128, y: u128)
    ensures (x != 0 && y > (TWO_128 - 1) / x) <==> x * y > TWO_128 - 1
  {
    if x != 0 {
      var m := TWO_128 - 1;
      var q := m / x;
      DivModIdentity(m, x);
      if y > q {
        MulLe(q + 1, y, x);
        assert (q + 1) * x == q * x + x;
      } else {
        MulLe(y, q, x);
      }
    }
  }

  /** The 256-bit path divides the exact product whenever the quotient fits in 128 bits,
      so it agrees with the 128-bit path wherever both apply. */
  lemma SlowPathExact(x: u128, y: u128, d: u128)
    requires 0 < d <= TWO_127 && x * y < d * TWO_128
    ensures Mul128(x, y).hi != 0 ==> Mul128(x, y).hi < d
    ensures Div256By128Result(Mul128(x, y), d).quot == x * y / d
    ensures Div256By128Result(Mul128(x, y), d).rem == x * y % d
  {
    Mul128Exact(x, y);
    DivideWide(Mul128(x, y), x * y, d);
  }

  /** A 256-bit value n below d * 2^128 has its high half below d, and the division
      returns n / d and n % d. */
  lemma DivideWide(p: Uint256, n: nat, d: u128)
    requires 0 < d <= TWO_127 && p.Value() == n && n < d * TWO_128
    ensures p.hi != 0 ==> p.hi < d
    ensures Div256By128Result(p, d).quot == n / d && Div256By128Result(p, d).rem == n % d
  {
    MulLeIf(d, p.hi, TWO_128);
    Div256By128Exact(p, d);
    var r := Div256By128Result(p, d);
    DivModUnique(n, d, r.quot, r.rem);
  }

  /** The rounding step: `remainder * 2` does not wrap, and `quotient++` is the
      increment modulo 2^128. */
  lemma RoundingStep(q: u128, rem: u128, d: u128)
    requires rem < d <= TWO_127
    ensures ToU128(rem as int * 2) == 2 * rem
    ensures (if ToU128(rem as int * 2) >= d then ToU128(q as int + 1) else q) == ToU128(q + (if 2 * rem >= d then 1 else 0))
  {
    DivModUnique(rem * 2, TWO_128, 0, rem * 2);
    DivModUnique(q, TWO_128, 0, q);
  }

  /** Lines 46-53 applied to the truncated quotient and remainder of n by d give the
      rounded magnitude of n / d, modulo 2^128. */
  lemma RoundingExact(n: nat, d: u128, q: u128, rem: u128)
    requires 0 < d <= TWO_127 && q == n / d && rem == n % d
    ensures ToU128(rem as int * 2) == 2 * rem
    ensures (if ToU128(rem as int * 2) >= d then ToU128(q as int + 1) else q) == ToU128(HalfUpMagnitude(n, d))
  {
    RoundingStep(q, rem, d);
  }

  /** Lines 56-57 applied to the rounded magnitude give SparkDivide modulo 2^128. */
  lemma SignExact(a: int, b: int, k: nat, q: u128)
    requires b != 0 && q == ToU128(HalfUpMagnitude(Abs(a) * Pow10(k), Abs(b)))
    ensures var s: int := ToI128(q);
      (if (a < 0) != (b < 0) then ToI128(-s) else s) == ToI128(SparkDivide(a, b, k))
  {
    SignStep(HalfUpMagnitude(Abs(a) * Pow10(k), Abs(b)), (a < 0) != (b < 0));
  }

  /** Reading the magnitude as a signed value and negating it wraps modulo 2^128, so
      the result is the signed value modulo 2^128. */
  lemma SignStep(m: int, negative: bool)
    ensures var s: int := ToI128(ToU128(m));
      (if negative then ToI128(-s) else s) == ToI128(if negative then -m else m)
  {
    var u := ToU128(m);
    var s: int := ToI128(u);
    var j := m / TWO_128;
    DivModIdentity(m, TWO_128);
    assert u + j * TWO_128 == m;
    ToI128Congruent(u, j);
    if s == u {
      ToI128Congruent(-m, j);
      assert -m + j * TWO_128 == -s;
    } else {
      assert s == u - TWO_128;
      ToI128Congruent(-m, j + 1);
      assert -m + (j + 1) * TWO_128 == -s;
    }
  }

  /** Two values that differ by a multiple of 2^128 have the same signed reading. */
  lemma ToI128Congruent(x: int, k: int)
    ensures ToI128(x + k * TWO_128) == ToI128(x)
  {
    DivModAddMultiple(x, k, TWO_128);
  }

  // ---------------------------------------------------------------------------
  // The kernel
  // ---------------------------------------------------------------------------

  /** A value n that fits in 128 bits is kept by the cast, and so are its quotient and
      remainder by a positive divisor. */
  lemma FitsPathExact(n: nat, d: u128)
    requires d > 0 && n < TWO_128
    ensures ToU128(n) == n
    ensures 0 <= ToU128(n) / d == n / d < TWO_128 && ToU128(n) % d == n % d < d
  {
    DivModUnique(n, TWO_128, 0, n);
    DivModIdentity(n, d);
    MulLeIf(1, n / d, d);
  }

  /** Lines 23-43: the magnitude |a| * 10^k divided by |b|, truncated, with its remainder,
      on whichever of the three paths applies. */
  method ScaledDivision(absA: u128, absB: u128, scaleAdj: u32) returns (quotient: u128, remainder: u128)
    requires 0 < absB <= TWO_127 && scaleAdj <= 38
    requires absA * Pow10(scaleAdj) < absB * TWO_128
    ensures quotient == absA * Pow10(scaleAdj) / absB
    ensures remainder == absA * Pow10(scaleAdj) % absB
  {
    if scaleAdj == 0 {
      assert absA * Pow10(scaleAdj) == absA;
      FitsPathExact(absA, absB);
      quotient := absA / absB;
      remainder := absA % absB;
    } else {
      var pow10 := Pow10_128(scaleAdj);
      var maxU128 := ToU128(0 - 1);
      assert maxU128 == TWO_128 - 1;
      var overflow := absA != 0 && pow10 > maxU128 / absA;
      OverflowTestExact(absA, pow10);
      if !overflow {
        ghost var n := absA * pow10;
        FitsPathExact(n, absB);
        var scaled := ToU128(absA * pow10);
        assert scaled == ToU128(n);
        quotient := scaled / absB;
        remainder := scaled % absB;
      } else {
        SlowPathExact(absA, pow10, absB);
        var scaled := Mul128(absA, pow10);
        var cell := new Uint128Cell();
        quotient := Div256By128(scaled, absB, cell);
        remainder := cell.value;
      }
    }
  }

  /** The HALF_UP division of lines 14-58. The caller rules out b == 0 (line 13);
      `Pow10_128` demands k <= 38 (wide_integer.hpp line 221) and `Div256By128` a
      quotient that fits in 128 bits (wide_integer.hpp line 94). The result is the
      rounded quotient read as a signed 128-bit value. */
  method SparkDecimalDivide(a: i128, b: i128, scaleAdj: u32) returns (r: i128)
    requires b != 0 && scaleAdj <= 38
    requires Abs(a) * Pow10(scaleAdj) < Abs(b) * TWO_128
    ensures r == ToI128(SparkDivide(a, b, scaleAdj))
    ensures InI128(SparkDivide(a, b, scaleAdj)) ==> r == SparkDivide(a, b, scaleAdj)
  {
    var negative := (a < 0) != (b < 0);
    var absA := Abs128(a);
    var absB := Abs128(b);
    var quotient, remainder := ScaledDivision(absA, absB, scaleAdj);

    RoundingExact(Abs(a) * Pow10(scaleAdj), absB, quotient, remainder);
    var doubleRem := ToU128(remainder as int * 2);
    if doubleRem >= absB {
      quotient := ToU128(quotient as int + 1);
    }

    var signedResult: int := ToI128(quotient);
    SignExact(a, b, scaleAdj, quotient);
    r := if negative then ToI128(-signedResult) else signedResult;
  }
}

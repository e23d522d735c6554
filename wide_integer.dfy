/**
 * The wide-integer toolkit: conversion between the host's two-limb hugeint_t and
 * a native signed 128-bit integer, a total absolute value, a 256-bit unsigned
 * value made of two 128-bit halves with a 128x128 -> 256 multiply and a
 * 256 / 128 divide, and the table of the powers of ten up to 10^38.
 */
module WideInteger {
  import opened FixedWidth

  // ---------------------------------------------------------------------------
  // hugeint_t <-> __int128
  // ---------------------------------------------------------------------------

  /** The host's 128-bit integer: an unsigned lower limb and a signed upper limb. */
  datatype Hugeint = Hugeint(lower: u64, upper: i64)

  /** `(static_cast<__int128>(h.upper) << 64) | h.lower`, on the two's-complement bits. */
  function HugeintToInt128(h: Hugeint): (v: i128)
    ensures v == h.upper * TWO_64 + h.lower
  {
    ShiftedUpperBits(h.upper, h.lower);
    ToI128(BitOr(ToU128(h.upper * TWO_64), h.lower))
  }

  /** The upper limb is the arithmetic shift `v >> 64`, the lower limb the low 64 bits. */
  function Int128ToHugeint(v: i128): (h: Hugeint)
    ensures h.upper == v / TWO_64 && h.lower == v % TWO_64
  {
    UpperLimbInRange(v);
    Hugeint(ToU64(v), ToI64(v / TWO_64))
  }

  lemma ShiftedUpperBits(upper: i64, lower: u64)
    ensures BitOr(ToU128(upper * TWO_64), lower) == ToU64(upper) * TWO_64 + lower
    ensures ToI128(BitOr(ToU128(upper * TWO_64), lower)) == upper * TWO_64 + lower
  {
    var u := ToU64(upper);
    UpperShiftBits(upper);
    Pow2Values();
    OrDisjoint(u, lower, 64);
    var x := u * TWO_64 + lower;
    DivModUnique(x, TWO_128, 0, x);
  }

  /** The upper limb shifted into place: its 64 bits as unsigned, and the signed value's bounds. */
  lemma UpperShiftBits(upper: i64)
    ensures ToU64(upper) * TWO_64 == upper * TWO_64 + (if upper < 0 then TWO_128 else 0)
    ensures 0 <= ToU64(upper) * TWO_64 <= TWO_128 - TWO_64
    ensures ToU128(upper * TWO_64) == ToU64(upper) * TWO_64
    ensures -TWO_127 <= upper * TWO_64 <= TWO_127 - TWO_64
  {
    var u := ToU64(upper);
    if upper < 0 {
      DivModUnique(upper, TWO_64, -1, upper + TWO_64);
    } else {
      DivModUnique(upper, TWO_64, 0, upper);
    }
    MulLe(u, TWO_64 - 1, TWO_64);
    MulLe(-TWO_63, upper, TWO_64);
    MulLe(upper, TWO_63 - 1, TWO_64);
    DivModUnique(upper * TWO_64, TWO_128, if upper < 0 then -1 else 0, u * TWO_64);
  }

  lemma UpperLimbInRange(v: i128)
    ensures InI64(v / TWO_64)
  {
    DivModUnique(v, TWO_64, v / TWO_64, v % TWO_64);
  }

  /** Converting to the native integer and back gives the same two limbs. */
  lemma HugeintRoundTrip(h: Hugeint)
    ensures Int128ToHugeint(HugeintToInt128(h)) == h
  {
    var v := HugeintToInt128(h);
    DivModUnique(v, TWO_64, h.upper, h.lower);
  }

  /** Splitting into limbs and joining them again is lossless for every signed 128-bit value. */
  lemma Int128RoundTrip(v: i128)
    ensures HugeintToInt128(Int128ToHugeint(v)) == v
  {
    var h := Int128ToHugeint(v);
    assert v == (v / TWO_64) * TWO_64 + v % TWO_64;
  }

  // ---------------------------------------------------------------------------
  // Absolute value
  // ---------------------------------------------------------------------------

  /** `x < 0 ? -static_cast<unsigned __int128>(x) : static_cast<unsigned __int128>(x)`:
      negation happens on the unsigned value, so the most negative input is safe. */
  function Abs128(x: i128): (r: u128)
    ensures r == Abs(x)
    ensures x == -TWO_127 ==> r == TWO_127
  {
    var u: int := ToU128(x);
    if x < 0 then ToU128(-u) else u
  }

  // ---------------------------------------------------------------------------
  // 256-bit unsigned values
  // ---------------------------------------------------------------------------

  datatype Uint256 = Uint256(hi: u128, lo: u128) {
    function Value(): nat {
      hi * TWO_128 + lo
    }
  }

  /** Schoolbook multiplication on 64-bit limbs: the four partial products of the
      low and high halves, then their sum. */
  function Mul128(a: u128, b: u128): Uint256 {
    var aLo := ToU64(a);
    var aHi := ToU64(a / TWO_64);
    var bLo := ToU64(b);
    var bHi := ToU64(b / TWO_64);
    SumPartials(ToU128(aLo * bLo), ToU128(aLo * bHi), ToU128(aHi * bLo), ToU128(aHi * bHi))
  }

  /** The partial products summed into the two halves: the middle ones added with
      wrap-around and the two carries detected by comparison. */
  function SumPartials(p0: u128, p1: u128, p2: u128, p3: u128): Uint256 {
    var mid := ToU128(p1 + p2);
    var midCarry := if mid < p1 then TWO_64 else 0;
    var lo := ToU128(p0 + ToU128(mid * TWO_64));
    var loCarry := if lo < p0 then 1 else 0;
    var hi := ToU128(p3 + mid / TWO_64 + midCarry + loCarry);
    Uint256(hi, lo)
  }

  /** A carry out of an unsigned 128-bit addition shows as a sum below the first addend. */
  lemma AddCarry(x: u128, y: u128)
    ensures ToU128(x + y) < x <==> x + y >= TWO_128
    ensures ToU128(x + y) == x + y - (if x + y >= TWO_128 then TWO_128 else 0)
  {
    if x + y >= TWO_128 {
      DivModAddMultiple(x + y - TWO_128, 1, TWO_128);
    }
  }

  lemma LimbProduct(x: int, y: int)
    requires 0 <= x < TWO_64 && 0 <= y < TWO_64
    ensures 0 <= x * y < TWO_128
  {
    MulStrict(x, y, TWO_64);
  }

  lemma ExpandProduct(a1: int, a0: int, b1: int, b0: int, w: int)
    ensures (a1 * w + a0) * (b1 * w + b0) == (a1 * b1) * (w * w) + (a1 * b0 + a0 * b1) * w + a0 * b0
  {
  }

  lemma SplitLimbs(a: u128)
    ensures a == ToU64(a / TWO_64) * TWO_64 + ToU64(a)
  {
    DivModUnique(a, TWO_64, a / TWO_64, a % TWO_64);
  }

  /** The 256-bit product is exact: the carries account for every wrap-around. */
  lemma Mul128Exact(a: u128, b: u128)
    ensures Mul128(a, b).Value() == a * b
  {
    var p0, p1, p2, p3 := Mul128Parts(a, b);
    LimbProduct128(a, b);
    SumPartialsExact(p0, p1, p2, p3);
  }

  /** Summing the partial products loses nothing when their total fits in 256 bits. */
  lemma SumPartialsExact(p0: u128, p1: u128, p2: u128, p3: u128)
    requires p3 * TWO_128 + (p1 + p2) * TWO_64 + p0 < TWO_128 * TWO_128
    ensures SumPartials(p0, p1, p2, p3).Value() == p3 * TWO_128 + (p1 + p2) * TWO_64 + p0
  {
    var hiSum := PartialCarries(p0, p1, p2, p3);
    var lo := SumPartials(p0, p1, p2, p3).lo;
    HighHalfBound(hiSum, lo, TWO_128, p3 * TWO_128 + (p1 + p2) * TWO_64 + p0);
    DivModUnique(hiSum, TWO_128, 0, hiSum);
  }

  /** The two carry tests recover what the wrapping additions dropped: the high half
      before its own wrap, hiSum, and the low half make up the partial-product total. */
  lemma PartialCarries(p0: u128, p1: u128, p2: u128, p3: u128) returns (hiSum: nat)
    ensures var mid := ToU128(p1 + p2);
      var lo := ToU128(p0 + ToU128(mid * TWO_64));
      hiSum == p3 + mid / TWO_64 + (if mid < p1 then TWO_64 else 0) + (if lo < p0 then 1 else 0)
    ensures hiSum * TWO_128 + SumPartials(p0, p1, p2, p3).lo == p3 * TWO_128 + (p1 + p2) * TWO_64 + p0
  {
    var sum: int := p1 as int + p2;
    var mid: int := ToU128(sum);
    var c1 := if sum >= TWO_128 then 1 else 0;
    var midLow := mid % TWO_64;
    var midHigh := mid / TWO_64;
    var lo: int := ToU128(p0 + ToU128(mid * TWO_64));
    var c2 := if p0 + midLow * TWO_64 >= TWO_128 then 1 else 0;
    hiSum := p3 + midHigh + c1 * TWO_64 + c2;
    AddCarry(p1, p2);
    ShiftMidTerm(mid, midHigh, midLow);
    AddCarry(p0, midLow * TWO_64);
    assert TWO_64 * TWO_64 == TWO_128;
    CarryAlgebra(p0, p1, p2, p3, mid, c1, midHigh, midLow, lo, c2, TWO_64);
  }

  /** The four partial products of `Mul128` and how they make up the full product. */
  lemma Mul128Parts(a: u128, b: u128) returns (p0: u128, p1: u128, p2: u128, p3: u128)
    ensures a * b == p3 * TWO_128 + (p1 + p2) * TWO_64 + p0
    ensures Mul128(a, b) == SumPartials(p0, p1, p2, p3)
  {
    var aLo: int, aHi: int := ToU64(a), ToU64(a / TWO_64);
    var bLo: int, bHi: int := ToU64(b), ToU64(b / TWO_64);
    p0, p1, p2, p3 := ToU128(aLo * bLo), ToU128(aLo * bHi), ToU128(aHi * bLo), ToU128(aHi * bHi);
    assert a * b == p3 * TWO_128 + (p1 + p2) * TWO_64 + p0 by {
      NoWrapProduct(aLo, bLo);
      NoWrapProduct(aLo, bHi);
      NoWrapProduct(aHi, bLo);
      NoWrapProduct(aHi, bHi);
      SplitLimbs(a);
      SplitLimbs(b);
      ExpandProduct(aHi, aLo, bHi, bLo, TWO_64);
    }
  }

  lemma NoWrapProduct(x: int, y: int)
    requires 0 <= x < TWO_64 && 0 <= y < TWO_64
    ensures ToU128(x * y) == x * y
  {
    LimbProduct(x, y);
    DivModUnique(x * y, TWO_128, 0, x * y);
  }

  lemma ShiftMidTerm(mid: int, midHigh: int, midLow: int)
    requires mid == midHigh * TWO_64 + midLow && 0 <= midLow < TWO_64 && 0 <= midHigh < TWO_64
    ensures ToU128(mid * TWO_64) == midLow * TWO_64
  {
    assert mid * TWO_64 == midHigh * TWO_128 + midLow * TWO_64;
    MulLe(midLow, TWO_64 - 1, TWO_64);
    DivModAddMultiple(midLow * TWO_64, midHigh, TWO_128);
  }

  /** The carry bookkeeping of the limb multiplication, over a symbolic limb base w. */
  lemma CarryAlgebra(p0: int, p1: int, p2: int, p3: int, mid: int, c1: int, midHigh: int, midLow: int,
                     lo: int, c2: int, w: int)
    requires p1 + p2 == mid + c1 * (w * w)
    requires mid == midHigh * w + midLow
    requires p0 + midLow * w == lo + c2 * (w * w)
    ensures (p3 + midHigh + c1 * w + c2) * (w * w) + lo == p3 * (w * w) + (p1 + p2) * w + p0
  {
    calc {
      (p3 + midHigh + c1 * w + c2) * (w * w) + lo;
      p3 * (w * w) + midHigh * (w * w) + c1 * w * (w * w) + c2 * (w * w) + lo;
      p3 * (w * w) + midHigh * (w * w) + c1 * w * (w * w) + p0 + midLow * w;
      p3 * (w * w) + (midHigh * w + midLow) * w + c1 * (w * w) * w + p0;
      p3 * (w * w) + (mid + c1 * (w * w)) * w + p0;
      p3 * (w * w) + (p1 + p2) * w + p0;
    }
  }

  /** A value below m*m written as h*m + l with 0 <= l has h < m. */
  lemma HighHalfBound(h: int, l: int, m: int, v: int)
    requires m > 0 && 0 <= l && h * m + l == v && v < m * m
    ensures h < m
  {
    MulLeIf(m, h, m);
  }

  lemma LimbProduct128(a: u128, b: u128)
    ensures a * b < TWO_128 * TWO_128
  {
    MulStrict(a, b, TWO_128);
  }

  /** Operands below 2^64 multiply into the low half alone. */
  lemma Mul128SmallOperands(a: u128, b: u128)
    requires a < TWO_64 && b < TWO_64
    ensures Mul128(a, b).hi == 0 && Mul128(a, b).lo == a * b
  {
    Mul128Exact(a, b);
    LimbProduct(a, b);
    HighHalfBound(Mul128(a, b).hi, Mul128(a, b).lo, TWO_128, a * b);
  }

  // ---------------------------------------------------------------------------
  // 256 / 128 division
  // ---------------------------------------------------------------------------

  /** The quotient and the remainder of a division. */
  datatype QuotRem = QuotRem(quot: nat, rem: nat)

  /** An `unsigned __int128` object that the remainder out-pointer refers to. */
  class Uint128Cell {
    var value: u128

    constructor ()
      ensures value == 0
    {
      value := 0;
    }
  }

  /** The remainder after `rem <<= 1` on an unsigned 128-bit value, with the next
      dividend bit placed in its (then clear) lowest bit by `rem |= 1`. */
  function Shifted(rem: nat, bit: bool): nat {
    ToU128(rem * 2) + (if bit then 1 else 0)
  }

  /** One iteration of the loop body of lines 135-142 (and 147-154) as written: shift
      bit `bit` of x into the remainder and, when the remainder reaches den, subtract
      den and set quotient bit `bit + offset`. */
  function Step(s: QuotRem, x: nat, bit: nat, offset: nat, den: nat): QuotRem {
    var w := Shifted(s.rem, BitSet(x, bit));
    if w >= den then QuotRem(BitOr(s.quot, Pow2(bit + offset)), w - den) else QuotRem(s.quot, w)
  }

  /** The loop as written over the bits n-1 .. 0 of the 64-bit word x. */
  function ShiftSubtract(rem: nat, quot: nat, x: nat, n: nat, offset: nat, den: nat): QuotRem
    decreases n
  {
    if n == 0 then QuotRem(quot, rem)
    else
      var s := Step(QuotRem(quot, rem), x, n - 1, offset, den);
      ShiftSubtract(s.rem, s.quot, x, n - 1, offset, den)
  }

  /** The state after the first k iterations of the loop, which visit bits 63 .. 64-k. */
  function Run(rem0: nat, quot0: nat, x: nat, k: nat, offset: nat, den: nat): QuotRem
    requires k <= 64
    decreases k
  {
    if k == 0 then QuotRem(quot0, rem0)
    else Step(Run(rem0, quot0, x, k - 1, offset, den), x, 64 - k, offset, den)
  }

  /** Running k iterations and then the pass over the remaining 64 - k bits is the whole pass. */
  lemma {:induction false} RunThenRest(rem0: nat, quot0: nat, x: nat, k: nat, offset: nat, den: nat)
    requires k <= 64
    ensures var s := Run(rem0, quot0, x, k, offset, den);
      ShiftSubtract(s.rem, s.quot, x, 64 - k, offset, den) == ShiftSubtract(rem0, quot0, x, 64, offset, den)
    decreases k
  {
    if k > 0 {
      RunThenRest(rem0, quot0, x, k - 1, offset, den);
    }
  }

  /** The same loop with the bit that `rem <<= 1` shifts out kept as a carry: when it
      is set the true shifted remainder is at least 2^128 > den, so den is subtracted
      (in wrap-around arithmetic, which gives the true difference). */
  function ShiftSubtractCarry(rem: nat, quot: nat, x: nat, n: nat, offset: nat, den: nat): QuotRem
    decreases n
  {
    if n == 0 then QuotRem(quot, rem)
    else
      var carry := rem >= TWO_127;
      var w := Shifted(rem, BitSet(x, n - 1));
      if carry || w >= den then ShiftSubtractCarry(ToU128(w - den), BitOr(quot, Pow2(n - 1 + offset)), x, n - 1, offset, den)
      else ShiftSubtractCarry(w, quot, x, n - 1, offset, den)
  }

  /** What one pass computes when no bit is lost: rem * 2^n plus the n low bits of x,
      divided by den, with the quotient placed at bit offset. */
  ghost predicate ExactPass(rem: nat, quot: nat, x: nat, n: nat, offset: nat, den: nat, r: QuotRem)
    requires den > 0
  {
    var v := rem * Pow2(n) + x % Pow2(n);
    r.rem == v % den && r.quot == quot + (v / den) * Pow2(offset)
  }

  /** Shifting a value below 2^127 loses nothing; the shifted value is even and below 2^128 - 1. */
  lemma ShiftedValue(rem: nat, bit: bool)
    requires rem < TWO_128
    ensures rem < TWO_127 ==> Shifted(rem, bit) == 2 * rem + (if bit then 1 else 0)
    ensures rem >= TWO_127 ==> Shifted(rem, bit) == 2 * rem + (if bit then 1 else 0) - TWO_128
    ensures ToU128(rem * 2) % 2 == 0 && ToU128(rem * 2) < TWO_128 - 1
  {
    if rem >= TWO_127 {
      DivModAddMultiple(rem * 2 - TWO_128, 1, TWO_128);
    }
  }

  /** The loop as written keeps rem < den for every divisor: without a wrap the shifted
      value is below 2 * den, and after a wrap den > 2^127, so the shifted value, below
      2^128, is less than 2 * den as well. */
  lemma StepKeepsRemBelow(rem: u128, bit: bool, den: u128)
    requires rem < den
    ensures Shifted(rem, bit) >= den ==> Shifted(rem, bit) - den < den
  {
    ShiftedValue(rem, bit);
  }

  /** One step of the carrying loop on the remainder: it subtracts den exactly when the
      true shifted value 2 * rem + bit reaches den, and then holds the true difference. */
  lemma CarryStepRem(rem: u128, bit: bool, den: u128)
    requires 0 < den && rem < den
    ensures var w := Shifted(rem, bit);
      var wTrue := 2 * rem + (if bit then 1 else 0);
      && ((rem >= TWO_127 || w >= den) <==> wTrue >= den)
      && (rem >= TWO_127 || w >= den ==> ToU128(w - den) == wTrue - den)
      && (!(rem >= TWO_127 || w >= den) ==> w == wTrue)
      && 0 <= wTrue - (if wTrue >= den then den else 0) < den
  {
    var w := Shifted(rem, bit);
    var wTrue := 2 * rem + (if bit then 1 else 0);
    ShiftedValue(rem, bit);
    if rem >= TWO_127 {
      DivModAddMultiple(wTrue - den, -1, TWO_128);
    }
  }

  /** The arithmetic of one step, over abstract values: v = rem * 2m + (b * m + xl) is
      split into c * m multiples of den plus the value the remaining bits start from. */
  lemma PassStepArith(rem: int, b: int, c: int, den: int, m: int, xl: int, p: int, quot: int)
    requires den > 0 && m >= 1 && xl >= 0
    ensures var v := rem * (2 * m) + (b * m + xl);
      var v' := (2 * rem + b - c * den) * m + xl;
      && v / den == c * m + v' / den
      && v % den == v' % den
      && quot + c * (m * p) + (v' / den) * p == quot + (c * m + v' / den) * p
  {
    var v := rem * (2 * m) + (b * m + xl);
    var v' := (2 * rem + b - c * den) * m + xl;
    assert v == (c * m) * den + v';
    DivModAddMultiple(v', c * m, den);
    assert c * (m * p) == (c * m) * p;
  }

  /** One unfolding of the carrying loop: den is subtracted (c = 1) exactly when the
      true shifted remainder reaches it, and the quotient bit is set at the same time. */
  lemma CarryPassStep(rem: u128, quot: nat, x: nat, n: nat, offset: nat, den: u128)
    returns (c: nat, rem': u128, quot': nat)
    requires n >= 1 && n + offset <= 128 && quot < TWO_128 && quot % Pow2(n + offset) == 0
    requires 0 < den && rem < den
    ensures c <= 1 && rem' < den
    ensures rem' == 2 * rem + (if BitSet(x, n - 1) then 1 else 0) - c * den
    ensures quot' == quot + c * Pow2(n - 1 + offset)
    ensures quot' < TWO_128 && quot' % Pow2(n - 1 + offset) == 0
    ensures ShiftSubtractCarry(rem, quot, x, n, offset, den) == ShiftSubtractCarry(rem', quot', x, n - 1, offset, den)
  {
    var subtract: bool;
    subtract, c, rem', quot' := CarryStepValues(rem, quot, BitSet(x, n - 1), n - 1 + offset, den);
  }

  /** The values of one carrying step, kept apart from the recursion: subtract is the
      branch ShiftSubtractCarry takes, c the number of divisors subtracted. */
  lemma CarryStepValues(rem: u128, quot: nat, hit: bool, k: nat, den: u128)
    returns (subtract: bool, c: nat, rem': u128, quot': nat)
    requires k < 128 && quot < TWO_128 && quot % Pow2(k + 1) == 0
    requires 0 < den && rem < den
    ensures subtract == (rem >= TWO_127 || Shifted(rem, hit) >= den)
    ensures subtract ==> rem' == ToU128(Shifted(rem, hit) - den) && quot' == BitOr(quot, Pow2(k))
    ensures !subtract ==> rem' == Shifted(rem, hit) && quot' == quot
    ensures c <= 1 && rem' < den
    ensures rem' == 2 * rem + (if hit then 1 else 0) - c * den
    ensures quot' == quot + c * Pow2(k)
    ensures quot' < TWO_128 && quot' % Pow2(k) == 0
  {
    var w := Shifted(rem, hit);
    CarryStepRem(rem, hit, den);
    subtract := rem >= TWO_127 || w >= den;
    if subtract {
      c, rem' := 1, ToU128(w - den);
      SetBit(quot, k);
      quot' := BitOr(quot, Pow2(k));
    } else {
      c, rem' := 0, w;
      MultipleOfPow2Weaken(quot, k);
      quot' := quot;
    }
  }

  /** The value a pass divides, before and after one step, differs by c * 2^(n-1) multiples of den. */
  lemma PassValueStep(rem: nat, quot: nat, x: nat, n: nat, offset: nat, den: nat, c: nat, rem': nat, quot': nat)
    requires n >= 1 && 0 < den && c <= 1
    requires rem' == 2 * rem + (if BitSet(x, n - 1) then 1 else 0) - c * den
    requires quot' == quot + c * Pow2(n - 1 + offset)
    ensures var v := rem * Pow2(n) + x % Pow2(n);
      var v' := rem' * Pow2(n - 1) + x % Pow2(n - 1);
      && v % den == v' % den
      && quot + (v / den) * Pow2(offset) == quot' + (v' / den) * Pow2(offset)
  {
    var bit := n - 1;
    var b := if BitSet(x, bit) then 1 else 0;
    var m := Pow2(bit);
    var p := Pow2(offset);
    assert Pow2(n) == 2 * m;
    ModPow2Step(x, bit);
    Pow2Add(bit, offset);
    PassStepArith(rem, b, c, den, m, x % m, p, quot);
  }

  lemma PassValueBase(rem: nat, x: nat, den: nat)
    requires rem < den
    ensures (rem * Pow2(0) + x % Pow2(0)) % den == rem && (rem * Pow2(0) + x % Pow2(0)) / den == 0
  {
    DivModUnique(x, 1, x, 0);
    DivModUnique(rem, den, 0, rem);
  }

  /** With its carry, the loop divides exactly for every non-zero 128-bit divisor. */
  lemma {:induction false} ShiftSubtractCarryExact(rem: u128, quot: nat, x: nat, n: nat, offset: nat, den: u128)
    requires n + offset <= 128 && quot < TWO_128 && quot % Pow2(n + offset) == 0
    requires 0 < den && rem < den
    ensures ExactPass(rem, quot, x, n, offset, den, ShiftSubtractCarry(rem, quot, x, n, offset, den))
    decreases n
  {
    if n > 0 {
      var c, rem', quot' := CarryPassStep(rem, quot, x, n, offset, den);
      ShiftSubtractCarryExact(rem', quot', x, n - 1, offset, den);
      PassValueStep(rem, quot, x, n, offset, den, c, rem', quot');
    } else {
      PassValueBase(rem, x, den);
    }
  }

  /** Below 2^127 the shifted-out bit is always zero, so the loop as written and the
      loop with a carry compute the same thing. */
  lemma {:induction false} ShiftSubtractAgrees(rem: nat, quot: nat, x: nat, n: nat, offset: nat, den: nat)
    requires rem < den <= TWO_127
    ensures ShiftSubtract(rem, quot, x, n, offset, den) == ShiftSubtractCarry(rem, quot, x, n, offset, den)
    decreases n
  {
    if n > 0 {
      var w := Shifted(rem, BitSet(x, n - 1));
      ShiftedValue(rem, BitSet(x, n - 1));
      if w >= den {
        DivModUnique(w - den, TWO_128, 0, w - den);
        ShiftSubtractAgrees(w - den, BitOr(quot, Pow2(n - 1 + offset)), x, n - 1, offset, den);
      } else {
        ShiftSubtractAgrees(w, quot, x, n - 1, offset, den);
      }
    }
  }

  /** A remainder that only doubles (no dividend bits, divisor 2^128 - 1) reaches 2^128
      and wraps to zero in the loop as written, without ever being reduced. */
  lemma {:induction false} DoublingWraps(j: nat, quot: nat, n: nat, offset: nat)
    requires j + n <= 128
    ensures ShiftSubtract(ToU128(Pow2(j)), quot, 0, n, offset, TWO_128 - 1) == QuotRem(quot, ToU128(Pow2(j + n)))
    decreases n
  {
    if n > 0 {
      DoublingStep(j, quot, n - 1, offset);
      DoublingWraps(j + 1, quot, n - 1, offset);
    }
  }

  /** One iteration on the remainder 2^j with no dividend bit: it doubles and stays below den. */
  lemma DoublingStep(j: nat, quot: nat, bit: nat, offset: nat)
    requires j < 128
    ensures Step(QuotRem(quot, ToU128(Pow2(j))), 0, bit, offset, TWO_128 - 1) == QuotRem(quot, ToU128(Pow2(j + 1)))
  {
    Pow2Values();
    Pow2Monotone(j, 127);
    DivModUnique(0, Pow2(bit), 0, 0);
    assert !BitSet(0, bit);
    DivModUnique(Pow2(j), TWO_128, 0, Pow2(j));
    assert Pow2(j + 1) == Pow2(j) * 2;
    if j + 1 < 128 {
      Pow2Monotone(j + 1, 127);
      DivModUnique(Pow2(j + 1), TWO_128, 0, Pow2(j + 1));
    } else {
      DivModUnique(Pow2(j + 1), TWO_128, 1, 0);
    }
  }

  /** Both halves of `lo` run through the loop as written (lines 130-155), starting
      from the remainder num.hi. */
  function LongDivision(num: Uint256, den: u128): QuotRem {
    var loHi := ToU64(num.lo / TWO_64);
    var loLo := ToU64(num.lo);
    var upper := ShiftSubtract(num.hi, 0, loHi, 64, 64, den);
    ShiftSubtract(upper.rem, upper.quot, loLo, 64, 0, den)
  }

  /** The same two passes with the carry kept. */
  function LongDivisionCarry(num: Uint256, den: u128): QuotRem {
    var loHi := ToU64(num.lo / TWO_64);
    var loLo := ToU64(num.lo);
    var upper := ShiftSubtractCarry(num.hi, 0, loHi, 64, 64, den);
    ShiftSubtractCarry(upper.rem, upper.quot, loLo, 64, 0, den)
  }

  /** The carrying long division is exact for every divisor above the high half. */
  lemma LongDivisionCarryExact(num: Uint256, den: u128)
    requires num.hi < den
    ensures var r := LongDivisionCarry(num, den);
      r.quot * den + r.rem == num.Value() && r.rem < den && r.quot < TWO_128
  {
    Pow2Values();
    var loHi := ToU64(num.lo / TWO_64);
    var loLo := ToU64(num.lo);
    var upper := ShiftSubtractCarry(num.hi, 0, loHi, 64, 64, den);
    ZeroMultiple(128);
    ShiftSubtractCarryExact(num.hi, 0, loHi, 64, 64, den);
    UpperPassBounds(num, den, upper);
    ShiftSubtractCarryExact(upper.rem, upper.quot, loLo, 64, 0, den);
    var r := ShiftSubtractCarry(upper.rem, upper.quot, loLo, 64, 0, den);
    TwoPassValue(num, den, upper, r);
    QuotientFits(num, den, r);
  }

  /** After the first pass the remainder is below den and the quotient a multiple of 2^64 below 2^128. */
  lemma UpperPassBounds(num: Uint256, den: u128, upper: QuotRem)
    requires num.hi < den && Pow2(64) == TWO_64
    requires ExactPass(num.hi, 0, ToU64(num.lo / TWO_64), 64, 64, den, upper)
    ensures upper.rem < den && upper.quot < TWO_128 && upper.quot % Pow2(64) == 0
  {
    var loHi := ToU64(num.lo / TWO_64);
    WordPass(num.hi, 0, loHi, 64, den, upper);
    var q := (num.hi * TWO_64 + loHi) / den;
    DigitQuotientBound(num.hi, loHi, den, TWO_64);
    MulLe(q, TWO_64 - 1, TWO_64);
    DivModAddMultiple(0, q, TWO_64);
  }

  /** Dividing one more base-w digit into a remainder below den gives a quotient digit below w. */
  lemma DigitQuotientBound(r: int, d: int, den: int, w: int)
    requires 0 <= r < den && 0 <= d < w
    ensures 0 <= (r * w + d) / den < w
  {
    var v := r * w + d;
    MulLe(r + 1, den, w);
    DivModIdentity(v, den);
    MulLeIf(w, v / den, den);
  }

  /** A quotient times den that stays below den * 2^128 is itself below 2^128. */
  lemma QuotientFits(num: Uint256, den: u128, r: QuotRem)
    requires 0 < den && num.hi < den && r.quot * den + r.rem == num.Value()
    ensures r.quot < TWO_128
  {
    MulLe(num.hi + 1, den, TWO_128);
    MulLeIf(TWO_128, r.quot, den);
  }

  /** Composing the two exact passes divides hi * 2^128 + lo. */
  lemma TwoPassValue(num: Uint256, den: u128, upper: QuotRem, r: QuotRem)
    requires num.hi < den && Pow2(64) == TWO_64 && Pow2(128) == TWO_128
    requires ExactPass(num.hi, 0, ToU64(num.lo / TWO_64), 64, 64, den, upper)
    requires ExactPass(upper.rem, upper.quot, ToU64(num.lo), 64, 0, den, r)
    ensures r.quot * den + r.rem == num.Value() && r.rem < den
  {
    var loHi, loLo := ToU64(num.lo / TWO_64), ToU64(num.lo);
    SplitLimbs(num.lo);
    WordPass(num.hi, 0, loHi, 64, den, upper);
    WordPass(upper.rem, upper.quot, loLo, 0, den, r);
    var w, p1, p0 := TWO_64, Pow2(64), Pow2(0);
    assert p0 == 1;
    TwoDigitDivision(num.hi, loHi, loLo, den, w, p1, p0, upper.rem, upper.quot, r.rem, r.quot);
  }

  /** Two passes of exact division by den, one per base-w digit, over abstract values. */
  lemma TwoDigitDivision(hi: int, d1: int, d0: int, den: int, w: int, p1: int, p0: int,
                         r1: int, q1: int, r2: int, q2: int)
    requires w > 0 && den > 0 && p1 == w && p0 == 1
    requires r1 == (hi * w + d1) % den && q1 == 0 + ((hi * w + d1) / den) * p1
    requires r2 == (r1 * w + d0) % den && q2 == q1 + ((r1 * w + d0) / den) * p0
    ensures q2 * den + r2 == hi * (w * w) + d1 * w + d0 && 0 <= r2 < den
  {
    DivModIdentity(hi * w + d1, den);
    DivModIdentity(r1 * w + d0, den);
    TwoPassAlgebra(hi, d1, d0, den, (hi * w + d1) / den, r1, (r1 * w + d0) / den, r2, w);
  }

  /** An exact pass over a whole 64-bit word, with the powers of two written out. */
  lemma WordPass(rem: nat, quot: nat, x: u64, offset: nat, den: nat, r: QuotRem)
    requires den > 0 && Pow2(64) == TWO_64
    requires ExactPass(rem, quot, x, 64, offset, den, r)
    ensures var v := rem * TWO_64 + x;
      r.rem == v % den && r.quot == quot + (v / den) * Pow2(offset)
  {
    DivModUnique(x, TWO_64, 0, x);
  }

  /** Long division by two digits of base w, over abstract values. */
  lemma TwoPassAlgebra(hi: int, d1: int, d0: int, den: int, q1: int, r1: int, q2: int, r2: int, w: int)
    requires hi * w + d1 == q1 * den + r1
    requires r1 * w + d0 == q2 * den + r2
    ensures (q1 * w + q2) * den + r2 == hi * (w * w) + d1 * w + d0
  {
    calc {
      (q1 * w + q2) * den + r2;
      (q1 * den) * w + q2 * den + r2;
      (hi * w + d1 - r1) * w + r1 * w + d0;
      hi * (w * w) + d1 * w + d0;
    }
  }

  /** What `Div256By128` returns and stores: the native 128-bit division when the high
      half is zero, the bit loop otherwise. */
  function Div256By128Result(num: Uint256, den: u128): QuotRem
    requires den > 0
  {
    if num.hi == 0 then QuotRem(num.lo / den, num.lo % den) else LongDivision(num, den)
  }

  /** The division is exact on the native path and, when the quotient fits (the debug
      assertion on line 94), on the bit loop whenever the divisor is at most 2^127,
      which is every divisor the decimal kernel passes. */
  lemma Div256By128Exact(num: Uint256, den: u128)
    requires den > 0 && (num.hi != 0 ==> num.hi < den)
    requires num.hi == 0 || den <= TWO_127
    ensures var r := Div256By128Result(num, den);
      r.quot * den + r.rem == num.Value() && r.rem < den
  {
    if num.hi != 0 {
      Pow2Values();
      var loHi := ToU64(num.lo / TWO_64);
      var loLo := ToU64(num.lo);
      ShiftSubtractAgrees(num.hi, 0, loHi, 64, 64, den);
      var upper := ShiftSubtract(num.hi, 0, loHi, 64, 64, den);
      ZeroMultiple(128);
      ShiftSubtractCarryExact(num.hi, 0, loHi, 64, 64, den);
      UpperPassBounds(num, den, upper);
      ShiftSubtractAgrees(upper.rem, upper.quot, loLo, 64, 0, den);
      LongDivisionCarryExact(num, den);
    } else {
      DivModUnique(num.lo, den, num.lo / den, num.lo % den);
    }
  }

  /** The loop as written is not exact for divisors above 2^127: dividing 2^128 by
      2^128 - 1 gives quotient 0 and remainder 0, where the carrying loop gives 1 and 1. */
  lemma Div256By128WrapsAbove2To127()
    ensures Div256By128Result(Uint256(1, 0), TWO_128 - 1) == QuotRem(0, 0)
    ensures LongDivisionCarry(Uint256(1, 0), TWO_128 - 1) == QuotRem(1, 1)
    ensures Uint256(1, 0).Value() != 0 * (TWO_128 - 1) + 0
  {
    AsWrittenDoublesAway();
    CarryDividesExample();
  }

  /** The remainder 1 doubles through all 128 iterations, reaches 2^128 and wraps to 0. */
  lemma AsWrittenDoublesAway()
    ensures LongDivision(Uint256(1, 0), TWO_128 - 1) == QuotRem(0, 0)
  {
    Pow2Values();
    DivModUnique(1, TWO_128, 0, 1);
    DivModUnique(TWO_64, TWO_128, 0, TWO_64);
    DivModUnique(TWO_128, TWO_128, 1, 0);
    DivModUnique(0, TWO_64, 0, 0);
    DoublingWraps(0, 0, 64, 64);
    DoublingWraps(64, 0, 64, 0);
  }

  /** With the carry kept, 2^128 divided by 2^128 - 1 is 1 remainder 1. */
  lemma CarryDividesExample()
    ensures LongDivisionCarry(Uint256(1, 0), TWO_128 - 1) == QuotRem(1, 1)
  {
    var num := Uint256(1, 0);
    var den := TWO_128 - 1;
    LongDivisionCarryExact(num, den);
    var r := LongDivisionCarry(num, den);
    assert r.quot * den + r.rem == TWO_128;
    MulLeIf(2, r.quot, den);
  }

  /** One iteration of the loop body as written is `Step`: the shifted remainder has a
      clear lowest bit for `rem |= 1`, and setting the quotient bit stays in range and
      keeps the lower quotient bits clear. */
  lemma StepFacts(rem: u128, quot: u128, x: u64, bit: nat, offset: nat, den: u128)
    requires bit + 1 + offset <= 128 && quot % Pow2(bit + 1 + offset) == 0
    ensures (if BitSet(x, bit) then BitOr(ToU128(rem * 2), 1) else ToU128(rem * 2)) == Shifted(rem, BitSet(x, bit))
    ensures var w := Shifted(rem, BitSet(x, bit));
      && w < TWO_128
      && (w >= den ==>
            && BitOr(quot, Pow2(bit + offset)) < TWO_128
            && BitOr(quot, Pow2(bit + offset)) % Pow2(bit + offset) == 0
            && Step(QuotRem(quot, rem), x, bit, offset, den) == QuotRem(BitOr(quot, Pow2(bit + offset)), w - den))
      && (w < den ==>
            && quot % Pow2(bit + offset) == 0
            && Step(QuotRem(quot, rem), x, bit, offset, den) == QuotRem(quot, w))
  {
    ShiftedValue(rem, BitSet(x, bit));
    OrOne(ToU128(rem * 2));
    var w := Shifted(rem, BitSet(x, bit));
    if w >= den {
      SetBit(quot, bit + offset);
    } else {
      MultipleOfPow2Weaken(quot, bit + offset);
    }
  }

  /** The loop of lines 134-143 (x = lo_hi, offset 64) and of lines 146-155 (x = lo_lo,
      offset 0): it walks bit from 63 down to 0, shifting bit `bit` of x into the
      remainder and setting quotient bit `bit + offset` whenever the divisor is subtracted. */
  method ShiftSubtractLoop(rem0: u128, quot0: u128, x: u64, offset: nat, den: u128) returns (rem: u128, quot: u128)
    requires offset + 64 <= 128 && quot0 % Pow2(64 + offset) == 0
    requires rem0 < den
    ensures QuotRem(quot, rem) == ShiftSubtract(rem0, quot0, x, 64, offset, den)
    ensures quot % Pow2(offset) == 0
    ensures rem < den
  {
    rem, quot := rem0, quot0;
    var bit := 63;
    while bit >= 0
      invariant -1 <= bit <= 63
      invariant quot % Pow2(bit + 1 + offset) == 0
      invariant quot == Run(rem0, quot0, x, 63 - bit, offset, den).quot
      invariant rem == Run(rem0, quot0, x, 63 - bit, offset, den).rem
      invariant rem < den
    {
      StepFacts(rem, quot, x, bit, offset, den);
      StepKeepsRemBelow(rem, BitSet(x, bit), den);
      ghost var next := Run(rem0, quot0, x, 64 - bit, offset, den);
      assert next == Step(QuotRem(quot, rem), x, bit, offset, den);
      ghost var w := Shifted(rem, BitSet(x, bit));
      rem := ToU128(rem * 2);
      if BitSet(x, bit) {
        rem := BitOr(rem, 1);
      }
      assert rem == w;
      if rem >= den {
        rem := rem - den;
        quot := BitOr(quot, Pow2(bit + offset));
      }
      assert quot == next.quot && rem == next.rem;
      ghost var e := bit + offset;
      assert quot % Pow2(e) == 0;
      bit := bit - 1;
      assert bit + 1 + offset == e;
    }
    assert bit + 1 + offset == offset;
    RunThenRest(rem0, quot0, x, 64, offset, den);
  }

  /** Divide a 256-bit value by a 128-bit one (lines 81-161). The quotient is returned;
      the remainder is stored through `remainder` when it is not null. */
  method Div256By128(num: Uint256, den: u128, remainder: Uint128Cell?) returns (quot: u128)
    requires den > 0 && (num.hi != 0 ==> num.hi < den)
    modifies remainder
    ensures quot == Div256By128Result(num, den).quot
    ensures remainder != null ==> remainder.value == Div256By128Result(num, den).rem
  {
    if num.hi == 0 {
      DivBounds(num.lo, den);
      quot := num.lo / den;
      if remainder != null {
        remainder.value := num.lo % den;
      }
      return;
    }
    var rHi := num.hi;
    var loHi := ToU64(num.lo / TWO_64);
    var loLo := ToU64(num.lo);
    Pow2Values();
    ZeroMultiple(128);
    var rem, q := ShiftSubtractLoop(rHi, 0, loHi, 64, den);
    rem, quot := ShiftSubtractLoop(rem, q, loLo, 0, den);
    if remainder != null {
      remainder.value := rem;
    }
  }

  // ---------------------------------------------------------------------------
  // Powers of ten
  // ---------------------------------------------------------------------------

  function Pow10(n: nat): (r: nat)
    ensures r >= 1
  {
    if n == 0 then 1 else 10 * Pow10(n - 1)
  }

  /** `(static_cast<unsigned __int128>(hi) << 64) | lo` */
  function MakeUint128(hi: u64, lo: u64): (r: u128)
    ensures r == hi * TWO_64 + lo
  {
    JoinedLimbs(hi, lo);
    BitOr(ToU128(hi * TWO_64), lo)
  }

  lemma JoinedLimbs(hi: u64, lo: u64)
    ensures hi * TWO_64 + lo < TWO_128
    ensures BitOr(ToU128(hi * TWO_64), lo) == hi * TWO_64 + lo
  {
    MulLe(hi, TWO_64 - 1, TWO_64);
    DivModUnique(hi * TWO_64, TWO_128, 0, hi * TWO_64);
    Pow2Values();
    OrDisjoint(hi, lo, 64);
  }

  /** The table of lines 176-218, each entry given by its high and low 64-bit halves. */
  const POW10_TABLE: seq<u128> := [
    MakeUint128(0, 1),
    MakeUint128(0, 10),
    MakeUint128(0, 100),
    MakeUint128(0, 1000),
    MakeUint128(0, 10000),
    MakeUint128(0, 100000),
    MakeUint128(0, 1000000),
    MakeUint128(0, 10000000),
    MakeUint128(0, 100000000),
    MakeUint128(0, 1000000000),
    MakeUint128(0, 10000000000),
    MakeUint128(0, 100000000000),
    MakeUint128(0, 1000000000000),
    MakeUint128(0, 10000000000000),
    MakeUint128(0, 100000000000000),
    MakeUint128(0, 1000000000000000),
    MakeUint128(0, 10000000000000000),
    MakeUint128(0, 100000000000000000),
    MakeUint128(0, 1000000000000000000),
    MakeUint128(0, 10000000000000000000),
    MakeUint128(5, 7766279631452241920),
    MakeUint128(54, 3875820019684212736),
    MakeUint128(542, 1864712049423024128),
    MakeUint128(5421, 200376420520689664),
    MakeUint128(54210, 2003764205206896640),
    MakeUint128(542101, 1590897978359414784),
    MakeUint128(5421010, 15908979783594147840),
    MakeUint128(54210108, 11515845246265065472),
    MakeUint128(542101086, 4477988020393345024),
    MakeUint128(5421010862, 7886392056514347008),
    MakeUint128(54210108624, 5076944270305263616),
    MakeUint128(542101086242, 13875954555633532928),
    MakeUint128(5421010862427, 9632337040368467968),
    MakeUint128(54210108624275, 4089650035136921600),
    MakeUint128(542101086242752, 4003012203950112768),
    MakeUint128(5421010862427522, 3136633892082024448),
    MakeUint128(54210108624275221, 12919594847110692864),
    MakeUint128(542101086242752217, 68739955140067328),
    MakeUint128(5421010862427522170, 687399551400673280)
  ]

  /** Every entry of the table is the power of ten at its index. */
  lemma Pow10TableCorrect()
    ensures |POW10_TABLE| == 39
    ensures forall k :: 0 <= k < 39 ==> POW10_TABLE[k] == Pow10(k)
  {
    Pow10TableRows0To4();
    Pow10TableRows5To9();
    Pow10TableRows10To14();
    Pow10TableRows15To19();
    Pow10TableRows20To24();
    Pow10TableRows25To29();
    Pow10TableRows30To34();
    Pow10TableRows35To38();
  }

  /** The powers of ten at the start of every block of table rows. */
  lemma Pow10Ladder()
    ensures Pow10(4) == 10000 && Pow10(9) == 1000000000
    ensures Pow10(14) == 100000000000000 && Pow10(19) == 10000000000000000000
    ensures Pow10(24) == 1000000000000000000000000 && Pow10(29) == 100000000000000000000000000000
    ensures Pow10(34) == 10000000000000000000000000000000000
  {
    assert Pow10(0) == 1;
    assert Pow10(1) == 10;
    assert Pow10(2) == 100;
    assert Pow10(3) == 1000;
    assert Pow10(4) == 10000;
    assert Pow10(5) == 100000;
    assert Pow10(6) == 1000000;
    assert Pow10(7) == 10000000;
    assert Pow10(8) == 100000000;
    assert Pow10(9) == 1000000000;
    assert Pow10(10) == 10000000000;
    assert Pow10(11) == 100000000000;
    assert Pow10(12) == 1000000000000;
    assert Pow10(13) == 10000000000000;
    assert Pow10(14) == 100000000000000;
    assert Pow10(15) == 1000000000000000;
    assert Pow10(16) == 10000000000000000;
    assert Pow10(17) == 100000000000000000;
    assert Pow10(18) == 1000000000000000000;
    assert Pow10(19) == 10000000000000000000;
    assert Pow10(20) == 100000000000000000000;
    assert Pow10(21) == 1000000000000000000000;
    assert Pow10(22) == 10000000000000000000000;
    assert Pow10(23) == 100000000000000000000000;
    assert Pow10(24) == 1000000000000000000000000;
    assert Pow10(25) == 10000000000000000000000000;
    assert Pow10(26) == 100000000000000000000000000;
    assert Pow10(27) == 1000000000000000000000000000;
    assert Pow10(28) == 10000000000000000000000000000;
    assert Pow10(29) == 100000000000000000000000000000;
    assert Pow10(30) == 1000000000000000000000000000000;
    assert Pow10(31) == 10000000000000000000000000000000;
    assert Pow10(32) == 100000000000000000000000000000000;
    assert Pow10(33) == 1000000000000000000000000000000000;
    assert Pow10(34) == 10000000000000000000000000000000000;
  }

  lemma Pow10TableRows0To4()
    ensures |POW10_TABLE| == 39
    ensures forall k :: 0 <= k < 5 ==> POW10_TABLE[k] == Pow10(k)
  {
    assert POW10_TABLE[0] == Pow10(0) == 1;
    assert POW10_TABLE[1] == Pow10(1) == 10;
    assert POW10_TABLE[2] == Pow10(2) == 100;
    assert POW10_TABLE[3] == Pow10(3) == 1000;
    assert POW10_TABLE[4] == Pow10(4) == 10000;
  }

  lemma Pow10TableRows5To9()
    ensures |POW10_TABLE| == 39
    ensures forall k :: 5 <= k < 10 ==> POW10_TABLE[k] == Pow10(k)
  {
    Pow10Ladder();
    assert POW10_TABLE[5] == Pow10(5) == 100000;
    assert POW10_TABLE[6] == Pow10(6) == 1000000;
    assert POW10_TABLE[7] == Pow10(7) == 10000000;
    assert POW10_TABLE[8] == Pow10(8) == 100000000;
    assert POW10_TABLE[9] == Pow10(9) == 1000000000;
  }

  lemma Pow10TableRows10To14()
    ensures |POW10_TABLE| == 39
    ensures forall k :: 10 <= k < 15 ==> POW10_TABLE[k] == Pow10(k)
  {
    Pow10Ladder();
    assert POW10_TABLE[10] == Pow10(10) == 10000000000;
    assert POW10_TABLE[11] == Pow10(11) == 100000000000;
    assert POW10_TABLE[12] == Pow10(12) == 1000000000000;
    assert POW10_TABLE[13] == Pow10(13) == 10000000000000;
    assert POW10_TABLE[14] == Pow10(14) == 100000000000000;
  }

  lemma Pow10TableRows15To19()
    ensures |POW10_TABLE| == 39
    ensures forall k :: 15 <= k < 20 ==> POW10_TABLE[k] == Pow10(k)
  {
    Pow10Ladder();
    assert POW10_TABLE[15] == Pow10(15) == 1000000000000000;
    assert POW10_TABLE[16] == Pow10(16) == 10000000000000000;
    assert POW10_TABLE[17] == Pow10(17) == 100000000000000000;
    assert POW10_TABLE[18] == Pow10(18) == 1000000000000000000;
    assert POW10_TABLE[19] == Pow10(19) == 10000000000000000000;
  }

  lemma Pow10TableRows20To24()
    ensures |POW10_TABLE| == 39
    ensures forall k :: 20 <= k < 25 ==> POW10_TABLE[k] == Pow10(k)
  {
    Pow10Ladder();
    assert POW10_TABLE[20] == Pow10(20) == 100000000000000000000;
    assert POW10_TABLE[21] == Pow10(21) == 1000000000000000000000;
    assert POW10_TABLE[22] == Pow10(22) == 10000000000000000000000;
    assert POW10_TABLE[23] == Pow10(23) == 100000000000000000000000;
    assert POW10_TABLE[24] == Pow10(24) == 1000000000000000000000000;
  }

  lemma Pow10TableRows25To29()
    ensures |POW10_TABLE| == 39
    ensures forall k :: 25 <= k < 30 ==> POW10_TABLE[k] == Pow10(k)
  {
    Pow10Ladder();
    assert POW10_TABLE[25] == Pow10(25) == 10000000000000000000000000;
    assert POW10_TABLE[26] == Pow10(26) == 100000000000000000000000000;
    assert POW10_TABLE[27] == Pow10(27) == 1000000000000000000000000000;
    assert POW10_TABLE[28] == Pow10(28) == 10000000000000000000000000000;
    assert POW10_TABLE[29] == Pow10(29) == 100000000000000000000000000000;
  }

  lemma Pow10TableRows30To34()
    ensures |POW10_TABLE| == 39
    ensures forall k :: 30 <= k < 35 ==> POW10_TABLE[k] == Pow10(k)
  {
    Pow10Ladder();
    assert POW10_TABLE[30] == Pow10(30) == 1000000000000000000000000000000;
    assert POW10_TABLE[31] == Pow10(31) == 10000000000000000000000000000000;
    assert POW10_TABLE[32] == Pow10(32) == 100000000000000000000000000000000;
    assert POW10_TABLE[33] == Pow10(33) == 1000000000000000000000000000000000;
    assert POW10_TABLE[34] == Pow10(34) == 10000000000000000000000000000000000;
  }

  lemma Pow10TableRows35To38()
    ensures |POW10_TABLE| == 39
    ensures forall k :: 35 <= k < 39 ==> POW10_TABLE[k] == Pow10(k)
  {
    Pow10Ladder();
    assert POW10_TABLE[35] == Pow10(35) == 100000000000000000000000000000000000;
    assert POW10_TABLE[36] == Pow10(36) == 1000000000000000000000000000000000000;
    assert POW10_TABLE[37] == Pow10(37) == 10000000000000000000000000000000000000;
    assert POW10_TABLE[38] == Pow10(38) == 100000000000000000000000000000000000000;
  }

  /** Table lookup of 10^exp; the debug assertion on line 221 makes exp <= 38 the
      caller's obligation (a larger index reads past the table). */
  function Pow10_128(exp: u32): (r: u128)
    requires exp <= 38
    ensures r == Pow10(exp)
  {
    Pow10TableCorrect();
    POW10_TABLE[exp]
  }
}

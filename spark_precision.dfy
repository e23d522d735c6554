/**
 * Result types of Spark's DECIMAL division, SUM and AVG (spark_precision.hpp). The
 * C++ computes with uint8_t: each operand is promoted to int, the arithmetic is exact,
 * and every store into a uint8_t local keeps the value modulo 256 (ToU8).
 */
module SparkPrecision {
  import opened FixedWidth

  const SPARK_MAX_PRECISION: u8 := 38
  const SPARK_MIN_ADJUSTED_SCALE: u8 := 6

  /** DECIMAL(precision, scale) */
  datatype DecimalResult = DecimalResult(precision: u8, scale: u8)

  /** A DECIMAL type as the host allows it: 1 <= p <= 38 and 0 <= s <= p. */
  predicate ValidDecimal(p: int, s: int) {
    1 <= p <= 38 && 0 <= s <= p
  }

  function Max(a: int, b: int): int { if a >= b then a else b }
  function Min(a: int, b: int): int { if a <= b then a else b }

  // ---------------------------------------------------------------------------
  // Reference rules over unbounded integers
  // ---------------------------------------------------------------------------

  /** Spark's precision cap: a precision above 38 becomes 38, keeping all integer digits
      when possible and at least min(scale, 6) fraction digits. */
  function AdjustPrecisionScale(precision: int, scale: int): (int, int) {
    if precision <= 38 then (precision, scale)
    else
      var intDigits := precision - scale;
      var minScale := Min(scale, 6);
      (38, Max(38 - intDigits, minScale))
  }

  /** Spark's division rule: scale max(6, s1 + p2 + 1), precision p1 - s1 + s2 + scale,
      then the cap. */
  function DivisionRule(p1: int, s1: int, p2: int, s2: int): (int, int) {
    var scale := Max(6, s1 + p2 + 1);
    AdjustPrecisionScale(p1 - s1 + s2 + scale, scale)
  }

  // ---------------------------------------------------------------------------
  // The functions as written
  // ---------------------------------------------------------------------------

  /** Lines 29-45. For every input, even one whose uint8_t arithmetic wraps, the
      precision is at most 38 and the scale at least 6; an adjusted result has precision
      exactly 38 and a scale of at most 38. */
  function ComputeDivisionType(p1: u8, s1: u8, p2: u8, s2: u8): (r: DecimalResult)
    ensures r.precision <= SPARK_MAX_PRECISION && r.scale >= SPARK_MIN_ADJUSTED_SCALE
    ensures var scale := Max(6, ToU8(s1 + p2 + 1));
      ToU8((p1 - s1) + s2 + scale) > SPARK_MAX_PRECISION ==>
        r.precision == SPARK_MAX_PRECISION && r.scale <= SPARK_MAX_PRECISION
  {
    var resultScale: u8 := Max(6, ToU8(s1 + p2 + 1));
    var resultPrecision := ToU8((p1 - s1) + s2 + resultScale);
    if resultPrecision > SPARK_MAX_PRECISION then
      var intDigits := ToU8(resultPrecision - resultScale);
      var minScale: u8 := Min(resultScale, SPARK_MIN_ADJUSTED_SCALE);
      var adjustedScale: u8 :=
        if SPARK_MAX_PRECISION > intDigits then Max(ToU8(SPARK_MAX_PRECISION - intDigits), minScale)
        else minScale;
      DecimalResult(SPARK_MAX_PRECISION, adjustedScale)
    else
      DecimalResult(resultPrecision, resultScale)
  }

  /** Lines 48-51: precision min(p + 10, 38) in uint8_t, scale unchanged. */
  function ComputeSumType(p: u8, s: u8): (r: DecimalResult)
    ensures r.precision <= SPARK_MAX_PRECISION && r.scale == s
    ensures p <= 28 ==> r.precision == p + 10
  {
    DecimalResult(Min(ToU8(p + 10), SPARK_MAX_PRECISION), s)
  }

  /** Lines 54-59: precision min(p + 4, 38), scale min(s + 4, 18) and never above the
      precision. */
  function ComputeAvgType(p: u8, s: u8): (r: DecimalResult)
    ensures r.precision <= SPARK_MAX_PRECISION
    ensures r.scale <= 18 && r.scale <= r.precision
  {
    var resultPrecision: u8 := Min(ToU8(p + 4), SPARK_MAX_PRECISION);
    var resultScale: u8 := Min(ToU8(s + 4), 18);
    DecimalResult(resultPrecision, Min(resultScale, resultPrecision))
  }

  /** The division kernel's exponent, thdck_spark_funcs_extension.cpp lines 107-109:
      result scale - s1 + s2, computed in uint32_t. */
  function DivisionScaleAdjustment(p1: u8, s1: u8, p2: u8, s2: u8): u32 {
    ToU32(ComputeDivisionType(p1, s1, p2, s2).scale - s1 + s2)
  }

  // ---------------------------------------------------------------------------
  // Properties
  // ---------------------------------------------------------------------------

  /** A value in 0 .. 255 is kept by the uint8_t store. */
  lemma SmallU8(x: int)
    requires 0 <= x < TWO_8
    ensures ToU8(x) == x
  {
    DivModUnique(x, TWO_8, 0, x);
  }

  /** For valid operand types no uint8_t store wraps: s1 + p2 + 1 and the unadjusted
      precision both stay below 256. */
  lemma DivisionNoWrap(p1: u8, s1: u8, p2: u8, s2: u8)
    requires ValidDecimal(p1, s1) && ValidDecimal(p2, s2)
    ensures ToU8(s1 + p2 + 1) == s1 + p2 + 1
    ensures var scale := Max(6, s1 + p2 + 1);
      ToU8((p1 - s1) + s2 + scale) == (p1 - s1) + s2 + scale
  {
    SmallU8(s1 + p2 + 1);
    SmallU8((p1 - s1) + s2 + Max(6, s1 + p2 + 1));
  }

  /** For valid operand types the uint8_t code computes Spark's rule exactly. */
  lemma DivisionTypeMatchesRule(p1: u8, s1: u8, p2: u8, s2: u8)
    requires ValidDecimal(p1, s1) && ValidDecimal(p2, s2)
    ensures var r := ComputeDivisionType(p1, s1, p2, s2);
      (r.precision as int, r.scale as int) == DivisionRule(p1, s1, p2, s2)
  {
    DivisionNoWrap(p1, s1, p2, s2);
    var scale := Max(6, s1 + p2 + 1);
    var precision := (p1 - s1) + s2 + scale;
    var intDigits := precision - scale;
    SmallU8(intDigits);
    if 38 > intDigits {
      SmallU8(38 - intDigits);
    }
  }

  /** Without adjustment the result is the unadjusted precision and scale. */
  lemma DivisionTypeUnadjusted(p1: u8, s1: u8, p2: u8, s2: u8)
    requires ValidDecimal(p1, s1) && ValidDecimal(p2, s2)
    requires (p1 - s1) + s2 + Max(6, s1 + p2 + 1) <= 38
    ensures ComputeDivisionType(p1, s1, p2, s2)
      == DecimalResult((p1 - s1) + s2 + Max(6, s1 + p2 + 1), Max(6, s1 + p2 + 1))
  {
    DivisionTypeMatchesRule(p1, s1, p2, s2);
  }

  /** With adjustment the precision is 38 and the scale is 6 when the integer digits
      alone fill 38 or more, and max(38 - integer digits, 6) otherwise. */
  lemma DivisionTypeAdjusted(p1: u8, s1: u8, p2: u8, s2: u8)
    requires ValidDecimal(p1, s1) && ValidDecimal(p2, s2)
    requires (p1 - s1) + s2 + Max(6, s1 + p2 + 1) > 38
    ensures var r := ComputeDivisionType(p1, s1, p2, s2);
      var intDigits := (p1 - s1) + s2;
      && r.precision == 38
      && (intDigits >= 38 ==> r.scale == 6)
      && (intDigits < 38 ==> r.scale == Max(38 - intDigits, 6))
  {
    DivisionTypeMatchesRule(p1, s1, p2, s2);
  }

  /** For valid operand types the scale is between 6 and the precision, which is at
      most 38. */
  lemma DivisionTypeBounds(p1: u8, s1: u8, p2: u8, s2: u8)
    requires ValidDecimal(p1, s1) && ValidDecimal(p2, s2)
    ensures var r := ComputeDivisionType(p1, s1, p2, s2);
      6 <= r.scale <= r.precision <= 38
  {
    DivisionTypeMatchesRule(p1, s1, p2, s2);
  }

  /** For valid operand types the exponent result scale - s1 + s2 is never negative, so
      the uint32_t arithmetic does not wrap; when no adjustment happens it is p2 + s2 + 1
      or more. */
  lemma ScaleAdjustmentNonNegative(p1: u8, s1: u8, p2: u8, s2: u8)
    requires ValidDecimal(p1, s1) && ValidDecimal(p2, s2)
    ensures ComputeDivisionType(p1, s1, p2, s2).scale - s1 + s2 >= 0
    ensures (p1 - s1) + s2 + Max(6, s1 + p2 + 1) <= 38 ==>
      ComputeDivisionType(p1, s1, p2, s2).scale - s1 + s2 >= p2 + s2 + 1
    ensures DivisionScaleAdjustment(p1, s1, p2, s2) == ComputeDivisionType(p1, s1, p2, s2).scale - s1 + s2
  {
    DivisionTypeMatchesRule(p1, s1, p2, s2);
    var r := ComputeDivisionType(p1, s1, p2, s2);
    var intDigits := (p1 - s1) + s2;
    // Adjusted with room for fraction digits: the scale is at least 38 - intDigits,
    // and 38 - intDigits - s1 + s2 = 38 - p1.
    assert intDigits < 38 && (p1 - s1) + s2 + Max(6, s1 + p2 + 1) > 38 ==> r.scale - s1 + s2 >= 38 - p1;
    var adj := r.scale - s1 + s2;
    assert adj >= 0;
    DivModUnique(adj, TWO_32, 0, adj);
  }

  /** The exponent is not bounded by 38: DECIMAL(1, 0) / DECIMAL(38, 38) needs 10^44. */
  lemma ScaleAdjustmentExceeds38()
    ensures ComputeDivisionType(1, 0, 38, 38) == DecimalResult(38, 6)
    ensures DivisionScaleAdjustment(1, 0, 38, 38) == 44
  {
  }

  /** Worked division types: DECIMAL(10, 2) / DECIMAL(5, 1) stays unadjusted and
      DECIMAL(38, 10) / DECIMAL(38, 10) is capped. */
  lemma DivisionTypeExamples()
    ensures ComputeDivisionType(10, 2, 5, 1) == DecimalResult(17, 8)
    ensures ComputeDivisionType(38, 10, 38, 10) == DecimalResult(38, 6)
    ensures ComputeDivisionType(38, 2, 3, 0) == DecimalResult(38, 6)
  {
  }

  /** For valid types the sum's precision is min(p + 10, 38); DECIMAL(30, 4) sums to
      DECIMAL(38, 4). */
  lemma SumTypeExact(p: u8, s: u8)
    requires ValidDecimal(p, s)
    ensures ComputeSumType(p, s) == DecimalResult(Min(p + 10, 38), s)
    ensures ComputeSumType(30, 4) == DecimalResult(38, 4)
  {
  }

  /** For valid types the average is DECIMAL(min(p + 4, 38), min(s + 4, 18)): the cap by
      the precision never bites because s <= p. DECIMAL(30, 4) averages to DECIMAL(34, 8). */
  lemma AvgTypeExact(p: u8, s: u8)
    requires ValidDecimal(p, s)
    ensures ComputeAvgType(p, s) == DecimalResult(Min(p + 4, 38), Min(s + 4, 18))
    ensures ComputeAvgType(30, 4) == DecimalResult(34, 8)
  {
  }

  /** The average keeps at least the input's fraction digits exactly when s <= 18, so
      result scale - input scale (spark_aggregates.hpp lines 284-285) is a natural
      exactly then. */
  lemma AvgScaleCoversInput(p: u8, s: u8)
    requires ValidDecimal(p, s)
    ensures ComputeAvgType(p, s).scale >= s <==> s <= 18
  {
    AvgTypeExact(p, s);
  }
}

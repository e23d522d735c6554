# Spark DECIMAL arithmetic for DuckDB — a Dafny model

This project models the numeric core of a DuckDB extension that reproduces Spark's
DECIMAL semantics:

- the 128/256-bit integer toolkit (`hugeint_t` conversions, `Abs128`, `Mul128`,
  `Div256By128`, the `Pow10_128` table);
- the HALF_UP decimal division kernel `SparkDecimalDivide`;
- the Spark rules for the result types of division, SUM and AVG;
- the aggregate states of `spark_sum` (DECIMAL and integer) and `spark_avg` (DECIMAL).

C++'s fixed-width integers are subset types of `int` (`u8` … `u128`, `i64`, `i128`).
Every cast or store that can wrap is written out as reduction modulo 2^w (`ToU8`,
`ToU32`, `ToU64`, `ToU128`). Signed reinterpretation is two's complement (`ToI64`,
`ToI128`). A shift left is multiplication, a shift right is floor division, `|` is
`BitOr` on naturals, and `x & (1 << i)` is `BitSet`.

Modules:

- `FixedWidth` (`fixed_width.dfy`): the widths, the casts, and the arithmetic lemmas the
  proofs share.
- `WideInteger` (`wide_integer.dfy`): `hugeint_t` ↔ `__int128`, `Abs128`, `uint256_t` and
  `Mul128`.
  - `Div256By128` is a method with the source's two 64-step loops, proved against the
    recursive function `ShiftSubtract`, which is the loop as written.
  - The `*remainder` out-pointer is a nullable `Uint128Cell`.
  - `Pow10_128` is the literal table, proved equal to 10^k.
- `DecimalDivision` (`decimal_division.dfy`): the reference rule `SparkDivide`, which is
  |a|·10^k / |b| rounded half away from zero with the sign of a·b. `SparkDecimalDivide`
  is a method with the source's fast, slow and unscaled paths, proved to return that
  rule read as `__int128`.
- `SparkPrecision` (`spark_precision.dfy`): the three result-type functions on `uint8_t`,
  proved against reference rules over unbounded integers.
- `SparkAggregates` (`spark_aggregates.dfy`): one class per state struct. Each method is
  specified by an abstract state (`SumSpec`, `AvgSpec`) and a transition function. The
  lemmas relate those transitions to folding the rows one at a time.

## Model

| member | source | states |
|---|---|---|
| WideInteger.HugeintToInt128 | src/include/wide_integer.hpp:12-14 | the `__int128` built from a `hugeint_t` has the value upper·2^64 + lower |
| WideInteger.Int128ToHugeint | src/include/wide_integer.hpp:16-21 | the upper limb is v / 2^64 (floor, arithmetic shift) and the lower limb is v mod 2^64 |
| WideInteger.ShiftedUpperBits | src/include/wide_integer.hpp:13 | shifting the sign-extended upper limb by 64 bits and OR-ing in the lower limb gives upper·2^64 + lower as bits and as a signed value |
| WideInteger.UpperLimbInRange | src/include/wide_integer.hpp:18 | v >> 64 of any `__int128` fits an `int64_t`, so the cast there is lossless |
| WideInteger.HugeintRoundTrip | src/include/wide_integer.hpp:12-21 | converting a `hugeint_t` to `__int128` and back returns the same limbs |
| WideInteger.Int128RoundTrip | src/include/wide_integer.hpp:12-21 | converting an `__int128` to `hugeint_t` and back returns the same value, for every signed 128-bit value |
| WideInteger.Abs128 | src/include/wide_integer.hpp:27-29 | the unsigned result is \|x\| for every x, including 2^127 for x = -2^127 |
| WideInteger.AddCarry | src/include/wide_integer.hpp:55-60 | a 128-bit sum wrapped below its first addend exactly when the true sum reached 2^128 (the comparison carry test) |
| WideInteger.LimbProduct | src/include/wide_integer.hpp:48-52 | the product of two 64-bit limbs fits in 128 bits |
| WideInteger.Mul128 | src/include/wide_integer.hpp:42-66 | no contract of its own: the limb split and the four partial products as written; `Mul128Exact` states that the result is a·b |
| WideInteger.SumPartials | src/include/wide_integer.hpp:54-65 | no contract of its own: the wrapped middle sum, the two comparison carries and the wrapped halves as written; `SumPartialsExact` and `PartialCarries` state what it computes |
| WideInteger.Mul128Exact | src/include/wide_integer.hpp:42-66 | hi·2^128 + lo equals a·b for all 128-bit a and b: the two detected carries account for every wrap |
| WideInteger.SumPartialsExact | src/include/wide_integer.hpp:54-65 | accumulating the four partial products with the mid and lo carries yields p3·2^128 + (p1+p2)·2^64 + p0 whenever that is below 2^256 |
| WideInteger.PartialCarries | src/include/wide_integer.hpp:55-63 | the un-wrapped high half times 2^128 plus the low half is the exact weighted sum of the partial products |
| WideInteger.Mul128Parts | src/include/wide_integer.hpp:43-52 | the four limb products recombine to a·b, and `Mul128` is their accumulation |
| WideInteger.Mul128SmallOperands | src/include/wide_integer.hpp:42-66 | for operands below 2^64 the high half is 0 and the low half is the product |
| WideInteger.Shifted | src/include/wide_integer.hpp:135-138 | no contract of its own: `rem <<= 1` with the 128-bit wrap, then `rem \|= 1` for a set bit; `ShiftedValue` states its value |
| WideInteger.Step | src/include/wide_integer.hpp:135-142 | no contract of its own: one loop iteration as written; `StepFacts` ties it to the loop body and `CarryStepRem` to the true doubled remainder |
| WideInteger.ShiftSubtract | src/include/wide_integer.hpp:134-155 | no contract of its own: one 64-step pass as written, the specification of `ShiftSubtractLoop`; `ShiftSubtractAgrees` shows it is exact for den ≤ 2^127 and `DoublingWraps` that it is not above |
| WideInteger.Run | src/include/wide_integer.hpp:134-155 | no contract of its own: the first k iterations of a pass, the loop invariant of `ShiftSubtractLoop`; `RunThenRest` composes it with the rest of the pass |
| WideInteger.RunThenRest | src/include/wide_integer.hpp:134-143 | running k iterations of the loop and then the remaining 64-k gives the whole pass |
| WideInteger.ShiftedValue | src/include/wide_integer.hpp:135-138 | `rem <<= 1` then `rem \|= 1` is 2·rem + bit when rem < 2^127, and 2^128 less when rem ≥ 2^127 |
| WideInteger.CarryStepRem | src/include/wide_integer.hpp:135-142 | with the lost top bit taken into account, one step subtracts den exactly when the true doubled remainder reaches den, and the new remainder stays below den |
| WideInteger.CarryPassStep | src/include/wide_integer.hpp:134-155 | one carrying step sets quotient bit n-1+offset iff it subtracts, and keeps rem < den and the low quotient bits clear |
| WideInteger.PassValueStep | src/include/wide_integer.hpp:134-155 | one step preserves the remainder and the weighted quotient of rem·2^n + (the unprocessed bits) by den |
| WideInteger.ShiftSubtractCarryExact | src/include/wide_integer.hpp:130-155 | a pass of binary long division with the carry kept gives exactly the quotient and remainder of rem·2^n + the n bits, for any divisor above rem |
| WideInteger.ShiftSubtractAgrees | src/include/wide_integer.hpp:130-155 | for den ≤ 2^127 the loop as written (the doubling may wrap) equals the carrying division, because rem < 2^127 throughout |
| WideInteger.DoublingWraps | src/include/wide_integer.hpp:134-143 | with den = 2^128-1 and zero bits the remainder as written only doubles modulo 2^128 and never subtracts |
| WideInteger.DoublingStep | src/include/wide_integer.hpp:135-142 | one step from 2^j with den = 2^128-1 and a zero bit reaches 2^(j+1) mod 2^128 without subtracting |
| WideInteger.LongDivision | src/include/wide_integer.hpp:108-155 | no contract of its own: the split of lo into lo_hi and lo_lo and the two passes as written; `AsWrittenDoublesAway` shows where it fails |
| WideInteger.Div256By128Result | src/include/wide_integer.hpp:81-161 | no contract of its own: the two cases, lo / den and lo % den when hi = 0 and `LongDivision` otherwise; `Div256By128Exact` states it is exact and `Div256By128WrapsAbove2To127` where it is not |
| WideInteger.LongDivisionCarryExact | src/include/wide_integer.hpp:130-160 | the corrected two-pass division gives q·den + r = num and r < den, with q < 2^128, for every den above num.hi |
| WideInteger.UpperPassBounds | src/include/wide_integer.hpp:133-143 | after the upper pass rem < den, the quotient fits 128 bits and only its top 64 bits can be set |
| WideInteger.DigitQuotientBound | src/include/wide_integer.hpp:121-122 | (r·2^64 + digit) / den is below 2^64 when r < den: each pass yields one 64-bit quotient digit |
| WideInteger.QuotientFits | src/include/wide_integer.hpp:94 | when num.hi < den every quotient of num by den fits in 128 bits |
| WideInteger.TwoPassValue | src/include/wide_integer.hpp:130-160 | the two exact passes compose to q·den + r = num with r < den |
| WideInteger.TwoDigitDivision | src/include/wide_integer.hpp:101-104 | dividing the digits hi, lo_hi, lo_lo by schoolbook carries remainders correctly |
| WideInteger.WordPass | src/include/wide_integer.hpp:134-155 | an exact 64-step pass over word x leaves (rem·2^64 + x) mod den in rem and adds (rem·2^64 + x) / den at the offset |
| WideInteger.Div256By128Exact | src/include/wide_integer.hpp:81-161 | the quotient and remainder satisfy q·den + r = num and r < den, on the fast path (num.hi = 0) for every den and on the loop path for den ≤ 2^127 above num.hi |
| WideInteger.Div256By128WrapsAbove2To127 | src/include/wide_integer.hpp:128-155 | as written, num = 2^128 and den = 2^128-1 give (0, 0) instead of (1, 1), so the arbitrary-divisor claim fails |
| WideInteger.AsWrittenDoublesAway | src/include/wide_integer.hpp:130-155 | the loops as written on num = 2^128, den = 2^128-1 end with quotient 0 and remainder 0 |
| WideInteger.CarryDividesExample | src/include/wide_integer.hpp:130-155 | the carrying division on the same input gives quotient 1 and remainder 1 |
| WideInteger.StepFacts | src/include/wide_integer.hpp:135-142 | the body's shift, bit-or and conditional subtract compute exactly one `Step`, and the OR-ed quotient bit was clear |
| WideInteger.ShiftSubtractLoop | src/include/wide_integer.hpp:134-155 | the 64-iteration loop leaves quot and rem equal to the pass `ShiftSubtract` as written, with the quotient bits below the offset clear; it keeps rem < den on every iteration, for every divisor |
| WideInteger.StepKeepsRemBelow | src/include/wide_integer.hpp:135-142 | one iteration as written keeps rem < den for every divisor, including after the doubling wrapped |
| WideInteger.Div256By128 | src/include/wide_integer.hpp:81-161 | returns the quotient of the two-case algorithm and writes its remainder through a non-null pointer only; a null pointer is never written |
| WideInteger.MakeUint128 | src/include/wide_integer.hpp:168-170 | the joined value is hi·2^64 + lo |
| WideInteger.JoinedLimbs | src/include/wide_integer.hpp:168-170 | hi << 64 \| lo does not wrap and equals hi·2^64 + lo |
| WideInteger.Pow10TableCorrect | src/include/wide_integer.hpp:176-218 | every one of the 39 hi/lo literal pairs is 10^k |
| WideInteger.Pow10Ladder | src/include/wide_integer.hpp:183-213 | the decimal values of 10^4, 10^9, …, 10^34 on which the table rows rest |
| WideInteger.Pow10TableRows0To4 | src/include/wide_integer.hpp:178-182 | table rows 0-4 are 10^0 … 10^4 |
| WideInteger.Pow10TableRows5To9 | src/include/wide_integer.hpp:183-187 | table rows 5-9 are 10^5 … 10^9 |
| WideInteger.Pow10TableRows10To14 | src/include/wide_integer.hpp:188-192 | table rows 10-14 are 10^10 … 10^14 |
| WideInteger.Pow10TableRows15To19 | src/include/wide_integer.hpp:193-197 | table rows 15-19 are 10^15 … 10^19 |
| WideInteger.Pow10TableRows20To24 | src/include/wide_integer.hpp:199-203 | table rows 20-24, the first with both halves, are 10^20 … 10^24 |
| WideInteger.Pow10TableRows25To29 | src/include/wide_integer.hpp:204-208 | table rows 25-29 are 10^25 … 10^29 |
| WideInteger.Pow10TableRows30To34 | src/include/wide_integer.hpp:209-213 | table rows 30-34 are 10^30 … 10^34 |
| WideInteger.Pow10TableRows35To38 | src/include/wide_integer.hpp:214-217 | table rows 35-38 are 10^35 … 10^38 |
| WideInteger.Pow10_128 | src/include/wide_integer.hpp:174-223 | for every exponent up to 38 the lookup returns 10^exp |
| DecimalDivision.HalfUpIsFloorOfHalfAdded | src/include/decimal_division.hpp:46-53 | floor(n/d) plus one when 2·(n mod d) ≥ d is floor((2n + d) / 2d), that is n/d rounded half up |
| DecimalDivision.HalfUpWithinHalf | src/include/decimal_division.hpp:46-53 | the rounded magnitude m is within half a unit of n/d: m·d - d/2 ≤ n < m·d + d/2 |
| DecimalDivision.HalfUpUnique | src/include/decimal_division.hpp:46-53 | that half-unit window determines the rounded magnitude uniquely |
| DecimalDivision.HalfUpMidpointRoundsUp | src/include/decimal_division.hpp:46-53 | an exact midpoint q + 1/2 rounds up to q + 1, never to even |
| DecimalDivision.SparkDivideSign | src/include/decimal_division.hpp:16-18 | a negative result only when the signs differ, a positive one only when they agree, and the magnitude is the rounded \|a\|·10^k / \|b\| |
| DecimalDivision.HalfUpExact | src/include/decimal_division.hpp:46-53 | an exact quotient is returned unchanged |
| DecimalDivision.HalfUpOfZero | src/include/decimal_division.hpp:46-53 | a zero dividend gives zero |
| DecimalDivision.SparkDivideOdd | src/include/decimal_division.hpp:16-18 | negating either operand negates the result, because the sign is applied after rounding |
| DecimalDivision.SparkDivideUnscaled | src/include/decimal_division.hpp:23-26 | with exponent 0 the magnitude is \|a\| / \|b\| truncated plus the rounding increment |
| DecimalDivision.SparkDivideExamples | src/include/decimal_division.hpp:14-58 | 12345 / 200 at exponent 8 gives 6172500000; ±5 / 2 gives ±3; 1/3 at exponent 1 gives 3; 2/3 gives 1 |
| DecimalDivision.OverflowTestExact | src/include/decimal_division.hpp:31-32 | the overflow test holds exactly when \|a\|·10^k exceeds 2^128 - 1 |
| DecimalDivision.SlowPathExact | src/include/decimal_division.hpp:40-42 | on the slow path `Div256By128` of `Mul128` returns the exact quotient and remainder of \|a\|·10^k by \|b\| |
| DecimalDivision.DivideWide | src/include/decimal_division.hpp:41-42 | a 256-bit dividend below \|b\|·2^128 meets `Div256By128`'s precondition and its quotient and remainder are exact |
| DecimalDivision.RoundingStep | src/include/decimal_division.hpp:50-53 | `remainder * 2` does not wrap when the divisor is at most 2^127, and the test adds one exactly when 2·rem ≥ \|b\| |
| DecimalDivision.RoundingExact | src/include/decimal_division.hpp:46-53 | the conditional `quotient++` turns the floor quotient into the half-up magnitude, modulo 2^128 |
| DecimalDivision.SignExact | src/include/decimal_division.hpp:56-57 | casting the magnitude to `__int128` and negating when the signs differ gives the reference result read as `__int128` |
| DecimalDivision.SignStep | src/include/decimal_division.hpp:56-57 | reinterpreting and negating in 128 bits commutes with negating first |
| DecimalDivision.FitsPathExact | src/include/decimal_division.hpp:35-38 | on the fast path the 128-bit product is not truncated, so `/` and `%` give the exact quotient and remainder |
| DecimalDivision.ScaledDivision | src/include/decimal_division.hpp:20-44 | all three paths (unscaled, fast, slow) return the exact quotient and remainder of \|a\|·10^k by \|b\| |
| DecimalDivision.SparkDecimalDivide | src/include/decimal_division.hpp:14-58 | the result is the half-up reference division read as `__int128`, and is exactly the reference whenever that fits |
| SparkPrecision.ComputeDivisionType | src/include/spark_precision.hpp:29-45 | for every `uint8_t` input, wrapping or not, precision ≤ 38 and scale ≥ 6; when the adjustment runs the precision is exactly 38 and the scale at most 38 |
| SparkPrecision.ComputeSumType | src/include/spark_precision.hpp:48-51 | precision at most 38 and scale unchanged; p + 10 when p ≤ 28 |
| SparkPrecision.ComputeAvgType | src/include/spark_precision.hpp:54-59 | precision at most 38, and scale at most 18 and at most the precision |
| SparkPrecision.DivisionScaleAdjustment | src/thdck_spark_funcs_extension.cpp:107-109 | no contract of its own: result_scale − s1 + s2 in `uint32_t`; `ScaleAdjustmentNonNegative` states it does not wrap for valid types and `ScaleAdjustmentExceeds38` that it can exceed 38 |
| SparkPrecision.SmallU8 | src/include/spark_precision.hpp:30-31 | a value below 256 survives a `uint8_t` store |
| SparkPrecision.DivisionNoWrap | src/include/spark_precision.hpp:30-31 | for valid operand types neither s1 + p2 + 1 nor the unadjusted precision wraps in `uint8_t` |
| SparkPrecision.DivisionTypeMatchesRule | src/include/spark_precision.hpp:29-45 | for valid operand types the `uint8_t` code computes Spark's division rule with the 38 cap and the minimum scale 6 |
| SparkPrecision.DivisionTypeUnadjusted | src/include/spark_precision.hpp:30-33 | within 38 digits the result is precision (p1-s1)+s2+scale with scale max(6, s1+p2+1) |
| SparkPrecision.DivisionTypeAdjusted | src/include/spark_precision.hpp:33-42 | above 38 digits the precision is 38, and the scale is 6 when the integer digits reach 38 and max(38 - int_digits, 6) otherwise |
| SparkPrecision.DivisionTypeBounds | src/include/spark_precision.hpp:29-45 | for valid operand types 6 ≤ scale ≤ precision ≤ 38 |
| SparkPrecision.ScaleAdjustmentNonNegative | src/thdck_spark_funcs_extension.cpp:107-109 | the exponent result_scale − s1 + s2 is never negative, so its `uint32_t` computation does not wrap |
| SparkPrecision.ScaleAdjustmentExceeds38 | src/thdck_spark_funcs_extension.cpp:105-109 | DECIMAL(1,0) / DECIMAL(38,38) gives DECIMAL(38,6) and exponent 44, beyond the table |
| SparkPrecision.DivisionTypeExamples | src/include/spark_precision.hpp:29-45 | (10,2)/(5,1) gives (17,8); (38,10)/(38,10) and (38,2)/(3,0) give (38,6) |
| SparkPrecision.SumTypeExact | src/include/spark_precision.hpp:48-51 | for valid types the sum is DECIMAL(min(p+10, 38), s); (30,4) gives (38,4) |
| SparkPrecision.AvgTypeExact | src/include/spark_precision.hpp:54-59 | for valid types the average is DECIMAL(min(p+4, 38), min(s+4, 18)); (30,4) gives (34,8) |
| SparkPrecision.AvgScaleCoversInput | src/include/spark_aggregates.hpp:284-285 | the average's scale reaches the input scale exactly when s ≤ 18, so result_scale − input_scale does not underflow exactly then |
| SparkAggregates.SumAppend | src/include/spark_aggregates.hpp:66-71 | the sum of a concatenation is the sum of the parts |
| SparkAggregates.SumRowsValue | src/include/spark_aggregates.hpp:83-86 | folding rows gives isset iff some row was seen, and their sum |
| SparkAggregates.SumRowsResult | src/include/spark_aggregates.hpp:100-107 | finalize after the rows is NULL iff there were none, else their sum |
| SparkAggregates.SumMergeRows | src/include/spark_aggregates.hpp:66-71 | combining the states of two row sets is the state of their concatenation |
| SparkAggregates.SumConstantIsRepeated | src/include/spark_aggregates.hpp:89-92 | ConstantOperation(x, n), with n cast to `int64_t` as the code does, equals n Operations(x) for 1 ≤ n < 2^63 |
| SparkAggregates.SumConstantCastWraps | src/include/spark_aggregates.hpp:91 | at n = 2^63 the `int64_t` cast gives −2^63, so the constant update no longer equals n single-row updates |
| SparkAggregates.SumMergeIdentity | src/include/spark_aggregates.hpp:61-71 | combining with a fresh state on either side changes nothing |
| SparkAggregates.SumMergeLaws | src/include/spark_aggregates.hpp:66-71 | combine keeps reachability and is commutative and associative |
| SparkAggregates.SparkSumDecimalState.Initialize | src/include/spark_aggregates.hpp:61-64 | a fresh state is unset with value 0 |
| SparkAggregates.SparkSumDecimalState.Operation | src/include/spark_aggregates.hpp:83-86 | marks the state set and adds the input |
| SparkAggregates.SparkSumDecimalState.ConstantOperation | src/include/spark_aggregates.hpp:89-92 | marks the state set and adds input · count, with count cast to `int64_t` |
| SparkAggregates.SparkSumDecimalState.Combine | src/include/spark_aggregates.hpp:66-71 | an unset source leaves the target unchanged; otherwise the target is set and the values added |
| SparkAggregates.SparkSumDecimalState.Finalize | src/include/spark_aggregates.hpp:100-107 | NULL iff unset, otherwise the accumulated value |
| SparkAggregates.SparkSumIntegerState.Initialize | src/include/spark_aggregates.hpp:175-178 | a fresh state is unset with value 0 |
| SparkAggregates.SparkSumIntegerState.Operation | src/include/spark_aggregates.hpp:195-198 | marks the state set and adds the input |
| SparkAggregates.SparkSumIntegerState.ConstantOperation | src/include/spark_aggregates.hpp:201-204 | marks the state set and adds input · count, with count cast to `int64_t` |
| SparkAggregates.SparkSumIntegerState.Combine | src/include/spark_aggregates.hpp:180-185 | an unset source leaves the target unchanged; otherwise the target is set and the values added |
| SparkAggregates.SparkSumIntegerState.Finalize | src/include/spark_aggregates.hpp:212-218 | NULL iff unset, otherwise the accumulated `int64_t` |
| SparkAggregates.AddMod64 | src/include/spark_aggregates.hpp:243-264 | adding to a `uint64_t` counter wraps the same however the additions are grouped |
| SparkAggregates.AvgRowsValue | src/include/spark_aggregates.hpp:257-260 | folding rows gives their sum and their number modulo 2^64 |
| SparkAggregates.AvgRowsResult | src/include/spark_aggregates.hpp:275-293 | finalize after fewer than 2^64 rows is NULL iff there were none, else the half-up division of their sum by their number |
| SparkAggregates.AvgRoundsMean | src/include/spark_aggregates.hpp:287-291 | the average's magnitude is within half a unit of \|sum\|·10^k / count |
| SparkAggregates.AvgMergeRows | src/include/spark_aggregates.hpp:242-245 | combining the states of two row sets is the state of their concatenation |
| SparkAggregates.AvgConstantIsRepeated | src/include/spark_aggregates.hpp:263-266 | ConstantOperation(x, n) equals n Operations(x) for 1 ≤ n < 2^63 |
| SparkAggregates.AvgMergeIdentity | src/include/spark_aggregates.hpp:237-245 | combining with a fresh state on either side changes nothing |
| SparkAggregates.AvgMergeLaws | src/include/spark_aggregates.hpp:242-245 | combine is commutative and associative, including the wrapping count |
| SparkAggregates.SparkAvgDecimalState.Initialize | src/include/spark_aggregates.hpp:237-240 | a fresh state has count 0 and sum 0 |
| SparkAggregates.SparkAvgDecimalState.Operation | src/include/spark_aggregates.hpp:257-260 | count goes up by one modulo 2^64 and the input is added to the sum |
| SparkAggregates.SparkAvgDecimalState.ConstantOperation | src/include/spark_aggregates.hpp:263-266 | count goes up by n modulo 2^64 and input · n is added to the sum, with n cast to `int64_t` |
| SparkAggregates.SparkAvgDecimalState.Combine | src/include/spark_aggregates.hpp:242-245 | both fields are added componentwise |
| SparkAggregates.SparkAvgDecimalState.Finalize | src/include/spark_aggregates.hpp:273-294 | NULL iff count is 0, otherwise the half-up division of sum by count at exponent result_scale − input_scale |
| SparkAggregates.Pow10MultipleOfPow2 | src/include/spark_aggregates.hpp:290 | 10^k is a multiple of 2^j for j ≤ k |
| SparkAggregates.PowerPassedAsExponent | src/include/spark_aggregates.hpp:290-291 | no contract of its own: the value the code passes as the exponent, `Pow10_128(scale_adj)` truncated to `uint32_t` and 0 for scale_adj = 0; the lemmas below state what it is |
| SparkAggregates.PowerPassedIsNotExponent | src/include/spark_aggregates.hpp:290-291 | for every exponent 1..38 the value passed as the exponent (10^k truncated to `uint32_t`) differs from k |
| SparkAggregates.PowerPassedValue | src/include/spark_aggregates.hpp:290-291 | the value passed is 10^k modulo 2^32 |
| SparkAggregates.PowerPassedBeyondTable | src/include/spark_aggregates.hpp:290-291 | for k in 2..9 the value passed is 10^k itself, beyond the table's bound of 38 |
| SparkAggregates.PowerPassedExamples | src/include/spark_aggregates.hpp:290-291 | exponent 0 passes 0; exponent 32 passes 10^32 mod 2^32 = 0 |

## Left out

- Extension loading and registration, including the `/` operator overload, the
  function sets and the entry points. They hold no arithmetic.
- The `SparkDivExec` row loops over DuckDB vectors, selection vectors and validity masks.
  A NULL operand or b = 0 becomes NULL before the kernel runs; the kernel's
  precondition b ≠ 0 records this.
- The bind functions' use of the DuckDB type API, the switch on the physical result
  width, and the `Copy`/`Equals` methods of `SparkDivBindData` and `SparkAggBindData`.
  The bind data are plain parameters here: `inputScale` and `resultScale` of the average's
  Finalize, and the exponent of `SparkDecimalDivide`.
- `hugeint_t` `+=` and `*` are DuckDB library code that throws on overflow. They are
  modelled as exact additions under a no-overflow precondition on each state method.
- `WriteResult`/`WriteAggResult` narrowing to `int16_t`/`int32_t`/`int64_t`.
  - The Finalize methods model only the `hugeint_t` target.
  - This is the `Int128ToHugeint` conversion; its round trip with `HugeintToInt128` is
    proved.
- `Hugeint::Convert` and `hugeint_t(input)` are DuckDB conversions, modelled as the
  exact integer.
- `D_ASSERT` is a precondition, not a runtime check: num.hi < den for `Div256By128` and
  exp ≤ 38 for `Pow10_128`.
- SparkSumIntegerState.Operation, SparkSumIntegerState.ConstantOperation,
  SparkSumIntegerState.Combine: each requires that the `int64_t` update does not
  overflow. In the source an overflowing `int64_t` `+=` or `*` is undefined behaviour
  and does not throw; the model does not capture what happens then.
- Parallel aggregation. Combine is a sequential binary merge.
- Div256By128: the two loops of lines 134-155 are one method, `ShiftSubtractLoop`, called
  once per 64-bit half with the quotient bit offset (64, then 0) as a parameter.
- SparkDecimalDivide: requires |a|·10^k < |b|·2^128.
  - This is exactly `Div256By128`'s `D_ASSERT` (quotient fits in 128 bits), and the fast
    path always meets it.
  - It also requires |b| ≤ 2^127. For an `__int128` b that always holds, and it is the
    range where the loops as written are exact.
- SparkDecimalDivide: negating the result −2^127 is undefined behaviour in C++. It is
  modelled as two's-complement wrap (`ToI128`), and so is the final `quotient++` should it
  pass 2^128 − 1.
- SparkDecimalDivide: the exponent k ≤ 38 is a precondition (`Pow10_128`'s bound).
  Division types can need up to 44 (`ScaleAdjustmentExceeds38`); that case is not
  modelled.
- SparkAvgDecimalState.Finalize:
  - It requires inputScale ≤ resultScale, because the `uint32_t` subtraction of lines
    284-285 would underflow otherwise (see `AvgScaleCoversInput`).
  - It requires the `Div256By128` bound above for the sum and count.
  - It passes the exponent, not the power of ten of line 290 (see Findings).

## Findings

| source | as written | input that shows it | evidently intended | confidence | as-written member | corrected member |
|---|---|---|---|---|---|---|
| src/include/wide_integer.hpp:128-155 | `rem <<= 1` drops the top bit of the remainder, although the comment promises correctness for arbitrary 128-bit divisors | num = 2^128 (hi = 1, lo = 0), den = 2^128 − 1: the loops return quotient 0 and remainder 0 instead of 1 and 1 | keep the shifted-out bit as a carry: subtract when the carry is set or rem ≥ den | not executed | WideInteger.Div256By128WrapsAbove2To127 | WideInteger.LongDivisionCarryExact |
| src/include/spark_aggregates.hpp:290-291 (also src/thdck_spark_funcs_extension.cpp:45,78) | passes `Pow10_128(scale_adj)`, truncated to `uint32_t`, as the exponent argument of `SparkDecimalDivide`; src/spark_decimal_div_extension.cpp:73 passes the exponent itself | scale_adj = 2: the kernel receives 100 and hits `Pow10_128`'s bound of 38; scale_adj = 32 passes 0, so no scaling happens | pass scale_adj as the exponent | not executed | SparkAggregates.PowerPassedAsExponent | SparkAggregates.SparkAvgDecimalState.Finalize |

The first finding does not reach the division kernel: `|b|` of an `__int128` is at most
2^127, and for such divisors the loops as written equal the carrying division
(`ShiftSubtractAgrees`).

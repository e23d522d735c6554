/**
 * The accumulators of spark_sum and spark_avg (spark_aggregates.hpp). Each aggregate
 * state is a class whose fields the host's update, combine and finalize callbacks
 * change in place; its meaning is a value of a small specification datatype, and the
 * algebra of those values (what a sequence of rows folds to, how partial states
 * merge) is proved once on the values.
 *
 * DuckDB's hugeint_t arithmetic throws on overflow and int64_t overflow is undefined,
 * so every addition and multiplication into a state carries a no-overflow
 * precondition; the uint64_t row count wraps modulo 2^64 as written.
 */
module SparkAggregates {
  import opened FixedWidth
  import opened WideInteger
  import opened DecimalDivision

  datatype Option<T> = None | Some(value: T)

  // ---------------------------------------------------------------------------
  // Rows
  // ---------------------------------------------------------------------------

  /** The sum of the rows, added from the first. */
  function Sum(rows: seq<int>): int
    decreases |rows|
  {
    if |rows| == 0 then 0 else Sum(rows[..|rows| - 1]) + rows[|rows| - 1]
  }

  lemma {:induction false} SumAppend(a: seq<int>, b: seq<int>)
    ensures Sum(a + b) == Sum(a) + Sum(b)
    decreases |b|
  {
    if |b| == 0 {
      assert a + b == a;
    } else {
      var b' := b[..|b| - 1];
      assert (a + b)[..|a + b| - 1] == a + b';
      SumAppend(a, b');
    }
  }

  // ---------------------------------------------------------------------------
  // The sum specification (shared by the DECIMAL and the integer sum)
  // ---------------------------------------------------------------------------

  /** A sum state's meaning: whether a row was seen and the running total. */
  datatype SumSpec = SumSpec(isset: bool, total: int)

  /** The states an aggregate can reach: an unset state still holds zero. */
  predicate SumReachable(s: SumSpec) {
    !s.isset ==> s.total == 0
  }

  function SumInit(): SumSpec { SumSpec(false, 0) }

  /** One row: mark set and add it. */
  function SumStep(s: SumSpec, x: int): SumSpec { SumSpec(true, s.total + x) }

  /** One constant vector: mark set and add x * m, where m is the row count as the
      code passes it. */
  function SumConstant(s: SumSpec, x: int, m: int): SumSpec { SumSpec(true, s.total + x * m) }

  /** Merging a source into a target: an unset source changes nothing. */
  function SumMerge(target: SumSpec, source: SumSpec): SumSpec {
    if source.isset then SumSpec(true, target.total + source.total) else target
  }

  /** Finalize: NULL for an unset state, else the total. */
  function SumResult(s: SumSpec): Option<int> {
    if s.isset then Some(s.total) else None
  }

  /** The reference: rows folded one at a time from the initial state. */
  function SumRows(rows: seq<int>): SumSpec
    decreases |rows|
  {
    if |rows| == 0 then SumInit() else SumStep(SumRows(rows[..|rows| - 1]), rows[|rows| - 1])
  }

  /** n single-row updates with the same x. */
  function SumRepeat(s: SumSpec, x: int, n: nat): SumSpec
    decreases n
  {
    if n == 0 then s else SumStep(SumRepeat(s, x, n - 1), x)
  }

  /** Folding rows gives isset exactly when there is a row, and their sum. */
  lemma {:induction false} SumRowsValue(rows: seq<int>)
    ensures SumRows(rows) == SumSpec(|rows| > 0, Sum(rows))
    decreases |rows|
  {
    if |rows| > 0 {
      SumRowsValue(rows[..|rows| - 1]);
    }
  }

  /** The aggregate of a group is NULL for no rows and the sum of the rows otherwise. */
  lemma SumRowsResult(rows: seq<int>)
    ensures SumResult(SumRows(rows)) == if |rows| == 0 then None else Some(Sum(rows))
  {
    SumRowsValue(rows);
  }

  /** Merging the states of two partitions gives the state of all their rows, so the
      result does not depend on how the rows were split. */
  lemma SumMergeRows(a: seq<int>, b: seq<int>)
    ensures SumMerge(SumRows(a), SumRows(b)) == SumRows(a + b)
  {
    SumRowsValue(a);
    SumRowsValue(b);
    SumRowsValue(a + b);
    SumAppend(a, b);
  }

  /** Adding x * n at once is n single-row updates, for the uncast n >= 1. */
  lemma {:induction false} SumConstantRepeats(s: SumSpec, x: int, n: nat)
    requires n >= 1
    ensures SumConstant(s, x, n) == SumRepeat(s, x, n)
    decreases n
  {
    if n > 1 {
      SumConstantRepeats(s, x, n - 1);
      MulSucc(n - 1, x);
      assert x * n == x * (n - 1) + x;
    }
  }

  /** A constant vector of n rows, 1 <= n < 2^63 so that int64_t(n) == n, has the effect
      of n single-row updates. */
  lemma SumConstantIsRepeated(s: SumSpec, x: int, n: u64)
    requires 1 <= n < TWO_63
    ensures SumConstant(s, x, ToI64(n)) == SumRepeat(s, x, n)
  {
    assert ToI64(n) == n;
    SumConstantRepeats(s, x, n);
  }

  /** From 2^63 rows on, the int64_t cast makes the constant update differ from the
      repeated one: one row of 1 repeated 2^63 times adds -2^63. */
  lemma SumConstantCastWraps(s: SumSpec)
    ensures ToI64(TWO_63) == -TWO_63
    ensures SumConstant(s, 1, ToI64(TWO_63)) != SumRepeat(s, 1, TWO_63)
  {
    SumConstantRepeats(s, 1, TWO_63);
  }

  /** Merging with a fresh state, on either side, changes nothing. */
  lemma SumMergeIdentity(s: SumSpec)
    requires SumReachable(s)
    ensures SumMerge(s, SumInit()) == s && SumMerge(SumInit(), s) == s
  {
  }

  /** Merging is commutative and associative on reachable states, and keeps them
      reachable. */
  lemma SumMergeLaws(a: SumSpec, b: SumSpec, c: SumSpec)
    requires SumReachable(a) && SumReachable(b) && SumReachable(c)
    ensures SumReachable(SumMerge(a, b))
    ensures SumMerge(a, b) == SumMerge(b, a)
    ensures SumMerge(SumMerge(a, b), c) == SumMerge(a, SumMerge(b, c))
  {
  }

  // ---------------------------------------------------------------------------
  // spark_sum on DECIMAL: the hugeint_t state (lines 57-112)
  // ---------------------------------------------------------------------------

  class SparkSumDecimalState {
    var value: Hugeint
    var isset: bool

    function Abstract(): SumSpec
      reads this
    {
      SumSpec(isset, HugeintToInt128(value))
    }

    /** Lines 61-64 */
    constructor Initialize()
      ensures Abstract() == SumInit()
    {
      isset := false;
      value := Int128ToHugeint(0);
      new;
      Int128RoundTrip(0);
    }

    /** Lines 83-86: `state.value += hugeint_t(input)`. */
    method Operation(input: Hugeint)
      requires InI128(HugeintToInt128(value) + HugeintToInt128(input))
      modifies this
      ensures Abstract() == SumStep(old(Abstract()), HugeintToInt128(input))
    {
      isset := true;
      var v := HugeintToInt128(value) + HugeintToInt128(input);
      value := Int128ToHugeint(v);
      Int128RoundTrip(v);
    }

    /** Lines 88-92: `value += hugeint_t(input) * int64_t(count)`; the row count is
        cast to int64_t first. */
    method ConstantOperation(input: Hugeint, count: u64)
      requires InI128(HugeintToInt128(input) * ToI64(count))
      requires InI128(HugeintToInt128(value) + HugeintToInt128(input) * ToI64(count))
      modifies this
      ensures Abstract() == SumConstant(old(Abstract()), HugeintToInt128(input), ToI64(count))
    {
      isset := true;
      var product := HugeintToInt128(input) * ToI64(count);
      var v := HugeintToInt128(value) + product;
      value := Int128ToHugeint(v);
      Int128RoundTrip(v);
    }

    /** Lines 66-71 (called from lines 95-97). */
    method Combine(other: SparkSumDecimalState)
      requires other.isset ==> InI128(HugeintToInt128(value) + HugeintToInt128(other.value))
      modifies this
      ensures Abstract() == SumMerge(old(Abstract()), old(other.Abstract()))
    {
      if other.isset {
        isset := true;
        var v := HugeintToInt128(value) + HugeintToInt128(other.value);
        value := Int128ToHugeint(v);
        Int128RoundTrip(v);
      }
    }

    /** Lines 99-107 for a hugeint_t target: NULL when no row was seen, otherwise the
        value read as __int128 and written back with Int128ToHugeint, which is the
        stored value itself. */
    method Finalize() returns (r: Option<Hugeint>)
      ensures r == if isset then Some(value) else None
      ensures SumResult(Abstract()) == if r.Some? then Some(HugeintToInt128(r.value)) else None
    {
      if !isset {
        r := None;
      } else {
        var v := HugeintToInt128(value);
        r := Some(Int128ToHugeint(v));
        HugeintRoundTrip(value);
      }
    }
  }

  // ---------------------------------------------------------------------------
  // spark_sum on integers: the int64_t state (lines 171-223)
  // ---------------------------------------------------------------------------

  class SparkSumIntegerState {
    var value: i64
    var isset: bool

    function Abstract(): SumSpec
      reads this
    {
      SumSpec(isset, value)
    }

    /** Lines 175-178 */
    constructor Initialize()
      ensures Abstract() == SumInit()
    {
      isset := false;
      value := 0;
    }

    /** Lines 194-198: `value += int64_t(input)`; the inputs are integers of at most
        64 bits. */
    method Operation(input: i64)
      requires InI64(value + input)
      modifies this
      ensures Abstract() == SumStep(old(Abstract()), input)
    {
      isset := true;
      value := value + input;
    }

    /** Lines 200-204: `value += int64_t(input) * int64_t(count)`. */
    method ConstantOperation(input: i64, count: u64)
      requires InI64(input * ToI64(count)) && InI64(value + input * ToI64(count))
      modifies this
      ensures Abstract() == SumConstant(old(Abstract()), input, ToI64(count))
    {
      isset := true;
      var product: i64 := input * ToI64(count);
      value := value + product;
    }

    /** Lines 180-185 (called from lines 206-209). */
    method Combine(other: SparkSumIntegerState)
      requires other.isset ==> InI64(value + other.value)
      modifies this
      ensures Abstract() == SumMerge(old(Abstract()), old(other.Abstract()))
    {
      if other.isset {
        isset := true;
        value := value + other.value;
      }
    }

    /** Lines 211-218: NULL when no row was seen, otherwise the value. */
    method Finalize() returns (r: Option<i64>)
      ensures r == if isset then Some(value) else None
      ensures SumResult(Abstract()) == if r.Some? then Some(r.value as int) else None
    {
      if !isset {
        r := None;
      } else {
        r := Some(value);
      }
    }
  }

  // ---------------------------------------------------------------------------
  // The average specification
  // ---------------------------------------------------------------------------

  /** An average state's meaning: the running total and the row count modulo 2^64. */
  datatype AvgSpec = AvgSpec(total: int, count: u64)

  function AvgInit(): AvgSpec { AvgSpec(0, 0) }

  /** One row: `count++` and add it. */
  function AvgStep(s: AvgSpec, x: int): AvgSpec { AvgSpec(s.total + x, ToU64(s.count + 1)) }

  /** One constant vector of n rows: `count += n` and add x * m, where m is n as the
      code passes it. */
  function AvgConstant(s: AvgSpec, x: int, n: u64, m: int): AvgSpec {
    AvgSpec(s.total + x * m, ToU64(s.count + n))
  }

  /** Lines 242-245: both fields added. */
  function AvgMerge(target: AvgSpec, source: AvgSpec): AvgSpec {
    AvgSpec(target.total + source.total, ToU64(target.count + source.count))
  }

  /** Finalize: NULL for no rows, else total * 10^k / count rounded half up, read as
      __int128. */
  function AvgResult(s: AvgSpec, k: nat): Option<int> {
    if s.count == 0 then None else Some(ToI128(SparkDivide(s.total, s.count, k)))
  }

  function AvgRows(rows: seq<int>): AvgSpec
    decreases |rows|
  {
    if |rows| == 0 then AvgInit() else AvgStep(AvgRows(rows[..|rows| - 1]), rows[|rows| - 1])
  }

  function AvgRepeat(s: AvgSpec, x: int, n: nat): AvgSpec
    decreases n
  {
    if n == 0 then s else AvgStep(AvgRepeat(s, x, n - 1), x)
  }

  /** Adding after reducing modulo 2^64 is reducing the sum. */
  lemma AddMod64(x: int, y: int)
    ensures ToU64(ToU64(x) + y) == ToU64(x + y)
  {
    DivModAddMultiple(ToU64(x) + y, x / TWO_64, TWO_64);
    DivModIdentity(x, TWO_64);
  }

  /** Folding rows gives their sum and their number modulo 2^64. */
  lemma {:induction false} AvgRowsValue(rows: seq<int>)
    ensures AvgRows(rows) == AvgSpec(Sum(rows), ToU64(|rows|))
    decreases |rows|
  {
    if |rows| > 0 {
      AvgRowsValue(rows[..|rows| - 1]);
      AddMod64(|rows| - 1, 1);
    } else {
      DivModUnique(0, TWO_64, 0, 0);
    }
  }

  /** The average of a group with fewer than 2^64 rows is NULL for none, and otherwise
      their sum times 10^k divided by their number, rounded half away from zero. */
  lemma AvgRowsResult(rows: seq<int>, k: nat)
    requires |rows| < TWO_64
    ensures AvgResult(AvgRows(rows), k) == if |rows| == 0 then None else Some(ToI128(SparkDivide(Sum(rows), |rows|, k)))
  {
    AvgRowsValue(rows);
    DivModUnique(|rows|, TWO_64, 0, |rows|);
  }

  /** The rounded average m of a nonempty group is within half a unit of the exact
      mean: |sum| * 10^k lies within |rows| / 2 of m * |rows|. */
  lemma AvgRoundsMean(rows: seq<int>, k: nat)
    requires |rows| > 0
    ensures var m := Abs(SparkDivide(Sum(rows), |rows|, k));
      2 * (m * |rows|) - |rows| <= 2 * (Abs(Sum(rows)) * Pow10(k)) < 2 * (m * |rows|) + |rows|
  {
    SparkDivideSign(Sum(rows), |rows|, k);
    HalfUpWithinHalf(Abs(Sum(rows)) * Pow10(k), |rows|);
  }

  /** Merging the states of two partitions gives the state of all their rows. */
  lemma AvgMergeRows(a: seq<int>, b: seq<int>)
    ensures AvgMerge(AvgRows(a), AvgRows(b)) == AvgRows(a + b)
  {
    AvgRowsValue(a);
    AvgRowsValue(b);
    AvgRowsValue(a + b);
    SumAppend(a, b);
    AddMod64(|a|, ToU64(|b|));
    AddMod64(|b|, |a|);
  }

  /** A constant vector of n rows, 1 <= n < 2^63 so that int64_t(n) == n, has the effect
      of n single-row updates. */
  lemma AvgConstantIsRepeated(s: AvgSpec, x: int, n: u64)
    requires 1 <= n < TWO_63
    ensures AvgConstant(s, x, n, ToI64(n)) == AvgRepeat(s, x, n)
  {
    assert ToI64(n) == n;
    AvgConstantRepeats(s, x, n);
  }

  /** Adding x * n and n at once is n single-row updates, for the uncast n >= 1. */
  lemma {:induction false} AvgConstantRepeats(s: AvgSpec, x: int, n: u64)
    requires n >= 1
    ensures AvgConstant(s, x, n, n) == AvgRepeat(s, x, n)
    decreases n
  {
    if n > 1 {
      AvgConstantRepeats(s, x, n - 1);
      MulSucc(n - 1, x);
      assert x * n == x * (n - 1) + x;
      AddMod64(s.count + (n - 1), 1);
    }
  }

  /** Merging with a fresh state, on either side, changes nothing. */
  lemma AvgMergeIdentity(a: AvgSpec)
    ensures AvgMerge(a, AvgInit()) == a && AvgMerge(AvgInit(), a) == a
  {
    DivModUnique(a.count, TWO_64, 0, a.count);
  }

  /** Merging is commutative and associative: the count modulo 2^64 does not depend on
      the grouping. */
  lemma AvgMergeLaws(a: AvgSpec, b: AvgSpec, c: AvgSpec)
    ensures AvgMerge(a, b) == AvgMerge(b, a)
    ensures AvgMerge(AvgMerge(a, b), c) == AvgMerge(a, AvgMerge(b, c))
  {
    AddMod64(a.count + b.count, c.count);
    AddMod64(b.count + c.count, a.count);
  }

  // ---------------------------------------------------------------------------
  // spark_avg on DECIMAL: the hugeint_t / uint64_t state (lines 233-299)
  // ---------------------------------------------------------------------------

  class SparkAvgDecimalState {
    var sum: Hugeint
    var count: u64

    function Abstract(): AvgSpec
      reads this
    {
      AvgSpec(HugeintToInt128(sum), count)
    }

    /** Lines 237-240 */
    constructor Initialize()
      ensures Abstract() == AvgInit()
    {
      count := 0;
      sum := Int128ToHugeint(0);
      new;
      Int128RoundTrip(0);
    }

    /** Lines 256-260: `count++; sum += hugeint_t(input)`. */
    method Operation(input: Hugeint)
      requires InI128(HugeintToInt128(sum) + HugeintToInt128(input))
      modifies this
      ensures Abstract() == AvgStep(old(Abstract()), HugeintToInt128(input))
    {
      count := ToU64(count + 1);
      var v := HugeintToInt128(sum) + HugeintToInt128(input);
      sum := Int128ToHugeint(v);
      Int128RoundTrip(v);
    }

    /** Lines 262-266: `count += n; sum += hugeint_t(input) * int64_t(n)`. */
    method ConstantOperation(input: Hugeint, n: u64)
      requires InI128(HugeintToInt128(input) * ToI64(n))
      requires InI128(HugeintToInt128(sum) + HugeintToInt128(input) * ToI64(n))
      modifies this
      ensures Abstract() == AvgConstant(old(Abstract()), HugeintToInt128(input), n, ToI64(n))
    {
      count := ToU64(count + n);
      var product := HugeintToInt128(input) * ToI64(n);
      var v := HugeintToInt128(sum) + product;
      sum := Int128ToHugeint(v);
      Int128RoundTrip(v);
    }

    /** Lines 242-245 (called from lines 268-271). */
    method Combine(other: SparkAvgDecimalState)
      requires InI128(HugeintToInt128(sum) + HugeintToInt128(other.sum))
      modifies this
      ensures Abstract() == AvgMerge(old(Abstract()), old(other.Abstract()))
    {
      count := ToU64(count + other.count);
      var v := HugeintToInt128(sum) + HugeintToInt128(other.sum);
      sum := Int128ToHugeint(v);
      Int128RoundTrip(v);
    }

    /** Lines 273-294 for a hugeint_t target, with the exponent result_scale -
        input_scale passed to the divide. The result scale must not be below the input
        scale (the uint32_t subtraction of lines 284-285 would wrap), the exponent must
        be at most 38 and the quotient must fit in 128 bits, as the divide demands. */
    method Finalize(inputScale: u8, resultScale: u8) returns (r: Option<Hugeint>)
      requires inputScale <= resultScale && resultScale - inputScale <= 38
      requires count > 0 ==> Abs(HugeintToInt128(sum)) * Pow10(resultScale - inputScale) < count * TWO_128
      ensures r.None? <==> count == 0
      ensures AvgResult(Abstract(), resultScale - inputScale) == if r.Some? then Some(HugeintToInt128(r.value)) else None
    {
      if count == 0 {
        return None;
      }
      ghost var k: int := resultScale - inputScale;
      DivModUnique(k, TWO_32, 0, k);
      var scaleAdj := ToU32(resultScale - inputScale);
      var sumVal := HugeintToInt128(sum);
      var countVal: i128 := count;
      assert scaleAdj == k && Abs(countVal) == count;
      var result := SparkDecimalDivide(sumVal, countVal, scaleAdj);
      r := Some(Int128ToHugeint(result));
      Int128RoundTrip(result);
    }
  }

  // ---------------------------------------------------------------------------
  // The exponent as written (lines 290-291)
  // ---------------------------------------------------------------------------

  /** What lines 290-291 pass as the divide's uint32_t exponent: the power 10^k itself
      (or 0 for k == 0), narrowed from unsigned __int128 to uint32_t. */
  function PowerPassedAsExponent(scaleAdj: u32): u32
    requires scaleAdj <= 38
  {
    ToU32(if scaleAdj > 0 then Pow10_128(scaleAdj) else 0)
  }

  /** 10^k is a multiple of 2^j for every j <= k. */
  lemma {:induction false} Pow10MultipleOfPow2(k: nat, j: nat)
    requires j <= k
    ensures Pow10(k) % Pow2(j) == 0
    decreases k
  {
    if j == 0 {
      DivModUnique(Pow10(k), 1, Pow10(k), 0);
    } else {
      Pow10MultipleOfPow2(k - 1, j - 1);
      var m := Pow10(k - 1) / Pow2(j - 1);
      DivModIdentity(Pow10(k - 1), Pow2(j - 1));
      assert Pow10(k) == (5 * m) * Pow2(j);
      DivModUnique(Pow10(k), Pow2(j), 5 * m, 0);
    }
  }

  lemma {:induction false} BelowPow2(k: nat)
    ensures k < Pow2(k)
    decreases k
  {
    if k > 0 {
      BelowPow2(k - 1);
    }
  }

  /** Reducing modulo a * b keeps the residue modulo a. */
  lemma ModOfModMultiple(x: int, a: int, b: int)
    requires a > 0 && b > 0
    ensures (x % (a * b)) % a == x % a
  {
    DivModIdentity(x, a * b);
    var q := x / (a * b);
    assert x == (q * b) * a + x % (a * b);
    DivModAddMultiple(x % (a * b), q * b, a);
  }

  /** A positive value below p is not a multiple of p. */
  lemma NotMultiple(k: int, p: int)
    requires 0 < k < p
    ensures k % p != 0
  {
    DivModUnique(k, p, 0, k);
  }

  /** For every exponent 1 <= k <= 38 the value passed is not k: it is a multiple of
      2^min(k, 32), which k is not. */
  lemma PowerPassedIsNotExponent(k: u32)
    requires 1 <= k <= 38
    ensures PowerPassedAsExponent(k) != k
  {
    PowerPassedValue(k);
    var j := if k <= 32 then k else 32;
    Pow10MultipleOfPow2(k, j);
    Pow2Add(j, 32 - j);
    Pow2Values();
    ModOfModMultiple(Pow10(k), Pow2(j), Pow2(32 - j));
    if k <= 32 {
      BelowPow2(k);
    } else {
      Pow2Monotone(6, 32);
      assert Pow2(6) == 64;
    }
    NotMultiple(k, Pow2(j));
  }

  /** With k >= 1 the exponent passed is 10^k modulo 2^32. */
  lemma PowerPassedValue(k: u32)
    requires 1 <= k <= 38
    ensures PowerPassedAsExponent(k) == Pow10(k) % TWO_32
  {
  }

  lemma {:induction false} Pow10Monotone(a: nat, b: nat)
    requires a <= b
    ensures Pow10(a) <= Pow10(b)
    decreases b
  {
    if a < b {
      Pow10Monotone(a, b - 1);
    }
  }

  /** For 2 <= k <= 9 the power 10^k fits in 32 bits and is passed unchanged, so the
      divide receives an exponent of 100 or more, beyond the 38 the power table holds. */
  lemma PowerPassedBeyondTable(k: u32)
    requires 2 <= k <= 9
    ensures PowerPassedAsExponent(k) == Pow10(k) > 38
  {
    PowerPassedValue(k);
    Pow10Monotone(k, 9);
    Pow10Monotone(2, k);
    Pow10Ladder();
    assert Pow10(2) == 100;
    DivModUnique(Pow10(k), TWO_32, 0, Pow10(k));
  }

  /** Concrete exponents: 0 is passed through, and 32 (like every k from 32 to 38)
      becomes 0, so the divide then does no scaling at all. */
  lemma PowerPassedExamples()
    ensures PowerPassedAsExponent(0) == 0
    ensures PowerPassedAsExponent(32) == 0
  {
    PowerPassedValue(32);
    Pow10MultipleOfPow2(32, 32);
    Pow2Values();
  }
}

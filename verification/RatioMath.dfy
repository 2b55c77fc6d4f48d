/** Exact ratio comparison and population variance (src/math.rs). */
module RatioMath {
  import opened Machine
  import opened Arithmetic

  // ----- ratio_ge -----

  /** Number of binary digits of `n`; 0 has none. */
  ghost function BitLength(n: nat): nat
  {
    if n == 0 then 0 else 1 + BitLength(n / 2)
  }

  lemma {:induction false} BitLengthMonotone(m: nat, n: nat)
    requires m <= n
    ensures BitLength(m) <= BitLength(n)
    decreases n
  {
    if m > 0 {
      BitLengthMonotone(m / 2, n / 2);
    }
  }

  /** In a Euclidean chain a denominator more than halves every two rounds. */
  lemma TwoRoundsHalve(a: nat, b: nat)
    requires 0 < b < a && a % b > 0
    ensures 2 * (a % b) < a
    ensures BitLength(a % b) + 1 <= BitLength(a)
  {
    var r := a % b;
    assert a == (a / b) * b + r;
    assert a / b >= 1;
    assert (a / b) * b >= b;
    BitLengthMonotone(2 * r, a);
    assert BitLength(2 * r) == 1 + BitLength(r);
  }

  /** `a / b` and `c / d` have the same integer part `q`: the comparison is
      decided by the fractional remainders. */
  lemma EqualQuotients(a: int, b: int, c: int, d: int, q: int, ra: int, rc: int)
    requires a == q * b + ra && c == q * d + rc
    ensures a * d - c * b == ra * d - rc * b
  {}

  /** The larger integer part wins outright. */
  lemma LargerQuotient(a: nat, b: nat, c: nat, d: nat)
    requires b > 0 && d > 0 && a / b > c / d
    ensures a * d > c * b
  {
    var qa, qc := a / b, c / d;
    assert a >= qa * b;
    assert c < (qc + 1) * d;
    calc {
      a * d;
    >= { MulLe(qa * b, a, d); }
      (qa * b) * d;
    >= { MulLe(qc + 1, qa, b); MulLe((qc + 1) * b, qa * b, d); }
      ((qc + 1) * b) * d;
    == { assert ((qc + 1) * b) * d == ((qc + 1) * d) * b; }
      ((qc + 1) * d) * b;
    > { MulLt(c, (qc + 1) * d, b); }
      c * b;
    }
  }

  /** The question the current tuple stands for: a/b >= c/d, or a/b <= c/d
      after an odd number of reciprocal steps. */
  ghost predicate Holds(directionGe: bool, a: int, b: int, c: int, d: int)
  {
    if directionGe then a * d >= c * b else a * d <= c * b
  }

  lemma QuotientsDecide(directionGe: bool, a: nat, b: nat, c: nat, d: nat)
    requires b > 0 && d > 0 && a / b != c / d
    ensures Holds(directionGe, a, b, c, d) == if directionGe then a / b > c / d else a / b < c / d
  {
    if a / b > c / d { LargerQuotient(a, b, c, d); } else { LargerQuotient(c, d, a, b); }
  }

  /** With equal integer parts, the reciprocal step keeps the answer; a zero
      remainder settles it. */
  lemma ReciprocalStep(directionGe: bool, a: nat, b: nat, c: nat, d: nat)
    requires b > 0 && d > 0 && a / b == c / d
    ensures Holds(directionGe, a, b, c, d) == Holds(!directionGe, b, a % b, d, c % d)
    ensures a % b == 0 && c % d == 0 ==> Holds(directionGe, a, b, c, d)
    ensures a % b == 0 && c % d > 0 ==> Holds(directionGe, a, b, c, d) == !directionGe
    ensures a % b > 0 && c % d == 0 ==> Holds(directionGe, a, b, c, d) == directionGe
  {
    var ra, rc := a % b, c % d;
    EqualQuotients(a, b, c, d, a / b, ra, rc);
    if rc > 0 { MulLt(0, rc, b); }
    if ra > 0 { MulLt(0, ra, d); }
    assert b * rc == rc * b && d * ra == ra * d;
  }

  /** Both denominators after `rounds` passes, against the bit length `l` of the
      one the chain started from: two passes cost one bit. */
  ghost predicate BitBudget(rounds: nat, a: nat, b: nat, l: nat)
  {
    && b > 0 && rounds >= 1
    && if rounds % 2 == 1 then rounds / 2 + BitLength(b) <= l
       else b < a && rounds / 2 - 1 + BitLength(a) <= l
  }

  lemma HoldsStart(a: int, b: int, c: int, d: int)
    ensures Holds(true, a, b, c, d) == (a * d >= c * b)
  {}

  lemma BitBudgetStart(a: nat, b: nat)
    requires b > 0
    ensures BitBudget(1, a, b, BitLength(b))
  {}

  lemma BitBudgetStep(rounds: nat, a: nat, b: nat, l: nat)
    requires BitBudget(rounds, a, b, l) && a % b > 0
    ensures BitBudget(rounds + 1, b, a % b, l)
  {
    if rounds % 2 == 0 {
      TwoRoundsHalve(a, b);
    }
  }

  /** `ratio_ge`: exact comparison of a/b with c/d. No product of the inputs is
      formed, and `rounds`, the number of passes of the loop, is logarithmic in
      the smaller denominator. */
  method RatioGe(a0: i128, b0: i128, c0: i128, d0: i128) returns (ge: bool, ghost rounds: nat)
    requires a0 >= 0 && c0 >= 0 && b0 > 0 && d0 > 0
    ensures ge <==> a0 * d0 >= c0 * b0
    ensures 1 <= rounds <= 2 * BitLength(Min(b0, d0)) - 1
  {
    hide Holds, BitBudget, BitLength;
    var a, b, c, d := a0, b0, c0, d0;
    HoldsStart(a, b, c, d);
    BitBudgetStart(a, b);
    BitBudgetStart(c, d);
    var directionGe := true;
    rounds := 1;
    while true
      invariant a >= 0 && c >= 0 && b > 0 && d > 0
      invariant Holds(true, a0, b0, c0, d0) == Holds(directionGe, a, b, c, d)
      invariant BitBudget(rounds, a, b, BitLength(b0)) && BitBudget(rounds, c, d, BitLength(d0))
      decreases b
    {
      RoundsBound(rounds, a, b, BitLength(b0));
      RoundsBound(rounds, c, d, BitLength(d0));
      var qa, qc := a / b, c / d;
      if qa != qc {
        QuotientsDecide(directionGe, a, b, c, d);
        ge := if directionGe then qa > qc else qa < qc;
        return;
      }
      var ra, rc := a % b, c % d;
      ReciprocalStep(directionGe, a, b, c, d);
      if ra == 0 && rc == 0 {
        ge := true;
        return;
      }
      if ra == 0 {
        ge := !directionGe;
        return;
      }
      if rc == 0 {
        ge := directionGe;
        return;
      }
      BitBudgetStep(rounds, a, b, BitLength(b0));
      BitBudgetStep(rounds, c, d, BitLength(d0));
      a, b, c, d := b, ra, d, rc;
      directionGe := !directionGe;
      rounds := rounds + 1;
    }
  }

  lemma RoundsBound(rounds: nat, a: nat, b: nat, l: nat)
    requires BitBudget(rounds, a, b, l)
    ensures rounds <= 2 * l - 1
  {
    if rounds % 2 == 1 {
      assert BitLength(b) >= 1;
    } else {
      assert BitLength(a) >= 2 by {
        assert a / 2 >= 1;
        assert BitLength(a / 2) >= 1;
      }
    }
  }

  // ----- population variance -----

  function CheckedSum(values: seq<i128>): (r: Result<i128, ContractError>)
    ensures r.Ok? ==> r.value == Sum(values)
    decreases |values|
  {
    if values == [] then Ok(0)
    else
      var acc :- CheckedSum(values[..|values| - 1]);
      var next := acc + values[|values| - 1];
      if FitsI128(next) then Ok(next) else Err(MathOverflow)
  }

  /** `compute_mean`: the quotient is truncated toward zero. */
  function ComputeMean(values: seq<i128>): (r: Result<i128, ContractError>)
  {
    if |values| == 0 then Ok(0)
    else
      var sum :- CheckedSum(values);
      TruncDivShrinks(sum, |values|);
      Ok(TruncDiv(sum, |values|))
  }

  function SumSquaredDeviations(values: seq<i128>, mean: i128): (r: Result<i128, ContractError>)
    ensures r.Ok? ==> r.value == SquaredDeviations(values, mean)
    decreases |values|
  {
    if values == [] then Ok(0)
    else
      var acc :- SumSquaredDeviations(values[..|values| - 1], mean);
      var dev := values[|values| - 1] - mean;
      if !FitsI128(dev) then Err(MathOverflow)
      else if !FitsI128(dev * dev) then Err(MathOverflow)
      else if !FitsI128(acc + dev * dev) then Err(MathOverflow)
      else Ok(acc + dev * dev)
  }

  /** `compute_population_variance` */
  function PopulationVariance(values: seq<i128>): (r: Result<i128, ContractError>)
  {
    if |values| <= 1 then Ok(0)
    else
      var mean :- ComputeMean(values);
      var sumSq :- SumSquaredDeviations(values, mean);
      TruncDivShrinks(sumSq, |values|);
      Ok(TruncDiv(sumSq, |values|))
  }

  lemma TruncDivShrinks(x: int, n: int)
    requires n > 0 && FitsI128(x)
    ensures FitsI128(TruncDiv(x, n))
  {
    var m := if x >= 0 then x else -x;
    assert 0 <= m / n <= m by {
      assert m == (m / n) * n + m % n;
      if m / n > m { MulLe(1, n, m / n); }
    }
  }

  // Mathematical sums, over unbounded integers.

  ghost function Sum(values: seq<int>): int
  {
    if values == [] then 0 else Sum(values[..|values| - 1]) + values[|values| - 1]
  }

  ghost function SumOfSquares(values: seq<int>): int
  {
    if values == [] then 0
    else SumOfSquares(values[..|values| - 1]) + values[|values| - 1] * values[|values| - 1]
  }

  ghost function SquaredDeviations(values: seq<int>, mean: int): int
  {
    if values == [] then 0
    else SquaredDeviations(values[..|values| - 1], mean)
         + (values[|values| - 1] - mean) * (values[|values| - 1] - mean)
  }

  /** n times the exact second moment about the true mean: n * sum(x^2) - sum(x)^2. */
  ghost function Dispersion(values: seq<int>): int
  {
    |values| * SumOfSquares(values) - Sum(values) * Sum(values)
  }

  lemma {:induction false} DeviationsExpand(values: seq<int>, m: int)
    ensures SquaredDeviations(values, m) == SumOfSquares(values) - 2 * m * Sum(values) + |values| * (m * m)
  {
    if values != [] {
      var k := |values| - 1;
      var init, x := values[..k], values[k];
      DeviationsExpand(init, m);
      assert (x - m) * (x - m) == x * x - 2 * m * x + m * m;
      assert 2 * m * (Sum(init) + x) == 2 * m * Sum(init) + 2 * m * x;
      assert (k + 1) * (m * m) == k * (m * m) + m * m;
    }
  }

  /** Measuring from a truncated mean costs the square of the division's remainder. */
  lemma TruncatedMeanError(values: seq<int>, m: int)
    ensures var r := Sum(values) - |values| * m;
      |values| * SquaredDeviations(values, m) == Dispersion(values) + r * r
  {
    DeviationsExpand(values, m);
    MeanErrorAlgebra(|values|, Sum(values), SumOfSquares(values), m);
  }

  lemma MeanErrorAlgebra(n: int, s: int, q: int, m: int)
    ensures n * (q - 2 * m * s + n * (m * m)) == n * q - s * s + (s - n * m) * (s - n * m)
  {
    var p := n * m;
    assert n * (2 * m * s) == 2 * (p * s);
    assert n * (n * (m * m)) == p * p;
    assert (s - p) * (s - p) == s * s - 2 * (p * s) + p * p;
    assert n * (q - 2 * m * s + n * (m * m)) == n * q - n * (2 * m * s) + n * (n * (m * m));
  }

  lemma DivisionOfMultiple(x: nat, n: nat)
    requires n > 0
    ensures (n * x) / (n * n) == x / n
  {
    var q, r := x / n, x % n;
    assert x == q * n + r;
    assert n * x == q * (n * n) + n * r by { assert n * (q * n + r) == q * (n * n) + n * r; }
    assert 0 <= n * r < n * n by { MulLt(r, n, n); }
    QuotientUnique(n * x, n * n, q, n * r);
  }

  /** The variance returned is floor((D + r^2) / n^2), where r is the remainder
      left by the truncated mean: it is floor(D / n^2), the exact population
      variance rounded down, or one more; which of the two depends on whether
      r^2 carries the remainder of D past n^2. */
  lemma VarianceIsExactWithinOne(values: seq<i128>)
    requires |values| >= 2 && PopulationVariance(values).Ok?
    ensures var n := |values|;
      var d := Dispersion(values);
      var r := Sum(values) - n * TruncDiv(Sum(values), n);
      var v := PopulationVariance(values).value;
      && d >= 0 && 0 <= r * r < n * n
      && v == (d + r * r) / (n * n)
      && v == d / (n * n) + (if d % (n * n) + r * r < n * n then 0 else 1)
  {
    hide Sum, SumOfSquares, SquaredDeviations, Dispersion;
    var n := |values|;
    var m := TruncDiv(Sum(values), n);
    var r := Sum(values) - n * m;
    var d, ss := Dispersion(values), SquaredDeviations(values, m);
    TruncRemainder(Sum(values), n);
    TruncatedMeanError(values, m);
    DeviationsNonNegative(values, m);
    DispersionNonNegative(values);
    DivisionOfMultiple(ss, n);
    MulLe(1, n, n);
    FloorOfSum(d, n * n, r * r);
  }

  /** Every partial sum of the values fits 127 bits. */
  ghost predicate PartialSumsFit(values: seq<int>)
  {
    forall i :: 0 <= i <= |values| ==> FitsI128(Sum(values[..i]))
  }

  /** The mean of no values is 0; otherwise it is the sum over the count rounded toward
      zero, returned exactly when every partial sum fits 127 bits. */
  lemma MeanMeaning(values: seq<i128>)
    ensures values == [] ==> ComputeMean(values) == Ok(0)
    ensures values != [] ==> (ComputeMean(values).Ok? <==> PartialSumsFit(values))
    ensures values != [] && ComputeMean(values).Ok? ==>
      var r := Sum(values) - |values| * ComputeMean(values).value;
      -|values| < r < |values| && (Sum(values) >= 0 ==> r >= 0) && (Sum(values) <= 0 ==> r <= 0)
  {
    CheckedSumIff(values);
    hide Sum, CheckedSum, PartialSumsFit;
    if values != [] { RemainderSign(Sum(values), |values|); }
  }

  lemma RemainderSign(s: int, n: int)
    requires n > 0
    ensures var r := s - n * TruncDiv(s, n); -n < r < n && (s >= 0 ==> r >= 0) && (s <= 0 ==> r <= 0)
  {
    if s >= 0 {
      DivFloor(s, n);
    } else {
      DivFloor(-s, n);
      NegateFactor(n, (-s) / n);
    }
  }

  /** No or one value has variance 0. For more, a variance is returned exactly when every
      partial sum, and the sum of the squared deviations from the truncated mean, fits
      127 bits; the only error is an overflow. */
  lemma VarianceSucceedsIff(values: seq<i128>)
    ensures |values| <= 1 ==> PopulationVariance(values) == Ok(0)
    ensures |values| >= 2 ==>
      (PopulationVariance(values).Ok?
       <==> PartialSumsFit(values) && SquaredDeviations(values, TruncDiv(Sum(values), |values|)) <= I128_MAX)
    ensures PopulationVariance(values).Err? ==> PopulationVariance(values) == Err(MathOverflow)
  {
    CheckedSumIff(values);
    hide Sum, CheckedSum, SumSquaredDeviations, SquaredDeviations;
    if CheckedSum(values).Ok? && |values| >= 2 {
      TruncDivShrinks(Sum(values), |values|);
      DeviationsSumIff(values, TruncDiv(Sum(values), |values|));
    }
  }

  lemma {:induction false} CheckedSumIff(values: seq<i128>)
    ensures CheckedSum(values).Ok? <==> PartialSumsFit(values)
    ensures CheckedSum(values).Err? ==> CheckedSum(values) == Err(MathOverflow)
    ensures PartialSumsFit(values) ==> CheckedSum(values) == Ok(Sum(values))
  {
    assert values[..|values|] == values;
    if values != [] {
      var k := |values| - 1;
      CheckedSumIff(values[..k]);
      PartialSumsSplit(values);
      hide PartialSumsFit;
      assert Sum(values) == Sum(values[..k]) + values[k];
    }
  }

  lemma PartialSumsSplit(values: seq<int>)
    requires values != []
    ensures PartialSumsFit(values) <==> PartialSumsFit(values[..|values| - 1]) && FitsI128(Sum(values))
  {
    hide Sum, FitsI128;
    var n := |values|;
    var init := values[..n - 1];
    assert values[..n] == values;
    if PartialSumsFit(values) {
      forall i | 0 <= i <= n - 1 ensures FitsI128(Sum(init[..i])) { PrefixOfPrefix(values, i); }
    }
    if PartialSumsFit(init) && FitsI128(Sum(values)) {
      forall i | 0 <= i <= n ensures FitsI128(Sum(values[..i])) {
        if i < n { PrefixOfPrefix(values, i); }
      }
    }
  }

  lemma PrefixOfPrefix(values: seq<int>, i: nat)
    requires i < |values|
    ensures values[..|values| - 1][..i] == values[..i]
  {}

  /** Squares add up, so the sum fits as soon as the whole fits. */
  lemma {:induction false} DeviationsSumIff(values: seq<i128>, mean: i128)
    ensures SumSquaredDeviations(values, mean).Ok? <==> SquaredDeviations(values, mean) <= I128_MAX
    ensures SumSquaredDeviations(values, mean).Err? ==> SumSquaredDeviations(values, mean) == Err(MathOverflow)
    decreases |values|
  {
    if values != [] {
      var k := |values| - 1;
      DeviationsSumIff(values[..k], mean);
      DeviationsNonNegative(values[..k], mean);
      var dev := values[k] - mean;
      SquareNonNegative(dev);
      if dev * dev <= I128_MAX { RootFits(dev); }
    }
  }

  lemma RootFits(x: int)
    requires x * x <= I128_MAX
    ensures FitsI128(x)
  {
    if x > I128_MAX { MulLe(1, x, x); }
    if x < I128_MIN { MulLe(1, -x, -x); }
  }

  lemma FloorOfSum(d: nat, k: int, e: int)
    requires 0 <= e < k
    ensures (d + e) / k == d / k + (if d % k + e < k then 0 else 1)
  {
    var t, u := d / k, d % k;
    if u + e < k {
      QuotientUnique(d + e, k, t, u + e);
    } else {
      QuotientUnique(d + e, k, t + 1, u + e - k);
    }
  }

  lemma TruncRemainder(s: int, n: int)
    requires n > 0
    ensures var r := s - n * TruncDiv(s, n); -n < r < n && 0 <= r * r < n * n
  {
    if s >= 0 {
      DivFloor(s, n);
    } else {
      DivFloor(-s, n);
      NegateFactor(n, (-s) / n);
    }
    SquareBound(s - n * TruncDiv(s, n), n);
  }

  lemma NegateFactor(x: int, y: int)
    ensures x * -y == -(x * y)
  {}

  lemma SquareBound(r: int, n: int)
    requires -n < r < n
    ensures 0 <= r * r < n * n
  {
    var a := if r >= 0 then r else -r;
    assert r * r == a * a;
    MulLe(a, n, a);
    MulLt(a, n, n);
  }

  lemma {:induction false} DeviationsNonNegative(values: seq<int>, m: int)
    ensures SquaredDeviations(values, m) >= 0
  {
    if values != [] {
      DeviationsNonNegative(values[..|values| - 1], m);
      SquareNonNegative(values[|values| - 1] - m);
    }
  }

  lemma SquareNonNegative(x: int)
    ensures x * x >= 0
  {}

  /** D >= 0: adding one value x to n others adds to D the other values'
      squared distances from x. */
  lemma {:induction false} DispersionNonNegative(values: seq<int>)
    ensures Dispersion(values) >= 0
  {
    if values != [] {
      var k := |values| - 1;
      var init, x := values[..k], values[k];
      DispersionNonNegative(init);
      DeviationsExpand(init, x);
      DeviationsNonNegative(init, x);
      DispersionStep(k, Sum(init), SumOfSquares(init), x);
    }
  }

  lemma DispersionStep(k: int, s: int, q: int, x: int)
    ensures (k + 1) * (q + x * x) - (s + x) * (s + x) == (k * q - s * s) + (q - 2 * x * s + k * (x * x))
  {
    assert (s + x) * (s + x) == s * s + 2 * x * s + x * x;
    assert (k + 1) * (q + x * x) == k * q + q + k * (x * x) + x * x;
  }
}

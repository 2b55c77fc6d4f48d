/** Constant-product guard over pool snapshots (src/flash_loan_guard.rs). */
module FlashLoanGuard {
  import opened Machine
  import opened Arithmetic

  const MIN_LIQUIDITY_DEPTH: int := 1_000_000_000_000
  const MAX_RATIO_DEVIATION_BPS: int := 5_000
  const BPS_DENOMINATOR: int := 10_000
  const RATIO_SCALE: int := 1_000_000_000_000_000_000

  datatype PoolSnapshot = PoolSnapshot(reserveA: u128, reserveB: u128)

  /** A 256-bit product as the code represents it: the low word first. */
  datatype Wide = Wide(lo: u128, hi: u128) {
    ghost function Value(): int { lo + hi * TWO128 }

    /** Rust's derived ordering on the tuple `(lo, hi)`. */
    predicate Less(that: Wide) {
      lo < that.lo || (lo == that.lo && hi < that.hi)
    }
  }

  /** The sum of the two cross products of 64-bit halves, which `wide_mul` adds
      in 128 bits. */
  function CrossSum(a: u128, b: u128): int {
    (a % TWO64) * (b / TWO64) + (a / TWO64) * (b % TWO64)
  }

  /** `wide_mul`: multiply the 64-bit halves, then add the partial products
      with their carries. */
  function WideMul(a: u128, b: u128): (w: Wide)
  {
    var (aLo, aHi) := (a % TWO64, a / TWO64);
    var (bLo, bHi) := (b % TWO64, b / TWO64);
    HalfProduct(aLo, bLo); HalfProduct(aLo, bHi); HalfProduct(aHi, bLo); HalfProduct(aHi, bHi);
    AddPartials(aLo * bLo, aLo * bHi + aHi * bLo, aHi * bHi)
  }

  /** The additions of `wide_mul`, operation for operation: `/ TWO64` and
      `* TWO64` are the shifts, `% TWO128` the wrapping, `/ TWO128` the carry. */
  function AddPartials(pLoLo: nat, cross: nat, pHiHi: nat): Wide
  {
    var (mid, carryMid) := (cross % TWO128, cross / TWO128);
    var midLo := (mid * TWO64) % TWO128;
    var midHi := (mid / TWO64 + carryMid) % TWO128;
    var (lo, carryLo) := ((pLoLo + midLo) % TWO128, (pLoLo + midLo) / TWO128);
    var hi := (pHiHi + midHi + carryLo) % TWO128;
    Wide(lo, hi)
  }

  /** What `wide_mul` computes for all operands: the exact product, short of
      (2^64 - 1) * 2^128 when the two cross products together overflow 128
      bits, because their carry is added at bit 128 instead of bit 192. */
  lemma WideMulValue(a: u128, b: u128)
    ensures WideMul(a, b).Value()
         == a * b - (if CrossSum(a, b) < TWO128 then 0 else (TWO64 - 1) * TWO128)
  {
    var aLo, aHi, bLo, bHi := a % TWO64, a / TWO64, b % TWO64, b / TWO64;
    HalfProduct(aLo, bLo); HalfProduct(aLo, bHi); HalfProduct(aHi, bLo); HalfProduct(aHi, bHi);
    Schoolbook(aLo, aHi, bLo, bHi);
    assert a == aLo + aHi * TWO64 && b == bLo + bHi * TWO64;
    AddPartialsValue(aLo * bLo, aLo * bHi + aHi * bLo, aHi * bHi);
  }

  lemma AddPartialsValue(pLoLo: int, cross: int, pHiHi: int)
    requires 0 <= pLoLo <= (TWO64 - 1) * (TWO64 - 1)
    requires 0 <= cross <= 2 * (TWO64 - 1) * (TWO64 - 1)
    requires 0 <= pHiHi <= (TWO64 - 1) * (TWO64 - 1)
    ensures AddPartials(pLoLo, cross, pHiHi).Value()
         == pLoLo + cross * TWO64 + pHiHi * TWO128 - (if cross < TWO128 then 0 else (TWO64 - 1) * TWO128)
  {
    var mid, carryMid := cross % TWO128, cross / TWO128;
    ShiftLeft64(mid);
    var midLo, midHi := (mid % TWO64) * TWO64, mid / TWO64;
    var x := pLoLo + midLo;
    PartialsFit(pHiHi, midHi, carryMid, x / TWO128);
    assert cross * TWO64 == midLo + midHi * TWO128 + carryMid * TWO64 * TWO128;
    assert AddPartials(pLoLo, cross, pHiHi) == Wide(x % TWO128, pHiHi + midHi + carryMid + x / TWO128);
  }

  lemma PartialsFit(pHiHi: int, midHi: int, carryMid: int, carryLo: int)
    requires 0 <= pHiHi <= (TWO64 - 1) * (TWO64 - 1)
    requires 0 <= midHi < TWO64 && 0 <= carryMid <= 1 && 0 <= carryLo <= 1
    ensures (midHi + carryMid) % TWO128 == midHi + carryMid
    ensures (pHiHi + midHi + carryMid + carryLo) % TWO128 == pHiHi + midHi + carryMid + carryLo
  {}

  /** The documented product of `wide_mul`. */
  ghost predicate IsExact(a: u128, b: u128) { WideMul(a, b).Value() == a * b }

  /** `wide_mul` is exact precisely when its cross sum fits in 128 bits. */
  lemma WideMulExactIff(a: u128, b: u128)
    ensures IsExact(a, b) <==> CrossSum(a, b) < TWO128
  {
    WideMulValue(a, b);
  }

  lemma WideMulExactBelow127Bits(a: u128, b: u128)
    requires a < TWO127 && b < TWO127
    ensures IsExact(a, b)
  {
    WideMulValue(a, b);
    var half := TWO64 / 2;
    MulLe(a % TWO64, TWO64 - 1, b / TWO64);
    MulLe(b / TWO64, half - 1, TWO64 - 1);
    MulLe(b % TWO64, TWO64 - 1, a / TWO64);
    MulLe(a / TWO64, half - 1, TWO64 - 1);
  }

  /** All bits set: the cross sum is 2 * (2^64 - 1)^2, and the carry is lost. */
  lemma WideMulInexactAtMax()
    ensures !IsExact(U128_MAX, U128_MAX)
  {
    WideMulExactIff(U128_MAX, U128_MAX);
  }

  /** `check_k_nondecreasing` */
  function CheckKNonDecreasing(before: PoolSnapshot, after: PoolSnapshot): Result<(), ContractError>
  {
    var kBefore := WideMul(before.reserveA, before.reserveB);
    var kAfter := WideMul(after.reserveA, after.reserveB);
    if kAfter.Less(kBefore) then Err(FlashLoanArbitrageDetected) else Ok(())
  }

  /** The guard's promise: accept exactly the snapshots whose product did not decrease. */
  ghost predicate GivesTrueVerdict(before: PoolSnapshot, after: PoolSnapshot)
  {
    CheckKNonDecreasing(before, after).Ok?
    <==> before.reserveA * before.reserveB <= after.reserveA * after.reserveB
  }

  /** The low word is always that of the product; only the high word can be short. */
  lemma LowWordExact(a: u128, b: u128)
    ensures WideMul(a, b).lo == a * b % TWO128
    ensures WideMul(a, b).hi + (if CrossSum(a, b) < TWO128 then 0 else TWO64 - 1) == a * b / TWO128
  {
    WideMulValue(a, b);
    var w := WideMul(a, b);
    QuotientUnique(a * b, TWO128, w.hi + (if CrossSum(a, b) < TWO128 then 0 else TWO64 - 1), w.lo);
  }

  /** What the lost carry takes from the high word of a product. */
  function LostCarry(s: PoolSnapshot): int
  {
    if CrossSum(s.reserveA, s.reserveB) < TWO128 then 0 else TWO64 - 1
  }

  /** The tuple order ranks two products by their low words first, so it is right
      when the high words are equal or differ the same way; on equal low words,
      when the carries lost do not change how the high words rank. */
  ghost predicate OrderSurvives(before: PoolSnapshot, after: PoolSnapshot)
  {
    var (p, q) := (before.reserveA * before.reserveB, after.reserveA * after.reserveB);
    var (hp, hq) := (p / TWO128, q / TWO128);
    if p % TWO128 == q % TWO128 then hq - LostCarry(after) < hp - LostCarry(before) <==> hq < hp
    else hp == hq || (q % TWO128 < p % TWO128 <==> hq < hp)
  }

  /** For all snapshots the verdict is the true one if and only if the order of
      the products survives; the condition is on the reserves alone. */
  lemma KVerdictTrueIff(before: PoolSnapshot, after: PoolSnapshot)
    ensures GivesTrueVerdict(before, after) <==> OrderSurvives(before, after)
  {
    LowWordExact(before.reserveA, before.reserveB);
    LowWordExact(after.reserveA, after.reserveB);
    WordOrder(before.reserveA * before.reserveB, after.reserveA * after.reserveB);
  }

  lemma WordOrder(p: int, q: int)
    ensures q < p <==> q / TWO128 < p / TWO128 || (q / TWO128 == p / TWO128 && q % TWO128 < p % TWO128)
  {}

  /** When both products fit in 128 bits the verdict is the true one. */
  lemma KVerdictTrueBelow128Bits(before: PoolSnapshot, after: PoolSnapshot)
    requires before.reserveA * before.reserveB < TWO128
    requires after.reserveA * after.reserveB < TWO128
    ensures GivesTrueVerdict(before, after)
  {
    SmallProductExact(before.reserveA, before.reserveB);
    SmallProductExact(after.reserveA, after.reserveB);
  }

  lemma SmallProductExact(a: u128, b: u128)
    requires a * b < TWO128
    ensures WideMul(a, b) == Wide(a * b, 0)
  {
    var aLo, aHi, bLo, bHi := a % TWO64, a / TWO64, b % TWO64, b / TWO64;
    HalfProduct(aLo, bLo); HalfProduct(aLo, bHi); HalfProduct(aHi, bLo); HalfProduct(aHi, bHi);
    assert a == aLo + aHi * TWO64 && b == bLo + bHi * TWO64;
    Schoolbook(aLo, aHi, bLo, bHi);
    WideMulValue(a, b);
  }

  /** Products 2^128 and 2^128 - 1: the product shrank by one, yet its low word grew. */
  lemma KVerdictWrongAcross128Bits()
    ensures var before := PoolSnapshot(TWO64, TWO64);
      var after := PoolSnapshot(TWO64 - 1, TWO64 + 1);
      !GivesTrueVerdict(before, after) && CheckKNonDecreasing(before, after).Ok?
  {
    assert WideMul(TWO64, TWO64) == Wide(0, 1);
    SmallProductExact(TWO64 - 1, TWO64 + 1);
  }

  function CheckLiquidityDepth(s: PoolSnapshot): Result<(), ContractError>
  {
    if s.reserveA < MIN_LIQUIDITY_DEPTH || s.reserveB < MIN_LIQUIDITY_DEPTH
    then Err(FlashLoanArbitrageDetected) else Ok(())
  }

  /** `check_reserve_ratio` */
  function CheckReserveRatio(before: PoolSnapshot, after: PoolSnapshot): Result<(), ContractError>
    requires before.reserveB != 0 && after.reserveB != 0
  {
    if !FitsU128(before.reserveA * RATIO_SCALE) then Err(Overflow)
    else
      var ratioBefore := before.reserveA * RATIO_SCALE / before.reserveB;
      if !FitsU128(after.reserveA * RATIO_SCALE) then Err(Overflow)
      else
        var ratioAfter := after.reserveA * RATIO_SCALE / after.reserveB;
        var deviation := if ratioAfter > ratioBefore then ratioAfter - ratioBefore else ratioBefore - ratioAfter;
        if !FitsU128(ratioBefore * MAX_RATIO_DEVIATION_BPS) then Err(Overflow)
        else if deviation > ratioBefore * MAX_RATIO_DEVIATION_BPS / BPS_DENOMINATOR
        then Err(FlashLoanArbitrageDetected) else Ok(())
  }

  /** `check_flash_loan_arbitrage` */
  function CheckFlashLoanArbitrage(before: PoolSnapshot, after: PoolSnapshot): Result<(), ContractError>
  {
    if before.reserveA == 0 || before.reserveB == 0 then Err(InvalidInput)
    else if after.reserveA == 0 || after.reserveB == 0 then Err(InvalidInput)
    else
      var _ :- CheckLiquidityDepth(after);
      var _ :- CheckKNonDecreasing(before, after);
      CheckReserveRatio(before, after)
  }

  /** The price a * 10^18 / b, over unbounded integers. */
  function ScaledPrice(s: PoolSnapshot): int
    requires s.reserveB != 0
  {
    s.reserveA * 1_000_000_000_000_000_000 / s.reserveB
  }

  /** The scaled prices can be computed in 128 bits. */
  predicate PricesFit(before: PoolSnapshot, after: PoolSnapshot)
    requires before.reserveB != 0
  {
    && before.reserveA * 1_000_000_000_000_000_000 < TWO128
    && after.reserveA * 1_000_000_000_000_000_000 < TWO128
    && ScaledPrice(before) * 5_000 < TWO128
  }

  /** The exact verdict for all snapshots on which the order of the products survives:
      accepted are positive reserves of the minimum depth whose product did not decrease
      and whose scaled price moved, up or down, by at most half of the old one. */
  lemma AcceptedIff(before: PoolSnapshot, after: PoolSnapshot)
    requires OrderSurvives(before, after)
    ensures var r := CheckFlashLoanArbitrage(before, after);
      var positive := before.reserveA > 0 && before.reserveB > 0 && after.reserveA > 0 && after.reserveB > 0;
      var kept := && after.reserveA >= 1_000_000_000_000 && after.reserveB >= 1_000_000_000_000
                  && before.reserveA * before.reserveB <= after.reserveA * after.reserveB;
      && (r.Ok? <==> && positive && kept && PricesFit(before, after)
                     && ScaledPrice(before) <= 2 * ScaledPrice(after) <= 3 * ScaledPrice(before))
      && (r.Err? ==> r.error == if !positive then InvalidInput
                                else if kept && !PricesFit(before, after) then Overflow
                                else FlashLoanArbitrageDetected)
  {
    KVerdictTrueIff(before, after);
    if before.reserveB > 0 && after.reserveB > 0 {
      RatioVerdict(before, after);
    }
    hide CheckReserveRatio, CheckKNonDecreasing, OrderSurvives, ScaledPrice, PricesFit;
  }

  lemma RatioVerdict(before: PoolSnapshot, after: PoolSnapshot)
    requires before.reserveB > 0 && after.reserveB > 0
    ensures CheckReserveRatio(before, after)
         == if !PricesFit(before, after) then Err(Overflow)
            else if ScaledPrice(before) <= 2 * ScaledPrice(after) <= 3 * ScaledPrice(before) then Ok(())
            else Err(FlashLoanArbitrageDetected)
  {
    PriceOf(before.reserveA, before.reserveB);
    PriceOf(after.reserveA, after.reserveB);
    WithinHalf(ScaledPrice(before), ScaledPrice(after));
  }

  lemma PriceOf(a: u128, b: u128)
    requires b > 0
    ensures 0 <= a * RATIO_SCALE && 0 <= a * RATIO_SCALE / b
  {}

  lemma WithinHalf(rb: nat, ra: nat)
    ensures (if ra > rb then ra - rb else rb - ra) > rb * MAX_RATIO_DEVIATION_BPS / BPS_DENOMINATOR
       <==> !(rb <= 2 * ra <= 3 * rb)
  {}

  /** What acceptance guarantees about the reserves themselves, for pools whose
      products fit in 128 bits: depth, product, and a scaled price within a
      factor of about [1/2, 3/2] of the old one, up to one unit of rounding. */
  lemma AcceptedPoolIsSound(before: PoolSnapshot, after: PoolSnapshot)
    requires before.reserveA * before.reserveB < TWO128
    requires after.reserveA * after.reserveB < TWO128
    requires CheckFlashLoanArbitrage(before, after).Ok?
    ensures after.reserveA >= MIN_LIQUIDITY_DEPTH && after.reserveB >= MIN_LIQUIDITY_DEPTH
    ensures before.reserveA * before.reserveB <= after.reserveA * after.reserveB
    ensures var rb := before.reserveA * RATIO_SCALE / before.reserveB;
      var ra := after.reserveA * RATIO_SCALE / after.reserveB;
      rb <= 2 * ra && 2 * ra <= 3 * rb
  {
    KVerdictTrueBelow128Bits(before, after);
    var rb := before.reserveA * RATIO_SCALE / before.reserveB;
    assert rb * MAX_RATIO_DEVIATION_BPS / BPS_DENOMINATOR == rb / 2;
  }
}

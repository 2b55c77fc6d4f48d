/** Fee shares and fee splitting (src/fees.rs). */
module Fees {
  import opened Machine
  import opened Arithmetic

  const INTERIOR_SCALE: nat := 100_000_000_000_000
  const FIXED_POINT_SCALE: nat := 10_000_000
  const LP_FEE_GROWTH_SCALE: nat := INTERIOR_SCALE

  // ----- interior scaling -----

  lemma DivDiv(x: nat, b: nat, c: nat)
    requires b > 0 && c > 0
    ensures b * c > 0 && (x / b) / c == x / (b * c)
  {
    var (q, r) := (x / b, x % b);
    var (p, s) := (q / c, q % c);
    DivFloor(x, b);
    DivFloor(q, c);
    MulLt(0, b, c);
    MulLe(s + 1, c, b);
    assert x == p * (b * c) + (s * b + r) by {
      assert (p * c + s) * b == p * (b * c) + s * b;
    }
    assert (s + 1) * b == s * b + b;
    assert 0 <= s * b;
    QuotientUnique(x, b * c, p, s * b + r);
  }

  /** Scaling a numerator up before a division and the quotient down after it
      is the plain division. */
  lemma ScaledDivision(x: nat, d: nat, k: nat)
    requires d > 0 && k > 0
    ensures (x * k / d) / k == x / d
  {
    DivDiv(x * k, d, k);
    DivDiv(x * k, k, d);
    assert d * k == k * d;
    assert (x * k) / k == x by { QuotientUnique(x * k, k, x, 0); }
  }

  function NormalizeToFootprint(interior: nat): Result<u64, ContractError>
  {
    var normalized := interior / INTERIOR_SCALE;
    if FitsU64(normalized) then Ok(normalized) else Err(Overflow)
  }

  /** `multiply_and_scale_down` */
  function MultiplyAndScaleDown(a: u64, b: u64): Result<u64, ContractError>
  {
    Product(a, b);
    if !FitsU128(a * b) then Err(Overflow)
    else if !FitsU128(a * b * INTERIOR_SCALE) then Err(Overflow)
    else NormalizeToFootprint(a * b * INTERIOR_SCALE / FIXED_POINT_SCALE)
  }

  /** `compute_corridor_usage_fee_share` */
  function CorridorShare(totalFee: u64, usage: u64, totalUsage: u64): Result<u64, ContractError>
  {
    if totalUsage == 0 then Err(DivisionByZero)
    else if totalFee == 0 || usage == 0 then Ok(0)
    else
      Product(totalFee, usage);
      if !FitsU128(totalFee * usage) then Err(Overflow)
      else if !FitsU128(totalFee * usage * INTERIOR_SCALE) then Err(Overflow)
      else NormalizeToFootprint(totalFee * usage * INTERIOR_SCALE / totalUsage)
  }

  /** `compute_multi_hop_corridor_fee_share` */
  function MultiHopShare(totalFee: u64, hop: u64, relayer: u64, totalHop: u64, totalRelayer: u64)
    : Result<u64, ContractError>
  {
    if totalHop == 0 || totalRelayer == 0 then Err(DivisionByZero)
    else if totalFee == 0 || hop == 0 || relayer == 0 then Ok(0)
    else
      Product(totalFee, hop); Product(totalFee * hop, relayer); Product(totalHop, totalRelayer);
      if !FitsU128(totalFee * hop) then Err(Overflow)
      else if !FitsU128(totalFee * hop * relayer) then Err(Overflow)
      else if !FitsU128(totalFee * hop * relayer * INTERIOR_SCALE) then Err(Overflow)
      else if !FitsU128(totalHop * totalRelayer) then Err(Overflow)
      else NormalizeToFootprint(totalFee * hop * relayer * INTERIOR_SCALE / (totalHop * totalRelayer))
  }

  lemma Product(x: nat, y: nat)
    ensures x * y >= 0 && (x > 0 && y > 0 ==> x * y > 0)
  {
    if x > 0 && y > 0 { MulLt(0, x, y); } else if x == 0 {} else {}
  }

  lemma ZeroShare(x: nat, d: nat)
    requires d > 0 && x == 0
    ensures x / d == 0
  {}

  /** Whenever they succeed, the three interior-scaled computations are the plain
      floor of the exact quotient. */
  lemma InteriorScalingIsExact(a: u64, b: u64, usage: u64, totalUsage: u64, c: u64, totalHop: u64)
    ensures MultiplyAndScaleDown(a, b).Ok? ==> MultiplyAndScaleDown(a, b).value == a * b / FIXED_POINT_SCALE
    ensures CorridorShare(a, usage, totalUsage).Ok? ==>
      totalUsage > 0 && CorridorShare(a, usage, totalUsage).value == a * usage / totalUsage
    ensures MultiHopShare(a, b, usage, totalHop, totalUsage).Ok? ==>
      totalHop * totalUsage > 0
      && MultiHopShare(a, b, usage, totalHop, totalUsage).value == a * b * usage / (totalHop * totalUsage)
  {
    MultiplyExact(a, b);
    CorridorExact(a, usage, totalUsage);
    MultiHopExact(a, b, usage, totalHop, totalUsage);
  }

  /** The three computations succeed exactly when no total is 0, the scaled numerator
      fits 128 bits and the quotient 64; a total of 0 is a division by zero, the rest
      overflows. A fee or usage of 0 gives 0. */
  lemma InteriorScalingSucceedsIff(a: u64, b: u64, usage: u64, totalUsage: u64, totalHop: u64)
    ensures MultiplyAndScaleDown(a, b).Ok? <==> a * b * 100_000_000_000_000 < TWO128
    ensures CorridorShare(a, usage, totalUsage).Ok? <==>
      totalUsage > 0 && a * usage * 100_000_000_000_000 < TWO128 && a * usage / totalUsage < TWO64
    ensures MultiHopShare(a, b, usage, totalHop, totalUsage).Ok? <==>
      && totalHop > 0 && totalUsage > 0 && a * b * usage * 100_000_000_000_000 < TWO128
      && totalHop * totalUsage > 0 && a * b * usage / (totalHop * totalUsage) < TWO64
    ensures MultiplyAndScaleDown(a, b).Err? ==> MultiplyAndScaleDown(a, b).error == Overflow
    ensures CorridorShare(a, usage, totalUsage).Err? ==>
      CorridorShare(a, usage, totalUsage).error == if totalUsage == 0 then DivisionByZero else Overflow
    ensures MultiHopShare(a, b, usage, totalHop, totalUsage).Err? ==>
      MultiHopShare(a, b, usage, totalHop, totalUsage).error
        == if totalHop == 0 || totalUsage == 0 then DivisionByZero else Overflow
  {
    MultiplySucceeds(a, b);
    CorridorSucceeds(a, usage, totalUsage);
    MultiHopSucceeds(a, b, usage, totalHop, totalUsage);
  }

  lemma MultiplySucceeds(a: u64, b: u64)
    ensures MultiplyAndScaleDown(a, b).Ok? <==> a * b * 100_000_000_000_000 < TWO128
    ensures MultiplyAndScaleDown(a, b).Err? ==> MultiplyAndScaleDown(a, b).error == Overflow
  {
    Product(a, b);
    ScaledDivision(a * b, FIXED_POINT_SCALE, INTERIOR_SCALE);
  }

  lemma CorridorSucceeds(a: u64, usage: u64, totalUsage: u64)
    ensures CorridorShare(a, usage, totalUsage).Ok? <==>
      totalUsage > 0 && a * usage * 100_000_000_000_000 < TWO128 && a * usage / totalUsage < TWO64
    ensures CorridorShare(a, usage, totalUsage).Err? ==>
      CorridorShare(a, usage, totalUsage).error == if totalUsage == 0 then DivisionByZero else Overflow
  {
    if totalUsage > 0 {
      Product(a, usage);
      ScaledDivision(a * usage, totalUsage, INTERIOR_SCALE);
      if a == 0 || usage == 0 { ZeroShare(a * usage, totalUsage); } else { PositiveQuotient(a * usage, totalUsage); }
    }
  }

  lemma PositiveQuotient(x: nat, d: nat)
    requires d > 0
    ensures x / d >= 0
  {}

  lemma MultiHopSucceeds(a: u64, b: u64, r: u64, totalHop: u64, totalRelayer: u64)
    ensures MultiHopShare(a, b, r, totalHop, totalRelayer).Ok? <==>
      && totalHop > 0 && totalRelayer > 0 && a * b * r * 100_000_000_000_000 < TWO128
      && totalHop * totalRelayer > 0 && a * b * r / (totalHop * totalRelayer) < TWO64
    ensures MultiHopShare(a, b, r, totalHop, totalRelayer).Err? ==>
      MultiHopShare(a, b, r, totalHop, totalRelayer).error
        == if totalHop == 0 || totalRelayer == 0 then DivisionByZero else Overflow
  {
    if totalHop > 0 && totalRelayer > 0 {
      Product(a, b); Product(a * b, r); Product(totalHop, totalRelayer);
      MulMono(totalHop, U64_MAX, totalRelayer, U64_MAX);
      MulMono(a, U64_MAX, b, U64_MAX);
      ScaledDivision(a * b * r, totalHop * totalRelayer, INTERIOR_SCALE);
      if a == 0 || b == 0 || r == 0 {
        ZeroShare(a * b * r, totalHop * totalRelayer);
      } else {
        PositiveQuotient(a * b * r, totalHop * totalRelayer);
      }
    }
  }

  lemma MultiplyExact(a: u64, b: u64)
    ensures MultiplyAndScaleDown(a, b).Ok? ==> MultiplyAndScaleDown(a, b).value == a * b / FIXED_POINT_SCALE
  {
    Product(a, b);
    ScaledDivision(a * b, FIXED_POINT_SCALE, INTERIOR_SCALE);
  }

  lemma CorridorExact(a: u64, usage: u64, totalUsage: u64)
    ensures CorridorShare(a, usage, totalUsage).Ok? ==>
      totalUsage > 0 && CorridorShare(a, usage, totalUsage).value == a * usage / totalUsage
  {
    if totalUsage > 0 {
      Product(a, usage);
      ScaledDivision(a * usage, totalUsage, INTERIOR_SCALE);
      if a == 0 || usage == 0 { ZeroShare(a * usage, totalUsage); }
    }
  }

  lemma MultiHopExact(a: u64, b: u64, r: u64, totalHop: u64, totalRelayer: u64)
    ensures MultiHopShare(a, b, r, totalHop, totalRelayer).Ok? ==>
      totalHop * totalRelayer > 0
      && MultiHopShare(a, b, r, totalHop, totalRelayer).value == a * b * r / (totalHop * totalRelayer)
  {
    if totalHop > 0 && totalRelayer > 0 {
      Product(a, b); Product(a * b, r); Product(totalHop, totalRelayer);
      ScaledDivision(a * b * r, totalHop * totalRelayer, INTERIOR_SCALE);
      if a == 0 || b == 0 || r == 0 { ZeroShare(a * b * r, totalHop * totalRelayer); }
    }
  }

  /** Why the hops are combined in one pass: where all three computations succeed,
      charging hop by hop gives what the single pass gives, or one unit less, exactly
      when what its two divisions leave over makes up a whole unit. The relayer's
      usage is part of the total. */
  lemma SinglePassAgainstChain(fee: u64, hop: u64, relayer: u64, totalHop: u64, totalRelayer: u64)
    requires relayer <= totalRelayer
    ensures var (single, first) := (MultiHopShare(fee, hop, relayer, totalHop, totalRelayer), CorridorShare(fee, hop, totalHop));
      single.Ok? && first.Ok? ==>
        var chained := CorridorShare(first.value, relayer, totalRelayer);
        chained.Ok? ==>
          single.value == chained.value
            + if LeftOver(fee * hop, relayer, totalHop, totalRelayer) < totalHop * totalRelayer then 0 else 1
  {
    hide CorridorShare, MultiHopShare;
    CorridorExact(fee, hop, totalHop);
    MultiHopExact(fee, hop, relayer, totalHop, totalRelayer);
    if CorridorShare(fee, hop, totalHop).Ok? {
      CorridorExact(CorridorShare(fee, hop, totalHop).value, relayer, totalRelayer);
      if CorridorShare(CorridorShare(fee, hop, totalHop).value, relayer, totalRelayer).Ok? {
        Product(totalHop, totalRelayer);
        ChainStep(fee * hop, relayer, totalHop, totalRelayer);
      }
    }
  }

  /** What dividing by `h`, multiplying by `r` and dividing by `n` loses, in units of 1/(h*n). */
  function LeftOver(x: nat, r: nat, h: nat, n: nat): int
    requires h > 0 && n > 0
  {
    (x / h * r) % n * h + x % h * r
  }

  lemma ChainStep(x: nat, r: nat, h: nat, n: nat)
    requires h > 0 && n > 0 && r <= n && h * n > 0
    ensures x * r / (h * n) == x / h * r / n + if (x / h * r) % n * h + x % h * r < h * n then 0 else 1
  {
    hide *;
    var (q, e) := (x / h, x % h);
    DivFloor(x, h);
    Product(q, r);
    var (c, f) := (q * r / n, q * r % n);
    DivFloor(q * r, n);
    var rest := f * h + e * r;
    ChainIdentity(x, q, e, r, c, f, h, n);
    RestBelowTwo(f, h, e, r, n);
    if rest < h * n {
      QuotientUnique(x * r, h * n, c, rest);
    } else {
      Distribute(h * n, c, 1);
      QuotientUnique(x * r, h * n, c + 1, rest - h * n);
    }
  }

  lemma ChainIdentity(x: int, q: int, e: int, r: int, c: int, f: int, h: int, n: int)
    requires x == q * h + e && q * r == c * n + f
    ensures x * r == c * (h * n) + (f * h + e * r)
  {
    assert (q * h + e) * r == (q * r) * h + e * r;
    assert (c * n + f) * h == c * (h * n) + f * h;
  }

  lemma RestBelowTwo(f: nat, h: nat, e: nat, r: nat, n: nat)
    requires f < n && e < h && r <= n
    ensures 0 <= f * h + e * r < 2 * (h * n)
  {
    MulMono(f, n - 1, h, h);
    MulMono(e, h - 1, r, n);
    Distribute(h, n, -1);
    Distribute(n, h, -1);
  }

  // ----- splitting with dust -----

  ghost function Sum(xs: seq<nat>): nat
  {
    if xs == [] then 0 else Sum(xs[..|xs| - 1]) + xs[|xs| - 1]
  }

  function Portion(amount: nat, share: nat, whole: nat): nat
    requires whole > 0
  {
    Product(amount, share);
    amount * share / whole
  }

  ghost function Portions(amount: nat, shares: seq<nat>, whole: nat): seq<nat>
    requires whole > 0
  {
    if shares == [] then []
    else Portions(amount, shares[..|shares| - 1], whole) + [Portion(amount, shares[|shares| - 1], whole)]
  }

  /** What a split must be: it hands out the whole amount, every part but the
      last is the floor of its proportional share, and the last one is its own
      floor plus the dust, less than one unit for each recipient. */
  ghost predicate FairSplit(amount: nat, shares: seq<nat>, parts: seq<nat>)
    requires shares != [] && Sum(shares) > 0
  {
    var n := |shares|;
    && |parts| == n && Sum(parts) == amount
    && parts[..n - 1] == Portions(amount, shares[..n - 1], Sum(shares))
    && Portion(amount, shares[n - 1], Sum(shares)) <= parts[n - 1] < Portion(amount, shares[n - 1], Sum(shares)) + n
  }

  lemma SumAppend(xs: seq<nat>, x: nat)
    ensures Sum(xs + [x]) == Sum(xs) + x
  {
    assert (xs + [x])[..|xs|] == xs;
  }

  lemma {:induction false} SumPrefix(xs: seq<nat>, k: nat)
    requires k <= |xs|
    ensures Sum(xs[..k]) <= Sum(xs)
    decreases |xs|
  {
    if k == |xs| {
      assert xs[..k] == xs;
    } else {
      var m := |xs| - 1;
      assert xs[..m][..k] == xs[..k];
      SumPrefix(xs[..m], k);
    }
  }

  ghost function Remainders(amount: nat, shares: seq<nat>, whole: nat): int
    requires whole > 0
  {
    if shares == [] then 0
    else Remainders(amount, shares[..|shares| - 1], whole) + (amount * shares[|shares| - 1]) % whole
  }

  /** Floors and remainders account for everything. */
  lemma {:induction false} PortionsAccount(amount: nat, shares: seq<nat>, whole: nat)
    requires whole > 0
    ensures whole * Sum(Portions(amount, shares, whole)) + Remainders(amount, shares, whole) == amount * Sum(shares)
    ensures 0 <= Remainders(amount, shares, whole) <= |shares| * (whole - 1)
    ensures |Portions(amount, shares, whole)| == |shares|
  {
    if shares != [] {
      var k := |shares| - 1;
      var (init, s) := (shares[..k], shares[k]);
      PortionsAccount(amount, init, whole);
      AccountStep(amount, init, s, whole);
      assert shares == init + [s];
    }
  }

  lemma AccountStep(amount: nat, init: seq<nat>, s: nat, whole: nat)
    requires whole > 0
    requires whole * Sum(Portions(amount, init, whole)) + Remainders(amount, init, whole) == amount * Sum(init)
    requires 0 <= Remainders(amount, init, whole) <= |init| * (whole - 1) && |Portions(amount, init, whole)| == |init|
    ensures var shares := init + [s];
      && whole * Sum(Portions(amount, shares, whole)) + Remainders(amount, shares, whole) == amount * Sum(shares)
      && 0 <= Remainders(amount, shares, whole) <= |shares| * (whole - 1)
      && |Portions(amount, shares, whole)| == |shares|
  {
    var (p, r) := (Portion(amount, s, whole), (amount * s) % whole);
    var before := Portions(amount, init, whole);
    PortionsAppend(amount, init, s, whole);
    SumAppend(before, p);
    SumAppend(init, s);
    assert amount * s == whole * p + r by { Product(amount, s); DivFloor(amount * s, whole); }
    var m := Remainders(amount, init, whole);
    hide *;
    AddOneDivision(whole, Sum(before), m, amount, Sum(init), |init|, s, p, r);
  }

  lemma AddOneDivision(w: nat, q: nat, m: int, a: nat, x: nat, n: nat, s: nat, p: nat, r: nat)
    requires w * q + m == a * x && 0 <= m <= n * (w - 1)
    requires a * s == w * p + r && r < w
    ensures w * (q + p) + (m + r) == a * (x + s)
    ensures 0 <= m + r <= (n + 1) * (w - 1)
  {
    Distribute(w, q, p);
    Distribute(a, x, s);
    Distribute(w - 1, n, 1);
  }

  lemma PortionsAppend(amount: nat, init: seq<nat>, s: nat, whole: nat)
    requires whole > 0
    ensures Portions(amount, init + [s], whole) == Portions(amount, init, whole) + [Portion(amount, s, whole)]
    ensures Remainders(amount, init + [s], whole) == Remainders(amount, init, whole) + (amount * s) % whole
  {
    assert (init + [s])[..|init|] == init;
  }

  /** The floors of all shares leave less than one unit per recipient. */
  lemma DustBound(amount: nat, shares: seq<nat>)
    requires Sum(shares) > 0
    ensures var left := amount - Sum(Portions(amount, shares, Sum(shares))); 0 <= left < |shares|
  {
    var t := Sum(shares);
    var f := Sum(Portions(amount, shares, t));
    PortionsAccount(amount, shares, t);
    assert shares != [];
    hide *;
    LessThanOneEach(t, amount, f, |shares|, Remainders(amount, shares, t));
  }

  lemma LessThanOneEach(t: nat, amount: int, f: int, n: nat, rest: int)
    requires t > 0 && n > 0 && t * f + rest == amount * t && 0 <= rest <= n * (t - 1)
    ensures 0 <= amount - f < n
  {
    var left := amount - f;
    assert t * left == rest;
    Distribute(n, t, -1);
    if left >= n { MulLe(n, left, t); }
    if left < 0 { MulLt(left, 0, t); }
  }

  lemma SplitIsFair(amount: nat, shares: seq<nat>)
    requires shares != [] && Sum(shares) > 0
    ensures var n := |shares|;
      var floors := Portions(amount, shares[..n - 1], Sum(shares));
      Sum(floors) <= amount && FairSplit(amount, shares, floors + [amount - Sum(floors)])
  {
    var (n, t) := (|shares|, Sum(shares));
    var floors := Portions(amount, shares[..n - 1], t);
    DustBound(amount, shares);
    PortionsAccount(amount, shares[..n - 1], t);
    SumAppend(floors, Portion(amount, shares[n - 1], t));
    SumAppend(floors, amount - Sum(floors));
  }

  // ----- the code -----

  lemma PortionsStep(amount: nat, shares: seq<u64>, i: nat, whole: nat)
    requires whole > 0 && i < |shares|
    ensures Portions(amount, shares[..i + 1], whole) == Portions(amount, shares[..i], whole) + [Portion(amount, shares[i], whole)]
    ensures Sum(shares[..i + 1]) == Sum(shares[..i]) + shares[i]
  {
    assert shares[..i + 1][..i] == shares[..i];
  }

  lemma PortionAtMost(amount: nat, share: nat, whole: nat)
    requires whole > 0 && share <= whole
    ensures Portion(amount, share, whole) <= amount
  {
    MulLe(share, whole, amount);
    DivFloor(amount * share, whole);
    Product(amount, share);
    CancelFactor(whole, amount * share / whole, amount);
  }

  /** The first k floors of a split never exceed the amount. */
  lemma {:induction false} FloorsWithin(amount: nat, shares: seq<nat>, k: nat)
    requires Sum(shares) > 0 && k <= |shares|
    ensures Sum(Portions(amount, shares[..k], Sum(shares))) <= amount
  {
    var t := Sum(shares);
    PortionsAccount(amount, shares[..k], t);
    SumPrefix(shares, k);
    var f := Sum(Portions(amount, shares[..k], t));
    MulLe(Sum(shares[..k]), t, amount);
    hide *;
    CancelFactor(t, f, amount);
  }

  lemma ShareAtMostSum(shares: seq<nat>, i: nat)
    requires i < |shares|
    ensures shares[i] <= Sum(shares)
  {
    SumPrefix(shares, i + 1);
    assert shares[..i + 1][..i] == shares[..i];
  }

  /** The arithmetic that can fail: the growth counter, and a 127-bit product
      for every recipient but the last. */
  predicate ProductsFit(amount: nat, shares: seq<u64>)
  {
    forall i :: 0 <= i < |shares| - 1 ==> FitsI128(amount * shares[i])
  }

  lemma ProductsFitMeaning(amount: nat, shares: seq<u64>)
    ensures ProductsFit(amount, shares) <==> forall i :: 0 <= i < |shares| - 1 ==> amount * shares[i] < TWO127
  {
    forall i | 0 <= i < |shares| ensures amount * shares[i] >= 0 { Product(amount, shares[i]); }
  }

  method SumShares(shares: seq<u64>) returns (total: nat)
    ensures total == Sum(shares)
  {
    total := 0;
    for i := 0 to |shares|
      invariant total == Sum(shares[..i])
    {
      assert shares[..i + 1][..i] == shares[..i];
      total := total + shares[i];
    }
    assert shares[..|shares|] == shares;
  }

  class FlashLoanFeeGrowth {
    var feeGrowthAccumulator: i128

    constructor ()
      ensures feeGrowthAccumulator == 0
    {
      feeGrowthAccumulator := 0;
    }

    /** `settle_flash_loan_fee`: succeeds exactly when there are shares and the
        checked products fit, and then splits the fee fairly. The internal
        subtraction and the final equality test cannot fail. */
    method SettleFlashLoanFee(flashFee: u64, lpShares: seq<u64>) returns (r: Result<seq<u64>, ContractError>)
      requires |lpShares| <= U32_MAX
      modifies this
      ensures r.Ok? <==>
        && Sum(lpShares) > 0
        && (forall i :: 0 <= i < |lpShares| - 1 ==> flashFee * lpShares[i] < TWO127)
        && old(feeGrowthAccumulator) + flashFee * 100_000_000_000_000 / Sum(lpShares) < TWO127
      ensures r.Ok? ==> lpShares != [] && FairSplit(flashFee, lpShares, r.value)
      ensures r.Err? ==> r.error == if Sum(lpShares) == 0 then DivisionByZero else Overflow
      ensures feeGrowthAccumulator ==
        if Sum(lpShares) > 0 && old(feeGrowthAccumulator) + flashFee * 100_000_000_000_000 / Sum(lpShares) < TWO127
        then old(feeGrowthAccumulator) + flashFee * 100_000_000_000_000 / Sum(lpShares)
        else old(feeGrowthAccumulator)
    {
      ProductsFitMeaning(flashFee, lpShares);
      hide ProductsFit;
      var totalLp := SumShares(lpShares);
      if totalLp <= 0 || |lpShares| == 0 {
        return Err(DivisionByZero);
      }
      QuotientAtMost(flashFee * LP_FEE_GROWTH_SCALE, totalLp);
      var growth := feeGrowthAccumulator + flashFee * LP_FEE_GROWTH_SCALE / totalLp;
      if !FitsI128(growth) {
        return Err(Overflow);
      }
      feeGrowthAccumulator := growth;
      var allocations := SplitWithDust(flashFee, lpShares, totalLp);
      r := if allocations.None? then Err(Overflow) else Ok(allocations.value);
    }
  }

  /** A fee of 2^64 - 1 over shares 2^64 - 1 and 1: the growth counter advances by
      almost 10^14, and then the first product leaves 127 bits. */
  lemma GrowthAdvancesThenSplitOverflows()
    ensures var shares: seq<u64> := [U64_MAX, 1];
      var growth := U64_MAX * LP_FEE_GROWTH_SCALE / Sum(shares);
      Sum(shares) > 0 && growth > 0 && FitsI128(growth) && !ProductsFit(U64_MAX, shares)
  {
    var shares: seq<u64> := [U64_MAX, 1];
    assert shares[..1] == [U64_MAX] && [U64_MAX][..0] == [];
    assert Sum([]) == 0 && Sum([U64_MAX]) == U64_MAX;
    assert !FitsI128(U64_MAX * shares[0]);
  }

  /** The allocation loop: floors, then the rest to the last recipient. */
  method SplitWithDust(amount: u64, shares: seq<u64>, whole: nat) returns (r: Option<seq<u64>>)
    requires shares != [] && whole == Sum(shares) > 0
    ensures r.Some? <==> ProductsFit(amount, shares)
    ensures r.Some? ==> FairSplit(amount, shares, r.value)
  {
    hide Sum, Portions, FairSplit, Portion;
    var allocations: seq<u64> := [];
    var handedOut: nat := 0;
    var last := |shares| - 1;
    StartSplit(amount, shares, whole);
    for index := 0 to |shares|
      invariant index <= last ==> allocations == Portions(amount, shares[..index], whole) && handedOut == Sum(allocations) <= amount
      invariant index <= last ==> forall i :: 0 <= i < index ==> FitsI128(amount * shares[i])
      invariant index > last ==> ProductsFit(amount, shares) && FairSplit(amount, shares, allocations) && handedOut == amount
    {
      if index == last {
        SplitIsFair(amount, shares);
        var allocation := amount - handedOut;
        handedOut := handedOut + allocation;
        allocations := allocations + [allocation];
      } else {
        if !FitsI128(amount * shares[index]) {
          return None;
        }
        ShareAtMostSum(shares, index);
        PortionAtMost(amount, shares[index], whole);
        PortionsStep(amount, shares, index, whole);
        FloorsWithin(amount, shares, index + 1);
        var allocation := Portion(amount, shares[index], whole);
        SumAppend(allocations, allocation);
        handedOut := handedOut + allocation;
        allocations := allocations + [allocation];
      }
    }
    assert handedOut == amount;
    r := Some(allocations);
  }

  lemma StartSplit(amount: nat, shares: seq<u64>, whole: nat)
    requires whole > 0
    ensures Portions(amount, shares[..0], whole) == [] && Sum([]) == 0
  {}

  /** Every scaled product fits 127 bits and every part fits 64. */
  ghost predicate DistributionFits(pool: nat, weights: seq<u64>)
    requires weights != [] && Sum(weights) > 0
  {
    var (n, t) := (|weights|, Sum(weights));
    && FitsI128(pool * INTERIOR_SCALE)
    && (forall i :: 0 <= i < n - 1 ==>
          FitsI128(pool * INTERIOR_SCALE * weights[i]) && FitsU64(Portion(pool, weights[i], t)))
    && FitsU64(pool - Sum(Portions(pool, weights[..n - 1], t)))
  }

  lemma DistributionFitsMeaning(pool: nat, weights: seq<u64>)
    requires weights != [] && Sum(weights) > 0
    ensures var (n, t) := (|weights|, Sum(weights));
      DistributionFits(pool, weights) <==>
        && pool * 100_000_000_000_000 < TWO127
        && (forall i :: 0 <= i < n - 1 ==>
              pool * 100_000_000_000_000 * weights[i] < TWO127 && pool * weights[i] / t < TWO64)
        && pool - Sum(Portions(pool, weights[..n - 1], t)) < TWO64
  {
    var (n, t) := (|weights|, Sum(weights));
    FloorsWithin(pool, weights, n - 1);
    forall i | 0 <= i < n ensures pool * 100_000_000_000_000 * weights[i] >= 0 && Portion(pool, weights[i], t) >= 0 {
      Product(pool, weights[i]);
      Product(pool * 100_000_000_000_000, weights[i]);
    }
  }

  /** `distribute_variable_fee_pool`: the amount split is the pool at the 10^7
      scale; a part that does not fit 64 bits, or a scaled product that does not
      fit, is an overflow. */
  method DistributeVariableFeePool(variablePool: u64, weights: seq<u64>) returns (r: Result<seq<u64>, ContractError>)
    requires |weights| <= U32_MAX
    ensures Sum(weights) == 0 ==> r == Ok([])
    ensures Sum(weights) > 0 ==> weights != [] && (r.Ok? <==> DistributionFits(variablePool * 10_000_000, weights))
    ensures Sum(weights) > 0 && r.Ok? ==>
      weights != [] && FairSplit(variablePool * 10_000_000, weights, r.value)
    ensures r.Err? ==> r.error == MathOverflow
  {
    hide Sum, Portions, FairSplit, Portion;
    var totalWeight := SumShares(weights);
    if totalWeight == 0 || |weights| == 0 {
      assert Sum(weights) == 0 by { EmptySum(); }
      return Ok([]);
    }
    var pool := variablePool * FIXED_POINT_SCALE;
    var interiorPool := pool * INTERIOR_SCALE;
    if !FitsI128(interiorPool) {
      return Err(MathOverflow);
    }
    var profiles: seq<u64> := [];
    var assignedTotal: nat := 0;
    var last := |weights| - 1;
    StartSplit(pool, weights, totalWeight);
    for index := 0 to |weights|
      invariant index <= last ==> profiles == Portions(pool, weights[..index], totalWeight) && assignedTotal == Sum(profiles) <= pool
      invariant forall i :: 0 <= i < index && i < last ==>
        FitsI128(interiorPool * weights[i]) && FitsU64(Portion(pool, weights[i], totalWeight))
      invariant index > last ==> FairSplit(pool, weights, profiles) && DistributionFits(pool, weights)
    {
      var profile: nat;
      if index == last {
        SplitIsFair(pool, weights);
        profile := pool - assignedTotal;
      } else {
        if !FitsI128(interiorPool * weights[index]) {
          return Err(MathOverflow);
        }
        InteriorPortion(pool, weights[index], totalWeight);
        profile := interiorPool * weights[index] / totalWeight / INTERIOR_SCALE;
        PortionsStep(pool, weights, index, totalWeight);
        FloorsWithin(pool, weights, index + 1);
        SumAppend(profiles, profile);
      }
      assignedTotal := assignedTotal + profile;
      if !FitsU64(profile) {
        return Err(MathOverflow);
      }
      profiles := profiles + [profile];
    }
    r := Ok(profiles);
  }

  lemma EmptySum()
    ensures Sum([]) == 0
  {}

  lemma InteriorPortion(pool: nat, weight: nat, whole: nat)
    requires whole > 0
    ensures pool * INTERIOR_SCALE * weight >= 0
    ensures pool * INTERIOR_SCALE * weight / whole >= 0
    ensures pool * INTERIOR_SCALE * weight / whole / INTERIOR_SCALE == Portion(pool, weight, whole)
  {
    Product(pool, weight);
    assert pool * INTERIOR_SCALE * weight == (pool * weight) * INTERIOR_SCALE;
    ScaledDivision(pool * weight, whole, INTERIOR_SCALE);
  }
}

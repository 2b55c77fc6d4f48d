/** Dynamic observation window of the TWAP oracle (src/twap_window.rs). */
module TwapWindow {
  import opened Machine
  import opened Arithmetic

  const BPS_DENOM: nat := 10_000

  datatype Observation = Observation(timestamp: u64, price: i128)

  datatype Config = Config(
    normalWindowSecs: u64, highVolatilityWindowSecs: u64, minObservations: u32,
    volatilityThresholdBps: u64, maxObservations: u32)

  /** `validate_config` */
  predicate ValidConfig(c: Config)
  {
    && c.normalWindowSecs != 0
    && c.highVolatilityWindowSecs >= c.normalWindowSecs
    && c.minObservations != 0
    && c.minObservations <= c.maxObservations
    && c.volatilityThresholdBps != 0
    && c.maxObservations != 0
  }

  /** `within_window`: the addition saturates. */
  predicate Within(timestamp: u64, now: u64, windowSecs: u64)
  {
    Min(timestamp + windowSecs, U64_MAX) >= now
  }

  // ----- selections of a log -----

  ghost function InWindow(s: seq<Observation>, now: u64, w: u64): seq<Observation>
  {
    if s == [] then []
    else (if Within(s[0].timestamp, now, w) then [s[0]] else []) + InWindow(s[1..], now, w)
  }

  function LastN<T>(s: seq<T>, n: nat): seq<T>
  {
    if |s| <= n then s else s[|s| - n..]
  }

  ghost predicate Sorted(s: seq<Observation>)
  {
    forall i, j :: 0 <= i <= j < |s| ==> s[i].timestamp <= s[j].timestamp
  }

  lemma {:induction false} InWindowAppend(x: seq<Observation>, y: seq<Observation>, now: u64, w: u64)
    ensures InWindow(x + y, now, w) == InWindow(x, now, w) + InWindow(y, now, w)
  {
    hide Within;
    if x == [] {
      assert x + y == y;
    } else {
      assert (x + y)[0] == x[0] && (x + y)[1..] == x[1..] + y;
      InWindowAppend(x[1..], y, now, w);
    }
  }

  /** Selecting by a window inside an earlier one: the first selection is redundant. */
  lemma {:induction false} InWindowTwice(s: seq<Observation>, t: u64, v: u64, now: u64, w: u64)
    requires t <= now && w <= v
    ensures InWindow(InWindow(s, t, v), now, w) == InWindow(s, now, w)
  {
    if s != [] {
      InWindowTwice(s[1..], t, v, now, w);
      var head := if Within(s[0].timestamp, t, v) then [s[0]] else [];
      InWindowAppend(head, InWindow(s[1..], t, v), now, w);
      assert head != [] ==> head[1..] == [];
    }
  }

  lemma {:induction false} AllInWindow(s: seq<Observation>, now: u64, w: u64)
    requires forall i :: 0 <= i < |s| ==> Within(s[i].timestamp, now, w)
    ensures InWindow(s, now, w) == s
  {
    if s != [] { AllInWindow(s[1..], now, w); }
  }

  lemma {:induction false} InWindowLength(s: seq<Observation>, now: u64, w: u64)
    ensures |InWindow(s, now, w)| <= |s|
  {
    if s != [] { InWindowLength(s[1..], now, w); }
  }

  /** On a sorted log, keeping the last n and selecting by a window commute. */
  lemma {:induction false} LastNCommutes(s: seq<Observation>, n: nat, now: u64, w: u64)
    requires Sorted(s)
    ensures InWindow(LastN(s, n), now, w) == LastN(InWindow(s, now, w), n)
  {
    InWindowLength(s, now, w);
    if |s| <= n {
    } else if Within(s[0].timestamp, now, w) {
      SortedWithin(s, now, w);
      hide InWindow, Within;
      AllInWindow(s, now, w);
      var last := LastN(s, n);
      assert forall i :: 0 <= i < |last| ==> last[i] == s[|s| - n + i];
      AllInWindow(last, now, w);
    } else {
      SortedTail(s);
      hide Sorted, Within;
      LastNCommutes(s[1..], n, now, w);
      assert LastN(s, n) == LastN(s[1..], n);
      assert InWindow(s, now, w) == [] + InWindow(s[1..], now, w);
      assert [] + InWindow(s[1..], now, w) == InWindow(s[1..], now, w);
    }
  }

  lemma SortedWithin(s: seq<Observation>, now: u64, w: u64)
    requires Sorted(s) && s != [] && Within(s[0].timestamp, now, w)
    ensures forall i :: 0 <= i < |s| ==> Within(s[i].timestamp, now, w)
  {}

  lemma SortedTail(s: seq<Observation>)
    requires Sorted(s) && s != []
    ensures Sorted(s[1..])
  {}

  lemma LastNAppend<T>(s: seq<T>, x: T, n: nat)
    requires n > 0
    ensures LastN(LastN(s, n) + [x], n) == LastN(s + [x], n)
  {}

  // ----- the retained log against the full history -----

  /** The log `record_observation` stores. */
  ghost function Record(log: seq<Observation>, c: Config, x: Observation): seq<Observation>
  {
    LastN(InWindow(log, x.timestamp, c.highVolatilityWindowSecs) + [x], c.maxObservations)
  }

  /** What should be stored: the newest entries of the history that are within
      the wide window of the newest one, at most `maxObservations` of them. */
  ghost function Retained(h: seq<Observation>, c: Config): seq<Observation>
  {
    if h == [] then []
    else LastN(InWindow(h, h[|h| - 1].timestamp, c.highVolatilityWindowSecs), c.maxObservations)
  }

  lemma RecordRetains(h: seq<Observation>, c: Config, x: Observation)
    requires ValidConfig(c) && Sorted(h + [x])
    ensures Record(Retained(h, c), c, x) == Retained(h + [x], c)
  {
    var (w, n, now) := (c.highVolatilityWindowSecs, c.maxObservations, x.timestamp);
    assert InWindow([x], now, w) == [x] by { AllInWindow([x], now, w); }
    InWindowAppend(h, [x], now, w);
    assert (h + [x])[|h|] == x;
    if h == [] {
      assert h + [x] == [x];
    } else {
      var t := h[|h| - 1].timestamp;
      SortedPrefix(h, x);
      LastNCommutes(h, n, t, w);
      LastNCommutes(h, n, now, w);
      InWindowTwice(LastN(h, n), t, w, now, w);
      hide InWindow, LastN;
      LastNAppend(InWindow(h, now, w), x, n);
    }
  }

  lemma SortedPrefix(h: seq<Observation>, x: Observation)
    requires Sorted(h + [x])
    ensures Sorted(h) && forall i :: 0 <= i < |h| ==> h[i].timestamp <= x.timestamp
  {
    var all := h + [x];
    assert forall i :: 0 <= i < |h| ==> all[i] == h[i];
    assert all[|h|] == x;
  }

  ghost function RecordAll(c: Config, h: seq<Observation>): seq<Observation>
  {
    if h == [] then [] else Record(RecordAll(c, h[..|h| - 1]), c, h[|h| - 1])
  }

  /** Over every run of observations with nondecreasing timestamps the stored
      log is the retained part of the full history. */
  lemma {:induction false} EveryRunRetains(c: Config, h: seq<Observation>)
    requires ValidConfig(c) && Sorted(h)
    ensures RecordAll(c, h) == Retained(h, c)
  {
    if h != [] {
      EveryRunRetains(c, h[..|h| - 1]);
      assert h == h[..|h| - 1] + [h[|h| - 1]];
      RecordRetains(h[..|h| - 1], c, h[|h| - 1]);
    }
  }

  /** The retained log is the longest suffix of the history that is within the
      wide window of the newest entry and no longer than the cap. */
  lemma RetainedIsLongestSuffix(h: seq<Observation>, c: Config) returns (k: nat)
    requires ValidConfig(c) && Sorted(h) && h != []
    ensures k < |h| && Retained(h, c) == h[k..] && |h| - k <= c.maxObservations
    ensures forall i :: k <= i < |h| ==> h[i].timestamp + c.highVolatilityWindowSecs >= h[|h| - 1].timestamp
    ensures k > 0 ==> |h| - k == c.maxObservations
                      || h[k - 1].timestamp + c.highVolatilityWindowSecs < h[|h| - 1].timestamp
  {
    var (now, w) := (h[|h| - 1].timestamp, c.highVolatilityWindowSecs);
    var j := WindowIsSuffix(h, now, w);
    k := if |h| - j <= c.maxObservations then j else |h| - c.maxObservations;
    assert h[|h| - 1].timestamp + w >= now;
    assert h[j..][|h| - j - (|h| - k)..] == h[k..];
    hide InWindow, Sorted, Within;
  }

  lemma {:induction false} WindowIsSuffix(s: seq<Observation>, now: u64, w: u64) returns (k: nat)
    requires Sorted(s)
    ensures k <= |s| && InWindow(s, now, w) == s[k..]
    ensures forall i :: 0 <= i < |s| ==> (s[i].timestamp + w >= now <==> k <= i)
  {
    if s == [] || Within(s[0].timestamp, now, w) {
      k := 0;
      AllInWindow(s, now, w);
    } else {
      var m := WindowIsSuffix(s[1..], now, w);
      k := m + 1;
      assert s[1..][m..] == s[k..];
      forall i | 0 < i < |s| ensures s[i].timestamp + w >= now <==> k <= i {
        assert s[1..][i - 1] == s[i];
      }
    }
  }

  /** Any later query over a window no wider than the wide one sees in the
      stored log exactly what it would see in the last `maxObservations` entries
      of the full history, that is, the newest of all entries in the window. */
  lemma QueriesAgree(h: seq<Observation>, c: Config, now: u64, w: u64)
    requires ValidConfig(c) && Sorted(h) && w <= c.highVolatilityWindowSecs
    requires h != [] ==> h[|h| - 1].timestamp <= now
    ensures InWindow(Retained(h, c), now, w) == InWindow(LastN(h, c.maxObservations), now, w)
    ensures InWindow(Retained(h, c), now, w) == LastN(InWindow(h, now, w), c.maxObservations)
  {
    if h != [] {
      var t := h[|h| - 1].timestamp;
      LastNCommutes(h, c.maxObservations, t, c.highVolatilityWindowSecs);
      InWindowTwice(LastN(h, c.maxObservations), t, c.highVolatilityWindowSecs, now, w);
      LastNCommutes(h, c.maxObservations, now, w);
    }
  }

  /** The minimum-sample gate decides on the stored log as it would on the full
      history: capping the log cannot turn a sufficient window insufficient. */
  lemma GateAgreesWithFullHistory(h: seq<Observation>, c: Config, now: u64, w: u64)
    requires ValidConfig(c) && Sorted(h) && w <= c.highVolatilityWindowSecs
    requires h != [] ==> h[|h| - 1].timestamp <= now
    ensures |InWindow(Retained(h, c), now, w)| == Min(c.maxObservations, |InWindow(h, now, w)|)
    ensures |InWindow(Retained(h, c), now, w)| >= c.minObservations <==> |InWindow(h, now, w)| >= c.minObservations
  {
    QueriesAgree(h, c, now, w);
  }

  // ----- average and volatility of a window's samples -----

  function Clamp128(x: int): i128 { Max(I128_MIN, Min(I128_MAX, x)) }

  ghost function SaturatingSum(s: seq<Observation>): i128
  {
    if s == [] then 0 else Clamp128(SaturatingSum(s[..|s| - 1]) + s[|s| - 1].price)
  }

  ghost function Average(s: seq<Observation>): int
  {
    if s == [] then 0 else TruncDiv(SaturatingSum(s), |s|)
  }

  lemma {:induction false} SumWithinPrices(s: seq<Observation>, lo: int, hi: int)
    requires forall x :: x in s ==> lo <= x.price <= hi
    requires I128_MIN <= |s| * lo && |s| * hi <= I128_MAX
    ensures |s| * lo <= SaturatingSum(s) <= |s| * hi
  {
    if s != [] {
      var k := |s| - 1;
      assert s[k] in s && |s| * lo == k * lo + lo && |s| * hi == k * hi + hi;
      if lo > 0 { MulLe(0, lo, k); }
      if hi < 0 { MulLe(hi, 0, k); }
      SumWithinPrices(s[..k], lo, hi);
    }
  }

  /** The average lies between any bounds on the prices that leave room for their
      sum; with no samples it is 0. */
  lemma AverageWithinPrices(s: seq<Observation>, lo: int, hi: int)
    requires forall x :: x in s ==> lo <= x.price <= hi
    requires I128_MIN <= |s| * lo && |s| * hi <= I128_MAX
    ensures if s == [] then Average(s) == 0 else lo <= Average(s) <= hi
  {
    if s != [] {
      SumWithinPrices(s, lo, hi);
      TruncDivWithin(SaturatingSum(s), |s|, lo, hi);
    }
  }

  lemma TruncDivWithin(x: int, n: int, lo: int, hi: int)
    requires n > 0 && n * lo <= x <= n * hi
    ensures lo <= TruncDiv(x, n) <= hi
  {
    if x >= 0 {
      FloorWithin(x, n, lo, hi);
    } else {
      assert n * (0 - hi) == 0 - n * hi && n * (0 - lo) == 0 - n * lo;
      FloorWithin(0 - x, n, 0 - hi, 0 - lo);
    }
  }

  lemma FloorWithin(x: nat, n: int, lo: int, hi: int)
    requires n > 0 && n * lo <= x <= n * hi
    ensures lo <= x / n <= hi
  {
    var q := x / n;
    DivFloor(x, n);
    CancelFactor(n, q, hi);
    if lo > q {
      MulLe(q + 1, lo, n);
      Distribute(n, q, 1);
    }
  }

  /** The return of one tick in basis points, with the code's overflow fallbacks. */
  function TickBps(previous: i128, price: i128): u128
    requires previous > 0
  {
    var delta := if FitsI128(price - previous) then (if price >= previous then price - previous else previous - price)
                 else U128_MAX;
    if FitsU128(delta * BPS_DENOM) then
      QuotientAtMost(delta * BPS_DENOM, previous);
      delta * BPS_DENOM / previous
    else U128_MAX
  }

  /** One more tick: a saturating total and a count, skipping ticks from a
      price that is not positive. */
  function AddTick(acc: (u128, nat), previous: i128, price: i128): (u128, nat)
  {
    if previous > 0 then (Min(U128_MAX, acc.0 + TickBps(previous, price)), acc.1 + 1) else acc
  }

  /** The total of the tick returns of consecutive samples, and how many there are. */
  ghost function Ticks(s: seq<Observation>): (u128, nat)
  {
    if |s| <= 1 then (0, 0)
    else AddTick(Ticks(s[..|s| - 1]), s[|s| - 2].price, s[|s| - 1].price)
  }

  ghost function MeanTickBps(s: seq<Observation>): u128
  {
    var (total, pairs) := Ticks(s);
    if pairs == 0 then 0 else QuotientAtMost(total, pairs); total / pairs
  }

  /** The reported volatility: the mean cast to 64 bits. */
  ghost function Volatility(s: seq<Observation>): u64 { MeanTickBps(s) % TWO64 }

  // ----- the reported volatility against the documented mean -----

  /** |p' - p| * 10000 over unbounded integers. */
  function ScaledMove(previous: int, price: int): nat
  {
    (if price >= previous then price - previous else previous - price) * BPS_DENOM
  }

  /** The documented return of one tick, over unbounded integers. */
  function ExactTick(previous: int, price: int): nat
    requires previous > 0
  {
    ScaledMove(previous, price) / previous
  }

  /** Sum and number of the exact returns of consecutive samples. */
  ghost function ExactTicks(s: seq<Observation>): (nat, nat)
  {
    if |s| <= 1 then (0, 0)
    else
      var (total, pairs) := ExactTicks(s[..|s| - 1]);
      var (previous, price) := (s[|s| - 2].price, s[|s| - 1].price);
      if previous > 0 then (total + ExactTick(previous, price), pairs + 1) else (total, pairs)
  }

  /** mean(|p' - p| * 10000 / p), each return and the mean rounded down. */
  ghost function ExactMean(s: seq<Observation>): nat
  {
    var (total, pairs) := ExactTicks(s);
    if pairs == 0 then 0 else ExactMeanNonNegative(total, pairs); total / pairs
  }

  lemma ExactMeanNonNegative(total: nat, pairs: nat)
    requires pairs > 0
    ensures total / pairs >= 0
  {}

  /** No move from a positive price is so large that scaling it leaves 128 bits. */
  ghost predicate MovesFit(s: seq<Observation>)
  {
    forall i :: 0 <= i < |s| - 1 && s[i].price > 0 ==> FitsU128(ScaledMove(s[i].price, s[i + 1].price))
  }

  /** One return: the exact one when the scaled move fits, else all ones. */
  lemma TickMeaning(previous: i128, price: i128)
    requires previous > 0
    ensures TickBps(previous, price)
         == if FitsU128(ScaledMove(previous, price)) then ExactTick(previous, price) else U128_MAX
  {}

  lemma MovesFitStep(s: seq<Observation>)
    requires |s| >= 2
    ensures var k := |s| - 1;
      MovesFit(s) <==> MovesFit(s[..k]) && (s[k - 1].price > 0 ==> FitsU128(ScaledMove(s[k - 1].price, s[k].price)))
  {
    var init := s[..|s| - 1];
    assert forall i :: 0 <= i < |init| ==> init[i] == s[i];
  }

  /** The running total is the exact sum cut off at all ones; one move that does not
      fit is enough to cut it off. */
  lemma {:induction false} TicksMeaning(s: seq<Observation>)
    ensures Ticks(s).1 == ExactTicks(s).1 <= |s|
    ensures Ticks(s).0 == if MovesFit(s) then Min(U128_MAX, ExactTicks(s).0) else U128_MAX
  {
    if |s| >= 2 {
      var k := |s| - 1;
      TicksMeaning(s[..k]);
      MovesFitStep(s);
      var (previous, price) := (s[k - 1].price, s[k].price);
      hide MovesFit, ScaledMove, ExactTick, TickBps;
      if previous > 0 { TickMeaning(previous, price); }
    }
  }

  /** The reported volatility of a sample (whose length is a 32-bit number) is the
      documented mean if and only if the mean is below 2^64, when every move fits.
      When some move does not fit the report is a constant that depends on the number
      of returns only, and is the mean only if it happens to be that constant. */
  lemma VolatilityExactIff(s: seq<Observation>)
    requires |s| <= U32_MAX
    ensures Volatility(s) == ExactMean(s)
       <==> if MovesFit(s) then ExactMean(s) < TWO64
            else ExactTicks(s).1 > 0 && ExactMean(s) == U128_MAX / ExactTicks(s).1 % TWO64
  {
    TicksMeaning(s);
    hide Ticks, ExactTicks;
    var (total, pairs) := ExactTicks(s);
    if pairs > 0 {
      if MovesFit(s) && total > U128_MAX {
        LargeMean(total, pairs);
      }
    } else if !MovesFit(s) {
      NoReturns(s);
    }
  }

  /** A sum that leaves 128 bits has a mean above 64 bits. */
  lemma LargeMean(total: nat, pairs: nat)
    requires total > U128_MAX && 0 < pairs <= U32_MAX
    ensures total / pairs >= TWO64
  {
    var q := total / pairs;
    DivFloor(total, pairs);
    if q < TWO64 {
      MulMono(pairs, U32_MAX, q + 1, TWO64);
      Distribute(pairs, q, 1);
    }
  }

  lemma {:induction false} NoReturns(s: seq<Observation>)
    requires ExactTicks(s).1 == 0
    ensures MovesFit(s)
  {
    if |s| >= 2 {
      NoReturns(s[..|s| - 1]);
      MovesFitStep(s);
    }
  }

  /** A price going from 1 to 1 + 2^60 has a return of 10000 * 2^60 basis points,
      a multiple of 2^64: the volatility reported is 0. */
  lemma HugeMoveReportedAsCalm(t0: u64, t1: u64)
    ensures var s := [Observation(t0, 1), Observation(t1, 1 + TWO64 / 16)];
      Volatility(s) == 0 && ExactMean(s) == 10_000 * (TWO64 / 16) && MovesFit(s)
  {
    var s := [Observation(t0, 1), Observation(t1, 1 + TWO64 / 16)];
    assert s[..1] == [Observation(t0, 1)];
    TicksMeaning(s);
  }

  /** A price going from 2^115 to 2^126 has a return of 20470000 basis points, which
      fits 64 bits with room to spare, but the scaled move does not fit 128: the
      volatility reported is 2^64 - 1. */
  lemma LargePricesReportedAsWild(t0: u64, t1: u64)
    ensures var (p, q) := (TWO127 / 4096, TWO127 / 2);
      var s := [Observation(t0, p), Observation(t1, q)];
      Volatility(s) == TWO64 - 1 && ExactMean(s) == 20_470_000 && !MovesFit(s)
  {
    var (p, q) := (TWO127 / 4096, TWO127 / 2);
    var s := [Observation(t0, p), Observation(t1, q)];
    assert s[..1] == [Observation(t0, p)];
    assert !FitsU128(ScaledMove(s[0].price, s[1].price));
    TicksMeaning(s);
  }

  // ----- inspection -----

  datatype Inspection = Inspection(
    windowSecs: u64, sampleCount: nat, volatilityBps: u64, highVolatility: bool, sufficient: bool, twap: int)

  ghost function Inspect(log: seq<Observation>, c: Config, now: u64): Inspection
  {
    var volatility := Volatility(InWindow(log, now, c.highVolatilityWindowSecs));
    var high := volatility >= c.volatilityThresholdBps;
    var w := if high then c.highVolatilityWindowSecs else c.normalWindowSecs;
    var samples := InWindow(log, now, w);
    Inspection(w, |samples|, volatility, high, |samples| >= c.minObservations, Average(samples))
  }

  /** The whole inspection of the stored log is that of the history's last
      `maxObservations` entries. */
  lemma InspectionAgrees(h: seq<Observation>, c: Config, now: u64)
    requires ValidConfig(c) && Sorted(h)
    requires h != [] ==> h[|h| - 1].timestamp <= now
    ensures Inspect(RecordAll(c, h), c, now) == Inspect(LastN(h, c.maxObservations), c, now)
  {
    EveryRunRetains(c, h);
    QueriesAgree(h, c, now, c.highVolatilityWindowSecs);
    QueriesAgree(h, c, now, c.normalWindowSecs);
  }

  // ----- what an inspection reports, without the code's own selections -----

  /** Position `k` starts the newest entries stamped at most `w` seconds before `now`,
      among the last `n`. */
  ghost predicate NewestSince(h: seq<Observation>, n: nat, now: u64, w: u64, k: nat)
  {
    k <= |h| && forall i :: 0 <= i < |h| ==> (k <= i <==> i >= |h| - n && h[i].timestamp + w >= now)
  }

  /** The plain sum of the prices. */
  ghost function ExactSum(s: seq<Observation>): int
  {
    if s == [] then 0 else ExactSum(s[..|s| - 1]) + s[|s| - 1].price
  }

  ghost predicate SumsFit(s: seq<Observation>)
  {
    forall i :: 0 <= i <= |s| ==> FitsI128(ExactSum(s[..i]))
  }

  /** `a` is `x / n` rounded toward zero. */
  predicate IsTruncatedQuotient(a: int, x: int, n: int)
  {
    if x >= 0 then n * a <= x < n * a + n && a >= 0 else n * a - n < x <= n * a && a <= 0
  }

  lemma TruncatedQuotient(x: int, n: int)
    requires n > 0
    ensures IsTruncatedQuotient(TruncDiv(x, n), x, n)
  {
    var m := if x >= 0 then x else 0 - x;
    NaturalQuotient(m, n);
    var q := m / n;
    assert n * (0 - q) == 0 - n * q;
  }

  lemma NaturalQuotient(x: nat, n: int)
    requires n > 0
    ensures x / n >= 0 && n * (x / n) <= x < n * (x / n) + n
  {
    DivFloor(x, n);
  }

  /** The saturating sum is the plain one while no partial sum leaves 127 bits. */
  lemma {:induction false} SumExact(s: seq<Observation>)
    requires SumsFit(s)
    ensures SaturatingSum(s) == ExactSum(s)
  {
    assert s[..|s|] == s;
    if s != [] {
      var init := s[..|s| - 1];
      assert forall i :: 0 <= i <= |init| ==> init[..i] == s[..i];
      SumExact(init);
    }
  }

  /** The average and the window of an inspection of the history `h`: `wide` are the
      samples the volatility is taken from, `samples` those that are averaged. */
  ghost predicate Reports(c: Config, wide: seq<Observation>, samples: seq<Observation>, r: Inspection)
  {
    && (MovesFit(wide) && ExactMean(wide) < TWO64 ==> r.volatilityBps == ExactMean(wide))
    && (r.highVolatility <==> r.volatilityBps >= c.volatilityThresholdBps)
    && r.windowSecs == (if r.volatilityBps < c.volatilityThresholdBps then c.normalWindowSecs
                        else c.highVolatilityWindowSecs)
    && r.sampleCount == |samples| && (r.sufficient <==> c.minObservations <= |samples|)
    && (samples == [] ==> r.twap == 0)
    && (samples != [] && SumsFit(samples) ==> IsTruncatedQuotient(r.twap, ExactSum(samples), |samples|))
  }

  /** An inspection reports on the newest entries in the two windows, at most
      `maxObservations` of them. */
  ghost predicate InspectedAs(h: seq<Observation>, c: Config, now: u64, r: Inspection)
  {
    exists j: nat, k: nat :: NewestSince(h, c.maxObservations, now, c.highVolatilityWindowSecs, j)
                   && NewestSince(h, c.maxObservations, now, r.windowSecs, k)
                   && Reports(c, h[j..], h[k..], r)
  }

  lemma NewestSelected(h: seq<Observation>, n: nat, now: u64, w: u64) returns (k: nat)
    requires Sorted(h)
    ensures NewestSince(h, n, now, w, k) && InWindow(LastN(h, n), now, w) == h[k..]
  {
    var last := LastN(h, n);
    var from: nat := |h| - |last|;
    LastNIs(h, n);
    hide LastN, InWindow, NewestSince, Sorted;
    SortedSuffix(h, from);
    var m := WindowIsSuffix(last, now, w);
    k := from + m;
    SelectedPositions(h, n, now, w, from, m);
  }

  lemma SelectedPositions(h: seq<Observation>, n: nat, now: u64, w: u64, from: nat, m: nat)
    requires from == |h| - Min(n, |h|) && m <= |h| - from
    requires var last := h[from..];
      forall i :: 0 <= i < |last| ==> (last[i].timestamp + w >= now <==> m <= i)
    ensures NewestSince(h, n, now, w, from + m) && h[from..][m..] == h[from + m..]
  {
    var last := h[from..];
    forall i | 0 <= i < |h| ensures from + m <= i <==> i >= |h| - n && h[i].timestamp + w >= now {
      if i >= from { assert last[i - from] == h[i]; }
    }
  }

  lemma LastNIs(h: seq<Observation>, n: nat)
    ensures |LastN(h, n)| == Min(n, |h|) && LastN(h, n) == h[|h| - |LastN(h, n)|..]
  {}

  lemma SortedSuffix(h: seq<Observation>, from: nat)
    requires Sorted(h) && from <= |h|
    ensures Sorted(h[from..])
  {}

  /** When the mean return of the wide window fits 64 bits and every move fits 128, it
      decides the window: the normal one below the threshold, else the wide one. Count
      and average are those of the newest entries in that window. */
  lemma InspectionMeaning(h: seq<Observation>, c: Config, now: u64)
    requires ValidConfig(c) && Sorted(h)
    ensures InspectedAs(h, c, now, Inspect(LastN(h, c.maxObservations), c, now))
  {
    hide NewestSince, InWindow, Volatility, MovesFit, ExactMean, ExactTicks, LastN, Average, ValidConfig, Sorted, SumsFit;
    var r := Inspect(LastN(h, c.maxObservations), c, now);
    var j := NewestSelected(h, c.maxObservations, now, c.highVolatilityWindowSecs);
    var k := NewestSelected(h, c.maxObservations, now, r.windowSecs);
    NewestBound(h, c.maxObservations, now, c.highVolatilityWindowSecs, j);
    NewestBound(h, c.maxObservations, now, r.windowSecs, k);
    VolatilityExactIff(h[j..]);
    AverageMeaning(h[k..]);
    assert Reports(c, h[j..], h[k..], r);
  }

  lemma NewestBound(h: seq<Observation>, n: nat, now: u64, w: u64, k: nat)
    requires NewestSince(h, n, now, w, k)
    ensures k <= |h| && |h| - k <= n
  {
    if k < |h| { assert h[k].timestamp + w >= now; }
  }

  /** No samples, no price; otherwise the mean rounded toward zero, where the sum is exact. */
  lemma AverageMeaning(s: seq<Observation>)
    ensures s == [] ==> Average(s) == 0
    ensures s != [] && SumsFit(s) ==> IsTruncatedQuotient(Average(s), ExactSum(s), |s|)
  {
    if s != [] && SumsFit(s) {
      SumExact(s);
      TruncatedQuotient(ExactSum(s), |s|);
    }
  }

  // ----- the code -----

  lemma InWindowStep(s: seq<Observation>, i: nat, now: u64, w: u64)
    requires i < |s|
    ensures InWindow(s[..i + 1], now, w)
         == if Within(s[i].timestamp, now, w) then InWindow(s[..i], now, w) + [s[i]] else InWindow(s[..i], now, w)
  {
    assert s[..i + 1] == s[..i] + [s[i]];
    InWindowAppend(s[..i], [s[i]], now, w);
    assert [s[i]][1..] == [];
  }

  lemma NothingSelected(s: seq<Observation>, now: u64, w: u64)
    ensures InWindow(s[..0], now, w) == [] && s[..|s|] == s
  {}

  lemma SaturatingSumStep(s: seq<Observation>, x: Observation)
    ensures SaturatingSum(s + [x]) == Clamp128(SaturatingSum(s) + x.price)
  {
    assert (s + [x])[..|s|] == s;
  }

  lemma TicksStep(s: seq<Observation>, x: Observation)
    ensures Ticks(s + [x]) == if s == [] then (0, 0) else AddTick(Ticks(s), s[|s| - 1].price, x.price)
  {
    hide AddTick;
    assert (s + [x])[..|s|] == s;
  }

  method CountInWindow(samples: seq<Observation>, now: u64, w: u64) returns (count: nat)
    ensures count == |InWindow(samples, now, w)|
  {
    hide InWindow;
    NothingSelected(samples, now, w);
    count := 0;
    for i := 0 to |samples|
      invariant count == |InWindow(samples[..i], now, w)|
    {
      InWindowStep(samples, i, now, w);
      if Within(samples[i].timestamp, now, w) {
        count := count + 1;
      }
    }
  }

  method WindowedTwap(samples: seq<Observation>, now: u64, w: u64) returns (twap: int)
    ensures twap == Average(InWindow(samples, now, w))
  {
    hide InWindow, SaturatingSum;
    NothingSelected(samples, now, w);
    var sum: i128, count := 0, 0;
    EmptySums();
    for i := 0 to |samples|
      invariant sum == SaturatingSum(InWindow(samples[..i], now, w))
      invariant count == |InWindow(samples[..i], now, w)|
    {
      InWindowStep(samples, i, now, w);
      if Within(samples[i].timestamp, now, w) {
        SaturatingSumStep(InWindow(samples[..i], now, w), samples[i]);
        sum := Clamp128(sum + samples[i].price);
        count := count + 1;
      }
    }
    twap := if count == 0 then 0 else TruncDiv(sum, count);
  }

  lemma EmptySums()
    ensures SaturatingSum([]) == 0 && Ticks([]) == (0, 0)
  {}

  method RealizedVolatilityBps(samples: seq<Observation>, now: u64, lookback: u64) returns (bps: u64)
    ensures bps == Volatility(InWindow(samples, now, lookback))
  {
    hide InWindow, Ticks, TickBps;
    NothingSelected(samples, now, lookback);
    EmptySums();
    var prev: Option<i128> := None;
    var total: u128, pairs: nat := 0, 0;
    for i := 0 to |samples|
      invariant var seen := InWindow(samples[..i], now, lookback);
        && Ticks(seen) == (total, pairs)
        && prev == if seen == [] then None else Some(seen[|seen| - 1].price)
    {
      InWindowStep(samples, i, now, lookback);
      var obs := samples[i];
      if !Within(obs.timestamp, now, lookback) {
        continue;
      }
      TicksStep(InWindow(samples[..i], now, lookback), obs);
      if prev.Some? && prev.value > 0 {
        total := Min(U128_MAX, total + TickBps(prev.value, obs.price));
        pairs := pairs + 1;
      }
      prev := Some(obs.price);
    }
    bps := if pairs == 0 then 0 else (total / pairs) % TWO64;
  }

  /** The two loops of `record_observation`: drop what is out of the window, add
      the new entry, then drop the oldest beyond the cap. */
  method Rebuild(existing: seq<Observation>, c: Config, x: Observation) returns (kept: seq<Observation>)
    ensures kept == Record(existing, c, x)
  {
    hide InWindow;
    NothingSelected(existing, x.timestamp, c.highVolatilityWindowSecs);
    kept := [];
    for i := 0 to |existing|
      invariant kept == InWindow(existing[..i], x.timestamp, c.highVolatilityWindowSecs)
    {
      InWindowStep(existing, i, x.timestamp, c.highVolatilityWindowSecs);
      if Within(existing[i].timestamp, x.timestamp, c.highVolatilityWindowSecs) {
        kept := kept + [existing[i]];
      }
    }
    kept := kept + [x];
    var len := |kept|;
    if len > c.maxObservations {
      var drop := len - c.maxObservations;
      var trimmed: seq<Observation> := [];
      for i := drop to len
        invariant trimmed == kept[drop..i]
      {
        assert kept[drop..i + 1] == kept[drop..i] + [kept[i]];
        trimmed := trimmed + [kept[i]];
      }
      kept := trimmed;
    }
  }

  class TwapOracle {
    const config: Config
    var log: seq<Observation>
    /** Every observation ever recorded, oldest first. */
    ghost var history: seq<Observation>

    ghost predicate Valid()
      reads this
    {
      ValidConfig(config) && Sorted(history) && log == Retained(history, config)
    }

    constructor (c: Config)
      requires ValidConfig(c)
      ensures Valid() && history == [] && config == c
    {
      config, log, history := c, [], [];
    }

    method RecordObservation(price: i128, timestamp: u64)
      requires Valid() && (history != [] ==> history[|history| - 1].timestamp <= timestamp)
      modifies this`log, this`history
      ensures Valid() && history == old(history) + [Observation(timestamp, price)]
      ensures log == Record(old(log), config, Observation(timestamp, price))
    {
      hide InWindow, Retained;
      var x := Observation(timestamp, price);
      RecordRetains(history, config, x);
      log := Rebuild(log, config, x);
      history := history + [x];
    }

    /** `inspect`, and with it `enforce`: on the stored log as on the last
        `maxObservations` entries of the full history; the sample gate as on the
        full history itself. */
    method InspectWindow(now: u64) returns (r: Inspection, priced: bool)
      requires Valid() && (history != [] ==> history[|history| - 1].timestamp <= now)
      ensures r == Inspect(LastN(history, config.maxObservations), config, now)
      ensures InspectedAs(history, config, now, r)
      ensures priced == r.sufficient == (|InWindow(history, now, r.windowSecs)| >= config.minObservations)
    {
      hide InWindow, Average, Volatility, Retained, InspectedAs;
      InspectionMeaning(history, config, now);
      QueriesAgree(history, config, now, config.highVolatilityWindowSecs);
      QueriesAgree(history, config, now, config.normalWindowSecs);
      var volatility := RealizedVolatilityBps(log, now, config.highVolatilityWindowSecs);
      var high := volatility >= config.volatilityThresholdBps;
      var w := if high then config.highVolatilityWindowSecs else config.normalWindowSecs;
      GateAgreesWithFullHistory(history, config, now, w);
      var count := CountInWindow(log, now, w);
      var twap := WindowedTwap(log, now, w);
      r := Inspection(w, count, volatility, high, count >= config.minObservations, twap);
      priced := r.sufficient;
    }
  }
}

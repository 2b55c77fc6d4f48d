/** Progressive bond penalties for repeated ingestion faults (src/slashing.rs),
    as combined by `apply_ingestion_penalty` (src/lib.rs). */
module Slashing {
  import opened Machine
  import opened Arithmetic
  import opened MapSum

  const ROLLING_FAULT_WINDOW_LEDGERS: nat := 100
  const MAX_PENALTY_MULTIPLIER: nat := 1_024

  // ----- rolling fault history -----

  predicate InFaultWindow(ledger: nat, now: nat)
  {
    SaturatingSub(now, ROLLING_FAULT_WINDOW_LEDGERS) <= ledger <= now
  }

  ghost function FaultsIn(h: seq<u32>, now: nat): seq<u32>
  {
    if h == [] then []
    else FaultsIn(h[..|h| - 1], now) + (if InFaultWindow(h[|h| - 1], now) then [h[|h| - 1]] else [])
  }

  /** The log stored by `record_tracking_fault`, and the count it returns. */
  ghost function RecordFault(log: seq<u32>, now: u32): seq<u32> { FaultsIn(log, now) + [now] }

  lemma FaultsInAppend(h: seq<u32>, x: u32, now: nat)
    ensures FaultsIn(h + [x], now) == if InFaultWindow(x, now) then FaultsIn(h, now) + [x] else FaultsIn(h, now)
  {
    assert (h + [x])[..|h|] == h;
    assert FaultsIn(h, now) + [] == FaultsIn(h, now);
  }

  lemma FaultsInStep(h: seq<u32>, now: nat)
    requires h != []
    ensures var k := |h| - 1;
      FaultsIn(h, now) == if InFaultWindow(h[k], now) then FaultsIn(h[..k], now) + [h[k]] else FaultsIn(h[..k], now)
  {
    assert FaultsIn(h[..|h| - 1], now) + [] == FaultsIn(h[..|h| - 1], now);
  }

  /** What was pruned at time t would be pruned at any later time. */
  lemma {:induction false} FaultsInTwice(h: seq<u32>, t: nat, now: nat)
    requires t <= now && forall i :: 0 <= i < |h| ==> h[i] <= t
    ensures FaultsIn(FaultsIn(h, t), now) == FaultsIn(h, now)
  {
    if h != [] {
      var k := |h| - 1;
      FaultsInTwice(h[..k], t, now);
      FaultsInStep(h, t);
      FaultsInStep(h, now);
      hide FaultsIn;
      if InFaultWindow(h[k], t) { FaultsInAppend(FaultsIn(h[..k], t), h[k], now); }
    }
  }

  lemma {:induction false} FaultsInIdempotent(h: seq<u32>, now: nat)
    ensures FaultsIn(FaultsIn(h, now), now) == FaultsIn(h, now)
  {
    if h != [] {
      var k := |h| - 1;
      FaultsInIdempotent(h[..k], now);
      FaultsInStep(h, now);
      hide FaultsIn;
      if InFaultWindow(h[k], now) { FaultsInAppend(FaultsIn(h[..k], now), h[k], now); }
    }
  }

  ghost predicate Nondecreasing(h: seq<u32>)
  {
    forall i, j :: 0 <= i <= j < |h| ==> h[i] <= h[j]
  }

  ghost function RecordAllFaults(h: seq<u32>): seq<u32>
  {
    if h == [] then [] else RecordFault(RecordAllFaults(h[..|h| - 1]), h[|h| - 1])
  }

  /** Over every run of faults at nondecreasing ledgers the stored log is exactly
      the faults of the full history in the window of the last one, so the
      count returned is the number of all faults ever recorded at most 100
      ledgers before. */
  lemma {:induction false} CountIsFullHistoryCount(h: seq<u32>)
    requires Nondecreasing(h) && h != []
    ensures RecordAllFaults(h) == FaultsIn(h, h[|h| - 1])
    ensures |FaultsIn(RecordAllFaults(h), h[|h| - 1])| == |FaultsIn(h, h[|h| - 1])|
  {
    var k := |h| - 1;
    var (init, now) := (h[..k], h[k]);
    assert h == init + [now];
    FaultsInIdempotent(h, now);
    FaultsInAppend(init, now, now);
    RecordAllStep(h);
    hide FaultsIn, RecordAllFaults;
    if k > 0 {
      CountIsFullHistoryCount(init);
      FaultsInTwice(init, init[k - 1], now);
    }
  }

  lemma RecordAllStep(h: seq<u32>)
    requires h != []
    ensures var (init, now) := (h[..|h| - 1], h[|h| - 1]);
      RecordAllFaults(h) == FaultsIn(RecordAllFaults(init), now) + [now]
      && (init == [] ==> RecordAllFaults(init) == [] && FaultsIn(init, now) == [])
  {}

  ghost function RecentIndices(h: seq<u32>, now: int): set<nat>
  {
    set i: nat | i < |h| && now - 100 <= h[i]
  }

  lemma RecentIndicesStep(h: seq<u32>, now: int)
    requires h != []
    ensures var k := |h| - 1;
      |RecentIndices(h, now)| == |RecentIndices(h[..k], now)| + (if now - 100 <= h[k] then 1 else 0)
  {
    var k := |h| - 1;
    var x: int := h[k];
    var more: set<nat> := if now - 100 <= x then {k} else {};
    assert RecentIndices(h, now) == RecentIndices(h[..k], now) + more;
  }

  /** The count is the number of faults in the history no more than 100 ledgers old. */
  lemma {:induction false} CountOfRecentFaults(h: seq<u32>, now: nat)
    requires forall x :: x in h ==> x <= now
    ensures |FaultsIn(h, now)| == |RecentIndices(h, now)|
  {
    if h != [] {
      var k := |h| - 1;
      assert h[k] in h && h == h[..k] + [h[k]] && forall x :: x in h[..k] ==> x in h;
      CountOfRecentFaults(h[..k], now);
      FaultsInAppend(h[..k], h[k], now);
      RecentIndicesStep(h, now);
    } else {
      assert RecentIndices(h, now) == {};
    }
  }

  // ----- the penalty -----

  function Pow2(e: nat): nat { if e == 0 then 1 else 2 * Pow2(e - 1) }

  /** `get_penalty_multiplier`: `Pow2(shift)` is the 64-bit shift of 1 by at most 10. */
  function PenaltyMultiplier(faultCount: nat): (m: nat)
    ensures m == Pow2(Min(SaturatingSub(faultCount, 1), 10))
    ensures 1 <= m <= MAX_PENALTY_MULTIPLIER
  {
    if faultCount == 0 then 1
    else
      var shift := Min(SaturatingSub(faultCount, 1), 10);
      Pow2AtMost1024(shift);
      Min(Pow2(shift), MAX_PENALTY_MULTIPLIER)
  }

  lemma {:induction false} Pow2AtMost1024(e: nat)
    requires e <= 10
    ensures 1 <= Pow2(e) <= 1024
    decreases 10 - e
  {
    if e < 10 { Pow2AtMost1024(e + 1); } else { assert Pow2(10) == 1024; }
    Pow2Positive(e);
  }

  lemma {:induction false} Pow2Positive(e: nat)
    ensures Pow2(e) >= 1
  {
    if e > 0 { Pow2Positive(e - 1); }
  }

  /** The stored state one penalty call touches: the pair's fault log, the stake
      registry with its running total, and the validator's stake on the feed. */
  datatype Book = Book(faults: seq<u32>, stakes: map<Address, u64>, totalStaked: u64, feedStake: Option<u64>)

  datatype PenaltyResult = PenaltyResult(
    faultCount: nat, penaltyMultiplier: nat, bondDeduction: u64, remainingStake: u64)

  /** `apply_escrow_penalty` */
  function ApplyPenalty(s: Book, v: Address, baseBond: u64, faultCount: nat): Result<(Book, PenaltyResult), ContractError>
  {
    var multiplier := PenaltyMultiplier(faultCount);
    if baseBond == 0 then Err(InvalidStakeAmount)
    else if !FitsU64(baseBond * multiplier) then Err(Overflow)
    else if Get(s.stakes, v) == 0 then Err(InsufficientBondForPenalty)
    else
      var deduction := Min(baseBond * multiplier, Get(s.stakes, v));
      var remaining := Get(s.stakes, v) - deduction;
      var feedStake := match s.feedStake
        case None => None
        case Some(f) => if f <= deduction then None else Some(f - deduction);
      Ok((s.(stakes := if remaining == 0 then s.stakes - {v} else s.stakes[v := remaining],
             totalStaked := SaturatingSub(s.totalStaked, deduction),
             feedStake := feedStake),
          PenaltyResult(faultCount, multiplier, deduction, remaining)))
  }

  ghost predicate TotalMatches(s: Book) { s.totalStaked == Sum(s.stakes) }

  /** What a penalty takes and reports: exactly min(base * 2^min(k-1, 10), stake) leaves
      the validator's stake, the sum of the registry and, as far as there is any, its
      stake on the feed; nobody else's stake changes, entries of nothing are removed,
      and a total that was the sum of the registry still is. */
  ghost predicate Charged(before: Book, after: Book, v: Address, baseBond: u64, k: nat, r: PenaltyResult)
  {
    var deduction := Min(baseBond * Pow2(if k <= 1 then 0 else if k <= 11 then k - 1 else 10), Get(before.stakes, v));
    && r == PenaltyResult(k, Pow2(if k <= 1 then 0 else if k <= 11 then k - 1 else 10), deduction, Get(after.stakes, v))
    && (forall a :: Get(after.stakes, a) == Get(before.stakes, a) - (if a == v then deduction else 0))
    && (v in after.stakes ==> Get(after.stakes, v) > 0)
    && Sum(after.stakes) == Sum(before.stakes) - deduction
    && after.totalStaked == Max(0, before.totalStaked - deduction)
    && (TotalMatches(before) ==> TotalMatches(after))
    && FeedStakeOf(after) == Max(0, FeedStakeOf(before) - deduction)
    && (after.feedStake.Some? ==> before.feedStake.Some? && after.feedStake.value > 0)
  }

  function FeedStakeOf(s: Book): int { s.feedStake.GetOr(0) }

  lemma PenaltyEffect(s: Book, v: Address, baseBond: u64, k: nat)
    requires ApplyPenalty(s, v, baseBond, k).Ok?
    ensures var (t, r) := ApplyPenalty(s, v, baseBond, k).value; Charged(s, t, v, baseBond, k, r) && t.faults == s.faults
  {
    var (t, r) := ApplyPenalty(s, v, baseBond, k).value;
    SumRemove(s.stakes, v);
    SumNonNegative(s.stakes - {v});
    if r.remainingStake != 0 { SumUpdate(s.stakes, v, r.remainingStake); }
  }

  /** A penalty succeeds exactly for a positive bond whose multiple fits 64 bits, on a
      validator with a stake. */
  lemma PenaltyOutcome(s: Book, v: Address, baseBond: u64, k: nat)
    ensures var (r, m) := (ApplyPenalty(s, v, baseBond, k), Pow2(if k <= 1 then 0 else if k <= 11 then k - 1 else 10));
      && (r.Ok? <==> baseBond > 0 && baseBond * m < TWO64 && Get(s.stakes, v) > 0)
      && (r.Err? ==> r.error == if baseBond == 0 then InvalidStakeAmount
                                else if baseBond * m >= TWO64 then Overflow else InsufficientBondForPenalty)
  {
    MulMono(0, baseBond, 0, PenaltyMultiplier(k));
  }

  /** `apply_ingestion_penalty`: record the fault, then penalize with its count;
      an error rolls the fault back as well. */
  ghost function Penalize(s: Book, v: Address, baseBond: u64, now: u32): Result<(Book, PenaltyResult), ContractError>
  {
    var faults := RecordFault(s.faults, now);
    ApplyPenalty(s.(faults := faults), v, baseBond, |FaultsIn(faults, now)|)
  }

  /** One fault of a run: `report_ingestion_dropout` records it without a charge,
      `apply_ingestion_penalty` records it and charges a base bond for it. */
  datatype Fault = Fault(ledger: u32, bond: Option<u64>)

  ghost function FaultStep(s: Book, v: Address, f: Fault): Book
  {
    match f.bond
    case None => s.(faults := RecordFault(s.faults, f.ledger))
    case Some(b) =>
      match Penalize(s, v, b, f.ledger) case Ok((t, _)) => t case Err(_) => s
  }

  ghost function FaultRun(s: Book, v: Address, fs: seq<Fault>): Book
  {
    if fs == [] then s else FaultStep(FaultRun(s, v, fs[..|fs| - 1]), v, fs[|fs| - 1])
  }

  ghost function Ledgers(fs: seq<Fault>): seq<u32>
  {
    if fs == [] then [] else Ledgers(fs[..|fs| - 1]) + [fs[|fs| - 1].ledger]
  }

  /** Bonds that are accepted at every multiplier. */
  ghost predicate BondsFit(fs: seq<Fault>)
  {
    forall f :: f in fs ==> BondFits(f)
  }

  ghost predicate BondFits(f: Fault)
  {
    f.bond.Some? ==> f.bond.value > 0 && FitsU64(f.bond.value * MAX_PENALTY_MULTIPLIER)
  }

  /** The deduction for a fault that is the k-th in its window. */
  ghost function Charge(base: nat, k: nat): nat
  {
    base * Pow2(Min(SaturatingSub(k, 1), 10))
  }

  /** The deductions of a run, added up: a charged fault costs base * 2^(k-1), at most
      1024 * base, where k is the number of faults of the run, charged or not, that
      are at most 100 ledgers old at that moment, itself included. */
  ghost function Loss(fs: seq<Fault>): nat
  {
    if fs == [] then 0
    else
      var f := fs[|fs| - 1];
      Loss(fs[..|fs| - 1]) + (if f.bond.Some? then Charge(f.bond.value, |RecentIndices(Ledgers(fs), f.ledger)|) else 0)
  }

  predicate WithinHundred(first: int, last: int) { last <= first + 100 }

  /** When all faults of one bond are charged and fall in one window of 100 ledgers:
      base, 2*base, 4*base, ..., 1024*base, 1024*base, ... */
  lemma {:induction false} LossClosed(base: u64, fs: seq<Fault>)
    requires forall f :: f in fs ==> f.bond == Some(base)
    requires var ls := Ledgers(fs); Nondecreasing(ls) && (ls != [] ==> WithinHundred(ls[0], ls[|ls| - 1]))
    ensures Loss(fs) == SumOfCharges(base, |fs|)
  {
    if fs == [] {
      assert base * (Pow2(0) - 1) == 0;
    } else {
      OneMoreInWindow(base, fs);
      hide *;
      LossClosed(base, fs[..|fs| - 1]);
      ChargeAdds(base, |fs|);
    }
  }

  lemma OneMoreInWindow(base: u64, fs: seq<Fault>)
    requires fs != [] && forall f :: f in fs ==> f.bond == Some(base)
    requires var ls := Ledgers(fs); Nondecreasing(ls) && WithinHundred(ls[0], ls[|ls| - 1])
    ensures var (init, ls) := (fs[..|fs| - 1], Ledgers(fs[..|fs| - 1]));
      && Loss(fs) == Loss(init) + Charge(base, |fs|) && (forall f :: f in init ==> f.bond == Some(base))
      && Nondecreasing(ls) && (ls != [] ==> WithinHundred(ls[0], ls[|ls| - 1]))
  {
    hide *;
    var (n, init, ls) := (|fs|, fs[..|fs| - 1], Ledgers(fs));
    assert fs[n - 1] in fs && fs == init + [fs[n - 1]];
    LossStep(fs);
    LedgersLength(fs);
    assert ls[..n - 1] == Ledgers(init) && ls[n - 1] == fs[n - 1].ledger;
    PrefixWithinHundred(ls);
    AllRecent(ls);
  }

  lemma LossStep(fs: seq<Fault>)
    requires fs != []
    ensures var (init, f) := (fs[..|fs| - 1], fs[|fs| - 1]);
      && Ledgers(fs) == Ledgers(init) + [f.ledger]
      && (f.bond.Some? ==> Loss(fs) == Loss(init) + Charge(f.bond.value, |RecentIndices(Ledgers(fs), f.ledger)|))
  {}

  /** base + 2*base + 4*base + ... over `n` charges, 1024*base from the eleventh on. */
  function SumOfCharges(base: nat, n: nat): int
  {
    if n <= 11 then base * (Pow2(n) - 1) else base * (2047 + (n - 11) * 1024)
  }

  lemma ChargeAdds(base: nat, n: nat)
    requires n >= 1
    ensures SumOfCharges(base, n - 1) + Charge(base, n) == SumOfCharges(base, n)
  {
    assert Pow2(10) == 1024 && Pow2(11) == 2048;
    if n <= 11 {
      Distribute(base, Pow2(n - 1) - 1, Pow2(n - 1));
    } else {
      Distribute(base, 2047 + (n - 12) * 1024, 1024);
    }
  }

  lemma {:induction false} LedgersLength(fs: seq<Fault>)
    ensures |Ledgers(fs)| == |fs|
  {
    if fs != [] { LedgersLength(fs[..|fs| - 1]); }
  }

  lemma PrefixWithinHundred(ledgers: seq<u32>)
    requires Nondecreasing(ledgers) && ledgers != [] && WithinHundred(ledgers[0], ledgers[|ledgers| - 1])
    ensures var init := ledgers[..|ledgers| - 1];
      Nondecreasing(init) && (init != [] ==> WithinHundred(init[0], init[|init| - 1]))
  {
    var n := |ledgers|;
    if n > 1 { assert ledgers[n - 2] <= ledgers[n - 1]; }
  }

  lemma AllRecent(ledgers: seq<u32>)
    requires Nondecreasing(ledgers) && ledgers != [] && WithinHundred(ledgers[0], ledgers[|ledgers| - 1])
    ensures |RecentIndices(ledgers, ledgers[|ledgers| - 1])| == |ledgers|
  {
    var now: int := ledgers[|ledgers| - 1];
    forall i: nat | i < |ledgers| ensures now - 100 <= ledgers[i] {
      assert ledgers[0] <= ledgers[i];
    }
    FirstIndices(ledgers, now);
  }

  lemma {:induction false} FirstIndices(h: seq<u32>, now: int)
    requires forall i: nat :: i < |h| ==> now - 100 <= h[i]
    ensures |RecentIndices(h, now)| == |h|
  {
    if h == [] {
      assert RecentIndices(h, now) == {};
    } else {
      FirstIndices(h[..|h| - 1], now);
      RecentIndicesStep(h, now);
    }
  }

  /** Over every run of charged and uncharged faults in ledger order the stake has lost
      exactly the sum of the charges, each set by all faults of the 100 ledgers before
      it, down to nothing, and the total still matches the registry. */
  lemma {:induction false} SustainedFaultsDrainStake(s: Book, v: Address, fs: seq<Fault>)
    requires s.faults == [] && TotalMatches(s) && BondsFit(fs) && Nondecreasing(Ledgers(fs))
    ensures Drained(FaultRun(s, v, fs), v, Get(s.stakes, v), Loss(fs), LogOf(Ledgers(fs)))
  {
    hide Drained, Nondecreasing, FaultsIn, RecordFault, FaultStep, RecentIndices, TotalMatches;
    if fs == [] {
      DrainStart(s, v);
    } else {
      var n := |fs|;
      var (init, f) := (fs[..n - 1], fs[n - 1]);
      BondsOfPrefix(fs);
      hide BondsFit, LogOf;
      OrderedPrefix(Ledgers(init), f.ledger);
      SustainedFaultsDrainStake(s, v, init);
      HistoryStep(LogOf(Ledgers(init)), Ledgers(init), f.ledger);
      CountOfRecentFaults(Ledgers(fs), f.ledger);
      DrainStep(FaultRun(s, v, init), v, f, Get(s.stakes, v), Loss(init), LogOf(Ledgers(init)), LogOf(Ledgers(fs)));
    }
  }

  lemma BondsOfPrefix(fs: seq<Fault>)
    requires fs != [] && BondsFit(fs)
    ensures BondsFit(fs[..|fs| - 1]) && BondFits(fs[|fs| - 1])
  {
    assert fs == fs[..|fs| - 1] + [fs[|fs| - 1]];
  }

  /** The log stored after the faults `h`. */
  ghost function LogOf(h: seq<u32>): seq<u32>
  {
    if h == [] then [] else FaultsIn(h, h[|h| - 1])
  }

  /** The state a run leaves when its deductions sum to `loss` and its faults leave
      `log`. While anything is left of the stake, no fault was rolled back. */
  ghost predicate Drained(t: Book, v: Address, stake: nat, loss: nat, log: seq<u32>)
  {
    && TotalMatches(t)
    && Get(t.stakes, v) == SaturatingSub(stake, loss)
    && (Get(t.stakes, v) > 0 ==> t.faults == log)
  }

  lemma DrainStart(s: Book, v: Address)
    requires s.faults == [] && TotalMatches(s)
    ensures Drained(FaultRun(s, v, []), v, Get(s.stakes, v), Loss([]), LogOf(Ledgers([])))
  {}

  lemma OrderedPrefix(h: seq<u32>, now: u32)
    requires Nondecreasing(h + [now])
    ensures Nondecreasing(h) && (h != [] ==> h[|h| - 1] <= now)
    ensures forall x :: x in h + [now] ==> x <= now
  {
    var all := h + [now];
    forall i, j | 0 <= i <= j < |h| ensures h[i] <= h[j] {
      assert all[i] <= all[j];
    }
    if h != [] { assert all[|h| - 1] <= all[|h|]; }
    forall x | x in all ensures x <= now {
      var i :| 0 <= i < |all| && all[i] == x;
      assert all[i] <= all[|h|];
    }
  }

  /** One more fault of such a run, from the state `t` before it. */
  lemma DrainStep(t: Book, v: Address, f: Fault, stake: nat, loss: nat, before: seq<u32>, log: seq<u32>)
    requires Drained(t, v, stake, loss, before) && BondFits(f)
    requires RecordFault(before, f.ledger) == log && |FaultsIn(log, f.ledger)| >= 1
    ensures Drained(FaultStep(t, v, f), v, stake,
                    loss + (if f.bond.Some? then Charge(f.bond.value, |FaultsIn(log, f.ledger)|) else 0), log)
  {
    hide FaultsIn, ApplyPenalty, Penalize, RecordFault, Charge, TotalMatches;
    if f.bond.None? {
      SameTotal(t, RecordFault(t.faults, f.ledger));
    } else if Get(t.stakes, v) > 0 {
      ChargedStep(t, log, v, f.bond.value, f.ledger, |FaultsIn(log, f.ledger)|, stake, loss);
    } else {
      PenaltyNeedsStake(t, v, f.bond.value, f.ledger);
    }
  }

  lemma ChargedStep(t: Book, log: seq<u32>, v: Address, bond: u64, now: u32, k: nat, stake: nat, lost: nat)
    requires RecordFault(t.faults, now) == log && |FaultsIn(log, now)| == k >= 1
    requires bond > 0 && FitsU64(bond * MAX_PENALTY_MULTIPLIER)
    requires Get(t.stakes, v) == stake - lost > 0 && TotalMatches(t)
    ensures Penalize(t, v, bond, now).Ok?
    ensures var u := Penalize(t, v, bond, now).value.0;
      TotalMatches(u) && Get(u.stakes, v) == SaturatingSub(stake, lost + Charge(bond, k)) && u.faults == log
  {
    hide FaultsIn, RecordFault, ApplyPenalty, TotalMatches, Charge;
    SameTotal(t, log);
    PenaltyStep(t.(faults := log), v, bond, k, stake, lost);
  }

  lemma SameTotal(t: Book, faults: seq<u32>)
    ensures TotalMatches(t.(faults := faults)) == TotalMatches(t)
  {}

  lemma PenaltyNeedsStake(t: Book, v: Address, baseBond: u64, now: u32)
    requires Get(t.stakes, v) == 0
    ensures Penalize(t, v, baseBond, now).Err?
  {}

  lemma PenaltyStep(t: Book, v: Address, baseBond: u64, k: nat, stake: nat, lost: nat)
    requires k >= 1 && baseBond > 0 && FitsU64(baseBond * MAX_PENALTY_MULTIPLIER)
    requires Get(t.stakes, v) == stake - lost > 0 && TotalMatches(t)
    ensures ApplyPenalty(t, v, baseBond, k).Ok?
    ensures var u := ApplyPenalty(t, v, baseBond, k).value.0;
      TotalMatches(u) && Get(u.stakes, v) == SaturatingSub(stake, lost + Charge(baseBond, k)) && u.faults == t.faults
  {
    MulLe(PenaltyMultiplier(k), MAX_PENALTY_MULTIPLIER, baseBond);
    assert ApplyPenalty(t, v, baseBond, k).Ok?;
    PenaltyEffect(t, v, baseBond, k);
  }

  // ----- the contract -----

  /** One validator and feed of the slashing contract. */
  class PenaltyContract {
    const validator: Address
    var faults: seq<u32>
    var stakes: map<Address, u64>
    var totalStaked: u64
    var feedStake: Option<u64>
    /** Every fault ever recorded, oldest first. */
    ghost var history: seq<u32>

    ghost predicate Valid()
      reads this
    {
      && Nondecreasing(history)
      && faults == LogOf(history)
      && totalStaked == Sum(stakes)
    }

    ghost function Model(): Book
      reads this
    {
      Book(faults, stakes, totalStaked, feedStake)
    }

    constructor (v: Address, initial: map<Address, u64>, total: u64, feed: Option<u64>)
      requires total == Sum(initial)
      ensures Valid() && history == [] && Model() == Book([], initial, total, feed) && validator == v
    {
      validator, faults, stakes, totalStaked, feedStake, history := v, [], initial, total, feed, [];
    }

    /** The loops of `prune_fault_history` and `count_faults_in_window`. */
    static method Prune(log: seq<u32>, now: u32) returns (retained: seq<u32>)
      ensures retained == FaultsIn(log, now)
    {
      retained := [];
      for i := 0 to |log|
        invariant retained == FaultsIn(log[..i], now)
      {
        assert log[..i + 1] == log[..i] + [log[i]];
        FaultsInAppend(log[..i], log[i], now);
        if InFaultWindow(log[i], now) {
          retained := retained + [log[i]];
        }
      }
      assert log[..|log|] == log;
    }

    static method CountFaults(log: seq<u32>, now: u32) returns (count: nat)
      ensures count == |FaultsIn(log, now)|
    {
      count := 0;
      for i := 0 to |log|
        invariant count == |FaultsIn(log[..i], now)|
      {
        assert log[..i + 1] == log[..i] + [log[i]];
        FaultsInAppend(log[..i], log[i], now);
        if InFaultWindow(log[i], now) {
          count := count + 1;
        }
      }
      assert log[..|log|] == log;
    }

    method ApplyEscrowPenalty(baseBond: u64, faultCount: nat) returns (r: Result<PenaltyResult, ContractError>)
      modifies this`stakes, this`totalStaked, this`feedStake
      ensures match ApplyPenalty(old(Model()), validator, baseBond, faultCount)
        case Ok((t, p)) => r == Ok(p) && Model() == t
        case Err(e) => r == Err(e) && Model() == old(Model())
      ensures old(TotalMatches(Model())) ==> TotalMatches(Model())
      ensures r.Ok? ==> Charged(old(Model()), Model(), validator, baseBond, faultCount, r.value)
      ensures var m := Pow2(if faultCount <= 1 then 0 else if faultCount <= 11 then faultCount - 1 else 10);
        r.Ok? <==> baseBond > 0 && baseBond * m < TWO64 && Get(old(stakes), validator) > 0
    {
      PenaltyOutcome(Model(), validator, baseBond, faultCount);
      if ApplyPenalty(Model(), validator, baseBond, faultCount).Ok? {
        PenaltyEffect(Model(), validator, baseBond, faultCount);
        assert TotalMatches(Model()) ==> TotalMatches(ApplyPenalty(Model(), validator, baseBond, faultCount).value.0);
      }
      hide Charged, TotalMatches, PenaltyMultiplier;
      var multiplier := PenaltyMultiplier(faultCount);
      if baseBond == 0 {
        return Err(InvalidStakeAmount);
      }
      if !FitsU64(baseBond * multiplier) {
        return Err(Overflow);
      }
      var nodeTotal := Get(stakes, validator);
      if nodeTotal == 0 {
        return Err(InsufficientBondForPenalty);
      }
      var deduction := Min(baseBond * multiplier, nodeTotal);
      var remaining := nodeTotal - deduction;
      if remaining == 0 {
        stakes := stakes - {validator};
      } else {
        stakes := stakes[validator := remaining];
      }
      totalStaked := SaturatingSub(totalStaked, deduction);
      if feedStake.Some? {
        var amount := SaturatingSub(feedStake.value, deduction);
        feedStake := if amount == 0 then None else Some(amount);
      }
      r := Ok(PenaltyResult(faultCount, multiplier, deduction, remaining));
    }

    /** `report_ingestion_dropout`, after the admin check: the fault is recorded and
        counted, nothing is charged. */
    method ReportIngestionDropout(now: u32) returns (count: nat)
      requires Valid() && (history != [] ==> history[|history| - 1] <= now)
      modifies this`faults, this`history
      ensures Valid() && history == old(history) + [now] && count == |FaultsIn(history, now)|
      ensures Model() == old(Model()).(faults := RecordFault(old(faults), now))
    {
      hide FaultsIn;
      var log := Prune(faults, now);
      log := log + [now];
      count := CountFaults(log, now);
      HistoryStep(faults, history, now);
      faults := log;
      history := history + [now];
    }

    method ApplyIngestionPenalty(baseBond: u64, now: u32) returns (r: Result<PenaltyResult, ContractError>)
      requires Valid() && (history != [] ==> history[|history| - 1] <= now)
      modifies this
      ensures Valid()
      ensures match Penalize(old(Model()), validator, baseBond, now)
        case Ok((t, p)) => r == Ok(p) && Model() == t && history == old(history) + [now]
                           && p.faultCount == |FaultsIn(history, now)|
        case Err(e) => r == Err(e) && Model() == old(Model()) && history == old(history)
      ensures r.Ok? ==> Charged(old(Model()), Model(), validator, baseBond, |FaultsIn(history, now)|, r.value)
    {
      hide FaultsIn, ApplyPenalty, Charged, PenaltyMultiplier, Pow2;
      var log := Prune(faults, now);
      log := log + [now];
      var count := CountFaults(log, now);
      HistoryStep(faults, history, now);
      ghost var before := Model();
      ApplyPenaltyIgnoresFaults(before, log, validator, baseBond, count);
      PenalizeEffect(before, validator, baseBond, now);
      r := ApplyEscrowPenalty(baseBond, count);
      if r.Ok? {
        faults := log;
        history := history + [now];
      }
    }
  }

  lemma PenalizeEffect(s: Book, v: Address, baseBond: u64, now: u32)
    ensures var log := RecordFault(s.faults, now);
      var r := Penalize(s, v, baseBond, now);
      r.Ok? ==> && Charged(s, r.value.0, v, baseBond, |FaultsIn(log, now)|, r.value.1) && r.value.0.faults == log
                && (TotalMatches(s) ==> TotalMatches(r.value.0)) && r.value.1.faultCount == |FaultsIn(log, now)|
  {
    hide FaultsIn, ApplyPenalty, RecordFault;
    var log := RecordFault(s.faults, now);
    if Penalize(s, v, baseBond, now).Ok? { PenaltyEffect(s.(faults := log), v, baseBond, |FaultsIn(log, now)|); }
  }

  lemma ApplyPenaltyIgnoresFaults(s: Book, log: seq<u32>, v: Address, baseBond: u64, k: nat)
    ensures ApplyPenalty(s.(faults := log), v, baseBond, k)
         == match ApplyPenalty(s, v, baseBond, k)
            case Ok((t, p)) => Ok((t.(faults := log), p))
            case Err(e) => Err(e)
  {}

  lemma HistoryStep(log: seq<u32>, h: seq<u32>, now: u32)
    requires Nondecreasing(h) && (h != [] ==> h[|h| - 1] <= now)
    requires log == LogOf(h)
    ensures Nondecreasing(h + [now]) && RecordFault(log, now) == FaultsIn(h + [now], now)
    ensures |FaultsIn(RecordFault(log, now), now)| == |FaultsIn(h + [now], now)| >= 1
  {
    NondecreasingAppend(h, now);
    FaultsInAppend(h, now, now);
    assert FaultsIn([], now) == [];
    hide FaultsIn, Nondecreasing;
    if h != [] { FaultsInTwice(h, h[|h| - 1], now); }
    FaultsInIdempotent(h + [now], now);
  }

  lemma NondecreasingAppend(h: seq<u32>, now: u32)
    requires Nondecreasing(h) && (h != [] ==> h[|h| - 1] <= now)
    ensures Nondecreasing(h + [now])
    ensures forall i :: 0 <= i < |h| ==> h[i] <= h[|h| - 1]
  {}
}

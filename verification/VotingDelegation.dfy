/** Governance stakes and delegated voting weight (src/voting_delegation.rs). */
module VotingDelegation {
  import opened Machine
  import opened MapSum

  datatype Delegation = Delegation(delegate: Address, amount: u128)

  datatype GovWeightConfig = GovWeightConfig(enabled: bool, weightPerToken: u128, minStakeThreshold: u128)

  const DEFAULT_CONFIG: GovWeightConfig := GovWeightConfig(true, 1_000_000, 0)

  /** The stored maps, and the configuration they are read with. */
  datatype Ledger = Ledger(
    config: GovWeightConfig,
    stakes: map<Address, u128>,
    weights: map<Address, u128>,
    delegations: map<Address, Delegation>,
    totals: map<Address, u128>)

  const INITIAL: Ledger := Ledger(DEFAULT_CONFIG, map[], map[], map[], map[])

  type Outcome<T> = Result<(Ledger, T), ContractError>

  // ----- specification of the entry points -----

  /** Voting weight of `amount` tokens at the configured rate (scaled by 10^6). */
  function WeightOf(c: GovWeightConfig, amount: u128): Result<u128, ContractError>
  {
    if FitsU128(amount * c.weightPerToken) then
      assert amount * c.weightPerToken / 1_000_000 <= amount * c.weightPerToken;
      Ok(amount * c.weightPerToken / 1_000_000)
    else Err(Overflow)
  }

  function Credit(m: map<Address, u128>, a: Address, v: u128): Result<map<Address, u128>, ContractError>
  {
    if FitsU128(Get(m, a) + v) then Ok(m[a := Get(m, a) + v]) else Err(Overflow)
  }

  /** Saturating decrease; an entry that reaches 0 is removed. */
  function Debit(m: map<Address, u128>, a: Address, v: u128): map<Address, u128>
  {
    if Get(m, a) <= v then m - {a} else m[a := Get(m, a) - v]
  }

  function Stake(s: Ledger, staker: Address, amount: u128): Outcome<u128>
  {
    if amount == 0 then Err(VaultZeroAmount)
    else if !s.config.enabled then
      var stakes :- Credit(s.stakes, staker, amount);
      Ok((s.(stakes := stakes), 0))
    else
      var weight :- WeightOf(s.config, amount);
      var stakes :- Credit(s.stakes, staker, amount);
      if weight < s.config.minStakeThreshold then Ok((s.(stakes := stakes), 0))
      else
        var t :- AddWeight(s.(stakes := stakes), staker, weight);
        Ok((t, weight))
  }

  /** New weight goes where the staker's weight is: to its delegate, or direct. */
  function AddWeight(s: Ledger, staker: Address, weight: u128): Result<Ledger, ContractError>
  {
    if staker in s.delegations then
      var d := s.delegations[staker];
      var totals :- Credit(s.totals, d.delegate, weight);
      if !FitsU128(d.amount + weight) then Err(Overflow)
      else Ok(s.(totals := totals, delegations := s.delegations[staker := Delegation(d.delegate, d.amount + weight)]))
    else
      var weights :- Credit(s.weights, staker, weight);
      Ok(s.(weights := weights))
  }

  function Unstake(s: Ledger, staker: Address, amount: u128): Outcome<u128>
  {
    if amount == 0 then Err(VaultZeroAmount)
    else if Get(s.stakes, staker) < amount then Err(VaultInsufficientBalance)
    else
      var weight :- if s.config.enabled then WeightOf(s.config, amount) else Ok(0);
      var s1 := s.(stakes := Debit(s.stakes, staker, amount));
      if weight == 0 then Ok((s1, weight))
      else if staker in s.delegations then
        var d := s.delegations[staker];
        var delegations := if d.amount <= weight then s.delegations - {staker}
                           else s.delegations[staker := Delegation(d.delegate, d.amount - weight)];
        Ok((s1.(totals := Debit(s.totals, d.delegate, weight), delegations := delegations), weight))
      else Ok((s1.(weights := Debit(s.weights, staker, weight)), weight))
  }

  /** The total of a former delegate, lowered on re-delegation (kept even at 0). */
  function Reclaim(s: Ledger, staker: Address): map<Address, u128>
  {
    if staker in s.delegations then
      var d := s.delegations[staker];
      s.totals[d.delegate := SaturatingSub(Get(s.totals, d.delegate), d.amount)]
    else s.totals
  }

  function Delegate(s: Ledger, staker: Address, delegate: Address): Outcome<()>
  {
    if staker == delegate then Err(InvalidDelegate)
    else if staker !in s.delegations && Get(s.weights, staker) == 0 then Err(NoVotingWeight)
    else
      var amount := if staker in s.delegations then s.delegations[staker].amount else Get(s.weights, staker);
      var totals :- Credit(Reclaim(s, staker), delegate, amount);
      Ok((s.(weights := s.weights[staker := 0],
             delegations := s.delegations[staker := Delegation(delegate, amount)],
             totals := totals), ()))
  }

  datatype UndelegateEvent = UndelegateEvent(formerDelegate: Address, restoredWeight: u128, remainingPower: u128)

  function Undelegate(s: Ledger, staker: Address): Outcome<UndelegateEvent>
  {
    if staker !in s.delegations then Err(NoActiveDelegation)
    else
      var d := s.delegations[staker];
      var weights :- Credit(s.weights, staker, d.amount);
      Ok((s.(weights := weights, delegations := s.delegations - {staker}, totals := Debit(s.totals, d.delegate, d.amount)),
          UndelegateEvent(d.delegate, d.amount, SaturatingSub(Get(s.totals, d.delegate), d.amount))))
  }

  lemma CreditGet(m: map<Address, u128>, a: Address, v: u128)
    ensures Credit(m, a, v).Ok? <==> FitsU128(Get(m, a) + v)
    ensures Credit(m, a, v).Ok? ==>
      forall x :: Get(Credit(m, a, v).value, x) == Get(m, x) + (if x == a then v else 0)
  {}

  lemma DebitGet(m: map<Address, u128>, a: Address, v: u128)
    ensures forall x :: Get(Debit(m, a, v), x) == if x == a then SaturatingSub(Get(m, x), v) else Get(m, x)
  {}

  // ----- consistency of the four maps -----

  function AmountsTo(dels: map<Address, Delegation>, delegate: Address): map<Address, u128>
  {
    map a | a in dels && dels[a].delegate == delegate :: dels[a].amount
  }

  /** The weight all stakers together have delegated to `delegate`. */
  ghost function DelegatedTo(dels: map<Address, Delegation>, delegate: Address): int
  {
    Sum(AmountsTo(dels, delegate))
  }

  ghost predicate TotalsMatch(s: Ledger)
  {
    forall d :: Get(s.totals, d) == DelegatedTo(s.delegations, d)
  }

  ghost predicate DelegatorsHaveNoDirectWeight(s: Ledger)
  {
    forall a :: a in s.delegations ==> Get(s.weights, a) == 0 && s.delegations[a].delegate != a
  }

  function OwnDelegated(s: Ledger, a: Address): int
  {
    if a in s.delegations then s.delegations[a].amount else 0
  }

  /** A staker's whole voting weight, wherever it is. */
  function OwnWeight(s: Ledger, a: Address): int { Get(s.weights, a) + OwnDelegated(s, a) }

  /** One-to-one weights: what a staker has staked is what it votes with. */
  ghost predicate WeightEqualsStake(s: Ledger)
  {
    forall a :: OwnWeight(s, a) == Get(s.stakes, a)
  }

  ghost predicate Consistent(s: Ledger)
  {
    TotalsMatch(s) && DelegatorsHaveNoDirectWeight(s)
  }

  lemma DelegatedToAfterRemove(dels: map<Address, Delegation>, a: Address, d: Address)
    ensures DelegatedTo(dels - {a}, d)
         == DelegatedTo(dels, d) - (if a in dels && dels[a].delegate == d then dels[a].amount else 0)
  {
    SumRemove(AmountsTo(dels, d), a);
    assert AmountsTo(dels - {a}, d) == AmountsTo(dels, d) - {a};
  }

  lemma DelegatedToAfterUpdate(dels: map<Address, Delegation>, a: Address, x: Delegation, d: Address)
    ensures DelegatedTo(dels[a := x], d)
         == DelegatedTo(dels - {a}, d) + (if x.delegate == d then x.amount else 0)
  {
    DelegatedToAfterRemove(dels[a := x], a, d);
    assert dels[a := x] - {a} == dels - {a};
  }

  lemma DelegatedToAtLeast(dels: map<Address, Delegation>, a: Address)
    requires a in dels
    ensures DelegatedTo(dels, dels[a].delegate) >= dels[a].amount
  {
    DelegatedToAfterRemove(dels, a, dels[a].delegate);
    SumNonNegative(AmountsTo(dels - {a}, dels[a].delegate));
  }

  /** All totals after `a`'s delegation is replaced, or removed if `x` is `None`. */
  lemma TotalsAfterChange(s: Ledger, a: Address, x: Option<Delegation>, t: Ledger)
    requires TotalsMatch(s)
    requires t.delegations == if x.Some? then s.delegations[a := x.value] else s.delegations - {a}
    requires forall d :: Get(t.totals, d) == Get(s.totals, d)
               - (if a in s.delegations && s.delegations[a].delegate == d then s.delegations[a].amount else 0)
               + (if x.Some? && x.value.delegate == d then x.value.amount else 0)
    ensures TotalsMatch(t)
  {
    forall d ensures Get(t.totals, d) == DelegatedTo(t.delegations, d) {
      DelegatedToAfterRemove(s.delegations, a, d);
      if x.Some? { DelegatedToAfterUpdate(s.delegations, a, x.value, d); }
    }
  }

  /** Whether a stake of `amount` derives voting weight. */
  predicate Grants(c: GovWeightConfig, amount: u128)
  {
    c.enabled && WeightOf(c, amount).Ok? && WeightOf(c, amount).value >= c.minStakeThreshold
  }

  lemma AddWeightKeepsConsistent(s: Ledger, staker: Address, weight: u128)
    requires Consistent(s) && AddWeight(s, staker, weight).Ok?
    ensures Consistent(AddWeight(s, staker, weight).value)
  {
    hide DelegatedTo, Credit, TotalsMatch;
    var t := AddWeight(s, staker, weight).value;
    if staker in s.delegations {
      CreditGet(s.totals, s.delegations[staker].delegate, weight);
      TotalsAfterChange(s, staker, Some(t.delegations[staker]), t);
    } else {
      CreditGet(s.weights, staker, weight);
      SameTotals(s, t);
    }
  }

  lemma StakeKeepsConsistent(s: Ledger, staker: Address, amount: u128)
    requires Consistent(s) && Stake(s, staker, amount).Ok?
    ensures Consistent(Stake(s, staker, amount).value.0)
  {
    hide AddWeight, Credit, WeightOf, TotalsMatch;
    var (t, weight) := Stake(s, staker, amount).value;
    var s1 := s.(stakes := Credit(s.stakes, staker, amount).value);
    SameTotals(s, s1);
    if Grants(s.config, amount) {
      AddWeightKeepsConsistent(s1, staker, weight);
    }
  }

  lemma AddWeightStakes(s: Ledger, staker: Address, weight: u128)
    ensures AddWeight(s, staker, weight).Ok? ==>
      AddWeight(s, staker, weight).value.stakes == s.stakes && AddWeight(s, staker, weight).value.config == s.config
  {
    hide Credit;
  }

  lemma SameTotals(s: Ledger, t: Ledger)
    requires TotalsMatch(s) && t.delegations == s.delegations && t.totals == s.totals
    ensures TotalsMatch(t)
  {}

  lemma DelegateKeepsConsistent(s: Ledger, staker: Address, delegate: Address)
    requires Consistent(s) && Delegate(s, staker, delegate).Ok?
    ensures Consistent(Delegate(s, staker, delegate).value.0)
  {
    hide DelegatedTo, Credit, TotalsMatch;
    var t := Delegate(s, staker, delegate).value.0;
    var amount := t.delegations[staker].amount;
    CreditGet(Reclaim(s, staker), delegate, amount);
    if staker in s.delegations { TotalAtLeast(s, staker); }
    TotalsAfterChange(s, staker, Some(t.delegations[staker]), t);
  }

  lemma TotalAtLeast(s: Ledger, a: Address)
    requires TotalsMatch(s) && a in s.delegations
    ensures Get(s.totals, s.delegations[a].delegate) >= s.delegations[a].amount
  {
    DelegatedToAtLeast(s.delegations, a);
  }

  /** In a consistent ledger an undelegation always succeeds: it cannot overflow,
      and gives the staker exactly the delegated amount as direct weight. */
  lemma UndelegateNeverOverflows(s: Ledger, staker: Address)
    requires Consistent(s)
    ensures Undelegate(s, staker).Ok? <==> staker in s.delegations
    ensures Undelegate(s, staker).Ok? ==>
      var (t, event) := Undelegate(s, staker).value;
      && Consistent(t) && staker !in t.delegations
      && Get(t.weights, staker) == OwnWeight(s, staker) == event.restoredWeight
      && event.remainingPower == DelegatedTo(t.delegations, event.formerDelegate)
  {
    hide DelegatedTo, WeightOf;
    if staker in s.delegations {
      var d := s.delegations[staker];
      assert Get(s.weights, staker) == 0;
      var t := Undelegate(s, staker).value.0;
      DelegatedToAtLeast(s.delegations, staker);
      assert forall a :: Get(t.totals, a) == Get(s.totals, a) - (if a == d.delegate then d.amount else 0);
      TotalsAfterChange(s, staker, None, t);
      assert Get(t.totals, d.delegate) == DelegatedTo(t.delegations, d.delegate);
    }
  }

  /** Unstaking subtracts, with saturation, from the delegate's total and from
      the staker's own record. The ledger stays consistent exactly when both
      saturate alike: the weight removed is within the delegated amount, or the
      staker is the delegate's only source of power. */
  lemma UnstakeKeepsConsistentIff(s: Ledger, staker: Address, amount: u128)
    requires Consistent(s) && Unstake(s, staker, amount).Ok?
    ensures var (t, weight) := Unstake(s, staker, amount).value;
      Consistent(t) <==>
        (staker in s.delegations ==>
          weight <= s.delegations[staker].amount
          || Get(s.totals, s.delegations[staker].delegate) == s.delegations[staker].amount)
  {
    hide DelegatedTo, Debit, WeightOf, TotalsMatch;
    var (t, weight) := Unstake(s, staker, amount).value;
    if weight > 0 && staker in s.delegations {
      var d := s.delegations[staker];
      TotalAtLeast(s, staker);
      DebitGet(s.totals, d.delegate, weight);
      if weight <= d.amount || Get(s.totals, d.delegate) == d.amount {
        TotalsAfterChange(s, staker,
                          if d.amount <= weight then None else Some(t.delegations[staker]), t);
      } else {
        TotalsDiffer(s, staker, t);
      }
    } else {
      DebitGet(s.weights, staker, weight);
      SameTotals(s, t);
    }
  }

  /** Removing a's record but more than its amount from the total breaks the sum. */
  lemma TotalsDiffer(s: Ledger, a: Address, t: Ledger)
    requires TotalsMatch(s) && a in s.delegations && t.delegations == s.delegations - {a}
    requires var d := s.delegations[a].delegate; Get(t.totals, d) < Get(s.totals, d) - s.delegations[a].amount
    ensures !TotalsMatch(t)
  {
    var d := s.delegations[a].delegate;
    DelegatedToAfterRemove(s.delegations, a, d);
    assert Get(t.totals, d) != DelegatedTo(t.delegations, d);
  }

  // ----- whole runs -----

  datatype Op =
    | StakeOp(staker: Address, amount: u128)
    | UnstakeOp(staker: Address, amount: u128)
    | DelegateOp(staker: Address, delegate: Address)
    | UndelegateOp(staker: Address)

  /** One entry-point call; a failed call changes nothing. */
  function Next(s: Ledger, op: Op): Ledger
  {
    match op
    case StakeOp(a, v) => (match Stake(s, a, v) case Ok((t, _)) => t case Err(_) => s)
    case UnstakeOp(a, v) => (match Unstake(s, a, v) case Ok((t, _)) => t case Err(_) => s)
    case DelegateOp(a, d) => (match Delegate(s, a, d) case Ok((t, _)) => t case Err(_) => s)
    case UndelegateOp(a) => (match Undelegate(s, a) case Ok((t, _)) => t case Err(_) => s)
  }

  function Run(s: Ledger, ops: seq<Op>): Ledger
  {
    if ops == [] then s else Next(Run(s, ops[..|ops| - 1]), ops[|ops| - 1])
  }

  ghost predicate Good(s: Ledger)
  {
    s.config == DEFAULT_CONFIG && Consistent(s) && WeightEqualsStake(s)
  }

  lemma DefaultWeight(amount: u128)
    ensures WeightOf(DEFAULT_CONFIG, amount).Ok? ==> WeightOf(DEFAULT_CONFIG, amount).value == amount
  {}

  lemma AddWeightEffect(s: Ledger, staker: Address, weight: u128, a: Address)
    requires DelegatorsHaveNoDirectWeight(s) && AddWeight(s, staker, weight).Ok?
    ensures var t := AddWeight(s, staker, weight).value;
      && DelegatorsHaveNoDirectWeight(t)
      && OwnWeight(t, a) == OwnWeight(s, a) + (if a == staker then weight else 0)
  {
    hide Credit;
    if staker in s.delegations {
      CreditGet(s.totals, s.delegations[staker].delegate, weight);
    } else {
      CreditGet(s.weights, staker, weight);
    }
  }

  /** What staking does to every staker's stake and whole weight. */
  lemma StakeEffect(s: Ledger, staker: Address, amount: u128, a: Address)
    requires DelegatorsHaveNoDirectWeight(s) && Stake(s, staker, amount).Ok?
    ensures var (t, weight) := Stake(s, staker, amount).value;
      && DelegatorsHaveNoDirectWeight(t)
      && Get(t.stakes, a) == Get(s.stakes, a) + (if a == staker then amount else 0)
      && OwnWeight(t, a) == OwnWeight(s, a) + (if a == staker then weight else 0)
  {
    hide WeightOf, Credit, AddWeight;
    CreditGet(s.stakes, staker, amount);
    var (t, weight) := Stake(s, staker, amount).value;
    var s1 := s.(stakes := Credit(s.stakes, staker, amount).value);
    assert OwnWeight(s1, a) == OwnWeight(s, a);
    if Grants(s.config, amount) {
      AddWeightStakes(s1, staker, weight);
      AddWeightEffect(s1, staker, weight, a);
    }
  }

  lemma UnstakeEffect(s: Ledger, staker: Address, amount: u128, a: Address)
    requires DelegatorsHaveNoDirectWeight(s) && Unstake(s, staker, amount).Ok?
    ensures var (t, weight) := Unstake(s, staker, amount).value;
      && DelegatorsHaveNoDirectWeight(t)
      && Get(t.stakes, a) == Get(s.stakes, a) - (if a == staker then amount else 0)
      && OwnWeight(t, a) == (if a == staker then SaturatingSub(OwnWeight(s, a), weight) else OwnWeight(s, a))
  {
    hide WeightOf, Debit;
    var (t, weight) := Unstake(s, staker, amount).value;
    DebitGet(s.stakes, staker, amount);
    DebitGet(s.weights, staker, weight);
    assert DelegatorsHaveNoDirectWeight(t);
    assert a in s.delegations ==> Get(s.weights, a) == 0;
  }

  lemma DelegateEffect(s: Ledger, staker: Address, delegate: Address, a: Address)
    requires DelegatorsHaveNoDirectWeight(s) && Delegate(s, staker, delegate).Ok?
    ensures var t := Delegate(s, staker, delegate).value.0;
      DelegatorsHaveNoDirectWeight(t) && t.stakes == s.stakes && OwnWeight(t, a) == OwnWeight(s, a)
  {}

  lemma UndelegateEffect(s: Ledger, staker: Address, a: Address)
    requires DelegatorsHaveNoDirectWeight(s) && Undelegate(s, staker).Ok?
    ensures var t := Undelegate(s, staker).value.0;
      DelegatorsHaveNoDirectWeight(t) && t.stakes == s.stakes && OwnWeight(t, a) == OwnWeight(s, a)
  {}

  lemma NextKeepsGood(s: Ledger, op: Op)
    requires Good(s)
    ensures Good(Next(s, op))
  {
    hide TotalsMatch, DelegatorsHaveNoDirectWeight, OwnWeight, WeightOf, Debit, Credit;
    if Next(s, op) != s {
      match op {
        case StakeOp(staker, v) =>
          DefaultWeight(v);
          StakeKeepsConsistent(s, staker, v);
          forall a ensures OwnWeight(Next(s, op), a) == Get(Next(s, op).stakes, a) { StakeEffect(s, staker, v, a); }
        case UnstakeOp(staker, v) =>
          DefaultWeight(v);
          UnstakeWithinDelegation(s, staker, v);
          UnstakeKeepsConsistentIff(s, staker, v);
          forall a ensures OwnWeight(Next(s, op), a) == Get(Next(s, op).stakes, a) {
            UnstakeEffect(s, staker, v, a);
            assert OwnWeight(s, a) == Get(s.stakes, a);
          }
        case DelegateOp(staker, d) =>
          DelegateKeepsConsistent(s, staker, d);
          forall a ensures OwnWeight(Next(s, op), a) == Get(Next(s, op).stakes, a) { DelegateEffect(s, staker, d, a); }
        case UndelegateOp(staker) =>
          UndelegateNeverOverflows(s, staker);
          forall a ensures OwnWeight(Next(s, op), a) == Get(Next(s, op).stakes, a) { UndelegateEffect(s, staker, a); }
      }
    }
  }

  lemma UnstakeWithinDelegation(s: Ledger, staker: Address, amount: u128)
    requires Good(s) && amount <= Get(s.stakes, staker)
    ensures staker in s.delegations ==> amount <= s.delegations[staker].amount
  {
    assert OwnWeight(s, staker) == Get(s.stakes, staker);
  }

  /** Over every run from the empty ledger with the default one-to-one
      configuration: every staker's direct weight plus own delegated amount is
      its stake, delegating stakers have no direct weight, and every delegate's
      total is the sum of the delegations naming it. */
  lemma {:induction false} EveryRunIsGood(ops: seq<Op>)
    ensures Good(Run(INITIAL, ops))
  {
    if ops == [] {
      assert forall d :: AmountsTo(map[], d) == map[];
    } else {
      EveryRunIsGood(ops[..|ops| - 1]);
      NextKeepsGood(Run(INITIAL, ops[..|ops| - 1]), ops[|ops| - 1]);
    }
  }

  const POWER_LOSS_CALLS: seq<Op> :=
    [StakeOp(Address(1), 10), StakeOp(Address(2), 10), DelegateOp(Address(1), Address(3)), DelegateOp(Address(2), Address(3))]

  /** Two stakers stake 10 each and delegate to one delegate; then the rate is doubled. */
  function AfterRateChange(): Ledger
  {
    Run(INITIAL, POWER_LOSS_CALLS).(config := GovWeightConfig(true, 2_000_000, 0))
  }

  /** In the ledger so reached the first staker unstakes its 10. Weight 20 leaves the
      total, only 10 leaves the record, and the second staker's 10 are no longer
      counted. */
  lemma UnstakeAfterRateChangeLosesPower()
    ensures var (s, a, d) := (AfterRateChange(), Address(1), Address(3));
      && Consistent(s) && Unstake(s, a, 10).Ok?
      && Get(s.totals, d) == 20 && Get(Unstake(s, a, 10).value.0.totals, d) == 0
      && !TotalsMatch(Unstake(s, a, 10).value.0)
  {
    var (a, b, d) := (Address(1), Address(2), Address(3));
    EveryRunIsGood(POWER_LOSS_CALLS);
    var s := AfterRateChange();
    SameTotals(Run(INITIAL, POWER_LOSS_CALLS), s);
    ReachedByCalls();
    UnstakeKeepsConsistentIff(s, a, 10);
  }

  lemma ReachedByCalls()
    ensures var (a, b, d) := (Address(1), Address(2), Address(3));
      Run(INITIAL, POWER_LOSS_CALLS)
        == Ledger(DEFAULT_CONFIG, map[a := 10, b := 10], map[a := 0, b := 0],
                  map[a := Delegation(d, 10), b := Delegation(d, 10)], map[d := 20])
  {
    var calls := POWER_LOSS_CALLS;
    StakeSteps();
    DelegateSteps();
    assert calls[..4] == calls && calls[..4][..3] == calls[..3] && calls[..3][..2] == calls[..2];
    assert calls[..2][..1] == calls[..1] && calls[..1][..0] == [];
    hide Next;
    assert Run(INITIAL, calls[..1]) == Next(INITIAL, calls[0]);
    assert Run(INITIAL, calls[..2]) == Next(Next(INITIAL, calls[0]), calls[1]);
  }

  lemma StakeSteps()
    ensures var (a, b) := (Address(1), Address(2));
      var s := Ledger(DEFAULT_CONFIG, map[a := 10], map[a := 10], map[], map[]);
      && Next(INITIAL, StakeOp(a, 10)) == s
      && Next(s, StakeOp(b, 10)) == Ledger(DEFAULT_CONFIG, map[a := 10, b := 10], map[a := 10, b := 10], map[], map[])
  {}

  lemma DelegateSteps()
    ensures var (a, b, d) := (Address(1), Address(2), Address(3));
      var s := Ledger(DEFAULT_CONFIG, map[a := 10, b := 10], map[a := 10, b := 10], map[], map[]);
      var t := s.(weights := map[a := 0, b := 10], delegations := map[a := Delegation(d, 10)], totals := map[d := 10]);
      && Next(s, DelegateOp(a, d)) == t
      && Next(t, DelegateOp(b, d))
         == t.(weights := map[a := 0, b := 0], delegations := map[a := Delegation(d, 10), b := Delegation(d, 10)],
               totals := map[d := 20])
  {}

  /** Only staking and unstaking by `a` change what `a` owns. This holds under
      every configuration, and whatever the other stakers do. */
  lemma NextKeepsOwnWeight(s: Ledger, op: Op, a: Address)
    requires DelegatorsHaveNoDirectWeight(s)
    ensures DelegatorsHaveNoDirectWeight(Next(s, op))
    ensures op.staker != a || op.DelegateOp? || op.UndelegateOp? ==> OwnWeight(Next(s, op), a) == OwnWeight(s, a)
  {
    hide DelegatorsHaveNoDirectWeight, OwnWeight, WeightOf, Debit, Credit;
    if Next(s, op) != s {
      match op
      case StakeOp(staker, v) => StakeEffect(s, staker, v, a);
      case UnstakeOp(staker, v) => UnstakeEffect(s, staker, v, a);
      case DelegateOp(staker, d) => DelegateEffect(s, staker, d, a);
      case UndelegateOp(staker) => UndelegateEffect(s, staker, a);
    }
  }

  /** However often `a` delegates, re-delegates and undelegates, with the other
      stakers' calls in between: once it delegates to nobody, its direct weight
      is back to what it was. */
  lemma {:induction false} DelegationChainRestoresWeight(s: Ledger, ops: seq<Op>, a: Address)
    requires DelegatorsHaveNoDirectWeight(s)
    requires forall i :: 0 <= i < |ops| ==> ops[i].staker != a || ops[i].DelegateOp? || ops[i].UndelegateOp?
    ensures DelegatorsHaveNoDirectWeight(Run(s, ops))
    ensures OwnWeight(Run(s, ops), a) == OwnWeight(s, a)
    ensures a !in s.delegations && a !in Run(s, ops).delegations ==> Get(Run(s, ops).weights, a) == Get(s.weights, a)
  {
    if ops != [] {
      var init := ops[..|ops| - 1];
      DelegationChainRestoresWeight(s, init, a);
      NextKeepsOwnWeight(Run(s, init), ops[|ops| - 1], a);
    }
  }

  // ----- voting power is neither created nor destroyed -----

  function Amounts(dels: map<Address, Delegation>): map<Address, u128>
  {
    map a | a in dels :: dels[a].amount
  }

  /** Summed over the delegates, the totals give every delegated amount once. */
  lemma {:induction false} TotalsSumToAmounts(dels: map<Address, Delegation>, totals: map<Address, int>)
    requires forall d :: Get(totals, d) == DelegatedTo(dels, d)
    ensures Sum(totals) == Sum(Amounts(dels))
    decreases |dels|
  {
    if dels == map[] {
      assert forall d :: AmountsTo(dels, d) == map[];
      assert Amounts(dels) == map[];
      SumAdds(totals, map[], map[]);
    } else {
      var a :| a in dels;
      var x := dels[a];
      var totals' := totals[x.delegate := Get(totals, x.delegate) - x.amount];
      forall d ensures Get(totals', d) == DelegatedTo(dels - {a}, d) {
        DelegatedToAfterRemove(dels, a, d);
      }
      assert (dels - {a}).Keys == dels.Keys - {a};
      TotalsSumToAmounts(dels - {a}, totals');
      SumUpdate(totals, x.delegate, Get(totals, x.delegate) - x.amount);
      SumRemove(Amounts(dels), a);
      assert Amounts(dels) - {a} == Amounts(dels - {a});
    }
  }

  /** In every reachable ledger all direct weight and all delegated totals
      together are exactly all stakes. */
  lemma VotingPowerIsConserved(ops: seq<Op>)
    ensures var s := Run(INITIAL, ops); Sum(s.weights) + Sum(s.totals) == Sum(s.stakes)
  {
    var s := Run(INITIAL, ops);
    EveryRunIsGood(ops);
    TotalsSumToAmounts(s.delegations, s.totals);
    forall a ensures Get(s.stakes, a) == Get(s.weights, a) + Get(Amounts(s.delegations), a) {
      assert OwnWeight(s, a) == Get(s.stakes, a);
    }
    SumAdds(s.stakes, s.weights, Amounts(s.delegations));
  }

  lemma AddWeightOnlyOverflows()
    ensures forall s: Ledger, a: Address, w: u128 :: AddWeight(s, a, w).Err? ==> AddWeight(s, a, w) == Err(Overflow)
  {}

  // ----- what the calls mean -----

  /** A call keeps a consistent ledger consistent, and a one-to-one ledger one-to-one. */
  ghost predicate KeepsBooks(before: Ledger, after: Ledger)
  {
    (Consistent(before) ==> Consistent(after)) && (Good(before) ==> Good(after))
  }

  /** A staker gains or loses what it staked or unstaked; nobody else is affected. */
  ghost predicate Moves(before: Ledger, after: Ledger, staker: Address, stake: int, weight: int)
  {
    forall a ::
      && Get(after.stakes, a) == Get(before.stakes, a) + (if a == staker then stake else 0)
      && OwnWeight(after, a) == OwnWeight(before, a) + (if a == staker then weight else 0)
  }

  lemma BooksAfter(s: Ledger, op: Op)
    ensures Good(s) ==> Good(Next(s, op))
    ensures !op.UnstakeOp? ==> KeepsBooks(s, Next(s, op))
  {
    if Good(s) { NextKeepsGood(s, op); }
    hide Consistent, Good, Stake, Delegate, Undelegate, Unstake;
    if Consistent(s) && Next(s, op) != s {
      match op {
        case StakeOp(staker, v) => StakeKeepsConsistent(s, staker, v);
        case UnstakeOp(_, _) =>
        case DelegateOp(staker, d) => DelegateKeepsConsistent(s, staker, d);
        case UndelegateOp(staker) => UndelegateNeverOverflows(s, staker);
      }
    }
  }

  /** The state and the result a call leaves, by its specification. */
  ghost function StateOf<T>(spec: Outcome<T>, before: Ledger): Ledger
  {
    match spec case Ok((t, _)) => t case Err(_) => before
  }

  ghost function ResultOf<T>(spec: Outcome<T>): Result<T, ContractError>
  {
    match spec case Ok((_, v)) => Ok(v) case Err(e) => Err(e)
  }

  /** The weight a stake derives: at the rate over 10^6, unless weighting is off or
      the weight is below the threshold. */
  function DerivedWeight(c: GovWeightConfig, amount: u128): int
  {
    var w := amount * c.weightPerToken / 1_000_000;
    if c.enabled && w >= c.minStakeThreshold then w else 0
  }

  /** Where new weight of a staker is added: the total of its delegate, or its own. */
  ghost function PowerBehind(s: Ledger, staker: Address): int
  {
    if staker in s.delegations then DelegatedTo(s.delegations, s.delegations[staker].delegate) else Get(s.weights, staker)
  }

  /** Staking keeps the books. In a consistent ledger it succeeds exactly for a positive
      amount when the stake, the scaled amount and the power the weight is added to fit
      128 bits; it credits exactly the staker with the amount and the weight, which goes
      to the delegate the staker has, and changes no other delegation. */
  ghost predicate Staked(before: Ledger, after: Ledger, staker: Address, amount: u128, r: Result<u128, ContractError>)
  {
    var w := DerivedWeight(before.config, amount);
    && KeepsBooks(before, after)
    && (Consistent(before) ==>
          (r.Ok? <==>
             && amount > 0 && Get(before.stakes, staker) + amount < TWO128
             && (before.config.enabled ==>
                   && amount * before.config.weightPerToken < TWO128
                   && (w > 0 ==> PowerBehind(before, staker) + w < TWO128))))
    && (r.Err? ==> after == before && r.error == if amount == 0 then VaultZeroAmount else Overflow)
    && (Consistent(before) && r.Ok? ==>
          && r.value == w && Moves(before, after, staker, amount, w)
          && OnlyOwnDelegation(before, after, staker))
  }

  lemma StakeOutcome(s: Ledger, staker: Address, amount: u128)
    requires Consistent(s)
    ensures var w := DerivedWeight(s.config, amount);
      var r := Stake(s, staker, amount);
      && (r.Ok? <==>
            && amount > 0 && Get(s.stakes, staker) + amount < TWO128
            && (s.config.enabled ==>
                  && amount * s.config.weightPerToken < TWO128
                  && (w > 0 ==> PowerBehind(s, staker) + w < TWO128)))
      && (r.Ok? ==> r.value.1 == w && OnlyOwnDelegation(s, r.value.0, staker))
  {
    PowerFits(s, staker);
    var current := Get(s.stakes, staker);
    if amount > 0 && current + amount < TWO128 {
      StakeUnfolded(s, staker, amount, s.stakes[staker := current + amount]);
      if s.config.enabled && amount * s.config.weightPerToken < TWO128 {
        WeightFits(amount, s.config.weightPerToken);
        AddWeightOutcome(s, s.stakes[staker := current + amount], staker, amount * s.config.weightPerToken / 1_000_000);
      }
    } else {
      StakeNeedsAmount(s, staker, amount);
    }
    hide Stake, AddWeight, PowerBehind, Consistent;
  }

  /** Nobody else's delegation differs, and the staker's has the same delegate. */
  ghost predicate OnlyOwnDelegation(s: Ledger, t: Ledger, staker: Address)
  {
    && t.delegations - {staker} == s.delegations - {staker}
    && (staker in t.delegations <==> staker in s.delegations)
    && (staker in s.delegations ==> t.delegations[staker].delegate == s.delegations[staker].delegate)
  }

  lemma WeightFits(amount: u128, rate: u128)
    requires FitsU128(amount * rate)
    ensures FitsU128(amount * rate / 1_000_000)
  {}

  lemma PowerFits(s: Ledger, staker: Address)
    requires Consistent(s)
    ensures 0 <= PowerBehind(s, staker) < TWO128
  {
    if staker in s.delegations {
      assert Get(s.totals, s.delegations[staker].delegate) == DelegatedTo(s.delegations, s.delegations[staker].delegate);
    }
  }

  lemma StakeNeedsAmount(s: Ledger, staker: Address, amount: u128)
    ensures Stake(s, staker, amount).Ok? ==> amount > 0 && Get(s.stakes, staker) + amount < TWO128
  {
    hide AddWeight, WeightOf;
  }

  /** The branches of `stake_governance` for a stake that fits. */
  lemma StakeUnfolded(s: Ledger, staker: Address, amount: u128, stakes: map<Address, u128>)
    requires amount > 0 && Get(s.stakes, staker) + amount < TWO128
    requires stakes == s.stakes[staker := Get(s.stakes, staker) + amount]
    ensures var (c, r, w) := (s.config, Stake(s, staker, amount), amount * s.config.weightPerToken / 1_000_000);
      if !c.enabled then r == Ok((s.(stakes := stakes), 0))
      else if amount * c.weightPerToken >= TWO128 then r.Err?
      else if w < c.minStakeThreshold then r == Ok((s.(stakes := stakes), 0))
      else (
        WeightFits(amount, c.weightPerToken);
        (r.Ok? <==> AddWeight(s.(stakes := stakes), staker, w).Ok?)
        && (r.Ok? ==> r.value == (AddWeight(s.(stakes := stakes), staker, w).value, w)))
  {
    hide AddWeight;
  }

  lemma AddWeightOutcome(s: Ledger, stakes: map<Address, u128>, staker: Address, weight: u128)
    requires Consistent(s)
    ensures var r := AddWeight(s.(stakes := stakes), staker, weight);
      && (r.Ok? <==> PowerBehind(s, staker) + weight < TWO128)
      && (r.Ok? ==> OnlyOwnDelegation(s, r.value, staker))
  {
    if staker in s.delegations { DelegatePower(s, staker); }
    hide Consistent, DelegatedTo, OnlyOwnDelegation;
    AddWeightRecords(s, stakes, staker, weight);
  }

  lemma AddWeightRecords(s: Ledger, stakes: map<Address, u128>, staker: Address, weight: u128)
    ensures var r := AddWeight(s.(stakes := stakes), staker, weight); r.Ok? ==> OnlyOwnDelegation(s, r.value, staker)
  {
    hide Credit;
  }

  lemma DelegatePower(s: Ledger, staker: Address)
    requires Consistent(s) && staker in s.delegations
    ensures var d := s.delegations[staker];
      DelegatedTo(s.delegations, d.delegate) == Get(s.totals, d.delegate) >= d.amount
  {
    TotalAtLeast(s, staker);
  }

  lemma StakeErrors(s: Ledger, staker: Address, amount: u128)
    ensures var r := Stake(s, staker, amount); r.Err? ==> r.error == if amount == 0 then VaultZeroAmount else Overflow
  {
    AddWeightOnlyOverflows();
  }

  lemma StakeMeaning(s: Ledger, staker: Address, amount: u128)
    ensures var spec := Stake(s, staker, amount); Staked(s, StateOf(spec, s), staker, amount, ResultOf(spec))
  {
    BooksAfter(s, StakeOp(staker, amount));
    StakeErrors(s, staker, amount);
    if Consistent(s) { StakeOutcome(s, staker, amount); }
    hide Stake, DerivedWeight, PowerBehind, Good, Consistent;
    if Consistent(s) && Stake(s, staker, amount).Ok? {
      var (t, weight) := Stake(s, staker, amount).value;
      NoDirectWeight(s);
      forall a ensures Get(t.stakes, a) == Get(s.stakes, a) + (if a == staker then amount else 0)
                       && OwnWeight(t, a) == OwnWeight(s, a) + (if a == staker then weight else 0) {
        StakeEffect(s, staker, amount, a);
      }
    }
  }

  lemma NoDirectWeight(s: Ledger)
    requires Consistent(s)
    ensures DelegatorsHaveNoDirectWeight(s)
  {}

  /** Unstaking keeps the books exactly when the weight removed is within the delegated
      amount or the staker is its delegate's only source of power; at the default rate
      always, and then debits exactly the staker. */
  ghost predicate Unstaked(before: Ledger, after: Ledger, staker: Address, amount: u128, r: Result<u128, ContractError>)
  {
    && (Consistent(before) && r.Ok? ==>
          (Consistent(after) <==>
             (staker in before.delegations ==>
                r.value <= before.delegations[staker].amount
                || Get(before.totals, before.delegations[staker].delegate) == before.delegations[staker].amount)))
    && (r.Ok? <==>
          && 0 < amount <= Get(before.stakes, staker)
          && (before.config.enabled ==> amount * before.config.weightPerToken < TWO128))
    && (r.Err? ==> after == before && r.error == if amount == 0 then VaultZeroAmount
                   else if amount > Get(before.stakes, staker) then VaultInsufficientBalance else Overflow)
    && (r.Ok? ==> r.value == if before.config.enabled then amount * before.config.weightPerToken / 1_000_000 else 0)
    && (Consistent(before) && r.Ok? ==> TakesWeight(before, after, staker, amount, r.value))
    && (Good(before) ==> Good(after))
    && (Good(before) && r.Ok? ==> r.value == amount && Moves(before, after, staker, -(amount as int), -(amount as int)))
  }

  /** At any rate: the stake falls by the amount; the weight leaves the staker and, if
      it delegates, its delegate, as far as they have it; a delegation of nothing ends,
      and so does an entry of nothing; nobody else is affected. */
  ghost predicate TakesWeight(before: Ledger, after: Ledger, staker: Address, amount: int, weight: int)
  {
    TakenFromStaker(before, after, staker, amount, weight) && TakenFromDelegate(before, after, staker, weight)
  }

  ghost predicate TakenFromStaker(before: Ledger, after: Ledger, staker: Address, amount: int, weight: int)
  {
    forall a ::
      && Get(after.stakes, a) == Get(before.stakes, a) - (if a == staker then amount else 0)
      && OwnWeight(after, a) == if a == staker then Max(0, OwnWeight(before, a) - weight) else OwnWeight(before, a)
  }

  ghost predicate TakenFromDelegate(before: Ledger, after: Ledger, staker: Address, weight: int)
  {
    && after.delegations - {staker} == before.delegations - {staker}
    && (staker in after.delegations ==>
          && staker in before.delegations && (weight > 0 ==> after.delegations[staker].amount > 0)
          && after.delegations[staker].delegate == before.delegations[staker].delegate)
    && (forall d :: Get(after.totals, d) ==
          if staker in before.delegations && before.delegations[staker].delegate == d
          then Max(0, Get(before.totals, d) - weight) else Get(before.totals, d))
    && (Get(after.stakes, staker) == 0 ==> staker !in after.stakes)
    && (staker in before.delegations && weight > 0 ==>
          var d := before.delegations[staker].delegate; Get(after.totals, d) == 0 ==> d !in after.totals)
  }

  lemma UnstakeTakesWeight(s: Ledger, staker: Address, amount: u128)
    requires DelegatorsHaveNoDirectWeight(s) && Unstake(s, staker, amount).Ok?
    ensures var (t, weight) := Unstake(s, staker, amount).value; TakesWeight(s, t, staker, amount, weight)
  {
    hide Unstake, DelegatorsHaveNoDirectWeight, OwnWeight, TakenFromDelegate;
    UnstakeRecords(s, staker, amount);
    var (t, weight) := Unstake(s, staker, amount).value;
    forall a
      ensures Get(t.stakes, a) == Get(s.stakes, a) - (if a == staker then amount else 0)
      ensures OwnWeight(t, a) == if a == staker then Max(0, OwnWeight(s, a) - weight) else OwnWeight(s, a)
    {
      UnstakeEffect(s, staker, amount, a);
    }
  }

  lemma UnstakeRecords(s: Ledger, staker: Address, amount: u128)
    requires Unstake(s, staker, amount).Ok?
    ensures var (t, weight) := Unstake(s, staker, amount).value; TakenFromDelegate(s, t, staker, weight)
  {
    var (t, weight) := Unstake(s, staker, amount).value;
    if staker in s.delegations { DebitGet(s.totals, s.delegations[staker].delegate, weight); }
    hide WeightOf, Debit;
  }

  lemma UnstakeOutcome(s: Ledger, staker: Address, amount: u128)
    ensures var r := Unstake(s, staker, amount);
      && (r.Ok? <==>
            && 0 < amount <= Get(s.stakes, staker)
            && (s.config.enabled ==> amount * s.config.weightPerToken < TWO128))
      && (r.Err? ==> r.error == if amount == 0 then VaultZeroAmount
                                else if amount > Get(s.stakes, staker) then VaultInsufficientBalance else Overflow)
      && (r.Ok? ==> r.value.1 == if s.config.enabled then amount * s.config.weightPerToken / 1_000_000 else 0)
  {
    hide Debit;
  }

  lemma UnstakeMeaning(s: Ledger, staker: Address, amount: u128)
    ensures var spec := Unstake(s, staker, amount); Unstaked(s, StateOf(spec, s), staker, amount, ResultOf(spec))
  {
    BooksAfter(s, UnstakeOp(staker, amount));
    UnstakeOutcome(s, staker, amount);
    if Consistent(s) && Unstake(s, staker, amount).Ok? {
      UnstakeKeepsConsistentIff(s, staker, amount);
      NoDirectWeight(s);
      UnstakeTakesWeight(s, staker, amount);
    }
    hide Consistent, TakesWeight;
    if Good(s) && Unstake(s, staker, amount).Ok? { GoodUnstake(s, staker, amount); }
    hide Unstake, Good, Moves;
  }

  lemma GoodUnstake(s: Ledger, staker: Address, amount: u128)
    requires Good(s) && Unstake(s, staker, amount).Ok?
    ensures var (t, weight) := Unstake(s, staker, amount).value;
      weight == amount && Moves(s, t, staker, -(amount as int), -(amount as int))
  {
    var (t, weight) := Unstake(s, staker, amount).value;
    DefaultWeight(amount);
    NoDirectWeight(s);
    forall a ensures Get(t.stakes, a) == Get(s.stakes, a) + (if a == staker then -(amount as int) else 0)
                     && OwnWeight(t, a) == OwnWeight(s, a) + (if a == staker then -(amount as int) else 0) {
      UnstakeEffect(s, staker, amount, a);
      assert OwnWeight(s, a) == Get(s.stakes, a);
    }
  }

  /** Delegating keeps the books. In a consistent ledger it succeeds exactly when the
      delegate is somebody else, the staker delegates already or has direct weight, and
      what the others delegate there leaves room for the staker's whole weight. That
      weight is then with the delegate, whose total is again the sum of the delegations
      naming it; no other delegation changed and nobody gained or lost weight. */
  ghost predicate Delegated(before: Ledger, after: Ledger, staker: Address, delegate: Address,
                            r: Result<(), ContractError>)
  {
    && KeepsBooks(before, after)
    && (Consistent(before) ==>
          (r.Ok? <==>
             && staker != delegate && (staker in before.delegations || Get(before.weights, staker) > 0)
             && DelegatedTo(before.delegations - {staker}, delegate) + OwnWeight(before, staker) < TWO128))
    && (r.Err? ==> after == before && r.error == if staker == delegate then InvalidDelegate
                   else if staker in before.delegations || Get(before.weights, staker) > 0 then Overflow else NoVotingWeight)
    && (Consistent(before) && r.Ok? ==>
       && Moves(before, after, staker, 0, 0) && Get(after.weights, staker) == 0
       && after.delegations == before.delegations[staker := Delegation(delegate, OwnWeight(before, staker))]
       && Get(after.totals, delegate) == DelegatedTo(after.delegations, delegate))
  }

  lemma DelegateOutcome(s: Ledger, staker: Address, delegate: Address)
    requires Consistent(s)
    ensures Delegate(s, staker, delegate).Ok? <==>
      && staker != delegate && (staker in s.delegations || Get(s.weights, staker) > 0)
      && DelegatedTo(s.delegations - {staker}, delegate) + OwnWeight(s, staker) < TWO128
    ensures Delegate(s, staker, delegate).Ok? ==>
      Delegate(s, staker, delegate).value.0.delegations
        == s.delegations[staker := Delegation(delegate, OwnWeight(s, staker))]
  {
    WholeWeight(s, staker);
    OthersPower(s, staker, delegate);
    hide DelegatedTo, Consistent, Reclaim, OwnWeight;
    DelegateUnfolded(s, staker, delegate, OwnWeight(s, staker));
  }

  lemma DelegateUnfolded(s: Ledger, staker: Address, delegate: Address, amount: u128)
    requires amount == if staker in s.delegations then s.delegations[staker].amount else Get(s.weights, staker)
    ensures var r := Delegate(s, staker, delegate);
      && (r.Ok? <==>
            && staker != delegate && (staker in s.delegations || Get(s.weights, staker) > 0)
            && Get(Reclaim(s, staker), delegate) + amount < TWO128)
      && (r.Ok? ==> r.value.0.delegations == s.delegations[staker := Delegation(delegate, amount)])
  {
    hide Reclaim;
  }

  lemma WholeWeight(s: Ledger, staker: Address)
    requires Consistent(s)
    ensures OwnWeight(s, staker) == if staker in s.delegations then s.delegations[staker].amount else Get(s.weights, staker)
    ensures FitsU128(OwnWeight(s, staker))
  {}

  /** With the staker's own delegation taken back, a total is what the others delegate. */
  lemma OthersPower(s: Ledger, staker: Address, delegate: Address)
    requires Consistent(s)
    ensures Get(Reclaim(s, staker), delegate) == DelegatedTo(s.delegations - {staker}, delegate)
  {
    DelegatedToAfterRemove(s.delegations, staker, delegate);
    assert Get(s.totals, delegate) == DelegatedTo(s.delegations, delegate);
    if staker in s.delegations { TotalAtLeast(s, staker); }
    hide DelegatedTo;
  }

  lemma DelegateErrors(s: Ledger, staker: Address, delegate: Address)
    ensures var r := Delegate(s, staker, delegate);
      r.Err? ==> r.error == if staker == delegate then InvalidDelegate
                 else if staker in s.delegations || Get(s.weights, staker) > 0 then Overflow else NoVotingWeight
  {}

  lemma DelegateMeaning(s: Ledger, staker: Address, delegate: Address)
    ensures var spec := Delegate(s, staker, delegate); Delegated(s, StateOf(spec, s), staker, delegate, ResultOf(spec))
  {
    BooksAfter(s, DelegateOp(staker, delegate));
    DelegateErrors(s, staker, delegate);
    if Consistent(s) { DelegateOutcome(s, staker, delegate); }
    hide Good;
    if Consistent(s) && Delegate(s, staker, delegate).Ok? {
      var t := Delegate(s, staker, delegate).value.0;
      DelegateKeepsConsistent(s, staker, delegate);
      forall a ensures Get(t.stakes, a) == Get(s.stakes, a) && OwnWeight(t, a) == OwnWeight(s, a) {
        DelegateEffect(s, staker, delegate, a);
      }
    }
  }

  /** Undelegating keeps the books and succeeds exactly for a delegating staker, who
      has its whole weight back as direct weight; the event reports it, with the
      power the former delegate has left. */
  ghost predicate Restored(before: Ledger, after: Ledger, staker: Address, r: Result<UndelegateEvent, ContractError>)
  {
    && KeepsBooks(before, after)
    && (Consistent(before) ==> (r.Ok? <==> staker in before.delegations))
    && (r.Err? ==> after == before && (staker !in before.delegations ==> r.error == NoActiveDelegation))
    && (Consistent(before) && r.Ok? ==>
          && Moves(before, after, staker, 0, 0) && after.delegations == before.delegations - {staker}
          && r.value.formerDelegate == before.delegations[staker].delegate
          && Get(after.weights, staker) == OwnWeight(before, staker) == r.value.restoredWeight
          && r.value.remainingPower == DelegatedTo(after.delegations, r.value.formerDelegate))
  }

  lemma UndelegateMeaning(s: Ledger, staker: Address)
    ensures var spec := Undelegate(s, staker); Restored(s, StateOf(spec, s), staker, ResultOf(spec))
  {
    BooksAfter(s, UndelegateOp(staker));
    if Consistent(s) {
      UndelegateNeverOverflows(s, staker);
      if Undelegate(s, staker).Ok? {
        var t := Undelegate(s, staker).value.0;
        forall a ensures Get(t.stakes, a) == Get(s.stakes, a) && OwnWeight(t, a) == OwnWeight(s, a) {
          UndelegateEffect(s, staker, a);
        }
      }
    }
  }

  // ----- the contract -----

  class VotingContract {
    var config: GovWeightConfig
    var stakes: map<Address, u128>
    var weights: map<Address, u128>
    var delegations: map<Address, Delegation>
    var totals: map<Address, u128>

    ghost function Model(): Ledger
      reads this
    {
      Ledger(config, stakes, weights, delegations, totals)
    }

    constructor ()
      ensures Good(Model()) && Model() == INITIAL
    {
      config, stakes, weights, delegations, totals := DEFAULT_CONFIG, map[], map[], map[], map[];
      new;
      EveryRunIsGood([]);
    }

    /** The outcome of a call against its specification: the returned value, and
        the whole new state, unchanged on failure. */
    static ghost predicate Implements<T>(spec: Outcome<T>, r: Result<T, ContractError>, before: Ledger, after: Ledger)
    {
      match spec
      case Ok((t, v)) => r == Ok(v) && after == t
      case Err(e) => r == Err(e) && after == before
    }

    method RecordStake(staker: Address, amount: u128) returns (ok: bool)
      modifies this`stakes
      ensures ok == Credit(old(stakes), staker, amount).Ok?
      ensures stakes == if ok then Credit(old(stakes), staker, amount).value else old(stakes)
    {
      var current := Get(stakes, staker);
      ok := FitsU128(current + amount);
      if ok {
        stakes := stakes[staker := current + amount];
      }
    }

    method StakeGovernance(staker: Address, amount: u128) returns (r: Result<u128, ContractError>)
      modifies this
      ensures Implements(Stake(old(Model()), staker, amount), r, old(Model()), Model())
      ensures Staked(old(Model()), Model(), staker, amount, r)
    {
      StakeMeaning(Model(), staker, amount);
      AddWeightOnlyOverflows();
      hide WeightOf, Staked, AddWeight;
      if amount == 0 {
        return Err(VaultZeroAmount);
      }
      if !config.enabled {
        var ok := RecordStake(staker, amount);
        return if ok then Ok(0) else Err(Overflow);
      }
      var weight :- WeightOf(config, amount);
      if weight < config.minStakeThreshold {
        var ok := RecordStake(staker, amount);
        return if ok then Ok(0) else Err(Overflow);
      }
      var before := stakes;
      var ok := RecordStake(staker, amount);
      if !ok {
        return Err(Overflow);
      }
      ok := CreditWeight(staker, weight);
      if !ok {
        // The error rolls the recorded stake back.
        stakes := before;
        return Err(Overflow);
      }
      r := Ok(weight);
    }

    /** New weight goes to the staker's delegate, or to the staker. */
    method CreditWeight(staker: Address, weight: u128) returns (ok: bool)
      modifies this`weights, this`delegations, this`totals
      ensures match AddWeight(old(Model()), staker, weight)
        case Ok(t) => ok && Model() == t
        case Err(_) => !ok && Model() == old(Model())
    {
      if staker in delegations {
        var d := delegations[staker];
        var current := Get(totals, d.delegate);
        if !FitsU128(current + weight) || !FitsU128(d.amount + weight) {
          return false;
        }
        totals := totals[d.delegate := current + weight];
        delegations := delegations[staker := Delegation(d.delegate, d.amount + weight)];
      } else {
        var current := Get(weights, staker);
        if !FitsU128(current + weight) {
          return false;
        }
        weights := weights[staker := current + weight];
      }
      ok := true;
    }

    method UnstakeGovernance(staker: Address, amount: u128) returns (r: Result<u128, ContractError>)
      modifies this
      ensures Implements(Unstake(old(Model()), staker, amount), r, old(Model()), Model())
      ensures Unstaked(old(Model()), Model(), staker, amount, r)
    {
      UnstakeMeaning(Model(), staker, amount);
      hide WeightOf, Unstaked;
      if amount == 0 {
        return Err(VaultZeroAmount);
      }
      var currentStake := Get(stakes, staker);
      if currentStake < amount {
        return Err(VaultInsufficientBalance);
      }
      var weight := 0;
      if config.enabled {
        weight :- WeightOf(config, amount);
      }
      var newStake := SaturatingSub(currentStake, amount);
      if newStake == 0 {
        stakes := stakes - {staker};
      } else {
        stakes := stakes[staker := newStake];
      }
      if weight > 0 {
        if staker in delegations {
          var d := delegations[staker];
          var remaining := SaturatingSub(Get(totals, d.delegate), weight);
          if remaining == 0 {
            totals := totals - {d.delegate};
          } else {
            totals := totals[d.delegate := remaining];
          }
          var newAmount := SaturatingSub(d.amount, weight);
          if newAmount == 0 {
            delegations := delegations - {staker};
          } else {
            delegations := delegations[staker := Delegation(d.delegate, newAmount)];
          }
        } else {
          var remaining := SaturatingSub(Get(weights, staker), weight);
          if remaining == 0 {
            weights := weights - {staker};
          } else {
            weights := weights[staker := remaining];
          }
        }
      }
      r := Ok(weight);
    }

    method DelegateTo(staker: Address, delegate: Address) returns (r: Result<(), ContractError>)
      modifies this
      ensures Implements(Delegate(old(Model()), staker, delegate), r, old(Model()), Model())
      ensures Delegated(old(Model()), Model(), staker, delegate, r)
    {
      DelegateMeaning(Model(), staker, delegate);
      hide Delegated;
      if staker == delegate {
        return Err(InvalidDelegate);
      }
      var newTotals := totals;
      var amount;
      if staker in delegations {
        var existing := delegations[staker];
        newTotals := newTotals[existing.delegate := SaturatingSub(Get(newTotals, existing.delegate), existing.amount)];
        amount := existing.amount;
      } else {
        amount := Get(weights, staker);
        if amount == 0 {
          return Err(NoVotingWeight);
        }
      }
      var current := Get(newTotals, delegate);
      if !FitsU128(current + amount) {
        return Err(Overflow);
      }
      weights := weights[staker := 0];
      delegations := delegations[staker := Delegation(delegate, amount)];
      totals := newTotals[delegate := current + amount];
      r := Ok(());
    }

    method UndelegateWeight(staker: Address) returns (r: Result<UndelegateEvent, ContractError>)
      modifies this
      ensures Implements(Undelegate(old(Model()), staker), r, old(Model()), Model())
      ensures Restored(old(Model()), Model(), staker, r)
    {
      UndelegateMeaning(Model(), staker);
      hide Restored;
      if staker !in delegations {
        return Err(NoActiveDelegation);
      }
      var d := delegations[staker];
      var own := Get(weights, staker);
      if !FitsU128(own + d.amount) {
        return Err(Overflow);
      }
      delegations := delegations - {staker};
      var remaining := SaturatingSub(Get(totals, d.delegate), d.amount);
      if remaining == 0 {
        totals := totals - {d.delegate};
      } else {
        totals := totals[d.delegate := remaining];
      }
      weights := weights[staker := own + d.amount];
      r := Ok(UndelegateEvent(d.delegate, d.amount, remaining));
    }
  }
}

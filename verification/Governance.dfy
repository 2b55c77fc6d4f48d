/** Count- and weight-based signer quorum and key rotation (src/governance.rs). */
module Governance {
  import opened Machine
  import opened MapSum

  /** A Soroban vector: its length is a 32-bit number. */
  type Addresses = xs: seq<Address> | |xs| <= 0xFFFF_FFFF

  datatype State = State(
    admin: Address,
    signers: set<Address>,
    weights: map<Address, u32>,
    quorumThreshold: u32,
    requiredWeight: u32,
    maxSignerWeight: u32)

  const DEFAULT_QUORUM: u32 := 2
  const DEFAULT_REQUIRED_WEIGHT: u32 := 1

  predicate Authorized(s: State, a: Address) { a == s.admin || a in s.signers }

  function WeightOf(s: State, a: Address): u32
  {
    if a == s.admin then Max(Get(s.weights, a), 1) else Get(s.weights, a)
  }

  /** The authorized members of a set of addresses. */
  ghost function Voters(s: State, list: set<Address>): set<Address>
  {
    set a | a in list && Authorized(s, a)
  }

  ghost function WeightMap(s: State, voters: set<Address>): map<Address, int>
  {
    map a | a in voters :: WeightOf(s, a)
  }

  ghost function TotalWeight(s: State, voters: set<Address>): int { Sum(WeightMap(s, voters)) }

  /** The verdict of `verify_upgrade_quorum` on a set of addresses. */
  ghost function Verdict(s: State, list: set<Address>): Result<(), ContractError>
  {
    var voters := Voters(s, list);
    if TotalWeight(s, voters) > U32_MAX then Err(Overflow)
    else if |voters| < s.quorumThreshold then Err(ThresholdNotReached)
    else if TotalWeight(s, voters) < s.requiredWeight then Err(ThresholdNotReached)
    else Ok(())
  }

  lemma TotalWeightInsert(s: State, voters: set<Address>, a: Address)
    requires a !in voters
    ensures TotalWeight(s, voters + {a}) == TotalWeight(s, voters) + WeightOf(s, a)
  {
    SumRemove(WeightMap(s, voters + {a}), a);
    assert WeightMap(s, voters + {a}) - {a} == WeightMap(s, voters);
  }

  lemma {:induction false} TotalWeightMonotone(s: State, x: set<Address>, y: set<Address>)
    requires x <= y
    ensures 0 <= TotalWeight(s, x) <= TotalWeight(s, y) && |x| <= |y|
    decreases |y - x|
  {
    SumNonNegative(WeightMap(s, x));
    if y - x == {} {
      assert forall a :: a in y ==> a in x by {
        assert forall a :: a in y && a !in x ==> a in y - x;
      }
      assert x == y;
    } else {
      var a :| a in y - x;
      TotalWeightInsert(s, x, a);
      assert y - (x + {a}) == (y - x) - {a};
      TotalWeightMonotone(s, x + {a}, y);
      assert |x + {a}| == |x| + 1;
    }
  }

  /** The registered weights of the admin and the signers on a list. */
  ghost function RegisteredWeights(s: State, list: set<Address>): map<Address, int>
  {
    map a | a in list * (s.signers + {s.admin}) && a in s.weights :: s.weights[a]
  }

  /** The collected weight is the sum of the registered weights of the distinct signers
      on the list, the admin among them, who counts for 1 if it has none. */
  lemma CollectedWeightMeaning(s: State, list: set<Address>)
    ensures TotalWeight(s, Voters(s, list))
         == Sum(RegisteredWeights(s, list)) + (if s.admin in list && Get(s.weights, s.admin) == 0 then 1 else 0)
  {
    var bonus: map<Address, int> := map[];
    assert Sum(bonus) == 0;
    if s.admin in list && Get(s.weights, s.admin) == 0 {
      bonus := map[s.admin := 1];
      SumRemove(bonus, s.admin);
      assert bonus - {s.admin} == map[];
    }
    SumAdds(WeightMap(s, Voters(s, list)), RegisteredWeights(s, list), bonus);
  }

  /** The exact verdict: enough distinct signers, with enough weight that fits 32 bits. */
  lemma VerdictMeaning(s: State, list: set<Address>)
    ensures var (r, n) := (Verdict(s, list), |list * (s.signers + {s.admin})|);
      var w := Sum(RegisteredWeights(s, list)) + (if s.admin in list && Get(s.weights, s.admin) == 0 then 1 else 0);
      && (r.Ok? <==> n >= s.quorumThreshold && s.requiredWeight <= w < 0x1_0000_0000)
      && (r.Err? ==> r.error == if w >= 0x1_0000_0000 then Overflow else ThresholdNotReached)
  {
    CollectedWeightMeaning(s, list);
    assert Voters(s, list) == list * (s.signers + {s.admin});
    hide TotalWeight, RegisteredWeights;
  }

  // ----- what passes -----

  ghost predicate SomeListPasses(s: State)
  {
    exists list: set<Address> :: Verdict(s, list).Ok?
  }

  /** Adding addresses to a passing list keeps it passing, unless the weights
      overflow. */
  lemma MoreSignersStillPass(s: State, list: set<Address>, more: set<Address>)
    requires Verdict(s, list).Ok? && list <= more
    ensures Verdict(s, more).Ok? <==> TotalWeight(s, Voters(s, more)) <= U32_MAX
  {
    TotalWeightMonotone(s, Voters(s, list), Voters(s, more));
  }

  ghost function Everybody(s: State): set<Address> { s.signers + {s.admin} }

  /** Enough signers who weigh enough are always needed for some list to pass, and
      suffice when all authorized weights together fit 32 bits. */
  lemma PassingListExistsIff(s: State)
    ensures SomeListPasses(s)
        ==> |Everybody(s)| >= s.quorumThreshold && TotalWeight(s, Everybody(s)) >= s.requiredWeight
    ensures TotalWeight(s, Everybody(s)) <= U32_MAX ==>
      (SomeListPasses(s)
       <==> |Everybody(s)| >= s.quorumThreshold && TotalWeight(s, Everybody(s)) >= s.requiredWeight)
  {
    assert Voters(s, Everybody(s)) == Everybody(s);
    if list: set<Address> :| Verdict(s, list).Ok? {
      TotalWeightMonotone(s, Voters(s, list), Everybody(s));
    }
    if TotalWeight(s, Everybody(s)) <= U32_MAX
       && |Everybody(s)| >= s.quorumThreshold && TotalWeight(s, Everybody(s)) >= s.requiredWeight {
      assert Verdict(s, Everybody(s)).Ok?;
    }
  }

  /** The threshold number of signers whose weights fit 32 bits. */
  ghost predicate LightQuorum(s: State, quorum: set<Address>)
  {
    quorum <= Everybody(s) && |quorum| == s.quorumThreshold && TotalWeight(s, quorum) <= U32_MAX
  }

  /** Whatever all weights sum to: when no single weight can jump from below the
      required weight past 32 bits, some list passes if and only if everybody together
      weighs enough and some quorum-sized group fits 32 bits. */
  lemma LightQuorumPassesIff(s: State)
    requires forall a :: a in Everybody(s) ==> WeightOf(s, a) + s.requiredWeight <= U32_MAX + 1
    ensures SomeListPasses(s)
       <==> TotalWeight(s, Everybody(s)) >= s.requiredWeight && exists quorum :: LightQuorum(s, quorum)
  {
    if list: set<Address> :| Verdict(s, list).Ok? {
      var voters := Voters(s, list);
      TotalWeightMonotone(s, voters, Everybody(s));
      var quorum := Subset(voters, s.quorumThreshold);
      TotalWeightMonotone(s, quorum, voters);
      assert LightQuorum(s, quorum);
    }
    if quorum :| TotalWeight(s, Everybody(s)) >= s.requiredWeight && LightQuorum(s, quorum) {
      var list := FillUp(s, quorum);
    }
  }

  lemma {:induction false} Subset(xs: set<Address>, n: nat) returns (ys: set<Address>)
    requires n <= |xs|
    ensures ys <= xs && |ys| == n
    decreases |xs|
  {
    ys := xs;
    if n < |xs| {
      var a :| a in xs;
      ys := Subset(xs - {a}, n);
    }
  }

  /** Adds one signer at a time until the weight suffices; it cannot leave 32 bits. */
  lemma {:induction false} FillUp(s: State, voters: set<Address>) returns (list: set<Address>)
    requires forall a :: a in Everybody(s) ==> WeightOf(s, a) + s.requiredWeight <= U32_MAX + 1
    requires TotalWeight(s, Everybody(s)) >= s.requiredWeight
    requires voters <= Everybody(s) && |voters| >= s.quorumThreshold && TotalWeight(s, voters) <= U32_MAX
    ensures Verdict(s, list).Ok?
    decreases |Everybody(s) - voters|
  {
    hide TotalWeight, WeightOf, Verdict, Everybody;
    list := voters;
    EnoughPasses(s, voters);
    if TotalWeight(s, voters) < s.requiredWeight {
      var a := OneMore(s, voters);
      TotalWeightInsert(s, voters, a);
      assert Everybody(s) - (voters + {a}) == (Everybody(s) - voters) - {a};
      assert |voters + {a}| == |voters| + 1;
      list := FillUp(s, voters + {a});
    }
  }

  lemma EnoughPasses(s: State, voters: set<Address>)
    requires voters <= Everybody(s) && |voters| >= s.quorumThreshold
    ensures s.requiredWeight <= TotalWeight(s, voters) <= U32_MAX ==> Verdict(s, voters).Ok?
  {
    assert Voters(s, voters) == voters;
    hide TotalWeight;
  }

  lemma OneMore(s: State, voters: set<Address>) returns (a: Address)
    requires voters <= Everybody(s) && TotalWeight(s, voters) != TotalWeight(s, Everybody(s))
    ensures a in Everybody(s) && a !in voters
  {
    hide TotalWeight;
    assert voters != Everybody(s) && !(Everybody(s) <= voters);
    a :| a in Everybody(s) && a !in voters;
  }

  /** When everybody is needed, some list passes if and only if all weights
      together reach the required weight without leaving 32 bits. */
  lemma UnanimousQuorumPassesIff(s: State)
    requires s.quorumThreshold == |Everybody(s)|
    ensures SomeListPasses(s)
       <==> s.requiredWeight <= TotalWeight(s, Everybody(s)) <= U32_MAX
  {
    assert Voters(s, Everybody(s)) == Everybody(s);
    if list: set<Address> :| Verdict(s, list).Ok? {
      SubsetSize(Voters(s, list), Everybody(s));
    }
    if s.requiredWeight <= TotalWeight(s, Everybody(s)) <= U32_MAX {
      assert Verdict(s, Everybody(s)).Ok?;
    }
  }

  /** With the default thresholds and nobody registered beside the admin, no list
      passes: the first rotation needs a registered signer. */
  lemma AdminAloneNeverPasses(s: State, list: set<Address>)
    requires s.signers <= {s.admin} && s.quorumThreshold >= DEFAULT_QUORUM
    ensures Verdict(s, list).Err?
  {
    assert Voters(s, list) <= {s.admin};
    TotalWeightMonotone(s, Voters(s, list), {s.admin});
  }

  // ----- rotation -----

  ghost function Rotate(s: State, signers: seq<Address>, newSigners: Addresses, newThreshold: u32)
    : Result<State, ContractError>
  {
    var _ :- Verdict(s, ToSet(signers));
    if newThreshold == 0 || newThreshold > |ToSet(newSigners)| then Err(InvalidThreshold)
    else if newSigners == [] then Err(InvalidThreshold)
    else Ok(State(newSigners[0], ToSet(newSigners), map a | a in ToSet(newSigners) :: 1,
                  newThreshold, newThreshold, Max(s.maxSignerWeight, 1)))
  }

  /** A rotation succeeds exactly when the present signers' list passes and the threshold
      is between 1 and the number of distinct new signers; the first of them is the new
      admin, each weighs 1, and the threshold is the count and the weight required. */
  lemma RotateOutcome(s: State, signers: seq<Address>, newSigners: Addresses, t: u32)
    ensures var r := Rotate(s, signers, newSigners, t);
      && (r.Ok? <==> Verdict(s, ToSet(signers)).Ok? && 1 <= t <= |ToSet(newSigners)|)
      && (r.Err? ==> r.error == if Verdict(s, ToSet(signers)).Err? then Verdict(s, ToSet(signers)).error
                                else InvalidThreshold)
      && (r.Ok? ==>
            && newSigners != [] && r.value.admin == newSigners[0]
            && (forall a :: a in r.value.signers <==> a in newSigners)
            && (forall a :: Get(r.value.weights, a) == if a in newSigners then 1 else 0)
            && r.value.quorumThreshold == t == r.value.requiredWeight
            && r.value.maxSignerWeight == if s.maxSignerWeight == 0 then 1 else s.maxSignerWeight)
  {
    assert newSigners == [] ==> ToSet(newSigners) == {};
    hide Verdict;
  }

  /** The shape a rotation leaves: the admin is a signer, every signer weighs 1,
      and both thresholds are the same reachable number. */
  ghost predicate Rotated(s: State)
  {
    && s.admin in s.signers && |s.signers| <= U32_MAX
    && s.weights.Keys == s.signers && (forall a :: a in s.weights ==> s.weights[a] == 1)
    && 1 <= s.quorumThreshold == s.requiredWeight <= |s.signers|
  }

  lemma RotateIsRotated(s: State, signers: seq<Address>, newSigners: Addresses, t: u32)
    requires Rotate(s, signers, newSigners, t).Ok?
    ensures Rotated(Rotate(s, signers, newSigners, t).value)
  {
    ToSetSize(newSigners);
    var u := Rotate(s, signers, newSigners, t).value;
    assert u.weights.Keys == u.signers;
  }

  lemma {:induction false} UnitWeights(s: State, voters: set<Address>)
    requires Rotated(s) && voters <= s.signers
    ensures TotalWeight(s, voters) == |voters|
    decreases |voters|
  {
    if voters == {} {
      assert WeightMap(s, voters) == map[];
    } else {
      var a :| a in voters;
      UnitWeights(s, voters - {a});
      TotalWeightInsert(s, voters - {a}, a);
      assert voters - {a} + {a} == voters;
    }
  }

  /** In a rotated state a list passes exactly when it holds at least the
      threshold number of distinct signers; so all signers together pass. */
  lemma RotatedVerdict(s: State, list: set<Address>)
    requires Rotated(s)
    ensures Verdict(s, list).Ok? <==> |list * s.signers| >= s.quorumThreshold
    ensures Verdict(s, list).Err? ==> Verdict(s, list) == Err(ThresholdNotReached)
    ensures Verdict(s, s.signers).Ok?
  {
    assert Voters(s, list) == list * s.signers;
    assert Voters(s, s.signers) == s.signers;
    UnitWeights(s, list * s.signers);
    UnitWeights(s, s.signers);
    TotalWeightMonotone(s, list * s.signers, s.signers);
  }

  /** Right after a successful rotation a list passes exactly when it holds at
      least `t` distinct members of the new signers. */
  lemma AfterRotation(s: State, signers: seq<Address>, newSigners: Addresses, t: u32, list: seq<Address>)
    requires Rotate(s, signers, newSigners, t).Ok?
    ensures Verdict(Rotate(s, signers, newSigners, t).value, ToSet(list)).Ok?
       <==> |ToSet(list) * ToSet(newSigners)| >= t
  {
    RotateIsRotated(s, signers, newSigners, t);
    RotatedVerdict(Rotate(s, signers, newSigners, t).value, ToSet(list));
  }

  datatype RotateCall = RotateCall(signers: seq<Address>, newSigners: Addresses, newThreshold: u32)

  ghost function RotateAll(s: State, calls: seq<RotateCall>): State
  {
    if calls == [] then s
    else
      var init := RotateAll(s, calls[..|calls| - 1]);
      var c := calls[|calls| - 1];
      match Rotate(init, c.signers, c.newSigners, c.newThreshold) case Ok(t) => t case Err(_) => init
  }

  /** Over every chain of rotation attempts, from any state: some list passes
      after it if and only if some list passed before it. */
  lemma {:induction false} RotationNeverLocksOut(s: State, calls: seq<RotateCall>)
    ensures SomeListPasses(RotateAll(s, calls)) <==> SomeListPasses(s)
    ensures Rotated(s) ==> Rotated(RotateAll(s, calls)) && SomeListPasses(s)
  {
    hide Rotate;
    if calls == [] {
      if Rotated(s) { RotatedVerdict(s, s.signers); }
    } else {
      var k := |calls| - 1;
      RotationNeverLocksOut(s, calls[..k]);
      var init := RotateAll(s, calls[..k]);
      var c := calls[k];
      if Rotate(init, c.signers, c.newSigners, c.newThreshold).Ok? {
        RotationPasses(init, c.signers, c.newSigners, c.newThreshold);
      }
    }
  }

  lemma RotationPasses(s: State, signers: seq<Address>, newSigners: Addresses, t: u32)
    requires Rotate(s, signers, newSigners, t).Ok?
    ensures var u := Rotate(s, signers, newSigners, t).value;
      SomeListPasses(s) && SomeListPasses(u) && Rotated(u)
  {
    RotateIsRotated(s, signers, newSigners, t);
    var u := Rotate(s, signers, newSigners, t).value;
    RotatedVerdict(u, u.signers);
    assert Verdict(s, ToSet(signers)).Ok?;
  }

  // ----- weights set by hand -----

  function SetWeight(s: State, a: Address, w: u32): State
  {
    s.(weights := if w == 0 then s.weights - {a} else s.weights[a := w])
  }

  /** After the weight of one non-admin signer of a rotated contract is removed,
      some list still passes if and only if the quorum was not unanimous. */
  lemma DroppedWeightLocksOutIff(s: State, a: Address)
    requires Rotated(s) && a in s.signers && a != s.admin
    ensures SomeListPasses(SetWeight(s, a, 0)) <==> s.quorumThreshold < |s.signers|
  {
    hide TotalWeight, Verdict;
    var t := SetWeight(s, a, 0);
    var others := s.signers - {a};
    assert others + {a} == s.signers == Everybody(t);
    TotalWeightInsert(t, others, a);
    UnitWeights(s, others);
    SameWeights(s, t, others);
    PassingListExistsIff(t);
  }

  lemma SameWeights(s: State, t: State, voters: set<Address>)
    requires forall a :: a in voters ==> WeightOf(s, a) == WeightOf(t, a)
    ensures TotalWeight(s, voters) == TotalWeight(t, voters)
  {
    assert WeightMap(s, voters) == WeightMap(t, voters);
  }

  // ----- the contract -----

  class GovernanceContract {
    var admin: Address
    var signers: set<Address>
    var weights: map<Address, u32>
    var quorumThreshold: u32
    var requiredWeight: u32
    var maxSignerWeight: u32

    ghost function Model(): State
      reads this
    {
      State(admin, signers, weights, quorumThreshold, requiredWeight, maxSignerWeight)
    }

    constructor (a: Address)
      ensures Model() == State(a, {}, map[], DEFAULT_QUORUM, DEFAULT_REQUIRED_WEIGHT, 1)
    {
      admin, signers, weights := a, {}, map[];
      quorumThreshold, requiredWeight, maxSignerWeight := DEFAULT_QUORUM, DEFAULT_REQUIRED_WEIGHT, 1;
    }

    /** The loop shared by `verify_upgrade_quorum` and `calculate_collected_weight`:
        distinct authorized signers, and their checked weight. */
    method Collect(list: Addresses) returns (validCount: nat, collected: Option<u32>)
      ensures var voters := Voters(Model(), ToSet(list));
        && (collected.None? <==> TotalWeight(Model(), voters) > U32_MAX)
        && (collected.Some? ==> collected.value == TotalWeight(Model(), voters) && validCount == |voters|)
    {
      hide TotalWeight;
      ghost var s := Model();
      var seen: set<Address> := {};
      var weight: u32 := 0;
      validCount := 0;
      assert TotalWeight(s, {}) == 0 by { EmptyWeight(s); }
      for i := 0 to |list|
        invariant seen == ToSet(list[..i])
        invariant validCount == |Voters(s, seen)| && weight == TotalWeight(s, Voters(s, seen))
      {
        var signer := list[i];
        assert ToSet(list[..i + 1]) == ToSet(list[..i]) + {signer} by { assert list[..i + 1] == list[..i] + [signer]; }
        if signer in seen {
          assert seen + {signer} == seen;
          continue;
        }
        ghost var before := Voters(s, seen);
        seen := seen + {signer};
        if !(signer == admin || signer in signers) {
          assert Voters(s, seen) == before;
          continue;
        }
        assert Voters(s, seen) == before + {signer};
        TotalWeightInsert(s, before, signer);
        validCount := validCount + 1;
        var w := if signer == admin then Max(Get(weights, admin), 1) else Get(weights, signer);
        if !FitsU32(weight + w) {
          TotalWeightMonotone(s, Voters(s, seen), Voters(s, ToSet(list)));
          return validCount, None;
        }
        weight := weight + w;
      }
      assert list[..|list|] == list;
      collected := Some(weight);
    }

    /** `verify_upgrade_quorum`: the verdict depends on the set of addresses only. */
    method VerifyUpgradeQuorum(list: Addresses) returns (r: Result<(), ContractError>)
      ensures r == Verdict(Model(), ToSet(list))
    {
      var validCount, collected := Collect(list);
      if collected.None? {
        return Err(Overflow);
      }
      if validCount < quorumThreshold {
        return Err(ThresholdNotReached);
      }
      if collected.value < requiredWeight {
        return Err(ThresholdNotReached);
      }
      r := Ok(());
    }

    method CalculateCollectedWeight(list: Addresses) returns (r: Result<u32, ContractError>)
      ensures var w := TotalWeight(Model(), Voters(Model(), ToSet(list)));
        r == if w > U32_MAX then Err(Overflow) else Ok(w)
    {
      var validCount, collected := Collect(list);
      r := if collected.None? then Err(Overflow) else Ok(collected.value);
    }

    method SetSignerWeight(a: Address, w: u32)
      modifies this`weights
      ensures Model() == SetWeight(old(Model()), a, w)
      ensures forall x :: Get(weights, x) == if x == a then w else Get(old(weights), x)
      ensures a in weights <==> w > 0
      ensures w == 0 && Rotated(old(Model())) && a in signers && a != admin ==>
        (SomeListPasses(Model()) <==> quorumThreshold < |signers|)
    {
      if Rotated(Model()) && a in signers && a != admin { DroppedWeightLocksOutIff(Model(), a); }
      if w == 0 {
        weights := weights - {a};
      } else {
        weights := weights[a := w];
      }
    }

    method RotateAdminKeys(list: Addresses, newSigners: Addresses, newThreshold: u32)
      returns (r: Result<(), ContractError>)
      modifies this
      ensures match Rotate(old(Model()), list, newSigners, newThreshold)
        case Ok(t) => r == Ok(()) && Model() == t && Rotated(Model())
        case Err(e) => r == Err(e) && Model() == old(Model())
    {
      var _ :- VerifyUpgradeQuorum(list);
      var signerSet, newWeights := BuildSigners(newSigners);
      if newThreshold == 0 || newThreshold > |signerSet| {
        return Err(InvalidThreshold);
      }
      if |newSigners| == 0 {
        return Err(InvalidThreshold);
      }
      RotateIsRotated(Model(), list, newSigners, newThreshold);
      admin := newSigners[0];
      signers, weights := signerSet, newWeights;
      quorumThreshold, requiredWeight := newThreshold, newThreshold;
      maxSignerWeight := Max(maxSignerWeight, 1);
      r := Ok(());
    }

    /** The two loops that build the signer set and the unit weights. */
    static method BuildSigners(newSigners: Addresses) returns (signerSet: set<Address>, newWeights: map<Address, u32>)
      ensures signerSet == ToSet(newSigners)
      ensures newWeights == map a | a in ToSet(newSigners) :: 1
    {
      signerSet, newWeights := {}, map[];
      for i := 0 to |newSigners|
        invariant signerSet == ToSet(newSigners[..i])
        invariant newWeights == map a | a in ToSet(newSigners[..i]) :: 1
      {
        assert newSigners[..i + 1] == newSigners[..i] + [newSigners[i]];
        signerSet := signerSet + {newSigners[i]};
        newWeights := newWeights[newSigners[i] := 1];
      }
      assert newSigners[..|newSigners|] == newSigners;
    }
  }

  lemma EmptyWeight(s: State)
    ensures TotalWeight(s, {}) == 0
  {
    assert WeightMap(s, {}) == map[];
  }
}

/** When consensus on an escrow can still be reached, when it is lost, and what that
    leaves to the sender and the anchor (src/oracle_attestation.rs, src/lib.rs). */
module OracleLiveness {
  import opened Machine
  import opened MapSum
  import opened OracleAttestation
  import opened OracleRuns
  import opened OracleReplacement

  // ----- signed stores -----

  ghost predicate Signed(v: Verifier, a: Attestation)
  {
    exists k :: v(k, a.txId, a.amount, a.signature)
  }

  /** Every stored attestation verifies under some key: the one it was submitted with. */
  ghost predicate AllSigned(v: Verifier, s: Store)
  {
    forall k :: k in s.attestations ==> Signed(v, s.attestations[k])
  }

  lemma ApplyKeepsSigned(v: Verifier, s: Store, op: Op, now: u64)
    requires AllSigned(v, s) && Apply(v, s, op, now).Ok?
    ensures AllSigned(v, Apply(v, s, op, now).value)
  {
    hide Consensus, Without;
  }

  lemma {:induction false} RunKeepsSigned(v: Verifier, s: Store, calls: seq<Call>)
    requires AllSigned(v, s)
    ensures AllSigned(v, Run(v, s, calls))
  {
    if calls != [] {
      var k := |calls| - 1;
      RunKeepsSigned(v, s, calls[..k]);
      var t := Run(v, s, calls[..k]);
      if Apply(v, t, calls[k].op, calls[k].now).Ok? {
        ApplyKeepsSigned(v, t, calls[k].op, calls[k].now);
      }
    }
  }

  lemma EveryRunIsSigned(v: Verifier, admin: Address, calls: seq<Call>)
    ensures AllSigned(v, Run(v, Initial(admin), calls))
  {
    RunKeepsSigned(v, Initial(admin), calls);
  }

  // ----- when consensus can still be reached -----

  /** Calls at times from `now` up to `later`, in order, that leave the registry of
      the asset alone. */
  ghost predicate Between(calls: seq<Call>, asset: AssetId, now: u64, later: u64)
  {
    && now <= later
    && (forall i, j :: 0 <= i <= j < |calls| ==> now <= calls[i].now <= calls[j].now <= later)
    && (forall i :: 0 <= i < |calls| ==> !ChangesRegistry(calls[i].op, asset))
  }

  ghost predicate Reaches(v: Verifier, s: Store, calls: seq<Call>, id: u64, now: u64, later: u64)
    requires id in s.escrows
  {
    var asset := s.escrows[id].asset;
    var r := Consensus(v, Run(v, s, calls), id, asset, later);
    Between(calls, asset, now, later) && r.Ok? && r.value.consensusReached
  }

  /** The registered oracles that count for `x` now, or have not attested and may
      still attest it. An attestation that went stale cannot be renewed. */
  ghost function MayStillVote(v: Verifier, s: Store, id: u64, now: u64, x: TxId): set<Address>
    requires id in s.escrows
  {
    set o | o in OraclesOf(s, s.escrows[id].asset) && MayVote(v, s, id, o, now, x)
  }

  ghost predicate TwoMayStillVote(v: Verifier, s: Store, id: u64, now: u64)
    requires id in s.escrows
  {
    exists x :: |MayStillVote(v, s, id, now, x)| >= 2
  }

  /** Whoever counts for `x` at a later time of a run could vote for it before. */
  lemma VotersCouldVote(v: Verifier, s: Store, t: Store, id: u64, now: u64, later: u64, x: TxId)
    requires AttestationsSound(s) && AttestationsSound(t) && Later(s, t) && AllSigned(v, t)
    requires id in s.escrows && now <= later
    ensures forall o :: Counts(t, id, o, later) && t.attestations[(id, o)].txId == x ==> MayVote(v, s, id, o, now, x)
  {
    forall o | Counts(t, id, o, later) && t.attestations[(id, o)].txId == x
      ensures MayVote(v, s, id, o, now, x)
    {
      var key := (id, o);
      assert key in t.attestations && Signed(v, t.attestations[key]);
      if key in s.attestations { assert t.attestations[key] == s.attestations[key]; }
    }
  }

  /** No run reaches consensus unless two oracles may still vote for one transaction. */
  lemma ReachesNeedsTwo(v: Verifier, s: Store, calls: seq<Call>, id: u64, now: u64, later: u64)
    requires Sound(s) && AllSigned(v, s) && id in s.escrows && Reaches(v, s, calls, id, now, later)
    ensures TwoMayStillVote(v, s, id, now)
  {
    var asset := s.escrows[id].asset;
    var t := Run(v, s, calls);
    RunKeepsSound(v, s, calls);
    RunKeepsSigned(v, s, calls);
    RegistryFixed(v, s, calls, asset);
    ConsensusMeaning(v, t, id, asset, later);
    var x :| |VotersFor(t, id, OraclesOf(t, asset), later, x)| >= 2;
    hide Consensus, Run;
    VotersCouldVote(v, s, t, id, now, later, x);
    SubsetSize(VotersFor(t, id, OraclesOf(t, asset), later, x), MayStillVote(v, s, id, now, x));
  }

  /** Gives each of some oracles the key its attestation was signed with. */
  lemma {:induction false} RestoreKeys(v: Verifier, s: Store, id: u64, oracles: seq<Address>, now: u64)
    returns (calls: seq<Call>)
    requires AllSigned(v, s)
    ensures var t := Run(v, s, calls);
      && t == s.(pubkeys := t.pubkeys) && s.pubkeys.Keys <= t.pubkeys.Keys && NoTraps(v, t, id, oracles)
    ensures Quiet(calls, now)
    decreases |oracles|
  {
    calls := [];
    if oracles != [] {
      var k := |oracles| - 1;
      var o := oracles[k];
      assert oracles == oracles[..k] + [o];
      calls := RestoreKeys(v, s, id, oracles[..k], now);
      var t := Run(v, s, calls);
      if (id, o) in s.attestations {
        var key := (id, o);
        assert Signed(v, s.attestations[key]);
        var pub :| v(pub, s.attestations[key].txId, s.attestations[key].amount, s.attestations[key].signature);
        var c := Call(SetPubKey(o, pub), now);
        RunThen(v, s, calls, c, t.(pubkeys := t.pubkeys[o := pub]));
        calls := calls + [c];
      }
    }
  }

  lemma KeysKeepMayVote(v: Verifier, s: Store, t: Store, id: u64, o: Address, now: u64, x: TxId)
    requires t == s.(pubkeys := t.pubkeys) && s.pubkeys.Keys <= t.pubkeys.Keys
    requires id in s.escrows && MayVote(v, s, id, o, now, x)
    ensures MayVote(v, t, id, o, now, x)
    ensures OraclesOf(t, s.escrows[id].asset) == OraclesOf(s, s.escrows[id].asset)
  {
    hide CanSign;
  }

  /** Two oracles that may still vote bring consensus about: the keys that fit the
      stored signatures are registered again, and the two attest if they have not. */
  lemma TwoCanReach(v: Verifier, s: Store, id: u64, now: u64, x: TxId) returns (calls: seq<Call>)
    requires Sound(s) && AllSigned(v, s) && id in s.escrows && Unresolved(s.escrows[id])
    requires |MayStillVote(v, s, id, now, x)| >= 2
    ensures Reaches(v, s, calls, id, now, now)
  {
    var o, p := SomeTwo(MayStillVote(v, s, id, now, x));
    hide *;
    var asset := s.escrows[id].asset;
    var first := RestoreKeys(v, s, id, OraclesOf(s, asset), now);
    var t := Run(v, s, first);
    RunKeepsSound(v, s, first);
    KeysKeepMayVote(v, s, t, id, o, now, x);
    KeysKeepMayVote(v, s, t, id, p, now, x);
    var second := TwoVotes(v, t, id, o, p, now, x);
    RunConcat(v, s, first, second);
    QuietConcat(first, second, now);
    calls := first + second;
    AgreementIsReached(v, s, calls, id, now, x);
  }

  lemma AgreementIsReached(v: Verifier, s: Store, calls: seq<Call>, id: u64, now: u64, x: TxId)
    requires id in s.escrows && Quiet(calls, now)
    requires var asset := s.escrows[id].asset; AgreesOn(v, Run(v, s, calls), id, asset, OraclesOf(s, asset), now, x)
    ensures Reaches(v, s, calls, id, now, now)
  {
    hide Run, Consensus;
  }

  /** Under every signature scheme: consensus on an unresolved escrow can still be
      reached, by some run that leaves the registry alone, if and only if two of its
      oracles count for one transaction now or have not attested and may. */
  lemma ConsensusStillPossibleIff(v: Verifier, s: Store, id: u64, now: u64)
    requires Sound(s) && AllSigned(v, s) && id in s.escrows && Unresolved(s.escrows[id])
    ensures (exists calls, later :: Reaches(v, s, calls, id, now, later)) <==> TwoMayStillVote(v, s, id, now)
  {
    hide Reaches;
    if calls, later :| Reaches(v, s, calls, id, now, later) {
      ReachesNeedsTwo(v, s, calls, id, now, later);
    }
    if TwoMayStillVote(v, s, id, now) {
      var x :| |MayStillVote(v, s, id, now, x)| >= 2;
      var calls := TwoCanReach(v, s, id, now, x);
    }
  }

  // ----- the sender's refund on conflict -----

  /** At least two oracles are registered, no stored signature fails, and no two
      oracles count for the same transaction. */
  ghost predicate NoAgreement(v: Verifier, s: Store, id: u64, now: u64)
    requires id in s.escrows
  {
    var oracles := OraclesOf(s, s.escrows[id].asset);
    && |oracles| >= MIN_ATTESTATIONS && NoTraps(v, s, id, oracles)
    && forall x :: |VotersFor(s, id, oracles, now, x)| < 2
  }

  ghost predicate OneVoice(s: Store, id: u64, now: u64)
    requires id in s.escrows
  {
    |Counting(s, id, OraclesOf(s, s.escrows[id].asset), now)| == 1
  }

  /** The sender is refunded on conflict exactly when nothing is agreed and the
      voices that count are not a single one, unless 24 hours have passed since the
      lock, as a number of 64 bits. */
  lemma ConflictRefundIff(v: Verifier, s: Store, id: u64, now: u64)
    requires Sound(s) && id in s.escrows && Unresolved(s.escrows[id])
    ensures var e := s.escrows[id];
      RefundOnConflict(v, s, e.sender, id, now).Ok?
      <==> && NoAgreement(v, s, id, now)
           && (OneVoice(s, id, now) ==>
                 FitsU64(e.lockedAt + FIAT_PAYOUT_TIMEOUT_SECS) && now >= e.lockedAt + FIAT_PAYOUT_TIMEOUT_SECS)
  {
    var asset := s.escrows[id].asset;
    var oracles := OraclesOf(s, asset);
    ConsensusCounts(v, s, id, asset, now);
    assert s.escrows[id].timeoutSecs == FIAT_PAYOUT_TIMEOUT_SECS;
    if Consensus(v, s, id, asset, now).Ok? { ConsensusMeaning(v, s, id, asset, now); }
    hide Consensus, Sound, VotersFor, Counting;
  }

  lemma ConsensusCounts(v: Verifier, s: Store, id: u64, asset: AssetId, now: u64)
    requires Sound(s)
    ensures var (r, oracles) := (Consensus(v, s, id, asset, now), OraclesOf(s, asset));
      && (r.Ok? <==> |oracles| >= MIN_ATTESTATIONS && NoTraps(v, s, id, oracles))
      && (r.Ok? ==> r.value.validCount == |Counting(s, id, oracles, now)|)
  {
    CountingSize(s, id, OraclesOf(s, asset), now);
    hide Valid, Majority;
  }

  /** The anchor may settle and the sender may refund at the same moment, exactly
      when settling is still possible, nothing is agreed, and the voices that count
      are not a single one, which holds a refund back except for an escrow locked at
      time 0 and 24 hours later. */
  lemma SettleAndRefundOverlapIff(v: Verifier, s: Store, id: u64, now: u64)
    requires Sound(s) && id in s.escrows && Unresolved(s.escrows[id])
    ensures var e := s.escrows[id];
      SettleEscrow(s, e.anchor, id, now).Ok? && RefundOnConflict(v, s, e.sender, id, now).Ok?
      <==> && (e.lockedAt == 0 || now < e.lockedAt + FIAT_PAYOUT_TIMEOUT_SECS)
           && NoAgreement(v, s, id, now)
           && (OneVoice(s, id, now) ==> e.lockedAt == 0 && now >= FIAT_PAYOUT_TIMEOUT_SECS)
  {
    ConflictRefundIff(v, s, id, now);
    SettleOrRefund(s, id, now);
    hide RefundOnConflict, NoAgreement, OneVoice, Sound;
  }

  /** A dispatched escrow that its anchor may settle and its sender may refund: two
      oracles are registered and neither has attested yet. */
  lemma DispatchedYetRefundable(v: Verifier, admin: Address, asset: AssetId, o: Address, p: Address, now: u64)
    returns (calls: seq<Call>)
    requires o != p
    ensures var s := Run(v, Initial(admin), calls);
      && 0 in s.escrows && s.escrows[0].state == Dispatched && s.attestations == map[]
      && SettleEscrow(s, s.escrows[0].anchor, 0, now).Ok?
      && RefundOnConflict(v, s, s.escrows[0].sender, 0, now).Ok?
  {
    PairDistinct(o, p);
    var s0 := Initial(admin);
    var c1 := RegisterAll(v, s0, asset, [o, p], now);
    var s1 := Run(v, s0, c1);
    var c2 := OpenAndLock(v, s1, asset, 1, now);
    var s2 := Run(v, s1, c2);
    RunConcat(v, s0, c1, c2);
    var c := Call(Dispatch(s2.escrows[0].anchor, 0), now);
    var s3 := s2.(escrows := s2.escrows[0 := s2.escrows[0].(state := Dispatched)]);
    RunThen(v, s0, c1 + c2, c, s3);
    calls := c1 + c2 + [c];
    EveryRunIsSound(v, admin, calls);
    hide Run, Sound;
    assert Counting(s3, 0, [o, p], now) == {};
    assert NoAgreement(v, s3, 0, now) by {
      assert forall x :: VotersFor(s3, 0, [o, p], now, x) == {};
    }
    SettleAndRefundOverlapIff(v, s3, 0, now);
  }

  lemma PairDistinct(o: Address, p: Address)
    requires o != p
    ensures NoDuplicates([o, p])
  {
    assert [o][..0] == [] && NoDuplicates([o]) && [o, p][..1] == [o];
  }

  // ----- consensus lost for good -----

  /** All registered oracles have attested, and none of them counts any more. */
  ghost predicate AllStale(s: Store, id: u64, oracles: seq<Address>, now: u64)
  {
    forall o :: o in oracles ==>
      (id, o) in s.attestations && now - s.attestations[(id, o)].observedAt > MAX_ATTESTATION_AGE_SECS
  }

  lemma StaleNotCounting(s: Store, id: u64, oracles: seq<Address>, now: u64)
    requires AllStale(s, id, oracles, now)
    ensures Counting(s, id, oracles, now) == {}
  {}

  /** Once no two oracles may still vote for one transaction, no run that leaves the
      registry alone reaches consensus again, and the sender of an unresolved escrow
      is refunded whenever no stored signature fails, at once unless a single voice
      counts; none counts when all attestations are stale. */
  lemma ConsensusLostForGood(v: Verifier, s: Store, calls: seq<Call>, id: u64, now: u64, later: u64)
    requires Sound(s) && AllSigned(v, s) && id in s.escrows && !TwoMayStillVote(v, s, id, now)
    requires Between(calls, s.escrows[id].asset, now, later)
    ensures var t := Run(v, s, calls);
      var r := Consensus(v, t, id, s.escrows[id].asset, later);
      && id in t.escrows
      && (r.Ok? ==> !r.value.consensusReached)
      && (AllStale(s, id, OraclesOf(s, s.escrows[id].asset), now) && r.Ok? ==> r.value.validCount == 0)
      && (r.Ok? && Unresolved(t.escrows[id]) ==>
            var deadline := t.escrows[id].lockedAt + FIAT_PAYOUT_TIMEOUT_SECS;
            RefundOnConflict(v, t, t.escrows[id].sender, id, later).Ok?
            <==> (r.value.validCount == 1 ==> FitsU64(deadline) && later >= deadline))
  {
    var asset := s.escrows[id].asset;
    var t := Run(v, s, calls);
    RunKeepsSound(v, s, calls);
    RegistryFixed(v, s, calls, asset);
    hide Run, Consensus, Valid;
    if AllStale(s, id, OraclesOf(s, asset), now) {
      StaysStale(s, t, id, OraclesOf(s, asset), now, later);
      StaleNotCounting(t, id, OraclesOf(t, asset), later);
    }
    ConsensusCounts(v, t, id, asset, later);
    if Consensus(v, t, id, asset, later).Ok? && Consensus(v, t, id, asset, later).value.consensusReached {
      ReachesNeedsTwo(v, s, calls, id, now, later);
    }
    hide AllStale, TwoMayStillVote, Sound;
    if Unresolved(t.escrows[id]) { RefundWithoutConsensus(v, t, id, later); }
  }

  lemma StaysStale(s: Store, t: Store, id: u64, oracles: seq<Address>, now: u64, later: u64)
    requires Later(s, t) && AllStale(s, id, oracles, now) && now <= later
    ensures AllStale(t, id, oracles, later)
  {}

  lemma RefundWithoutConsensus(v: Verifier, s: Store, id: u64, now: u64)
    requires Sound(s) && id in s.escrows && Unresolved(s.escrows[id])
    ensures var (e, r) := (s.escrows[id], Consensus(v, s, id, s.escrows[id].asset, now));
      var deadline := e.lockedAt + FIAT_PAYOUT_TIMEOUT_SECS;
      r.Ok? && !r.value.consensusReached ==>
        (RefundOnConflict(v, s, e.sender, id, now).Ok?
         <==> (r.value.validCount == 1 ==> FitsU64(deadline) && now >= deadline))
  {
    hide Consensus;
    assert s.escrows[id].timeoutSecs == FIAT_PAYOUT_TIMEOUT_SECS;
  }

  /** The run of an agreement nobody acted on: two of two or three oracles agree at
      time `now`, the third is silent, and once five minutes have passed consensus is
      lost for good and the sender may refund at once. */
  lemma AgreementLapses(v: Verifier, admin: Address, asset: AssetId, oracles: seq<Address>, o: Address, p: Address,
                        x: TxId, now: u64, later: u64)
    returns (calls: seq<Call>)
    requires NoDuplicates(oracles) && |oracles| <= MAX_ORACLES && o in oracles && p in oracles && o != p
    requires CanSign(v, x, 1) && later > now + MAX_ATTESTATION_AGE_SECS
    ensures var s := Run(v, Initial(admin), calls);
      && AgreesOn(v, s, 0, asset, oracles, now, x)
      && 0 in s.escrows && !TwoMayStillVote(v, s, 0, later)
      && RefundOnConflict(v, s, s.escrows[0].sender, 0, later).Ok?
  {
    calls := FirstAgreement(v, admin, asset, 1, oracles, o, p, x, now);
    hide *;
    Lapsed(v, Run(v, Initial(admin), calls), oracles, o, p, now, later);
  }

  lemma Lapsed(v: Verifier, s: Store, oracles: seq<Address>, o: Address, p: Address, now: u64, later: u64)
    requires Sound(s) && 0 in s.escrows && Unresolved(s.escrows[0])
    requires OraclesOf(s, s.escrows[0].asset) == oracles && NoTraps(v, s, 0, oracles)
    requires NoDuplicates(oracles) && |oracles| <= MAX_ORACLES && o in oracles && p in oracles && o != p
    requires s.attestations.Keys == {(0, o), (0, p)} && later > now + MAX_ATTESTATION_AGE_SECS
    requires s.attestations[(0, o)].observedAt == now && s.attestations[(0, p)].observedAt == now
    ensures !TwoMayStillVote(v, s, 0, later) && RefundOnConflict(v, s, s.escrows[0].sender, 0, later).Ok?
  {
    TwoRegistered(oracles, o, p);
    assert forall q :: !Counts(s, 0, q, later);
    assert Counting(s, 0, oracles, later) == {};
    forall y ensures |VotersFor(s, 0, oracles, later, y)| < 2 {
      assert VotersFor(s, 0, oracles, later, y) == {};
    }
    ConflictRefundIff(v, s, 0, later);
    hide RefundOnConflict, Sound, NoDuplicates;
    forall y ensures |MayStillVote(v, s, 0, later, y)| < 2 {
      SubsetSize(MayStillVote(v, s, 0, later, y), ToSet(oracles) - {o, p});
    }
  }

  lemma TwoRegistered(oracles: seq<Address>, o: Address, p: Address)
    requires NoDuplicates(oracles) && |oracles| <= MAX_ORACLES && o in oracles && p in oracles && o != p
    ensures |oracles| >= 2 && |ToSet(oracles) - {o, p}| <= 1
  {
    SizeOfDistinct(oracles);
    SubsetSize({o, p}, ToSet(oracles));
    assert |ToSet(oracles) - {o, p}| == |ToSet(oracles)| - |{o, p}|;
  }
}

/** Runs of the escrow and oracle calls built step by step, up to the agreement of
    two oracles (src/oracle_attestation.rs). */
module OracleRuns {
  import opened Machine
  import opened MapSum
  import opened OracleAttestation

  // ----- runs -----

  lemma {:induction false} RunConcat(v: Verifier, s: Store, a: seq<Call>, b: seq<Call>)
    ensures Run(v, s, a + b) == Run(v, Run(v, s, a), b)
    decreases |b|
  {
    if b == [] {
      assert a + b == a;
    } else {
      var k := |b| - 1;
      assert (a + b)[..|a + b| - 1] == a + b[..k];
      RunConcat(v, s, a, b[..k]);
      hide Apply;
    }
  }

  lemma RunOne(v: Verifier, s: Store, c: Call, t: Store)
    requires Apply(v, s, c.op, c.now) == Ok(t)
    ensures Run(v, s, [c]) == t
  {
    assert [c][..0] == [];
    hide Apply;
  }

  lemma RunThen(v: Verifier, s: Store, calls: seq<Call>, c: Call, t: Store)
    requires Apply(v, Run(v, s, calls), c.op, c.now) == Ok(t)
    ensures Run(v, s, calls + [c]) == t
  {
    RunConcat(v, s, calls, [c]);
    RunOne(v, Run(v, s, calls), c, t);
  }

  // ----- the phases of the runs -----

  lemma {:induction false} RegisterAll(v: Verifier, s: Store, asset: AssetId, xs: seq<Address>, now: u64)
    returns (calls: seq<Call>)
    requires OraclesOf(s, asset) == [] && NoDuplicates(xs) && |xs| <= MAX_ORACLES
    ensures var t := Run(v, s, calls); OraclesOf(t, asset) == xs && t == s.(oracles := t.oracles)
    decreases |xs|
  {
    calls := [];
    if xs != [] {
      var k := |xs| - 1;
      calls := RegisterAll(v, s, asset, xs[..k], now);
      var t := Run(v, s, calls);
      var c := Call(Register(s.admin, asset, xs[k]), now);
      var u := t.(oracles := t.oracles[asset := xs[..k] + [xs[k]]]);
      assert xs[..k] + [xs[k]] == xs;
      assert RegisterOracle(t, s.admin, asset, xs[k]) == Ok(u);
      RunThen(v, s, calls, c, u);
      calls := calls + [c];
    }
  }

  lemma {:induction false} RemoveAll(v: Verifier, s: Store, asset: AssetId, now: u64) returns (calls: seq<Call>)
    requires NoDuplicates(OraclesOf(s, asset))
    ensures var t := Run(v, s, calls); OraclesOf(t, asset) == [] && t == s.(oracles := t.oracles)
    decreases |OraclesOf(s, asset)|
  {
    var xs := OraclesOf(s, asset);
    calls := [];
    if xs != [] {
      var k := |xs| - 1;
      var c := Call(Remove(s.admin, asset, xs[k]), now);
      WithoutAbsent(xs[..k], xs[k]);
      assert xs[..k] + [] == xs[..k] && Without(xs, xs[k]) == xs[..k];
      var t := s.(oracles := s.oracles[asset := xs[..k]]);
      assert RemoveOracle(s, s.admin, asset, xs[k]) == Ok(t);
      RunOne(v, s, c, t);
      var rest := RemoveAll(v, t, asset, now);
      RunConcat(v, s, [c], rest);
      calls := [c] + rest;
    }
  }

  lemma OpenAndLock(v: Verifier, s: Store, asset: AssetId, amount: u64, now: u64) returns (calls: seq<Call>)
    requires s.counter == 0 && amount > 0
    ensures var t := Run(v, s, calls);
      && t == s.(escrows := t.escrows, counter := t.counter)
      && 0 in t.escrows && t.escrows[0] == NewlyLocked(asset, amount, now)
  {
    var e := NewlyLocked(asset, amount, now).(state := Pending, lockedAt := 0);
    var t := s.(escrows := s.escrows[0 := e], counter := 1);
    var u := t.(escrows := t.escrows[0 := NewlyLocked(asset, amount, now)]);
    var (c, d) := (Call(Open(e.sender, e.anchor, asset, amount), now), Call(Lock(e.sender, 0), now));
    assert OpenEscrow(s, e.sender, e.anchor, asset, amount, now) == Ok(t) && LockEscrow(t, e.sender, 0, now) == Ok(u);
    RunOne(v, s, c, t);
    RunThen(v, s, [c], d, u);
    calls := [c] + [d];
  }

  function NewlyLocked(asset: AssetId, amount: u64, now: u64): FiatEscrow
  {
    FiatEscrow(0, Address(0), Address(0), amount, asset, Locked, now, now, FIAT_PAYOUT_TIMEOUT_SECS)
  }

  /** All calls at one time, none of them to the registry. */
  ghost predicate Quiet(calls: seq<Call>, now: u64)
  {
    forall i :: 0 <= i < |calls| ==> calls[i].now == now && !calls[i].op.Register? && !calls[i].op.Remove?
  }

  // ----- voices -----

  /** Some key and signature are accepted for the transaction and amount. */
  ghost predicate CanSign(v: Verifier, x: TxId, amount: u64)
  {
    exists k, g :: v(k, x, amount, g)
  }

  /** Oracle `o` stands for transaction `x`, or has not attested and may still do so. */
  ghost predicate MayVote(v: Verifier, s: Store, id: u64, o: Address, now: u64, x: TxId)
    requires id in s.escrows
  {
    if (id, o) in s.attestations then Counts(s, id, o, now) && s.attestations[(id, o)].txId == x
    else CanSign(v, x, s.escrows[id].amount)
  }

  /** From `s` to `t` the voice of `o` for `x` was added, unless it was there: no
      other attestation, and no signature of this escrow that fails, is new. */
  ghost predicate Voted(v: Verifier, s: Store, t: Store, id: u64, o: Address, now: u64, x: TxId)
  {
    && t == s.(pubkeys := t.pubkeys, attestations := t.attestations)
    && s.pubkeys.Keys <= t.pubkeys.Keys
    && t.attestations.Keys == s.attestations.Keys + {(id, o)}
    && (forall k :: k in s.attestations ==> t.attestations[k] == s.attestations[k])
    && Counts(t, id, o, now) && t.attestations[(id, o)].txId == x
    && ((id, o) !in s.attestations ==> t.attestations[(id, o)].observedAt == now)
    && forall q :: Traps(v, t, id, q) ==> Traps(v, s, id, q)
  }

  lemma Vote(v: Verifier, s: Store, id: u64, o: Address, now: u64, x: TxId) returns (calls: seq<Call>)
    requires id in s.escrows && Unresolved(s.escrows[id]) && o in OraclesOf(s, s.escrows[id].asset)
    requires MayVote(v, s, id, o, now, x)
    ensures Quiet(calls, now) && Voted(v, s, Run(v, s, calls), id, o, now, x)
  {
    calls := [];
    if (id, o) !in s.attestations {
      var e := s.escrows[id];
      var k, g :| v(k, x, e.amount, g);
      var t := s.(pubkeys := s.pubkeys[o := k]);
      var u := t.(attestations := t.attestations[(id, o) := Attestation(o, id, x, e.amount, e.asset, now, g)]);
      var (c, d) := (Call(SetPubKey(o, k), now), Call(Submit(o, id, x, e.amount, e.asset, g), now));
      assert SubmitAttestation(v, t, o, id, x, e.amount, e.asset, g, now) == Ok(u);
      RunOne(v, s, c, t);
      RunThen(v, s, [c], d, u);
      calls := [c] + [d];
    }
  }

  // ----- agreement -----

  ghost predicate AgreesOn(v: Verifier, s: Store, id: u64, asset: AssetId, oracles: seq<Address>, now: u64, x: TxId)
  {
    && OraclesOf(s, asset) == oracles
    && Consensus(v, s, id, asset, now).Ok?
    && Consensus(v, s, id, asset, now).value.consensusReached
    && Consensus(v, s, id, asset, now).value.agreedTxId == Some(x)
  }

  ghost predicate NoTraps(v: Verifier, s: Store, id: u64, oracles: seq<Address>)
  {
    forall o :: o in oracles ==> !Traps(v, s, id, o)
  }

  /** Two counting voices for one transaction decide, whatever a third oracle says. */
  lemma TwoVoicesDecide(v: Verifier, s: Store, id: u64, asset: AssetId, o: Address, p: Address, now: u64, x: TxId)
    requires Sound(s) && o != p && NoTraps(v, s, id, OraclesOf(s, asset))
    requires o in OraclesOf(s, asset) && Counts(s, id, o, now) && s.attestations[(id, o)].txId == x
    requires p in OraclesOf(s, asset) && Counts(s, id, p, now) && s.attestations[(id, p)].txId == x
    ensures AgreesOn(v, s, id, asset, OraclesOf(s, asset), now, x)
  {
    var oracles := OraclesOf(s, asset);
    var voters := VotersFor(s, id, oracles, now, x);
    assert {o, p} <= voters && {o, p} <= ToSet(oracles);
    SubsetSize({o, p}, voters);
    SubsetSize({o, p}, ToSet(oracles));
    ToSetSize(oracles);
    assert Consensus(v, s, id, asset, now).Ok?;
    hide Consensus;
    TwoVotersAgree(v, s, id, asset, now, x);
  }

  /** Two oracles that may vote for `x` bring about agreement on it. */
  lemma TwoVotes(v: Verifier, s: Store, id: u64, o: Address, p: Address, now: u64, x: TxId) returns (calls: seq<Call>)
    requires Sound(s) && id in s.escrows && Unresolved(s.escrows[id]) && o != p
    requires var oracles := OraclesOf(s, s.escrows[id].asset); o in oracles && p in oracles && NoTraps(v, s, id, oracles)
    requires MayVote(v, s, id, o, now, x) && MayVote(v, s, id, p, now, x)
    ensures Quiet(calls, now)
    ensures var (t, asset) := (Run(v, s, calls), s.escrows[id].asset);
      && Sound(t) && AgreesOn(v, t, id, asset, OraclesOf(s, asset), now, x) && BothVoted(v, s, t, id, o, p, now)
  {
    hide *;
    var asset := s.escrows[id].asset;
    var oracles := OraclesOf(s, asset);
    var first := Vote(v, s, id, o, now, x);
    var t := Run(v, s, first);
    StillMayVote(v, s, t, id, o, p, now, x);
    var second := Vote(v, t, id, p, now, x);
    var u := Run(v, t, second);
    RunConcat(v, s, first, second);
    QuietConcat(first, second, now);
    calls := first + second;
    RunKeepsSound(v, s, calls);
    VotedTwice(v, s, t, u, id, asset, o, p, now, x);
    TwoVoicesDecide(v, u, id, asset, o, p, now, x);
  }

  lemma QuietConcat(a: seq<Call>, b: seq<Call>, now: u64)
    requires Quiet(a, now) && Quiet(b, now)
    ensures Quiet(a + b, now)
  {}

  lemma StillMayVote(v: Verifier, s: Store, t: Store, id: u64, o: Address, p: Address, now: u64, x: TxId)
    requires o != p && Voted(v, s, t, id, o, now, x) && id in s.escrows && MayVote(v, s, id, p, now, x)
    ensures t.escrows == s.escrows && MayVote(v, t, id, p, now, x)
    ensures OraclesOf(t, s.escrows[id].asset) == OraclesOf(s, s.escrows[id].asset)
  {
    hide CanSign, Traps;
    var k := (id, p);
    assert k in t.attestations <==> k in s.attestations;
  }

  lemma VotedTwice(v: Verifier, s: Store, t: Store, u: Store, id: u64, asset: AssetId, o: Address, p: Address,
                   now: u64, x: TxId)
    requires o != p && Voted(v, s, t, id, o, now, x) && Voted(v, t, u, id, p, now, x)
    requires NoTraps(v, s, id, OraclesOf(s, asset))
    ensures BothVoted(v, s, u, id, o, p, now)
    ensures OraclesOf(u, asset) == OraclesOf(s, asset) && NoTraps(v, u, id, OraclesOf(u, asset))
    ensures Counts(u, id, o, now) && u.attestations[(id, o)].txId == x
    ensures Counts(u, id, p, now) && u.attestations[(id, p)].txId == x
  {
    hide Traps;
    var k := (id, o);
    assert k in t.attestations;
  }

  /** Nothing but the keys and the voices of `o` and `p` is new, and they verify. */
  ghost predicate BothVoted(v: Verifier, s: Store, t: Store, id: u64, o: Address, p: Address, now: u64)
  {
    && t == s.(pubkeys := t.pubkeys, attestations := t.attestations)
    && t.attestations.Keys == s.attestations.Keys + {(id, o), (id, p)}
    && (forall k :: k in t.attestations && k !in s.attestations ==> t.attestations[k].observedAt == now)
    && forall q :: Traps(v, t, id, q) ==> Traps(v, s, id, q)
  }
}

/** Who can have done what: every change of an escrow, a registry or the attestations
    in a run goes back to a call by the party entitled to it (src/lib.rs,
    src/oracle_attestation.rs). */
module EscrowLaws {
  import opened Machine
  import opened OracleAttestation
  import opened OracleRuns

  // ----- one call -----

  /** How one call may change an existing escrow: locked by its sender; dispatched or
      settled by its own anchor before the deadline; refunded after the deadline, or
      by its sender on conflict. */
  ghost predicate Entitled(v: Verifier, s: Store, e: FiatEscrow, f: FiatEscrow, c: Call)
  {
    var open := e.lockedAt == 0 || c.now < e.lockedAt + 86_400;
    match f.state
    case Pending => false
    case Locked => e.state == Pending && c.op == Lock(e.sender, e.id) && f == e.(state := Locked, lockedAt := c.now)
    case Dispatched => e.state == Locked && open && c.op == Dispatch(e.anchor, e.id) && f == e.(state := Dispatched)
    case Settled => (e.state == Locked || e.state == Dispatched) && open && c.op == Settle(e.anchor, e.id)
                    && f == e.(state := Settled)
    case Refunded =>
      && (e.state == Locked || e.state == Dispatched) && f == e.(state := Refunded)
      && ((c.op == Refund(e.id) && !open)
          || (c.op == ConflictRefund(e.sender, e.id) && ConflictRefundDue(v, s, e.sender, e.id, c.now)))
  }

  lemma OnlyEntitledChange(v: Verifier, s: Store, c: Call, id: u64)
    requires Sound(s) && id in s.escrows && Apply(v, s, c.op, c.now).Ok?
    ensures var t := Apply(v, s, c.op, c.now).value;
      id in t.escrows && (t.escrows[id] != s.escrows[id] ==> Entitled(v, s, s.escrows[id], t.escrows[id], c))
  {
    var e := s.escrows[id];
    assert e.id == id && id < s.counter && e.timeoutSecs == 86_400;
    if c.op.ConflictRefund? { ConflictRefundDueIff(v, s, c.op.caller, c.op.id, c.now); }
    hide Consensus, Without, Sound, ConflictRefundDue;
  }

  // ----- runs -----

  /** Call `i` of a run and the store it was made in. */
  ghost function Before(v: Verifier, s: Store, calls: seq<Call>, i: nat): Store
    requires i < |calls|
  {
    Run(v, s, calls[..i])
  }

  /** Call `i` brought the escrow from another state to `state`, and was entitled to. */
  ghost predicate BroughtTo(v: Verifier, s: Store, calls: seq<Call>, i: nat, id: u64, state: EscrowState)
  {
    && i < |calls|
    && var (before, after) := (Before(v, s, calls, i), Run(v, s, calls[..i + 1]));
    && id in before.escrows && id in after.escrows
    && before.escrows[id].state != state && after.escrows[id].state == state
    && Entitled(v, before, before.escrows[id], after.escrows[id], calls[i])
  }

  /** If an escrow is in another state after a run than before it, some call of the run
      entitled to it brought it there: it was locked by its sender, dispatched or settled
      by its own anchor before the deadline, or refunded after the deadline or by its
      sender on conflict. */
  lemma {:induction false} StateHasAuthor(v: Verifier, s: Store, calls: seq<Call>, id: u64) returns (i: nat)
    requires Sound(s) && id in s.escrows
    requires id in Run(v, s, calls).escrows && Run(v, s, calls).escrows[id].state != s.escrows[id].state
    ensures BroughtTo(v, s, calls, i, id, Run(v, s, calls).escrows[id].state)
  {
    var k := |calls| - 1;
    var (init, last) := (calls[..k], calls[k]);
    assert calls[..k + 1] == calls;
    RunKeepsSound(v, s, init);
    var t := Run(v, s, init);
    var u := Run(v, s, calls);
    OneCall(v, s, calls);
    hide Run, Sound, Entitled, Apply;
    if u.escrows[id] == t.escrows[id] {
      i := StateHasAuthor(v, s, init, id);
      PrefixCalls(calls, i);
    } else {
      OnlyEntitledChange(v, t, last, id);
      EntitledChangesState(v, t, t.escrows[id], u.escrows[id], last);
      i := k;
    }
  }

  lemma EntitledChangesState(v: Verifier, s: Store, e: FiatEscrow, f: FiatEscrow, c: Call)
    ensures Entitled(v, s, e, f, c) ==> e.state != f.state
  {}

  lemma OneCall(v: Verifier, s: Store, calls: seq<Call>)
    requires calls != []
    ensures var (t, c) := (Run(v, s, calls[..|calls| - 1]), calls[|calls| - 1]);
      Run(v, s, calls) == match Apply(v, t, c.op, c.now) case Ok(u) => u case Err(_) => t
  {
    hide Apply;
  }

  lemma PrefixCalls(calls: seq<Call>, i: nat)
    requires i < |calls| - 1
    ensures var init := calls[..|calls| - 1];
      init[..i] == calls[..i] && init[..i + 1] == calls[..i + 1] && init[i] == calls[i]
  {}

  /** A settled escrow was settled by a `Settle` call of its own anchor, before the
      deadline, while it was locked or dispatched. */
  lemma SettledByItsAnchor(v: Verifier, s: Store, calls: seq<Call>, id: u64) returns (i: nat)
    requires Sound(s) && id in s.escrows && s.escrows[id].state != Settled
    requires id in Run(v, s, calls).escrows && Run(v, s, calls).escrows[id].state == Settled
    ensures i < |calls| && calls[i].op == Settle(s.escrows[id].anchor, id)
    ensures var before := Before(v, s, calls, i);
      && id in before.escrows && (before.escrows[id].state == Locked || before.escrows[id].state == Dispatched)
      && (before.escrows[id].lockedAt == 0 || calls[i].now < before.escrows[id].lockedAt + 86_400)
  {
    i := StateHasAuthor(v, s, calls, id);
    RunKeepsSound(v, s, calls[..i]);
    hide Run;
    assert Before(v, s, calls, i).escrows[id].id == id;
  }

  // ----- registries and attestations -----

  /** A registry gains an oracle only by its registration, and loses one only by its
      removal, both by the admin, who never changes. */
  ghost predicate AdminChange(s: Store, t: Store, asset: AssetId, o: Address, op: Op)
  {
    && (o !in OraclesOf(s, asset) && o in OraclesOf(t, asset) ==> op == Register(s.admin, asset, o))
    && (o in OraclesOf(s, asset) && o !in OraclesOf(t, asset) ==> op == Remove(s.admin, asset, o))
  }

  lemma SameAdmin(v: Verifier, s: Store, c: Call)
    requires Apply(v, s, c.op, c.now).Ok?
    ensures Apply(v, s, c.op, c.now).value.admin == s.admin
    ensures c.op.Remove? || c.op.Register? ==> c.op.admin == s.admin
  {
    hide Consensus, Without;
  }

  lemma OnlyAdminChanges(v: Verifier, s: Store, c: Call, asset: AssetId, o: Address)
    requires Sound(s) && Apply(v, s, c.op, c.now).Ok?
    ensures var t := Apply(v, s, c.op, c.now).value; t.admin == s.admin && AdminChange(s, t, asset, o, c.op)
  {
    if !ChangesRegistry(c.op, asset) { ApplyKeepsOracles(v, s, c.op, c.now, asset); }
    SameAdmin(v, s, c);
    if c.op.Remove? && c.op.asset == asset { RemovedIsGone(s, asset, c.op.oracle); }
    hide Consensus, Without, Sound;
  }

  /** If an oracle is registered after a run and was not before it, or the other way
      round, the admin registered or removed it in the run. */
  lemma {:induction false} MembershipHasAuthor(v: Verifier, s: Store, calls: seq<Call>, asset: AssetId, o: Address)
    requires Sound(s)
    ensures Run(v, s, calls).admin == s.admin
    ensures o !in OraclesOf(s, asset) && o in OraclesOf(Run(v, s, calls), asset) ==>
      exists i :: 0 <= i < |calls| && calls[i].op == Register(s.admin, asset, o)
    ensures o in OraclesOf(s, asset) && o !in OraclesOf(Run(v, s, calls), asset) ==>
      exists i :: 0 <= i < |calls| && calls[i].op == Remove(s.admin, asset, o)
  {
    if calls != [] {
      var k := |calls| - 1;
      var (init, last) := (calls[..k], calls[k]);
      MembershipHasAuthor(v, s, init, asset, o);
      RunKeepsSound(v, s, init);
      var t := Run(v, s, init);
      OneCall(v, s, calls);
      hide Run, Sound, Apply, OraclesOf;
      if Apply(v, t, last.op, last.now).Ok? { OnlyAdminChanges(v, t, last, asset, o); }
      if i :| 0 <= i < |init| && init[i].op == Register(s.admin, asset, o) { assert calls[i].op == init[i].op; }
      if i :| 0 <= i < |init| && init[i].op == Remove(s.admin, asset, o) { assert calls[i].op == init[i].op; }
    }
  }

  /** Call `i` submitted the attestation: its oracle was registered with a key its
      signature verifies under, for an open escrow's own asset and amount, and the time
      stored is the time of the call. */
  ghost predicate SubmittedBy(v: Verifier, s: Store, c: Call, key: (u64, Address), a: Attestation)
  {
    && a.oracle == key.1 && a.escrowId == key.0 && a.observedAt == c.now
    && c.op == Submit(key.1, key.0, a.txId, a.amount, a.asset, a.signature)
    && a.asset in s.oracles && key.1 in s.oracles[a.asset]
    && key.0 in s.escrows && Unresolved(s.escrows[key.0])
    && s.escrows[key.0].asset == a.asset && s.escrows[key.0].amount == a.amount
    && key.1 in s.pubkeys && v(s.pubkeys[key.1], a.txId, a.amount, a.signature)
  }

  lemma OnlySubmitted(v: Verifier, s: Store, c: Call, key: (u64, Address))
    requires Apply(v, s, c.op, c.now).Ok? && key !in s.attestations
    ensures var t := Apply(v, s, c.op, c.now).value;
      key in t.attestations ==> SubmittedBy(v, s, c, key, t.attestations[key])
  {
    hide Consensus, Without;
  }

  /** Every attestation stored by a run was submitted in it by its own oracle, then
      registered, with a valid signature, at the time it carries. */
  lemma {:induction false} AttestationHasAuthor(v: Verifier, s: Store, calls: seq<Call>, key: (u64, Address))
    returns (i: nat)
    requires Sound(s) && key !in s.attestations && key in Run(v, s, calls).attestations
    ensures i < |calls| && SubmittedBy(v, Before(v, s, calls, i), calls[i], key, Run(v, s, calls).attestations[key])
  {
    var k := |calls| - 1;
    var (init, last) := (calls[..k], calls[k]);
    RunKeepsSound(v, s, init);
    var t := Run(v, s, init);
    OneCall(v, s, calls);
    if Apply(v, t, last.op, last.now).Ok? { ApplyKeepsSound(v, t, last.op, last.now); }
    hide Run, Sound, SubmittedBy, Apply;
    if key in t.attestations {
      i := AttestationHasAuthor(v, s, init, key);
      PrefixCalls(calls, i);
    } else {
      OnlySubmitted(v, t, last, key);
      i := k;
    }
  }
}

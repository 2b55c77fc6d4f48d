/** Oracle attestations (src/oracle_attestation.rs) over the fiat escrow state
    machine (src/lib.rs). */
module OracleAttestation {
  import opened Machine
  import opened MapSum

  const MAX_ORACLES: nat := 3
  const MIN_ATTESTATIONS: nat := 2
  const MAX_ATTESTATION_AGE_SECS: nat := 300
  const FIAT_PAYOUT_TIMEOUT_SECS: nat := 86_400

  datatype AssetId = AssetId(id: nat)
  datatype TxId = TxId(bytes: nat)
  datatype PubKey = PubKey(bytes: nat)
  datatype Signature = Signature(bytes: nat)

  /** Signature verification, of which nothing is assumed: it may accept or
      reject any (key, transaction id, amount, signature). */
  type Verifier = (PubKey, TxId, u64, Signature) -> bool

  datatype EscrowState = Pending | Locked | Dispatched | Settled | Refunded

  datatype FiatEscrow = FiatEscrow(
    id: u64, sender: Address, anchor: Address, amount: u64, asset: AssetId,
    state: EscrowState, createdAt: u64, lockedAt: u64, timeoutSecs: u64)

  datatype Attestation = Attestation(
    oracle: Address, escrowId: u64, txId: TxId, amount: u64, asset: AssetId, observedAt: u64, signature: Signature)

  datatype Store = Store(
    admin: Address,
    oracles: map<AssetId, seq<Address>>,
    pubkeys: map<Address, PubKey>,
    escrows: map<u64, FiatEscrow>,
    counter: u64,
    attestations: map<(u64, Address), Attestation>)

  function OraclesOf(s: Store, asset: AssetId): seq<Address>
  {
    if asset in s.oracles then s.oracles[asset] else []
  }

  // ----- the fiat escrow -----

  function Expired(e: FiatEscrow, now: u64): bool
  {
    e.lockedAt != 0 && SaturatingSub(now, e.lockedAt) >= e.timeoutSecs
  }

  function OpenEscrow(s: Store, sender: Address, anchor: Address, asset: AssetId, amount: u64, now: u64)
    : Result<Store, ContractError>
  {
    if amount == 0 then Err(AmountTooLow)
    else if !FitsU64(s.counter + 1) then Err(Overflow)
    else
      var e := FiatEscrow(s.counter, sender, anchor, amount, asset, Pending, now, 0, FIAT_PAYOUT_TIMEOUT_SECS);
      Ok(s.(escrows := s.escrows[s.counter := e], counter := s.counter + 1))
  }

  function LockEscrow(s: Store, sender: Address, id: u64, now: u64): Result<Store, ContractError>
  {
    if id !in s.escrows then Err(NotRegistered)
    else
      var e := s.escrows[id];
      if e.sender != sender || e.state != Pending then Err(Unauthorized)
      else Ok(s.(escrows := s.escrows[id := e.(state := Locked, lockedAt := now)]))
  }

  function DispatchPayout(s: Store, anchor: Address, id: u64, now: u64): Result<Store, ContractError>
  {
    if id !in s.escrows then Err(NotRegistered)
    else
      var e := s.escrows[id];
      if e.anchor != anchor || e.state != Locked then Err(Unauthorized)
      else if Expired(e, now) then Err(DeadlineReached)
      else Ok(s.(escrows := s.escrows[id := e.(state := Dispatched)]))
  }

  function SettleEscrow(s: Store, anchor: Address, id: u64, now: u64): Result<Store, ContractError>
  {
    if id !in s.escrows then Err(NotRegistered)
    else
      var e := s.escrows[id];
      if e.anchor != anchor || !(e.state == Locked || e.state == Dispatched) then Err(Unauthorized)
      else if Expired(e, now) then Err(DeadlineReached)
      else Ok(s.(escrows := s.escrows[id := e.(state := Settled)]))
  }

  /** Anybody may trigger the refund once the deadline has passed. */
  function RefundEscrow(s: Store, id: u64, now: u64): Result<Store, ContractError>
  {
    if id !in s.escrows then Err(NotRegistered)
    else
      var e := s.escrows[id];
      if !(e.state == Locked || e.state == Dispatched) then Err(Unauthorized)
      else if !Expired(e, now) then Err(DeadlineNotReached)
      else Ok(s.(escrows := s.escrows[id := e.(state := Refunded)]))
  }

  // ----- registry and attestations -----

  function RegisterOracle(s: Store, admin: Address, asset: AssetId, oracle: Address): Result<Store, ContractError>
  {
    if admin != s.admin then Err(NotAdmin)
    else if oracle in OraclesOf(s, asset) then Err(AlreadyRegistered)
    else if |OraclesOf(s, asset)| >= MAX_ORACLES then Err(CapacityExceeded)
    else Ok(s.(oracles := s.oracles[asset := OraclesOf(s, asset) + [oracle]]))
  }

  function Without(xs: seq<Address>, x: Address): seq<Address>
  {
    if xs == [] then []
    else Without(xs[..|xs| - 1], x) + (if xs[|xs| - 1] == x then [] else [xs[|xs| - 1]])
  }

  function RemoveOracle(s: Store, admin: Address, asset: AssetId, oracle: Address): Result<Store, ContractError>
  {
    if admin != s.admin then Err(NotAdmin)
    else if oracle !in OraclesOf(s, asset) then Err(NotRegistered)
    else Ok(s.(oracles := s.oracles[asset := Without(OraclesOf(s, asset), oracle)]))
  }

  function SubmitAttestation(
    v: Verifier, s: Store, oracle: Address, id: u64, txId: TxId, amount: u64, asset: AssetId, sig: Signature, now: u64)
    : Result<Store, ContractError>
  {
    if OraclesOf(s, asset) == [] then Err(OracleRegistryNotConfigured)
    else if oracle !in OraclesOf(s, asset) then Err(OracleNotAuthorized)
    else if id !in s.escrows then Err(NotRegistered)
    else
      var e := s.escrows[id];
      if e.state != Locked && e.state != Dispatched then Err(InvalidEscrowState)
      else if e.asset != asset then Err(InvalidAsset)
      else if e.amount != amount then Err(InvalidArgument)
      else if oracle !in s.pubkeys then Err(OracleNotAuthorized)
      else if !v(s.pubkeys[oracle], txId, amount, sig) then Err(HostTrap)
      else if (id, oracle) in s.attestations then Err(DuplicateOracleAttestation)
      else Ok(s.(attestations :=
                   s.attestations[(id, oracle) := Attestation(oracle, id, txId, amount, asset, now, sig)]))
  }

  // ----- consensus -----

  /** The host aborts when a stored signature no longer verifies under the
      oracle's current key. */
  predicate Traps(v: Verifier, s: Store, id: u64, oracle: Address)
  {
    (id, oracle) in s.attestations && oracle in s.pubkeys &&
    var a := s.attestations[(id, oracle)];
    !v(s.pubkeys[oracle], a.txId, a.amount, a.signature)
  }

  /** A registered oracle's attestation that counts at time `now`. */
  predicate Counts(s: Store, id: u64, oracle: Address, now: u64)
  {
    && (id, oracle) in s.attestations && oracle in s.pubkeys
    && SaturatingSub(now, s.attestations[(id, oracle)].observedAt) <= MAX_ATTESTATION_AGE_SECS
  }

  ghost function Valid(s: Store, id: u64, oracles: seq<Address>, now: u64): (r: seq<Attestation>)
    ensures |r| <= |oracles|
  {
    if oracles == [] then []
    else
      var o := oracles[|oracles| - 1];
      Valid(s, id, oracles[..|oracles| - 1], now) + (if Counts(s, id, o, now) then [s.attestations[(id, o)]] else [])
  }

  ghost function TxIds(xs: seq<Attestation>): seq<TxId>
  {
    if xs == [] then [] else TxIds(xs[..|xs| - 1]) + [xs[|xs| - 1].txId]
  }

  ghost function AmountsOf(xs: seq<Attestation>): seq<u64>
  {
    if xs == [] then [] else AmountsOf(xs[..|xs| - 1]) + [xs[|xs| - 1].amount]
  }

  /** The value named at least `MIN_ATTESTATIONS` times. */
  ghost predicate IsAgreed<T>(xs: seq<T>, r: Option<T>)
  {
    match r
    case Some(x) => multiset(xs)[x] >= MIN_ATTESTATIONS
    case None => forall x :: x in xs ==> multiset(xs)[x] < MIN_ATTESTATIONS
  }

  /** Among at most three votes at most one value is named twice, so the order in
      which the code walks its count map does not matter. */
  lemma AgreedUnique<T>(xs: seq<T>, r: Option<T>, q: Option<T>)
    requires |xs| <= MAX_ORACLES && IsAgreed(xs, r) && IsAgreed(xs, q)
    ensures r == q
  {
    if r.Some? && q.Some? && r != q {
      TwoCounts(multiset(xs), r.value, q.value);
    }
  }

  lemma TwoCounts<T>(m: multiset<T>, x: T, y: T)
    requires x != y
    ensures |m| >= m[x] + m[y]
  {
    assert |m[x := 0]| == |m| - m[x];
    assert |m[x := 0][y := 0]| == |m| - m[x] - m[y];
  }

  datatype AttestationResult = AttestationResult(
    consensusReached: bool, validCount: nat, invalidCount: nat, agreedTxId: Option<TxId>, agreedAmount: Option<u64>)

  ghost function Majority<T(!new)>(xs: seq<T>): (r: Option<T>)
    ensures IsAgreed(xs, r)
  {
    if exists x :: x in xs && multiset(xs)[x] >= MIN_ATTESTATIONS then
      var x :| x in xs && multiset(xs)[x] >= MIN_ATTESTATIONS;
      Some(x)
    else None
  }

  /** `check_consensus` */
  ghost function Consensus(v: Verifier, s: Store, id: u64, asset: AssetId, now: u64)
    : Result<AttestationResult, ContractError>
  {
    var oracles := OraclesOf(s, asset);
    var valid := Valid(s, id, oracles, now);
    var invalid := |oracles| - |valid|;
    if |oracles| < MIN_ATTESTATIONS then Err(OracleRegistryNotConfigured)
    else if exists o :: o in oracles && Traps(v, s, id, o) then Err(HostTrap)
    else if |valid| < MIN_ATTESTATIONS then Ok(AttestationResult(false, |valid|, invalid, None, None))
    else
      var (tx, amount) := (Majority(TxIds(valid)), Majority(AmountsOf(valid)));
      Ok(AttestationResult(tx.Some? && amount.Some?, |valid|, invalid, tx, amount))
  }

  /** `verify_consensus_before_settle` */
  ghost function VerifyConsensus(v: Verifier, s: Store, id: u64, now: u64): Result<AttestationResult, ContractError>
  {
    if id !in s.escrows then Err(NotRegistered)
    else
      var r :- Consensus(v, s, id, s.escrows[id].asset, now);
      if r.consensusReached then Ok(r)
      else if r.validCount >= MIN_ATTESTATIONS && (r.agreedTxId.None? || r.agreedAmount.None?)
      then Err(OracleAttestationConflict)
      else Err(InsufficientOracleAttestations)
  }

  /** `refund_escrow_on_conflict`: the deadline is a checked addition, reached
      only when exactly one attestation counts. */
  ghost function RefundOnConflict(v: Verifier, s: Store, caller: Address, id: u64, now: u64): Result<Store, ContractError>
  {
    if id !in s.escrows then Err(NotRegistered)
    else
      var e := s.escrows[id];
      if e.sender != caller then Err(Unauthorized)
      else if e.state != Locked && e.state != Dispatched then Err(InvalidEscrowState)
      else
        var r :- Consensus(v, s, id, e.asset, now);
        if r.consensusReached then Err(DeadlineNotReached)
        else if r.validCount == 1 && !FitsU64(e.lockedAt + e.timeoutSecs) then Err(HostTrap)
        else if r.validCount == 1 && now < e.lockedAt + e.timeoutSecs then Err(DeadlineNotReached)
        else Ok(s.(escrows := s.escrows[id := e.(state := Refunded)]))
  }

  // ----- what every operation keeps -----

  ghost predicate NoDuplicates<T>(xs: seq<T>)
  {
    xs == [] || (NoDuplicates(xs[..|xs| - 1]) && xs[|xs| - 1] !in xs[..|xs| - 1])
  }

  ghost predicate RegistriesSound(s: Store)
  {
    forall asset :: |OraclesOf(s, asset)| <= MAX_ORACLES && NoDuplicates(OraclesOf(s, asset))
  }

  ghost predicate EscrowsSound(s: Store)
  {
    forall id :: id in s.escrows ==>
      var e := s.escrows[id];
      id < s.counter && e.id == id && e.amount > 0 && e.timeoutSecs == FIAT_PAYOUT_TIMEOUT_SECS
  }

  /** Every stored attestation is its key's, and names its escrow's amount and asset. */
  ghost predicate AttestationsSound(s: Store)
  {
    forall k :: k in s.attestations ==>
      var a := s.attestations[k];
      && k.0 in s.escrows && k.1 in s.pubkeys
      && a.escrowId == k.0 && a.oracle == k.1
      && a.amount == s.escrows[k.0].amount && a.asset == s.escrows[k.0].asset
  }

  ghost predicate Sound(s: Store)
  {
    RegistriesSound(s) && EscrowsSound(s) && AttestationsSound(s)
  }

  predicate Unresolved(e: FiatEscrow) { e.state == Locked || e.state == Dispatched }

  predicate Terminal(e: FiatEscrow) { e.state == Settled || e.state == Refunded }

  function Progress(st: EscrowState): nat
  {
    match st case Pending => 0 case Locked => 1 case Dispatched => 2 case Settled => 3 case Refunded => 3
  }

  /** How one escrow may develop: its terms never change, it only moves forward,
      and a settled or refunded escrow never changes again. */
  ghost predicate EscrowLater(e: FiatEscrow, f: FiatEscrow)
  {
    && f.id == e.id && f.sender == e.sender && f.anchor == e.anchor && f.amount == e.amount && f.asset == e.asset
    && f.createdAt == e.createdAt && f.timeoutSecs == e.timeoutSecs
    && Progress(e.state) <= Progress(f.state)
    && (e.state != Pending ==> f.lockedAt == e.lockedAt)
    && (Terminal(e) ==> f == e)
  }

  /** How the store may develop: escrows as above, and no attestation is ever
      changed or removed. */
  ghost predicate Later(s: Store, t: Store)
  {
    && (forall id :: id in s.escrows ==> id in t.escrows && EscrowLater(s.escrows[id], t.escrows[id]))
    && (forall k :: k in s.attestations ==> k in t.attestations && t.attestations[k] == s.attestations[k])
  }

  datatype Op =
    | Open(sender: Address, anchor: Address, asset: AssetId, amount: u64)
    | Lock(sender: Address, id: u64)
    | Dispatch(anchor: Address, id: u64)
    | Settle(anchor: Address, id: u64)
    | Refund(id: u64)
    | ConflictRefund(caller: Address, id: u64)
    | Register(admin: Address, asset: AssetId, oracle: Address)
    | Remove(admin: Address, asset: AssetId, oracle: Address)
    | SetPubKey(oracle: Address, key: PubKey)
    | Submit(oracle: Address, id: u64, txId: TxId, amount: u64, asset: AssetId, sig: Signature)

  ghost function Apply(v: Verifier, s: Store, op: Op, now: u64): Result<Store, ContractError>
  {
    match op
    case Open(sender, anchor, asset, amount) => OpenEscrow(s, sender, anchor, asset, amount, now)
    case Lock(sender, id) => LockEscrow(s, sender, id, now)
    case Dispatch(anchor, id) => DispatchPayout(s, anchor, id, now)
    case Settle(anchor, id) => SettleEscrow(s, anchor, id, now)
    case Refund(id) => RefundEscrow(s, id, now)
    case ConflictRefund(caller, id) => RefundOnConflict(v, s, caller, id, now)
    case Register(admin, asset, oracle) => RegisterOracle(s, admin, asset, oracle)
    case Remove(admin, asset, oracle) => RemoveOracle(s, admin, asset, oracle)
    case SetPubKey(oracle, key) => Ok(s.(pubkeys := s.pubkeys[oracle := key]))
    case Submit(oracle, id, txId, amount, asset, sig) =>
      SubmitAttestation(v, s, oracle, id, txId, amount, asset, sig, now)
  }

  lemma {:induction false} WithoutSound(xs: seq<Address>, x: Address)
    requires NoDuplicates(xs)
    ensures NoDuplicates(Without(xs, x)) && |Without(xs, x)| <= |xs|
    ensures forall y :: y in Without(xs, x) <==> y in xs && y != x
  {
    if xs != [] {
      var k := |xs| - 1;
      assert xs == xs[..k] + [xs[k]];
      WithoutSound(xs[..k], x);
      WithoutStep(xs[..k], xs[k], x);
      hide Without, NoDuplicates;
      if xs[k] != x { AppendSound(Without(xs[..k], x), xs[k]); }
    }
  }

  lemma WithoutStep(xs: seq<Address>, y: Address, x: Address)
    ensures Without(xs + [y], x) == if y == x then Without(xs, x) else Without(xs, x) + [y]
  {
    assert (xs + [y])[..|xs|] == xs;
  }

  lemma UpdateKeepsEscrows(s: Store, id: u64, f: FiatEscrow)
    requires EscrowsSound(s) && id in s.escrows && EscrowLater(s.escrows[id], f)
    ensures var t := s.(escrows := s.escrows[id := f]); EscrowsSound(t) && Later(s, t)
  {}

  lemma OpenKeepsEscrows(s: Store, sender: Address, anchor: Address, asset: AssetId, amount: u64, now: u64)
    requires EscrowsSound(s) && OpenEscrow(s, sender, anchor, asset, amount, now).Ok?
    ensures var t := OpenEscrow(s, sender, anchor, asset, amount, now).value; EscrowsSound(t) && Later(s, t)
  {}

  lemma ApplyKeepsEscrows(v: Verifier, s: Store, op: Op, now: u64)
    requires EscrowsSound(s) && Apply(v, s, op, now).Ok?
    ensures var t := Apply(v, s, op, now).value; EscrowsSound(t) && Later(s, t)
  {
    hide Consensus, Without, EscrowsSound, Later;
    var t := Apply(v, s, op, now).value;
    if op.Open? {
      OpenKeepsEscrows(s, op.sender, op.anchor, op.asset, op.amount, now);
    } else if op.Lock? || op.Dispatch? || op.Settle? || op.Refund? || op.ConflictRefund? {
      UpdateKeepsEscrows(s, op.id, t.escrows[op.id]);
    } else {
      SameEscrows(s, t);
    }
  }

  lemma SameEscrows(s: Store, t: Store)
    requires EscrowsSound(s) && t.escrows == s.escrows && t.counter == s.counter
    requires forall k :: k in s.attestations ==> k in t.attestations && t.attestations[k] == s.attestations[k]
    ensures EscrowsSound(t) && Later(s, t)
  {}

  lemma ApplyKeepsRegistries(v: Verifier, s: Store, op: Op, now: u64)
    requires RegistriesSound(s) && Apply(v, s, op, now).Ok?
    ensures RegistriesSound(Apply(v, s, op, now).value)
  {
    hide Consensus, NoDuplicates, Without;
    var t := Apply(v, s, op, now).value;
    if op.Register? { AppendSound(OraclesOf(s, op.asset), op.oracle); }
    if op.Remove? { WithoutSound(OraclesOf(s, op.asset), op.oracle); }
    forall asset ensures |OraclesOf(t, asset)| <= MAX_ORACLES && NoDuplicates(OraclesOf(t, asset)) {
      assert |OraclesOf(s, asset)| <= MAX_ORACLES && NoDuplicates(OraclesOf(s, asset));
    }
  }

  lemma SameAttestationsStaySound(s: Store, t: Store)
    requires AttestationsSound(s) && Later(s, t) && t.attestations == s.attestations && s.pubkeys.Keys <= t.pubkeys.Keys
    ensures AttestationsSound(t)
  {}

  lemma SubmitKeepsAttestations(v: Verifier, s: Store, oracle: Address, id: u64, txId: TxId, amount: u64, asset: AssetId,
                                sig: Signature, now: u64)
    requires AttestationsSound(s) && SubmitAttestation(v, s, oracle, id, txId, amount, asset, sig, now).Ok?
    ensures AttestationsSound(SubmitAttestation(v, s, oracle, id, txId, amount, asset, sig, now).value)
  {
    var t := SubmitAttestation(v, s, oracle, id, txId, amount, asset, sig, now).value;
    assert forall k :: k in t.attestations ==> k == (id, oracle) || k in s.attestations;
  }

  lemma ApplyKeepsAttestations(v: Verifier, s: Store, op: Op, now: u64)
    requires EscrowsSound(s) && AttestationsSound(s) && Apply(v, s, op, now).Ok?
    ensures AttestationsSound(Apply(v, s, op, now).value)
  {
    hide Consensus, Without, EscrowsSound, AttestationsSound, Later;
    if op.Submit? {
      SubmitKeepsAttestations(v, s, op.oracle, op.id, op.txId, op.amount, op.asset, op.sig, now);
    } else {
      ApplyKeepsEscrows(v, s, op, now);
      SameAttestationsStaySound(s, Apply(v, s, op, now).value);
    }
  }

  lemma ApplyKeepsSound(v: Verifier, s: Store, op: Op, now: u64)
    requires Sound(s) && Apply(v, s, op, now).Ok?
    ensures var t := Apply(v, s, op, now).value; Sound(t) && Later(s, t)
  {
    hide Apply, RegistriesSound, EscrowsSound, AttestationsSound, Later;
    ApplyKeepsEscrows(v, s, op, now);
    ApplyKeepsRegistries(v, s, op, now);
    ApplyKeepsAttestations(v, s, op, now);
  }

  lemma AppendSound(xs: seq<Address>, x: Address)
    requires NoDuplicates(xs) && x !in xs
    ensures NoDuplicates(xs + [x])
  {
    assert (xs + [x])[..|xs|] == xs;
  }

  // ----- whole runs -----

  datatype Call = Call(op: Op, now: u64)

  /** Calls in order; a failed call changes nothing. */
  ghost function Run(v: Verifier, s: Store, calls: seq<Call>): Store
  {
    if calls == [] then s
    else
      var init := Run(v, s, calls[..|calls| - 1]);
      var c := calls[|calls| - 1];
      match Apply(v, init, c.op, c.now)
      case Ok(t) => t
      case Err(_) => init
  }

  function Initial(admin: Address): Store { Store(admin, map[], map[], map[], 0, map[]) }

  lemma InitialSound(admin: Address)
    ensures Sound(Initial(admin))
  {}

  /** Over every run, from any sound store: registries hold at most three distinct
      oracles, every stored attestation names its escrow's own amount and asset,
      the terms of an escrow never change, a settled or refunded escrow never
      changes again, and no attestation is ever altered or removed. */
  lemma {:induction false} RunKeepsSound(v: Verifier, s: Store, calls: seq<Call>)
    requires Sound(s)
    ensures Sound(Run(v, s, calls)) && Later(s, Run(v, s, calls))
  {
    if calls != [] {
      var k := |calls| - 1;
      RunKeepsSound(v, s, calls[..k]);
      var t := Run(v, s, calls[..k]);
      if Apply(v, t, calls[k].op, calls[k].now).Ok? {
        ApplyKeepsSound(v, t, calls[k].op, calls[k].now);
      }
    }
  }

  /** Over every run from the first call on. */
  lemma EveryRunIsSound(v: Verifier, admin: Address, calls: seq<Call>)
    ensures Sound(Run(v, Initial(admin), calls))
  {
    InitialSound(admin);
    RunKeepsSound(v, Initial(admin), calls);
  }

  // ----- what consensus means -----

  /** The registered oracles whose counting attestation names `x`. */
  ghost function VotersFor(s: Store, id: u64, oracles: seq<Address>, now: u64, x: TxId): set<Address>
  {
    set o | o in oracles && Counts(s, id, o, now) && s.attestations[(id, o)].txId == x
  }

  lemma TxIdsAppend(xs: seq<Attestation>, a: Attestation)
    ensures TxIds(xs + [a]) == TxIds(xs) + [a.txId] && AmountsOf(xs + [a]) == AmountsOf(xs) + [a.amount]
  {
    assert (xs + [a])[..|xs|] == xs;
  }

  lemma ValidStep(s: Store, id: u64, init: seq<Address>, o: Address, now: u64)
    ensures Valid(s, id, init + [o], now)
         == if Counts(s, id, o, now) then Valid(s, id, init, now) + [s.attestations[(id, o)]] else Valid(s, id, init, now)
  {
    assert (init + [o])[..|init|] == init;
    assert Valid(s, id, init, now) + [] == Valid(s, id, init, now);
  }

  lemma {:induction false} VotersAreCounted(s: Store, id: u64, oracles: seq<Address>, now: u64, x: TxId)
    requires NoDuplicates(oracles)
    ensures |VotersFor(s, id, oracles, now, x)| == multiset(TxIds(Valid(s, id, oracles, now)))[x]
  {
    if oracles == [] {
      assert VotersFor(s, id, oracles, now, x) == {};
    } else {
      var k := |oracles| - 1;
      var (init, o) := (oracles[..k], oracles[k]);
      VotersAreCounted(s, id, init, now, x);
      assert oracles == init + [o];
      ValidStep(s, id, init, o, now);
      VotersStep(s, id, init, o, now, x);
      hide Valid, TxIds, VotersFor;
      if Counts(s, id, o, now) { TxIdsAppend(Valid(s, id, init, now), s.attestations[(id, o)]); }
    }
  }

  lemma VotersStep(s: Store, id: u64, init: seq<Address>, o: Address, now: u64, x: TxId)
    requires o !in init
    ensures |VotersFor(s, id, init + [o], now, x)| == |VotersFor(s, id, init, now, x)|
          + (if Counts(s, id, o, now) && s.attestations[(id, o)].txId == x then 1 else 0)
  {
    var more := if Counts(s, id, o, now) && s.attestations[(id, o)].txId == x then {o} else {};
    assert VotersFor(s, id, init + [o], now, x) == VotersFor(s, id, init, now, x) + more;
  }

  ghost predicate AmountsAre(s: Store, id: u64, xs: seq<u64>)
  {
    forall a :: a in xs ==> id in s.escrows && a == s.escrows[id].amount
  }

  lemma {:induction false} ValidAmounts(s: Store, id: u64, oracles: seq<Address>, now: u64)
    requires AttestationsSound(s)
    ensures |AmountsOf(Valid(s, id, oracles, now))| == |Valid(s, id, oracles, now)|
    ensures AmountsAre(s, id, AmountsOf(Valid(s, id, oracles, now)))
  {
    if oracles != [] {
      var k := |oracles| - 1;
      var (init, o) := (oracles[..k], oracles[k]);
      ValidAmounts(s, id, init, now);
      assert oracles == init + [o];
      ValidStep(s, id, init, o, now);
      hide Valid, AmountsOf;
      if Counts(s, id, o, now) {
        var key := (id, o);
        assert key in s.attestations && s.attestations[key].amount == s.escrows[key.0].amount;
        TxIdsAppend(Valid(s, id, init, now), s.attestations[key]);
      }
    }
  }

  lemma {:induction false} ConstantCount<T>(xs: seq<T>, x: T)
    requires forall i :: 0 <= i < |xs| ==> xs[i] == x
    ensures multiset(xs)[x] == |xs|
  {
    if xs != [] {
      assert xs == xs[..|xs| - 1] + [xs[|xs| - 1]];
      ConstantCount(xs[..|xs| - 1], x);
    }
  }

  /** Consensus is reached exactly when some transaction id has two voters: two
      distinct registered oracles whose attestations are fresh, name that id, and
      carry the amount of the escrow, which is the amount agreed. */
  lemma ConsensusMeaning(v: Verifier, s: Store, id: u64, asset: AssetId, now: u64)
    requires Sound(s) && Consensus(v, s, id, asset, now).Ok?
    ensures var r := Consensus(v, s, id, asset, now).value;
      var oracles := OraclesOf(s, asset);
      && (r.consensusReached <==> exists x :: |VotersFor(s, id, oracles, now, x)| >= 2)
      && (r.consensusReached ==>
            && r.agreedTxId.Some? && |VotersFor(s, id, oracles, now, r.agreedTxId.value)| >= 2
            && id in s.escrows && r.agreedAmount == Some(s.escrows[id].amount))
  {
    var oracles := OraclesOf(s, asset);
    var valid := Valid(s, id, oracles, now);
    TxIdsLength(valid);
    AgreedAmount(s, id, oracles, now);
    MajorityIff(TxIds(valid));
    forall x ensures |VotersFor(s, id, oracles, now, x)| == multiset(TxIds(valid))[x] {
      VotersAreCounted(s, id, oracles, now, x);
    }
    hide Valid, TxIds, AmountsOf, VotersFor, Majority;
    if x :| |VotersFor(s, id, oracles, now, x)| >= 2 {
      CountAtMostLength(TxIds(valid), x);
    }
  }

  lemma AgreedAmount(s: Store, id: u64, oracles: seq<Address>, now: u64)
    requires AttestationsSound(s) && |oracles| <= MAX_ORACLES
    ensures var valid := Valid(s, id, oracles, now);
      |valid| >= MIN_ATTESTATIONS ==> id in s.escrows && Majority(AmountsOf(valid)) == Some(s.escrows[id].amount)
  {
    hide Valid, AmountsOf, AttestationsSound, Majority;
    var valid := Valid(s, id, oracles, now);
    ValidAmounts(s, id, oracles, now);
    if |valid| >= MIN_ATTESTATIONS {
      OnlyAmount(s, id, AmountsOf(valid));
    }
  }

  lemma OnlyAmount(s: Store, id: u64, amounts: seq<u64>)
    requires AmountsAre(s, id, amounts) && MIN_ATTESTATIONS <= |amounts| <= MAX_ORACLES
    ensures id in s.escrows && Majority(amounts) == Some(s.escrows[id].amount)
  {
    hide Majority;
    assert amounts[0] in amounts;
    forall i | 0 <= i < |amounts| ensures amounts[i] == s.escrows[id].amount {
      assert amounts[i] in amounts;
    }
    ConstantCount(amounts, s.escrows[id].amount);
    MajorityIsAgreed(amounts);
    AgreedUnique(amounts, Majority(amounts), Some(s.escrows[id].amount));
  }

  lemma MajorityIsAgreed<T(!new)>(xs: seq<T>)
    ensures IsAgreed(xs, Majority(xs))
  {
  }

  lemma MajorityIff<T(!new)>(xs: seq<T>)
    ensures Majority(xs).Some? <==> exists x :: multiset(xs)[x] >= MIN_ATTESTATIONS
    ensures Majority(xs).Some? ==> multiset(xs)[Majority(xs).value] >= MIN_ATTESTATIONS
  {
    if x :| multiset(xs)[x] >= MIN_ATTESTATIONS {
      assert x in multiset(xs);
    }
  }

  lemma {:induction false} TxIdsLength(xs: seq<Attestation>)
    ensures |TxIds(xs)| == |xs|
  {
    if xs != [] { TxIdsLength(xs[..|xs| - 1]); }
  }

  lemma CountAtMostLength<T>(xs: seq<T>, x: T)
    ensures multiset(xs)[x] <= |xs|
  {
    assert |multiset(xs)| == |xs|;
    assert |multiset(xs)[x := 0]| == |multiset(xs)| - multiset(xs)[x];
  }

  ghost function Counting(s: Store, id: u64, oracles: seq<Address>, now: u64): set<Address>
  {
    set o | o in oracles && Counts(s, id, o, now)
  }

  lemma {:induction false} CountingSize(s: Store, id: u64, oracles: seq<Address>, now: u64)
    requires NoDuplicates(oracles)
    ensures |Valid(s, id, oracles, now)| == |Counting(s, id, oracles, now)|
  {
    if oracles == [] {
      assert Counting(s, id, oracles, now) == {};
    } else {
      var k := |oracles| - 1;
      var (init, o) := (oracles[..k], oracles[k]);
      CountingSize(s, id, init, now);
      assert oracles == init + [o];
      CountingStep(s, id, init, o, now);
      hide *;
      ValidStep(s, id, init, o, now);
    }
  }

  lemma CountingStep(s: Store, id: u64, init: seq<Address>, o: Address, now: u64)
    requires o !in init
    ensures |Counting(s, id, init + [o], now)| == |Counting(s, id, init, now)| + if Counts(s, id, o, now) then 1 else 0
  {
    var more := if Counts(s, id, o, now) then {o} else {};
    assert Counting(s, id, init + [o], now) == Counting(s, id, init, now) + more;
  }

  // ----- consensus by the stored fields -----

  /** A registered oracle with a key whose attestation is at most five minutes old. */
  ghost predicate Recent(s: Store, id: u64, asset: AssetId, o: Address, now: u64)
  {
    && asset in s.oracles && o in s.oracles[asset] && o in s.pubkeys
    && (id, o) in s.attestations && now <= s.attestations[(id, o)].observedAt + 300
  }

  ghost predicate RecentFor(s: Store, id: u64, asset: AssetId, o: Address, now: u64, x: TxId)
  {
    Recent(s, id, asset, o, now) && s.attestations[(id, o)].txId == x
  }

  /** A registered oracle whose stored signature its current key rejects. */
  ghost predicate Rejected(v: Verifier, s: Store, id: u64, asset: AssetId, o: Address)
  {
    && asset in s.oracles && o in s.oracles[asset] && o in s.pubkeys && (id, o) in s.attestations
    && var a := s.attestations[(id, o)]; !v(s.pubkeys[o], a.txId, a.amount, a.signature)
  }

  /** The exact result of the check, from the stored fields alone: it needs two
      registered oracles and aborts on a rejected signature; it counts exactly the
      recent attestations; two oracles recent for one transaction agree on it, and on
      the amount of the escrow; otherwise there is no consensus. */
  ghost predicate ConsensusByFields(v: Verifier, s: Store, id: u64, asset: AssetId, now: u64,
                                    r: Result<AttestationResult, ContractError>)
  {
    var registered := if asset in s.oracles then |s.oracles[asset]| else 0;
    && (r == Err(OracleRegistryNotConfigured) <==> registered < 2)
    && (r == Err(HostTrap) <==> registered >= 2 && exists o :: Rejected(v, s, id, asset, o))
    && (r.Err? ==> r.error.OracleRegistryNotConfigured? || r.error.HostTrap?)
    && (r.Ok? ==>
          && r.value.validCount == |set o | o in s.oracles[asset] && Recent(s, id, asset, o, now)|
          && r.value.validCount + r.value.invalidCount == registered
          && (r.value.consensusReached
              <==> exists o, p, x :: o != p && RecentFor(s, id, asset, o, now, x) && RecentFor(s, id, asset, p, now, x))
          && (forall o, p, x :: o != p && RecentFor(s, id, asset, o, now, x) && RecentFor(s, id, asset, p, now, x) ==>
                r.value.agreedTxId == Some(x))
          && (!r.value.consensusReached ==> r.value.agreedTxId == None)
          && r.value.agreedAmount == if r.value.validCount >= 2 && id in s.escrows then Some(s.escrows[id].amount) else None)
  }

  lemma ConsensusMeansFields(v: Verifier, s: Store, id: u64, asset: AssetId, now: u64)
    requires Sound(s)
    ensures ConsensusByFields(v, s, id, asset, now, Consensus(v, s, id, asset, now))
  {
    var (r, oracles) := (Consensus(v, s, id, asset, now), OraclesOf(s, asset));
    FieldsOfErrors(v, s, id, asset, now);
    if r.Ok? {
      FieldsOfCounts(v, s, id, asset, now);
      ConsensusMeaning(v, s, id, asset, now);
      FieldsOfVoters(s, id, asset, now);
      hide Consensus, Sound;
      if r.value.consensusReached {
        var x := r.value.agreedTxId.value;
        var o, p := SomeTwo(VotersFor(s, id, oracles, now, x));
        assert RecentFor(s, id, asset, o, now, x) && RecentFor(s, id, asset, p, now, x);
      }
      forall o, p, x | o != p && RecentFor(s, id, asset, o, now, x) && RecentFor(s, id, asset, p, now, x)
        ensures r.value.consensusReached && r.value.agreedTxId == Some(x)
      {
        SubsetSize({o, p}, VotersFor(s, id, oracles, now, x));
        TwoVotersAgree(v, s, id, asset, now, x);
      }
    }
  }

  lemma SomeTwo(xs: set<Address>) returns (a: Address, b: Address)
    requires |xs| >= 2
    ensures a in xs && b in xs && a != b
  {
    a :| a in xs;
    assert |xs - {a}| == |xs| - 1;
    b :| b in xs - {a};
  }

  lemma FieldsOfVoters(s: Store, id: u64, asset: AssetId, now: u64)
    ensures forall o :: o in OraclesOf(s, asset) && Counts(s, id, o, now) <==> Recent(s, id, asset, o, now)
    ensures forall o, x :: o in VotersFor(s, id, OraclesOf(s, asset), now, x) <==> RecentFor(s, id, asset, o, now, x)
  {}

  lemma FieldsOfErrors(v: Verifier, s: Store, id: u64, asset: AssetId, now: u64)
    ensures var (r, n) := (Consensus(v, s, id, asset, now), |OraclesOf(s, asset)|);
      && (r == Err(OracleRegistryNotConfigured) <==> n < 2)
      && (r == Err(HostTrap) <==> n >= 2 && exists o :: Rejected(v, s, id, asset, o))
      && (r.Err? ==> r.error.OracleRegistryNotConfigured? || r.error.HostTrap?)
  {
    hide Valid, Majority;
    assert forall o :: o in OraclesOf(s, asset) && Traps(v, s, id, o) <==> Rejected(v, s, id, asset, o);
  }

  lemma FieldsOfCounts(v: Verifier, s: Store, id: u64, asset: AssetId, now: u64)
    requires Sound(s) && Consensus(v, s, id, asset, now).Ok?
    ensures var (r, oracles) := (Consensus(v, s, id, asset, now).value, OraclesOf(s, asset));
      && asset in s.oracles
      && r.validCount == |set o | o in s.oracles[asset] && Recent(s, id, asset, o, now)|
      && r.validCount + r.invalidCount == |oracles|
      && (!r.consensusReached ==> r.agreedTxId == None)
      && r.agreedAmount == if r.validCount >= 2 && id in s.escrows then Some(s.escrows[id].amount) else None
  {
    var oracles := OraclesOf(s, asset);
    CountingSize(s, id, oracles, now);
    FieldsOfVoters(s, id, asset, now);
    assert Counting(s, id, oracles, now) == set o | o in s.oracles[asset] && Recent(s, id, asset, o, now);
    AgreedAmount(s, id, oracles, now);
    hide Valid, Majority, Sound, Counting;
  }

  lemma TwoVotersAgree(v: Verifier, s: Store, id: u64, asset: AssetId, now: u64, x: TxId)
    requires Sound(s) && Consensus(v, s, id, asset, now).Ok?
    requires |VotersFor(s, id, OraclesOf(s, asset), now, x)| >= 2
    ensures var r := Consensus(v, s, id, asset, now).value; r.consensusReached && r.agreedTxId == Some(x)
  {
    var oracles := OraclesOf(s, asset);
    ConsensusMeaning(v, s, id, asset, now);
    var y := Consensus(v, s, id, asset, now).value.agreedTxId.value;
    ToSetSize(oracles);
    assert ToSet(oracles) + ToSet(oracles) == ToSet(oracles);
    RegistryBound(s, asset);
    hide Consensus, Sound;
    if x != y {
      StaysLater(s);
      VotersDisjoint(s, s, id, oracles, oracles, now, now, x, y);
    }
  }

  /** At most one transaction id is ever agreed for an escrow: if consensus on x
      is reached at one point of a run and on y at a later one, and no more than
      three oracles were registered for the asset at the two points together,
      then x == y. Time, freshness, key changes and all other calls are arbitrary. */
  lemma AtMostOneTxEverAgreed(v: Verifier, s: Store, calls: seq<Call>, id: u64, asset: AssetId, now: u64, now': u64)
    requires Sound(s)
    requires var t := Run(v, s, calls);
      && |ToSet(OraclesOf(s, asset)) + ToSet(OraclesOf(t, asset))| <= MAX_ORACLES
      && Consensus(v, s, id, asset, now).Ok? && Consensus(v, s, id, asset, now).value.consensusReached
      && Consensus(v, t, id, asset, now').Ok? && Consensus(v, t, id, asset, now').value.consensusReached
    ensures Consensus(v, s, id, asset, now).value.agreedTxId
         == Consensus(v, Run(v, s, calls), id, asset, now').value.agreedTxId
  {
    var t := Run(v, s, calls);
    RunKeepsSound(v, s, calls);
    ConsensusMeaning(v, s, id, asset, now);
    ConsensusMeaning(v, t, id, asset, now');
    var (x, y) := (Consensus(v, s, id, asset, now).value.agreedTxId.value,
                   Consensus(v, t, id, asset, now').value.agreedTxId.value);
    hide Consensus, Sound, Run;
    if x != y {
      VotersDisjoint(s, t, id, OraclesOf(s, asset), OraclesOf(t, asset), now, now', x, y);
    }
  }

  lemma VotersDisjoint(s: Store, t: Store, id: u64, p: seq<Address>, q: seq<Address>, now: u64, now': u64, x: TxId, y: TxId)
    requires Later(s, t) && x != y
    ensures |VotersFor(s, id, p, now, x)| + |VotersFor(t, id, q, now', y)| <= |ToSet(p) + ToSet(q)|
  {
    var a, b := VotersFor(s, id, p, now, x), VotersFor(t, id, q, now', y);
    assert a !! b;
    SubsetSize(a + b, ToSet(p) + ToSet(q));
  }

  predicate ChangesRegistry(op: Op, asset: AssetId)
  {
    (op.Register? && op.asset == asset) || (op.Remove? && op.asset == asset)
  }

  lemma ApplyKeepsOracles(v: Verifier, s: Store, op: Op, now: u64, asset: AssetId)
    requires !ChangesRegistry(op, asset) && Apply(v, s, op, now).Ok?
    ensures OraclesOf(Apply(v, s, op, now).value, asset) == OraclesOf(s, asset)
  {
    hide Consensus, Without;
  }

  lemma {:induction false} RegistryFixed(v: Verifier, s: Store, calls: seq<Call>, asset: AssetId)
    requires forall i :: 0 <= i < |calls| ==> !ChangesRegistry(calls[i].op, asset)
    ensures OraclesOf(Run(v, s, calls), asset) == OraclesOf(s, asset)
  {
    if calls != [] {
      var k := |calls| - 1;
      RegistryFixed(v, s, calls[..k], asset);
      var t := Run(v, s, calls[..k]);
      if Apply(v, t, calls[k].op, calls[k].now).Ok? {
        ApplyKeepsOracles(v, t, calls[k].op, calls[k].now, asset);
      }
    }
  }

  /** With a fixed registry, at most one transaction id is ever agreed. */
  lemma AtMostOneTxWithFixedRegistry(v: Verifier, s: Store, calls: seq<Call>, id: u64, asset: AssetId, now: u64, now': u64)
    requires Sound(s)
    requires forall i :: 0 <= i < |calls| ==> !ChangesRegistry(calls[i].op, asset)
    requires Consensus(v, s, id, asset, now).Ok? && Consensus(v, s, id, asset, now).value.consensusReached
    requires var r := Consensus(v, Run(v, s, calls), id, asset, now'); r.Ok? && r.value.consensusReached
    ensures Consensus(v, s, id, asset, now).value.agreedTxId
         == Consensus(v, Run(v, s, calls), id, asset, now').value.agreedTxId
  {
    RegistryFixed(v, s, calls, asset);
    var oracles := OraclesOf(s, asset);
    assert ToSet(oracles) + ToSet(oracles) == ToSet(oracles);
    ToSetSize(oracles);
    assert |oracles| <= MAX_ORACLES;
    AtMostOneTxEverAgreed(v, s, calls, id, asset, now, now');
  }

  // ----- the deadline -----

  /** At every moment a locked or dispatched escrow can be settled by its anchor or
      reclaimed because its deadline has passed, never both and never neither. The
      deadline is 24 hours after the lock, except that a lock at time 0 never
      expires. The sender's refund on conflict is another matter. */
  lemma SettleOrRefund(s: Store, id: u64, now: u64)
    requires Sound(s) && id in s.escrows && (s.escrows[id].state == Locked || s.escrows[id].state == Dispatched)
    ensures var e := s.escrows[id];
      && (SettleEscrow(s, e.anchor, id, now).Ok? <==> !RefundEscrow(s, id, now).Ok?)
      && (RefundEscrow(s, id, now).Ok? <==> e.lockedAt > 0 && now >= e.lockedAt + 86_400)
  {}

  /** Settlement does not consult the oracles: an escrow can be opened, locked and
      settled with no attestation at all. */
  lemma SettledWithoutConsensus(v: Verifier, admin: Address, sender: Address, anchor: Address, asset: AssetId, now: u64)
    ensures var t := Run(v, Initial(admin),
        [Call(Open(sender, anchor, asset, 1), now), Call(Lock(sender, 0), now), Call(Settle(anchor, 0), now)]);
      0 in t.escrows && t.escrows[0].state == Settled && t.attestations == map[]
      && VerifyConsensus(v, t, 0, now).Err?
  {
    var (c1, c2, c3) := (Call(Open(sender, anchor, asset, 1), now), Call(Lock(sender, 0), now), Call(Settle(anchor, 0), now));
    var s0 := Initial(admin);
    var e := FiatEscrow(0, sender, anchor, 1, asset, Pending, now, 0, FIAT_PAYOUT_TIMEOUT_SECS);
    var s1 := s0.(escrows := s0.escrows[0 := e], counter := 1);
    var s2 := s1.(escrows := s1.escrows[0 := e.(state := Locked, lockedAt := now)]);
    assert OpenEscrow(s0, sender, anchor, asset, 1, now) == Ok(s1);
    assert LockEscrow(s1, sender, 0, now) == Ok(s2);
    assert [c1, c2, c3][..2] == [c1, c2] && [c1, c2][..1] == [c1] && [c1][..0] == [];
    assert Run(v, s0, []) == s0;
    assert Run(v, s0, [c1]) == s1;
    assert Run(v, s0, [c1, c2]) == s2;
  }

  // ----- the contract -----

  /** Whatever a call does, succeed or fail, the store stays sound and develops. */
  lemma OutcomeKeepsSound(v: Verifier, s: Store, op: Op, now: u64)
    requires Sound(s)
    ensures var t := match Apply(v, s, op, now) case Ok(t) => t case Err(_) => s;
      Sound(t) && Later(s, t)
  {
    if Apply(v, s, op, now).Ok? {
      ApplyKeepsSound(v, s, op, now);
    } else {
      StaysLater(s);
    }
  }

  lemma RegisterKeepsSound(v: Verifier, s: Store, caller: Address, asset: AssetId, oracle: Address)
    requires Sound(s)
    ensures var t := match RegisterOracle(s, caller, asset, oracle) case Ok(t) => t case Err(_) => s;
      Sound(t) && Later(s, t)
  {
    assert Apply(v, s, Register(caller, asset, oracle), 0) == RegisterOracle(s, caller, asset, oracle);
    hide Sound, Later, Apply;
    OutcomeKeepsSound(v, s, Register(caller, asset, oracle), 0);
  }

  lemma StaysLater(s: Store)
    ensures Later(s, s)
  {}

  /** No run of any calls changes a settled or refunded escrow. */
  lemma FinalForever(v: Verifier, s: Store, id: u64)
    requires Sound(s) && id in s.escrows && Terminal(s.escrows[id])
    ensures Final(v, s, id)
  {
    forall calls: seq<Call>
      ensures id in Run(v, s, calls).escrows && Run(v, s, calls).escrows[id] == s.escrows[id]
    {
      RunKeepsSound(v, s, calls);
    }
  }

  ghost predicate Final(v: Verifier, s: Store, id: u64)
    requires id in s.escrows
  {
    forall calls: seq<Call> ::
      id in Run(v, s, calls).escrows && Run(v, s, calls).escrows[id] == s.escrows[id]
  }

  /** From now on the escrow can be settled until its deadline and reclaimed by
      `refund_fiat_escrow` from then on, never both and never neither. */
  ghost predicate SettleUntilDeadline(s: Store, id: u64)
    requires id in s.escrows
  {
    var e := s.escrows[id];
    forall t: u64 ::
      && (SettleEscrow(s, e.anchor, id, t).Ok? <==> !RefundEscrow(s, id, t).Ok?)
      && (RefundEscrow(s, id, t).Ok? <==> e.lockedAt > 0 && t >= e.lockedAt + FIAT_PAYOUT_TIMEOUT_SECS)
  }

  lemma OpenEscrowsSettle(s: Store, id: u64)
    requires Sound(s) && id in s.escrows && (s.escrows[id].state == Locked || s.escrows[id].state == Dispatched)
    ensures SettleUntilDeadline(s, id)
  {
    forall t: u64
      ensures var e := s.escrows[id];
        && (SettleEscrow(s, e.anchor, id, t).Ok? <==> !RefundEscrow(s, id, t).Ok?)
        && (RefundEscrow(s, id, t).Ok? <==> e.lockedAt > 0 && t >= e.lockedAt + FIAT_PAYOUT_TIMEOUT_SECS)
    {
      SettleOrRefund(s, id, t);
    }
  }

  /** Removing the oracle just registered leaves all registries as they were. */
  ghost predicate UndoneByRemoval(before: Store, after: Store, asset: AssetId, oracle: Address)
  {
    && RemoveOracle(after, after.admin, asset, oracle).Ok?
    && forall a :: OraclesOf(RemoveOracle(after, after.admin, asset, oracle).value, a) == OraclesOf(before, a)
  }

  lemma RegisterThenRemove(s: Store, asset: AssetId, oracle: Address)
    requires RegisterOracle(s, s.admin, asset, oracle).Ok?
    ensures UndoneByRemoval(s, RegisterOracle(s, s.admin, asset, oracle).value, asset, oracle)
  {
    var xs := OraclesOf(s, asset);
    WithoutStep(xs, oracle, oracle);
    WithoutAbsent(xs, oracle);
    hide Without;
    var t := s.(oracles := s.oracles[asset := xs + [oracle]]);
    assert RegisterOracle(s, s.admin, asset, oracle) == Ok(t);
    assert oracle in xs + [oracle] && OraclesOf(t, asset) == xs + [oracle];
    var u := t.(oracles := t.oracles[asset := xs]);
    assert RemoveOracle(t, s.admin, asset, oracle) == Ok(u);
    hide RegisterOracle, RemoveOracle;
    SameRegistries(s, t.oracles, asset);
  }

  lemma SameRegistries(s: Store, registries: map<AssetId, seq<Address>>, asset: AssetId)
    requires forall a :: a != asset ==> (a in registries <==> a in s.oracles)
    requires forall a :: a != asset && a in registries ==> registries[a] == s.oracles[a]
    ensures forall a :: OraclesOf(s.(oracles := registries[asset := OraclesOf(s, asset)]), a) == OraclesOf(s, a)
  {}

  /** A removed oracle is gone, everybody else is still registered, in every registry. */
  ghost predicate OnlyRemoved(before: Store, after: Store, asset: AssetId, oracle: Address)
  {
    forall a, o :: o in OraclesOf(after, a) <==> o in OraclesOf(before, a) && !(a == asset && o == oracle)
  }

  lemma RemovedIsGone(s: Store, asset: AssetId, oracle: Address)
    requires Sound(s) && RemoveOracle(s, s.admin, asset, oracle).Ok?
    ensures OnlyRemoved(s, RemoveOracle(s, s.admin, asset, oracle).value, asset, oracle)
  {
    WithoutSound(OraclesOf(s, asset), oracle);
    hide Without;
  }

  lemma {:induction false} WithoutAbsent(xs: seq<Address>, x: Address)
    requires x !in xs
    ensures Without(xs, x) == xs
  {
    if xs != [] {
      var k := |xs| - 1;
      assert xs[k] in xs && xs == xs[..k] + [xs[k]];
      WithoutAbsent(xs[..k], x);
      WithoutStep(xs[..k], xs[k], x);
      hide Without;
    }
  }

  /** The check meant to come before settlement passes exactly when some transaction
      has two fresh voices of registered oracles and no stored signature fails.
      Settlement itself does not call it. */
  lemma VerifiedMeaning(v: Verifier, s: Store, id: u64, now: u64)
    requires Sound(s)
    ensures var r := VerifyConsensus(v, s, id, now);
      && (r.Ok? <==>
            && id in s.escrows
            && (forall o :: o in OraclesOf(s, s.escrows[id].asset) ==> !Traps(v, s, id, o))
            && exists x :: |VotersFor(s, id, OraclesOf(s, s.escrows[id].asset), now, x)| >= 2)
      && (r.Ok? ==>
            && r.value.agreedTxId.Some? && r.value.agreedAmount == Some(s.escrows[id].amount)
            && |VotersFor(s, id, OraclesOf(s, s.escrows[id].asset), now, r.value.agreedTxId.value)| >= 2)
  {
    if id in s.escrows {
      var asset := s.escrows[id].asset;
      var oracles := OraclesOf(s, asset);
      if x :| |VotersFor(s, id, oracles, now, x)| >= 2 {
        assert VotersFor(s, id, oracles, now, x) <= ToSet(oracles);
        SubsetSize(VotersFor(s, id, oracles, now, x), ToSet(oracles));
        ToSetSize(oracles);
      }
      assert Consensus(v, s, id, asset, now).Ok?
        <==> |oracles| >= MIN_ATTESTATIONS && forall o :: o in oracles ==> !Traps(v, s, id, o);
      hide Consensus, VotersFor, Sound, Traps;
      if Consensus(v, s, id, asset, now).Ok? {
        ConsensusMeaning(v, s, id, asset, now);
      }
    }
  }

  /** When the sender is refunded on conflict, from the stored fields alone. */
  ghost predicate ConflictRefundDue(v: Verifier, s: Store, caller: Address, id: u64, now: u64)
  {
    && id in s.escrows
    && var (e, asset) := (s.escrows[id], s.escrows[id].asset);
    && e.sender == caller && (e.state == Locked || e.state == Dispatched)
    && asset in s.oracles && |s.oracles[asset]| >= 2
    && (forall o :: !Rejected(v, s, id, asset, o))
    && (forall o, p, x :: o != p && RecentFor(s, id, asset, o, now, x) ==> !RecentFor(s, id, asset, p, now, x))
    && (|set o | o in s.oracles[asset] && Recent(s, id, asset, o, now)| == 1 ==>
          e.lockedAt + 86_400 <= now)
  }

  lemma ConflictRefundDueIff(v: Verifier, s: Store, caller: Address, id: u64, now: u64)
    requires Sound(s)
    ensures var r := RefundOnConflict(v, s, caller, id, now);
      && (r.Ok? <==> ConflictRefundDue(v, s, caller, id, now))
      && (r == Err(NotRegistered) <==> id !in s.escrows)
      && (r == Err(Unauthorized) <==> id in s.escrows && caller != s.escrows[id].sender)
      && (r == Err(InvalidEscrowState) <==>
            id in s.escrows && caller == s.escrows[id].sender
            && s.escrows[id].state != Locked && s.escrows[id].state != Dispatched)
  {
    hide Consensus, Recent, RecentFor, Rejected;
    if id in s.escrows {
      ConsensusMeansFields(v, s, id, s.escrows[id].asset, now);
      assert s.escrows[id].timeoutSecs == FIAT_PAYOUT_TIMEOUT_SECS;
      hide Sound;
    }
  }

  lemma VerifyErrors(v: Verifier, s: Store, id: u64, now: u64)
    requires Sound(s)
    ensures var r := VerifyConsensus(v, s, id, now);
      && (r == Err(NotRegistered) <==> id !in s.escrows)
      && (r == Err(OracleAttestationConflict) ==>
            && id in s.escrows && s.escrows[id].asset in s.oracles
            && |set o | o in s.oracles[s.escrows[id].asset] && Recent(s, id, s.escrows[id].asset, o, now)| >= 2)
      && (r == Err(InsufficientOracleAttestations) ==>
            && id in s.escrows && s.escrows[id].asset in s.oracles
            && |set o | o in s.oracles[s.escrows[id].asset] && Recent(s, id, s.escrows[id].asset, o, now)| < 2)
  {
    if id in s.escrows {
      ConsensusMeansFields(v, s, id, s.escrows[id].asset, now);
      hide Consensus, Sound, Recent, RecentFor, Rejected;
    }
  }

  /** 24 hours after a lock; a lock at time 0 never expires. */
  predicate PastDeadline(e: FiatEscrow, now: u64) { e.lockedAt > 0 && now >= e.lockedAt + 86_400 }

  /** The first thing wrong with an attestation. */
  function SubmitError(s: Store, oracle: Address, id: u64, amount: u64, asset: AssetId, v: Verifier, x: TxId, g: Signature)
    : ContractError
  {
    if asset !in s.oracles || |s.oracles[asset]| == 0 then OracleRegistryNotConfigured
    else if oracle !in s.oracles[asset] then OracleNotAuthorized
    else if id !in s.escrows then NotRegistered
    else if !Unresolved(s.escrows[id]) then InvalidEscrowState
    else if s.escrows[id].asset != asset then InvalidAsset
    else if s.escrows[id].amount != amount then InvalidArgument
    else if oracle !in s.pubkeys then OracleNotAuthorized
    else if !v(s.pubkeys[oracle], x, amount, g) then HostTrap
    else DuplicateOracleAttestation
  }

  class EscrowContract {
    const verify: Verifier
    const admin: Address
    var oracles: map<AssetId, seq<Address>>
    var pubkeys: map<Address, PubKey>
    var escrows: map<u64, FiatEscrow>
    var counter: u64
    var attestations: map<(u64, Address), Attestation>

    ghost function Model(): Store
      reads this
    {
      Store(admin, oracles, pubkeys, escrows, counter, attestations)
    }

    ghost predicate Invariant()
      reads this
    {
      Sound(Model())
    }

    constructor (v: Verifier, a: Address)
      ensures Invariant() && Model() == Initial(a) && verify == v
    {
      verify, admin := v, a;
      oracles, pubkeys, escrows, counter, attestations := map[], map[], map[], 0, map[];
    }

    /** The outcome of a call against its specification. */
    ghost predicate Implements(spec: Result<Store, ContractError>, r: Result<(), ContractError>, before: Store)
      reads this
    {
      match spec
      case Ok(t) => r == Ok(()) && Model() == t
      case Err(e) => r == Err(e) && Model() == before
    }

    method OpenFiatEscrow(sender: Address, anchor: Address, asset: AssetId, amount: u64, now: u64)
      returns (r: Result<(), ContractError>)
      requires Invariant()
      modifies this`escrows, this`counter
      ensures Implements(OpenEscrow(old(Model()), sender, anchor, asset, amount, now), r, old(Model()))
      ensures Invariant() && Later(old(Model()), Model())
      ensures r.Ok? <==> amount > 0 && old(counter) < U64_MAX
      ensures r.Err? ==> r.error == if amount == 0 then AmountTooLow else Overflow
      ensures r.Ok? ==>
        && counter == old(counter) + 1 && old(counter) in escrows
        && escrows[old(counter)] == FiatEscrow(old(counter), sender, anchor, amount, asset, Pending, now, 0, 86_400)
      ensures r.Ok? ==>
        && old(counter) !in old(escrows) && escrows - {old(counter)} == old(escrows)
        && forall t: u64 :: LockEscrow(Model(), sender, old(counter), t).Ok?
    {
      OutcomeKeepsSound(verify, Model(), Open(sender, anchor, asset, amount), now);
      assert Apply(verify, Model(), Open(sender, anchor, asset, amount), now) == OpenEscrow(Model(), sender, anchor, asset, amount, now);
      hide Sound, Later, Apply;
      if amount == 0 {
        return Err(AmountTooLow);
      }
      if !FitsU64(counter + 1) {
        return Err(Overflow);
      }
      escrows := escrows[counter := FiatEscrow(counter, sender, anchor, amount, asset, Pending, now, 0, FIAT_PAYOUT_TIMEOUT_SECS)];
      counter := counter + 1;
      r := Ok(());
    }

    method LockFiatEscrow(sender: Address, id: u64, now: u64) returns (r: Result<(), ContractError>)
      requires Invariant()
      modifies this`escrows
      ensures Implements(LockEscrow(old(Model()), sender, id, now), r, old(Model()))
      ensures Invariant() && Later(old(Model()), Model())
      ensures r.Ok? <==> id in old(escrows) && old(escrows)[id].sender == sender && old(escrows)[id].state == Pending
      ensures r.Err? ==> r.error == if id in old(escrows) then Unauthorized else NotRegistered
      ensures r.Ok? ==> escrows == old(escrows)[id := old(escrows)[id].(state := Locked, lockedAt := now)]
      ensures r.Ok? ==> id in escrows && SettleUntilDeadline(Model(), id)
    {
      OutcomeKeepsSound(verify, Model(), Lock(sender, id), now);
      assert Apply(verify, Model(), Lock(sender, id), now) == LockEscrow(Model(), sender, id, now);
      hide Sound, Later, Apply;
      if id !in escrows {
        return Err(NotRegistered);
      }
      var e := escrows[id];
      if e.sender != sender {
        return Err(Unauthorized);
      }
      if e.state != Pending {
        return Err(Unauthorized);
      }
      escrows := escrows[id := e.(state := Locked, lockedAt := now)];
      OpenEscrowsSettle(Model(), id);
      r := Ok(());
    }

    method DispatchFiatPayout(anchor: Address, id: u64, now: u64) returns (r: Result<(), ContractError>)
      requires Invariant()
      modifies this`escrows
      ensures Implements(DispatchPayout(old(Model()), anchor, id, now), r, old(Model()))
      ensures Invariant() && Later(old(Model()), Model())
      ensures r.Ok? <==>
        && id in old(escrows) && old(escrows)[id].anchor == anchor && old(escrows)[id].state == Locked
        && !PastDeadline(old(escrows)[id], now)
      ensures r.Err? ==> r.error == if id !in old(escrows) then NotRegistered
                                    else if old(escrows)[id].anchor == anchor && old(escrows)[id].state == Locked
                                    then DeadlineReached else Unauthorized
      ensures r.Ok? ==> escrows == old(escrows)[id := old(escrows)[id].(state := Dispatched)]
      ensures r.Ok? ==> !RefundEscrow(old(Model()), id, now).Ok? && SettleUntilDeadline(Model(), id)
    {
      OutcomeKeepsSound(verify, Model(), Dispatch(anchor, id), now);
      assert Apply(verify, Model(), Dispatch(anchor, id), now) == DispatchPayout(Model(), anchor, id, now);
      hide Sound, Later, Apply;
      if id !in escrows {
        return Err(NotRegistered);
      }
      var e := escrows[id];
      if e.anchor != anchor {
        return Err(Unauthorized);
      }
      if e.state != Locked {
        return Err(Unauthorized);
      }
      if Expired(e, now) {
        return Err(DeadlineReached);
      }
      escrows := escrows[id := e.(state := Dispatched)];
      OpenEscrowsSettle(Model(), id);
      r := Ok(());
    }

    method SettleFiatEscrow(anchor: Address, id: u64, now: u64) returns (r: Result<(), ContractError>)
      requires Invariant()
      modifies this`escrows
      ensures Implements(SettleEscrow(old(Model()), anchor, id, now), r, old(Model()))
      ensures Invariant() && Later(old(Model()), Model())
      ensures r.Ok? <==>
        && id in old(escrows) && old(escrows)[id].anchor == anchor && Unresolved(old(escrows)[id])
        && !PastDeadline(old(escrows)[id], now)
      ensures r.Err? ==> r.error == if id !in old(escrows) then NotRegistered
                                    else if old(escrows)[id].anchor == anchor && Unresolved(old(escrows)[id])
                                    then DeadlineReached else Unauthorized
      ensures r.Ok? ==> escrows == old(escrows)[id := old(escrows)[id].(state := Settled)]
      ensures r.Ok? ==> !RefundEscrow(old(Model()), id, now).Ok? && Final(verify, Model(), id)
    {
      OutcomeKeepsSound(verify, Model(), Settle(anchor, id), now);
      assert Apply(verify, Model(), Settle(anchor, id), now) == SettleEscrow(Model(), anchor, id, now);
      hide Sound, Later, Apply;
      if id !in escrows {
        return Err(NotRegistered);
      }
      var e := escrows[id];
      if e.anchor != anchor {
        return Err(Unauthorized);
      }
      match e.state {
        case Locked =>
        case Dispatched =>
        case _ => return Err(Unauthorized);
      }
      if Expired(e, now) {
        return Err(DeadlineReached);
      }
      escrows := escrows[id := e.(state := Settled)];
      FinalForever(verify, Model(), id);
      r := Ok(());
    }

    method RefundFiatEscrow(id: u64, now: u64) returns (r: Result<(), ContractError>)
      requires Invariant()
      modifies this`escrows
      ensures Implements(RefundEscrow(old(Model()), id, now), r, old(Model()))
      ensures Invariant() && Later(old(Model()), Model())
      ensures r.Ok? <==> id in old(escrows) && Unresolved(old(escrows)[id]) && PastDeadline(old(escrows)[id], now)
      ensures r.Err? ==> r.error == if id !in old(escrows) then NotRegistered
                                    else if Unresolved(old(escrows)[id]) then DeadlineNotReached else Unauthorized
      ensures r.Ok? ==> escrows == old(escrows)[id := old(escrows)[id].(state := Refunded)]
      ensures r.Ok? ==> !SettleEscrow(old(Model()), old(escrows)[id].anchor, id, now).Ok? && Final(verify, Model(), id)
    {
      OutcomeKeepsSound(verify, Model(), Refund(id), now);
      assert Apply(verify, Model(), Refund(id), now) == RefundEscrow(Model(), id, now);
      hide Sound, Later, Apply;
      if id !in escrows {
        return Err(NotRegistered);
      }
      var e := escrows[id];
      match e.state {
        case Locked =>
        case Dispatched =>
        case _ => return Err(Unauthorized);
      }
      if !Expired(e, now) {
        return Err(DeadlineNotReached);
      }
      escrows := escrows[id := e.(state := Refunded)];
      FinalForever(verify, Model(), id);
      r := Ok(());
    }

    method RegisterOracleFor(caller: Address, asset: AssetId, oracle: Address) returns (r: Result<(), ContractError>)
      requires Invariant()
      modifies this`oracles
      ensures Implements(RegisterOracle(old(Model()), caller, asset, oracle), r, old(Model()))
      ensures Invariant() && Later(old(Model()), Model())
      ensures var registered := if asset in old(oracles) then old(oracles)[asset] else [];
        && (r.Ok? <==> caller == admin && oracle !in registered && |registered| < 3)
        && (r.Err? ==> r.error == if caller != admin then NotAdmin
                                  else if oracle in registered then AlreadyRegistered else CapacityExceeded)
        && (r.Ok? ==> oracles == old(oracles)[asset := registered + [oracle]])
      ensures r.Ok? ==> UndoneByRemoval(old(Model()), Model(), asset, oracle)
    {
      ghost var before := Model();
      RegisterKeepsSound(verify, before, caller, asset, oracle);
      hide Sound, Later, UndoneByRemoval, RemoveOracle;
      if admin != caller {
        return Err(NotAdmin);
      }
      var registered := if asset in oracles then oracles[asset] else [];
      assert registered == OraclesOf(before, asset);
      if oracle in registered {
        return Err(AlreadyRegistered);
      }
      if |registered| >= MAX_ORACLES {
        return Err(CapacityExceeded);
      }
      oracles := oracles[asset := registered + [oracle]];
      assert RegisterOracle(before, caller, asset, oracle) == Ok(Model());
      RegisterThenRemove(before, asset, oracle);
      r := Ok(());
    }

    method RemoveOracleFrom(caller: Address, asset: AssetId, oracle: Address) returns (r: Result<(), ContractError>)
      requires Invariant()
      modifies this`oracles
      ensures Implements(RemoveOracle(old(Model()), caller, asset, oracle), r, old(Model()))
      ensures Invariant() && Later(old(Model()), Model())
      ensures r.Ok? <==> caller == admin && asset in old(oracles) && oracle in old(oracles)[asset]
      ensures r.Err? ==> r.error == if caller != admin then NotAdmin else NotRegistered
      ensures r.Ok? ==> OnlyRemoved(old(Model()), Model(), asset, oracle)
    {
      OutcomeKeepsSound(verify, Model(), Remove(caller, asset, oracle), 0);
      assert Apply(verify, Model(), Remove(caller, asset, oracle), 0) == RemoveOracle(Model(), caller, asset, oracle);
      if RemoveOracle(Model(), caller, asset, oracle).Ok? { RemovedIsGone(Model(), asset, oracle); }
      hide Sound, Later, Apply, Without, OnlyRemoved;
      if admin != caller {
        return Err(NotAdmin);
      }
      var registered := if asset in oracles then oracles[asset] else [];
      var remaining, found := WithoutLoop(registered, oracle);
      if !found {
        return Err(NotRegistered);
      }
      oracles := oracles[asset := remaining];
      r := Ok(());
    }

    static method WithoutLoop(xs: seq<Address>, x: Address) returns (ys: seq<Address>, found: bool)
      ensures ys == Without(xs, x) && found == (x in xs)
    {
      found, ys := false, [];
      for i := 0 to |xs|
        invariant ys == Without(xs[..i], x) && found == (x in xs[..i])
      {
        assert xs[..i + 1][..i] == xs[..i];
        if xs[i] == x {
          found := true;
        } else {
          ys := ys + [xs[i]];
        }
      }
      assert xs[..|xs|] == xs;
    }

    method SubmitAttestationOf(oracle: Address, id: u64, txId: TxId, amount: u64, asset: AssetId, sig: Signature, now: u64)
      returns (r: Result<(), ContractError>)
      requires Invariant()
      modifies this`attestations
      ensures Implements(SubmitAttestation(verify, old(Model()), oracle, id, txId, amount, asset, sig, now), r, old(Model()))
      ensures Invariant() && Later(old(Model()), Model())
      ensures r.Ok? <==>
        && asset in oracles && oracle in oracles[asset]
        && id in escrows && Unresolved(escrows[id]) && escrows[id].asset == asset && escrows[id].amount == amount
        && oracle in pubkeys && verify(pubkeys[oracle], txId, amount, sig) && (id, oracle) !in old(attestations)
      ensures r.Ok? ==>
        attestations == old(attestations)[(id, oracle) := Attestation(oracle, id, txId, amount, asset, now, sig)]
      ensures r.Err? ==> r.error == SubmitError(old(Model()), oracle, id, amount, asset, verify, txId, sig)
      ensures r.Ok? ==>
        var (before, after) := (VotersFor(old(Model()), id, OraclesOf(Model(), asset), now, txId),
                                VotersFor(Model(), id, OraclesOf(Model(), asset), now, txId));
        oracle !in before && after == before + {oracle}
      ensures r.Ok? ==> forall x, g, t: u64 :: SubmitAttestation(verify, Model(), oracle, id, x, amount, asset, g, t).Err?
    {
      OutcomeKeepsSound(verify, Model(), Submit(oracle, id, txId, amount, asset, sig), now);
      assert Apply(verify, Model(), Submit(oracle, id, txId, amount, asset, sig), now)
          == SubmitAttestation(verify, Model(), oracle, id, txId, amount, asset, sig, now);
      hide Sound, Later, Apply;
      var registered := if asset in oracles then oracles[asset] else [];
      if registered == [] {
        return Err(OracleRegistryNotConfigured);
      }
      if oracle !in registered {
        return Err(OracleNotAuthorized);
      }
      if id !in escrows {
        return Err(NotRegistered);
      }
      var e := escrows[id];
      if e.state != Locked && e.state != Dispatched {
        return Err(InvalidEscrowState);
      }
      if e.asset != asset {
        return Err(InvalidAsset);
      }
      if e.amount != amount {
        return Err(InvalidArgument);
      }
      if oracle !in pubkeys {
        return Err(OracleNotAuthorized);
      }
      if !verify(pubkeys[oracle], txId, amount, sig) {
        return Err(HostTrap);
      }
      if (id, oracle) in attestations {
        return Err(DuplicateOracleAttestation);
      }
      attestations := attestations[(id, oracle) := Attestation(oracle, id, txId, amount, asset, now, sig)];
      r := Ok(());
    }

    method RegisterPubKey(oracle: Address, key: PubKey)
      requires Invariant()
      modifies this`pubkeys
      ensures Implements(Apply(verify, old(Model()), SetPubKey(oracle, key), 0), Ok(()), old(Model()))
      ensures pubkeys == old(pubkeys)[oracle := key]
      ensures Invariant() && Later(old(Model()), Model())
    {
      OutcomeKeepsSound(verify, Model(), SetPubKey(oracle, key), 0);
      hide Sound, Later, Apply;
      pubkeys := pubkeys[oracle := key];
    }

    /** `check_consensus`: counts the votes in maps, then walks each map in an
        unspecified order until it meets a count of two. */
    method CheckConsensus(id: u64, asset: AssetId, now: u64) returns (r: Result<AttestationResult, ContractError>)
      requires Invariant()
      ensures r == Consensus(verify, Model(), id, asset, now)
      ensures ConsensusByFields(verify, Model(), id, asset, now, r)
    {
      hide Valid, Sound, Majority, TxIds, AmountsOf, CountsVotes, ConsensusByFields, Recent, RecentFor, Rejected, Traps;
      ConsensusMeansFields(verify, Model(), id, asset, now);
      RegistryBound(Model(), asset);
      var registered := if asset in oracles then oracles[asset] else [];
      if |registered| < MIN_ATTESTATIONS {
        return Err(OracleRegistryNotConfigured);
      }
      ghost var s := Model();
      var tally := Tally(id, registered, now);
      if tally.None? {
        return Err(HostTrap);
      }
      var (count, txCounts, amountCounts) := tally.value;
      ghost var valid := Valid(s, id, registered, now);
      var invalid := |registered| - count;
      if count < MIN_ATTESTATIONS {
        return Ok(AttestationResult(false, count, invalid, None, None));
      }
      VoteLengths(valid);
      var tx := FirstWithTwo(txCounts, TxIds(valid));
      var amount := FirstWithTwo(amountCounts, AmountsOf(valid));
      r := Ok(AttestationResult(tx.Some? && amount.Some?, count, invalid, tx, amount));
    }

    /** The collecting loop: how many attestations count, and the votes per
        transaction id and per amount; `None` when the host aborts. */
    method Tally(id: u64, registered: seq<Address>, now: u64)
      returns (r: Option<(nat, map<TxId, int>, map<u64, int>)>)
      ensures r.None? <==> exists o :: o in registered && Traps(verify, Model(), id, o)
      ensures r.Some? ==> Tallies(Valid(Model(), id, registered, now), r.value)
    {
      hide Valid, Tallies;
      ghost var s := Model();
      var count: nat, txCounts: map<TxId, int>, amountCounts: map<u64, int> := 0, map[], map[];
      NoVotes(s, id, registered, now);
      for i := 0 to |registered|
        invariant Tallies(Valid(s, id, registered[..i], now), (count, txCounts, amountCounts))
        invariant forall o :: o in registered[..i] ==> !Traps(verify, s, id, o)
      {
        var o := registered[i];
        assert registered[..i + 1] == registered[..i] + [o];
        ValidStep(s, id, registered[..i], o, now);
        if (id, o) in attestations && o in pubkeys {
          var a := attestations[(id, o)];
          if !verify(pubkeys[o], a.txId, a.amount, a.signature) {
            assert o in registered && Traps(verify, Model(), id, o);
            return None;
          }
          if SaturatingSub(now, a.observedAt) <= MAX_ATTESTATION_AGE_SECS {
            OneMoreVote(Valid(s, id, registered[..i], now), (count, txCounts, amountCounts), a);
            count := count + 1;
            txCounts := txCounts[a.txId := Get(txCounts, a.txId) + 1];
            amountCounts := amountCounts[a.amount := Get(amountCounts, a.amount) + 1];
          }
        }
      }
      assert registered[..|registered|] == registered;
      r := Some((count, txCounts, amountCounts));
    }

    method VerifyConsensusBeforeSettle(id: u64, now: u64) returns (r: Result<AttestationResult, ContractError>)
      requires Invariant()
      ensures r == VerifyConsensus(verify, Model(), id, now)
      ensures r.Ok? <==>
        && id in escrows
        && (forall o :: o in OraclesOf(Model(), escrows[id].asset) ==> !Traps(verify, Model(), id, o))
        && exists x :: |VotersFor(Model(), id, OraclesOf(Model(), escrows[id].asset), now, x)| >= 2
      ensures r.Ok? ==>
        && r.value.agreedTxId.Some? && r.value.agreedAmount == Some(escrows[id].amount)
        && |VotersFor(Model(), id, OraclesOf(Model(), escrows[id].asset), now, r.value.agreedTxId.value)| >= 2
    {
      VerifiedMeaning(verify, Model(), id, now);
      hide Consensus, ConsensusByFields;
      if id !in escrows {
        return Err(NotRegistered);
      }
      var result :- CheckConsensus(id, escrows[id].asset, now);
      if !result.consensusReached {
        if result.validCount >= MIN_ATTESTATIONS && (result.agreedTxId.None? || result.agreedAmount.None?) {
          return Err(OracleAttestationConflict);
        }
        return Err(InsufficientOracleAttestations);
      }
      r := Ok(result);
    }

    method RefundEscrowOnConflict(caller: Address, id: u64, now: u64) returns (r: Result<(), ContractError>)
      requires Invariant()
      modifies this`escrows
      ensures Implements(RefundOnConflict(verify, old(Model()), caller, id, now), r, old(Model()))
      ensures Invariant() && Later(old(Model()), Model())
      ensures r.Ok? <==> ConflictRefundDue(verify, old(Model()), caller, id, now)
      ensures r.Ok? ==> escrows == old(escrows)[id := old(escrows)[id].(state := Refunded)]
      ensures r.Ok? ==> id in escrows && Final(verify, Model(), id)
    {
      hide ConflictRefundDue, ConsensusByFields, Recent, RecentFor, Rejected;
      OutcomeKeepsSound(verify, Model(), ConflictRefund(caller, id), now);
      ConflictRefundDueIff(verify, Model(), caller, id, now);
      assert Apply(verify, Model(), ConflictRefund(caller, id), now) == RefundOnConflict(verify, Model(), caller, id, now);
      hide Sound, Later, Apply;
      hide Consensus;
      if id !in escrows {
        return Err(NotRegistered);
      }
      var e := escrows[id];
      if e.sender != caller {
        return Err(Unauthorized);
      }
      if e.state != Locked && e.state != Dispatched {
        return Err(InvalidEscrowState);
      }
      var result :- CheckConsensus(id, e.asset, now);
      var canRefund := false;
      if !result.consensusReached {
        canRefund := result.validCount >= MIN_ATTESTATIONS || result.validCount == 0;
        if !canRefund {
          if !FitsU64(e.lockedAt + e.timeoutSecs) {
            return Err(HostTrap);
          }
          canRefund := now >= e.lockedAt + e.timeoutSecs;
        }
      }
      if !canRefund {
        return Err(DeadlineNotReached);
      }
      escrows := escrows[id := e.(state := Refunded)];
      FinalForever(verify, Model(), id);
      r := Ok(());
    }
  }

  lemma RegistryBound(s: Store, asset: AssetId)
    requires Sound(s)
    ensures |OraclesOf(s, asset)| <= MAX_ORACLES
  {}

  /** A count map with missing keys read as 0. */
  ghost predicate CountsVotes<T(!new)>(counts: map<T, int>, xs: seq<T>)
  {
    forall x :: Get(counts, x) == multiset(xs)[x]
  }

  lemma CountOneMore<T(!new)>(counts: map<T, int>, xs: seq<T>, x: T)
    requires CountsVotes(counts, xs)
    ensures CountsVotes(counts[x := Get(counts, x) + 1], xs + [x])
  {}

  ghost predicate Tallies(xs: seq<Attestation>, t: (nat, map<TxId, int>, map<u64, int>))
  {
    t.0 == |xs| && CountsVotes(t.1, TxIds(xs)) && CountsVotes(t.2, AmountsOf(xs))
  }

  lemma NoVotes(s: Store, id: u64, oracles: seq<Address>, now: u64)
    ensures Tallies(Valid(s, id, oracles[..0], now), (0, map[], map[]))
  {}

  lemma OneMoreVote(xs: seq<Attestation>, t: (nat, map<TxId, int>, map<u64, int>), a: Attestation)
    requires Tallies(xs, t)
    ensures Tallies(xs + [a], (t.0 + 1, t.1[a.txId := Get(t.1, a.txId) + 1], t.2[a.amount := Get(t.2, a.amount) + 1]))
  {
    hide CountsVotes;
    TxIdsAppend(xs, a);
    CountOneMore(t.1, TxIds(xs), a.txId);
    CountOneMore(t.2, AmountsOf(xs), a.amount);
  }

  lemma {:induction false} VoteLengths(xs: seq<Attestation>)
    ensures |TxIds(xs)| == |xs| && |AmountsOf(xs)| == |xs|
  {
    if xs != [] { VoteLengths(xs[..|xs| - 1]); }
  }

  /** The search of a count map for a count of at least two, keys in any order. */
  method FirstWithTwo<T(==,!new)>(counts: map<T, int>, ghost xs: seq<T>) returns (r: Option<T>)
    requires CountsVotes(counts, xs) && |xs| <= MAX_ORACLES
    ensures r == Majority(xs)
  {
    var remaining := counts.Keys;
    while remaining != {}
      invariant remaining <= counts.Keys
      invariant forall x :: x in counts.Keys - remaining ==> counts[x] < MIN_ATTESTATIONS
      decreases |remaining|
    {
      var x :| x in remaining;
      remaining := remaining - {x};
      if counts[x] >= MIN_ATTESTATIONS {
        assert Get(counts, x) == multiset(xs)[x];
        AgreedUnique(xs, Some(x), Majority(xs));
        return Some(x);
      }
    }
    forall x | x in xs ensures multiset(xs)[x] < MIN_ATTESTATIONS {
      assert Get(counts, x) == multiset(xs)[x];
    }
    AgreedUnique(xs, None, Majority(xs));
    r := None;
  }
}

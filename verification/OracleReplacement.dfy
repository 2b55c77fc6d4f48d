/** What replacing oracles can do to the agreement on one escrow
    (src/oracle_attestation.rs). */
module OracleReplacement {
  import opened Machine
  import opened MapSum
  import opened OracleAttestation
  import opened OracleRuns

  lemma {:induction false} SizeOfDistinct(xs: seq<Address>)
    requires NoDuplicates(xs)
    ensures |ToSet(xs)| == |xs|
  {
    if xs != [] {
      var k := |xs| - 1;
      SizeOfDistinct(xs[..k]);
      assert ToSet(xs) == ToSet(xs[..k]) + {xs[k]};
    }
  }

  /** Two registries with more than three oracles between them have two disjoint
      pairs of voters. */
  lemma DisjointVoters(p: set<Address>, q: set<Address>) returns (a: Address, b: Address, c: Address, d: Address)
    requires 2 <= |p| <= 3 && 2 <= |q| <= 3 && |p + q| > 3
    ensures a in p && b in p && a != b && c in q && d in q && c != d
    ensures a != c && a != d && b != c && b != d
  {
    NotWithin(p, q);
    assert q + p == p + q;
    NotWithin(q, p);
    a :| a in p - q;
    d :| d in q - p;
    Another(p, a);
    Another(q, d);
    b :| b in p - {a};
    if e :| e in q - {d} && e != b {
      c := e;
    } else {
      c :| c in q - {d};
      assert c == b;
      ThirdOracle(p, q, a, b, d);
      b :| b in p - {a} && b != c;
    }
  }

  lemma ThirdOracle(p: set<Address>, q: set<Address>, a: Address, b: Address, d: Address)
    requires |p + q| > 3 && forall e :: e in q - {d} ==> e == b
    ensures exists e :: e in p - {a} && e != b
  {
    if forall e :: e in p - {a} ==> e == b {
      assert forall e :: e in p + q ==> e in {a, b, d} by {
        assert forall e :: e in p && e != a ==> e in p - {a};
        assert forall e :: e in q && e != d ==> e in q - {d};
      }
      SubsetSize(p + q, {a, b, d});
    }
  }

  lemma NotWithin(p: set<Address>, q: set<Address>)
    requires |p + q| > 3 && |q| <= 3
    ensures p - q != {}
  {
    if p - q == {} {
      assert forall a :: a in p ==> a in q by { assert forall a :: a in p && a !in q ==> a in p - q; }
      SubsetSize(p + q, q);
    }
  }

  lemma Another(p: set<Address>, a: Address)
    requires |p| >= 2 && a in p
    ensures p - {a} != {}
  {
    assert |p - {a}| == |p| - 1;
  }

  /** A run from the first call on in which oracles `a` and `b` of the registry
      `p` agree on `x` at time `now`; nobody else has attested. */
  lemma FirstAgreement(v: Verifier, admin: Address, asset: AssetId, amount: u64, p: seq<Address>, a: Address, b: Address,
                       x: TxId, now: u64)
    returns (calls: seq<Call>)
    requires NoDuplicates(p) && |p| <= MAX_ORACLES && a in p && b in p && a != b
    requires amount > 0 && CanSign(v, x, amount)
    ensures var s := Run(v, Initial(admin), calls);
      && Sound(s) && AgreesOn(v, s, 0, asset, p, now, x)
      && 0 in s.escrows && s.escrows[0] == NewlyLocked(asset, amount, now)
      && s.attestations.Keys == {(0, a), (0, b)}
      && s.attestations[(0, a)].observedAt == now && s.attestations[(0, b)].observedAt == now
      && forall q :: !Traps(v, s, 0, q)
  {
    var s0 := Initial(admin);
    var c1 := RegisterAll(v, s0, asset, p, now);
    var s1 := Run(v, s0, c1);
    var c2 := OpenAndLock(v, s1, asset, amount, now);
    var s2 := Run(v, s1, c2);
    RunConcat(v, s0, c1, c2);
    EveryRunIsSound(v, admin, c1 + c2);
    assert s2.attestations == map[];
    hide Sound, Consensus;
    var c3 := TwoVotes(v, s2, 0, a, b, now, x);
    RunConcat(v, s0, c1 + c2, c3);
    calls := c1 + c2 + c3;
  }

  /** The registry is emptied and filled with `q`, and `c` and `d` agree on `y`. */
  lemma SecondAgreement(v: Verifier, s: Store, asset: AssetId, q: seq<Address>, c: Address, d: Address, y: TxId, now: u64)
    returns (calls: seq<Call>)
    requires Sound(s) && 0 in s.escrows && Unresolved(s.escrows[0]) && s.escrows[0].asset == asset
    requires NoDuplicates(q) && |q| <= MAX_ORACLES && c in q && d in q && c != d
    requires (0, c) !in s.attestations && (0, d) !in s.attestations && CanSign(v, y, s.escrows[0].amount)
    requires forall o :: !Traps(v, s, 0, o)
    ensures AgreesOn(v, Run(v, s, calls), 0, asset, q, now, y)
  {
    var c1 := RemoveAll(v, s, asset, now);
    var s1 := Run(v, s, c1);
    var c2 := RegisterAll(v, s1, asset, q, now);
    var s2 := Run(v, s1, c2);
    RunConcat(v, s, c1, c2);
    RunKeepsSound(v, s, c1 + c2);
    assert NoTraps(v, s2, 0, q) by {
      forall o ensures !Traps(v, s2, 0, o) { assert !Traps(v, s, 0, o); }
    }
    hide Sound, Consensus;
    var c3 := TwoVotes(v, s2, 0, c, d, now, y);
    RunConcat(v, s, c1 + c2, c3);
    calls := c1 + c2 + c3;
  }

  /** From the first call on, `first` leads to agreement on `x` under the registry
      `p`, and `second` from there to agreement on another transaction under `q`. */
  ghost predicate Disagree(v: Verifier, admin: Address, asset: AssetId, p: seq<Address>, q: seq<Address>,
                           first: seq<Call>, second: seq<Call>, id: u64, now: u64, later: u64, x: TxId, y: TxId)
  {
    var s := Run(v, Initial(admin), first);
    x != y && AgreesOn(v, s, id, asset, p, now, x) && AgreesOn(v, Run(v, s, second), id, asset, q, later, y)
  }

  ghost predicate TwoSignable(v: Verifier)
  {
    exists x, y, amount: u64 :: x != y && amount > 0 && CanSign(v, x, amount) && CanSign(v, y, amount)
  }

  /** Under every signature scheme: some run agrees on two transactions for one
      escrow, first under the registry `p` and then under `q`, if and only if the two
      registries hold more than three oracles between them and two transactions of
      one amount can be signed at all. */
  lemma TwoAgreementsPossibleIff(v: Verifier, admin: Address, asset: AssetId, p: seq<Address>, q: seq<Address>)
    requires NoDuplicates(p) && NoDuplicates(q) && 2 <= |p| <= MAX_ORACLES && 2 <= |q| <= MAX_ORACLES
    ensures (exists first, second, id, now, later, x, y ::
               Disagree(v, admin, asset, p, q, first, second, id, now, later, x, y))
       <==> |ToSet(p) + ToSet(q)| > MAX_ORACLES && TwoSignable(v)
  {
    if first, second, id, now, later, x, y :| Disagree(v, admin, asset, p, q, first, second, id, now, later, x, y) {
      var s := Run(v, Initial(admin), first);
      EveryRunIsSound(v, admin, first);
      if |ToSet(p) + ToSet(q)| <= MAX_ORACLES {
        AtMostOneTxEverAgreed(v, s, second, id, asset, now, later);
      }
      BothSignable(v, s, second, id, asset, p, q, now, later, x, y);
    }
    if |ToSet(p) + ToSet(q)| > MAX_ORACLES && TwoSignable(v) {
      var x, y, amount: u64 :| x != y && amount > 0 && CanSign(v, x, amount) && CanSign(v, y, amount);
      var first, second := ReplacementRun(v, admin, asset, amount, p, q, x, y, 1);
      assert Disagree(v, admin, asset, p, q, first, second, 0, 1, 1, x, y);
    }
  }

  lemma BothSignable(v: Verifier, s: Store, calls: seq<Call>, id: u64, asset: AssetId, p: seq<Address>, q: seq<Address>,
                     now: u64, later: u64, x: TxId, y: TxId)
    requires Sound(s) && x != y
    requires AgreesOn(v, s, id, asset, p, now, x) && AgreesOn(v, Run(v, s, calls), id, asset, q, later, y)
    ensures TwoSignable(v)
  {
    RunKeepsSound(v, s, calls);
    AgreedIsSigned(v, s, id, asset, p, now, x);
    AgreedIsSigned(v, Run(v, s, calls), id, asset, q, later, y);
  }

  /** What is agreed verifies, for the amount of the escrow. */
  lemma AgreedIsSigned(v: Verifier, s: Store, id: u64, asset: AssetId, oracles: seq<Address>, now: u64, x: TxId)
    requires Sound(s) && AgreesOn(v, s, id, asset, oracles, now, x)
    ensures id in s.escrows && s.escrows[id].amount > 0 && CanSign(v, x, s.escrows[id].amount)
  {
    ConsensusMeaning(v, s, id, asset, now);
    var o :| o in VotersFor(s, id, oracles, now, x);
    var key := (id, o);
    assert key in s.attestations && !Traps(v, s, id, o);
  }

  lemma ReplacementRun(v: Verifier, admin: Address, asset: AssetId, amount: u64, p: seq<Address>, q: seq<Address>,
                       x: TxId, y: TxId, now: u64)
    returns (first: seq<Call>, second: seq<Call>)
    requires NoDuplicates(p) && NoDuplicates(q) && 2 <= |p| <= MAX_ORACLES && 2 <= |q| <= MAX_ORACLES
    requires |ToSet(p) + ToSet(q)| > MAX_ORACLES && x != y
    requires amount > 0 && CanSign(v, x, amount) && CanSign(v, y, amount)
    ensures Disagree(v, admin, asset, p, q, first, second, 0, now, now, x, y)
  {
    SizeOfDistinct(p);
    SizeOfDistinct(q);
    var a, b, c, d := DisjointVoters(ToSet(p), ToSet(q));
    first := FirstAgreement(v, admin, asset, amount, p, a, b, x, now);
    second := SecondAgreement(v, Run(v, Initial(admin), first), asset, q, c, d, y, now);
  }
}

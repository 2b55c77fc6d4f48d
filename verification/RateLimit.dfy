/** Rolling 24-hour mint limit of one asset (src/bridge/rate_limit.rs). */
module RateLimit {
  import opened Machine

  const WINDOW_SECONDS: nat := 86_400

  datatype Entry = Entry(timestamp: u64, amount: i128)

  ghost predicate AllPositive(log: seq<Entry>)
  {
    forall e :: e in log ==> e.amount > 0
  }

  /** The entries that pass the pruning test at time `now`: strictly after the
      cutoff, a subtraction saturating at 0. */
  ghost function Live(log: seq<Entry>, now: nat): seq<Entry>
  {
    if log == [] then []
    else
      var e := log[|log| - 1];
      Live(log[..|log| - 1], now) + (if e.timestamp > SaturatingSub(now, WINDOW_SECONDS) then [e] else [])
  }

  ghost function Total(log: seq<Entry>): int
  {
    if log == [] then 0 else Total(log[..|log| - 1]) + log[|log| - 1].amount
  }

  /** Sum of the amounts stamped in the 86400 seconds starting at `from`. */
  ghost function RangeSum(log: seq<Entry>, from: int): int
  {
    if log == [] then 0
    else
      var e := log[|log| - 1];
      RangeSum(log[..|log| - 1], from) + (if from <= e.timestamp < from + 86_400 then e.amount else 0)
  }

  /** The trailing window: the seconds now - 86399 .. now. */
  ghost function WindowSum(log: seq<Entry>, now: nat): int
  {
    RangeSum(log, now - 86_400 + 1)
  }

  /** `enforce_and_record` under the cap in force: the pruned log with the new
      entry, or the error. */
  ghost function Enforce(log: seq<Entry>, cap: i128, amount: i128, now: u64): Result<seq<Entry>, ContractError>
  {
    if amount <= 0 then Err(BridgeInvalidAmount)
    else if cap <= 0 then Err(InvalidBridgeRateLimit)
    else if !FitsI128(Total(Live(log, now)) + amount) then Err(MathOverflow)
    else if Total(Live(log, now)) + amount > cap then Err(BridgeRateLimitExceeded)
    else Ok(Live(log, now) + [Entry(now, amount)])
  }

  // ----- pruning loses nothing -----

  lemma {:induction false} LiveAppend(log: seq<Entry>, more: seq<Entry>, now: nat)
    ensures Live(log + more, now) == Live(log, now) + Live(more, now)
  {
    if more == [] {
      assert log + more == log;
    } else {
      var k := |more| - 1;
      assert (log + more)[..|log| + k] == log + more[..k];
      LiveAppend(log, more[..k], now);
    }
  }

  lemma LiveSingle(e: Entry, now: nat)
    ensures Live([e], now) == if e.timestamp > SaturatingSub(now, WINDOW_SECONDS) then [e] else []
  {
    assert [e][..0] == [];
  }

  /** What was pruned earlier would be pruned now. */
  lemma {:induction false} LiveTwice(log: seq<Entry>, t: nat, now: nat)
    requires t <= now
    ensures Live(Live(log, t), now) == Live(log, now)
  {
    if log != [] {
      var k := |log| - 1;
      LiveTwice(log[..k], t, now);
      LiveAppend(Live(log[..k], t), Live([log[k]], t), now);
      LiveSingle(log[k], t);
      LiveSingle(log[k], now);
    }
  }

  lemma {:induction false} LivePositive(log: seq<Entry>, now: nat)
    requires AllPositive(log)
    ensures AllPositive(Live(log, now)) && Total(Live(log, now)) >= 0
  {
    if log != [] {
      var k := |log| - 1;
      LivePositive(log[..k], now);
      var live := Live(log[..k], now);
      assert log[k] in log;
      assert (live + [log[k]])[..|live|] == live && live + [] == live;
    }
  }

  /** The stored log answers for the full history from time `t` on. */
  ghost predicate Agrees(log: seq<Entry>, history: seq<Entry>, t: nat)
  {
    forall now :: now >= t ==> Live(log, now) == Live(history, now)
  }

  lemma RecordingKeepsAgrees(log: seq<Entry>, history: seq<Entry>, t: nat, e: Entry)
    requires Agrees(log, history, t) && t <= e.timestamp
    ensures Agrees(Live(log, e.timestamp) + [e], history + [e], e.timestamp)
  {
    forall now | now >= e.timestamp
      ensures Live(Live(log, e.timestamp) + [e], now) == Live(history + [e], now)
    {
      LiveAppend(Live(log, e.timestamp), [e], now);
      LiveTwice(log, e.timestamp, now);
      LiveAppend(history, [e], now);
    }
  }

  // ----- the pruning test and the trailing window -----

  ghost function ZeroStamped(log: seq<Entry>): int
  {
    if log == [] then 0
    else ZeroStamped(log[..|log| - 1]) + (if log[|log| - 1].timestamp == 0 then log[|log| - 1].amount else 0)
  }

  lemma {:induction false} ZeroStampedPositive(log: seq<Entry>)
    requires AllPositive(log)
    ensures ZeroStamped(log) >= 0
    ensures ZeroStamped(log) == 0 <==> forall e :: e in log ==> e.timestamp != 0
  {
    if log != [] {
      var k := |log| - 1;
      assert log[k] in log && log == log[..k] + [log[k]];
      ZeroStampedPositive(log[..k]);
    }
  }

  /** The saturating cutoff also drops entries stamped 0 during the first day. */
  lemma {:induction false} LiveTotal(log: seq<Entry>, now: nat)
    requires forall e :: e in log ==> e.timestamp <= now
    ensures Total(Live(log, now)) == WindowSum(log, now) - (if now < WINDOW_SECONDS then ZeroStamped(log) else 0)
  {
    if log != [] {
      var k := |log| - 1;
      assert log[k] in log;
      LiveTotal(log[..k], now);
      var live := Live(log[..k], now);
      assert (live + [log[k]])[..|live|] == live && live + [] == live;
    }
  }

  /** The rolling total is the true sum of the trailing 24 hours if and only if
      the first day is over or nothing was recorded at time 0. */
  lemma RollingTotalExactIff(log: seq<Entry>, now: nat)
    requires AllPositive(log) && forall e :: e in log ==> e.timestamp <= now
    ensures Total(Live(log, now)) == WindowSum(log, now)
       <==> now >= WINDOW_SECONDS || forall e :: e in log ==> e.timestamp != 0
  {
    LiveTotal(log, now);
    ZeroStampedPositive(log);
  }

  // ----- whole runs -----

  /** A call at ledger time `now`, with the cap then in force. */
  datatype Request = Request(now: u64, cap: i128, amount: i128)

  datatype State = State(log: seq<Entry>, history: seq<Entry>)

  ghost function Next(s: State, q: Request): State
  {
    match Enforce(s.log, q.cap, q.amount, q.now)
    case Ok(log) => State(log, s.history + [Entry(q.now, q.amount)])
    case Err(_) => s
  }

  ghost function Run(qs: seq<Request>): State
  {
    if qs == [] then State([], []) else Next(Run(qs[..|qs| - 1]), qs[|qs| - 1])
  }

  /** Calls at nondecreasing ledger times, none before `start`. */
  ghost predicate Chronological(qs: seq<Request>, start: nat)
  {
    qs == [] || (Chronological(qs[..|qs| - 1], start) && LastTime(qs[..|qs| - 1], start) <= qs[|qs| - 1].now)
  }

  function LastTime(qs: seq<Request>, start: nat): nat { if qs == [] then start else qs[|qs| - 1].now }

  /** The entries of a log lie between two times and are positive. */
  ghost predicate Bounded(log: seq<Entry>, start: nat, t: nat)
  {
    AllPositive(log) && forall e :: e in log ==> start <= e.timestamp <= t
  }

  ghost predicate Sound(s: State, start: nat, t: nat)
  {
    Agrees(s.log, s.history, t) && AllPositive(s.log) && Bounded(s.history, start, t)
  }

  lemma NextKeepsSound(s: State, q: Request, start: nat, t: nat)
    requires Sound(s, start, t) && start <= t <= q.now
    ensures Sound(Next(s, q), start, q.now)
  {
    hide Live, Total;
    LivePositive(s.log, q.now);
    if Next(s, q) != s {
      RecordingKeepsAgrees(s.log, s.history, t, Entry(q.now, q.amount));
    }
  }

  lemma {:induction false} RunSound(qs: seq<Request>, start: nat)
    requires Chronological(qs, start)
    ensures Sound(Run(qs), start, LastTime(qs, start)) && start <= LastTime(qs, start)
  {
    if qs != [] {
      var k := |qs| - 1;
      RunSound(qs[..k], start);
      NextKeepsSound(Run(qs[..k]), qs[k], start, LastTime(qs[..k], start));
    }
  }

  lemma AcceptedIffRoom(s: State, q: Request, start: nat, t: nat)
    requires Sound(s, start, t) && 0 < start && t <= q.now
    ensures Enforce(s.log, q.cap, q.amount, q.now).Ok?
      <==> q.amount > 0 && q.cap > 0 && WindowSum(s.history, q.now) + q.amount <= q.cap
  {
    assert Live(s.log, q.now) == Live(s.history, q.now);
    RollingTotalExactIff(s.history, q.now);
    LivePositive(s.log, q.now);
    hide Live, Total;
  }

  /** In every chronological run away from time 0, a positive amount is accepted
      exactly when the amounts accepted over the whole trailing 24 hours, taken
      from the full history, leave room for it under the cap. */
  lemma AcceptedIffRoomInWindow(qs: seq<Request>, q: Request, start: nat)
    requires Chronological(qs, start) && LastTime(qs, start) <= q.now && start > 0
    ensures var s := Run(qs);
      Enforce(s.log, q.cap, q.amount, q.now).Ok?
      <==> q.amount > 0 && q.cap > 0 && WindowSum(s.history, q.now) + q.amount <= q.cap
  {
    RunSound(qs, start);
    AcceptedIffRoom(Run(qs), q, start, LastTime(qs, start));
  }

  /** Why a mint is refused, in every chronological run away from time 0: the amount, the
      cap, 127 bits, or the room left by the last 24 hours, in this order. */
  lemma RefusalMeaning(qs: seq<Request>, q: Request, start: nat)
    requires Chronological(qs, start) && LastTime(qs, start) <= q.now && start > 0
    ensures var s := Run(qs);
      var (r, total) := (Enforce(s.log, q.cap, q.amount, q.now), WindowSum(s.history, q.now) + q.amount);
      && (r.Err? ==> r.error == if q.amount <= 0 then BridgeInvalidAmount
                                else if q.cap <= 0 then InvalidBridgeRateLimit
                                else if total > I128_MAX then MathOverflow else BridgeRateLimitExceeded)
      && (r.Ok? ==> exists kept :: r.value == kept + [Entry(q.now, q.amount)])
  {
    var s := Run(qs);
    RunSound(qs, start);
    assert Live(s.log, q.now) == Live(s.history, q.now);
    RollingTotalExactIff(s.history, q.now);
    LivePositive(s.log, q.now);
    hide Live, Total, Run, Chronological;
  }

  lemma {:induction false} RangeWithinRange(log: seq<Entry>, from: int, to: int)
    requires AllPositive(log) && from <= to
    requires forall e :: e in log ==> e.timestamp < from + WINDOW_SECONDS
    ensures 0 <= RangeSum(log, to) <= RangeSum(log, from)
  {
    if log != [] {
      assert log[|log| - 1] in log;
      RangeWithinRange(log[..|log| - 1], from, to);
    }
  }

  lemma RangeSumAppend(log: seq<Entry>, e: Entry, from: int)
    ensures RangeSum(log + [e], from)
         == RangeSum(log, from) + (if from <= e.timestamp < from + WINDOW_SECONDS then e.amount else 0)
  {
    assert (log + [e])[..|log|] == log;
  }

  lemma NextWithinCap(s: State, q: Request, start: nat, t: nat, bound: nat, from: int)
    requires Sound(s, start, t) && 0 < start && t <= q.now && q.cap <= bound
    requires RangeSum(s.history, from) <= bound
    ensures RangeSum(Next(s, q).history, from) <= bound
  {
    hide Live, Total, Agrees;
    AcceptedIffRoom(s, q, start, t);
    RangeSumAppend(s.history, Entry(q.now, q.amount), from);
    if q.now < from + WINDOW_SECONDS {
      RangeWithinRange(s.history, q.now - WINDOW_SECONDS + 1, from);
    }
  }

  /** Over every chronological run away from time 0, whatever caps are in force
      (each at most `bound`), the amounts accepted in any 86400 consecutive
      seconds sum to at most `bound`. */
  lemma {:induction false} AnyDayWithinCap(qs: seq<Request>, start: nat, bound: nat, from: int)
    requires Chronological(qs, start) && start > 0
    requires forall i :: 0 <= i < |qs| ==> qs[i].cap <= bound
    ensures RangeSum(Run(qs).history, from) <= bound
  {
    if qs != [] {
      var k := |qs| - 1;
      AnyDayWithinCap(qs[..k], start, bound, from);
      RunSound(qs[..k], start);
      NextWithinCap(Run(qs[..k]), qs[k], start, LastTime(qs[..k], start), bound, from);
    }
  }

  /** At ledger time 0 nothing is counted: two mints of the whole cap both pass. */
  lemma CapNotEnforcedAtTimeZero(cap: i128)
    requires cap > 0
    ensures var q := Request(0, cap, cap);
      RangeSum(Run([q, q]).history, 0) == 2 * cap
  {
    var q, e := Request(0, cap, cap), Entry(0, cap);
    var s0 := State([], []);
    var s1 := State([e], [e]);
    LiveSingle(e, 0);
    assert Enforce([], cap, cap, 0) == Ok([e]) by { assert [] + [e] == [e]; }
    assert Next(s0, q) == s1 by { assert [] + [e] == [e]; }
    assert Next(s1, q).history == [e, e];
    assert [q][..0] == [] && [q, q][..1] == [q];
    assert Run([q]) == s1;
    RangeSumAppend([], e, 0);
    RangeSumAppend([e], e, 0);
    assert [] + [e] == [e] && [e] + [e] == [e, e];
  }

  /** From now on `cap`, and no fallback, decides what is accepted: exactly the
      positive amounts for which the last 24 hours leave room under it. */
  ghost predicate CapDecides(s: State, limit: Option<i128>, cap: i128)
  {
    forall start: nat, last: nat, fallback: i128, amount: i128, now: u64 ::
      Sound(s, start, last) && 0 < start && last <= now ==>
        (Enforce(s.log, limit.GetOr(fallback), amount, now).Ok?
         <==> amount > 0 && WindowSum(s.history, now) + amount <= cap)
  }

  lemma LimitDecides(s: State, cap: i128)
    requires cap > 0
    ensures CapDecides(s, Some(cap), cap)
  {
    hide Enforce, Sound;
    forall start: nat, last: nat, fallback: i128, amount: i128, now: u64
      | Sound(s, start, last) && 0 < start && last <= now
      ensures Enforce(s.log, Some(cap).GetOr(fallback), amount, now).Ok?
         <==> amount > 0 && WindowSum(s.history, now) + amount <= cap
    {
      AcceptedIffRoom(s, Request(now, cap, amount), start, last);
    }
  }

  // ----- the contract -----

  class MintLimiter {
    var limit: Option<i128>
    var log: seq<Entry>
    /** Every accepted mint, oldest first. */
    ghost var history: seq<Entry>

    ghost predicate Valid(t: nat)
      reads this
    {
      Sound(State(log, history), 0, t)
    }

    constructor ()
      ensures Valid(0) && history == [] && limit == None
    {
      limit, log, history := None, [], [];
    }

    /** `set_limit`, after the admin check. */
    method SetLimit(isAdmin: bool, maxRollingAmount: i128) returns (r: Result<(), ContractError>)
      modifies this`limit
      ensures r == if !isAdmin then Err(NotAdmin)
                   else if maxRollingAmount <= 0 then Err(InvalidBridgeRateLimit) else Ok(())
      ensures limit == if r.Ok? then Some(maxRollingAmount) else old(limit)
      ensures r.Ok? ==> CapDecides(State(log, history), limit, maxRollingAmount)
    {
      if !isAdmin {
        return Err(NotAdmin);
      }
      if maxRollingAmount <= 0 {
        return Err(InvalidBridgeRateLimit);
      }
      limit := Some(maxRollingAmount);
      LimitDecides(State(log, history), maxRollingAmount);
      r := Ok(());
    }

    method EnforceAndRecord(amount: i128, fallbackCap: i128, now: u64, ghost last: nat)
      returns (r: Result<(), ContractError>)
      requires Valid(last) && last <= now
      modifies this`log, this`history
      ensures Valid(now)
      ensures var spec := Enforce(old(log), limit.GetOr(fallbackCap), amount, now);
        match spec
        case Ok(pruned) => r == Ok(()) && log == pruned && history == old(history) + [Entry(now, amount)]
        case Err(e) => r == Err(e) && log == old(log) && history == old(history)
    {
      ghost var q := Request(now, limit.GetOr(fallbackCap), amount);
      NextKeepsSound(State(log, history), q, 0, last);
      hide Sound;
      if amount <= 0 {
        return Err(BridgeInvalidAmount);
      }
      var cap := limit.GetOr(fallbackCap);
      if cap <= 0 {
        return Err(InvalidBridgeRateLimit);
      }
      var pruned, rollingTotal := Prune(now, last);
      if rollingTotal.None? || !FitsI128(rollingTotal.value + amount) {
        return Err(MathOverflow);
      }
      if rollingTotal.value + amount > cap {
        return Err(BridgeRateLimitExceeded);
      }
      log := pruned + [Entry(now, amount)];
      history := history + [Entry(now, amount)];
      r := Ok(());
    }

    /** The loop over the stored log: the entries to keep, and their checked sum. */
    method Prune(now: u64, ghost last: nat) returns (pruned: seq<Entry>, rollingTotal: Option<i128>)
      requires Valid(last)
      ensures rollingTotal.Some? ==> pruned == Live(log, now) && rollingTotal.value == Total(pruned)
      ensures rollingTotal.None? <==> Total(Live(log, now)) > I128_MAX
    {
      hide Agrees, Bounded, Live, Total;
      EmptyLog(log, now);
      var cutoff := SaturatingSub(now, WINDOW_SECONDS);
      pruned := [];
      var sum := 0;
      var i := 0;
      while i < |log|
        invariant 0 <= i <= |log|
        invariant pruned == Live(log[..i], now)
        invariant sum == Total(pruned) && FitsI128(sum)
      {
        var entry := log[i];
        LiveStep(log, i, now);
        PartialTotal(log, i + 1, now);
        if entry.timestamp > cutoff {
          TotalAppend(pruned, entry);
          if !FitsI128(sum + entry.amount) {
            return pruned, None;
          }
          sum := sum + entry.amount;
          pruned := pruned + [entry];
        }
        i := i + 1;
      }
      assert log[..|log|] == log;
      rollingTotal := Some(sum);
    }
  }

  lemma EmptyLog(log: seq<Entry>, now: nat)
    ensures Live(log[..0], now) == [] && Total([]) == 0
  {}

  lemma LiveStep(log: seq<Entry>, i: nat, now: nat)
    requires i < |log|
    ensures Live(log[..i + 1], now)
         == Live(log[..i], now) + (if log[i].timestamp > SaturatingSub(now, WINDOW_SECONDS) then [log[i]] else [])
  {
    assert log[..i + 1][..i] == log[..i];
  }

  lemma TotalAppend(log: seq<Entry>, e: Entry)
    ensures Total(log + [e]) == Total(log) + e.amount
  {
    assert (log + [e])[..|log|] == log;
  }

  /** Positive entries: a partial total never exceeds the whole. */
  lemma {:induction false} PartialTotal(log: seq<Entry>, i: nat, now: nat)
    requires AllPositive(log) && i <= |log|
    ensures 0 <= Total(Live(log[..i], now)) <= Total(Live(log, now))
    decreases |log|
  {
    if i == |log| {
      assert log[..i] == log;
      LivePositive(log, now);
    } else {
      var k := |log| - 1;
      assert log[k] in log && log[..k][..i] == log[..i];
      PartialTotal(log[..k], i, now);
      var live := Live(log[..k], now);
      assert (live + [log[k]])[..|live|] == live && live + [] == live;
    }
  }
}

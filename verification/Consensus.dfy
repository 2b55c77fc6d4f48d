/** Stake-weighted aggregation with duplicate compaction (src/consensus.rs). */
module Consensus {
  import opened Machine
  import opened Arithmetic

  datatype WeightedEntry = WeightedEntry(value: u64, weight: u64)

  // ----- what is summed -----

  ghost function TotalWeight(es: seq<WeightedEntry>): nat
  {
    if es == [] then 0 else TotalWeight(es[..|es| - 1]) + es[|es| - 1].weight
  }

  ghost function WeightedTotal(es: seq<WeightedEntry>): nat
  {
    if es == [] then 0
    else
      MulMono(0, es[|es| - 1].value, 0, es[|es| - 1].weight);
      WeightedTotal(es[..|es| - 1]) + es[|es| - 1].value * es[|es| - 1].weight
  }

  /** The weight all entries of one value have together. */
  ghost function WeightFor(es: seq<WeightedEntry>, value: u64): nat
  {
    if es == [] then 0
    else WeightFor(es[..|es| - 1], value) + (if es[|es| - 1].value == value then es[|es| - 1].weight else 0)
  }

  /** The distinct values in the order of their first occurrence. */
  ghost function FirstOccurrences(es: seq<WeightedEntry>): seq<u64>
  {
    if es == [] then []
    else
      var seen := FirstOccurrences(es[..|es| - 1]);
      if es[|es| - 1].value in seen then seen else seen + [es[|es| - 1].value]
  }

  ghost function Values(es: seq<WeightedEntry>): seq<u64> { seq(|es|, i requires 0 <= i < |es| => es[i].value) }

  ghost predicate Distinct(xs: seq<u64>)
  {
    forall i, j :: 0 <= i < j < |xs| ==> xs[i] != xs[j]
  }

  lemma {:induction false} FirstOccurrencesDistinct(es: seq<WeightedEntry>)
    ensures Distinct(FirstOccurrences(es))
    ensures forall v :: v in FirstOccurrences(es) <==> exists i :: 0 <= i < |es| && es[i].value == v
  {
    if es != [] {
      var k := |es| - 1;
      FirstOccurrencesDistinct(es[..k]);
      assert forall i :: 0 <= i < k ==> es[..k][i] == es[i];
    }
  }

  lemma Append(es: seq<WeightedEntry>, e: WeightedEntry)
    ensures TotalWeight(es + [e]) == TotalWeight(es) + e.weight
    ensures WeightedTotal(es + [e]) == WeightedTotal(es) + e.value * e.weight
    ensures forall v :: WeightFor(es + [e], v) == WeightFor(es, v) + (if e.value == v then e.weight else 0)
    ensures FirstOccurrences(es + [e])
         == if e.value in FirstOccurrences(es) then FirstOccurrences(es) else FirstOccurrences(es) + [e.value]
  {
    assert (es + [e])[..|es|] == es;
  }

  /** Adding weight `w` to row j, as merging a duplicate does. */
  function Merge(es: seq<WeightedEntry>, j: nat, w: nat): seq<WeightedEntry>
    requires j < |es| && FitsU64(es[j].weight + w)
  {
    es[j := WeightedEntry(es[j].value, es[j].weight + w)]
  }

  lemma MergeLastOrEarlier(es: seq<WeightedEntry>, j: nat, w: nat)
    requires j < |es| && FitsU64(es[j].weight + w)
    ensures var k := |es| - 1;
      && es == es[..k] + [es[k]]
      && Merge(es, j, w) == if j == k then es[..k] + [WeightedEntry(es[k].value, es[k].weight + w)]
                            else Merge(es[..k], j, w) + [es[k]]
  {}

  lemma {:induction false} MergeTotals(es: seq<WeightedEntry>, j: nat, w: nat)
    requires j < |es| && FitsU64(es[j].weight + w)
    ensures TotalWeight(Merge(es, j, w)) == TotalWeight(es) + w
    ensures WeightedTotal(Merge(es, j, w)) == WeightedTotal(es) + es[j].value * w
  {
    var k := |es| - 1;
    MergeLastOrEarlier(es, j, w);
    hide Merge, TotalWeight, WeightedTotal;
    if j == k {
      HeavierLast(es[..k], es[k], w);
    } else {
      MergeTotals(es[..k], j, w);
      SameLast(es[..k], Merge(es[..k], j, w), es[k]);
    }
  }

  lemma HeavierLast(init: seq<WeightedEntry>, e: WeightedEntry, w: nat)
    requires FitsU64(e.weight + w)
    ensures var heavier := WeightedEntry(e.value, e.weight + w);
      && TotalWeight(init + [heavier]) == TotalWeight(init + [e]) + w
      && WeightedTotal(init + [heavier]) == WeightedTotal(init + [e]) + e.value * w
  {
    Append(init, e);
    Append(init, WeightedEntry(e.value, e.weight + w));
    hide *;
    Distribute(e.value, e.weight, w);
  }

  lemma SameLast(x: seq<WeightedEntry>, y: seq<WeightedEntry>, e: WeightedEntry)
    ensures TotalWeight(y + [e]) - TotalWeight(x + [e]) == TotalWeight(y) - TotalWeight(x)
    ensures WeightedTotal(y + [e]) - WeightedTotal(x + [e]) == WeightedTotal(y) - WeightedTotal(x)
  {
    Append(x, e);
    Append(y, e);
    hide *;
  }

  lemma {:induction false} MergeWeightFor(es: seq<WeightedEntry>, j: nat, w: nat, v: u64)
    requires j < |es| && FitsU64(es[j].weight + w)
    ensures WeightFor(Merge(es, j, w), v) == WeightFor(es, v) + (if es[j].value == v then w else 0)
  {
    var k := |es| - 1;
    MergeLastOrEarlier(es, j, w);
    hide Merge, WeightFor;
    Append(es[..k], es[k]);
    if j == k {
      Append(es[..k], WeightedEntry(es[k].value, es[k].weight + w));
    } else {
      MergeWeightFor(es[..k], j, w, v);
      Append(Merge(es[..k], j, w), es[k]);
    }
  }

  lemma MergeRow(es: seq<WeightedEntry>, j: nat, w: nat)
    requires j < |es| && FitsU64(es[j].weight + w)
    ensures var merged := Merge(es, j, w);
      && TotalWeight(merged) == TotalWeight(es) + w
      && WeightedTotal(merged) == WeightedTotal(es) + es[j].value * w
      && (forall v :: WeightFor(merged, v) == WeightFor(es, v) + (if es[j].value == v then w else 0))
      && Values(merged) == Values(es)
  {
    MergeTotals(es, j, w);
    forall v ensures WeightFor(Merge(es, j, w), v) == WeightFor(es, v) + (if es[j].value == v then w else 0) {
      MergeWeightFor(es, j, w, v);
    }
  }

  lemma {:induction false} PrefixTotals(es: seq<WeightedEntry>, i: nat)
    requires i <= |es|
    ensures TotalWeight(es[..i]) <= TotalWeight(es) && WeightedTotal(es[..i]) <= WeightedTotal(es)
    ensures forall v :: WeightFor(es[..i], v) <= WeightFor(es, v)
    decreases |es| - i
  {
    if i == |es| {
      assert es[..i] == es;
    } else {
      assert es[..i + 1] == es[..i] + [es[i]];
      Append(es[..i], es[i]);
      MulMono(0, es[i].value, 0, es[i].weight);
      PrefixTotals(es, i + 1);
    }
  }

  lemma {:induction false} WeightForAtMostTotal(es: seq<WeightedEntry>, v: u64)
    ensures WeightFor(es, v) <= TotalWeight(es)
  {
    if es != [] { WeightForAtMostTotal(es[..|es| - 1], v); }
  }

  // ----- compaction -----

  ghost predicate IsCompaction(es: seq<WeightedEntry>, compacted: seq<WeightedEntry>)
  {
    && Values(compacted) == FirstOccurrences(es)
    && (forall v :: WeightFor(compacted, v) == WeightFor(es, v))
    && TotalWeight(compacted) == TotalWeight(es)
    && WeightedTotal(compacted) == WeightedTotal(es)
  }

  /** With distinct values, a row's weight is all the weight of its value. */
  lemma {:induction false} RowIsAllWeight(c: seq<WeightedEntry>, j: nat)
    requires Distinct(Values(c)) && j < |c|
    ensures WeightFor(c, c[j].value) == c[j].weight
  {
    var k := |c| - 1;
    assert Distinct(Values(c[..k])) by {
      forall x, y | 0 <= x < y < k ensures Values(c[..k])[x] != Values(c[..k])[y] {
        assert Values(c)[x] != Values(c)[y];
      }
    }
    if j < k {
      RowIsAllWeight(c[..k], j);
      assert Values(c)[j] != Values(c)[k];
    } else {
      AbsentHasNoWeight(c[..k], c[k].value, c);
    }
  }

  lemma {:induction false} AbsentHasNoWeight(init: seq<WeightedEntry>, v: u64, c: seq<WeightedEntry>)
    requires |init| < |c| && init == c[..|init|] && v == c[|c| - 1].value && Distinct(Values(c))
    ensures WeightFor(init, v) == 0
  {
    if init != [] {
      var k := |init| - 1;
      assert Values(c)[k] != Values(c)[|c| - 1];
      AbsentHasNoWeight(init[..k], v, c);
    }
  }

  /** One entry folded in: merged into the row of its value, or appended. */
  lemma CompactionStep(es: seq<WeightedEntry>, e: WeightedEntry, c: seq<WeightedEntry>, row: Option<nat>)
    requires IsCompaction(es, c)
    requires match row
      case Some(j) => j < |c| && c[j].value == e.value && FitsU64(c[j].weight + e.weight)
      case None => e.value !in Values(c)
    ensures IsCompaction(es + [e], match row
      case Some(j) => Merge(c, j, e.weight)
      case None => c + [e])
  {
    Append(es, e);
    match row
    case Some(j) =>
      assert Values(c)[j] == e.value;
      MergeRow(c, j, e.weight);
    case None =>
      Append(c, e);
      assert Values(c + [e]) == Values(c) + [e.value];
  }

  /** `compact_duplicate_price_rows`: fails exactly when the weights of some one
      value together exceed 64 bits. */
  method CompactDuplicatePriceRows(entries: seq<WeightedEntry>)
    returns (r: Result<seq<WeightedEntry>, ContractError>)
    ensures r.Ok? ==> IsCompaction(entries, r.value) && Distinct(Values(r.value))
    ensures r.Ok? <==> forall v :: WeightFor(entries, v) <= U64_MAX
    ensures r.Err? ==> r.error == MathOverflow
  {
    hide IsCompaction, WeightFor, TotalWeight, WeightedTotal, FirstOccurrences;
    var compacted: seq<WeightedEntry> := [];
    EmptyCompaction(entries);
    for i := 0 to |entries|
      invariant IsCompaction(entries[..i], compacted)
      invariant forall v :: WeightFor(compacted, v) <= U64_MAX
    {
      var entry := entries[i];
      assert entries[..i + 1] == entries[..i] + [entry];
      CompactionFacts(entries[..i], compacted);
      WeightSeenSoFar(entries, i + 1, entry, compacted);
      var found := false;
      ghost var before := compacted;
      for j := 0 to |compacted|
        invariant !found && compacted == before
        invariant forall k :: 0 <= k < j ==> compacted[k].value != entry.value
      {
        var existing := compacted[j];
        if existing.value == entry.value {
          RowIsAllWeight(compacted, j);
          if !FitsU64(existing.weight + entry.weight) {
            assert WeightFor(entries, entry.value) > U64_MAX;
            return Err(MathOverflow);
          }
          CompactionStep(entries[..i], entry, compacted, Some(j));
          MergeRow(compacted, j, entry.weight);
          compacted := compacted[j := WeightedEntry(existing.value, existing.weight + entry.weight)];
          found := true;
          break;
        }
      }
      if !found {
        assert entry.value !in Values(compacted);
        CompactionStep(entries[..i], entry, compacted, None);
        AbsentWeight(compacted, entry.value);
        Append(compacted, entry);
        compacted := compacted + [entry];
      }
    }
    assert entries[..|entries|] == entries;
    CompactionFacts(entries, compacted);
    r := Ok(compacted);
  }

  lemma EmptyCompaction(es: seq<WeightedEntry>)
    ensures IsCompaction(es[..0], []) && forall v :: WeightFor([], v) == 0
  {}

  lemma CompactionFacts(es: seq<WeightedEntry>, c: seq<WeightedEntry>)
    requires IsCompaction(es, c)
    ensures Distinct(Values(c)) && forall v :: WeightFor(c, v) == WeightFor(es, v)
  {
    FirstOccurrencesDistinct(es);
  }

  lemma WeightSeenSoFar(entries: seq<WeightedEntry>, i: nat, e: WeightedEntry, c: seq<WeightedEntry>)
    requires 0 < i <= |entries| && e == entries[i - 1] && IsCompaction(entries[..i - 1], c)
    ensures WeightFor(entries, e.value) >= WeightFor(c, e.value) + e.weight
  {
    assert entries[..i] == entries[..i - 1] + [e];
    Append(entries[..i - 1], e);
    PrefixTotals(entries, i);
  }

  lemma {:induction false} AbsentWeight(c: seq<WeightedEntry>, v: u64)
    requires v !in Values(c)
    ensures WeightFor(c, v) == 0
  {
    if c != [] {
      var k := |c| - 1;
      assert Values(c)[k] == c[k].value;
      forall x | x in Values(c[..k]) ensures x in Values(c) {
        var i :| 0 <= i < k && Values(c[..k])[i] == x;
        assert Values(c)[i] == x;
      }
      AbsentWeight(c[..k], v);
    }
  }

  // ----- weighted sum and average -----

  /** `compute_weighted_sum`: succeeds exactly when the plain sums over the
      entries as submitted fit 64 bits, and returns them. */
  method ComputeWeightedSum(entries: seq<WeightedEntry>) returns (r: Result<(u64, u64), ContractError>)
    ensures r.Ok? <==> WeightedTotal(entries) <= U64_MAX && TotalWeight(entries) <= U64_MAX
    ensures r == if WeightedTotal(entries) <= U64_MAX && TotalWeight(entries) <= U64_MAX
                 then Ok((WeightedTotal(entries), TotalWeight(entries))) else Err(MathOverflow)
  {
    hide WeightFor, TotalWeight, WeightedTotal, IsCompaction;
    forall v ensures WeightFor(entries, v) <= TotalWeight(entries) { WeightForAtMostTotal(entries, v); }
    var compacted :- CompactDuplicatePriceRows(entries);
    SameTotals(entries, compacted);
    var weightedSum, totalWeight := 0, 0;
    EmptyTotals();
    for i := 0 to |compacted|
      invariant weightedSum == WeightedTotal(compacted[..i]) <= U64_MAX
      invariant totalWeight == TotalWeight(compacted[..i]) <= U64_MAX
    {
      var entry := compacted[i];
      assert compacted[..i + 1] == compacted[..i] + [entry];
      Append(compacted[..i], entry);
      PrefixTotals(compacted, i + 1);
      MulMono(0, entry.value, 0, entry.weight);
      if !FitsU64(entry.value * entry.weight) {
        return Err(MathOverflow);
      }
      if !FitsU64(weightedSum + entry.value * entry.weight) {
        return Err(MathOverflow);
      }
      weightedSum := weightedSum + entry.value * entry.weight;
      if !FitsU64(totalWeight + entry.weight) {
        return Err(MathOverflow);
      }
      totalWeight := totalWeight + entry.weight;
    }
    assert compacted[..|compacted|] == compacted;
    r := Ok((weightedSum, totalWeight));
  }

  lemma SameTotals(es: seq<WeightedEntry>, c: seq<WeightedEntry>)
    requires IsCompaction(es, c)
    ensures TotalWeight(c) == TotalWeight(es) && WeightedTotal(c) == WeightedTotal(es)
  {}

  lemma EmptyTotals()
    ensures TotalWeight([]) == 0 && WeightedTotal([]) == 0
  {}

  lemma {:induction false} WeightedTotalBounds(es: seq<WeightedEntry>, lo: nat, hi: nat)
    requires forall i :: 0 <= i < |es| && es[i].weight > 0 ==> lo <= es[i].value <= hi
    ensures lo * TotalWeight(es) <= WeightedTotal(es) <= hi * TotalWeight(es)
  {
    if es != [] {
      var k := |es| - 1;
      WeightedTotalBounds(es[..k], lo, hi);
      var (t, w) := (TotalWeight(es[..k]), es[k].weight);
      Distribute(lo, t, w);
      Distribute(hi, t, w);
      if w > 0 {
        MulMono(lo, es[k].value, w, w);
        MulMono(es[k].value, hi, w, w);
      }
    }
  }

  /** `compute_weighted_average`: 0 without weight; otherwise the floor of the
      quotient of the plain sums, which lies within any bounds that hold for the
      positively weighted values. */
  method ComputeWeightedAverage(entries: seq<WeightedEntry>) returns (r: Result<u64, ContractError>)
    ensures r.Ok? <==> WeightedTotal(entries) <= U64_MAX && TotalWeight(entries) <= U64_MAX
    ensures r.Ok? ==> r.value == if TotalWeight(entries) == 0 then 0 else WeightedTotal(entries) / TotalWeight(entries)
    ensures r.Err? ==> r.error == MathOverflow
    ensures r.Ok? && TotalWeight(entries) > 0 ==>
      forall lo: nat, hi: nat :: WithinBounds(entries, lo, hi) ==> lo <= r.value <= hi
  {
    hide WeightedTotal, TotalWeight, WithinBounds;
    var sums :- ComputeWeightedSum(entries);
    if sums.1 == 0 {
      return Ok(0);
    }
    QuotientAtMost(sums.0, sums.1);
    r := Ok(sums.0 / sums.1);
    forall lo: nat, hi: nat | WithinBounds(entries, lo, hi) ensures lo <= sums.0 / sums.1 <= hi {
      AverageBounds(entries, lo, hi);
    }
  }

  ghost predicate WithinBounds(es: seq<WeightedEntry>, lo: nat, hi: nat)
  {
    forall i :: 0 <= i < |es| && es[i].weight > 0 ==> lo <= es[i].value <= hi
  }

  lemma AverageBounds(es: seq<WeightedEntry>, lo: nat, hi: nat)
    requires TotalWeight(es) > 0 && WithinBounds(es, lo, hi)
    ensures lo <= WeightedTotal(es) / TotalWeight(es) <= hi
  {
    WeightedTotalBounds(es, lo, hi);
    var (s, t) := (WeightedTotal(es), TotalWeight(es));
    hide WeightedTotal, TotalWeight;
    DivFloor(s, t);
    CancelFactor(t, s / t, hi);
    if s / t < lo {
      MulLe(s / t + 1, lo, t);
      Distribute(t, s / t, 1);
    }
  }

  // ----- validator lookup -----

  const MAX_VALIDATORS: nat := 16

  ghost predicate Ascending(ids: seq<u32>)
  {
    forall i, j :: 0 <= i < j < |ids| ==> ids[i] < ids[j]
  }

  /** `binary_search_validator`: the place of an id, or the place where it belongs. */
  method BinarySearchValidator(validators: array<u32>, id: u32, len: nat) returns (r: Result<nat, nat>)
    requires validators.Length == MAX_VALIDATORS && len <= MAX_VALIDATORS && Ascending(validators[..len])
    ensures r.Ok? <==> id in validators[..len]
    ensures r.Ok? ==> r.value < len && validators[r.value] == id
    ensures r.Err? ==> r.error <= len && Ascending(validators[..r.error] + [id] + validators[r.error..len])
  {
    var low, high := 0, len;
    while low < high
      invariant low <= high <= len
      invariant forall i :: 0 <= i < low ==> validators[i] < id
      invariant forall i :: high <= i < len ==> validators[i] > id
    {
      var mid := low + (high - low) / 2;
      if validators[mid] == id {
        return Ok(mid);
      } else if validators[mid] < id {
        assert forall i :: 0 <= i < mid ==> validators[..len][i] < validators[..len][mid];
        low := mid + 1;
      } else {
        assert forall i :: mid < i < len ==> validators[..len][mid] < validators[..len][i];
        high := mid;
      }
    }
    Inserted(validators[..len], id, low);
    assert validators[..low] == validators[..len][..low] && validators[low..len] == validators[..len][low..];
    r := Err(low);
  }

  lemma Inserted(ids: seq<u32>, id: u32, k: nat)
    requires Ascending(ids) && k <= |ids|
    requires (forall i :: 0 <= i < k ==> ids[i] < id) && forall i :: k <= i < |ids| ==> ids[i] > id
    ensures Ascending(ids[..k] + [id] + ids[k..])
  {
    var all := ids[..k] + [id] + ids[k..];
    assert forall i :: 0 <= i < k ==> all[i] == ids[i];
    assert forall i :: k < i < |all| ==> all[i] == ids[i - 1];
  }

  // ----- sequence numbers -----

  /** The accepted sequence numbers of one asset: the last is active, the one before
      it archived. */
  class SequenceTracker {
    var active: Option<u32>
    var archived: Option<u32>
    /** Every sequence number ever accepted, oldest first. */
    ghost var accepted: seq<u32>

    ghost predicate Valid()
      reads this
    {
      var n := |accepted|;
      && Ascending(accepted)
      && active == (if n == 0 then None else Some(accepted[n - 1]))
      && archived == (if n <= 1 then None else Some(accepted[n - 2]))
    }

    constructor ()
      ensures Valid() && accepted == []
    {
      active, archived, accepted := None, None, [];
    }

    /** `verify_and_update_sequence`: over every run a number is accepted exactly when
        it is above all numbers ever accepted. */
    method VerifyAndUpdate(incoming: u32) returns (ok: bool)
      requires Valid()
      modifies this
      ensures Valid() && accepted == if ok then old(accepted) + [incoming] else old(accepted)
      ensures ok <==> forall x :: x in old(accepted) ==> x < incoming
    {
      if active.Some? {
        if incoming <= active.value {
          assert active.value in accepted;
          return false;
        }
        archived := active;
      }
      active := Some(incoming);
      accepted := accepted + [incoming];
      ok := true;
    }
  }
}

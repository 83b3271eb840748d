/**
 * Splitting a depth-first search by starts: round-robin shares, quotas of a
 * round, and what the workers' logs add up to.
 */
module DfsShares {
  import opened Enumeration
  import opened Orders

  // ---------------------------------------------------------------------------
  // Quotas.

  /** The share of `remaining` paths that the active worker number `index` may find. */
  function Quota(remaining: nat, active: nat, index: nat): nat
    requires active >= 1
  {
    remaining / active + if index < remaining % active then 1 else 0
  }

  function QuotaSum(remaining: nat, active: nat, n: nat): nat
    requires active >= 1
  {
    if n == 0 then 0 else QuotaSum(remaining, active, n - 1) + Quota(remaining, active, n - 1)
  }

  lemma {:induction false} QuotaSumIs(remaining: nat, active: nat, n: nat)
    requires active >= 1
    ensures QuotaSum(remaining, active, n) ==
            n * (remaining / active) + if n < remaining % active then n else remaining % active
  {
    if n > 0 {
      QuotaSumIs(remaining, active, n - 1);
    }
  }

  lemma QuotaSumNone(remaining: nat, active: nat)
    requires active >= 1
    ensures QuotaSum(remaining, active, 0) == 0
  {
  }

  lemma QuotaNext(remaining: nat, active: nat, index: nat)
    requires active >= 1
    ensures QuotaSum(remaining, active, index + 1) == QuotaSum(remaining, active, index) +
            Quota(remaining, active, index)
  {
  }

  /** The quotas of a round add up to what remains, and the first worker may always move. */
  lemma QuotasShareOut(remaining: nat, active: nat)
    requires active >= 1
    ensures QuotaSum(remaining, active, active) == remaining
    ensures remaining >= 1 ==> Quota(remaining, active, 0) >= 1
  {
    QuotaSumIs(remaining, active, active);
    assert remaining == active * (remaining / active) + remaining % active;
    if remaining >= 1 && remaining / active == 0 {
      assert remaining % active == remaining;
    }
  }

  lemma {:induction false} QuotaSumGrows(remaining: nat, active: nat, m: nat, n: nat)
    requires active >= 1 && m <= n
    ensures QuotaSum(remaining, active, m) <= QuotaSum(remaining, active, n)
    decreases n
  {
    if m < n {
      QuotaSumGrows(remaining, active, m, n - 1);
    }
  }

  // ---------------------------------------------------------------------------
  // Counting active workers.

  function CountTrue(flags: seq<bool>): nat {
    if flags == [] then 0 else CountTrue(flags[..|flags| - 1]) + if flags[|flags| - 1] then 1 else 0
  }

  lemma CountTrueNone(flags: seq<bool>)
    ensures CountTrue(flags[..0]) == 0
  {
  }

  lemma CountTrueNext(flags: seq<bool>, i: nat)
    requires i < |flags|
    ensures CountTrue(flags[..i + 1]) == CountTrue(flags[..i]) + if flags[i] then 1 else 0
  {
    assert flags[..i + 1][..i] == flags[..i];
  }

  lemma {:induction false} CountTrueGrows(flags: seq<bool>, i: nat, j: nat)
    requires i <= j <= |flags|
    ensures CountTrue(flags[..i]) <= CountTrue(flags[..j])
    decreases j
  {
    if i < j {
      CountTrueNext(flags, j - 1);
      CountTrueGrows(flags, i, j - 1);
    }
  }

  // ---------------------------------------------------------------------------
  // Logs of several workers.

  ghost function Flatten<T>(logs: seq<seq<T>>): seq<T> {
    if logs == [] then [] else logs[0] + Flatten(logs[1..])
  }

  lemma FlattenNothing<T>()
    ensures Flatten<T>([]) == []
  {
  }

  lemma {:induction false} FlattenMore<T>(logs: seq<seq<T>>, log: seq<T>)
    ensures Flatten(logs + [log]) == Flatten(logs) + log
  {
    if logs == [] {
      assert (logs + [log])[1..] == [];
      assert logs + [log] == [log];
    } else {
      assert (logs + [log])[1..] == logs[1..] + [log];
      FlattenMore(logs[1..], log);
      assert logs[0] + (Flatten(logs[1..]) + log) == logs[0] + Flatten(logs[1..]) + log;
    }
  }

  /** All events of all workers, as a multiset. */
  ghost function Gather<T>(logs: seq<seq<T>>): multiset<T> {
    if logs == [] then multiset{} else multiset(logs[0]) + Gather(logs[1..])
  }

  /** Nothing found by any of `n` workers. */
  ghost function Nothings(n: nat): (r: seq<seq<Walk>>)
    ensures |r| == n && forall i :: 0 <= i < n ==> r[i] == []
  {
    seq(n, i => [])
  }

  lemma {:induction false} NothingsGathered(n: nat)
    ensures Gather(Nothings(n)) == multiset{}
  {
    if n > 0 {
      NothingsGathered(n - 1);
      assert Nothings(n)[1..] == Nothings(n - 1);
    }
  }

  lemma {:induction false} FlattenGathers<T>(logs: seq<seq<T>>)
    ensures multiset(Flatten(logs)) == Gather(logs)
  {
    if logs != [] {
      FlattenGathers(logs[1..]);
    }
  }

  lemma {:induction false} FlattenNoFault(logs: seq<seq<Event>>)
    requires forall i :: 0 <= i < |logs| ==> NoFault(logs[i])
    ensures NoFault(Flatten(logs))
  {
    if logs != [] {
      FlattenNoFault(logs[1..]);
    }
  }

  lemma {:induction false} GatherUpdate<T>(logs: seq<seq<T>>, i: nat, more: seq<T>)
    requires i < |logs|
    ensures Gather(logs[i := logs[i] + more]) == Gather(logs) + multiset(more)
  {
    if i > 0 {
      assert logs[i := logs[i] + more][1..] == logs[1..][i - 1 := logs[1..][i - 1] + more];
      GatherUpdate(logs[1..], i - 1, more);
    } else {
      assert logs[i := logs[i] + more][1..] == logs[1..];
    }
  }

  lemma {:induction false} GatherPrefix<T>(logs: seq<seq<T>>, fulls: seq<seq<T>>)
    requires |logs| == |fulls| && forall i :: 0 <= i < |logs| ==> logs[i] <= fulls[i]
    ensures Gather(logs) <= Gather(fulls)
  {
    if logs != [] {
      assert fulls[0] == logs[0] + fulls[0][|logs[0]|..];
      GatherPrefix(logs[1..], fulls[1..]);
    }
  }

  /** What every worker has found. */
  ghost function FinishedEach(logs: seq<seq<Event>>): (r: seq<seq<Walk>>)
    ensures |r| == |logs|
    ensures forall i :: 0 <= i < |logs| ==> r[i] == Finished(logs[i])
  {
    if logs == [] then [] else [Finished(logs[0])] + FinishedEach(logs[1..])
  }

  lemma {:induction false} GatherFinished(logs: seq<seq<Event>>, w: Walk)
    ensures Gather(FinishedEach(logs))[w] == Gather(logs)[Finish(w)]
  {
    if logs != [] {
      GatherFinished(logs[1..], w);
      FinishedMultiplicity(logs[0], w);
      assert FinishedEach(logs)[1..] == FinishedEach(logs[1..]);
    }
  }

  // ---------------------------------------------------------------------------
  // Round-robin shares of the starts.

  ghost function Traces(p: Problem, shares: seq<seq<nat>>): (r: seq<seq<Event>>)
    ensures |r| == |shares|
    ensures forall i :: 0 <= i < |shares| ==> r[i] == DfsTrace(p, shares[i])
  {
    if shares == [] then [] else [DfsTrace(p, shares[0])] + Traces(p, shares[1..])
  }

  lemma {:induction false} DfsTraceMore(p: Problem, starts: seq<nat>, k: nat)
    ensures DfsTrace(p, starts + [k]) == DfsTrace(p, starts) + StartTrace(p, k)
  {
    if starts == [] {
      assert ([k])[1..] == [];
      assert starts + [k] == [k];
      assert StartTrace(p, k) + [] == [] + StartTrace(p, k);
    } else {
      assert (starts + [k])[1..] == starts[1..] + [k];
      DfsTraceMore(p, starts[1..], k);
      assert StartTrace(p, starts[0]) + (DfsTrace(p, starts[1..]) + StartTrace(p, k)) ==
             StartTrace(p, starts[0]) + DfsTrace(p, starts[1..]) + StartTrace(p, k);
    }
  }

  lemma TracesUpdate(p: Problem, shares: seq<seq<nat>>, i: nat, k: nat)
    requires i < |shares|
    ensures Gather(Traces(p, shares[i := shares[i] + [k]])) == Gather(Traces(p, shares)) + multiset(StartTrace(p, k))
  {
    DfsTraceMore(p, shares[i], k);
    var before := Traces(p, shares);
    assert Traces(p, shares[i := shares[i] + [k]]) == before[i := before[i] + StartTrace(p, k)];
    GatherUpdate(before, i, StartTrace(p, k));
  }

  lemma {:induction false} NoTraces(p: Problem, shares: seq<seq<nat>>)
    requires forall i :: 0 <= i < |shares| ==> shares[i] == []
    ensures Gather(Traces(p, shares)) == multiset{}
  {
    if shares != [] {
      NoTraces(p, shares[1..]);
      assert Traces(p, shares)[1..] == Traces(p, shares[1..]);
    }
  }

  lemma DealNext(p: Problem, starts: seq<nat>, shares: seq<seq<nat>>, i: nat, worker: nat)
    requires i < |starts| && worker < |shares|
    requires Gather(Traces(p, shares)) == multiset(DfsTrace(p, starts[..i]))
    ensures Gather(Traces(p, shares[worker := shares[worker] + [starts[i]]])) ==
            multiset(DfsTrace(p, starts[..i + 1]))
  {
    hide Gather, Traces, DfsTrace, StartTrace;
    TracesUpdate(p, shares, worker, starts[i]);
    DfsTraceMore(p, starts[..i], starts[i]);
    assert starts[..i] + [starts[i]] == starts[..i + 1];
    var before, one := DfsTrace(p, starts[..i]), StartTrace(p, starts[i]);
    assert multiset(before + one) == multiset(before) + multiset(one);
  }

  lemma ModBound(i: nat, count: nat)
    requires count >= 1
    ensures 0 <= i % count < count
  {
  }

  /** The starts of worker `w` when `count` workers are dealt start after start in turn. */
  ghost function Dealt(starts: seq<nat>, count: nat, w: nat): seq<nat>
    requires count >= 1
  {
    if starts == [] then [] else
    var last := |starts| - 1;
    Dealt(starts[..last], count, w) + if last % count == w then [starts[last]] else []
  }

  ghost predicate AllDealt(starts: seq<nat>, count: nat, shares: seq<seq<nat>>)
    requires count >= 1
  {
    |shares| == count && forall w :: 0 <= w < count ==> shares[w] == Dealt(starts, count, w)
  }

  lemma DealOne(starts: seq<nat>, count: nat, shares: seq<seq<nat>>, i: nat)
    requires count >= 1 && i < |starts| && i % count < count && AllDealt(starts[..i], count, shares)
    ensures AllDealt(starts[..i + 1], count, shares[i % count := shares[i % count] + [starts[i]]])
  {
    assert starts[..i + 1][..i] == starts[..i];
  }

  /**
   * Deals the starts to `count` workers in turn: start `i` goes to worker `i % count`, and
   * together the shares do everything once.
   */
  method RoundRobin(p: Problem, starts: seq<nat>, count: nat) returns (shares: seq<seq<nat>>)
    requires count >= 1
    ensures AllDealt(starts, count, shares)
    ensures Gather(Traces(p, shares)) == multiset(DfsTrace(p, starts))
  {
    shares := seq(count, _ => []);
    NoTraces(p, shares);
    assert starts[..0] == [];
    for i := 0 to |starts|
      invariant AllDealt(starts[..i], count, shares)
      invariant Gather(Traces(p, shares)) == multiset(DfsTrace(p, starts[..i]))
    {
      hide Gather, Traces, DfsTrace, Dealt;
      ModBound(i, count);
      var worker := i % count;
      DealNext(p, starts, shares, i, worker);
      DealOne(starts, count, shares, i);
      shares := shares[worker := shares[worker] + [starts[i]]];
    }
    assert starts[..|starts|] == starts;
  }

  lemma {:induction false} NoneTrue(flags: seq<bool>, i: nat)
    requires CountTrue(flags) == 0 && i < |flags|
    ensures !flags[i]
  {
    if i < |flags| - 1 {
      NoneTrue(flags[..|flags| - 1], i);
    }
  }

  lemma {:induction false} NothingGathered(logs: seq<seq<Event>>)
    requires forall i :: 0 <= i < |logs| ==> logs[i] == []
    ensures Gather(FinishedEach(logs)) == multiset{} && Flatten(logs) == []
  {
    if logs != [] {
      NothingGathered(logs[1..]);
      assert FinishedEach(logs)[1..] == FinishedEach(logs[1..]);
      assert FinishedEach(logs)[0] == [];
    }
  }

  lemma {:induction false} GatherMember<T>(logs: seq<seq<T>>, i: nat, x: T)
    requires i < |logs| && x in logs[i]
    ensures x in Gather(logs)
  {
    if i > 0 {
      GatherMember(logs[1..], i - 1, x);
    }
  }

  lemma SubsetSize<T>(a: multiset<T>, b: multiset<T>)
    requires a <= b
    ensures |a| <= |b|
  {
    assert b == a + (b - a);
  }
}

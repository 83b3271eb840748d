/**
 * Parallel depth-first search: every worker is a serial cursor over its share of
 * the starts, and each round lets the active workers find a quota of paths.
 * Workers share no state, so a round is a sequence of independent advances, in any
 * order, whose results are collected in worker order.
 */
module ParallelDepthFirst {
  import opened Wrappers
  import opened Sequences
  import opened Enumeration
  import opened Limits
  import opened Orders
  import opened Stats
  import opened Arena
  import opened Cursors
  import opened DfsShares

  lemma {:induction false} PathsOfConcat(a: seq<Walk>, b: seq<Walk>, intermediateStates: bool)
    ensures PathsOf(a + b, intermediateStates) == PathsOf(a, intermediateStates) + PathsOf(b, intermediateStates)
  {
    if a == [] {
      assert a + b == b;
    } else {
      assert (a + b)[1..] == a[1..] + b;
      PathsOfConcat(a[1..], b, intermediateStates);
    }
  }

  lemma {:induction false} FinishedEachUpdate(logs: seq<seq<Event>>, i: nat, log: seq<Event>)
    requires i < |logs|
    ensures FinishedEach(logs[i := log]) == FinishedEach(logs)[i := Finished(log)]
  {
    if i > 0 {
      assert logs[i := log][1..] == logs[1..][i - 1 := log];
      FinishedEachUpdate(logs[1..], i - 1, log);
    } else {
      assert logs[i := log][1..] == logs[1..];
    }
  }

  /** A worker that found `gained` adds exactly that to what all workers have found. */
  lemma WorkerFinds(logs: seq<seq<Event>>, i: nat, log: seq<Event>, gained: seq<Walk>)
    requires i < |logs| && Finished(log) == Finished(logs[i]) + gained
    ensures Gather(FinishedEach(logs[i := log])) == Gather(FinishedEach(logs)) + multiset(gained)
  {
    FinishedEachUpdate(logs, i, log);
    GatherUpdate(FinishedEach(logs), i, gained);
  }

  lemma GainMore(gains: seq<seq<Walk>>, i: nat, more: seq<Walk>, before: multiset<Walk>)
    requires i < |gains| && gains[i] == []
    ensures before + Gather(gains[i := more]) == before + Gather(gains) + multiset(more)
  {
    GatherUpdate(gains, i, more);
    assert gains[i] + more == more;
  }

  lemma FirstLogs(logs: seq<seq<Event>>, i: nat)
    requires i < |logs|
    ensures logs[..i] + [logs[i]] == logs[..i + 1]
  {
  }

  lemma StatsJoin(a: seq<Event>, b: seq<Event>)
    ensures StatsOf(a + b, a + b) == Merge(StatsOf(a, a), StatsOf(b, b))
  {
    hide Count, Deepest;
    CountConcat(a, b, IsBegin);
    CountConcat(a, b, IsAccepted);
    CountConcat(a, b, IsEvaluated);
    CountConcat(a, b, IsRefuse);
    CountConcat(a, b, IsSkip);
    CountConcat(a, b, IsFinish);
    DeepestConcat(a, b);
  }

  lemma {:induction false} EvaluatedGrows(a: seq<Event>, b: seq<Event>)
    requires a <= b
    ensures Count(a, IsEvaluated) <= Count(b, IsEvaluated)
  {
    assert b == a + b[|a|..];
    CountConcat(a, b[|a|..], IsEvaluated);
  }

  lemma EvaluatedMonotone(a: seq<Event>, m: nat, b: seq<Event>, n: nat)
    requires a <= b && m == StatsOf(a, a).evaluatedEdges && n == StatsOf(b, b).evaluatedEdges
    ensures m <= n
  {
    EvaluatedGrows(a, b);
  }

  lemma NoPaths(intermediateStates: bool)
    ensures PathsOf([], intermediateStates) == []
  {
  }

  lemma BareJoin(a: SearchStats, b: SearchStats)
    ensures Bare(Merge(a, b)) == Merge(Bare(a), Bare(b))
  {
  }

  lemma StatsPermute(a: seq<Event>, b: seq<Event>)
    requires multiset(a) == multiset(b)
    ensures StatsOf(a, a) == StatsOf(b, b)
  {
    CountPermute(a, b, IsBegin);
    CountPermute(a, b, IsAccepted);
    CountPermute(a, b, IsEvaluated);
    CountPermute(a, b, IsRefuse);
    CountPermute(a, b, IsSkip);
    CountPermute(a, b, IsFinish);
  }

  lemma FaultlessPermute(a: seq<Event>, b: seq<Event>)
    requires multiset(a) == multiset(b) && NoFault(a)
    ensures NoFault(b)
  {
    forall e | e in b
      ensures !IsFault(e)
    {
      assert e in multiset(b);
    }
  }

  /** All deliveries of the whole search. */
  ghost function Total(p: Problem, plan: seq<nat>): multiset<Walk> {
    multiset(Finished(DfsTrace(p, plan)))
  }

  lemma GatherTotal(p: Problem, plan: seq<nat>, shares: seq<seq<nat>>)
    requires Gather(Traces(p, shares)) == multiset(DfsTrace(p, plan))
    ensures Gather(FinishedEach(Traces(p, shares))) == Total(p, plan)
  {
    forall w
      ensures Gather(FinishedEach(Traces(p, shares)))[w] == Total(p, plan)[w]
    {
      GatherFinished(Traces(p, shares), w);
      FinishedMultiplicity(DfsTrace(p, plan), w);
    }
  }

  ghost function Empties(n: nat): (logs: seq<seq<Event>>)
    ensures |logs| == n && forall i :: 0 <= i < n ==> logs[i] == []
  {
    if n == 0 then [] else Empties(n - 1) + [[]]
  }

  lemma NothingDelivered(p: Problem, plan: seq<nat>, logs: seq<seq<Event>>)
    requires forall i :: 0 <= i < |logs| ==> logs[i] == []
    ensures Gather(FinishedEach(logs)) == multiset{} <= Total(p, plan)
    ensures Bare(ZERO) == StatsOf(Flatten(logs), Flatten(logs)) && NoFault(Flatten(logs))
  {
    NothingGathered(logs);
    NothingYet();
  }

  /** `w` searches `share` without a limit of its own and has got as far as `log`, all of it counted as parallel. */
  ghost predicate Serves(w: Cursor, p: Problem, share: seq<nat>, intermediateStates: bool, log: seq<Event>)
    reads w
  {
    && w.Valid() && !w.aborted && w.p == p && w.strategy.DepthFirst? && w.maxPaths == None
    && w.intermediateStates == intermediateStates && w.plan == share && log == w.log
    && w.stats.parallelEdges == w.stats.evaluatedEdges
  }

  /** One serial cursor per share. */
  method Hire(p: Problem, shares: seq<seq<nat>>, intermediateStates: bool, dense: bool, quantum: nat)
    returns (workers: seq<Cursor>)
    requires p.maxVisits >= 1 && quantum >= 1
    ensures |workers| == |shares|
    ensures forall i, j :: 0 <= i < j < |workers| ==> workers[i] != workers[j]
    ensures forall i :: 0 <= i < |workers| ==>
              fresh(workers[i]) && Serves(workers[i], p, shares[i], intermediateStates, [])
  {
    hide Cursor.Valid;
    workers := [];
    for i := 0 to |shares|
      invariant |workers| == i
      invariant forall j, k :: 0 <= j < k < i ==> workers[j] != workers[k]
      invariant forall j :: 0 <= j < i ==>
                  fresh(workers[j]) && Serves(workers[j], p, shares[j], intermediateStates, [])
    {
      var w := new Cursor(p, DepthFirst, shares[i], None, intermediateStates, dense, quantum);
      workers := workers + [w];
    }
  }

  class ParallelDfs {
    const p: Problem
    const maxPaths: Option<nat>
    const intermediateStates: bool
    var workers: seq<Cursor>
    var emitted: nat
    var stats: SearchStats
    ghost const plan: seq<nat>
    ghost const shares: seq<seq<nat>>
    /** Every worker's log. */
    ghost var logs: seq<seq<Event>>
    ghost var delivered: seq<Walk>
    ghost var aborted: bool

    ghost predicate WorkerOk(i: nat)
      requires i < |workers| == |shares| && |logs| == |shares|
      reads this, workers
    {
      Serves(workers[i], p, shares[i], intermediateStates, logs[i])
    }

    ghost predicate WorkersOk()
      reads this, workers
    {
      && |workers| == |shares| == |logs| && |workers| >= 1
      && (forall i, j :: 0 <= i < j < |workers| ==> workers[i] != workers[j])
      && (forall i :: 0 <= i < |workers| ==> Serves(workers[i], p, shares[i], intermediateStates, logs[i]))
    }

    /** Everything asked for has been delivered: all paths, or as many as the limit allows. */
    ghost predicate Complete()
      reads this
    {
      && multiset(delivered) <= Total(p, plan)
      && |delivered| == if maxPaths.Some? && maxPaths.value < |Total(p, plan)| then maxPaths.value
                        else |Total(p, plan)|
    }

    ghost predicate Valid()
      reads this, workers
    {
      && Gather(Traces(p, shares)) == multiset(DfsTrace(p, plan))
      && multiset(delivered) <= Total(p, plan)
      && emitted == |delivered| && (maxPaths.Some? ==> emitted <= maxPaths.value)
      && (!aborted ==> Booked())
      && (workers == [] ==> aborted || (Complete() && (maxPaths.None? ==> FinalStats())))
      && (workers != [] ==> !aborted && WorkersOk())
    }

    /** Counters and deliveries are those of everything the workers have done, dropped or not. */
    ghost predicate Booked()
      reads this
    {
      && multiset(delivered) == Gather(FinishedEach(logs))
      && Bare(stats) == StatsOf(Flatten(logs), Flatten(logs)) && NoFault(Flatten(logs))
      && stats.parallelEdges == stats.evaluatedEdges
    }

    /** Nothing went wrong, and the counters are those of a serial run over all starts. */
    ghost predicate FinalStats()
      reads this
    {
      Bare(stats) == StatsOf(DfsTrace(p, plan), DfsTrace(p, plan)) && NoFault(DfsTrace(p, plan))
    }

    constructor (p: Problem, ghost plan: seq<nat>, ghost shares: seq<seq<nat>>, hired: seq<Cursor>,
                 maxPaths: Option<nat>, intermediateStates: bool)
      requires |hired| == |shares| >= 1
      requires Gather(Traces(p, shares)) == multiset(DfsTrace(p, plan))
      requires forall i, j :: 0 <= i < j < |hired| ==> hired[i] != hired[j]
      requires forall i :: 0 <= i < |hired| ==> Serves(hired[i], p, shares[i], intermediateStates, [])
      ensures Valid() && !aborted && delivered == [] && workers == hired
      ensures this.p == p && this.plan == plan && this.maxPaths == maxPaths
      ensures this.intermediateStates == intermediateStates
    {
      hide Gather, Traces, FinishedEach, StatsOf, Flatten, Finished, DfsTrace, Cursor.Valid, Total, Bare, Serves;
      this.p, this.plan, this.shares, this.maxPaths := p, plan, shares, maxPaths;
      this.intermediateStates := intermediateStates;
      workers, emitted, stats, delivered, aborted := hired, 0, ZERO, [], false;
      logs := Empties(|hired|);
      new;
      NothingDelivered(p, plan, logs);
      assert WorkersOk();
      hide WorkersOk;
    }

    ghost predicate FlagsOk(flags: seq<bool>)
      reads this, workers
    {
      |flags| == |workers| && forall i :: 0 <= i < |flags| ==> flags[i] == !workers[i].done
    }

    method CountActive() returns (active: nat, ghost flags: seq<bool>)
      ensures FlagsOk(flags) && active == CountTrue(flags)
    {
      active, flags := 0, [];
      for i := 0 to |workers|
        invariant |flags| == i && forall j :: 0 <= j < i ==> flags[j] == !workers[j].done
        invariant active == CountTrue(flags)
      {
        ghost var before := flags;
        flags := flags + [!workers[i].done];
        assert flags[..|flags| - 1] == before;
        if !workers[i].done {
          active := active + 1;
        }
      }
    }

    /** Lets one worker search until it has found `quota` paths or done a piece of work. */
    method AdvanceWorker(i: nat, quota: nat)
      returns (r: Result<seq<GraphPath>, EngineError>, ghost gained: seq<Walk>)
      requires i < |workers| == |shares| == |logs| && WorkerOk(i) && !workers[i].done && quota >= 1
      modifies workers[i], `logs
      ensures r.Ok? ==> workers[i].Remaining() < old(workers[i].Remaining())
      ensures r.Err? ==> HasFault(DfsTrace(p, shares[i])) && logs == old(logs) && workers[i].aborted
      ensures r.Ok? ==>
                && logs == old(logs)[i := workers[i].log] && WorkerOk(i)
                && r.value == PathsOf(gained, intermediateStates) && |gained| <= quota
                && Finished(workers[i].log) == Finished(old(logs)[i]) + gained
    {
      hide Finished, PathsOf, DfsTrace, HasFault, StatsOf, Cut, Tight, Settling, Cursor.Active;
      var w := workers[i];
      ghost var before, found, counted := w.log, w.delivered, w.stats.evaluatedEdges;
      var evaluated := w.stats.evaluatedEdges;
      r := w.Advance(quota);
      gained := w.delivered[|found|..];
      if r.Ok? {
        EvaluatedMonotone(before, evaluated, w.log, w.stats.evaluatedEdges);
        w.CountParallel(w.stats.evaluatedEdges - evaluated);
        logs := logs[i := w.log];
      } else {
        FaultOfCut(w.Full(), w.maxPaths);
      }
    }

    /** What the workers have still to do. */
    ghost predicate Measures(ms: seq<nat>)
      reads this, workers
    {
      |ms| == |workers| && forall i :: 0 <= i < |ms| ==> ms[i] == workers[i].Remaining()
    }

    /** After a failure: every worker that has not failed still serves its share. */
    ghost predicate ServesOrFailed()
      reads this, workers
    {
      && |workers| == |shares| == |logs|
      && (forall i, j :: 0 <= i < j < |workers| ==> workers[i] != workers[j])
      && forall j :: 0 <= j < |workers| ==> WorkerOk(j) || workers[j].aborted
    }

    /** One worker's turn in a round, and what it means for all workers together. */
    method Turn(i: nat, quota: nat, ghost before: seq<nat>)
      returns (r: Result<seq<GraphPath>, EngineError>, ghost gained: seq<Walk>, ghost after: seq<nat>)
      requires WorkersOk() && i < |workers| && !workers[i].done && quota >= 1 && Measures(before)
      modifies workers[i], `logs
      ensures r.Err? ==> HasFault(DfsTrace(p, shares[i])) && ServesOrFailed()
      ensures r.Err? ==>
                forall j :: 0 <= j < |workers| && j != i ==> WorkerOk(j) && workers[j].done == old(workers[j].done)
      ensures r.Ok? ==> forall j :: 0 <= j < |workers| && j != i ==> workers[j].done == old(workers[j].done)
      ensures r.Ok? ==>
                && WorkersOk() && r.value == PathsOf(gained, intermediateStates) && |gained| <= quota
                && Gather(FinishedEach(logs)) == Gather(FinishedEach(old(logs))) + multiset(gained)
                && Measures(after) && Sum(after) < Sum(before)
    {
      hide Finished, FinishedEach, Gather, PathsOf, DfsTrace, HasFault, Sum, Cursor.Valid, IsFault;
      r, gained := AdvanceWorker(i, quota);
      after := before;
      if r.Ok? {
        WorkerFinds(old(logs), i, workers[i].log, gained);
        SumUpdate(before, i, workers[i].Remaining());
        after := before[i := workers[i].Remaining()];
        forall j | 0 <= j < |workers|
          ensures Serves(workers[j], p, shares[j], intermediateStates, logs[j]) && after[j] == workers[j].Remaining()
        {
          if j != i {
            assert workers[j] != workers[i] && old(Serves(workers[j], p, shares[j], intermediateStates, logs[j]));
          }
        }
      } else {
        forall j | 0 <= j < |workers| && j != i
          ensures WorkerOk(j)
        {
          assert workers[j] != workers[i] && old(Serves(workers[j], p, shares[j], intermediateStates, logs[j]));
        }
      }
    }

    /** Advances a worker whose paths are lost; the others are not concerned. */
    method AdvanceLost(i: nat, quota: nat)
      requires ServesOrFailed() && i < |workers| && WorkerOk(i) && !workers[i].done && quota >= 1
      modifies workers[i], `logs
      ensures ServesOrFailed()
      ensures forall j :: 0 <= j < |workers| && j != i ==>
                workers[j].done == old(workers[j].done) && (old(WorkerOk(j)) ==> WorkerOk(j))
    {
      hide Cursor.Valid, Finished, PathsOf;
      var found, gained := AdvanceWorker(i, quota);
      forall j | 0 <= j < |workers| && j != i
        ensures workers[j].done == old(workers[j].done) && (old(WorkerOk(j)) ==> WorkerOk(j))
        ensures WorkerOk(j) || workers[j].aborted
      {
        assert workers[j] != workers[i] && old(WorkerOk(j) || workers[j].aborted);
      }
    }

    /** The workers in `todo` may advance: they serve, are not done and have a quota. */
    ghost predicate Ready(todo: set<nat>, quotas: seq<nat>)
      reads this, workers
    {
      && |quotas| == |workers| == |shares| == |logs|
      && forall j :: j in todo ==> j < |workers| && WorkerOk(j) && !workers[j].done && quotas[j] >= 1
    }

    /** After a failure the remaining workers of the round may or may not be advanced; what they find is lost. */
    method AdvanceRest(todo: set<nat>, quotas: seq<nat>)
      requires ServesOrFailed() && Ready(todo, quotas)
      modifies workers, `logs
      ensures ServesOrFailed()
    {
      hide Serves, WorkerOk;
      var rest := todo;
      while rest != {}
        invariant ServesOrFailed() && Ready(rest, quotas)
        decreases |rest|
      {
        var i: nat :| i in rest;
        rest := rest - {i};
        var scheduled: bool := *;
        if scheduled {
          AdvanceLost(i, quotas[i]);
        }
      }
    }

    /** Shares out what remains among the active workers, by their number among these. */
    method ShareQuotas(remaining: nat, active: nat, ghost flags: seq<bool>) returns (quotas: seq<nat>, first: nat)
      requires FlagsOk(flags) && active == CountTrue(flags) >= 1 && remaining >= 1
      ensures |quotas| == |workers| && Sum(quotas) == remaining
      ensures forall i :: 0 <= i < |quotas| && quotas[i] >= 1 ==> !workers[i].done
      ensures first < |quotas| && quotas[first] >= 1
    {
      hide Quota, QuotaSum, Sum, CountTrue;
      assert flags[..|flags|] == flags;
      CountTrueNone(flags);
      QuotasShareOut(remaining, active);
      QuotaSumNone(remaining, active);
      SumNothing();
      quotas, first := [], 0;
      var index := 0;
      for i := 0 to |workers|
        invariant |quotas| == i && index == CountTrue(flags[..i]) && Sum(quotas) == QuotaSum(remaining, active, index)
        invariant forall j :: 0 <= j < i && quotas[j] >= 1 ==> !workers[j].done
        invariant index > 0 ==> first < i && quotas[first] >= 1
      {
        CountTrueNext(flags, i);
        var quota := 0;
        if !workers[i].done {
          quota := Quota(remaining, active, index);
          QuotaNext(remaining, active, index);
          if index == 0 {
            first := i;
          }
          index := index + 1;
        }
        SumAppend(quotas, quota);
        quotas := quotas + [quota];
      }
    }

    /** What a worker has found in a round, within its quota. */
    ghost predicate Found(quota: nat, paths: seq<GraphPath>, gain: seq<Walk>) {
      paths == PathsOf(gain, intermediateStates) && |gain| <= quota
    }

    ghost predicate FoundEach(quotas: seq<nat>, found: seq<seq<GraphPath>>, gains: seq<seq<Walk>>) {
      && |found| == |gains| == |quotas|
      && forall i :: 0 <= i < |gains| ==> Found(quotas[i], found[i], gains[i])
    }

    /** The paths of a round, in the order of the workers. */
    method CollectPaths(quotas: seq<nat>, found: seq<seq<GraphPath>>, ghost gains: seq<seq<Walk>>)
      returns (paths: seq<GraphPath>)
      requires FoundEach(quotas, found, gains)
      ensures paths == PathsOf(Flatten(gains), intermediateStates) && |Flatten(gains)| <= Sum(quotas)
    {
      hide Flatten, PathsOf, Sum;
      paths := [];
      FlattenNothing<Walk>();
      SumNothing();
      NoPaths(intermediateStates);
      assert gains[..0] == [] && quotas[..0] == [];
      for i := 0 to |found|
        invariant paths == PathsOf(Flatten(gains[..i]), intermediateStates)
        invariant |Flatten(gains[..i])| <= Sum(quotas[..i])
      {
        assert Found(quotas[i], found[i], gains[i]);
        assert gains[..i + 1] == gains[..i] + [gains[i]] && quotas[..i + 1] == quotas[..i] + [quotas[i]];
        FlattenMore(gains[..i], gains[i]);
        SumAppend(quotas[..i], quotas[i]);
        PathsOfConcat(Flatten(gains[..i]), gains[i], intermediateStates);
        paths := paths + found[i];
      }
      assert gains[..|found|] == gains && quotas[..|found|] == quotas;
    }

    lemma FoundMore(quotas: seq<nat>, found: seq<seq<GraphPath>>, gains: seq<seq<Walk>>, i: nat,
                    paths: seq<GraphPath>, more: seq<Walk>)
      requires FoundEach(quotas, found, gains) && i < |quotas| && Found(quotas[i], paths, more)
      ensures FoundEach(quotas, found[i := paths], gains[i := more])
    {
      hide Found;
    }

    lemma ReadyBelow(todo: set<nat>, quotas: seq<nat>)
      requires Ready(todo, quotas)
      ensures forall j :: j in todo ==> j < |quotas|
    {
    }

    lemma ReadySplit(todo: set<nat>, i: nat, quotas: seq<nat>)
      requires Ready(todo, quotas) && i in todo
      ensures i < |workers| == |quotas| && Ready(todo - {i} + {i}, quotas)
    {
      assert todo - {i} + {i} == todo;
    }

    /** The turn of a worker that may advance, before those in `rest`. */
    method TurnOf(i: nat, rest: set<nat>, quotas: seq<nat>, ghost before: seq<nat>)
      returns (r: Result<seq<GraphPath>, EngineError>, ghost gained: seq<Walk>, ghost after: seq<nat>)
      requires WorkersOk() && Ready(rest + {i}, quotas) && i !in rest && i < |workers| == |quotas| && Measures(before)
      modifies workers[i], `logs
      ensures Ready(rest, quotas)
      ensures r.Err? ==> HasFault(DfsTrace(p, shares[i])) && ServesOrFailed()
      ensures r.Ok? ==>
                && WorkersOk() && r.value == PathsOf(gained, intermediateStates) && |gained| <= quotas[i]
                && Gather(FinishedEach(logs)) == Gather(FinishedEach(old(logs))) + multiset(gained)
                && Measures(after) && Sum(after) < Sum(before)
    {
      hide FinishedEach, Gather, PathsOf, DfsTrace, HasFault, Sum, Serves, Cursor.Valid, Cursor.Remaining;
      assert i in rest + {i};
      assert forall j :: j in rest ==> j in rest + {i};
      r, gained, after := Turn(i, quotas[i], before);
    }

    /** Advances all workers of a round, each once and by its quota, in any order. */
    method AdvanceAll(todo: set<nat>, quotas: seq<nat>, ghost before: seq<nat>)
      returns (r: Result<seq<seq<GraphPath>>, EngineError>, ghost gains: seq<seq<Walk>>, ghost after: seq<nat>)
      requires WorkersOk() && Ready(todo, quotas) && todo != {} && Measures(before)
      modifies workers, `logs
      ensures r.Err? ==> ServesOrFailed() && exists i :: 0 <= i < |shares| && HasFault(DfsTrace(p, shares[i]))
      ensures r.Ok? ==>
                && WorkersOk() && FoundEach(quotas, r.value, gains)
                && Gather(FinishedEach(logs)) == Gather(FinishedEach(old(logs))) + Gather(gains)
                && Measures(after) && Sum(after) < Sum(before)
    {
      hide Finished, FinishedEach, Gather, PathsOf, DfsTrace, HasFault, Sum, Serves, WorkersOk, Measures, FoundEach;
      hide Ready, ServesOrFailed, IsFault;
      var found: seq<seq<GraphPath>> := seq(|quotas|, _ => []);
      gains, after := Nothings(|quotas|), before;
      assert |gains| == |found| == |quotas| && forall j :: 0 <= j < |gains| ==> gains[j] == [];
      NothingFoundEach(quotas, found);
      NothingsGathered(|quotas|);
      var rest := todo;
      ReadyBelow(todo, quotas);
      while rest != {}
        invariant rest <= todo && |gains| == |found| == |quotas|
        invariant WorkersOk() && Ready(rest, quotas) && Measures(after)
        invariant FoundEach(quotas, found, gains) && forall j :: j in rest ==> j < |gains| && gains[j] == []
        invariant Gather(FinishedEach(logs)) == Gather(FinishedEach(old(logs))) + Gather(gains)
        invariant Sum(after) <= Sum(before) && (rest != todo ==> Sum(after) < Sum(before))
        decreases |rest|
      {
        var i: nat :| i in rest;
        ReadySplit(rest, i, quotas);
        rest := rest - {i};
        var paths, more, left := TurnOf(i, rest, quotas, after);
        if paths.Err? {
          AdvanceRest(rest, quotas);
          return Err(paths.error), gains, after;
        }
        FoundMore(quotas, found, gains, i, paths.value, more);
        GainMore(gains, i, more, Gather(FinishedEach(old(logs))));
        gains, after := gains[i := more], left;
        found := found[i := paths.value];
      }
      r := Ok(found);
    }

    lemma NothingFoundEach(quotas: seq<nat>, found: seq<seq<GraphPath>>)
      requires |found| == |quotas| && forall i :: 0 <= i < |found| ==> found[i] == []
      ensures FoundEach(quotas, found, Nothings(|quotas|))
    {
      NoPaths(intermediateStates);
    }

    /**
     * One round: the active workers advance by their quotas, in any order, and their paths are
     * collected in the order of the workers; some worker makes progress.
     */
    method Round(remaining: nat, active: nat, ghost flags: seq<bool>, ghost before: seq<nat>)
      returns (r: Result<seq<GraphPath>, EngineError>, ghost gained: seq<Walk>, ghost after: seq<nat>)
      requires WorkersOk() && FlagsOk(flags) && active == CountTrue(flags) >= 1 && remaining >= 1
      requires Measures(before)
      modifies workers, `logs
      ensures r.Err? ==> ServesOrFailed() && exists i :: 0 <= i < |shares| && HasFault(DfsTrace(p, shares[i]))
      ensures r.Ok? ==>
                && WorkersOk() && r.value == PathsOf(gained, intermediateStates) && |gained| <= remaining
                && Gather(FinishedEach(logs)) == Gather(FinishedEach(old(logs))) + multiset(gained)
                && Measures(after) && Sum(after) < Sum(before)
    {
      hide Finished, FinishedEach, Gather, Flatten, PathsOf, DfsTrace, HasFault, Sum, Serves, CountTrue;
      hide Cursor.Valid, Cursor.Remaining, IsFault;
      gained := [];
      var quotas, first := ShareQuotas(remaining, active, flags);
      var todo := set i: nat | i < |quotas| && quotas[i] >= 1;
      assert first in todo;
      var found, gains, left := AdvanceAll(todo, quotas, before);
      after := left;
      if found.Err? {
        return Err(found.error), gained, after;
      }
      var paths := CollectPaths(quotas, found.value, gains);
      FlattenGathers(gains);
      gained := Flatten(gains);
      r := Ok(paths);
    }

    lemma MergeNext(i: nat, total: SearchStats)
      requires WorkersOk() && i < |workers| && total.parallelEdges == total.evaluatedEdges
      requires Bare(total) == StatsOf(Flatten(logs[..i]), Flatten(logs[..i]))
      ensures var next := Merge(total, workers[i].stats);
              && Bare(next) == StatsOf(Flatten(logs[..i + 1]), Flatten(logs[..i + 1]))
              && next.parallelEdges == next.evaluatedEdges
    {
      hide Flatten, StatsOf, Merge, Bare;
      assert WorkerOk(i);
      FlattenMore(logs[..i], logs[i]);
      FirstLogs(logs, i);
      StatsJoin(Flatten(logs[..i]), logs[i]);
      BareJoin(total, workers[i].stats);
      MergeParallel(total, workers[i].stats);
    }

    /** Adds up the counters of all workers; when none of them failed, these are the counters of all they have done. */
    method MergeStats() returns (total: SearchStats)
      ensures WorkersOk() ==>
                Bare(total) == StatsOf(Flatten(logs), Flatten(logs)) && total.parallelEdges == total.evaluatedEdges
    {
      hide Flatten, StatsOf, Merge;
      ghost var ok := WorkersOk();
      total := ZERO;
      NothingYet();
      assert logs[..0] == [] && Flatten(logs[..0]) == [] by { NothingGathered(logs[..0]); }
      for i := 0 to |workers|
        invariant ok == WorkersOk()
        invariant ok ==> Bare(total) == StatsOf(Flatten(logs[..i]), Flatten(logs[..i]))
        invariant ok ==> total.parallelEdges == total.evaluatedEdges
      {
        if ok {
          MergeNext(i, total);
        }
        total := Merge(total, workers[i].stats);
      }
      assert ok ==> logs[..|workers|] == logs;
    }

    /** Nothing has gone wrong in what live workers have done. */
    lemma WorkersFaultless()
      requires WorkersOk()
      ensures NoFault(Flatten(logs))
    {
      forall i | 0 <= i < |logs|
        ensures NoFault(logs[i])
      {
        assert WorkerOk(i);
      }
      FlattenNoFault(logs);
    }

    /** What has been found is part of everything there is to find. */
    lemma FoundWithin()
      requires WorkersOk() && Gather(Traces(p, shares)) == multiset(DfsTrace(p, plan))
      ensures Gather(FinishedEach(logs)) <= Total(p, plan)
    {
      hide Gather, DfsTrace, Finished;
      var fulls := Traces(p, shares);
      forall i | 0 <= i < |logs|
        ensures FinishedEach(logs)[i] <= FinishedEach(fulls)[i]
      {
        assert WorkerOk(i);
        FinishedPrefix(logs[i], fulls[i]);
      }
      GatherPrefix(FinishedEach(logs), FinishedEach(fulls));
      GatherTotal(p, plan, shares);
    }

    /** When every worker is done, everything has happened. */
    lemma AllDone(flags: seq<bool>)
      requires WorkersOk() && Gather(Traces(p, shares)) == multiset(DfsTrace(p, plan))
      requires FlagsOk(flags) && CountTrue(flags) == 0
      ensures Gather(FinishedEach(logs)) == Total(p, plan)
      ensures multiset(Flatten(logs)) == multiset(DfsTrace(p, plan))
    {
      hide Gather, DfsTrace, Finished, FinishedEach, Flatten;
      forall i | 0 <= i < |logs|
        ensures logs[i] == Traces(p, shares)[i]
      {
        assert WorkerOk(i);
        NoneTrue(flags, i);
      }
      assert logs == Traces(p, shares);
      GatherTotal(p, plan, shares);
      FlattenGathers(logs);
    }

    lemma FaultOfShare(i: nat)
      requires Gather(Traces(p, shares)) == multiset(DfsTrace(p, plan))
      requires i < |shares| && HasFault(DfsTrace(p, shares[i]))
      ensures HasFault(DfsTrace(p, plan))
    {
      var e :| e in DfsTrace(p, shares[i]) && IsFault(e);
      GatherMember(Traces(p, shares), i, e);
      assert e in multiset(DfsTrace(p, plan));
    }

    /** Drops the workers; a search closed before its end delivers no more. */
    method Close(ghost cut: bool)
      requires Valid() && (workers != [] ==> cut || (Complete() && (maxPaths.None? ==> FinalStats())))
      modifies this
      ensures Valid() && workers == [] && delivered == old(delivered)
      ensures aborted == (old(aborted) || (cut && old(workers) != []))
    {
      hide Gather, Traces, FinishedEach, StatsOf, Flatten, DfsTrace, Total, Bare, WorkersOk;
      aborted := aborted || (cut && workers != []);
      workers := [];
    }

    /** A round between two pulls of paths, with its bookkeeping. */
    method Pull(remaining: nat, active: nat, ghost flags: seq<bool>, ghost before: seq<nat>)
      returns (r: Result<seq<GraphPath>, EngineError>, ghost after: seq<nat>)
      requires Valid() && workers != [] && remaining >= 1 && active >= 1
      requires FlagsOk(flags) && active == CountTrue(flags) && Measures(before)
      requires maxPaths.Some? ==> emitted + remaining <= maxPaths.value
      modifies this, workers
      ensures r.Err? ==> HasFault(DfsTrace(p, plan)) && delivered == old(delivered) && aborted && workers == []
      ensures r.Ok? ==>
                && workers == old(workers) && !aborted
                && old(delivered) <= delivered && |r.value| <= remaining
                && r.value == PathsOf(delivered[|old(delivered)|..], intermediateStates)
                && Measures(after) && Sum(after) < Sum(before)
      ensures Valid()
    {
      hide Gather, Traces, FinishedEach, StatsOf, Flatten, Finished, DfsTrace, Total, Bare, HasFault, PathsOf, Sum;
      hide Serves, Cursor.Valid, ServesOrFailed, IsFault, CountTrue;
      ghost var gained;
      r, gained, after := Round(remaining, active, flags, before);
      if r.Err? {
        ghost var i: nat :| i < |shares| && HasFault(DfsTrace(p, shares[i]));
        FaultOfShare(i);
        stats := MergeStats();
        aborted := true;
        workers := [];
        return;
      }
      Book(|r.value|, gained);
    }

    /** Adds up the counters and books what a round has found. */
    method Book(found: nat, ghost gained: seq<Walk>)
      requires WorkersOk() && Gather(Traces(p, shares)) == multiset(DfsTrace(p, plan))
      requires Gather(FinishedEach(logs)) == multiset(delivered) + multiset(gained) && found == |gained|
      requires emitted == |delivered| && (maxPaths.Some? ==> emitted + found <= maxPaths.value) && !aborted
      modifies `stats, `emitted, `delivered
      ensures Valid() && delivered == old(delivered) + gained
    {
      hide Gather, Traces, FinishedEach, StatsOf, Flatten, Finished, DfsTrace, Total, Bare, Serves, Cursor.Valid;
      FoundWithin();
      WorkersFaultless();
      stats := MergeStats();
      emitted := emitted + found;
      delivered := delivered + gained;
      assert multiset(delivered) == multiset(old(delivered)) + multiset(gained);
    }

    /** Nothing left to find, or nothing left to ask for. */
    lemma RunOver(flags: seq<bool>, size: nat)
      requires Valid() && workers != [] && size >= 1 && FlagsOk(flags)
      requires CountTrue(flags) == 0 || (maxPaths.Some? && emitted == maxPaths.value)
      ensures Complete() && (maxPaths.None? ==> FinalStats())
    {
      hide Gather, Traces, FinishedEach, Flatten, Finished, DfsTrace, Total, Bare, Count;
      SubsetSize(multiset(delivered), Total(p, plan));
      if CountTrue(flags) == 0 {
        AllDone(flags);
        StatsPermute(Flatten(logs), DfsTrace(p, plan));
        FaultlessPermute(Flatten(logs), DfsTrace(p, plan));
      }
    }

    /**
     * The next batch: up to `size` further paths, `None` when the search is over.
     * What a run delivers is part of what the serial search delivers, each path no
     * more often; a run that is not cut short ends with exactly as many paths as
     * there are or as the limit allows, and without a limit with all of them.
     */
    method NextBatch(size: nat) returns (r: Result<Option<seq<GraphPath>>, EngineError>)
      requires Valid()
      modifies this, workers
      ensures Valid() && multiset(delivered) <= Total(p, plan)
      ensures workers == [] || workers == old(workers)
      ensures size == 0 ==> r == Err(ZeroBatch)
      ensures r.Err? ==> delivered == old(delivered) && (size == 0 || HasFault(DfsTrace(p, plan)))
      ensures r.Ok? ==> aborted == old(aborted)
      ensures r.Ok? && r.value.None? ==>
                delivered == old(delivered) && (!aborted ==> Complete() && (maxPaths.None? ==> FinalStats()))
      ensures r.Ok? && r.value.Some? ==>
                && old(delivered) <= delivered && 1 <= |r.value.value| <= size
                && r.value.value == PathsOf(delivered[|old(delivered)|..], intermediateStates)
    {
      hide Gather, Traces, FinishedEach, StatsOf, Flatten, Finished, DfsTrace, Total, Bare, HasFault, PathsOf, Sum;
      hide Serves, Cursor.Valid;
      if size == 0 {
        Close(true);
        return Err(ZeroBatch);
      }
      if |workers| == 0 {
        return Ok(None);
      }
      ghost var measures := Snapshot();
      NothingFound(delivered, delivered, intermediateStates);
      while true
        invariant Valid() && workers == old(workers) && workers != [] && delivered == old(delivered)
        invariant Measures(measures)
        decreases Sum(measures)
      {
        var remaining := size;
        if maxPaths.Some? {
          var left := if maxPaths.value < emitted then 0 else maxPaths.value - emitted;
          remaining := if left < size then left else size;
        }
        var active, flags := CountActive();
        if active == 0 || remaining == 0 {
          RunOver(flags, size);
          Close(false);
          return Ok(None);
        }
        var found, after := Pull(remaining, active, flags, measures);
        if found.Err? {
          return Err(found.error);
        }
        measures := after;
        if |found.value| > 0 {
          return Ok(Some(found.value));
        }
        NothingFound(old(delivered), delivered, intermediateStates);
      }
    }

    ghost function Snapshot(): (ms: seq<nat>)
      reads this, workers
      ensures Measures(ms)
    {
      seq(|workers|, i requires 0 <= i < |workers| reads this, workers => workers[i].Remaining())
    }
  }

  /** As many workers as threads, but no more than starts, each with its share of the starts. */
  method NewParallelDfs(p: Problem, starts: seq<nat>, maxPaths: Option<nat>, intermediateStates: bool, dense: bool,
                        quantum: nat, threads: nat)
    returns (search: ParallelDfs)
    requires p.maxVisits >= 1 && quantum >= 1
    ensures fresh(search) && search.Valid() && !search.aborted && search.delivered == []
    ensures search.p == p && search.plan == starts && search.maxPaths == maxPaths
    ensures search.intermediateStates == intermediateStates
    ensures forall w :: w in search.workers ==> fresh(w)
    ensures |search.workers| == Max(1, if threads < |starts| then threads else |starts|)
    ensures forall i :: 0 <= i < |search.workers| ==>
              search.workers[i].plan == Dealt(starts, |search.workers|, i)
  {
    hide Dealt, Gather, Traces, DfsTrace, ParallelDfs.Valid, Cursor.Valid;
    var fewer := if threads < |starts| then threads else |starts|;
    var count := if fewer < 1 then 1 else fewer;
    var dealt := RoundRobin(p, starts, count);
    var hired := Hire(p, dealt, intermediateStates, dense, quantum);
    search := new ParallelDfs(p, starts, dealt, hired, maxPaths, intermediateStates);
  }
}

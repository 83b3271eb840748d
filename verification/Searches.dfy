/**
 * Whole searches: the drivers that pull batches until a search is over, and what
 * every run of a cursor satisfies whatever the sizes of its batches.
 */
module Searches {
  import opened Wrappers
  import opened Enumeration
  import opened Limits
  import opened Routes
  import opened Orders
  import opened Stats
  import opened Accounts
  import opened Arena
  import opened Cursors
  import opened DfsShares
  import opened ParallelBreadthFirst
  import opened ParallelDepthFirst

  const BATCH_SIZE := 1024

  /** The batches of a run, one after the other. */
  function Concat<T>(batches: seq<seq<T>>): seq<T> {
    if batches == [] then [] else Concat(batches[..|batches| - 1]) + batches[|batches| - 1]
  }

  lemma ConcatMore<T>(batches: seq<seq<T>>, batch: seq<T>)
    ensures Concat(batches + [batch]) == Concat(batches) + batch
  {
    assert (batches + [batch])[..|batches|] == batches;
  }

  /** Appending the next batch appends the next deliveries. */
  lemma BatchAppends(before: seq<Walk>, after: seq<Walk>, intermediateStates: bool)
    requires before <= after
    ensures PathsOf(after, intermediateStates) ==
            PathsOf(before, intermediateStates) + PathsOf(after[|before|..], intermediateStates)
  {
    assert after == before + after[|before|..];
    PathsOfConcat(before, after[|before|..], intermediateStates);
  }

  /** Exactly what the limit lets happen has happened, nothing went wrong, and the counters say so. */
  ghost predicate CutShortByNothing(c: Cursor)
    reads c
  {
    && c.log == c.Happens() && !HasFault(c.Happens())
    && Bare(c.stats) == StatsOf(c.Happens(), c.Happens())
    && (Increasing(c.plan) ==>
        !GoesWrong(c.p, c.strategy, c.plan, c.maxPaths) &&
        Accounted(c.p, c.strategy, c.plan, c.maxPaths, Bare(c.stats)))
  }

  /** Faults and counters of a run up to its last path, told on routes. */
  lemma RunExact(p: Problem, strategy: Strategy, starts: seq<nat>, maxPaths: Option<nat>)
    ensures var cut := Cut(FullTrace(p, strategy, starts), maxPaths);
            && (Increasing(starts) || maxPaths.None? ==>
                (HasFault(cut) <==> GoesWrong(p, strategy, starts, maxPaths)))
            && (Increasing(starts) ==> Accounted(p, strategy, starts, maxPaths, StatsOf(cut, cut)))
  {
    hide Increasing, GoesWrong, Accounted, HasFault, Cut, FullTrace, StatsOf;
    if Increasing(starts) || maxPaths.None? {
      FaultExact(p, strategy, starts, maxPaths);
    }
    if Increasing(starts) {
      CountersExact(p, strategy, starts, maxPaths);
    }
  }

  lemma FinalCounters(c: Cursor)
    requires c.Valid() && c.done && !c.aborted
    ensures CutShortByNothing(c)
  {
    hide Finished, Cut, StatsOf, GoesWrong, Accounted, Increasing;
    SettlingDecides(c.log, c.settled, c.log);
    CutExact(c.log, c.Full(), c.maxPaths);
    NoFaultMet(c.log, c.Full(), c.maxPaths);
    RunExact(c.p, c.strategy, c.plan, c.maxPaths);
  }

  lemma FinalParallelCounters(b: ParallelBfs)
    requires b.Valid() && b.cursor.done && !b.cursor.aborted
    ensures !HasFault(b.cursor.Happens())
    ensures b.cursor.maxPaths.None? ==> Bare(b.cursor.stats) == StatsOf(b.cursor.Full(), b.cursor.Full())
    ensures Increasing(b.cursor.plan) ==> !GoesWrong(b.cursor.p, BreadthFirst, b.cursor.plan, b.cursor.maxPaths)
    ensures Increasing(b.cursor.plan) && b.cursor.maxPaths.None? ==>
              Accounted(b.cursor.p, BreadthFirst, b.cursor.plan, None, Bare(b.cursor.stats))
  {
    hide Finished, Cut, StatsOf, Settling, GoesWrong, Accounted, Increasing, FullTrace;
    var c := b.cursor;
    if c.maxPaths.None? {
      SettlingDecides(c.Full(), c.settled, c.log);
      CutNothing(c.Full());
    }
    RunExact(c.p, BreadthFirst, c.plan, c.maxPaths);
    SettlingCounts(c.log);
    SettlingCounts(c.settled);
    FinishedConcat(Settling(c.settled), b.events);
    NoFaultMet(c.log, c.Full(), c.maxPaths);
  }

  /**
   * For any sequence of positive batch sizes: the batches are non-empty, fit their
   * sizes, and concatenate to the beginning of the expected deliveries; once the cursor
   * reports its end, to all of them, with the counters of exactly what had to happen.
   */
  method RunBatches(c: Cursor, sizes: seq<nat>)
    returns (r: Result<seq<seq<GraphPath>>, EngineError>, over: bool)
    requires c.Valid() && !c.aborted && c.delivered == [] && forall i :: 0 <= i < |sizes| ==> sizes[i] >= 1
    modifies c
    ensures c.Valid()
    ensures r.Err? ==> HasFault(c.Happens())
    ensures r.Ok? ==>
              && |r.value| <= |sizes| && (!over ==> |r.value| == |sizes|)
              && (forall i :: 0 <= i < |r.value| ==> 1 <= |r.value[i]| <= sizes[i])
              && Concat(r.value) == PathsOf(c.delivered, c.intermediateStates) && c.delivered <= c.Expected()
              && (over ==> c.delivered == c.Expected() && CutShortByNothing(c))
  {
    hide Concat, PathsOf, HasFault, Limited, Cut, FullTrace, Finished, Cursor.Valid, CutShortByNothing;
    var batches: seq<seq<GraphPath>> := [];
    over := false;
    NothingRun(c.intermediateStates);
    while |batches| < |sizes| && !over
      invariant c.Valid() && !c.aborted && |batches| <= |sizes| && c.delivered <= c.Expected()
      invariant forall i :: 0 <= i < |batches| ==> 1 <= |batches[i]| <= sizes[i]
      invariant Concat(batches) == PathsOf(c.delivered, c.intermediateStates)
      invariant over ==> c.delivered == c.Expected() && c.done
      decreases |sizes| - |batches|, !over
    {
      ghost var before := c.delivered;
      var batch := c.NextBatch(sizes[|batches|]);
      if batch.Err? {
        return Err(batch.error), true;
      }
      match batch.value {
        case None => over := true;
        case Some(paths) =>
          BatchAppends(before, c.delivered, c.intermediateStates);
          ConcatMore(batches, paths);
          batches := batches + [paths];
      }
    }
    if over {
      FinalCounters(c);
    }
    r := Ok(batches);
  }

  lemma NothingRun(intermediateStates: bool)
    ensures Concat<GraphPath>([]) == PathsOf([], intermediateStates)
  {
  }

  /**
   * Parallel breadth-first search, pulled in any positive batch sizes: the batches
   * concatenate to exactly what the serial cursor is expected to deliver, unless a fault is
   * met; it lies less than one quantum of edges behind the limited run at most, and within it
   * without a limit or with a quantum of 1. Without a limit the counters are the serial ones.
   */
  method RunParallelBfs(b: ParallelBfs, sizes: seq<nat>)
    returns (r: Result<seq<seq<GraphPath>>, EngineError>, over: bool)
    requires b.Valid() && !b.cursor.aborted && b.cursor.delivered == []
    requires forall i :: 0 <= i < |sizes| ==> sizes[i] >= 1
    modifies b, b.cursor
    ensures b.Valid()
    ensures r.Err? ==> b.FaultLookedAt()
    ensures r.Err? && (b.cursor.maxPaths.None? || b.cursor.quantum == 1) ==> HasFault(b.cursor.Happens())
    ensures r.Err? && b.cursor.maxPaths.None? ==> GoesWrong(b.cursor.p, BreadthFirst, b.cursor.plan, None)
    ensures r.Ok? ==>
              && |r.value| <= |sizes| && (!over ==> |r.value| == |sizes|)
              && (forall i :: 0 <= i < |r.value| ==> 1 <= |r.value[i]| <= sizes[i])
              && Concat(r.value) == PathsOf(b.cursor.delivered, b.cursor.intermediateStates)
              && b.cursor.delivered <= b.cursor.Expected() && (over ==> b.cursor.delivered == b.cursor.Expected())
              && (over ==> !HasFault(b.cursor.Happens()))
              && (over && Increasing(b.cursor.plan) ==>
                    !GoesWrong(b.cursor.p, BreadthFirst, b.cursor.plan, b.cursor.maxPaths))
              && (over && Increasing(b.cursor.plan) && b.cursor.maxPaths.None? ==>
                    Accounted(b.cursor.p, BreadthFirst, b.cursor.plan, None, Bare(b.cursor.stats)))
              && (over && b.cursor.maxPaths.None? ==>
                    Bare(b.cursor.stats) == StatsOf(b.cursor.Full(), b.cursor.Full()))
  {
    hide Concat, PathsOf, HasFault, FaultNear, Limited, Cut, FullTrace, Finished, ParallelBfs.Valid, StatsOf, Bare;
    hide Increasing, GoesWrong, Accounted;
    var c := b.cursor;
    RunExact(c.p, c.strategy, c.plan, c.maxPaths);
    assert c.strategy.BreadthFirst? by { BreadthFirstOnly(b); }
    var batches: seq<seq<GraphPath>> := [];
    over := false;
    NothingRun(c.intermediateStates);
    NothingExpected(c.Expected());
    while |batches| < |sizes| && !over
      invariant b.Valid() && !c.aborted && |batches| <= |sizes| && c.delivered <= c.Expected()
      invariant forall i :: 0 <= i < |batches| ==> 1 <= |batches[i]| <= sizes[i]
      invariant Concat(batches) == PathsOf(c.delivered, c.intermediateStates)
      invariant over ==> c.delivered == c.Expected() && c.done
      decreases |sizes| - |batches|, !over
    {
      ghost var before := c.delivered;
      var batch := b.NextBatch(sizes[|batches|]);
      if batch.Err? {
        if c.maxPaths.None? || c.quantum == 1 {
          NearNothing(c.Full(), c.maxPaths, c.quantum - 1);
        }
        return Err(batch.error), true;
      }
      match batch.value {
        case None => over := true;
        case Some(paths) =>
          BatchAppends(before, c.delivered, c.intermediateStates);
          ConcatMore(batches, paths);
          batches := batches + [paths];
      }
    }
    if over {
      FinalParallelCounters(b);
    }
    r := Ok(batches);
  }

  lemma BreadthFirstOnly(b: ParallelBfs)
    requires b.Valid()
    ensures b.cursor.strategy == BreadthFirst
  {
  }

  lemma NothingExpected(all: seq<Walk>)
    ensures [] <= all
  {
  }

  /**
   * Parallel depth-first search, pulled in any positive batch sizes: the batches
   * concatenate to distinct occurrences of the serial deliveries, and at the end to
   * all of them, or to as many as the limit allows.
   */
  method RunParallelDfs(d: ParallelDfs, sizes: seq<nat>)
    returns (r: Result<seq<seq<GraphPath>>, EngineError>, over: bool)
    requires d.Valid() && !d.aborted && d.delivered == []
    requires forall i :: 0 <= i < |sizes| ==> sizes[i] >= 1
    modifies d, d.workers
    ensures d.Valid()
    ensures r.Err? ==> GoesWrong(d.p, DepthFirst, d.plan, None)
    ensures r.Ok? ==>
              && |r.value| <= |sizes| && (!over ==> |r.value| == |sizes|)
              && (forall i :: 0 <= i < |r.value| ==> 1 <= |r.value[i]| <= sizes[i])
              && Concat(r.value) == PathsOf(d.delivered, d.intermediateStates)
              && multiset(d.delivered) <= multiset(Finished(DfsTrace(d.p, d.plan)))
              && (over ==> d.Complete() && (d.maxPaths.None? ==> d.FinalStats()))
              && (over && d.maxPaths.None? && Increasing(d.plan) ==>
                    !GoesWrong(d.p, DepthFirst, d.plan, None) &&
                    Accounted(d.p, DepthFirst, d.plan, None, Bare(d.stats)))
  {
    hide Concat, PathsOf, HasFault, Finished, DfsTrace, ParallelDfs.Valid, ParallelDfs.Complete, ParallelDfs.FinalStats;
    hide Increasing, GoesWrong, Accounted, Total, Bare;
    WholeRunExact(d.p, d.plan);
    var batches: seq<seq<GraphPath>> := [];
    over := false;
    NothingRun(d.intermediateStates);
    while |batches| < |sizes| && !over
      invariant d.Valid() && !d.aborted && |batches| <= |sizes|
      invariant d.workers == [] || d.workers == old(d.workers)
      invariant forall i :: 0 <= i < |batches| ==> 1 <= |batches[i]| <= sizes[i]
      invariant Concat(batches) == PathsOf(d.delivered, d.intermediateStates)
      invariant over ==> d.Complete() && (d.maxPaths.None? ==> d.FinalStats())
      decreases |sizes| - |batches|, !over
    {
      ghost var before := d.delivered;
      var batch := d.NextBatch(sizes[|batches|]);
      if batch.Err? {
        return Err(batch.error), true;
      }
      match batch.value {
        case None => over := true;
        case Some(paths) =>
          BatchAppends(before, d.delivered, d.intermediateStates);
          ConcatMore(batches, paths);
          batches := batches + [paths];
      }
    }
    if over && d.maxPaths.None? {
      FinalShares(d);
    }
    SharesDeliver(d);
    r := Ok(batches);
  }

  lemma WholeRunExact(p: Problem, starts: seq<nat>)
    ensures HasFault(DfsTrace(p, starts)) <==> GoesWrong(p, DepthFirst, starts, None)
    ensures Increasing(starts) ==>
              Accounted(p, DepthFirst, starts, None, StatsOf(DfsTrace(p, starts), DfsTrace(p, starts)))
  {
    hide Increasing, GoesWrong, Accounted, HasFault, Cut, DfsTrace, StatsOf;
    CutNothing(DfsTrace(p, starts));
    RunExact(p, DepthFirst, starts, None);
  }

  lemma SharesDeliver(d: ParallelDfs)
    requires d.Valid()
    ensures multiset(d.delivered) <= multiset(Finished(DfsTrace(d.p, d.plan)))
  {
  }

  lemma FinalShares(d: ParallelDfs)
    requires d.FinalStats()
    ensures !GoesWrong(d.p, DepthFirst, d.plan, None)
    ensures Increasing(d.plan) ==> Accounted(d.p, DepthFirst, d.plan, None, Bare(d.stats))
  {
    hide Increasing, GoesWrong, Accounted, DfsTrace, StatsOf, Bare;
    WholeRunExact(d.p, d.plan);
  }

  /**
   * A serial search, pulled in batches of a fixed size. It fails exactly when something goes
   * wrong before the last path asked for: an unknown start or a kernel error on an edge out of
   * an unfinished path, with fewer than `maxPaths` deliverable routes before it. Otherwise it
   * delivers the first paths of the whole enumeration, and its counters are the numbers of
   * starts and edges of every kind that come before the last of them.
   */
  method SearchSerial(p: Problem, strategy: Strategy, starts: seq<nat>, maxPaths: Option<nat>,
                      intermediateStates: bool, dense: bool, quantum: nat)
    returns (r: Result<(seq<GraphPath>, SearchStats), EngineError>)
    requires quantum >= 1
    ensures p.maxVisits == 0 ==> r == Err(ZeroVisits)
    ensures r.Err? <==> p.maxVisits == 0 || HasFault(Cut(FullTrace(p, strategy, starts), maxPaths))
    ensures Increasing(starts) || maxPaths.None? ==>
              (r.Err? <==> p.maxVisits == 0 || GoesWrong(p, strategy, starts, maxPaths))
    ensures r.Ok? && Increasing(starts) ==> Accounted(p, strategy, starts, maxPaths, r.value.1)
    ensures r.Ok? ==>
              && r.value.0 == PathsOf(Limited(Finished(FullTrace(p, strategy, starts)), maxPaths), intermediateStates)
              && r.value.1 == StatsOf(Cut(FullTrace(p, strategy, starts), maxPaths),
                                      Cut(FullTrace(p, strategy, starts), maxPaths))
  {
    hide PathsOf, HasFault, Limited, Cut, FullTrace, StatsOf, Finished, Cursor.Valid;
    hide Increasing, GoesWrong, Accounted;
    RunExact(p, strategy, starts, maxPaths);
    if p.maxVisits == 0 {
      return Err(ZeroVisits);
    }
    var c := new Cursor(p, strategy, starts, maxPaths, intermediateStates, dense, quantum);
    var paths: seq<GraphPath> := [];
    var running := true;
    NoPaths(intermediateStates);
    while running
      invariant c.Valid() && !c.aborted && paths == PathsOf(c.delivered, intermediateStates)
      invariant c.delivered <= c.Expected() && c.stats.parallelEdges == 0
      invariant !running ==> c.done && c.delivered == c.Expected()
      decreases running, |c.Expected()| - |c.delivered|
    {
      ghost var before := c.delivered;
      var batch := c.NextBatch(BATCH_SIZE);
      if batch.Err? {
        return Err(batch.error);
      }
      match batch.value {
        case None => running := false;
        case Some(more) =>
          BatchAppends(before, c.delivered, intermediateStates);
          paths := paths + more;
      }
    }
    r := Ok((paths, c.stats));
    FinalCounters(c);
  }

  /** At every pull boundary of a serial search: counters conserve, and respect the limit. */
  lemma SerialCounters(c: Cursor)
    requires c.Valid() && !c.aborted
    ensures c.stats.parallelEdges <= c.stats.evaluatedEdges
    ensures |c.log| == c.stats.startNodes + c.stats.evaluatedEdges + c.stats.skippedRevisits
    ensures c.stats.evaluatedEdges == c.stats.acceptedEdges + c.stats.rejectedEdges
    ensures c.stats.pathEntries == c.stats.startNodes + c.stats.acceptedEdges
    ensures c.stats.stoppedPaths == |c.delivered|
    ensures c.maxPaths.Some? ==> c.stats.stoppedPaths <= c.maxPaths.value
  {
    Conservation(c.log, c.settled, []);
    LimitedLength(Finished(c.Full()), c.maxPaths);
  }

  /** The same for parallel breadth-first search, where accepted edges may be pending. */
  lemma ParallelBfsCounters(b: ParallelBfs)
    requires b.Valid() && !b.cursor.aborted
    ensures var s := b.cursor.stats;
            && s.parallelEdges <= s.evaluatedEdges
            && |b.cursor.log| == s.startNodes + s.evaluatedEdges + s.skippedRevisits
            && s.evaluatedEdges == s.acceptedEdges + s.rejectedEdges + |b.events|
            && s.pathEntries == s.startNodes + s.acceptedEdges
            && s.stoppedPaths == |b.cursor.delivered|
            && (b.cursor.maxPaths.Some? ==> s.stoppedPaths <= b.cursor.maxPaths.value)
    ensures !b.cursor.done ==> |b.events| == |b.pending|
  {
    Conservation(b.cursor.log, b.cursor.settled, b.events);
    LimitedLength(Finished(b.cursor.Full()), b.cursor.maxPaths);
  }

  /** The same for parallel depth-first search, over all workers together, also once they are dropped. */
  lemma ParallelDfsCounters(d: ParallelDfs)
    requires d.Valid() && !d.aborted
    ensures |Flatten(d.logs)| == d.stats.startNodes + d.stats.evaluatedEdges + d.stats.skippedRevisits
    ensures d.stats.evaluatedEdges == d.stats.acceptedEdges + d.stats.rejectedEdges
    ensures d.stats.pathEntries == d.stats.startNodes + d.stats.acceptedEdges
    ensures d.stats.parallelEdges == d.stats.evaluatedEdges
    ensures d.stats.stoppedPaths == d.emitted == |d.delivered|
    ensures d.maxPaths.Some? ==> d.emitted <= d.maxPaths.value
  {
    hide Finished, FinishedEach, Gather, Flatten, Merge, Total, DfsTrace;
    Conservation(Flatten(d.logs), Flatten(d.logs), []);
    FlattenFinishes(d.logs);
    assert |Finished(Flatten(d.logs))| == |multiset(Finished(Flatten(d.logs)))|;
    assert |d.delivered| == |multiset(d.delivered)|;
  }

  lemma FlattenFinishes(logs: seq<seq<Event>>)
    ensures multiset(Finished(Flatten(logs))) == Gather(FinishedEach(logs))
  {
    forall w
      ensures multiset(Finished(Flatten(logs)))[w] == Gather(FinishedEach(logs))[w]
    {
      FinishedMultiplicity(Flatten(logs), w);
      FlattenGathers(logs);
      GatherFinished(logs, w);
    }
  }

  /** All start positions, in request order. */
  function AllStarts(n: nat): (s: seq<nat>)
    ensures |s| == n && forall i :: 0 <= i < n ==> s[i] == i
  {
    if n == 0 then [] else AllStarts(n - 1) + [n - 1]
  }

  /**
   * The canonical first path: of all deliverable routes the one with the fewest
   * edges and, among those, the least start and edge positions; none exactly when
   * no route is deliverable.
   */
  method SearchFirst(p: Problem, intermediateStates: bool, quantum: nat)
    returns (r: Result<Option<GraphPath>, EngineError>)
    requires quantum >= 1
    ensures r.Err? <==> p.maxVisits == 0 || GoesWrong(p, BreadthFirst, AllStarts(|p.roots|), Some(1))
    ensures r.Ok? && r.value.None? ==> !exists route :: IsRoute(p, route)
    ensures r.Ok? && r.value.Some? ==>
              exists w :: Completed(p, w) && r.value.value == PathOf(w, intermediateStates) &&
                IsRoute(p, RouteOf(w)) &&
                forall route :: IsRoute(p, route) ==>
                  route == RouteOf(w) || ShortLess(Key(w), [route.start] + route.steps)
  {
    hide HasFault, BfsTrace, Cut, StatsOf, Bare, PathOf, Completed, ShortLess, IsRoute, GoesWrong, Accounted;
    var starts := AllStarts(|p.roots|);
    var found := SearchSerial(p, BreadthFirst, starts, Some(1), intermediateStates, false, quantum);
    if found.Err? {
      return Err(found.error);
    }
    FirstIsCanonical(p, starts);
    StartsKnown(p);
    var paths := found.value.0;
    ghost var all := Finished(BfsTrace(p, starts));
    if |paths| == 0 {
      r := Ok(None);
    } else {
      BfsFinishesExactly(p, starts, all[0]);
      assert Key(all[0]) == [RouteOf(all[0]).start] + RouteOf(all[0]).steps;
      r := Ok(Some(paths[0]));
    }
  }

  lemma StartsKnown(p: Problem)
    ensures forall route :: IsRoute(p, route) ==> route.start in AllStarts(|p.roots|)
  {
    forall route | IsRoute(p, route)
      ensures route.start in AllStarts(|p.roots|)
    {
      assert AllStarts(|p.roots|)[route.start] == route.start;
    }
  }
}

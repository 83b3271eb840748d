/**
 * Parallel breadth-first search: chunks of edges are evaluated by workers that
 * share nothing, their accepted edges queue up as pending, and small frontiers
 * fall back on the serial cursor. Workers are independent steps whose results are
 * collected in order.
 */
module ParallelBreadthFirst {
  import opened Wrappers
  import opened Enumeration
  import opened Limits
  import opened Stats
  import opened Arena
  import opened DfsStack
  import opened BfsQueue
  import opened BfsChunks
  import opened Cursors

  lemma DivCeilPositive(n: nat, d: nat)
    requires n >= 1 && d >= 1
    ensures (n + d - 1) / d >= 1
  {
  }

  /** Looks at all jobs, in consecutive groups of at most `width`; the results keep the jobs' order. */
  method EvaluateJobs(p: Problem, arena: seq<PathEntry>, ghost walks: seq<Walk>, jobs: seq<Job>, width: nat,
                      parallel: bool)
    returns (r: Result<seq<PendingEdge>, EngineError>, stats: SearchStats)
    requires ArenaOk(arena, walks) && JobsOk(p, walks, jobs) && p.maxVisits >= 1 && width >= 1
    ensures r.Err? ==> HasFault(JobsOutcomes(p, walks, jobs))
    ensures r.Ok? ==> Evaluated(walks, JobsOutcomes(p, walks, jobs), r.value, stats)
    ensures r.Ok? ==> stats.parallelEdges == if parallel then stats.evaluatedEdges else 0
  {
    hide Evaluated, JobsOutcomes, ArenaOk, Merge, HasFault, JobOk, Degree;
    var edges: seq<PendingEdge> := [];
    stats := ZERO;
    var next := 0;
    NothingEvaluated(p, walks, jobs[..0]);
    while next < |jobs|
      invariant next <= |jobs| && JobsOk(p, walks, jobs[..next])
      invariant Evaluated(walks, JobsOutcomes(p, walks, jobs[..next]), edges, stats)
      invariant stats.parallelEdges == if parallel then stats.evaluatedEdges else 0
    {
      var end := if next + width < |jobs| then next + width else |jobs|;
      var group := jobs[next..end];
      var worker, counted := EvaluateGroup(p, arena, walks, group, parallel);
      assert jobs[..next] + group == jobs[..end];
      JobsOutcomesConcat(p, walks, jobs[..next], group);
      if worker.Err? {
        assert jobs == jobs[..end] + jobs[end..];
        JobsOutcomesConcat(p, walks, jobs[..end], jobs[end..]);
        FaultWithin(JobsOutcomes(p, walks, jobs[..next]), JobsOutcomes(p, walks, group),
                    JobsOutcomes(p, walks, jobs[end..]));
        return Err(worker.error), stats;
      }
      EvaluatedConcat(walks, JobsOutcomes(p, walks, jobs[..next]), edges, stats,
                      JobsOutcomes(p, walks, group), worker.value, counted);
      edges := edges + worker.value;
      stats := Merge(stats, counted);
      next := end;
    }
    assert jobs[..next] == jobs;
    r := Ok(edges);
  }

  lemma FaultWithin(a: seq<Event>, b: seq<Event>, c: seq<Event>)
    requires HasFault(b)
    ensures HasFault(a + b + c)
  {
    var e :| e in b && IsFault(e);
    assert e in a + b + c;
  }

  /** One worker's group of jobs; what it evaluates beside others counts as parallel. */
  method EvaluateGroup(p: Problem, arena: seq<PathEntry>, ghost walks: seq<Walk>, jobs: seq<Job>, parallel: bool)
    returns (r: Result<seq<PendingEdge>, EngineError>, stats: SearchStats)
    requires ArenaOk(arena, walks) && JobsOk(p, walks, jobs) && p.maxVisits >= 1
    ensures r.Err? ==> HasFault(JobsOutcomes(p, walks, jobs))
    ensures r.Ok? ==> Evaluated(walks, JobsOutcomes(p, walks, jobs), r.value, stats)
    ensures r.Ok? ==> stats.parallelEdges == if parallel then stats.evaluatedEdges else 0
  {
    hide Evaluated, JobsOutcomes, ArenaOk, Merge, RangeOutcomes;
    var edges: seq<PendingEdge> := [];
    stats := ZERO;
    NothingEvaluated(p, walks, jobs[..0]);
    for n := 0 to |jobs|
      invariant JobsOk(p, walks, jobs[..n])
      invariant Evaluated(walks, JobsOutcomes(p, walks, jobs[..n]), edges, stats) && stats.parallelEdges == 0
    {
      var job := jobs[n];
      var looked, counted := EvaluateJob(p, arena, walks, job);
      if looked.Err? {
        ghost var at :| job.from <= at < job.to && Outcome(p, walks[job.parent], at).Broken?;
        BrokenInJobs(p, walks, jobs, n, at);
        return Err(looked.error), stats;
      }
      assert jobs[..n] + [job] == jobs[..n + 1];
      OneJob(p, walks, job);
      JobsOutcomesConcat(p, walks, jobs[..n], [job]);
      EvaluatedConcat(walks, JobsOutcomes(p, walks, jobs[..n]), edges, stats,
                      JobsOutcomes(p, walks, [job]), looked.value, counted);
      edges := edges + looked.value;
      stats := Merge(stats, counted);
    }
    assert jobs[..|jobs|] == jobs;
    if parallel {
      CountedInParallel(walks, JobsOutcomes(p, walks, jobs), edges, stats);
      stats := stats.(parallelEdges := stats.evaluatedEdges);
    }
    r := Ok(edges);
  }

  lemma CountedInParallel(walks: seq<Walk>, events: seq<Event>, edges: seq<PendingEdge>, stats: SearchStats)
    requires Evaluated(walks, events, edges, stats)
    ensures Evaluated(walks, events, edges, stats.(parallelEdges := stats.evaluatedEdges))
  {
  }

  lemma OneJob(p: Problem, walks: seq<Walk>, job: Job)
    requires JobOk(p, walks, job)
    ensures JobsOk(p, walks, [job])
    ensures JobsOutcomes(p, walks, [job]) == RangeOutcomes(p, walks[job.parent], job.from, job.to)
  {
    assert [job][1..] == [];
  }

  class ParallelBfs {
    const cursor: Cursor
    const threads: nat
    const minFrontier: nat
    const minEdges: nat
    var pending: seq<PendingEdge>
    /** The events whose accepted edges are pending. */
    ghost var events: seq<Event>

    ghost predicate Valid()
      reads this, cursor
    {
      && cursor.ValidWith(events) && cursor.strategy.BreadthFirst? && threads >= 1
      && (!cursor.aborted && !cursor.done ==> PendingOk(cursor.walks, pending, events))
    }

    constructor (cursor: Cursor, threads: nat, minFrontier: nat, minEdges: nat)
      requires cursor.Valid() && cursor.strategy.BreadthFirst? && threads >= 1
      ensures Valid() && this.cursor == cursor && pending == []
    {
      this.cursor, this.threads, this.minFrontier, this.minEdges := cursor, threads, minFrontier, minEdges;
      pending, events := [], [];
    }

    /** Moves still to be made; every round of a pull makes one. */
    ghost function Moves(): int
      reads this, cursor
    {
      cursor.Moves() + 2 * |pending|
    }

    /** The state within a pull: an initialized, running search. */
    ghost predicate Running()
      reads this, cursor
    {
      && cursor.Sane() && cursor.strategy.BreadthFirst? && threads >= 1
      && !cursor.aborted && !cursor.done && cursor.initialized
      && cursor.BfsActive(events) && PendingOk(cursor.walks, pending, events)
      && cursor.WithinLimit()
    }

    /**
     * A fault is among what happens up to the last path asked for, or less than one quantum of
     * edges behind it, which a chunk may look ahead.
     */
    ghost predicate FaultLookedAt() {
      cursor.quantum >= 1 && FaultNear(cursor.Full(), cursor.maxPaths, cursor.quantum - 1)
    }

    /** Pushes the first pending edge. */
    method SettleFirst(paths: seq<GraphPath>) returns (more: seq<GraphPath>)
      requires Running() && pending != [] && !cursor.LimitReached()
      modifies `pending, `events, cursor`arena, cursor`walks, cursor`frontier, cursor`stats, cursor`settled
      ensures Running() && Moves() < old(Moves()) && events == old(events)[1..]
      ensures cursor.settled == old(cursor.settled) + [old(events)[0]]
      ensures more == paths + (if old(events)[0].Finish?
                               then [PathOf(old(events)[0].to, cursor.intermediateStates)] else [])
    {
      hide BfsState, BfsTrace, StatsOf, PathOf, ArenaOk, Merge, SettleUnit, Finished, Settling, BooksOk, RestOk,
           EdgeOk, Queue;
      hide Limited, Extended, DfsTrace, PendingOk, Evaluates, LookUnit, NoFault;
      var c := cursor;
      FirstPends(c.walks, pending, events);
      ghost var full, e := BfsTrace(c.p, c.plan), events[0];
      ghost var arena0, walks0, frontier0, stats0 := c.arena, c.walks, c.frontier, c.stats;
      BfsArena(c.p, c.arena, c.walks, c.frontier, c.bfsEdge, c.bfsCount, c.stats, c.log, c.settled, events, full);
      var first := pending[0];
      more := c.SettleBfs(first.parent, Some(first.edge), e.to.at, e, paths);
      SettleMove(c.p, arena0, walks0, frontier0, c.bfsEdge, c.bfsCount, stats0, c.log, c.settled, events, full,
                 c.arena, c.walks, c.frontier, c.stats);
      PendingRest(walks0, c.walks, pending, events);
      FinishedMore(c.settled, e);
      c.settled := c.settled + [e];
      pending := pending[1..];
      events := events[1..];
    }

    /** Pushes pending edges until a batch is full, the limit is met or none is left. */
    method Drain(limit: nat) returns (paths: seq<GraphPath>)
      requires Running() && limit >= 1 && !cursor.LimitReached() && cursor.delivered == Finished(cursor.settled)
      modifies `pending, `events, cursor`arena, cursor`walks, cursor`frontier, cursor`stats, cursor`settled,
               cursor`delivered
      ensures Running() && Moves() <= old(Moves()) && |paths| <= limit
      ensures cursor.delivered == Finished(cursor.settled) && old(cursor.delivered) <= cursor.delivered
      ensures paths == PathsOf(cursor.delivered[|old(cursor.delivered)|..], cursor.intermediateStates)
      ensures paths == [] ==> pending == [] && events == [] && !cursor.LimitReached()
    {
      hide BfsState, BfsTrace, StatsOf, PathOf, Finished, PathsOf, Settling;
      var c := cursor;
      ghost var full, base := BfsTrace(c.p, c.plan), c.delivered;
      paths := [];
      var running := true;
      while running && pending != []
        invariant Running() && Moves() <= old(Moves())
        invariant c.Found(base, paths) && |paths| <= limit && c.delivered == base
        invariant running ==> |paths| < limit && !c.LimitReached()
        invariant !running ==> |paths| > 0
        invariant |paths| == 0 ==> !c.LimitReached()
        decreases |pending|
      {
        ghost var e := events[0];
        FoundMore(base, c.settled, e, c.intermediateStates);
        var before := |paths|;
        paths := SettleFirst(paths);
        BfsBooks(c.p, c.arena, c.walks, c.frontier, c.bfsEdge, c.bfsCount, c.stats, c.log, c.settled, events, full);
        if |paths| > before {
          var limited := c.AtLimit();
          running := |paths| < limit && !limited;
        }
      }
      BfsBooks(c.p, c.arena, c.walks, c.frontier, c.bfsEdge, c.bfsCount, c.stats, c.log, c.settled, events, full);
      FinishedBehind(c.log, c.settled, events, c.Full(), c.maxPaths);
      c.delivered := Finished(c.settled);
    }

    /** Whether the frontier is small enough for the serial cursor. */
    method UseDirect() returns (direct: bool)
      requires Running() && cursor.frontier != []
    {
      hide BfsState;
      var c := cursor;
      BfsArena(c.p, c.arena, c.walks, c.frontier, c.bfsEdge, c.bfsCount, c.stats, c.log, c.settled, events,
               BfsTrace(c.p, c.plan));
      var depth := c.arena[c.frontier[0]].depth;
      var frontierEdges := 0;
      var i := 0;
      var open := |c.frontier| < minFrontier;
      while open && i < |c.frontier|
        invariant i <= |c.frontier|
        decreases |c.frontier| - i, open
      {
        var entry := c.arena[c.frontier[i]];
        if entry.depth != depth || frontierEdges >= minEdges {
          open := false;
        } else {
          frontierEdges := frontierEdges + |Out(c.p, entry.node)|;
          i := i + 1;
        }
      }
      direct := |c.frontier| < minFrontier && frontierEdges < minEdges;
    }

    /** A chunk under construction: `jobs` took the front of what was still to come. */
    ghost predicate Taking(jobs: seq<Job>)
      reads this, cursor
    {
      var c := cursor;
      && ArenaOk(c.arena, c.walks) && AllLive(c.p, c.walks) && InArena(c.walks, c.frontier)
      && JobsOk(c.p, c.walks, jobs) && threads >= 1 && c.quantum >= 1
      && EdgeOk(c.p, Queue(c.walks, c.frontier), c.bfsEdge, c.bfsCount)
      && RestOk(c.p, Queue(c.walks, c.frontier), c.bfsEdge, c.log + JobsOutcomes(c.p, c.walks, jobs),
                JobsOutcomes(c.p, c.walks, jobs), BfsTrace(c.p, c.plan))
    }

    /** Takes the next range of the front's edges, or an exhausted front, off the queue. */
    method TakeNext(jobs: seq<Job>, room: nat) returns (more: seq<Job>, taken: nat)
      requires Taking(jobs) && cursor.frontier != [] && room >= 1
      modifies cursor`frontier, cursor`bfsEdge, cursor`bfsCount
      ensures Taking(more) && jobs <= more
      ensures taken == 0 ==> more == jobs && |cursor.frontier| == |old(cursor.frontier)| - 1
      ensures taken > 0 ==>
                && 1 <= taken <= room && cursor.frontier == old(cursor.frontier)
                && |JobsOutcomes(cursor.p, cursor.walks, more)| == |JobsOutcomes(cursor.p, cursor.walks, jobs)| + taken
    {
      hide RestOk, AllLive, JobsOutcomes, BfsTrace;
      var c := cursor;
      ghost var full, events := BfsTrace(c.p, c.plan), JobsOutcomes(c.p, c.walks, jobs);
      var parent := c.frontier[0];
      ghost var w := c.walks[parent];
      assert EntryOk(c.arena, c.walks, parent);
      var count: nat;
      match c.bfsCount {
        case Some(cached) => count := cached;
        case None => count := if c.arena[parent].depth >= c.p.maxDepth then 0 else |Out(c.p, c.arena[parent].node)|;
      }
      c.bfsCount := Some(count);
      if c.bfsEdge == count {
        TakeFront(c.p, Queue(c.walks, c.frontier), c.bfsEdge, c.log, events, full);
        QueuePop(c.walks, c.frontier);
        c.frontier := c.frontier[1..];
        c.bfsEdge := 0;
        c.bfsCount := None;
        return jobs, 0;
      }
      var share := (c.quantum + threads - 1) / threads;
      DivCeilPositive(c.quantum, threads);
      var most := c.bfsEdge + (if room < share then room else share);
      var end := if count < most then count else most;
      var job := Job(parent, c.bfsEdge, end);
      OneJob(c.p, c.walks, job);
      JobsOutcomesConcat(c.p, c.walks, jobs, [job]);
      RangeLength(c.p, w, c.bfsEdge, end);
      TakeRange(c.p, Queue(c.walks, c.frontier), c.bfsEdge, end, c.log, events, full);
      more := jobs + [job];
      taken := end - c.bfsEdge;
      c.bfsEdge := end;
    }

    /** Collects up to a quantum of edges of the front's depth. */
    method TakeJobs() returns (jobs: seq<Job>, total: nat)
      requires Taking([]) && cursor.frontier != []
      modifies cursor`frontier, cursor`bfsEdge, cursor`bfsCount
      ensures Taking(jobs) && |cursor.frontier| <= |old(cursor.frontier)|
      ensures |cursor.frontier| < |old(cursor.frontier)| || |JobsOutcomes(cursor.p, cursor.walks, jobs)| > 0
      ensures |JobsOutcomes(cursor.p, cursor.walks, jobs)| == total <= cursor.quantum
    {
      hide Taking, JobsOutcomes;
      var c := cursor;
      jobs, total := [], 0;
      NothingTaken(c.p, c.walks);
      TakingFacts([]);
      var depth := c.arena[c.frontier[0]].depth;
      while total < c.quantum && c.frontier != [] && c.arena[c.frontier[0]].depth == depth
        invariant Taking(jobs) && JobsOk(c.p, c.walks, jobs) && InArena(c.arena, c.frontier)
        invariant |c.frontier| <= |old(c.frontier)|
        invariant |c.frontier| == |old(c.frontier)| ==> c.frontier == old(c.frontier)
        invariant |JobsOutcomes(c.p, c.walks, jobs)| == total <= c.quantum
        invariant total > 0 ==> |c.frontier| < |old(c.frontier)| || |JobsOutcomes(c.p, c.walks, jobs)| > 0
        decreases |c.frontier|, c.quantum - total
      {
        var more, taken := TakeNext(jobs, c.quantum - total);
        jobs, total := more, total + taken;
        TakingFacts(jobs);
      }
    }

    lemma TakingFacts(jobs: seq<Job>)
      requires Taking(jobs)
      ensures JobsOk(cursor.p, cursor.walks, jobs) && cursor.quantum >= 1
      ensures InArena(cursor.arena, cursor.frontier) && ArenaOk(cursor.arena, cursor.walks)
    {
    }

    /** Takes a chunk of edges off the queue and looks at them; the accepted ones become pending. */
    method Chunk() returns (r: Result<(), EngineError>)
      requires Running() && pending == [] && events == [] && cursor.frontier != []
      modifies `pending, `events
      modifies cursor`frontier, cursor`bfsEdge, cursor`bfsCount, cursor`bfsPrefetched, cursor`stats, cursor`log
      ensures cursor.log <= BfsTrace(cursor.p, cursor.plan)
      ensures r.Err? ==> FaultAmong(BfsTrace(cursor.p, cursor.plan), |old(cursor.log)|, cursor.quantum)
      ensures r.Ok? ==> Running() && Moves() < old(Moves())
      ensures r.Ok? ==>
                cursor.stats.parallelEdges - old(cursor.stats.parallelEdges) ==
                if |cursor.log| - |old(cursor.log)| >= minEdges || |old(cursor.frontier)| >= minFrontier
                then cursor.stats.evaluatedEdges - old(cursor.stats.evaluatedEdges) else 0
    {
      hide BfsState, BfsTrace, StatsOf, HasFault, BooksOk, RestOk, Evaluated, JobsOutcomes, Settling, Merge, LookedAt;
      hide FaultAmong, ParallelWithin, Bare, NoFault, AllAccepted, EdgeOk, PendingOk, ArenaOk, AllLive, Finished, Queue;
      var c := cursor;
      ghost var full := BfsTrace(c.p, c.plan);
      BfsBooks(c.p, c.arena, c.walks, c.frontier, c.bfsEdge, c.bfsCount, c.stats, c.log, c.settled, [], full);
      BfsArena(c.p, c.arena, c.walks, c.frontier, c.bfsEdge, c.bfsCount, c.stats, c.log, c.settled, [], full);
      c.bfsPrefetched := 0;
      var frontierCount := |c.frontier|;
      NoJobs(c.p, c.walks, Queue(c.walks, c.frontier), c.bfsEdge, c.log, full);
      var jobs, total := TakeJobs();
      ghost var looked := JobsOutcomes(c.p, c.walks, jobs);
      var parallel := total >= minEdges || frontierCount >= minFrontier;
      var width := if parallel then (|jobs| + threads - 1) / threads else |jobs|;
      var edges, counted := EvaluateJobs(c.p, c.arena, c.walks, jobs, if width < 1 then 1 else width, parallel);
      if edges.Err? {
        assert Taking(jobs);
        FaultTaken(c.p, Queue(c.walks, c.frontier), c.bfsEdge, c.log, looked, full, c.quantum);
        return Err(edges.error);
      }
      MergeChunk(jobs, edges.value, counted);
      r := Ok(());
    }

    /** The results of a chunk: counters added, accepted edges pending. */
    method MergeChunk(ghost jobs: seq<Job>, edges: seq<PendingEdge>, counted: SearchStats)
      requires Taking(jobs) && BooksOk(cursor.stats, cursor.log, cursor.settled, [])
      requires Evaluated(cursor.walks, JobsOutcomes(cursor.p, cursor.walks, jobs), edges, counted)
      requires cursor.frames == []
      modifies `pending, `events, cursor`stats, cursor`log
      ensures events == Settling(JobsOutcomes(cursor.p, cursor.walks, jobs))
      ensures cursor.log == old(cursor.log) + JobsOutcomes(cursor.p, cursor.walks, jobs)
      ensures cursor.log <= BfsTrace(cursor.p, cursor.plan)
      ensures cursor.BfsActive(events) && PendingOk(cursor.walks, pending, events)
      ensures |pending| <= |JobsOutcomes(cursor.p, cursor.walks, jobs)|
      ensures cursor.stats.parallelEdges == old(cursor.stats.parallelEdges) + counted.parallelEdges
      ensures cursor.stats.evaluatedEdges == old(cursor.stats.evaluatedEdges) + counted.evaluatedEdges
    {
      hide BfsState, BfsTrace, StatsOf, BooksOk, RestOk, Evaluated, JobsOutcomes, Settling, Merge, LookedAt, ArenaOk;
      var c := cursor;
      ghost var full, looked := BfsTrace(c.p, c.plan), JobsOutcomes(c.p, c.walks, jobs);
      JobsEdgeEvents(c.p, c.walks, jobs);
      LiveJobs(c.p, c.walks, jobs);
      ghost var before := c.stats;
      MergeParallel(c.stats, counted);
      c.stats := Merge(c.stats, counted);
      ChunkStats(c.walks, looked, edges, counted, before, c.log, c.settled);
      ChunkMove(c.p, c.arena, c.walks, c.frontier, c.bfsEdge, c.bfsCount, before, c.log, c.settled, full, looked,
                c.stats);
      c.log := c.log + looked;
      pending := edges;
      events := Settling(looked);
      BfsBooks(c.p, c.arena, c.walks, c.frontier, c.bfsEdge, c.bfsCount, c.stats, c.log, c.settled, events, full);
      SettlingShorter(looked);
    }

    /** The next batch of paths, `None` when the search is over. */
    method Pull(size: nat) returns (r: Result<Option<seq<GraphPath>>, EngineError>)
      requires Valid() && (cursor.aborted ==> cursor.done) && size >= 1
      modifies this, cursor
      ensures Valid() && (r.Err? ==> cursor.aborted) && (r.Ok? ==> cursor.aborted == old(cursor.aborted))
      ensures r.Err? ==> FaultLookedAt() && cursor.delivered == old(cursor.delivered)
      ensures r.Ok? && r.value.None? ==>
                && cursor.done && cursor.delivered == old(cursor.delivered)
                && (!cursor.aborted ==> cursor.delivered == cursor.Expected())
      ensures r.Ok? && r.value.Some? ==>
                && !cursor.aborted && old(cursor.delivered) <= cursor.delivered
                && 1 <= |r.value.value| <= size
                && r.value.value == PathsOf(cursor.delivered[|old(cursor.delivered)|..], cursor.intermediateStates)
    {
      hide BfsState, DfsState, HasFault, FaultNear, StatsOf, Finished, PathsOf, Limited, Settling, PendingOk, IsFault;
      var c := cursor;
      if c.done {
        if !c.aborted {
          c.RunOver(events);
        }
        return Ok(None);
      }
      var ready := Prepare();
      if ready.Err? {
        return Err(ready.error);
      }
      ghost var base := c.delivered;
      var found: seq<GraphPath> := [];
      NothingFound(base, base, c.intermediateStates);
      while !c.done && |found| == 0
        invariant Valid() && !c.aborted && (!c.done && |found| == 0 ==> Running())
        invariant base <= c.delivered && |found| <= size
        invariant found == PathsOf(c.delivered[|base|..], c.intermediateStates)
        decreases |found| == 0, !c.done, Moves()
      {
        NothingFound(base, c.delivered, c.intermediateStates);
        var round := Round(size);
        if round.Err? {
          return Err(round.error);
        }
        found := round.value;
      }
      if |found| > 0 {
        r := Ok(Some(found));
      } else {
        NothingFound(base, c.delivered, c.intermediateStates);
        c.RunOver(events);
        r := Ok(None);
      }
    }

    /** Initializes the cursor before the first round. */
    method Prepare() returns (r: Result<(), EngineError>)
      requires Valid() && !cursor.aborted && !cursor.done
      modifies this, cursor
      ensures Valid() && (r.Err? <==> cursor.aborted) && cursor.delivered == old(cursor.delivered)
      ensures r.Err? ==> FaultLookedAt()
      ensures r.Ok? && !cursor.done ==> Running()
    {
      hide BfsState, DfsState, HasFault, FaultNear, StatsOf, Finished, Limited, Settling, Cut;
      var c := cursor;
      LimitedLength(Finished(c.Full()), c.maxPaths);
      if c.initialized {
        return Ok(());
      }
      r := c.Initialize();
      if r.Err? {
        NearCut(c.Full(), c.maxPaths, c.quantum - 1);
      }
    }

    /** One round of a pull: settle what is pending, else search on, directly or by a chunk. */
    method Round(size: nat) returns (r: Result<seq<GraphPath>, EngineError>)
      requires Valid() && Running() && size >= 1
      modifies this, cursor
      ensures Valid() && (r.Err? <==> cursor.aborted)
      ensures r.Err? ==> FaultLookedAt() && cursor.delivered == old(cursor.delivered)
      ensures r.Ok? ==>
                && old(cursor.delivered) <= cursor.delivered && |r.value| <= size
                && r.value == PathsOf(cursor.delivered[|old(cursor.delivered)|..], cursor.intermediateStates)
                && (r.value == [] && !cursor.done ==> Running() && Moves() < old(Moves()))
    {
      hide BfsState, BfsTrace, HasFault, FaultNear, StatsOf, Finished, PathsOf, Limited, Settling;
      var c := cursor;
      ghost var full := BfsTrace(c.p, c.plan);
      LimitedLength(Finished(c.Full()), c.maxPaths);
      BfsBooks(c.p, c.arena, c.walks, c.frontier, c.bfsEdge, c.bfsCount, c.stats, c.log, c.settled, events, full);
      NothingFound(c.delivered, c.delivered, c.intermediateStates);
      var limited := c.AtLimit();
      if limited {
        c.done := true;
        return Ok([]);
      }
      var drained := Drain(size);
      BfsBooks(c.p, c.arena, c.walks, c.frontier, c.bfsEdge, c.bfsCount, c.stats, c.log, c.settled, events, full);
      if |drained| > 0 {
        return Ok(drained);
      }
      NothingFound(old(c.delivered), c.delivered, c.intermediateStates);
      if c.frontier == [] {
        c.done := true;
        return Ok([]);
      }
      r := SearchOn(size);
    }

    /** Searches on with nothing pending: a serial pull for a small frontier, else a chunk. */
    method SearchOn(size: nat) returns (r: Result<seq<GraphPath>, EngineError>)
      requires Running() && pending == [] && events == [] && cursor.frontier != [] && size >= 1
      requires cursor.delivered == Finished(cursor.settled) && !cursor.LimitReached()
      modifies this, cursor
      ensures Valid() && (r.Err? <==> cursor.aborted)
      ensures r.Err? ==> FaultLookedAt() && cursor.delivered == old(cursor.delivered)
      ensures r.Ok? ==>
                && old(cursor.delivered) <= cursor.delivered && |r.value| <= size
                && r.value == PathsOf(cursor.delivered[|old(cursor.delivered)|..], cursor.intermediateStates)
                && (r.value == [] && !cursor.done ==> Running() && Moves() < old(Moves()))
    {
      hide BfsState, BfsTrace, HasFault, FaultNear, StatsOf, Finished, PathsOf, Limited, Settling, Tight, Cut;
      var c := cursor;
      ghost var full := BfsTrace(c.p, c.plan);
      NothingFound(c.delivered, c.delivered, c.intermediateStates);
      BfsBooks(c.p, c.arena, c.walks, c.frontier, c.bfsEdge, c.bfsCount, c.stats, c.log, c.settled, events, full);
      var direct := UseDirect();
      if direct {
        FinishedAlike(c.log, c.settled);
        TightBelow(c.log, c.maxPaths);
        r := c.AdvanceBfs(size);
        if r.Err? {
          NearCut(c.Full(), c.maxPaths, c.quantum - 1);
        }
        LimitedLength(Finished(c.Full()), c.maxPaths);
      } else {
        FinishedAlike(c.log, c.settled);
        ghost var before := c.log;
        var chunk := Chunk();
        if chunk.Err? {
          NearAhead(before, full, c.maxPaths, c.quantum);
          c.aborted := true;
          return Err(chunk.error);
        }
        BfsBooks(c.p, c.arena, c.walks, c.frontier, c.bfsEdge, c.bfsCount, c.stats, c.log, c.settled, events, full);
        r := Ok([]);
      }
    }

    /** Ends the search and drops what is pending. */
    method Close()
      requires cursor.Sane() && cursor.strategy.BreadthFirst? && threads >= 1
      modifies this, cursor
      ensures cursor.Sane() && cursor.done && cursor.delivered == old(cursor.delivered)
      ensures cursor.aborted == (old(cursor.aborted) || !old(cursor.done))
      ensures cursor.log == old(cursor.log) && cursor.settled == old(cursor.settled)
      ensures cursor.stats == old(cursor.stats) && events == old(events)
    {
      cursor.Close();
      pending := [];
    }

    /**
     * The next batch, exactly as serial breadth-first search specifies it: the
     * same expected deliveries, in the same order, whatever the batch sizes, the
     * chunks, the workers and the switching between chunks and the serial cursor.
     */
    method NextBatch(size: nat) returns (r: Result<Option<seq<GraphPath>>, EngineError>)
      requires Valid() && (cursor.aborted ==> cursor.done)
      modifies this, cursor
      ensures Valid() && (cursor.aborted ==> cursor.done)
      ensures size == 0 ==> r == Err(ZeroBatch)
      ensures r.Err? ==>
                && cursor.delivered == old(cursor.delivered) && cursor.aborted
                && (size == 0 || FaultLookedAt())
      ensures r.Ok? ==> cursor.aborted == old(cursor.aborted)
      ensures r.Ok? && r.value.None? ==>
                && cursor.done && cursor.delivered == old(cursor.delivered)
                && (!cursor.aborted ==> cursor.delivered == cursor.Expected())
      ensures r.Ok? && r.value.Some? ==>
                && old(cursor.delivered) <= cursor.delivered <= cursor.Expected()
                && 1 <= |r.value.value| <= size
                && r.value.value == PathsOf(cursor.delivered[|old(cursor.delivered)|..], cursor.intermediateStates)
    {
      if size == 0 {
        Close();
        cursor.aborted := true;
        return Err(ZeroBatch);
      }
      r := Pull(size);
      if r.Err? || r.value.None? {
        Close();
      }
    }
  }
}

/**
 * Breadth-first search in chunks: ranges of edges are taken off the front of the
 * queue first, looked at later, and settled last. The ranges cover the edges once
 * and in order, so a chunk is the beginning of what the serial search would do.
 */
module BfsChunks {
  import opened Wrappers
  import opened Enumeration
  import opened Limits
  import opened Routes
  import opened Stats
  import opened Arena
  import opened BfsQueue

  /** Edge positions `from` up to `to` of the arena entry `parent`. */
  datatype Job = Job(parent: nat, from: nat, to: nat)

  ghost predicate JobOk(p: Problem, walks: seq<Walk>, job: Job) {
    job.parent < |walks| && job.from <= job.to <= Degree(p, walks[job.parent])
  }

  ghost predicate JobsOk(p: Problem, walks: seq<Walk>, jobs: seq<Job>) {
    forall i :: 0 <= i < |jobs| ==> JobOk(p, walks, jobs[i])
  }

  ghost function RangeOutcomes(p: Problem, w: Walk, i: nat, j: nat): seq<Event>
    requires i <= j <= Degree(p, w)
    decreases j - i
  {
    if i == j then [] else [Outcome(p, w, i)] + RangeOutcomes(p, w, i + 1, j)
  }

  ghost function JobsOutcomes(p: Problem, walks: seq<Walk>, jobs: seq<Job>): seq<Event>
    requires JobsOk(p, walks, jobs)
  {
    if jobs == [] then [] else
    RangeOutcomes(p, walks[jobs[0].parent], jobs[0].from, jobs[0].to) + JobsOutcomes(p, walks, jobs[1..])
  }

  lemma {:induction false} JobsOutcomesConcat(p: Problem, walks: seq<Walk>, a: seq<Job>, b: seq<Job>)
    requires JobsOk(p, walks, a) && JobsOk(p, walks, b)
    ensures JobsOk(p, walks, a + b)
    ensures JobsOutcomes(p, walks, a + b) == JobsOutcomes(p, walks, a) + JobsOutcomes(p, walks, b)
  {
    if a == [] {
      assert a + b == b;
    } else {
      assert (a + b)[1..] == a[1..] + b;
      JobsOutcomesConcat(p, walks, a[1..], b);
      var head := RangeOutcomes(p, walks[a[0].parent], a[0].from, a[0].to);
      assert head + (JobsOutcomes(p, walks, a[1..]) + JobsOutcomes(p, walks, b)) ==
             head + JobsOutcomes(p, walks, a[1..]) + JobsOutcomes(p, walks, b);
    }
  }

  lemma {:induction false} RangeLength(p: Problem, w: Walk, i: nat, j: nat)
    requires i <= j <= Degree(p, w)
    ensures |RangeOutcomes(p, w, i, j)| == j - i
    decreases j - i
  {
    if i < j {
      RangeLength(p, w, i + 1, j);
    }
  }

  lemma {:induction false} RangeOutcomesMore(p: Problem, w: Walk, i: nat, j: nat)
    requires i <= j < Degree(p, w)
    ensures RangeOutcomes(p, w, i, j + 1) == RangeOutcomes(p, w, i, j) + [Outcome(p, w, j)]
    decreases j - i
  {
    if i < j {
      RangeOutcomesMore(p, w, i + 1, j);
    } else {
      assert RangeOutcomes(p, w, i + 1, j + 1) == [];
    }
  }

  /** Outcomes of edges: neither starts nor anything but what looking at an edge yields. */
  ghost predicate EdgeEvents(events: seq<Event>) {
    forall i :: 0 <= i < |events| ==> !events[i].Begin? && !events[i].Unknown?
  }

  lemma {:induction false} RangeEdgeEvents(p: Problem, w: Walk, i: nat, j: nat)
    requires i <= j <= Degree(p, w)
    ensures EdgeEvents(RangeOutcomes(p, w, i, j))
    decreases j - i
  {
    if i < j {
      RangeEdgeEvents(p, w, i + 1, j);
    }
  }

  lemma {:induction false} JobsEdgeEvents(p: Problem, walks: seq<Walk>, jobs: seq<Job>)
    requires JobsOk(p, walks, jobs)
    ensures EdgeEvents(JobsOutcomes(p, walks, jobs))
  {
    if jobs != [] {
      RangeEdgeEvents(p, walks[jobs[0].parent], jobs[0].from, jobs[0].to);
      JobsEdgeEvents(p, walks, jobs[1..]);
    }
  }

  // ---------------------------------------------------------------------------
  // Taking edges off the queue.

  lemma QueueUnfolds(p: Problem, queue: seq<Walk>, i: nat)
    requires queue != [] && i < Degree(p, queue[0])
    ensures var next := Enqueue(queue, Outcome(p, queue[0], i));
            && Positioned(p, next, i + 1) && next != [] && next[0] == queue[0]
            && QueueTrace(p, queue, i) == [Outcome(p, queue[0], i)] + QueueTrace(p, next, i + 1)
  {
    PressureDrops(p, queue, i);
  }

  lemma ExtendedCons(e: Event, rest: seq<Event>)
    ensures Extended([e] + rest) == (if e.Extend? then [e.to] else []) + Extended(rest)
  {
    assert ([e] + rest)[1..] == rest;
  }

  lemma EnqueueExtended(queue: seq<Walk>, e: Event, rest: seq<Event>)
    ensures queue + Extended([e] + rest) == Enqueue(queue, e) + Extended(rest)
  {
    ExtendedCons(e, rest);
    hide Extended;
  }

  /** A range of the front's edges is what a queue search does first. */
  lemma {:induction false} RangeTrace(p: Problem, queue: seq<Walk>, i: nat, j: nat)
    requires queue != [] && i <= j <= Degree(p, queue[0])
    ensures var events := RangeOutcomes(p, queue[0], i, j);
            Positioned(p, queue + Extended(events), j) &&
            QueueTrace(p, queue, i) == events + QueueTrace(p, queue + Extended(events), j)
    decreases j - i
  {
    if i < j {
      RangeTrace(p, Enqueue(queue, Outcome(p, queue[0], i)), i + 1, j);
      RangeTraceStep(p, queue, i, j);
    } else {
      assert queue + Extended(RangeOutcomes(p, queue[0], i, j)) == queue;
    }
  }

  lemma RangeTraceStep(p: Problem, queue: seq<Walk>, i: nat, j: nat)
    requires queue != [] && i < j <= Degree(p, queue[0])
    requires var next := Enqueue(queue, Outcome(p, queue[0], i));
             next != [] && next[0] == queue[0] &&
             var rest := RangeOutcomes(p, queue[0], i + 1, j);
             Positioned(p, next, i + 1) && Positioned(p, next + Extended(rest), j) &&
             QueueTrace(p, next, i + 1) == rest + QueueTrace(p, next + Extended(rest), j)
    ensures var events := RangeOutcomes(p, queue[0], i, j);
            Positioned(p, queue + Extended(events), j) &&
            QueueTrace(p, queue, i) == events + QueueTrace(p, queue + Extended(events), j)
  {
    hide QueueTrace, Outcome, Extended, RangeOutcomes, Enqueue, Positioned, Degree;
    var e := Outcome(p, queue[0], i);
    var rest := RangeOutcomes(p, queue[0], i + 1, j);
    var next := Enqueue(queue, e);
    QueueUnfolds(p, queue, i);
    RangeCons(p, queue[0], i, j);
    EnqueueExtended(queue, e, rest);
    Reassociate(e, rest, QueueTrace(p, next + Extended(rest), j));
  }

  lemma RangeCons(p: Problem, w: Walk, i: nat, j: nat)
    requires i < j <= Degree(p, w)
    ensures RangeOutcomes(p, w, i, j) == [Outcome(p, w, i)] + RangeOutcomes(p, w, i + 1, j)
  {
  }

  lemma Reassociate(e: Event, a: seq<Event>, b: seq<Event>)
    ensures [e] + (a + b) == [e] + a + b
  {
  }

  /** While a chunk is collected: `events` are the outcomes of the edges taken so far. */
  lemma TakeRange(p: Problem, queue: seq<Walk>, edge: nat, end: nat, log: seq<Event>, events: seq<Event>,
                  full: seq<Event>)
    requires queue != [] && edge <= end <= Degree(p, queue[0])
    requires RestOk(p, queue, edge, log + events, events, full)
    ensures var more := events + RangeOutcomes(p, queue[0], edge, end);
            RestOk(p, queue, end, log + more, more, full)
  {
    hide QueueTrace, RangeOutcomes, Extended;
    var range := RangeOutcomes(p, queue[0], edge, end);
    var whole := queue + Extended(events);
    assert whole[0] == queue[0];
    RangeTrace(p, whole, edge, end);
    ExtendedConcat(events, range);
    assert whole + Extended(range) == queue + Extended(events + range);
    var rest := QueueTrace(p, whole + Extended(range), end);
    assert log + events + (range + rest) == log + (events + range) + rest;
  }

  lemma TakeFront(p: Problem, queue: seq<Walk>, edge: nat, log: seq<Event>, events: seq<Event>, full: seq<Event>)
    requires queue != [] && edge == Degree(p, queue[0])
    requires RestOk(p, queue, edge, log + events, events, full)
    ensures RestOk(p, queue[1..], 0, log + events, events, full)
  {
    assert (queue + Extended(events))[1..] == queue[1..] + Extended(events);
  }

  // ---------------------------------------------------------------------------
  // Looking at the edges of a chunk and keeping the accepted ones.

  lemma {:induction false} SettlingExtends(events: seq<Event>)
    ensures Extended(Settling(events)) == Extended(events)
  {
    if events != [] {
      SettlingExtends(events[1..]);
      var rest := Settling(events[1..]);
      if IsAccepted(events[0]) || IsBegin(events[0]) {
        assert Settling(events)[1..] == rest;
      } else {
        assert Settling(events) == rest;
      }
    }
  }

  lemma {:induction false} EdgeEventsAccepted(events: seq<Event>)
    requires EdgeEvents(events)
    ensures AllAccepted(Settling(events))
  {
    if events != [] {
      EdgeEventsAccepted(events[1..]);
    }
  }

  lemma {:induction false} LiveSettling(p: Problem, events: seq<Event>)
    requires LiveExtensions(p, events)
    ensures LiveExtensions(p, Settling(events))
  {
    if events != [] {
      assert LiveExtensions(p, events[1..]);
      LiveSettling(p, events[1..]);
    }
  }

  lemma {:induction false} LiveRange(p: Problem, w: Walk, i: nat, j: nat)
    requires Live(p, w) && i <= j <= Degree(p, w)
    ensures LiveExtensions(p, RangeOutcomes(p, w, i, j))
    decreases j - i
  {
    if i < j {
      LiveRange(p, w, i + 1, j);
      var e := Outcome(p, w, i);
      assert e.Extend? ==> e.to.Step? && e.to.prev == w && e.to.at == i;
    }
  }

  lemma {:induction false} LiveJobs(p: Problem, walks: seq<Walk>, jobs: seq<Job>)
    requires AllLive(p, walks) && JobsOk(p, walks, jobs)
    ensures LiveExtensions(p, JobsOutcomes(p, walks, jobs))
  {
    if jobs != [] {
      assert JobOk(p, walks, jobs[0]);
      LiveRange(p, walks[jobs[0].parent], jobs[0].from, jobs[0].to);
      LiveJobs(p, walks, jobs[1..]);
    }
  }

  /** The chunk has been looked at: its accepted edges are pending. */
  lemma ChunkMove(p: Problem, arena: seq<PathEntry>, walks: seq<Walk>, frontier: seq<nat>,
                  edge: nat, count: Option<nat>, before: SearchStats, log: seq<Event>,
                  settled: seq<Event>, full: seq<Event>, events: seq<Event>, after: SearchStats)
    requires ArenaOk(arena, walks) && AllLive(p, walks) && InArena(walks, frontier)
    requires EdgeOk(p, Queue(walks, frontier), edge, count)
    requires BooksOk(before, log, settled, [])
    requires RestOk(p, Queue(walks, frontier), edge, log + events, events, full)
    requires EdgeEvents(events) && NoFault(events) && LiveExtensions(p, events)
    requires Bare(after) == Merge(Bare(before), LookedAt(events)) && ParallelWithin(after)
    ensures BfsState(p, arena, walks, frontier, edge, count, after, log + events, settled, Settling(events), full)
  {
    hide ArenaOk, AllLive, EdgeOk, StatsOf, QueueTrace, Merge, LookedAt, Settling, Extended, Queue, Positioned, Bare,
         ParallelWithin;
    LookMore(log, settled, events);
    SettlingConcat(log, events);
    SettlingExtends(events);
    EdgeEventsAccepted(events);
    LiveSettling(p, events);
    assert Settling(settled) + [] + Settling(events) == Settling(settled) + Settling(events);
  }

  // ---------------------------------------------------------------------------
  // Settling pending edges.

  /** A pending edge as the cursor keeps it. */
  datatype PendingEdge = PendingEdge(parent: nat, edge: EdgeEval)

  /** `q` carries the accepted event `e`. */
  ghost predicate Pends(walks: seq<Walk>, q: PendingEdge, e: Event) {
    && q.parent < |walks| && IsAccepted(e) && e.to.Step?
    && Carries(e, walks[q.parent], e.to.at, q.edge)
  }

  ghost predicate PendingOk(walks: seq<Walk>, pending: seq<PendingEdge>, events: seq<Event>) {
    && |pending| == |events|
    && forall i :: 0 <= i < |events| ==> Pends(walks, pending[i], events[i])
  }

  lemma SettleBooks(stats: SearchStats, log: seq<Event>, settled: seq<Event>, pending: seq<Event>, after: SearchStats)
    requires pending != [] && BooksOk(stats, log, settled, pending)
    requires after == Merge(stats, SettleUnit(pending[0]))
    ensures BooksOk(after, log, settled + [pending[0]], pending[1..])
  {
    SettleOne(log, settled, pending[0]);
    BareMerge(stats, SettleUnit(pending[0]));
    SettlingMore(settled, pending[0]);
    assert IsAccepted(pending[0]);
    assert Settling(settled) + pending == Settling(settled) + [pending[0]] + pending[1..];
  }

  lemma SettleRest(p: Problem, queue: seq<Walk>, edge: nat, log: seq<Event>, pending: seq<Event>, full: seq<Event>)
    requires pending != [] && RestOk(p, queue, edge, log, pending, full)
    ensures RestOk(p, Enqueue(queue, pending[0]), edge, log, pending[1..], full)
  {
    assert pending == [pending[0]] + pending[1..];
    ExtendedCons(pending[0], pending[1..]);
    assert queue + Extended(pending) == Enqueue(queue, pending[0]) + Extended(pending[1..]);
  }

  lemma SettleQueue(walks: seq<Walk>, frontier: seq<nat>, e: Event, next: seq<Walk>, queued: seq<nat>)
    requires InArena(walks, frontier)
    requires next == (if e.Extend? then walks + [e.to] else walks)
    requires queued == (if e.Extend? then frontier + [|walks|] else frontier)
    ensures InArena(next, queued) && Queue(next, queued) == Enqueue(Queue(walks, frontier), e)
  {
    if e.Extend? {
      QueueGrow(walks, frontier, e.to);
    }
  }

  /** Settling the first pending edge. */
  lemma SettleMove(p: Problem, arena: seq<PathEntry>, walks: seq<Walk>, frontier: seq<nat>,
                   edge: nat, count: Option<nat>, stats: SearchStats, log: seq<Event>,
                   settled: seq<Event>, pending: seq<Event>, full: seq<Event>,
                   grown: seq<PathEntry>, next: seq<Walk>, queued: seq<nat>, after: SearchStats)
    requires BfsState(p, arena, walks, frontier, edge, count, stats, log, settled, pending, full)
    requires pending != []
    requires var e := pending[0];
             && next == (if e.Extend? then walks + [e.to] else walks) && ArenaOk(grown, next)
             && queued == (if e.Extend? then frontier + [|walks|] else frontier)
             && after == Merge(stats, SettleUnit(e))
    ensures BfsState(p, grown, next, queued, edge, count, after, log,
                     settled + [pending[0]], pending[1..], full)
  {
    hide ArenaOk, StatsOf, Live, Merge, SettleUnit, QueueTrace, BooksOk, RestOk, Settling, Extended;
    SettleQueue(walks, frontier, pending[0], next, queued);
    SettleBooks(stats, log, settled, pending, after);
    SettleRest(p, Queue(walks, frontier), edge, log, pending, full);
  }

  /** What the first pending edge stands for. */
  lemma FirstPends(walks: seq<Walk>, pending: seq<PendingEdge>, events: seq<Event>)
    requires PendingOk(walks, pending, events) && pending != []
    ensures |events| == |pending| && IsAccepted(events[0]) && events[0].to.Step?
    ensures var q, e := pending[0], events[0];
            q.parent < |walks| && Evaluates(e, walks[q.parent], e.to.at, Ok(Some(q.edge)))
  {
    assert Pends(walks, pending[0], events[0]);
  }

  lemma PendingRest(walks: seq<Walk>, next: seq<Walk>, pending: seq<PendingEdge>, events: seq<Event>)
    requires PendingOk(walks, pending, events) && walks <= next && pending != []
    ensures |events| == |pending| && PendingOk(next, pending[1..], events[1..])
  {
    forall i | 0 <= i < |events| - 1
      ensures Pends(next, pending[1..][i], events[1..][i])
    {
      assert Pends(walks, pending[i + 1], events[i + 1]);
    }
  }

  // ---------------------------------------------------------------------------
  // Evaluating.

  /** The edges behind `events` have been looked at, all without error. */
  ghost predicate Evaluated(walks: seq<Walk>, events: seq<Event>, edges: seq<PendingEdge>, stats: SearchStats) {
    && EdgeEvents(events) && NoFault(events)
    && PendingOk(walks, edges, Settling(events))
    && Bare(stats) == LookedAt(events) && ParallelWithin(stats)
  }

  lemma NothingEvaluated(p: Problem, walks: seq<Walk>, jobs: seq<Job>)
    requires jobs == []
    ensures JobsOk(p, walks, jobs) && Evaluated(walks, JobsOutcomes(p, walks, jobs), [], ZERO)
  {
  }

  lemma LookedAtMore(events: seq<Event>, e: Event, before: SearchStats, after: SearchStats)
    requires Bare(before) == LookedAt(events) && after == Merge(before, LookUnit(e))
    ensures Bare(after) == LookedAt(events + [e]) && after.parallelEdges == before.parallelEdges
    ensures ParallelWithin(before) ==> ParallelWithin(after)
  {
    hide Count;
    CountMore(events, e, IsEvaluated);
    CountMore(events, e, IsRefuse);
    CountMore(events, e, IsSkip);
  }

  lemma LookedAtConcat(a: seq<Event>, b: seq<Event>, x: SearchStats, y: SearchStats)
    requires Bare(x) == LookedAt(a) && Bare(y) == LookedAt(b)
    ensures Bare(Merge(x, y)) == LookedAt(a + b)
    ensures ParallelWithin(x) && ParallelWithin(y) ==> ParallelWithin(Merge(x, y))
  {
    hide Count;
    CountConcat(a, b, IsEvaluated);
    CountConcat(a, b, IsRefuse);
    CountConcat(a, b, IsSkip);
  }

  lemma EvaluatedMore(p: Problem, walks: seq<Walk>, events: seq<Event>, edges: seq<PendingEdge>, before: SearchStats,
                      parent: nat, at: nat, looked: Option<EdgeEval>, after: SearchStats)
    requires Evaluated(walks, events, edges, before) && parent < |walks| && at < Degree(p, walks[parent])
    requires Evaluates(Outcome(p, walks[parent], at), walks[parent], at, Ok(looked))
    requires after == Merge(before, LookUnit(Outcome(p, walks[parent], at)))
    ensures Evaluated(walks, events + [Outcome(p, walks[parent], at)],
                      if looked.Some? then edges + [PendingEdge(parent, looked.value)] else edges, after)
    ensures after.parallelEdges == before.parallelEdges
  {
    hide LookedAt, Merge, LookUnit, Outcome;
    var e := Outcome(p, walks[parent], at);
    LookedAtMore(events, e, before, after);
    SettlingMore(events, e);
    assert !e.Begin? && !e.Unknown? by { OutcomeKind(p, walks[parent], at); }
    if looked.Some? {
      assert Pends(walks, PendingEdge(parent, looked.value), e);
    }
  }

  lemma OutcomeKind(p: Problem, w: Walk, i: nat)
    requires i < Degree(p, w)
    ensures !Outcome(p, w, i).Begin? && !Outcome(p, w, i).Unknown?
  {
  }

  lemma EvaluatedConcat(walks: seq<Walk>, a: seq<Event>, x: seq<PendingEdge>, s: SearchStats,
                        b: seq<Event>, y: seq<PendingEdge>, t: SearchStats)
    requires Evaluated(walks, a, x, s) && Evaluated(walks, b, y, t)
    ensures Evaluated(walks, a + b, x + y, Merge(s, t))
    ensures Merge(s, t).parallelEdges == s.parallelEdges + t.parallelEdges
    ensures Merge(s, t).evaluatedEdges == s.evaluatedEdges + t.evaluatedEdges
  {
    hide LookedAt, Merge, Settling;
    MergeParallel(s, t);
    LookedAtConcat(a, b, s, t);
    SettlingConcat(a, b);
  }

  lemma BrokenInJobs(p: Problem, walks: seq<Walk>, jobs: seq<Job>, n: nat, at: nat)
    requires JobsOk(p, walks, jobs) && n < |jobs| && jobs[n].from <= at < jobs[n].to
    requires Outcome(p, walks[jobs[n].parent], at).Broken?
    ensures HasFault(JobsOutcomes(p, walks, jobs))
  {
    var w := walks[jobs[n].parent];
    InRange(p, w, jobs[n].from, jobs[n].to, at);
    assert jobs == jobs[..n] + ([jobs[n]] + jobs[n + 1..]);
    assert JobsOk(p, walks, jobs[n..]);
    JobsOutcomesConcat(p, walks, jobs[..n], jobs[n..]);
    assert jobs == jobs[..n] + jobs[n..];
    assert Outcome(p, w, at) in JobsOutcomes(p, walks, jobs[n..]);
    assert Outcome(p, w, at) in JobsOutcomes(p, walks, jobs);
  }

  lemma {:induction false} InRange(p: Problem, w: Walk, i: nat, j: nat, at: nat)
    requires i <= at < j <= Degree(p, w)
    ensures Outcome(p, w, at) in RangeOutcomes(p, w, i, j)
    decreases j - i
  {
    if i < at {
      InRange(p, w, i + 1, j, at);
    }
  }

  /** Looks at the edges of one job with private counters. */
  method EvaluateJob(p: Problem, arena: seq<PathEntry>, ghost walks: seq<Walk>, job: Job)
    returns (r: Result<seq<PendingEdge>, EngineError>, stats: SearchStats)
    requires ArenaOk(arena, walks) && JobOk(p, walks, job) && p.maxVisits >= 1
    ensures r.Err? ==> exists at :: job.from <= at < job.to && Outcome(p, walks[job.parent], at).Broken?
    ensures r.Ok? ==> Evaluated(walks, RangeOutcomes(p, walks[job.parent], job.from, job.to), r.value, stats)
    ensures r.Ok? ==> stats.parallelEdges == 0
  {
    ghost var w := walks[job.parent];
    stats := ZERO;
    var edges: seq<PendingEdge> := [];
    assert EntryOk(arena, walks, job.parent);
    var arcs := Out(p, arena[job.parent].node);
    var at := job.from;
    assert RangeOutcomes(p, w, at, at) == [];
    while at < job.to
      invariant job.from <= at <= job.to
      invariant Evaluated(walks, RangeOutcomes(p, w, job.from, at), edges, stats) && stats.parallelEdges == 0
    {
      hide Evaluated, Outcome, RangeOutcomes, ArenaOk, Merge, LookUnit;
      RangeOutcomesMore(p, w, job.from, at);
      ghost var before, kept := stats, edges;
      var looked, counted := EvalArenaEdge(p, arena, walks, job.parent, at, arcs[at], stats);
      if looked.Err? {
        return Err(looked.error), counted;
      }
      stats := counted;
      if looked.value.Some? {
        edges := edges + [PendingEdge(job.parent, looked.value.value)];
      }
      EvaluatedMore(p, walks, RangeOutcomes(p, w, job.from, at), kept, before, job.parent, at, looked.value, stats);
      at := at + 1;
    }
    r := Ok(edges);
  }

  lemma NothingTaken(p: Problem, walks: seq<Walk>)
    ensures JobsOutcomes(p, walks, []) == []
  {
  }

  lemma NoJobs(p: Problem, walks: seq<Walk>, queue: seq<Walk>, edge: nat, log: seq<Event>, full: seq<Event>)
    requires RestOk(p, queue, edge, log, [], full)
    ensures JobsOk(p, walks, [])
    ensures RestOk(p, queue, edge, log + JobsOutcomes(p, walks, []), JobsOutcomes(p, walks, []), full)
  {
    assert log + [] == log;
  }

  /** A fault among the events taken comes right behind those before them. */
  lemma FaultTaken(p: Problem, queue: seq<Walk>, edge: nat, log: seq<Event>, events: seq<Event>, full: seq<Event>,
                   count: nat)
    requires RestOk(p, queue, edge, log + events, events, full) && HasFault(events) && |events| <= count
    ensures FaultAmong(full, |log|, count)
  {
    hide QueueTrace, Extended;
    var k :| 0 <= k < |events| && IsFault(events[k]);
    assert full[|log| + k] == (log + events)[|log| + k] == events[k];
  }

  lemma ChunkStats(walks: seq<Walk>, events: seq<Event>, edges: seq<PendingEdge>, counted: SearchStats,
                   before: SearchStats, log: seq<Event>, settled: seq<Event>)
    requires Evaluated(walks, events, edges, counted) && BooksOk(before, log, settled, [])
    ensures NoFault(events) && EdgeEvents(events) && PendingOk(walks, edges, Settling(events))
    ensures Bare(Merge(before, counted)) == Merge(Bare(before), LookedAt(events))
    ensures ParallelWithin(Merge(before, counted))
  {
  }

  lemma {:induction false} SettlingShorter(events: seq<Event>)
    ensures |Settling(events)| <= |events|
  {
    if events != [] {
      SettlingShorter(events[1..]);
    }
  }
}

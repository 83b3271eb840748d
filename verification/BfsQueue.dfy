/** The breadth-first frontier as a queue of walks. */
module BfsQueue {
  import opened Wrappers
  import opened Enumeration
  import opened Routes
  import opened Orders
  import opened Stats
  import opened Arena
  import opened DfsStack

  ghost predicate InArena<T>(arena: seq<T>, frontier: seq<nat>) {
    forall i :: 0 <= i < |frontier| ==> frontier[i] < |arena|
  }

  /** The walks that the frontier's arena indices stand for. */
  ghost function Queue(walks: seq<Walk>, frontier: seq<nat>): (q: seq<Walk>)
    requires InArena(walks, frontier)
    ensures |q| == |frontier|
    ensures forall i :: 0 <= i < |q| ==> q[i] == walks[frontier[i]]
  {
    if frontier == [] then [] else [walks[frontier[0]]] + Queue(walks, frontier[1..])
  }

  lemma QueuePop(walks: seq<Walk>, frontier: seq<nat>)
    requires InArena(walks, frontier) && frontier != []
    ensures InArena(walks, frontier[1..])
    ensures Queue(walks, frontier[1..]) == Queue(walks, frontier)[1..]
  {
  }

  lemma QueueGrow(walks: seq<Walk>, frontier: seq<nat>, w: Walk)
    requires InArena(walks, frontier)
    ensures InArena(walks + [w], frontier) && InArena(walks + [w], frontier + [|walks|])
    ensures Queue(walks + [w], frontier) == Queue(walks, frontier)
    ensures Queue(walks + [w], frontier + [|walks|]) == Queue(walks, frontier) + [w]
  {
  }

  /** The walks that `events` continue, in order. */
  ghost function Extended(events: seq<Event>): seq<Walk> {
    if events == [] then [] else
    (if events[0].Extend? then [events[0].to] else []) + Extended(events[1..])
  }

  lemma {:induction false} ExtendedConcat(a: seq<Event>, b: seq<Event>)
    ensures Extended(a + b) == Extended(a) + Extended(b)
  {
    if a == [] {
      assert a + b == b;
    } else {
      assert (a + b)[1..] == a[1..] + b;
      ExtendedConcat(a[1..], b);
      var head := if a[0].Extend? then [a[0].to] else [];
      assert head + (Extended(a[1..]) + Extended(b)) == head + Extended(a[1..]) + Extended(b);
    }
  }

  // ---------------------------------------------------------------------------
  // The cursor's breadth-first state, as values.

  ghost predicate AllLive(p: Problem, walks: seq<Walk>) {
    forall i :: 0 <= i < |walks| ==> Live(p, walks[i])
  }

  ghost predicate AllAccepted(events: seq<Event>) {
    forall i :: 0 <= i < |events| ==> IsAccepted(events[i])
  }

  /** The position within the edges of the front of the queue, and its cached edge count. */
  ghost predicate EdgeOk(p: Problem, queue: seq<Walk>, edge: nat, count: Option<nat>) {
    if queue == [] then edge == 0 && count == None
    else edge <= Degree(p, queue[0]) && (count.Some? ==> count.value == Degree(p, queue[0]))
  }

  /** Edges looked at (`log`) against outcomes settled: the accepted rest is pending. */
  ghost predicate BooksOk(stats: SearchStats, log: seq<Event>, settled: seq<Event>, pending: seq<Event>) {
    && Bare(stats) == StatsOf(log, settled) && ParallelWithin(stats)
    && Settling(log) == Settling(settled) + pending
    && AllAccepted(pending) && NoFault(log)
  }

  ghost predicate LiveExtensions(p: Problem, events: seq<Event>) {
    forall i :: 0 <= i < |events| && events[i].Extend? ==> Live(p, events[i].to)
  }

  /** What is to come is a queue search from the frontier followed by the pending walks. */
  ghost predicate RestOk(p: Problem, queue: seq<Walk>, edge: nat, log: seq<Event>, pending: seq<Event>,
                         full: seq<Event>)
  {
    && Positioned(p, queue + Extended(pending), edge)
    && full == log + QueueTrace(p, queue + Extended(pending), edge)
  }

  ghost predicate BfsState(p: Problem, arena: seq<PathEntry>, walks: seq<Walk>, frontier: seq<nat>,
                           edge: nat, count: Option<nat>, stats: SearchStats, log: seq<Event>,
                           settled: seq<Event>, pending: seq<Event>, full: seq<Event>)
  {
    && ArenaOk(arena, walks) && AllLive(p, walks) && InArena(walks, frontier)
    && EdgeOk(p, Queue(walks, frontier), edge, count)
    && BooksOk(stats, log, settled, pending) && LiveExtensions(p, pending)
    && RestOk(p, Queue(walks, frontier), edge, log, pending, full)
  }

  /** What the state says of the front of the queue. */
  lemma FrontEntry(p: Problem, arena: seq<PathEntry>, walks: seq<Walk>, frontier: seq<nat>,
                   edge: nat, count: Option<nat>, stats: SearchStats, log: seq<Event>,
                   settled: seq<Event>, pending: seq<Event>, full: seq<Event>)
    requires BfsState(p, arena, walks, frontier, edge, count, stats, log, settled, pending, full)
    requires frontier != []
    ensures frontier[0] < |arena| == |walks| && ArenaOk(arena, walks) && InArena(walks, frontier)
    ensures var w := walks[frontier[0]];
            && arena[frontier[0]].node == w.node && arena[frontier[0]].depth == Depth(w)
            && edge <= Degree(p, w) && (count.Some? ==> count.value == Degree(p, w))
  {
    assert EntryOk(arena, walks, frontier[0]);
  }

  lemma BfsBooks(p: Problem, arena: seq<PathEntry>, walks: seq<Walk>, frontier: seq<nat>,
                 edge: nat, count: Option<nat>, stats: SearchStats, log: seq<Event>,
                 settled: seq<Event>, pending: seq<Event>, full: seq<Event>)
    requires BfsState(p, arena, walks, frontier, edge, count, stats, log, settled, pending, full)
    ensures Bare(stats) == StatsOf(log, settled) && ParallelWithin(stats) && log <= full
    ensures Settling(log) == Settling(settled) + pending && AllAccepted(pending) && NoFault(log)
    ensures |arena| == |walks| && InArena(walks, frontier)
    ensures frontier == [] && pending == [] ==> log == full && Settling(log) == Settling(settled)
  {
  }

  lemma BfsArena(p: Problem, arena: seq<PathEntry>, walks: seq<Walk>, frontier: seq<nat>,
                 edge: nat, count: Option<nat>, stats: SearchStats, log: seq<Event>,
                 settled: seq<Event>, pending: seq<Event>, full: seq<Event>)
    requires BfsState(p, arena, walks, frontier, edge, count, stats, log, settled, pending, full)
    ensures ArenaOk(arena, walks) && AllLive(p, walks) && |arena| == |walks|
    ensures InArena(walks, frontier) && EdgeOk(p, Queue(walks, frontier), edge, count)
    ensures BooksOk(stats, log, settled, pending) && RestOk(p, Queue(walks, frontier), edge, log, pending, full)
  {
  }

  /** Leaving an exhausted front. */
  lemma BfsPopMove(p: Problem, arena: seq<PathEntry>, walks: seq<Walk>, frontier: seq<nat>,
                   edge: nat, count: Option<nat>, stats: SearchStats, log: seq<Event>,
                   settled: seq<Event>, full: seq<Event>)
    requires BfsState(p, arena, walks, frontier, edge, count, stats, log, settled, [], full)
    requires frontier != [] && frontier[0] < |walks| && edge == Degree(p, walks[frontier[0]])
    ensures BfsState(p, arena, walks, frontier[1..], 0, None, stats, log, settled, [], full)
  {
    var queue := Queue(walks, frontier);
    QueuePop(walks, frontier);
    assert queue + Extended([]) == queue;
    assert queue[1..] + Extended([]) == queue[1..];
  }

  lemma SettlingMore(events: seq<Event>, e: Event)
    ensures Settling(events + [e]) == Settling(events) + if IsAccepted(e) || IsBegin(e) then [e] else []
  {
    SettlingConcat(events, [e]);
  }

  lemma BooksStep(stats: SearchStats, log: seq<Event>, settled: seq<Event>, e: Event, after: SearchStats)
    requires BooksOk(stats, log, settled, []) && !IsFault(e)
    requires after == Merge(Merge(stats, LookUnit(e)), SettleUnit(e))
    ensures BooksOk(after, log + [e], settled + [e], [])
  {
    StatsStep(log, settled, e, stats, after);
    SettlingMore(log, e);
    SettlingMore(settled, e);
    hide StatsOf, Settling;
  }

  /** The edge of the front that is looked at next. */
  ghost predicate LookingAhead(p: Problem, queue: seq<Walk>, edge: nat, e: Event) {
    queue != [] && edge < Degree(p, queue[0]) && e == Outcome(p, queue[0], edge)
  }

  lemma FrontLooks(p: Problem, walks: seq<Walk>, frontier: seq<nat>, edge: nat)
    requires InArena(walks, frontier) && frontier != [] && frontier[0] < |walks|
    requires edge < Degree(p, walks[frontier[0]])
    ensures LookingAhead(p, Queue(walks, frontier), edge, Outcome(p, walks[frontier[0]], edge))
  {
    hide Degree, Outcome;
  }

  lemma BrokenAhead(p: Problem, queue: seq<Walk>, edge: nat, log: seq<Event>, full: seq<Event>, e: Event)
    requires RestOk(p, queue, edge, log, [], full) && LookingAhead(p, queue, edge, e) && e.Broken?
    ensures FaultNext(log, full)
  {
    assert queue + Extended([]) == queue;
    PressureDrops(p, queue, edge);
    FaultAhead(log, e, QueueTrace(p, Enqueue(queue, e), edge + 1), full);
  }

  lemma RestStep(p: Problem, queue: seq<Walk>, edge: nat, log: seq<Event>, full: seq<Event>, e: Event)
    requires RestOk(p, queue, edge, log, [], full) && LookingAhead(p, queue, edge, e)
    ensures RestOk(p, Enqueue(queue, e), edge + 1, log + [e], [], full)
  {
    assert queue + Extended([]) == queue;
    PressureDrops(p, queue, edge);
    assert Enqueue(queue, e) + Extended([]) == Enqueue(queue, e);
    Advance(log, e, QueueTrace(p, Enqueue(queue, e), edge + 1));
  }

  lemma QueueStep(p: Problem, walks: seq<Walk>, frontier: seq<nat>, edge: nat, e: Event,
                  next: seq<Walk>, queued: seq<nat>)
    requires AllLive(p, walks) && InArena(walks, frontier) && LookingAhead(p, Queue(walks, frontier), edge, e)
    requires next == (if e.Extend? then walks + [e.to] else walks)
    requires queued == (if e.Extend? then frontier + [|walks|] else frontier)
    ensures AllLive(p, next) && InArena(next, queued)
    ensures Queue(next, queued) == Enqueue(Queue(walks, frontier), e)
  {
    hide Live, Outcome, Degree;
    if e.Extend? {
      QueueGrow(walks, frontier, e.to);
      LiveNext(p, walks[frontier[0]], edge);
    }
  }

  /** Looking at an edge of the front and settling it at once. */
  lemma BfsEdgeMove(p: Problem, arena: seq<PathEntry>, walks: seq<Walk>, frontier: seq<nat>,
                    edge: nat, count: Option<nat>, stats: SearchStats, log: seq<Event>,
                    settled: seq<Event>, full: seq<Event>, e: Event,
                    grown: seq<PathEntry>, next: seq<Walk>, queued: seq<nat>, after: SearchStats)
    requires BfsState(p, arena, walks, frontier, edge, count, stats, log, settled, [], full)
    requires InArena(walks, frontier) && LookingAhead(p, Queue(walks, frontier), edge, e) && !IsFault(e)
    requires next == (if e.Extend? then walks + [e.to] else walks) && ArenaOk(grown, next)
    requires queued == (if e.Extend? then frontier + [|walks|] else frontier)
    requires after == Merge(Merge(stats, LookUnit(e)), SettleUnit(e))
    ensures BfsState(p, grown, next, queued, edge + 1, count, after, log + [e], settled + [e], [], full)
  {
    var queue := Queue(walks, frontier);
    QueueStep(p, walks, frontier, edge, e, next, queued);
    BooksStep(stats, log, settled, e, after);
    RestStep(p, queue, edge, log, full, e);
    hide BooksOk, RestOk, AllLive, ArenaOk, Outcome;
  }

  lemma BfsFault(p: Problem, arena: seq<PathEntry>, walks: seq<Walk>, frontier: seq<nat>,
                 edge: nat, count: Option<nat>, stats: SearchStats, log: seq<Event>,
                 settled: seq<Event>, full: seq<Event>, e: Event)
    requires BfsState(p, arena, walks, frontier, edge, count, stats, log, settled, [], full)
    requires InArena(walks, frontier) && LookingAhead(p, Queue(walks, frontier), edge, e) && e.Broken?
    ensures FaultNext(log, full)
  {
    BrokenAhead(p, Queue(walks, frontier), edge, log, full, e);
  }

  /** Caching the edge count of the front changes nothing. */
  lemma CacheCount(p: Problem, arena: seq<PathEntry>, walks: seq<Walk>, frontier: seq<nat>,
                   edge: nat, count: Option<nat>, stats: SearchStats, log: seq<Event>,
                   settled: seq<Event>, full: seq<Event>)
    requires BfsState(p, arena, walks, frontier, edge, count, stats, log, settled, [], full)
    requires frontier != [] && frontier[0] < |walks|
    ensures BfsState(p, arena, walks, frontier, edge, Some(Degree(p, walks[frontier[0]])), stats, log,
                     settled, [], full)
  {
  }

  // ---------------------------------------------------------------------------
  // Opening the starts.

  /** The starts opened so far: `walks` and `events` are the beginning of all of them. */
  ghost predicate Opening(p: Problem, starts: seq<nat>, k: nat, arena: seq<PathEntry>, walks: seq<Walk>,
                          frontier: seq<nat>, stats: SearchStats, events: seq<Event>)
  {
    && k <= |starts| && ArenaOk(arena, walks) && AllLive(p, walks)
    && |frontier| == |walks| == |events| == k && NoFault(events)
    && (forall i :: 0 <= i < k ==> frontier[i] == i)
    && Bare(stats) == StatsOf(events, events) && ParallelWithin(stats)
    && StartWalks(p, starts) == walks + StartWalks(p, starts[k..])
    && StartEvents(p, starts) == events + StartEvents(p, starts[k..])
  }

  lemma OpenNext(p: Problem, starts: seq<nat>, k: nat, arena: seq<PathEntry>, walks: seq<Walk>,
                 frontier: seq<nat>, stats: SearchStats, events: seq<Event>, after: SearchStats)
    requires Opening(p, starts, k, arena, walks, frontier, stats, events) && k < |starts|
    requires starts[k] < |p.roots| && p.roots[starts[k]].Some?
    requires after == Merge(Merge(stats, LookUnit(StartEvent(p, starts[k]))), SettleUnit(StartEvent(p, starts[k])))
    ensures Opening(p, starts, k + 1, arena + [RootEntry(p.roots[starts[k]].value)],
                    walks + [StartWalk(p, starts[k])], frontier + [k], after, events + [StartEvent(p, starts[k])])
  {
    var rest := starts[k..];
    assert rest[0] == starts[k] && rest[1..] == starts[k + 1..];
    PushRoot(p, arena, walks, starts[k]);
    assert Live(p, StartWalk(p, starts[k]));
    StatsStep(events, events, StartEvent(p, starts[k]), stats, after);
    hide ArenaOk, StatsOf, Live;
    assert walks + ([StartWalk(p, starts[k])] + StartWalks(p, rest[1..])) ==
           walks + [StartWalk(p, starts[k])] + StartWalks(p, rest[1..]);
    assert events + ([StartEvent(p, starts[k])] + StartEvents(p, rest[1..])) ==
           events + [StartEvent(p, starts[k])] + StartEvents(p, rest[1..]);
  }

  lemma StartEventsNext(p: Problem, starts: seq<nat>, k: nat)
    requires k < |starts|
    ensures StartEvents(p, starts[k..]) == [StartEvent(p, starts[k])] + StartEvents(p, starts[k + 1..])
  {
    assert starts[k..][0] == starts[k] && starts[k..][1..] == starts[k + 1..];
  }

  lemma UnknownAmong(p: Problem, starts: seq<nat>, k: nat, events: seq<Event>)
    requires k < |starts| && StartEvents(p, starts) == events + StartEvents(p, starts[k..])
    requires StartEvent(p, starts[k]).Unknown?
    ensures FaultNext(events, BfsTrace(p, starts)) && Finished(events) == []
  {
    hide StartEvent, StartEvents, QueueTrace, StartWalks, Finished;
    var e, later, rest := StartEvent(p, starts[k]), StartEvents(p, starts[k + 1..]), StartEvents(p, starts[k..]);
    StartEventsNext(p, starts, k);
    var searched := QueueTrace(p, StartWalks(p, starts), 0);
    assert events + ([e] + later) + searched == events + ([e] + (later + searched));
    FaultAhead(events, e, later + searched, BfsTrace(p, starts));
    StartEventsFinishNothing(p, starts);
    FinishedConcat(events, rest);
  }

  lemma OpenedState(p: Problem, starts: seq<nat>, arena: seq<PathEntry>, walks: seq<Walk>,
                    frontier: seq<nat>, stats: SearchStats, events: seq<Event>)
    requires Opening(p, starts, |starts|, arena, walks, frontier, stats, events)
    ensures BfsState(p, arena, walks, frontier, 0, None, stats, events, events, [], BfsTrace(p, starts))
    ensures |events| == |frontier| == |starts| && Finished(events) == []
  {
    assert walks + [] == walks && events + [] == events;
    assert starts[|starts|..] == [];
    assert Queue(walks, frontier) == walks;
    assert walks + Extended([]) == walks;
    StartEventsFinishNothing(p, starts);
  }

  /** Resolves all starts at once; an unknown one fails before anything is searched. */
  method InitialArena(p: Problem, starts: seq<nat>)
    returns (r: Result<(seq<PathEntry>, seq<nat>, SearchStats), EngineError>, ghost walks: seq<Walk>,
             ghost events: seq<Event>)
    ensures r.Err? ==> FaultNext(events, BfsTrace(p, starts)) && Finished(events) == []
    ensures r.Ok? ==> Opening(p, starts, |starts|, r.value.0, walks, r.value.1, r.value.2, events)
    ensures r.Ok? ==> r.value.2.parallelEdges == 0
  {
    var arena: seq<PathEntry>, frontier: seq<nat>, stats := [], [], ZERO;
    walks, events := [], [];
    assert starts[0..] == starts;
    for k := 0 to |starts|
      invariant Opening(p, starts, k, arena, walks, frontier, stats, events) && stats.parallelEdges == 0
    {
      hide ArenaOk, AllLive, StatsOf;
      var start := starts[k];
      if start >= |p.roots| || p.roots[start].None? {
        UnknownAmong(p, starts, k, events);
        return Err(Fault), walks, events;
      }
      ghost var before := stats;
      var index := |arena|;
      stats := stats.(startNodes := stats.startNodes + 1, pathEntries := stats.pathEntries + 1);
      OpenNext(p, starts, k, arena, walks, frontier, before, events, stats);
      frontier := frontier + [index];
      arena := arena + [RootEntry(p.roots[start].value)];
      walks := walks + [StartWalk(p, start)];
      events := events + [StartEvent(p, start)];
    }
    r := Ok((arena, frontier, stats));
  }
}

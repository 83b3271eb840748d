/**
 * The resumable search cursor: serial depth-first and breadth-first search that
 * can pause after any number of paths or units of work, also in the middle of a
 * node's edges.
 */
module Cursors {
  import opened Wrappers
  import opened Enumeration
  import opened Limits
  import opened Stats
  import opened Revisits
  import opened Arena
  import opened DfsStack
  import opened BfsQueue

  lemma NothingYet()
    ensures StatsOf([], []) == ZERO && Finished([]) == [] && Settling([]) == []
  {
  }

  /** One more event adds to the paths found exactly when it completes one. */
  lemma FoundMore(base: seq<Walk>, log: seq<Event>, e: Event, intermediateStates: bool)
    requires base <= Finished(log)
    ensures base <= Finished(log + [e])
    ensures PathsOf(Finished(log + [e])[|base|..], intermediateStates) ==
            PathsOf(Finished(log)[|base|..], intermediateStates) +
            if e.Finish? then [PathOf(e.to, intermediateStates)] else []
    ensures |Finished(log + [e])| == |Finished(log)| + if e.Finish? then 1 else 0
  {
    hide Finished, PathOf;
    FinishedMore(log, e);
    assert Finished(log + [e])[|base|..] ==
           Finished(log)[|base|..] + if e.Finish? then [e.to] else [];
  }

  lemma FinishedAlike(log: seq<Event>, settled: seq<Event>)
    requires Settling(log) == Settling(settled) + []
    ensures Finished(log) == Finished(settled)
  {
    SettlingDecides([], log, settled);
  }

  /** With edges pending, what is settled has found the beginning of what has been looked at. */
  lemma FinishedBehind(log: seq<Event>, settled: seq<Event>, pending: seq<Event>, full: seq<Event>,
                       maxPaths: Option<nat>)
    requires Settling(log) == Settling(settled) + pending && log <= full
    requires maxPaths.Some? ==> |Finished(settled)| <= maxPaths.value
    ensures Finished(settled) <= Limited(Finished(full), maxPaths)
  {
    SettlingCounts(log);
    SettlingCounts(settled);
    FinishedConcat(Settling(settled), pending);
    FinishedPrefix(log, full);
  }

  lemma NothingToDo(p: Problem, strategy: Strategy, starts: seq<nat>)
    ensures starts == [] ==> FullTrace(p, strategy, starts) == []
  {
  }

  lemma NothingFound(before: seq<Walk>, after: seq<Walk>, intermediateStates: bool)
    requires before <= after && PathsOf(after[|before|..], intermediateStates) == []
    ensures before == after
  {
  }

  class Cursor {
    const p: Problem
    const strategy: Strategy
    const maxPaths: Option<nat>
    const intermediateStates: bool
    /** Whether the adapter reports its node count. */
    const dense: bool
    const quantum: nat
    var starts: seq<nat>
    var arena: seq<PathEntry>
    var frames: seq<DfsFrame>
    var frontier: seq<nat>
    var bfsEdge: nat
    var bfsCount: Option<nat>
    var bfsPrefetched: nat
    var nextStart: nat
    var visits: Visits
    var initialized: bool
    var done: bool
    var stats: SearchStats

    /** The requested starts; the field `starts` is dropped on closing. */
    ghost const plan: seq<nat>
    /** The walk of every arena entry. */
    ghost var walks: seq<Walk>
    /** Edges looked at so far, and those among them whose outcome is settled. */
    ghost var log: seq<Event>
    ghost var settled: seq<Event>
    /** Paths handed out so far. */
    ghost var delivered: seq<Walk>
    /** Closed before the search was over, or failed. */
    ghost var aborted: bool

    ghost function Full(): seq<Event> { FullTrace(p, strategy, plan) }

    /** What the cursor delivers when nothing cuts it short. */
    ghost function Expected(): seq<Walk> { Limited(Finished(Full()), maxPaths) }

    /** What happens in a run that nothing cuts short: everything up to the last path asked for. */
    ghost function Happens(): seq<Event> { Cut(Full(), maxPaths) }

    ghost predicate LimitReached()
      reads this
    {
      Enough(settled, maxPaths)
    }

    /** Depth-first state; `hanging` when a child was accepted but has no frame yet. */
    ghost predicate DfsActive(hanging: bool)
      reads this
    {
      && starts == plan && nextStart <= |starts|
      && |arena| == |walks| == |frames| + (if hanging then 1 else 0)
      && DfsState(p, arena, walks, frames, visits, stats, log, starts[nextStart..], DfsTrace(p, plan))
      && frontier == [] && settled == log
    }

    /** Breadth-first state; `pending` are accepted edges not yet pushed. */
    ghost predicate BfsActive(pending: seq<Event>)
      reads this
    {
      && BfsState(p, arena, walks, frontier, bfsEdge, bfsCount, stats, log, settled, pending, BfsTrace(p, plan))
      && frames == []
    }

    ghost predicate Fresh()
      reads this
    {
      && arena == [] && walks == [] && frames == [] && frontier == [] && starts == plan
      && bfsEdge == 0 && bfsCount == None && nextStart == 0 && visits == Sparse(map[])
      && log == [] && settled == [] && delivered == [] && stats == ZERO
    }

    /** What holds throughout, whatever the strategy. */
    ghost predicate Sane()
      reads this
    {
      && quantum >= 1 && p.maxVisits >= 1
      && log <= Full()
      && delivered <= Expected()
    }

    ghost predicate Active(pending: seq<Event>)
      reads this
    {
      if !initialized then Fresh() && pending == []
      else if strategy.DepthFirst? then DfsActive(false) && pending == []
      else BfsActive(pending)
    }

    /** The invariant, with `pending` accepted edges still to be pushed. */
    ghost predicate ValidWith(pending: seq<Event>)
      reads this
    {
      && Sane()
      && (!aborted ==> delivered == Finished(settled) && Bare(stats) == StatsOf(log, settled) && NoFault(log))
      && (!aborted ==> ParallelWithin(stats))
      && (!aborted ==> Settling(log) == Settling(settled) + pending && AllAccepted(pending))
      && (!aborted && strategy.DepthFirst? ==> settled == log)
      && (!aborted && !done ==> Active(pending))
      && (!aborted && done ==> (log == Full() && Settling(settled) == Settling(log)) || LimitReached())
    }

    /** The invariant of the serial search, which looks at nothing after the last path asked for. */
    ghost predicate Valid()
      reads this
    {
      ValidWith([]) && (!aborted ==> Tight(log, maxPaths))
    }

    /** An upper bound on the moves still to be made. */
    ghost function Remaining(): nat
      reads this
    {
      if done || |Full()| < |log| then 0 else 3 * (|Full()| - |log|) + |frames| + |frontier| + 1
    }

    constructor (p: Problem, strategy: Strategy, starts: seq<nat>, maxPaths: Option<nat>,
                 intermediateStates: bool, dense: bool, quantum: nat)
      requires p.maxVisits >= 1 && quantum >= 1
      ensures Valid() && !initialized && !done && !aborted && delivered == [] && log == []
      ensures this.p == p && this.strategy == strategy && this.plan == starts && this.maxPaths == maxPaths
      ensures this.intermediateStates == intermediateStates && stats == ZERO
    {
      this.p, this.strategy, this.starts, this.plan := p, strategy, starts, starts;
      this.maxPaths, this.intermediateStates, this.dense := maxPaths, intermediateStates, dense;
      this.quantum := quantum;
      arena, frames, frontier, bfsEdge, bfsCount, bfsPrefetched := [], [], [], 0, None, 0;
      nextStart, visits, initialized, done, stats := 0, Sparse(map[]), false, false, ZERO;
      walks, log, settled, delivered, aborted := [], [], [], [], false;
      new;
      NothingYet();
    }

    /** `paths` are the completed walks of this pull, those after `base`. */
    ghost predicate Found(base: seq<Walk>, paths: seq<GraphPath>)
      reads this
    {
      base <= Finished(settled) && paths == PathsOf(Finished(settled)[|base|..], intermediateStates)
    }

    ghost predicate WithinLimit()
      reads this
    {
      maxPaths.Some? ==> |Finished(settled)| <= maxPaths.value
    }

    method AtLimit() returns (r: bool)
      requires Bare(stats) == StatsOf(log, settled)
      ensures r <==> LimitReached()
    {
      FinishCount(settled);
      r := maxPaths.Some? && stats.stoppedPaths >= maxPaths.value;
    }

    /** Settles an accepted edge: pushes its entry, and takes it back when it completes a path. */
    method Accept(parent: nat, edge: EdgeEval, ghost at: nat, paths: seq<GraphPath>)
      returns (child: Option<nat>, more: seq<GraphPath>)
      requires ArenaOk(arena, walks) && parent < |arena|
      modifies `arena, `walks, `stats
      ensures ArenaOk(arena, walks)
      ensures var w := ChildWalk(old(walks)[parent], at, edge);
              && stats == Merge(old(stats), SettleUnit(if edge.stop then Finish(w) else Extend(w)))
              && if edge.stop
                 then child == None && arena == old(arena) && walks == old(walks) &&
                      more == paths + [PathOf(w, intermediateStates)]
                 else child == Some(|old(arena)|) && walks == old(walks) + [w] &&
                      |arena| == |walks| && more == paths
    {
      ghost var w := ChildWalk(walks[parent], at, edge);
      PushChild(arena, walks, parent, at, edge);
      var index := |arena|;
      arena := arena + [ChildEntry(arena, parent, edge)];
      walks := walks + [w];
      assert EntryOk(arena, walks, index);
      stats := stats.(
        acceptedEdges := stats.acceptedEdges + 1,
        pathEntries := stats.pathEntries + 1,
        maxDepth := Max(stats.maxDepth, arena[index].depth));
      if edge.stop {
        var path := Materialize(arena, walks, index, intermediateStates);
        more := paths + [path];
        stats := stats.(stoppedPaths := stats.stoppedPaths + 1);
        arena := arena[..|arena| - 1];
        walks := walks[..|walks| - 1];
        child := None;
      } else {
        more := paths;
        child := Some(index);
      }
    }

    // -------------------------------------------------------------------------
    // Depth first.

    /** Opens the next requested start; `false` when there is none left. */
    method Start() returns (r: Result<bool, EngineError>)
      requires DfsActive(false) && frames == [] && p.maxVisits >= 1
      modifies `arena, `walks, `frames, `visits, `stats, `nextStart, `log, `settled
      ensures r.Ok? && !r.value ==> DfsActive(false) && log == old(log) == DfsTrace(p, plan)
      ensures r.Ok? && r.value ==> DfsActive(false) && |frames| == 1 && |log| == |old(log)| + 1
      ensures log <= DfsTrace(p, plan) && (r.Ok? ==> old(log) <= log)
      ensures r.Ok? && r.value ==> Finished(log) == Finished(old(log))
      ensures r.Err? ==> FaultNext(old(log), DfsTrace(p, plan))
      ensures stats.parallelEdges == old(stats.parallelEdges)
    {
      hide DfsState, DfsTrace, Trace, DfsRest, Finished, StatsOf, FaultNext, ArenaOk, RootEntry;
      hide Visits.Increment, Visits.Holds;
      ghost var rest, full := starts[nextStart..], DfsTrace(p, plan);
      StateBooks(p, arena, walks, frames, visits, stats, log, rest, full);
      if nextStart >= |starts| {
        assert rest == [];
        NothingLeft(p, arena, walks, visits, stats, log, full);
        return Ok(false);
      }
      var k := starts[nextStart];
      assert rest[0] == k && rest[1..] == starts[nextStart + 1..];
      if k >= |p.roots| || p.roots[k].None? {
        UnknownStart(p, visits, stats, log, rest, full);
        return Err(Fault);
      }
      nextStart := nextStart + 1;
      var root := p.roots[k].value;
      var counted := stats.(startNodes := stats.startNodes + 1, pathEntries := stats.pathEntries + 1);
      StartMove(p, visits, stats, log, rest, full, counted);
      FinishedMore(log, StartEvent(p, k));
      arena := arena + [RootEntry(root)];
      walks := walks + [StartWalk(p, k)];
      frames := frames + [DfsFrame(0, if p.maxDepth == 0 then 0 else |Out(p, root.node)|)];
      visits := visits.Increment(root.node);
      stats := counted;
      log := log + [StartEvent(p, k)];
      settled := log;
      assert arena == [RootEntry(root)];
      assert walks == [StartWalk(p, k)];
      assert frames == [DfsFrame(0, Degree(p, StartWalk(p, k)))];
      assert DfsState(p, arena, walks, frames, visits, stats, log, rest[1..], full);
      StateBooks(p, arena, walks, frames, visits, stats, log, rest[1..], full);
      r := Ok(true);
    }

    /** Opens the next start of a search that has not found enough. */
    method StartWithin() returns (r: Result<bool, EngineError>)
      requires DfsActive(false) && frames == [] && p.maxVisits >= 1 && !LimitReached()
      modifies `arena, `walks, `frames, `visits, `stats, `nextStart, `log, `settled
      ensures r.Ok? && !r.value ==> log == old(log) == DfsTrace(p, plan)
      ensures r.Ok? && r.value ==> |frames| == 1 && |log| == |old(log)| + 1
      ensures r.Ok? ==> DfsActive(false) && Finished(log) == Finished(old(log)) && Tight(log, maxPaths)
      ensures r.Ok? ==> old(log) <= log <= DfsTrace(p, plan)
      ensures r.Err? ==> HasFault(Cut(DfsTrace(p, plan), maxPaths)) && log <= DfsTrace(p, plan)
      ensures stats.parallelEdges == old(stats.parallelEdges)
    {
      hide DfsState, DfsTrace, HasFault, Finished, Tight, Cut, FaultNext;
      ghost var before := log;
      TightBelow(before, maxPaths);
      r := Start();
      if r.Err? {
        FaultMet(before, DfsTrace(p, plan), maxPaths);
      } else if r.value {
        assert log == before + [log[|before|]];
        TightMore(before, log[|before|], maxPaths);
      }
    }

    /** Settles what evaluating an edge handed back; a continued child is returned. */
    method SettleDfs(parent: nat, edge: Option<EdgeEval>, ghost at: nat, ghost e: Event, paths: seq<GraphPath>)
      returns (r: Result<Option<nat>, EngineError>, more: seq<GraphPath>)
      requires ArenaOk(arena, walks) && parent < |arena| && Evaluates(e, walks[parent], at, Ok(edge))
      modifies `arena, `walks, `stats
      ensures ArenaOk(arena, walks) && |arena| == |walks| && stats == Merge(old(stats), SettleUnit(e))
      ensures walks == (if e.Extend? then old(walks) + [e.to] else old(walks))
      ensures r.Ok? && r.value == (if e.Extend? then Some(|old(arena)|) else None)
      ensures more == paths + (if e.Finish? then [PathOf(e.to, intermediateStates)] else [])
    {
      hide PathOf;
      more := paths;
      var child: Option<nat> := None;
      if edge.Some? {
        child, more := Accept(parent, edge.value, at, more);
      }
      r := Ok(child);
    }

    /** Looks at the next edge of the topmost frame; `Some` is the index of a child to descend into. */
    method LookDfs(parent: nat, arc: Arc, paths: seq<GraphPath>)
      returns (r: Result<Option<nat>, EngineError>, more: seq<GraphPath>)
      requires DfsActive(false) && frames != [] && parent == |frames| - 1 && p.maxVisits >= 1
      requires frames[parent].nextEdge < Degree(p, walks[parent])
      requires arc == Out(p, walks[parent].node)[frames[parent].nextEdge]
      modifies `arena, `walks, `frames, `stats, `log, `settled
      ensures log <= DfsTrace(p, plan)
      ensures r.Ok? ==> stats.parallelEdges == old(stats.parallelEdges)
      ensures r.Err? ==> FaultNext(old(log), DfsTrace(p, plan))
      ensures r.Ok? ==>
                var e := Outcome(p, old(walks)[parent], old(frames)[parent].nextEdge);
                && DfsActive(e.Extend?) && log == old(log) + [e]
                && frames == Bump(old(frames)) && old(walks) <= walks
                && r.value == (if e.Extend? then Some(|frames|) else None)
                && more == paths + (if e.Finish? then [PathOf(e.to, intermediateStates)] else [])
    {
      hide DfsState, DfsTrace, FaultNext, PathOf, ArenaOk, Outcome, Merge, LookUnit, SettleUnit, FramesOk, Occurs,
           Depth;
      ghost var rest, full := starts[nextStart..], DfsTrace(p, plan);
      StateBooks(p, arena, walks, frames, visits, stats, log, rest, full);
      ghost var at, w := frames[parent].nextEdge, walks[parent];
      ghost var e := Outcome(p, w, at);
      TopEntry(p, arena, walks, frames, visits, stats, log, rest, full);
      ghost var arena0, walks0, frames0, stats0 := arena, walks, frames, stats;
      frames := Bump(frames);
      more := paths;
      var looked, counted := EvalCountedEdge(p, w, at, arena[parent].node, arena[parent].state,
                                             visits.Count(arc.dest), arc, stats);
      stats := counted;
      if looked.Err? {
        BrokenEdge(p, arena0, walks0, frames0, visits, stats0, log, rest, full, e);
        return Err(looked.error), more;
      }
      r, more := SettleDfs(parent, looked.value, at, e, more);
      EdgeMove(p, arena0, walks0, frames0, visits, stats0, log, rest, full, e, arena, walks, stats);
      UnitsSerial(stats0, e);
      log := log + [e];
      settled := log;
    }

    /** Visits the edges of the topmost frame from its position up to `end`, until one asks to stop. */
    method ScanDfs(end: nat, limit: nat, before: seq<GraphPath>, ghost base: seq<Walk>)
      returns (r: Result<Option<nat>, EngineError>, paths: seq<GraphPath>, work: nat)
      requires DfsActive(false) && frames != [] && p.maxVisits >= 1
      requires frames[|frames| - 1].nextEdge < end <= Degree(p, walks[|frames| - 1])
      requires |before| < limit && !LimitReached() && Found(base, before)
      modifies `arena, `walks, `frames, `stats, `log, `settled
      ensures log <= DfsTrace(p, plan)
      ensures r.Ok? ==> stats.parallelEdges == old(stats.parallelEdges)
      ensures r.Err? ==> HasFault(Cut(DfsTrace(p, plan), maxPaths))
      ensures r.Ok? ==>
                && DfsActive(r.value.Some?) && Tight(log, maxPaths) && |frames| == |old(frames)|
                && Found(base, paths) && |paths| <= limit && WithinLimit()
                && old(log) < log && work >= 1
                && frames != [] && (r.value.Some? ==> r.value.value == |frames|)
    {
      hide DfsState, DfsTrace, HasFault, FullTrace, Trace, StatsOf, Finished, PathsOf, Outcome, PathOf, Tight, Cut,
           FaultNext;
      var parent := |frames| - 1;
      ghost var w := walks[parent];
      ghost var rest, full := starts[nextStart..], DfsTrace(p, plan);
      StateBooks(p, arena, walks, frames, visits, stats, log, rest, full);
      TopEntry(p, arena, walks, frames, visits, stats, log, rest, full);
      var arcs := Out(p, arena[parent].node);
      var next := frames[parent].nextEdge;
      var accepted: Option<nat> := None;
      var running := true;
      paths, work := before, 0;
      while running && next < end
        invariant next <= end && (work == 0 ==> running && next < end)
        invariant DfsActive(accepted.Some?) && |frames| == parent + 1 && walks[parent] == w
        invariant frames[parent].nextEdge == next && stats.parallelEdges == old(stats.parallelEdges)
        invariant accepted.Some? ==> !running && accepted.value == |frames|
        invariant Found(base, paths) && |paths| <= limit && WithinLimit()
        invariant running ==> |paths| < limit && !LimitReached()
        invariant old(log) <= log <= DfsTrace(p, plan) && (work > 0 ==> old(log) < log && Tight(log, maxPaths))
        decreases end - next
      {
        var arc := arcs[next];
        work := work + 1;
        next := next + 1;
        FoundMore(base, log, Outcome(p, w, next - 1), intermediateStates);
        TightMore(log, Outcome(p, w, next - 1), maxPaths);
        ghost var before := log;
        var looked, more := LookDfs(parent, arc, paths);
        if looked.Err? {
          FaultMet(before, full, maxPaths);
          return Err(looked.error), more, work;
        }
        accepted, paths := looked.value, more;
        StateBooks(p, arena, walks, frames, visits, stats, log, rest, full);
        var limited := AtLimit();
        running := accepted.None? && |paths| < limit && !limited;
      }
      r := Ok(accepted);
    }

    /** Leaves the exhausted walk on top of the stack. */
    method PopDfs()
      requires DfsActive(false) && frames != [] && p.maxVisits >= 1
      requires frames[|frames| - 1].nextEdge == frames[|frames| - 1].edgeCount
      modifies `arena, `walks, `frames, `visits
      ensures DfsActive(false) && |frames| == |old(frames)| - 1
    {
      hide DfsState, DfsTrace, Visits.Decrement, Visits.Holds, Visits.Count;
      ghost var rest, full := starts[nextStart..], DfsTrace(p, plan);
      StateBooks(p, arena, walks, frames, visits, stats, log, rest, full);
      PopMove(p, arena, walks, frames, visits, stats, log, rest, full);
      var node := arena[|arena| - 1].node;
      frames := frames[..|frames| - 1];
      arena := arena[..|arena| - 1];
      walks := walks[..|walks| - 1];
      visits := visits.Decrement(node);
    }

    /** Opens the frame of the child just accepted. */
    method PushDfs(child: nat)
      requires DfsActive(true) && frames != [] && child == |frames| && p.maxVisits >= 1
      modifies `frames, `visits
      ensures DfsActive(false) && |frames| == |old(frames)| + 1
    {
      hide DfsState, DfsTrace, Visits.Increment, Visits.Holds;
      ghost var rest, full := starts[nextStart..], DfsTrace(p, plan);
      PushMove(p, arena, walks, frames, visits, stats, log, rest, full);
      var dest := arena[child].node;
      visits := visits.Increment(dest);
      var edgeCount := if arena[child].depth >= p.maxDepth then 0 else |Out(p, dest)|;
      frames := frames + [DfsFrame(0, edgeCount)];
    }

    /** Moves still to be made, at least one of which every turn of a pull makes. */
    ghost function Moves(): int
      reads this
    {
      3 * (|Full()| - |log|) + |frames| + |frontier|
    }

    /** The state between two turns of a depth-first pull that began after `base`. */
    ghost predicate DfsPulling(base: seq<Walk>, paths: seq<GraphPath>)
      reads this
    {
      && DfsActive(false) && !aborted && p.maxVisits >= 1
      && Found(base, paths) && WithinLimit() && Tight(log, maxPaths) && log <= DfsTrace(p, plan)
    }

    /** One turn of a depth-first pull; `false` when the search is over. */
    method TurnDfs(room: nat, limit: nat, before: seq<GraphPath>, ghost base: seq<Walk>)
      returns (r: Result<bool, EngineError>, paths: seq<GraphPath>, work: nat)
      requires DfsPulling(base, before) && |before| < limit && room >= 1
      modifies `arena, `walks, `frames, `visits, `stats, `nextStart, `log, `settled
      ensures r.Err? ==> HasFault(Cut(DfsTrace(p, plan), maxPaths)) && log <= DfsTrace(p, plan)
      ensures r.Ok? ==> DfsPulling(base, paths) && |paths| <= limit && old(log) <= log
      ensures r.Ok? ==> stats.parallelEdges == old(stats.parallelEdges)
      ensures r.Ok? && r.value ==> Moves() < old(Moves()) && work >= 1
      ensures r.Ok? && !r.value ==> paths == before && (log == DfsTrace(p, plan) || LimitReached())
    {
      hide DfsState, DfsTrace, HasFault, Trace, StatsOf, Finished, PathsOf, Tight, Cut, FaultNext;
      paths, work := before, 0;
      StateBooks(p, arena, walks, frames, visits, stats, log, starts[nextStart..], DfsTrace(p, plan));
      var limited := AtLimit();
      if limited {
        return Ok(false), paths, work;
      }
      if frames == [] {
        var started := StartWithin();
        if started.Err? || !started.value {
          return started, paths, work;
        }
      }
      StateBooks(p, arena, walks, frames, visits, stats, log, starts[nextStart..], DfsTrace(p, plan));
      var frame := frames[|frames| - 1];
      if frame.nextEdge == frame.edgeCount {
        PopDfs();
        return Ok(true), paths, 1;
      }
      var most := frame.nextEdge + room;
      var scanned, found, steps := ScanDfs(if frame.edgeCount < most then frame.edgeCount else most, limit, paths,
                                           base);
      if scanned.Err? {
        return Err(scanned.error), found, steps;
      }
      paths, work := found, steps;
      if scanned.value.Some? {
        PushDfs(scanned.value.value);
      }
      r := Ok(true);
    }

    method AdvanceDfs(limit: nat) returns (r: Result<seq<GraphPath>, EngineError>)
      requires Valid() && !aborted && initialized && !done && strategy.DepthFirst? && limit >= 1
      modifies `arena, `walks, `frames, `visits, `stats, `nextStart, `log, `settled, `done, `delivered, `aborted
      ensures Valid() && (r.Err? <==> aborted)
      ensures r.Err? ==> HasFault(Happens()) && delivered == old(delivered)
      ensures r.Ok? ==>
                && old(delivered) <= delivered && |r.value| <= limit && old(log) <= log
                && r.value == PathsOf(delivered[|old(delivered)|..], intermediateStates)
                && (done || Moves() < old(Moves()))
      ensures r.Ok? ==> stats.parallelEdges == old(stats.parallelEdges)
    {
      hide DfsState, DfsTrace, HasFault, Trace, StatsOf, Finished, PathsOf, Limited, Settling, Tight, Cut, BfsActive;
      var paths: seq<GraphPath> := [];
      var work: nat := 0;
      ghost var base := delivered;
      LimitedLength(Finished(Full()), maxPaths);
      while work < quantum && |paths| < limit
        invariant DfsPulling(base, paths) && |paths| <= limit && !done && delivered == base && old(log) <= log
        invariant Moves() <= old(Moves()) && (work > 0 ==> Moves() < old(Moves()))
        invariant |paths| > 0 ==> work > 0
        invariant stats.parallelEdges == old(stats.parallelEdges)
        decreases quantum - work
      {
        var turned, found, steps := TurnDfs(quantum - work, limit, paths, base);
        if turned.Err? {
          aborted := true;
          return Err(turned.error);
        }
        paths, work := found, work + steps;
        if !turned.value {
          done := true;
          break;
        }
      }
      StateBooks(p, arena, walks, frames, visits, stats, log, starts[nextStart..], DfsTrace(p, plan));
      LimitedPrefix(log, DfsTrace(p, plan), maxPaths);
      delivered := Finished(log);
      r := Ok(paths);
    }

    // -------------------------------------------------------------------------
    // Breadth first.

    /** Settles what evaluating an edge handed back; a continued child joins the queue. */
    method SettleBfs(parent: nat, edge: Option<EdgeEval>, ghost at: nat, ghost e: Event, paths: seq<GraphPath>)
      returns (more: seq<GraphPath>)
      requires ArenaOk(arena, walks) && parent < |arena| && Evaluates(e, walks[parent], at, Ok(edge))
      modifies `arena, `walks, `frontier, `stats
      ensures ArenaOk(arena, walks) && |arena| == |walks| && stats == Merge(old(stats), SettleUnit(e))
      ensures walks == (if e.Extend? then old(walks) + [e.to] else old(walks))
      ensures frontier == (if e.Extend? then old(frontier) + [|old(walks)|] else old(frontier))
      ensures more == paths + (if e.Finish? then [PathOf(e.to, intermediateStates)] else [])
    {
      hide PathOf;
      more := paths;
      if edge.Some? {
        var child, all := Accept(parent, edge.value, at, more);
        more := all;
        if child.Some? {
          frontier := frontier + [child.value];
        }
      }
    }

    /** Settles the edge just looked at and books it. */
    method SettleLook(parent: nat, edge: Option<EdgeEval>, ghost e: Event, ghost before: SearchStats,
                      paths: seq<GraphPath>)
      returns (more: seq<GraphPath>)
      requires frontier != [] && parent == frontier[0] < |walks| && bfsEdge >= 1 && frames == []
      requires BfsState(p, arena, walks, frontier, bfsEdge - 1, bfsCount, before, log, settled, [], BfsTrace(p, plan))
      requires ArenaOk(arena, walks) && |arena| == |walks| && InArena(walks, frontier)
      requires LookingAhead(p, Queue(walks, frontier), bfsEdge - 1, e) && !IsFault(e)
      requires Evaluates(e, walks[parent], bfsEdge - 1, Ok(edge)) && stats == Merge(before, LookUnit(e))
      modifies `arena, `walks, `frontier, `stats, `log, `settled
      ensures BfsActive([]) && log == old(log) + [e] && settled == old(settled) + [e]
      ensures walks == (if e.Extend? then old(walks) + [e.to] else old(walks))
      ensures frontier == (if e.Extend? then old(frontier) + [|old(walks)|] else old(frontier))
      ensures more == paths + (if e.Finish? then [PathOf(e.to, intermediateStates)] else [])
      ensures stats.parallelEdges == before.parallelEdges
    {
      hide BfsState, BfsTrace, PathOf, ArenaOk, Merge, LookUnit, SettleUnit, Queue, LookingAhead, InArena, IsFault;
      hide Evaluates;
      ghost var arena0, walks0, frontier0, log0, settled0 := arena, walks, frontier, log, settled;
      more := SettleBfs(parent, edge, bfsEdge - 1, e, paths);
      UnitsSerial(before, e);
      BfsEdgeMove(p, arena0, walks0, frontier0, bfsEdge - 1, bfsCount, before, log, settled, BfsTrace(p, plan), e,
                  arena, walks, frontier, stats);
      log := log + [e];
      settled := settled + [e];
    }

    /** Looks at the next edge of the front of the queue. */
    method LookBfs(parent: nat, arc: Arc, paths: seq<GraphPath>)
      returns (r: Result<(), EngineError>, more: seq<GraphPath>)
      requires BfsActive([]) && frontier != [] && parent == frontier[0] && p.maxVisits >= 1
      requires parent < |walks| && bfsEdge < Degree(p, walks[parent])
      requires arc == Out(p, walks[parent].node)[bfsEdge]
      modifies `arena, `walks, `frontier, `bfsEdge, `stats, `log, `settled
      ensures log <= BfsTrace(p, plan)
      ensures r.Err? ==> FaultNext(old(log), BfsTrace(p, plan))
      ensures r.Ok? ==>
                var e := Outcome(p, old(walks)[parent], old(bfsEdge));
                && BfsActive([]) && log == old(log) + [e] && settled == old(settled) + [e]
                && bfsEdge == old(bfsEdge) + 1 && old(walks) <= walks
                && |frontier| == |old(frontier)| + (if e.Extend? then 1 else 0) && frontier[0] == parent
                && more == paths + (if e.Finish? then [PathOf(e.to, intermediateStates)] else [])
      ensures r.Ok? ==> stats.parallelEdges == old(stats.parallelEdges)
    {
      hide BfsState, BfsTrace, FaultNext, StatsOf, PathOf, ArenaOk, Outcome, Settling, Merge, LookUnit, SettleUnit,
           Bare;
      hide Carries, Occurs, Depth, Queue, NoFault, AllAccepted, LookingAhead, InArena, Degree, IsFault;
      ghost var full := BfsTrace(p, plan);
      FrontEntry(p, arena, walks, frontier, bfsEdge, bfsCount, stats, log, settled, [], full);
      ghost var at, before := bfsEdge, stats;
      ghost var e := Outcome(p, walks[parent], at);
      BfsBooks(p, arena, walks, frontier, bfsEdge, bfsCount, stats, log, settled, [], full);
      FrontLooks(p, walks, frontier, at);
      bfsEdge := bfsEdge + 1;
      more := paths;
      var looked;
      looked, stats := EvalArenaEdge(p, arena, walks, parent, at, arc, stats);
      if looked.Err? {
        BfsFault(p, arena, walks, frontier, at, bfsCount, before, log, settled, full, e);
        return Err(looked.error), more;
      }
      NotFault(p, walks[parent], at, looked.value);
      more := SettleLook(parent, looked.value, e, before, more);
      BfsBooks(p, arena, walks, frontier, bfsEdge, bfsCount, stats, log, settled, [], full);
      r := Ok(());
    }

    /** The state between two turns of a breadth-first pull that began after `base`. */
    ghost predicate BfsPulling(base: seq<Walk>, paths: seq<GraphPath>)
      reads this
    {
      && BfsActive([]) && !aborted && p.maxVisits >= 1
      && Found(base, paths) && WithinLimit() && Tight(log, maxPaths) && log <= BfsTrace(p, plan)
    }

    /** Visits the edges of the front of the queue from its position up to `end`, until one asks to stop. */
    method ScanBfs(end: nat, limit: nat, before: seq<GraphPath>, ghost base: seq<Walk>)
      returns (r: Result<nat, EngineError>, paths: seq<GraphPath>)
      requires BfsPulling(base, before) && |before| < limit && !LimitReached()
      requires frontier != [] && frontier[0] < |walks| && bfsEdge < end <= Degree(p, walks[frontier[0]])
      modifies `arena, `walks, `frontier, `bfsEdge, `stats, `log, `settled
      ensures r.Err? ==> HasFault(Cut(BfsTrace(p, plan), maxPaths)) && log <= BfsTrace(p, plan)
      ensures r.Ok? ==>
                && BfsPulling(base, paths) && |paths| <= limit && old(log) <= log
                && r.value >= 1 && Moves() < old(Moves())
      ensures r.Ok? ==> stats.parallelEdges == old(stats.parallelEdges)
    {
      hide BfsState, BfsTrace, HasFault, StatsOf, Finished, PathsOf, Outcome, PathOf, Settling, Tight, Cut, FaultNext;
      ghost var full := BfsTrace(p, plan);
      FrontEntry(p, arena, walks, frontier, bfsEdge, bfsCount, stats, log, settled, [], full);
      var parent := frontier[0];
      ghost var w := walks[parent];
      var arcs := Out(p, arena[parent].node);
      var running := true;
      var work: nat := 0;
      paths := before;
      while running && bfsEdge < end
        invariant bfsEdge <= end && (work == 0 ==> running && bfsEdge < end)
        invariant BfsPulling(base, paths) && |paths| <= limit && old(log) <= log
        invariant stats.parallelEdges == old(stats.parallelEdges)
        invariant frontier != [] && frontier[0] == parent < |walks| && walks[parent] == w
        invariant running ==> |paths| < limit && !LimitReached()
        invariant Moves() <= old(Moves()) && (work > 0 ==> Moves() < old(Moves()))
        decreases end - bfsEdge
      {
        work := work + 1;
        FoundMore(base, settled, Outcome(p, w, bfsEdge), intermediateStates);
        BfsBooks(p, arena, walks, frontier, bfsEdge, bfsCount, stats, log, settled, [], full);
        FinishedAlike(log, settled);
        TightMore(log, Outcome(p, w, bfsEdge), maxPaths);
        ghost var before := log;
        var looked, more := LookBfs(parent, arcs[bfsEdge], paths);
        if looked.Err? {
          FaultMet(before, full, maxPaths);
          return Err(looked.error), more;
        }
        paths := more;
        BfsBooks(p, arena, walks, frontier, bfsEdge, bfsCount, stats, log, settled, [], full);
        var limited := AtLimit();
        running := |paths| < limit && !limited;
      }
      r := Ok(work);
    }

    /** How many queued walks of the front's depth the next prefetch covers. */
    method PrefetchWidth() returns (width: nat)
      requires frontier != [] && quantum >= 1 && InArena(arena, frontier)
      ensures 1 <= width <= |frontier|
    {
      var depth := arena[frontier[0]].depth;
      width := 0;
      while width < |frontier| && width < quantum && arena[frontier[width]].depth == depth
        invariant width <= |frontier| && (width == 0 || width >= 1)
      {
        width := width + 1;
      }
    }

    /** The edge count of the front of the queue, computed once and then remembered. */
    method FrontCount() returns (count: nat)
      requires BfsActive([]) && frontier != [] && quantum >= 1
      modifies `bfsCount, `bfsPrefetched
      ensures BfsActive([]) && bfsCount == Some(count) && bfsPrefetched >= 1
      ensures frontier[0] < |walks| && bfsEdge <= count == Degree(p, walks[frontier[0]])
    {
      hide BfsState, BfsTrace;
      ghost var full := BfsTrace(p, plan);
      FrontEntry(p, arena, walks, frontier, bfsEdge, bfsCount, stats, log, settled, [], full);
      BfsBooks(p, arena, walks, frontier, bfsEdge, bfsCount, stats, log, settled, [], full);
      var parent := frontier[0];
      if bfsPrefetched == 0 {
        bfsPrefetched := PrefetchWidth();
      }
      match bfsCount {
        case Some(cached) => count := cached;
        case None => count := if arena[parent].depth >= p.maxDepth then 0 else |Out(p, arena[parent].node)|;
      }
      CacheCount(p, arena, walks, frontier, bfsEdge, bfsCount, stats, log, settled, full);
      bfsCount := Some(count);
    }

    /** One turn of a breadth-first pull; `false` when the search is over. */
    method TurnBfs(room: nat, limit: nat, before: seq<GraphPath>, ghost base: seq<Walk>)
      returns (r: Result<bool, EngineError>, paths: seq<GraphPath>, work: nat)
      requires BfsPulling(base, before) && |before| < limit && room >= 1 && quantum >= 1
      modifies `arena, `walks, `frontier, `bfsEdge, `bfsCount, `bfsPrefetched, `stats, `log, `settled
      ensures r.Err? ==> HasFault(Cut(BfsTrace(p, plan), maxPaths)) && log <= BfsTrace(p, plan)
      ensures r.Ok? ==> BfsPulling(base, paths) && |paths| <= limit && old(log) <= log
      ensures r.Ok? && r.value ==> Moves() < old(Moves()) && work >= 1
      ensures r.Ok? && !r.value ==>
                paths == before && ((log == BfsTrace(p, plan) && Settling(log) == Settling(settled)) || LimitReached())
      ensures r.Ok? ==> stats.parallelEdges == old(stats.parallelEdges)
    {
      hide BfsState, BfsTrace, HasFault, StatsOf, Finished, PathsOf, Settling, Tight, Cut;
      ghost var full := BfsTrace(p, plan);
      paths, work := before, 0;
      BfsBooks(p, arena, walks, frontier, bfsEdge, bfsCount, stats, log, settled, [], full);
      var limited := AtLimit();
      if limited || frontier == [] {
        return Ok(false), paths, work;
      }
      var count := FrontCount();
      if bfsEdge == count {
        BfsPopMove(p, arena, walks, frontier, bfsEdge, bfsCount, stats, log, settled, full);
        frontier := frontier[1..];
        bfsEdge := 0;
        bfsCount := None;
        bfsPrefetched := bfsPrefetched - 1;
        return Ok(true), paths, 1;
      }
      var most := bfsEdge + room;
      var scanned, found := ScanBfs(if count < most then count else most, limit, paths, base);
      if scanned.Err? {
        return Err(scanned.error), found, work;
      }
      r, paths, work := Ok(true), found, scanned.value;
    }

    method AdvanceBfs(limit: nat) returns (r: Result<seq<GraphPath>, EngineError>)
      requires Valid() && !aborted && initialized && !done && strategy.BreadthFirst? && limit >= 1
      modifies `arena, `walks, `frontier, `bfsEdge, `bfsCount, `bfsPrefetched, `stats, `log, `settled, `done,
               `delivered, `aborted
      ensures Valid() && (r.Err? <==> aborted)
      ensures r.Err? ==> HasFault(Happens()) && delivered == old(delivered)
      ensures r.Ok? ==>
                && old(delivered) <= delivered && |r.value| <= limit && old(log) <= log
                && r.value == PathsOf(delivered[|old(delivered)|..], intermediateStates)
                && (done || Moves() < old(Moves()))
      ensures r.Ok? ==> stats.parallelEdges == old(stats.parallelEdges)
    {
      hide BfsState, BfsTrace, HasFault, StatsOf, Finished, PathsOf, Limited, Settling, Tight, Cut, DfsActive, Bare,
           NoFault;
      var paths: seq<GraphPath> := [];
      var work: nat := 0;
      ghost var base := delivered;
      LimitedLength(Finished(Full()), maxPaths);
      while work < quantum && |paths| < limit
        invariant BfsPulling(base, paths) && |paths| <= limit && !done && delivered == base && old(log) <= log
        invariant Moves() <= old(Moves()) && (work > 0 ==> Moves() < old(Moves()))
        invariant stats.parallelEdges == old(stats.parallelEdges)
        invariant |paths| > 0 ==> work > 0
        decreases quantum - work
      {
        var turned, found, steps := TurnBfs(quantum - work, limit, paths, base);
        if turned.Err? {
          aborted := true;
          return Err(turned.error);
        }
        paths, work := found, work + steps;
        if !turned.value {
          done := true;
          break;
        }
      }
      BfsPulled();
      delivered := Finished(settled);
      r := Ok(paths);
    }

    /** What the state of a breadth-first search says between pulls. */
    lemma BfsPulled()
      requires strategy.BreadthFirst? && BfsActive([]) && WithinLimit()
      ensures Bare(stats) == StatsOf(log, settled) && ParallelWithin(stats) && NoFault(log) && log <= Full()
      ensures Settling(log) == Settling(settled) + [] && Finished(settled) <= Expected()
    {
      hide BfsState, BfsTrace, StatsOf, Finished, Limited, Settling;
      BfsBooks(p, arena, walks, frontier, bfsEdge, bfsCount, stats, log, settled, [], Full());
      FinishedAlike(log, settled);
      LimitedPrefix(log, Full(), maxPaths);
    }

    // -------------------------------------------------------------------------
    // Pulling.

    /** Prepares the first advance; resolves the starts of a breadth-first search. */
    method Initialize() returns (r: Result<(), EngineError>)
      requires Valid() && !aborted && !done
      modifies `initialized, `done, `visits, `arena, `walks, `frontier, `stats, `log, `settled, `aborted
      ensures Valid() && (r.Err? <==> aborted)
      ensures r.Err? ==> HasFault(Happens())
      ensures r.Ok? ==> initialized && Moves() <= old(Moves()) && old(log) <= log
      ensures r.Ok? ==> stats.parallelEdges == old(stats.parallelEdges)
    {
      hide BfsState, DfsState, DfsTrace, BfsTrace, HasFault, StatsOf, Limited, Settling, Cut;
      if initialized {
        return Ok(());
      }
      r := Ok(());
      if maxPaths == Some(0) || |starts| == 0 {
        initialized := true;
        NothingToDo(p, strategy, starts);
        done := true;
      } else if strategy.DepthFirst? {
        InitializeDfs();
      } else {
        r := InitializeBfs();
      }
    }

    method InitializeDfs()
      requires Valid() && !aborted && !done && !initialized && strategy.DepthFirst?
      modifies `initialized, `visits
      ensures Valid() && initialized && Moves() == old(Moves()) && old(log) <= log
    {
      hide DfsState, DfsTrace, StatsOf, Limited, Settling, Tracks;
      initialized := true;
      if dense {
        visits := EmptyVisits(true, |p.outgoing|, p.maxVisits);
      }
      EmptyTracks(dense, |p.outgoing|, p.maxVisits);
      NothingYet();
      InitialState(p, visits, stats, plan);
      assert starts[0..] == starts;
    }

    method InitializeBfs() returns (r: Result<(), EngineError>)
      requires Valid() && !aborted && !done && !initialized && strategy.BreadthFirst? && maxPaths != Some(0)
      modifies `initialized, `arena, `walks, `frontier, `stats, `log, `settled, `aborted
      ensures Valid() && (r.Err? <==> aborted)
      ensures r.Err? ==> HasFault(Happens())
      ensures r.Ok? ==> initialized && Moves() <= old(Moves()) && old(log) <= log
      ensures r.Ok? ==> stats.parallelEdges == 0
    {
      hide BfsState, BfsTrace, HasFault, StatsOf, Limited, Settling, Finished, Tight, Cut;
      initialized := true;
      NothingYet();
      r := OpenStarts();
      if r.Err? {
        aborted := true;
      }
    }

    /** Resolves all starts of a fresh breadth-first search. */
    method OpenStarts() returns (r: Result<(), EngineError>)
      requires Fresh() && maxPaths != Some(0)
      modifies `arena, `walks, `frontier, `stats, `log, `settled
      ensures r.Err? ==> HasFault(Cut(BfsTrace(p, plan), maxPaths)) && log == old(log)
      ensures r.Ok? ==>
                && BfsActive([]) && settled == log && |log| == |frontier| && Finished(log) == []
                && Bare(stats) == StatsOf(log, log) && log <= BfsTrace(p, plan) && NoFault(log)
                && ParallelWithin(stats)
                && Tight(log, maxPaths)
      ensures r.Ok? ==> stats.parallelEdges == 0
    {
      hide BfsState, BfsTrace, HasFault, StatsOf, Opening, Finished, Tight, Cut, FaultNext;
      var initial, origins, events := InitialArena(p, starts);
      if initial.Err? {
        FaultMet(events, BfsTrace(p, starts), maxPaths);
        return Err(initial.error);
      }
      arena, frontier, stats := initial.value.0, initial.value.1, initial.value.2;
      walks, log, settled := origins, events, events;
      OpenedState(p, plan, arena, walks, frontier, stats, events);
      BfsBooks(p, arena, walks, frontier, 0, None, stats, log, settled, [], BfsTrace(p, plan));
      TightBelow(events, maxPaths);
      r := Ok(());
    }

    /** One bounded piece of work; it may find nothing although more is to come. */
    method Advance(limit: nat) returns (r: Result<seq<GraphPath>, EngineError>)
      requires Valid() && !aborted && !done && limit >= 1
      modifies this
      ensures Valid() && (r.Err? <==> aborted)
      ensures r.Err? ==> HasFault(Happens()) && delivered == old(delivered)
      ensures r.Ok? ==>
                && old(delivered) <= delivered && |r.value| <= limit && old(log) <= log
                && r.value == PathsOf(delivered[|old(delivered)|..], intermediateStates)
                && (done || Moves() < old(Moves()))
      ensures r.Ok? ==> stats.parallelEdges == old(stats.parallelEdges)
    {
      var ready := Initialize();
      if ready.Err? {
        return Err(ready.error);
      }
      if done {
        return Ok([]);
      }
      if strategy.DepthFirst? {
        r := AdvanceDfs(limit);
      } else {
        r := AdvanceBfs(limit);
      }
    }

    /** Counts edges as evaluated by a parallel worker. */
    method CountParallel(edges: nat)
      requires Valid() && stats.parallelEdges + edges <= stats.evaluatedEdges
      modifies `stats
      ensures Valid() && stats == old(stats).(parallelEdges := old(stats).parallelEdges + edges)
    {
      hide StatsOf, Finished, Limited, Settling, QueueTrace, DfsRest, Tracks, ArenaOk;
      stats := stats.(parallelEdges := stats.parallelEdges + edges);
    }

    /** Drops all working state; a search closed before its end delivers no more. */
    method Close()
      requires Sane()
      modifies this
      ensures Sane() && done && delivered == old(delivered)
      ensures aborted == (old(aborted) || !old(done))
      ensures log == old(log) && settled == old(settled) && stats == old(stats)
    {
      aborted := aborted || !done;
      done := true;
      arena, frames, frontier, walks, starts := [], [], [], [], [];
      visits := Sparse(map[]);
    }

    /**
     * The next batch: up to `size` further paths, `None` when the search is over.
     * Whatever the batch sizes, the batches of a run that is not cut short are
     * the expected deliveries, in order and without gaps.
     */
    method NextBatch(size: nat) returns (r: Result<Option<seq<GraphPath>>, EngineError>)
      requires Valid() && (aborted ==> done)
      modifies this
      ensures Valid() && (aborted ==> done)
      ensures size == 0 ==> r == Err(ZeroBatch)
      ensures r.Err? ==> delivered == old(delivered) && aborted && (size == 0 || HasFault(Happens()))
      ensures r.Ok? ==> aborted == old(aborted)
      ensures r.Ok? && r.value.None? ==>
                done && delivered == old(delivered) && (!aborted ==> delivered == Expected())
      ensures r.Ok? && r.value.Some? ==>
                && old(delivered) <= delivered <= Expected()
                && 1 <= |r.value.value| <= size
                && r.value.value == PathsOf(delivered[|old(delivered)|..], intermediateStates)
      ensures r.Ok? ==> stats.parallelEdges == old(stats.parallelEdges)
    {
      if size == 0 {
        Close();
        aborted := true;
        return Err(ZeroBatch);
      }
      var found: seq<GraphPath> := [];
      while !done && |found| == 0
        invariant Valid() && (aborted ==> done) && aborted == old(aborted)
        invariant old(delivered) <= delivered && |found| <= size
        invariant found == PathsOf(delivered[|old(delivered)|..], intermediateStates)
        invariant stats.parallelEdges == old(stats.parallelEdges)
        decreases |found| == 0, !done, Moves()
      {
        NothingFound(old(delivered), delivered, intermediateStates);
        var advanced := Advance(size);
        if advanced.Err? {
          Close();
          return Err(advanced.error);
        }
        found := advanced.value;
      }
      if |found| > 0 {
        r := Ok(Some(found));
      } else {
        NothingFound(old(delivered), delivered, intermediateStates);
        if !aborted {
          RunOver([]);
        }
        r := Ok(None);
      }
      if done {
        Close();
      }
    }

    lemma RunOver(pending: seq<Event>)
      requires ValidWith(pending) && done && !aborted
      ensures delivered == Expected()
    {
      if LimitReached() {
        LimitedLength(Finished(Full()), maxPaths);
      } else {
        FinishedAlike(log, settled);
        LimitedPrefix(log, Full(), maxPaths);
      }
    }
  }
}

/**
 * What a depth-first stack has still to do, and how each move of the cursor uses
 * up the front of it.
 */
module DfsStack {
  import opened Wrappers
  import opened Enumeration
  import opened Routes
  import opened Stats
  import opened Revisits
  import opened Arena

  datatype DfsFrame = DfsFrame(nextEdge: nat, edgeCount: nat)

  /** Each frame is positioned within the edges of its walk. */
  ghost predicate FramesOk(p: Problem, walks: seq<Walk>, frames: seq<DfsFrame>) {
    && |frames| <= |walks|
    && forall i :: 0 <= i < |frames| ==>
         frames[i].edgeCount == Degree(p, walks[i]) && frames[i].nextEdge <= frames[i].edgeCount
  }

  /** The walks of a stack: live, and each one edge longer than the one below. */
  ghost predicate Chained(p: Problem, walks: seq<Walk>) {
    && (forall i :: 0 <= i < |walks| ==> Live(p, walks[i]))
    && (walks != [] ==> walks[0].Origin?)
    && (forall i :: 0 < i < |walks| ==> walks[i].Step? && walks[i].prev == walks[i - 1])
  }

  /** Events to come from the frames, topmost first. */
  ghost function StackRest(p: Problem, walks: seq<Walk>, frames: seq<DfsFrame>): seq<Event>
    requires FramesOk(p, walks, frames)
    decreases |frames|
  {
    if frames == [] then [] else
    var n := |frames| - 1;
    Trace(p, walks[n], frames[n].nextEdge) + StackRest(p, walks, frames[..n])
  }

  /** A walk just accepted above the frames comes first, the unopened starts last. */
  ghost function DfsRest(p: Problem, walks: seq<Walk>, frames: seq<DfsFrame>, starts: seq<nat>): seq<Event>
    requires FramesOk(p, walks, frames)
  {
    (if |walks| > |frames| then Trace(p, walks[|frames|], 0) else []) +
    StackRest(p, walks, frames) + DfsTrace(p, starts)
  }

  lemma {:induction false} StackRestSame(p: Problem, walks: seq<Walk>, others: seq<Walk>, frames: seq<DfsFrame>)
    requires FramesOk(p, walks, frames) && |frames| <= |others|
    requires walks[..|frames|] == others[..|frames|]
    ensures FramesOk(p, others, frames)
    ensures StackRest(p, walks, frames) == StackRest(p, others, frames)
    decreases |frames|
  {
    forall i | 0 <= i < |frames|
      ensures walks[i] == others[i]
    {
      assert walks[..|frames|][i] == others[..|frames|][i];
    }
    if frames != [] {
      var n := |frames| - 1;
      assert walks[..n] == walks[..|frames|][..n] == others[..|frames|][..n] == others[..n];
      StackRestSame(p, walks, others, frames[..n]);
    }
  }

  function Bump(frames: seq<DfsFrame>): seq<DfsFrame>
    requires frames != []
  {
    var n := |frames| - 1;
    frames[n := frames[n].(nextEdge := frames[n].nextEdge + 1)]
  }

  lemma FramesBump(p: Problem, walks: seq<Walk>, frames: seq<DfsFrame>, next: seq<Walk>)
    requires FramesOk(p, walks, frames) && |walks| == |frames| > 0 && walks <= next
    requires frames[|frames| - 1].nextEdge < frames[|frames| - 1].edgeCount
    ensures FramesOk(p, next, Bump(frames))
  {
    forall i | 0 <= i < |frames|
      ensures Bump(frames)[i].edgeCount == Degree(p, next[i])
      ensures Bump(frames)[i].nextEdge <= Bump(frames)[i].edgeCount
    {
      assert next[i] == walks[i];
    }
  }

  lemma StackRestBump(p: Problem, walks: seq<Walk>, frames: seq<DfsFrame>, next: seq<Walk>)
    requires FramesOk(p, walks, frames) && |walks| == |frames| > 0 && walks <= next
    requires frames[|frames| - 1].nextEdge < frames[|frames| - 1].edgeCount
    ensures var n := |frames| - 1;
            FramesOk(p, next, Bump(frames)) &&
            StackRest(p, next, Bump(frames)) ==
            Trace(p, walks[n], frames[n].nextEdge + 1) + StackRest(p, walks, frames[..n])
  {
    hide Trace, Degree;
    var n := |frames| - 1;
    var below := frames[..n];
    var bumped := Bump(frames);
    FramesBump(p, walks, frames, next);
    assert next[..n] == walks[..n];
    StackRestSame(p, walks, next, below);
    assert bumped[..n] == below && next[n] == walks[n];
  }

  /** Looking at one edge of the topmost walk consumes its outcome. */
  lemma RestEdge(p: Problem, walks: seq<Walk>, frames: seq<DfsFrame>, starts: seq<nat>, next: seq<Walk>)
    requires FramesOk(p, walks, frames) && |walks| == |frames| > 0
    requires frames[|frames| - 1].nextEdge < frames[|frames| - 1].edgeCount
    requires var e := Outcome(p, walks[|frames| - 1], frames[|frames| - 1].nextEdge);
             next == if e.Extend? then walks + [e.to] else walks
    ensures FramesOk(p, next, Bump(frames))
    ensures DfsRest(p, walks, frames, starts) ==
            [Outcome(p, walks[|frames| - 1], frames[|frames| - 1].nextEdge)] +
            DfsRest(p, next, Bump(frames), starts)
  {
    hide Trace, Outcome, StackRest, DfsTrace, Degree;
    var n := |frames| - 1;
    var w, i := walks[n], frames[n].nextEdge;
    var e := Outcome(p, w, i);
    StackRestBump(p, walks, frames, next);
    StackRestTop(p, walks, frames);
    FramesBump(p, walks, frames, next);
    TraceUnfolds(p, w, i);
    Regroup(e, if e.Extend? then Trace(p, e.to, 0) else [], Trace(p, w, i + 1), StackRest(p, walks, frames[..n]),
            DfsTrace(p, starts));
  }

  lemma StackRestTop(p: Problem, walks: seq<Walk>, frames: seq<DfsFrame>)
    requires FramesOk(p, walks, frames) && frames != []
    ensures var n := |frames| - 1;
            StackRest(p, walks, frames) == Trace(p, walks[n], frames[n].nextEdge) + StackRest(p, walks, frames[..n])
  {
  }

  lemma Regroup(e: Event, a: seq<Event>, b: seq<Event>, c: seq<Event>, d: seq<Event>)
    ensures [] + ([e] + a + b + c) + d == [e] + (a + (b + c) + d)
  {
  }

  /** Leaving an exhausted walk consumes nothing. */
  lemma RestPop(p: Problem, walks: seq<Walk>, frames: seq<DfsFrame>, starts: seq<nat>)
    requires FramesOk(p, walks, frames) && |walks| == |frames| > 0
    requires frames[|frames| - 1].nextEdge == frames[|frames| - 1].edgeCount
    ensures var n := |frames| - 1;
            FramesOk(p, walks[..n], frames[..n]) &&
            DfsRest(p, walks, frames, starts) == DfsRest(p, walks[..n], frames[..n], starts)
  {
    var n := |frames| - 1;
    StackRestSame(p, walks, walks[..n], frames[..n]);
  }

  /** Opening the frame of an accepted walk consumes nothing. */
  lemma RestPush(p: Problem, walks: seq<Walk>, frames: seq<DfsFrame>, starts: seq<nat>)
    requires FramesOk(p, walks, frames) && |walks| == |frames| + 1
    ensures var next := frames + [DfsFrame(0, Degree(p, walks[|frames|]))];
            FramesOk(p, walks, next) &&
            DfsRest(p, walks, frames, starts) == DfsRest(p, walks, next, starts)
  {
    var next := frames + [DfsFrame(0, Degree(p, walks[|frames|]))];
    assert next[..|frames|] == frames;
  }

  /** Opening the next known start consumes its first event. */
  lemma RestStart(p: Problem, starts: seq<nat>)
    requires starts != [] && StartEvent(p, starts[0]).Begin?
    ensures var w := StartEvent(p, starts[0]).origin;
            var next := [DfsFrame(0, Degree(p, w))];
            FramesOk(p, [w], next) &&
            DfsRest(p, [], [], starts) ==
            [StartEvent(p, starts[0])] + DfsRest(p, [w], next, starts[1..])
  {
    var w := StartEvent(p, starts[0]).origin;
    var next := [DfsFrame(0, Degree(p, w))];
    assert next[..0] == [];
    assert StackRest(p, [w], next) == Trace(p, w, 0);
  }

  // ---------------------------------------------------------------------------
  // The cursor's depth-first state, as values: what the stack holds, what has
  // happened (`log`) and the whole run (`full`) it is the beginning of.

  function Top(walks: seq<Walk>, frames: seq<DfsFrame>): Option<Walk>
    requires |frames| <= |walks|
  {
    if frames == [] then None else Some(walks[|frames| - 1])
  }

  /** `rest` are the starts not opened yet; a walk above the frames has just been accepted. */
  ghost predicate DfsState(p: Problem, arena: seq<PathEntry>, walks: seq<Walk>, frames: seq<DfsFrame>,
                           visits: Visits, stats: SearchStats, log: seq<Event>, rest: seq<nat>,
                           full: seq<Event>)
  {
    && FramesOk(p, walks, frames) && Chained(p, walks) && ArenaOk(arena, walks)
    && |walks| <= |frames| + 1
    && Tracks(visits, |p.outgoing|, Top(walks, frames)) && (visits.Bits? ==> p.maxVisits == 1)
    && Bare(stats) == StatsOf(log, log) && NoFault(log) && ParallelWithin(stats)
    && full == log + DfsRest(p, walks, frames, rest)
  }

  lemma FaultAhead(log: seq<Event>, e: Event, rest: seq<Event>, full: seq<Event>)
    requires full == log + ([e] + rest) && IsFault(e)
    ensures FaultNext(log, full)
  {
    assert full[|log|] == e;
  }

  lemma Advance(log: seq<Event>, e: Event, rest: seq<Event>)
    ensures log + ([e] + rest) == (log + [e]) + rest
  {
  }

  lemma FitsLive(p: Problem, w: Walk, visits: Visits)
    requires Live(p, w) && p.maxVisits >= 1 && (visits.Bits? ==> p.maxVisits == 1)
    ensures w.node < |p.outgoing| && Fits(visits, w)
  {
    forall v
      ensures w.node < |p.outgoing| && Occurs(w, v) <= p.maxVisits
    {
      LiveInRange(p, w, v);
    }
    LiveInRange(p, w, 0);
  }

  lemma UnknownStart(p: Problem, visits: Visits, stats: SearchStats, log: seq<Event>, rest: seq<nat>,
                     full: seq<Event>)
    requires rest != [] && DfsState(p, [], [], [], visits, stats, log, rest, full)
    requires StartEvent(p, rest[0]).Unknown?
    ensures FaultNext(log, full)
  {
    var e := StartEvent(p, rest[0]);
    assert DfsRest(p, [], [], rest) == [e] + DfsTrace(p, rest[1..]);
    FaultAhead(log, e, DfsTrace(p, rest[1..]), full);
  }

  /** With nothing on the stack and no start left, everything has happened. */
  lemma NothingLeft(p: Problem, arena: seq<PathEntry>, walks: seq<Walk>, visits: Visits, stats: SearchStats,
                    log: seq<Event>, full: seq<Event>)
    requires DfsState(p, arena, walks, [], visits, stats, log, [], full) && walks == []
    ensures log == full
  {
    assert DfsRest(p, walks, [], []) == [];
  }

  lemma StartEntry(p: Problem, k: nat)
    requires k < |p.roots| && p.roots[k].Some?
    ensures ArenaOk([RootEntry(p.roots[k].value)], [StartWalk(p, k)]) && Chained(p, [StartWalk(p, k)])
  {
    PushRoot(p, [], [], k);
    assert [] + [RootEntry(p.roots[k].value)] == [RootEntry(p.roots[k].value)];
    assert [] + [StartWalk(p, k)] == [StartWalk(p, k)];
  }

  lemma StartRest(p: Problem, log: seq<Event>, rest: seq<nat>, full: seq<Event>)
    requires rest != [] && StartEvent(p, rest[0]).Begin? && full == log + DfsRest(p, [], [], rest)
    ensures var w := StartEvent(p, rest[0]).origin;
            && FramesOk(p, [w], [DfsFrame(0, Degree(p, w))])
            && full == log + [StartEvent(p, rest[0])] + DfsRest(p, [w], [DfsFrame(0, Degree(p, w))], rest[1..])
  {
    var e := StartEvent(p, rest[0]);
    RestStart(p, rest);
    Advance(log, e, DfsRest(p, [e.origin], [DfsFrame(0, Degree(p, e.origin))], rest[1..]));
  }

  /** Opening the next start. */
  lemma StartMove(p: Problem, visits: Visits, stats: SearchStats, log: seq<Event>, rest: seq<nat>,
                  full: seq<Event>, after: SearchStats)
    requires rest != [] && rest[0] < |p.roots| && p.roots[rest[0]].Some? && p.maxVisits >= 1
    requires DfsState(p, [], [], [], visits, stats, log, rest, full)
    requires after == Merge(stats, SettleUnit(StartEvent(p, rest[0])))
    ensures var w := StartWalk(p, rest[0]);
            && visits.Holds(w.node)
            && DfsState(p, [RootEntry(p.roots[rest[0]].value)], [w], [DfsFrame(0, Degree(p, w))],
                        visits.Increment(w.node), after, log + [StartEvent(p, rest[0])], rest[1..], full)
  {
    hide RootEntry, Visits.Increment, StatsOf, ArenaOk, DfsRest, Trace, Occurs;
    var w, e := StartWalk(p, rest[0]), StartEvent(p, rest[0]);
    StartEntry(p, rest[0]);
    assert Live(p, [w][0]);
    FitsLive(p, w, visits);
    TracksIncrement(visits, |p.outgoing|, w);
    StatsStep(log, log, e, stats, after);
    StartRest(p, log, rest, full);
  }

  lemma LiveNext(p: Problem, w: Walk, i: nat)
    requires Live(p, w) && i < Degree(p, w) && Outcome(p, w, i).Extend?
    ensures var child := Outcome(p, w, i).to; Live(p, child) && child.Step? && child.prev == w && child.at == i
  {
  }

  lemma ChainedGrow(p: Problem, walks: seq<Walk>, i: nat)
    requires Chained(p, walks) && walks != [] && i < Degree(p, walks[|walks| - 1])
    requires Outcome(p, walks[|walks| - 1], i).Extend?
    ensures Chained(p, walks + [Outcome(p, walks[|walks| - 1], i).to])
  {
    hide Live, Outcome, Degree;
    LiveNext(p, walks[|walks| - 1], i);
  }

  /** The edge the topmost frame looks at next. */
  ghost predicate Looking(p: Problem, walks: seq<Walk>, frames: seq<DfsFrame>, e: Event)
    requires FramesOk(p, walks, frames)
  {
    && |walks| == |frames| > 0
    && frames[|frames| - 1].nextEdge < frames[|frames| - 1].edgeCount
    && e == Outcome(p, walks[|frames| - 1], frames[|frames| - 1].nextEdge)
  }

  lemma StateBooks(p: Problem, arena: seq<PathEntry>, walks: seq<Walk>, frames: seq<DfsFrame>,
                   visits: Visits, stats: SearchStats, log: seq<Event>, rest: seq<nat>, full: seq<Event>)
    requires DfsState(p, arena, walks, frames, visits, stats, log, rest, full)
    ensures Bare(stats) == StatsOf(log, log) && log <= full && NoFault(log) && ParallelWithin(stats)
    ensures FramesOk(p, walks, frames)
  {
  }

  /** What the state says of the entry the topmost frame works on. */
  lemma TopEntry(p: Problem, arena: seq<PathEntry>, walks: seq<Walk>, frames: seq<DfsFrame>,
                 visits: Visits, stats: SearchStats, log: seq<Event>, rest: seq<nat>, full: seq<Event>)
    requires DfsState(p, arena, walks, frames, visits, stats, log, rest, full)
    requires |walks| == |frames| > 0
    ensures FramesOk(p, walks, frames) && ArenaOk(arena, walks) && |arena| == |walks|
    ensures var n := |frames| - 1;
            && frames[n].edgeCount == Degree(p, walks[n]) && frames[n].nextEdge <= frames[n].edgeCount
            && arena[n].node == walks[n].node && arena[n].state == walks[n].state
            && arena[n].depth == Depth(walks[n])
            && forall i :: 0 <= i < |Out(p, walks[n].node)| ==>
                 var v := Out(p, walks[n].node)[i].dest;
                 visits.Holds(v) && visits.Count(v) == Occurs(walks[n], v)
  {
    hide StatsOf, NoFault, Live, Covers, DfsRest, Occurs, Depth, Degree, Visits.Holds, Visits.Count;
    var n := |frames| - 1;
    assert EntryOk(arena, walks, n);
  }

  lemma BrokenEdge(p: Problem, arena: seq<PathEntry>, walks: seq<Walk>, frames: seq<DfsFrame>,
                   visits: Visits, stats: SearchStats, log: seq<Event>, rest: seq<nat>, full: seq<Event>,
                   e: Event)
    requires DfsState(p, arena, walks, frames, visits, stats, log, rest, full)
    requires FramesOk(p, walks, frames) && Looking(p, walks, frames, e) && e.Broken?
    ensures FaultNext(log, full)
  {
    RestEdge(p, walks, frames, rest, walks);
    FaultAhead(log, e, DfsRest(p, walks, Bump(frames), rest), full);
  }

  /** Looking at an edge; an accepted child, if any, ends up above the frames. */
  lemma EdgeMove(p: Problem, arena: seq<PathEntry>, walks: seq<Walk>, frames: seq<DfsFrame>,
                 visits: Visits, stats: SearchStats, log: seq<Event>, rest: seq<nat>, full: seq<Event>,
                 e: Event, grown: seq<PathEntry>, next: seq<Walk>, after: SearchStats)
    requires DfsState(p, arena, walks, frames, visits, stats, log, rest, full)
    requires FramesOk(p, walks, frames) && Looking(p, walks, frames, e) && !e.Broken?
    requires next == (if e.Extend? then walks + [e.to] else walks) && ArenaOk(grown, next)
    requires after == Merge(Merge(stats, LookUnit(e)), SettleUnit(e))
    ensures DfsState(p, grown, next, Bump(frames), visits, after, log + [e], rest, full)
    ensures log + [e] <= full
  {
    hide ArenaOk, Tracks, StatsOf, Trace, Live, Merge, LookUnit, SettleUnit;
    RestEdge(p, walks, frames, rest, next);
    if e.Extend? {
      ChainedGrow(p, walks, frames[|frames| - 1].nextEdge);
    }
    StatsStep(log, log, e, stats, after);
    Advance(log, e, DfsRest(p, next, Bump(frames), rest));
    assert Top(next, Bump(frames)) == Top(walks, frames);
  }

  /** Leaving an exhausted walk. */
  lemma PopMove(p: Problem, arena: seq<PathEntry>, walks: seq<Walk>, frames: seq<DfsFrame>,
                visits: Visits, stats: SearchStats, log: seq<Event>, rest: seq<nat>, full: seq<Event>)
    requires DfsState(p, arena, walks, frames, visits, stats, log, rest, full)
    requires |walks| == |frames| > 0 && p.maxVisits >= 1
    requires frames[|frames| - 1].nextEdge == frames[|frames| - 1].edgeCount
    ensures var n := |frames| - 1;
            && arena[n].node == walks[n].node
            && visits.Holds(walks[n].node) && visits.Count(walks[n].node) > 0
            && DfsState(p, arena[..n], walks[..n], frames[..n], visits.Decrement(walks[n].node), stats, log,
                        rest, full)
  {
    hide StatsOf, NoFault, Live, Covers, DfsRest, Occurs, Depth, Degree, Tracks;
    var n := |frames| - 1;
    var w := walks[n];
    assert EntryOk(arena, walks, n);
    assert Live(p, w);
    RestPop(p, walks, frames, rest);
    ArenaPrefix(arena, walks, n);
    FitsLive(p, w, visits);
    TracksDecrement(visits, |p.outgoing|, w);
    assert Shortened(w) == Top(walks[..n], frames[..n]);
  }

  /** Opening the frame of the child just accepted. */
  lemma PushMove(p: Problem, arena: seq<PathEntry>, walks: seq<Walk>, frames: seq<DfsFrame>,
                 visits: Visits, stats: SearchStats, log: seq<Event>, rest: seq<nat>, full: seq<Event>)
    requires DfsState(p, arena, walks, frames, visits, stats, log, rest, full)
    requires |walks| == |frames| + 1 && frames != [] && p.maxVisits >= 1
    ensures var n := |frames|;
            && arena[n].node == walks[n].node && arena[n].depth == Depth(walks[n])
            && visits.Holds(walks[n].node)
            && DfsState(p, arena, walks, frames + [DfsFrame(0, Degree(p, walks[n]))],
                        visits.Increment(walks[n].node), stats, log, rest, full)
  {
    hide StatsOf, NoFault, Live, Covers, DfsRest, Occurs, Depth, Degree, Visits.Holds, Visits.Count, Visits.Increment;
    var n := |frames|;
    var w := walks[n];
    assert EntryOk(arena, walks, n);
    assert Live(p, w);
    RestPush(p, walks, frames, rest);
    FitsLive(p, w, visits);
    assert Shortened(w) == Top(walks, frames);
    TracksIncrement(visits, |p.outgoing|, w);
  }

  /** The state before anything has happened. */
  lemma InitialState(p: Problem, visits: Visits, stats: SearchStats, starts: seq<nat>)
    requires Tracks(visits, |p.outgoing|, None) && (visits.Bits? ==> p.maxVisits == 1)
    requires Bare(stats) == StatsOf([], []) && ParallelWithin(stats)
    ensures DfsState(p, [], [], [], visits, stats, [], starts, DfsTrace(p, starts))
  {
    assert DfsRest(p, [], [], starts) == DfsTrace(p, starts);
  }
}

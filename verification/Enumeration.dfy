/**
 * The search specification: which walks of a graph a kernel admits, and the two
 * orders (depth first and breadth first) in which the engine meets them.
 *
 * Everything here is mathematics over values. The cursors that pause and resume,
 * split work and count are proved against these definitions elsewhere.
 */
module Enumeration {
  import opened Wrappers

  /** A kernel's path state: any type whatsoever. */
  type State(!new)

  type NodeId = nat
  type EdgeId = nat

  /** One entry of a node's outgoing slice. */
  datatype Arc = Arc(edge: EdgeId, dest: NodeId)

  /** A kernel's verdict on one candidate edge; `Fail` is a kernel error. */
  datatype Transition = Reject | Continue(state: State) | Complete(state: State) | Fail

  /** A start that resolved: its node and the kernel's initial state there. */
  datatype Root = Root(node: NodeId, state: State)

  /**
   * Everything a search reads. `roots[k]` is the outcome of resolving the k-th
   * requested start; `None` is an unknown start node.
   */
  datatype RawProblem = Problem(
    outgoing: seq<seq<Arc>>,
    roots: seq<Option<Root>>,
    transition: (NodeId, EdgeId, NodeId, State) -> Transition,
    maxDepth: nat,
    maxVisits: nat)

  /** Node ids index the adjacency, as the CSR builder guarantees. */
  ghost predicate WellFormed(p: RawProblem) {
    && (forall v, i :: 0 <= v < |p.outgoing| && 0 <= i < |p.outgoing[v]| ==>
          p.outgoing[v][i].dest < |p.outgoing|)
    && (forall k :: 0 <= k < |p.roots| && p.roots[k].Some? ==>
          p.roots[k].value.node < |p.outgoing|)
  }

  type Problem = p: RawProblem | WellFormed(p)
    witness Problem([], [], (src: NodeId, edge: EdgeId, dest: NodeId, state: State) => Reject, 0, 0)

  /**
   * A path under construction, as a chain of parent links. `at` is the position
   * of the taken edge in the parent's outgoing slice.
   */
  datatype Walk =
    | Origin(start: nat, node: NodeId, state: State)
    | Step(prev: Walk, at: nat, edge: EdgeId, node: NodeId, state: State)

  function Depth(w: Walk): nat {
    match w
    case Origin(_, _, _) => 0
    case Step(prev, _, _, _, _) => Depth(prev) + 1
  }

  /** How often `v` lies on the walk. */
  function Occurs(w: Walk, v: NodeId): nat {
    (if w.node == v then 1 else 0) + if w.Step? then Occurs(w.prev, v) else 0
  }

  /** The walk's coordinates: its start position, then the edge positions taken. */
  function Key(w: Walk): (k: seq<nat>)
    ensures |k| == Depth(w) + 1
  {
    match w
    case Origin(start, _, _) => [start]
    case Step(prev, at, _, _, _) => Key(prev) + [at]
  }

  /** The outgoing slice of `v`; ids outside the graph have none. */
  function Out(p: Problem, v: NodeId): seq<Arc> {
    if v < |p.outgoing| then p.outgoing[v] else []
  }

  /** Edges the search looks at from the end of `w`: none once the depth limit is met. */
  function Degree(p: Problem, w: Walk): nat {
    if Depth(w) >= p.maxDepth then 0 else |Out(p, w.node)|
  }

  /** What happens at one start or one candidate edge. */
  datatype Event =
    | Begin(origin: Walk)
    | Unknown(position: nat)
    | Skip(from: Walk, at: nat)
    | Refuse(from: Walk, at: nat)
    | Broken(from: Walk, at: nat)
    | Extend(to: Walk)
    | Finish(to: Walk)

  /** The outcome of looking at edge position `i` from the end of `w`. */
  function Outcome(p: Problem, w: Walk, i: nat): Event
    requires i < Degree(p, w)
  {
    var arc := Out(p, w.node)[i];
    if Occurs(w, arc.dest) >= p.maxVisits then Skip(w, i) else
    match p.transition(w.node, arc.edge, arc.dest, w.state)
    case Reject => Refuse(w, i)
    case Continue(state) => Extend(Step(w, i, arc.edge, arc.dest, state))
    case Complete(state) => Finish(Step(w, i, arc.edge, arc.dest, state))
    case Fail => Broken(w, i)
  }

  // ---------------------------------------------------------------------------
  // Termination: every continued edge uses up one of finitely many allowed visits.

  ghost function RoomBelow(p: Problem, w: Walk, n: nat): nat {
    if n == 0 then 0 else
    RoomBelow(p, w, n - 1) +
    if Occurs(w, n - 1) < p.maxVisits then p.maxVisits - Occurs(w, n - 1) else 0
  }

  /** Visits still allowed to an extension of `w`, summed over all nodes. */
  ghost function Room(p: Problem, w: Walk): nat {
    RoomBelow(p, w, |p.outgoing|)
  }

  lemma {:induction false} RoomBelowStep(p: Problem, w: Walk, child: Walk, n: nat)
    requires child.Step? && child.prev == w && Occurs(w, child.node) < p.maxVisits
    ensures RoomBelow(p, child, n) == RoomBelow(p, w, n) - if child.node < n then 1 else 0
  {
    if n > 0 {
      RoomBelowStep(p, w, child, n - 1);
    }
  }

  /** Taking an allowed edge uses up exactly one visit. */
  lemma RoomStep(p: Problem, w: Walk, i: nat)
    requires i < Degree(p, w) && (Outcome(p, w, i).Extend? || Outcome(p, w, i).Finish?)
    ensures Room(p, Outcome(p, w, i).to) == Room(p, w) - 1
  {
    RoomBelowStep(p, w, Outcome(p, w, i).to, |p.outgoing|);
  }

  // ---------------------------------------------------------------------------
  // Depth-first order.

  /** Everything that happens below `w`, from edge position `i` on, in preorder. */
  ghost function Trace(p: Problem, w: Walk, i: nat): seq<Event>
    requires i <= Degree(p, w)
    decreases Room(p, w), Degree(p, w) - i
  {
    if i == Degree(p, w) then [] else
    var e := Outcome(p, w, i);
    if e.Extend? then
      RoomStep(p, w, i);
      [e] + Trace(p, e.to, 0) + Trace(p, w, i + 1)
    else
      [e] + Trace(p, w, i + 1)
  }

  /** What the first remaining edge does, then what follows it. */
  lemma TraceUnfolds(p: Problem, w: Walk, i: nat)
    requires i < Degree(p, w)
    ensures var e := Outcome(p, w, i);
            Trace(p, w, i) == [e] + (if e.Extend? then Trace(p, e.to, 0) else []) + Trace(p, w, i + 1)
  {
    var e := Outcome(p, w, i);
    if e.Extend? {
      RoomStep(p, w, i);
    } else {
      assert [e] + [] + Trace(p, w, i + 1) == [e] + Trace(p, w, i + 1);
    }
  }

  function StartWalk(p: Problem, k: nat): Walk
    requires k < |p.roots| && p.roots[k].Some?
  {
    Origin(k, p.roots[k].value.node, p.roots[k].value.state)
  }

  ghost function StartEvent(p: Problem, k: nat): Event {
    if k < |p.roots| && p.roots[k].Some? then Begin(StartWalk(p, k)) else Unknown(k)
  }

  ghost function StartTrace(p: Problem, k: nat): seq<Event> {
    var e := StartEvent(p, k);
    [e] + if e.Begin? then Trace(p, e.origin, 0) else []
  }

  /** The whole depth-first run over the given start positions. */
  ghost function DfsTrace(p: Problem, starts: seq<nat>): seq<Event> {
    if starts == [] then [] else StartTrace(p, starts[0]) + DfsTrace(p, starts[1..])
  }

  // ---------------------------------------------------------------------------
  // Breadth-first order.

  ghost function QueueWeight(p: Problem, queue: seq<Walk>): nat {
    if queue == [] then 0 else 2 * |Trace(p, queue[0], 0)| + 1 + QueueWeight(p, queue[1..])
  }

  lemma {:induction false} QueueWeightAppend(p: Problem, queue: seq<Walk>, w: Walk)
    ensures QueueWeight(p, queue + [w]) == QueueWeight(p, queue) + 2 * |Trace(p, w, 0)| + 1
  {
    if queue == [] {
      assert ([w])[1..] == [];
    } else {
      assert (queue + [w])[1..] == queue[1..] + [w];
      QueueWeightAppend(p, queue[1..], w);
    }
  }

  /** Edge `i` of the front of the queue has been reached. */
  ghost predicate Positioned(p: Problem, queue: seq<Walk>, i: nat) {
    if queue == [] then i == 0 else i <= Degree(p, queue[0])
  }

  /** Work left in a queue whose front is at edge position `i`. */
  ghost function Pressure(p: Problem, queue: seq<Walk>, i: nat): nat
    requires Positioned(p, queue, i)
  {
    if queue == [] then 0 else 2 * |Trace(p, queue[0], i)| + 1 + QueueWeight(p, queue[1..])
  }

  /** The queue after the outcome `e` of an edge of its front. */
  function Enqueue(queue: seq<Walk>, e: Event): seq<Walk> {
    if e.Extend? then queue + [e.to] else queue
  }

  lemma PressureDrops(p: Problem, queue: seq<Walk>, i: nat)
    requires queue != [] && Positioned(p, queue, i)
    ensures i == Degree(p, queue[0]) ==>
              Pressure(p, queue[1..], 0) < Pressure(p, queue, i)
    ensures i < Degree(p, queue[0]) ==>
              Positioned(p, Enqueue(queue, Outcome(p, queue[0], i)), i + 1) &&
              Pressure(p, Enqueue(queue, Outcome(p, queue[0], i)), i + 1) < Pressure(p, queue, i)
  {
    if i < Degree(p, queue[0]) {
      var e := Outcome(p, queue[0], i);
      if e.Extend? {
        QueueWeightAppend(p, queue[1..], e.to);
        assert (queue + [e.to])[1..] == queue[1..] + [e.to];
      }
    }
  }

  /** Everything a first-in first-out search does from this queue on. */
  ghost function QueueTrace(p: Problem, queue: seq<Walk>, i: nat): seq<Event>
    requires Positioned(p, queue, i)
    decreases Pressure(p, queue, i)
  {
    if queue == [] then [] else
    PressureDrops(p, queue, i);
    if i == Degree(p, queue[0]) then
      QueueTrace(p, queue[1..], 0)
    else
      var e := Outcome(p, queue[0], i);
      [e] + QueueTrace(p, Enqueue(queue, e), i + 1)
  }

  ghost function StartEvents(p: Problem, starts: seq<nat>): seq<Event> {
    if starts == [] then [] else [StartEvent(p, starts[0])] + StartEvents(p, starts[1..])
  }

  /** The walks that the known starts among `starts` open. */
  ghost function StartWalks(p: Problem, starts: seq<nat>): seq<Walk> {
    if starts == [] then [] else
    (if StartEvent(p, starts[0]).Begin? then [StartEvent(p, starts[0]).origin] else []) +
    StartWalks(p, starts[1..])
  }

  /** The whole breadth-first run over the given start positions. */
  ghost function BfsTrace(p: Problem, starts: seq<nat>): seq<Event> {
    StartEvents(p, starts) + QueueTrace(p, StartWalks(p, starts), 0)
  }

  datatype Strategy = DepthFirst | BreadthFirst

  /** Everything that happens in a complete run. */
  ghost function FullTrace(p: Problem, strategy: Strategy, starts: seq<nat>): seq<Event> {
    if strategy.DepthFirst? then DfsTrace(p, starts) else BfsTrace(p, starts)
  }

  // ---------------------------------------------------------------------------
  // What a run delivers.

  /** The completed walks among `events`, in order. */
  ghost function Finished(events: seq<Event>): seq<Walk> {
    if events == [] then [] else
    (if events[0].Finish? then [events[0].to] else []) + Finished(events[1..])
  }

  lemma {:induction false} FinishedConcat(a: seq<Event>, b: seq<Event>)
    ensures Finished(a + b) == Finished(a) + Finished(b)
  {
    if a == [] {
      assert a + b == b;
    } else {
      assert (a + b)[1..] == a[1..] + b;
      FinishedConcat(a[1..], b);
      var head := if a[0].Finish? then [a[0].to] else [];
      assert head + (Finished(a[1..]) + Finished(b)) == head + Finished(a[1..]) + Finished(b);
    }
  }

  lemma {:induction false} FinishedPrefix(a: seq<Event>, b: seq<Event>)
    requires a <= b
    ensures Finished(a) <= Finished(b)
  {
    assert b == a + b[|a|..];
    FinishedConcat(a, b[|a|..]);
  }

  lemma FinishedMore(events: seq<Event>, e: Event)
    ensures Finished(events + [e]) == Finished(events) + if e.Finish? then [e.to] else []
  {
    FinishedConcat(events, [e]);
  }

  ghost predicate IsFault(e: Event) { e.Unknown? || e.Broken? }

  ghost predicate HasFault(events: seq<Event>) {
    exists e :: e in events && IsFault(e)
  }

  ghost predicate NoFault(events: seq<Event>) {
    forall e :: e in events ==> !IsFault(e)
  }

  /** What comes right after `log` is a fault. */
  ghost predicate FaultNext(log: seq<Event>, full: seq<Event>) {
    log < full && IsFault(full[|log|])
  }
}

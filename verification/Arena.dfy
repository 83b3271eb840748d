/**
 * The arena of parent-linked path entries, and what the engine does with one
 * entry: test a revisit, evaluate an edge, append a child, materialize a path.
 */
module Arena {
  import opened Wrappers
  import opened Sequences
  import opened Enumeration
  import opened Routes
  import opened Revisits
  import opened Stats

  datatype PathEntry = PathEntry(
    node: NodeId,
    incomingEdge: Option<EdgeId>,
    parent: Option<nat>,
    depth: nat,
    state: State,
    visits: Fingerprint)

  /** An accepted edge that has not been pushed yet. */
  datatype EdgeEval = EdgeEval(edge: EdgeId, dest: NodeId, state: State, stop: bool)

  /** A delivered path: ids along the way, the last state and, on request, all states. */
  datatype GraphPath = GraphPath(
    nodes: seq<NodeId>,
    edges: seq<EdgeId>,
    state: State,
    intermediateStates: Option<seq<State>>)

  datatype EngineError = ZeroVisits | ZeroBatch | Fault

  /** Entry `i` stands for the walk `walks[i]`; parents come earlier. */
  ghost predicate EntryOk(arena: seq<PathEntry>, walks: seq<Walk>, i: nat)
    requires i < |arena| && |arena| == |walks|
  {
    var e, w := arena[i], walks[i];
    && e.node == w.node && e.state == w.state && e.depth == Depth(w) && Covers(e.visits, w)
    && match w
       case Origin(_, _, _) => e.parent.None? && e.incomingEdge.None?
       case Step(prev, _, edge, _, _) =>
         && e.incomingEdge == Some(edge)
         && e.parent.Some? && e.parent.value < i && walks[e.parent.value] == prev
  }

  ghost predicate ArenaOk(arena: seq<PathEntry>, walks: seq<Walk>) {
    && |arena| == |walks|
    && forall i :: 0 <= i < |arena| ==> EntryOk(arena, walks, i)
  }

  // ---------------------------------------------------------------------------
  // Growing and shrinking.

  function RootEntry(root: Root): PathEntry {
    PathEntry(root.node, None, None, 0, root.state, ForNode(root.node))
  }

  function ChildEntry(arena: seq<PathEntry>, parent: nat, edge: EdgeEval): PathEntry
    requires parent < |arena| && arena[parent].visits.Valid()
  {
    PathEntry(edge.dest, Some(edge.edge), Some(parent), arena[parent].depth + 1, edge.state,
              arena[parent].visits.Insert(edge.dest))
  }

  lemma ArenaPrefix(arena: seq<PathEntry>, walks: seq<Walk>, n: nat)
    requires ArenaOk(arena, walks) && n <= |arena|
    ensures ArenaOk(arena[..n], walks[..n])
  {
    forall i | 0 <= i < n
      ensures EntryOk(arena[..n], walks[..n], i)
    {
      assert EntryOk(arena, walks, i);
    }
  }

  lemma ArenaAppend(arena: seq<PathEntry>, walks: seq<Walk>, e: PathEntry, w: Walk)
    requires ArenaOk(arena, walks)
    requires EntryOk(arena + [e], walks + [w], |arena|)
    ensures ArenaOk(arena + [e], walks + [w])
  {
    forall i | 0 <= i < |arena|
      ensures EntryOk(arena + [e], walks + [w], i)
    {
      assert EntryOk(arena, walks, i);
    }
  }

  lemma PushRoot(p: Problem, arena: seq<PathEntry>, walks: seq<Walk>, k: nat)
    requires ArenaOk(arena, walks) && k < |p.roots| && p.roots[k].Some?
    ensures ArenaOk(arena + [RootEntry(p.roots[k].value)], walks + [StartWalk(p, k)])
  {
    OriginCovered(StartWalk(p, k));
    ArenaAppend(arena, walks, RootEntry(p.roots[k].value), StartWalk(p, k));
  }

  /** The walk that an accepted edge at position `at` makes of its parent's. */
  function ChildWalk(parent: Walk, at: nat, edge: EdgeEval): Walk {
    Step(parent, at, edge.edge, edge.dest, edge.state)
  }

  lemma PushChild(arena: seq<PathEntry>, walks: seq<Walk>, parent: nat, at: nat, edge: EdgeEval)
    requires ArenaOk(arena, walks) && parent < |arena|
    ensures EntryOk(arena, walks, parent)
    ensures ArenaOk(arena + [ChildEntry(arena, parent, edge)],
                    walks + [ChildWalk(walks[parent], at, edge)])
  {
    assert EntryOk(arena, walks, parent);
    var w := ChildWalk(walks[parent], at, edge);
    StepCovered(arena[parent].visits, w);
    ArenaAppend(arena, walks, ChildEntry(arena, parent, edge), w);
  }

  // ---------------------------------------------------------------------------
  // Testing and evaluating.

  /**
   * The revisit test on the parent chain is exact, although most calls are decided
   * by the fingerprint alone.
   */
  method CanVisit(arena: seq<PathEntry>, ghost walks: seq<Walk>, path: nat, node: NodeId, maxVisits: nat)
    returns (allowed: bool)
    requires ArenaOk(arena, walks) && path < |arena| && maxVisits >= 1
    ensures allowed <==> Occurs(walks[path], node) < maxVisits
  {
    assert EntryOk(arena, walks, path);
    if !arena[path].visits.MightContain(node) {
      return true;
    }
    var visits := 0;
    var current: nat := path;
    while true
      invariant current < |arena| && visits < maxVisits
      invariant visits + Occurs(walks[current], node) == Occurs(walks[path], node)
      decreases current
    {
      assert EntryOk(arena, walks, current);
      if arena[current].node == node {
        visits := visits + 1;
        if visits >= maxVisits {
          return false;
        }
      }
      match arena[current].parent {
        case Some(parent) => current := parent;
        case None => return true;
      }
    }
  }

  /** `edge` is what the outcome `e` of an accepted edge at position `i` of `w` carries. */
  ghost predicate Carries(e: Event, w: Walk, i: nat, edge: EdgeEval) {
    e == if edge.stop then Finish(ChildWalk(w, i, edge)) else Extend(ChildWalk(w, i, edge))
  }

  /** What evaluating an edge hands back agrees with the specified outcome. */
  ghost predicate Evaluates(e: Event, w: Walk, i: nat, r: Result<Option<EdgeEval>, EngineError>) {
    match r
    case Err(_) => e.Broken?
    case Ok(None) => e.Skip? || e.Refuse?
    case Ok(Some(edge)) => Carries(e, w, i, edge)
  }

  lemma NotFault(p: Problem, w: Walk, i: nat, looked: Option<EdgeEval>)
    requires i < Degree(p, w) && Evaluates(Outcome(p, w, i), w, i, Ok(looked))
    ensures !IsFault(Outcome(p, w, i))
  {
  }

  method EvalArenaEdge(p: Problem, arena: seq<PathEntry>, ghost walks: seq<Walk>, parent: nat,
                       ghost at: nat, arc: Arc, stats: SearchStats)
    returns (r: Result<Option<EdgeEval>, EngineError>, counted: SearchStats)
    requires ArenaOk(arena, walks) && parent < |arena| && p.maxVisits >= 1
    requires at < Degree(p, walks[parent]) && arc == Out(p, walks[parent].node)[at]
    ensures Evaluates(Outcome(p, walks[parent], at), walks[parent], at, r)
    ensures counted == Merge(stats, LookUnit(Outcome(p, walks[parent], at)))
  {
    counted := stats;
    var allowed := CanVisit(arena, walks, parent, arc.dest, p.maxVisits);
    if !allowed {
      counted := counted.(skippedRevisits := counted.skippedRevisits + 1);
      return Ok(None), counted;
    }
    counted := counted.(evaluatedEdges := counted.evaluatedEdges + 1);
    assert EntryOk(arena, walks, parent);
    match p.transition(arena[parent].node, arc.edge, arc.dest, arena[parent].state) {
      case Reject =>
        counted := counted.(rejectedEdges := counted.rejectedEdges + 1);
        r := Ok(None);
      case Continue(state) => r := Ok(Some(EdgeEval(arc.edge, arc.dest, state, false)));
      case Complete(state) => r := Ok(Some(EdgeEval(arc.edge, arc.dest, state, true)));
      case Fail => r := Err(Fault);
    }
  }

  /** Evaluates an edge below `w` when `visited` already counts the occurrences of its end. */
  method EvalCountedEdge(p: Problem, ghost w: Walk, ghost at: nat, node: NodeId, state: State, visited: nat,
                         arc: Arc, stats: SearchStats)
    returns (r: Result<Option<EdgeEval>, EngineError>, counted: SearchStats)
    requires at < Degree(p, w) && arc == Out(p, w.node)[at]
    requires node == w.node && state == w.state && visited == Occurs(w, arc.dest)
    ensures Evaluates(Outcome(p, w, at), w, at, r)
    ensures counted == Merge(stats, LookUnit(Outcome(p, w, at)))
  {
    counted := stats;
    if visited >= p.maxVisits {
      counted := counted.(skippedRevisits := counted.skippedRevisits + 1);
      return Ok(None), counted;
    }
    counted := counted.(evaluatedEdges := counted.evaluatedEdges + 1);
    match p.transition(node, arc.edge, arc.dest, state) {
      case Reject =>
        counted := counted.(rejectedEdges := counted.rejectedEdges + 1);
        r := Ok(None);
      case Continue(next) => r := Ok(Some(EdgeEval(arc.edge, arc.dest, next, false)));
      case Complete(next) => r := Ok(Some(EdgeEval(arc.edge, arc.dest, next, true)));
      case Fail => r := Err(Fault);
    }
  }

  // ---------------------------------------------------------------------------
  // Materializing.

  /** The path a walk is delivered as. */
  function PathOf(w: Walk, intermediateStates: bool): GraphPath {
    GraphPath(Nodes(w), Edges(w), w.state, if intermediateStates then Some(States(w)) else None)
  }

  function PathsOf(ws: seq<Walk>, intermediateStates: bool): (r: seq<GraphPath>)
    ensures |r| == |ws|
    ensures forall i :: 0 <= i < |ws| ==> r[i] == PathOf(ws[i], intermediateStates)
  {
    if ws == [] then [] else [PathOf(ws[0], intermediateStates)] + PathsOf(ws[1..], intermediateStates)
  }

  /** Following parents from an entry and reversing yields the path of its walk. */
  method Materialize(arena: seq<PathEntry>, ghost walks: seq<Walk>, path: nat, intermediateStates: bool)
    returns (r: GraphPath)
    requires ArenaOk(arena, walks) && path < |arena|
    ensures r == PathOf(walks[path], intermediateStates)
  {
    hide Covers, Reversed, Depth, Occurs;
    var nodes: seq<NodeId>, edges: seq<EdgeId>, states: seq<State> := [], [], [];
    ReversedNothing<nat>();
    ReversedNothing<State>();
    var current: nat := path;
    assert EntryOk(arena, walks, path);
    var running := true;
    while running
      invariant current < |arena| == |walks|
      invariant running ==> Nodes(walks[path]) == Nodes(walks[current]) + Reversed(nodes)
      invariant running ==> Edges(walks[path]) == Edges(walks[current]) + Reversed(edges)
      invariant running && intermediateStates ==> States(walks[path]) == States(walks[current]) + Reversed(states)
      invariant !running ==> Nodes(walks[path]) == Reversed(nodes) && Edges(walks[path]) == Reversed(edges)
      invariant !running && intermediateStates ==> States(walks[path]) == Reversed(states)
      decreases running, current
    {
      ghost var w := walks[current];
      assert EntryOk(arena, walks, current);
      ReversedAppend(nodes, arena[current].node);
      nodes := nodes + [arena[current].node];
      if arena[current].incomingEdge.Some? {
        ReversedAppend(edges, arena[current].incomingEdge.value);
        edges := edges + [arena[current].incomingEdge.value];
      }
      if intermediateStates {
        ReversedAppend(states, arena[current].state);
        states := states + [arena[current].state];
      }
      match arena[current].parent {
        case Some(parent) => current := parent;
        case None => running := false;
      }
    }
    r := GraphPath(Reversed(nodes), Reversed(edges), arena[path].state,
                   if intermediateStates then Some(Reversed(states)) else None);
  }

  /** A delivered path shows its route; the state history is aligned with the nodes and ends in the state. */
  lemma DeliveredShowsRoute(p: Problem, w: Walk)
    requires Completed(p, w)
    ensures var r := RouteOf(w);
            IsRoute(p, r) &&
            PathOf(w, true) == GraphPath(r.nodes, r.edges, r.states[|r.states| - 1], Some(r.states)) &&
            PathOf(w, false) == GraphPath(r.nodes, r.edges, r.states[|r.states| - 1], None)
  {
    CompletedIsRoute(p, w);
  }
}

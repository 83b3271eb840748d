/**
 * An independent description of the paths a search may deliver, by indices and
 * with no traversal order, and the proof that the enumeration lists exactly those.
 */
module Routes {
  import opened Wrappers
  import opened Enumeration

  // ---------------------------------------------------------------------------
  // Admissible routes.

  /** A path by its coordinates and contents; `nodes` and `states` are aligned. */
  datatype Route = Route(
    start: nat,
    steps: seq<nat>,
    nodes: seq<NodeId>,
    edges: seq<EdgeId>,
    states: seq<State>)

  /**
   * The k-th edge of the route is a real edge, within limits, and the kernel
   * completes or continues there, as `last` says, with the route's next state.
   */
  ghost predicate TakesEdge(p: Problem, r: Route, k: nat, last: bool)
    requires k < |r.steps| && |r.edges| == |r.steps|
    requires |r.nodes| == |r.steps| + 1 && |r.states| == |r.steps| + 1
  {
    && r.nodes[k] < |p.outgoing|
    && r.steps[k] < |p.outgoing[r.nodes[k]]|
    && p.outgoing[r.nodes[k]][r.steps[k]] == Arc(r.edges[k], r.nodes[k + 1])
    && multiset(r.nodes[..k + 1])[r.nodes[k + 1]] < p.maxVisits
    && p.transition(r.nodes[k], r.edges[k], r.nodes[k + 1], r.states[k]) ==
         (if last then Complete(r.states[k + 1]) else Continue(r.states[k + 1]))
  }

  /** The route opens at a known start, stays within the depth limit and continues along its first `n` edges. */
  ghost predicate Continues(p: Problem, r: Route, n: nat) {
    && n <= |r.steps| <= p.maxDepth
    && |r.edges| == |r.steps| && |r.nodes| == |r.steps| + 1 && |r.states| == |r.steps| + 1
    && r.start < |p.roots|
    && p.roots[r.start] == Some(Root(r.nodes[0], r.states[0]))
    && (forall k :: 0 <= k < n ==> TakesEdge(p, r, k, false))
  }

  /**
   * A deliverable path: it opens at a known start, follows real outgoing edges
   * within the depth and visit limits, every edge but the last continues and the
   * last completes, and each state is the kernel's answer to the one before it.
   */
  ghost predicate IsRoute(p: Problem, r: Route) {
    && r.steps != []
    && Continues(p, r, |r.steps| - 1)
    && TakesEdge(p, r, |r.steps| - 1, true)
  }

  /** An unfinished path: a start by itself, or one along which every edge continues. */
  ghost predicate IsOpen(p: Problem, r: Route) {
    Continues(p, r, |r.steps|)
  }

  // ---------------------------------------------------------------------------
  // Walks as routes.

  function Nodes(w: Walk): (s: seq<NodeId>)
    ensures |s| == Depth(w) + 1
  {
    if w.Origin? then [w.node] else Nodes(w.prev) + [w.node]
  }

  function Edges(w: Walk): (s: seq<EdgeId>)
    ensures |s| == Depth(w)
  {
    if w.Origin? then [] else Edges(w.prev) + [w.edge]
  }

  function States(w: Walk): (s: seq<State>)
    ensures |s| == Depth(w) + 1
  {
    if w.Origin? then [w.state] else States(w.prev) + [w.state]
  }

  function RouteOf(w: Walk): Route {
    Route(Key(w)[0], Key(w)[1..], Nodes(w), Edges(w), States(w))
  }

  /** The walk along the first `k` edges of a route. */
  function WalkAlong(r: Route, k: nat): Walk
    requires k < |r.nodes| && k < |r.states| && k <= |r.steps| && k <= |r.edges|
  {
    if k == 0 then Origin(r.start, r.nodes[0], r.states[0])
    else Step(WalkAlong(r, k - 1), r.steps[k - 1], r.edges[k - 1], r.nodes[k], r.states[k])
  }

  lemma {:induction false} WalkAlongContents(r: Route, k: nat)
    requires k < |r.nodes| && k < |r.states| && k <= |r.steps| && k <= |r.edges|
    ensures var w := WalkAlong(r, k);
            Depth(w) == k && Key(w) == [r.start] + r.steps[..k] && Nodes(w) == r.nodes[..k + 1] &&
            Edges(w) == r.edges[..k] && States(w) == r.states[..k + 1]
  {
    if k > 0 {
      WalkAlongContents(r, k - 1);
    }
  }

  lemma {:induction false} OccursCounts(w: Walk, v: NodeId)
    ensures Occurs(w, v) == multiset(Nodes(w))[v]
  {
    if w.Step? {
      OccursCounts(w.prev, v);
    }
  }

  // ---------------------------------------------------------------------------
  // Live walks (every edge continued) and completed walks.

  ghost predicate Live(p: Problem, w: Walk) {
    match w
    case Origin(start, _, _) => StartEvent(p, start) == Begin(w)
    case Step(prev, at, _, _, _) => Live(p, prev) && at < Degree(p, prev) && Outcome(p, prev, at) == Extend(w)
  }

  ghost predicate Completed(p: Problem, w: Walk) {
    w.Step? && Live(p, w.prev) && w.at < Degree(p, w.prev) && Outcome(p, w.prev, w.at) == Finish(w)
  }

  lemma {:induction false} LiveInRange(p: Problem, w: Walk, v: NodeId)
    requires Live(p, w)
    ensures w.node < |p.outgoing|
    ensures p.maxVisits >= 1 ==> Occurs(w, v) <= p.maxVisits
  {
    if w.Step? {
      LiveInRange(p, w.prev, v);
    }
  }

  lemma {:induction false} LiveTakesEdges(p: Problem, w: Walk, r: Route, k: nat)
    requires Live(p, w) && Depth(w) <= |r.steps| && k < Depth(w)
    requires |r.edges| == |r.steps| && |r.nodes| == |r.steps| + 1 && |r.states| == |r.steps| + 1
    requires Key(w) == [r.start] + r.steps[..Depth(w)] && Nodes(w) == r.nodes[..Depth(w) + 1]
    requires Edges(w) == r.edges[..Depth(w)] && States(w) == r.states[..Depth(w) + 1]
    ensures TakesEdge(p, r, k, false)
  {
    hide Key, Nodes, Edges, States, TakesEdge, Outcome, Degree;
    var d := Depth(w);
    PrefixContents(w, r);
    if k < d - 1 {
      LiveTakesEdges(p, w.prev, r, k);
    } else {
      LastTakesEdge(p, w, r);
    }
  }

  /** Dropping the last edge of a walk drops the last item of each of its lists. */
  lemma PrefixContents(w: Walk, r: Route)
    requires w.Step? && Depth(w) <= |r.steps|
    requires |r.edges| == |r.steps| && |r.nodes| == |r.steps| + 1 && |r.states| == |r.steps| + 1
    requires Key(w) == [r.start] + r.steps[..Depth(w)] && Nodes(w) == r.nodes[..Depth(w) + 1]
    requires Edges(w) == r.edges[..Depth(w)] && States(w) == r.states[..Depth(w) + 1]
    ensures var d := Depth(w.prev);
            Key(w.prev) == [r.start] + r.steps[..d] && Nodes(w.prev) == r.nodes[..d + 1] &&
            Edges(w.prev) == r.edges[..d] && States(w.prev) == r.states[..d + 1] &&
            w.at == r.steps[d] && w.edge == r.edges[d] && w.node == r.nodes[d + 1] &&
            w.state == r.states[d + 1] && w.prev.node == r.nodes[d] && w.prev.state == r.states[d]
  {
    var d := Depth(w.prev);
    assert ([r.start] + r.steps)[..d + 2] == [r.start] + r.steps[..d + 1];
    assert ([r.start] + r.steps)[..d + 1] == [r.start] + r.steps[..d];
    LastItem(Key(w.prev), w.at, [r.start] + r.steps);
    LastItem(Nodes(w.prev), w.node, r.nodes);
    LastItem(Edges(w.prev), w.edge, r.edges);
    LastItem(States(w.prev), w.state, r.states);
    EndItems(w.prev);
  }

  lemma LastItem<T>(front: seq<T>, last: T, whole: seq<T>)
    requires |front| < |whole| && front + [last] == whole[..|front| + 1]
    ensures front == whole[..|front|] && last == whole[|front|]
  {
    assert (front + [last])[..|front|] == front && (front + [last])[|front|] == last;
  }

  lemma EndItems(w: Walk)
    ensures Nodes(w)[Depth(w)] == w.node && States(w)[Depth(w)] == w.state
  {
  }

  lemma LastTakesEdge(p: Problem, w: Walk, r: Route)
    requires w.Step? && Live(p, w.prev) && w.at < Degree(p, w.prev)
    requires Outcome(p, w.prev, w.at) == Extend(w) || Outcome(p, w.prev, w.at) == Finish(w)
    requires Depth(w) <= |r.steps|
    requires |r.edges| == |r.steps| && |r.nodes| == |r.steps| + 1 && |r.states| == |r.steps| + 1
    requires Key(w) == [r.start] + r.steps[..Depth(w)] && Nodes(w) == r.nodes[..Depth(w) + 1]
    requires Edges(w) == r.edges[..Depth(w)] && States(w) == r.states[..Depth(w) + 1]
    ensures var d := Depth(w.prev);
            TakesEdge(p, r, d, Outcome(p, w.prev, w.at).Finish?)
  {
    hide Key, Nodes, Edges, States, Live, Occurs;
    PrefixContents(w, r);
    LiveInRange(p, w.prev, w.node);
    OccursCounts(w.prev, w.node);
  }

  /** Every completed walk is a deliverable path. */
  lemma CompletedIsRoute(p: Problem, w: Walk)
    requires Completed(p, w)
    ensures IsRoute(p, RouteOf(w))
  {
    hide Live, Outcome, TakesEdge;
    var r := RouteOf(w);
    PrefixContents(w, r);
    LiveRoot(p, w.prev);
    assert Nodes(w)[0] == Nodes(w.prev)[0] && States(w)[0] == States(w.prev)[0];
    assert Key(w)[0] == Key(w.prev)[0];
    forall k | 0 <= k < |r.steps| - 1
      ensures TakesEdge(p, r, k, false)
    {
      LiveTakesEdges(p, w.prev, r, k);
    }
    LastTakesEdge(p, w, r);
  }

  lemma {:induction false} LiveRoot(p: Problem, w: Walk)
    requires Live(p, w)
    ensures Key(w)[0] < |p.roots| && p.roots[Key(w)[0]] == Some(Root(Nodes(w)[0], States(w)[0]))
  {
    if w.Step? {
      LiveRoot(p, w.prev);
    }
  }

  lemma {:induction false} RouteIsLive(p: Problem, r: Route, k: nat)
    requires Continues(p, r, k)
    ensures Live(p, WalkAlong(r, k))
  {
    if k > 0 {
      RouteIsLive(p, r, k - 1);
      StepAlong(p, r, k - 1, false);
    }
  }

  /** The edge a route takes next is the outcome at its position. */
  lemma StepAlong(p: Problem, r: Route, k: nat, last: bool)
    requires Continues(p, r, k) && k < |r.steps| && TakesEdge(p, r, k, last)
    ensures r.steps[k] < Degree(p, WalkAlong(r, k))
    ensures Outcome(p, WalkAlong(r, k), r.steps[k]) ==
            if last then Finish(WalkAlong(r, k + 1)) else Extend(WalkAlong(r, k + 1))
  {
    hide Key, Edges, States, Live;
    WalkAlongContents(r, k);
    OccursCounts(WalkAlong(r, k), r.nodes[k + 1]);
  }

  /** Every deliverable path is a completed walk. */
  lemma RouteIsCompleted(p: Problem, r: Route)
    requires IsRoute(p, r)
    ensures Completed(p, WalkAlong(r, |r.steps|)) && RouteOf(WalkAlong(r, |r.steps|)) == r
  {
    hide Live, Outcome, Degree, TakesEdge, RouteOf;
    RouteIsLive(p, r, |r.steps| - 1);
    StepAlong(p, r, |r.steps| - 1, true);
    RouteAlong(r);
  }

  /** The walk along all edges of a route has the route's lists. */
  lemma RouteAlong(r: Route)
    requires |r.edges| == |r.steps| && |r.nodes| == |r.steps| + 1 && |r.states| == |r.steps| + 1
    ensures RouteOf(WalkAlong(r, |r.steps|)) == r
  {
    hide WalkAlong, Key, Nodes, Edges, States;
    var n := |r.steps|;
    WalkAlongContents(r, n);
    assert r.steps[..n] == r.steps && r.edges[..n] == r.edges;
    assert r.nodes[..n + 1] == r.nodes && r.states[..n + 1] == r.states;
    assert ([r.start] + r.steps)[1..] == r.steps;
  }

  /** Every live walk is an unfinished path. */
  lemma LiveIsOpen(p: Problem, w: Walk)
    requires Live(p, w)
    ensures IsOpen(p, RouteOf(w))
  {
    hide Live, TakesEdge;
    var r := RouteOf(w);
    LiveRoot(p, w);
    LiveWithin(p, w);
    assert Key(w) == [r.start] + r.steps && r.steps[..Depth(w)] == r.steps;
    forall k | 0 <= k < |r.steps|
      ensures TakesEdge(p, r, k, false)
    {
      LiveTakesEdges(p, w, r, k);
    }
  }

  lemma LiveWithin(p: Problem, w: Walk)
    requires Live(p, w)
    ensures Depth(w) <= p.maxDepth
  {
  }

  /** Every unfinished path is a live walk. */
  lemma OpenIsLive(p: Problem, r: Route)
    requires IsOpen(p, r)
    ensures Live(p, WalkAlong(r, |r.steps|)) && RouteOf(WalkAlong(r, |r.steps|)) == r
  {
    hide Live, TakesEdge, RouteOf;
    RouteIsLive(p, r, |r.steps|);
    RouteAlong(r);
  }

  /** A walk is the one along all edges of its route. */
  lemma {:induction false} AlongItself(w: Walk, r: Route)
    requires Depth(w) <= |r.steps|
    requires |r.edges| == |r.steps| && |r.nodes| == |r.steps| + 1 && |r.states| == |r.steps| + 1
    requires Key(w) == [r.start] + r.steps[..Depth(w)] && Nodes(w) == r.nodes[..Depth(w) + 1]
    requires Edges(w) == r.edges[..Depth(w)] && States(w) == r.states[..Depth(w) + 1]
    ensures WalkAlong(r, Depth(w)) == w
  {
    if w.Step? {
      PrefixContents(w, r);
      AlongItself(w.prev, r);
    } else {
      assert Key(w)[0] == w.start && Nodes(w)[0] == w.node && States(w)[0] == w.state;
    }
  }

  lemma RouteDetermines(w: Walk)
    ensures WalkAlong(RouteOf(w), Depth(w)) == w && |RouteOf(w).steps| == Depth(w)
  {
    hide WalkAlong, Key, Nodes, Edges, States;
    var r := RouteOf(w);
    assert Key(w) == [r.start] + r.steps && r.steps[..Depth(w)] == r.steps;
    AlongItself(w, r);
  }

  // ---------------------------------------------------------------------------
  // The enumeration meets exactly the completed walks.

  /** An event whose walk is what it claims to be. */
  ghost predicate Sound(p: Problem, e: Event) {
    match e
    case Begin(o) => o.Origin? && Live(p, o)
    case Extend(w) => w.Step? && Live(p, w)
    case Finish(w) => Completed(p, w)
    case Skip(w, i) => Live(p, w) && i < Degree(p, w) && Outcome(p, w, i) == e
    case Refuse(w, i) => Live(p, w) && i < Degree(p, w) && Outcome(p, w, i) == e
    case Broken(w, i) => Live(p, w) && i < Degree(p, w) && Outcome(p, w, i) == e
    case Unknown(k) => StartEvent(p, k) == e
  }

  /** The start position an event belongs to. */
  ghost function StartOf(e: Event): nat {
    match e
    case Begin(w) => Key(w)[0]
    case Extend(w) => Key(w)[0]
    case Finish(w) => Key(w)[0]
    case Skip(w, i) => Key(w)[0]
    case Refuse(w, i) => Key(w)[0]
    case Broken(w, i) => Key(w)[0]
    case Unknown(k) => k
  }

  /** An outcome is of the edge looked at. */
  lemma OutcomeShape(p: Problem, w: Walk, i: nat)
    requires i < Degree(p, w)
    ensures var e := Outcome(p, w, i);
            match e
            case Extend(child) => child.Step? && child.prev == w && child.at == i
            case Finish(child) => child.Step? && child.prev == w && child.at == i
            case _ => e == Skip(w, i) || e == Refuse(w, i) || e == Broken(w, i)
  {
    hide Degree, Occurs;
  }

  lemma OutcomeSound(p: Problem, w: Walk, i: nat)
    requires Live(p, w) && i < Degree(p, w)
    ensures var e := Outcome(p, w, i);
            && Sound(p, e) && StartOf(e) == Key(w)[0]
            && (e.Extend? ==> Live(p, e.to) && Key(e.to)[0] == Key(w)[0])
  {
    hide Outcome, Degree;
    OutcomeShape(p, w, i);
  }

  lemma {:induction false} TraceSound(p: Problem, w: Walk, i: nat)
    requires Live(p, w) && i <= Degree(p, w)
    ensures forall e :: e in Trace(p, w, i) ==> Sound(p, e) && StartOf(e) == Key(w)[0]
    decreases Room(p, w), Degree(p, w) - i
  {
    hide Live, Sound, StartOf, Outcome, Key, Degree, Room;
    if i < Degree(p, w) {
      var e := Outcome(p, w, i);
      OutcomeSound(p, w, i);
      TraceUnfolds(p, w, i);
      TraceSound(p, w, i + 1);
      if e.Extend? {
        RoomStep(p, w, i);
        TraceSound(p, e.to, 0);
      }
    }
  }

  lemma {:induction false} DfsTraceSound(p: Problem, starts: seq<nat>)
    ensures forall e :: e in DfsTrace(p, starts) ==> Sound(p, e) && StartOf(e) in starts
  {
    if starts != [] {
      var e := StartEvent(p, starts[0]);
      if e.Begin? {
        TraceSound(p, e.origin, 0);
      }
      DfsTraceSound(p, starts[1..]);
    }
  }

  lemma {:induction false} TraceSuffix(p: Problem, w: Walk, i: nat, e: Event)
    requires i <= Degree(p, w) && e in Trace(p, w, i)
    ensures e in Trace(p, w, 0)
    decreases i
  {
    if i > 0 {
      var o := Outcome(p, w, i - 1);
      if o.Extend? {
        RoomStep(p, w, i - 1);
      }
      assert e in Trace(p, w, i - 1);
      TraceSuffix(p, w, i - 1, e);
    }
  }

  /** Whatever happens below a live walk happens below its start. */
  lemma {:induction false} BelowStart(p: Problem, w: Walk, e: Event)
    requires Live(p, w) && e in Trace(p, w, 0)
    ensures e in StartTrace(p, Key(w)[0])
    decreases w
  {
    if w.Step? {
      RoomStep(p, w.prev, w.at);
      assert e in Trace(p, w.prev, w.at);
      TraceSuffix(p, w.prev, w.at, e);
      BelowStart(p, w.prev, e);
    }
  }

  lemma {:induction false} StartTraceIncluded(p: Problem, starts: seq<nat>, k: nat, e: Event)
    requires k in starts && e in StartTrace(p, k)
    ensures e in DfsTrace(p, starts)
  {
    if starts[0] != k {
      assert starts == [starts[0]] + starts[1..];
      StartTraceIncluded(p, starts[1..], k, e);
    }
  }

  lemma {:induction false} FinishedMembers(events: seq<Event>, w: Walk)
    ensures w in Finished(events) <==> Finish(w) in events
  {
    if events != [] {
      FinishedMembers(events[1..], w);
      assert events == [events[0]] + events[1..];
    }
  }

  /** Every edge below a live walk of a requested start is looked at. */
  lemma OutcomeHappens(p: Problem, starts: seq<nat>, w: Walk, i: nat)
    requires Live(p, w) && i < Degree(p, w) && Key(w)[0] in starts
    ensures Outcome(p, w, i) in DfsTrace(p, starts)
  {
    hide Live, Outcome, Degree, Key;
    var e := Outcome(p, w, i);
    TraceUnfolds(p, w, i);
    assert e in Trace(p, w, i);
    TraceSuffix(p, w, i, e);
    BelowStart(p, w, e);
    StartTraceIncluded(p, starts, Key(w)[0], e);
  }

  /** Soundness and completeness: the run finishes exactly the completed walks of its starts. */
  lemma DfsFinishesExactly(p: Problem, starts: seq<nat>, w: Walk)
    ensures w in Finished(DfsTrace(p, starts)) <==> Completed(p, w) && Key(w)[0] in starts
  {
    DfsTraceSound(p, starts);
    FinishedMembers(DfsTrace(p, starts), w);
    if Completed(p, w) && Key(w)[0] in starts {
      OutcomeHappens(p, starts, w.prev, w.at);
    }
  }

  /** The delivered paths are exactly the deliverable routes of the requested starts. */
  lemma DeliversExactlyRoutes(p: Problem, starts: seq<nat>, r: Route)
    ensures IsRoute(p, r) && r.start in starts <==>
            exists w :: w in Finished(DfsTrace(p, starts)) && RouteOf(w) == r
  {
    if IsRoute(p, r) && r.start in starts {
      RouteIsCompleted(p, r);
      var w := WalkAlong(r, |r.steps|);
      DfsFinishesExactly(p, starts, w);
      assert w in Finished(DfsTrace(p, starts)) && RouteOf(w) == r;
    }
    if w :| w in Finished(DfsTrace(p, starts)) && RouteOf(w) == r {
      DfsFinishesExactly(p, starts, w);
      CompletedIsRoute(p, w);
    }
  }

  // ---------------------------------------------------------------------------
  // Finiteness.

  lemma {:induction false} RoomBelowOrigin(p: Problem, w: Walk, n: nat)
    requires w.Origin? && p.maxVisits >= 1
    ensures RoomBelow(p, w, n) == n * p.maxVisits - if w.node < n then 1 else 0
  {
    if n > 0 {
      RoomBelowOrigin(p, w, n - 1);
    }
  }

  /** With or without a depth limit, a live path has at most `nodes * maxVisits` nodes. */
  lemma {:induction false} LengthBound(p: Problem, w: Walk)
    requires Live(p, w) && p.maxVisits >= 1
    ensures |Nodes(w)| + Room(p, w) == |p.outgoing| * p.maxVisits
  {
    if w.Step? {
      LengthBound(p, w.prev);
      RoomStep(p, w.prev, w.at);
    } else {
      RoomBelowOrigin(p, w, |p.outgoing|);
    }
  }

  lemma DeliveredLengthBound(p: Problem, r: Route)
    requires IsRoute(p, r) && p.maxVisits >= 1
    ensures |r.nodes| <= |p.outgoing| * p.maxVisits
  {
    RouteIsCompleted(p, r);
    var w := WalkAlong(r, |r.steps|);
    LengthBound(p, w.prev);
    RoomStep(p, w.prev, w.at);
  }
}

/**
 * Searching without a depth limit: from node count times max_visits on, a limit is never
 * felt, so that every such limit stands for none.
 */
module DepthLimits {
  import opened Enumeration
  import opened Routes

  /** The same problem under two depth limits that no allowed path can reach. */
  ghost predicate Unlimited(p: Problem, q: Problem) {
    && p.outgoing == q.outgoing && p.roots == q.roots && p.transition == q.transition && p.maxVisits == q.maxVisits
    && p.maxDepth >= |p.outgoing| * p.maxVisits && q.maxDepth >= |q.outgoing| * q.maxVisits
  }

  /** The limit is not felt at a live walk: all its edges are looked at. */
  lemma AllEdges(p: Problem, w: Walk)
    requires Live(p, w) && p.maxVisits >= 1 && p.maxDepth >= |p.outgoing| * p.maxVisits
    ensures Degree(p, w) == |Out(p, w.node)|
  {
    hide Live, Room;
    LengthBound(p, w);
    assert |Nodes(w)| == Depth(w) + 1;
  }

  lemma {:induction false} LiveAlike(p: Problem, q: Problem, w: Walk)
    requires Unlimited(p, q) && p.maxVisits >= 1 && Live(p, w)
    ensures Live(q, w) && Degree(q, w) == Degree(p, w)
  {
    if w.Step? {
      LiveAlike(p, q, w.prev);
    }
    AllEdges(p, w);
    AllEdges(q, w);
  }

  lemma OutcomeAlike(p: Problem, q: Problem, w: Walk, i: nat)
    requires Unlimited(p, q) && p.maxVisits >= 1 && Live(p, w) && i < Degree(p, w)
    ensures i < Degree(q, w) && Outcome(q, w, i) == Outcome(p, w, i)
    ensures Outcome(p, w, i).Extend? ==> Live(p, Outcome(p, w, i).to)
  {
    hide Sound, StartOf, Key;
    LiveAlike(p, q, w);
    OutcomeSound(p, w, i);
  }

  lemma {:induction false} TraceAlike(p: Problem, q: Problem, w: Walk, i: nat)
    requires Unlimited(p, q) && p.maxVisits >= 1 && Live(p, w) && i <= Degree(p, w)
    ensures i <= Degree(q, w) && Trace(q, w, i) == Trace(p, w, i)
    decreases Room(p, w), Degree(p, w) - i
  {
    hide Live, Outcome, Room, Unlimited;
    LiveAlike(p, q, w);
    if i < Degree(p, w) {
      var e := Outcome(p, w, i);
      OutcomeAlike(p, q, w, i);
      TraceUnfolds(p, w, i);
      TraceUnfolds(q, w, i);
      TraceAlike(p, q, w, i + 1);
      if e.Extend? {
        RoomStep(p, w, i);
        TraceAlike(p, q, e.to, 0);
        LiveAlike(p, q, e.to);
      }
    }
  }

  lemma StartAlike(p: Problem, q: Problem, k: nat)
    requires Unlimited(p, q) && p.maxVisits >= 1
    ensures StartEvent(q, k) == StartEvent(p, k) && StartTrace(q, k) == StartTrace(p, k)
    ensures StartEvent(p, k).Begin? ==> Live(p, StartEvent(p, k).origin)
  {
    hide Trace;
    var e := StartEvent(p, k);
    if e.Begin? {
      TraceAlike(p, q, e.origin, 0);
    }
  }

  lemma {:induction false} QueueAlike(p: Problem, q: Problem, queue: seq<Walk>, i: nat)
    requires Unlimited(p, q) && p.maxVisits >= 1 && Positioned(p, queue, i)
    requires forall k :: 0 <= k < |queue| ==> Live(p, queue[k])
    ensures Positioned(q, queue, i) && QueueTrace(q, queue, i) == QueueTrace(p, queue, i)
    decreases Pressure(p, queue, i)
  {
    hide Live, Outcome, Unlimited, Pressure, Degree;
    if queue != [] {
      LiveAlike(p, q, queue[0]);
      PressureDrops(p, queue, i);
      PressureDrops(q, queue, i);
      if i == Degree(p, queue[0]) {
        QueueAlike(p, q, queue[1..], 0);
      } else {
        OutcomeAlike(p, q, queue[0], i);
        QueueAlike(p, q, Enqueue(queue, Outcome(p, queue[0], i)), i + 1);
      }
    }
  }

  lemma {:induction false} StartsAlike(p: Problem, q: Problem, starts: seq<nat>)
    requires Unlimited(p, q) && p.maxVisits >= 1
    ensures DfsTrace(q, starts) == DfsTrace(p, starts) && StartEvents(q, starts) == StartEvents(p, starts)
    ensures StartWalks(q, starts) == StartWalks(p, starts)
    ensures forall k :: 0 <= k < |StartWalks(p, starts)| ==> Live(p, StartWalks(p, starts)[k])
  {
    hide Live, StartTrace, StartEvent, Unlimited;
    if starts != [] {
      StartAlike(p, q, starts[0]);
      StartsAlike(p, q, starts[1..]);
    }
  }

  /** Under any two such limits the same happens, in either order: the same paths, faults and counts. */
  lemma LimitNotFelt(p: Problem, q: Problem, starts: seq<nat>)
    requires Unlimited(p, q) && p.maxVisits >= 1
    ensures DfsTrace(q, starts) == DfsTrace(p, starts) && BfsTrace(q, starts) == BfsTrace(p, starts)
  {
    hide Live, QueueTrace, Unlimited;
    StartsAlike(p, q, starts);
    QueueAlike(p, q, StartWalks(p, starts), 0);
  }

  /** And the same routes are deliverable, when no visit at all is allowed too. */
  lemma SameRoutes(p: Problem, q: Problem, r: Route)
    requires Unlimited(p, q)
    ensures IsRoute(p, r) <==> IsRoute(q, r)
  {
    if IsRoute(p, r) {
      RouteKept(p, q, r);
    }
    if IsRoute(q, r) {
      RouteKept(q, p, r);
    }
  }

  lemma EdgeKept(p: Problem, q: Problem, r: Route, k: nat, last: bool)
    requires Unlimited(p, q) && k < |r.steps| && |r.edges| == |r.steps|
    requires |r.nodes| == |r.steps| + 1 && |r.states| == |r.steps| + 1 && TakesEdge(p, r, k, last)
    ensures TakesEdge(q, r, k, last) && p.maxVisits >= 1
  {
  }

  lemma RouteKept(p: Problem, q: Problem, r: Route)
    requires Unlimited(p, q) && IsRoute(p, r)
    ensures IsRoute(q, r)
  {
    hide TakesEdge;
    EdgeKept(p, q, r, |r.steps| - 1, true);
    DeliveredLengthBound(p, r);
    forall k | 0 <= k < |r.steps| - 1
      ensures TakesEdge(q, r, k, false)
    {
      EdgeKept(p, q, r, k, false);
    }
  }
}

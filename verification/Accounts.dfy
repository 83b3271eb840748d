/**
 * A run told on routes and edge positions alone: which edges a search looks at, what becomes of
 * each, where it fails, and what its counters count, also when a number of paths cuts it short.
 */
module Accounts {
  import opened Wrappers
  import opened Enumeration
  import opened Limits
  import opened Routes
  import opened Orders
  import opened Stats

  // ---------------------------------------------------------------------------
  // What a search looks at.

  /** Edge position `at` out of the end of an unfinished path. */
  datatype Look = Look(route: Route, at: nat)

  /** The path is below the depth limit and there is such an edge. */
  ghost predicate LooksAt(p: Problem, l: Look) {
    && IsOpen(p, l.route) && |l.route.steps| < p.maxDepth
    && l.route.nodes[|l.route.steps|] < |p.outgoing|
    && l.at < |p.outgoing[l.route.nodes[|l.route.steps|]]|
  }

  ghost function ArcAt(p: Problem, l: Look): Arc
    requires LooksAt(p, l)
  {
    p.outgoing[l.route.nodes[|l.route.steps|]][l.at]
  }

  /** How often the path has visited the edge's destination. */
  ghost function VisitsAt(p: Problem, l: Look): nat
    requires LooksAt(p, l)
  {
    multiset(l.route.nodes)[ArcAt(p, l).dest]
  }

  /** What the kernel says of the edge. */
  ghost function AnswerAt(p: Problem, l: Look): Transition
    requires LooksAt(p, l)
  {
    var arc, end := ArcAt(p, l), |l.route.steps|;
    p.transition(l.route.nodes[end], arc.edge, arc.dest, l.route.states[end])
  }

  datatype Kind = Revisit | Evaluated | Rejected | Failing | Accepted | Completing

  /** What becomes of an edge that is looked at. */
  ghost predicate OfKind(p: Problem, l: Look, kind: Kind)
    requires LooksAt(p, l)
  {
    if VisitsAt(p, l) >= p.maxVisits then kind.Revisit? else
    match kind
    case Revisit => false
    case Evaluated => true
    case Rejected => AnswerAt(p, l).Reject?
    case Failing => AnswerAt(p, l).Fail?
    case Accepted => AnswerAt(p, l).Continue? || AnswerAt(p, l).Complete?
    case Completing => AnswerAt(p, l).Complete?
  }

  ghost function RouteKey(r: Route): seq<nat> { [r.start] + r.steps }

  ghost function LookKey(l: Look): seq<nat> { RouteKey(l.route) + [l.at] }

  ghost predicate UnknownStart(p: Problem, k: nat) {
    k >= |p.roots| || p.roots[k].None?
  }

  /** The starts are requested in order. */
  ghost predicate Increasing(starts: seq<nat>) {
    forall i, j :: 0 <= i < j < |starts| ==> starts[i] < starts[j]
  }

  // ---------------------------------------------------------------------------
  // Events are looks.

  ghost function EventAt(p: Problem, l: Look): Event
    requires LooksAt(p, l)
    requires l.at < Degree(p, WalkAlong(l.route, |l.route.steps|))
  {
    Outcome(p, WalkAlong(l.route, |l.route.steps|), l.at)
  }

  ghost predicate IsLook(e: Event) { !e.Begin? && !e.Unknown? && (e.Extend? || e.Finish? ==> e.to.Step?) }

  ghost function LookOf(e: Event): Look
    requires IsLook(e)
  {
    match e
    case Skip(w, i) => Look(RouteOf(w), i)
    case Refuse(w, i) => Look(RouteOf(w), i)
    case Broken(w, i) => Look(RouteOf(w), i)
    case Extend(w) => Look(RouteOf(w.prev), w.at)
    case Finish(w) => Look(RouteOf(w.prev), w.at)
  }

  ghost predicate Shows(e: Event, kind: Kind) {
    match kind
    case Revisit => e.Skip?
    case Evaluated => e.Refuse? || e.Broken? || e.Extend? || e.Finish?
    case Rejected => e.Refuse?
    case Failing => e.Broken?
    case Accepted => e.Extend? || e.Finish?
    case Completing => e.Finish?
  }

  /** A look is at an edge below a live walk. */
  lemma LookAlong(p: Problem, l: Look)
    requires LooksAt(p, l)
    ensures var w := WalkAlong(l.route, |l.route.steps|);
            && Live(p, w) && l.at < Degree(p, w) && RouteOf(w) == l.route
            && Out(p, w.node) == p.outgoing[l.route.nodes[|l.route.steps|]]
            && w.node == l.route.nodes[|l.route.steps|] && w.state == l.route.states[|l.route.steps|]
            && (forall v :: Occurs(w, v) == multiset(l.route.nodes)[v]) && Depth(w) == |l.route.steps|
  {
    hide Live, RouteOf, TakesEdge;
    var n := |l.route.steps|;
    OpenIsLive(p, l.route);
    WalkAlongContents(l.route, n);
    var w := WalkAlong(l.route, n);
    assert l.route.nodes[..n + 1] == l.route.nodes;
    forall v
      ensures Occurs(w, v) == multiset(l.route.nodes)[v]
    {
      OccursCounts(w, v);
    }
  }

  /** Which outcome it is depends on the visits so far and on the kernel's answer. */
  lemma OutcomeAnswers(p: Problem, w: Walk, i: nat)
    requires i < Degree(p, w)
    ensures var arc, e := Out(p, w.node)[i], Outcome(p, w, i);
            var answer := p.transition(w.node, arc.edge, arc.dest, w.state);
            if Occurs(w, arc.dest) >= p.maxVisits then e.Skip? else
              match answer
              case Reject => e.Refuse?
              case Continue(_) => e.Extend?
              case Complete(_) => e.Finish?
              case Fail => e.Broken?
  {
    hide Occurs;
  }

  /** What happens at a look is what its route, its position and the kernel say. */
  lemma LookDecides(p: Problem, l: Look)
    requires LooksAt(p, l)
    ensures l.at < Degree(p, WalkAlong(l.route, |l.route.steps|))
    ensures IsLook(EventAt(p, l)) && LookOf(EventAt(p, l)) == l && EventKey(EventAt(p, l)) == LookKey(l)
    ensures forall kind :: Shows(EventAt(p, l), kind) <==> OfKind(p, l, kind)
  {
    hide WalkAlong, TakesEdge, OfKind, Outcome, Shows, EventKey, Key, RouteOf;
    LookKinds(p, l);
    var w := WalkAlong(l.route, |l.route.steps|);
    LookAlong(p, l);
    OutcomeKey(p, w, l.at);
    OutcomeShape(p, w, l.at);
    KeyOfRoute(w);
  }

  lemma LookKinds(p: Problem, l: Look)
    requires LooksAt(p, l)
    ensures l.at < Degree(p, WalkAlong(l.route, |l.route.steps|))
    ensures forall kind :: Shows(EventAt(p, l), kind) <==> OfKind(p, l, kind)
  {
    hide Live, WalkAlong, Occurs, Depth, TakesEdge, Outcome, RouteOf;
    LookAlong(p, l);
    OutcomeAnswers(p, WalkAlong(l.route, |l.route.steps|), l.at);
  }

  /** Whatever happens at an edge happens at a look. */
  lemma EventLooks(p: Problem, e: Event)
    requires Sound(p, e) && !e.Begin? && !e.Unknown?
    ensures IsLook(e) && LooksAt(p, LookOf(e)) && LookOf(e).route.start == StartOf(e)
    ensures var l := LookOf(e);
            l.at < Degree(p, WalkAlong(l.route, |l.route.steps|)) && EventAt(p, l) == e
  {
    hide WalkAlong, Outcome, IsOpen;
    var w := if e.Extend? || e.Finish? then e.to.prev else e.from;
    LiveIsOpen(p, w);
    RouteDetermines(w);
    OpenEnd(w);
    LiveInRange(p, w, w.node);
    assert Live(p, w) && Key(w)[0] == StartOf(e);
  }

  lemma OpenEnd(w: Walk)
    ensures RouteOf(w).nodes[Depth(w)] == w.node && |RouteOf(w).nodes| == Depth(w) + 1
  {
    EndItems(w);
  }

  lemma FullSound(p: Problem, strategy: Strategy, starts: seq<nat>)
    ensures forall e :: e in FullTrace(p, strategy, starts) <==> e in DfsTrace(p, starts)
    ensures forall e :: e in FullTrace(p, strategy, starts) ==> Sound(p, e) && StartOf(e) in starts
  {
    hide DfsTrace, BfsTrace;
    SameEvents(p, starts);
    DfsTraceSound(p, starts);
    forall e
      ensures e in BfsTrace(p, starts) <==> e in DfsTrace(p, starts)
    {
      assert e in BfsTrace(p, starts) <==> e in multiset(BfsTrace(p, starts));
      assert e in DfsTrace(p, starts) <==> e in multiset(DfsTrace(p, starts));
    }
  }

  /** Every look of a requested start happens. */
  lemma LookHappens(p: Problem, strategy: Strategy, starts: seq<nat>, l: Look)
    requires LooksAt(p, l) && l.route.start in starts
    ensures l.at < Degree(p, WalkAlong(l.route, |l.route.steps|))
    ensures EventAt(p, l) in FullTrace(p, strategy, starts)
  {
    hide Live, WalkAlong, IsOpen, DfsTrace, FullTrace, Outcome;
    LookAlong(p, l);
    FullSound(p, strategy, starts);
    OutcomeHappens(p, starts, WalkAlong(l.route, |l.route.steps|), l.at);
  }

  lemma {:induction false} StartHappens(p: Problem, strategy: Strategy, starts: seq<nat>, k: nat)
    requires k in starts
    ensures StartEvent(p, k) in FullTrace(p, strategy, starts)
  {
    hide DfsTrace, FullTrace, Trace;
    FullSound(p, strategy, starts);
    assert StartEvent(p, k) in StartTrace(p, k);
    StartTraceIncluded(p, starts, k, StartEvent(p, k));
  }

  // ---------------------------------------------------------------------------
  // What happens within a limit.

  /** `earlier` are the deliverable routes that come before the coordinates `c`. */
  ghost predicate Precede(p: Problem, strategy: Strategy, starts: seq<nat>, c: seq<nat>, earlier: set<Route>) {
    forall r :: r in earlier <==> IsRoute(p, r) && r.start in starts && Before(strategy, RouteKey(r), c)
  }

  /** Fewer paths than asked for come before the coordinates `c`. */
  ghost predicate InTime(p: Problem, strategy: Strategy, starts: seq<nat>, maxPaths: Option<nat>, c: seq<nat>) {
    maxPaths.Some? ==> exists earlier :: Precede(p, strategy, starts, c, earlier) && |earlier| < maxPaths.value
  }

  lemma BeforeAsymmetric(strategy: Strategy, a: seq<nat>, b: seq<nat>)
    requires Before(strategy, a, b)
    ensures a != b && !Before(strategy, b, a)
  {
    LexIrreflexive(a);
    if Before(strategy, b, a) {
      LexTransitive(a, b, a);
    }
  }

  ghost function RoutesOf(ws: seq<Walk>): set<Route> {
    set w | w in ws :: RouteOf(w)
  }

  lemma LastNotBefore(strategy: Strategy, ws: seq<Walk>)
    requires KeysAscend(strategy, ws) && ws != []
    ensures RouteOf(ws[|ws| - 1]) !in RoutesOf(ws[..|ws| - 1])
  {
    hide Before, RouteOf, Key;
    var last := |ws| - 1;
    forall k | 0 <= k < last
      ensures RouteOf(ws[k]) != RouteOf(ws[last])
    {
      KeyOfRoute(ws[k]);
      KeyOfRoute(ws[last]);
      BeforeAsymmetric(strategy, Key(ws[k]), Key(ws[last]));
    }
  }

  /** Walks with ascending coordinates have as many routes. */
  lemma {:induction false} DistinctRoutes(strategy: Strategy, ws: seq<Walk>)
    requires KeysAscend(strategy, ws)
    ensures |RoutesOf(ws)| == |ws|
  {
    hide Before, RouteOf, Key;
    if ws != [] {
      var last := |ws| - 1;
      DistinctRoutes(strategy, ws[..last]);
      LastNotBefore(strategy, ws);
      assert ws == ws[..last] + [ws[last]];
      assert RoutesOf(ws) == RoutesOf(ws[..last]) + {RouteOf(ws[last])};
    }
  }

  lemma KeyOfRoute(w: Walk)
    ensures Key(w) == RouteKey(RouteOf(w))
  {
  }

  /** What has been delivered before an event precedes it. */
  lemma DeliveredBefore(p: Problem, strategy: Strategy, starts: seq<nat>, j: nat, w: Walk)
    requires Increasing(starts) && j < |FullTrace(p, strategy, starts)|
    requires w in Finished(FullTrace(p, strategy, starts)[..j])
    ensures var r := RouteOf(w);
            && IsRoute(p, r) && r.start in starts
            && Before(strategy, RouteKey(r), EventKey(FullTrace(p, strategy, starts)[j]))
  {
    hide FullTrace, Before, RouteOf, IsRoute, Finished, Completed;
    var full := FullTrace(p, strategy, starts);
    RunAscends(p, strategy, starts);
    FullSound(p, strategy, starts);
    FinishedMembers(full[..j], w);
    var i :| 0 <= i < j && full[..j][i] == Finish(w);
    assert full[i] in full && full[i] == Finish(w) && Before(strategy, EventKey(full[i]), EventKey(full[j]));
    KeyOfRoute(w);
    CompletedIsRoute(p, w);
    assert StartOf(full[i]) in starts && StartOf(Finish(w)) == RouteKey(RouteOf(w))[0];
  }

  /** What precedes an event has been delivered before it. */
  lemma PrecedingDelivered(p: Problem, strategy: Strategy, starts: seq<nat>, j: nat, r: Route)
    requires Increasing(starts) && j < |FullTrace(p, strategy, starts)|
    requires IsRoute(p, r) && r.start in starts
    requires Before(strategy, RouteKey(r), EventKey(FullTrace(p, strategy, starts)[j]))
    ensures r in RoutesOf(Finished(FullTrace(p, strategy, starts)[..j]))
  {
    hide FullTrace, Before, RouteOf, TakesEdge, Finished, Completed;
    var full := FullTrace(p, strategy, starts);
    RunAscends(p, strategy, starts);
    FullSound(p, strategy, starts);
    RouteIsCompleted(p, r);
    var w := WalkAlong(r, |r.steps|);
    KeyOfRoute(w);
    assert Key(w)[0] == RouteKey(r)[0] == r.start;
    DfsFinishesExactly(p, starts, w);
    FinishedMembers(DfsTrace(p, starts), w);
    var i :| 0 <= i < |full| && full[i] == Finish(w);
    assert j < i ==> Before(strategy, EventKey(full[j]), EventKey(full[i]));
    BeforeAsymmetric(strategy, RouteKey(r), EventKey(full[j]));
    assert full[..j][i] == Finish(w);
    FinishedMembers(full[..j], w);
  }

  /** An event happens within the limit exactly when fewer paths than asked for come before it. */
  lemma HappensInTime(p: Problem, strategy: Strategy, starts: seq<nat>, maxPaths: Option<nat>, j: nat)
    requires (Increasing(starts) || maxPaths.None?) && j < |FullTrace(p, strategy, starts)|
    ensures var full := FullTrace(p, strategy, starts);
            Cut(full, maxPaths) <= full &&
            (j < |Cut(full, maxPaths)| <==> InTime(p, strategy, starts, maxPaths, EventKey(full[j])))
  {
    hide FullTrace, Cut, Finished, Precede, Increasing, Ascending, KeysAscend, EventKey;
    var full := FullTrace(p, strategy, starts);
    CutMembers(full, maxPaths, j);
    if maxPaths.Some? {
      var ws, c := Finished(full[..j]), EventKey(full[j]);
      var routes := RoutesOf(ws);
      RunAscendsTo(p, strategy, starts, j);
      FinishedAscends(strategy, full[..j]);
      DistinctRoutes(strategy, ws);
      RoutesPrecede(p, strategy, starts, j, routes);
      forall earlier | Precede(p, strategy, starts, c, earlier)
        ensures earlier == routes
      {
        PrecedeOnce(p, strategy, starts, c, earlier, routes);
      }
    }
  }

  lemma RunAscendsTo(p: Problem, strategy: Strategy, starts: seq<nat>, j: nat)
    requires Increasing(starts) && j <= |FullTrace(p, strategy, starts)|
    ensures Ascending(strategy, FullTrace(p, strategy, starts)[..j])
  {
    hide FullTrace, Before, EventKey;
    RunAscends(p, strategy, starts);
  }

  lemma PrecedeOnce(p: Problem, strategy: Strategy, starts: seq<nat>, c: seq<nat>, a: set<Route>, b: set<Route>)
    requires Precede(p, strategy, starts, c, a) && Precede(p, strategy, starts, c, b)
    ensures a == b
  {
    hide IsRoute, Before, RouteKey;
    forall r
      ensures r in a <==> r in b
    {
    }
  }

  lemma RoutesPrecede(p: Problem, strategy: Strategy, starts: seq<nat>, j: nat, routes: set<Route>)
    requires Increasing(starts) && j < |FullTrace(p, strategy, starts)|
    requires routes == RoutesOf(Finished(FullTrace(p, strategy, starts)[..j]))
    ensures Precede(p, strategy, starts, EventKey(FullTrace(p, strategy, starts)[j]), routes)
  {
    hide FullTrace, Finished, IsRoute, Before, EventKey, RouteOf, RouteKey, Increasing;
    var full := FullTrace(p, strategy, starts);
    forall r | r in routes
      ensures IsRoute(p, r) && r.start in starts && Before(strategy, RouteKey(r), EventKey(full[j]))
    {
      var w :| w in Finished(full[..j]) && RouteOf(w) == r;
      DeliveredBefore(p, strategy, starts, j, w);
    }
    forall r | IsRoute(p, r) && r.start in starts && Before(strategy, RouteKey(r), EventKey(full[j]))
      ensures r in routes
    {
      PrecedingDelivered(p, strategy, starts, j, r);
    }
  }

  // ---------------------------------------------------------------------------
  // Where a search fails.

  /** An unknown start or a kernel error comes up before the last path asked for. */
  ghost predicate GoesWrong(p: Problem, strategy: Strategy, starts: seq<nat>, maxPaths: Option<nat>) {
    || (exists k :: k in starts && UnknownStart(p, k) && InTime(p, strategy, starts, maxPaths, [k]))
    || (exists l :: FailsAt(p, starts, l) && InTime(p, strategy, starts, maxPaths, LookKey(l)))
  }

  ghost predicate FailsAt(p: Problem, starts: seq<nat>, l: Look) {
    LooksAt(p, l) && l.route.start in starts && OfKind(p, l, Failing)
  }

  /** What happens within the limit. */
  lemma CutInTime(p: Problem, strategy: Strategy, starts: seq<nat>, maxPaths: Option<nat>, e: Event)
    requires Increasing(starts) || maxPaths.None?
    ensures e in Cut(FullTrace(p, strategy, starts), maxPaths) <==>
            e in FullTrace(p, strategy, starts) && InTime(p, strategy, starts, maxPaths, EventKey(e))
  {
    hide FullTrace, Cut, InTime, EventKey, Increasing;
    var full := FullTrace(p, strategy, starts);
    var cut := Cut(full, maxPaths);
    CutWithin(full, full, maxPaths);
    PrefixMember(cut, full, e);
    if e in full {
      var j :| 0 <= j < |full| && full[j] == e;
      HappensInTime(p, strategy, starts, maxPaths, j);
      if j < |cut| {
        assert cut[j] == e;
      }
      if e in cut {
        var i :| 0 <= i < |cut| && cut[i] == e;
        assert full[i] == e;
        HappensInTime(p, strategy, starts, maxPaths, i);
      }
    }
  }

  lemma PrefixMember(cut: seq<Event>, full: seq<Event>, e: Event)
    requires cut <= full
    ensures e in cut ==> e in full
  {
  }

  /** A fault met is an unknown start or a failing look, in time. */
  lemma FaultShows(p: Problem, strategy: Strategy, starts: seq<nat>, maxPaths: Option<nat>, e: Event)
    requires Increasing(starts) || maxPaths.None?
    requires e in Cut(FullTrace(p, strategy, starts), maxPaths) && IsFault(e)
    ensures GoesWrong(p, strategy, starts, maxPaths)
  {
    hide FullTrace, Cut, InTime, Increasing, FailsAt, LookKey, Sound;
    FullSound(p, strategy, starts);
    CutInTime(p, strategy, starts, maxPaths, e);
    if e.Unknown? {
      UnknownShows(p, e);
    } else {
      BrokenShows(p, starts, e);
    }
  }

  lemma UnknownShows(p: Problem, e: Event)
    requires Sound(p, e) && e.Unknown?
    ensures UnknownStart(p, e.position) && EventKey(e) == [e.position] && StartOf(e) == e.position
  {
  }

  lemma BrokenShows(p: Problem, starts: seq<nat>, e: Event)
    requires Sound(p, e) && e.Broken? && StartOf(e) in starts
    ensures FailsAt(p, starts, LookOf(e)) && LookKey(LookOf(e)) == EventKey(e)
  {
    hide LooksAt, OfKind, LookKey, LookOf, EventKey;
    EventLooks(p, e);
    LookDecides(p, LookOf(e));
  }

  lemma FailureHappens(p: Problem, strategy: Strategy, starts: seq<nat>, maxPaths: Option<nat>, l: Look)
    requires Increasing(starts) || maxPaths.None?
    requires FailsAt(p, starts, l) && InTime(p, strategy, starts, maxPaths, LookKey(l))
    ensures HasFault(Cut(FullTrace(p, strategy, starts), maxPaths))
  {
    hide FullTrace, Cut, InTime, Increasing, LooksAt, OfKind, LookKey;
    LookHappens(p, strategy, starts, l);
    LookDecides(p, l);
    CutInTime(p, strategy, starts, maxPaths, EventAt(p, l));
    assert IsFault(EventAt(p, l));
  }

  /** A search meets a fault exactly where its routes and the kernel say so. */
  lemma FaultExact(p: Problem, strategy: Strategy, starts: seq<nat>, maxPaths: Option<nat>)
    requires Increasing(starts) || maxPaths.None?
    ensures HasFault(Cut(FullTrace(p, strategy, starts), maxPaths)) <==> GoesWrong(p, strategy, starts, maxPaths)
  {
    hide FullTrace, Cut, InTime, Increasing, FailsAt, LookKey, EventKey;
    if e :| e in Cut(FullTrace(p, strategy, starts), maxPaths) && IsFault(e) {
      FaultShows(p, strategy, starts, maxPaths, e);
    }
    if k :| k in starts && UnknownStart(p, k) && InTime(p, strategy, starts, maxPaths, [k]) {
      StartHappens(p, strategy, starts, k);
      UnknownFaults(p, k);
      CutInTime(p, strategy, starts, maxPaths, StartEvent(p, k));
    }
    if l :| FailsAt(p, starts, l) && InTime(p, strategy, starts, maxPaths, LookKey(l)) {
      FailureHappens(p, strategy, starts, maxPaths, l);
    }
  }

  lemma UnknownFaults(p: Problem, k: nat)
    requires UnknownStart(p, k)
    ensures IsFault(StartEvent(p, k)) && EventKey(StartEvent(p, k)) == [k]
  {
  }

  // ---------------------------------------------------------------------------
  // What the counters count.

  /** A look of the kind, of a requested start and within the limit. */
  ghost predicate Counted(p: Problem, strategy: Strategy, starts: seq<nat>, maxPaths: Option<nat>, kind: Kind,
                          l: Look) {
    LooksAt(p, l) && l.route.start in starts && OfKind(p, l, kind) &&
    InTime(p, strategy, starts, maxPaths, LookKey(l))
  }

  /** `looks` are those looks. */
  ghost predicate AllCounted(p: Problem, strategy: Strategy, starts: seq<nat>, maxPaths: Option<nat>, kind: Kind,
                             looks: set<Look>) {
    forall l :: l in looks <==> Counted(p, strategy, starts, maxPaths, kind, l)
  }

  /** There are `n` such looks. */
  ghost predicate Tally(p: Problem, strategy: Strategy, starts: seq<nat>, maxPaths: Option<nat>, kind: Kind, n: nat) {
    exists looks :: AllCounted(p, strategy, starts, maxPaths, kind, looks) && |looks| == n
  }

  ghost function Found(events: seq<Event>, f: Event -> bool): set<Event> {
    set e | e in events && f(e)
  }

  lemma FirstNotAgain(strategy: Strategy, events: seq<Event>)
    requires Ascending(strategy, events) && events != []
    ensures Ascending(strategy, events[1..]) && events[0] !in events[1..]
  {
    hide Before, EventKey;
    var e, rest := events[0], events[1..];
    forall i, j | 0 <= i < j < |rest|
      ensures Before(strategy, EventKey(rest[i]), EventKey(rest[j]))
    {
      assert Before(strategy, EventKey(events[i + 1]), EventKey(events[j + 1]));
    }
    if e in rest {
      var k :| 0 <= k < |rest| && rest[k] == e;
      assert Before(strategy, EventKey(events[0]), EventKey(events[k + 1]));
      BeforeAsymmetric(strategy, EventKey(e), EventKey(e));
    }
  }

  /** Events that come in order are distinct. */
  lemma {:induction false} CountDistinct(strategy: Strategy, events: seq<Event>, f: Event -> bool)
    requires Ascending(strategy, events)
    ensures |Found(events, f)| == Count(events, f)
  {
    hide Ascending;
    if events != [] {
      var e, rest := events[0], events[1..];
      FirstNotAgain(strategy, events);
      CountDistinct(strategy, rest, f);
      assert events == [e] + rest;
      assert Found(events, f) == Found(rest, f) + if f(e) then {e} else {};
    }
  }

  /** Different events are different looks. */
  lemma {:induction false} DistinctLooks(p: Problem, events: set<Event>)
    requires forall e :: e in events ==> Sound(p, e) && IsLook(e)
    ensures |set e | e in events :: LookOf(e)| == |events|
  {
    hide Sound, IsLook, LookOf, LooksAt;
    if events != {} {
      var e :| e in events;
      var rest := events - {e};
      DistinctLooks(p, rest);
      var looks := set d | d in rest :: LookOf(d);
      assert (set d | d in events :: LookOf(d)) == looks + {LookOf(e)};
      if LookOf(e) in looks {
        var d :| d in rest && LookOf(d) == LookOf(e);
        EventIs(p, d);
        EventIs(p, e);
      }
    }
  }

  lemma EventIs(p: Problem, e: Event)
    requires Sound(p, e) && IsLook(e)
    ensures LooksAt(p, LookOf(e))
    ensures var l := LookOf(e);
            l.at < Degree(p, WalkAlong(l.route, |l.route.steps|)) && EventAt(p, l) == e
  {
    EventLooks(p, e);
  }

  /** Counting events of a kind is counting looks of that kind. */
  lemma CountTallies(p: Problem, strategy: Strategy, starts: seq<nat>, maxPaths: Option<nat>, kind: Kind,
                     f: Event -> bool)
    requires Increasing(starts) && forall e :: f(e) <==> Shows(e, kind)
    ensures Tally(p, strategy, starts, maxPaths, kind, Count(Cut(FullTrace(p, strategy, starts), maxPaths), f))
  {
    hide FullTrace, Cut, Increasing, LookOf, Ascending, Count, Counted, Sound, Shows;
    var full := FullTrace(p, strategy, starts);
    var cut := Cut(full, maxPaths);
    CutWithin(full, full, maxPaths);
    RunAscendsTo(p, strategy, starts, |cut|);
    assert cut == full[..|cut|];
    CountDistinct(strategy, cut, f);
    CutLooks(p, strategy, starts, maxPaths, kind);
    var events := Found(cut, f);
    DistinctLooks(p, events);
    var looks := set e | e in events :: LookOf(e);
    forall l | Counted(p, strategy, starts, maxPaths, kind, l)
      ensures l in looks
    {
      CountedShows(p, strategy, starts, maxPaths, kind, l);
      assert EventAt(p, l) in events;
    }
    assert AllCounted(p, strategy, starts, maxPaths, kind, looks);
  }

  /** Every event of the kind is a look that counts. */
  lemma CutLooks(p: Problem, strategy: Strategy, starts: seq<nat>, maxPaths: Option<nat>, kind: Kind)
    requires Increasing(starts)
    ensures forall e :: e in Cut(FullTrace(p, strategy, starts), maxPaths) && Shows(e, kind) ==>
              Sound(p, e) && IsLook(e) && Counted(p, strategy, starts, maxPaths, kind, LookOf(e))
  {
    hide FullTrace, Cut, InTime, Increasing, LooksAt, OfKind, LookKey, LookOf, EventKey, Sound;
    FullSound(p, strategy, starts);
    forall e | e in Cut(FullTrace(p, strategy, starts), maxPaths) && Shows(e, kind)
      ensures Sound(p, e) && IsLook(e) && Counted(p, strategy, starts, maxPaths, kind, LookOf(e))
    {
      CutInTime(p, strategy, starts, maxPaths, e);
      EventLooks(p, e);
      LookDecides(p, LookOf(e));
    }
  }

  /** Every look that counts is an event of the kind. */
  lemma CountedShows(p: Problem, strategy: Strategy, starts: seq<nat>, maxPaths: Option<nat>, kind: Kind, l: Look)
    requires Increasing(starts) && Counted(p, strategy, starts, maxPaths, kind, l)
    ensures LooksAt(p, l) && l.at < Degree(p, WalkAlong(l.route, |l.route.steps|)) && IsLook(EventAt(p, l))
    ensures EventAt(p, l) in Cut(FullTrace(p, strategy, starts), maxPaths)
    ensures Shows(EventAt(p, l), kind) && LookOf(EventAt(p, l)) == l
  {
    hide FullTrace, Cut, InTime, Increasing, LooksAt, OfKind, LookKey, LookOf, EventKey, Shows;
    LookHappens(p, strategy, starts, l);
    LookDecides(p, l);
    CutInTime(p, strategy, starts, maxPaths, EventAt(p, l));
  }

  /** Two numbers of such looks are the same. */
  lemma TallyOnce(p: Problem, strategy: Strategy, starts: seq<nat>, maxPaths: Option<nat>, kind: Kind, m: nat, n: nat)
    requires Tally(p, strategy, starts, maxPaths, kind, m) && Tally(p, strategy, starts, maxPaths, kind, n)
    ensures m == n
  {
    hide Counted;
    var a :| AllCounted(p, strategy, starts, maxPaths, kind, a) && |a| == m;
    var b :| AllCounted(p, strategy, starts, maxPaths, kind, b) && |b| == n;
    assert a == b;
  }

  /** The known starts that are opened within the limit. */
  ghost function Opened(p: Problem, strategy: Strategy, starts: seq<nat>, maxPaths: Option<nat>): set<nat> {
    set k | k in starts && !UnknownStart(p, k) && InTime(p, strategy, starts, maxPaths, [k])
  }

  /** The longest accepted path within the limit has `depth` edges; none is 0. */
  ghost predicate DeepestAccepted(p: Problem, strategy: Strategy, starts: seq<nat>, maxPaths: Option<nat>, depth: nat) {
    && (forall l :: Counted(p, strategy, starts, maxPaths, Accepted, l) ==> |l.route.steps| + 1 <= depth)
    && (depth > 0 ==> exists l :: Counted(p, strategy, starts, maxPaths, Accepted, l) && |l.route.steps| + 1 == depth)
  }

  /** The counters of a search, by its routes and the positions it looks at. */
  ghost predicate Accounted(p: Problem, strategy: Strategy, starts: seq<nat>, maxPaths: Option<nat>, s: SearchStats) {
    && s.startNodes == |Opened(p, strategy, starts, maxPaths)|
    && s.pathEntries == s.startNodes + s.acceptedEdges
    && Tally(p, strategy, starts, maxPaths, Evaluated, s.evaluatedEdges)
    && Tally(p, strategy, starts, maxPaths, Accepted, s.acceptedEdges)
    && Tally(p, strategy, starts, maxPaths, Rejected, s.rejectedEdges)
    && Tally(p, strategy, starts, maxPaths, Revisit, s.skippedRevisits)
    && Tally(p, strategy, starts, maxPaths, Completing, s.stoppedPaths)
    && DeepestAccepted(p, strategy, starts, maxPaths, s.maxDepth)
  }

  lemma {:induction false} DistinctStarts(p: Problem, events: set<Event>)
    requires forall e :: e in events ==> Sound(p, e) && e.Begin?
    ensures |set e | e in events :: StartOf(e)| == |events|
  {
    hide Live, StartOf;
    if events != {} {
      var e :| e in events;
      var rest := events - {e};
      DistinctStarts(p, rest);
      var starts := set d | d in rest :: StartOf(d);
      assert (set d | d in events :: StartOf(d)) == starts + {StartOf(e)};
      BeginStarts(p, e);
      if StartOf(e) in starts {
        var d :| d in rest && StartOf(d) == StartOf(e);
        BeginStarts(p, d);
      }
    }
  }

  lemma BeginStarts(p: Problem, e: Event)
    requires Sound(p, e) && e.Begin?
    ensures StartEvent(p, StartOf(e)) == e && !UnknownStart(p, StartOf(e)) && EventKey(e) == [StartOf(e)]
  {
  }

  lemma CountOpened(p: Problem, strategy: Strategy, starts: seq<nat>, maxPaths: Option<nat>)
    requires Increasing(starts)
    ensures Count(Cut(FullTrace(p, strategy, starts), maxPaths), IsBegin) == |Opened(p, strategy, starts, maxPaths)|
  {
    hide FullTrace, Cut, Increasing, Ascending, Count, Sound, InTime, StartOf, EventKey;
    var full := FullTrace(p, strategy, starts);
    var cut := Cut(full, maxPaths);
    CutWithin(full, full, maxPaths);
    RunAscendsTo(p, strategy, starts, |cut|);
    assert cut == full[..|cut|];
    CountDistinct(strategy, cut, IsBegin);
    FullSound(p, strategy, starts);
    var events := Found(cut, IsBegin);
    DistinctStarts(p, events);
    var begun := set e | e in events :: StartOf(e);
    forall k
      ensures k in begun <==> k in Opened(p, strategy, starts, maxPaths)
    {
      if k in begun {
        var e :| e in events && StartOf(e) == k;
        CutInTime(p, strategy, starts, maxPaths, e);
        BeginStarts(p, e);
      }
      if k in Opened(p, strategy, starts, maxPaths) {
        var e := StartEvent(p, k);
        StartHappens(p, strategy, starts, k);
        BeginStarts(p, e);
        CutInTime(p, strategy, starts, maxPaths, e);
        assert e in events;
      }
    }
    assert begun == Opened(p, strategy, starts, maxPaths);
  }

  lemma {:induction false} DeepestExact(events: seq<Event>)
    ensures forall e :: e in events && IsAccepted(e) ==> Depth(e.to) <= Deepest(events)
    ensures Deepest(events) > 0 ==> exists e :: e in events && IsAccepted(e) && Depth(e.to) == Deepest(events)
  {
    hide Depth;
    if events != [] {
      DeepestExact(events[1..]);
      assert events == [events[0]] + events[1..];
      if Deepest(events) > 0 && Deepest(events) == Deepest(events[1..]) {
        var e :| e in events[1..] && IsAccepted(e) && Depth(e.to) == Deepest(events[1..]);
        assert e in events;
      }
    }
  }

  lemma CutDeepest(p: Problem, strategy: Strategy, starts: seq<nat>, maxPaths: Option<nat>)
    requires Increasing(starts)
    ensures DeepestAccepted(p, strategy, starts, maxPaths, Deepest(Cut(FullTrace(p, strategy, starts), maxPaths)))
  {
    hide FullTrace, Cut, Increasing, Counted, Deepest, Sound;
    var cut := Cut(FullTrace(p, strategy, starts), maxPaths);
    DeepestExact(cut);
    CutLooks(p, strategy, starts, maxPaths, Accepted);
    forall l | Counted(p, strategy, starts, maxPaths, Accepted, l)
      ensures |l.route.steps| + 1 <= Deepest(cut)
    {
      CountedShows(p, strategy, starts, maxPaths, Accepted, l);
    }
    if Deepest(cut) > 0 {
      var e :| e in cut && IsAccepted(e) && Depth(e.to) == Deepest(cut);
      assert Shows(e, Accepted);
      assert Counted(p, strategy, starts, maxPaths, Accepted, LookOf(e));
    }
  }

  /** The counters of a run up to its last path count exactly the routes and positions they are named after. */
  lemma CountersExact(p: Problem, strategy: Strategy, starts: seq<nat>, maxPaths: Option<nat>)
    requires Increasing(starts)
    ensures var cut := Cut(FullTrace(p, strategy, starts), maxPaths);
            Accounted(p, strategy, starts, maxPaths, StatsOf(cut, cut))
  {
    hide FullTrace, Cut, Increasing, Tally, Opened, Deepest, DeepestAccepted, Count;
    CountOpened(p, strategy, starts, maxPaths);
    CutDeepest(p, strategy, starts, maxPaths);
    CountTallies(p, strategy, starts, maxPaths, Evaluated, IsEvaluated);
    CountTallies(p, strategy, starts, maxPaths, Accepted, IsAccepted);
    CountTallies(p, strategy, starts, maxPaths, Rejected, IsRefuse);
    CountTallies(p, strategy, starts, maxPaths, Revisit, IsSkip);
    CountTallies(p, strategy, starts, maxPaths, Completing, IsFinish);
  }
}

/**
 * Search counters as a function of what happened. Looking at an edge and settling
 * its outcome are counted apart, because a parallel breadth-first search may look
 * at many edges before it settles the accepted ones.
 */
module Stats {
  import opened Enumeration
  import opened Orders

  datatype SearchStats = SearchStats(
    startNodes: nat,
    pathEntries: nat,
    evaluatedEdges: nat,
    parallelEdges: nat,
    acceptedEdges: nat,
    rejectedEdges: nat,
    skippedRevisits: nat,
    stoppedPaths: nat,
    maxDepth: nat)

  const ZERO := SearchStats(0, 0, 0, 0, 0, 0, 0, 0, 0)

  function Max(a: nat, b: nat): nat { if a < b then b else a }

  /** Adds worker counters: sums, and the larger maximum depth. */
  function Merge(a: SearchStats, b: SearchStats): SearchStats {
    SearchStats(
      a.startNodes + b.startNodes,
      a.pathEntries + b.pathEntries,
      a.evaluatedEdges + b.evaluatedEdges,
      a.parallelEdges + b.parallelEdges,
      a.acceptedEdges + b.acceptedEdges,
      a.rejectedEdges + b.rejectedEdges,
      a.skippedRevisits + b.skippedRevisits,
      a.stoppedPaths + b.stoppedPaths,
      Max(a.maxDepth, b.maxDepth))
  }

  /** The counters that do not depend on how the work was scheduled. */
  function Bare(s: SearchStats): SearchStats { s.(parallelEdges := 0) }

  /** No more edges have been evaluated in parallel than at all. */
  ghost predicate ParallelWithin(s: SearchStats) { s.parallelEdges <= s.evaluatedEdges }

  lemma BareMerge(s: SearchStats, unit: SearchStats)
    requires unit.parallelEdges == 0
    ensures Bare(Merge(s, unit)) == Merge(Bare(s), unit) && (ParallelWithin(s) ==> ParallelWithin(Merge(s, unit)))
  {
  }

  lemma MergeParallel(a: SearchStats, b: SearchStats)
    ensures Merge(a, b).parallelEdges == a.parallelEdges + b.parallelEdges
    ensures Merge(a, b).evaluatedEdges == a.evaluatedEdges + b.evaluatedEdges
  {
  }

  // ---------------------------------------------------------------------------
  // Counting events.

  predicate IsBegin(e: Event) { e.Begin? }
  predicate IsSkip(e: Event) { e.Skip? }
  predicate IsRefuse(e: Event) { e.Refuse? }
  predicate IsFinish(e: Event) { e.Finish? }
  predicate IsAccepted(e: Event) { e.Extend? || e.Finish? }
  predicate IsEvaluated(e: Event) { e.Refuse? || e.Broken? || e.Extend? || e.Finish? }

  ghost function Count(events: seq<Event>, f: Event -> bool): nat {
    if events == [] then 0 else (if f(events[0]) then 1 else 0) + Count(events[1..], f)
  }

  /** The largest depth of an accepted walk. */
  ghost function Deepest(events: seq<Event>): nat {
    if events == [] then 0 else
    Max(if IsAccepted(events[0]) then Depth(events[0].to) else 0, Deepest(events[1..]))
  }

  /** The counters after looking at `looked` and settling `settled`. */
  ghost function StatsOf(looked: seq<Event>, settled: seq<Event>): SearchStats {
    SearchStats(
      Count(settled, IsBegin),
      Count(settled, IsBegin) + Count(settled, IsAccepted),
      Count(looked, IsEvaluated),
      0,
      Count(settled, IsAccepted),
      Count(looked, IsRefuse),
      Count(looked, IsSkip),
      Count(settled, IsFinish),
      Deepest(settled))
  }

  /** What looking at the edges behind `events` counts. */
  ghost function LookedAt(events: seq<Event>): SearchStats {
    ZERO.(
      evaluatedEdges := Count(events, IsEvaluated),
      rejectedEdges := Count(events, IsRefuse),
      skippedRevisits := Count(events, IsSkip))
  }

  /** What looking at one candidate edge counts. */
  function LookUnit(e: Event): SearchStats {
    match e
    case Skip(_, _) => ZERO.(skippedRevisits := 1)
    case Refuse(_, _) => ZERO.(evaluatedEdges := 1, rejectedEdges := 1)
    case Broken(_, _) => ZERO.(evaluatedEdges := 1)
    case Extend(_) => ZERO.(evaluatedEdges := 1)
    case Finish(_) => ZERO.(evaluatedEdges := 1)
    case _ => ZERO
  }

  /** What opening a start or settling an accepted edge counts. */
  function SettleUnit(e: Event): SearchStats {
    match e
    case Begin(_) => ZERO.(startNodes := 1, pathEntries := 1)
    case Extend(w) => ZERO.(acceptedEdges := 1, pathEntries := 1, maxDepth := Depth(w))
    case Finish(w) => ZERO.(acceptedEdges := 1, pathEntries := 1, stoppedPaths := 1, maxDepth := Depth(w))
    case _ => ZERO
  }

  /** Looking at an edge and settling it are never counted as parallel work. */
  lemma UnitsSerial(s: SearchStats, e: Event)
    ensures Merge(Merge(s, LookUnit(e)), SettleUnit(e)).parallelEdges == s.parallelEdges
  {
  }

  lemma {:induction false} CountConcat(a: seq<Event>, b: seq<Event>, f: Event -> bool)
    ensures Count(a + b, f) == Count(a, f) + Count(b, f)
  {
    if a == [] {
      assert a + b == b;
    } else {
      assert (a + b)[1..] == a[1..] + b;
      CountConcat(a[1..], b, f);
    }
  }

  lemma {:induction false} DeepestConcat(a: seq<Event>, b: seq<Event>)
    ensures Deepest(a + b) == Max(Deepest(a), Deepest(b))
  {
    if a == [] {
      assert a + b == b;
    } else {
      assert (a + b)[1..] == a[1..] + b;
      DeepestConcat(a[1..], b);
    }
  }

  lemma CountMore(events: seq<Event>, e: Event, f: Event -> bool)
    ensures Count(events + [e], f) == Count(events, f) + if f(e) then 1 else 0
  {
    CountConcat(events, [e], f);
  }

  lemma DeepestMore(events: seq<Event>, e: Event)
    ensures Deepest(events + [e]) == Max(Deepest(events), if IsAccepted(e) then Depth(e.to) else 0)
  {
    DeepestConcat(events, [e]);
  }

  /** Looking at more edges adds what they count. */
  lemma LookMore(looked: seq<Event>, settled: seq<Event>, more: seq<Event>)
    ensures StatsOf(looked + more, settled) == Merge(StatsOf(looked, settled), LookedAt(more))
  {
    hide Count, Deepest;
    CountConcat(looked, more, IsEvaluated);
    CountConcat(looked, more, IsRefuse);
    CountConcat(looked, more, IsSkip);
  }

  lemma LookOne(looked: seq<Event>, settled: seq<Event>, e: Event)
    ensures StatsOf(looked + [e], settled) == Merge(StatsOf(looked, settled), LookUnit(e))
  {
    hide Count, Deepest;
    CountMore(looked, e, IsEvaluated);
    CountMore(looked, e, IsRefuse);
    CountMore(looked, e, IsSkip);
  }

  lemma SettleOne(looked: seq<Event>, settled: seq<Event>, e: Event)
    ensures StatsOf(looked, settled + [e]) == Merge(StatsOf(looked, settled), SettleUnit(e))
  {
    hide Count, Deepest;
    CountMore(settled, e, IsBegin);
    CountMore(settled, e, IsAccepted);
    CountMore(settled, e, IsFinish);
    DeepestMore(settled, e);
  }

  /** One more event, looked at and settled at once. */
  lemma StatsStep(looked: seq<Event>, settled: seq<Event>, e: Event, before: SearchStats, after: SearchStats)
    requires Bare(before) == StatsOf(looked, settled)
    requires after == Merge(Merge(before, LookUnit(e)), SettleUnit(e))
    ensures Bare(after) == StatsOf(looked + [e], settled + [e]) && (ParallelWithin(before) ==> ParallelWithin(after))
  {
    LookOne(looked, settled, e);
    SettleOne(looked + [e], settled, e);
    BareMerge(before, LookUnit(e));
    BareMerge(Merge(before, LookUnit(e)), SettleUnit(e));
    hide StatsOf, Merge, Bare;
  }

  lemma {:induction false} FinishCount(events: seq<Event>)
    ensures Count(events, IsFinish) == |Finished(events)|
  {
    if events != [] {
      FinishCount(events[1..]);
    }
  }

  // ---------------------------------------------------------------------------
  // Conservation.

  /** The events that settling counts, in order: opened starts and accepted edges. */
  ghost function Settling(events: seq<Event>): seq<Event> {
    if events == [] then [] else
    (if IsAccepted(events[0]) || IsBegin(events[0]) then [events[0]] else []) + Settling(events[1..])
  }

  lemma {:induction false} SettlingConcat(a: seq<Event>, b: seq<Event>)
    ensures Settling(a + b) == Settling(a) + Settling(b)
  {
    if a == [] {
      assert a + b == b;
    } else {
      assert (a + b)[1..] == a[1..] + b;
      SettlingConcat(a[1..], b);
      var head := if IsAccepted(a[0]) || IsBegin(a[0]) then [a[0]] else [];
      assert head + (Settling(a[1..]) + Settling(b)) == head + Settling(a[1..]) + Settling(b);
    }
  }

  lemma {:induction false} SettlingCounts(events: seq<Event>)
    ensures Count(Settling(events), IsBegin) == Count(events, IsBegin)
    ensures Count(Settling(events), IsAccepted) == Count(events, IsAccepted)
    ensures Count(Settling(events), IsFinish) == Count(events, IsFinish)
    ensures Deepest(Settling(events)) == Deepest(events)
    ensures Finished(Settling(events)) == Finished(events)
  {
    if events != [] {
      SettlingCounts(events[1..]);
      var rest := Settling(events[1..]);
      if IsAccepted(events[0]) || IsBegin(events[0]) {
        assert Settling(events)[1..] == rest;
      } else {
        assert Settling(events) == rest;
      }
    }
  }

  /** Settling depends only on what is to be settled. */
  lemma SettlingDecides(looked: seq<Event>, a: seq<Event>, b: seq<Event>)
    requires Settling(a) == Settling(b)
    ensures StatsOf(looked, a) == StatsOf(looked, b)
    ensures Finished(a) == Finished(b)
  {
    SettlingCounts(a);
    SettlingCounts(b);
  }

  lemma {:induction false} EvaluatedBalance(events: seq<Event>)
    requires forall e :: e in events ==> !IsFault(e)
    ensures Count(events, IsEvaluated) == Count(events, IsAccepted) + Count(events, IsRefuse)
    ensures |events| == Count(events, IsBegin) + Count(events, IsEvaluated) + Count(events, IsSkip)
  {
    if events != [] {
      assert events[0] in events;
      EvaluatedBalance(events[1..]);
    }
  }

  lemma {:induction false} CountAll(events: seq<Event>, f: Event -> bool)
    requires forall e :: e in events ==> f(e)
    ensures Count(events, f) == |events|
  {
    if events != [] {
      assert events[0] in events;
      CountAll(events[1..], f);
    }
  }

  lemma {:induction false} CountNone(events: seq<Event>)
    requires forall e :: e in events ==> IsAccepted(e)
    ensures Count(events, IsBegin) == 0
  {
    if events != [] {
      assert events[0] in events;
      CountNone(events[1..]);
    }
  }

  /**
   * Conservation at any moment of an error-free run: whatever has been looked at was
   * a start, an evaluated edge or a skipped one; an evaluated edge is accepted,
   * rejected or pending; an entry is a start or an accepted edge; a stopped path is a
   * completed one.
   */
  lemma Conservation(looked: seq<Event>, settled: seq<Event>, pending: seq<Event>)
    requires forall e :: e in looked ==> !IsFault(e)
    requires Settling(looked) == Settling(settled) + pending
    requires forall e :: e in pending ==> IsAccepted(e)
    ensures var s := StatsOf(looked, settled);
            |looked| == s.startNodes + s.evaluatedEdges + s.skippedRevisits &&
            s.evaluatedEdges == s.acceptedEdges + s.rejectedEdges + |pending| &&
            s.pathEntries == s.startNodes + s.acceptedEdges &&
            s.stoppedPaths == |Finished(settled)|
  {
    EvaluatedBalance(looked);
    SettlingCounts(looked);
    SettlingCounts(settled);
    CountConcat(Settling(settled), pending, IsAccepted);
    CountConcat(Settling(settled), pending, IsBegin);
    CountNone(pending);
    CountAll(pending, IsAccepted);
    FinishCount(settled);
  }

  // ---------------------------------------------------------------------------
  // The counters do not depend on the order.

  lemma CountFront(x: seq<Event>, e: Event, y: seq<Event>, f: Event -> bool)
    ensures Count(x + [e] + y, f) == (if f(e) then 1 else 0) + Count(x + y, f)
  {
    CountConcat(x, y, f);
    CountConcat(x, [e], f);
    CountConcat(x + [e], y, f);
  }

  lemma DeepestFront(x: seq<Event>, e: Event, y: seq<Event>)
    ensures Deepest(x + [e] + y) == Max(if IsAccepted(e) then Depth(e.to) else 0, Deepest(x + y))
  {
    DeepestConcat(x, y);
    DeepestConcat(x, [e]);
    DeepestConcat(x + [e], y);
  }

  /** Taking the first event of one list out of another list with the same events. */
  lemma TakeOut(a: seq<Event>, b: seq<Event>) returns (k: nat)
    requires a != [] && multiset(a) == multiset(b)
    ensures k < |b| && b == b[..k] + [a[0]] + b[k + 1..]
    ensures multiset(a[1..]) == multiset(b[..k] + b[k + 1..])
  {
    assert a == [a[0]] + a[1..];
    assert a[0] in multiset(b);
    k :| 0 <= k < |b| && b[k] == a[0];
    assert b == b[..k] + [a[0]] + b[k + 1..];
    forall x
      ensures multiset(a[1..])[x] == multiset(b[..k] + b[k + 1..])[x]
    {
      assert multiset(a)[x] == multiset(b)[x];
    }
  }

  lemma {:induction false} CountPermute(a: seq<Event>, b: seq<Event>, f: Event -> bool)
    requires multiset(a) == multiset(b)
    ensures Count(a, f) == Count(b, f) && Deepest(a) == Deepest(b)
  {
    if a == [] {
      assert |multiset(b)| == 0;
    } else {
      var k := TakeOut(a, b);
      CountPermute(a[1..], b[..k] + b[k + 1..], f);
      CountFront(b[..k], a[0], b[k + 1..], f);
      DeepestFront(b[..k], a[0], b[k + 1..]);
    }
  }

  /** Complete depth-first and breadth-first runs end with identical counters. */
  lemma SameStats(p: Problem, starts: seq<nat>)
    ensures StatsOf(DfsTrace(p, starts), DfsTrace(p, starts)) ==
            StatsOf(BfsTrace(p, starts), BfsTrace(p, starts))
  {
    var a, b := DfsTrace(p, starts), BfsTrace(p, starts);
    SameEvents(p, starts);
    CountPermute(a, b, IsBegin);
    CountPermute(a, b, IsAccepted);
    CountPermute(a, b, IsEvaluated);
    CountPermute(a, b, IsRefuse);
    CountPermute(a, b, IsSkip);
    CountPermute(a, b, IsFinish);
  }
}

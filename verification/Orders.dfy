/**
 * The two delivery orders. Depth-first search delivers in lexicographic order of
 * (start position, edge positions), breadth-first search in shortlex order, and
 * both do the same things to the same walks.
 */
module Orders {
  import opened Enumeration
  import opened Routes

  // ---------------------------------------------------------------------------
  // Orders on coordinates.

  ghost predicate LexLess(a: seq<nat>, b: seq<nat>) {
    b != [] && (a == [] || a[0] < b[0] || (a[0] == b[0] && LexLess(a[1..], b[1..])))
  }

  /** Shorter first, then lexicographic. */
  ghost predicate ShortLess(a: seq<nat>, b: seq<nat>) {
    |a| < |b| || (|a| == |b| && LexLess(a, b))
  }

  lemma {:induction false} LexAt(a: seq<nat>, b: seq<nat>, n: nat)
    requires n < |a| && n < |b| && a[..n] == b[..n] && a[n] < b[n]
    ensures LexLess(a, b)
  {
    if n > 0 {
      assert a[0] == a[..n][0] == b[..n][0] == b[0];
      assert a[1..][..n - 1] == a[..n][1..] == b[..n][1..] == b[1..][..n - 1];
      LexAt(a[1..], b[1..], n - 1);
    }
  }

  lemma {:induction false} LexTransitive(a: seq<nat>, b: seq<nat>, c: seq<nat>)
    requires LexLess(a, b) && LexLess(b, c)
    ensures LexLess(a, c)
  {
    if a != [] && a[0] == b[0] && b[0] == c[0] {
      LexTransitive(a[1..], b[1..], c[1..]);
    }
  }

  lemma {:induction false} LexIrreflexive(a: seq<nat>)
    ensures !LexLess(a, a)
  {
    if a != [] {
      LexIrreflexive(a[1..]);
    }
  }

  /** Strictly smaller coordinates of equal length stay smaller whatever is appended. */
  lemma {:induction false} LexAppend(a: seq<nat>, b: seq<nat>, x: seq<nat>, y: seq<nat>)
    requires |a| == |b| && LexLess(a, b)
    ensures LexLess(a + x, b + y)
  {
    assert (a + x)[1..] == a[1..] + x && (b + y)[1..] == b[1..] + y;
    if a[0] == b[0] {
      LexAppend(a[1..], b[1..], x, y);
    }
  }

  /** `a` comes before `b` in the order of the strategy. */
  ghost predicate Before(strategy: Strategy, a: seq<nat>, b: seq<nat>) {
    if strategy.DepthFirst? then LexLess(a, b) else ShortLess(a, b)
  }

  /** The coordinates of an event: of the walk it opens or takes, or of the edge it looks at. */
  ghost function EventKey(e: Event): seq<nat> {
    match e
    case Begin(w) => Key(w)
    case Unknown(k) => [k]
    case Skip(w, i) => Key(w) + [i]
    case Refuse(w, i) => Key(w) + [i]
    case Broken(w, i) => Key(w) + [i]
    case Extend(w) => Key(w)
    case Finish(w) => Key(w)
  }

  lemma OutcomeKey(p: Problem, w: Walk, i: nat)
    requires i < Degree(p, w)
    ensures EventKey(Outcome(p, w, i)) == Key(w) + [i]
  {
    hide Degree, Outcome;
    OutcomeShape(p, w, i);
  }

  ghost predicate Ascending(strategy: Strategy, events: seq<Event>) {
    forall i, j :: 0 <= i < j < |events| ==> Before(strategy, EventKey(events[i]), EventKey(events[j]))
  }

  ghost predicate KeysAscend(strategy: Strategy, ws: seq<Walk>) {
    forall i, j :: 0 <= i < j < |ws| ==> Before(strategy, Key(ws[i]), Key(ws[j]))
  }

  lemma ConcatAscending(strategy: Strategy, a: seq<Event>, b: seq<Event>)
    requires Ascending(strategy, a) && Ascending(strategy, b)
    requires forall s, t :: 0 <= s < |a| && 0 <= t < |b| ==> Before(strategy, EventKey(a[s]), EventKey(b[t]))
    ensures Ascending(strategy, a + b)
  {
    hide Before, EventKey;
    forall i, j | 0 <= i < j < |a + b|
      ensures Before(strategy, EventKey((a + b)[i]), EventKey((a + b)[j]))
    {
      if i < |a| <= j {
        assert Before(strategy, EventKey(a[i]), EventKey(b[j - |a|]));
      } else if j < |a| {
        assert Before(strategy, EventKey(a[i]), EventKey(a[j]));
      } else {
        assert Before(strategy, EventKey(b[i - |a|]), EventKey(b[j - |a|]));
      }
    }
  }

  lemma FirstAscending(strategy: Strategy, e: Event, rest: seq<Event>)
    requires Ascending(strategy, rest) && forall f :: f in rest ==> Before(strategy, EventKey(e), EventKey(f))
    ensures Ascending(strategy, [e] + rest)
  {
    hide Before, EventKey;
    ConcatAscending(strategy, [e], rest);
  }

  /** What ascending events complete ascends. */
  lemma {:induction false} FinishedAscends(strategy: Strategy, events: seq<Event>)
    requires Ascending(strategy, events)
    ensures KeysAscend(strategy, Finished(events))
  {
    hide Before;
    if events != [] {
      var rest := Finished(events[1..]);
      FinishedAscends(strategy, events[1..]);
      forall j | events[0].Finish? && 0 <= j < |rest|
        ensures Before(strategy, Key(events[0].to), Key(rest[j]))
      {
        FinishedMembers(events[1..], rest[j]);
        var k :| 0 <= k < |events[1..]| && events[1..][k] == Finish(rest[j]);
        assert events[k + 1] == Finish(rest[j]);
        assert Before(strategy, EventKey(events[0]), EventKey(events[k + 1]));
      }
    }
  }

  // ---------------------------------------------------------------------------
  // Depth first: lexicographic.

  /** The coordinates `c` lead on from `base`, by an edge at position at least `i`. */
  ghost predicate Beneath(c: seq<nat>, base: seq<nat>, i: nat) {
    |c| > |base| && c[..|base|] == base && c[|base|] >= i
  }

  /** What the edge at position `i` leads to. */
  ghost predicate Here(events: seq<Event>, base: seq<nat>, i: nat) {
    && Ascending(DepthFirst, events)
    && forall e :: e in events ==> Beneath(EventKey(e), base, i) && EventKey(e)[|base|] == i
  }

  lemma BeneathStep(c: seq<nat>, base: seq<nat>, i: nat)
    requires c == base + [i] || Beneath(c, base + [i], 0)
    ensures Beneath(c, base, i) && c[|base|] == i
    ensures c != base + [i] ==> LexLess(base + [i], c)
  {
    if c != base + [i] {
      var n := |base|;
      assert c[..n] == c[..n + 1][..n] == base;
      assert c[n] == c[..n + 1][n];
      LexPrefix(base + [i], c);
    }
  }

  lemma {:induction false} LexPrefix(a: seq<nat>, b: seq<nat>)
    requires a < b
    ensures LexLess(a, b)
  {
    if a != [] {
      assert a[1..] < b[1..];
      LexPrefix(a[1..], b[1..]);
    }
  }

  lemma EdgeHere(e: Event, inner: seq<Event>, base: seq<nat>, i: nat)
    requires EventKey(e) == base + [i] && Ascending(DepthFirst, inner)
    requires forall f :: f in inner ==> Beneath(EventKey(f), base + [i], 0)
    ensures Here([e] + inner, base, i)
  {
    hide EventKey, LexLess, Ascending;
    forall f | f in inner
      ensures Beneath(EventKey(f), base, i) && EventKey(f)[|base|] == i
      ensures Before(DepthFirst, EventKey(e), EventKey(f))
    {
      DeeperBeneath(EventKey(f), base + [i]);
      BeneathStep(EventKey(f), base, i);
    }
    BeneathStep(EventKey(e), base, i);
    FirstAscending(DepthFirst, e, inner);
  }

  lemma DeeperBeneath(c: seq<nat>, base: seq<nat>)
    requires Beneath(c, base, 0)
    ensures c != base
  {
  }

  lemma JoinAscending(a: seq<Event>, b: seq<Event>, base: seq<nat>, i: nat)
    requires Here(a, base, i) && Ascending(DepthFirst, b)
    requires forall e :: e in b ==> Beneath(EventKey(e), base, i + 1)
    ensures Ascending(DepthFirst, a + b) && forall e :: e in a + b ==> Beneath(EventKey(e), base, i)
  {
    hide EventKey, LexLess, Ascending;
    forall s, t | 0 <= s < |a| && 0 <= t < |b|
      ensures Before(DepthFirst, EventKey(a[s]), EventKey(b[t]))
    {
      assert a[s] in a && b[t] in b;
      LexAt(EventKey(a[s]), EventKey(b[t]), |base|);
    }
    ConcatAscending(DepthFirst, a, b);
  }

  /** Everything below a walk happens in order of coordinates. */
  lemma {:induction false} TraceAscends(p: Problem, w: Walk, i: nat)
    requires i <= Degree(p, w)
    ensures Ascending(DepthFirst, Trace(p, w, i))
    ensures forall e :: e in Trace(p, w, i) ==> Beneath(EventKey(e), Key(w), i)
    decreases Room(p, w), Degree(p, w) - i
  {
    hide Beneath, LexLess, Key, EventKey, Degree, Outcome, Here, Ascending, Trace;
    if i == Degree(p, w) {
      NothingBelow(p, w);
    } else {
      var e := Outcome(p, w, i);
      var inner := if e.Extend? then Trace(p, e.to, 0) else [];
      OutcomeKey(p, w, i);
      TraceUnfolds(p, w, i);
      TraceAscends(p, w, i + 1);
      if e.Extend? {
        RoomStep(p, w, i);
        TraceAscends(p, e.to, 0);
        ExtendKey(e);
      } else {
        NothingAscends(DepthFirst);
      }
      EdgeHere(e, inner, Key(w), i);
      JoinAscending([e] + inner, Trace(p, w, i + 1), Key(w), i);
    }
  }

  lemma NothingBelow(p: Problem, w: Walk)
    ensures Trace(p, w, Degree(p, w)) == [] && Ascending(DepthFirst, [])
  {
  }

  lemma NothingAscends(strategy: Strategy)
    ensures Ascending(strategy, [])
  {
  }

  lemma ExtendKey(e: Event)
    requires e.Extend?
    ensures EventKey(e) == Key(e.to)
  {
  }

  lemma StartAscends(p: Problem, k: nat)
    ensures Ascending(DepthFirst, StartTrace(p, k))
    ensures forall e :: e in StartTrace(p, k) ==> EventKey(e) != [] && EventKey(e)[0] == k
  {
    hide Trace, Ascending;
    var e := StartEvent(p, k);
    NothingAscends(DepthFirst);
    if e.Begin? {
      TraceAscends(p, e.origin, 0);
    }
    var inner := if e.Begin? then Trace(p, e.origin, 0) else [];
    assert EventKey(e) == [] + [k];
    EdgeHere(e, inner, [], k);
  }

  /** A depth-first run goes through its events in strictly increasing lexicographic order. */
  lemma {:induction false} DfsAscends(p: Problem, starts: seq<nat>)
    requires forall i, j :: 0 <= i < j < |starts| ==> starts[i] < starts[j]
    ensures Ascending(DepthFirst, DfsTrace(p, starts))
    ensures forall e :: e in DfsTrace(p, starts) ==> EventKey(e) != [] && EventKey(e)[0] in starts
  {
    hide EventKey, Ascending, StartTrace;
    NothingAscends(DepthFirst);
    if starts != [] {
      var first, rest := StartTrace(p, starts[0]), DfsTrace(p, starts[1..]);
      DfsAscends(p, starts[1..]);
      StartAscends(p, starts[0]);
      forall s, t | 0 <= s < |first| && 0 <= t < |rest|
        ensures Before(DepthFirst, EventKey(first[s]), EventKey(rest[t]))
      {
        assert first[s] in first && rest[t] in rest;
        LexAt(EventKey(first[s]), EventKey(rest[t]), 0);
      }
      ConcatAscending(DepthFirst, first, rest);
    }
  }

  /** Depth-first search delivers in strictly increasing lexicographic order. */
  lemma DfsDeliversLexicographically(p: Problem, starts: seq<nat>)
    requires forall i, j :: 0 <= i < j < |starts| ==> starts[i] < starts[j]
    ensures var paths := Finished(DfsTrace(p, starts));
            forall i, j :: 0 <= i < j < |paths| ==> LexLess(Key(paths[i]), Key(paths[j]))
  {
    hide DfsTrace, Ascending, Finished;
    DfsAscends(p, starts);
    FinishedAscends(DepthFirst, DfsTrace(p, starts));
    var paths := Finished(DfsTrace(p, starts));
    forall i, j | 0 <= i < j < |paths|
      ensures LexLess(Key(paths[i]), Key(paths[j]))
    {
      assert Before(DepthFirst, Key(paths[i]), Key(paths[j]));
    }
  }

  /** No completed walk is delivered twice. */
  lemma DfsDeliversOnce(p: Problem, starts: seq<nat>, i: nat, j: nat)
    requires forall i, j :: 0 <= i < j < |starts| ==> starts[i] < starts[j]
    requires i < j < |Finished(DfsTrace(p, starts))|
    ensures Key(Finished(DfsTrace(p, starts))[i]) != Key(Finished(DfsTrace(p, starts))[j])
  {
    DfsDeliversLexicographically(p, starts);
    LexIrreflexive(Key(Finished(DfsTrace(p, starts))[i]));
  }

  // ---------------------------------------------------------------------------
  // Breadth first: shortlex.

  /** Every queued walk precedes every child the search has still to create. */
  ghost predicate Orderly(p: Problem, queue: seq<Walk>, i: nat) {
    && KeysAscend(BreadthFirst, queue)
    && forall k :: 0 <= k < |queue| ==> ShortLess(Key(queue[k]), Key(queue[0]) + [i])
  }

  lemma ShortTransitive(a: seq<nat>, b: seq<nat>, c: seq<nat>)
    requires ShortLess(a, b) && ShortLess(b, c)
    ensures ShortLess(a, c)
  {
    if |a| == |b| == |c| {
      LexTransitive(a, b, c);
    }
  }

  lemma {:induction false} LexLast(a: seq<nat>, i: nat, j: nat)
    requires i < j
    ensures LexLess(a + [i], a + [j])
  {
    LexAt(a + [i], a + [j], |a|);
  }

  lemma OrderlyPop(p: Problem, queue: seq<Walk>, i: nat)
    requires queue != [] && Orderly(p, queue, i)
    ensures Orderly(p, queue[1..], 0)
    ensures |queue| > 1 ==> ShortLess(Key(queue[0]) + [i], Key(queue[1]) + [0])
  {
    forall s, t | 0 <= s < t < |queue[1..]|
      ensures Before(BreadthFirst, Key(queue[1..][s]), Key(queue[1..][t]))
    {
      assert Before(BreadthFirst, Key(queue[s + 1]), Key(queue[t + 1]));
    }
    if |queue| > 1 {
      var a, b := Key(queue[0]), Key(queue[1]);
      assert Before(BreadthFirst, a, b);
      if |a| == |b| {
        LexAppend(a, b, [i], [0]);
      }
      forall k | 0 <= k < |queue[1..]|
        ensures ShortLess(Key(queue[1..][k]), Key(queue[1..][0]) + [0])
      {
        assert ShortLess(Key(queue[k + 1]), a + [i]);
        ShortTransitive(Key(queue[k + 1]), a + [i], b + [0]);
      }
    }
  }

  lemma OrderlyStep(p: Problem, queue: seq<Walk>, i: nat)
    requires queue != [] && i < Degree(p, queue[0]) && Orderly(p, queue, i)
    ensures Orderly(p, Enqueue(queue, Outcome(p, queue[0], i)), i + 1)
  {
    var e := Outcome(p, queue[0], i);
    var a := Key(queue[0]);
    LexLast(a, i, i + 1);
    forall k | 0 <= k < |queue|
      ensures ShortLess(Key(queue[k]), a + [i + 1])
    {
      ShortTransitive(Key(queue[k]), a + [i], a + [i + 1]);
    }
    if e.Extend? {
      var next := queue + [e.to];
      assert Key(e.to) == a + [i];
      forall s, t | 0 <= s < t < |next|
        ensures Before(BreadthFirst, Key(next[s]), Key(next[t]))
      {
        if t < |queue| {
          assert Before(BreadthFirst, Key(queue[s]), Key(queue[t]));
        }
      }
    }
  }

  /** The coordinates `c` are those of edge `i` of the walk at `base`, or come after them. */
  ghost predicate NotBefore(c: seq<nat>, base: seq<nat>, i: nat) {
    c == base + [i] || ShortLess(base + [i], c)
  }

  lemma PassOver(e: Event, base: seq<nat>, i: nat, later: seq<Event>)
    requires EventKey(e) == base + [i] && Ascending(BreadthFirst, later)
    requires forall f :: f in later ==> NotBefore(EventKey(f), base, i + 1)
    ensures Ascending(BreadthFirst, [e] + later)
    ensures forall f :: f in [e] + later ==> NotBefore(EventKey(f), base, i)
  {
    hide EventKey, LexLess, Ascending;
    LexLast(base, i, i + 1);
    forall f | f in later
      ensures ShortLess(base + [i], EventKey(f)) && Before(BreadthFirst, EventKey(e), EventKey(f))
    {
      if EventKey(f) != base + [i + 1] {
        ShortTransitive(base + [i], base + [i + 1], EventKey(f));
      }
    }
    FirstAscending(BreadthFirst, e, later);
  }

  lemma PassFront(queue: seq<Walk>, i: nat, events: seq<Event>)
    requires |queue| > 1 && ShortLess(Key(queue[0]) + [i], Key(queue[1]) + [0])
    requires forall e :: e in events ==> NotBefore(EventKey(e), Key(queue[1]), 0)
    ensures forall e :: e in events ==> NotBefore(EventKey(e), Key(queue[0]), i)
  {
    hide EventKey, Key;
    var a, b := Key(queue[0]), Key(queue[1]);
    forall e | e in events
      ensures NotBefore(EventKey(e), a, i)
    {
      if EventKey(e) != b + [0] {
        ShortTransitive(a + [i], b + [0], EventKey(e));
      }
    }
  }

  /** Everything that happens from here on happens in order, and not before the next edge. */
  lemma {:induction false} QueueAscends(p: Problem, queue: seq<Walk>, i: nat)
    requires Positioned(p, queue, i) && Orderly(p, queue, i)
    ensures Ascending(BreadthFirst, QueueTrace(p, queue, i))
    ensures forall e :: e in QueueTrace(p, queue, i) ==> queue != [] && NotBefore(EventKey(e), Key(queue[0]), i)
    decreases Pressure(p, queue, i)
  {
    hide LexLess, Pressure, Orderly, Degree, Outcome, NotBefore, Ascending, EventKey, Key;
    NothingAscends(BreadthFirst);
    if queue != [] {
      PressureDrops(p, queue, i);
      if i == Degree(p, queue[0]) {
        OrderlyPop(p, queue, i);
        QueueAscends(p, queue[1..], 0);
        if |queue| > 1 {
          PassFront(queue, i, QueueTrace(p, queue, i));
        }
      } else {
        var next := Enqueue(queue, Outcome(p, queue[0], i));
        OrderlyStep(p, queue, i);
        QueueAscends(p, next, i + 1);
        assert next[0] == queue[0];
        OutcomeKey(p, queue[0], i);
        PassOver(Outcome(p, queue[0], i), Key(queue[0]), i, QueueTrace(p, next, i + 1));
      }
    }
  }

  lemma {:induction false} StartsAscend(p: Problem, starts: seq<nat>)
    requires forall i, j :: 0 <= i < j < |starts| ==> starts[i] < starts[j]
    ensures KeysAscend(BreadthFirst, StartWalks(p, starts)) && Ascending(BreadthFirst, StartEvents(p, starts))
    ensures forall w :: w in StartWalks(p, starts) ==> w.Origin? && w.start in starts
    ensures forall e :: e in StartEvents(p, starts) ==> |EventKey(e)| == 1 && EventKey(e)[0] in starts
  {
    if starts != [] {
      StartsAscend(p, starts[1..]);
      var walks, events := StartWalks(p, starts[1..]), StartEvents(p, starts[1..]);
      forall t | 0 <= t < |walks|
        ensures Key(walks[t])[0] > starts[0]
      {
        assert walks[t] in walks;
      }
      FirstAscending(BreadthFirst, StartEvent(p, starts[0]), events);
    }
  }

  lemma {:induction false} StartEventsFinishNothing(p: Problem, starts: seq<nat>)
    ensures Finished(StartEvents(p, starts)) == []
  {
    if starts != [] {
      StartEventsFinishNothing(p, starts[1..]);
    }
  }

  /** A breadth-first run goes through its events in strictly increasing shortlex order. */
  lemma BfsAscends(p: Problem, starts: seq<nat>)
    requires forall i, j :: 0 <= i < j < |starts| ==> starts[i] < starts[j]
    ensures Ascending(BreadthFirst, BfsTrace(p, starts))
  {
    hide EventKey, Ascending, LexLess, StartEvents, StartWalks, QueueTrace;
    var begun, queue := StartEvents(p, starts), StartWalks(p, starts);
    StartsAscend(p, starts);
    QueueAscends(p, queue, 0);
    var rest := QueueTrace(p, queue, 0);
    forall s, t | 0 <= s < |begun| && 0 <= t < |rest|
      ensures Before(BreadthFirst, EventKey(begun[s]), EventKey(rest[t]))
    {
      assert begun[s] in begun && rest[t] in rest;
    }
    ConcatAscending(BreadthFirst, begun, rest);
  }

  /** Breadth-first search delivers in strictly increasing shortlex order: fewest edges first. */
  lemma BfsDeliversShortlex(p: Problem, starts: seq<nat>)
    requires forall i, j :: 0 <= i < j < |starts| ==> starts[i] < starts[j]
    ensures var paths := Finished(BfsTrace(p, starts));
            forall i, j :: 0 <= i < j < |paths| ==> ShortLess(Key(paths[i]), Key(paths[j]))
  {
    hide BfsTrace, Ascending, Finished;
    BfsAscends(p, starts);
    FinishedAscends(BreadthFirst, BfsTrace(p, starts));
    var paths := Finished(BfsTrace(p, starts));
    forall i, j | 0 <= i < j < |paths|
      ensures ShortLess(Key(paths[i]), Key(paths[j]))
    {
      assert Before(BreadthFirst, Key(paths[i]), Key(paths[j]));
    }
  }

  /** Either way, a run goes through its events in the order of its strategy. */
  lemma RunAscends(p: Problem, strategy: Strategy, starts: seq<nat>)
    requires forall i, j :: 0 <= i < j < |starts| ==> starts[i] < starts[j]
    ensures Ascending(strategy, FullTrace(p, strategy, starts))
  {
    hide Ascending, DfsTrace, BfsTrace;
    DfsAscends(p, starts);
    BfsAscends(p, starts);
  }

  // ---------------------------------------------------------------------------
  // The two orders do the same things.

  ghost function ForestEvents(p: Problem, queue: seq<Walk>): multiset<Event> {
    if queue == [] then multiset{} else multiset(Trace(p, queue[0], 0)) + ForestEvents(p, queue[1..])
  }

  lemma {:induction false} ForestEventsAppend(p: Problem, queue: seq<Walk>, w: Walk)
    ensures ForestEvents(p, queue + [w]) == ForestEvents(p, queue) + multiset(Trace(p, w, 0))
  {
    if queue == [] {
      assert ([w])[1..] == [];
    } else {
      assert (queue + [w])[1..] == queue[1..] + [w];
      ForestEventsAppend(p, queue[1..], w);
    }
  }

  lemma TraceEventsUnfold(p: Problem, w: Walk, i: nat)
    requires i < Degree(p, w)
    ensures var e := Outcome(p, w, i);
            multiset(Trace(p, w, i)) ==
            multiset{e} + (if e.Extend? then multiset(Trace(p, e.to, 0)) else multiset{}) +
            multiset(Trace(p, w, i + 1))
  {
    var e := Outcome(p, w, i);
    if e.Extend? {
      RoomStep(p, w, i);
      assert Trace(p, w, i) == [e] + Trace(p, e.to, 0) + Trace(p, w, i + 1);
    } else {
      assert Trace(p, w, i) == [e] + Trace(p, w, i + 1);
    }
  }

  /** The events still to come below a queue whose front is at edge `i`. */
  ghost function QueueEvents(p: Problem, queue: seq<Walk>, i: nat): multiset<Event>
    requires Positioned(p, queue, i)
  {
    if queue == [] then multiset{} else multiset(Trace(p, queue[0], i)) + ForestEvents(p, queue[1..])
  }

  lemma QueueEventsStep(p: Problem, queue: seq<Walk>, i: nat)
    requires queue != [] && i < Degree(p, queue[0])
    ensures var e := Outcome(p, queue[0], i);
            Positioned(p, Enqueue(queue, e), i + 1) &&
            QueueEvents(p, queue, i) == multiset{e} + QueueEvents(p, Enqueue(queue, e), i + 1)
  {
    hide Trace, Outcome, Degree, ForestEvents;
    var e := Outcome(p, queue[0], i);
    TraceEventsUnfold(p, queue[0], i);
    assert Enqueue(queue, e)[0] == queue[0];
    if e.Extend? {
      assert Enqueue(queue, e)[1..] == queue[1..] + [e.to];
      ForestEventsAppend(p, queue[1..], e.to);
    }
  }

  lemma {:induction false} QueueSameEvents(p: Problem, queue: seq<Walk>, i: nat)
    requires Positioned(p, queue, i)
    ensures multiset(QueueTrace(p, queue, i)) == QueueEvents(p, queue, i)
    decreases Pressure(p, queue, i)
  {
    if queue != [] {
      PressureDrops(p, queue, i);
      if i == Degree(p, queue[0]) {
        QueueSameEvents(p, queue[1..], 0);
      } else {
        var e := Outcome(p, queue[0], i);
        QueueEventsStep(p, queue, i);
        QueueSameEvents(p, Enqueue(queue, e), i + 1);
        assert QueueTrace(p, queue, i) == [e] + QueueTrace(p, Enqueue(queue, e), i + 1);
      }
    }
  }

  /** What the first start adds to the events of either order. */
  lemma StartsFirst(p: Problem, starts: seq<nat>)
    requires starts != []
    ensures multiset(DfsTrace(p, starts)) == multiset(StartTrace(p, starts[0])) + multiset(DfsTrace(p, starts[1..]))
    ensures multiset(StartEvents(p, starts)) ==
            multiset{StartEvent(p, starts[0])} + multiset(StartEvents(p, starts[1..]))
    ensures var e := StartEvent(p, starts[0]);
            ForestEvents(p, StartWalks(p, starts)) ==
            (if e.Begin? then multiset(Trace(p, e.origin, 0)) else multiset{}) +
            ForestEvents(p, StartWalks(p, starts[1..]))
  {
    hide StartTrace, StartEvent, Trace;
    var e, walks := StartEvent(p, starts[0]), StartWalks(p, starts);
    if e.Begin? {
      assert walks[1..] == StartWalks(p, starts[1..]);
    } else {
      assert walks == StartWalks(p, starts[1..]);
    }
  }

  lemma StartTraceEvents(p: Problem, k: nat)
    ensures var e := StartEvent(p, k);
            multiset(StartTrace(p, k)) ==
            multiset{e} + if e.Begin? then multiset(Trace(p, e.origin, 0)) else multiset{}
  {
    hide Trace, StartEvent;
  }

  lemma {:induction false} StartsSameEvents(p: Problem, starts: seq<nat>)
    ensures multiset(DfsTrace(p, starts)) ==
            multiset(StartEvents(p, starts)) + ForestEvents(p, StartWalks(p, starts))
  {
    hide Trace, StartTrace, StartEvent;
    if starts != [] {
      hide DfsTrace, StartEvents, StartWalks, ForestEvents;
      StartsSameEvents(p, starts[1..]);
      StartsFirst(p, starts);
      StartTraceEvents(p, starts[0]);
    }
  }

  /** Depth-first and breadth-first search go through the same events, each as often. */
  lemma SameEvents(p: Problem, starts: seq<nat>)
    ensures multiset(DfsTrace(p, starts)) == multiset(BfsTrace(p, starts))
  {
    StartsSameEvents(p, starts);
    QueueSameEvents(p, StartWalks(p, starts), 0);
  }

  lemma {:induction false} FinishedMultiplicity(events: seq<Event>, w: Walk)
    ensures multiset(Finished(events))[w] == multiset(events)[Finish(w)]
  {
    if events != [] {
      FinishedMultiplicity(events[1..], w);
      assert events == [events[0]] + events[1..];
    }
  }

  /** Depth-first and breadth-first search deliver the same paths, each as often. */
  lemma SameDeliveries(p: Problem, starts: seq<nat>)
    ensures multiset(Finished(DfsTrace(p, starts))) == multiset(Finished(BfsTrace(p, starts)))
  {
    SameEvents(p, starts);
    forall w
      ensures multiset(Finished(DfsTrace(p, starts)))[w] == multiset(Finished(BfsTrace(p, starts)))[w]
    {
      FinishedMultiplicity(DfsTrace(p, starts), w);
      FinishedMultiplicity(BfsTrace(p, starts), w);
    }
  }

  // ---------------------------------------------------------------------------
  // The canonical first path.

  /** Every deliverable route of the requested starts is among the breadth-first deliveries. */
  lemma BfsListsRoute(p: Problem, starts: seq<nat>, r: Route) returns (k: nat)
    requires IsRoute(p, r) && r.start in starts
    ensures k < |Finished(BfsTrace(p, starts))| && RouteOf(Finished(BfsTrace(p, starts))[k]) == r
  {
    var w := WalkAlong(r, |r.steps|);
    RouteIsCompleted(p, r);
    BfsFinishesExactly(p, starts, w);
    k :| 0 <= k < |Finished(BfsTrace(p, starts))| && Finished(BfsTrace(p, starts))[k] == w;
  }

  lemma FirstIsLeast(p: Problem, starts: seq<nat>, r: Route)
    requires forall i, j :: 0 <= i < j < |starts| ==> starts[i] < starts[j]
    requires IsRoute(p, r) && r.start in starts
    ensures Finished(BfsTrace(p, starts)) != []
    ensures var first := RouteOf(Finished(BfsTrace(p, starts))[0]);
            r == first || ShortLess([first.start] + first.steps, [r.start] + r.steps)
  {
    hide BfsTrace, IsRoute, LexLess;
    var paths := Finished(BfsTrace(p, starts));
    BfsDeliversShortlex(p, starts);
    var k := BfsListsRoute(p, starts, r);
    var first := RouteOf(paths[0]);
    assert Key(paths[0]) == [first.start] + first.steps;
    assert Key(paths[k]) == [r.start] + r.steps;
  }

  /**
   * The first breadth-first delivery has the fewest edges of all deliverable
   * routes and, among those, the least coordinates; there is none exactly when
   * no route is deliverable.
   */
  lemma FirstIsCanonical(p: Problem, starts: seq<nat>)
    requires forall i, j :: 0 <= i < j < |starts| ==> starts[i] < starts[j]
    ensures Finished(BfsTrace(p, starts)) == [] <==>
            !exists r :: IsRoute(p, r) && r.start in starts
    ensures Finished(BfsTrace(p, starts)) != [] ==>
              var first := RouteOf(Finished(BfsTrace(p, starts))[0]);
              IsRoute(p, first) && first.start in starts &&
              forall r :: IsRoute(p, r) && r.start in starts ==>
                r == first || ShortLess([first.start] + first.steps, [r.start] + r.steps)
  {
    var paths := Finished(BfsTrace(p, starts));
    if paths != [] {
      BfsFinishesExactly(p, starts, paths[0]);
      CompletedIsRoute(p, paths[0]);
    }
    forall r | IsRoute(p, r) && r.start in starts
      ensures paths != []
      ensures var first := RouteOf(paths[0]);
              r == first || ShortLess([first.start] + first.steps, [r.start] + r.steps)
    {
      FirstIsLeast(p, starts, r);
    }
  }

  lemma BfsFinishesExactly(p: Problem, starts: seq<nat>, w: Walk)
    ensures w in Finished(BfsTrace(p, starts)) <==> Completed(p, w) && Key(w)[0] in starts
  {
    DfsFinishesExactly(p, starts, w);
    SameDeliveries(p, starts);
    assert w in Finished(DfsTrace(p, starts)) <==> w in multiset(Finished(DfsTrace(p, starts)));
    assert w in Finished(BfsTrace(p, starts)) <==> w in multiset(Finished(BfsTrace(p, starts)));
  }
}

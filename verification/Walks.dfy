/**
 * Breadth-first walks: bounded and unbounded from one start, and from many seeds in
 * either direction. The loops are proved to list the nodes of the search function.
 */
module Walks {
  import opened Wrappers
  import opened Sequences
  import opened CompressedRows
  import opened BreadthFirst
  import opened Graphs
  import opened ShortestPaths

  // ---------------------------------------------------------------------------
  // Discovering a row.

  /** Exactly the nodes of two lists carry the mark. */
  ghost predicate MarksBoth(visited: seq<nat>, mark: nat, done: seq<Entry>, es: seq<Entry>) {
    forall v :: 0 <= v < |visited| ==> (visited[v] == mark <==> Seen(done, v) || Seen(es, v))
  }

  lemma MarksBothMore(visited: seq<nat>, mark: nat, done: seq<Entry>, es: seq<Entry>, e: Entry)
    requires MarksBoth(visited, mark, done, es) && e.node < |visited|
    ensures MarksBoth(visited[e.node := mark], mark, done, es + [e])
  {
    hide Seen;
    forall v | 0 <= v < |visited|
      ensures visited[e.node := mark][v] == mark <==> Seen(done, v) || Seen(es + [e], v)
    {
      SeenMore(es, e, v);
    }
  }

  lemma MarksBothAt(visited: seq<nat>, mark: nat, done: seq<Entry>, es: seq<Entry>, v: nat)
    requires MarksBoth(visited, mark, done, es) && v < |visited|
    ensures visited[v] == mark <==> Seen(done, v) || Seen(es, v)
  {
  }

  /** Every node of a row that is not marked is marked and appended to the frontier. */
  method VisitRow(visited: array<U32>, mark: U32, dests: seq<nat>, frontier: seq<nat>,
                  ghost done: seq<Entry>, ghost es: seq<Entry>, ghost h: nat)
      returns (next: seq<nat>, ghost more: seq<Entry>)
    requires h < |es| && frontier == NodesOf(es) && MarksBoth(visited[..], mark, done, es)
    requires forall k :: 0 <= k < |dests| ==> dests[k] < visited.Length && !Seen(done, dests[k])
    modifies visited
    ensures more == DiscoverAll(es, h, dests) && next == NodesOf(more) && MarksBoth(visited[..], mark, done, more)
    ensures forall v :: 0 <= v < visited.Length ==> visited[v] == old(visited[v]) || visited[v] == mark
  {
    hide MarksBoth, NodesOf, Seen, DiscoverAll;
    next, more := frontier, es;
    DiscoverNone(es, h, dests);
    var k: nat := 0;
    while k < |dests|
      invariant k <= |dests| && h < |more| && next == NodesOf(more)
      invariant DiscoverAll(more, h, dests[k..]) == DiscoverAll(es, h, dests)
      invariant MarksBoth(visited[..], mark, done, more)
      invariant forall v :: 0 <= v < visited.Length ==> visited[v] == old(visited[v]) || visited[v] == mark
    {
      var dest := dests[k];
      DiscoverAllStep(more, h, dests, k);
      MarksBothAt(visited[..], mark, done, more, dest);
      if visited[dest] != mark {
        ghost var e := Entry(dest, h, more[h].depth + 1);
        ghost var stamps: seq<nat> := visited[..];
        MarksBothMore(stamps, mark, done, more, e);
        NodesMore(more, e);
        visited[dest] := mark;
        assert visited[..] == stamps[dest := mark];
        more := more + [e];
        next := next + [dest];
      }
      k := k + 1;
    }
    DiscoverNone(more, h, dests);
  }

  // ---------------------------------------------------------------------------
  // Unbounded walks.

  /** Which edges a walk follows. */
  datatype Direction = Out | In | Both

  ghost function Rows(g: Graph, direction: Direction): (adj: Adjacency)
    requires WellFormed(g)
    ensures |adj| == g.nodeCount
  {
    match direction
    case Out => OutRows(g)
    case In => InRows(g)
    case Both => BothRows(g)
  }

  /** Outgoing neighbours, then incoming ones. */
  ghost function BothRows(g: Graph): (adj: Adjacency)
    requires WellFormed(g)
    ensures |adj| == g.nodeCount && forall v :: 0 <= v < g.nodeCount ==> adj[v] == OutgoingSlice(g, v) + Incoming(g, v)
  {
    seq(g.nodeCount, v requires 0 <= v < g.nodeCount => OutgoingSlice(g, v) + Incoming(g, v))
  }

  function Neighbours(g: Graph, direction: Direction, node: nat): (row: seq<nat>)
    requires WellFormed(g) && node < g.nodeCount
    ensures row == Rows(g, direction)[node]
  {
    match direction
    case Out => OutgoingSlice(g, node)
    case In => Incoming(g, node)
    case Both => OutgoingSlice(g, node) + Incoming(g, node)
  }

  lemma RunStepAny(adj: Adjacency, bound: Option<nat>, es: seq<Entry>, h: nat)
    requires h < |es| && Proper(adj, es)
    ensures Proper(adj, Expand(adj, bound, es, h)) && |es| <= |adj| && es[h].node < |adj|
    ensures Run(adj, bound, es, h) == Run(adj, bound, Expand(adj, bound, es, h), h + 1)
  {
    hide Expand;
    ProperBound(adj, es);
    ExpandProper(adj, bound, es, h);
  }

  /** No edge leads from outside `done` into it. */
  ghost predicate NoWayIn(adj: Adjacency, done: seq<Entry>) {
    forall u, k :: 0 <= u < |adj| && 0 <= k < |adj[u]| && !Seen(done, u) ==> !Seen(done, adj[u][k])
  }

  ghost predicate Outside(done: seq<Entry>, es: seq<Entry>) {
    forall i :: 0 <= i < |es| ==> !Seen(done, es[i].node)
  }

  lemma {:induction false} DiscoverAllOutside(done: seq<Entry>, es: seq<Entry>, h: nat, vs: seq<nat>)
    requires h < |es| && Outside(done, es) && forall k :: 0 <= k < |vs| ==> !Seen(done, vs[k])
    ensures Outside(done, DiscoverAll(es, h, vs))
    decreases |vs|
  {
    hide Seen;
    if vs != [] {
      DiscoverAllOutside(done, Discover(es, h, vs[0]), h, vs[1..]);
    }
  }

  lemma RowOutside(adj: Adjacency, done: seq<Entry>, es: seq<Entry>, h: nat)
    requires h < |es| && es[h].node < |adj| && NoWayIn(adj, done) && Outside(done, es)
    ensures forall k :: 0 <= k < |adj[es[h].node]| ==> !Seen(done, adj[es[h].node][k])
    ensures Outside(done, DiscoverAll(es, h, adj[es[h].node]))
  {
    hide Seen;
    DiscoverAllOutside(done, es, h, adj[es[h].node]);
  }

  /** Breadth-first from the frontier, over marks that stand for its nodes and those of finished walks. */
  method Explore(g: Graph, direction: Direction, visited: array<U32>, mark: U32, start: seq<nat>,
                 ghost done: seq<Entry>, ghost es0: seq<Entry>)
      returns (frontier: seq<nat>)
    requires WellFormed(g) && visited.Length == g.nodeCount
    requires Proper(Rows(g, direction), es0) && start == NodesOf(es0) && MarksBoth(visited[..], mark, done, es0)
    requires NoWayIn(Rows(g, direction), done) && Outside(done, es0)
    modifies visited
    ensures frontier == NodesOf(Run(Rows(g, direction), None, es0, 0))
    ensures MarksBoth(visited[..], mark, done, Run(Rows(g, direction), None, es0, 0))
    ensures forall v :: 0 <= v < visited.Length ==> visited[v] == old(visited[v]) || visited[v] == mark
  {
    hide MarksBoth, NodesOf, Run, Expand, DiscoverAll, WellFormed, Rows, Proper, Seen, NoWayIn, Outside, Neighbours;
    ghost var adj := Rows(g, direction);
    frontier := start;
    ghost var es := es0;
    var head: nat := 0;
    while head < |frontier|
      invariant head <= |frontier| && Proper(adj, es) && frontier == NodesOf(es) && Outside(done, es)
      invariant Run(adj, None, es, head) == Run(adj, None, es0, 0) && MarksBoth(visited[..], mark, done, es)
      invariant forall v :: 0 <= v < visited.Length ==> visited[v] == old(visited[v]) || visited[v] == mark
      decreases |adj| - head
    {
      RunStepAny(adj, None, es, head);
      var row := Neighbours(g, direction, frontier[head]);
      ExpandRow(adj, None, es, head);
      RowOutside(adj, done, es, head);
      ghost var more;
      frontier, more := VisitRow(visited, mark, row, frontier, done, es, head);
      es := more;
      head := head + 1;
    }
    RunEnds(adj, None, es, head);
  }

  lemma NothingDone(adj: Adjacency, visited: seq<nat>, mark: nat, es: seq<Entry>)
    requires Marks(visited, mark, es)
    ensures MarksBoth(visited, mark, [], es) && NoWayIn(adj, []) && Outside([], es)
  {
  }

  /** The nodes of a breadth-first search from `start`. */
  ghost function Walk(g: Graph, start: nat, bound: Option<nat>): seq<nat>
    requires WellFormed(g) && start < g.nodeCount
  {
    NodesOf(Bfs(OutRows(g), bound, [start]))
  }

  lemma BfsFromOne(adj: Adjacency, bound: Option<nat>, start: nat)
    requires start < |adj|
    ensures Proper(adj, [Seed(start, 0)]) && NodesOf([Seed(start, 0)]) == [start]
    ensures Bfs(adj, bound, [start]) == Run(adj, bound, [Seed(start, 0)], 0)
  {
    hide Run, Plant, Seen;
    PlantJust(start);
    PlantSeeds(adj, [], [start]);
  }

  lemma PlantJust(start: nat)
    ensures Plant([], [start]) == [Seed(start, 0)]
  {
    assert [start][1..] == [];
    assert !Seen([], start);
  }

  lemma MarksOne(visited: seq<nat>, mark: nat, start: nat)
    requires start < |visited| && forall v :: 0 <= v < |visited| ==> (visited[v] == mark <==> v == start)
    ensures Marks(visited, mark, [Seed(start, 0)])
  {
    assert [Seed(start, 0)][0].node == start;
  }

  /** Unbounded, over arrays in which no node carries the mark. */
  method ExploreFrom(g: Graph, start: nat, visited: array<U32>, mark: U32) returns (frontier: seq<nat>)
    requires WellFormed(g) && start < g.nodeCount && visited.Length == g.nodeCount
    requires forall v :: 0 <= v < visited.Length ==> visited[v] != mark
    modifies visited
    ensures frontier == Walk(g, start, None)
    ensures forall v :: 0 <= v < visited.Length ==> visited[v] == old(visited[v]) || visited[v] == mark
  {
    hide Marks, MarksBoth, NodesOf, Run, WellFormed, OutRows, Bfs, Proper, NoWayIn, Outside;
    BfsFromOne(OutRows(g), None, start);
    visited[start] := mark;
    MarksOne(visited[..], mark, start);
    NothingDone(OutRows(g), visited[..], mark, [Seed(start, 0)]);
    frontier := Explore(g, Out, visited, mark, [start], [], [Seed(start, 0)]);
  }

  // ---------------------------------------------------------------------------
  // Bounded walks.

  /** The frontier of a bounded walk carries depths. */
  ghost predicate Depths(frontier: seq<(nat, nat)>, es: seq<Entry>) {
    |frontier| == |es| && forall i :: 0 <= i < |es| ==> frontier[i] == (es[i].node, es[i].depth)
  }

  lemma MarksAt(visited: seq<nat>, mark: nat, es: seq<Entry>, v: nat)
    requires Marks(visited, mark, es) && v < |visited|
    ensures visited[v] == mark <==> Seen(es, v)
  {
  }

  method VisitRowAt(visited: array<U32>, mark: U32, dests: seq<nat>, depth: nat, frontier: seq<(nat, nat)>,
                    ghost es: seq<Entry>, ghost h: nat)
      returns (next: seq<(nat, nat)>, ghost more: seq<Entry>)
    requires h < |es| && depth == es[h].depth && Depths(frontier, es) && Marks(visited[..], mark, es)
    requires forall k :: 0 <= k < |dests| ==> dests[k] < visited.Length
    modifies visited
    ensures more == DiscoverAll(es, h, dests) && Depths(next, more) && Marks(visited[..], mark, more)
    ensures forall v :: 0 <= v < visited.Length ==> visited[v] == old(visited[v]) || visited[v] == mark
  {
    hide Marks, Seen, DiscoverAll;
    next, more := frontier, es;
    DiscoverNone(es, h, dests);
    var k: nat := 0;
    while k < |dests|
      invariant k <= |dests| && h < |more| && Depths(next, more) && more[h] == es[h]
      invariant DiscoverAll(more, h, dests[k..]) == DiscoverAll(es, h, dests)
      invariant Marks(visited[..], mark, more)
      invariant forall v :: 0 <= v < visited.Length ==> visited[v] == old(visited[v]) || visited[v] == mark
    {
      var dest := dests[k];
      DiscoverAllStep(more, h, dests, k);
      MarksAt(visited[..], mark, more, dest);
      if visited[dest] != mark {
        ghost var e := Entry(dest, h, more[h].depth + 1);
        ghost var stamps: seq<nat> := visited[..];
        MarksMore(stamps, mark, more, e);
        visited[dest] := mark;
        assert visited[..] == stamps[dest := mark];
        more := more + [e];
        next := next + [(dest, depth + 1)];
      }
      k := k + 1;
    }
    DiscoverNone(more, h, dests);
  }

  method ExploreBounded(g: Graph, start: nat, maxDepth: nat, visited: array<U32>, mark: U32)
      returns (order: seq<nat>, frontier: seq<(nat, nat)>)
    requires WellFormed(g) && start < g.nodeCount && visited.Length == g.nodeCount
    requires forall v :: 0 <= v < visited.Length ==> visited[v] != mark
    modifies visited
    ensures order == Walk(g, start, Some(maxDepth))
    ensures forall v :: 0 <= v < visited.Length ==> visited[v] == old(visited[v]) || visited[v] == mark
  {
    hide Marks, Run, Expand, DiscoverAll, WellFormed, OutRows, Row, Proper, Bfs, NodesOf, Seen;
    ghost var adj, bound := OutRows(g), Some(maxDepth);
    BfsFromOne(adj, bound, start);
    ghost var es := [Seed(start, 0)];
    ghost var all := Bfs(adj, bound, [start]);
    frontier := [(start, 0)];
    visited[start] := mark;
    MarksOne(visited[..], mark, start);
    order := [];
    var head: nat := 0;
    while head < |frontier|
      invariant head <= |frontier| && Proper(adj, es) && Depths(frontier, es)
      invariant |order| == head && forall i :: 0 <= i < head ==> order[i] == es[i].node
      invariant Run(adj, bound, es, head) == all && Marks(visited[..], mark, es)
      invariant forall v :: 0 <= v < visited.Length ==> visited[v] == old(visited[v]) || visited[v] == mark
      decreases |adj| - head
    {
      RunStepAny(adj, bound, es, head);
      ExpandRow(adj, bound, es, head);
      var (node, depth) := frontier[head];
      order := order + [node];
      if depth < maxDepth {
        var row := OutgoingSlice(g, node);
        ghost var more;
        frontier, more := VisitRowAt(visited, mark, row, depth, frontier, es, head);
        assert es <= more;
        es := more;
      }
      head := head + 1;
    }
    RunEnds(adj, bound, es, head);
    assert order == NodesOf(all);
  }

  method WalkBreadthFirstUnbounded(g: Graph, start: nat) returns (order: seq<nat>)
    requires WellFormed(g) && start < g.nodeCount
    ensures order == Walk(g, start, None)
  {
    var visited := new U32[g.nodeCount](_ => 0);
    order := ExploreFrom(g, start, visited, 1);
  }

  method WalkBreadthFirst(g: Graph, start: nat, maxDepth: Option<nat>) returns (order: seq<nat>)
    requires WellFormed(g) && start < g.nodeCount
    ensures order == Walk(g, start, maxDepth)
  {
    hide Walk, WellFormed;
    if maxDepth.None? {
      order := WalkBreadthFirstUnbounded(g, start);
    } else {
      var visited := new U32[g.nodeCount](_ => 0);
      var frontier;
      order, frontier := ExploreBounded(g, start, maxDepth.value, visited, 1);
    }
  }

  /** A walk lists each node within reach exactly once, nearest first, starting at the start. */
  lemma WalkReaches(g: Graph, start: nat, bound: Option<nat>)
    requires WellFormed(g) && start < g.nodeCount
    ensures var r := Walk(g, start, bound);
            && (forall v: nat :: v in r <==> Reachable(OutRows(g), bound, [start], v))
            && (forall i, j :: 0 <= i < j < |r| ==> r[i] != r[j])
            && r != [] && r[0] == start
  {
    hide WellFormed, OutRows, Reachable, Layered, Processed;
    var adj := OutRows(g);
    var all := Bfs(adj, bound, [start]);
    BfsFromOne(adj, bound, start);
    BfsSound(adj, bound, [start]);
    forall v: nat
      ensures v in NodesOf(all) <==> Reachable(adj, bound, [start], v)
    {
      BfsReaches(adj, bound, [start], v);
      if v in NodesOf(all) {
        var i :| 0 <= i < |all| && NodesOf(all)[i] == v;
        assert all[i].node == v;
      }
    }
  }

  /** Nodes are listed in order of distance from the start. */
  lemma WalkByDistance(g: Graph, start: nat, bound: Option<nat>, i: nat, j: nat) returns (di: nat, dj: nat)
    requires WellFormed(g) && start < g.nodeCount && i < j < |Walk(g, start, bound)|
    ensures IsDistance(OutRows(g), [start], Walk(g, start, bound)[i], di)
    ensures IsDistance(OutRows(g), [start], Walk(g, start, bound)[j], dj)
    ensures di <= dj
  {
    hide WellFormed, OutRows, Bfs, IsDistance;
    var adj := OutRows(g);
    var all := Bfs(adj, bound, [start]);
    DepthIsDistance(adj, bound, [start], i);
    DepthIsDistance(adj, bound, [start], j);
    BfsOrder(adj, bound, [start], i, j);
    di, dj := all[i].depth, all[j].depth;
  }

  // ---------------------------------------------------------------------------
  // Walks from many seeds.

  /** Everything a search from the seeds discovers besides the seeds. */
  ghost function ManyWalk(g: Graph, seeds: seq<nat>, direction: Direction): seq<nat>
    requires WellFormed(g) && forall k :: 0 <= k < |seeds| ==> seeds[k] < g.nodeCount
  {
    PlantSeeds(Rows(g, direction), [], seeds);
    NodesOf(Bfs(Rows(g, direction), None, seeds))[|Plant([], seeds)|..]
  }

  lemma PlantStep(es: seq<Entry>, seeds: seq<nat>, k: nat)
    requires k < |seeds|
    ensures Plant(es, seeds[k..]) ==
            Plant(if Seen(es, seeds[k]) then es else es + [Seed(seeds[k], |es|)], seeds[k + 1..])
  {
    assert seeds[k..][0] == seeds[k] && seeds[k..][1..] == seeds[k + 1..];
  }

  method MarkSeeds(g: Graph, seeds: seq<nat>, visited: array<U32>, ghost adj: Adjacency)
      returns (frontier: seq<nat>, ghost es: seq<Entry>)
    requires |adj| == visited.Length && forall k :: 0 <= k < |seeds| ==> seeds[k] < visited.Length
    requires forall v :: 0 <= v < visited.Length ==> visited[v] == 0
    modifies visited
    ensures es == Plant([], seeds) && frontier == NodesOf(es) && Marks(visited[..], 1, es) && Proper(adj, es)
  {
    hide Marks, NodesOf, Seen, Proper, Plant, Planted;
    PlantNothing(adj);
    PlantSeeds(adj, [], seeds);
    frontier, es := [], [];
    MarksNone(visited[..], 1);
    var k: nat := 0;
    assert seeds[0..] == seeds;
    while k < |seeds|
      invariant k <= |seeds| && Plant(es, seeds[k..]) == Plant([], seeds)
      invariant frontier == NodesOf(es) && Marks(visited[..], 1, es)
    {
      var seed := seeds[k];
      PlantStep(es, seeds, k);
      MarksAt(visited[..], 1, es, seed);
      if visited[seed] != 1 {
        ghost var e := Seed(seed, |es|);
        ghost var stamps: seq<nat> := visited[..];
        MarksMore(stamps, 1, es, e);
        NodesMore(es, e);
        visited[seed] := 1;
        assert visited[..] == stamps[seed := 1];
        frontier := frontier + [seed];
        es := es + [e];
      }
      k := k + 1;
    }
    PlantNone(es, seeds);
    PlantedProper(adj, es);
  }

  lemma MarksNone(visited: seq<nat>, mark: nat)
    requires forall v :: 0 <= v < |visited| ==> visited[v] != mark
    ensures Marks(visited, mark, []) && NodesOf([]) == []
  {
  }

  lemma PlantNone(es: seq<Entry>, seeds: seq<nat>)
    ensures Plant(es, seeds[|seeds|..]) == es
  {
  }

  lemma NoSeeds(adj: Adjacency)
    ensures Plant([], []) == [] && Bfs(adj, None, []) == [] && NodesOf([]) == []
  {
    PlantSeeds(adj, [], []);
    RunEnds(adj, None, [], 0);
  }

  method WalkMany(g: Graph, seeds: seq<nat>, direction: Direction) returns (nodes: seq<nat>)
    requires WellFormed(g) && forall k :: 0 <= k < |seeds| ==> seeds[k] < g.nodeCount
    ensures nodes == ManyWalk(g, seeds, direction)
  {
    hide Marks, MarksBoth, NodesOf, Run, WellFormed, Rows, Proper, Seen, NoWayIn, Outside;
    if seeds == [] {
      NoSeeds(Rows(g, direction));
      return [];
    }
    var visited := new U32[g.nodeCount](_ => 0);
    var frontier, es := MarkSeeds(g, seeds, visited, Rows(g, direction));
    var seedCount := |frontier|;
    NothingDone(Rows(g, direction), visited[..], 1, es);
    frontier := Explore(g, direction, visited, 1, frontier, [], es);
    return frontier[seedCount..];
  }

  /** A walk from many seeds lists each other node within reach exactly once, and no seed. */
  lemma ManyWalkReaches(g: Graph, seeds: seq<nat>, direction: Direction)
    requires WellFormed(g) && forall k :: 0 <= k < |seeds| ==> seeds[k] < g.nodeCount
    ensures var r := ManyWalk(g, seeds, direction);
            && (forall v: nat :: v in r <==> v !in seeds && Reachable(Rows(g, direction), None, seeds, v))
            && (forall i, j :: 0 <= i < j < |r| ==> r[i] != r[j])
  {
    hide WellFormed, OutRows, InRows, Rows, Reachable, Layered, Processed, Bfs, Plant, Linked;
    var adj := Rows(g, direction);
    var all := Bfs(adj, None, seeds);
    BfsSound(adj, None, seeds);
    var s := |Plant([], seeds)|;
    var r := ManyWalk(g, seeds, direction);
    forall v: nat
      ensures v in r <==> v !in seeds && Reachable(adj, None, seeds, v)
    {
      BfsReaches(adj, None, seeds, v);
      if v in r {
        var i :| 0 <= i < |r| && r[i] == v;
        assert all[s + i].node == v;
      }
      if Seen(all, v) && v !in seeds {
        var i :| 0 <= i < |all| && all[i].node == v;
        assert r[i - s] == v;
      }
    }
  }

  /** A walk from many seeds is in order of distance from the nearest seed. */
  lemma ManyWalkByDistance(g: Graph, seeds: seq<nat>, direction: Direction, i: nat, j: nat) returns (di: nat, dj: nat)
    requires WellFormed(g) && forall k :: 0 <= k < |seeds| ==> seeds[k] < g.nodeCount
    requires i < j < |ManyWalk(g, seeds, direction)|
    ensures IsDistance(Rows(g, direction), seeds, ManyWalk(g, seeds, direction)[i], di)
    ensures IsDistance(Rows(g, direction), seeds, ManyWalk(g, seeds, direction)[j], dj)
    ensures di <= dj
  {
    hide WellFormed, OutRows, InRows, Rows, Bfs, IsDistance, Plant;
    var adj := Rows(g, direction);
    var all := Bfs(adj, None, seeds);
    BfsSound(adj, None, seeds);
    var s := |Plant([], seeds)|;
    DepthIsDistance(adj, None, seeds, s + i);
    DepthIsDistance(adj, None, seeds, s + j);
    BfsOrder(adj, None, seeds, s + i, s + j);
    di, dj := all[s + i].depth, all[s + j].depth;
  }

  function Opposite(direction: Direction): Direction {
    match direction
    case Out => In
    case In => Out
    case Both => Both
  }

  lemma RowsOppose(g: Graph, direction: Direction, u: nat, v: nat)
    requires WellFormed(g) && u < g.nodeCount && v < g.nodeCount
    ensures v in Rows(g, direction)[u] <==> u in Rows(g, Opposite(direction))[v]
  {
    hide WellFormed, OutRows, InRows, BothRows, OutgoingSlice, Incoming;
    RowsOpposite(g, u, v);
    RowsOpposite(g, v, u);
  }

  lemma ReversedPath(g: Graph, path: seq<nat>, direction: Direction)
    requires WellFormed(g) && IsPath(Rows(g, direction), path)
    ensures IsPath(Rows(g, Opposite(direction)), Reversed(path))
  {
    hide WellFormed, Rows, Opposite;
    var back := Reversed(path);
    forall i | 0 <= i < |back|
      ensures back[i] < g.nodeCount
    {
      ReversedAt(path, i);
    }
    forall i | 0 <= i < |back| - 1
      ensures back[i + 1] in Rows(g, Opposite(direction))[back[i]]
    {
      var k := |path| - 2 - i;
      ReversedAt(path, i);
      ReversedAt(path, i + 1);
      assert back[i + 1] == path[k] && back[i] == path[k + 1];
      assert path[k + 1] in Rows(g, direction)[path[k]];
      RowsOppose(g, direction, path[k], path[k + 1]);
    }
  }

  /** A directed path from `v` to one of the targets. */
  ghost predicate StartsAt(g: Graph, targets: seq<nat>, path: seq<nat>, v: nat)
    requires WellFormed(g)
  {
    IsPath(OutRows(g), path) && path[0] == v && path[|path| - 1] in targets
  }

  /** Following incoming rows from the targets finds exactly the nodes with a path to a target. */
  lemma AncestorsReach(g: Graph, targets: seq<nat>, v: nat)
    requires WellFormed(g)
    ensures Reachable(Rows(g, In), None, targets, v) <==>
            exists path :: StartsAt(g, targets, path, v)
  {
    hide WellFormed, InRows, OutRows, IsPath;
    if path: seq<nat> :| Leads(InRows(g), targets, path, v) {
      PathNonEmpty(InRows(g), path);
      ReversedPath(g, path, In);
      ReversedEnds(path);
      assert StartsAt(g, targets, Reversed(path), v);
    }
    if path: seq<nat> :| StartsAt(g, targets, path, v) {
      PathNonEmpty(OutRows(g), path);
      ReversedPath(g, path, Out);
      ReversedEnds(path);
      assert Leads(InRows(g), targets, Reversed(path), v);
    }
  }
}

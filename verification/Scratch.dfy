/**
 * Batched queries. Visited stamps survive from query to query, so that starting one
 * costs nothing per node; every query still answers as if it were the first.
 */
module BatchedQueries {
  import opened Wrappers
  import opened CompressedRows
  import opened BreadthFirst
  import opened Graphs
  import opened ShortestPaths
  import opened Walks

  /** What a traversal answers: the walk from the start, in external ids. */
  ghost function WalkAnswer(g: Graph, start: nat, maxDepth: Option<nat>): Option<seq<nat>>
    requires WellFormed(g)
  {
    var s := InternalU64(g.identity, start);
    if s.None? then None else
    Internals(g, start);
    WalkInRange(g, s.value, maxDepth);
    Some(ExternalIds(g, Walk(g, s.value, maxDepth)))
  }

  lemma WalkInRange(g: Graph, start: nat, bound: Option<nat>)
    requires WellFormed(g) && start < g.nodeCount
    ensures forall k :: 0 <= k < |Walk(g, start, bound)| ==> Walk(g, start, bound)[k] < g.nodeCount
  {
    hide Run;
    BfsFromOne(OutRows(g), bound, start);
  }

  /** Visited stamps and parents, reused across queries. */
  class TopologyScratch {
    const visited: array<U32>
    const parent: array<U32>
    var generation: U32
    var frontier: seq<nat>
    var depthFrontier: seq<(nat, nat)>

    /** No stamp is newer than the current generation. */
    ghost predicate Valid()
      reads this, visited
    {
      visited != parent && visited.Length == parent.Length &&
      forall v :: 0 <= v < visited.Length ==> visited[v] <= generation
    }

    constructor (nodeCount: nat)
      ensures Valid() && visited.Length == nodeCount && generation == 0
      ensures fresh(visited) && fresh(parent) && frontier == [] && depthFrontier == []
    {
      visited := new U32[nodeCount](_ => 0);
      parent := new U32[nodeCount](_ => U32_MAX);
      generation := 0;
      frontier := [];
      depthFrontier := [];
    }

    /** A stamp that no node carries; when the counter wraps around, all stamps are cleared. */
    method NextGeneration() returns (mark: U32)
      requires Valid()
      modifies this`generation, visited
      ensures Valid() && mark == generation && forall v :: 0 <= v < visited.Length ==> visited[v] != mark
      ensures old(generation) < U32_MAX ==> mark == old(generation) + 1 && visited[..] == old(visited[..])
      ensures old(generation) == U32_MAX ==> mark == 1 && forall v :: 0 <= v < visited.Length ==> visited[v] == 0
    {
      if generation == U32_MAX {
        forall v | 0 <= v < visited.Length {
          visited[v] := 0;
        }
        generation := 1;
      } else {
        generation := generation + 1;
      }
      mark := generation;
    }

    /** One query on reused scratch, whatever earlier queries left behind. */
    method ShortestPath(g: Graph, source: nat, target: nat) returns (r: Option<seq<nat>>)
      requires Valid() && WellFormed(g) && visited.Length == g.nodeCount
      modifies this`generation, this`frontier, visited, parent
      ensures Valid() && r == Answer(g, source, target)
    {
      hide WellFormed, Answer, FoundPath, OneSeed;
      var s, t := InternalU64(g.identity, source), InternalU64(g.identity, target);
      if s.None? || t.None? {
        AnswerUnknown(g, source, target);
        return None;
      }
      AnswerFound(g, source, target);
      if s.value == t.value {
        AnswerSame(g, source, target);
        Internals(g, source);
        return Some([NodeToU64(g, s.value)]);
      }
      var mark := NextGeneration();
      ghost var all;
      r, frontier, all := FindPath(g, s.value, t.value, visited, mark, parent);
      OneSeedIs(OutRows(g), s.value, all);
    }

    /** One traversal on reused scratch. */
    method WalkFrom(g: Graph, start: nat, maxDepth: Option<nat>) returns (r: Option<seq<nat>>)
      requires Valid() && WellFormed(g) && visited.Length == g.nodeCount
      modifies this`generation, this`frontier, this`depthFrontier, visited
      ensures Valid() && r == WalkAnswer(g, start, maxDepth)
    {
      hide WellFormed, Walk;
      var s := InternalU64(g.identity, start);
      if s.None? {
        return None;
      }
      Internals(g, start);
      WalkInRange(g, s.value, maxDepth);
      var mark := NextGeneration();
      if maxDepth.Some? {
        frontier, depthFrontier := ExploreBounded(g, s.value, maxDepth.value, visited, mark);
      } else {
        frontier := ExploreFrom(g, s.value, visited, mark);
      }
      r := Some(ExternalIds(g, frontier));
    }
  }

  /** A batch of queries: every one answers as if it had been asked alone. */
  method ShortestPathsU64(g: Graph, queries: seq<(nat, nat)>) returns (r: Option<seq<Option<seq<nat>>>>)
    requires WellFormed(g)
    ensures r.Some? <==> HasU64Ids(g.identity)
    ensures r.Some? ==>
              |r.value| == |queries| &&
              forall q :: 0 <= q < |queries| ==> r.value[q] == Answer(g, queries[q].0, queries[q].1)
  {
    hide WellFormed, Answer;
    if !HasU64Ids(g.identity) {
      return None;
    }
    var scratch := new TopologyScratch(g.nodeCount);
    var answers: seq<Option<seq<nat>>> := [];
    while |answers| < |queries|
      invariant |answers| <= |queries|
      invariant scratch.Valid() && scratch.visited.Length == g.nodeCount
      invariant fresh(scratch) && fresh(scratch.visited) && fresh(scratch.parent)
      invariant forall q :: 0 <= q < |answers| ==> answers[q] == Answer(g, queries[q].0, queries[q].1)
    {
      var (source, target) := queries[|answers|];
      var answer := scratch.ShortestPath(g, source, target);
      answers := answers + [answer];
    }
    return Some(answers);
  }

  /** A batch of traversals: every one answers as if it had been asked alone. */
  method BfsManyU64(g: Graph, starts: seq<nat>, maxDepth: Option<nat>) returns (r: Option<seq<Option<seq<nat>>>>)
    requires WellFormed(g)
    ensures r.Some? <==> HasU64Ids(g.identity)
    ensures r.Some? ==>
              |r.value| == |starts| &&
              forall q :: 0 <= q < |starts| ==> r.value[q] == WalkAnswer(g, starts[q], maxDepth)
  {
    hide WellFormed, WalkAnswer;
    if !HasU64Ids(g.identity) {
      return None;
    }
    var scratch := new TopologyScratch(g.nodeCount);
    var answers: seq<Option<seq<nat>>> := [];
    while |answers| < |starts|
      invariant |answers| <= |starts|
      invariant scratch.Valid() && scratch.visited.Length == g.nodeCount
      invariant fresh(scratch) && fresh(scratch.visited) && fresh(scratch.parent)
      invariant forall q :: 0 <= q < |answers| ==> answers[q] == WalkAnswer(g, starts[q], maxDepth)
    {
      var answer := scratch.WalkFrom(g, starts[|answers|], maxDepth);
      answers := answers + [answer];
    }
    return Some(answers);
  }

  /** One traversal with fresh arrays. */
  method BfsU64(g: Graph, start: nat, maxDepth: Option<nat>) returns (r: Option<seq<nat>>)
    requires WellFormed(g)
    ensures r == WalkAnswer(g, start, maxDepth)
  {
    hide WellFormed, Walk;
    var s := InternalU64(g.identity, start);
    if s.None? {
      return None;
    }
    Internals(g, start);
    WalkInRange(g, s.value, maxDepth);
    var order := WalkBreadthFirst(g, s.value, maxDepth);
    return Some(ExternalIds(g, order));
  }
}

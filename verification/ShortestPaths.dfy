/**
 * Shortest-path queries over integer ids: one with fresh arrays, and a batch that
 * reuses generation-stamped scratch. Both are proved to answer from the same
 * breadth-first search, and the answer is proved to be a shortest path.
 */
module ShortestPaths {
  import opened Wrappers
  import opened Sequences
  import opened CompressedRows
  import opened BreadthFirst
  import opened Graphs

  /** The external ids of internal nodes. */
  function ExternalIds(g: Graph, nodes: seq<nat>): (r: seq<nat>)
    requires WellFormed(g) && HasU64Ids(g.identity)
    requires forall k :: 0 <= k < |nodes| ==> nodes[k] < g.nodeCount
    ensures |r| == |nodes|
    ensures forall k :: 0 <= k < |nodes| ==> ExternalU64(g.identity, nodes[k]) == Some(r[k])
  {
    seq(|nodes|, k requires 0 <= k < |nodes| => ExternalU64(g.identity, nodes[k]).value)
  }

  /** The entry of a discovered node. */
  ghost function IndexOf(es: seq<Entry>, v: nat): (i: nat)
    requires Seen(es, v)
    ensures i < |es| && es[i].node == v
  {
    var i :| 0 <= i < |es| && es[i].node == v;
    i
  }

  ghost predicate OneSeed(adj: Adjacency, source: nat, all: seq<Entry>) {
    && source < |adj| && all == Bfs(adj, None, [source])
    && Tree(adj, 1, all) && all[0].node == source
  }

  lemma BfsOneSeed(adj: Adjacency, source: nat)
    requires source < |adj|
    ensures OneSeed(adj, source, Bfs(adj, None, [source]))
    ensures Bfs(adj, None, [source]) == Run(adj, None, [Seed(source, 0)], 0)
  {
    hide Run, Processed, Layered, Linked;
    BfsSound(adj, None, [source]);
    assert [source][1..] == [];
    assert Plant([], [source]) == [Seed(source, 0)];
  }

  lemma TreeChain(adj: Adjacency, all: seq<Entry>, i: nat)
    requires Tree(adj, 1, all) && i < |all|
    ensures forall k :: 0 <= k < |Chain(1, all, i)| ==> Chain(1, all, i)[k] < |adj|
  {
    hide Tree;
    ChainIsPath(adj, 1, all, i);
  }

  /** What a query answers: the discovery path of the target, in external ids. */
  ghost function Answer(g: Graph, source: nat, target: nat): Option<seq<nat>>
    requires WellFormed(g)
  {
    var s, t := InternalU64(g.identity, source), InternalU64(g.identity, target);
    if s.None? || t.None? then None else
    Internals(g, source);
    BfsOneSeed(OutRows(g), s.value);
    var all := Bfs(OutRows(g), None, [s.value]);
    if !Seen(all, t.value) then None else
    TreeChain(OutRows(g), all, IndexOf(all, t.value));
    Some(ExternalIds(g, Chain(1, all, IndexOf(all, t.value))))
  }

  lemma Internals(g: Graph, external: nat)
    requires WellFormed(g)
    ensures var v := InternalU64(g.identity, external);
            v.Some? ==> v.value < g.nodeCount && HasU64Ids(g.identity) &&
                        ExternalU64(g.identity, v.value) == Some(external)
  {
  }

  // ---------------------------------------------------------------------------
  // Marks and parents.

  /** Exactly the discovered nodes carry the mark. */
  ghost predicate Marks(visited: seq<nat>, mark: nat, es: seq<Entry>) {
    forall v :: 0 <= v < |visited| ==> (visited[v] == mark <==> Seen(es, v))
  }

  /** Every discovered node after the first knows the node that discovered it. */
  ghost predicate Parents(parent: seq<nat>, es: seq<Entry>) {
    forall i :: 1 <= i < |es| ==>
      es[i].node < |parent| && es[i].from < |es| && parent[es[i].node] == es[es[i].from].node
  }

  lemma SeenMore(es: seq<Entry>, e: Entry, v: nat)
    ensures Seen(es + [e], v) <==> Seen(es, v) || v == e.node
  {
    if Seen(es, v) {
      var i :| 0 <= i < |es| && es[i].node == v;
      assert (es + [e])[i].node == v;
    }
    if v == e.node {
      assert (es + [e])[|es|].node == v;
    }
  }

  lemma MarksMore(visited: seq<nat>, mark: nat, es: seq<Entry>, e: Entry)
    requires Marks(visited, mark, es) && e.node < |visited|
    ensures Marks(visited[e.node := mark], mark, es + [e])
  {
    hide Seen;
    forall v | 0 <= v < |visited|
      ensures visited[e.node := mark][v] == mark <==> Seen(es + [e], v)
    {
      SeenMore(es, e, v);
    }
  }

  lemma ParentsMore(parent: seq<nat>, es: seq<Entry>, e: Entry)
    requires Parents(parent, es) && es != [] && e.node < |parent| && e.from < |es| && !Seen(es, e.node)
    ensures Parents(parent[e.node := es[e.from].node], es + [e])
  {
    var next := es + [e];
    forall i | 1 <= i < |next|
      ensures next[i].node < |parent| && next[i].from < |next|
      ensures parent[e.node := es[e.from].node][next[i].node] == next[next[i].from].node
    {
      if i < |es| {
        assert es[i].node != e.node;
      }
    }
  }

  lemma NodesMore(es: seq<Entry>, e: Entry)
    ensures NodesOf(es + [e]) == NodesOf(es) + [e.node]
  {
    assert (es + [e])[..|es|] == es;
  }

  // ---------------------------------------------------------------------------
  // Reading a path back.

  function NodeToU64(g: Graph, node: nat): (r: nat)
    requires WellFormed(g) && HasU64Ids(g.identity) && node < g.nodeCount
    ensures ExternalU64(g.identity, node) == Some(r)
  {
    ExternalU64(g.identity, node).value
  }

  lemma ExternalMore(g: Graph, nodes: seq<nat>, node: nat)
    requires WellFormed(g) && HasU64Ids(g.identity) && node < g.nodeCount
    requires forall k :: 0 <= k < |nodes| ==> nodes[k] < g.nodeCount
    ensures ExternalIds(g, nodes + [node]) == ExternalIds(g, nodes) + [NodeToU64(g, node)]
  {
  }

  lemma ParentStep(adj: Adjacency, all: seq<Entry>, es: seq<Entry>, parent: seq<nat>, i: nat)
    requires Tree(adj, 1, all) && es <= all && Parents(parent, es) && 1 <= i < |es|
    ensures var from := es[i].from;
            && from < i && all[from] == es[from] && es[i].node < |parent| && parent[es[i].node] == es[from].node
            && Chain(1, all, i) == Chain(1, all, from) + [es[i].node]
  {
    assert Linked(adj, all, i) && all[all[i].from] == es[es[i].from];
  }

  lemma FirstOnly(adj: Adjacency, all: seq<Entry>, i: nat)
    requires Tree(adj, 1, all) && i < |all| && all[i].node == all[0].node
    ensures i == 0 && all[0].node < |adj|
  {
  }

  /** Following parents from the target and reversing yields the discovery path. */
  method MaterializePath(g: Graph, source: nat, target: nat, parent: array<U32>,
                         ghost adj: Adjacency, ghost all: seq<Entry>, ghost es: seq<Entry>, ghost last: nat)
      returns (path: seq<nat>)
    requires WellFormed(g) && HasU64Ids(g.identity) && adj == OutRows(g)
    requires Tree(adj, 1, all) && es <= all && |es| == last + 1 && es[0].node == source
    requires es[last].node == target && parent.Length == g.nodeCount && Parents(parent[..], es)
    ensures forall k :: 0 <= k < |Chain(1, all, last)| ==> Chain(1, all, last)[k] < g.nodeCount
    ensures path == ExternalIds(g, Chain(1, all, last))
  {
    hide Tree, Parents, Linked, WellFormed, OutRows, ExternalU64, ExternalIds, Reversed, Chain;
    ghost var whole := Chain(1, all, last);
    TreeChain(adj, all, last);
    path := [];
    var node := target;
    ghost var i: nat := last;
    assert Reversed(path) == [];
    while node != source
      invariant i < |es| && node == es[i].node && all[i] == es[i]
      invariant forall k :: 0 <= k < |Chain(1, all, i)| ==> Chain(1, all, i)[k] < g.nodeCount
      invariant ExternalIds(g, whole) == ExternalIds(g, Chain(1, all, i)) + Reversed(path)
      decreases i
    {
      ParentStep(adj, all, es, parent[..], i);
      TreeChain(adj, all, es[i].from);
      ExternalMore(g, Chain(1, all, es[i].from), node);
      ReversedAppend(path, NodeToU64(g, node));
      path := path + [NodeToU64(g, node)];
      node := parent[node];
      i := es[i].from;
    }
    FirstOnly(adj, all, i);
    assert source < g.nodeCount;
    ChainFirst(all);
    assert [] + [source] == [source];
    ExternalMore(g, [], source);
    ReversedAppend(path, NodeToU64(g, source));
    path := path + [NodeToU64(g, source)];
    path := Reversed(path);
  }

  // ---------------------------------------------------------------------------
  // The search loop.

  /** The discovery path of `target` in a search from `source`. */
  ghost function FoundPath(g: Graph, all: seq<Entry>, target: nat): Option<seq<nat>>
    requires WellFormed(g) && HasU64Ids(g.identity) && Tree(OutRows(g), 1, all)
  {
    if !Seen(all, target) then None else
    TreeChain(OutRows(g), all, IndexOf(all, target));
    Some(ExternalIds(g, Chain(1, all, IndexOf(all, target))))
  }

  lemma DiscoverNone(es: seq<Entry>, h: nat, vs: seq<nat>)
    requires h < |es|
    ensures DiscoverAll(es, h, vs[|vs|..]) == es && vs[0..] == vs
  {
  }

  lemma DiscoverAllStep(es: seq<Entry>, h: nat, vs: seq<nat>, k: nat)
    requires h < |es| && k < |vs|
    ensures DiscoverAll(es, h, vs[k..]) == DiscoverAll(Discover(es, h, vs[k]), h, vs[k + 1..])
  {
    assert vs[k..][0] == vs[k] && vs[k..][1..] == vs[k + 1..];
  }

  lemma ChainFirst(all: seq<Entry>)
    requires all != []
    ensures Chain(1, all, 0) == [all[0].node]
  {
  }

  lemma EntryInRange(g: Graph, es: seq<Entry>, h: nat)
    requires WellFormed(g) && Proper(OutRows(g), es) && h < |es|
    ensures es[h].node < g.nodeCount <= U32_MAX && OutRows(g)[es[h].node] == OutgoingSlice(g, es[h].node)
  {
  }

  lemma FoundSeen(g: Graph, all: seq<Entry>, target: nat)
    requires WellFormed(g) && HasU64Ids(g.identity) && Tree(OutRows(g), 1, all)
    ensures FoundPath(g, all, target).Some? <==> Seen(all, target)
  {
  }

  lemma OneSeedIs(adj: Adjacency, source: nat, all: seq<Entry>)
    requires OneSeed(adj, source, all)
    ensures Tree(adj, 1, all) && all == Bfs(adj, None, [source])
  {
  }

  /** The state of a search after discovering `es`. */
  ghost predicate Searching(n: nat, visited: seq<nat>, mark: nat, parent: seq<nat>, frontier: seq<nat>,
                            es: seq<Entry>)
  {
    && |visited| == |parent| == n && frontier == NodesOf(es)
    && Marks(visited, mark, es) && Parents(parent, es)
  }

  lemma SearchingAt(n: nat, visited: seq<nat>, mark: nat, parent: seq<nat>, frontier: seq<nat>, es: seq<Entry>)
    requires Searching(n, visited, mark, parent, frontier, es)
    ensures |visited| == |parent| == n && |frontier| == |es| && frontier == NodesOf(es) && Parents(parent, es)
    ensures forall v :: 0 <= v < n ==> (visited[v] == mark <==> Seen(es, v))
  {
  }

  lemma SearchingMore(n: nat, visited: seq<nat>, mark: nat, parent: seq<nat>, frontier: seq<nat>, es: seq<Entry>,
                      h: nat, v: nat)
    requires Searching(n, visited, mark, parent, frontier, es) && h < |es| && v < n && !Seen(es, v)
    ensures Searching(n, visited[v := mark], mark, parent[v := es[h].node], frontier + [v],
                      es + [Entry(v, h, es[h].depth + 1)])
  {
    hide Marks, Parents, Seen, NodesOf;
    var e := Entry(v, h, es[h].depth + 1);
    MarksMore(visited, mark, es, e);
    ParentsMore(parent, es, e);
    NodesMore(es, e);
  }

  /** Discover the neighbours of entry `h`, stopping at the target. */
  method ScanRow(g: Graph, target: nat, visited: array<U32>, mark: U32, parent: array<U32>, frontier: seq<nat>, h: nat,
                 ghost es: seq<Entry>)
      returns (found: bool, next: seq<nat>, ghost more: seq<Entry>)
    requires WellFormed(g) && visited != parent && h < |es| && Proper(OutRows(g), es) && !Seen(es, target)
    requires Searching(g.nodeCount, visited[..], mark, parent[..], frontier, es)
    modifies visited, parent
    ensures !found ==>
              && more == Expand(OutRows(g), None, es, h) && !Seen(more, target)
              && Searching(g.nodeCount, visited[..], mark, parent[..], next, more)
    ensures found ==>
              && more <= Expand(OutRows(g), None, es, h) && more != [] && more[|more| - 1].node == target
              && Parents(parent[..], more) && es <= more
    ensures forall v :: 0 <= v < visited.Length ==> visited[v] == old(visited[v]) || visited[v] == mark
  {
    hide Marks, Parents, NodesOf, Seen, WellFormed, OutRows, Proper, Expand, DiscoverAll, Searching, Row;
    SearchingAt(g.nodeCount, visited[..], mark, parent[..], frontier, es);
    EntryInRange(g, es, h);
    var dests := OutgoingSlice(g, frontier[h]);
    ExpandRow(OutRows(g), None, es, h);
    next, more := frontier, es;
    DiscoverNone(es, h, dests);
    var k: nat := 0;
    while k < |dests|
      invariant k <= |dests| && es <= more && h < |more|
      invariant DiscoverAll(more, h, dests[k..]) == DiscoverAll(es, h, dests)
      invariant !Seen(more, target) && Searching(g.nodeCount, visited[..], mark, parent[..], next, more)
      invariant forall v :: 0 <= v < visited.Length ==> visited[v] == old(visited[v]) || visited[v] == mark
    {
      var dest := dests[k];
      DiscoverAllStep(more, h, dests, k);
      SearchingAt(g.nodeCount, visited[..], mark, parent[..], next, more);
      assert visited[..][dest] == visited[dest];
      if visited[dest] != mark {
        ghost var e := Entry(dest, h, more[h].depth + 1);
        ghost var stamps: seq<nat>, parents: seq<nat> := visited[..], parent[..];
        SearchingMore(g.nodeCount, stamps, mark, parents, next, more, h, dest);
        SeenMore(more, e, target);
        assert more[h].node == es[h].node == frontier[h];
        visited[dest] := mark;
        parent[dest] := frontier[h];
        assert visited[..] == stamps[dest := mark] && parent[..] == parents[dest := more[h].node];
        more := more + [e];
        if dest == target {
          SearchingAt(g.nodeCount, visited[..], mark, parent[..], next + [dest], more);
          return true, next, more;
        }
        next := next + [dest];
      }
      k := k + 1;
    }
    DiscoverNone(more, h, dests);
    found := false;
  }

  /** Breadth-first search for `target`, over arrays in which no node carries the mark. */
  method FindPath(g: Graph, source: nat, target: nat, visited: array<U32>, mark: U32, parent: array<U32>)
      returns (path: Option<seq<nat>>, frontier: seq<nat>, ghost all: seq<Entry>)
    requires WellFormed(g) && HasU64Ids(g.identity) && visited != parent && source != target
    requires source < g.nodeCount && visited.Length == parent.Length == g.nodeCount
    requires forall v :: 0 <= v < visited.Length ==> visited[v] != mark
    modifies visited, parent
    ensures OneSeed(OutRows(g), source, all) && path == FoundPath(g, all, target)
    ensures forall v :: 0 <= v < visited.Length ==> visited[v] == old(visited[v]) || visited[v] == mark
  {
    hide Marks, Parents, NodesOf, Run, Expand, WellFormed, OutRows, ExternalIds, Seen, Searching, Proper, Linked, Bfs;
    ghost var adj := OutRows(g);
    BfsOneSeed(adj, source);
    all := Bfs(adj, None, [source]);
    ghost var es := [Seed(source, 0)];
    visited[source] := mark;
    frontier := [source];
    SearchStarts(adj, target, visited[..], mark, parent[..], source);
    var head: nat := 0;
    while head < |frontier|
      invariant head <= |frontier| == |es| && es != [] && es[0].node == source
      invariant Proper(adj, es) && Run(adj, None, es, head) == all && !Seen(es, target)
      invariant Searching(g.nodeCount, visited[..], mark, parent[..], frontier, es)
      invariant forall v :: 0 <= v < visited.Length ==> visited[v] == old(visited[v]) || visited[v] == mark
      decreases |adj| - head
    {
      ProperBound(adj, es);
      RunStep(adj, es, head);
      ghost var more;
      var found;
      found, frontier, more := ScanRow(g, target, visited, mark, parent, frontier, head, es);
      if found {
        ghost var last: nat := |more| - 1;
        assert more <= all && all[last] == more[last];
        var result := MaterializePath(g, source, target, parent, adj, all, more, last);
        FoundAt(g, all, target, last);
        return Some(result), frontier, all;
      }
      SearchingAt(g.nodeCount, visited[..], mark, parent[..], frontier, more);
      es := more;
      head := head + 1;
    }
    RunEnds(adj, None, es, head);
    path := None;
  }

  lemma SearchStarts(adj: Adjacency, target: nat, visited: seq<nat>, mark: nat, parent: seq<nat>, source: nat)
    requires source < |adj| == |visited| == |parent| && source != target
    requires forall v :: 0 <= v < |adj| ==> (visited[v] == mark <==> v == source)
    ensures var es := [Seed(source, 0)];
            && Proper(adj, es) && !Seen(es, target) && |es| == 1
            && Searching(|adj|, visited, mark, parent, [source], es)
  {
    var es := [Seed(source, 0)];
    assert es[0].node == source;
  }

  lemma RunStep(adj: Adjacency, es: seq<Entry>, h: nat)
    requires h < |es| && Proper(adj, es)
    ensures Proper(adj, Expand(adj, None, es, h))
    ensures Run(adj, None, es, h) == Run(adj, None, Expand(adj, None, es, h), h + 1)
  {
    hide Expand, Proper;
    ProperBound(adj, es);
    ExpandProper(adj, None, es, h);
  }

  lemma FoundAt(g: Graph, all: seq<Entry>, target: nat, i: nat)
    requires WellFormed(g) && HasU64Ids(g.identity) && Tree(OutRows(g), 1, all)
    requires i < |all| && all[i].node == target
    requires forall k :: 0 <= k < |Chain(1, all, i)| ==> Chain(1, all, i)[k] < g.nodeCount
    ensures FoundPath(g, all, target) == Some(ExternalIds(g, Chain(1, all, i)))
  {
    hide Linked, WellFormed, ExternalIds;
    assert Seen(all, target);
    assert IndexOf(all, target) == i;
  }

  // ---------------------------------------------------------------------------
  // Queries.

  lemma AnswerFound(g: Graph, source: nat, target: nat)
    requires WellFormed(g)
    requires InternalU64(g.identity, source).Some? && InternalU64(g.identity, target).Some?
    ensures var s, t := InternalU64(g.identity, source).value, InternalU64(g.identity, target).value;
            && s < g.nodeCount && t < g.nodeCount && HasU64Ids(g.identity)
            && OneSeed(OutRows(g), s, Bfs(OutRows(g), None, [s]))
            && Answer(g, source, target) == FoundPath(g, Bfs(OutRows(g), None, [s]), t)
  {
    hide WellFormed, Bfs, Chain, ExternalIds, OutRows;
    Internals(g, source);
    Internals(g, target);
    BfsOneSeed(OutRows(g), InternalU64(g.identity, source).value);
  }

  lemma AnswerUnknown(g: Graph, source: nat, target: nat)
    requires WellFormed(g)
    requires InternalU64(g.identity, source).None? || InternalU64(g.identity, target).None?
    ensures Answer(g, source, target) == None
  {
  }

  lemma AnswerSame(g: Graph, source: nat, target: nat)
    requires WellFormed(g)
    requires InternalU64(g.identity, source).Some?
    requires InternalU64(g.identity, source) == InternalU64(g.identity, target)
    ensures Answer(g, source, target) == Some([source])
  {
    hide WellFormed, Bfs, OutRows, Linked;
    AnswerFound(g, source, target);
    Internals(g, source);
    var s := InternalU64(g.identity, source).value;
    var all := Bfs(OutRows(g), None, [s]);
    assert Chain(1, all, 0) == [s];
    FoundAt(g, all, s, 0);
    assert ExternalIds(g, [s]) == [source];
  }

  /** One query with fresh arrays. */
  method ShortestPathU64(g: Graph, source: nat, target: nat) returns (r: Option<Option<seq<nat>>>)
    requires WellFormed(g)
    ensures r.None? <==> InternalU64(g.identity, source).None? || InternalU64(g.identity, target).None?
    ensures r.Some? ==> r.value == Answer(g, source, target)
  {
    hide WellFormed, Answer, FoundPath, OneSeed;
    var s, t := InternalU64(g.identity, source), InternalU64(g.identity, target);
    if s.None? || t.None? {
      return None;
    }
    AnswerFound(g, source, target);
    if s.value == t.value {
      AnswerSame(g, source, target);
      return Some(Some([source]));
    }
    var visited := new U32[g.nodeCount](_ => 0);
    var parent := new U32[g.nodeCount](_ => U32_MAX);
    var path, frontier, all := FindPath(g, s.value, t.value, visited, 1, parent);
    OneSeedIs(OutRows(g), s.value, all);
    return Some(path);
  }

  // ---------------------------------------------------------------------------
  // What an answer is.

  /** `path` is a directed path between external ids. */
  ghost predicate ExternalPath(g: Graph, path: seq<nat>, source: nat, target: nat)
    requires WellFormed(g) && HasU64Ids(g.identity)
  {
    exists nodes ::
      && IsPath(OutRows(g), nodes) && |path| == |nodes|
      && (forall k :: 0 <= k < |nodes| ==> ExternalU64(g.identity, nodes[k]) == Some(path[k]))
      && path[0] == source && path[|path| - 1] == target
  }

  lemma ExternalPathEnds(g: Graph, path: seq<nat>, nodes: seq<nat>, source: nat, target: nat)
    requires WellFormed(g) && HasU64Ids(g.identity)
    requires InternalU64(g.identity, source).Some? && InternalU64(g.identity, target).Some?
    requires IsPath(OutRows(g), nodes) && |path| == |nodes|
    requires forall k :: 0 <= k < |nodes| ==> ExternalU64(g.identity, nodes[k]) == Some(path[k])
    ensures path[0] == source <==> nodes[0] == InternalU64(g.identity, source).value
    ensures path[|path| - 1] == target <==> nodes[|nodes| - 1] == InternalU64(g.identity, target).value
  {
    IdentityRoundTrip(g.identity, g.nodeCount, source, nodes[0]);
    IdentityRoundTrip(g.identity, g.nodeCount, target, nodes[|nodes| - 1]);
  }

  /**
   * A query answers with a directed path from source to target that no such path
   * undercuts, and answers nothing exactly when there is no path or an id is unknown.
   */
  lemma AnswerIsShortest(g: Graph, source: nat, target: nat)
    requires WellFormed(g) && HasU64Ids(g.identity)
    ensures var r := Answer(g, source, target);
            && (r.Some? ==> ExternalPath(g, r.value, source, target))
            && (r.Some? ==> forall path :: ExternalPath(g, path, source, target) ==> |r.value| <= |path|)
            && (InternalU64(g.identity, source).Some? && InternalU64(g.identity, target).Some? ==>
                  (r.None? <==> forall path :: !ExternalPath(g, path, source, target)))
  {
    hide WellFormed, OutRows, ExternalU64, InternalU64, Answer, Bfs, IsPath, Leads, ExternalPath, FoundPath, OneSeed,
         Tree, Chain;
    var r := Answer(g, source, target);
    if InternalU64(g.identity, source).None? || InternalU64(g.identity, target).None? {
      AnswerUnknown(g, source, target);
    } else {
      AnswerFound(g, source, target);
      var s, t := InternalU64(g.identity, source).value, InternalU64(g.identity, target).value;
      var all := Bfs(OutRows(g), None, [s]);
      BfsReaches(OutRows(g), None, [s], t);
      if r.Some? {
        var i := AnswerPath(g, source, target);
        forall path | ExternalPath(g, path, source, target)
          ensures |r.value| <= |path|
        {
          var nodes := InternalPath(g, path, source, target);
          DepthIsDistance(OutRows(g), None, [s], i);
        }
      } else {
        OneSeedIs(OutRows(g), s, all);
        FoundSeen(g, all, t);
        forall path
          ensures !ExternalPath(g, path, source, target)
        {
          if ExternalPath(g, path, source, target) {
            var nodes := InternalPath(g, path, source, target);
          }
        }
      }
    }
  }

  lemma InternalPath(g: Graph, path: seq<nat>, source: nat, target: nat) returns (nodes: seq<nat>)
    requires WellFormed(g) && HasU64Ids(g.identity) && ExternalPath(g, path, source, target)
    requires InternalU64(g.identity, source).Some? && InternalU64(g.identity, target).Some?
    ensures |nodes| == |path|
    ensures Leads(OutRows(g), [InternalU64(g.identity, source).value], nodes, InternalU64(g.identity, target).value)
  {
    hide WellFormed, OutRows, ExternalU64, InternalU64;
    nodes :|
      && IsPath(OutRows(g), nodes) && |path| == |nodes|
      && (forall k :: 0 <= k < |nodes| ==> ExternalU64(g.identity, nodes[k]) == Some(path[k]))
      && path[0] == source && path[|path| - 1] == target;
    ExternalPathEnds(g, path, nodes, source, target);
  }

  /** The answer is the external form of the target's discovery path. */
  lemma AnswerPath(g: Graph, source: nat, target: nat) returns (i: nat)
    requires WellFormed(g) && HasU64Ids(g.identity) && Answer(g, source, target).Some?
    requires InternalU64(g.identity, source).Some? && InternalU64(g.identity, target).Some?
    ensures InternalU64(g.identity, source).value < g.nodeCount
    ensures var path, all := Answer(g, source, target).value,
            Bfs(OutRows(g), None, [InternalU64(g.identity, source).value]);
            && i < |all| && all[i].node == InternalU64(g.identity, target).value
            && |path| == all[i].depth + 1 && ExternalPath(g, path, source, target)
  {
    hide WellFormed, OutRows, ExternalU64, InternalU64, Answer, Bfs, Linked;
    AnswerFound(g, source, target);
    var s, t := InternalU64(g.identity, source).value, InternalU64(g.identity, target).value;
    var all := Bfs(OutRows(g), None, [s]);
    i := IndexOf(all, t);
    ChainIsPath(OutRows(g), 1, all, i);
    var nodes := Chain(1, all, i);
    assert nodes[0] == s;
    ExternalPathEnds(g, Answer(g, source, target).value, nodes, source, target);
  }
}

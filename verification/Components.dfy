/**
 * Weakly connected components: one breadth-first search after another over edges in
 * both directions, sharing the visited marks.
 */
module WeakComponents {
  import opened Wrappers
  import opened Sequences
  import opened CompressedRows
  import opened BreadthFirst
  import opened Graphs
  import opened Walks

  /** An undirected path joins the nodes. */
  ghost predicate Connected(g: Graph, u: nat, v: nat)
    requires WellFormed(g)
  {
    Reachable(Rows(g, Both), None, [u], v)
  }

  /** Undirected neighbours are joined by an edge one way or the other. */
  lemma UndirectedRows(g: Graph, u: nat, v: nat)
    requires WellFormed(g) && u < g.nodeCount && v < g.nodeCount
    ensures v in Rows(g, Both)[u] <==> v in OutRows(g)[u] || u in OutRows(g)[v]
  {
    hide WellFormed, OutRows, InRows, BothRows, OutgoingSlice, Incoming;
    RowsOpposite(g, v, u);
  }

  lemma ConnectedSymmetric(g: Graph, u: nat, v: nat)
    requires WellFormed(g) && Connected(g, u, v)
    ensures Connected(g, v, u)
  {
    hide WellFormed, Rows;
    var path: seq<nat> :| Leads(Rows(g, Both), [u], path, v);
    ReversedPath(g, path, Both);
    ReversedEnds(path);
    assert Leads(Rows(g, Both), [v], Reversed(path), u);
  }

  lemma ConnectedTransitive(g: Graph, u: nat, v: nat, w: nat)
    requires WellFormed(g) && Connected(g, u, v) && Connected(g, v, w)
    ensures Connected(g, u, w)
  {
    hide WellFormed, Rows;
    var adj := Rows(g, Both);
    var p: seq<nat> :| Leads(adj, [u], p, v);
    var q: seq<nat> :| Leads(adj, [v], q, w);
    var path := p + q[1..];
    forall i | 0 <= i < |path| - 1
      ensures path[i + 1] in adj[path[i]]
    {
      if i >= |p| - 1 {
        var k := i - |p| + 1;
        assert path[i] == q[k] && path[i + 1] == q[k + 1];
      }
    }
    assert Leads(adj, [u], path, w);
  }

  ghost function Component(g: Graph, v: nat): seq<nat>
    requires WellFormed(g) && v < g.nodeCount
  {
    NodesOf(Bfs(Rows(g, Both), None, [v]))
  }

  /** A search lists exactly the nodes connected to its start, each once, starting with the start. */
  lemma ComponentExact(g: Graph, v: nat)
    requires WellFormed(g) && v < g.nodeCount
    ensures var r := Component(g, v);
            && r != [] && r[0] == v
            && (forall w: nat :: w in r <==> Connected(g, v, w))
            && (forall i, j :: 0 <= i < j < |r| ==> r[i] != r[j])
            && (forall w: nat :: w in r <==> Seen(Bfs(Rows(g, Both), None, [v]), w))
            && (forall w: nat :: w in r ==> w < g.nodeCount)
  {
    hide WellFormed, Rows, Reachable, Layered, Processed, Bfs;
    var adj := Rows(g, Both);
    var all := Bfs(adj, None, [v]);
    BfsSound(adj, None, [v]);
    assert all[0].node == v by {
      PlantJust(v);
    }
    forall w: nat
      ensures w in NodesOf(all) <==> Seen(all, w)
      ensures Seen(all, w) <==> Connected(g, v, w)
    {
      BfsReaches(adj, None, [v], w);
      if w in NodesOf(all) {
        var i :| 0 <= i < |all| && NodesOf(all)[i] == w;
        assert all[i].node == w;
      }
    }
  }

  ghost predicate InSome(parts: seq<seq<nat>>, v: nat) {
    exists c :: 0 <= c < |parts| && v in parts[c]
  }

  lemma InSomeMore(parts: seq<seq<nat>>, part: seq<nat>, v: nat)
    ensures InSome(parts + [part], v) <==> InSome(parts, v) || v in part
  {
    var next := parts + [part];
    if InSome(parts, v) {
      var c :| 0 <= c < |parts| && v in parts[c];
      assert v in next[c];
    }
    if v in part {
      assert v in next[|parts|];
    }
  }

  lemma NotInSome(parts: seq<seq<nat>>, v: nat)
    requires !InSome(parts, v)
    ensures forall c :: 0 <= c < |parts| ==> v !in parts[c]
  {
  }

  /** The searches made so far: each from a node that none before it found. */
  ghost predicate Found(g: Graph, parts: seq<seq<nat>>, start: nat)
    requires WellFormed(g)
  {
    && (forall c :: 0 <= c < |parts| ==>
          parts[c] != [] && parts[c][0] < start <= g.nodeCount && parts[c] == Component(g, parts[c][0]))
    && (forall b, c :: 0 <= b < c < |parts| ==> parts[b][0] < parts[c][0] && parts[c][0] !in parts[b])
    && (forall v :: 0 <= v < start ==> InSome(parts, v))
  }

  /** `done` lists the nodes of all parts, and no edge leads into it. */
  ghost predicate Finished(g: Graph, parts: seq<seq<nat>>, done: seq<Entry>)
    requires WellFormed(g)
  {
    && NoWayIn(Rows(g, Both), done)
    && forall v: nat :: Seen(done, v) <==> InSome(parts, v)
  }

  lemma FinishedNoWayIn(g: Graph, parts: seq<seq<nat>>, done: seq<Entry>)
    requires WellFormed(g) && Finished(g, parts, done)
    ensures NoWayIn(Rows(g, Both), done)
  {
  }

  lemma FoundSkip(g: Graph, parts: seq<seq<nat>>, start: nat)
    requires WellFormed(g) && Found(g, parts, start) && start < g.nodeCount
    requires InSome(parts, start)
    ensures Found(g, parts, start + 1)
  {
    hide Component, WellFormed, InSome;
  }

  lemma FoundMore(g: Graph, parts: seq<seq<nat>>, start: nat)
    requires WellFormed(g) && Found(g, parts, start) && start < g.nodeCount
    requires !InSome(parts, start)
    ensures Found(g, parts + [Component(g, start)], start + 1)
  {
    hide Component, WellFormed, InSome;
    var next := parts + [Component(g, start)];
    assert Component(g, start) != [] && Component(g, start)[0] == start && start in Component(g, start) by {
      ComponentExact(g, start);
    }
    NotInSome(parts, start);
    forall v | 0 <= v < start + 1
      ensures InSome(next, v)
    {
      InSomeMore(parts, Component(g, start), v);
    }
  }

  lemma BfsClosed(adj: Adjacency, v: nat, u: nat, k: nat)
    requires v < |adj| && u < |adj| && k < |adj[u]| && Seen(Bfs(adj, None, [v]), u)
    ensures Seen(Bfs(adj, None, [v]), adj[u][k])
  {
    hide Bfs, Tree, Layered, Plant;
    var all := Bfs(adj, None, [v]);
    BfsSound(adj, None, [v]);
    TreeProper(adj, |Plant([], [v])|, all);
    var i :| 0 <= i < |all| && all[i].node == u;
    assert KnownWithin(all, adj[all[i].node][k], all[i].depth + 1);
  }

  lemma NoWayInMore(g: Graph, done: seq<Entry>, start: nat)
    requires WellFormed(g) && start < g.nodeCount && NoWayIn(Rows(g, Both), done)
    ensures NoWayIn(Rows(g, Both), done + Bfs(Rows(g, Both), None, [start]))
  {
    hide WellFormed, Rows, Bfs, Seen;
    var adj := Rows(g, Both);
    var es := Bfs(adj, None, [start]);
    forall u, k | 0 <= u < |adj| && 0 <= k < |adj[u]| && !Seen(done + es, u)
      ensures !Seen(done + es, adj[u][k])
    {
      var v := adj[u][k];
      SeenEither(done, es, u);
      SeenEither(done, es, v);
      RowsOppose(g, Both, u, v);
      var j :| 0 <= j < |adj[v]| && adj[v][j] == u;
      if Seen(es, v) {
        BfsClosed(adj, start, v, j);
      }
    }
  }

  lemma SeenEither(done: seq<Entry>, es: seq<Entry>, v: nat)
    ensures Seen(done + es, v) <==> Seen(done, v) || Seen(es, v)
  {
    var all := done + es;
    if Seen(done, v) {
      var i :| 0 <= i < |done| && done[i].node == v;
      assert all[i].node == v;
    }
    if Seen(es, v) {
      var i :| 0 <= i < |es| && es[i].node == v;
      assert all[|done| + i].node == v;
    }
    if Seen(all, v) {
      var i :| 0 <= i < |all| && all[i].node == v;
      assert if i < |done| then done[i].node == v else es[i - |done|].node == v;
    }
  }

  lemma FinishedMore(g: Graph, parts: seq<seq<nat>>, done: seq<Entry>, start: nat)
    requires WellFormed(g) && start < g.nodeCount && Finished(g, parts, done)
    ensures Finished(g, parts + [Component(g, start)], done + Bfs(Rows(g, Both), None, [start]))
  {
    NoWayInMore(g, done, start);
    hide WellFormed, Connected, NoWayIn, Seen, Bfs, Rows, InSome;
    NoWayInMore(g, done, start);
    ComponentExact(g, start);
    var es := Bfs(Rows(g, Both), None, [start]);
    forall v: nat
      ensures Seen(done + es, v) <==> InSome(parts + [Component(g, start)], v)
    {
      SeenEither(done, es, v);
      InSomeMore(parts, Component(g, start), v);
    }
  }

  method WeaklyConnectedComponents(g: Graph) returns (parts: seq<seq<nat>>)
    requires WellFormed(g)
    ensures Found(g, parts, g.nodeCount)
  {
    hide WellFormed, Rows, Bfs, NodesOf, Run, Seen, MarksBoth, Found, Finished, NoWayIn, Outside, Proper, InSome;
    var visited := new U32[g.nodeCount](_ => 0);
    parts := [];
    ghost var done: seq<Entry> := [];
    NothingFound(g, visited[..]);
    var start: nat := 0;
    while start < g.nodeCount
      invariant start <= g.nodeCount && Found(g, parts, start) && Finished(g, parts, done)
      invariant MarksBoth(visited[..], 1, done, [])
      invariant forall v :: 0 <= v < visited.Length ==> visited[v] == 0 || visited[v] == 1
    {
      StartKnown(g, parts, done, visited[..], start);
      if visited[start] != 0 {
        FoundSkip(g, parts, start);
      } else {
        ghost var stamps: seq<nat> := visited[..];
        visited[start] := 1;
        assert visited[..] == stamps[start := 1];
        StartOne(Rows(g, Both), done, stamps, start);
        FinishedNoWayIn(g, parts, done);
        var frontier := Explore(g, Both, visited, 1, [start], done, [Seed(start, 0)]);
        FoundMore(g, parts, start);
        FinishedMore(g, parts, done, start);
        parts := parts + [frontier];
        MarksMerge(visited[..], 1, done, Bfs(Rows(g, Both), None, [start]));
        done := done + Bfs(Rows(g, Both), None, [start]);
      }
      start := start + 1;
    }
  }

  lemma NothingFound(g: Graph, visited: seq<nat>)
    requires WellFormed(g) && forall v :: 0 <= v < |visited| ==> visited[v] == 0
    ensures Found(g, [], 0) && Finished(g, [], []) && MarksBoth(visited, 1, [], [])
  {
    hide WellFormed, Rows;
  }

  /** A marked node lies in one of the parts, an unmarked one in none. */
  lemma StartKnown(g: Graph, parts: seq<seq<nat>>, done: seq<Entry>, visited: seq<nat>, start: nat)
    requires WellFormed(g) && Finished(g, parts, done) && MarksBoth(visited, 1, done, []) && start < |visited|
    ensures visited[start] == 1 <==> InSome(parts, start)
  {
    assert !Seen([], start);
  }

  /** A new search starts outside everything found before. */
  lemma StartOne(adj: Adjacency, done: seq<Entry>, visited: seq<nat>, start: nat)
    requires start < |visited| == |adj| && MarksBoth(visited, 1, done, []) && visited[start] != 1
    ensures var es := [Seed(start, 0)];
            && MarksBoth(visited[start := 1], 1, done, es) && Outside(done, es)
            && Proper(adj, es) && NodesOf(es) == [start]
            && Bfs(adj, None, [start]) == Run(adj, None, es, 0)
  {
    BfsFromOne(adj, None, start);
    assert [] + [Seed(start, 0)] == [Seed(start, 0)];
    MarksBothMore(visited, 1, done, [], Seed(start, 0));
    assert !Seen(done, start);
  }

  lemma MarksMerge(visited: seq<nat>, mark: nat, done: seq<Entry>, es: seq<Entry>)
    requires MarksBoth(visited, mark, done, es)
    ensures MarksBoth(visited, mark, done + es, [])
  {
    forall v | 0 <= v < |visited|
      ensures visited[v] == mark <==> Seen(done + es, v) || Seen([], v)
    {
      SeenEither(done, es, v);
    }
  }

  /** The parts partition the nodes, and two nodes share a part exactly when an undirected path joins them. */
  lemma ComponentsPartition(g: Graph, parts: seq<seq<nat>>, u: nat, v: nat)
    requires WellFormed(g) && Found(g, parts, g.nodeCount) && u < g.nodeCount && v < g.nodeCount
    ensures exists c :: 0 <= c < |parts| && u in parts[c]
    ensures forall b, c :: 0 <= b < c < |parts| && u in parts[b] ==> u !in parts[c]
    ensures forall c, i, j :: 0 <= c < |parts| && 0 <= i < j < |parts[c]| ==> parts[c][i] != parts[c][j]
    ensures (exists c :: 0 <= c < |parts| && u in parts[c] && v in parts[c]) <==> Connected(g, u, v)
  {
    hide WellFormed, Connected, Component;
    assert InSome(parts, u);
    forall b, c | 0 <= b < c < |parts| && u in parts[b]
      ensures u !in parts[c]
    {
      PartsDisjoint(g, parts, b, c, u);
    }
    forall c, i, j | 0 <= c < |parts| && 0 <= i < j < |parts[c]|
      ensures parts[c][i] != parts[c][j]
    {
      ComponentExact(g, parts[c][0]);
    }
    if c :| 0 <= c < |parts| && u in parts[c] && v in parts[c] {
      PartExact(g, parts, c, u, v);
    }
    if Connected(g, u, v) {
      var c :| 0 <= c < |parts| && u in parts[c];
      PartExact(g, parts, c, u, v);
    }
  }

  lemma PartExact(g: Graph, parts: seq<seq<nat>>, c: nat, u: nat, v: nat)
    requires WellFormed(g) && Found(g, parts, g.nodeCount) && c < |parts| && u in parts[c]
    ensures v in parts[c] <==> Connected(g, u, v)
  {
    hide WellFormed, Connected, Component;
    ComponentExact(g, parts[c][0]);
    ConnectedSymmetric(g, parts[c][0], u);
    if v in parts[c] {
      ConnectedTransitive(g, u, parts[c][0], v);
    }
    if Connected(g, u, v) {
      ConnectedTransitive(g, parts[c][0], u, v);
    }
  }

  lemma PartsDisjoint(g: Graph, parts: seq<seq<nat>>, b: nat, c: nat, u: nat)
    requires WellFormed(g) && Found(g, parts, g.nodeCount) && b < c < |parts| && u in parts[b]
    ensures u !in parts[c]
  {
    hide WellFormed, Connected, Component;
    if u in parts[c] {
      ComponentExact(g, parts[b][0]);
      ComponentExact(g, parts[c][0]);
      ConnectedSymmetric(g, parts[c][0], u);
      ConnectedTransitive(g, parts[b][0], u, parts[c][0]);
    }
  }
}

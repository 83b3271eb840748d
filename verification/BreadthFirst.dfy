/**
 * Breadth-first discovery as a function: the list of discovered nodes, each with
 * the entry that discovered it and its depth. Distances, paths and reachability
 * are proved about this function; the graph's loops are proved to compute it.
 */
module BreadthFirst {
  import opened Wrappers

  /** Neighbour lists by node id. */
  ghost predicate InRange(adj: seq<seq<nat>>) {
    forall v, k :: 0 <= v < |adj| && 0 <= k < |adj[v]| ==> adj[v][k] < |adj|
  }

  type Adjacency = adj: seq<seq<nat>> | InRange(adj) witness []

  /** A discovered node; `from` is the index of the entry that discovered it. */
  datatype Entry = Entry(node: nat, from: nat, depth: nat)

  function NodesOf(es: seq<Entry>): (r: seq<nat>)
    ensures |r| == |es| && forall i :: 0 <= i < |es| ==> r[i] == es[i].node
  {
    if es == [] then [] else NodesOf(es[..|es| - 1]) + [es[|es| - 1].node]
  }

  ghost predicate Seen(es: seq<Entry>, v: nat) {
    exists i :: 0 <= i < |es| && es[i].node == v
  }

  ghost predicate Distinct(es: seq<Entry>) {
    forall i, j :: 0 <= i < j < |es| ==> es[i].node != es[j].node
  }

  ghost predicate Proper(adj: Adjacency, es: seq<Entry>) {
    Distinct(es) && forall i :: 0 <= i < |es| ==> es[i].node < |adj|
  }

  /** A seed: discovered by itself, at depth 0. */
  function Seed(v: nat, i: nat): Entry { Entry(v, i, 0) }

  /** One more neighbour of entry `h`, unless it is known. */
  ghost function Discover(es: seq<Entry>, h: nat, v: nat): seq<Entry>
    requires h < |es|
  {
    if Seen(es, v) then es else es + [Entry(v, h, es[h].depth + 1)]
  }

  ghost function DiscoverAll(es: seq<Entry>, h: nat, vs: seq<nat>): (r: seq<Entry>)
    requires h < |es|
    ensures es <= r
    decreases |vs|
  {
    if vs == [] then es else DiscoverAll(Discover(es, h, vs[0]), h, vs[1..])
  }

  ghost predicate Expands(bound: Option<nat>, depth: nat) {
    bound.Some? ==> depth < bound.value
  }

  ghost function Expand(adj: Adjacency, bound: Option<nat>, es: seq<Entry>, h: nat): (r: seq<Entry>)
    requires h < |es| && Proper(adj, es)
    ensures es <= r
  {
    if Expands(bound, es[h].depth) then DiscoverAll(es, h, adj[es[h].node]) else es
  }

  // ---------------------------------------------------------------------------
  // There are no more entries than nodes.

  lemma {:induction false} DistinctBound(s: seq<nat>, n: nat)
    requires forall i :: 0 <= i < |s| ==> s[i] < n
    requires forall i, j :: 0 <= i < j < |s| ==> s[i] != s[j]
    ensures |s| <= n
  {
    if s == [] {
      return;
    }
    assert s[0] < n;
    if i :| 0 <= i < |s| && s[i] == n - 1 {
      var rest := s[..i] + s[i + 1..];
      forall k | 0 <= k < |rest|
        ensures rest[k] < n - 1
      {
        assert rest[k] == s[if k < i then k else k + 1];
      }
      forall a, b | 0 <= a < b < |rest|
        ensures rest[a] != rest[b]
      {
        assert rest[a] == s[if a < i then a else a + 1] && rest[b] == s[if b < i then b else b + 1];
      }
      DistinctBound(rest, n - 1);
    } else {
      DistinctBound(s, n - 1);
    }
  }

  lemma ProperBound(adj: Adjacency, es: seq<Entry>)
    requires Proper(adj, es)
    ensures |es| <= |adj|
  {
    DistinctBound(NodesOf(es), |adj|);
  }

  lemma DiscoverProper(adj: Adjacency, es: seq<Entry>, h: nat, v: nat)
    requires h < |es| && Proper(adj, es) && v < |adj|
    ensures Proper(adj, Discover(es, h, v))
  {
    if !Seen(es, v) {
      var next := Discover(es, h, v);
      forall i, j | 0 <= i < j < |next|
        ensures next[i].node != next[j].node
      {
        if j == |es| {
          assert next[i] == es[i];
        }
      }
    }
  }

  lemma {:induction false} DiscoverAllProper(adj: Adjacency, es: seq<Entry>, h: nat, vs: seq<nat>)
    requires h < |es| && Proper(adj, es) && forall k :: 0 <= k < |vs| ==> vs[k] < |adj|
    ensures Proper(adj, DiscoverAll(es, h, vs))
    decreases |vs|
  {
    if vs != [] {
      DiscoverProper(adj, es, h, vs[0]);
      DiscoverAllProper(adj, Discover(es, h, vs[0]), h, vs[1..]);
    }
  }

  lemma ExpandProper(adj: Adjacency, bound: Option<nat>, es: seq<Entry>, h: nat)
    requires h < |es| && Proper(adj, es)
    ensures Proper(adj, Expand(adj, bound, es, h))
  {
    if Expands(bound, es[h].depth) {
      DiscoverAllProper(adj, es, h, adj[es[h].node]);
    }
  }

  lemma ExpandRow(adj: Adjacency, bound: Option<nat>, es: seq<Entry>, h: nat)
    requires h < |es| && Proper(adj, es)
    ensures Expands(bound, es[h].depth) ==> Expand(adj, bound, es, h) == DiscoverAll(es, h, adj[es[h].node])
    ensures !Expands(bound, es[h].depth) ==> Expand(adj, bound, es, h) == es
  {
  }

  /** Everything discovered by processing the entries from index `h` on. */
  ghost function Run(adj: Adjacency, bound: Option<nat>, es: seq<Entry>, h: nat): (r: seq<Entry>)
    requires Proper(adj, es)
    ensures es <= r && Proper(adj, r)
    decreases |adj| - h
  {
    if h >= |es| then es else
    ProperBound(adj, es);
    ExpandProper(adj, bound, es, h);
    Run(adj, bound, Expand(adj, bound, es, h), h + 1)
  }

  lemma RunEnds(adj: Adjacency, bound: Option<nat>, es: seq<Entry>, h: nat)
    requires Proper(adj, es) && h >= |es|
    ensures Run(adj, bound, es, h) == es
  {
  }

  // ---------------------------------------------------------------------------
  // The shape of a run.

  /** Entry `i` is a neighbour of the earlier entry that discovered it, one deeper. */
  ghost predicate Linked(adj: Adjacency, es: seq<Entry>, i: nat)
    requires i < |es|
  {
    && es[i].from < i && es[i].depth == es[es[i].from].depth + 1
    && es[es[i].from].node < |adj| && es[i].node in adj[es[es[i].from].node]
  }

  /** `s` seeds first; every other entry is a neighbour of the entry that discovered it. */
  ghost predicate Tree(adj: Adjacency, s: nat, es: seq<Entry>) {
    && s <= |es| && Proper(adj, es)
    && (forall i :: 0 <= i < s ==> es[i].depth == 0)
    && (forall i :: s <= i < |es| ==> Linked(adj, es, i))
  }

  /** Depths never decrease, and entries behind `h` are at most one deeper. */
  ghost predicate Layered(es: seq<Entry>, h: nat) {
    && (forall i, j :: 0 <= i < j < |es| ==> es[i].depth <= es[j].depth)
    && (h < |es| ==> forall i :: 0 <= i < |es| ==> es[i].depth <= es[h].depth + 1)
  }

  ghost predicate KnownWithin(es: seq<Entry>, v: nat, d: nat) {
    exists j :: 0 <= j < |es| && es[j].node == v && es[j].depth <= d
  }

  /** All neighbours of the processed entries are known, at most one deeper. */
  ghost predicate Processed(adj: Adjacency, bound: Option<nat>, es: seq<Entry>, h: nat)
    requires Proper(adj, es)
  {
    forall i, k :: 0 <= i < h && i < |es| && Expands(bound, es[i].depth) && 0 <= k < |adj[es[i].node]| ==>
      KnownWithin(es, adj[es[i].node][k], es[i].depth + 1)
  }

  ghost predicate Sound(adj: Adjacency, bound: Option<nat>, s: nat, es: seq<Entry>, h: nat) {
    Tree(adj, s, es) && Layered(es, h) && Processed(adj, bound, es, h)
  }

  lemma TreeMore(adj: Adjacency, s: nat, es: seq<Entry>, h: nat, v: nat)
    requires Tree(adj, s, es) && h < |es| && es[h].node < |adj| && v in adj[es[h].node] && !Seen(es, v)
    requires v < |adj|
    ensures Tree(adj, s, es + [Entry(v, h, es[h].depth + 1)])
  {
    hide Distinct;
    DiscoverProper(adj, es, h, v);
    var next := es + [Entry(v, h, es[h].depth + 1)];
    forall i | s <= i < |next|
      ensures Linked(adj, next, i)
    {
      if i < |es| {
        assert Linked(adj, es, i);
        assert next[i] == es[i] && next[es[i].from] == es[es[i].from];
      } else {
        assert next[h] == es[h];
      }
    }
  }

  lemma LayeredMore(es: seq<Entry>, h: nat, v: nat)
    requires Layered(es, h) && h < |es|
    ensures Layered(es + [Entry(v, h, es[h].depth + 1)], h)
  {
  }

  lemma DiscoverTree(adj: Adjacency, s: nat, es: seq<Entry>, h: nat, v: nat)
    requires Tree(adj, s, es) && Layered(es, h) && h < |es| && es[h].node < |adj| && v in adj[es[h].node]
    ensures Tree(adj, s, Discover(es, h, v)) && Layered(Discover(es, h, v), h)
    ensures KnownWithin(Discover(es, h, v), v, es[h].depth + 1)
  {
    hide Tree, Proper;
    if Seen(es, v) {
      var j :| 0 <= j < |es| && es[j].node == v;
      assert es[j].depth <= es[h].depth + 1;
    } else {
      var k :| 0 <= k < |adj[es[h].node]| && adj[es[h].node][k] == v;
      TreeMore(adj, s, es, h, v);
      LayeredMore(es, h, v);
      assert Discover(es, h, v)[|es|].node == v;
    }
  }

  lemma KnownGrows(es: seq<Entry>, more: seq<Entry>, v: nat, d: nat)
    requires es <= more && KnownWithin(es, v, d)
    ensures KnownWithin(more, v, d)
  {
    var j :| 0 <= j < |es| && es[j].node == v && es[j].depth <= d;
    assert more[j] == es[j];
  }

  lemma DiscoverKeeps(es: seq<Entry>, h: nat, v: nat)
    requires h < |es|
    ensures es <= Discover(es, h, v) && Discover(es, h, v)[h] == es[h]
  {
  }

  lemma {:induction false} DiscoverAllTree(adj: Adjacency, s: nat, es: seq<Entry>, h: nat, vs: seq<nat>)
    requires Tree(adj, s, es) && Layered(es, h) && h < |es| && es[h].node < |adj|
    requires forall k :: 0 <= k < |vs| ==> vs[k] in adj[es[h].node]
    ensures var r := DiscoverAll(es, h, vs);
            Tree(adj, s, r) && Layered(r, h) &&
            forall k :: 0 <= k < |vs| ==> KnownWithin(r, vs[k], es[h].depth + 1)
    decreases |vs|
  {
    hide Tree, Layered, KnownWithin, Discover;
    TreeProper(adj, s, es);
    if vs != [] {
      DiscoverKeeps(es, h, vs[0]);
      assert vs[0] in adj[es[h].node];
      var next := Discover(es, h, vs[0]);
      DiscoverTree(adj, s, es, h, vs[0]);
      DiscoverAllTree(adj, s, next, h, vs[1..]);
      KnownGrows(next, DiscoverAll(es, h, vs), vs[0], es[h].depth + 1);
      forall k | 0 <= k < |vs|
        ensures KnownWithin(DiscoverAll(es, h, vs), vs[k], es[h].depth + 1)
      {
        if k > 0 { assert vs[k] == vs[1..][k - 1]; }
      }
    }
  }

  lemma ProcessedGrows(adj: Adjacency, bound: Option<nat>, es: seq<Entry>, h: nat, more: seq<Entry>)
    requires Proper(adj, es) && Proper(adj, more) && Processed(adj, bound, es, h) && es <= more && h < |es|
    requires Expands(bound, es[h].depth) ==>
               forall k :: 0 <= k < |adj[es[h].node]| ==> KnownWithin(more, adj[es[h].node][k], es[h].depth + 1)
    ensures Processed(adj, bound, more, h + 1)
  {
    forall i, k | 0 <= i < h + 1 && i < |more| && Expands(bound, more[i].depth) && 0 <= k < |adj[more[i].node]|
      ensures KnownWithin(more, adj[more[i].node][k], more[i].depth + 1)
    {
      assert more[i] == es[i];
      if i < h {
        KnownGrows(es, more, adj[es[i].node][k], es[i].depth + 1);
      }
    }
  }

  lemma ExpandSound(adj: Adjacency, bound: Option<nat>, s: nat, es: seq<Entry>, h: nat)
    requires Sound(adj, bound, s, es, h) && h < |es|
    ensures Sound(adj, bound, s, Expand(adj, bound, es, h), h + 1)
  {
    hide Layered, Processed, Proper, DiscoverAll;
    assert Proper(adj, es) by { TreeProper(adj, s, es); }
    ExpandProper(adj, bound, es, h);
    var more := Expand(adj, bound, es, h);
    if Expands(bound, es[h].depth) {
      DiscoverAllTree(adj, s, es, h, adj[es[h].node]);
    }
    ProcessedGrows(adj, bound, es, h, more);
    LayeredNext(more, h);
  }

  lemma TreeProper(adj: Adjacency, s: nat, es: seq<Entry>)
    requires Tree(adj, s, es)
    ensures Proper(adj, es)
  {
  }

  lemma LayeredNext(es: seq<Entry>, h: nat)
    requires Layered(es, h) && h < |es|
    ensures Layered(es, h + 1)
  {
  }

  lemma LayeredEnd(es: seq<Entry>, h: nat)
    requires Layered(es, h) && h >= |es|
    ensures Layered(es, |es|)
  {
  }

  lemma {:induction false} RunSound(adj: Adjacency, bound: Option<nat>, s: nat, es: seq<Entry>, h: nat)
    requires Sound(adj, bound, s, es, h)
    ensures var r := Run(adj, bound, es, h); Sound(adj, bound, s, r, |r|)
    decreases |adj| - h
  {
    hide Layered, Tree, Expand;
    TreeProper(adj, s, es);
    if h < |es| {
      ProperBound(adj, es);
      ExpandProper(adj, bound, es, h);
      ExpandSound(adj, bound, s, es, h);
      RunSound(adj, bound, s, Expand(adj, bound, es, h), h + 1);
    } else {
      LayeredEnd(es, h);
    }
  }

  // ---------------------------------------------------------------------------
  // Paths and distances.

  /** A directed path: node after node along edges. */
  ghost predicate IsPath(adj: Adjacency, path: seq<nat>) {
    && path != []
    && (forall i :: 0 <= i < |path| ==> path[i] < |adj|)
    && (forall i :: 0 <= i < |path| - 1 ==> path[i + 1] in adj[path[i]])
  }

  lemma PathNonEmpty(adj: Adjacency, path: seq<nat>)
    requires IsPath(adj, path)
    ensures |path| >= 1
  {
  }

  /** The discovery path of an entry, seed first. */
  ghost function Chain(s: nat, es: seq<Entry>, i: nat): (path: seq<nat>)
    requires i < |es|
    decreases i
  {
    if i < s || es[i].from >= i then [es[i].node] else Chain(s, es, es[i].from) + [es[i].node]
  }

  lemma {:induction false} ChainIsPath(adj: Adjacency, s: nat, es: seq<Entry>, i: nat)
    requires Tree(adj, s, es) && i < |es|
    ensures var path := Chain(s, es, i);
            && IsPath(adj, path) && |path| == es[i].depth + 1 && path[|path| - 1] == es[i].node
            && exists k :: 0 <= k < s && es[k].node == path[0]
    decreases i
  {
    if i < s {
      assert es[i].node == Chain(s, es, i)[0];
    } else {
      assert Linked(adj, es, i);
      ChainIsPath(adj, s, es, es[i].from);
      var prefix := Chain(s, es, es[i].from);
      var path := Chain(s, es, i);
      assert path == prefix + [es[i].node];
      forall k | 0 <= k < |path| - 1
        ensures path[k + 1] in adj[path[k]]
      {
        if k < |prefix| - 1 {
          assert path[k + 1] == prefix[k + 1] && path[k] == prefix[k];
        }
      }
    }
  }

  lemma {:induction false} ChainPrefix(s: nat, es: seq<Entry>, more: seq<Entry>, i: nat)
    requires es <= more && i < |es|
    ensures Chain(s, es, i) == Chain(s, more, i)
    decreases i
  {
    assert es[i] == more[i];
    if !(i < s || es[i].from >= i) {
      ChainPrefix(s, es, more, es[i].from);
    }
  }

  /**
   * While all entries shallower than `limit` have been processed, the end of every
   * path from a seed with at most `limit` edges is known, no deeper than the path.
   */
  lemma {:induction false} Covers(adj: Adjacency, bound: Option<nat>, s: nat, es: seq<Entry>, h: nat, limit: nat,
                                  path: seq<nat>)
    requires Sound(adj, bound, s, es, h) && IsPath(adj, path) && |path| - 1 <= limit
    requires exists k :: 0 <= k < s && es[k].node == path[0]
    requires forall i :: 0 <= i < |es| && es[i].depth < limit ==> i < h && Expands(bound, es[i].depth)
    ensures KnownWithin(es, path[|path| - 1], |path| - 1)
    decreases |path|
  {
    if |path| == 1 {
      var k :| 0 <= k < s && es[k].node == path[0];
      assert es[k].depth == 0;
    } else {
      hide Layered;
      var prefix := path[..|path| - 1];
      assert IsPath(adj, prefix) && prefix[0] == path[0];
      Covers(adj, bound, s, es, h, limit, prefix);
      StepCovered(adj, bound, es, h, prefix[|prefix| - 1], path[|path| - 1], |prefix| - 1);
    }
  }

  /** One more edge from a known node leads to a known node, when all such nodes are processed. */
  lemma StepCovered(adj: Adjacency, bound: Option<nat>, es: seq<Entry>, h: nat, u: nat, v: nat, d: nat)
    requires Proper(adj, es) && Processed(adj, bound, es, h)
    requires KnownWithin(es, u, d) && u < |adj| && v in adj[u]
    requires forall i :: 0 <= i < |es| && es[i].depth <= d ==> i < h && Expands(bound, es[i].depth)
    ensures KnownWithin(es, v, d + 1)
  {
    var j :| 0 <= j < |es| && es[j].node == u && es[j].depth <= d;
    var k :| 0 <= k < |adj[u]| && adj[u][k] == v;
    assert KnownWithin(es, adj[es[j].node][k], es[j].depth + 1);
    var t :| 0 <= t < |es| && es[t].node == v && es[t].depth <= es[j].depth + 1;
  }

  /** A path from a seed is at least as long as the depth of its end. */
  lemma NotShorter(adj: Adjacency, bound: Option<nat>, s: nat, es: seq<Entry>, h: nat, i: nat, path: seq<nat>)
    requires Sound(adj, bound, s, es, h) && i < |es|
    requires forall j :: 0 <= j < |es| && es[j].depth < es[i].depth - 1 ==> j < h && Expands(bound, es[j].depth)
    requires IsPath(adj, path) && path[|path| - 1] == es[i].node
    requires exists k :: 0 <= k < s && es[k].node == path[0]
    ensures |path| - 1 >= es[i].depth
  {
    hide Layered, Processed, Linked;
    if |path| - 1 < es[i].depth {
      Covers(adj, bound, s, es, h, es[i].depth - 1, path);
      var j :| 0 <= j < |es| && es[j].node == path[|path| - 1] && es[j].depth <= |path| - 1;
    }
  }

  // ---------------------------------------------------------------------------
  // A search from a list of seeds.

  /** Seeds are entered once each, in order of first appearance. */
  ghost function Plant(es: seq<Entry>, seeds: seq<nat>): (r: seq<Entry>)
    ensures es <= r
    decreases |seeds|
  {
    if seeds == [] then es
    else Plant(if Seen(es, seeds[0]) then es else es + [Seed(seeds[0], |es|)], seeds[1..])
  }

  ghost predicate Planted(adj: Adjacency, es: seq<Entry>) {
    Proper(adj, es) && forall i :: 0 <= i < |es| ==> es[i].depth == 0
  }

  lemma PlantNothing(adj: Adjacency)
    ensures Planted(adj, [])
  {
  }

  lemma PlantedProper(adj: Adjacency, es: seq<Entry>)
    requires Planted(adj, es)
    ensures Proper(adj, es)
  {
  }

  lemma PlantOne(adj: Adjacency, es: seq<Entry>, seed: nat)
    requires Planted(adj, es) && seed < |adj|
    ensures var r := if Seen(es, seed) then es else es + [Seed(seed, |es|)];
            Planted(adj, r) && forall v :: Seen(r, v) <==> Seen(es, v) || v == seed
  {
    if !Seen(es, seed) {
      var r := es + [Seed(seed, |es|)];
      assert r[|es|].node == seed;
      forall v | Seen(es, v)
        ensures Seen(r, v)
      {
        var i :| 0 <= i < |es| && es[i].node == v;
        assert r[i].node == v;
      }
    }
  }

  lemma {:induction false} PlantSeeds(adj: Adjacency, es: seq<Entry>, seeds: seq<nat>)
    requires Planted(adj, es) && forall k :: 0 <= k < |seeds| ==> seeds[k] < |adj|
    ensures var r := Plant(es, seeds);
            Planted(adj, r) && forall v :: Seen(r, v) <==> Seen(es, v) || v in seeds
    decreases |seeds|
  {
    hide Planted, Seen;
    if seeds != [] {
      PlantOne(adj, es, seeds[0]);
      PlantSeeds(adj, if Seen(es, seeds[0]) then es else es + [Seed(seeds[0], |es|)], seeds[1..]);
      assert seeds == [seeds[0]] + seeds[1..];
    } else {
      assert Plant(es, seeds) == es;
    }
  }

  /** Breadth-first search from `seeds`, at most `bound` edges deep. */
  ghost function Bfs(adj: Adjacency, bound: Option<nat>, seeds: seq<nat>): (r: seq<Entry>)
    requires forall k :: 0 <= k < |seeds| ==> seeds[k] < |adj|
  {
    PlantSeeds(adj, [], seeds);
    Run(adj, bound, Plant([], seeds), 0)
  }

  lemma BfsSound(adj: Adjacency, bound: Option<nat>, seeds: seq<nat>)
    requires forall k :: 0 <= k < |seeds| ==> seeds[k] < |adj|
    ensures var r := Bfs(adj, bound, seeds); var s := |Plant([], seeds)|;
            && Plant([], seeds) <= r && Sound(adj, bound, s, r, |r|)
            && forall v :: v in seeds <==> exists k :: 0 <= k < s && r[k].node == v
  {
    hide Processed, Run, Plant, Linked;
    PlantNothing(adj);
    PlantSeeds(adj, [], seeds);
    var es := Plant([], seeds);
    PlantedSound(adj, bound, es);
    RunSound(adj, bound, |es|, es, 0);
    var r := Bfs(adj, bound, seeds);
    SeenPrefix(es, r);
    assert forall v :: !Seen([], v);
  }

  lemma PlantedSound(adj: Adjacency, bound: Option<nat>, es: seq<Entry>)
    requires Planted(adj, es)
    ensures Sound(adj, bound, |es|, es, 0)
  {
  }

  lemma SeenPrefix(es: seq<Entry>, r: seq<Entry>)
    requires es <= r
    ensures forall v :: Seen(es, v) <==> exists k :: 0 <= k < |es| && r[k].node == v
  {
    forall v
      ensures Seen(es, v) <==> exists k :: 0 <= k < |es| && r[k].node == v
    {
      if Seen(es, v) {
        var k :| 0 <= k < |es| && es[k].node == v;
        assert r[k].node == v;
      }
      if k :| 0 <= k < |es| && r[k].node == v {
        assert es[k].node == v;
      }
    }
  }

  ghost predicate Bounded(bound: Option<nat>, es: seq<Entry>) {
    bound.Some? ==> forall i :: 0 <= i < |es| ==> es[i].depth <= bound.value
  }

  lemma {:induction false} DiscoverAllBounded(bound: Option<nat>, es: seq<Entry>, h: nat, vs: seq<nat>)
    requires h < |es| && Bounded(bound, es) && Expands(bound, es[h].depth)
    ensures Bounded(bound, DiscoverAll(es, h, vs))
    decreases |vs|
  {
    if vs != [] {
      DiscoverAllBounded(bound, Discover(es, h, vs[0]), h, vs[1..]);
    }
  }

  lemma {:induction false} RunBounded(adj: Adjacency, bound: Option<nat>, es: seq<Entry>, h: nat)
    requires Proper(adj, es) && Bounded(bound, es)
    ensures Bounded(bound, Run(adj, bound, es, h))
    decreases |adj| - h
  {
    if h < |es| {
      ProperBound(adj, es);
      ExpandProper(adj, bound, es, h);
      if Expands(bound, es[h].depth) {
        DiscoverAllBounded(bound, es, h, adj[es[h].node]);
      }
      RunBounded(adj, bound, Expand(adj, bound, es, h), h + 1);
    }
  }

  /** A path from one of the seeds to `v`. */
  ghost predicate Leads(adj: Adjacency, seeds: seq<nat>, path: seq<nat>, v: nat) {
    IsPath(adj, path) && path[0] in seeds && path[|path| - 1] == v
  }

  /** `v` can be reached from a seed along at most `bound` edges. */
  ghost predicate Reachable(adj: Adjacency, bound: Option<nat>, seeds: seq<nat>, v: nat) {
    exists path :: Leads(adj, seeds, path, v) && (bound.Some? ==> |path| - 1 <= bound.value)
  }

  /** `d` is the least number of edges on a path from a seed to `v`. */
  ghost predicate IsDistance(adj: Adjacency, seeds: seq<nat>, v: nat, d: nat) {
    && (exists path :: Leads(adj, seeds, path, v) && |path| == d + 1)
    && (forall path :: Leads(adj, seeds, path, v) ==> |path| >= d + 1)
  }

  lemma BfsBounded(adj: Adjacency, bound: Option<nat>, seeds: seq<nat>)
    requires forall k :: 0 <= k < |seeds| ==> seeds[k] < |adj|
    ensures Bounded(bound, Bfs(adj, bound, seeds))
  {
    PlantSeeds(adj, [], seeds);
    RunBounded(adj, bound, Plant([], seeds), 0);
  }

  /** The depth of every discovered node is its distance from the seeds. */
  lemma DepthIsDistance(adj: Adjacency, bound: Option<nat>, seeds: seq<nat>, i: nat)
    requires forall k :: 0 <= k < |seeds| ==> seeds[k] < |adj|
    requires i < |Bfs(adj, bound, seeds)|
    ensures var e := Bfs(adj, bound, seeds)[i]; IsDistance(adj, seeds, e.node, e.depth)
  {
    hide Bfs, Plant, IsPath;
    BfsSound(adj, bound, seeds);
    BfsBounded(adj, bound, seeds);
    var r := Bfs(adj, bound, seeds);
    var s := |Plant([], seeds)|;
    ChainIsPath(adj, s, r, i);
    assert Leads(adj, seeds, Chain(s, r, i), r[i].node);
    forall path | Leads(adj, seeds, path, r[i].node)
      ensures |path| >= r[i].depth + 1
    {
      NotShorter(adj, bound, s, r, |r|, i, path);
    }
  }

  /** Exactly the nodes within reach of the seeds are discovered. */
  lemma BfsReaches(adj: Adjacency, bound: Option<nat>, seeds: seq<nat>, v: nat)
    requires forall k :: 0 <= k < |seeds| ==> seeds[k] < |adj|
    ensures Seen(Bfs(adj, bound, seeds), v) <==> Reachable(adj, bound, seeds, v)
  {
    hide Bfs, Plant, IsPath;
    BfsSound(adj, bound, seeds);
    BfsBounded(adj, bound, seeds);
    var r := Bfs(adj, bound, seeds);
    var s := |Plant([], seeds)|;
    if Seen(r, v) {
      var i :| 0 <= i < |r| && r[i].node == v;
      ChainIsPath(adj, s, r, i);
      assert Leads(adj, seeds, Chain(s, r, i), v);
    }
    if path :| Leads(adj, seeds, path, v) && (bound.Some? ==> |path| - 1 <= bound.value) {
      PathNonEmpty(adj, path);
      Covers(adj, bound, s, r, |r|, |path| - 1, path);
    }
  }

  /**
   * The order of a breadth-first search: no node twice, seeds first, and nodes
   * nearer to the seeds before nodes farther away.
   */
  lemma BfsOrder(adj: Adjacency, bound: Option<nat>, seeds: seq<nat>, i: nat, j: nat)
    requires forall k :: 0 <= k < |seeds| ==> seeds[k] < |adj|
    requires i < j < |Bfs(adj, bound, seeds)|
    ensures var r := Bfs(adj, bound, seeds);
            && r[i].node != r[j].node && r[i].depth <= r[j].depth
            && (r[j].node in seeds <==> j < |Plant([], seeds)|)
  {
    hide Bfs, Plant, Processed;
    BfsSound(adj, bound, seeds);
    var r := Bfs(adj, bound, seeds);
  }

  // ---------------------------------------------------------------------------
  // The order within a layer.

  ghost function RowAt(adj: Adjacency, es: seq<Entry>, h: nat): seq<nat> {
    if h < |es| && es[h].node < |adj| then adj[es[h].node] else []
  }

  /** `a` stands in the row, and `b` not up to there. */
  ghost predicate RowBefore(row: seq<nat>, a: nat, b: nat) {
    exists p :: 0 <= p < |row| && row[p] == a && forall q :: 0 <= q <= p ==> row[q] != b
  }

  /** Entry `i` was discovered by an earlier entry than `j`, or by the same one and earlier in its row. */
  ghost predicate Sooner(adj: Adjacency, es: seq<Entry>, i: nat, j: nat)
    requires i < |es| && j < |es|
  {
    || es[i].from < es[j].from
    || (es[i].from == es[j].from && RowBefore(RowAt(adj, es, es[i].from), es[i].node, es[j].node))
  }

  /** No entry before the one that discovered `j` leads to it. */
  ghost predicate Earliest(adj: Adjacency, bound: Option<nat>, es: seq<Entry>, j: nat)
    requires j < |es|
  {
    forall h :: 0 <= h < es[j].from && h < |es| && Expands(bound, es[h].depth) ==> es[j].node !in RowAt(adj, es, h)
  }

  /** The `s` seeds come first; the others are discovered in order, each as early as possible. */
  ghost predicate InOrder(adj: Adjacency, bound: Option<nat>, s: nat, es: seq<Entry>) {
    && (forall i :: s <= i < |es| ==> es[i].from < i && Earliest(adj, bound, es, i))
    && (forall i, j :: s <= i < j < |es| ==> Sooner(adj, es, i, j))
  }

  /** Every node of the row up to `k` is known, and entry `h` has discovered only such nodes. */
  ghost predicate RowDone(s: nat, es: seq<Entry>, h: nat, row: seq<nat>, k: nat)
    requires k <= |row|
  {
    && (forall q :: 0 <= q < k ==> Seen(es, row[q]))
    && (forall i :: s <= i < |es| ==> es[i].from < h || (es[i].from == h && es[i].node in row[..k]))
  }

  /** What the processed entries lead to is known. */
  ghost predicate RowsKnown(adj: Adjacency, bound: Option<nat>, es: seq<Entry>, h: nat) {
    forall g, v :: 0 <= g < h && g < |es| && Expands(bound, es[g].depth) && v in RowAt(adj, es, g) ==> Seen(es, v)
  }

  lemma SeenMoreEntries(es: seq<Entry>, e: Entry, v: nat)
    ensures Seen(es, v) || e.node == v ==> Seen(es + [e], v)
  {
    if i :| 0 <= i < |es| && es[i].node == v {
      assert (es + [e])[i].node == v;
    }
    if e.node == v {
      assert (es + [e])[|es|].node == v;
    }
  }

  lemma OrderMore(adj: Adjacency, bound: Option<nat>, s: nat, es: seq<Entry>, h: nat, k: nat)
    requires InOrder(adj, bound, s, es) && h < |es| && s <= |es| && k < |RowAt(adj, es, h)|
    requires RowDone(s, es, h, RowAt(adj, es, h), k) && RowsKnown(adj, bound, es, h)
    requires !Seen(es, RowAt(adj, es, h)[k])
    ensures InOrder(adj, bound, s, es + [Entry(RowAt(adj, es, h)[k], h, es[h].depth + 1)])
  {
    hide Seen, Expands;
    var row := RowAt(adj, es, h);
    var v := row[k];
    var next := es + [Entry(v, h, es[h].depth + 1)];
    assert forall g :: 0 <= g < |es| ==> next[g] == es[g] && RowAt(adj, next, g) == RowAt(adj, es, g);
    forall i | s <= i < |next|
      ensures Earliest(adj, bound, next, i)
    {
      assert i < |es| ==> Earliest(adj, bound, es, i);
    }
    forall i, j | s <= i < j < |next|
      ensures Sooner(adj, next, i, j)
    {
      if j < |es| {
        assert Sooner(adj, es, i, j);
      } else if es[i].from == h {
        var p :| 0 <= p < k && row[..k][p] == es[i].node;
        assert row[p] == es[i].node && forall q :: 0 <= q <= p ==> row[q] != v;
        assert RowBefore(row, es[i].node, v);
      }
    }
  }

  lemma DiscoverInOrder(adj: Adjacency, bound: Option<nat>, s: nat, es: seq<Entry>, h: nat, k: nat)
    requires InOrder(adj, bound, s, es) && h < |es| && s <= |es| && k < |RowAt(adj, es, h)|
    requires RowDone(s, es, h, RowAt(adj, es, h), k) && RowsKnown(adj, bound, es, h)
    ensures var row := RowAt(adj, es, h); var next := Discover(es, h, row[k]);
            && es <= next && InOrder(adj, bound, s, next) && RowAt(adj, next, h) == row
            && RowDone(s, next, h, row, k + 1) && RowsKnown(adj, bound, next, h)
  {
    hide Seen, InOrder, Expands;
    var row := RowAt(adj, es, h);
    var next := Discover(es, h, row[k]);
    assert row[..k + 1] == row[..k] + [row[k]];
    if !Seen(es, row[k]) {
      OrderMore(adj, bound, s, es, h, k);
      assert forall g :: 0 <= g < |es| ==> next[g] == es[g] && RowAt(adj, next, g) == RowAt(adj, es, g);
      forall v
        ensures Seen(es, v) || v == row[k] ==> Seen(next, v)
      {
        SeenMoreEntries(es, Entry(row[k], h, es[h].depth + 1), v);
      }
    }
  }

  lemma {:induction false} DiscoverAllInOrder(adj: Adjacency, bound: Option<nat>, s: nat, es: seq<Entry>, h: nat,
                                              k: nat)
    requires InOrder(adj, bound, s, es) && h < |es| && s <= |es| && k <= |RowAt(adj, es, h)|
    requires RowDone(s, es, h, RowAt(adj, es, h), k) && RowsKnown(adj, bound, es, h)
    ensures var row := RowAt(adj, es, h); var r := DiscoverAll(es, h, row[k..]);
            && InOrder(adj, bound, s, r) && RowAt(adj, r, h) == row
            && RowDone(s, r, h, row, |row|) && RowsKnown(adj, bound, r, h)
    decreases |RowAt(adj, es, h)| - k
  {
    hide InOrder, RowDone, RowsKnown, Discover, RowAt;
    var row := RowAt(adj, es, h);
    if k < |row| {
      assert row[k..][0] == row[k] && row[k..][1..] == row[k + 1..];
      DiscoverInOrder(adj, bound, s, es, h, k);
      DiscoverAllInOrder(adj, bound, s, Discover(es, h, row[k]), h, k + 1);
    } else {
      assert row[k..] == [];
    }
  }

  /** Nothing has been discovered by entry `h` or later ones yet. */
  ghost predicate Behind(s: nat, es: seq<Entry>, h: nat) {
    forall i :: s <= i < |es| ==> es[i].from < h
  }

  lemma ExpandInOrder(adj: Adjacency, bound: Option<nat>, s: nat, es: seq<Entry>, h: nat)
    requires Proper(adj, es) && InOrder(adj, bound, s, es) && h < |es| && s <= |es|
    requires Behind(s, es, h) && RowsKnown(adj, bound, es, h)
    ensures var r := Expand(adj, bound, es, h);
            InOrder(adj, bound, s, r) && Behind(s, r, h + 1) && RowsKnown(adj, bound, r, h + 1)
  {
    hide InOrder, Seen;
    ExpandRow(adj, bound, es, h);
    if Expands(bound, es[h].depth) {
      var row := RowAt(adj, es, h);
      assert row[0..] == row;
      DiscoverAllInOrder(adj, bound, s, es, h, 0);
    }
  }

  lemma {:induction false} RunInOrder(adj: Adjacency, bound: Option<nat>, s: nat, es: seq<Entry>, h: nat)
    requires Proper(adj, es) && InOrder(adj, bound, s, es) && s <= |es|
    requires Behind(s, es, h) && RowsKnown(adj, bound, es, h)
    ensures InOrder(adj, bound, s, Run(adj, bound, es, h))
    decreases |adj| - h
  {
    hide InOrder, Behind, RowsKnown, Expand;
    if h < |es| {
      ProperBound(adj, es);
      ExpandProper(adj, bound, es, h);
      ExpandInOrder(adj, bound, s, es, h);
      RunInOrder(adj, bound, s, Expand(adj, bound, es, h), h + 1);
    }
  }

  /**
   * Nodes are discovered as early as possible and in the order of rows: of two nodes that are no
   * seeds the earlier one was discovered by an earlier node, or by the same node and earlier in
   * its row.
   */
  lemma BfsRowOrder(adj: Adjacency, bound: Option<nat>, seeds: seq<nat>, i: nat, j: nat)
    requires forall k :: 0 <= k < |seeds| ==> seeds[k] < |adj|
    requires |Plant([], seeds)| <= i < j < |Bfs(adj, bound, seeds)|
    ensures var r := Bfs(adj, bound, seeds);
            Sooner(adj, r, i, j) && Earliest(adj, bound, r, i) && Earliest(adj, bound, r, j)
  {
    hide Run, Plant, Sooner, Earliest, Proper;
    PlantNothing(adj);
    PlantSeeds(adj, [], seeds);
    var es := Plant([], seeds);
    PlantedProper(adj, es);
    RunInOrder(adj, bound, |es|, es, 0);
  }
}

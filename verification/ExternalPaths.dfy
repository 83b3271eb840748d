/**
 * Delivered paths in the ids of the tables: a search over a loaded graph delivers chains of
 * rows of its edge table.
 */
module ExternalPaths {
  import opened Wrappers
  import opened Enumeration
  import opened Routes
  import opened Arena
  import Graphs

  /** The problem's edges are those of the graph, slice by slice. */
  ghost predicate Reads(p: Problem, g: Graphs.Graph)
    requires Graphs.WellFormed(g)
  {
    && |p.outgoing| == g.nodeCount
    && forall v :: 0 <= v < g.nodeCount ==> SliceOf(p.outgoing[v], g, v)
  }

  ghost predicate SliceOf(arcs: seq<Arc>, g: Graphs.Graph, v: nat)
    requires Graphs.WellFormed(g) && v < g.nodeCount
  {
    && |arcs| == |Graphs.OutgoingSlice(g, v)|
    && forall k :: 0 <= k < |arcs| ==> arcs[k] == Arc(Graphs.OutgoingEdges(g, v)[k], Graphs.OutgoingSlice(g, v)[k])
  }

  /** All ids translated, or nothing when one is missing. */
  function Translated(ids: seq<nat>, external: nat -> Option<nat>): (r: Option<seq<nat>>)
    ensures r.Some? ==> |r.value| == |ids| && forall k :: 0 <= k < |ids| ==> external(ids[k]) == Some(r.value[k])
    ensures r.None? ==> exists k :: 0 <= k < |ids| && external(ids[k]).None?
  {
    if ids == [] then Some([]) else
    var init := Translated(ids[..|ids| - 1], external);
    var last := external(ids[|ids| - 1]);
    if init.None? || last.None? then None else Some(init.value + [last.value])
  }

  datatype ExternalPath = ExternalPath(nodes: seq<nat>, edges: seq<nat>)

  /** A delivered path with its ids translated; nothing when it refers to a missing node or edge. */
  function External(identity: Graphs.Identity, path: GraphPath): Option<ExternalPath> {
    var nodes := Translated(path.nodes, v => Graphs.ExternalU64(identity, v));
    var edges := Translated(path.edges, e => Graphs.ExternalEdge(identity, e));
    if nodes.None? || edges.None? then None else Some(ExternalPath(nodes.value, edges.value))
  }

  /** Every edge of the path is a row of the table that joins the node before it to the node behind it. */
  ghost predicate InTable(edges: seq<Graphs.EdgeRow>, path: ExternalPath) {
    && |path.nodes| == |path.edges| + 1
    && forall k :: 0 <= k < |path.edges| ==>
         Graphs.EdgeRow(Some(path.edges[k]), Some(path.nodes[k]), Some(path.nodes[k + 1])) in edges
  }

  /** An edge of a route is, in external ids, a row of the edge table. */
  lemma RouteEdge(p: Problem, g: Graphs.Graph, nodes: seq<Option<nat>>, edges: seq<Graphs.EdgeRow>, r: Route, k: nat)
    requires Graphs.WellFormed(g) && Graphs.Represents(g, nodes, edges) && Reads(p, g)
    requires IsRoute(p, r) && k < |r.steps|
    ensures r.nodes[k] < g.nodeCount && r.nodes[k + 1] < g.nodeCount && r.edges[k] < |edges|
    ensures edges[r.edges[k]] == Graphs.ExternalRow(g.identity, r.nodes[k], r.edges[k], r.nodes[k + 1])
  {
    hide Graphs.WellFormed, Graphs.Represents, Graphs.ExternalRow;
    assert TakesEdge(p, r, k, k == |r.steps| - 1);
    var u, at := r.nodes[k], r.steps[k];
    assert SliceOf(p.outgoing[u], g, u);
    Graphs.OutgoingIsRow(g, nodes, edges, u, at);
  }

  lemma KnownIds(g: Graphs.Graph, nodes: seq<Option<nat>>, edges: seq<Graphs.EdgeRow>)
    requires Graphs.WellFormed(g) && Graphs.Represents(g, nodes, edges)
    ensures forall v: nat :: v < g.nodeCount ==> Graphs.ExternalU64(g.identity, v).Some?
    ensures forall e: nat :: e < |edges| ==> Graphs.ExternalEdge(g.identity, e).Some?
  {
  }

  /** A route always translates, to a chain of rows of the edge table. */
  lemma RouteInTable(p: Problem, g: Graphs.Graph, nodes: seq<Option<nat>>, edges: seq<Graphs.EdgeRow>, r: Route,
                     path: GraphPath)
    requires Graphs.WellFormed(g) && Graphs.Represents(g, nodes, edges) && Reads(p, g)
    requires IsRoute(p, r) && path.nodes == r.nodes && path.edges == r.edges
    ensures External(g.identity, path).Some? && InTable(edges, External(g.identity, path).value)
  {
    hide Graphs.WellFormed, Graphs.Represents, Reads, TakesEdge;
    KnownIds(g, nodes, edges);
    forall k | 0 <= k < |r.nodes|
      ensures r.nodes[k] < g.nodeCount
    {
      RouteEdge(p, g, nodes, edges, r, if k < |r.edges| then k else k - 1);
    }
    forall k | 0 <= k < |r.edges|
      ensures r.edges[k] < |edges|
    {
      RouteEdge(p, g, nodes, edges, r, k);
    }
    var external := External(g.identity, path).value;
    forall k | 0 <= k < |external.edges|
      ensures Graphs.EdgeRow(Some(external.edges[k]), Some(external.nodes[k]), Some(external.nodes[k + 1])) in edges
    {
      RouteEdge(p, g, nodes, edges, r, k);
      assert edges[r.edges[k]] == Graphs.EdgeRow(Some(external.edges[k]), Some(external.nodes[k]),
                                                 Some(external.nodes[k + 1]));
    }
  }

  /**
   * From tables to deliveries: whatever a search over a loaded graph delivers, and it delivers
   * completed walks only, translates to external ids and is then a chain of rows of the edge table.
   */
  lemma DeliveredInTable(p: Problem, g: Graphs.Graph, nodes: seq<Option<nat>>, edges: seq<Graphs.EdgeRow>,
                         w: Walk, intermediateStates: bool)
    requires Graphs.WellFormed(g) && Graphs.Represents(g, nodes, edges) && Reads(p, g)
    requires Completed(p, w)
    ensures var path := External(g.identity, PathOf(w, intermediateStates));
            path.Some? && InTable(edges, path.value)
  {
    hide Graphs.WellFormed, Graphs.Represents, Reads, IsRoute, InTable, External;
    CompletedIsRoute(p, w);
    RouteInTable(p, g, nodes, edges, RouteOf(w), PathOf(w, intermediateStates));
  }
}

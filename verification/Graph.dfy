/**
 * A graph as loaded from its tables: external ids, outgoing rows and incoming rows.
 */
module Graphs {
  import opened Wrappers
  import opened CompressedRows
  import opened BreadthFirst

  /** How external ids relate to internal ids (row positions). */
  datatype Identity =
    | U64Contiguous(nodeCount: nat, edgeCount: nat)
    | U64(nodes: seq<nat>, edges: seq<nat>, lookup: map<nat, nat>)
    | Str(names: seq<string>)

  predicate HasU64Ids(identity: Identity) {
    identity.U64Contiguous? || identity.U64?
  }

  function InternalU64(identity: Identity, external: nat): (r: Option<nat>) {
    match identity
    case U64Contiguous(nodeCount, _) => if external < nodeCount then Some(external) else None
    case U64(_, _, lookup) => if external in lookup then Some(lookup[external]) else None
    case Str(_) => None
  }

  function ExternalU64(identity: Identity, node: nat): (r: Option<nat>) {
    match identity
    case U64Contiguous(nodeCount, _) => if node < nodeCount then Some(node) else None
    case U64(nodes, _, _) => if node < |nodes| then Some(nodes[node]) else None
    case Str(_) => None
  }

  function ExternalEdge(identity: Identity, edge: nat): (r: Option<nat>) {
    match identity
    case U64Contiguous(_, edgeCount) => if edge < edgeCount then Some(edge) else None
    case U64(_, edges, _) => if edge < |edges| then Some(edges[edge]) else None
    case Str(_) => None
  }

  /** `lookup` is the inverse of `nodes`, and there are `n` nodes. */
  ghost predicate Names(identity: Identity, n: nat) {
    match identity
    case U64Contiguous(nodeCount, _) => nodeCount == n
    case U64(nodes, _, lookup) =>
      && |nodes| == n
      && (forall v :: 0 <= v < n ==> nodes[v] in lookup && lookup[nodes[v]] == v)
      && (forall x :: x in lookup ==> lookup[x] < n && nodes[lookup[x]] == x)
    case Str(names) => |names| == n
  }

  /** External and internal ids translate back and forth without loss. */
  lemma IdentityRoundTrip(identity: Identity, n: nat, external: nat, node: nat)
    requires Names(identity, n) && HasU64Ids(identity)
    ensures InternalU64(identity, external).Some? ==>
              InternalU64(identity, external).value < n &&
              ExternalU64(identity, InternalU64(identity, external).value) == Some(external)
    ensures node < n ==>
              ExternalU64(identity, node).Some? &&
              InternalU64(identity, ExternalU64(identity, node).value) == Some(node)
  {
  }

  // ---------------------------------------------------------------------------
  // Reading the tables.

  datatype EdgeRow = EdgeRow(id: Option<nat>, src: Option<nat>, dest: Option<nat>)

  datatype LoadError =
    | NullNode(row: nat) | TooManyNodes | DuplicateNode(id: nat)
    | NullEdge(row: nat) | DuplicateEdge(id: nat) | MissingEndpoint(row: nat) | TooManyEdgeRows
    | TooManyCsrEdges

  predicate CheckedId(row: nat) { row <= U32_MAX }

  /** The first `k` node rows are usable. */
  ghost predicate GoodNodes(nodes: seq<Option<nat>>, k: nat) {
    && k <= |nodes|
    && (forall i :: 0 <= i < k ==> nodes[i].Some? && CheckedId(i))
    && (forall i, j :: 0 <= i < j < k ==> nodes[i] != nodes[j])
  }

  ghost predicate Known(nodes: seq<Option<nat>>, id: Option<nat>) {
    id.Some? && id in nodes
  }

  /** The first `k` edge rows are usable. */
  ghost predicate GoodEdges(nodes: seq<Option<nat>>, edges: seq<EdgeRow>, k: nat) {
    && k <= |edges|
    && (forall i :: 0 <= i < k ==>
          edges[i].id.Some? && Known(nodes, edges[i].src) && Known(nodes, edges[i].dest) && CheckedId(i))
    && (forall i, j :: 0 <= i < j < k ==> edges[i].id != edges[j].id)
  }

  ghost predicate Mirrors(nodes: seq<Option<nat>>, k: nat, out: seq<nat>, lookup: map<nat, nat>) {
    && k <= |nodes| && |out| == k
    && (forall i :: 0 <= i < k ==> nodes[i] == Some(out[i]) && out[i] in lookup && lookup[out[i]] == i)
    && (forall x :: x in lookup ==> lookup[x] < k && out[lookup[x]] == x)
  }

  method ReadNodes(nodes: seq<Option<nat>>) returns (r: Result<(seq<nat>, map<nat, nat>), LoadError>)
    ensures r.Ok? <==> GoodNodes(nodes, |nodes|)
    ensures r.Ok? ==> Mirrors(nodes, |nodes|, r.value.0, r.value.1)
  {
    var lookup: map<nat, nat> := map[];
    var out: seq<nat> := [];
    var row: nat := 0;
    while row < |nodes|
      invariant row <= |nodes| && GoodNodes(nodes, row) && Mirrors(nodes, row, out, lookup)
    {
      if nodes[row].None? {
        return Err(NullNode(row));
      }
      var id := nodes[row].value;
      if !CheckedId(row) {
        return Err(TooManyNodes);
      }
      if id in lookup {
        assert nodes[lookup[id]] == nodes[row];
        return Err(DuplicateNode(id));
      }
      lookup := lookup[id := row];
      out := out + [id];
      row := row + 1;
    }
    return Ok((out, lookup));
  }

  /** The endpoints are the rows of the nodes that the edge names. */
  ghost predicate Resolves(nodes: seq<Option<nat>>, edges: seq<EdgeRow>, endpoints: seq<(nat, nat)>) {
    && |endpoints| <= |edges|
    && forall i :: 0 <= i < |endpoints| ==>
         && endpoints[i].0 < |nodes| && nodes[endpoints[i].0] == edges[i].src
         && endpoints[i].1 < |nodes| && nodes[endpoints[i].1] == edges[i].dest
  }

  /** `seen` is the set of the ids of the first edge rows. */
  ghost predicate Collected(edges: seq<EdgeRow>, ids: seq<nat>, seen: set<nat>) {
    && |ids| <= |edges|
    && (forall i :: 0 <= i < |ids| ==> edges[i].id == Some(ids[i]) && ids[i] in seen)
    && (forall x :: x in seen ==> x in ids)
  }

  lemma GoodEdgesMore(nodes: seq<Option<nat>>, edges: seq<EdgeRow>, ids: seq<nat>, seen: set<nat>, id: nat)
    requires var row := |ids|;
             row < |edges| && edges[row].id == Some(id) && GoodEdges(nodes, edges, row) && Collected(edges, ids, seen)
    ensures GoodEdges(nodes, edges, |ids| + 1) <==>
            && id !in seen && Known(nodes, edges[|ids|].src) && Known(nodes, edges[|ids|].dest) && CheckedId(|ids|)
    ensures Collected(edges, ids + [id], seen + {id})
  {
    hide Known, CheckedId;
    var row := |ids|;
    if id in seen {
      var i :| 0 <= i < row && ids[i] == id;
      assert edges[i].id == edges[row].id;
    }
  }

  lemma GoodEdgesNone(nodes: seq<Option<nat>>, edges: seq<EdgeRow>)
    ensures GoodEdges(nodes, edges, 0)
  {
  }

  lemma GoodEdgesStop(nodes: seq<Option<nat>>, edges: seq<EdgeRow>, row: nat)
    requires row < |edges| && GoodEdges(nodes, edges, |edges|)
    ensures GoodEdges(nodes, edges, row + 1)
    ensures edges[row].id.Some? && edges[row].src.Some? && edges[row].dest.Some?
  {
  }

  method ReadEdges(nodes: seq<Option<nat>>, edges: seq<EdgeRow>, ghost out: seq<nat>, lookup: map<nat, nat>)
      returns (r: Result<(seq<nat>, seq<(nat, nat)>), LoadError>)
    requires Mirrors(nodes, |nodes|, out, lookup)
    ensures r.Ok? <==> GoodEdges(nodes, edges, |edges|)
    ensures r.Ok? ==> |r.value.0| == |r.value.1| == |edges| && Resolves(nodes, edges, r.value.1)
    ensures r.Ok? ==> forall i :: 0 <= i < |edges| ==> edges[i].id == Some(r.value.0[i])
  {
    hide Mirrors, GoodEdges, Known, CheckedId;
    var ids: seq<nat> := [];
    var seen: set<nat> := {};
    var endpoints: seq<(nat, nat)> := [];
    var row: nat := 0;
    GoodEdgesNone(nodes, edges);
    while row < |edges|
      invariant row <= |edges| && GoodEdges(nodes, edges, row)
      invariant |ids| == |endpoints| == row && Resolves(nodes, edges, endpoints) && Collected(edges, ids, seen)
    {
      hide Collected;
      if GoodEdges(nodes, edges, |edges|) {
        GoodEdgesStop(nodes, edges, row);
      }
      if edges[row].id.None? || edges[row].src.None? || edges[row].dest.None? {
        return Err(NullEdge(row));
      }
      var id := edges[row].id.value;
      GoodEdgesMore(nodes, edges, ids, seen, id);
      if id in seen {
        return Err(DuplicateEdge(id));
      }
      var src, dest := edges[row].src.value, edges[row].dest.value;
      LookupKnown(nodes, out, lookup, src);
      LookupKnown(nodes, out, lookup, dest);
      if src !in lookup || dest !in lookup {
        return Err(MissingEndpoint(row));
      }
      if !CheckedId(row) {
        return Err(TooManyEdgeRows);
      }
      ids := ids + [id];
      seen := seen + {id};
      endpoints := endpoints + [(lookup[src], lookup[dest])];
      row := row + 1;
    }
    return Ok((ids, endpoints));
  }

  lemma LookupKnown(nodes: seq<Option<nat>>, out: seq<nat>, lookup: map<nat, nat>, id: nat)
    requires Mirrors(nodes, |nodes|, out, lookup)
    ensures id in lookup <==> Known(nodes, Some(id))
    ensures id in lookup ==> lookup[id] < |nodes| && nodes[lookup[id]] == Some(id)
  {
    if Known(nodes, Some(id)) {
      var i :| 0 <= i < |nodes| && nodes[i] == Some(id);
      assert out[i] == id;
    }
    if id in lookup {
      assert nodes[lookup[id]] == Some(id);
    }
  }

  predicate RowNumbered(ids: seq<nat>) {
    forall i :: 0 <= i < |ids| ==> ids[i] == i
  }

  // ---------------------------------------------------------------------------
  // The loaded graph.

  datatype Graph = Graph(nodeCount: nat, csr: Csr, incoming: IncomingCsr, identity: Identity)

  ghost predicate WellFormed(g: Graph) {
    && g.nodeCount <= U32_MAX && Names(g.identity, g.nodeCount)
    && |g.csr.offsets| == g.nodeCount + 1 && Spans(g.csr.offsets, |g.csr.dests|)
    && |g.csr.edgeIds| == |g.csr.dests|
    && |g.incoming.offsets| == g.nodeCount + 1 && Spans(g.incoming.offsets, |g.incoming.srcs|)
    && KeysBelow(g.csr.dests, g.nodeCount) && KeysBelow(g.incoming.srcs, g.nodeCount)
    && IsIncoming(g.incoming, g.csr.offsets, g.csr.dests, g.nodeCount)
  }

  /** The destinations of a node's outgoing edges. */
  function OutgoingSlice(g: Graph, v: nat): (r: seq<nat>)
    requires WellFormed(g) && v < g.nodeCount
    ensures forall k :: 0 <= k < |r| ==> r[k] < g.nodeCount
  {
    Row(g.csr.offsets, g.csr.dests, v)
  }

  /** The ids of a node's outgoing edges. */
  function OutgoingEdges(g: Graph, v: nat): (r: seq<nat>)
    requires WellFormed(g) && v < g.nodeCount
    ensures |r| == |OutgoingSlice(g, v)|
  {
    Row(g.csr.offsets, g.csr.edgeIds, v)
  }

  /** The sources of a node's incoming edges. */
  function Incoming(g: Graph, v: nat): (r: seq<nat>)
    requires WellFormed(g) && v < g.nodeCount
    ensures forall k :: 0 <= k < |r| ==> r[k] < g.nodeCount
  {
    Row(g.incoming.offsets, g.incoming.srcs, v)
  }

  ghost function OutRows(g: Graph): (adj: Adjacency)
    requires WellFormed(g)
    ensures |adj| == g.nodeCount && forall v :: 0 <= v < g.nodeCount ==> adj[v] == OutgoingSlice(g, v)
  {
    seq(g.nodeCount, v requires 0 <= v < g.nodeCount => OutgoingSlice(g, v))
  }

  ghost function InRows(g: Graph): (adj: Adjacency)
    requires WellFormed(g)
    ensures |adj| == g.nodeCount && forall v :: 0 <= v < g.nodeCount ==> adj[v] == Incoming(g, v)
  {
    seq(g.nodeCount, v requires 0 <= v < g.nodeCount => Incoming(g, v))
  }

  /** `u` is an in-neighbour of `v` exactly when `v` is an out-neighbour of `u`. */
  lemma RowsOpposite(g: Graph, u: nat, v: nat)
    requires WellFormed(g) && u < g.nodeCount && v < g.nodeCount
    ensures u in InRows(g)[v] <==> v in OutRows(g)[u]
  {
    hide Groups, Offsets, Spans;
    TransposedIn(g.incoming, g.csr.offsets, g.csr.dests, g.nodeCount, u, v);
    assert u in Incoming(g, v) <==> u in multiset(Incoming(g, v));
    assert v in OutgoingSlice(g, u) <==> v in multiset(OutgoingSlice(g, u));
  }

  /** A graph represents its tables: external ids are those of the rows, and every edge joins the nodes it names. */
  ghost predicate Represents(g: Graph, nodes: seq<Option<nat>>, edges: seq<EdgeRow>) {
    && g.nodeCount == |nodes| && HasU64Ids(g.identity)
    && (forall v :: 0 <= v < |nodes| ==> nodes[v] == ExternalU64(g.identity, v))
    && (forall e :: 0 <= e < |edges| ==> edges[e].id.Some? && edges[e].id == ExternalEdge(g.identity, e))
    && exists endpoints: seq<(nat, nat)> ::
         |endpoints| == |edges| && Resolves(nodes, edges, endpoints) && IsCsr(g.csr, endpoints, g.nodeCount)
  }

  /** How ids are kept: as row numbers when every id is its row number. */
  function MakeIdentity(nodes: seq<nat>, edges: seq<nat>, lookup: map<nat, nat>): Identity {
    if RowNumbered(nodes) && RowNumbered(edges) then U64Contiguous(|nodes|, |edges|) else U64(nodes, edges, lookup)
  }

  lemma IdentityNames(nodes: seq<Option<nat>>, edges: seq<EdgeRow>, out: seq<nat>, ids: seq<nat>, lookup: map<nat, nat>)
    requires Mirrors(nodes, |nodes|, out, lookup) && |ids| == |edges|
    requires forall i :: 0 <= i < |edges| ==> edges[i].id == Some(ids[i])
    ensures var identity := MakeIdentity(out, ids, lookup);
            && Names(identity, |nodes|) && HasU64Ids(identity)
            && (forall v :: 0 <= v < |nodes| ==> nodes[v] == ExternalU64(identity, v))
            && (forall e :: 0 <= e < |edges| ==> edges[e].id.Some? && edges[e].id == ExternalEdge(identity, e))
  {
  }

  /** Every edge row names the node of the first node row as its source. */
  ghost predicate AllFromFirst(nodes: seq<Option<nat>>, edges: seq<EdgeRow>)
    requires nodes != []
  {
    forall e :: 0 <= e < |edges| ==> edges[e].src == nodes[0]
  }

  lemma FirstNamed(nodes: seq<Option<nat>>, edges: seq<EdgeRow>, endpoints: seq<(nat, nat)>)
    requires GoodNodes(nodes, |nodes|) && nodes != []
    requires |endpoints| == |edges| && Resolves(nodes, edges, endpoints)
    ensures FromFirst(endpoints) <==> AllFromFirst(nodes, edges)
  {
    forall e | 0 <= e < |edges|
      ensures endpoints[e].0 == 0 <==> edges[e].src == nodes[0]
    {
      assert nodes[endpoints[e].0] == edges[e].src;
    }
  }

  lemma NodeCountBound(nodes: seq<Option<nat>>)
    requires GoodNodes(nodes, |nodes|)
    ensures |nodes| <= U32_MAX + 1
  {
    assert |nodes| > 0 ==> nodes[|nodes| - 1].Some? && CheckedId(|nodes| - 1);
  }

  /** The incoming rows group the positions of the outgoing rows by destination. */
  ghost predicate IncomingRight(g: Graph) {
    && |g.csr.offsets| == g.nodeCount + 1 && Spans(g.csr.offsets, |g.csr.dests|)
    && IsIncoming(g.incoming, g.csr.offsets, g.csr.dests, g.nodeCount)
  }

  /**
   * Loads a graph. Ids, outgoing rows and the offsets of the incoming rows are right whenever it
   * loads. The row checks admit exactly 2^32 nodes, which the loop over the sources counts as
   * none; then the incoming rows are right exactly when every edge leaves the first node.
   */
  method Load(nodes: seq<Option<nat>>, edges: seq<EdgeRow>) returns (r: Result<Graph, LoadError>)
    ensures r.Ok? <==> GoodNodes(nodes, |nodes|) && GoodEdges(nodes, edges, |edges|) && |edges| <= U32_MAX
    ensures r.Ok? ==> Represents(r.value, nodes, edges) && (|nodes| <= U32_MAX ==> WellFormed(r.value))
    ensures r.Ok? ==>
              && Offsets(r.value.incoming.offsets, r.value.csr.dests, |nodes|)
              && |r.value.incoming.srcs| == |r.value.csr.dests|
              && (IncomingRight(r.value) <==> |nodes| <= U32_MAX || AllFromFirst(nodes, edges))
  {
    hide GoodNodes, GoodEdges, Groups, Spans, Mirrors, Names, Offsets, Owners, FromFirst, AllFromFirst, Resolves;
    var named := ReadNodes(nodes);
    if named.Err? {
      return Err(named.error);
    }
    var (out, lookup) := named.value;
    var resolved := ReadEdges(nodes, edges, out, lookup);
    if resolved.Err? {
      return Err(resolved.error);
    }
    var (ids, endpoints) := resolved.value;
    var identity := MakeIdentity(out, ids, lookup);
    IdentityNames(nodes, edges, out, ids, lookup);
    EndpointsBelow(nodes, edges, endpoints);
    var csr := BuildCsr(|nodes|, endpoints);
    if csr.Err? {
      return Err(TooManyCsrEdges);
    }
    CsrDestsBelow(csr.value, endpoints, |nodes|);
    var incoming := BuildIncomingCsr(|nodes|, csr.value.offsets, csr.value.dests);
    NodeCountBound(nodes);
    if |nodes| <= U32_MAX {
      IncomingBelow(incoming, csr.value.offsets, csr.value.dests, |nodes|);
    } else {
      OwnersFirst(csr.value, endpoints, |nodes|);
      FirstNamed(nodes, edges, endpoints);
    }
    return Ok(Graph(|nodes|, csr.value, incoming, identity));
  }

  lemma EndpointsBelow(nodes: seq<Option<nat>>, edges: seq<EdgeRow>, endpoints: seq<(nat, nat)>)
    requires Resolves(nodes, edges, endpoints)
    ensures KeysBelow(Sources(endpoints), |nodes|) && KeysBelow(Targets(endpoints), |nodes|)
  {
  }

  /** Tables of 2^32 nodes with one edge from the second to the first: they load, and not rightly. */
  lemma LargeTableLoads() returns (nodes: seq<Option<nat>>, edges: seq<EdgeRow>)
    ensures |nodes| == U32_MAX + 1 && (forall i :: 0 <= i < |nodes| ==> nodes[i] == Some(i))
    ensures edges == [EdgeRow(Some(0), Some(1), Some(0))]
    ensures GoodNodes(nodes, |nodes|) && GoodEdges(nodes, edges, |edges|) && |edges| <= U32_MAX
    ensures !(|nodes| <= U32_MAX || AllFromFirst(nodes, edges))
  {
    nodes := seq(U32_MAX + 1, i requires 0 <= i => Some(i));
    edges := [EdgeRow(Some(0), Some(1), Some(0))];
    assert nodes[1] == edges[0].src && nodes[0] == edges[0].dest;
  }

  lemma CsrDestsBelow(csr: Csr, endpoints: seq<(nat, nat)>, n: nat)
    requires IsCsr(csr, endpoints, n) && KeysBelow(Targets(endpoints), n)
    ensures |csr.offsets| == n + 1 && |csr.dests| == |endpoints| == |csr.edgeIds| && Spans(csr.offsets, |csr.dests|)
    ensures KeysBelow(csr.dests, n)
  {
    GroupsBelow(csr.offsets, csr.dests, Sources(endpoints), Targets(endpoints), n);
  }

  lemma IncomingBelow(inc: IncomingCsr, offsets: seq<nat>, dests: seq<nat>, n: nat)
    requires |offsets| == n + 1 && Spans(offsets, |dests|) && IsIncoming(inc, offsets, dests, n)
    ensures |inc.offsets| == n + 1 && Spans(inc.offsets, |inc.srcs|) && KeysBelow(inc.srcs, n)
  {
    GroupsBelow(inc.offsets, inc.srcs, dests, Owners(offsets, |dests|, n), n);
  }

  lemma GroupsBelow(offsets: seq<nat>, grouped: seq<nat>, keys: seq<nat>, column: seq<nat>, n: nat)
    requires Groups(offsets, grouped, keys, column, n) && KeysBelow(column, n)
    ensures |offsets| == n + 1 && |grouped| == |keys| && Spans(offsets, |grouped|) && KeysBelow(grouped, n)
  {
    forall p | 0 <= p < |grouped|
      ensures grouped[p] < n
    {
      var v := Owner(offsets, p, n);
      assert Row(offsets, grouped, v)[p - offsets[v]] == grouped[p];
    }
  }

  // ---------------------------------------------------------------------------
  // Every adjacency is that of a graph.

  /** The rows below `v`, one after the other. */
  ghost function Joined(adj: seq<seq<nat>>, v: nat): seq<nat>
    requires v <= |adj|
  {
    if v == 0 then [] else Joined(adj, v - 1) + adj[v - 1]
  }

  lemma {:induction false} JoinedGrows(adj: seq<seq<nat>>, v: nat, w: nat)
    requires v <= w <= |adj|
    ensures Joined(adj, v) <= Joined(adj, w)
    decreases w
  {
    if v < w {
      JoinedGrows(adj, v, w - 1);
    }
  }

  lemma JoinedRow(adj: seq<seq<nat>>, v: nat)
    requires v < |adj|
    ensures |Joined(adj, v)| <= |Joined(adj, v + 1)| <= |Joined(adj, |adj|)|
    ensures Joined(adj, |adj|)[|Joined(adj, v)|..|Joined(adj, v + 1)|] == adj[v]
  {
    JoinedGrows(adj, v + 1, |adj|);
    var upto := Joined(adj, v + 1);
    assert Joined(adj, |adj|)[|Joined(adj, v)|..|upto|] == upto[|Joined(adj, v)|..];
  }

  lemma {:induction false} JoinedBelow(adj: Adjacency, v: nat)
    requires v <= |adj|
    ensures KeysBelow(Joined(adj, v), |adj|)
  {
    if v > 0 {
      JoinedBelow(adj, v - 1);
    }
  }

  ghost function JoinedOffsets(adj: seq<seq<nat>>): (r: seq<nat>)
    ensures |r| == |adj| + 1 && forall v :: 0 <= v <= |adj| ==> r[v] == |Joined(adj, v)|
  {
    seq(|adj| + 1, v requires 0 <= v <= |adj| => |Joined(adj, v)|)
  }

  lemma JoinedSpans(adj: seq<seq<nat>>)
    ensures Spans(JoinedOffsets(adj), |Joined(adj, |adj|)|)
  {
    var offsets := JoinedOffsets(adj);
    forall i, j | 0 <= i <= j < |offsets|
      ensures offsets[i] <= offsets[j] <= |Joined(adj, |adj|)|
    {
      JoinedGrows(adj, i, j);
      JoinedGrows(adj, j, |adj|);
    }
  }

  /** Every adjacency of 32-bit size is the outgoing rows of some well-formed graph. */
  lemma GraphExists(adj: Adjacency) returns (g: Graph)
    requires |adj| <= U32_MAX && |Joined(adj, |adj|)| <= U32_MAX
    ensures WellFormed(g) && g.nodeCount == |adj| && OutRows(g) == adj
  {
    hide Groups, Offsets, Owners, Joined, OffsetsOf, Grouped, Spans;
    var n, dests, sums := |adj|, Joined(adj, |adj|), JoinedOffsets(adj);
    JoinedSpans(adj);
    JoinedBelow(adj, n);
    var owners := Owners(sums, |dests|, n);
    GroupsExist(dests, owners, n);
    IncomingSizes(dests, owners, n);
    OffsetsFit(sums, |dests|);
    OffsetsFit(OffsetsOf(dests, n), |dests|);
    var offsets: seq<U32> := sums;
    var starts: seq<U32> := OffsetsOf(dests, n);
    var ids: seq<U32> := Ids(|dests|);
    g := Graph(n, Csr(offsets, ids, dests), IncomingCsr(starts, Grouped(dests, owners, n)), U64Contiguous(n, |dests|));
    IncomingBelow(g.incoming, offsets, dests, n);
    forall v | 0 <= v < n
      ensures OutgoingSlice(g, v) == adj[v]
    {
      JoinedRow(adj, v);
    }
  }

  lemma IncomingSizes(keys: seq<nat>, column: seq<nat>, n: nat)
    requires |keys| == |column| && Groups(OffsetsOf(keys, n), Grouped(keys, column, n), keys, column, n)
    ensures |Grouped(keys, column, n)| == |keys| && Spans(OffsetsOf(keys, n), |keys|)
  {
  }

  lemma OffsetsFit(offsets: seq<nat>, m: nat)
    requires Spans(offsets, m) && m <= U32_MAX
    ensures forall i :: 0 <= i < |offsets| ==> offsets[i] <= U32_MAX
  {
  }

  // ---------------------------------------------------------------------------
  // Edges in external ids.

  /** The row of the edge table that holds edge `e` from `u` to `v`, in external ids. */
  function ExternalRow(identity: Identity, u: nat, e: nat, v: nat): EdgeRow {
    EdgeRow(ExternalEdge(identity, e), ExternalU64(identity, u), ExternalU64(identity, v))
  }

  lemma EndpointsNamed(g: Graph, nodes: seq<Option<nat>>, edges: seq<EdgeRow>, endpoints: seq<(nat, nat)>, e: nat)
    requires Represents(g, nodes, edges) && Resolves(nodes, edges, endpoints) && e < |endpoints|
    ensures edges[e] == ExternalRow(g.identity, endpoints[e].0, e, endpoints[e].1)
  {
    hide IsCsr;
  }

  /** What a node's outgoing row holds at any place is, in external ids, the row of that edge in the table. */
  lemma OutgoingIsRow(g: Graph, nodes: seq<Option<nat>>, edges: seq<EdgeRow>, u: nat, k: nat)
    requires WellFormed(g) && Represents(g, nodes, edges) && u < g.nodeCount && k < |OutgoingSlice(g, u)|
    ensures var e := OutgoingEdges(g, u)[k];
            e < |edges| && edges[e] == ExternalRow(g.identity, u, e, OutgoingSlice(g, u)[k])
  {
    hide IsCsr, Resolves, ExternalRow, WellFormed;
    var endpoints: seq<(nat, nat)> :|
      |endpoints| == |edges| && Resolves(nodes, edges, endpoints) && IsCsr(g.csr, endpoints, g.nodeCount);
    CsrRows(g.csr, endpoints, g.nodeCount, u);
    var ids := OutgoingEdges(g, u);
    assert ids[k] in ids;
    EndpointsNamed(g, nodes, edges, endpoints, ids[k]);
  }
}

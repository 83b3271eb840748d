/**
 * Depth-first walks: an explicit stack with lazy visited checks, proved to list the
 * same nodes in the same order as recursive preorder search, bounded or not.
 */
module DepthFirst {
  import opened Wrappers
  import opened Sequences
  import opened CompressedRows
  import opened BreadthFirst
  import opened Graphs

  /** A node to visit and the depth it is seen at. */
  type Visit = (nat, nat)

  ghost predicate Listing(adj: Adjacency, order: seq<nat>) {
    && (forall i :: 0 <= i < |order| ==> order[i] < |adj|)
    && (forall i, j :: 0 <= i < j < |order| ==> order[i] != order[j])
  }

  ghost predicate InGraph(adj: Adjacency, pending: seq<Visit>) {
    forall k :: 0 <= k < |pending| ==> pending[k].0 < |adj|
  }

  /** The neighbours of a node, one deeper. */
  function Below(row: seq<nat>, depth: nat): (r: seq<Visit>)
    ensures |r| == |row| && forall k :: 0 <= k < |row| ==> r[k] == (row[k], depth + 1)
  {
    seq(|row|, k requires 0 <= k < |row| => (row[k], depth + 1))
  }

  /** What a visited node leads to. */
  ghost function Children(adj: Adjacency, bound: Option<nat>, v: Visit): (r: seq<Visit>)
    requires v.0 < |adj|
    ensures InGraph(adj, r)
  {
    if Expands(bound, v.1) then Below(adj[v.0], v.1) else []
  }

  lemma ListingBound(adj: Adjacency, order: seq<nat>)
    requires Listing(adj, order)
    ensures |order| <= |adj|
  {
    DistinctBound(order, |adj|);
  }

  /** Recursive preorder: a node, then everything below it, then the next node. */
  ghost function Preorder(adj: Adjacency, bound: Option<nat>, pending: seq<Visit>, order: seq<nat>): (r: seq<nat>)
    requires InGraph(adj, pending) && Listing(adj, order)
    ensures order <= r && Listing(adj, r)
    decreases |adj| - |order|, |pending|
  {
    if pending == [] then order else
    var v := pending[0];
    if v.0 in order then Preorder(adj, bound, pending[1..], order) else
    ListingBound(adj, order + [v.0]);
    var below := Preorder(adj, bound, Children(adj, bound, v), order + [v.0]);
    Preorder(adj, bound, pending[1..], below)
  }

  lemma PreorderNone(adj: Adjacency, bound: Option<nat>, order: seq<nat>)
    requires Listing(adj, order)
    ensures InGraph(adj, []) && Preorder(adj, bound, [], order) == order
  {
  }

  lemma ListingInRange(adj: Adjacency, order: seq<nat>)
    requires Listing(adj, order)
    ensures forall v :: v in order ==> v < |adj|
  {
  }

  lemma PreorderSeen(adj: Adjacency, bound: Option<nat>, pending: seq<Visit>, order: seq<nat>)
    requires InGraph(adj, pending) && Listing(adj, order) && pending != [] && pending[0].0 in order
    ensures Preorder(adj, bound, pending, order) == Preorder(adj, bound, pending[1..], order)
  {
  }

  lemma PreorderVisit(adj: Adjacency, bound: Option<nat>, pending: seq<Visit>, order: seq<nat>)
    requires InGraph(adj, pending) && Listing(adj, order) && pending != [] && pending[0].0 !in order
    ensures Listing(adj, order + [pending[0].0])
    ensures var below := Preorder(adj, bound, Children(adj, bound, pending[0]), order + [pending[0].0]);
            Preorder(adj, bound, pending, order) == Preorder(adj, bound, pending[1..], below)
  {
  }

  /** Visiting one list after another is visiting them together. */
  lemma {:induction false} PreorderSplit(adj: Adjacency, bound: Option<nat>, a: seq<Visit>, b: seq<Visit>,
                                         order: seq<nat>)
    requires InGraph(adj, a) && InGraph(adj, b) && Listing(adj, order)
    ensures InGraph(adj, a + b)
    ensures Preorder(adj, bound, a + b, order) == Preorder(adj, bound, b, Preorder(adj, bound, a, order))
    decreases |adj| - |order|, |a|
  {
    hide Preorder, Children, Listing;
    assert InGraph(adj, a + b);
    if a == [] {
      assert a + b == b;
      PreorderNone(adj, bound, order);
    } else {
      assert (a + b)[1..] == a[1..] + b && (a + b)[0] == a[0];
      if a[0].0 in order {
        PreorderSeen(adj, bound, a, order);
        PreorderSeen(adj, bound, a + b, order);
        PreorderSplit(adj, bound, a[1..], b, order);
      } else {
        PreorderVisit(adj, bound, a, order);
        PreorderVisit(adj, bound, a + b, order);
        ListingBound(adj, order + [a[0].0]);
        var below := Preorder(adj, bound, Children(adj, bound, a[0]), order + [a[0].0]);
        PreorderSplit(adj, bound, a[1..], b, below);
      }
    }
  }

  /** The visits whose node is not listed yet. */
  function Unseen(visits: seq<Visit>, order: seq<nat>): (r: seq<Visit>)
    ensures forall k :: 0 <= k < |r| ==> r[k] in visits
  {
    if visits == [] then [] else
    (if visits[0].0 in order then [] else [visits[0]]) + Unseen(visits[1..], order)
  }

  /** Leaving out what is already listed changes nothing, even when more is listed meanwhile. */
  lemma {:induction false} PreorderUnseen(adj: Adjacency, bound: Option<nat>, visits: seq<Visit>, known: seq<nat>,
                                          order: seq<nat>)
    requires InGraph(adj, visits) && Listing(adj, order) && known <= order
    ensures InGraph(adj, Unseen(visits, known))
    ensures Preorder(adj, bound, Unseen(visits, known), order) == Preorder(adj, bound, visits, order)
    decreases |visits|
  {
    hide Preorder, Children, Listing;
    assert InGraph(adj, Unseen(visits, known));
    if visits != [] {
      var rest := Unseen(visits[1..], known);
      if visits[0].0 in known {
        assert visits[0].0 in order && Unseen(visits, known) == rest;
        PreorderSeen(adj, bound, visits, order);
        PreorderUnseen(adj, bound, visits[1..], known, order);
      } else {
        var all := Unseen(visits, known);
        assert all == [visits[0]] + rest && all[1..] == rest;
        if visits[0].0 in order {
          PreorderSeen(adj, bound, visits, order);
          PreorderSeen(adj, bound, all, order);
          PreorderUnseen(adj, bound, visits[1..], known, order);
        } else {
          PreorderVisit(adj, bound, visits, order);
          PreorderVisit(adj, bound, all, order);
          var below := Preorder(adj, bound, Children(adj, bound, visits[0]), order + [visits[0].0]);
          PreorderUnseen(adj, bound, visits[1..], known, below);
        }
      }
    }
  }

  // ---------------------------------------------------------------------------
  // The stack.

  lemma UnseenStep(visits: seq<Visit>, order: seq<nat>, k: nat)
    requires k < |visits|
    ensures Unseen(visits[k..], order) ==
            (if visits[k].0 in order then [] else [visits[k]]) + Unseen(visits[k + 1..], order)
  {
    assert visits[k..][0] == visits[k] && visits[k..][1..] == visits[k + 1..];
  }

  /** The visited array marks the listed nodes. */
  ghost predicate Listed(visited: seq<nat>, order: seq<nat>) {
    forall v :: 0 <= v < |visited| ==> (visited[v] != 0 <==> v in order)
  }

  lemma ListedAt(visited: seq<nat>, order: seq<nat>, v: nat)
    requires Listed(visited, order) && v < |visited|
    ensures visited[v] != 0 <==> v in order
  {
  }

  /** Push the unvisited nodes of a row in reverse, so that the first one is on top. */
  method PushRow(row: seq<nat>, depth: nat, visited: array<U32>, below: seq<Visit>, ghost order: seq<nat>)
      returns (stack: seq<Visit>)
    requires Listed(visited[..], order) && forall k :: 0 <= k < |row| ==> row[k] < visited.Length
    ensures Reversed(stack) == Unseen(Below(row, depth), order) + Reversed(below)
  {
    hide Reversed, Listed;
    ghost var visits := Below(row, depth);
    stack := below;
    var k: nat := |row|;
    while k > 0
      invariant k <= |row|
      invariant Reversed(stack) == Unseen(visits[k..], order) + Reversed(below)
    {
      k := k - 1;
      UnseenStep(visits, order, k);
      ListedAt(visited[..], order, row[k]);
      if visited[row[k]] == 0 {
        var visit: Visit := (row[k], depth + 1);
        ReversedAppend(stack, visit);
        assert [visit] + (Unseen(visits[k + 1..], order) + Reversed(below)) ==
               Unseen(visits[k..], order) + Reversed(below);
        stack := stack + [visit];
      } else {
        assert Unseen(visits[k..], order) == Unseen(visits[k + 1..], order);
      }
    }
    assert visits[0..] == visits;
  }

  /** The nodes of a depth-first search from `start`. */
  ghost function DeepWalk(g: Graph, start: nat, bound: Option<nat>): seq<nat>
    requires WellFormed(g) && start < g.nodeCount
  {
    Preorder(OutRows(g), bound, [(start, 0)], [])
  }

  /** One popped node: skipped when listed, otherwise listed and its row pushed. */
  lemma PopStep(adj: Adjacency, bound: Option<nat>, stack: seq<Visit>, order: seq<nat>)
    requires stack != [] && InGraph(adj, Reversed(stack)) && Listing(adj, order)
    ensures var top := stack[|stack| - 1]; var rest := Reversed(stack[..|stack| - 1]);
            && top.0 < |adj| && InGraph(adj, rest)
            && (top.0 in order ==> Preorder(adj, bound, Reversed(stack), order) == Preorder(adj, bound, rest, order))
            && (top.0 !in order ==>
                  && Listing(adj, order + [top.0])
                  && InGraph(adj, Unseen(Children(adj, bound, top), order + [top.0]) + rest)
                  && Preorder(adj, bound, Reversed(stack), order) ==
                     Preorder(adj, bound, Unseen(Children(adj, bound, top), order + [top.0]) + rest, order + [top.0]))
  {
    hide Preorder, Children, Listing, Reversed, Unseen;
    ReversedLast(stack);
    var pending := Reversed(stack);
    var top, rest := stack[|stack| - 1], Reversed(stack[..|stack| - 1]);
    assert pending[0] == top && pending[1..] == rest;
    if top.0 in order {
      PreorderSeen(adj, bound, pending, order);
    } else {
      PreorderVisit(adj, bound, pending, order);
      var next := order + [top.0];
      PreorderUnseen(adj, bound, Children(adj, bound, top), next, next);
      PreorderSplit(adj, bound, Unseen(Children(adj, bound, top), next), rest, next);
    }
  }

  method WalkDepthFirst(g: Graph, start: nat, maxDepth: Option<nat>) returns (order: seq<nat>)
    requires WellFormed(g) && start < g.nodeCount
    ensures order == DeepWalk(g, start, maxDepth)
  {
    hide WellFormed, OutRows, Preorder, Reversed, Listed, Listing, Unseen, Row, InGraph, Children, DeepWalk, Below;
    ghost var adj := OutRows(g);
    var visited := new U32[g.nodeCount](_ => 0);
    order := [];
    var stack: seq<Visit> := [(start, 0)];
    StackStarts(g, start, maxDepth, visited[..]);
    while stack != []
      invariant InGraph(adj, Reversed(stack)) && Listing(adj, order) && Listed(visited[..], order)
      invariant Preorder(adj, maxDepth, Reversed(stack), order) == DeepWalk(g, start, maxDepth)
      decreases |adj| - |order|, |stack|
    {
      var (node, depth) := stack[|stack| - 1];
      PopStep(adj, maxDepth, stack, order);
      stack := stack[..|stack| - 1];
      ListedAt(visited[..], order, node);
      if visited[node] == 0 {
        ghost var stamps: seq<nat> := visited[..];
        ListedMore(stamps, order, node);
        visited[node] := 1;
        assert visited[..] == stamps[node := 1];
        order := order + [node];
        ListingBound(adj, order);
        ChildrenAt(g, maxDepth, node, depth, order, stack);
        if maxDepth.None? || depth < maxDepth.value {
          stack := PushRow(OutgoingSlice(g, node), depth, visited, stack, order);
        }
      }
    }
    StackEnds(adj, maxDepth, order);
  }

  lemma StackStarts(g: Graph, start: nat, bound: Option<nat>, visited: seq<nat>)
    requires WellFormed(g) && start < g.nodeCount && forall v :: 0 <= v < |visited| ==> visited[v] == 0
    ensures var stack: seq<Visit> := [(start, 0)];
            && InGraph(OutRows(g), Reversed(stack)) && Listing(OutRows(g), []) && Listed(visited, [])
            && Preorder(OutRows(g), bound, Reversed(stack), []) == DeepWalk(g, start, bound)
  {
    hide WellFormed, OutRows, Preorder;
    assert Reversed([(start, 0)]) == [(start, 0)];
  }

  lemma StackEnds(adj: Adjacency, bound: Option<nat>, order: seq<nat>)
    requires Listing(adj, order)
    ensures Reversed<Visit>([]) == [] && InGraph(adj, []) && Preorder(adj, bound, [], order) == order
  {
  }

  /** The row of an expanded node is what it leads to; a node at the bound leads nowhere. */
  lemma ChildrenAt(g: Graph, bound: Option<nat>, node: nat, depth: nat, order: seq<nat>, stack: seq<Visit>)
    requires WellFormed(g) && node < g.nodeCount
    ensures Expands(bound, depth) ==> Children(OutRows(g), bound, (node, depth)) == Below(OutgoingSlice(g, node), depth)
    ensures !Expands(bound, depth) ==>
              Unseen(Children(OutRows(g), bound, (node, depth)), order) + Reversed(stack) == Reversed(stack)
  {
    hide WellFormed;
  }

  lemma ListedMore(visited: seq<nat>, order: seq<nat>, node: nat)
    requires Listed(visited, order) && node < |visited|
    ensures Listed(visited[node := 1], order + [node])
  {
  }

  // ---------------------------------------------------------------------------
  // What a depth-first walk lists.

  /** A path of exactly `d` edges leads to `v`, and `d` is within the bound. */
  ghost predicate Traced(adj: Adjacency, bound: Option<nat>, start: nat, v: nat, d: nat) {
    && (bound.Some? ==> d <= bound.value)
    && exists path :: Leads(adj, [start], path, v) && |path| == d + 1
  }

  ghost predicate AllTraced(adj: Adjacency, bound: Option<nat>, start: nat, pending: seq<Visit>) {
    forall k :: 0 <= k < |pending| ==> Traced(adj, bound, start, pending[k].0, pending[k].1)
  }

  ghost predicate AllReached(adj: Adjacency, bound: Option<nat>, start: nat, order: seq<nat>) {
    forall i :: 0 <= i < |order| ==> Reachable(adj, bound, [start], order[i])
  }

  lemma ChildrenTraced(adj: Adjacency, bound: Option<nat>, start: nat, v: Visit)
    requires v.0 < |adj| && Traced(adj, bound, start, v.0, v.1)
    ensures AllTraced(adj, bound, start, Children(adj, bound, v)) && Reachable(adj, bound, [start], v.0)
  {
    var path: seq<nat> :| Leads(adj, [start], path, v.0) && |path| == v.1 + 1;
    var children := Children(adj, bound, v);
    forall k | 0 <= k < |children|
      ensures Traced(adj, bound, start, children[k].0, children[k].1)
    {
      assert Leads(adj, [start], path + [children[k].0], children[k].0);
    }
  }

  lemma {:induction false} PreorderReached(adj: Adjacency, bound: Option<nat>, start: nat, pending: seq<Visit>,
                                           order: seq<nat>)
    requires InGraph(adj, pending) && Listing(adj, order)
    requires AllTraced(adj, bound, start, pending) && AllReached(adj, bound, start, order)
    ensures AllReached(adj, bound, start, Preorder(adj, bound, pending, order))
    decreases |adj| - |order|, |pending|
  {
    hide Preorder, Children, Listing, Traced, Reachable;
    if pending != [] {
      if pending[0].0 in order {
        PreorderSeen(adj, bound, pending, order);
        PreorderReached(adj, bound, start, pending[1..], order);
      } else {
        PreorderVisit(adj, bound, pending, order);
        ChildrenTraced(adj, bound, start, pending[0]);
        var next := order + [pending[0].0];
        ListingBound(adj, next);
        PreorderReached(adj, bound, start, Children(adj, bound, pending[0]), next);
        PreorderReached(adj, bound, start, pending[1..], Preorder(adj, bound, Children(adj, bound, pending[0]), next));
      }
    } else {
      PreorderNone(adj, bound, order);
    }
  }

  /** All neighbours of the nodes listed after `order` are listed. */
  ghost predicate ClosedAfter(adj: Adjacency, order: seq<nat>, r: seq<nat>)
    requires Listing(adj, r)
  {
    forall u, k :: u in r && u !in order && 0 <= k < |adj[u]| ==> adj[u][k] in r
  }

  lemma PrefixMember(a: seq<nat>, b: seq<nat>, v: nat)
    requires a <= b && v in a
    ensures v in b
  {
    var i :| 0 <= i < |a| && a[i] == v;
    assert b[i] == v;
  }

  lemma FirstListed(adj: Adjacency, bound: Option<nat>, pending: seq<Visit>, order: seq<nat>)
    requires InGraph(adj, pending) && Listing(adj, order) && pending != []
    ensures pending[0].0 in Preorder(adj, bound, pending, order)
  {
    hide Preorder, Listing, Children;
    var u, r := pending[0].0, Preorder(adj, bound, pending, order);
    if u in order {
      PrefixMember(order, r, u);
    } else {
      PreorderVisit(adj, bound, pending, order);
      var below := Preorder(adj, bound, Children(adj, bound, pending[0]), order + [u]);
      PrefixMember(order + [u], below, u);
      PrefixMember(below, r, u);
    }
  }

  /** Whatever is waiting gets listed, under any bound. */
  lemma {:induction false} PendingListed(adj: Adjacency, bound: Option<nat>, pending: seq<Visit>, order: seq<nat>)
    requires InGraph(adj, pending) && Listing(adj, order)
    ensures forall k :: 0 <= k < |pending| ==> pending[k].0 in Preorder(adj, bound, pending, order)
    decreases |pending|
  {
    hide Preorder, Listing, Children;
    forall k | 0 <= k < |pending|
      ensures pending[k].0 in Preorder(adj, bound, pending, order)
    {
      if k == 0 {
        FirstListed(adj, bound, pending, order);
      } else {
        assert pending[k] == pending[1..][k - 1];
        if pending[0].0 in order {
          PreorderSeen(adj, bound, pending, order);
          PendingListed(adj, bound, pending[1..], order);
        } else {
          PreorderVisit(adj, bound, pending, order);
          var below := Preorder(adj, bound, Children(adj, bound, pending[0]), order + [pending[0].0]);
          PendingListed(adj, bound, pending[1..], below);
        }
      }
    }
  }

  lemma {:induction false} PreorderCloses(adj: Adjacency, pending: seq<Visit>, order: seq<nat>)
    requires InGraph(adj, pending) && Listing(adj, order)
    ensures ClosedAfter(adj, order, Preorder(adj, None, pending, order))
    decreases |adj| - |order|, |pending|
  {
    hide Preorder, Listing;
    var r := Preorder(adj, None, pending, order);
    if pending != [] {
      if pending[0].0 in order {
        PreorderSeen(adj, None, pending, order);
        PreorderCloses(adj, pending[1..], order);
      } else {
        PreorderVisit(adj, None, pending, order);
        var u := pending[0].0;
        var next := order + [u];
        ListingBound(adj, next);
        var children := Children(adj, None, pending[0]);
        var below := Preorder(adj, None, children, next);
        PreorderCloses(adj, children, next);
        PreorderCloses(adj, pending[1..], below);
        PendingListed(adj, None, children, next);
        RowListed(adj[u], pending[0].1, below);
        ClosedJoin(adj, order, u, below, r);
      }
    } else {
      PreorderNone(adj, None, order);
    }
  }

  lemma RowListed(row: seq<nat>, depth: nat, r: seq<nat>)
    requires forall k :: 0 <= k < |Below(row, depth)| ==> Below(row, depth)[k].0 in r
    ensures forall k :: 0 <= k < |row| ==> row[k] in r
  {
    forall k | 0 <= k < |row|
      ensures row[k] in r
    {
      assert Below(row, depth)[k] == (row[k], depth + 1);
    }
  }

  lemma ClosedJoin(adj: Adjacency, order: seq<nat>, u: nat, below: seq<nat>, r: seq<nat>)
    requires u < |adj| && Listing(adj, below) && Listing(adj, r) && order + [u] <= below <= r
    requires ClosedAfter(adj, order + [u], below) && ClosedAfter(adj, below, r)
    requires forall k :: 0 <= k < |adj[u]| ==> adj[u][k] in below
    ensures ClosedAfter(adj, order, r)
  {
    hide Listing;
    forall w | w in below
      ensures w in r
    {
      var i :| 0 <= i < |below| && below[i] == w;
      assert r[i] == w;
    }
    PrefixMember(order + [u], below, u);
    forall w, k | w in r && w !in order && 0 <= w < |adj| && 0 <= k < |adj[w]|
      ensures adj[w][k] in r
    {
      if w in below && w != u {
        assert w !in order + [u];
      }
    }
    ListingInRange(adj, r);
  }

  lemma {:induction false} ClosedFollows(adj: Adjacency, r: seq<nat>, path: seq<nat>, i: nat)
    requires Listing(adj, r) && ClosedAfter(adj, [], r) && IsPath(adj, path) && path[0] in r && i < |path|
    ensures path[i] in r
  {
    hide Listing;
    if i > 0 {
      ClosedFollows(adj, r, path, i - 1);
      assert path[i - 1 + 1] in adj[path[i - 1]];
      var k :| 0 <= k < |adj[path[i - 1]]| && adj[path[i - 1]][k] == path[i];
    }
  }

  /** A bounded search lists only nodes within the bound. */
  lemma PreorderWithin(adj: Adjacency, bound: Option<nat>, start: nat)
    requires start < |adj|
    ensures InGraph(adj, [(start, 0)]) && Listing(adj, [])
    ensures forall v: nat :: v in Preorder(adj, bound, [(start, 0)], []) ==> Reachable(adj, bound, [start], v)
  {
    hide Preorder, Reachable;
    assert Leads(adj, [start], [start], start);
    assert Traced(adj, bound, start, start, 0);
    PreorderReached(adj, bound, start, [(start, 0)], []);
  }

  /** An unbounded search lists whatever can be reached. */
  lemma PreorderReaches(adj: Adjacency, start: nat, v: nat)
    requires start < |adj| && Reachable(adj, None, [start], v)
    ensures InGraph(adj, [(start, 0)]) && Listing(adj, [])
    ensures v in Preorder(adj, None, [(start, 0)], [])
  {
    hide Preorder;
    var starts: seq<Visit> := [(start, 0)];
    PreorderCloses(adj, starts, []);
    PendingListed(adj, None, starts, []);
    assert starts[0].0 in Preorder(adj, None, starts, []);
    var path: seq<nat> :| Leads(adj, [start], path, v);
    ClosedFollows(adj, Preorder(adj, None, starts, []), path, |path| - 1);
  }

  /** An unbounded depth-first walk lists exactly the reachable nodes, each once. */
  lemma DeepWalkReaches(g: Graph, start: nat)
    requires WellFormed(g) && start < g.nodeCount
    ensures var r := DeepWalk(g, start, None);
            && (forall v: nat :: v in r <==> Reachable(OutRows(g), None, [start], v))
            && (forall i, j :: 0 <= i < j < |r| ==> r[i] != r[j])
  {
    hide WellFormed, OutRows, Preorder, Reachable;
    PreorderWithin(OutRows(g), None, start);
    forall v: nat | Reachable(OutRows(g), None, [start], v)
      ensures v in DeepWalk(g, start, None)
    {
      PreorderReaches(OutRows(g), start, v);
    }
  }

  /** A bounded depth-first walk lists only nodes within the bound, each once. */
  lemma DeepWalkWithin(g: Graph, start: nat, bound: Option<nat>)
    requires WellFormed(g) && start < g.nodeCount
    ensures var r := DeepWalk(g, start, bound);
            && (forall v: nat :: v in r ==> Reachable(OutRows(g), bound, [start], v))
            && (forall i, j :: 0 <= i < j < |r| ==> r[i] != r[j])
  {
    hide WellFormed, OutRows, Preorder, Reachable;
    PreorderWithin(OutRows(g), bound, start);
  }

  // ---------------------------------------------------------------------------
  // The order of a depth-first walk.

  /** `x` is the first node of the row that is not listed yet. */
  ghost predicate FirstUnlisted(row: seq<nat>, listed: seq<nat>, x: nat) {
    exists p :: 0 <= p < |row| && row[p] == x && x !in listed && forall q :: 0 <= q < p ==> row[q] in listed
  }

  /** The node listed at `k` is followed by its first neighbour that was not listed before, if there is one. */
  ghost predicate GoesDown(adj: Adjacency, r: seq<nat>, k: nat)
    requires k < |r|
  {
    r[k] < |adj| && FollowedBy(adj[r[k]], r[..k + 1], r[k + 1..])
  }

  ghost predicate FollowedBy(row: seq<nat>, listed: seq<nat>, rest: seq<nat>) {
    forall x :: FirstUnlisted(row, listed, x) ==> rest != [] && rest[0] == x
  }

  ghost predicate GoesDownFrom(adj: Adjacency, r: seq<nat>, from: nat) {
    forall k :: from <= k < |r| ==> GoesDown(adj, r, k)
  }

  /** What is listed first is the first of what is waiting that is not listed yet. */
  lemma {:induction false} FirstOfPending(adj: Adjacency, bound: Option<nat>, pending: seq<Visit>, order: seq<nat>,
                                          p: nat)
    requires InGraph(adj, pending) && Listing(adj, order) && p < |pending| && pending[p].0 !in order
    requires forall q :: 0 <= q < p ==> pending[q].0 in order
    ensures var r := Preorder(adj, bound, pending, order); |order| < |r| && r[|order|] == pending[p].0
    decreases p
  {
    hide Preorder, Listing, Children;
    if p > 0 {
      PreorderSeen(adj, bound, pending, order);
      assert pending[1..][p - 1] == pending[p];
      FirstOfPending(adj, bound, pending[1..], order, p - 1);
    } else {
      PreorderVisit(adj, bound, pending, order);
      var below := Preorder(adj, bound, Children(adj, bound, pending[0]), order + [pending[0].0]);
      assert order + [pending[0].0] <= below <= Preorder(adj, bound, pending, order);
    }
  }

  lemma GoesDownMore(adj: Adjacency, a: seq<nat>, b: seq<nat>, from: nat)
    requires a <= b && GoesDownFrom(adj, a, from) && GoesDownFrom(adj, b, |a|)
    ensures GoesDownFrom(adj, b, from)
  {
    hide FirstUnlisted;
    forall k | from <= k < |b|
      ensures GoesDown(adj, b, k)
    {
      if k < |a| {
        assert GoesDown(adj, a, k) && a[..k + 1] == b[..k + 1];
        assert a[k + 1..] != [] ==> a[k + 1..][0] == a[k + 1] == b[k + 1..][0];
      }
    }
  }

  /** The node just visited is followed by its first unlisted neighbour. */
  lemma VisitGoesDown(adj: Adjacency, v: Visit, order: seq<nat>)
    requires v.0 < |adj| && Listing(adj, order + [v.0])
    ensures var below := Preorder(adj, None, Children(adj, None, v), order + [v.0]);
            |order| < |below| && GoesDown(adj, below, |order|)
  {
    hide Preorder, Listing;
    var next, children := order + [v.0], Children(adj, None, v);
    var below := Preorder(adj, None, children, next);
    assert below[..|order| + 1] == next && below[|order|] == v.0;
    forall x | FirstUnlisted(adj[v.0], next, x)
      ensures |order| + 1 < |below| && below[|order| + 1] == x
    {
      var p :| 0 <= p < |adj[v.0]| && adj[v.0][p] == x && forall q :: 0 <= q < p ==> adj[v.0][q] in next;
      FirstOfPending(adj, None, children, next, p);
    }
  }

  lemma {:induction false} PreorderGoesDown(adj: Adjacency, pending: seq<Visit>, order: seq<nat>)
    requires InGraph(adj, pending) && Listing(adj, order)
    ensures GoesDownFrom(adj, Preorder(adj, None, pending, order), |order|)
    decreases |adj| - |order|, |pending|
  {
    hide Preorder, Listing, Children, GoesDown;
    if pending == [] {
      PreorderNone(adj, None, order);
    } else if pending[0].0 in order {
      PreorderSeen(adj, None, pending, order);
      PreorderGoesDown(adj, pending[1..], order);
    } else {
      PreorderVisit(adj, None, pending, order);
      var next := order + [pending[0].0];
      ListingBound(adj, next);
      var children := Children(adj, None, pending[0]);
      var below := Preorder(adj, None, children, next);
      PreorderGoesDown(adj, children, next);
      VisitGoesDown(adj, pending[0], order);
      PreorderGoesDown(adj, pending[1..], below);
      GoesDownMore(adj, below, Preorder(adj, None, pending, order), |order|);
    }
  }

  /**
   * An unbounded walk lists the start first and goes down wherever it can: right behind a node
   * comes the first node of its row that is not listed yet, if there is one.
   */
  lemma DeepWalkOrder(g: Graph, start: nat, k: nat)
    requires WellFormed(g) && start < g.nodeCount && k < |DeepWalk(g, start, None)|
    ensures DeepWalk(g, start, None)[0] == start
    ensures GoesDown(OutRows(g), DeepWalk(g, start, None), k)
  {
    hide WellFormed, OutRows, Preorder, GoesDown;
    var starts: seq<Visit> := [(start, 0)];
    FirstOfPending(OutRows(g), None, starts, [], 0);
    PreorderGoesDown(OutRows(g), starts, []);
  }

  // ---------------------------------------------------------------------------
  // When a bounded walk lists every node within the bound.

  /** A search from `start` under bound `b` lists exactly the nodes within the bound. */
  ghost predicate Complete(adj: Adjacency, b: nat, start: nat)
    requires start < |adj|
  {
    && InGraph(adj, [(start, 0)]) && Listing(adj, [])
    && forall v: nat :: v in Preorder(adj, Some(b), [(start, 0)], []) <==> Reachable(adj, Some(b), [start], v)
  }

  /** Nothing can be added to a listing of all nodes. */
  lemma FullListing(adj: Adjacency, bound: Option<nat>, pending: seq<Visit>, order: seq<nat>)
    requires InGraph(adj, pending) && Listing(adj, order) && |order| >= |adj|
    ensures Preorder(adj, bound, pending, order) == order
  {
    hide Preorder, Listing;
    ListingBound(adj, Preorder(adj, bound, pending, order));
  }

  ghost predicate NoDeeperThanListed(pending: seq<Visit>, order: seq<nat>) {
    forall k :: 0 <= k < |pending| ==> pending[k].1 <= |order|
  }

  /**
   * With at most `b + 1` nodes the bound is never felt: a node met at the bound has `b` others
   * listed before it, so that nothing is left to list.
   */
  lemma {:induction false} BoundNotFelt(adj: Adjacency, b: nat, pending: seq<Visit>, order: seq<nat>)
    requires InGraph(adj, pending) && Listing(adj, order) && NoDeeperThanListed(pending, order) && |adj| <= b + 1
    ensures Preorder(adj, Some(b), pending, order) == Preorder(adj, None, pending, order)
    decreases |adj| - |order|, |pending|
  {
    hide Preorder, Listing;
    if pending == [] {
      PreorderNone(adj, Some(b), order);
      PreorderNone(adj, None, order);
    } else if pending[0].0 in order {
      PreorderSeen(adj, Some(b), pending, order);
      PreorderSeen(adj, None, pending, order);
      BoundNotFelt(adj, b, pending[1..], order);
    } else {
      PreorderVisit(adj, Some(b), pending, order);
      PreorderVisit(adj, None, pending, order);
      var next := order + [pending[0].0];
      ListingBound(adj, next);
      var below := Preorder(adj, None, Children(adj, None, pending[0]), next);
      if pending[0].1 < b {
        BoundNotFelt(adj, b, Children(adj, None, pending[0]), next);
      } else {
        FullListing(adj, Some(b), Children(adj, Some(b), pending[0]), next);
        FullListing(adj, None, Children(adj, None, pending[0]), next);
      }
      BoundNotFelt(adj, b, pending[1..], below);
    }
  }

  lemma FewNodesComplete(adj: Adjacency, b: nat, start: nat)
    requires start < |adj| <= b + 1
    ensures Complete(adj, b, start)
  {
    hide Preorder;
    PreorderWithin(adj, Some(b), start);
    BoundNotFelt(adj, b, [(start, 0)], []);
    forall v: nat | Reachable(adj, Some(b), [start], v)
      ensures v in Preorder(adj, Some(b), [(start, 0)], [])
    {
      PreorderReaches(adj, start, v);
    }
  }

  lemma VisitLast(adj: Adjacency, bound: Option<nat>, pending: seq<Visit>, order: seq<nat>)
    requires InGraph(adj, pending) && Listing(adj, order) && |pending| == 1
    ensures pending[0].0 in order ==> Preorder(adj, bound, pending, order) == order
    ensures pending[0].0 !in order ==> Listing(adj, order + [pending[0].0])
    ensures pending[0].0 !in order ==>
              Preorder(adj, bound, pending, order) ==
              Preorder(adj, bound, Children(adj, bound, pending[0]), order + [pending[0].0])
  {
  }

  /** One step away is waiting from the beginning. */
  lemma ShortBoundComplete(adj: Adjacency, b: nat, start: nat)
    requires start < |adj| && b <= 1
    ensures Complete(adj, b, start)
  {
    hide Preorder;
    PreorderWithin(adj, Some(b), start);
    var starts: seq<Visit> := [(start, 0)];
    var children := Children(adj, Some(b), starts[0]);
    VisitLast(adj, Some(b), starts, []);
    PendingListed(adj, Some(b), starts, []);
    PendingListed(adj, Some(b), children, [start]);
    assert [] + [start] == [start] && starts[0].0 == start;
    var r := Preorder(adj, Some(b), starts, []);
    forall v: nat | Reachable(adj, Some(b), [start], v)
      ensures v in r
    {
      var path: seq<nat> :| Leads(adj, [start], path, v) && |path| - 1 <= b;
      if |path| == 2 {
        assert path[0 + 1] in adj[path[0]];
        var k: nat :| k < |adj[start]| && adj[start][k] == v;
        assert children[k] == (v, 1);
      }
    }
  }

  /** A depth-first walk under a bound that is at most 1 or not exceeded by the other nodes is complete. */
  lemma DeepWalkComplete(g: Graph, start: nat, b: nat)
    requires WellFormed(g) && start < g.nodeCount && (b <= 1 || g.nodeCount <= b + 1)
    ensures forall v: nat :: v in DeepWalk(g, start, Some(b)) <==> Reachable(OutRows(g), Some(b), [start], v)
  {
    hide WellFormed, Preorder, Reachable;
    if b <= 1 {
      ShortBoundComplete(OutRows(g), b, start);
    } else {
      FewNodesComplete(OutRows(g), b, start);
    }
  }

  /** A long way 0, 1, ..., `b`, a shortcut from 0 to `b`, one node behind `b`, and isolated nodes up to `n`. */
  ghost function Shortcut(n: nat, b: nat): (adj: Adjacency)
    requires 2 <= b && b + 2 <= n
    ensures |adj| == n
  {
    var adj: seq<seq<nat>> := seq(n, i requires 0 <= i < n =>
      if i == 0 then [1, b] else if i <= b then [i + 1] else []);
    adj
  }

  ghost function UpTo(n: nat): (r: seq<nat>)
    ensures |r| == n && forall i :: 0 <= i < n ==> r[i] == i
  {
    seq(n, i requires 0 <= i < n => i)
  }

  /** The long way is walked to the bound, which `b` is met at. */
  lemma {:induction false} WalkLongWay(n: nat, b: nat, i: nat)
    requires 2 <= b && b + 2 <= n && 1 <= i <= b
    ensures var adj := Shortcut(n, b);
            && InGraph(adj, [(i, i)]) && Listing(adj, UpTo(i))
            && Preorder(adj, Some(b), [(i, i)], UpTo(i)) == UpTo(b + 1)
    decreases b - i
  {
    hide Preorder;
    var adj := Shortcut(n, b);
    var visit: seq<Visit> := [(i, i)];
    VisitLast(adj, Some(b), visit, UpTo(i));
    assert UpTo(i) + [i] == UpTo(i + 1);
    if i == b {
      assert Children(adj, Some(b), visit[0]) == [];
      PreorderNone(adj, Some(b), UpTo(b + 1));
    } else {
      assert Children(adj, Some(b), visit[0]) == [(i + 1, i + 1)];
      WalkLongWay(n, b, i + 1);
    }
  }

  /**
   * Otherwise some walk misses a node: the end of a long way is first met at the bound, and
   * what lies behind it on a shorter one is not listed.
   */
  lemma BoundedWalkMisses(n: nat, b: nat)
    requires 2 <= b && b + 2 <= n
    ensures var adj := Shortcut(n, b);
            && Reachable(adj, Some(b), [0], b + 1)
            && InGraph(adj, [(0, 0)]) && Listing(adj, [])
            && Preorder(adj, Some(b), [(0, 0)], []) == UpTo(b + 1)
    ensures !Complete(Shortcut(n, b), b, 0)
  {
    hide Preorder;
    var adj := Shortcut(n, b);
    assert Leads(adj, [0], [0, b, b + 1], b + 1);
    var starts: seq<Visit>, children: seq<Visit> := [(0, 0)], [(1, 1), (b, 1)];
    VisitLast(adj, Some(b), starts, []);
    assert Children(adj, Some(b), starts[0]) == children && [] + [0] == UpTo(1);
    WalkLongWay(n, b, 1);
    var near: seq<Visit> := children[1..];
    assert children == [(1, 1)] + near && InGraph(adj, near);
    PreorderSplit(adj, Some(b), [(1, 1)], near, UpTo(1));
    assert UpTo(b + 1)[b] == b && near[0].0 == b;
    VisitLast(adj, Some(b), near, UpTo(b + 1));
  }

  /** Bounded walks over `n` nodes are complete, whatever the edges and the start, exactly in these cases. */
  lemma BoundedWalkExact(n: nat, b: nat)
    ensures (forall adj: Adjacency, start: nat | |adj| == n && start < n :: Complete(adj, b, start)) <==>
            (b <= 1 || n <= b + 1)
  {
    hide Complete;
    if b <= 1 || n <= b + 1 {
      forall adj: Adjacency, start: nat | |adj| == n && start < n
        ensures Complete(adj, b, start)
      {
        if b <= 1 {
          ShortBoundComplete(adj, b, start);
        } else {
          FewNodesComplete(adj, b, start);
        }
      }
    } else {
      BoundedWalkMisses(n, b);
    }
  }

  /** The graph's walk under bound `b` lists exactly the nodes within the bound. */
  ghost predicate CompleteWalk(g: Graph, start: nat, b: nat)
    requires WellFormed(g) && start < g.nodeCount
  {
    forall v: nat :: v in DeepWalk(g, start, Some(b)) <==> Reachable(OutRows(g), Some(b), [start], v)
  }

  lemma {:induction false} ShortcutSize(n: nat, b: nat, v: nat)
    requires 2 <= b && b + 2 <= n && v <= n
    ensures |Joined(Shortcut(n, b), v)| == if v == 0 then 0 else if v <= b + 1 then v + 1 else b + 2
  {
    if v > 0 {
      ShortcutSize(n, b, v - 1);
    }
  }

  /** The same for the walks over graphs: what misses a node is a walk over a well-formed graph. */
  lemma GraphWalkExact(n: nat, b: nat)
    requires n <= U32_MAX
    ensures (forall g: Graph, start: nat | WellFormed(g) && g.nodeCount == n && start < n ::
               CompleteWalk(g, start, b)) <==> (b <= 1 || n <= b + 1)
  {
    hide WellFormed, OutRows, DeepWalk, Joined, Shortcut, Reachable;
    if b <= 1 || n <= b + 1 {
      forall g: Graph, start: nat | WellFormed(g) && g.nodeCount == n && start < n
        ensures CompleteWalk(g, start, b)
      {
        DeepWalkComplete(g, start, b);
      }
    } else {
      ShortcutSize(n, b, n);
      var g := GraphExists(Shortcut(n, b));
      ShortcutWalkMisses(g, n, b);
    }
  }

  lemma ShortcutWalkMisses(g: Graph, n: nat, b: nat)
    requires 2 <= b && b + 2 <= n && WellFormed(g) && g.nodeCount == n && OutRows(g) == Shortcut(n, b)
    ensures !CompleteWalk(g, 0, b)
  {
    hide WellFormed, OutRows, Preorder, Reachable, Shortcut;
    BoundedWalkMisses(n, b);
    assert b + 1 !in UpTo(b + 1);
  }
}

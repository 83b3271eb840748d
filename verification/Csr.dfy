/**
 * Compressed sparse rows: the counting sort that groups edges by source node, and
 * the one that groups the resulting rows by destination.
 */
module CompressedRows {
  import opened Wrappers
  import opened Sequences

  const U32_MAX: nat := 0xFFFF_FFFF

  /** Row offsets and edge ids are 32-bit: every increment below is shown to fit. */
  type U32 = x: int | 0 <= x <= U32_MAX

  datatype Csr = Csr(offsets: seq<U32>, edgeIds: seq<U32>, dests: seq<nat>)

  datatype IncomingCsr = IncomingCsr(offsets: seq<U32>, srcs: seq<nat>)

  ghost predicate KeysBelow(keys: seq<nat>, n: nat) {
    forall j :: 0 <= j < |keys| ==> keys[j] < n
  }

  /** The positions before `k` that hold `v`, in increasing order. */
  ghost function Places(keys: seq<nat>, v: nat, k: nat): (r: seq<nat>)
    requires k <= |keys|
    ensures |r| <= k && forall a :: 0 <= a < |r| ==> r[a] < k && keys[r[a]] == v
  {
    if k == 0 then [] else Places(keys, v, k - 1) + if keys[k - 1] == v then [k - 1] else []
  }

  /** How many of the first `k` keys are smaller than `v`. */
  ghost function Smaller(keys: seq<nat>, v: nat, k: nat): (r: nat)
    requires k <= |keys|
    ensures r <= k
  {
    if k == 0 then 0 else Smaller(keys, v, k - 1) + if keys[k - 1] < v then 1 else 0
  }

  lemma {:induction false} SmallerNext(keys: seq<nat>, v: nat, k: nat)
    requires k <= |keys|
    ensures Smaller(keys, v + 1, k) == Smaller(keys, v, k) + |Places(keys, v, k)|
  {
    if k > 0 {
      SmallerNext(keys, v, k - 1);
    }
  }

  lemma {:induction false} SmallerNone(keys: seq<nat>, k: nat)
    requires k <= |keys|
    ensures Smaller(keys, 0, k) == 0
  {
    if k > 0 {
      SmallerNone(keys, k - 1);
    }
  }

  lemma {:induction false} SmallerAll(keys: seq<nat>, n: nat, k: nat)
    requires k <= |keys| && KeysBelow(keys, n)
    ensures Smaller(keys, n, k) == k
  {
    if k > 0 {
      SmallerAll(keys, n, k - 1);
    }
  }

  lemma {:induction false} SmallerMonotone(keys: seq<nat>, v: nat, w: nat, k: nat)
    requires k <= |keys| && v <= w
    ensures Smaller(keys, v, k) <= Smaller(keys, w, k)
  {
    if k > 0 {
      SmallerMonotone(keys, v, w, k - 1);
    }
  }

  lemma {:induction false} PlacesGrow(keys: seq<nat>, v: nat, k: nat, m: nat)
    requires k <= m <= |keys|
    ensures Places(keys, v, k) <= Places(keys, v, m)
    decreases m
  {
    if k < m {
      PlacesGrow(keys, v, k, m - 1);
    }
  }

  /** Exactly the positions of `v` are listed, in increasing order. */
  lemma {:induction false} PlacesExact(keys: seq<nat>, v: nat, k: nat)
    requires k <= |keys|
    ensures forall j: nat :: j in Places(keys, v, k) <==> j < k && keys[j] == v
    ensures forall a, b :: 0 <= a < b < |Places(keys, v, k)| ==> Places(keys, v, k)[a] < Places(keys, v, k)[b]
  {
    if k > 0 {
      PlacesExact(keys, v, k - 1);
    }
  }

  // ---------------------------------------------------------------------------
  // Grouping.

  /** Row boundaries: row `v` starts after all smaller keys. */
  ghost predicate Offsets(offsets: seq<nat>, keys: seq<nat>, n: nat) {
    |offsets| == n + 1 && forall v :: 0 <= v <= n ==> offsets[v] == Smaller(keys, v, |keys|)
  }

  /** Row boundaries that never decrease and together cover `m` positions. */
  ghost predicate Spans(offsets: seq<nat>, m: nat) {
    && |offsets| >= 1 && offsets[0] == 0 && offsets[|offsets| - 1] == m
    && (forall i, j :: 0 <= i <= j < |offsets| ==> offsets[i] <= offsets[j] <= m)
  }

  lemma OffsetsSpan(offsets: seq<nat>, keys: seq<nat>, n: nat)
    requires Offsets(offsets, keys, n) && KeysBelow(keys, n)
    ensures Spans(offsets, |keys|)
  {
    SmallerNone(keys, |keys|);
    SmallerAll(keys, n, |keys|);
    forall i, j | 0 <= i <= j < |offsets|
      ensures offsets[i] <= offsets[j] <= |keys|
    {
      SmallerMonotone(keys, i, j, |keys|);
    }
  }

  /** One row of a column. */
  function Row(offsets: seq<nat>, column: seq<nat>, v: nat): (r: seq<nat>)
    requires v + 1 < |offsets| && offsets[v] <= offsets[v + 1] <= |column|
    ensures |r| == offsets[v + 1] - offsets[v]
  {
    column[offsets[v]..offsets[v + 1]]
  }

  ghost function Select(column: seq<nat>, places: seq<nat>): (r: seq<nat>)
    requires forall a :: 0 <= a < |places| ==> places[a] < |column|
    ensures |r| == |places| && forall a :: 0 <= a < |places| ==> r[a] == column[places[a]]
  {
    seq(|places|, a requires 0 <= a < |places| => column[places[a]])
  }

  /** `grouped` holds `column` grouped by key, in the original order within each row. */
  ghost predicate Groups(offsets: seq<nat>, grouped: seq<nat>, keys: seq<nat>, column: seq<nat>, n: nat) {
    && |grouped| == |column| == |keys| && Offsets(offsets, keys, n) && Spans(offsets, |keys|)
    && forall v :: 0 <= v < n ==> Row(offsets, grouped, v) == Select(column, Places(keys, v, |keys|))
  }

  /** Where the next edge with key `v` goes after `k` edges have been placed. */
  ghost predicate Filled(cursor: seq<nat>, grouped: seq<nat>, keys: seq<nat>, column: seq<nat>, k: nat, v: nat)
    requires k <= |keys| <= |column| && v < |cursor|
  {
    var start := Smaller(keys, v, |keys|);
    && cursor[v] == start + |Places(keys, v, k)| <= |grouped|
    && forall a :: 0 <= a < |Places(keys, v, k)| ==> grouped[start + a] == column[Places(keys, v, k)[a]]
  }

  ghost predicate FilledAll(cursor: seq<nat>, grouped: seq<nat>, keys: seq<nat>, column: seq<nat>, k: nat, n: nat)
    requires k <= |keys| <= |column| && n <= |cursor|
  {
    forall v :: 0 <= v < n ==> Filled(cursor, grouped, keys, column, k, v)
  }

  /** The slot of the next edge lies in its own row, behind the slots already filled. */
  lemma SlotFree(keys: seq<nat>, n: nat, k: nat, v: nat)
    requires k < |keys| && KeysBelow(keys, n) && v < n
    ensures var start := (u: nat) => Smaller(keys, u, |keys|);
            && start(v) + |Places(keys, v, k)| <= start(v + 1) <= |keys|
            && (keys[k] == v ==> start(v) + |Places(keys, v, k)| < start(v + 1))
  {
    SmallerNext(keys, v, |keys|);
    PlacesGrow(keys, v, k, |keys|);
    PlacesGrow(keys, v, k + 1, |keys|);
  }

  lemma Place(cursor: seq<nat>, grouped: seq<nat>, keys: seq<nat>, column: seq<nat>, k: nat, n: nat, v: nat)
    requires k < |keys| == |column| == |grouped| && n <= |cursor| && KeysBelow(keys, n)
    requires FilledAll(cursor, grouped, keys, column, k, n) && v < n
    ensures var key := keys[k];
            && cursor[key] < |grouped|
            && Filled(cursor[key := cursor[key] + 1], grouped[cursor[key] := column[k]], keys, column, k + 1, v)
  {
    var key := keys[k];
    SlotFree(keys, n, k, key);
    SlotFree(keys, n, k, v);
    assert Filled(cursor, grouped, keys, column, k, key) && Filled(cursor, grouped, keys, column, k, v);
    if v < key {
      SmallerMonotone(keys, v + 1, key, |keys|);
    } else if key < v {
      SmallerMonotone(keys, key + 1, v, |keys|);
    }
  }

  lemma AllFilled(cursor: seq<nat>, offsets: seq<nat>, grouped: seq<nat>, keys: seq<nat>, column: seq<nat>, n: nat)
    requires |keys| == |column| == |grouped| && n <= |cursor| && KeysBelow(keys, n)
    requires Offsets(offsets, keys, n) && FilledAll(cursor, grouped, keys, column, |keys|, n)
    ensures Groups(offsets, grouped, keys, column, n)
  {
    OffsetsSpan(offsets, keys, n);
    forall v | 0 <= v < n
      ensures Row(offsets, grouped, v) == Select(column, Places(keys, v, |keys|))
    {
      SmallerNext(keys, v, |keys|);
      assert Filled(cursor, grouped, keys, column, |keys|, v);
    }
  }

  // ---------------------------------------------------------------------------
  // Every column can be grouped.

  /** The rows below `v`, one after the other. */
  ghost function Grouped(keys: seq<nat>, column: seq<nat>, v: nat): (r: seq<nat>)
    requires |keys| == |column|
  {
    if v == 0 then [] else Grouped(keys, column, v - 1) + Select(column, Places(keys, v - 1, |keys|))
  }

  lemma {:induction false} GroupedLength(keys: seq<nat>, column: seq<nat>, v: nat)
    requires |keys| == |column|
    ensures |Grouped(keys, column, v)| == Smaller(keys, v, |keys|)
  {
    hide Select, Places, Smaller;
    if v == 0 {
      SmallerNone(keys, |keys|);
    } else {
      GroupedLength(keys, column, v - 1);
      SmallerNext(keys, v - 1, |keys|);
    }
  }

  lemma {:induction false} GroupedRow(keys: seq<nat>, column: seq<nat>, n: nat, v: nat)
    requires |keys| == |column| && v < n
    ensures var lo, hi := Smaller(keys, v, |keys|), Smaller(keys, v + 1, |keys|);
            lo <= hi <= |Grouped(keys, column, n)| &&
            Grouped(keys, column, n)[lo..hi] == Select(column, Places(keys, v, |keys|))
    decreases n
  {
    hide Select, Places, Smaller;
    GroupedLength(keys, column, v);
    GroupedLength(keys, column, v + 1);
    SmallerNext(keys, v, |keys|);
    if v < n - 1 {
      GroupedRow(keys, column, n - 1, v);
    }
  }

  ghost function OffsetsOf(keys: seq<nat>, n: nat): (r: seq<nat>)
    ensures Offsets(r, keys, n)
  {
    seq(n + 1, v requires 0 <= v <= n => Smaller(keys, v, |keys|))
  }

  lemma GroupsExist(keys: seq<nat>, column: seq<nat>, n: nat)
    requires |keys| == |column| && KeysBelow(keys, n)
    ensures Groups(OffsetsOf(keys, n), Grouped(keys, column, n), keys, column, n)
  {
    hide Select, Places, Smaller, Grouped;
    OffsetsSpan(OffsetsOf(keys, n), keys, n);
    GroupedLength(keys, column, n);
    SmallerAll(keys, n, |keys|);
    forall v | 0 <= v < n
      ensures Row(OffsetsOf(keys, n), Grouped(keys, column, n), v) == Select(column, Places(keys, v, |keys|))
    {
      GroupedRow(keys, column, n, v);
    }
  }

  // ---------------------------------------------------------------------------
  // The counting sort.

  lemma CountStep(keys: seq<nat>, k: nat)
    requires k < |keys|
    ensures forall v: nat :: |Places(keys, v, k + 1)| == |Places(keys, v, k)| + if keys[k] == v then 1 else 0
  {
  }

  /** Row boundaries: count every key, then sum up. */
  method CountOffsets(n: nat, keys: seq<nat>) returns (offsets: array<U32>)
    requires KeysBelow(keys, n) && |keys| <= U32_MAX
    ensures fresh(offsets) && offsets.Length == n + 1 && Offsets(offsets[..], keys, n)
  {
    hide Places, Smaller;
    offsets := new U32[n + 1](_ => 0);
    var k := 0;
    assert forall v: nat :: |Places(keys, v, 0)| == 0;
    while k < |keys|
      invariant 0 <= k <= |keys| && offsets[0] == 0
      invariant forall i :: 1 <= i <= n ==> offsets[i] == |Places(keys, i - 1, k)|
    {
      var key := keys[k];
      CountStep(keys, k);
      assert |Places(keys, key, k)| <= k;
      offsets[key + 1] := offsets[key + 1] + 1;
      k := k + 1;
    }
    SmallerNone(keys, |keys|);
    var i := 1;
    while i < offsets.Length
      invariant 1 <= i <= n + 1
      invariant forall v :: 0 <= v < i ==> offsets[v] == Smaller(keys, v, |keys|)
      invariant forall j :: i <= j <= n ==> offsets[j] == |Places(keys, j - 1, |keys|)|
    {
      SmallerNext(keys, i - 1, |keys|);
      assert offsets[i - 1] == Smaller(keys, i - 1, |keys|);
      assert Smaller(keys, i, |keys|) <= |keys|;
      offsets[i] := offsets[i] + offsets[i - 1];
      i := i + 1;
    }
  }

  function Sources(edges: seq<(nat, nat)>): (r: seq<nat>)
    ensures |r| == |edges| && forall e :: 0 <= e < |edges| ==> r[e] == edges[e].0
  {
    seq(|edges|, e requires 0 <= e < |edges| => edges[e].0)
  }

  function Targets(edges: seq<(nat, nat)>): (r: seq<nat>)
    ensures |r| == |edges| && forall e :: 0 <= e < |edges| ==> r[e] == edges[e].1
  {
    seq(|edges|, e requires 0 <= e < |edges| => edges[e].1)
  }

  function Ids(m: nat): (r: seq<nat>)
    ensures |r| == m && forall e :: 0 <= e < m ==> r[e] == e
  {
    seq(m, e => e)
  }

  /** The rows of `csr` are the edges grouped by source, in edge order. */
  ghost predicate IsCsr(csr: Csr, edges: seq<(nat, nat)>, n: nat) {
    && Groups(csr.offsets, csr.edgeIds, Sources(edges), Ids(|edges|), n)
    && Groups(csr.offsets, csr.dests, Sources(edges), Targets(edges), n)
  }

  datatype CsrError = TooManyEdges(count: nat)

  method BuildCsr(n: nat, edges: seq<(nat, nat)>) returns (r: Result<Csr, CsrError>)
    requires KeysBelow(Sources(edges), n)
    ensures |edges| > U32_MAX ==> r == Err(TooManyEdges(|edges|))
    ensures |edges| <= U32_MAX ==> r.Ok? && IsCsr(r.value, edges, n)
  {
    hide Groups, Offsets, FilledAll, Ids, Targets;
    if |edges| > U32_MAX {
      return Err(TooManyEdges(|edges|));
    }
    ghost var keys := Sources(edges);
    var offsets := CountOffsets(n, Sources(edges));
    ghost var sums: seq<nat> := offsets[..];
    var edgeIds := new U32[|edges|](_ => 0);
    var dests := new nat[|edges|](_ => 0);
    var cursor := new U32[n + 1](_ => 0);
    forall v | 0 <= v < n + 1 {
      cursor[v] := offsets[v];
    }
    assert cursor[..] == sums == offsets[..];
    StartFilled(cursor[..], offsets[..], edgeIds[..], keys, Ids(|edges|), n);
    StartFilled(cursor[..], offsets[..], dests[..], keys, Targets(edges), n);
    var id := 0;
    while id < |edges|
      invariant 0 <= id <= |edges| && Offsets(offsets[..], keys, n)
      invariant FilledAll(cursor[..], edgeIds[..], keys, Ids(|edges|), id, n)
      invariant FilledAll(cursor[..], dests[..], keys, Targets(edges), id, n)
    {
      var (src, dest) := edges[id];
      ghost var before: seq<nat>, ids: seq<nat>, targets := cursor[..], edgeIds[..], dests[..];
      assert keys[id] == src;
      PlaceAll(before, ids, keys, Ids(|edges|), id, n);
      PlaceAll(before, targets, keys, Targets(edges), id, n);
      var pos := cursor[src];
      edgeIds[pos] := id;
      dests[pos] := dest;
      cursor[src] := cursor[src] + 1;
      assert cursor[..] == before[src := before[src] + 1];
      assert edgeIds[..] == ids[pos := id] && dests[..] == targets[pos := dest];
      id := id + 1;
    }
    AllFilled(cursor[..], offsets[..], edgeIds[..], keys, Ids(|edges|), n);
    AllFilled(cursor[..], offsets[..], dests[..], keys, Targets(edges), n);
    return Ok(Csr(offsets[..], edgeIds[..], dests[..]));
  }

  lemma StartFilled(cursor: seq<nat>, offsets: seq<nat>, grouped: seq<nat>, keys: seq<nat>, column: seq<nat>, n: nat)
    requires |keys| == |column| == |grouped| && cursor == offsets && Offsets(offsets, keys, n) && KeysBelow(keys, n)
    ensures FilledAll(cursor, grouped, keys, column, 0, n)
  {
    OffsetsSpan(offsets, keys, n);
  }

  lemma PlaceAll(cursor: seq<nat>, grouped: seq<nat>, keys: seq<nat>, column: seq<nat>, k: nat, n: nat)
    requires k < |keys| == |column| == |grouped| && n <= |cursor| && KeysBelow(keys, n)
    requires FilledAll(cursor, grouped, keys, column, k, n)
    ensures var key := keys[k];
            && cursor[key] < |grouped|
            && FilledAll(cursor[key := cursor[key] + 1], grouped[cursor[key] := column[k]], keys, column, k + 1, n)
  {
    hide Filled;
    Place(cursor, grouped, keys, column, k, n, keys[k]);
    var next, placed := cursor[keys[k] := cursor[keys[k]] + 1], grouped[cursor[keys[k]] := column[k]];
    var done := k + 1;
    forall v | 0 <= v < n
      ensures Filled(next, placed, keys, column, done, v)
    {
      Place(cursor, grouped, keys, column, k, n, v);
    }
  }

  // ---------------------------------------------------------------------------
  // What the rows are.

  /**
   * Stability: the row of a node lists exactly its edges, in increasing edge id,
   * each with its own destination.
   */
  lemma CsrRows(csr: Csr, edges: seq<(nat, nat)>, n: nat, v: nat)
    requires IsCsr(csr, edges, n) && v < n
    ensures var ids, dests := Row(csr.offsets, csr.edgeIds, v), Row(csr.offsets, csr.dests, v);
            && (forall e: nat :: e in ids <==> e < |edges| && edges[e].0 == v)
            && (forall a, b :: 0 <= a < b < |ids| ==> ids[a] < ids[b])
            && |dests| == |ids| && (forall a :: 0 <= a < |ids| ==> ids[a] < |edges| && dests[a] == edges[ids[a]].1)
  {
    hide Places, Smaller;
    var places := Places(Sources(edges), v, |edges|);
    PlacesExact(Sources(edges), v, |edges|);
    assert Row(csr.offsets, csr.edgeIds, v) == Select(Ids(|edges|), places) == places;
    assert Row(csr.offsets, csr.dests, v) == Select(Targets(edges), places);
  }

  /** The row that position `p` of a column belongs to. */
  ghost function Owner(offsets: seq<nat>, p: nat, v: nat): (r: nat)
    requires v < |offsets| && p < offsets[v] && offsets[0] == 0
    ensures r < v && offsets[r] <= p < offsets[r + 1]
  {
    if offsets[v - 1] <= p then v - 1 else Owner(offsets, p, v - 1)
  }

  lemma CsrDistinct(csr: Csr, edges: seq<(nat, nat)>, n: nat, p: nat, q: nat)
    requires IsCsr(csr, edges, n) && p < q < |csr.edgeIds|
    ensures csr.edgeIds[p] != csr.edgeIds[q]
  {
    hide Groups, Owner, Select, Places, Smaller;
    GroupsShape(csr.offsets, csr.edgeIds, Sources(edges), Ids(|edges|), n);
    CsrPosition(csr, edges, n, p);
    CsrPosition(csr, edges, n, q);
    var v := Owner(csr.offsets, p, n);
    if v == Owner(csr.offsets, q, n) {
      CsrIncreasing(csr, edges, n, v, p - csr.offsets[v], q - csr.offsets[v]);
    }
  }

  lemma CsrIncreasing(csr: Csr, edges: seq<(nat, nat)>, n: nat, v: nat, a: nat, b: nat)
    requires IsCsr(csr, edges, n) && v < n && a < b < |Row(csr.offsets, csr.edgeIds, v)|
    ensures csr.edgeIds[csr.offsets[v] + a] < csr.edgeIds[csr.offsets[v] + b]
  {
    CsrRows(csr, edges, n, v);
  }

  /** Every edge id occupies exactly one position. */
  lemma CsrPermutes(csr: Csr, edges: seq<(nat, nat)>, n: nat)
    requires IsCsr(csr, edges, n) && KeysBelow(Sources(edges), n)
    ensures |csr.edgeIds| == |edges|
    ensures forall e: nat :: e < |edges| <==> e in csr.edgeIds
    ensures forall p, q :: 0 <= p < q < |csr.edgeIds| ==> csr.edgeIds[p] != csr.edgeIds[q]
  {
    hide IsCsr, Groups, Owner, Places, Smaller, Select, Row;
    CsrShape(csr, edges, n);
    forall p | 0 <= p < |csr.edgeIds|
      ensures csr.edgeIds[p] < |edges|
    {
      CsrPosition(csr, edges, n, p);
    }
    forall e | 0 <= e < |edges|
      ensures e in csr.edgeIds
    {
      assert Sources(edges)[e] < n;
      CsrListed(csr, edges, n, e);
    }
    forall p, q | 0 <= p < q < |csr.edgeIds|
      ensures csr.edgeIds[p] != csr.edgeIds[q]
    {
      CsrDistinct(csr, edges, n, p, q);
    }
  }

  lemma CsrListed(csr: Csr, edges: seq<(nat, nat)>, n: nat, e: nat)
    requires IsCsr(csr, edges, n) && e < |edges| && edges[e].0 < n
    ensures e in csr.edgeIds
  {
    hide Groups, Select, Places, Smaller;
    var v := edges[e].0;
    GroupsShape(csr.offsets, csr.edgeIds, Sources(edges), Ids(|edges|), n);
    CsrRows(csr, edges, n, v);
    var ids := Row(csr.offsets, csr.edgeIds, v);
    assert e in ids;
    var a :| 0 <= a < |ids| && ids[a] == e;
    assert csr.edgeIds[csr.offsets[v] + a] == e;
  }

  lemma GroupsShape(offsets: seq<nat>, grouped: seq<nat>, keys: seq<nat>, column: seq<nat>, n: nat)
    requires Groups(offsets, grouped, keys, column, n)
    ensures |grouped| == |column| == |keys| && |offsets| == n + 1 && Spans(offsets, |keys|)
  {
  }

  lemma CsrShape(csr: Csr, edges: seq<(nat, nat)>, n: nat)
    requires IsCsr(csr, edges, n)
    ensures |csr.edgeIds| == |edges| && |csr.offsets| == n + 1 && Spans(csr.offsets, |edges|)
  {
  }

  lemma DestsLength(csr: Csr, edges: seq<(nat, nat)>, n: nat)
    requires IsCsr(csr, edges, n)
    ensures |csr.dests| == |edges|
  {
  }

  lemma CsrPosition(csr: Csr, edges: seq<(nat, nat)>, n: nat, p: nat)
    requires IsCsr(csr, edges, n) && p < |csr.edgeIds|
    requires |csr.offsets| == n + 1 && csr.offsets[0] == 0 && csr.offsets[n] == |csr.edgeIds|
    ensures csr.edgeIds[p] < |edges| && edges[csr.edgeIds[p]].0 == Owner(csr.offsets, p, n)
    ensures |csr.dests| == |csr.edgeIds| && csr.dests[p] == edges[csr.edgeIds[p]].1
  {
    hide Groups;
    GroupsShape(csr.offsets, csr.edgeIds, Sources(edges), Ids(|edges|), n);
    GroupsShape(csr.offsets, csr.dests, Sources(edges), Targets(edges), n);
    var v := Owner(csr.offsets, p, n);
    CsrRows(csr, edges, n, v);
    assert Row(csr.offsets, csr.edgeIds, v)[p - csr.offsets[v]] == csr.edgeIds[p];
    assert Row(csr.offsets, csr.dests, v)[p - csr.offsets[v]] == csr.dests[p];
  }

  // ---------------------------------------------------------------------------
  // The transpose.

  /** The source node of every position of the outgoing rows. */
  ghost function Owners(offsets: seq<nat>, m: nat, n: nat): (r: seq<nat>)
    requires |offsets| == n + 1 && Spans(offsets, m)
    ensures |r| == m && forall p :: 0 <= p < m ==> r[p] == Owner(offsets, p, n)
  {
    seq(m, p requires 0 <= p < m => Owner(offsets, p, n))
  }

  lemma {:induction false} OwnerIs(offsets: seq<nat>, p: nat, v: nat, u: nat)
    requires v < |offsets| && p < offsets[v] && offsets[0] == 0
    requires forall i, j :: 0 <= i <= j < |offsets| ==> offsets[i] <= offsets[j]
    requires u < v && offsets[u] <= p < offsets[u + 1]
    ensures Owner(offsets, p, v) == u
  {
    if offsets[v - 1] > p {
      OwnerIs(offsets, p, v - 1, u);
    }
  }

  /** The rows of `inc` are the positions of the outgoing rows grouped by destination. */
  ghost predicate IsIncoming(inc: IncomingCsr, offsets: seq<nat>, dests: seq<nat>, n: nat)
    requires |offsets| == n + 1 && Spans(offsets, |dests|)
  {
    Groups(inc.offsets, inc.srcs, dests, Owners(offsets, |dests|, n), n)
  }

  /** Places the positions `from` to `to`, which are the row of `src`, behind what has been placed. */
  method PlaceRow(src: nat, from: nat, to: nat, n: nat, offsets: seq<U32>, dests: seq<nat>,
                  srcs: array<nat>, cursor: array<U32>)
    requires |offsets| == n + 1 && Spans(offsets, |dests|) && KeysBelow(dests, n) && |dests| <= U32_MAX
    requires src < n && offsets[src] == from <= to == offsets[src + 1]
    requires srcs.Length == |dests| && cursor.Length == n + 1
    requires FilledAll(cursor[..], srcs[..], dests, Owners(offsets, |dests|, n), from, n)
    modifies srcs, cursor
    ensures FilledAll(cursor[..], srcs[..], dests, Owners(offsets, |dests|, n), to, n)
  {
    hide FilledAll, Owners;
    ghost var owners := Owners(offsets, |dests|, n);
    var p := from;
    while p < to
      invariant from <= p <= to
      invariant FilledAll(cursor[..], srcs[..], dests, owners, p, n)
    {
      var dest := dests[p];
      ghost var before: seq<nat>, placed: seq<nat> := cursor[..], srcs[..];
      OwnerIs(offsets, p, n, src);
      PlaceAll(before, placed, dests, owners, p, n);
      var pos := cursor[dest];
      srcs[pos] := src;
      cursor[dest] := cursor[dest] + 1;
      assert cursor[..] == before[dest := before[dest] + 1] && srcs[..] == placed[pos := src];
      p := p + 1;
    }
  }

  /** With the right offsets and only zeros as sources, the rows are right when every position belongs to node 0. */
  lemma ZeroRows(offsets: seq<nat>, srcs: seq<nat>, keys: seq<nat>, owners: seq<nat>, n: nat)
    requires |srcs| == |keys| == |owners| && Offsets(offsets, keys, n) && KeysBelow(keys, n)
    requires forall p :: 0 <= p < |srcs| ==> srcs[p] == 0
    ensures Groups(offsets, srcs, keys, owners, n) <==> forall p :: 0 <= p < |keys| ==> owners[p] == 0
  {
    hide Places, Smaller;
    OffsetsSpan(offsets, keys, n);
    if Groups(offsets, srcs, keys, owners, n) {
      forall p | 0 <= p < |keys|
        ensures owners[p] == 0
      {
        var v, places := keys[p], Places(keys, keys[p], |keys|);
        PlacesExact(keys, v, |keys|);
        var a :| 0 <= a < |places| && places[a] == p;
        assert Row(offsets, srcs, v)[a] == Select(owners, places)[a];
      }
    } else if forall p :: 0 <= p < |keys| ==> owners[p] == 0 {
      forall v | 0 <= v < n
        ensures Row(offsets, srcs, v) == Select(owners, Places(keys, v, |keys|))
      {
        SmallerNext(keys, v, |keys|);
      }
    }
  }

  /**
   * Groups the positions of the rows by destination. The offsets are always right. The loop over
   * the sources runs to the node count as a 32-bit id, so with exactly 2^32 nodes it does
   * nothing, and all sources stay 0: right for positions of node 0 and for no others.
   */
  method BuildIncomingCsr(n: nat, offsets: seq<U32>, dests: seq<nat>) returns (inc: IncomingCsr)
    requires |offsets| == n + 1 && Spans(offsets, |dests|) && KeysBelow(dests, n) && |dests| <= U32_MAX
    ensures Offsets(inc.offsets, dests, n) && |inc.srcs| == |dests|
    ensures n <= U32_MAX ==> IsIncoming(inc, offsets, dests, n)
    ensures n == U32_MAX + 1 ==> forall p :: 0 <= p < |inc.srcs| ==> inc.srcs[p] == 0
    ensures n <= U32_MAX + 1 ==>
              (IsIncoming(inc, offsets, dests, n) <==>
               n <= U32_MAX || forall p :: 0 <= p < |dests| ==> Owners(offsets, |dests|, n)[p] == 0)
  {
    hide Groups, Offsets, Owners, FilledAll;
    ghost var owners := Owners(offsets, |dests|, n);
    assert |owners| == |dests|;
    var starts := CountOffsets(n, dests);
    ghost var sums: seq<nat> := starts[..];
    var srcs := new nat[|dests|](_ => 0);
    var cursor := new U32[n + 1](_ => 0);
    forall v | 0 <= v < n + 1 {
      cursor[v] := starts[v];
    }
    assert cursor[..] == sums == starts[..];
    StartFilled(cursor[..], starts[..], srcs[..], dests, owners, n);
    var limit := n % (U32_MAX + 1);
    var src: nat := 0;
    while src < limit
      invariant 0 <= src <= limit <= n && starts[..] == sums
      invariant src == 0 ==> forall p :: 0 <= p < srcs.Length ==> srcs[p] == 0
      invariant FilledAll(cursor[..], srcs[..], dests, owners, offsets[src], n)
    {
      PlaceRow(src, offsets[src], offsets[src + 1], n, offsets, dests, srcs, cursor);
      src := src + 1;
    }
    if n <= U32_MAX {
      AllFilled(cursor[..], starts[..], srcs[..], dests, owners, n);
    } else if n == U32_MAX + 1 {
      ZeroRows(starts[..], srcs[..], dests, owners, n);
    }
    inc := IncomingCsr(starts[..], srcs[..]);
  }

  /** How many of the first `k` positions hold key `v` and value `u`. */
  ghost function Joint(keys: seq<nat>, column: seq<nat>, v: nat, u: nat, k: nat): nat
    requires k <= |keys| == |column|
  {
    if k == 0 then 0
    else Joint(keys, column, v, u, k - 1) + if keys[k - 1] == v && column[k - 1] == u then 1 else 0
  }

  lemma {:induction false} SelectCount(keys: seq<nat>, column: seq<nat>, v: nat, u: nat, k: nat)
    requires k <= |keys| == |column|
    ensures multiset(Select(column, Places(keys, v, k)))[u] == Joint(keys, column, v, u, k)
  {
    if k > 0 {
      SelectCount(keys, column, v, u, k - 1);
      var before, x := Select(column, Places(keys, v, k - 1)), column[k - 1];
      if keys[k - 1] == v {
        assert Select(column, Places(keys, v, k)) == before + [x];
        assert multiset(before + [x]) == multiset(before) + multiset{x};
      } else {
        assert Select(column, Places(keys, v, k)) == before;
      }
    }
  }

  lemma {:induction false} EdgeCount(edges: seq<(nat, nat)>, u: nat, v: nat, k: nat)
    requires k <= |edges|
    ensures Joint(Sources(edges), Targets(edges), u, v, k) == multiset(edges[..k])[(u, v)]
  {
    if k > 0 {
      EdgeCount(edges, u, v, k - 1);
      assert edges[..k] == edges[..k - 1] + [edges[k - 1]];
    }
  }

  /** The part of row `u` among the first `k` positions. */
  ghost function RowSoFar(offsets: seq<nat>, dests: seq<nat>, u: nat, k: nat): seq<nat>
    requires u + 1 < |offsets| && offsets[u] <= offsets[u + 1] <= |dests| && k <= |dests|
  {
    if k <= offsets[u] then []
    else if k <= offsets[u + 1] then dests[offsets[u]..k]
    else dests[offsets[u]..offsets[u + 1]]
  }

  lemma RowGrows(offsets: seq<nat>, dests: seq<nat>, u: nat, p: nat)
    requires u + 1 < |offsets| && offsets[u] <= offsets[u + 1] <= |dests| && p < |dests|
    ensures RowSoFar(offsets, dests, u, p + 1) ==
            RowSoFar(offsets, dests, u, p) + if offsets[u] <= p < offsets[u + 1] then [dests[p]] else []
  {
    var lo, hi := offsets[u], offsets[u + 1];
    if lo <= p < hi {
      assert dests[lo..p + 1] == dests[lo..p] + [dests[p]];
    } else {
      assert RowSoFar(offsets, dests, u, p) + [] == RowSoFar(offsets, dests, u, p);
    }
  }

  lemma RowWhole(offsets: seq<nat>, dests: seq<nat>, u: nat)
    requires u + 1 < |offsets| && offsets[u] <= offsets[u + 1] <= |dests|
    ensures RowSoFar(offsets, dests, u, 0) == [] && RowSoFar(offsets, dests, u, |dests|) == Row(offsets, dests, u)
  {
  }

  lemma SpansAt(offsets: seq<nat>, m: nat, u: nat)
    requires Spans(offsets, m) && u + 1 < |offsets|
    ensures offsets[u] <= offsets[u + 1] <= m
  {
  }

  /** Counting by owner is counting within the owner's row. */
  lemma {:induction false} OwnerCount(offsets: seq<nat>, dests: seq<nat>, n: nat, u: nat, v: nat, k: nat)
    requires |offsets| == n + 1 && Spans(offsets, |dests|) && u < n && k <= |dests|
    ensures Joint(dests, Owners(offsets, |dests|, n), v, u, k) == multiset(RowSoFar(offsets, dests, u, k))[v]
  {
    hide RowSoFar, Spans, Owner, Owners;
    SpansAt(offsets, |dests|, u);
    var owners := Owners(offsets, |dests|, n);
    if k > 0 {
      var p := k - 1;
      OwnerCount(offsets, dests, n, u, v, p);
      RowGrows(offsets, dests, u, p);
      OwnerOf(offsets, |dests|, n, u, p);
      if offsets[u] <= p < offsets[u + 1] {
        assert multiset(RowSoFar(offsets, dests, u, p) + [dests[p]]) ==
               multiset(RowSoFar(offsets, dests, u, p)) + multiset{dests[p]};
      } else {
        assert RowSoFar(offsets, dests, u, k) == RowSoFar(offsets, dests, u, p);
      }
    } else {
      RowWhole(offsets, dests, u);
    }
  }

  /** A position is owned by the row it lies in. */
  lemma OwnerOf(offsets: seq<nat>, m: nat, n: nat, u: nat, p: nat)
    requires |offsets| == n + 1 && Spans(offsets, m) && u < n && p < m
    ensures Owners(offsets, m, n)[p] == u <==> offsets[u] <= p < offsets[u + 1]
  {
    if offsets[u] <= p < offsets[u + 1] {
      OwnerIs(offsets, p, n, u);
    }
  }

  lemma TransposedOut(csr: Csr, edges: seq<(nat, nat)>, n: nat, u: nat, v: nat)
    requires IsCsr(csr, edges, n) && u < n
    ensures multiset(Row(csr.offsets, csr.dests, u))[v] == multiset(edges)[(u, v)]
  {
    hide Select;
    SelectCount(Sources(edges), Targets(edges), u, v, |edges|);
    EdgeCount(edges, u, v, |edges|);
    assert edges[..|edges|] == edges;
    assert Row(csr.offsets, csr.dests, u) == Select(Targets(edges), Places(Sources(edges), u, |edges|));
  }

  lemma TransposedIn(inc: IncomingCsr, offsets: seq<nat>, dests: seq<nat>, n: nat, u: nat, v: nat)
    requires |offsets| == n + 1 && Spans(offsets, |dests|)
    requires IsIncoming(inc, offsets, dests, n) && u < n && v < n
    ensures multiset(Row(inc.offsets, inc.srcs, v))[u] == multiset(Row(offsets, dests, u))[v]
  {
    hide Select, Owners, RowSoFar;
    var owners := Owners(offsets, |dests|, n);
    SelectCount(dests, owners, v, u, |dests|);
    OwnerCount(offsets, dests, n, u, v, |dests|);
    RowWhole(offsets, dests, u);
    assert Row(inc.offsets, inc.srcs, v) == Select(owners, Places(dests, v, |dests|));
  }

  /** The incoming rows are the transpose of the outgoing rows, parallel edges included. */
  lemma Transposed(csr: Csr, inc: IncomingCsr, edges: seq<(nat, nat)>, n: nat, u: nat, v: nat)
    requires |csr.offsets| == n + 1 && Spans(csr.offsets, |csr.dests|)
    requires IsCsr(csr, edges, n) && IsIncoming(inc, csr.offsets, csr.dests, n) && u < n && v < n
    ensures multiset(Row(inc.offsets, inc.srcs, v))[u] == multiset(edges)[(u, v)]
    ensures multiset(Row(csr.offsets, csr.dests, u))[v] == multiset(edges)[(u, v)]
  {
    hide Places, Smaller, Select, Owner, Owners;
    TransposedOut(csr, edges, n, u, v);
    TransposedIn(inc, csr.offsets, csr.dests, n, u, v);
  }

  lemma {:induction false} OwnerMonotone(offsets: seq<nat>, p: nat, q: nat, v: nat)
    requires v < |offsets| && offsets[0] == 0 && p <= q < offsets[v]
    ensures Owner(offsets, p, v) <= Owner(offsets, q, v)
  {
    if q < offsets[v - 1] {
      OwnerMonotone(offsets, p, q, v - 1);
    }
  }

  /** The sources of every incoming row never decrease. */
  lemma IncomingSorted(csr: Csr, inc: IncomingCsr, n: nat, v: nat, a: nat, b: nat)
    requires |csr.offsets| == n + 1 && Spans(csr.offsets, |csr.dests|)
    requires IsIncoming(inc, csr.offsets, csr.dests, n) && v < n
    requires a < b < |Row(inc.offsets, inc.srcs, v)|
    ensures Row(inc.offsets, inc.srcs, v)[a] <= Row(inc.offsets, inc.srcs, v)[b]
  {
    var places := Places(csr.dests, v, |csr.dests|);
    PlacesExact(csr.dests, v, |csr.dests|);
    assert Row(inc.offsets, inc.srcs, v) == Select(Owners(csr.offsets, |csr.dests|, n), places);
    OwnerMonotone(csr.offsets, places[a], places[b], n);
  }

  /** Every edge leaves node 0. */
  ghost predicate FromFirst(edges: seq<(nat, nat)>) {
    forall e :: 0 <= e < |edges| ==> edges[e].0 == 0
  }

  /** All positions belong to node 0 exactly when every edge leaves it. */
  lemma OwnersFirst(csr: Csr, edges: seq<(nat, nat)>, n: nat)
    requires IsCsr(csr, edges, n) && KeysBelow(Sources(edges), n)
    ensures |csr.offsets| == n + 1 && Spans(csr.offsets, |csr.dests|) && |csr.dests| == |edges|
    ensures (forall p :: 0 <= p < |csr.dests| ==> Owners(csr.offsets, |csr.dests|, n)[p] == 0) <==> FromFirst(edges)
  {
    hide IsCsr, Owner;
    CsrShape(csr, edges, n);
    DestsLength(csr, edges, n);
    CsrPermutes(csr, edges, n);
    forall p | 0 <= p < |csr.dests|
      ensures csr.edgeIds[p] < |edges| && edges[csr.edgeIds[p]].0 == Owner(csr.offsets, p, n)
    {
      CsrPosition(csr, edges, n, p);
    }
    if forall p :: 0 <= p < |csr.dests| ==> Owners(csr.offsets, |csr.dests|, n)[p] == 0 {
      forall e | 0 <= e < |edges|
        ensures edges[e].0 == 0
      {
        assert e in csr.edgeIds;
        var p :| 0 <= p < |csr.edgeIds| && csr.edgeIds[p] == e;
        assert Owners(csr.offsets, |csr.dests|, n)[p] == 0;
      }
    }
  }

  /**
   * 2^32 nodes and the one edge from 1 to 0: sources left at 0 say that node 0 precedes itself,
   * which it does not, and that node 1 does not precede it, which it does.
   */
  lemma LargeGraphWrong(csr: Csr, inc: IncomingCsr)
    requires IsCsr(csr, [(1, 0)], U32_MAX + 1) && Offsets(inc.offsets, csr.dests, U32_MAX + 1)
    requires inc.srcs == [0]
    ensures csr.dests == [0] && |csr.offsets| == U32_MAX + 2 && Spans(csr.offsets, |csr.dests|)
    ensures inc.offsets[0] == 0 && inc.offsets[1] == 1 && Row(inc.offsets, inc.srcs, 0) == [0]
    ensures !IsIncoming(inc, csr.offsets, csr.dests, U32_MAX + 1)
  {
    hide IsCsr, Groups;
    var edges, n := [(1, 0)], U32_MAX + 1;
    CsrShape(csr, edges, n);
    DestsLength(csr, edges, n);
    CsrPosition(csr, edges, n, 0);
    assert csr.dests == [0];
    SmallerNone(csr.dests, 1);
    SmallerNext(csr.dests, 0, 1);
    assert Sources(edges)[0] == 1;
    OwnersFirst(csr, edges, n);
    assert !FromFirst(edges) by {
      assert edges[0].0 == 1;
    }
    ZeroRows(inc.offsets, inc.srcs, csr.dests, Owners(csr.offsets, |csr.dests|, n), n);
  }

  // ---------------------------------------------------------------------------
  // Degrees.

  function DegreesFromOffsets(offsets: seq<nat>): (r: seq<nat>)
    requires |offsets| >= 1 && forall i :: 0 < i < |offsets| ==> offsets[i - 1] <= offsets[i]
    ensures |r| == |offsets| - 1
  {
    seq(|offsets| - 1, i requires 0 <= i < |offsets| - 1 => var next := i + 1; offsets[next] - offsets[next - 1])
  }

  lemma {:induction false} DegreesTelescope(offsets: seq<nat>, k: nat)
    requires |offsets| >= 1 && forall i :: 0 < i < |offsets| ==> offsets[i - 1] <= offsets[i]
    requires k < |offsets|
    ensures offsets[0] + Sum(DegreesFromOffsets(offsets)[..k]) == offsets[k]
  {
    if k > 0 {
      DegreesTelescope(offsets, k - 1);
      var d := DegreesFromOffsets(offsets);
      assert d[..k][..k - 1] == d[..k - 1];
    }
  }

  /** Out-degree plus in-degree of every node. */
  function ComputeDegrees(out: seq<nat>, incoming: seq<nat>): (r: seq<nat>)
    requires |out| == |incoming| >= 1
    requires forall i :: 0 < i < |out| ==> out[i - 1] <= out[i] && incoming[i - 1] <= incoming[i]
    ensures |r| == |out| - 1
  {
    seq(|out| - 1, i requires 0 <= i < |out| - 1 =>
      var next := i + 1; (out[next] - out[next - 1]) + (incoming[next] - incoming[next - 1]))
  }

  lemma {:induction false} CombinedTelescope(out: seq<nat>, incoming: seq<nat>, k: nat)
    requires |out| == |incoming| >= 1 && k < |out|
    requires forall i :: 0 < i < |out| ==> out[i - 1] <= out[i] && incoming[i - 1] <= incoming[i]
    ensures out[0] + incoming[0] + Sum(ComputeDegrees(out, incoming)[..k]) == out[k] + incoming[k]
  {
    if k > 0 {
      CombinedTelescope(out, incoming, k - 1);
      var d := ComputeDegrees(out, incoming);
      assert d[..k][..k - 1] == d[..k - 1];
    }
  }

  lemma DegreesTotal(offsets: seq<nat>, m: nat)
    requires Spans(offsets, m)
    ensures Sum(DegreesFromOffsets(offsets)) == m
  {
    hide Sum;
    var n := |offsets| - 1;
    DegreesTelescope(offsets, n);
    assert DegreesFromOffsets(offsets)[..n] == DegreesFromOffsets(offsets);
  }

  lemma CombinedTotal(out: seq<nat>, incoming: seq<nat>, m: nat)
    requires Spans(out, m) && Spans(incoming, m) && |out| == |incoming|
    ensures Sum(ComputeDegrees(out, incoming)) == 2 * m
  {
    hide Sum;
    var n := |out| - 1;
    CombinedTelescope(out, incoming, n);
    assert ComputeDegrees(out, incoming)[..n] == ComputeDegrees(out, incoming);
  }

  /** Out-degrees and in-degrees each add up to the number of edges, combined degrees to twice that. */
  lemma DegreesSum(csr: Csr, inc: IncomingCsr, edges: seq<(nat, nat)>, n: nat)
    requires |csr.offsets| == n + 1 && Spans(csr.offsets, |csr.dests|)
    requires IsCsr(csr, edges, n) && IsIncoming(inc, csr.offsets, csr.dests, n)
    ensures Sum(DegreesFromOffsets(csr.offsets)) == |edges| == Sum(DegreesFromOffsets(inc.offsets))
    ensures Sum(ComputeDegrees(csr.offsets, inc.offsets)) == 2 * |edges|
  {
    hide Sum, Groups, Owners;
    DestsLength(csr, edges, n);
    GroupsShape(inc.offsets, inc.srcs, csr.dests, Owners(csr.offsets, |csr.dests|, n), n);
    DegreesTotal(csr.offsets, |edges|);
    DegreesTotal(inc.offsets, |edges|);
    CombinedTotal(csr.offsets, inc.offsets, |edges|);
  }

  lemma {:induction false} PlacesCount(keys: seq<nat>, v: nat, k: nat)
    requires k <= |keys|
    ensures |Places(keys, v, k)| == multiset(keys[..k])[v]
  {
    hide Places;
    if k > 0 {
      var init, last := keys[..k - 1], keys[k - 1];
      PlacesCount(keys, v, k - 1);
      CountStep(keys, k - 1);
      assert keys[..k] == init + [last];
      assert multiset(init + [last]) == multiset(init) + multiset{last};
    } else {
      assert keys[..0] == [];
    }
  }

  lemma SelectSplit(column: seq<nat>, a: seq<nat>, x: nat, b: seq<nat>)
    requires x < |column| && forall i :: 0 <= i < |a| ==> a[i] < |column|
    requires forall i :: 0 <= i < |b| ==> b[i] < |column|
    ensures var all := a + [x] + b;
            && (forall i :: 0 <= i < |all| ==> all[i] < |column|)
            && (forall i :: 0 <= i < |a + b| ==> (a + b)[i] < |column|)
            && multiset(Select(column, all)) == multiset{column[x]} + multiset(Select(column, a + b))
  {
    var all := a + [x] + b;
    assert Select(column, all) == Select(column, a) + [column[x]] + Select(column, b);
    assert Select(column, a + b) == Select(column, a) + Select(column, b);
  }

  /** The numbers below `m`, each once, in any order. */
  ghost predicate Arrangement(places: seq<nat>, m: nat) {
    && (forall e: nat :: e < m <==> e in places)
    && (forall i, j :: 0 <= i < j < |places| ==> places[i] != places[j])
  }

  lemma ArrangementRest(a: seq<nat>, b: seq<nat>, m: nat)
    requires Arrangement(a + [m] + b, m + 1)
    ensures Arrangement(a + b, m)
  {
    var all, rest := a + [m] + b, a + b;
    forall i | 0 <= i < |rest|
      ensures rest[i] < m
    {
      var k := if i < |a| then i else i + 1;
      assert rest[i] == all[k] && all[k] in all && all[|a|] == m;
    }
    forall e: nat | e < m
      ensures e in rest
    {
      assert e in all;
    }
    forall i, j | 0 <= i < j < |rest|
      ensures rest[i] != rest[j]
    {
      assert rest[i] == all[if i < |a| then i else i + 1] && rest[j] == all[if j < |a| then j else j + 1];
    }
  }

  lemma ArrangementBelow(places: seq<nat>, m: nat)
    requires Arrangement(places, m)
    ensures forall i :: 0 <= i < |places| ==> places[i] < m
  {
    forall i | 0 <= i < |places|
      ensures places[i] < m
    {
      assert places[i] in places;
    }
  }

  lemma ArrangementFind(places: seq<nat>, e: nat, m: nat) returns (k: nat)
    requires Arrangement(places, m) && e < m
    ensures k < |places| && places == places[..k] + [e] + places[k + 1..]
  {
    assert e in places;
    k :| 0 <= k < |places| && places[k] == e;
  }

  lemma NothingArranged(column: seq<nat>, places: seq<nat>)
    requires Arrangement(places, 0)
    ensures places == [] && Select(column, places) == [] == column[..0]
  {
    FirstIn(places);
  }

  lemma FirstIn(s: seq<nat>)
    ensures s != [] ==> s[0] in s
  {
  }

  /** Selecting a whole column in any order rearranges it. */
  lemma {:induction false} SelectPermutes(column: seq<nat>, places: seq<nat>, m: nat)
    requires m <= |column| && Arrangement(places, m)
    ensures forall i :: 0 <= i < |places| ==> places[i] < |column|
    ensures multiset(Select(column, places)) == multiset(column[..m])
    decreases m
  {
    hide Select, Arrangement;
    ArrangementBelow(places, m);
    if m > 0 {
      var last := m - 1;
      var k := ArrangementFind(places, last, m);
      var a, b := places[..k], places[k + 1..];
      ArrangementRest(a, b, last);
      SelectPermutes(column, a + b, last);
      ArrangementBelow(a + b, last);
      SelectSplit(column, a, last, b);
      InitLast(column[..m]);
      assert column[..m][..last] == column[..last];
    } else {
      NothingArranged(column, places);
    }
  }

  /** The row column rearranges the destinations of the edge list. */
  lemma DestsPermute(csr: Csr, edges: seq<(nat, nat)>, n: nat)
    requires IsCsr(csr, edges, n) && KeysBelow(Sources(edges), n)
    ensures multiset(csr.dests) == multiset(Targets(edges))
  {
    hide IsCsr, Select, Row;
    CsrPermutes(csr, edges, n);
    CsrShape(csr, edges, n);
    SelectPermutes(Targets(edges), csr.edgeIds, |edges|);
    assert Targets(edges)[..|edges|] == Targets(edges);
    assert Arrangement(csr.edgeIds, |edges|);
    DestsSelected(csr, edges, n);
  }

  lemma DestsSelected(csr: Csr, edges: seq<(nat, nat)>, n: nat)
    requires IsCsr(csr, edges, n) && forall p :: 0 <= p < |csr.edgeIds| ==> csr.edgeIds[p] < |edges|
    ensures csr.dests == Select(Targets(edges), csr.edgeIds)
  {
    hide IsCsr;
    CsrShape(csr, edges, n);
    DestsLength(csr, edges, n);
    forall p | 0 <= p < |csr.edgeIds|
      ensures csr.dests[p] == edges[csr.edgeIds[p]].1
    {
      CsrPosition(csr, edges, n, p);
    }
  }

  /** A node's degrees count its outgoing and its incoming edges in the edge list, a self-loop in both. */
  lemma DegreeCounts(csr: Csr, inc: IncomingCsr, edges: seq<(nat, nat)>, n: nat, v: nat)
    requires |csr.offsets| == n + 1 && Spans(csr.offsets, |csr.dests|) && KeysBelow(Sources(edges), n)
    requires IsCsr(csr, edges, n) && IsIncoming(inc, csr.offsets, csr.dests, n) && v < n
    ensures var out, into := |Places(Sources(edges), v, |edges|)|, |Places(Targets(edges), v, |edges|)|;
            && DegreesFromOffsets(csr.offsets)[v] == out && DegreesFromOffsets(inc.offsets)[v] == into
            && ComputeDegrees(csr.offsets, inc.offsets)[v] == out + into
  {
    hide Places;
    assert |Row(csr.offsets, csr.dests, v)| == |Places(Sources(edges), v, |edges|)|;
    assert |Row(inc.offsets, inc.srcs, v)| == |Places(csr.dests, v, |csr.dests|)|;
    DestsPermute(csr, edges, n);
    PlacesCount(csr.dests, v, |csr.dests|);
    PlacesCount(Targets(edges), v, |edges|);
    assert csr.dests[..|csr.dests|] == csr.dests && Targets(edges)[..|edges|] == Targets(edges);
  }
}

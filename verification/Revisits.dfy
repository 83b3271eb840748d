/**
 * Counting how often nodes lie on a path: the per-path fingerprint that lets most
 * revisit tests skip the parent chain, and the three live counters of depth-first
 * search.
 */
module Revisits {
  import opened Wrappers
  import opened Enumeration
  import opened Words

  // ---------------------------------------------------------------------------
  // The fingerprint of a path: two hashed bits per node in 256.

  function VisitHashes(node: NodeId): (h: (nat, nat))
    ensures h.0 < 256 && h.1 < 256
  {
    (node % 0x100, (node * 0x9e37_79b1) % 0x1_0000_0000 / 0x100_0000)
  }

  datatype Fingerprint = Fingerprint(words: seq<bv64>) {
    predicate Valid() { |words| == 4 }

    function Insert(node: NodeId): (r: Fingerprint)
      requires Valid()
      ensures r.Valid()
    {
      Fingerprint(SetBit(SetBit(words, VisitHashes(node).0), VisitHashes(node).1))
    }

    predicate MightContain(node: NodeId)
      requires Valid()
    {
      TestBit(words, VisitHashes(node).0) && TestBit(words, VisitHashes(node).1)
    }
  }

  function ForNode(node: NodeId): (r: Fingerprint)
    ensures r.Valid()
  {
    Fingerprint([0, 0, 0, 0]).Insert(node)
  }

  /** The fingerprint never denies a node of the walk. */
  ghost predicate Covers(f: Fingerprint, w: Walk) {
    f.Valid() && forall v :: Occurs(w, v) > 0 ==> f.MightContain(v)
  }

  lemma InsertContains(f: Fingerprint, node: NodeId, v: NodeId)
    requires f.Valid()
    ensures f.Insert(node).MightContain(node)
    ensures f.MightContain(v) ==> f.Insert(node).MightContain(v)
  {
    var (a, b) := VisitHashes(node);
    var once := SetBit(f.words, a);
    WordsBits(f.words, a, a);
    WordsBits(once, b, a);
    WordsBits(once, b, b);
    var (c, d) := VisitHashes(v);
    WordsBits(f.words, a, c);
    WordsBits(f.words, a, d);
    WordsBits(once, b, c);
    WordsBits(once, b, d);
  }

  lemma OriginCovered(w: Walk)
    requires w.Origin?
    ensures Covers(ForNode(w.node), w)
  {
    InsertContains(Fingerprint([0, 0, 0, 0]), w.node, w.node);
  }

  lemma StepCovered(f: Fingerprint, w: Walk)
    requires w.Step? && Covers(f, w.prev)
    ensures Covers(f.Insert(w.node), w)
  {
    forall v | Occurs(w, v) > 0
      ensures f.Insert(w.node).MightContain(v)
    {
      InsertContains(f, w.node, v);
    }
  }

  // ---------------------------------------------------------------------------
  // Live counters of the active depth-first path.

  datatype Visits =
    | Bits(words: seq<bv64>)
    | Dense(counts: seq<nat>)
    | Sparse(table: map<NodeId, nat>)
  {
    predicate Holds(v: NodeId) {
      match this
      case Bits(words) => v / 64 < |words|
      case Dense(counts) => v < |counts|
      case Sparse(_) => true
    }

    function Count(v: NodeId): nat
      requires Holds(v)
    {
      match this
      case Bits(words) => if TestBit(words, v) then 1 else 0
      case Dense(counts) => counts[v]
      case Sparse(table) => if v in table then table[v] else 0
    }

    function Increment(v: NodeId): Visits
      requires Holds(v)
    {
      match this
      case Bits(words) => Bits(SetBit(words, v))
      case Dense(counts) => Dense(counts[v := counts[v] + 1])
      case Sparse(table) => Sparse(table[v := (if v in table then table[v] else 0) + 1])
    }

    /** Callers decrement only nodes that are counted. */
    function Decrement(v: NodeId): Visits
      requires Holds(v) && Count(v) > 0
    {
      match this
      case Bits(words) => Bits(ClearBit(words, v))
      case Dense(counts) => Dense(counts[v := counts[v] - 1])
      case Sparse(table) => if table[v] == 1 then Sparse(table - {v}) else Sparse(table[v := table[v] - 1])
    }
  }

  /** Occurrences on the active path; none when no path is active. */
  function OnPath(path: Option<Walk>, v: NodeId): nat {
    match path
    case None => 0
    case Some(w) => Occurs(w, v)
  }

  /** The counter agrees with the active path on every node below `n`. */
  ghost predicate Tracks(visits: Visits, n: nat, path: Option<Walk>) {
    forall v :: 0 <= v < n ==> visits.Holds(v) && visits.Count(v) == OnPath(path, v)
  }

  /** The path that remains when the last entry is dropped. */
  function Shortened(w: Walk): Option<Walk> {
    if w.Step? then Some(w.prev) else None
  }

  /** A single-bit counter can only follow paths without repeated nodes. */
  ghost predicate Fits(visits: Visits, path: Walk) {
    visits.Bits? ==> forall v :: Occurs(path, v) <= 1
  }

  lemma TracksIncrement(visits: Visits, n: nat, w: Walk)
    requires Tracks(visits, n, Shortened(w)) && w.node < n && Fits(visits, w)
    ensures Tracks(visits.Increment(w.node), n, Some(w)) && visits.Increment(w.node).Bits? == visits.Bits?
  {
    assert visits.Holds(w.node);
    forall v | 0 <= v < n
      ensures visits.Increment(w.node).Holds(v) && visits.Increment(w.node).Count(v) == Occurs(w, v)
    {
      assert visits.Holds(v);
      if visits.Bits? {
        WordsBits(visits.words, w.node, v);
        assert Occurs(w, w.node) <= 1;
      }
    }
  }

  lemma TracksDecrement(visits: Visits, n: nat, w: Walk)
    requires Tracks(visits, n, Some(w)) && w.node < n && Fits(visits, w)
    ensures visits.Holds(w.node) && visits.Count(w.node) > 0
    ensures Tracks(visits.Decrement(w.node), n, Shortened(w)) && visits.Decrement(w.node).Bits? == visits.Bits?
  {
    assert visits.Holds(w.node);
    forall v | 0 <= v < n
      ensures visits.Decrement(w.node).Holds(v)
      ensures visits.Decrement(w.node).Count(v) == OnPath(Shortened(w), v)
    {
      assert visits.Holds(v);
      if visits.Bits? {
        WordsBits(visits.words, w.node, v);
        assert Occurs(w, w.node) <= 1;
      }
    }
  }

  /** A counter with nothing counted, of the kind the limit calls for. */
  function EmptyVisits(dense: bool, n: nat, maxVisits: nat): Visits {
    if !dense then Sparse(map[])
    else if maxVisits == 1 then Bits(seq((n + 63) / 64, _ => 0))
    else Dense(seq(n, _ => 0))
  }

  lemma EmptyTracks(dense: bool, n: nat, maxVisits: nat)
    ensures Tracks(EmptyVisits(dense, n, maxVisits), n, None)
    ensures EmptyVisits(dense, n, maxVisits).Bits? ==> maxVisits == 1
  {
    var visits := EmptyVisits(dense, n, maxVisits);
    forall v | 0 <= v < n
      ensures visits.Holds(v) && visits.Count(v) == 0
    {
      if visits.Bits? {
        ZeroWord(visits.words, v);
      }
    }
  }
}

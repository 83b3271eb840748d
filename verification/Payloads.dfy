/**
 * Payload rows decoded on demand into write-once cells. Whatever is loaded agrees with
 * decoding the whole file eagerly, and no row is read twice.
 */
module Payloads {
  import opened Wrappers
  import opened Sorting
  import opened RowGroups

  /** A decoded row. */
  type Payload(!new, ==, 0)

  /** Decoding may fail. */
  type Decoder = Raw -> Result<Payload, ReadError>

  /** A file: its row groups, whether any column is projected, and what a row without columns looks like. */
  datatype Source = Source(groups: seq<seq<Raw>>, projected: bool, blank: Raw, decode: Decoder)

  /** What decoding the whole file gives for one row. */
  ghost function Eager(source: Source, row: nat): Result<Payload, ReadError> {
    if row >= |Flat(source.groups)| then Err(RowOutOfRange(row))
    else source.decode(if source.projected then Flat(source.groups)[row] else source.blank)
  }

  /** Decode every row, failing at the first that cannot be decoded. */
  function DecodeAll(rows: seq<Raw>, decode: Decoder): (r: Result<seq<Payload>, ReadError>)
    ensures r.Ok? ==> |r.value| == |rows|
  {
    if rows == [] then Ok([]) else
    var init := DecodeAll(rows[..|rows| - 1], decode);
    if init.Err? then init else
    var last := decode(rows[|rows| - 1]);
    if last.Err? then Err(last.error) else Ok(init.value + [last.value])
  }

  lemma {:induction false} DecodeAllAt(rows: seq<Raw>, decode: Decoder)
    ensures DecodeAll(rows, decode).Ok? <==> forall k :: 0 <= k < |rows| ==> decode(rows[k]).Ok?
    ensures DecodeAll(rows, decode).Ok? ==>
              forall k :: 0 <= k < |rows| ==> decode(rows[k]) == Ok(DecodeAll(rows, decode).value[k])
  {
    if rows != [] {
      var last := |rows| - 1;
      DecodeAllAt(rows[..last], decode);
      forall k | 0 <= k < last
        ensures rows[..last][k] == rows[k]
      {
      }
      assert rows[last] == rows[|rows| - 1];
    }
  }

  /** All rows as an eager load would see them. */
  function EagerRows(source: Source): (rows: seq<Raw>)
    ensures |rows| == |Flat(source.groups)|
  {
    if source.projected then Flat(source.groups) else seq(|Flat(source.groups)|, _ => source.blank)
  }

  /** An eager load succeeds exactly when every row decodes, and holds what every row decodes to. */
  lemma EagerLoad(source: Source)
    ensures var all := DecodeAll(EagerRows(source), source.decode);
            && (all.Ok? <==> forall row :: 0 <= row < |Flat(source.groups)| ==> Eager(source, row).Ok?)
            && (all.Ok? ==> forall row :: 0 <= row < |Flat(source.groups)| ==> Eager(source, row) == Ok(all.value[row]))
  {
    hide Flat;
    var rows := EagerRows(source);
    DecodeAllAt(rows, source.decode);
    forall row | 0 <= row < |Flat(source.groups)|
      ensures Eager(source, row) == source.decode(rows[row])
    {
    }
  }

  /** The row at place `i` of group `g` decodes as what is stored there, or as the blank row if nothing is projected. */
  lemma EagerRow(source: Source, g: nat, i: nat)
    requires g < |source.groups| && i < |source.groups[g]|
    ensures Eager(source, |Flat(source.groups[..g])| + i) ==
            source.decode(if source.projected then source.groups[g][i] else source.blank)
  {
    hide Flat;
    FlatStep(source.groups, g);
    FlatPrefix(source.groups, g + 1, |source.groups|);
    assert source.groups[..|source.groups|] == source.groups;
    var at := |Flat(source.groups[..g])| + i;
    assert Flat(source.groups)[at] == Flat(source.groups[..g + 1])[at];
  }

  // ---------------------------------------------------------------------------
  // Demanded rows.

  predicate RowAbove(a: nat, b: nat) {
    b < a
  }

  /** The rows in ascending order, each once. */
  function SortedRows(rows: seq<nat>): seq<nat> {
    Dedup(Sorted(rows, RowAbove))
  }

  lemma SortedRowsExact(rows: seq<nat>)
    ensures Ascending(SortedRows(rows)) && forall x :: x in SortedRows(rows) <==> x in rows
  {
    SortedExact(rows, RowAbove);
    DedupStrict(Sorted(rows, RowAbove), RowAbove);
    DedupMembers(Sorted(rows, RowAbove));
    SameMembers(Sorted(rows, RowAbove), rows);
  }

  datatype IoStats = IoStats(readCalls: nat, requestedRows: nat, selectedRows: nat, rowGroups: nat)

  /** One read: the rows asked for, the groups that hold any of them and all rows of those groups are counted. */
  ghost predicate CountsRead(groups: seq<seq<Raw>>, offsets: seq<nat>, rows: seq<nat>, before: IoStats,
                             after: IoStats) {
    exists chosen :: Chosen(groups, chosen) && Needed(offsets, rows, chosen) &&
      after.readCalls == before.readCalls + 1 && after.requestedRows == before.requestedRows + |rows| &&
      after.selectedRows == before.selectedRows + |Selected(groups, chosen)| &&
      after.rowGroups == before.rowGroups + |chosen|
  }

  /** How many cells hold a value. */
  ghost function Loaded(cells: seq<Option<Payload>>): nat {
    if cells == [] then 0 else Loaded(cells[..|cells| - 1]) + if cells[|cells| - 1].Some? then 1 else 0
  }

  lemma {:induction false} LoadedSet(cells: seq<Option<Payload>>, row: nat, p: Payload)
    requires row < |cells| && cells[row].None?
    ensures Loaded(cells[row := Some(p)]) == Loaded(cells) + 1
  {
    var last := |cells| - 1;
    var next := cells[row := Some(p)];
    if row == last {
      assert next[..last] == cells[..last];
    } else {
      LoadedSet(cells[..last], row, p);
      assert next[..last] == cells[..last][row := Some(p)];
    }
  }

  lemma {:induction false} LoadedNone(n: nat)
    ensures Loaded(seq(n, _ => None)) == 0
  {
    if n > 0 {
      var cells: seq<Option<Payload>> := seq(n, _ => None);
      LoadedNone(n - 1);
      assert cells[..n - 1] == seq(n - 1, _ => None);
    }
  }

  /** Every value held is what an eager load gives. */
  ghost predicate Agrees(source: Source, cells: seq<Option<Payload>>) {
    forall row :: 0 <= row < |cells| && cells[row].Some? ==> Eager(source, row) == Ok(cells[row].value)
  }

  /** The rows read so far are distinct, and all of them are held. */
  ghost predicate ReadOnce(history: seq<nat>, cells: seq<Option<Payload>>) {
    && (forall i, j :: 0 <= i < j < |history| ==> history[i] != history[j])
    && (forall i :: 0 <= i < |history| ==> history[i] < |cells| && cells[history[i]].Some?)
  }

  /** The rows decode to the values. */
  ghost predicate Decoded(source: Source, rows: seq<nat>, pairs: seq<(nat, Payload)>) {
    |pairs| == |rows| && forall k :: 0 <= k < |rows| ==>
        pairs[k].0 == rows[k] && Eager(source, rows[k]) == Ok(pairs[k].1)
  }

  /** Decode the selected rows in order. */
  function DecodeSelected(source: Source, batch: seq<Raw>, rows: seq<nat>): (r: Result<seq<(nat, Payload)>, ReadError>)
    requires |batch| == |rows|
    ensures r.Ok? ==> |r.value| == |rows|
    ensures r.Ok? <==> forall k :: 0 <= k < |rows| ==> source.decode(batch[k]).Ok?
    ensures r.Ok? ==> forall k :: 0 <= k < |rows| ==>
              r.value[k].0 == rows[k] && source.decode(batch[k]) == Ok(r.value[k].1)
  {
    if rows == [] then Ok([]) else
    var last := |rows| - 1;
    var init := DecodeSelected(source, batch[..last], rows[..last]);
    if init.Err? then
      assert exists k :: 0 <= k < last && source.decode(batch[..last][k]).Err?;
      assert forall k :: 0 <= k < last ==> batch[..last][k] == batch[k];
      init
    else
      var p := source.decode(batch[last]);
      assert forall k :: 0 <= k < last ==> batch[..last][k] == batch[k] && rows[..last][k] == rows[k];
      if p.Err? then Err(p.error) else Ok(init.value + [(rows[last], p.value)])
  }

  // ---------------------------------------------------------------------------
  // The table.

  ghost predicate Missing(cells: seq<Option<Payload>>, rows: seq<nat>) {
    forall k :: 0 <= k < |rows| ==> rows[k] < |cells| && cells[rows[k]].None?
  }

  /** The demanded rows that are not held. */
  ghost predicate MissingOf(cells: seq<Option<Payload>>, demand: seq<nat>, rows: seq<nat>) {
    && Ascending(rows) && Missing(cells, rows)
    && (forall x :: x in rows <==> x in demand && x < |cells| && cells[x].None?)
  }

  /** Setting the cells of some rows: those rows are held, all others are as before. */
  ghost predicate Filled(before: seq<Option<Payload>>, after: seq<Option<Payload>>, pairs: seq<(nat, Payload)>, k: nat)
    requires k <= |pairs|
  {
    && |after| == |before|
    && (forall j :: 0 <= j < k ==> pairs[j].0 < |before| && after[pairs[j].0] == Some(pairs[j].1))
    && (forall row :: 0 <= row < |before| && (forall j :: 0 <= j < k ==> pairs[j].0 != row) ==>
        after[row] == before[row])
  }

  lemma FilledNone(cells: seq<Option<Payload>>, pairs: seq<(nat, Payload)>)
    ensures Filled(cells, cells, pairs, 0)
  {
  }

  lemma FilledMore(before: seq<Option<Payload>>, after: seq<Option<Payload>>, pairs: seq<(nat, Payload)>, k: nat)
    requires k < |pairs| && Filled(before, after, pairs, k) && pairs[k].0 < |before| && before[pairs[k].0].None?
    requires forall i, j :: 0 <= i < j < |pairs| ==> pairs[i].0 < pairs[j].0
    ensures after[pairs[k].0].None?
    ensures Filled(before, after[pairs[k].0 := Some(pairs[k].1)], pairs, k + 1)
  {
    var next := after[pairs[k].0 := Some(pairs[k].1)];
    forall row | 0 <= row < |before| && (forall j :: 0 <= j < k + 1 ==> pairs[j].0 != row)
      ensures next[row] == before[row]
    {
      assert pairs[k].0 != row;
    }
  }

  lemma FilledAgrees(source: Source, before: seq<Option<Payload>>, after: seq<Option<Payload>>, rows: seq<nat>,
                     pairs: seq<(nat, Payload)>)
    requires Agrees(source, before) && Decoded(source, rows, pairs) && Filled(before, after, pairs, |pairs|)
    ensures Agrees(source, after)
  {
    hide Eager;
    forall row | 0 <= row < |after| && after[row].Some?
      ensures Eager(source, row) == Ok(after[row].value)
    {
      if j :| 0 <= j < |pairs| && pairs[j].0 == row {
        assert Eager(source, rows[j]) == Ok(pairs[j].1);
      }
    }
  }

  lemma FilledReadOnce(history: seq<nat>, before: seq<Option<Payload>>, after: seq<Option<Payload>>,
                       rows: seq<nat>, source: Source, pairs: seq<(nat, Payload)>)
    requires ReadOnce(history, before) && Missing(before, rows) && Ascending(rows)
    requires Decoded(source, rows, pairs) && Filled(before, after, pairs, |pairs|)
    ensures ReadOnce(history + rows, after) && ReadOnce(history, after)
  {
    hide Eager;
    forall i | 0 <= i < |history|
      ensures after[history[i]].Some?
    {
      assert forall j :: 0 <= j < |pairs| ==> pairs[j].0 == rows[j] != history[i];
    }
    var all := history + rows;
    forall i | |history| <= i < |all|
      ensures all[i] < |after| && after[all[i]].Some?
    {
      assert pairs[i - |history|].0 == all[i];
    }
  }

  class LazyTable {
    const source: Source
    const offsets: seq<nat>
    const cells: array<Option<Payload>>
    var loaded: nat
    var stats: IoStats
    /** Every row read from the file so far, and whether some demand has failed. */
    ghost var history: seq<nat>
    ghost var failed: bool

    ghost predicate Valid()
      reads this, cells
    {
      && PrefixSums(source.groups, offsets)
      && Agrees(source, cells[..]) && loaded == Loaded(cells[..])
      && |history| == stats.requestedRows
      && (!source.projected ==> history == [])
      && (!failed ==> ReadOnce(history, cells[..]) && (source.projected ==> stats.requestedRows == loaded))
    }

    constructor (file: Source, rows: nat)
      ensures Valid() && source == file && cells.Length == rows && fresh(cells)
      ensures !failed && loaded == 0 && forall row :: 0 <= row < rows ==> cells[row] == None
    {
      var sums := RowGroupOffsets(file.groups);
      source := file;
      offsets := sums;
      cells := new Option<Payload>[rows](_ => None);
      loaded := 0;
      stats := IoStats(0, 0, 0, 0);
      history := [];
      failed := false;
      new;
      LoadedNone(rows);
      assert cells[..] == seq(rows, _ => None);
    }

    /** The demanded rows without a value, in order, each once. */
    method MissingRows(demand: seq<nat>) returns (r: Result<seq<nat>, ReadError>)
      ensures r.Ok? <==> forall k :: 0 <= k < |demand| ==> demand[k] < cells.Length
      ensures r.Ok? ==> MissingOf(cells[..], demand, r.value)
    {
      var missing: seq<nat> := [];
      var k: nat := 0;
      while k < |demand|
        invariant k <= |demand| && forall i :: 0 <= i < k ==> demand[i] < cells.Length
        invariant forall x :: x in missing <==> x in demand[..k] && x < cells.Length && cells[x].None?
      {
        var row := demand[k];
        if row >= cells.Length {
          return Err(RowOutOfRange(row));
        }
        assert demand[..k + 1] == demand[..k] + [row];
        if cells[row].None? {
          missing := missing + [row];
        }
        k := k + 1;
      }
      SortedRowsExact(missing);
      assert demand[..|demand|] == demand;
      assert forall i :: 0 <= i < |SortedRows(missing)| ==> SortedRows(missing)[i] in missing;
      return Ok(SortedRows(missing));
    }

    /** Read rows from the file: the selected groups are read, the selected rows decoded. */
    method ReadMany(rows: seq<nat>) returns (r: Result<seq<(nat, Payload)>, ReadError>)
      requires PrefixSums(source.groups, offsets) && Ascending(rows)
      modifies this`stats, this`history
      ensures r.Ok? <==> forall k :: 0 <= k < |rows| ==> Eager(source, rows[k]).Ok?
      ensures r.Ok? ==> Decoded(source, rows, r.value)
      ensures r.Ok? ==> history == old(history) + if source.projected then rows else []
      ensures |history| - old(|history|) == stats.requestedRows - old(stats.requestedRows)
      ensures !source.projected ==> history == old(history) && stats == old(stats)
      ensures rows == [] || (exists k :: 0 <= k < |rows| && rows[k] >= |Flat(source.groups)|) ==> stats == old(stats)
      ensures source.projected && rows != [] && (forall k :: 0 <= k < |rows| ==> rows[k] < |Flat(source.groups)|) ==>
                CountsRead(source.groups, offsets, rows, old(stats), stats)
    {
      hide PrefixSums, Flat, Selected, RowGroup, Ascending;
      if rows == [] {
        assert history == history + [];
        return Ok([]);
      }
      var selection := Select(source.groups, offsets, rows);
      if selection.Err? {
        assert exists k :: 0 <= k < |rows| && Eager(source, rows[k]).Err?;
        return Err(selection.error);
      }
      var batch: seq<Raw>;
      if !source.projected {
        batch := seq(|rows|, _ => source.blank);
      } else {
        stats := IoStats(stats.readCalls + 1, stats.requestedRows + |rows|,
                         stats.selectedRows + selection.value.selectedRows,
                         stats.rowGroups + |selection.value.rowGroups|);
        history := history + rows;
        batch := Pick(source.groups, rows, selection.value);
      }
      assert forall k :: 0 <= k < |rows| ==> source.decode(batch[k]) == Eager(source, rows[k]);
      r := DecodeSelected(source, batch, rows);
    }

    /** Set the cells of rows that were just decoded. */
    method SetCells(pairs: seq<(nat, Payload)>)
      requires forall i, j :: 0 <= i < j < |pairs| ==> pairs[i].0 < pairs[j].0
      requires forall k :: 0 <= k < |pairs| ==> pairs[k].0 < cells.Length && cells[pairs[k].0].None?
      requires loaded == Loaded(cells[..])
      modifies this`loaded, cells
      ensures Filled(old(cells[..]), cells[..], pairs, |pairs|)
      ensures loaded == Loaded(cells[..]) == old(loaded) + |pairs|
    {
      hide Filled, Loaded;
      ghost var before := cells[..];
      FilledNone(before, pairs);
      var k: nat := 0;
      while k < |pairs|
        invariant k <= |pairs| && Filled(before, cells[..], pairs, k)
        invariant loaded == Loaded(cells[..]) == old(loaded) + k
      {
        var (row, payload) := pairs[k];
        FilledMore(before, cells[..], pairs, k);
        if cells[row].None? {
          ghost var held := cells[..];
          LoadedSet(held, row, payload);
          cells[row] := Some(payload);
          assert cells[..] == held[row := Some(payload)];
          loaded := loaded + 1;
        }
        k := k + 1;
      }
    }

    /** Load the demanded rows; a cell that holds a value keeps it. */
    method Fill(demand: seq<nat>) returns (r: Result<(), ReadError>)
      requires Valid()
      modifies this`stats, this`history, this`failed, this`loaded, cells
      ensures Valid() && failed == (old(failed) || r.Err?)
      ensures r.Ok? <==> forall k :: 0 <= k < |demand| ==> demand[k] < cells.Length && Eager(source, demand[k]).Ok?
      ensures r.Ok? ==> forall k :: 0 <= k < |demand| ==> cells[demand[k]].Some?
      ensures r.Err? ==> cells[..] == old(cells[..])
      ensures forall row :: 0 <= row < cells.Length && (old(cells[row]).Some? || row !in demand) ==>
              cells[row] == old(cells[row])
      ensures (forall k :: 0 <= k < |demand| ==> demand[k] < cells.Length && old(cells[demand[k]]).Some?) ==>
                stats == old(stats) && cells[..] == old(cells[..])
    {
      hide Loaded, Decoded, Filled, ReadOnce, Eager, MissingOf, Missing, Agrees, PrefixSums, Ascending;
      var missing := MissingRows(demand);
      if missing.Err? {
        failed := true;
        return Err(missing.error);
      }
      var rows := missing.value;
      ghost var before := cells[..];
      DemandSplit(source, before, demand, rows);
      var read := ReadMany(rows);
      if read.Err? {
        failed := true;
        return Err(read.error);
      }
      MissingPairs(before, demand, rows, source, read.value);
      SetCells(read.value);
      FilledDemand(source, before, cells[..], demand, rows, read.value);
      FilledAgrees(source, before, cells[..], rows, read.value);
      if !failed {
        FilledReadOnce(old(history), before, cells[..], rows, source, read.value);
      }
      return Ok(());
    }

    /** The value of a row, loaded on first use. */
    method Get(row: nat) returns (r: Result<Payload, ReadError>)
      requires Valid()
      modifies this`stats, this`history, this`failed, this`loaded, cells
      ensures Valid() && failed == (old(failed) || (row < cells.Length && r.Err?))
      ensures r.Ok? <==> row < cells.Length && Eager(source, row).Ok?
      ensures r.Ok? ==> r == Eager(source, row) && cells[row] == Some(r.value)
      ensures forall other :: 0 <= other < cells.Length && (old(cells[other]).Some? || other != row) ==>
              cells[other] == old(cells[other])
      ensures row < cells.Length && old(cells[row]).Some? ==> stats == old(stats) && cells[..] == old(cells[..])
    {
      hide Loaded, Eager, ReadOnce, PrefixSums;
      if row >= cells.Length {
        return Err(RowOutOfRange(row));
      }
      assert cells[..][row] == cells[row];
      if cells[row].None? {
        var filled := Fill([row]);
        if filled.Err? {
          assert Eager(source, [row][0]).Err?;
          return Err(filled.error);
        }
        assert cells[[row][0]].Some? && Eager(source, [row][0]).Ok?;
      }
      assert cells[..][row] == cells[row];
      return Ok(cells[row].value);
    }
  }

  /** The demand can be served exactly when its missing rows can. */
  lemma DemandSplit(source: Source, cells: seq<Option<Payload>>, demand: seq<nat>, rows: seq<nat>)
    requires Agrees(source, cells) && MissingOf(cells, demand, rows)
    requires forall k :: 0 <= k < |demand| ==> demand[k] < |cells|
    ensures Ascending(rows) && Missing(cells, rows)
    ensures (forall k :: 0 <= k < |rows| ==> Eager(source, rows[k]).Ok?) <==>
            forall k :: 0 <= k < |demand| ==> demand[k] < |cells| && Eager(source, demand[k]).Ok?
    ensures (forall k :: 0 <= k < |demand| ==> cells[demand[k]].Some?) ==> rows == []
  {
    hide Eager, Ascending;
    forall k | 0 <= k < |rows|
      ensures rows[k] in demand && cells[rows[k]].None?
    {
      assert rows[k] in rows;
    }
    if rows != [] {
      var k :| 0 <= k < |demand| && demand[k] == rows[0];
      assert cells[demand[k]].None?;
    }
    if forall k :: 0 <= k < |rows| ==> Eager(source, rows[k]).Ok? {
      forall k | 0 <= k < |demand|
        ensures Eager(source, demand[k]).Ok?
      {
        if cells[demand[k]].None? {
          assert demand[k] in rows;
        }
      }
    }
  }

  lemma MissingPairs(cells: seq<Option<Payload>>, demand: seq<nat>, rows: seq<nat>, source: Source,
                     pairs: seq<(nat, Payload)>)
    requires MissingOf(cells, demand, rows) && Decoded(source, rows, pairs)
    ensures |pairs| == |rows| && forall i, j :: 0 <= i < j < |pairs| ==> pairs[i].0 < pairs[j].0
    ensures forall k :: 0 <= k < |pairs| ==> pairs[k].0 < |cells| && cells[pairs[k].0].None?
  {
  }

  /** After filling, the demand is held; what was held or not demanded is as before. */
  lemma FilledDemand(source: Source, before: seq<Option<Payload>>, after: seq<Option<Payload>>, demand: seq<nat>,
                     rows: seq<nat>,
                     pairs: seq<(nat, Payload)>)
    requires MissingOf(before, demand, rows) && Decoded(source, rows, pairs) && Filled(before, after, pairs, |pairs|)
    requires forall k :: 0 <= k < |demand| ==> demand[k] < |before|
    ensures |after| == |before| && forall k :: 0 <= k < |demand| ==> after[demand[k]].Some?
    ensures forall row :: 0 <= row < |before| && (before[row].Some? || row !in demand) ==> after[row] == before[row]
    ensures rows == [] ==> after == before
  {
    hide Eager, Ascending;
    forall k | 0 <= k < |demand|
      ensures after[demand[k]].Some?
    {
      if demand[k] in rows {
        var j :| 0 <= j < |rows| && rows[j] == demand[k];
        assert pairs[j].0 == demand[k];
      } else {
        assert forall j :: 0 <= j < |pairs| ==> pairs[j].0 == rows[j] && rows[j] in rows;
      }
    }
    forall row | 0 <= row < |before| && (before[row].Some? || row !in demand)
      ensures after[row] == before[row]
    {
      assert forall j :: 0 <= j < |pairs| ==> pairs[j].0 == rows[j] && rows[j] in rows;
    }
  }

  /** The rows at the selected positions of the selected groups. */
  function Pick(groups: seq<seq<Raw>>, rows: seq<nat>, s: Selection): (batch: seq<Raw>)
    requires Selects(groups, rows, s)
    ensures |batch| == |rows| && forall k :: 0 <= k < |rows| ==> batch[k] == Flat(groups)[rows[k]]
  {
    var selected := SelectedRows(groups, s.rowGroups);
    seq(|rows|, k requires 0 <= k < |rows| => selected[s.relativeRows[k]])
  }

  function SelectedRows(groups: seq<seq<Raw>>, chosen: seq<nat>): (r: seq<Raw>)
    requires forall k :: 0 <= k < |chosen| ==> chosen[k] < |groups|
    ensures r == Selected(groups, chosen)
  {
    if chosen == [] then [] else SelectedRows(groups, chosen[..|chosen| - 1]) + groups[chosen[|chosen| - 1]]
  }

  // ---------------------------------------------------------------------------
  // The graph store.

  /** An outgoing edge and its destination. */
  type OutgoingEdge = (nat, nat)

  function EdgesIn(row: seq<OutgoingEdge>): (r: seq<nat>)
    ensures |r| == |row| && forall k :: 0 <= k < |row| ==> r[k] == row[k].0
  {
    seq(|row|, k requires 0 <= k < |row| => row[k].0)
  }

  function DestsIn(row: seq<OutgoingEdge>): (r: seq<nat>)
    ensures |r| == |row| && forall k :: 0 <= k < |row| ==> r[k] == row[k].1
  {
    seq(|row|, k requires 0 <= k < |row| => row[k].1)
  }

  function RowOf(outgoing: seq<seq<OutgoingEdge>>, node: nat): seq<OutgoingEdge> {
    if node < |outgoing| then outgoing[node] else []
  }

  /** The nodes themselves and the destinations of their edges. */
  ghost function NodeRows(outgoing: seq<seq<OutgoingEdge>>, nodes: seq<nat>): seq<nat> {
    if nodes == [] then [] else
    var last := nodes[|nodes| - 1];
    NodeRows(outgoing, nodes[..|nodes| - 1]) + [last] + DestsIn(RowOf(outgoing, last))
  }

  ghost function EdgeRows(outgoing: seq<seq<OutgoingEdge>>, nodes: seq<nat>): seq<nat> {
    if nodes == [] then [] else
    EdgeRows(outgoing, nodes[..|nodes| - 1]) + EdgesIn(RowOf(outgoing, nodes[|nodes| - 1]))
  }

  /** An edge out of one of the nodes. */
  ghost predicate Leaves(outgoing: seq<seq<OutgoingEdge>>, nodes: seq<nat>, e: OutgoingEdge) {
    exists i, j ::
      0 <= i < |nodes| && nodes[i] < |outgoing| && 0 <= j < |outgoing[nodes[i]]| && outgoing[nodes[i]][j] == e
  }

  /** The node rows are the nodes and where their edges lead; the edge rows are those of their edges. */
  lemma {:induction false} RowsMeaning(outgoing: seq<seq<OutgoingEdge>>, nodes: seq<nat>, row: nat)
    ensures row in NodeRows(outgoing, nodes) <==>
            row in nodes || exists edge :: Leaves(outgoing, nodes, (edge, row))
    ensures row in EdgeRows(outgoing, nodes) <==> exists dest :: Leaves(outgoing, nodes, (row, dest))
  {
    hide Leaves;
    if nodes == [] {
      NothingLeaves(outgoing);
    } else {
      var front, last := nodes[..|nodes| - 1], nodes[|nodes| - 1];
      assert nodes == front + [last];
      RowsMeaning(outgoing, front, row);
      forall e: OutgoingEdge
        ensures Leaves(outgoing, nodes, e) <==> Leaves(outgoing, front, e) || e in RowOf(outgoing, last)
      {
        LeavesMore(outgoing, front, last, e);
      }
      RowMembers(RowOf(outgoing, last), row);
      if edge :| Leaves(outgoing, front, (edge, row)) {
        assert Leaves(outgoing, nodes, (edge, row));
      }
      if dest :| Leaves(outgoing, front, (row, dest)) {
        assert Leaves(outgoing, nodes, (row, dest));
      }
      if edge :| (edge, row) in RowOf(outgoing, last) {
        assert Leaves(outgoing, nodes, (edge, row));
      }
      if dest :| (row, dest) in RowOf(outgoing, last) {
        assert Leaves(outgoing, nodes, (row, dest));
      }
    }
  }

  lemma NothingLeaves(outgoing: seq<seq<OutgoingEdge>>)
    ensures forall e :: !Leaves(outgoing, [], e)
  {
  }

  lemma LeavesMore(outgoing: seq<seq<OutgoingEdge>>, front: seq<nat>, last: nat, e: OutgoingEdge)
    ensures Leaves(outgoing, front + [last], e) <==> Leaves(outgoing, front, e) || e in RowOf(outgoing, last)
  {
    var nodes := front + [last];
    if Leaves(outgoing, front, e) {
      var i, j :|
        0 <= i < |front| && front[i] < |outgoing| && 0 <= j < |outgoing[front[i]]| && outgoing[front[i]][j] == e;
      assert nodes[i] == front[i] && outgoing[nodes[i]][j] == e;
    }
    if j :| 0 <= j < |RowOf(outgoing, last)| && RowOf(outgoing, last)[j] == e {
      assert nodes[|front|] == last && outgoing[nodes[|front|]][j] == e;
    }
  }

  lemma RowMembers(row: seq<OutgoingEdge>, x: nat)
    ensures x in DestsIn(row) <==> exists edge :: (edge, x) in row
    ensures x in EdgesIn(row) <==> exists dest :: (x, dest) in row
  {
    if k :| 0 <= k < |row| && row[k].1 == x {
      assert DestsIn(row)[k] == x && row[k] == (row[k].0, x);
    }
    if k :| 0 <= k < |row| && row[k].0 == x {
      assert EdgesIn(row)[k] == x && row[k] == (x, row[k].1);
    }
  }

  /** Every demanded row can be loaded, when anything is demanded at all. */
  ghost predicate Servable(table: LazyTable, rows: seq<nat>) {
    table.source.projected ==> forall k :: 0 <= k < |rows| ==>
        rows[k] < table.cells.Length && Eager(table.source, rows[k]).Ok?
  }

  /** Every demanded row is held. */
  ghost predicate Held(table: LazyTable, rows: seq<nat>)
    reads table.cells
  {
    table.source.projected ==> forall k :: 0 <= k < |rows| ==>
        rows[k] < table.cells.Length && table.cells[rows[k]].Some?
  }

  /** Append the edges and destinations of one row. */
  method PushRow(row: seq<OutgoingEdge>, nodeRows: seq<nat>, edgeRows: seq<nat>, wantNodes: bool, wantEdges: bool)
      returns (moreNodes: seq<nat>, moreEdges: seq<nat>)
    ensures wantNodes ==> moreNodes == nodeRows + DestsIn(row)
    ensures wantEdges ==> moreEdges == edgeRows + EdgesIn(row)
    ensures (!wantNodes ==> moreNodes == nodeRows) && (!wantEdges ==> moreEdges == edgeRows)
  {
    moreNodes, moreEdges := nodeRows, edgeRows;
    var i: nat := 0;
    while i < |row|
      invariant i <= |row|
      invariant moreNodes == if wantNodes then nodeRows + DestsIn(row)[..i] else nodeRows
      invariant moreEdges == if wantEdges then edgeRows + EdgesIn(row)[..i] else edgeRows
    {
      assert EdgesIn(row)[..i + 1] == EdgesIn(row)[..i] + [row[i].0];
      assert DestsIn(row)[..i + 1] == DestsIn(row)[..i] + [row[i].1];
      if wantEdges {
        moreEdges := moreEdges + [row[i].0];
      }
      if wantNodes {
        moreNodes := moreNodes + [row[i].1];
      }
      i := i + 1;
    }
    assert EdgesIn(row)[..|row|] == EdgesIn(row) && DestsIn(row)[..|row|] == DestsIn(row);
  }

  class GraphStore {
    const nodes: LazyTable
    const edges: LazyTable
    const outgoing: seq<seq<OutgoingEdge>>

    ghost predicate Valid()
      reads this, nodes, nodes.cells, edges, edges.cells
    {
      nodes != edges && nodes.cells != edges.cells && nodes.Valid() && edges.Valid()
    }

    constructor (nodeTable: LazyTable, edgeTable: LazyTable, rows: seq<seq<OutgoingEdge>>)
      requires nodeTable != edgeTable && nodeTable.cells != edgeTable.cells && nodeTable.Valid() && edgeTable.Valid()
      ensures Valid() && nodes == nodeTable && edges == edgeTable && outgoing == rows
    {
      nodes := nodeTable;
      edges := edgeTable;
      outgoing := rows;
    }

    /** The rows that a prefetch demands, for the tables that project any column. */
    method Demand(sources: seq<nat>, wantNodes: bool, wantEdges: bool)
      returns (r: Result<(seq<nat>, seq<nat>), ReadError>)
      ensures r.Ok? <==> forall k :: 0 <= k < |sources| ==> sources[k] < |outgoing|
      ensures r.Ok? && wantNodes ==> r.value.0 == NodeRows(outgoing, sources)
      ensures r.Ok? && wantEdges ==> r.value.1 == EdgeRows(outgoing, sources)
      ensures r.Ok? ==> (!wantNodes ==> r.value.0 == []) && (!wantEdges ==> r.value.1 == [])
    {
      hide NodeRows, EdgeRows, DestsIn, EdgesIn;
      var nodeRows: seq<nat>, edgeRows: seq<nat> := [], [];
      var k: nat := 0;
      assert sources[..0] == [];
      RowsNone(outgoing);
      while k < |sources|
        invariant k <= |sources| && forall i :: 0 <= i < k ==> sources[i] < |outgoing|
        invariant wantNodes ==> nodeRows == NodeRows(outgoing, sources[..k])
        invariant wantEdges ==> edgeRows == EdgeRows(outgoing, sources[..k])
        invariant (!wantNodes ==> nodeRows == []) && (!wantEdges ==> edgeRows == [])
      {
        var node := sources[k];
        if node >= |outgoing| {
          return Err(RowOutOfRange(node));
        }
        RowsStep(outgoing, sources, k);
        var row := outgoing[node];
        if wantNodes {
          nodeRows := nodeRows + [node];
        }
        nodeRows, edgeRows := PushRow(row, nodeRows, edgeRows, wantNodes, wantEdges);
        k := k + 1;
      }
      assert sources[..|sources|] == sources;
      return Ok((nodeRows, edgeRows));
    }

    /** Load the payloads of some nodes, of their outgoing edges and of the destinations. */
    method PrefetchOutgoing(sources: seq<nat>) returns (r: Result<(), ReadError>)
      requires Valid()
      modifies nodes, nodes.cells, edges, edges.cells
      ensures Valid()
      ensures r.Ok? <==>
                && (forall k :: 0 <= k < |sources| ==> sources[k] < |outgoing|)
                && Servable(nodes, NodeRows(outgoing, sources)) && Servable(edges, EdgeRows(outgoing, sources))
      ensures r.Ok? ==> Held(nodes, NodeRows(outgoing, sources)) && Held(edges, EdgeRows(outgoing, sources))
    {
      hide Eager, LazyTable.Valid, NodeRows, EdgeRows;
      var demand := Demand(sources, nodes.source.projected, edges.source.projected);
      if demand.Err? {
        return Err(demand.error);
      }
      var filled := nodes.Fill(demand.value.0);
      if filled.Err? {
        return filled;
      }
      r := edges.Fill(demand.value.1);
    }
  }

  lemma RowsNone(outgoing: seq<seq<OutgoingEdge>>)
    ensures NodeRows(outgoing, []) == [] && EdgeRows(outgoing, []) == []
  {
  }

  lemma RowsStep(outgoing: seq<seq<OutgoingEdge>>, sources: seq<nat>, k: nat)
    requires k < |sources| && sources[k] < |outgoing|
    ensures NodeRows(outgoing, sources[..k + 1]) ==
            NodeRows(outgoing, sources[..k]) + [sources[k]] + DestsIn(outgoing[sources[k]])
    ensures EdgeRows(outgoing, sources[..k + 1]) == EdgeRows(outgoing, sources[..k]) + EdgesIn(outgoing[sources[k]])
  {
    assert sources[..k + 1][..k] == sources[..k];
  }
}

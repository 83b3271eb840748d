/**
 * Where demanded rows lie in a file of row groups: the groups to read, and the position
 * of every demanded row among the rows of those groups.
 */
module RowGroups {
  import opened Wrappers

  /** A row of the file. */
  type Raw(!new, ==, 0)

  /** All rows of some groups, one group after another. */
  function Flat(groups: seq<seq<Raw>>): seq<Raw> {
    if groups == [] then [] else Flat(groups[..|groups| - 1]) + groups[|groups| - 1]
  }

  /** `offsets[g]` rows come before group `g`. */
  ghost predicate PrefixSums(groups: seq<seq<Raw>>, offsets: seq<nat>) {
    |offsets| == |groups| + 1 && forall g :: 0 <= g <= |groups| ==> offsets[g] == |Flat(groups[..g])|
  }

  lemma FlatStep(groups: seq<seq<Raw>>, g: nat)
    requires g < |groups|
    ensures Flat(groups[..g + 1]) == Flat(groups[..g]) + groups[g]
  {
    assert groups[..g + 1][..g] == groups[..g];
  }

  method RowGroupOffsets(groups: seq<seq<Raw>>) returns (offsets: seq<nat>)
    ensures PrefixSums(groups, offsets)
  {
    offsets := [0];
    var g: nat := 0;
    while g < |groups|
      invariant g <= |groups| && |offsets| == g + 1
      invariant forall k :: 0 <= k <= g ==> offsets[k] == |Flat(groups[..k])|
    {
      FlatStep(groups, g);
      offsets := offsets + [offsets[g] + |groups[g]|];
      g := g + 1;
    }
  }

  lemma {:induction false} FlatPrefix(groups: seq<seq<Raw>>, g: nat, h: nat)
    requires g <= h <= |groups|
    ensures Flat(groups[..g]) <= Flat(groups[..h])
    decreases h
  {
    if g < h {
      FlatPrefix(groups, g, h - 1);
      FlatStep(groups, h - 1);
    }
  }

  /** How many leading offsets are at most `row`. */
  function PartitionPoint(offsets: seq<nat>, row: nat): (k: nat)
    ensures k <= |offsets|
    ensures forall j :: 0 <= j < k ==> offsets[j] <= row
    ensures k < |offsets| ==> offsets[k] > row
  {
    if offsets == [] || offsets[0] > row then 0 else
    var k := PartitionPoint(offsets[1..], row);
    assert forall j :: 1 <= j < k + 1 ==> offsets[j] == offsets[1..][j - 1];
    k + 1
  }

  function RowGroup(offsets: seq<nat>, row: nat): nat
    requires offsets != [] && offsets[0] <= row
  {
    PartitionPoint(offsets, row) - 1
  }

  /** The group of a row holds it, at its distance from the start of the group; empty groups are passed over. */
  lemma RowGroupHolds(groups: seq<seq<Raw>>, offsets: seq<nat>, row: nat)
    requires PrefixSums(groups, offsets) && row < |Flat(groups)|
    ensures var g := RowGroup(offsets, row);
            && g < |groups| && offsets[g] <= row < offsets[g + 1] && offsets[g + 1] - offsets[g] == |groups[g]|
            && groups[g][row - offsets[g]] == Flat(groups)[row]
  {
    assert groups[..|groups|] == groups;
    var k := PartitionPoint(offsets, row);
    assert k <= |groups| && k >= 1;
    var g: nat := k - 1;
    FlatStep(groups, g);
    FlatPrefix(groups, k, |groups|);
    assert Flat(groups)[row] == Flat(groups[..k])[row];
  }

  lemma RowGroupMonotone(groups: seq<seq<Raw>>, offsets: seq<nat>, row: nat, other: nat)
    requires PrefixSums(groups, offsets) && row <= other < |Flat(groups)|
    ensures RowGroup(offsets, row) <= RowGroup(offsets, other)
  {
    RowGroupHolds(groups, offsets, row);
    RowGroupHolds(groups, offsets, other);
  }

  lemma OffsetsSpan(groups: seq<seq<Raw>>, offsets: seq<nat>)
    requires PrefixSums(groups, offsets)
    ensures |offsets| == |groups| + 1 && offsets[0] == 0 && offsets[|groups|] == |Flat(groups)|
  {
    assert groups[..|groups|] == groups;
  }

  lemma OffsetsStep(groups: seq<seq<Raw>>, offsets: seq<nat>, g: nat)
    requires PrefixSums(groups, offsets) && g < |groups|
    ensures offsets[g + 1] == offsets[g] + |groups[g]|
  {
    FlatStep(groups, g);
  }

  // ---------------------------------------------------------------------------
  // Selection.

  datatype Selection = Selection(rowGroups: seq<nat>, relativeRows: seq<nat>, selectedRows: nat)

  ghost predicate Ascending(rows: seq<nat>) {
    forall i, j :: 0 <= i < j < |rows| ==> rows[i] < rows[j]
  }

  /** The rows of the selected groups, one group after another. */
  ghost function Selected(groups: seq<seq<Raw>>, chosen: seq<nat>): seq<Raw>
    requires forall k :: 0 <= k < |chosen| ==> chosen[k] < |groups|
  {
    if chosen == [] then [] else Selected(groups, chosen[..|chosen| - 1]) + groups[chosen[|chosen| - 1]]
  }

  ghost predicate Chosen(groups: seq<seq<Raw>>, chosen: seq<nat>) {
    Ascending(chosen) && forall k :: 0 <= k < |chosen| ==> chosen[k] < |groups|
  }

  lemma SelectedNone(groups: seq<seq<Raw>>)
    ensures Selected(groups, []) == []
  {
  }

  lemma ChosenInRange(groups: seq<seq<Raw>>, chosen: seq<nat>, k: nat)
    requires Chosen(groups, chosen) && k < |chosen|
    ensures chosen[k] < |groups|
  {
  }

  lemma SelectedStep(groups: seq<seq<Raw>>, chosen: seq<nat>, k: nat)
    requires Chosen(groups, chosen) && k < |chosen|
    ensures Selected(groups, chosen[..k + 1]) == Selected(groups, chosen[..k]) + groups[chosen[k]]
  {
    assert chosen[..k + 1][..k] == chosen[..k];
  }

  lemma {:induction false} SelectedPrefix(groups: seq<seq<Raw>>, chosen: seq<nat>, k: nat, m: nat)
    requires Chosen(groups, chosen) && k <= m <= |chosen|
    ensures Selected(groups, chosen[..k]) <= Selected(groups, chosen[..m])
    decreases m
  {
    if k < m {
      SelectedPrefix(groups, chosen, k, m - 1);
      SelectedStep(groups, chosen, m - 1);
    }
  }

  /** The groups of ascending rows, each once. */
  method GroupsOf(groups: seq<seq<Raw>>, offsets: seq<nat>, rows: seq<nat>) returns (chosen: seq<nat>)
    requires PrefixSums(groups, offsets) && Ascending(rows)
    requires forall i :: 0 <= i < |rows| ==> rows[i] < |Flat(groups)|
    ensures Chosen(groups, chosen)
    ensures forall g :: g in chosen <==> exists i :: 0 <= i < |rows| && RowGroup(offsets, rows[i]) == g
  {
    hide RowGroup, PrefixSums;
    OffsetsSpan(groups, offsets);
    chosen := [];
    var i: nat := 0;
    while i < |rows|
      invariant i <= |rows| && Chosen(groups, chosen)
      invariant i == 0 ==> chosen == []
      invariant i > 0 ==> chosen != [] && chosen[|chosen| - 1] == RowGroup(offsets, rows[i - 1])
      invariant forall j :: 0 <= j < i ==> RowGroup(offsets, rows[j]) in chosen
      invariant forall g :: g in chosen ==> exists j :: 0 <= j < i && RowGroup(offsets, rows[j]) == g
    {
      var g := RowGroup(offsets, rows[i]);
      RowGroupHolds(groups, offsets, rows[i]);
      if i > 0 {
        RowGroupMonotone(groups, offsets, rows[i - 1], rows[i]);
      }
      if chosen == [] || chosen[|chosen| - 1] != g {
        chosen := chosen + [g];
      }
      i := i + 1;
    }
  }

  /** Where every chosen group starts among the selected rows. */
  method SelectedOffsets(groups: seq<seq<Raw>>, offsets: seq<nat>, chosen: seq<nat>)
      returns (starts: map<nat, nat>, selectedRows: nat)
    requires PrefixSums(groups, offsets) && Chosen(groups, chosen)
    ensures selectedRows == |Selected(groups, chosen)|
    ensures forall k :: 0 <= k < |chosen| ==>
              chosen[k] in starts && starts[chosen[k]] == |Selected(groups, chosen[..k])|
  {
    hide Selected, PrefixSums;
    starts, selectedRows := map[], 0;
    assert chosen[..0] == [];
    SelectedNone(groups);
    OffsetsSpan(groups, offsets);
    var k: nat := 0;
    while k < |chosen|
      invariant k <= |chosen| && selectedRows == |Selected(groups, chosen[..k])|
      invariant forall j :: 0 <= j < k ==> chosen[j] in starts && starts[chosen[j]] == |Selected(groups, chosen[..j])|
    {
      var g := chosen[k];
      SelectedStep(groups, chosen, k);
      OffsetsStep(groups, offsets, g);
      starts := starts[g := selectedRows];
      selectedRows := selectedRows + (offsets[g + 1] - offsets[g]);
      k := k + 1;
    }
    assert chosen[..k] == chosen;
  }

  datatype ReadError = RowOutOfRange(row: nat) | Undecodable(code: nat)

  /** The selection reads the demanded rows: indexing the selected groups gives exactly those. */
  ghost predicate Selects(groups: seq<seq<Raw>>, rows: seq<nat>, s: Selection) {
    && Chosen(groups, s.rowGroups) && s.selectedRows == |Selected(groups, s.rowGroups)|
    && |s.relativeRows| == |rows| && Ascending(s.relativeRows)
    && forall i :: 0 <= i < |rows| ==>
         && rows[i] < |Flat(groups)| && s.relativeRows[i] < s.selectedRows
         && Selected(groups, s.rowGroups)[s.relativeRows[i]] == Flat(groups)[rows[i]]
  }

  /** Where a row lies among the selected rows. */
  lemma RelativeRow(groups: seq<seq<Raw>>, offsets: seq<nat>, chosen: seq<nat>, row: nat, k: nat)
    requires PrefixSums(groups, offsets) && Chosen(groups, chosen) && row < |Flat(groups)|
    requires k < |chosen| && chosen[k] == RowGroup(offsets, row)
    ensures var at := |Selected(groups, chosen[..k])| + row - offsets[chosen[k]];
            && offsets[chosen[k]] <= row && at < |Selected(groups, chosen[..k + 1])| <= |Selected(groups, chosen)|
            && Selected(groups, chosen)[at] == Flat(groups)[row]
  {
    hide Selected, RowGroup, PrefixSums;
    RowGroupHolds(groups, offsets, row);
    SelectedStep(groups, chosen, k);
    SelectedPrefix(groups, chosen, k + 1, |chosen|);
    assert chosen[..|chosen|] == chosen;
  }

  /** `at` is where a row lies among the selected rows. */
  ghost predicate Relative(groups: seq<seq<Raw>>, offsets: seq<nat>, chosen: seq<nat>, row: nat, at: nat) {
    && Chosen(groups, chosen) && PrefixSums(groups, offsets) && row < |Flat(groups)|
    && at < |Selected(groups, chosen)| && Selected(groups, chosen)[at] == Flat(groups)[row]
    && offsets[0] <= row
    && exists k :: 0 <= k < |chosen| && chosen[k] == RowGroup(offsets, row) &&
         at == |Selected(groups, chosen[..k])| + row - offsets[chosen[k]]
  }

  lemma RelativeIs(groups: seq<seq<Raw>>, offsets: seq<nat>, chosen: seq<nat>, row: nat, k: nat, at: nat)
    requires PrefixSums(groups, offsets) && Chosen(groups, chosen) && offsets[0] <= row < |Flat(groups)|
    requires k < |chosen| && chosen[k] == RowGroup(offsets, row)
    requires at == |Selected(groups, chosen[..k])| + row - offsets[chosen[k]]
    ensures Relative(groups, offsets, chosen, row, at)
  {
    hide Selected, RowGroup, Flat;
    RelativeRow(groups, offsets, chosen, row, k);
  }

  lemma RelativeAscends(groups: seq<seq<Raw>>, offsets: seq<nat>, chosen: seq<nat>, row: nat, at: nat, other: nat,
                        next: nat)
    requires Relative(groups, offsets, chosen, row, at) && Relative(groups, offsets, chosen, other, next) && row < other
    ensures at < next
  {
    hide Selected, RowGroup, PrefixSums;
    OffsetsSpan(groups, offsets);
    var k :| 0 <= k < |chosen| && chosen[k] == RowGroup(offsets, row) &&
             at == |Selected(groups, chosen[..k])| + row - offsets[chosen[k]];
    var m :| 0 <= m < |chosen| && chosen[m] == RowGroup(offsets, other) &&
             next == |Selected(groups, chosen[..m])| + other - offsets[chosen[m]];
    RowGroupMonotone(groups, offsets, row, other);
    RelativeRow(groups, offsets, chosen, row, k);
    RelativeRow(groups, offsets, chosen, other, m);
    if k < m {
      SelectedPrefix(groups, chosen, k + 1, m);
    }
  }

  /** The positions of ascending rows among the selected rows. */
  method RelativeRows(groups: seq<seq<Raw>>, offsets: seq<nat>, rows: seq<nat>, chosen: seq<nat>, starts: map<nat, nat>)
      returns (relative: seq<nat>)
    requires PrefixSums(groups, offsets) && Ascending(rows) && Chosen(groups, chosen)
    requires forall i :: 0 <= i < |rows| ==>
               offsets[0] <= rows[i] < |Flat(groups)| && RowGroup(offsets, rows[i]) in chosen
    requires forall k :: 0 <= k < |chosen| ==>
               chosen[k] in starts && starts[chosen[k]] == |Selected(groups, chosen[..k])|
    ensures |relative| == |rows| && Ascending(relative)
    ensures forall i :: 0 <= i < |rows| ==> Relative(groups, offsets, chosen, rows[i], relative[i])
  {
    hide Selected, RowGroup, PrefixSums, Chosen;
    OffsetsSpan(groups, offsets);
    relative := [];
    while |relative| < |rows|
      invariant |relative| <= |rows| && Ascending(relative)
      invariant forall i :: 0 <= i < |relative| ==> Relative(groups, offsets, chosen, rows[i], relative[i])
    {
      hide Relative;
      var i := |relative|;
      var group := RowGroup(offsets, rows[i]);
      ghost var k: nat :| k < |chosen| && chosen[k] == group;
      RelativeRow(groups, offsets, chosen, rows[i], k);
      ChosenInRange(groups, chosen, k);
      var at := starts[group] + rows[i] - offsets[group];
      RelativeIs(groups, offsets, chosen, rows[i], k, at);
      forall j | 0 <= j < i
        ensures relative[j] < at
      {
        RelativeAscends(groups, offsets, chosen, rows[j], relative[j], rows[i], at);
      }
      relative := relative + [at];
    }
  }

  lemma RelativeSelects(groups: seq<seq<Raw>>, offsets: seq<nat>, rows: seq<nat>, s: Selection)
    requires Chosen(groups, s.rowGroups) && s.selectedRows == |Selected(groups, s.rowGroups)|
    requires |s.relativeRows| == |rows| && Ascending(s.relativeRows)
    requires forall i :: 0 <= i < |rows| ==> Relative(groups, offsets, s.rowGroups, rows[i], s.relativeRows[i])
    ensures Selects(groups, rows, s)
  {
    hide Selected, RowGroup, PrefixSums, Chosen, Flat;
  }

  /** The groups to read are exactly those that hold a demanded row. */
  ghost predicate Needed(offsets: seq<nat>, rows: seq<nat>, chosen: seq<nat>) {
    && offsets != [] && (forall i :: 0 <= i < |rows| ==> offsets[0] <= rows[i])
    && forall g :: g in chosen <==> exists i :: 0 <= i < |rows| && RowGroup(offsets, rows[i]) == g
  }

  method Select(groups: seq<seq<Raw>>, offsets: seq<nat>, rows: seq<nat>) returns (r: Result<Selection, ReadError>)
    requires PrefixSums(groups, offsets) && Ascending(rows)
    ensures r.Ok? <==> forall i :: 0 <= i < |rows| ==> rows[i] < |Flat(groups)|
    ensures r.Ok? ==> Selects(groups, rows, r.value) && Needed(offsets, rows, r.value.rowGroups)
  {
    hide Selected, RowGroup, PrefixSums, Relative, Flat;
    OffsetsSpan(groups, offsets);
    if rows == [] {
      SelectedNone(groups);
      return Ok(Selection([], [], 0));
    }
    var total := offsets[|offsets| - 1];
    if rows[|rows| - 1] >= total {
      return Err(RowOutOfRange(rows[|rows| - 1]));
    }
    var chosen := GroupsOf(groups, offsets, rows);
    var starts, selectedRows := SelectedOffsets(groups, offsets, chosen);
    var relative := RelativeRows(groups, offsets, rows, chosen, starts);
    RelativeSelects(groups, offsets, rows, Selection(chosen, relative, selectedRows));
    return Ok(Selection(chosen, relative, selectedRows));
  }
}

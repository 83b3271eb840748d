/**
 * Compiling a kernel over named state to one over indexed state. Named evaluation,
 * where a missing name reads null, is the reference; binding is proved to preserve
 * every result, error and state along every run.
 */
module Binding {
  import opened Wrappers
  import opened Sorting
  import opened Values
  import opened Columns
  import opened Expressions

  // ---------------------------------------------------------------------------
  // Sorted names.

  predicate StrLess(a: string, b: string) {
    CompareStr(a, b) == Less
  }

  lemma {:induction false} StrLessTransitive(a: string, b: string, c: string)
    requires StrLess(a, b) && StrLess(b, c)
    ensures StrLess(a, c)
  {
    if a != [] && b != [] && c != [] && a[0] == b[0] == c[0] {
      StrLessTransitive(a[1..], b[1..], c[1..]);
    }
  }

  predicate StrAbove(a: string, b: string) {
    StrLess(b, a)
  }

  /** Comparing strings is a total order. */
  lemma StrOrders()
    ensures Orders(StrAbove) && forall a, b :: Tied(a, b, StrAbove) ==> a == b
  {
    forall a, b
      ensures StrAbove(a, b) ==> !StrAbove(b, a)
      ensures Tied(a, b, StrAbove) ==> a == b
    {
      CompareStrReverse(a, b);
    }
    forall a, b, c | !StrAbove(a, b) && !StrAbove(b, c)
      ensures !StrAbove(a, c)
    {
      CompareStrReverse(a, b);
      if StrAbove(a, c) && StrLess(a, b) {
        StrLessTransitive(c, a, b);
      }
    }
  }

  ghost predicate NamesAscend(names: seq<string>) {
    forall i, j :: 0 <= i < j < |names| ==> StrLess(names[i], names[j])
  }

  /** The names in ascending order, each once. */
  function SortedDistinct(names: seq<string>): seq<string> {
    Dedup(Sorted(names, StrAbove))
  }

  lemma SortedDistinctExact(names: seq<string>)
    ensures NamesAscend(SortedDistinct(names))
    ensures forall x :: x in SortedDistinct(names) <==> x in names
  {
    hide Orders, Tied;
    StrOrders();
    SortedExact(names, StrAbove);
    DedupStrict(Sorted(names, StrAbove), StrAbove);
    DedupMembers(Sorted(names, StrAbove));
    SameMembers(Sorted(names, StrAbove), names);
  }

  lemma AscendInOrder(names: seq<string>)
    requires NamesAscend(names)
    ensures InOrder(names, StrAbove)
  {
    forall i, j | 0 <= i < j < |names|
      ensures !StrAbove(names[i], names[j])
    {
      CompareStrReverse(names[i], names[j]);
    }
  }

  function BinarySearch(names: seq<string>, name: string, lo: nat, hi: nat): (r: Option<nat>)
    requires lo <= hi <= |names|
    ensures r.Some? ==> lo <= r.value < hi
    decreases hi - lo
  {
    if lo == hi then None else
    var mid := (lo + hi) / 2;
    match CompareStr(names[mid], name)
    case Equal => Some(mid)
    case Less => BinarySearch(names, name, mid + 1, hi)
    case Greater => BinarySearch(names, name, lo, mid)
  }

  lemma AroundInOrder(names: seq<string>, mid: nat)
    requires InOrder(names, StrAbove) && mid < |names|
    ensures forall k :: 0 <= k < mid ==> !StrAbove(names[k], names[mid])
    ensures forall k :: mid < k < |names| ==> !StrAbove(names[mid], names[k])
  {
  }

  /** On sorted names, binary search finds a name exactly when it is there; some place of it, when it is repeated. */
  lemma {:induction false} BinarySearchFinds(names: seq<string>, name: string, lo: nat, hi: nat)
    requires InOrder(names, StrAbove) && lo <= hi <= |names|
    ensures var r := BinarySearch(names, name, lo, hi);
            && (r.Some? ==> names[r.value] == name)
            && (r.None? ==> forall k :: lo <= k < hi ==> names[k] != name)
    decreases hi - lo
  {
    hide CompareStr, InOrder;
    if lo < hi {
      var mid := (lo + hi) / 2;
      CompareStrReverse(names[mid], name);
      AroundInOrder(names, mid);
      match CompareStr(names[mid], name) {
        case Equal =>
        case Less => BinarySearchFinds(names, name, mid + 1, hi);
        case Greater => BinarySearchFinds(names, name, lo, mid);
      }
    }
  }

  function StateIndex(names: seq<string>, name: string): (r: Option<nat>)
    ensures r.Some? ==> r.value < |names|
  {
    BinarySearch(names, name, 0, |names|)
  }

  lemma StateIndexExact(names: seq<string>, name: string)
    requires NamesAscend(names)
    ensures StateIndex(names, name).Some? <==> name in names
    ensures StateIndex(names, name).Some? ==> names[StateIndex(names, name).value] == name
  {
    AscendInOrder(names);
    BinarySearchFinds(names, name, 0, |names|);
  }

  // ---------------------------------------------------------------------------
  // Columns.

  datatype ColumnRef =
    | SrcId | DestId | EdgeId
    | SrcField(name: string) | DestField(name: string) | EdgeField(name: string)
    | State(name: string)

  datatype BoundColumn =
    | SrcId | DestId | EdgeId
    | Src(reader: ColumnReader) | Dest(reader: ColumnReader) | Edge(reader: ColumnReader)
    | StateAt(index: nat) | MissingState

  datatype BindError = MissingColumn(name: string)

  /** Payload columns by name, and external ids by row. */
  datatype Tables = Tables(nodes: map<string, ColumnReader>, edges: map<string, ColumnReader>,
                           nodeIds: seq<Value>, edgeIds: seq<Value>)

  /** The candidate edge. */
  datatype EdgeCtx = EdgeCtx(src: nat, dest: nat, edge: nat)

  function IdValue(ids: seq<Value>, row: nat): Evaluated {
    if row < |ids| then Ok(ids[row]) else Err(MissingId)
  }

  function ReadCell(reader: ColumnReader, row: nat): Evaluated {
    if row < Rows(reader) then CellValue(reader, row) else Err(OutOfRange(row))
  }

  const ID_COL := "id"
  const EDGE_SRC_COL := "src"
  const EDGE_DEST_COL := "dest"

  function BindReader(table: map<string, ColumnReader>, name: string): Result<ColumnReader, BindError> {
    if name in table then Ok(table[name]) else Err(MissingColumn(name))
  }

  function BindColumn(tables: Tables, names: seq<string>, column: ColumnRef): Result<BoundColumn, BindError> {
    match column
    case SrcId => Ok(BoundColumn.SrcId)
    case DestId => Ok(BoundColumn.DestId)
    case EdgeId => Ok(BoundColumn.EdgeId)
    case SrcField(name) =>
      if name == ID_COL then Ok(BoundColumn.SrcId) else
      var r := BindReader(tables.nodes, name);
      if r.Err? then Err(r.error) else Ok(Src(r.value))
    case DestField(name) =>
      if name == ID_COL then Ok(BoundColumn.DestId) else
      var r := BindReader(tables.nodes, name);
      if r.Err? then Err(r.error) else Ok(Dest(r.value))
    case EdgeField(name) =>
      if name == ID_COL then Ok(BoundColumn.EdgeId)
      else if name == EDGE_SRC_COL then Ok(BoundColumn.SrcId)
      else if name == EDGE_DEST_COL then Ok(BoundColumn.DestId)
      else
        var r := BindReader(tables.edges, name);
        if r.Err? then Err(r.error) else Ok(Edge(r.value))
    case State(name) => Ok(if StateIndex(names, name).Some? then StateAt(StateIndex(names, name).value)
                           else MissingState)
  }

  function BoundValue(tables: Tables, at: EdgeCtx, state: seq<Value>, column: BoundColumn): Evaluated {
    match column
    case SrcId => IdValue(tables.nodeIds, at.src)
    case DestId => IdValue(tables.nodeIds, at.dest)
    case EdgeId => IdValue(tables.edgeIds, at.edge)
    case Src(reader) => ReadCell(reader, at.src)
    case Dest(reader) => ReadCell(reader, at.dest)
    case Edge(reader) => ReadCell(reader, at.edge)
    case StateAt(index) => if index < |state| then Ok(state[index]) else Err(OutOfRange(index))
    case MissingState => Ok(Null)
  }

  function LiteralShortcut(at: EdgeCtx, column: BoundColumn, op: ScalarOp, literal: Value,
                           reverse: bool): Option<Evaluated> {
    if !IsComparison(op) then None else
    match column
    case Src(reader) =>
      if at.src < Rows(reader) then EvalScalarLiteral(reader, at.src, op, literal, reverse) else None
    case Dest(reader) =>
      if at.dest < Rows(reader) then EvalScalarLiteral(reader, at.dest, op, literal, reverse) else None
    case Edge(reader) =>
      if at.edge < Rows(reader) then EvalScalarLiteral(reader, at.edge, op, literal, reverse) else None
    case _ => None
  }

  function BoundEnv(tables: Tables, at: EdgeCtx, state: seq<Value>, builtin: Builtin): Env<BoundColumn> {
    Env(column => BoundValue(tables, at, state, column),
        Some((column, op, literal, reverse) => LiteralShortcut(at, column, op, literal, reverse)),
        builtin)
  }

  lemma BoundShortcutSound(tables: Tables, at: EdgeCtx, state: seq<Value>, builtin: Builtin)
    ensures SoundShortcut(BoundEnv(tables, at, state, builtin))
  {
    hide CellValue, EvalScalarLiteral, EvalScalar;
    var env := BoundEnv(tables, at, state, builtin);
    forall column, op, literal, reverse | IsComparison(op) && env.shortcut.value(column, op, literal, reverse).Some?
      ensures env.read(column).Ok? &&
              env.shortcut.value(column, op, literal, reverse).value ==
                EvalScalar(op, Operands(env.read(column).value, literal, reverse), builtin)
    {
      var row := if column.Src? then at.src else if column.Dest? then at.dest else at.edge;
      LiteralRefines(column.reader, row, op, literal, reverse, builtin);
    }
  }

  // ---------------------------------------------------------------------------
  // Named evaluation.

  /** Named state: a name that is absent reads null. */
  type Named = map<string, Value>

  function Read(state: Named, name: string): Value {
    if name in state then state[name] else Null
  }

  /** A named field of a row, looked up among the columns on every read. */
  function NamedCell(table: map<string, ColumnReader>, name: string, row: nat): Evaluated {
    if name in table then ReadCell(table[name], row) else Err(OutOfRange(row))
  }

  function NamedValue(tables: Tables, at: EdgeCtx, state: Named, column: ColumnRef): Evaluated {
    match column
    case SrcId => IdValue(tables.nodeIds, at.src)
    case DestId => IdValue(tables.nodeIds, at.dest)
    case EdgeId => IdValue(tables.edgeIds, at.edge)
    case SrcField(name) =>
      if name == ID_COL then IdValue(tables.nodeIds, at.src) else NamedCell(tables.nodes, name, at.src)
    case DestField(name) =>
      if name == ID_COL then IdValue(tables.nodeIds, at.dest) else NamedCell(tables.nodes, name, at.dest)
    case EdgeField(name) =>
      if name == ID_COL then IdValue(tables.edgeIds, at.edge)
      else if name == EDGE_SRC_COL then IdValue(tables.nodeIds, at.src)
      else if name == EDGE_DEST_COL then IdValue(tables.nodeIds, at.dest)
      else NamedCell(tables.edges, name, at.edge)
    case State(name) => Ok(Read(state, name))
  }

  function NamedEnv(tables: Tables, at: EdgeCtx, state: Named, builtin: Builtin): Env<ColumnRef> {
    Env(column => NamedValue(tables, at, state, column), None, builtin)
  }

  /**
   * What the columns of a kernel read: endpoint columns the node table at the endpoint's row, edge
   * columns the edge table at the edge's row, and the reserved names the external ids.
   */
  lemma ColumnMeaning(tables: Tables, at: EdgeCtx, state: Named, name: string, v: Value)
    ensures NamedValue(tables, at, state, ColumnRef.SrcId) == NamedValue(tables, at, state, SrcField("id"))
            == NamedValue(tables, at, state, EdgeField("src"))
    ensures NamedValue(tables, at, state, ColumnRef.DestId) == NamedValue(tables, at, state, DestField("id"))
            == NamedValue(tables, at, state, EdgeField("dest"))
    ensures NamedValue(tables, at, state, ColumnRef.EdgeId) == NamedValue(tables, at, state, EdgeField("id"))
    ensures NamedValue(tables, at, state, ColumnRef.SrcId) == Ok(v) <==>
            at.src < |tables.nodeIds| && tables.nodeIds[at.src] == v
    ensures NamedValue(tables, at, state, ColumnRef.DestId) == Ok(v) <==>
            at.dest < |tables.nodeIds| && tables.nodeIds[at.dest] == v
    ensures NamedValue(tables, at, state, ColumnRef.EdgeId) == Ok(v) <==>
            at.edge < |tables.edgeIds| && tables.edgeIds[at.edge] == v
    ensures name != "id" ==>
              (NamedValue(tables, at, state, SrcField(name)) == Ok(v) <==> Cell(tables.nodes, name, at.src, v))
    ensures name != "id" ==>
              (NamedValue(tables, at, state, DestField(name)) == Ok(v) <==> Cell(tables.nodes, name, at.dest, v))
    ensures name !in {"id", "src", "dest"} ==>
              (NamedValue(tables, at, state, EdgeField(name)) == Ok(v) <==> Cell(tables.edges, name, at.edge, v))
    ensures NamedValue(tables, at, state, State(name)) == Ok(if name in state then state[name] else Null)
  {
    hide NamedCell, Cell;
    CellMeaning(tables.nodes, name, at.src, v);
    CellMeaning(tables.nodes, name, at.dest, v);
    CellMeaning(tables.edges, name, at.edge, v);
  }

  lemma CellMeaning(table: map<string, ColumnReader>, name: string, row: nat, v: Value)
    ensures NamedCell(table, name, row) == Ok(v) <==> Cell(table, name, row, v)
  {
  }

  /** The named column holds that value in that row. */
  ghost predicate Cell(table: map<string, ColumnReader>, name: string, row: nat, v: Value) {
    name in table && row < Rows(table[name]) && CellHolds(table[name], row, v)
  }

  /** The cell is the value, or is empty and the value null. */
  ghost predicate CellHolds(reader: ColumnReader, row: nat, v: Value)
    requires row < Rows(reader)
  {
    match reader
    case Bools(s) => s[row] == (if v.Bool? then Some(v.b) else None) && (v.Bool? || v.Null?)
    case Ints(s) => s[row] == (if v.I64? then Some(v.i) else None) && (v.I64? || v.Null?)
    case Uints(s) => s[row] == (if v.U64? then Some(v.u) else None) && (v.U64? || v.Null?)
    case Floats(s) => s[row] == (if v.Float? then Some(v.f) else None) && (v.Float? || v.Null?)
    case Strings(s) => s[row] == (if v.Str? then Some(v.s) else None) && (v.Str? || v.Null?)
    case Nested(s) => s[row] == Ok(v)
  }

  /** The slots hold what the names read, and nothing else is named. */
  ghost predicate Represents(names: seq<string>, slots: seq<Value>, state: Named) {
    && |slots| == |names|
    && (forall k :: 0 <= k < |names| ==> slots[k] == Read(state, names[k]))
    && (forall name :: name in state ==> name in names)
  }

  ghost predicate Bound(tables: Tables, names: seq<string>, column: ColumnRef, bound: BoundColumn) {
    BindColumn(tables, names, column) == Ok(bound)
  }

  /** A bound column reads what the named one reads. */
  lemma BoundReads(tables: Tables, names: seq<string>, at: EdgeCtx, slots: seq<Value>, state: Named,
                   column: ColumnRef, bound: BoundColumn)
    requires NamesAscend(names) && Represents(names, slots, state) && Bound(tables, names, column, bound)
    ensures BoundValue(tables, at, slots, bound) == NamedValue(tables, at, state, column)
  {
    if column.State? {
      StateIndexExact(names, column.name);
    }
  }

  lemma BoundRefines(tables: Tables, names: seq<string>, at: EdgeCtx, slots: seq<Value>, state: Named, builtin: Builtin,
                     link: (ColumnRef, BoundColumn) -> bool)
    requires NamesAscend(names) && Represents(names, slots, state)
    requires forall c, b :: link(c, b) ==> Bound(tables, names, c, b)
    ensures Refines(NamedEnv(tables, at, state, builtin), BoundEnv(tables, at, slots, builtin), link)
  {
    hide BoundValue, NamedValue, Bound, SoundShortcut, LiteralShortcut;
    BoundShortcutSound(tables, at, slots, builtin);
    forall c, b | link(c, b)
      ensures BoundValue(tables, at, slots, b) == NamedValue(tables, at, state, c)
    {
      BoundReads(tables, names, at, slots, state, c, b);
    }
  }

  // ---------------------------------------------------------------------------
  // Kernels.

  /** Expressions over named state; the initial row is sorted when the kernel is made. */
  datatype DslKernel = DslKernel(visit: Expr<ColumnRef>, nextState: seq<(string, Expr<ColumnRef>)>,
                                 stop: Expr<ColumnRef>, initialState: seq<Field>)

  datatype BoundKernel = BoundKernel(visit: Expr<BoundColumn>, nextState: seq<(nat, Expr<BoundColumn>)>,
                                     stop: Expr<BoundColumn>, names: seq<string>, initialState: seq<Value>)

  function FieldNames(fields: seq<Field>): (r: seq<string>)
    ensures |r| == |fields| && forall k :: 0 <= k < |fields| ==> r[k] == fields[k].name
  {
    seq(|fields|, k requires 0 <= k < |fields| => fields[k].name)
  }

  function Targets(next: seq<(string, Expr<ColumnRef>)>): (r: seq<string>)
    ensures |r| == |next| && forall k :: 0 <= k < |next| ==> r[k] == next[k].0
  {
    seq(|next|, k requires 0 <= k < |next| => next[k].0)
  }

  /** All names of the initial row and of the updates, sorted, each once. */
  function StateNames(initial: seq<Field>, next: seq<(string, Expr<ColumnRef>)>): seq<string> {
    SortedDistinct(FieldNames(initial) + Targets(next))
  }

  /** The initial value of every name, found by binary search; null for names without one. */
  function NormalizeState(initial: seq<Field>, names: seq<string>): (r: seq<Value>)
    ensures |r| == |names|
  {
    seq(|names|, k requires 0 <= k < |names| =>
      var at := StateIndex(FieldNames(initial), names[k]);
      if at.Some? then initial[at.value].value else Null)
  }

  function Binder(tables: Tables, names: seq<string>): ColumnRef -> Result<BoundColumn, BindError> {
    column => BindColumn(tables, names, column)
  }

  function BindUpdates(tables: Tables, names: seq<string>, next: seq<(string, Expr<ColumnRef>)>):
    (r: Result<seq<(nat, Expr<BoundColumn>)>, BindError>)
    requires forall k :: 0 <= k < |next| ==> StateIndex(names, next[k].0).Some?
    ensures r.Ok? ==> |r.value| == |next|
    ensures r.Ok? ==> forall k :: 0 <= k < |next| ==>
              && Some(r.value[k].0) == StateIndex(names, next[k].0)
              && TryMapColumn(next[k].1, Binder(tables, names)) == Ok(r.value[k].1)
  {
    if next == [] then Ok([]) else
    var last := |next| - 1;
    var init := BindUpdates(tables, names, next[..last]);
    if init.Err? then init else
    var expr := TryMapColumn(next[last].1, Binder(tables, names));
    if expr.Err? then Err(expr.error) else
    Ok(init.value + [(StateIndex(names, next[last].0).value, expr.value)])
  }

  lemma TargetsNamed(initial: seq<Field>, next: seq<(string, Expr<ColumnRef>)>)
    ensures var names := StateNames(initial, next);
            && NamesAscend(names)
            && (forall k :: 0 <= k < |next| ==> StateIndex(names, next[k].0).Some?)
            && (forall k :: 0 <= k < |initial| ==> initial[k].name in names)
  {
    var all := FieldNames(initial) + Targets(next);
    var names := StateNames(initial, next);
    SortedDistinctExact(all);
    forall k | 0 <= k < |next|
      ensures StateIndex(names, next[k].0).Some?
    {
      assert all[|initial| + k] == next[k].0;
      StateIndexExact(names, next[k].0);
    }
    forall k | 0 <= k < |initial|
      ensures initial[k].name in names
    {
      assert all[k] == initial[k].name;
    }
  }

  function Bind(tables: Tables, kernel: DslKernel): Result<BoundKernel, BindError> {
    var names := StateNames(kernel.initialState, kernel.nextState);
    TargetsNamed(kernel.initialState, kernel.nextState);
    var visit := TryMapColumn(kernel.visit, Binder(tables, names));
    if visit.Err? then Err(visit.error) else
    var next := BindUpdates(tables, names, kernel.nextState);
    if next.Err? then Err(next.error) else
    var stop := TryMapColumn(kernel.stop, Binder(tables, names));
    if stop.Err? then Err(stop.error) else
    Ok(BoundKernel(visit.value, next.value, stop.value, names, NormalizeState(kernel.initialState, names)))
  }

  /** The column can be bound: a field of a table is one of its columns or a reserved name. */
  ghost predicate Binds(tables: Tables, column: ColumnRef) {
    match column
    case SrcField(name) => name == "id" || name in tables.nodes
    case DestField(name) => name == "id" || name in tables.nodes
    case EdgeField(name) => name in {"id", "src", "dest"} || name in tables.edges
    case _ => true
  }

  /** All columns of the expression can be bound. */
  ghost predicate AllBind(tables: Tables, e: Expr<ColumnRef>) {
    forall column :: HasColumn(e, column) ==> Binds(tables, column)
  }

  lemma BinderExact(tables: Tables, names: seq<string>, e: Expr<ColumnRef>)
    ensures TryMapColumn(e, Binder(tables, names)).Ok? <==> AllBind(tables, e)
  {
    hide TryMapColumn, HasColumn;
    MapExact(e, Binder(tables, names));
    assert forall column :: Binder(tables, names)(column).Ok? <==> Binds(tables, column);
  }

  lemma {:induction false} UpdatesBind(tables: Tables, names: seq<string>, next: seq<(string, Expr<ColumnRef>)>)
    requires forall k :: 0 <= k < |next| ==> StateIndex(names, next[k].0).Some?
    ensures BindUpdates(tables, names, next).Ok? <==> forall k :: 0 <= k < |next| ==> AllBind(tables, next[k].1)
  {
    hide AllBind, TryMapColumn, StateIndex;
    if next != [] {
      var last := |next| - 1;
      UpdatesBind(tables, names, next[..last]);
      BinderExact(tables, names, next[last].1);
      assert forall k :: 0 <= k < last ==> next[..last][k] == next[k];
    }
  }

  /** Binding succeeds exactly when all columns that the kernel mentions can be bound. */
  lemma BindExact(tables: Tables, kernel: DslKernel)
    ensures Bind(tables, kernel).Ok? <==>
            && AllBind(tables, kernel.visit) && AllBind(tables, kernel.stop)
            && forall k :: 0 <= k < |kernel.nextState| ==> AllBind(tables, kernel.nextState[k].1)
  {
    hide AllBind, TryMapColumn, StateNames, StateIndex, BindUpdates, NormalizeState;
    var names := StateNames(kernel.initialState, kernel.nextState);
    TargetsNamed(kernel.initialState, kernel.nextState);
    BinderExact(tables, names, kernel.visit);
    BinderExact(tables, names, kernel.stop);
    UpdatesBind(tables, names, kernel.nextState);
  }

  // ---------------------------------------------------------------------------
  // The initial row.

  predicate FieldAbove(a: Field, b: Field) {
    StrAbove(a.name, b.name)
  }

  /** A kernel takes its initial row in any order and sorts it by name, stably. */
  function NewKernel(visit: Expr<ColumnRef>, nextState: seq<(string, Expr<ColumnRef>)>, stop: Expr<ColumnRef>,
                     initial: seq<Field>): DslKernel
  {
    DslKernel(visit, nextState, stop, Sorted(initial, FieldAbove))
  }

  /** The kernel's row is the given one in order of names; the values of a repeated name keep their order. */
  lemma InitialSorted(initial: seq<Field>)
    ensures var row := Sorted(initial, FieldAbove);
            && InOrder(FieldNames(row), StrAbove) && multiset(row) == multiset(initial)
            && forall f :: Ties(row, f, FieldAbove) == Ties(initial, f, FieldAbove)
  {
    StrOrders();
    assert Orders(FieldAbove);
    SortedExact(initial, FieldAbove);
    var row := Sorted(initial, FieldAbove);
    forall i, j | 0 <= i < j < |row|
      ensures !StrAbove(FieldNames(row)[i], FieldNames(row)[j])
    {
      assert !FieldAbove(row[i], row[j]);
    }
  }

  /** Named state with the names of `fields`, each with the value of one of its occurrences. */
  ghost predicate Takes(fields: seq<Field>, state: Named) {
    && (forall k :: 0 <= k < |fields| ==> fields[k].name in state)
    && (forall name :: name in state ==> Field(name, state[name]) in fields)
  }

  /** With distinct names there is only one. */
  lemma TakesUnique(fields: seq<Field>, s: Named, t: Named)
    requires Takes(fields, s) && Takes(fields, t)
    requires forall i, j :: 0 <= i < j < |fields| ==> fields[i].name != fields[j].name
    ensures s == t
  {
    forall name | name in s
      ensures name in t && s[name] == t[name]
    {
      var i :| 0 <= i < |fields| && fields[i] == Field(name, s[name]);
      assert fields[i].name in t;
    }
    forall name | name in t
      ensures name in s
    {
      var i :| 0 <= i < |fields| && fields[i] == Field(name, t[name]);
      assert fields[i].name in s;
    }
  }

  /** What searching `fields` for every name may yield: null, or the value of any occurrence. */
  ghost predicate Normalized(fields: seq<Field>, names: seq<string>, slots: seq<Value>) {
    && |slots| == |names|
    && forall k :: 0 <= k < |names| ==>
         if names[k] in FieldNames(fields) then Field(names[k], slots[k]) in fields else slots[k] == Null
  }

  lemma NormalizeExact(fields: seq<Field>, names: seq<string>)
    requires InOrder(FieldNames(fields), StrAbove)
    ensures Normalized(fields, names, NormalizeState(fields, names))
  {
    forall k | 0 <= k < |names|
      ensures var v := NormalizeState(fields, names)[k];
              if names[k] in FieldNames(fields) then Field(names[k], v) in fields else v == Null
    {
      BinarySearchFinds(FieldNames(fields), names[k], 0, |fields|);
      var at := StateIndex(FieldNames(fields), names[k]);
      if at.Some? {
        assert fields[at.value] == Field(names[k], fields[at.value].value);
      }
    }
  }

  /** The slots read back under those names that `fields` gives a value. */
  ghost function NamedSlots(fields: seq<Field>, names: seq<string>, slots: seq<Value>): Named
    requires |slots| == |names| && forall name :: name in FieldNames(fields) ==> StateIndex(names, name).Some?
  {
    map name | name in FieldNames(fields) :: slots[StateIndex(names, name).value]
  }

  /**
   * Whichever occurrence of a repeated name is found, the initial slots represent named state
   * that takes the value of one occurrence of every name.
   */
  lemma InitialRepresents(given: seq<Field>, fields: seq<Field>, next: seq<(string, Expr<ColumnRef>)>,
                          slots: seq<Value>)
    requires multiset(fields) == multiset(given) && Normalized(fields, StateNames(fields, next), slots)
    ensures var names := StateNames(fields, next);
            && NamesAscend(names) && |slots| == |names|
            && (forall name :: name in FieldNames(fields) ==> StateIndex(names, name).Some?)
            && Takes(given, NamedSlots(fields, names, slots))
            && Represents(names, slots, NamedSlots(fields, names, slots))
  {
    hide SortedDistinct, NamesAscend;
    var names := StateNames(fields, next);
    TargetsNamed(fields, next);
    SameMembers(fields, given);
    forall name | name in FieldNames(fields)
      ensures StateIndex(names, name).Some? && names[StateIndex(names, name).value] == name
    {
      var i :| 0 <= i < |fields| && FieldNames(fields)[i] == name;
      assert fields[i].name in names;
      StateIndexExact(names, name);
    }
    var state := NamedSlots(fields, names, slots);
    forall k | 0 <= k < |given|
      ensures given[k].name in state
    {
      assert given[k] in fields;
      var i :| 0 <= i < |fields| && fields[i] == given[k];
      assert FieldNames(fields)[i] == given[k].name;
    }
    SlotsRepresent(fields, names, slots);
  }

  lemma SlotsRepresent(fields: seq<Field>, names: seq<string>, slots: seq<Value>)
    requires NamesAscend(names) && Normalized(fields, names, slots)
    requires forall name :: name in FieldNames(fields) ==>
               StateIndex(names, name).Some? && names[StateIndex(names, name).value] == name
    ensures Represents(names, slots, NamedSlots(fields, names, slots))
  {
    var state := NamedSlots(fields, names, slots);
    forall k | 0 <= k < |names|
      ensures slots[k] == Read(state, names[k])
    {
      if names[k] in state {
        NameOnce(names, k, StateIndex(names, names[k]).value);
      }
    }
  }

  lemma NameOnce(names: seq<string>, i: nat, j: nat)
    requires NamesAscend(names) && i < |names| && j < |names| && names[i] == names[j]
    ensures i == j
  {
    CompareStrReverse(names[i], names[i]);
  }

  // ---------------------------------------------------------------------------
  // Transitions.

  datatype Step<+S> = Reject | Continue(state: S) | Complete(state: S)

  ghost predicate InSlots(next: seq<(nat, Expr<BoundColumn>)>, n: nat) {
    forall k :: 0 <= k < |next| ==> next[k].0 < n
  }

  /** The slots after the first `k` updates; every update is evaluated against the old state. */
  ghost function BoundUpdated(next: seq<(nat, Expr<BoundColumn>)>, k: nat, current: seq<Value>, env: Env<BoundColumn>):
    (r: Result<seq<Value>, EvalError>)
    requires k <= |next| && InSlots(next, |current|)
    ensures r.Ok? ==> |r.value| == |current|
  {
    if k == 0 then Ok(current) else
    var before := BoundUpdated(next, k - 1, current, env);
    if before.Err? then before else
    var v := Eval(next[k - 1].1, env, None);
    if v.Err? then Err(v.error) else Ok(before.value[next[k - 1].0 := v.value])
  }

  lemma {:induction false} UpdateFails(next: seq<(nat, Expr<BoundColumn>)>, k: nat, m: nat, current: seq<Value>,
                                       env: Env<BoundColumn>)
    requires k <= m <= |next| && InSlots(next, |current|) && BoundUpdated(next, k, current, env).Err?
    ensures BoundUpdated(next, m, current, env) == BoundUpdated(next, k, current, env)
    decreases m
  {
    if k < m {
      UpdateFails(next, k, m - 1, current, env);
    }
  }

  /** Evaluate every update against the current slots and overwrite one slot after another. */
  method NextState(next: seq<(nat, Expr<BoundColumn>)>, current: seq<Value>, env: Env<BoundColumn>)
      returns (r: Result<seq<Value>, EvalError>)
    requires InSlots(next, |current|)
    ensures r == BoundUpdated(next, |next|, current, env)
  {
    hide Eval;
    var slots := current;
    var k: nat := 0;
    while k < |next|
      invariant k <= |next| && BoundUpdated(next, k, current, env) == Ok(slots)
    {
      var v := Eval(next[k].1, env, None);
      if v.Err? {
        UpdateFails(next, k + 1, |next|, current, env);
        return Err(v.error);
      }
      slots := slots[next[k].0 := v.value];
      k := k + 1;
    }
    return Ok(slots);
  }

  ghost function NamedUpdated(next: seq<(string, Expr<ColumnRef>)>, k: nat, current: Named, env: Env<ColumnRef>):
    Result<Named, EvalError>
    requires k <= |next|
  {
    if k == 0 then Ok(current) else
    var before := NamedUpdated(next, k - 1, current, env);
    if before.Err? then before else
    var v := Eval(next[k - 1].1, env, None);
    if v.Err? then Err(v.error) else Ok(before.value[next[k - 1].0 := v.value])
  }

  ghost function BoundTransition(kernel: BoundKernel, tables: Tables, at: EdgeCtx, slots: seq<Value>, builtin: Builtin):
    (r: Result<Step<seq<Value>>, EvalError>)
    requires InSlots(kernel.nextState, |slots|)
    ensures r.Ok? && !r.value.Reject? ==> |r.value.state| == |slots|
  {
    var env := BoundEnv(tables, at, slots, builtin);
    var visit := Truth(Eval(kernel.visit, env, None));
    if visit.Err? then Err(visit.error) else if !visit.value then Ok(Reject) else
    var next := BoundUpdated(kernel.nextState, |kernel.nextState|, slots, env);
    if next.Err? then Err(next.error) else
    var stop := Truth(Eval(kernel.stop, BoundEnv(tables, at, next.value, builtin), None));
    if stop.Err? then Err(stop.error)
    else Ok(if stop.value then Complete(next.value) else Continue(next.value))
  }

  method Transition(kernel: BoundKernel, tables: Tables, at: EdgeCtx, slots: seq<Value>, builtin: Builtin)
      returns (r: Result<Step<seq<Value>>, EvalError>)
    requires InSlots(kernel.nextState, |slots|)
    ensures r == BoundTransition(kernel, tables, at, slots, builtin)
  {
    hide Eval, BoundEnv, BoundUpdated;
    var env := BoundEnv(tables, at, slots, builtin);
    var visit := Truth(Eval(kernel.visit, env, None));
    if visit.Err? {
      return Err(visit.error);
    }
    if !visit.value {
      return Ok(Reject);
    }
    var next := NextState(kernel.nextState, slots, env);
    if next.Err? {
      return Err(next.error);
    }
    var stop := Truth(Eval(kernel.stop, BoundEnv(tables, at, next.value, builtin), None));
    if stop.Err? {
      return Err(stop.error);
    }
    return Ok(if stop.value then Complete(next.value) else Continue(next.value));
  }

  /** The slots after all updates: the last update of a slot counts, evaluated against the slots before. */
  ghost predicate Updated(next: seq<(nat, Expr<BoundColumn>)>, k: nat, before: seq<Value>, env: Env<BoundColumn>,
                          after: seq<Value>)
    requires k <= |next|
  {
    && |after| == |before|
    && (forall s :: 0 <= s < |before| && NotUpdated(next, 0, k, s) ==> after[s] == before[s])
    && (forall i :: 0 <= i < k && NotUpdated(next, i + 1, k, next[i].0) ==>
        next[i].0 < |after| && Eval(next[i].1, env, None) == Ok(after[next[i].0]))
  }

  ghost predicate NotUpdated(next: seq<(nat, Expr<BoundColumn>)>, from: nat, to: nat, slot: nat)
    requires to <= |next|
  {
    forall i :: from <= i < to ==> next[i].0 != slot
  }

  /** Update `i` is the first that fails, with `x`. */
  ghost predicate UpdateFailsAt(next: seq<(nat, Expr<BoundColumn>)>, i: nat, env: Env<BoundColumn>, x: EvalError) {
    i < |next| && Eval(next[i].1, env, None) == Err(x) && forall j :: 0 <= j < i ==> Eval(next[j].1, env, None).Ok?
  }

  /** Updating succeeds exactly when every update does; it fails as the first failing one. */
  lemma {:induction false} UpdatesMeaning(next: seq<(nat, Expr<BoundColumn>)>, k: nat, before: seq<Value>,
                                          env: Env<BoundColumn>)
    requires k <= |next| && InSlots(next, |before|)
    ensures var r := BoundUpdated(next, k, before, env);
            && (r.Ok? <==> forall i :: 0 <= i < k ==> Eval(next[i].1, env, None).Ok?)
            && (r.Ok? ==> Updated(next, k, before, env, r.value))
            && (forall i: nat, x :: i < k && UpdateFailsAt(next, i, env, x) ==> r == Err(x))
  {
    hide Eval, Updated, UpdateFailsAt;
    NothingUpdated(next, before, env);
    if k > 0 {
      UpdatesMeaning(next, k - 1, before, env);
      FailsIn(next, k - 1, env);
      var front, v := BoundUpdated(next, k - 1, before, env), Eval(next[k - 1].1, env, None);
      if front.Ok? && v.Ok? {
        UpdatedMore(next, k - 1, before, env, front.value, v.value);
      }
    }
  }

  lemma NothingUpdated(next: seq<(nat, Expr<BoundColumn>)>, before: seq<Value>, env: Env<BoundColumn>)
    ensures Updated(next, 0, before, env, before)
  {
  }

  lemma FailsIn(next: seq<(nat, Expr<BoundColumn>)>, k: nat, env: Env<BoundColumn>)
    requires k < |next|
    ensures forall x :: UpdateFailsAt(next, k, env, x) ==>
              Eval(next[k].1, env, None) == Err(x) && forall j :: 0 <= j < k ==> Eval(next[j].1, env, None).Ok?
  {
    hide Eval;
  }

  lemma UpdatedMore(next: seq<(nat, Expr<BoundColumn>)>, k: nat, before: seq<Value>, env: Env<BoundColumn>,
                    after: seq<Value>, v: Value)
    requires k < |next| && InSlots(next, |before|) && Updated(next, k, before, env, after)
    requires Eval(next[k].1, env, None) == Ok(v)
    ensures Updated(next, k + 1, before, env, after[next[k].0 := v])
  {
    hide Eval, NotUpdated;
    var slot, last := next[k].0, after[next[k].0 := v];
    forall s | 0 <= s < |before| && NotUpdated(next, 0, k + 1, s)
      ensures last[s] == before[s]
    {
      NotUpdatedMore(next, 0, k, s);
    }
    forall i | 0 <= i < k && NotUpdated(next, i + 1, k + 1, next[i].0)
      ensures Eval(next[i].1, env, None) == Ok(last[next[i].0])
    {
      NotUpdatedMore(next, i + 1, k, next[i].0);
    }
  }

  lemma NotUpdatedMore(next: seq<(nat, Expr<BoundColumn>)>, from: nat, to: nat, slot: nat)
    requires from <= to < |next|
    ensures NotUpdated(next, from, to + 1, slot) <==> NotUpdated(next, from, to, slot) && next[to].0 != slot
  {
  }

  /** Every update can be evaluated. */
  ghost predicate UpdatesHold(next: seq<(nat, Expr<BoundColumn>)>, env: Env<BoundColumn>) {
    forall i :: 0 <= i < |next| ==> Eval(next[i].1, env, None).Ok?
  }

  /**
   * What a transition decides, by what its expressions evaluate to. It rejects exactly when
   * `visit` is false or null. It fails as `visit`, the first failing update or, after the
   * updates, `stop` does. Otherwise it completes exactly when `stop` is true there.
   */
  lemma TransitionMeaning(kernel: BoundKernel, tables: Tables, at: EdgeCtx, slots: seq<Value>, builtin: Builtin)
    requires InSlots(kernel.nextState, |slots|)
    ensures var env := BoundEnv(tables, at, slots, builtin);
            var visit, t := Eval(kernel.visit, env, None), BoundTransition(kernel, tables, at, slots, builtin);
            && (t == Ok(Reject) <==> IsFalse(visit))
            && (forall x :: FailsWith(visit, x) ==> t == Err(x))
            && (IsTrue(visit) ==>
                  && (forall i: nat, x :: UpdateFailsAt(kernel.nextState, i, env, x) ==> t == Err(x))
                  && (UpdatesHold(kernel.nextState, env) ==>
                        exists after :: Updated(kernel.nextState, |kernel.nextState|, slots, env, after) &&
                          StopDecides(kernel, tables, at, after, builtin, t)))
  {
    hide Eval, BoundEnv, Updated, BoundUpdated;
    var env := BoundEnv(tables, at, slots, builtin);
    UpdatesMeaning(kernel.nextState, |kernel.nextState|, slots, env);
    ConditionMeaning(Eval(kernel.visit, env, None));
    var next := BoundUpdated(kernel.nextState, |kernel.nextState|, slots, env);
    if next.Ok? {
      ConditionMeaning(Eval(kernel.stop, BoundEnv(tables, at, next.value, builtin), None));
    }
  }

  /** `stop` over the updated slots completes the path or lets it continue, with those slots. */
  ghost predicate StopDecides(kernel: BoundKernel, tables: Tables, at: EdgeCtx, after: seq<Value>, builtin: Builtin,
                              t: Result<Step<seq<Value>>, EvalError>) {
    var stop := Eval(kernel.stop, BoundEnv(tables, at, after, builtin), None);
    && (IsTrue(stop) ==> t == Ok(Complete(after)))
    && (IsFalse(stop) ==> t == Ok(Continue(after)))
    && (forall x :: FailsWith(stop, x) ==> t == Err(x))
  }

  ghost function NamedTransition(kernel: DslKernel, tables: Tables, at: EdgeCtx, state: Named, builtin: Builtin):
    Result<Step<Named>, EvalError>
  {
    var env := NamedEnv(tables, at, state, builtin);
    var visit := Truth(Eval(kernel.visit, env, None));
    if visit.Err? then Err(visit.error) else if !visit.value then Ok(Reject) else
    var next := NamedUpdated(kernel.nextState, |kernel.nextState|, state, env);
    if next.Err? then Err(next.error) else
    var stop := Truth(Eval(kernel.stop, NamedEnv(tables, at, next.value, builtin), None));
    if stop.Err? then Err(stop.error)
    else Ok(if stop.value then Complete(next.value) else Continue(next.value))
  }

  /** Comparisons in a kernel have two operands, as its constructors give them. */
  ghost predicate BinaryKernel(kernel: DslKernel) {
    && Binary(kernel.visit) && Binary(kernel.stop)
    && forall k :: 0 <= k < |kernel.nextState| ==> Binary(kernel.nextState[k].1)
  }

  lemma BoundEval(tables: Tables, names: seq<string>, e: Expr<ColumnRef>, f: Expr<BoundColumn>, at: EdgeCtx,
                  slots: seq<Value>, state: Named, builtin: Builtin)
    requires NamesAscend(names) && Represents(names, slots, state) && Binary(e)
    requires TryMapColumn(e, Binder(tables, names)) == Ok(f)
    ensures Eval(f, BoundEnv(tables, at, slots, builtin), None) == Eval(e, NamedEnv(tables, at, state, builtin), None)
  {
    hide Eval, Same, Refines, TryMapColumn, BoundEnv, NamedEnv, NamesAscend, Represents, Binary;
    var link: (ColumnRef, BoundColumn) -> bool := (c, b) => BindColumn(tables, names, c) == Ok(b);
    MapSame(e, Binder(tables, names), f, link);
    BoundRefines(tables, names, at, slots, state, builtin, link);
    Simulation(e, f, NamedEnv(tables, at, state, builtin), BoundEnv(tables, at, slots, builtin), link, None);
  }

  lemma RepresentsMore(names: seq<string>, slots: seq<Value>, state: Named, index: nat, v: Value)
    requires NamesAscend(names) && Represents(names, slots, state) && index < |names|
    ensures Represents(names, slots[index := v], state[names[index] := v])
  {
    forall k | 0 <= k < |names| && k != index
      ensures names[k] != names[index]
    {
      if names[k] == names[index] {
        NameOnce(names, k, index);
      }
    }
  }

  /** `bound` is what binding makes of `kernel`. */
  ghost predicate BindsTo(tables: Tables, kernel: DslKernel, bound: BoundKernel) {
    Bind(tables, kernel) == Ok(bound)
  }

  lemma BoundParts(tables: Tables, kernel: DslKernel, bound: BoundKernel)
    requires BindsTo(tables, kernel, bound)
    ensures NamesAscend(bound.names) && |bound.nextState| == |kernel.nextState| &&
            InSlots(bound.nextState, |bound.names|)
    ensures TryMapColumn(kernel.visit, Binder(tables, bound.names)) == Ok(bound.visit)
    ensures TryMapColumn(kernel.stop, Binder(tables, bound.names)) == Ok(bound.stop)
    ensures forall k :: 0 <= k < |bound.nextState| ==>
              && bound.nextState[k].0 < |bound.names| && bound.names[bound.nextState[k].0] == kernel.nextState[k].0
              && TryMapColumn(kernel.nextState[k].1, Binder(tables, bound.names)) == Ok(bound.nextState[k].1)
  {
    hide TryMapColumn, StateNames;
    TargetsNamed(kernel.initialState, kernel.nextState);
    forall k | 0 <= k < |bound.nextState|
      ensures bound.names[bound.nextState[k].0] == kernel.nextState[k].0
    {
      StateIndexExact(bound.names, kernel.nextState[k].0);
    }
  }

  lemma {:induction false} UpdatesAgree(tables: Tables, kernel: DslKernel, bound: BoundKernel, k: nat, at: EdgeCtx,
                                        slots: seq<Value>, state: Named, builtin: Builtin)
    requires BindsTo(tables, kernel, bound) && BinaryKernel(kernel) && Represents(bound.names, slots, state)
    requires k <= |kernel.nextState| == |bound.nextState| && InSlots(bound.nextState, |slots|)
    ensures var b := BoundUpdated(bound.nextState, k, slots, BoundEnv(tables, at, slots, builtin));
            var n := NamedUpdated(kernel.nextState, k, state, NamedEnv(tables, at, state, builtin));
            && (b.Err? <==> n.Err?) && (b.Err? ==> b.error == n.error)
            && (b.Ok? ==> Represents(bound.names, b.value, n.value))
  {
    hide Eval, TryMapColumn, BoundEnv, NamedEnv, BindsTo, Binary, Represents;
    if k > 0 {
      BoundParts(tables, kernel, bound);
      UpdatesAgree(tables, kernel, bound, k - 1, at, slots, state, builtin);
      BoundEval(tables, bound.names, kernel.nextState[k - 1].1, bound.nextState[k - 1].1, at, slots, state, builtin);
      var b := BoundUpdated(bound.nextState, k - 1, slots, BoundEnv(tables, at, slots, builtin));
      var n := NamedUpdated(kernel.nextState, k - 1, state, NamedEnv(tables, at, state, builtin));
      var v := Eval(kernel.nextState[k - 1].1, NamedEnv(tables, at, state, builtin), None);
      if b.Ok? && v.Ok? {
        RepresentsMore(bound.names, b.value, n.value, bound.nextState[k - 1].0, v.value);
      }
    }
  }

  /** Steps of the same kind, with slots that represent the named state. */
  ghost predicate Matches(names: seq<string>, b: Step<seq<Value>>, n: Step<Named>) {
    match (b, n)
    case (Reject, Reject) => true
    case (Continue(slots), Continue(state)) => Represents(names, slots, state)
    case (Complete(slots), Complete(state)) => Represents(names, slots, state)
    case _ => false
  }

  /** Binding preserves a transition: its decision, its error and its state. */
  lemma TransitionPreserved(tables: Tables, kernel: DslKernel, bound: BoundKernel, at: EdgeCtx,
                            slots: seq<Value>, state: Named, builtin: Builtin)
    requires BindsTo(tables, kernel, bound) && BinaryKernel(kernel) && Represents(bound.names, slots, state)
    ensures InSlots(bound.nextState, |slots|)
    ensures var b := BoundTransition(bound, tables, at, slots, builtin);
            var n := NamedTransition(kernel, tables, at, state, builtin);
            && (b.Err? <==> n.Err?) && (b.Err? ==> b.error == n.error)
            && (b.Ok? ==> Matches(bound.names, b.value, n.value))
  {
    hide Eval, TryMapColumn, BoundEnv, NamedEnv, BindsTo, Binary, BoundUpdated, NamedUpdated;
    BoundParts(tables, kernel, bound);
    BoundEval(tables, bound.names, kernel.visit, bound.visit, at, slots, state, builtin);
    UpdatesAgree(tables, kernel, bound, |kernel.nextState|, at, slots, state, builtin);
    var b := BoundUpdated(bound.nextState, |bound.nextState|, slots, BoundEnv(tables, at, slots, builtin));
    var n := NamedUpdated(kernel.nextState, |kernel.nextState|, state, NamedEnv(tables, at, state, builtin));
    if b.Ok? {
      BoundEval(tables, bound.names, kernel.stop, bound.stop, at, b.value, n.value, builtin);
    }
  }

  // ---------------------------------------------------------------------------
  // Runs.

  /** The steps along a path, up to the first that does not continue, or the error that ended it. */
  datatype History<+S> = History(steps: seq<Step<S>>, error: Option<EvalError>)

  ghost function BoundRun(kernel: BoundKernel, tables: Tables, edges: seq<EdgeCtx>, slots: seq<Value>,
                          builtin: Builtin):
    History<seq<Value>>
    requires InSlots(kernel.nextState, |slots|)
    decreases |edges|
  {
    if edges == [] then History([], None) else
    var t := BoundTransition(kernel, tables, edges[0], slots, builtin);
    if t.Err? then History([], Some(t.error))
    else if !t.value.Continue? then History([t.value], None)
    else
      var rest := BoundRun(kernel, tables, edges[1..], t.value.state, builtin);
      History([t.value] + rest.steps, rest.error)
  }

  ghost function NamedRun(kernel: DslKernel, tables: Tables, edges: seq<EdgeCtx>, state: Named,
                          builtin: Builtin): History<Named>
    decreases |edges|
  {
    if edges == [] then History([], None) else
    var t := NamedTransition(kernel, tables, edges[0], state, builtin);
    if t.Err? then History([], Some(t.error))
    else if !t.value.Continue? then History([t.value], None)
    else
      var rest := NamedRun(kernel, tables, edges[1..], t.value.state, builtin);
      History([t.value] + rest.steps, rest.error)
  }

  /** Binding preserves every run: the same decisions, the same error, the same states. */
  lemma {:induction false} RunPreserved(tables: Tables, kernel: DslKernel, bound: BoundKernel, edges: seq<EdgeCtx>,
                                        slots: seq<Value>, state: Named, builtin: Builtin)
    requires BindsTo(tables, kernel, bound) && BinaryKernel(kernel) && Represents(bound.names, slots, state)
    ensures InSlots(bound.nextState, |slots|)
    ensures var b := BoundRun(bound, tables, edges, slots, builtin);
            var n := NamedRun(kernel, tables, edges, state, builtin);
            && b.error == n.error && |b.steps| == |n.steps|
            && forall k :: 0 <= k < |b.steps| ==> Matches(bound.names, b.steps[k], n.steps[k])
    decreases |edges|
  {
    hide BoundTransition, NamedTransition, BindsTo, BinaryKernel;
    BoundParts(tables, kernel, bound);
    if edges != [] {
      TransitionPreserved(tables, kernel, bound, edges[0], slots, state, builtin);
      var b := BoundTransition(bound, tables, edges[0], slots, builtin);
      var n := NamedTransition(kernel, tables, edges[0], state, builtin);
      if b.Ok? && b.value.Continue? {
        RunPreserved(tables, kernel, bound, edges[1..], b.value.state, n.value.state, builtin);
      }
    }
  }

  /**
   * Whatever binds means what it meant before: from the initial row on, along every run. The
   * row may be given in any order and repeat names; `slots` is the bound kernel's initial state
   * or whatever else a binary search may find where a name is repeated.
   */
  lemma BindPreserves(tables: Tables, kernel: DslKernel, given: seq<Field>, bound: BoundKernel, slots: seq<Value>,
                      edges: seq<EdgeCtx>, builtin: Builtin)
    requires BindsTo(tables, kernel, bound) && BinaryKernel(kernel)
    requires kernel == NewKernel(kernel.visit, kernel.nextState, kernel.stop, given)
    requires slots == bound.initialState || Normalized(kernel.initialState, bound.names, slots)
    ensures InSlots(bound.nextState, |slots|)
    ensures forall name :: name in FieldNames(kernel.initialState) ==> StateIndex(bound.names, name).Some?
    ensures |slots| == |bound.names|
    ensures var start := NamedSlots(kernel.initialState, bound.names, slots);
            var b := BoundRun(bound, tables, edges, slots, builtin);
            var n := NamedRun(kernel, tables, edges, start, builtin);
            && Takes(given, start)
            && b.error == n.error && |b.steps| == |n.steps|
            && forall k :: 0 <= k < |b.steps| ==> Matches(bound.names, b.steps[k], n.steps[k])
  {
    hide BoundRun, NamedRun, Matches, Normalized, NormalizeState, Takes, StateNames, TryMapColumn, Represents;
    InitialSorted(given);
    NormalizeExact(kernel.initialState, bound.names);
    BoundStart(tables, kernel, bound);
    InitialRepresents(given, kernel.initialState, kernel.nextState, slots);
    RunPreserved(tables, kernel, bound, edges, slots, NamedSlots(kernel.initialState, bound.names, slots), builtin);
  }

  lemma BoundStart(tables: Tables, kernel: DslKernel, bound: BoundKernel)
    requires BindsTo(tables, kernel, bound)
    ensures bound.names == StateNames(kernel.initialState, kernel.nextState)
    ensures bound.initialState == NormalizeState(kernel.initialState, bound.names)
  {
    hide TryMapColumn, StateNames, NormalizeState;
  }

  /** The reported row: the slots under their names. */
  function StateRow(names: seq<string>, slots: seq<Value>): (row: seq<Field>)
    requires |slots| == |names|
    ensures |row| == |names|
  {
    seq(|names|, k requires 0 <= k < |names| => Field(names[k], slots[k]))
  }

  /** The reported row lists every name once, in order, with what it reads. */
  lemma StateRowReads(names: seq<string>, slots: seq<Value>, state: Named)
    requires NamesAscend(names) && Represents(names, slots, state)
    ensures NamesAscend(FieldNames(StateRow(names, slots)))
    ensures forall k :: 0 <= k < |names| ==> StateRow(names, slots)[k] == Field(names[k], Read(state, names[k]))
    ensures forall name :: name in state ==> FindField(StateRow(names, slots), name) == Some(state[name])
  {
    var row := StateRow(names, slots);
    assert FieldNames(row) == names;
    forall name | name in state
      ensures FindField(row, name) == Some(state[name])
    {
      var k :| 0 <= k < |names| && names[k] == name;
      assert row[k].name == name;
      var found := FindField(row, name);
      var j :| 0 <= j < |row| && row[j] == Field(name, found.value);
      NameOnce(names, j, k);
    }
  }
}

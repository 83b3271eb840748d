/**
 * Scalar operations, and the shortcut that compares a column cell with a literal
 * without boxing the cell. The shortcut is proved to compute the boxed comparison.
 */
module Columns {
  import opened Wrappers
  import opened Values

  datatype ScalarOp =
    | And | Or | Eq | NotEq | Lt | LtEq | Gt | GtEq | Not | IsNull | IsNotNull
    | Other(code: nat)

  predicate IsComparison(op: ScalarOp) {
    op in {Eq, NotEq, Lt, LtEq, Gt, GtEq}
  }

  /** Operations on values whose meaning is of no interest here. */
  type Builtin = (nat, seq<Value>) -> Evaluated

  predicate Holds(op: ScalarOp, o: Ordering) {
    match op
    case Lt => o.Less?
    case LtEq => !o.Greater?
    case Gt => o.Greater?
    case GtEq => !o.Less?
    case _ => false
  }

  function CompareOp(op: ScalarOp, l: Value, r: Value): Evaluated {
    if l.Null? || r.Null? then Ok(Null)
    else
      var o := Compare(l, r);
      if o.Err? then Err(o.error) else Ok(Bool(Holds(op, o.value)))
  }

  function BoolOf(r: Result<bool, EvalError>): Evaluated {
    match r
    case Ok(b) => Ok(Bool(b))
    case Err(e) => Err(e)
  }

  function Arity(op: ScalarOp): nat {
    match op
    case And | Or | Eq | NotEq | Lt | LtEq | Gt | GtEq => 2
    case Not | IsNull | IsNotNull => 1
    case Other(_) => 0
  }

  /** A scalar operation on values that have all been evaluated. */
  function EvalScalar(op: ScalarOp, args: seq<Value>, builtin: Builtin): Evaluated {
    if |args| < Arity(op) then
      // The first two operands of `And` and `Or` are looked up one by one.
      if op in {And, Or} && |args| == 1 then
        var left := Truthy(args[0]);
        if left.Err? then Err(left.error)
        else if left.value == op.Or? then Ok(Bool(op.Or?))
        else Err(MissingArgument(1))
      else Err(MissingArgument(|args|))
    else match op
      case And =>
        var left := Truthy(args[0]);
        if left.Err? then Err(left.error) else if !left.value then Ok(Bool(false)) else BoolOf(Truthy(args[1]))
      case Or =>
        var left := Truthy(args[0]);
        if left.Err? then Err(left.error) else if left.value then Ok(Bool(true)) else BoolOf(Truthy(args[1]))
      case Eq => Ok(Bool(EqValue(args[0], args[1])))
      case NotEq => Ok(Bool(!EqValue(args[0], args[1])))
      case Lt | LtEq | Gt | GtEq => CompareOp(op, args[0], args[1])
      case Not =>
        var b := Truthy(args[0]);
        if b.Err? then Err(b.error) else Ok(Bool(!b.value))
      case IsNull => Ok(Bool(args[0].Null?))
      case IsNotNull => Ok(Bool(!args[0].Null?))
      case Other(code) => builtin(code, args)
  }

  // ---------------------------------------------------------------------------
  // What the operations mean.

  /** Two values against each other. */
  function Compares(op: ScalarOp, l: Value, r: Value, builtin: Builtin): Evaluated {
    EvalScalar(op, [l, r], builtin)
  }

  /**
   * A comparison is null if an operand is, and an error if the two are not both booleans, both
   * strings or both numbers; otherwise it tells the order. Equality is never null and never fails.
   */
  lemma ComparisonMeaning(l: Value, r: Value, builtin: Builtin)
    ensures forall op :: op in {Lt, LtEq, Gt, GtEq} && (l.Null? || r.Null?) ==>
              Compares(op, l, r, builtin) == Ok(Null)
    ensures forall op :: op in {Lt, LtEq, Gt, GtEq} && !l.Null? && !r.Null? && !Comparable(l, r) ==>
              Compares(op, l, r, builtin) == Err(Incomparable)
    ensures Comparable(l, r) ==>
              && Compares(Lt, l, r, builtin) == Ok(Bool(ValueBefore(l, r)))
              && Compares(Gt, l, r, builtin) == Ok(Bool(ValueBefore(r, l)))
              && Compares(LtEq, l, r, builtin) == Ok(Bool(ValueBefore(l, r) || EqValue(l, r)))
              && Compares(GtEq, l, r, builtin) == Ok(Bool(ValueBefore(r, l) || EqValue(l, r)))
    ensures Compares(Eq, l, r, builtin) == Ok(Bool(EqValue(l, r)))
    ensures Compares(NotEq, l, r, builtin) == Ok(Bool(!EqValue(l, r)))
  {
    hide EqValue, Compare, ValueBefore, FloatOf, StrBefore;
    CompareMeaning(l, r);
    CompareEqual(l, r);
  }

  /** Operands that are not there are missed, unless the one operand of a connective already decides it. */
  lemma OperandsMissing(op: ScalarOp, args: seq<Value>, builtin: Builtin)
    ensures args == [] && !op.Other? ==> EvalScalar(op, args, builtin) == Err(MissingArgument(0))
    ensures |args| == 1 && IsComparison(op) ==> EvalScalar(op, args, builtin) == Err(MissingArgument(1))
    ensures |args| == 1 && op.And? ==>
              EvalScalar(op, args, builtin) ==
              if args[0] == Bool(true) then Err(MissingArgument(1))
              else if args[0].Bool? || args[0].Null? then Ok(Bool(false)) else Err(ExpectedBoolean)
    ensures |args| == 1 && op.Or? ==>
              EvalScalar(op, args, builtin) ==
              if args[0] == Bool(true) then Ok(Bool(true))
              else if args[0].Bool? || args[0].Null? then Err(MissingArgument(1)) else Err(ExpectedBoolean)
  {
  }

  /** Exact numbers compare by size, whatever their types. */
  lemma NumbersMeaning(l: Value, r: Value, x: real, y: real, builtin: Builtin)
    requires IsNumber(l, x) && IsNumber(r, y)
    ensures Compares(Lt, l, r, builtin) == Ok(Bool(x < y)) && Compares(LtEq, l, r, builtin) == Ok(Bool(x <= y))
    ensures Compares(Gt, l, r, builtin) == Ok(Bool(x > y)) && Compares(GtEq, l, r, builtin) == Ok(Bool(x >= y))
    ensures Compares(Eq, l, r, builtin) == Ok(Bool(x == y)) && Compares(NotEq, l, r, builtin) == Ok(Bool(x != y))
  {
    hide Compares, EqValue, Comparable, ValueBefore;
    NumbersCompare(l, r, x, y);
    NumbersCompare(r, l, y, x);
    ComparisonMeaning(l, r, builtin);
  }

  // ---------------------------------------------------------------------------
  // Columns.

  /** A column: optional cells of one type, or boxed values that may fail to convert. */
  datatype ColumnReader =
    | Bools(bools: seq<Option<bool>>)
    | Ints(ints: seq<Option<int>>)
    | Uints(uints: seq<Option<nat>>)
    | Floats(floats: seq<Option<F64>>)
    | Strings(strings: seq<Option<string>>)
    | Nested(cells: seq<Evaluated>)

  function Rows(reader: ColumnReader): nat {
    match reader
    case Bools(s) => |s|
    case Ints(s) => |s|
    case Uints(s) => |s|
    case Floats(s) => |s|
    case Strings(s) => |s|
    case Nested(s) => |s|
  }

  /** The boxed value of a cell. */
  function CellValue(reader: ColumnReader, row: nat): Evaluated
    requires row < Rows(reader)
  {
    match reader
    case Bools(s) => Ok(if s[row].None? then Null else Bool(s[row].value))
    case Ints(s) => Ok(if s[row].None? then Null else I64(s[row].value))
    case Uints(s) => Ok(if s[row].None? then Null else U64(s[row].value))
    case Floats(s) => Ok(if s[row].None? then Null else Float(s[row].value))
    case Strings(s) => Ok(if s[row].None? then Null else Str(s[row].value))
    case Nested(s) => s[row]
  }

  /** An unboxed cell. */
  datatype Cell = NullCell | BoolCell(b: bool) | NumberCell(f: F64) | StrCell(s: string)

  function ScalarCell(reader: ColumnReader, row: nat): Option<Cell>
    requires row < Rows(reader)
  {
    match reader
    case Bools(s) => Some(if s[row].None? then NullCell else BoolCell(s[row].value))
    case Ints(s) => Some(if s[row].None? then NullCell else NumberCell(FloatOf(s[row].value)))
    case Uints(s) => Some(if s[row].None? then NullCell else NumberCell(FloatOf(s[row].value)))
    case Floats(s) => Some(if s[row].None? then NullCell else NumberCell(s[row].value))
    case Strings(s) => Some(if s[row].None? then NullCell else StrCell(s[row].value))
    case Nested(_) => None
  }

  // ---------------------------------------------------------------------------
  // The shortcut.

  function EvalNullLiteral(op: ScalarOp, literal: Value): Value
    requires IsComparison(op)
  {
    if op.Eq? then Bool(literal.Null?) else if op.NotEq? then Bool(!literal.Null?) else Null
  }

  function EvalNonNullNullLiteral(op: ScalarOp): Value
    requires IsComparison(op)
  {
    if op.Eq? then Bool(false) else if op.NotEq? then Bool(true) else Null
  }

  function EvalIncomparableLiteral(op: ScalarOp): Evaluated
    requires IsComparison(op)
  {
    if op.Eq? then Ok(Bool(false)) else if op.NotEq? then Ok(Bool(true)) else Err(Incomparable)
  }

  predicate ApplyOrdering(op: ScalarOp, o: Ordering, reverse: bool) {
    Holds(op, if reverse then Reverse(o) else o)
  }

  function EvalOrderingOrEq(op: ScalarOp, equal: bool, o: Ordering, reverse: bool): Value
    requires IsComparison(op)
  {
    if op.Eq? then Bool(equal) else if op.NotEq? then Bool(!equal) else Bool(ApplyOrdering(op, o, reverse))
  }

  function EvalBoolLiteral(value: bool, op: ScalarOp, literal: Value, reverse: bool): Evaluated
    requires IsComparison(op)
  {
    if literal.Null? then Ok(EvalNonNullNullLiteral(op))
    else if !literal.Bool? then EvalIncomparableLiteral(op)
    else Ok(EvalOrderingOrEq(op, value == literal.b, CompareBool(value, literal.b), reverse))
  }

  function EvalNumberLiteral(value: F64, op: ScalarOp, literal: Value, reverse: bool): Evaluated
    requires IsComparison(op)
  {
    if literal.Null? then Ok(EvalNonNullNullLiteral(op))
    else if AsF64(literal).None? then EvalIncomparableLiteral(op)
    else
      var rhs := AsF64(literal).value;
      if op.Eq? then Ok(Bool(FloatEq(value, rhs)))
      else if op.NotEq? then Ok(Bool(!FloatEq(value, rhs)))
      else
        var o := PartialCmp(value, rhs);
        if o.None? then Err(Incomparable) else Ok(Bool(ApplyOrdering(op, o.value, reverse)))
  }

  function EvalStrLiteral(value: string, op: ScalarOp, literal: Value, reverse: bool): Evaluated
    requires IsComparison(op)
  {
    if literal.Null? then Ok(EvalNonNullNullLiteral(op))
    else if !literal.Str? then EvalIncomparableLiteral(op)
    else Ok(EvalOrderingOrEq(op, value == literal.s, CompareStr(value, literal.s), reverse))
  }

  /** Compare a cell with a literal; `None` when the column has no unboxed cells. */
  function EvalScalarLiteral(reader: ColumnReader, row: nat, op: ScalarOp, literal: Value,
                             reverse: bool): Option<Evaluated>
    requires row < Rows(reader) && IsComparison(op)
  {
    match ScalarCell(reader, row)
    case None => None
    case Some(NullCell) => Some(Ok(EvalNullLiteral(op, literal)))
    case Some(BoolCell(b)) => Some(EvalBoolLiteral(b, op, literal, reverse))
    case Some(NumberCell(f)) => Some(EvalNumberLiteral(f, op, literal, reverse))
    case Some(StrCell(s)) => Some(EvalStrLiteral(s, op, literal, reverse))
  }

  /** The operands in source order: the column first, unless reversed. */
  function Operands(cell: Value, literal: Value, reverse: bool): seq<Value> {
    if reverse then [literal, cell] else [cell, literal]
  }

  /** A comparison of two values, in source order. */
  ghost function Boxed(op: ScalarOp, cell: Value, literal: Value, reverse: bool): Evaluated
    requires IsComparison(op)
  {
    var l, r := if reverse then literal else cell, if reverse then cell else literal;
    if op.Eq? then Ok(Bool(EqValue(l, r))) else if op.NotEq? then Ok(Bool(!EqValue(l, r))) else CompareOp(op, l, r)
  }

  /** Equality of a scalar with any value does not depend on the order. */
  lemma EqSymmetric(l: Value, r: Value)
    requires !l.List? && !l.Struct?
    ensures EqValue(l, r) == EqValue(r, l)
  {
    hide FloatOf;
  }

  lemma BoxedEval(op: ScalarOp, cell: Value, literal: Value, reverse: bool, builtin: Builtin)
    requires IsComparison(op)
    ensures EvalScalar(op, Operands(cell, literal, reverse), builtin) == Boxed(op, cell, literal, reverse)
  {
    hide EqValue, CompareOp;
  }

  lemma BoxedForward(op: ScalarOp, cell: Value, literal: Value, reverse: bool)
    requires IsComparison(op) && !cell.Null? && !cell.List? && !cell.Struct?
    ensures Boxed(op, cell, literal, reverse) ==
            if op.Eq? then Ok(Bool(EqValue(cell, literal)))
            else if op.NotEq? then Ok(Bool(!EqValue(cell, literal)))
            else if literal.Null? then Ok(Null)
            else if Compare(cell, literal).Err? then Err(Compare(cell, literal).error)
            else Ok(Bool(ApplyOrdering(op, Compare(cell, literal).value, reverse)))
  {
    hide EqValue, Compare;
    EqSymmetric(cell, literal);
    CompareReverse(cell, literal);
  }

  lemma NumberRefines(f: F64, cell: Value, op: ScalarOp, literal: Value, reverse: bool)
    requires IsComparison(op) && AsF64(cell) == Some(f)
    ensures EvalNumberLiteral(f, op, literal, reverse) == Boxed(op, cell, literal, reverse)
  {
    hide Boxed, FloatOf, FloatEq, PartialCmp, ApplyOrdering;
    BoxedForward(op, cell, literal, reverse);
  }

  lemma BoolRefines(b: bool, op: ScalarOp, literal: Value, reverse: bool)
    requires IsComparison(op)
    ensures EvalBoolLiteral(b, op, literal, reverse) == Boxed(op, Bool(b), literal, reverse)
  {
    hide Boxed, FloatOf, ApplyOrdering, CompareBool;
    BoxedForward(op, Bool(b), literal, reverse);
  }

  lemma StrRefines(s: string, op: ScalarOp, literal: Value, reverse: bool)
    requires IsComparison(op)
    ensures EvalStrLiteral(s, op, literal, reverse) == Boxed(op, Str(s), literal, reverse)
  {
    hide Boxed, FloatOf, ApplyOrdering, CompareStr;
    BoxedForward(op, Str(s), literal, reverse);
  }

  lemma NullRefines(op: ScalarOp, literal: Value, reverse: bool)
    requires IsComparison(op)
    ensures Ok(EvalNullLiteral(op, literal)) == Boxed(op, Null, literal, reverse)
  {
  }

  /**
   * The shortcut computes the boxed comparison, errors included: for every cell type,
   * null, NaN and signed zero, and in either operand order.
   */
  lemma LiteralRefines(reader: ColumnReader, row: nat, op: ScalarOp, literal: Value, reverse: bool, builtin: Builtin)
    requires row < Rows(reader) && IsComparison(op)
    ensures var fast := EvalScalarLiteral(reader, row, op, literal, reverse);
            && (fast.None? <==> reader.Nested?)
            && (fast.Some? ==>
                  CellValue(reader, row).Ok? &&
                  fast.value == EvalScalar(op, Operands(CellValue(reader, row).value, literal, reverse), builtin))
  {
    hide Boxed, FloatOf, EvalNumberLiteral, EvalBoolLiteral, EvalStrLiteral, EvalNullLiteral, EvalScalar, Operands;
    if !reader.Nested? {
      var cell := CellValue(reader, row).value;
      BoxedEval(op, cell, literal, reverse, builtin);
      match ScalarCell(reader, row).value {
        case NullCell => NullRefines(op, literal, reverse);
        case BoolCell(b) => BoolRefines(b, op, literal, reverse);
        case NumberCell(f) => NumberRefines(f, cell, op, literal, reverse);
        case StrCell(s) => StrRefines(s, op, literal, reverse);
      }
    }
  }
}

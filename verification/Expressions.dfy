/**
 * Expressions over columns of any kind: their evaluation with and without the
 * column/literal shortcut, and the replacement of their columns.
 */
module Expressions {
  import opened Wrappers
  import opened Sequences
  import opened Values
  import opened Columns

  datatype ListOp = EvalEach | FilterEach | OtherList(code: nat)

  datatype StructOp = WithFields(names: seq<string>) | OtherStruct(code: nat)

  datatype Expr<C> =
    | Column(column: C)
    | Element
    | Literal(value: Value)
    | Alias(expr: Expr<C>, name: string)
    | Ternary(predicate_: Expr<C>, truthy: Expr<C>, falsy: Expr<C>)
    | Scalar(op: ScalarOp, args: seq<Expr<C>>)
    | StringOp(code: nat, args: seq<Expr<C>>)
    | ListExpr(listOp: ListOp, args: seq<Expr<C>>)
    | StructExpr(structOp: StructOp, args: seq<Expr<C>>)

  /** How a column compares with a literal without being boxed, if it can. */
  type Shortcut<!C> = (C, ScalarOp, Value, bool) -> Option<Evaluated>

  /** What an expression is evaluated against; without a shortcut every comparison is boxed. */
  datatype Env<!C> = Env(read: C -> Evaluated, shortcut: Option<Shortcut<C>>, builtin: Builtin)

  function ColumnOf<C>(e: Expr<C>): Option<C> {
    match e
    case Column(c) => Some(c)
    case Alias(inner, _) => ColumnOf(inner)
    case _ => None
  }

  function LiteralOf<C>(e: Expr<C>): Option<Value> {
    match e
    case Literal(v) => Some(v)
    case Alias(inner, _) => LiteralOf(inner)
    case _ => None
  }

  /** The shortcut applies to a column and a literal, in either order. */
  function TryShortcut<C>(op: ScalarOp, l: Expr<C>, r: Expr<C>, shortcut: Shortcut<C>): Option<Evaluated> {
    if ColumnOf(l).Some? && LiteralOf(r).Some? then shortcut(ColumnOf(l).value, op, LiteralOf(r).value, false)
    else if LiteralOf(l).Some? && ColumnOf(r).Some? then shortcut(ColumnOf(r).value, op, LiteralOf(l).value, true)
    else None
  }

  function SetField(fields: seq<Field>, name: string, value: Value): seq<Field> {
    if fields == [] then [Field(name, value)]
    else if fields[0].name == name then [Field(name, value)] + fields[1..]
    else [fields[0]] + SetField(fields[1..], name, value)
  }

  function Truth(r: Evaluated): Result<bool, EvalError> {
    match r
    case Ok(v) => Truthy(v)
    case Err(e) => Err(e)
  }

  function Eval<C>(e: Expr<C>, env: Env<C>, element: Option<Value>): Evaluated
    decreases e, 0
  {
    match e
    case Column(c) => env.read(c)
    case Element => if element.Some? then Ok(element.value) else Err(NoElement)
    case Literal(v) => Ok(v)
    case Alias(inner, _) => Eval(inner, env, element)
    case Ternary(p, t, f) =>
      var b := Truth(Eval(p, env, element));
      if b.Err? then Err(b.error) else if b.value then Eval(t, env, element) else Eval(f, env, element)
    case Scalar(op, args) =>
      if op in {And, Or} then
        if |args| < 2 then Err(MissingArgument(|args|)) else
        var left := Truth(Eval(args[0], env, element));
        if left.Err? then Err(left.error)
        else if left.value == op.Or? then Ok(Bool(op.Or?))
        else BoolOf(Truth(Eval(args[1], env, element)))
      else if env.shortcut.Some? && IsComparison(op) && |args| < 2 then Err(MissingArgument(|args|))
      else if env.shortcut.Some? && IsComparison(op) && TryShortcut(op, args[0], args[1], env.shortcut.value).Some? then
        TryShortcut(op, args[0], args[1], env.shortcut.value).value
      else
        var values := EvalArgs(e, args, 0, env, element);
        if values.Err? then Err(values.error) else EvalScalar(op, values.value, env.builtin)
    case StringOp(code, args) =>
      var values := EvalArgs(e, args, 0, env, element);
      if values.Err? then Err(values.error) else env.builtin(code, values.value)
    case ListExpr(op, args) =>
      if op.OtherList? then
        var values := EvalArgs(e, args, 0, env, element);
        if values.Err? then Err(values.error) else env.builtin(op.code, values.value)
      else if |args| != 2 then Err(WrongInputs(|args|))
      else
        var list := Eval(args[0], env, element);
        if list.Err? then Err(list.error)
        else if list.value.Null? then Ok(Null)
        else if !list.value.List? then Err(ExpectedList)
        else EvalItems(args[1], op, list.value.values, env)
    case StructExpr(op, args) =>
      if op.OtherStruct? then
        var values := EvalArgs(e, args, 0, env, element);
        if values.Err? then Err(values.error) else env.builtin(op.code, values.value)
      else if args == [] then Err(MissingArgument(0))
      else
        var base := Eval(args[0], env, element);
        if base.Err? then Err(base.error)
        else if base.value.Null? then Ok(Null)
        else if !base.value.Struct? then Err(ExpectedStruct)
        else EvalFields(e, args, op.names, 0, base.value.fields, env, element)
  }

  /** The arguments from `k` on, stopping at the first failure. */
  function EvalArgs<C>(e: Expr<C>, args: seq<Expr<C>>, k: nat, env: Env<C>,
                       element: Option<Value>): (r: Result<seq<Value>, EvalError>)
    requires k <= |args| && forall i :: 0 <= i < |args| ==> args[i] < e
    ensures r.Ok? ==> |r.value| == |args| - k
    decreases e, 0, |args| - k
  {
    if k == |args| then Ok([]) else
    var v := Eval(args[k], env, element);
    if v.Err? then Err(v.error) else
    var rest := EvalArgs(e, args, k + 1, env, element);
    if rest.Err? then rest else Ok([v.value] + rest.value)
  }

  /** Evaluate or filter by an expression over every item of a list. */
  function EvalItems<C>(e: Expr<C>, op: ListOp, items: seq<Value>, env: Env<C>): Evaluated
    decreases e, 1, |items|
  {
    if items == [] then Ok(List([])) else
    var v := Eval(e, env, Some(items[0]));
    if v.Err? then Err(v.error) else
    if op.FilterEach? && Truthy(v.value).Err? then Err(Truthy(v.value).error) else
    var rest := EvalItems(e, op, items[1..], env);
    if rest.Err? then rest
    else if !rest.value.List? then rest
    else if !op.FilterEach? then Ok(List([v.value] + rest.value.values))
    else if Truthy(v.value).value then Ok(List([items[0]] + rest.value.values))
    else rest
  }

  /** Set or append the named fields from `k` on. */
  function EvalFields<C>(e: Expr<C>, args: seq<Expr<C>>, names: seq<string>, k: nat, fields: seq<Field>,
                         env: Env<C>, element: Option<Value>): Evaluated
    requires k <= |names| && forall i :: 0 <= i < |args| ==> args[i] < e
    decreases e, 0, |names| - k
  {
    if k == |names| then Ok(Struct(fields))
    else if k + 1 >= |args| then Err(MissingArgument(k + 1))
    else
      var v := Eval(args[k + 1], env, element);
      if v.Err? then Err(v.error) else EvalFields(e, args, names, k + 1, SetField(fields, names[k], v.value), env,
                                                  element)
  }

  // ---------------------------------------------------------------------------
  // Equal up to columns.

  /** The same expression with linked columns. */
  ghost predicate Same<C(!new), D(!new)>(e: Expr<C>, f: Expr<D>, link: (C, D) -> bool)
    decreases e, 0
  {
    match (e, f)
    case (Column(c), Column(d)) => link(c, d)
    case (Element, Element) => true
    case (Literal(v), Literal(w)) => v == w
    case (Alias(a, n), Alias(b, m)) => n == m && Same(a, b, link)
    case (Ternary(p, t, u), Ternary(q, v, w)) => Same(p, q, link) && Same(t, v, link) && Same(u, w, link)
    case (Scalar(op, args), Scalar(oq, brgs)) => op == oq && AllSame(e, args, brgs, link)
    case (StringOp(code, args), StringOp(dode, brgs)) => code == dode && AllSame(e, args, brgs, link)
    case (ListExpr(op, args), ListExpr(oq, brgs)) => op == oq && AllSame(e, args, brgs, link)
    case (StructExpr(op, args), StructExpr(oq, brgs)) => op == oq && AllSame(e, args, brgs, link)
    case _ => false
  }

  ghost predicate AllSame<C(!new), D(!new)>(e: Expr<C>, args: seq<Expr<C>>, brgs: seq<Expr<D>>, link: (C, D) -> bool)
    requires forall k :: 0 <= k < |args| ==> args[k] < e
    decreases e, 0, 0
  {
    |args| == |brgs| && forall k :: 0 <= k < |args| ==> Same(args[k], brgs[k], link)
  }

  /** Every comparison has two operands. */
  ghost predicate Binary<C(!new)>(e: Expr<C>)
    decreases e, 0
  {
    match e
    case Column(_) => true
    case Element => true
    case Literal(_) => true
    case Alias(a, _) => Binary(a)
    case Ternary(p, t, u) => Binary(p) && Binary(t) && Binary(u)
    case Scalar(op, args) => (IsComparison(op) ==> |args| == 2) && forall k :: 0 <= k < |args| ==> Binary(args[k])
    case StringOp(_, args) => forall k :: 0 <= k < |args| ==> Binary(args[k])
    case ListExpr(_, args) => forall k :: 0 <= k < |args| ==> Binary(args[k])
    case StructExpr(_, args) => forall k :: 0 <= k < |args| ==> Binary(args[k])
  }

  /** The shortcut gives what boxing the column gives. */
  ghost predicate SoundShortcut<D(!new)>(env: Env<D>) {
    env.shortcut.Some? ==>
      forall d, op, literal, reverse :: IsComparison(op) && env.shortcut.value(d, op, literal, reverse).Some? ==>
        env.read(d).Ok? &&
        env.shortcut.value(d, op, literal, reverse).value ==
          EvalScalar(op, Operands(env.read(d).value, literal, reverse), env.builtin)
  }

  /** `fast` reads linked columns alike, and takes only sound shortcuts. */
  ghost predicate Refines<C(!new), D(!new)>(boxed: Env<C>, fast: Env<D>, link: (C, D) -> bool) {
    && boxed.shortcut.None? && boxed.builtin == fast.builtin && SoundShortcut(fast)
    && forall c, d :: link(c, d) ==> fast.read(d) == boxed.read(c)
  }

  lemma {:induction false} SameLeaves<C(!new), D(!new)>(e: Expr<C>, f: Expr<D>, link: (C, D) -> bool)
    requires Same(e, f, link)
    ensures LiteralOf(e) == LiteralOf(f)
    ensures ColumnOf(e).Some? <==> ColumnOf(f).Some?
    ensures ColumnOf(e).Some? ==> link(ColumnOf(e).value, ColumnOf(f).value)
    decreases e
  {
    if e.Alias? {
      SameLeaves(e.expr, f.expr, link);
    }
  }

  /** Literals, columns and the list item, also under other names, are what they read. */
  lemma {:induction false} LeafValues<C(!new)>(e: Expr<C>, env: Env<C>, element: Option<Value>)
    ensures LiteralOf(e).Some? ==> Eval(e, env, element) == Ok(LiteralOf(e).value)
    ensures ColumnOf(e).Some? ==> Eval(e, env, element) == env.read(ColumnOf(e).value)
    ensures e.Element? ==> Eval(e, env, element) == if element.Some? then Ok(element.value) else Err(NoElement)
    decreases e
  {
    if e.Alias? {
      LeafValues(e.expr, env, element);
    }
  }

  lemma EvalTwo<C(!new)>(e: Expr<C>, args: seq<Expr<C>>, env: Env<C>, element: Option<Value>)
    requires |args| == 2 && forall i :: 0 <= i < |args| ==> args[i] < e
    ensures var l, r := Eval(args[0], env, element), Eval(args[1], env, element);
            EvalArgs(e, args, 0, env, element) ==
            if l.Err? then Err(l.error) else if r.Err? then Err(r.error) else Ok([l.value, r.value])
  {
    hide Eval;
    assert EvalArgs(e, args, 2, env, element) == Ok([]);
    var l, r := Eval(args[0], env, element), Eval(args[1], env, element);
    if l.Ok? && r.Ok? {
      assert [r.value] + [] == [r.value];
      assert [l.value] + [r.value] == [l.value, r.value];
    }
  }

  /** A shortcut taken gives what evaluating both operands and comparing gives. */
  lemma ShortcutAgrees<C(!new), D(!new)>(e: Expr<C>, f: Expr<D>, boxed: Env<C>, fast: Env<D>, link: (C, D) -> bool,
                                         element: Option<Value>)
    requires e.Scalar? && f.Scalar? && Same(e, f, link) && Refines(boxed, fast, link)
    requires IsComparison(e.op) && |e.args| == 2 && fast.shortcut.Some?
    requires |f.args| == 2 && TryShortcut(f.op, f.args[0], f.args[1], fast.shortcut.value).Some?
    ensures Eval(e, boxed, element) == TryShortcut(f.op, f.args[0], f.args[1], fast.shortcut.value).value
  {
    hide EvalScalar;
    var l, r := e.args[0], e.args[1];
    assert AllSame(e, e.args, f.args, link);
    SameLeaves(l, f.args[0], link);
    SameLeaves(r, f.args[1], link);
    LeafValues(l, boxed, element);
    LeafValues(r, boxed, element);
    EvalTwo(e, e.args, boxed, element);
  }

  lemma RefinesReads<C(!new), D(!new)>(boxed: Env<C>, fast: Env<D>, link: (C, D) -> bool)
    requires Refines(boxed, fast, link)
    ensures boxed.shortcut.None? && boxed.builtin == fast.builtin
    ensures forall c, d :: link(c, d) ==> fast.read(d) == boxed.read(c)
  {
  }

  /** Replacing columns by linked ones and taking shortcuts changes no result and no error. */
  lemma {:induction false} Simulation<C(!new), D(!new)>(e: Expr<C>, f: Expr<D>, boxed: Env<C>, fast: Env<D>,
                                                        link: (C, D) -> bool, element: Option<Value>)
    requires Same(e, f, link) && Refines(boxed, fast, link) && (fast.shortcut.Some? ==> Binary(e))
    ensures Eval(f, fast, element) == Eval(e, boxed, element)
    decreases e, 0
  {
    hide EvalScalar, TryShortcut, Refines, SoundShortcut;
    RefinesReads(boxed, fast, link);
    match e {
      case Column(_) =>
      case Element =>
      case Literal(_) =>
      case Alias(a, _) => Simulation(a, f.expr, boxed, fast, link, element);
      case Ternary(p, t, u) =>
        Simulation(p, f.predicate_, boxed, fast, link, element);
        Simulation(t, f.truthy, boxed, fast, link, element);
        Simulation(u, f.falsy, boxed, fast, link, element);
      case Scalar(op, args) =>
        if op in {And, Or} {
          if |args| >= 2 {
            Simulation(args[0], f.args[0], boxed, fast, link, element);
            Simulation(args[1], f.args[1], boxed, fast, link, element);
          }
        } else if fast.shortcut.Some? && IsComparison(op) &&
            TryShortcut(op, f.args[0], f.args[1], fast.shortcut.value).Some? {
          ShortcutAgrees(e, f, boxed, fast, link, element);
        } else {
          SimulationArgs(e, f, args, f.args, 0, boxed, fast, link, element);
        }
      case StringOp(_, args) => SimulationArgs(e, f, args, f.args, 0, boxed, fast, link, element);
      case ListExpr(op, args) =>
        if op.OtherList? {
          SimulationArgs(e, f, args, f.args, 0, boxed, fast, link, element);
        } else if |args| == 2 {
          Simulation(args[0], f.args[0], boxed, fast, link, element);
          var list := Eval(args[0], boxed, element);
          if list.Ok? && list.value.List? {
            SimulationItems(args[1], f.args[1], op, list.value.values, boxed, fast, link);
          }
        }
      case StructExpr(op, args) =>
        if op.OtherStruct? {
          SimulationArgs(e, f, args, f.args, 0, boxed, fast, link, element);
        } else if args != [] {
          Simulation(args[0], f.args[0], boxed, fast, link, element);
          var base := Eval(args[0], boxed, element);
          if base.Ok? && base.value.Struct? {
            SimulationFields(e, f, args, f.args, op.names, 0, base.value.fields, boxed, fast, link, element);
          }
        }
    }
  }

  lemma {:induction false} SimulationArgs<C(!new), D(!new)>(
      e: Expr<C>, f: Expr<D>, args: seq<Expr<C>>, brgs: seq<Expr<D>>, k: nat,
      boxed: Env<C>, fast: Env<D>, link: (C, D) -> bool, element: Option<Value>)
    requires k <= |args| && (forall i :: 0 <= i < |args| ==> args[i] < e) &&
             (forall i :: 0 <= i < |brgs| ==> brgs[i] < f)
    requires AllSame(e, args, brgs, link) && Refines(boxed, fast, link)
    requires fast.shortcut.Some? ==> forall i :: 0 <= i < |args| ==> Binary(args[i])
    ensures EvalArgs(f, brgs, k, fast, element) == EvalArgs(e, args, k, boxed, element)
    decreases e, 0, |args| - k
  {
    hide Eval, Same, Refines, Binary;
    if k < |args| {
      Simulation(args[k], brgs[k], boxed, fast, link, element);
      SimulationArgs(e, f, args, brgs, k + 1, boxed, fast, link, element);
    }
  }

  lemma {:induction false} SimulationItems<C(!new), D(!new)>(e: Expr<C>, f: Expr<D>, op: ListOp, items: seq<Value>,
      boxed: Env<C>, fast: Env<D>, link: (C, D) -> bool)
    requires Same(e, f, link) && Refines(boxed, fast, link) && (fast.shortcut.Some? ==> Binary(e))
    ensures EvalItems(f, op, items, fast) == EvalItems(e, op, items, boxed)
    decreases e, 1, |items|
  {
    hide Eval, Same, Refines, Binary;
    if items != [] {
      Simulation(e, f, boxed, fast, link, Some(items[0]));
      SimulationItems(e, f, op, items[1..], boxed, fast, link);
    }
  }

  lemma {:induction false} SimulationFields<C(!new), D(!new)>(
      e: Expr<C>, f: Expr<D>, args: seq<Expr<C>>, brgs: seq<Expr<D>>, names: seq<string>, k: nat, fields: seq<Field>,
      boxed: Env<C>, fast: Env<D>, link: (C, D) -> bool, element: Option<Value>)
    requires k <= |names| && (forall i :: 0 <= i < |args| ==> args[i] < e) &&
             (forall i :: 0 <= i < |brgs| ==> brgs[i] < f)
    requires AllSame(e, args, brgs, link) && Refines(boxed, fast, link)
    requires fast.shortcut.Some? ==> forall i :: 0 <= i < |args| ==> Binary(args[i])
    ensures EvalFields(f, brgs, names, k, fields, fast, element) ==
            EvalFields(e, args, names, k, fields, boxed, element)
    decreases e, 0, |names| - k
  {
    hide Eval, Same, Refines, Binary;
    if k < |names| && k + 1 < |args| {
      Simulation(args[k + 1], brgs[k + 1], boxed, fast, link, element);
      var v := Eval(args[k + 1], boxed, element);
      if v.Ok? {
        SimulationFields(e, f, args, brgs, names, k + 1, SetField(fields, names[k], v.value), boxed, fast, link,
                         element);
      }
    }
  }

  // ---------------------------------------------------------------------------
  // Replacing columns.

  /** Replace every column by what `f` makes of it, failing at the first that cannot be replaced. */
  function TryMapColumn<C, D, E>(e: Expr<C>, f: C -> Result<D, E>): Result<Expr<D>, E>
    decreases e, 0
  {
    match e
    case Column(c) =>
      var d := f(c);
      if d.Err? then Err(d.error) else Ok(Column(d.value))
    case Element => Ok(Element)
    case Literal(v) => Ok(Literal(v))
    case Alias(a, name) =>
      var b := TryMapColumn(a, f);
      if b.Err? then b else Ok(Alias(b.value, name))
    case Ternary(p, t, u) =>
      var q := TryMapColumn(p, f);
      if q.Err? then q else
      var v := TryMapColumn(t, f);
      if v.Err? then v else
      var w := TryMapColumn(u, f);
      if w.Err? then w else Ok(Ternary(q.value, v.value, w.value))
    case Scalar(op, args) =>
      var brgs := MapArgs(e, args, f);
      if brgs.Err? then Err(brgs.error) else Ok(Scalar(op, brgs.value))
    case StringOp(code, args) =>
      var brgs := MapArgs(e, args, f);
      if brgs.Err? then Err(brgs.error) else Ok(StringOp(code, brgs.value))
    case ListExpr(op, args) =>
      var brgs := MapArgs(e, args, f);
      if brgs.Err? then Err(brgs.error) else Ok(ListExpr(op, brgs.value))
    case StructExpr(op, args) =>
      var brgs := MapArgs(e, args, f);
      if brgs.Err? then Err(brgs.error) else Ok(StructExpr(op, brgs.value))
  }

  function MapArgs<C, D, E>(e: Expr<C>, args: seq<Expr<C>>, f: C -> Result<D, E>): (r: Result<seq<Expr<D>>, E>)
    requires forall k :: 0 <= k < |args| ==> args[k] < e
    ensures r.Ok? ==> |r.value| == |args|
    decreases e, 0, |args|
  {
    if args == [] then Ok([]) else
    var init := MapArgs(e, args[..|args| - 1], f);
    if init.Err? then init else
    var last := TryMapColumn(args[|args| - 1], f);
    if last.Err? then Err(last.error) else Ok(init.value + [last.value])
  }

  /** The mapped expression is the same up to the columns, each replaced by what `f` makes of it. */
  lemma {:induction false} MapSame<C(!new), D(!new), E>(
      e: Expr<C>, f: C -> Result<D, E>, g: Expr<D>, link: (C, D) -> bool)
    requires TryMapColumn(e, f) == Ok(g) && forall c, d :: f(c) == Ok(d) ==> link(c, d)
    ensures Same(e, g, link)
    decreases e, 0
  {
    match e {
      case Column(_) =>
      case Element =>
      case Literal(_) =>
      case Alias(a, _) => MapSame(a, f, g.expr, link);
      case Ternary(p, t, u) =>
        MapSame(p, f, g.predicate_, link);
        MapSame(t, f, g.truthy, link);
        MapSame(u, f, g.falsy, link);
      case Scalar(_, args) => MapArgsSame(e, args, f, g.args, link);
      case StringOp(_, args) => MapArgsSame(e, args, f, g.args, link);
      case ListExpr(_, args) => MapArgsSame(e, args, f, g.args, link);
      case StructExpr(_, args) => MapArgsSame(e, args, f, g.args, link);
    }
  }

  lemma {:induction false} MapArgsSame<C(!new), D(!new), E>(e: Expr<C>, args: seq<Expr<C>>, f: C -> Result<D, E>,
                                                            brgs: seq<Expr<D>>, link: (C, D) -> bool)
    requires (forall k :: 0 <= k < |args| ==> args[k] < e) && forall c, d :: f(c) == Ok(d) ==> link(c, d)
    requires MapArgs(e, args, f) == Ok(brgs)
    ensures AllSame(e, args, brgs, link)
    decreases e, 0, |args|
  {
    hide TryMapColumn, Same;
    if args != [] {
      var last := |args| - 1;
      MapArgsSame(e, args[..last], f, brgs[..last], link);
      MapSame(args[last], f, brgs[last], link);
      forall k | 0 <= k < |args|
        ensures Same(args[k], brgs[k], link)
      {
        if k < last {
          assert args[k] == args[..last][k] && brgs[k] == brgs[..last][k];
        }
      }
    }
  }

  /** The direct parts of an expression. */
  ghost function Children<C>(e: Expr<C>): (r: seq<Expr<C>>)
    ensures forall k :: 0 <= k < |r| ==> r[k] < e
  {
    match e
    case Alias(a, _) => [a]
    case Ternary(p, t, u) => [p, t, u]
    case Scalar(_, args) => args
    case StringOp(_, args) => args
    case ListExpr(_, args) => args
    case StructExpr(_, args) => args
    case _ => []
  }

  /** The column occurs in the expression. */
  ghost predicate HasColumn<C(!new)>(e: Expr<C>, c: C) {
    if e.Column? then e.column == c else exists k :: 0 <= k < |Children(e)| && HasColumn(Children(e)[k], c)
  }

  /** All columns of the expression can be replaced. */
  ghost predicate Replaceable<C(!new), D, E>(e: Expr<C>, f: C -> Result<D, E>) {
    forall c :: HasColumn(e, c) ==> f(c).Ok?
  }

  /** A column of the expression fails with `x`. */
  ghost predicate FailsOn<C(!new), D, E>(e: Expr<C>, f: C -> Result<D, E>, x: E) {
    exists c :: HasColumn(e, c) && f(c) == Err(x)
  }

  lemma ReplaceableParts<C(!new), D, E>(e: Expr<C>, f: C -> Result<D, E>)
    requires !e.Column?
    ensures Replaceable(e, f) <==> forall k :: 0 <= k < |Children(e)| ==> Replaceable(Children(e)[k], f)
    ensures forall k, x :: 0 <= k < |Children(e)| && FailsOn(Children(e)[k], f, x) ==> FailsOn(e, f, x)
  {
  }

  /** Replacing succeeds exactly when every column of the expression can be replaced; it fails as one of them does. */
  lemma {:induction false} MapExact<C(!new), D, E>(e: Expr<C>, f: C -> Result<D, E>)
    ensures TryMapColumn(e, f).Ok? <==> Replaceable(e, f)
    ensures TryMapColumn(e, f).Err? ==> FailsOn(e, f, TryMapColumn(e, f).error)
    decreases e, 1
  {
    hide Replaceable, FailsOn, MapArgs, HasColumn;
    if !e.Column? {
      ReplaceableParts(e, f);
    }
    match e {
      case Column(_) => LeafReplaceable(e, f);
      case Element =>
      case Literal(_) =>
      case Alias(a, _) =>
        MapExact(a, f);
        assert Children(e) == [a];
        if TryMapColumn(a, f).Err? {
          PartFails(e, 0, f, TryMapColumn(a, f).error);
        }
      case Ternary(p, t, u) =>
        MapExact(p, f);
        MapExact(t, f);
        MapExact(u, f);
        assert Children(e)[0] == p && Children(e)[1] == t && Children(e)[2] == u;
        var q, v, w := TryMapColumn(p, f), TryMapColumn(t, f), TryMapColumn(u, f);
        if q.Err? {
          PartFails(e, 0, f, q.error);
        } else if v.Err? {
          PartFails(e, 1, f, v.error);
        } else if w.Err? {
          PartFails(e, 2, f, w.error);
        }
      case Scalar(_, args) => ArgsExact(e, args, f);
      case StringOp(_, args) => ArgsExact(e, args, f);
      case ListExpr(_, args) => ArgsExact(e, args, f);
      case StructExpr(_, args) => ArgsExact(e, args, f);
    }
  }

  lemma PartFails<C(!new), D, E>(e: Expr<C>, k: nat, f: C -> Result<D, E>, x: E)
    requires !e.Column? && k < |Children(e)| && FailsOn(Children(e)[k], f, x)
    ensures FailsOn(e, f, x)
  {
    ReplaceableParts(e, f);
  }

  lemma {:induction false} ArgsExact<C(!new), D, E>(e: Expr<C>, args: seq<Expr<C>>, f: C -> Result<D, E>)
    requires Children(e) == args && !e.Column?
    ensures MapArgs(e, args, f).Ok? <==> Replaceable(e, f)
    ensures MapArgs(e, args, f).Err? ==> FailsOn(e, f, MapArgs(e, args, f).error)
    decreases e, 0, |args| + 1
  {
    hide Replaceable, FailsOn, MapArgs, HasColumn;
    ReplaceableParts(e, f);
    MapArgsExact(e, args, f);
    if MapArgs(e, args, f).Err? {
      var k :| 0 <= k < |args| && FailsOn(args[k], f, MapArgs(e, args, f).error);
      PartFails(e, k, f, MapArgs(e, args, f).error);
    }
  }

  lemma LeafReplaceable<C(!new), D, E>(e: Expr<C>, f: C -> Result<D, E>)
    requires e.Column?
    ensures Replaceable(e, f) <==> f(e.column).Ok?
    ensures f(e.column).Err? ==> FailsOn(e, f, f(e.column).error)
  {
    assert HasColumn(e, e.column);
  }

  lemma {:induction false} MapArgsExact<C(!new), D, E>(e: Expr<C>, args: seq<Expr<C>>, f: C -> Result<D, E>)
    requires forall k :: 0 <= k < |args| ==> args[k] < e
    ensures MapArgs(e, args, f).Ok? <==> forall k :: 0 <= k < |args| ==> Replaceable(args[k], f)
    ensures MapArgs(e, args, f).Err? ==>
              exists k :: 0 <= k < |args| && FailsOn(args[k], f, MapArgs(e, args, f).error)
    decreases e, 0, |args|
  {
    hide Replaceable, FailsOn, TryMapColumn;
    if args != [] {
      var last := |args| - 1;
      MapArgsExact(e, args[..last], f);
      MapExact(args[last], f);
      assert forall k :: 0 <= k < last ==> args[..last][k] == args[k];
      if MapArgs(e, args[..last], f).Err? {
        var k :| 0 <= k < last && FailsOn(args[..last][k], f, MapArgs(e, args[..last], f).error);
        assert FailsOn(args[k], f, MapArgs(e, args, f).error);
      }
    }
  }

  // ---------------------------------------------------------------------------
  // With and without the shortcut.

  lemma AllSelfSame<C(!new)>(e: Expr<C>, args: seq<Expr<C>>)
    requires forall k :: 0 <= k < |args| ==> args[k] < e
    ensures forall k :: 0 <= k < |args| ==> Same(args[k], args[k], (c, d) => c == d)
    decreases e, 0
  {
    forall k | 0 <= k < |args|
      ensures Same(args[k], args[k], (c, d) => c == d)
    {
      SameSelf(args[k]);
    }
  }

  lemma {:induction false} SameSelf<C(!new)>(e: Expr<C>)
    ensures Same(e, e, (c, d) => c == d)
    decreases e, 1
  {
    match e {
      case Column(_) =>
      case Element =>
      case Literal(_) =>
      case Alias(a, _) => SameSelf(a);
      case Ternary(p, t, u) => SameSelf(p); SameSelf(t); SameSelf(u);
      case Scalar(_, args) => AllSelfSame(e, args);
      case StringOp(_, args) => AllSelfSame(e, args);
      case ListExpr(_, args) => AllSelfSame(e, args);
      case StructExpr(_, args) => AllSelfSame(e, args);
    }
  }

  /** Where every comparison has two operands, the shortcut changes no result and no error. */
  lemma ShortcutInvisible<C(!new)>(e: Expr<C>, env: Env<C>, element: Option<Value>)
    requires SoundShortcut(env) && Binary(e)
    ensures Eval(e, env, element) == Eval(e, env.(shortcut := None), element)
  {
    SameSelf(e);
    Simulation(e, e, env.(shortcut := None), env, (c, d) => c == d, element);
  }

  lemma EvalArgsSplit<C(!new)>(e: Expr<C>, args: seq<Expr<C>>, env: Env<C>, element: Option<Value>)
    requires |args| >= 2 && forall i :: 0 <= i < |args| ==> args[i] < e
    ensures var l, r, rest := Eval(args[0], env, element), Eval(args[1], env, element),
            EvalArgs(e, args, 2, env, element);
            EvalArgs(e, args, 0, env, element) ==
            if l.Err? then Err(l.error) else if r.Err? then Err(r.error)
            else if rest.Err? then rest else Ok([l.value, r.value] + rest.value)
  {
    hide Eval;
    var l, r, rest := Eval(args[0], env, element), Eval(args[1], env, element), EvalArgs(e, args, 2, env, element);
    if l.Ok? && r.Ok? && rest.Ok? {
      assert [l.value] + ([r.value] + rest.value) == [l.value, r.value] + rest.value;
    }
  }

  /**
   * With more than two operands the shortcut skips the others. It then differs from
   * boxed evaluation exactly when one of those fails, and not in the same way.
   */
  lemma ExtraOperands<C(!new)>(e: Expr<C>, env: Env<C>, element: Option<Value>)
    requires e.Scalar? && IsComparison(e.op) && |e.args| >= 2
    requires env.shortcut.Some? && SoundShortcut(env)
    requires TryShortcut(e.op, e.args[0], e.args[1], env.shortcut.value).Some?
    ensures var boxed := env.(shortcut := None);
            var fast, rest := Eval(e, env, element), EvalArgs(e, e.args, 2, boxed, element);
            fast == Eval(e, boxed, element) <==> rest.Ok? || fast == Err(rest.error)
  {
    hide SoundShortcut;
    var boxed := env.(shortcut := None);
    var pair := Scalar(e.op, e.args[..2]);
    SameSelf(pair);
    assert Refines(boxed, env, (c, d) => c == d);
    ShortcutAgrees(pair, pair, boxed, env, (c, d) => c == d, element);
    EvalTwo(pair, pair.args, boxed, element);
    EvalArgsSplit(e, e.args, boxed, element);
    LeafValues(e.args[0], boxed, element);
    LeafValues(e.args[1], boxed, element);
    var l, r := Eval(e.args[0], boxed, element), Eval(e.args[1], boxed, element);
    var rest := EvalArgs(e, e.args, 2, boxed, element);
    ShortcutReads(e.op, e.args[0], e.args[1], env);
    if rest.Ok? {
      ComparesTwo(e.op, l.value, r.value, rest.value, env.builtin);
    }
  }

  /** A column whose shortcut is taken can be read. */
  lemma ShortcutReads<C(!new)>(op: ScalarOp, l: Expr<C>, r: Expr<C>, env: Env<C>)
    requires env.shortcut.Some? && SoundShortcut(env) && IsComparison(op)
    requires TryShortcut(op, l, r, env.shortcut.value).Some?
    ensures ColumnOf(l).Some? && LiteralOf(r).Some? ==> env.read(ColumnOf(l).value).Ok?
    ensures !(ColumnOf(l).Some? && LiteralOf(r).Some?) ==>
              LiteralOf(l).Some? && ColumnOf(r).Some? && env.read(ColumnOf(r).value).Ok?
  {
  }

  lemma ComparesTwo(op: ScalarOp, l: Value, r: Value, rest: seq<Value>, builtin: Builtin)
    requires IsComparison(op)
    ensures EvalScalar(op, [l, r] + rest, builtin) == EvalScalar(op, [l, r], builtin)
  {
    hide EqValue, CompareOp;
  }

  /**
   * Short-circuiting `And` and `Or` differs from evaluating both operands first exactly
   * when the right operand fails and the left one already settles the result.
   */
  lemma ShortCircuitAgrees<C(!new)>(e: Expr<C>, env: Env<C>, element: Option<Value>)
    requires e.Scalar? && e.op in {And, Or} && |e.args| == 2
    ensures var l, r := Eval(e.args[0], env, element), Eval(e.args[1], env, element);
            var values := EvalArgs(e, e.args, 0, env, element);
            var eager := if values.Err? then Err(values.error) else EvalScalar(e.op, values.value, env.builtin);
            Eval(e, env, element) == eager <==>
              r.Ok? || l.Err? || Truth(l) == Ok(!e.op.Or?) || Truth(l) == Err(r.error)
  {
    EvalTwo(e, e.args, env, element);
  }

  /** A third operand that fails is noticed only without the shortcut. */
  lemma ExtraOperandSkipped(builtin: Builtin)
    ensures var reader := Bools([Some(true)]);
            var shortcut: Shortcut<bool> := (c, op, literal, reverse) =>
              if IsComparison(op) then EvalScalarLiteral(reader, 0, op, literal, reverse) else None;
            var env := Env((c: bool) => CellValue(reader, 0), Some(shortcut), builtin);
            var e := Scalar(Eq, [Column(true), Literal(Bool(true)), Element]);
            && SoundShortcut(env)
            && Eval(e, env, None) == Ok(Bool(true))
            && Eval(e, env.(shortcut := None), None) == Err(NoElement)
  {
    hide FloatOf;
    var reader := Bools([Some(true)]);
    var shortcut: Shortcut<bool> := (c, op, literal, reverse) =>
      if IsComparison(op) then EvalScalarLiteral(reader, 0, op, literal, reverse) else None;
    var env := Env((c: bool) => CellValue(reader, 0), Some(shortcut), builtin);
    var e := Scalar(Eq, [Column(true), Literal(Bool(true)), Element]);
    forall d, op, literal, reverse | IsComparison(op) && shortcut(d, op, literal, reverse).Some?
      ensures env.read(d).Ok? && shortcut(d, op, literal, reverse).value ==
                EvalScalar(op, Operands(env.read(d).value, literal, reverse), builtin)
    {
      LiteralRefines(reader, 0, op, literal, reverse, builtin);
    }
    assert EvalScalarLiteral(reader, 0, Eq, Bool(true), false) == Some(Ok(Bool(true)));
    EvalArgsSplit(e, e.args, env.(shortcut := None), None);
    assert EvalArgs(e, e.args, 2, env.(shortcut := None), None) == Err(NoElement);
  }

  // ---------------------------------------------------------------------------
  // What conditions decide.

  ghost predicate IsTrue(r: Evaluated) { r == Ok(Bool(true)) }

  /** False, or null. */
  ghost predicate IsFalse(r: Evaluated) { r == Ok(Bool(false)) || r == Ok(Null) }

  /** An error of its own, or a value that is neither a boolean nor null. */
  ghost predicate FailsWith(r: Evaluated, x: EvalError) {
    r == Err(x) || (r.Ok? && !r.value.Bool? && !r.value.Null? && x == ExpectedBoolean)
  }

  /** A condition is true, false or an error, and never two of them. */
  lemma ConditionMeaning(r: Evaluated)
    ensures Truth(r) == Ok(true) <==> IsTrue(r)
    ensures Truth(r) == Ok(false) <==> IsFalse(r)
    ensures forall x :: Truth(r) == Err(x) <==> FailsWith(r, x)
  {
  }

  /** A ternary expression is the branch that its condition chooses; the other one is never evaluated. */
  lemma TernaryMeaning<C(!new)>(e: Expr<C>, env: Env<C>, element: Option<Value>)
    requires e.Ternary?
    ensures var c, r := Eval(e.predicate_, env, element), Eval(e, env, element);
            && (IsTrue(c) ==> r == Eval(e.truthy, env, element))
            && (IsFalse(c) ==> r == Eval(e.falsy, env, element))
            && (forall x :: FailsWith(c, x) ==> r == Err(x))
  {
  }

  /** The left operand decides if it can; otherwise the result is the right one's truth. */
  lemma ConnectiveMeaning<C(!new)>(e: Expr<C>, env: Env<C>, element: Option<Value>)
    requires e.Scalar? && e.op in {And, Or} && |e.args| >= 2
    ensures var l, r := Eval(e.args[0], env, element), Eval(e.args[1], env, element);
            var result, undecided := Eval(e, env, element), if e.op.And? then IsTrue(l) else IsFalse(l);
            && (e.op.And? && IsFalse(l) ==> result == Ok(Bool(false)))
            && (e.op.Or? && IsTrue(l) ==> result == Ok(Bool(true)))
            && (undecided && IsTrue(r) ==> result == Ok(Bool(true)))
            && (undecided && IsFalse(r) ==> result == Ok(Bool(false)))
            && (forall x :: FailsWith(l, x) || (undecided && FailsWith(r, x)) ==> result == Err(x))
  {
  }

  /** Negation of a condition, and the tests for null, which no value fails. */
  lemma UnaryMeaning(v: Value, builtin: Builtin)
    ensures IsTrue(Ok(v)) ==> IsFalse(EvalScalar(Not, [v], builtin))
    ensures IsFalse(Ok(v)) ==> IsTrue(EvalScalar(Not, [v], builtin))
    ensures forall x :: FailsWith(Ok(v), x) ==> EvalScalar(Not, [v], builtin) == Err(x)
    ensures EvalScalar(IsNull, [v], builtin) == Ok(Bool(v == Null))
    ensures EvalScalar(IsNotNull, [v], builtin) == Ok(Bool(v != Null))
  {
  }

  // ---------------------------------------------------------------------------
  // What arguments are.

  /** Argument `k` is the first that fails. */
  ghost predicate FirstFailing<C(!new)>(args: seq<Expr<C>>, from: nat, k: nat, env: Env<C>, element: Option<Value>) {
    && from <= k < |args| && Eval(args[k], env, element).Err?
    && forall i :: from <= i < k ==> Eval(args[i], env, element).Ok?
  }

  /** Arguments are evaluated in order, up to the first that fails. */
  lemma {:induction false} ArgsMeaning<C(!new)>(e: Expr<C>, args: seq<Expr<C>>, k: nat, env: Env<C>,
                                                element: Option<Value>)
    requires k <= |args| && forall i :: 0 <= i < |args| ==> args[i] < e
    ensures var r := EvalArgs(e, args, k, env, element);
            && (r.Ok? ==> forall i :: k <= i < |args| ==> Eval(args[i], env, element) == Ok(r.value[i - k]))
            && (forall i: nat :: FirstFailing(args, k, i, env, element) ==>
                r == Err(Eval(args[i], env, element).error))
            && (r.Err? ==> exists i: nat :: FirstFailing(args, k, i, env, element))
    decreases |args| - k
  {
    hide Eval;
    if k < |args| {
      ArgsMeaning(e, args, k + 1, env, element);
      var v, rest := Eval(args[k], env, element), EvalArgs(e, args, k + 1, env, element);
      if v.Err? {
        assert FirstFailing(args, k, k, env, element);
      } else {
        forall i | FirstFailing(args, k, i, env, element)
          ensures FirstFailing(args, k + 1, i, env, element)
        {
        }
        if rest.Err? {
          var i :| FirstFailing(args, k + 1, i, env, element);
          assert FirstFailing(args, k, i, env, element);
        }
      }
    }
  }

  /** The values of all arguments. */
  ghost predicate ArgValues<C(!new)>(args: seq<Expr<C>>, env: Env<C>, element: Option<Value>, values: seq<Value>) {
    |values| == |args| && forall i :: 0 <= i < |args| ==> Eval(args[i], env, element) == Ok(values[i])
  }

  /** The operations that evaluate all their arguments are applied to the values of these. */
  lemma CallMeaning<C(!new)>(e: Expr<C>, env: Env<C>, element: Option<Value>, values: seq<Value>)
    requires ArgValues(Children(e), env, element, values)
    ensures e.StringOp? ==> Eval(e, env, element) == env.builtin(e.code, values)
    ensures e.ListExpr? && e.listOp.OtherList? ==> Eval(e, env, element) == env.builtin(e.listOp.code, values)
    ensures e.StructExpr? && e.structOp.OtherStruct? ==> Eval(e, env, element) == env.builtin(e.structOp.code, values)
    ensures e.Scalar? && e.op !in {And, Or} && (env.shortcut.None? || !IsComparison(e.op)) ==>
              Eval(e, env, element) == EvalScalar(e.op, values, env.builtin)
  {
    hide EvalArgs, EvalScalar;
    if e.Scalar? || e.StringOp? || e.ListExpr? || e.StructExpr? {
      AllArgs(e, Children(e), env, element, values);
    }
  }

  lemma AllArgs<C(!new)>(e: Expr<C>, args: seq<Expr<C>>, env: Env<C>, element: Option<Value>, values: seq<Value>)
    requires (forall i :: 0 <= i < |args| ==> args[i] < e) && ArgValues(args, env, element, values)
    ensures EvalArgs(e, args, 0, env, element) == Ok(values)
  {
    hide Eval, EvalArgs;
    ArgsMeaning(e, args, 0, env, element);
    var r := EvalArgs(e, args, 0, env, element);
    assert forall i :: 0 <= i < |args| ==> Eval(args[i], env, element).Ok?;
    assert r.Ok?;
    forall i | 0 <= i < |args|
      ensures r.value[i] == values[i]
    {
      assert Eval(args[i], env, element) == Ok(values[i]) == Ok(r.value[i]);
    }
    assert r.value == values;
  }

  // ---------------------------------------------------------------------------
  // What going through a list does.

  /** What the expression evaluates to at item `k`. */
  ghost function AtItem<C(!new)>(e: Expr<C>, items: seq<Value>, k: nat, env: Env<C>): Evaluated
    requires k < |items|
  {
    Eval(e, env, Some(items[k]))
  }

  /** The first item at which going through the list fails, and how. */
  ghost predicate FailsFirst<C(!new)>(e: Expr<C>, op: ListOp, items: seq<Value>, k: nat, env: Env<C>, x: EvalError) {
    && k < |items| && Stops(AtItem(e, items, k, env), op, x)
    && forall i :: 0 <= i < k ==> Passes(AtItem(e, items, i, env), op)
  }

  ghost predicate Stops(r: Evaluated, op: ListOp, x: EvalError) {
    if op.FilterEach? then FailsWith(r, x) else r == Err(x)
  }

  ghost predicate Passes(r: Evaluated, op: ListOp) {
    if op.FilterEach? then IsTrue(r) || IsFalse(r) else r.Ok?
  }

  /** Going through a list fails as its first failing item does. */
  lemma {:induction false} ItemsFail<C(!new)>(e: Expr<C>, op: ListOp, items: seq<Value>, k: nat, env: Env<C>,
                                              x: EvalError)
    requires FailsFirst(e, op, items, k, env, x)
    ensures EvalItems(e, op, items, env) == Err(x)
    decreases k
  {
    hide Eval;
    if k > 0 {
      assert Passes(AtItem(e, items, 0, env), op);
      forall i | 0 <= i < k - 1
        ensures Passes(AtItem(e, items[1..], i, env), op)
      {
        assert Passes(AtItem(e, items, i + 1, env), op);
      }
      ItemsFail(e, op, items[1..], k - 1, env, x);
    }
  }

  /** Filtering keeps, in order, exactly the items at which the condition is true. */
  lemma {:induction false} FilterKeeps<C(!new)>(e: Expr<C>, items: seq<Value>, env: Env<C>) returns (at: seq<nat>)
    requires forall k :: 0 <= k < |items| ==> Passes(AtItem(e, items, k, env), FilterEach)
    ensures Positions(at, |items|) && EvalItems(e, FilterEach, items, env) == Ok(List(Items(items, at)))
    ensures forall k: nat :: k in at <==> k < |items| && IsTrue(AtItem(e, items, k, env))
  {
    hide Eval, Items, Positions;
    if items == [] {
      at := [];
      NoItems(items);
    } else {
      var rest := items[1..];
      forall k | 0 <= k < |rest|
        ensures Passes(AtItem(e, rest, k, env), FilterEach)
      {
        assert Passes(AtItem(e, items, k + 1, env), FilterEach);
      }
      var later := FilterKeeps(e, rest, env);
      ShiftedItems(items, later);
      FirstPosition(items, 0, Shifted(later));
      assert Passes(AtItem(e, items, 0, env), FilterEach);
      at := if IsTrue(AtItem(e, items, 0, env)) then [0] + Shifted(later) else Shifted(later);
      forall k: nat
        ensures k in at <==> k < |items| && IsTrue(AtItem(e, items, k, env))
      {
        assert k in [0] + Shifted(later) <==> k == 0 || k in Shifted(later);
        if 0 < k < |items| {
          assert AtItem(e, items, k, env) == AtItem(e, rest, k - 1, env);
        }
      }
    }
  }

  /** Evaluating over a list gives what the expression evaluates to at every item. */
  lemma {:induction false} EachGives<C(!new)>(e: Expr<C>, op: ListOp, items: seq<Value>, env: Env<C>)
    requires !op.FilterEach? && forall k :: 0 <= k < |items| ==> Passes(AtItem(e, items, k, env), op)
    ensures var r := EvalItems(e, op, items, env);
            && r.Ok? && r.value.List? && |r.value.values| == |items|
            && forall k :: 0 <= k < |items| ==> AtItem(e, items, k, env) == Ok(r.value.values[k])
  {
    hide Eval;
    if items != [] {
      var rest := items[1..];
      forall k | 0 <= k < |rest|
        ensures Passes(AtItem(e, rest, k, env), op)
      {
        assert Passes(AtItem(e, items, k + 1, env), op);
      }
      EachGives(e, op, rest, env);
      assert Passes(AtItem(e, items, 0, env), op);
      var r := EvalItems(e, op, items, env);
      forall k | 0 <= k < |items|
        ensures AtItem(e, items, k, env) == Ok(r.value.values[k])
      {
        if k > 0 {
          assert AtItem(e, items, k, env) == AtItem(e, rest, k - 1, env);
        }
      }
    }
  }

  /** The filtered list: the items at exactly those positions at which the condition is true. */
  ghost predicate Filtered<C(!new)>(e: Expr<C>, items: seq<Value>, env: Env<C>, result: Evaluated) {
    exists at :: Positions(at, |items|) && result == Ok(List(Items(items, at))) && TrueAt(e, items, env, at)
  }

  ghost predicate TrueAt<C(!new)>(e: Expr<C>, items: seq<Value>, env: Env<C>, at: seq<nat>) {
    forall k: nat :: k in at <==> k < |items| && IsTrue(AtItem(e, items, k, env))
  }

  /**
   * Going through a list with an expression: null for null, an error for what is no list, and
   * otherwise the error of the first item that fails, or the items that pass, or all results.
   */
  lemma ListMeaning<C(!new)>(e: Expr<C>, env: Env<C>, element: Option<Value>)
    requires e.ListExpr? && !e.listOp.OtherList? && |e.args| == 2
    ensures var list, r, each := Eval(e.args[0], env, element), Eval(e, env, element), e.args[1];
            && (list.Err? ==> r == list)
            && (list == Ok(Null) ==> r == Ok(Null))
            && (list.Ok? && !list.value.Null? && !list.value.List? ==> r == Err(ExpectedList))
            && (list.Ok? && list.value.List? ==>
                  var items := list.value.values;
                  && (forall k, x :: FailsFirst(each, e.listOp, items, k, env, x) ==> r == Err(x))
                  && ((forall k :: 0 <= k < |items| ==> Passes(AtItem(each, items, k, env), e.listOp)) ==>
                      if e.listOp.FilterEach? then Filtered(each, items, env, r) else
                        r.Ok? && r.value.List? && |r.value.values| == |items| &&
                        forall k :: 0 <= k < |items| ==> AtItem(each, items, k, env) == Ok(r.value.values[k])))
  {
    hide AtItem, EvalItems, Passes, FailsFirst;
    var list, each := Eval(e.args[0], env, element), e.args[1];
    if list.Ok? && list.value.List? {
      var items := list.value.values;
      forall k, x | FailsFirst(each, e.listOp, items, k, env, x)
        ensures EvalItems(each, e.listOp, items, env) == Err(x)
      {
        ItemsFail(each, e.listOp, items, k, env, x);
      }
      if forall k :: 0 <= k < |items| ==> Passes(AtItem(each, items, k, env), e.listOp) {
        if e.listOp.FilterEach? {
          var at := FilterKeeps(each, items, env);
          assert TrueAt(each, items, env, at);
        } else {
          EachGives(each, e.listOp, items, env);
        }
      }
    }
  }

  // ---------------------------------------------------------------------------
  // What setting fields does.

  /** The field set reads the new value, every other what it read before; no name changes its place. */
  lemma {:induction false} SetFieldMeaning(fields: seq<Field>, name: string, value: Value, other: string)
    ensures var r := SetField(fields, name, value);
            && FindField(r, other) == (if other == name then Some(value) else FindField(fields, other))
            && |r| == |fields| + (if FindField(fields, name).None? then 1 else 0)
            && forall k :: 0 <= k < |fields| ==> r[k].name == fields[k].name
  {
    hide FindField;
    FindCons(fields, other);
    FindCons(fields, name);
    if fields == [] || fields[0].name == name {
      FindCons(SetField(fields, name, value), other);
    } else {
      SetFieldMeaning(fields[1..], name, value, other);
      FindCons([fields[0]] + SetField(fields[1..], name, value), other);
      assert SetField(fields, name, value)[1..] == SetField(fields[1..], name, value);
    }
  }

  lemma FindCons(fields: seq<Field>, name: string)
    ensures FindField(fields, name) ==
            if fields == [] then None
            else if fields[0].name == name then Some(fields[0].value) else FindField(fields[1..], name)
  {
  }

  /** All values to be set are there from `k` on, and none of them fails. */
  ghost predicate AllSet<C(!new)>(args: seq<Expr<C>>, names: seq<string>, k: nat, env: Env<C>, element: Option<Value>) {
    |names| < |args| && forall i :: k <= i < |names| ==> ToSet(args, i, env, element).Ok?
  }

  /** What the field named at position `i` is to be set to. */
  ghost function ToSet<C(!new)>(args: seq<Expr<C>>, i: nat, env: Env<C>, element: Option<Value>): Evaluated
    requires i + 1 < |args|
  {
    Eval(args[i + 1], env, element)
  }

  ghost predicate Reads(fields: seq<Field>, name: string, r: Evaluated) {
    r.Ok? && FindField(fields, name) == Some(r.value)
  }

  /** A name reads the value it was set to last, and what it read before if it was not set. */
  lemma {:induction false} FieldsRead<C(!new)>(
      e: Expr<C>, args: seq<Expr<C>>, names: seq<string>, k: nat, fields: seq<Field>, env: Env<C>,
      element: Option<Value>, name: string)
    requires k <= |names| && (forall i :: 0 <= i < |args| ==> args[i] < e) && AllSet(args, names, k, env, element)
    ensures var r := EvalFields(e, args, names, k, fields, env, element);
            && r.Ok? && r.value.Struct?
            && (name !in names[k..] ==> FindField(r.value.fields, name) == FindField(fields, name))
            && (forall i :: k <= i < |names| && names[i] == name && name !in names[i + 1..] ==>
                Reads(r.value.fields, name, ToSet(args, i, env, element)))
    decreases |names| - k
  {
    hide Eval, SetField, FindField;
    if k < |names| {
      var v := ToSet(args, k, env, element).value;
      SetFieldMeaning(fields, names[k], v, name);
      assert names[k..] == [names[k]] + names[k + 1..];
      FieldsRead(e, args, names, k + 1, SetField(fields, names[k], v), env, element, name);
    }
  }

  /** Setting fields fails as the first value to be set that fails or is missing. */
  lemma {:induction false} FieldsFail<C(!new)>(
      e: Expr<C>, args: seq<Expr<C>>, names: seq<string>, k: nat, fields: seq<Field>, env: Env<C>,
      element: Option<Value>, i: nat)
    requires k <= i < |names| && (forall j :: 0 <= j < |args| ==> args[j] < e) && i < |args|
    requires forall j :: k <= j < i ==> ToSet(args, j, env, element).Ok?
    requires i + 1 < |args| ==> Eval(args[i + 1], env, element).Err?
    ensures EvalFields(e, args, names, k, fields, env, element) ==
            if i + 1 < |args| then Eval(args[i + 1], env, element) else Err(MissingArgument(i + 1))
    decreases i - k
  {
    hide Eval, SetField;
    if k < i {
      var v := ToSet(args, k, env, element).value;
      FieldsFail(e, args, names, k + 1, SetField(fields, names[k], v), env, element, i);
    }
  }

  /** A struct with some fields set: null for null, an error for what is no struct, and the new readings otherwise. */
  lemma WithFieldsMeaning<C(!new)>(e: Expr<C>, env: Env<C>, element: Option<Value>)
    requires e.StructExpr? && e.structOp.WithFields? && e.args != []
    ensures var base, r, names := Eval(e.args[0], env, element), Eval(e, env, element), e.structOp.names;
            && (base.Err? ==> r == base)
            && (base == Ok(Null) ==> r == Ok(Null))
            && (base.Ok? && !base.value.Null? && !base.value.Struct? ==> r == Err(ExpectedStruct))
            && (base.Ok? && base.value.Struct? && AllSet(e.args, names, 0, env, element) ==>
                  && r.Ok? && r.value.Struct?
                  && (forall name :: name !in names ==>
                      FindField(r.value.fields, name) == FindField(base.value.fields, name))
                  && (forall i :: 0 <= i < |names| && names[i] !in names[i + 1..] ==>
                      Reads(r.value.fields, names[i], ToSet(e.args, i, env, element))))
  {
    hide EvalFields, FindField, AllSet, Reads, ToSet;
    var base, names := Eval(e.args[0], env, element), e.structOp.names;
    if base.Ok? && base.value.Struct? && AllSet(e.args, names, 0, env, element) {
      AllFieldsRead(e, e.args, names, base.value.fields, env, element);
    }
  }

  lemma AllFieldsRead<C(!new)>(e: Expr<C>, args: seq<Expr<C>>, names: seq<string>, fields: seq<Field>, env: Env<C>,
                               element: Option<Value>)
    requires (forall i :: 0 <= i < |args| ==> args[i] < e) && AllSet(args, names, 0, env, element)
    ensures var r := EvalFields(e, args, names, 0, fields, env, element);
            && r.Ok? && r.value.Struct?
            && (forall name :: name !in names ==> FindField(r.value.fields, name) == FindField(fields, name))
            && (forall i :: 0 <= i < |names| && names[i] !in names[i + 1..] ==>
                Reads(r.value.fields, names[i], ToSet(args, i, env, element)))
  {
    hide EvalFields, FindField, Reads, ToSet;
    var r := EvalFields(e, args, names, 0, fields, env, element);
    assert names[0..] == names;
    FieldsRead(e, args, names, 0, fields, env, element, "");
    forall name | name !in names
      ensures FindField(r.value.fields, name) == FindField(fields, name)
    {
      FieldsRead(e, args, names, 0, fields, env, element, name);
    }
    forall i | 0 <= i < |names| && names[i] !in names[i + 1..]
      ensures Reads(r.value.fields, names[i], ToSet(args, i, env, element))
    {
      FieldsRead(e, args, names, 0, fields, env, element, names[i]);
    }
  }
}

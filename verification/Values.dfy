/**
 * Runtime values of the expression language, and what it means for two of them to
 * be equal or ordered.
 */
module Values {
  import opened Wrappers

  datatype Ordering = Less | Equal | Greater

  function Reverse(o: Ordering): Ordering {
    match o
    case Less => Greater
    case Equal => Equal
    case Greater => Less
  }

  // ---------------------------------------------------------------------------
  // Floats: only equality, order, NaN and signed zero.

  /** `Finite(0.0)` is positive zero; the payload tells NaNs apart. */
  datatype F64 = NaN(payload: nat) | NegInf | NegZero | Finite(value: real) | PosInf

  /** Negative zero counts as zero. */
  function Canonical(a: F64): F64 {
    if a.NegZero? then Finite(0.0) else a
  }

  predicate FloatEq(a: F64, b: F64) {
    !a.NaN? && !b.NaN? && Canonical(a) == Canonical(b)
  }

  function PartialCmp(a: F64, b: F64): Option<Ordering> {
    match (Canonical(a), Canonical(b))
    case (NaN(_), _) => None
    case (_, NaN(_)) => None
    case (NegInf, NegInf) => Some(Equal)
    case (NegInf, _) => Some(Less)
    case (_, NegInf) => Some(Greater)
    case (PosInf, PosInf) => Some(Equal)
    case (PosInf, _) => Some(Greater)
    case (_, PosInf) => Some(Less)
    case (Finite(x), Finite(y)) => Some(if x < y then Less else if x == y then Equal else Greater)
    case _ => None
  }

  const MANTISSA: int := 0x20_0000_0000_0000

  /** The nearest integer with a 53-bit mantissa, ties to even. */
  function RoundNat(n: nat, unit: nat): (r: nat)
    requires unit > 0
    decreases n - unit
  {
    if n >= MANTISSA * unit then RoundNat(n, 2 * unit) else
    var q, rest := n / unit, n % unit;
    var up := 2 * rest > unit || (2 * rest == unit && q % 2 == 1);
    (if up then q + 1 else q) * unit
  }

  /** The conversion of an integer to a float. */
  function FloatOf(n: int): F64 {
    Finite(if n >= 0 then RoundNat(n, 1) as real else -(RoundNat(-n, 1) as real))
  }

  // ---------------------------------------------------------------------------
  // Values.

  datatype Field = Field(name: string, value: Value)

  datatype Value =
    | Null
    | Bool(b: bool)
    | I64(i: int)
    | U64(u: nat)
    | Float(f: F64)
    | Str(s: string)
    | List(values: seq<Value>)
    | Struct(fields: seq<Field>)

  datatype EvalError =
    | ExpectedBoolean
    | Incomparable
    | MissingArgument(index: nat)
    | NoElement
    | ExpectedList
    | ExpectedStruct
    | WrongInputs(count: nat)
    | MissingId
    | OutOfRange(row: nat)
    | Primitive(code: nat)

  type Evaluated = Result<Value, EvalError>

  function Truthy(v: Value): Result<bool, EvalError> {
    match v
    case Bool(b) => Ok(b)
    case Null => Ok(false)
    case _ => Err(ExpectedBoolean)
  }

  function AsF64(v: Value): Option<F64> {
    match v
    case I64(i) => Some(FloatOf(i))
    case U64(u) => Some(FloatOf(u))
    case Float(f) => Some(f)
    case _ => None
  }

  /** The first field of that name. */
  function FindField(fields: seq<Field>, name: string): (r: Option<Value>)
    ensures r.Some? ==> exists k :: 0 <= k < |fields| && fields[k] == Field(name, r.value)
    ensures r.None? <==> forall k :: 0 <= k < |fields| ==> fields[k].name != name
  {
    if fields == [] then None
    else if fields[0].name == name then
      assert fields[0] == Field(name, fields[0].value);
      Some(fields[0].value)
    else
      var r := FindField(fields[1..], name);
      assert forall k :: 0 <= k < |fields[1..]| ==> fields[1..][k] == fields[k + 1];
      assert forall k :: 0 < k < |fields| ==> fields[k] == fields[1..][k - 1];
      r
  }

  predicate EqValue(l: Value, r: Value)
    decreases l
  {
    match (l, r)
    case (Null, Null) => true
    case (Bool(a), Bool(b)) => a == b
    case (Str(a), Str(b)) => a == b
    case (List(xs), List(ys)) => |xs| == |ys| && forall k | 0 <= k < |xs| :: EqValue(xs[k], ys[k])
    case (Struct(fs), Struct(gs)) =>
      |fs| == |gs| && forall k | 0 <= k < |fs| ::
        var found := FindField(gs, fs[k].name);
        found.Some? && EqValue(fs[k].value, found.value)
    case _ => AsF64(l).Some? && AsF64(r).Some? && FloatEq(AsF64(l).value, AsF64(r).value)
  }

  function CompareStr(a: string, b: string): Ordering {
    if a == [] then (if b == [] then Equal else Less)
    else if b == [] then Greater
    else if a[0] < b[0] then Less
    else if b[0] < a[0] then Greater
    else CompareStr(a[1..], b[1..])
  }

  function CompareBool(a: bool, b: bool): Ordering {
    if a == b then Equal else if b then Less else Greater
  }

  function Compare(l: Value, r: Value): Result<Ordering, EvalError> {
    match (l, r)
    case (Bool(a), Bool(b)) => Ok(CompareBool(a, b))
    case (Str(a), Str(b)) => Ok(CompareStr(a, b))
    case _ =>
      if AsF64(l).Some? && AsF64(r).Some? then
        var o := PartialCmp(AsF64(l).value, AsF64(r).value);
        if o.Some? then Ok(o.value) else Err(Incomparable)
      else Err(Incomparable)
  }

  lemma {:induction false} CompareStrReverse(a: string, b: string)
    ensures CompareStr(b, a) == Reverse(CompareStr(a, b))
    ensures CompareStr(a, b) == Equal <==> a == b
  {
    if a != [] && b != [] && a[0] == b[0] {
      CompareStrReverse(a[1..], b[1..]);
      assert a == [a[0]] + a[1..] && b == [b[0]] + b[1..];
    }
  }

  /** Swapping the operands of a comparison reverses it; whether it fails does not depend on the order. */
  lemma CompareReverse(l: Value, r: Value)
    ensures Compare(r, l) == if Compare(l, r).Ok? then Ok(Reverse(Compare(l, r).value)) else Compare(l, r)
  {
    hide CompareStr, FloatOf, PartialCmp;
    if l.Str? && r.Str? {
      CompareStrReverse(l.s, r.s);
    } else if AsF64(l).Some? && AsF64(r).Some? {
      PartialReverse(AsF64(l).value, AsF64(r).value);
    }
  }

  lemma PartialReverse(a: F64, b: F64)
    ensures PartialCmp(b, a) == if PartialCmp(a, b).Some? then Some(Reverse(PartialCmp(a, b).value)) else None
  {
  }

  /** Two values compare as equal exactly when they are equal scalars, whatever their types. */
  lemma CompareEqual(l: Value, r: Value)
    ensures Compare(l, r) == Ok(Equal) <==> EqValue(l, r) && !l.Null? && !l.List? && !l.Struct?
  {
    if l.Str? && r.Str? {
      CompareStrReverse(l.s, r.s);
    }
  }

  // ---------------------------------------------------------------------------
  // What the order means.

  /** A proper beginning, or smaller at the first difference. */
  ghost predicate StrBefore(a: string, b: string) {
    exists k :: 0 <= k <= |a| && k < |b| && a[..k] == b[..k] && (k == |a| || a[k] < b[k])
  }

  lemma {:induction false} StrLessBefore(a: string, b: string) returns (k: nat)
    requires CompareStr(a, b) == Less
    ensures k <= |a| && k < |b| && a[..k] == b[..k] && (k == |a| || a[k] < b[k])
  {
    if a == [] || a[0] < b[0] {
      k := 0;
    } else {
      var n := StrLessBefore(a[1..], b[1..]);
      k := n + 1;
      assert a[..k] == [a[0]] + a[1..][..n] && b[..k] == [b[0]] + b[1..][..n];
    }
  }

  lemma {:induction false} StrBeforeLess(a: string, b: string, k: nat)
    requires k <= |a| && k < |b| && a[..k] == b[..k] && (k == |a| || a[k] < b[k])
    ensures CompareStr(a, b) == Less
  {
    if k > 0 {
      assert a[0] == a[..k][0] == b[..k][0] == b[0];
      assert a[1..][..k - 1] == a[..k][1..] == b[..k][1..] == b[1..][..k - 1];
      StrBeforeLess(a[1..], b[1..], k - 1);
    }
  }

  /** Strings compare by their first difference. */
  lemma StrMeaning(a: string, b: string)
    ensures CompareStr(a, b) == Less <==> StrBefore(a, b)
    ensures CompareStr(a, b) == Greater <==> StrBefore(b, a)
    ensures CompareStr(a, b) == Equal <==> a == b
  {
    hide CompareStr;
    CompareStrReverse(a, b);
    if CompareStr(a, b) == Less {
      var k := StrLessBefore(a, b);
    }
    if CompareStr(b, a) == Less {
      var k := StrLessBefore(b, a);
    }
    if k :| 0 <= k <= |a| && k < |b| && a[..k] == b[..k] && (k == |a| || a[k] < b[k]) {
      StrBeforeLess(a, b, k);
    }
    if k :| 0 <= k <= |b| && k < |a| && b[..k] == a[..k] && (k == |b| || b[k] < a[k]) {
      StrBeforeLess(b, a, k);
    }
  }

  /** The real number that a float stands for; both zeros are 0. */
  ghost predicate StandsFor(a: F64, x: real) {
    a == Finite(x) || (a.NegZero? && x == 0.0)
  }

  /** Negative infinity before all numbers, numbers by size, positive infinity behind. */
  ghost predicate FloatBefore(a: F64, b: F64) {
    || (a.NegInf? && !b.NegInf? && !b.NaN?)
    || (b.PosInf? && !a.PosInf? && !a.NaN?)
    || exists x, y :: StandsFor(a, x) && StandsFor(b, y) && x < y
  }

  /** Booleans, strings or numbers other than NaN. */
  ghost predicate Comparable(l: Value, r: Value) {
    || (l.Bool? && r.Bool?)
    || (l.Str? && r.Str?)
    || (AsF64(l).Some? && AsF64(r).Some? && !AsF64(l).value.NaN? && !AsF64(r).value.NaN?)
  }

  ghost predicate ValueBefore(l: Value, r: Value) {
    || (l.Bool? && r.Bool? && !l.b && r.b)
    || (l.Str? && r.Str? && StrBefore(l.s, r.s))
    || (AsF64(l).Some? && AsF64(r).Some? && FloatBefore(AsF64(l).value, AsF64(r).value))
  }

  lemma FloatMeaning(a: F64, b: F64)
    ensures PartialCmp(a, b).Some? <==> !a.NaN? && !b.NaN?
    ensures PartialCmp(a, b) == Some(Less) <==> FloatBefore(a, b)
    ensures PartialCmp(a, b) == Some(Greater) <==> FloatBefore(b, a)
  {
    if PartialCmp(a, b).Some? && !a.NegInf? && !a.PosInf? && !b.NegInf? && !b.PosInf? {
      var x, y := (if a.NegZero? then 0.0 else a.value), if b.NegZero? then 0.0 else b.value;
      assert StandsFor(a, x) && StandsFor(b, y);
    }
  }

  /** Booleans, strings and numbers compare among themselves, by their order; nothing else does. */
  lemma CompareMeaning(l: Value, r: Value)
    ensures Compare(l, r).Ok? <==> Comparable(l, r)
    ensures Compare(l, r).Err? ==> Compare(l, r).error == Incomparable
    ensures Compare(l, r) == Ok(Less) <==> ValueBefore(l, r)
    ensures Compare(l, r) == Ok(Greater) <==> ValueBefore(r, l)
  {
    hide CompareStr, StrBefore, PartialCmp, FloatBefore, FloatOf;
    if l.Str? && r.Str? {
      StrMeaning(l.s, r.s);
    } else if AsF64(l).Some? && AsF64(r).Some? {
      FloatMeaning(AsF64(l).value, AsF64(r).value);
    }
  }

  /** Finite floats, and integers of up to 53 bits, by the number they are. */
  ghost predicate IsNumber(v: Value, x: real) {
    match v
    case I64(i) => -MANTISSA <= i <= MANTISSA && x == i as real
    case U64(u) => u <= MANTISSA && x == u as real
    case Float(f) => StandsFor(f, x)
    case _ => false
  }

  lemma FloatExact(n: int)
    requires -MANTISSA <= n <= MANTISSA
    ensures FloatOf(n) == Finite(n as real)
  {
  }

  /** Such numbers compare and equal each other as the numbers they are, whatever their types. */
  lemma NumbersCompare(l: Value, r: Value, x: real, y: real)
    requires IsNumber(l, x) && IsNumber(r, y)
    ensures Comparable(l, r)
    ensures ValueBefore(l, r) <==> x < y
    ensures EqValue(l, r) <==> x == y
  {
    hide FloatOf;
    if l.I64? { FloatExact(l.i); }
    if l.U64? { FloatExact(l.u); }
    if r.I64? { FloatExact(r.i); }
    if r.U64? { FloatExact(r.u); }
    var a, b := AsF64(l).value, AsF64(r).value;
    assert StandsFor(a, x) && StandsFor(b, y);
  }

  // ---------------------------------------------------------------------------
  // What rounding means.

  ghost function Pow2(k: nat): (r: nat)
    ensures r > 0
  {
    if k == 0 then 1 else 2 * Pow2(k - 1)
  }

  /** The least mantissa of 53 bits. */
  const LEADING: int := 0x10_0000_0000_0000

  /** `x` is an integer that a float can hold: a mantissa of at most 53 bits, at some scale. */
  ghost predicate Representable(x: int, mantissa: nat, scale: nat) {
    mantissa < MANTISSA && Distance(x, 0) == mantissa * Pow2(scale)
  }

  function Distance(a: int, b: int): nat {
    if a < b then b - a else a - b
  }

  lemma OneMore(q: nat, unit: nat)
    ensures (q + 1) * unit == q * unit + unit
  {
  }

  /** Multiples of `unit` are at least `unit` apart. */
  lemma {:induction false} Apart(c: nat, q: nat, unit: nat)
    requires c < q
    ensures c * unit + unit <= q * unit
  {
    OneMore(q - 1, unit);
    if c < q - 1 {
      Apart(c, q - 1, unit);
    }
  }

  /** How far `n` is above a multiple of `unit` decides what it is rounded to. */
  lemma RoundsTo(n: nat, unit: nat) returns (q: nat, rest: nat, m: nat)
    requires 0 < unit && n < MANTISSA * unit
    ensures n == q * unit + rest && rest < unit
    ensures m == if 2 * rest > unit || (2 * rest == unit && q % 2 == 1) then q + 1 else q
    ensures RoundNat(n, unit) == m * unit && m <= MANTISSA
  {
    q, rest := n / unit, n % unit;
    m := if 2 * rest > unit || (2 * rest == unit && q % 2 == 1) then q + 1 else q;
    if q >= MANTISSA {
      AtLeast(MANTISSA, q, unit);
    }
  }

  lemma AtLeast(c: nat, q: nat, unit: nat)
    requires c <= q
    ensures c * unit <= q * unit
  {
    if c < q {
      Apart(c, q, unit);
    }
  }

  /** Rounding to multiples of `unit` finds a nearest one, and of two nearest the even one. */
  lemma NearestMultiple(n: nat, unit: nat, c: nat) returns (m: nat)
    requires 0 < unit && n < MANTISSA * unit
    ensures RoundNat(n, unit) == m * unit && m <= MANTISSA
    ensures Distance(m * unit, n) <= Distance(c * unit, n)
    ensures c != m && Distance(m * unit, n) == Distance(c * unit, n) ==> m % 2 == 0
    ensures n >= LEADING * unit ==> m >= LEADING
  {
    hide RoundNat, Distance;
    var q, rest, m' := RoundsTo(n, unit);
    m := m';
    if q < LEADING {
      Apart(q, LEADING, unit);
    }
    OneMore(q, unit);
    if c < q {
      Apart(c, q, unit);
    } else if c > q + 1 {
      Apart(q + 1, c, unit);
    }
    NearestOf(n, unit, q, rest, c, m, q * unit, c * unit, m * unit);
  }

  lemma NearestOf(n: nat, unit: nat, q: nat, rest: nat, c: nat, m: nat, a: nat, b: nat, r: nat)
    requires n == a + rest && rest < unit
    requires m == if 2 * rest > unit || (2 * rest == unit && q % 2 == 1) then q + 1 else q
    requires r == if m == q then a else a + unit
    requires (c < q ==> b + unit <= a) && (c == q ==> b == a) && (c == q + 1 ==> b == a + unit)
    requires c > q + 1 ==> b >= a + 2 * unit
    ensures Distance(r, n) <= Distance(b, n) && (c != m && Distance(r, n) == Distance(b, n) ==> m % 2 == 0)
  {
  }

  lemma {:induction false} Pow2Split(j: nat, k: nat)
    ensures Pow2(j + k) == Pow2(j) * Pow2(k)
  {
    if j > 0 {
      Pow2Split(j - 1, k);
      Doubled(Pow2(j - 1), Pow2(k));
    }
  }

  lemma Doubled(a: nat, b: nat)
    ensures (2 * a) * b == 2 * (a * b)
  {
  }

  lemma Regroup(a: nat, b: nat, c: nat)
    ensures a * (b * c) == (a * b) * c
  {
  }

  /** What a smaller scale can hold lies below the least 53-bit mantissa of this one. */
  lemma SmallerScale(c: nat, j: nat, k: nat)
    requires c < MANTISSA && j < k
    ensures c * Pow2(j) < LEADING * Pow2(k)
  {
    hide Pow2;
    Apart(c, MANTISSA, Pow2(j));
    Pow2Split(k - 1 - j, j);
    OneScale(k - 1);
    AtLeast(1, Pow2(k - 1 - j), Pow2(j));
    MoreEach(MANTISSA, Pow2(j), Pow2(k - 1));
    assert LEADING * Pow2(k) == MANTISSA * Pow2(k - 1);
  }

  lemma OneScale(k: nat)
    ensures Pow2(k + 1) == 2 * Pow2(k)
  {
  }

  lemma MoreEach(a: nat, b: nat, c: nat)
    requires b <= c
    ensures a * b <= a * c
  {
  }

  /** Of all that a float can hold, rounding finds a nearest, and of two nearest the one with an even mantissa. */
  lemma {:induction false} RoundNearest(n: nat, unit: nat, k: nat, x: nat, c: nat, j: nat) returns (m: nat, e: nat)
    requires unit == Pow2(k) && (k > 0 ==> n >= LEADING * unit) && Representable(x, c, j)
    ensures RoundNat(n, unit) == m * Pow2(e) && m <= MANTISSA && (e > 0 ==> m >= LEADING)
    ensures Distance(m * Pow2(e), n) <= Distance(x, n)
    ensures m * Pow2(e) != x && Distance(m * Pow2(e), n) == Distance(x, n) ==> m % 2 == 0
    decreases n - unit
  {
    hide Pow2;
    if n >= MANTISSA * unit {
      OneScale(k);
      AtLeast(1, MANTISSA, unit);
      m, e := RoundNearest(n, 2 * unit, k + 1, x, c, j);
    } else {
      e := k;
      if j >= k {
        Pow2Split(j - k, k);
        Regroup(c, Pow2(j - k), Pow2(k));
        m := NearestMultiple(n, unit, c * Pow2(j - k));
      } else {
        SmallerScale(c, j, k);
        m := NearestMultiple(n, unit, LEADING);
      }
    }
  }

  /** An integer becomes a float nearest to it. */
  lemma FloatNearest(n: int, x: int, c: nat, j: nat) returns (r: int)
    requires Representable(x, c, j)
    ensures FloatOf(n) == Finite(r as real) && Distance(r, n) <= Distance(x, n)
  {
    hide RoundNat, Pow2;
    assert Pow2(0) == 1 by { OneUnit(); }
    var size := Distance(n, 0);
    var near := Distance(x, 0);
    if (n < 0) == (x < 0) {
      var m, e := RoundNearest(size, 1, 0, near, c, j);
    } else {
      var m, e := RoundNearest(size, 1, 0, 0, 0, 0);
    }
    r := RoundNat(size, 1);
    if n < 0 {
      r := -r;
    }
  }

  lemma OneUnit()
    ensures Pow2(0) == 1
  {
  }

  // ---------------------------------------------------------------------------
  // What equality means.

  /** Two numbers neither of which is before the other. */
  ghost predicate SameNumber(l: Value, r: Value) {
    AsF64(l).Some? && AsF64(r).Some? && Comparable(l, r) && !ValueBefore(l, r) && !ValueBefore(r, l)
  }

  /** Lists of the same length with equal items at every position. */
  ghost predicate ItemsEqual(xs: seq<Value>, ys: seq<Value>) {
    |xs| == |ys| && forall k :: 0 <= k < |xs| ==> EqValue(xs[k], ys[k])
  }

  /** As many fields, and every field of `fs` equal to the first of its name in `gs`. */
  ghost predicate FieldsFound(fs: seq<Field>, gs: seq<Field>) {
    |fs| == |gs| && forall k :: 0 <= k < |fs| ==> EqualsNamesake(fs[k], gs)
  }

  ghost predicate EqualsNamesake(f: Field, gs: seq<Field>) {
    exists j :: 0 <= j < |gs| && FirstOfName(gs, j, f.name) && EqValue(f.value, gs[j].value)
  }

  ghost predicate FirstOfName(fields: seq<Field>, j: nat, name: string)
    requires j < |fields|
  {
    fields[j].name == name && forall i :: 0 <= i < j ==> fields[i].name != name
  }

  lemma {:induction false} FindFirst(fields: seq<Field>, name: string) returns (j: nat)
    requires FindField(fields, name).Some?
    ensures j < |fields| && FirstOfName(fields, j, name) && FindField(fields, name) == Some(fields[j].value)
  {
    if fields[0].name == name {
      j := 0;
    } else {
      var i := FindFirst(fields[1..], name);
      j := i + 1;
    }
  }

  lemma {:induction false} FirstFound(fields: seq<Field>, j: nat, name: string)
    requires j < |fields| && FirstOfName(fields, j, name)
    ensures FindField(fields, name) == Some(fields[j].value)
  {
    if j > 0 {
      FirstFound(fields[1..], j - 1, name);
    }
  }

  lemma StructMeaning(fs: seq<Field>, gs: seq<Field>)
    ensures EqValue(Struct(fs), Struct(gs)) <==> FieldsFound(fs, gs)
  {
    hide FindField, EqValue;
    StructsEqual(fs, gs);
    if EqValue(Struct(fs), Struct(gs)) {
      forall k | 0 <= k < |fs|
        ensures EqualsNamesake(fs[k], gs)
      {
        assert EqValue(fs[k].value, FindField(gs, fs[k].name).value);
        var j := FindFirst(gs, fs[k].name);
      }
    }
    if FieldsFound(fs, gs) {
      forall k | 0 <= k < |fs|
        ensures FindField(gs, fs[k].name).Some? && EqValue(fs[k].value, FindField(gs, fs[k].name).value)
      {
        assert EqualsNamesake(fs[k], gs);
        var j :| 0 <= j < |gs| && FirstOfName(gs, j, fs[k].name) && EqValue(fs[k].value, gs[j].value);
        FirstFound(gs, j, fs[k].name);
      }
    }
  }

  /** Values are equal when they are the same scalar, the same number, or equal part by part. */
  lemma EqMeaning(l: Value, r: Value)
    ensures EqValue(l, r) <==>
            || (l.Null? && r.Null?)
            || (l.Bool? && r.Bool? && l.b == r.b)
            || (l.Str? && r.Str? && l.s == r.s)
            || SameNumber(l, r)
            || (l.List? && r.List? && ItemsEqual(l.values, r.values))
            || (l.Struct? && r.Struct? && FieldsFound(l.fields, r.fields))
  {
    hide FloatOf, FindField, FieldsFound, FloatBefore;
    if l.Struct? && r.Struct? {
      StructMeaning(l.fields, r.fields);
    } else if AsF64(l).Some? && AsF64(r).Some? {
      FloatMeaning(AsF64(l).value, AsF64(r).value);
    }
  }

  /** Equality carries over, also between lists and structs; nothing need equal itself, as NaN does not. */
  lemma {:induction false} EqTransitive(a: Value, b: Value, c: Value)
    requires EqValue(a, b) && EqValue(b, c)
    ensures EqValue(a, c)
    decreases a
  {
    hide FloatOf, FindField;
    if a.List? {
      forall k | 0 <= k < |a.values|
        ensures EqValue(a.values[k], c.values[k])
      {
        EqTransitive(a.values[k], b.values[k], c.values[k]);
      }
    } else if a.Struct? {
      forall k | 0 <= k < |a.fields|
        ensures FindField(c.fields, a.fields[k].name).Some?
        ensures EqValue(a.fields[k].value, FindField(c.fields, a.fields[k].name).value)
      {
        var v := FindField(b.fields, a.fields[k].name).value;
        var j := FindFirst(b.fields, a.fields[k].name);
        EqTransitive(a.fields[k].value, v, FindField(c.fields, b.fields[j].name).value);
      }
    }
  }

  // ---------------------------------------------------------------------------
  // Struct equality.

  ghost predicate FieldsEqual(left: seq<Field>, right: seq<Field>) {
    |left| == |right| && forall k | 0 <= k < |left| ::
      var found := FindField(right, left[k].name);
      found.Some? && EqValue(left[k].value, found.value)
  }

  lemma StructsEqual(left: seq<Field>, right: seq<Field>)
    ensures EqValue(Struct(left), Struct(right)) <==> FieldsEqual(left, right)
  {
  }

  /** `byName` holds the first value of every name among the first `k` fields. */
  ghost predicate FirstByName(fields: seq<Field>, k: nat, byName: map<string, Value>)
    requires k <= |fields|
  {
    forall name :: FindField(fields[..k], name) == if name in byName then Some(byName[name]) else None
  }

  lemma {:induction false} FindFieldMore(fields: seq<Field>, field: Field, name: string)
    ensures FindField(fields + [field], name) ==
            if FindField(fields, name).Some? then FindField(fields, name)
            else if field.name == name then Some(field.value) else None
  {
    if fields == [] {
      assert fields + [field] == [field];
    } else {
      assert (fields + [field])[1..] == fields[1..] + [field];
      FindFieldMore(fields[1..], field, name);
    }
  }

  lemma FirstByNameNone(fields: seq<Field>)
    ensures FirstByName(fields, 0, map[])
  {
  }

  lemma FirstByNameMore(fields: seq<Field>, k: nat, byName: map<string, Value>)
    requires k < |fields| && FirstByName(fields, k, byName)
    ensures var field := fields[k];
            FirstByName(fields, k + 1, if field.name in byName then byName else byName[field.name := field.value])
  {
    hide FindField;
    var field := fields[k];
    var next := if field.name in byName then byName else byName[field.name := field.value];
    assert fields[..k + 1] == fields[..k] + [field];
    forall name
      ensures FindField(fields[..k + 1], name) == if name in next then Some(next[name]) else None
    {
      FindFieldMore(fields[..k], field, name);
      assert FindField(fields[..k], name) == if name in byName then Some(byName[name]) else None;
    }
  }

  ghost predicate FieldsEqualByMap(left: seq<Field>, byName: map<string, Value>) {
    forall k | 0 <= k < |left| :: left[k].name in byName && EqValue(left[k].value, byName[left[k].name])
  }

  lemma MapDecides(left: seq<Field>, right: seq<Field>, byName: map<string, Value>)
    requires FirstByName(right, |right|, byName) && |left| == |right|
    ensures FieldsEqual(left, right) <==> FieldsEqualByMap(left, byName)
  {
    hide FindField, EqValue;
    assert right[..|right|] == right;
    forall k | 0 <= k < |left|
      ensures FindField(right, left[k].name) == if left[k].name in byName then Some(byName[left[k].name]) else None
    {
    }
  }

  /** Wide structs are compared through a map of the right fields, narrow ones by scanning. */
  method StructFieldsEq(left: seq<Field>, right: seq<Field>) returns (equal: bool)
    ensures equal == EqValue(Struct(left), Struct(right))
  {
    hide FindField, FirstByName, EqValue;
    StructsEqual(left, right);
    if |left| != |right| {
      return false;
    }
    if |right| < 8 {
      return forall k | 0 <= k < |left| ::
          var found := FindField(right, left[k].name);
          found.Some? && EqValue(left[k].value, found.value);
    }
    hide FieldsEqual;
    var byName: map<string, Value> := map[];
    var i: nat := 0;
    FirstByNameNone(right);
    while i < |right|
      invariant i <= |right| && FirstByName(right, i, byName)
    {
      FirstByNameMore(right, i, byName);
      if right[i].name !in byName {
        byName := byName[right[i].name := right[i].value];
      }
      i := i + 1;
    }
    MapDecides(left, right, byName);
    return forall k | 0 <= k < |left| ::
        left[k].name in byName && EqValue(left[k].value, byName[left[k].name]);
  }
}

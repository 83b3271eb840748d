/**
 * Distinct values and set operations on lists: by hashing scalar keys where every value
 * has one, and by comparing all pairs otherwise. Both are proved to give the same lists.
 */
module Lists {
  import opened Wrappers
  import opened Sequences
  import opened Values

  // ---------------------------------------------------------------------------
  // Keys.

  /** A hashable stand-in; a number is keyed by its float with the sign of zero dropped. */
  datatype ScalarKey = NullKey | BoolKey(b: bool) | NumberKey(f: F64) | StrKey(s: string)

  function Key(v: Value): Option<ScalarKey> {
    match v
    case Null => Some(NullKey)
    case Bool(b) => Some(BoolKey(b))
    case Str(s) => Some(StrKey(s))
    case _ =>
      var number := AsF64(v);
      if number.None? || number.value.NaN? then None else Some(NumberKey(Canonical(number.value)))
  }

  predicate Keyable(values: seq<Value>) {
    forall k :: 0 <= k < |values| ==> Key(values[k]).Some?
  }

  /** Keys agree exactly when the values are equal; NaN, lists and structs have none. */
  lemma KeyExact(a: Value, b: Value)
    requires Key(a).Some? && Key(b).Some?
    ensures Key(a) == Key(b) <==> EqValue(a, b)
  {
    hide FloatOf;
  }

  /** A value has a key exactly when it is a scalar equal to itself. */
  lemma KeyDefined(a: Value)
    ensures Key(a).Some? <==> !a.List? && !a.Struct? && EqValue(a, a)
  {
    hide FloatOf;
  }

  // ---------------------------------------------------------------------------
  // Distinct values.

  predicate Contains(values: seq<Value>, needle: Value) {
    exists k :: 0 <= k < |values| && EqValue(values[k], needle)
  }

  /** `out` followed by those of `values` that equal nothing before them. */
  function UniqueOnto(out: seq<Value>, values: seq<Value>): seq<Value>
    decreases |values|
  {
    if values == [] then out
    else UniqueOnto(if Contains(out, values[0]) then out else out + [values[0]], values[1..])
  }

  function Distinct(values: seq<Value>): seq<Value> {
    UniqueOnto([], values)
  }

  lemma UniqueStep(out: seq<Value>, values: seq<Value>, k: nat)
    requires k < |values|
    ensures UniqueOnto(out, values[k..]) ==
            UniqueOnto(if Contains(out, values[k]) then out else out + [values[k]], values[k + 1..])
  {
    assert values[k..][0] == values[k] && values[k..][1..] == values[k + 1..];
  }

  method UniqueSlow(values: seq<Value>) returns (out: seq<Value>)
    ensures out == Distinct(values)
  {
    hide Contains;
    out := [];
    var k: nat := 0;
    assert values[0..] == values;
    while k < |values|
      invariant k <= |values| && UniqueOnto(out, values[k..]) == Distinct(values)
    {
      UniqueStep(out, values, k);
      if !Contains(out, values[k]) {
        out := out + [values[k]];
      }
      k := k + 1;
    }
  }

  /** `keys` holds the keys of the values. */
  ghost predicate KeysOf(keys: seq<ScalarKey>, values: seq<Value>) {
    |keys| == |values| && forall k :: 0 <= k < |values| ==> Key(values[k]) == Some(keys[k])
  }

  ghost predicate SeenKeys(seen: set<ScalarKey>, out: seq<Value>) {
    Keyable(out) && forall key :: key in seen <==> exists k :: 0 <= k < |out| && Key(out[k]) == Some(key)
  }

  /** Looking a key up is comparing with every value kept so far. */
  lemma SeenDecides(seen: set<ScalarKey>, out: seq<Value>, v: Value)
    requires SeenKeys(seen, out) && Key(v).Some?
    ensures Key(v).value in seen <==> Contains(out, v)
  {
    hide Key, EqValue;
    forall k | 0 <= k < |out|
      ensures Key(out[k]) == Key(v) <==> EqValue(out[k], v)
    {
      KeyExact(out[k], v);
    }
    if k :| 0 <= k < |out| && EqValue(out[k], v) {
      assert Key(out[k]) == Some(Key(v).value);
    }
  }

  lemma SeenMore(seen: set<ScalarKey>, out: seq<Value>, v: Value)
    requires SeenKeys(seen, out) && Key(v).Some?
    ensures SeenKeys(seen + {Key(v).value}, out + [v])
  {
    hide Key;
    var more, next := seen + {Key(v).value}, out + [v];
    forall key
      ensures key in more <==> exists k :: 0 <= k < |next| && Key(next[k]) == Some(key)
    {
      if key in seen {
        var k :| 0 <= k < |out| && Key(out[k]) == Some(key);
        assert next[k] == out[k];
      }
      if key == Key(v).value {
        assert next[|out|] == v;
      }
    }
  }

  lemma SeenNone()
    ensures SeenKeys({}, [])
  {
  }

  method UniqueByScalarKey(values: seq<Value>, keys: seq<ScalarKey>) returns (out: seq<Value>)
    requires KeysOf(keys, values)
    ensures out == Distinct(values)
  {
    hide Contains, SeenKeys, Key;
    var seen: set<ScalarKey> := {};
    out := [];
    var k: nat := 0;
    assert values[0..] == values;
    SeenNone();
    while k < |values|
      invariant k <= |values| && SeenKeys(seen, out) && UniqueOnto(out, values[k..]) == Distinct(values)
    {
      UniqueStep(out, values, k);
      SeenDecides(seen, out, values[k]);
      if keys[k] !in seen {
        SeenMore(seen, out, values[k]);
        seen := seen + {keys[k]};
        out := out + [values[k]];
      }
      k := k + 1;
    }
  }

  function AllKeys(values: seq<Value>): (r: Option<seq<ScalarKey>>)
    ensures r.Some? <==> Keyable(values)
    ensures r.Some? ==> KeysOf(r.value, values)
  {
    if values == [] then Some([]) else
    var init := AllKeys(values[..|values| - 1]);
    var last := Key(values[|values| - 1]);
    if init.None? || last.None? then None else Some(init.value + [last.value])
  }

  method Unique(values: seq<Value>) returns (out: seq<Value>)
    ensures out == Distinct(values)
  {
    var keys := AllKeys(values);
    if keys.Some? {
      out := UniqueByScalarKey(values, keys.value);
    } else {
      out := UniqueSlow(values);
    }
  }

  /** The values of keyed pairs. */
  function Payload(pairs: seq<(ScalarKey, Value)>): (r: seq<Value>)
    ensures |r| == |pairs| && forall k :: 0 <= k < |pairs| ==> r[k] == pairs[k].1
  {
    seq(|pairs|, k requires 0 <= k < |pairs| => pairs[k].1)
  }

  ghost predicate Keyed(pairs: seq<(ScalarKey, Value)>) {
    forall k :: 0 <= k < |pairs| ==> Key(pairs[k].1) == Some(pairs[k].0)
  }

  /** Distinct values with their keys, or nothing when some value has no key. */
  method KeyedUnique(values: seq<Value>) returns (r: Option<seq<(ScalarKey, Value)>>)
    ensures r.Some? <==> Keyable(values)
    ensures r.Some? ==> Keyed(r.value) && Payload(r.value) == Distinct(values)
  {
    hide Contains, SeenKeys, Key;
    var seen: set<ScalarKey> := {};
    var out: seq<(ScalarKey, Value)> := [];
    var k: nat := 0;
    assert values[0..] == values && Payload(out) == [];
    SeenNone();
    while k < |values|
      invariant k <= |values| && Keyable(values[..k]) && Keyed(out) && SeenKeys(seen, Payload(out))
      invariant UniqueOnto(Payload(out), values[k..]) == Distinct(values)
    {
      UniqueStep(Payload(out), values, k);
      var key := Key(values[k]);
      if key.None? {
        return None;
      }
      SeenDecides(seen, Payload(out), values[k]);
      if key.value !in seen {
        SeenMore(seen, Payload(out), values[k]);
        assert Payload(out + [(key.value, values[k])]) == Payload(out) + [values[k]];
        seen := seen + {key.value};
        out := out + [(key.value, values[k])];
      }
      k := k + 1;
    }
    return Some(out);
  }

  // ---------------------------------------------------------------------------
  // Set operations.

  datatype SetOp = Union | Intersection | Difference | SymmetricDifference

  /** The values that `other` contains, or those it does not. */
  function Keep(values: seq<Value>, other: seq<Value>, present: bool): seq<Value> {
    if values == [] then [] else
    (if Contains(other, values[0]) == present then [values[0]] else []) + Keep(values[1..], other, present)
  }

  /** The operation by comparing all pairs. */
  function SetByPairs(left: seq<Value>, right: seq<Value>, op: SetOp): seq<Value> {
    var l, r := Distinct(left), Distinct(right);
    match op
    case Union => Distinct(l + r)
    case Intersection => Keep(l, r, true)
    case Difference => Keep(l, r, false)
    case SymmetricDifference => Keep(l, r, false) + Keep(r, l, false)
  }

  function KeySet(pairs: seq<(ScalarKey, Value)>): (keys: set<ScalarKey>)
    ensures forall key :: key in keys <==> exists k :: 0 <= k < |pairs| && pairs[k].0 == key
  {
    set k | 0 <= k < |pairs| :: pairs[k].0
  }

  function KeepByKey(pairs: seq<(ScalarKey, Value)>, keys: set<ScalarKey>, present: bool): seq<Value> {
    if pairs == [] then [] else
    (if (pairs[0].0 in keys) == present then [pairs[0].1] else []) + KeepByKey(pairs[1..], keys, present)
  }

  /** The first pair of every key that has not been seen. */
  function FirstByKey(pairs: seq<(ScalarKey, Value)>, seen: set<ScalarKey>): seq<Value> {
    if pairs == [] then []
    else if pairs[0].0 in seen then FirstByKey(pairs[1..], seen)
    else [pairs[0].1] + FirstByKey(pairs[1..], seen + {pairs[0].0})
  }

  lemma KeySetDecides(pairs: seq<(ScalarKey, Value)>, v: Value)
    requires Keyed(pairs) && Key(v).Some?
    ensures Key(v).value in KeySet(pairs) <==> Contains(Payload(pairs), v)
  {
    hide Key, EqValue;
    forall k | 0 <= k < |pairs|
      ensures pairs[k].0 == Key(v).value <==> EqValue(Payload(pairs)[k], v)
    {
      KeyExact(pairs[k].1, v);
    }
    if Key(v).value in KeySet(pairs) {
      var k :| 0 <= k < |pairs| && pairs[k].0 == Key(v).value;
      assert EqValue(Payload(pairs)[k], v);
    }
  }

  lemma {:induction false} KeepAgrees(pairs: seq<(ScalarKey, Value)>, other: seq<(ScalarKey, Value)>, present: bool)
    requires Keyed(pairs) && Keyed(other)
    ensures KeepByKey(pairs, KeySet(other), present) == Keep(Payload(pairs), Payload(other), present)
  {
    hide Key, Contains;
    if pairs != [] {
      assert Key(pairs[0].1) == Some(pairs[0].0);
      KeySetDecides(other, pairs[0].1);
      KeepAgrees(pairs[1..], other, present);
      assert Payload(pairs)[1..] == Payload(pairs[1..]);
    }
  }

  lemma {:induction false} FirstAgrees(pairs: seq<(ScalarKey, Value)>, seen: set<ScalarKey>, out: seq<Value>)
    requires Keyed(pairs) && SeenKeys(seen, out)
    ensures out + FirstByKey(pairs, seen) == UniqueOnto(out, Payload(pairs))
    decreases |pairs|
  {
    hide Key, Contains, SeenKeys;
    if pairs != [] {
      var (key, v) := pairs[0];
      assert Key(v) == Some(key);
      SeenDecides(seen, out, v);
      assert Payload(pairs)[1..] == Payload(pairs[1..]);
      if key in seen {
        FirstAgrees(pairs[1..], seen, out);
      } else {
        SeenMore(seen, out, v);
        FirstAgrees(pairs[1..], seen + {key}, out + [v]);
        assert out + [v] + FirstByKey(pairs[1..], seen + {key}) == out + FirstByKey(pairs, seen);
      }
    }
  }

  lemma UnionAgrees(l: seq<(ScalarKey, Value)>, r: seq<(ScalarKey, Value)>)
    requires Keyed(l) && Keyed(r)
    ensures FirstByKey(l + r, {}) == Distinct(Payload(l) + Payload(r))
  {
    hide Key;
    assert Payload(l + r) == Payload(l) + Payload(r);
    assert SeenKeys({}, []);
    FirstAgrees(l + r, {}, []);
    assert [] + FirstByKey(l + r, {}) == FirstByKey(l + r, {});
  }

  /** The operation by hashed keys, when every value has one. */
  method SetByKeys(left: seq<Value>, right: seq<Value>, op: SetOp) returns (r: Option<seq<Value>>)
    ensures r.Some? <==> Keyable(left) && Keyable(right)
    ensures r.Some? ==> r.value == SetByPairs(left, right, op) && SetByPositions(op, left, right, r.value)
  {
    hide Keyable, Keyed, Key, Distinct, Keep, KeepByKey, KeySet, FirstByKey, Payload, SetByPositions;
    SetByIndex(left, right, op);
    var l := KeyedUnique(left);
    if l.None? {
      return None;
    }
    var k := KeyedUnique(right);
    if k.None? {
      return None;
    }
    match op {
      case Union =>
        UnionAgrees(l.value, k.value);
        return Some(FirstByKey(l.value + k.value, {}));
      case Intersection =>
        KeepAgrees(l.value, k.value, true);
        return Some(KeepByKey(l.value, KeySet(k.value), true));
      case Difference =>
        KeepAgrees(l.value, k.value, false);
        return Some(KeepByKey(l.value, KeySet(k.value), false));
      case SymmetricDifference =>
        KeepAgrees(l.value, k.value, false);
        KeepAgrees(k.value, l.value, false);
        return Some(KeepByKey(l.value, KeySet(k.value), false) + KeepByKey(k.value, KeySet(l.value), false));
    }
  }

  // ---------------------------------------------------------------------------
  // The operations by positions.

  /** Nothing earlier in the list equals the value at `k`. */
  ghost predicate FirstAt(values: seq<Value>, k: nat) {
    k < |values| && forall i :: 0 <= i < k ==> !EqValue(values[i], values[k])
  }

  /** Whether the left item at `k` is part of the result. */
  ghost predicate FromLeft(op: SetOp, left: seq<Value>, right: seq<Value>, k: nat) {
    FirstAt(left, k) &&
    match op
    case Union => true
    case Intersection => Contains(right, left[k])
    case Difference => !Contains(right, left[k])
    case SymmetricDifference => !Contains(right, left[k])
  }

  /** Whether the right item at `k` is part of the result. */
  ghost predicate FromRight(op: SetOp, left: seq<Value>, right: seq<Value>, k: nat) {
    (op.Union? || op.SymmetricDifference?) && FirstAt(right, k) && !Contains(left, right[k])
  }

  /** The result is those left items, in their order, followed by those right items, in theirs. */
  ghost predicate SetByPositions(op: SetOp, left: seq<Value>, right: seq<Value>, result: seq<Value>) {
    exists l, r :: Selected(op, left, right, l, r) && result == Items(left, l) + Items(right, r)
  }

  ghost predicate Selected(op: SetOp, left: seq<Value>, right: seq<Value>, l: seq<nat>, r: seq<nat>) {
    && Positions(l, |left|) && Positions(r, |right|)
    && (forall k: nat :: k in l <==> FromLeft(op, left, right, k))
    && (forall k: nat :: k in r <==> FromRight(op, left, right, k))
  }

  lemma {:induction false} UniqueOntoConcat(out: seq<Value>, a: seq<Value>, b: seq<Value>)
    ensures UniqueOnto(out, a + b) == UniqueOnto(UniqueOnto(out, a), b)
    decreases |a|
  {
    hide Contains;
    if a == [] {
      assert a + b == b;
    } else {
      assert (a + b)[0] == a[0] && (a + b)[1..] == a[1..] + b;
      UniqueOntoConcat(if Contains(out, a[0]) then out else out + [a[0]], a[1..], b);
    }
  }

  /** One more value is kept unless it equals a kept one. */
  lemma DistinctMore(values: seq<Value>, v: Value)
    ensures Distinct(values + [v]) == if Contains(Distinct(values), v) then Distinct(values) else Distinct(values) + [v]
  {
    hide Contains;
    UniqueOntoConcat([], values, [v]);
    assert [v][1..] == [];
  }

  /** A list contains a value exactly when its distinct values do. */
  lemma DistinctContains(values: seq<Value>, v: Value)
    ensures Contains(Distinct(values), v) <==> Contains(values, v)
  {
    hide EqValue;
    DistinctMeaning([], values);
    var kept := Distinct(values);
    if k :| 0 <= k < |kept| && EqValue(kept[k], v) {
      assert kept[k] in values;
    }
    if k :| 0 <= k < |values| && EqValue(values[k], v) {
      if values[k] !in kept {
        var i :| 0 <= i < |kept| && EqValue(kept[i], values[k]);
        EqTransitive(kept[i], values[k], v);
      }
    }
  }

  lemma FirstMore(values: seq<Value>, v: Value, k: nat)
    ensures k < |values| ==> (FirstAt(values + [v], k) <==> FirstAt(values, k))
    ensures FirstAt(values + [v], |values|) <==> !Contains(values, v)
  {
    hide EqValue;
    var more := values + [v];
    assert forall i :: 0 <= i < |values| ==> more[i] == values[i];
    if Contains(values, v) {
      var i :| 0 <= i < |values| && EqValue(values[i], v);
      assert EqValue(more[i], more[|values|]);
    }
    if k < |values| {
      FirstPrefix(values, more, k);
    }
  }

  lemma FirstPrefix(values: seq<Value>, more: seq<Value>, k: nat)
    requires values <= more && k < |values|
    ensures FirstAt(more, k) <==> FirstAt(values, k)
  {
    hide EqValue;
    assert forall i :: 0 <= i <= k ==> more[i] == values[i];
  }

  /** The distinct values are those at the positions of first occurrences. */
  lemma {:induction false} DistinctPositions(values: seq<Value>) returns (at: seq<nat>)
    ensures Positions(at, |values|) && Items(values, at) == Distinct(values)
    ensures forall k: nat :: k in at <==> FirstAt(values, k)
  {
    hide FirstAt, Contains, Distinct, Positions, Items;
    if values == [] {
      at := [];
      NothingFirst();
      NoItems<Value>([]);
    } else {
      var front, v := values[..|values| - 1], values[|values| - 1];
      assert values == front + [v];
      var before := DistinctPositions(front);
      DistinctMore(front, v);
      DistinctContains(front, v);
      ItemsMore(front, v, before);
      at := if Contains(front, v) then before else before + [|front|];
      FirstPositionsMore(front, v, before);
    }
  }

  lemma FirstPositionsMore(values: seq<Value>, v: Value, at: seq<nat>)
    requires forall k: nat :: k in at <==> FirstAt(values, k)
    ensures var more := if Contains(values, v) then at else at + [|values|];
            forall k: nat :: k in more <==> FirstAt(values + [v], k)
  {
    hide FirstAt, Contains;
    var more := if Contains(values, v) then at else at + [|values|];
    forall k: nat
      ensures k in more <==> FirstAt(values + [v], k)
    {
      FirstMore(values, v, k);
      FirstWithin(values, k);
      FirstWithin(values + [v], k);
    }
  }

  lemma NothingFirst()
    ensures Distinct([]) == [] && forall k: nat :: !FirstAt([], k)
  {
  }

  lemma FirstWithin(values: seq<Value>, k: nat)
    ensures FirstAt(values, k) ==> k < |values|
  {
  }

  /** Keeping some of the items keeps the positions of some. */
  lemma {:induction false} KeepPositions(values: seq<Value>, at: seq<nat>, other: seq<Value>, present: bool)
    returns (kept: seq<nat>)
    requires Positions(at, |values|)
    ensures Positions(kept, |values|) && Items(values, kept) == Keep(Items(values, at), other, present)
    ensures forall k: nat :: k in kept <==> k in at && k < |values| && Contains(other, values[k]) == present
  {
    hide Contains, Positions, Items, Keep;
    if at == [] {
      kept := [];
      NoItems(values);
      KeepNothing(other, present);
    } else {
      RestPositions(at, |values|);
      FirstPosition(values, at[0], at[1..]);
      assert at == [at[0]] + at[1..];
      var rest := KeepPositions(values, at[1..], other, present);
      FirstPosition(values, at[0], rest);
      kept := if Contains(other, values[at[0]]) == present then [at[0]] + rest else rest;
      KeepFirst(values[at[0]], Items(values, at[1..]), other, present);
      forall k: nat
        ensures k in kept <==> k in at && k < |values| && Contains(other, values[k]) == present
      {
        assert k in [at[0]] + rest <==> k == at[0] || k in rest;
      }
    }
  }

  lemma KeepFirst(v: Value, rest: seq<Value>, other: seq<Value>, present: bool)
    ensures Keep([v] + rest, other, present) ==
            if Contains(other, v) == present then [v] + Keep(rest, other, present) else Keep(rest, other, present)
  {
    hide Contains;
    assert ([v] + rest)[1..] == rest;
  }

  lemma KeepNothing(other: seq<Value>, present: bool)
    ensures Keep([], other, present) == []
  {
  }

  /** Values among which no two are equal are appended unless they equal one that is there. */
  lemma {:induction false} UniqueOntoKeep(out: seq<Value>, values: seq<Value>)
    requires forall i, j :: 0 <= i < j < |values| ==> !EqValue(values[i], values[j])
    ensures UniqueOnto(out, values) == out + Keep(values, out, false)
    decreases |values|
  {
    hide EqValue;
    if values != [] {
      var v, rest := values[0], values[1..];
      if Contains(out, v) {
        UniqueOntoKeep(out, rest);
      } else {
        UniqueOntoKeep(out + [v], rest);
        forall k | 0 <= k < |rest|
          ensures Contains(out, rest[k]) == Contains(out + [v], rest[k])
        {
          assert rest[k] == values[k + 1];
          ContainsMore(out, v, rest[k]);
        }
        KeepSame(rest, out, out + [v]);
        assert out + ([v] + Keep(rest, out, false)) == out + [v] + Keep(rest, out, false);
      }
    }
  }

  lemma ContainsMore(values: seq<Value>, v: Value, needle: Value)
    ensures Contains(values + [v], needle) <==> Contains(values, needle) || EqValue(v, needle)
  {
    hide EqValue;
    var more := values + [v];
    assert more[|values|] == v && forall i :: 0 <= i < |values| ==> more[i] == values[i];
    if Contains(values, needle) {
      var i :| 0 <= i < |values| && EqValue(values[i], needle);
      assert EqValue(more[i], needle);
    }
    if EqValue(v, needle) {
      assert EqValue(more[|values|], needle);
    }
  }

  lemma {:induction false} KeepSame(values: seq<Value>, a: seq<Value>, b: seq<Value>)
    requires forall k :: 0 <= k < |values| ==> Contains(a, values[k]) == Contains(b, values[k])
    ensures Keep(values, a, false) == Keep(values, b, false)
  {
    hide Contains;
    if values != [] {
      KeepSame(values[1..], a, b);
    }
  }

  lemma DistinctTwice(values: seq<Value>)
    ensures Distinct(Distinct(values)) == Distinct(values)
  {
    hide Contains, EqValue;
    DistinctMeaning([], values);
    UniqueOntoKeep([], Distinct(values));
    KeepAll(Distinct(values));
  }

  lemma {:induction false} KeepAll(values: seq<Value>)
    ensures Keep(values, [], false) == values
  {
    if values != [] {
      KeepAll(values[1..]);
    }
  }

  /** The union lists the distinct left values, then the distinct right ones that equal none of them. */
  lemma UnionParts(left: seq<Value>, right: seq<Value>)
    ensures SetByPairs(left, right, Union) == Distinct(left) + Keep(Distinct(right), Distinct(left), false)
  {
    hide Contains, EqValue, Keep, UniqueOnto;
    var l, r := Distinct(left), Distinct(right);
    UniqueOntoConcat([], l, r);
    DistinctTwice(left);
    DistinctMeaning([], right);
    UniqueOntoKeep(l, r);
  }

  /** Nothing on the left is kept, or something by what the right list contains. */
  lemma KeptPositions(values: seq<Value>, other: seq<Value>, present: bool) returns (at: seq<nat>)
    ensures Positions(at, |values|) && Items(values, at) == Keep(Distinct(values), Distinct(other), present)
    ensures forall k: nat :: k in at <==>
              k < |values| && FirstAt(values, k) && Contains(other, values[k]) == present
  {
    hide Contains, FirstAt, Positions, Items, Distinct, Keep;
    var first := DistinctPositions(values);
    at := KeepPositions(values, first, Distinct(other), present);
    forall k: nat | k < |values|
      ensures Contains(Distinct(other), values[k]) == Contains(other, values[k])
    {
      DistinctContains(other, values[k]);
    }
    forall k: nat
      ensures FirstAt(values, k) ==> k < |values|
    {
      FirstWithin(values, k);
    }
  }

  lemma BothSelected(op: SetOp, left: seq<Value>, right: seq<Value>, l: seq<nat>, r: seq<nat>)
    requires Positions(l, |left|) && Positions(r, |right|)
    requires forall k: nat :: k in l <==> FromLeft(op, left, right, k)
    requires forall k: nat :: k in r <==> FromRight(op, left, right, k)
    ensures (forall i :: 0 <= i < |l| ==> l[i] < |left|) && (forall i :: 0 <= i < |r| ==> r[i] < |right|)
    ensures Selected(op, left, right, l, r)
  {
    hide FromLeft, FromRight;
  }

  /** Every operation gives exactly the items at its positions, in order, whether the lists have keys or not. */
  lemma SetByIndex(left: seq<Value>, right: seq<Value>, op: SetOp)
    ensures SetByPositions(op, left, right, SetByPairs(left, right, op))
  {
    hide Contains, EqValue, Positions, Items, Distinct, Keep;
    NoItems(right);
    var l, r: seq<nat> := [], [];
    match op {
      case Union =>
        UnionParts(left, right);
        l := DistinctPositions(left);
        r := KeptPositions(right, left, false);
      case Intersection =>
        l := KeptPositions(left, right, true);
      case Difference =>
        l := KeptPositions(left, right, false);
      case SymmetricDifference =>
        l := KeptPositions(left, right, false);
        r := KeptPositions(right, left, false);
    }
    BothSelected(op, left, right, l, r);
    assert SetByPairs(left, right, op) == Items(left, l) + Items(right, r);
  }
  function ListArg(args: seq<Value>, index: nat): Result<Option<seq<Value>>, EvalError> {
    if index >= |args| then Err(MissingArgument(index))
    else if args[index].Null? then Ok(None)
    else if args[index].List? then Ok(Some(args[index].values))
    else Err(ExpectedList)
  }

  /** Null for a null list; otherwise the operation on both lists, whichever way it is computed. */
  method SetOperation(args: seq<Value>, op: SetOp) returns (r: Evaluated)
    ensures args == [] ==> r == Err(MissingArgument(0))
    ensures args != [] && args[0].Null? ==> r == Ok(Null)
    ensures args != [] && !args[0].Null? && !args[0].List? ==> r == Err(ExpectedList)
    ensures |args| == 1 && args[0].List? ==> r == Err(MissingArgument(1))
    ensures |args| > 1 && args[0].List? && args[1].Null? ==> r == Ok(Null)
    ensures |args| > 1 && args[0].List? && !args[1].Null? && !args[1].List? ==> r == Err(ExpectedList)
    ensures |args| > 1 && args[0].List? && args[1].List? ==>
              && r.Ok? && r.value.List?
              && r.value.values == SetByPairs(args[0].values, args[1].values, op)
              && SetByPositions(op, args[0].values, args[1].values, r.value.values)
  {
    hide Distinct, Keep, Contains, SetByPositions;
    var first := ListArg(args, 0);
    if first.Err? {
      return Err(first.error);
    }
    if first.value.None? {
      return Ok(Null);
    }
    var second := ListArg(args, 1);
    if second.Err? {
      return Err(second.error);
    }
    if second.value.None? {
      return Ok(Null);
    }
    var left, right := first.value.value, second.value.value;
    SetByIndex(left, right, op);
    var keyed := SetByKeys(left, right, op);
    if keyed.Some? {
      return Ok(List(keyed.value));
    }
    left := UniqueSlow(left);
    right := UniqueSlow(right);
    match op {
      case Union =>
        var all := UniqueSlow(left + right);
        return Ok(List(all));
      case Intersection => return Ok(List(Keep(left, right, true)));
      case Difference => return Ok(List(Keep(left, right, false)));
      case SymmetricDifference => return Ok(List(Keep(left, right, false) + Keep(right, left, false)));
    }
  }

  // ---------------------------------------------------------------------------
  // What the results are.

  /** The keys of a keyable list. */
  ghost function Keys(values: seq<Value>): (r: set<ScalarKey>)
    ensures forall key :: key in r <==> exists k :: 0 <= k < |values| && Key(values[k]) == Some(key)
  {
    set k | 0 <= k < |values| && Key(values[k]).Some? :: Key(values[k]).value
  }

  /** No two values share a key. */
  ghost predicate NoTwins(values: seq<Value>) {
    forall i, j :: 0 <= i < j < |values| ==> Key(values[i]) != Key(values[j])
  }

  lemma ContainsKey(values: seq<Value>, v: Value)
    requires Keyable(values) && Key(v).Some?
    ensures Contains(values, v) <==> Key(v).value in Keys(values)
  {
    hide Key, EqValue;
    forall k | 0 <= k < |values|
      ensures Key(values[k]) == Key(v) <==> EqValue(values[k], v)
    {
      KeyExact(values[k], v);
    }
    if Key(v).value in Keys(values) {
      var k :| 0 <= k < |values| && Key(values[k]) == Some(Key(v).value);
      assert EqValue(values[k], v);
    }
    if Contains(values, v) {
      var k :| 0 <= k < |values| && EqValue(values[k], v);
      assert Key(values[k]) == Some(Key(v).value);
    }
  }

  lemma KeysConcat(a: seq<Value>, b: seq<Value>)
    ensures Keys(a + b) == Keys(a) + Keys(b)
  {
    hide Key;
    forall key
      ensures key in Keys(a + b) <==> key in Keys(a) + Keys(b)
    {
      if key in Keys(a) {
        var k :| 0 <= k < |a| && Key(a[k]) == Some(key);
        assert (a + b)[k] == a[k];
      }
      if key in Keys(b) {
        var k :| 0 <= k < |b| && Key(b[k]) == Some(key);
        assert (a + b)[|a| + k] == b[k];
      }
      if key in Keys(a + b) {
        var k :| 0 <= k < |a + b| && Key((a + b)[k]) == Some(key);
        assert if k < |a| then Key(a[k]) == Some(key) else Key(b[k - |a|]) == Some(key);
      }
    }
  }

  lemma KeysOne(v: Value)
    requires Key(v).Some?
    ensures Keys([v]) == {Key(v).value}
  {
    assert [v][0] == v;
  }

  lemma KeysNone()
    ensures Keys([]) == {}
  {
  }

  /** Lists without twins and without a common key have no twins together. */
  lemma TwinsJoin(a: seq<Value>, b: seq<Value>)
    requires Keyable(a) && Keyable(b) && NoTwins(a) && NoTwins(b) && Keys(a) !! Keys(b)
    ensures NoTwins(a + b)
  {
    hide Key;
    var all := a + b;
    forall i, j | 0 <= i < j < |all|
      ensures Key(all[i]) != Key(all[j])
    {
      if i < |a| <= j {
        assert Key(a[i]).value in Keys(a) && Key(b[j - |a|]).value in Keys(b);
      }
    }
  }

  lemma HeadApart(values: seq<Value>)
    requires Keyable(values) && NoTwins(values) && values != []
    ensures Key(values[0]).value !in Keys(values[1..])
  {
    hide Key;
    forall k | 0 <= k < |values[1..]|
      ensures Key(values[1..][k]) != Key(values[0])
    {
      assert values[1..][k] == values[k + 1];
    }
  }

  lemma {:induction false} UniqueOntoKeys(out: seq<Value>, values: seq<Value>)
    requires Keyable(out) && Keyable(values) && NoTwins(out)
    ensures var r := UniqueOnto(out, values);
            Keyable(r) && NoTwins(r) && out <= r && Keys(r) == Keys(out) + Keys(values)
    decreases |values|
  {
    hide Key, Contains, Keys;
    if values != [] {
      var v := values[0];
      assert values == [v] + values[1..];
      KeysOne(v);
      KeysConcat([v], values[1..]);
      ContainsKey(out, v);
      if Contains(out, v) {
        UniqueOntoKeys(out, values[1..]);
      } else {
        KeysConcat(out, [v]);
        TwinsJoin(out, [v]);
        UniqueOntoKeys(out + [v], values[1..]);
      }
    } else {
      KeysNone();
    }
  }

  lemma {:induction false} KeepKeys(values: seq<Value>, other: seq<Value>, present: bool)
    requires Keyable(values) && Keyable(other) && NoTwins(values)
    ensures var r := Keep(values, other, present);
            && Keyable(r) && NoTwins(r)
            && Keys(r) == if present then Keys(values) * Keys(other) else Keys(values) - Keys(other)
  {
    hide Key, Contains, Keys;
    if values != [] {
      var v, rest := values[0], values[1..];
      assert values == [v] + rest;
      KeysOne(v);
      HeadApart(values);
      KeysConcat([v], rest);
      ContainsKey(other, v);
      KeepKeys(rest, other, present);
      var kept := Keep(rest, other, present);
      KeysConcat([v], kept);
      assert Key(v).value !in Keys(kept);
      TwinsJoin([v], kept);
      assert [] + kept == kept;
    } else {
      KeysNone();
    }
  }

  /** On lists of keyable values the operations are the set operations, and no value comes twice. */
  lemma SetMeaning(left: seq<Value>, right: seq<Value>, op: SetOp)
    requires Keyable(left) && Keyable(right)
    ensures var r := SetByPairs(left, right, op);
            && Keyable(r) && NoTwins(r)
            && Keys(r) == match op
                 case Union => Keys(left) + Keys(right)
                 case Intersection => Keys(left) * Keys(right)
                 case Difference => Keys(left) - Keys(right)
                 case SymmetricDifference => (Keys(left) - Keys(right)) + (Keys(right) - Keys(left))
  {
    hide Key, Contains, UniqueOnto, Keep, Keys;
    KeysNone();
    UniqueOntoKeys([], left);
    UniqueOntoKeys([], right);
    var l, r := Distinct(left), Distinct(right);
    match op {
      case Union =>
        KeysConcat(l, r);
        UniqueOntoKeys([], l + r);
      case Intersection => KeepKeys(l, r, true);
      case Difference => KeepKeys(l, r, false);
      case SymmetricDifference =>
        KeepKeys(l, r, false);
        KeepKeys(r, l, false);
        KeysConcat(Keep(l, r, false), Keep(r, l, false));
        TwinsJoin(Keep(l, r, false), Keep(r, l, false));
    }
  }

  /** Whatever the values, the distinct ones keep their order, none equals an earlier one, and none is lost. */
  lemma {:induction false} DistinctMeaning(out: seq<Value>, values: seq<Value>)
    requires forall i, j :: 0 <= i < j < |out| ==> !EqValue(out[i], out[j])
    ensures var r := UniqueOnto(out, values);
            && out <= r
            && (forall i, j :: 0 <= i < j < |r| ==> !EqValue(r[i], r[j]))
            && (forall k :: 0 <= k < |values| ==> values[k] in r || Contains(r, values[k]))
            && (forall k :: |out| <= k < |r| ==> r[k] in values)
    decreases |values|
  {
    hide EqValue;
    if values != [] {
      var next := if Contains(out, values[0]) then out else out + [values[0]];
      DistinctMeaning(next, values[1..]);
      var r := UniqueOnto(out, values);
      if Contains(out, values[0]) {
        var k :| 0 <= k < |out| && EqValue(out[k], values[0]);
        assert r[k] == out[k];
      } else {
        assert r[|out|] == values[0];
      }
      forall k | 0 <= k < |values|
        ensures values[k] in r || Contains(r, values[k])
      {
        assert k > 0 ==> values[k] == values[1..][k - 1];
      }
      forall k | |out| <= k < |r|
        ensures r[k] in values
      {
        if k >= |next| {
          assert r[k] in values[1..];
        }
      }
    }
  }
}

/** Stable sorting and dropping repeats, for any order. */
module Sorting {
  /** `above` orders: never both ways, and not standing above is transitive. */
  ghost predicate Orders<T(!new)>(above: (T, T) -> bool) {
    && (forall a, b :: above(a, b) ==> !above(b, a))
    && (forall a, b, c :: !above(a, b) && !above(b, c) ==> !above(a, c))
  }

  /** Neither stands above the other. */
  predicate Tied<T>(a: T, b: T, above: (T, T) -> bool) {
    !above(a, b) && !above(b, a)
  }

  ghost predicate InOrder<T>(s: seq<T>, above: (T, T) -> bool) {
    forall i, j :: 0 <= i < j < |s| ==> !above(s[i], s[j])
  }

  /** Insert behind everything that `x` is not below. */
  function Insert<T>(s: seq<T>, x: T, above: (T, T) -> bool): seq<T> {
    if s == [] then [x]
    else if above(s[0], x) then [x] + s
    else [s[0]] + Insert(s[1..], x, above)
  }

  function Sorted<T>(s: seq<T>, above: (T, T) -> bool): seq<T> {
    if s == [] then [] else Insert(Sorted(s[..|s| - 1], above), s[|s| - 1], above)
  }

  /** The items tied with `x`, in their order. */
  ghost function Ties<T>(s: seq<T>, x: T, above: (T, T) -> bool): seq<T> {
    if s == [] then [] else (if Tied(s[0], x, above) then [s[0]] else []) + Ties(s[1..], x, above)
  }

  lemma {:induction false} TiesAppend<T>(s: seq<T>, y: T, x: T, above: (T, T) -> bool)
    ensures Ties(s + [y], x, above) == Ties(s, x, above) + if Tied(y, x, above) then [y] else []
  {
    hide Tied;
    if s == [] {
      assert (s + [y])[1..] == [];
    } else {
      assert (s + [y])[1..] == s[1..] + [y];
      TiesAppend(s[1..], y, x, above);
    }
  }

  lemma {:induction false} NoTies<T>(s: seq<T>, x: T, above: (T, T) -> bool)
    requires forall i :: 0 <= i < |s| ==> !Tied(s[i], x, above)
    ensures Ties(s, x, above) == []
  {
    if s != [] {
      NoTies(s[1..], x, above);
    }
  }

  lemma {:induction false} InsertPermutes<T>(s: seq<T>, x: T, above: (T, T) -> bool)
    ensures multiset(Insert(s, x, above)) == multiset(s) + multiset{x}
  {
    if s != [] {
      assert s == [s[0]] + s[1..];
      if !above(s[0], x) {
        InsertPermutes(s[1..], x, above);
      }
    }
  }

  lemma MemberOf<T>(a: seq<T>, s: seq<T>, x: T, k: nat)
    requires k < |a| && multiset(a) == multiset(s) + multiset{x}
    ensures a[k] == x || a[k] in s
  {
    assert a[k] in multiset(a);
  }

  lemma PrependInOrder<T>(x: T, s: seq<T>, above: (T, T) -> bool)
    requires InOrder(s, above) && forall j :: 0 <= j < |s| ==> !above(x, s[j])
    ensures InOrder([x] + s, above)
  {
  }

  lemma {:induction false} InsertInOrder<T(!new)>(s: seq<T>, x: T, above: (T, T) -> bool)
    requires Orders(above) && InOrder(s, above)
    ensures InOrder(Insert(s, x, above), above)
  {
    hide InOrder;
    if s != [] {
      FirstLowest(s, above);
      if above(s[0], x) {
        PrependInOrder(x, s, above);
      } else {
        var rest := Insert(s[1..], x, above);
        TailInOrder(s, above);
        InsertInOrder(s[1..], x, above);
        InsertPermutes(s[1..], x, above);
        forall j | 0 <= j < |rest|
          ensures !above(s[0], rest[j])
        {
          MemberOf(rest, s[1..], x, j);
        }
        PrependInOrder(s[0], rest, above);
      }
    } else {
      SingleInOrder(x, above);
    }
  }

  lemma SingleInOrder<T>(x: T, above: (T, T) -> bool)
    ensures InOrder([x], above)
  {
  }

  lemma TailInOrder<T>(s: seq<T>, above: (T, T) -> bool)
    requires InOrder(s, above) && s != []
    ensures InOrder(s[1..], above)
  {
  }

  lemma FirstLowest<T(!new)>(s: seq<T>, above: (T, T) -> bool)
    requires Orders(above) && InOrder(s, above) && s != []
    ensures forall j :: 0 <= j < |s| ==> !above(s[0], s[j])
  {
  }

  lemma TiesFirst<T>(v: T, rest: seq<T>, x: T, above: (T, T) -> bool)
    ensures Ties([v] + rest, x, above) == (if Tied(v, x, above) then [v] else []) + Ties(rest, x, above)
  {
    assert ([v] + rest)[1..] == rest;
  }

  /** What is above the first of ordered items ties with none that something below it ties with. */
  lemma NoneTied<T(!new)>(s: seq<T>, y: T, x: T, above: (T, T) -> bool)
    requires Orders(above) && InOrder(s, above) && s != [] && above(s[0], y) && Tied(y, x, above)
    ensures Ties(s, x, above) == []
  {
    FirstLowest(s, above);
    forall j | 0 <= j < |s|
      ensures !Tied(s[j], x, above)
    {
      assert !above(s[0], s[j]);
    }
    NoTies(s, x, above);
  }

  lemma {:induction false} InsertTies<T(!new)>(s: seq<T>, y: T, x: T, above: (T, T) -> bool)
    requires Orders(above) && InOrder(s, above)
    ensures Ties(Insert(s, y, above), x, above) == Ties(s, x, above) + if Tied(y, x, above) then [y] else []
  {
    hide Ties, Tied, Orders, InOrder;
    TiesFirst(y, s, x, above);
    NothingTied(x, above);
    if s != [] {
      if above(s[0], y) {
        if Tied(y, x, above) {
          NoneTied(s, y, x, above);
        }
      } else {
        TailInOrder(s, above);
        assert s == [s[0]] + s[1..];
        TiesFirst(s[0], s[1..], x, above);
        TiesFirst(s[0], Insert(s[1..], y, above), x, above);
        InsertTies(s[1..], y, x, above);
        var first, rest := if Tied(s[0], x, above) then [s[0]] else [], Ties(s[1..], x, above);
        var last := if Tied(y, x, above) then [y] else [];
        assert first + (rest + last) == first + rest + last;
      }
    } else {
      assert [y] + s == [y];
    }
  }

  lemma NothingTied<T>(x: T, above: (T, T) -> bool)
    ensures Ties([], x, above) == []
  {
  }

  /** Sorting is a permutation in order that keeps the order of ties. */
  lemma {:induction false} SortedExact<T(!new)>(s: seq<T>, above: (T, T) -> bool)
    requires Orders(above)
    ensures InOrder(Sorted(s, above), above) && multiset(Sorted(s, above)) == multiset(s)
    ensures forall x :: Ties(Sorted(s, above), x, above) == Ties(s, x, above)
  {
    if s != [] {
      var init, last := s[..|s| - 1], s[|s| - 1];
      assert s == init + [last];
      SortedExact(init, above);
      InsertInOrder(Sorted(init, above), last, above);
      InsertPermutes(Sorted(init, above), last, above);
      forall x
        ensures Ties(Sorted(s, above), x, above) == Ties(s, x, above)
      {
        InsertTies(Sorted(init, above), last, x, above);
        TiesAppend(init, last, x, above);
      }
    }
  }

  lemma SameMembers<T>(a: seq<T>, b: seq<T>)
    requires multiset(a) == multiset(b)
    ensures forall x :: x in a <==> x in b
  {
    assert forall x :: x in a <==> x in multiset(a);
    assert forall x :: x in b <==> x in multiset(b);
  }

  /** Drop every item that equals the one behind it. */
  function Dedup<T(==)>(s: seq<T>): (r: seq<T>)
    ensures s != [] ==> r != [] && r[0] == s[0]
  {
    if |s| <= 1 then s
    else if s[0] == s[1] then Dedup(s[1..])
    else [s[0]] + Dedup(s[1..])
  }

  lemma {:induction false} DedupMembers<T>(s: seq<T>)
    ensures forall x :: x in Dedup(s) <==> x in s
  {
    if |s| > 1 {
      DedupMembers(s[1..]);
      assert s == [s[0]] + s[1..];
    }
  }

  /** Of items in order, one of each is left, strictly in order. */
  lemma {:induction false} DedupStrict<T(!new)>(s: seq<T>, above: (T, T) -> bool)
    requires Orders(above) && InOrder(s, above) && forall a, b :: Tied(a, b, above) ==> a == b
    ensures forall i, j :: 0 <= i < j < |Dedup(s)| ==> above(Dedup(s)[j], Dedup(s)[i])
  {
    if |s| > 1 {
      DedupStrict(s[1..], above);
      if s[0] != s[1] {
        var rest := Dedup(s[1..]);
        DedupMembers(s[1..]);
        forall j | 0 <= j < |rest|
          ensures above(rest[j], s[0])
        {
          assert rest[j] in s[1..];
          var k :| 0 <= k < |s[1..]| && s[1..][k] == rest[j];
          assert !above(s[0], s[k + 1]) && !above(s[0], s[1]) && (k > 0 ==> !above(s[1], s[k + 1]));
          assert !Tied(s[0], s[1], above) && (s[0] != rest[j] ==> !Tied(s[0], rest[j], above));
        }
      }
    }
  }
}

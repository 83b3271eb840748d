/** Reversing, as done to every path that is read back through parents, and adding up. */
module Sequences {
  function Reversed<T>(s: seq<T>): (r: seq<T>)
    ensures |r| == |s|
  {
    if s == [] then [] else Reversed(s[1..]) + [s[0]]
  }

  lemma ReversedNothing<T>()
    ensures Reversed<T>([]) == []
  {
  }

  lemma {:induction false} ReversedAt<T>(s: seq<T>, i: nat)
    requires i < |s|
    ensures Reversed(s)[i] == s[|s| - 1 - i]
  {
    if i < |s| - 1 {
      ReversedAt(s[1..], i);
    }
  }

  lemma ReversedEnds<T>(s: seq<T>)
    requires s != []
    ensures Reversed(s)[0] == s[|s| - 1] && Reversed(s)[|s| - 1] == s[0]
  {
    ReversedAt(s, 0);
    ReversedAt(s, |s| - 1);
  }

  lemma {:induction false} ReversedAppend<T>(s: seq<T>, x: T)
    ensures Reversed(s + [x]) == [x] + Reversed(s)
  {
    if s == [] {
      assert [x][1..] == [];
    } else {
      assert (s + [x])[1..] == s[1..] + [x] && (s + [x])[0] == s[0];
      ReversedAppend(s[1..], x);
    }
  }

  lemma InitLast<T>(s: seq<T>)
    requires s != []
    ensures s == s[..|s| - 1] + [s[|s| - 1]]
  {
  }

  lemma ReversedLast<T>(s: seq<T>)
    requires s != []
    ensures Reversed(s) == [s[|s| - 1]] + Reversed(s[..|s| - 1])
  {
    hide Reversed;
    InitLast(s);
    ReversedAppend(s[..|s| - 1], s[|s| - 1]);
  }

  function Sum(s: seq<nat>): nat {
    if s == [] then 0 else Sum(s[..|s| - 1]) + s[|s| - 1]
  }

  lemma SumNothing()
    ensures Sum([]) == 0
  {
  }

  lemma SumAppend(s: seq<nat>, x: nat)
    ensures Sum(s + [x]) == Sum(s) + x
  {
    assert (s + [x])[..|s|] == s;
  }

  lemma {:induction false} SumUpdate(s: seq<nat>, i: nat, x: nat)
    requires i < |s|
    ensures Sum(s[i := x]) == Sum(s) - s[i] + x
  {
    var last := |s| - 1;
    if i < last {
      assert s[i := x][..last] == s[..last][i := x];
      SumUpdate(s[..last], i, x);
    } else {
      assert s[i := x][..last] == s[..last];
    }
  }

  // ---------------------------------------------------------------------------
  // Some of the items of a sequence, by their positions.

  /** Strictly ascending positions in a sequence of length `n`. */
  ghost predicate Positions(at: seq<nat>, n: nat) {
    && (forall i, j :: 0 <= i < j < |at| ==> at[i] < at[j])
    && forall i :: 0 <= i < |at| ==> at[i] < n
  }

  /** The items at those positions. */
  ghost function Items<T>(s: seq<T>, at: seq<nat>): (r: seq<T>)
    requires forall i :: 0 <= i < |at| ==> at[i] < |s|
    ensures |r| == |at|
  {
    seq(|at|, i requires 0 <= i < |at| => s[at[i]])
  }

  lemma NoItems<T>(s: seq<T>)
    ensures Positions([], |s|) && Items(s, []) == []
  {
  }

  lemma ItemsMore<T>(s: seq<T>, x: T, at: seq<nat>)
    requires Positions(at, |s|)
    ensures Items(s + [x], at) == Items(s, at) && Items(s + [x], at + [|s|]) == Items(s, at) + [x]
    ensures Positions(at, |s| + 1) && Positions(at + [|s|], |s| + 1)
  {
  }

  lemma RestPositions(at: seq<nat>, n: nat)
    requires Positions(at, n) && at != []
    ensures at[0] < n && Positions(at[1..], n) && forall k: nat :: k in at[1..] ==> at[0] < k
    ensures forall k: nat :: k in at <==> k == at[0] || k in at[1..]
  {
    assert at == [at[0]] + at[1..];
  }

  lemma FirstPosition<T>(s: seq<T>, k: nat, rest: seq<nat>)
    requires k < |s| && Positions(rest, |s|) && forall i :: i in rest ==> k < i
    ensures Positions([k] + rest, |s|) && Items(s, [k] + rest) == [s[k]] + Items(s, rest)
  {
    assert forall i :: 0 <= i < |rest| ==> rest[i] in rest;
  }

  /** The same positions in a sequence with one more item in front. */
  ghost function Shifted(at: seq<nat>): (r: seq<nat>)
    ensures |r| == |at| && forall i :: 0 <= i < |at| ==> r[i] == at[i] + 1
    ensures forall k: nat :: k in r <==> k > 0 && k - 1 in at
  {
    if at == [] then [] else
    assert at == [at[0]] + at[1..];
    [at[0] + 1] + Shifted(at[1..])
  }

  lemma ShiftedItems<T>(s: seq<T>, at: seq<nat>)
    requires s != [] && Positions(at, |s| - 1)
    ensures Positions(Shifted(at), |s|) && Items(s, Shifted(at)) == Items(s[1..], at)
  {
  }
}

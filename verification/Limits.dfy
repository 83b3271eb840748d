/**
 * What a limit on the number of paths makes of a run: the run stops right after the last
 * path asked for, and what would come later, faults included, never happens.
 */
module Limits {
  import opened Wrappers
  import opened Enumeration

  /** The first `maxPaths` of all deliveries. */
  ghost function Limited(all: seq<Walk>, maxPaths: Option<nat>): seq<Walk> {
    if maxPaths.Some? && maxPaths.value < |all| then all[..maxPaths.value] else all
  }

  /** The beginning of a run up to its `maxPaths`-th path. */
  ghost function Cut(full: seq<Event>, maxPaths: Option<nat>): seq<Event> {
    if full == [] || maxPaths == Some(0) then [] else
    [full[0]] + Cut(full[1..], Left(full[0], maxPaths))
  }

  /** How many paths are still asked for after `e`. */
  ghost function Left(e: Event, maxPaths: Option<nat>): Option<nat>
    requires maxPaths != Some(0)
  {
    if maxPaths.Some? && e.Finish? then Some(maxPaths.value - 1) else maxPaths
  }

  /** `maxPaths` paths have been found. */
  ghost predicate Enough(log: seq<Event>, maxPaths: Option<nat>) {
    maxPaths.Some? && |Finished(log)| >= maxPaths.value
  }

  /** No shorter beginning of `log` would have been enough. */
  ghost predicate Tight(log: seq<Event>, maxPaths: Option<nat>) {
    log != [] ==> !Enough(log[..|log| - 1], maxPaths)
  }

  /** A limited run delivers the first `maxPaths` paths. */
  lemma {:induction false} CutFinishes(full: seq<Event>, maxPaths: Option<nat>)
    ensures Finished(Cut(full, maxPaths)) == Limited(Finished(full), maxPaths)
  {
    if full != [] && maxPaths != Some(0) {
      CutFinishes(full[1..], Left(full[0], maxPaths));
      assert Cut(full, maxPaths)[1..] == Cut(full[1..], Left(full[0], maxPaths));
    }
  }

  /** Without a limit the whole run happens. */
  lemma {:induction false} CutNothing(full: seq<Event>)
    ensures Cut(full, None) == full
  {
    if full != [] {
      CutNothing(full[1..]);
    }
  }

  lemma EnoughNext(log: seq<Event>, maxPaths: Option<nat>)
    requires log != [] && maxPaths != Some(0)
    ensures Enough(log, maxPaths) == Enough(log[1..], Left(log[0], maxPaths))
  {
  }

  /** A run stops no later than it has found enough. */
  lemma {:induction false} CutWithin(log: seq<Event>, full: seq<Event>, maxPaths: Option<nat>)
    requires log <= full && (log == full || Enough(log, maxPaths))
    ensures Cut(full, maxPaths) <= log
  {
    if full != [] && maxPaths != Some(0) {
      assert log != [];
      EnoughNext(log, maxPaths);
      CutWithin(log[1..], full[1..], Left(full[0], maxPaths));
    }
  }

  /** A run does not stop before it has found enough. */
  lemma {:induction false} CutReaches(log: seq<Event>, full: seq<Event>, maxPaths: Option<nat>)
    requires log < full && !Enough(log, maxPaths)
    ensures log + [full[|log|]] <= Cut(full, maxPaths)
  {
    if log != [] {
      EnoughNext(log, maxPaths);
      CutReaches(log[1..], full[1..], Left(full[0], maxPaths));
      assert log + [full[|log|]] == [full[0]] + (log[1..] + [full[1..][|log| - 1]]);
    }
  }

  /** What has happened when a run ends is exactly the limited run. */
  lemma CutExact(log: seq<Event>, full: seq<Event>, maxPaths: Option<nat>)
    requires log <= full && Tight(log, maxPaths) && (log == full || Enough(log, maxPaths))
    ensures log == Cut(full, maxPaths)
  {
    CutWithin(log, full, maxPaths);
    if log != [] {
      var shorter := log[..|log| - 1];
      CutReaches(shorter, full, maxPaths);
      assert |Cut(full, maxPaths)| == |log|;
    }
  }

  /** Exactly those events happen before which enough has not been found. */
  lemma CutMembers(full: seq<Event>, maxPaths: Option<nat>, j: nat)
    requires j < |full|
    ensures Cut(full, maxPaths) <= full
    ensures j < |Cut(full, maxPaths)| <==> !Enough(full[..j], maxPaths)
  {
    CutWithin(full, full, maxPaths);
    if Enough(full[..j], maxPaths) {
      CutWithin(full[..j], full, maxPaths);
    } else {
      CutReaches(full[..j], full, maxPaths);
    }
  }

  lemma TightMore(log: seq<Event>, e: Event, maxPaths: Option<nat>)
    requires !Enough(log, maxPaths)
    ensures Tight(log + [e], maxPaths)
  {
    assert (log + [e])[..|log|] == log;
  }

  lemma TightBelow(log: seq<Event>, maxPaths: Option<nat>)
    requires !Enough(log, maxPaths)
    ensures Tight(log, maxPaths)
  {
    if log != [] {
      FinishedPrefix(log[..|log| - 1], log);
    }
  }

  /** A fault that comes next, before enough has been found, belongs to the limited run. */
  lemma FaultMet(log: seq<Event>, full: seq<Event>, maxPaths: Option<nat>)
    requires FaultNext(log, full) && !Enough(log, maxPaths)
    ensures HasFault(Cut(full, maxPaths))
  {
    CutReaches(log, full, maxPaths);
    assert Cut(full, maxPaths)[|log|] == (log + [full[|log|]])[|log|];
  }

  lemma FaultOfCut(full: seq<Event>, maxPaths: Option<nat>)
    requires HasFault(Cut(full, maxPaths))
    ensures HasFault(full)
  {
    CutWithin(full, full, maxPaths);
    var k :| 0 <= k < |Cut(full, maxPaths)| && IsFault(Cut(full, maxPaths)[k]);
    assert full[k] == Cut(full, maxPaths)[k];
  }

  /** A fault is among the `count` events that come after `from` others. */
  ghost predicate FaultAmong(full: seq<Event>, from: nat, count: nat) {
    exists k :: from <= k < from + count && k < |full| && IsFault(full[k])
  }

  /** A fault belongs to the limited run or to the `ahead` events behind it. */
  ghost predicate FaultNear(full: seq<Event>, maxPaths: Option<nat>, ahead: nat) {
    FaultAmong(full, 0, |Cut(full, maxPaths)| + ahead)
  }

  lemma NearCut(full: seq<Event>, maxPaths: Option<nat>, ahead: nat)
    requires HasFault(Cut(full, maxPaths))
    ensures FaultNear(full, maxPaths, ahead)
  {
    CutWithin(full, full, maxPaths);
    var k :| 0 <= k < |Cut(full, maxPaths)| && IsFault(Cut(full, maxPaths)[k]);
    assert full[k] == Cut(full, maxPaths)[k];
  }

  /** Before enough has been found, the next `count` events reach less than `count` behind the limited run. */
  lemma NearAhead(log: seq<Event>, full: seq<Event>, maxPaths: Option<nat>, count: nat)
    requires log <= full && !Enough(log, maxPaths) && count >= 1 && FaultAmong(full, |log|, count)
    ensures FaultNear(full, maxPaths, count - 1)
  {
    CutReaches(log, full, maxPaths);
  }

  /** With no events behind it, or without a limit, that is a fault of the limited run. */
  lemma NearNothing(full: seq<Event>, maxPaths: Option<nat>, ahead: nat)
    requires FaultNear(full, maxPaths, ahead) && (ahead == 0 || maxPaths.None?)
    ensures HasFault(Cut(full, maxPaths))
  {
    CutWithin(full, full, maxPaths);
    if maxPaths.None? {
      CutNothing(full);
    }
    var k :| 0 <= k < |Cut(full, maxPaths)| + ahead && k < |full| && IsFault(full[k]);
    assert full[k] == Cut(full, maxPaths)[k] && Cut(full, maxPaths)[k] in Cut(full, maxPaths);
  }

  /** A run that has found enough, or is over, without a fault was not to meet one. */
  lemma NoFaultMet(log: seq<Event>, full: seq<Event>, maxPaths: Option<nat>)
    requires log <= full && NoFault(log) && (log == full || Enough(log, maxPaths))
    ensures !HasFault(Cut(full, maxPaths))
  {
    CutWithin(log, full, maxPaths);
    forall e | e in Cut(full, maxPaths)
      ensures !IsFault(e)
    {
      var k :| 0 <= k < |Cut(full, maxPaths)| && Cut(full, maxPaths)[k] == e;
      assert log[k] == e;
    }
  }

  /** What has been found within the limit is the beginning of what is expected. */
  lemma LimitedPrefix(log: seq<Event>, full: seq<Event>, maxPaths: Option<nat>)
    requires log <= full
    requires maxPaths.Some? ==> |Finished(log)| <= maxPaths.value
    ensures Finished(log) <= Limited(Finished(full), maxPaths)
  {
    FinishedPrefix(log, full);
  }

  lemma LimitedLength(all: seq<Walk>, maxPaths: Option<nat>)
    ensures maxPaths.Some? ==> |Limited(all, maxPaths)| <= maxPaths.value
  {
  }
}

/**
 * How the trace generator of the command-line tool assigns every source a
 * destination (`ppcalc/src/destination.rs`): round robin over the listed
 * sources, or a uniformly drawn destination per source. The random draw is
 * a nondeterministic choice in its range.
 */
module Destination {
  import opened Trace

  datatype DestinationSelectionType = Uniform | RoundRobin | Normal

  /** The sources of the list, as a set. */
  function Listed(sources: seq<SourceId>): set<SourceId> {
    set i | 0 <= i < |sources| :: sources[i]
  }

  /**
   * The map round robin builds: the `i`-th listed source gets destination
   * `i mod n`, and when a source is listed twice the later position wins.
   */
  function RoundRobinMap(n: nat, sources: seq<SourceId>): map<SourceId, DestinationId>
    requires |sources| > 0 ==> n > 0
  {
    if sources == [] then map[]
    else RoundRobinMap(n, sources[..|sources| - 1])[sources[|sources| - 1] := ((|sources| - 1) % n) as DestinationId]
  }

  /** `i` is the last position of `s` in the list. */
  predicate LastAt(sources: seq<SourceId>, s: SourceId, i: int) {
    0 <= i < |sources| && sources[i] == s && forall j :: i < j < |sources| ==> sources[j] != s
  }

  /** The keys of the round-robin map are exactly the listed sources. */
  lemma {:induction false} RoundRobinKeys(n: nat, sources: seq<SourceId>)
    requires |sources| > 0 ==> n > 0
    ensures RoundRobinMap(n, sources).Keys == Listed(sources)
  {
    if sources != [] {
      var p := sources[..|sources| - 1];
      RoundRobinKeys(n, p);
      assert Listed(sources) == Listed(p) + {sources[|sources| - 1]} by {
        assert forall i :: 0 <= i < |p| ==> sources[i] == p[i];
      }
    }
  }

  /** A source gets the destination its last position in the list names. */
  lemma {:induction false} RoundRobinAt(n: nat, sources: seq<SourceId>, i: int)
    requires n > 0 && 0 <= i < |sources|
    requires LastAt(sources, sources[i], i)
    ensures sources[i] in RoundRobinMap(n, sources)
    ensures RoundRobinMap(n, sources)[sources[i]] as int == i % n
  {
    var p := sources[..|sources| - 1];
    if i < |sources| - 1 {
      assert LastAt(p, p[i], i);
      RoundRobinAt(n, p, i);
    }
  }

  /** Every listed source has a last position. */
  lemma {:induction false} LastPosition(sources: seq<SourceId>, s: SourceId) returns (i: int)
    requires s in Listed(sources)
    ensures LastAt(sources, s, i)
  {
    var p := sources[..|sources| - 1];
    if sources[|sources| - 1] == s {
      i := |sources| - 1;
    } else {
      var k :| 0 <= k < |sources| && sources[k] == s;
      assert s in Listed(p) by {
        assert p[k] == s;
      }
      i := LastPosition(p, s);
    }
  }

  /** Every round-robin destination is below `n`. */
  lemma RoundRobinInRange(n: nat, sources: seq<SourceId>)
    requires |sources| > 0 ==> n > 0
    ensures forall s :: s in RoundRobinMap(n, sources) ==> RoundRobinMap(n, sources)[s] as int < n
  {
    RoundRobinKeys(n, sources);
    forall s | s in RoundRobinMap(n, sources) ensures RoundRobinMap(n, sources)[s] as int < n {
      var i := LastPosition(sources, s);
      assert n > 0;
      RoundRobinAt(n, sources, i);
    }
  }

  /** With no source listed twice, the `i`-th source gets destination `i mod n`. */
  lemma RoundRobinOfDistinct(n: nat, sources: seq<SourceId>, i: int)
    requires n > 0
    requires forall a, b :: 0 <= a < b < |sources| ==> sources[a] != sources[b]
    requires 0 <= i < |sources|
    ensures sources[i] in RoundRobinMap(n, sources)
    ensures RoundRobinMap(n, sources)[sources[i]] as int == i % n
  {
    RoundRobinAt(n, sources, i);
  }

  /** A source listed twice keeps the destination of its later position. */
  lemma RoundRobinLaterWins(n: nat, sources: seq<SourceId>, i: int, j: int)
    requires n > 0
    requires 0 <= i < j < |sources| && sources[i] == sources[j]
    requires forall k :: j < k < |sources| ==> sources[k] != sources[j]
    ensures sources[i] in RoundRobinMap(n, sources)
    ensures RoundRobinMap(n, sources)[sources[i]] as int == j % n
  {
    RoundRobinAt(n, sources, j);
  }

  /** `round_robin_destination_selection`. */
  method RoundRobinDestinationSelection(numberOfDestinations: nat, sourceIdList: seq<SourceId>)
    returns (m: map<SourceId, DestinationId>)
    requires |sourceIdList| > 0 ==> numberOfDestinations > 0
    ensures m == RoundRobinMap(numberOfDestinations, sourceIdList)
    ensures m.Keys == Listed(sourceIdList)
    ensures forall s :: s in m ==> m[s] as int < numberOfDestinations
  {
    m := map[];
    for i := 0 to |sourceIdList|
      invariant m == RoundRobinMap(numberOfDestinations, sourceIdList[..i])
    {
      assert sourceIdList[..i + 1][..i] == sourceIdList[..i];
      m := m[sourceIdList[i] := (i % numberOfDestinations) as DestinationId];
    }
    assert sourceIdList[..|sourceIdList|] == sourceIdList;
    RoundRobinKeys(numberOfDestinations, sourceIdList);
    RoundRobinInRange(numberOfDestinations, sourceIdList);
  }

  /**
   * `uniform_destination_selection`: every listed source gets some
   * destination below `n`. The code builds the range `0..n` first, so `n`
   * must be positive even for an empty list.
   */
  method UniformDestinationSelection(numberOfDestinations: nat, sourceIdList: seq<SourceId>)
    returns (m: map<SourceId, DestinationId>)
    requires numberOfDestinations > 0
    ensures m.Keys == Listed(sourceIdList)
    ensures forall s :: s in m ==> m[s] as int < numberOfDestinations
  {
    m := map[];
    for i := 0 to |sourceIdList|
      invariant m.Keys == Listed(sourceIdList[..i])
      invariant forall s :: s in m ==> m[s] as int < numberOfDestinations
    {
      var sample: nat :| sample < numberOfDestinations;
      assert Listed(sourceIdList[..i + 1]) == Listed(sourceIdList[..i]) + {sourceIdList[i]} by {
        assert forall j :: 0 <= j < i ==> sourceIdList[..i + 1][j] == sourceIdList[..i][j];
      }
      m := m[sourceIdList[i] := sample as DestinationId];
    }
    assert sourceIdList[..|sourceIdList|] == sourceIdList;
  }

  /**
   * `destination_selection`: dispatch on the selection type. Selection by a
   * normal distribution is not implemented and panics, so callers must not
   * ask for it.
   */
  method DestinationSelection(selectionType: DestinationSelectionType, numberOfDestinations: nat, sourceIdList: seq<SourceId>)
    returns (m: map<SourceId, DestinationId>)
    requires !selectionType.Normal?
    requires selectionType.Uniform? ==> numberOfDestinations > 0
    requires selectionType.RoundRobin? && |sourceIdList| > 0 ==> numberOfDestinations > 0
    ensures m.Keys == Listed(sourceIdList)
    ensures forall s :: s in m ==> m[s] as int < numberOfDestinations
    ensures selectionType.RoundRobin? ==> m == RoundRobinMap(numberOfDestinations, sourceIdList)
  {
    match selectionType
    case Uniform =>
      m := UniformDestinationSelection(numberOfDestinations, sourceIdList);
    case RoundRobin =>
      m := RoundRobinDestinationSelection(numberOfDestinations, sourceIdList);
  }
}

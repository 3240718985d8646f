/**
 * Network traces: the entries an anonymity-metric run is given, the builder
 * that collects and validates them, and the validated `Trace` with its
 * message-to-source and message-to-destination mappings.
 *
 * Identifiers are unbounded naturals (the `u64` width is not modelled) and
 * timestamps are integer nanoseconds.
 */
module Trace {
  import opened Wrappers
  import opened Sorting
  import opened Seqs

  newtype MessageId = n: int | 0 <= n
  newtype SourceId = n: int | 0 <= n
  newtype DestinationId = n: int | 0 <= n

  /** Nanoseconds since some fixed origin. */
  type Timestamp = int
  /** A span of time in nanoseconds. */
  type Duration = int

  function NewMessageId(x: nat): (id: MessageId)
    ensures MessageIdToNum(id) == x
  {
    x as MessageId
  }

  function MessageIdToNum(id: MessageId): nat {
    id as nat
  }

  function NewSourceId(x: nat): (id: SourceId)
    ensures SourceIdToNum(id) == x
  {
    x as SourceId
  }

  function SourceIdToNum(id: SourceId): nat {
    id as nat
  }

  function NewDestinationId(x: nat): (id: DestinationId)
    ensures DestinationIdToNum(id) == x
  {
    x as DestinationId
  }

  function DestinationIdToNum(id: DestinationId): nat {
    id as nat
  }

  /** One message: who sent it when, and who received it when. */
  datatype TraceEntry = TraceEntry(
    mId: MessageId,
    sourceId: SourceId,
    sourceTimestamp: Timestamp,
    destinationId: DestinationId,
    destinationTimestamp: Timestamp)

  datatype TraceBuildError =
    | EmptyTrace
    | NotSortedByArrival(message: MessageId)
    | MessageIdsHaveGaps(message: MessageId)
    | MessageIdsNotUnique(message: MessageId)
    | SourceIdsHaveGaps(source: SourceId)

  /** Message id (as an index) to the source that sent it. */
  datatype SourceMapping = SourceMapping(data: seq<SourceId>) {
    function Get(msg: MessageId): Option<SourceId> {
      if msg as int < |data| then Some(data[msg]) else None
    }

    function Len(): nat {
      |data|
    }
  }

  /** Message id (as an index) to the destination that received it. */
  datatype DestinationMapping = DestinationMapping(data: seq<DestinationId>) {
    function Get(msg: MessageId): Option<DestinationId> {
      if msg as int < |data| then Some(data[msg]) else None
    }

    function Len(): nat {
      |data|
    }
  }

  /**
   * A validated trace. The getters of the Rust type are this datatype's
   * fields; `Built` below is what `TraceBuilder.Build` guarantees of them.
   */
  datatype Trace = Trace(
    entries: seq<TraceEntry>,
    maxMsgId: MessageId,
    sourceMapping: SourceMapping,
    destinationMapping: DestinationMapping,
    maxSourceId: SourceId)

  /** The send time of a message, if its id is present in the trace. */
  function MessageSent(t: Trace, id: MessageId): Option<Timestamp> {
    if id as int < |t.entries| then Some(t.entries[id].sourceTimestamp) else None
  }

  function IdKey(e: TraceEntry): Key {
    Key(e.mId as int, 0, 0)
  }

  function ArrivalKey(e: TraceEntry): Key {
    Key(e.destinationTimestamp, 0, 0)
  }

  function SourceKey(s: SourceId): Key {
    Key(s as int, 0, 0)
  }

  function IdOf(e: TraceEntry): int {
    e.mId as int
  }

  /** An entry with its message id blanked, to compare entries up to renumbering. */
  function Unnumbered(e: TraceEntry): TraceEntry {
    e.(mId := 0)
  }

  /** The message ids are 0, 1, ..., n - 1, each exactly once. */
  predicate IdsAreIndices(s: seq<TraceEntry>) {
    multiset(MapSeq(s, IdOf)) == multiset(Range(|s|))
  }

  /** A message with a larger id never arrives earlier. */
  predicate ArrivalsFollowIds(s: seq<TraceEntry>) {
    forall i, j :: 0 <= i < |s| && 0 <= j < |s| && s[i].mId < s[j].mId ==>
      s[i].destinationTimestamp <= s[j].destinationTimestamp
  }

  function Sources(s: seq<TraceEntry>): set<SourceId> {
    set i | 0 <= i < |s| :: s[i].sourceId
  }

  /** The set holds exactly the ids 0, 1, ..., |ids| - 1. */
  ghost predicate IsRange(ids: set<SourceId>) {
    forall x: SourceId :: x in ids <==> x as int < |ids|
  }

  /** The distinct source ids are 0, 1, ..., k - 1. */
  ghost predicate SourcesDense(s: seq<TraceEntry>) {
    IsRange(Sources(s))
  }

  /**
   * `s` is the smallest source id above the smallest id missing from
   * `sources`: the first sorted source whose position and value differ.
   */
  ghost predicate GapError(sources: set<SourceId>, s: SourceId) {
    && s in sources
    && exists g: SourceId ::
         && g !in sources && g < s
         && (forall x: SourceId :: x < g ==> x in sources)
         && (forall x :: x in sources && g < x ==> s <= x)
  }

  /** The first position from `from` on whose entry's id differs from it. */
  function FirstIdMismatch(s: seq<TraceEntry>, from: nat): (k: nat)
    requires from <= |s|
    ensures from <= k <= |s|
    ensures forall i :: from <= i < k ==> s[i].mId as int == i
    ensures k < |s| ==> s[k].mId as int != k
    decreases |s| - from
  {
    if from == |s| then |s|
    else if s[from].mId as int != from then from
    else FirstIdMismatch(s, from + 1)
  }

  /**
   * The error the id check reports at a mismatching position `k` of the
   * id-sorted entries. The names are as the code has them: an id above its
   * position is reported as not unique, one below as a gap.
   */
  function IdError(s: seq<TraceEntry>, k: nat): TraceBuildError
    requires k < |s|
  {
    if s[k].mId as int > k then MessageIdsNotUnique(s[k].mId) else MessageIdsHaveGaps(s[k].mId)
  }

  /** The first position from `from` on whose entry arrives before its predecessor. */
  function FirstArrivalInversion(s: seq<TraceEntry>, from: nat): (k: nat)
    requires 1 <= from <= |s|
    ensures from <= k <= |s|
    ensures forall i :: from <= i < k ==> s[i - 1].destinationTimestamp <= s[i].destinationTimestamp
    ensures k < |s| ==> s[k - 1].destinationTimestamp > s[k].destinationTimestamp
    decreases |s| - from
  {
    if from == |s| then |s|
    else if s[from - 1].destinationTimestamp > s[from].destinationTimestamp then from
    else FirstArrivalInversion(s, from + 1)
  }

  /** What a successful `Build` guarantees of the trace it returns. */
  ghost predicate Built(t: Trace) {
    && |t.entries| > 0
    && (forall i :: 0 <= i < |t.entries| ==> t.entries[i].mId as int == i)
    && (forall i, j :: 0 <= i < j < |t.entries| ==>
          t.entries[i].destinationTimestamp <= t.entries[j].destinationTimestamp)
    && SourcesDense(t.entries)
    && t.maxMsgId as int == |t.entries| - 1
    && t.maxSourceId as int == |Sources(t.entries)| - 1
    && MappingsOf(t.entries, t.sourceMapping, t.destinationMapping)
  }

  /** The mappings have one element per entry, holding that entry's endpoints. */
  predicate MappingsOf(s: seq<TraceEntry>, sm: SourceMapping, dm: DestinationMapping) {
    && |sm.data| == |s| && |dm.data| == |s|
    && (forall i :: 0 <= i < |s| ==> sm.data[i] == s[i].sourceId && dm.data[i] == s[i].destinationId)
  }

  /** Numbers the entries 0, 1, ... in their current order. */
  function Renumbered(s: seq<TraceEntry>): (r: seq<TraceEntry>)
    ensures |r| == |s|
    ensures forall i :: 0 <= i < |s| ==> r[i] == s[i].(mId := i as MessageId)
  {
    seq(|s|, i requires 0 <= i < |s| => s[i].(mId := i as MessageId))
  }

  /** Collects trace entries, fixes them up and validates them into a `Trace`. */
  class TraceBuilder {
    var entries: seq<TraceEntry>

    constructor ()
      ensures entries == []
    {
      entries := [];
    }

    method AddEntry(entry: TraceEntry)
      modifies this
      ensures entries == old(entries) + [entry]
    {
      entries := entries + [entry];
    }

    /**
     * Orders the entries by arrival and renumbers them 0, 1, ... in that
     * order, so that the id and arrival checks of `Build` pass. The sort
     * is unstable, so entries arriving at the same time may end up in any
     * order: any arrival-sorted permutation may be the one renumbered.
     */
    method Fix()
      modifies this
      ensures exists sorted :: ArrivalOrder(old(entries), sorted) && entries == Renumbered(sorted)
      ensures multiset(MapSeq(entries, Unnumbered)) == multiset(MapSeq(old(entries), Unnumbered))
      ensures IdsAreIndices(entries) && ArrivalsFollowIds(entries)
    {
      assert ArrivalOrder(entries, Sort(entries, ArrivalKey));
      var sorted :| ArrivalOrder(entries, sorted);
      var fixed := Renumber(sorted);
      FixedProperties(entries, sorted, fixed);
      entries := fixed;
    }

    /** The renumbering loop of `fix`: entry `j` gets id `j`. */
    static method Renumber(sorted: seq<TraceEntry>) returns (fixed: seq<TraceEntry>)
      ensures fixed == Renumbered(sorted)
    {
      fixed := sorted;
      var i := 0;
      while i < |fixed|
        invariant 0 <= i <= |fixed| == |sorted|
        invariant forall j :: 0 <= j < i ==> fixed[j] == sorted[j].(mId := j as MessageId)
        invariant forall j :: i <= j < |fixed| ==> fixed[j] == sorted[j]
      {
        fixed := fixed[i := fixed[i].(mId := i as MessageId)];
        i := i + 1;
      }
    }

    /** `source_and_destination_mappings`: the per-message endpoints, in entry order. */
    method SourceAndDestinationMappings() returns (sm: SourceMapping, dm: DestinationMapping)
      ensures MappingsOf(entries, sm, dm)
    {
      var sources: seq<SourceId> := [];
      var destinations: seq<DestinationId> := [];
      for i := 0 to |entries|
        invariant |sources| == i && |destinations| == i
        invariant forall j :: 0 <= j < i ==>
          sources[j] == entries[j].sourceId && destinations[j] == entries[j].destinationId
      {
        sources := sources + [entries[i].sourceId];
        destinations := destinations + [entries[i].destinationId];
      }
      sm := SourceMapping(sources);
      dm := DestinationMapping(destinations);
    }

    /**
     * Validates the entries in the order the code checks them: non-empty,
     * ids exactly 0..n-1, arrivals in id order, sources exactly 0..k-1.
     * The entries are first sorted by id in place (the builder is consumed).
     */
    method Build() returns (r: Result<Trace, TraceBuildError>)
      modifies this
      ensures entries == Sort(old(entries), IdKey)
      ensures |old(entries)| == 0 ==> r == Failure(EmptyTrace)
      ensures |old(entries)| > 0 && !IdsAreIndices(old(entries)) ==>
        FirstIdMismatch(entries, 0) < |entries| && r == Failure(IdError(entries, FirstIdMismatch(entries, 0)))
      ensures |old(entries)| > 0 && IdsAreIndices(old(entries)) && !ArrivalsFollowIds(old(entries)) ==>
        r == Failure(NotSortedByArrival(FirstArrivalInversion(entries, 1) as MessageId))
      ensures |old(entries)| > 0 && IdsAreIndices(old(entries)) && ArrivalsFollowIds(old(entries))
              && !SourcesDense(old(entries)) ==>
        r.Failure? && r.error.SourceIdsHaveGaps? && GapError(Sources(old(entries)), r.error.source)
      ensures r.Success? <==>
        |old(entries)| > 0 && IdsAreIndices(old(entries)) && ArrivalsFollowIds(old(entries))
        && SourcesDense(old(entries))
      ensures r.Success? ==> Built(r.value) && multiset(r.value.entries) == multiset(old(entries))
    {
      ghost var original := entries;
      entries := Sort(entries, IdKey);
      var err, nextMsg, maxSource := Check(original, entries);
      if err.Some? {
        return Failure(err.value);
      }
      var sm, dm := SourceAndDestinationMappings();
      r := Success(Trace(entries, (nextMsg - 1) as MessageId, sm, dm, maxSource));
    }
  }

  /** The three checks of `Build`, in order, on the id-sorted entries `s`. */
  method Check(ghost original: seq<TraceEntry>, s: seq<TraceEntry>)
    returns (err: Option<TraceBuildError>, nextMsg: nat, maxSource: SourceId)
    requires s == Sort(original, IdKey)
    ensures |original| == 0 ==> err == Some(EmptyTrace)
    ensures |original| > 0 && !IdsAreIndices(original) ==>
      FirstIdMismatch(s, 0) < |s| && err == Some(IdError(s, FirstIdMismatch(s, 0)))
    ensures |original| > 0 && IdsAreIndices(original) && !ArrivalsFollowIds(original) ==>
      err == Some(NotSortedByArrival(FirstArrivalInversion(s, 1) as MessageId))
    ensures |original| > 0 && IdsAreIndices(original) && ArrivalsFollowIds(original)
            && !SourcesDense(original) ==>
      err.Some? && err.value.SourceIdsHaveGaps? && GapError(Sources(original), err.value.source)
    ensures err.None? <==>
      |original| > 0 && IdsAreIndices(original) && ArrivalsFollowIds(original) && SourcesDense(original)
    ensures err.None? ==>
      && nextMsg == |s|
      && (forall i :: 0 <= i < |s| ==> s[i].mId as int == i)
      && (forall i, j :: 0 <= i < j < |s| ==> s[i].destinationTimestamp <= s[j].destinationTimestamp)
      && SourcesDense(s)
      && maxSource as int == |Sources(s)| - 1
  {
    nextMsg, maxSource := 0, 0;
    if |s| == 0 {
      return Some(EmptyTrace), nextMsg, maxSource;
    }

    var idError;
    idError, nextMsg := CheckIds(s);
    if idError.Some? {
      IdCheckFails(original, s, FirstIdMismatch(s, 0));
      return idError, nextMsg, maxSource;
    }
    IdCheckPasses(original, s);

    var arrivalError := CheckArrivals(s);
    if arrivalError.Some? {
      ArrivalCheckFails(original, s, FirstArrivalInversion(s, 1));
      return arrivalError, nextMsg, maxSource;
    }
    ArrivalCheckPasses(original, s);

    SameSources(original, s);
    assert s[0].sourceId in Sources(s);
    var sourceError, sources := CheckSources(Sources(s));
    if sourceError.Some? {
      return sourceError, nextMsg, maxSource;
    }
    err, maxSource := None, sources[|sources| - 1];
  }

  /** The id check: in id-sorted entries, the ids must count up from 0. */
  method CheckIds(s: seq<TraceEntry>) returns (err: Option<TraceBuildError>, nextMsg: nat)
    requires |s| > 0
    ensures err.None? <==> forall j :: 0 <= j < |s| ==> s[j].mId as int == j
    ensures err.None? ==> nextMsg == |s|
    ensures err.Some? ==> FirstIdMismatch(s, 0) < |s| && err == Some(IdError(s, FirstIdMismatch(s, 0)))
  {
    nextMsg := 0;
    for i := 0 to |s|
      invariant nextMsg == i
      invariant forall j :: 0 <= j < i ==> s[j].mId as int == j
    {
      var id := s[i].mId as int;
      if id == nextMsg {
        nextMsg := nextMsg + 1;
      } else {
        FirstMismatchAt(s, 0, i);
        if id > nextMsg {
          return Some(MessageIdsNotUnique(s[i].mId)), nextMsg;
        } else {
          return Some(MessageIdsHaveGaps(s[i].mId)), nextMsg;
        }
      }
    }
    err := None;
  }

  /** The arrival check: each entry arrives no earlier than the one before it. */
  method CheckArrivals(s: seq<TraceEntry>) returns (err: Option<TraceBuildError>)
    ensures err.None? <==>
      forall j :: 1 <= j < |s| ==> s[j - 1].destinationTimestamp <= s[j].destinationTimestamp
    ensures err.Some? ==>
      && |s| > 1 && FirstArrivalInversion(s, 1) < |s|
      && err == Some(NotSortedByArrival(s[FirstArrivalInversion(s, 1)].mId))
  {
    var previous: Option<Timestamp> := None;
    for i := 0 to |s|
      invariant i == 0 <==> previous.None?
      invariant i > 0 ==> previous == Some(s[i - 1].destinationTimestamp)
      invariant forall j :: 1 <= j < i ==> s[j - 1].destinationTimestamp <= s[j].destinationTimestamp
    {
      if previous.Some? && previous.value > s[i].destinationTimestamp {
        FirstInversionAt(s, 1, i);
        return Some(NotSortedByArrival(s[i].mId));
      }
      previous := Some(s[i].destinationTimestamp);
    }
    err := None;
  }

  /**
   * The source check: the distinct source ids, sorted, must count up from
   * 0; `v` is that sorted list.
   */
  method CheckSources(sources: set<SourceId>) returns (err: Option<TraceBuildError>, v: seq<SourceId>)
    ensures err.None? <==> IsRange(sources)
    ensures err.Some? ==> err.value.SourceIdsHaveGaps? && GapError(sources, err.value.source)
    ensures err.None? && sources != {} ==> |v| > 0 && v[|v| - 1] as int == |sources| - 1
  {
    v := SortedSourceIds(sources);
    for i := 0 to |v|
      invariant forall j :: 0 <= j < i ==> v[j] as int == j
    {
      if i != v[i] as int {
        SourceCheckFails(sources, v, i);
        return Some(SourceIdsHaveGaps(v[i])), v;
      }
    }
    SourceCheckPasses(sources, v);
    err := None;
  }

  /** `sorted` holds the entries of `original`, in an order of non-decreasing arrival. */
  predicate ArrivalOrder(original: seq<TraceEntry>, sorted: seq<TraceEntry>) {
    multiset(sorted) == multiset(original) && SortedBy(sorted, ArrivalKey)
  }

  /** The properties `Fix` establishes when it renumbers the arrival-sorted entries. */
  lemma FixedProperties(s: seq<TraceEntry>, sorted: seq<TraceEntry>, r: seq<TraceEntry>)
    requires ArrivalOrder(s, sorted) && r == Renumbered(sorted)
    ensures multiset(MapSeq(r, Unnumbered)) == multiset(MapSeq(s, Unnumbered))
    ensures IdsAreIndices(r) && ArrivalsFollowIds(r)
  {
    PermutationMapMultiset(sorted, s, Unnumbered);
    assert MapSeq(r, Unnumbered) == MapSeq(sorted, Unnumbered);
    assert MapSeq(r, IdOf) == Range(|r|);
    forall i, j | 0 <= i < |r| && 0 <= j < |r| && r[i].mId < r[j].mId
      ensures r[i].destinationTimestamp <= r[j].destinationTimestamp
    {
      assert !KeyLt(ArrivalKey(sorted[j]), ArrivalKey(sorted[i]));
    }
  }

  /** The sorted ids do not count up from 0, so they are not 0..n-1. */
  lemma IdCheckFails(original: seq<TraceEntry>, s: seq<TraceEntry>, k: nat)
    requires s == Sort(original, IdKey)
    requires k < |s| && s[k].mId as int != k
    requires forall j :: 0 <= j < k ==> s[j].mId as int == j
    ensures !IdsAreIndices(original)
    ensures FirstIdMismatch(s, 0) == k
  {
    SortMapMultiset(original, IdKey, IdOf);
    if IdsAreIndices(original) {
      var t := MapSeq(s, IdOf);
      forall i, j | 0 <= i < j < |t| ensures t[i] <= t[j] {
        assert !KeyLt(IdKey(s[j]), IdKey(s[i]));
      }
      SortedPermutationOfRange(t, |s|);
      assert false;
    }
    FirstMismatchAt(s, 0, k);
  }

  lemma {:induction false} FirstMismatchAt(s: seq<TraceEntry>, from: nat, k: nat)
    requires from <= k < |s| && s[k].mId as int != k
    requires forall j :: from <= j < k ==> s[j].mId as int == j
    ensures FirstIdMismatch(s, from) == k
    decreases k - from
  {
    if from < k {
      FirstMismatchAt(s, from + 1, k);
    }
  }

  lemma IdCheckPasses(original: seq<TraceEntry>, s: seq<TraceEntry>)
    requires s == Sort(original, IdKey)
    requires forall j :: 0 <= j < |s| ==> s[j].mId as int == j
    ensures IdsAreIndices(original)
  {
    SortMapMultiset(original, IdKey, IdOf);
    assert MapSeq(s, IdOf) == Range(|s|);
  }

  /** When entry `i` has id `i`, every entry of a permutation sits at the index its id names. */
  lemma AtOwnIndex(original: seq<TraceEntry>, s: seq<TraceEntry>, e: TraceEntry)
    requires multiset(s) == multiset(original)
    requires forall j :: 0 <= j < |s| ==> s[j].mId as int == j
    requires e in original
    ensures e.mId as int < |s| && s[e.mId] == e
  {
    assert e in multiset(original);
    assert e in s;
  }

  lemma ArrivalCheckFails(original: seq<TraceEntry>, s: seq<TraceEntry>, k: nat)
    requires s == Sort(original, IdKey)
    requires forall j :: 0 <= j < |s| ==> s[j].mId as int == j
    requires 1 <= k < |s| && s[k - 1].destinationTimestamp > s[k].destinationTimestamp
    requires forall j :: 1 <= j < k ==> s[j - 1].destinationTimestamp <= s[j].destinationTimestamp
    ensures !ArrivalsFollowIds(original)
    ensures FirstArrivalInversion(s, 1) == k && s[k].mId as int == k
  {
    var a, b := s[k - 1], s[k];
    assert a in multiset(original) && b in multiset(original);
    var i :| 0 <= i < |original| && original[i] == a;
    var j :| 0 <= j < |original| && original[j] == b;
    FirstInversionAt(s, 1, k);
  }

  lemma {:induction false} FirstInversionAt(s: seq<TraceEntry>, from: nat, k: nat)
    requires 1 <= from <= k < |s| && s[k - 1].destinationTimestamp > s[k].destinationTimestamp
    requires forall j :: from <= j < k ==> s[j - 1].destinationTimestamp <= s[j].destinationTimestamp
    ensures FirstArrivalInversion(s, from) == k
    decreases k - from
  {
    if from < k {
      FirstInversionAt(s, from + 1, k);
    }
  }

  lemma ArrivalCheckPasses(original: seq<TraceEntry>, s: seq<TraceEntry>)
    requires s == Sort(original, IdKey)
    requires forall j :: 0 <= j < |s| ==> s[j].mId as int == j
    requires forall j :: 1 <= j < |s| ==> s[j - 1].destinationTimestamp <= s[j].destinationTimestamp
    ensures ArrivalsFollowIds(original)
    ensures forall i, j :: 0 <= i < j < |s| ==> s[i].destinationTimestamp <= s[j].destinationTimestamp
  {
    forall i, j | 0 <= i < j < |s| ensures s[i].destinationTimestamp <= s[j].destinationTimestamp {
      ChainedArrivals(s, i, j);
    }
    forall i, j | 0 <= i < |original| && 0 <= j < |original| && original[i].mId < original[j].mId
      ensures original[i].destinationTimestamp <= original[j].destinationTimestamp
    {
      AtOwnIndex(original, s, original[i]);
      AtOwnIndex(original, s, original[j]);
    }
  }

  lemma {:induction false} ChainedArrivals(s: seq<TraceEntry>, i: nat, j: nat)
    requires i <= j < |s|
    requires forall k :: 1 <= k < |s| ==> s[k - 1].destinationTimestamp <= s[k].destinationTimestamp
    ensures s[i].destinationTimestamp <= s[j].destinationTimestamp
    decreases j - i
  {
    if i < j {
      ChainedArrivals(s, i, j - 1);
    }
  }

  lemma SameSources(original: seq<TraceEntry>, s: seq<TraceEntry>)
    requires multiset(s) == multiset(original)
    ensures Sources(s) == Sources(original)
  {
    forall x | x in Sources(s) ensures x in Sources(original) {
      var i :| 0 <= i < |s| && s[i].sourceId == x;
      assert s[i] in multiset(original);
      var j :| 0 <= j < |original| && original[j] == s[i];
    }
    forall x | x in Sources(original) ensures x in Sources(s) {
      var i :| 0 <= i < |original| && original[i].sourceId == x;
      assert original[i] in multiset(s);
      var j :| 0 <= j < |s| && s[j] == original[i];
    }
  }

  /** The elements of a set in increasing order (collect, then sort). */
  method SortedSourceIds(sources: set<SourceId>) returns (v: seq<SourceId>)
    ensures forall i, j :: 0 <= i < j < |v| ==> v[i] < v[j]
    ensures forall x :: x in sources <==> x in v
    ensures |v| == |sources|
  {
    var picked: seq<SourceId> := [];
    var rest := sources;
    while rest != {}
      invariant rest <= sources
      invariant multiset(picked) == multiset(sources - rest)
      decreases rest
    {
      var s :| s in rest;
      assert sources - (rest - {s}) == (sources - rest) + {s};
      picked := picked + [s];
      rest := rest - {s};
    }
    assert sources - rest == sources;
    v := Sort(picked, SourceKey);
    assert |multiset(v)| == |multiset(sources)|;
    forall i, j | 0 <= i < j < |v| ensures v[i] < v[j] {
      assert !KeyLt(SourceKey(v[j]), SourceKey(v[i]));
      if v[i] == v[j] {
        TwoOccurrences(v, i, j);
      }
    }
    forall x ensures x in sources <==> x in v {
      assert x in multiset(v) <==> x in multiset(sources);
    }
  }

  /** Strictly increasing naturals never fall below their position. */
  lemma {:induction false} AtLeastPosition(v: seq<SourceId>, i: nat)
    requires forall a, b :: 0 <= a < b < |v| ==> v[a] < v[b]
    requires i < |v|
    ensures v[i] as int >= i
  {
    if i > 0 {
      AtLeastPosition(v, i - 1);
    }
  }

  lemma SourceCheckFails(sources: set<SourceId>, v: seq<SourceId>, k: nat)
    requires forall i, j :: 0 <= i < j < |v| ==> v[i] < v[j]
    requires forall x :: x in sources <==> x in v
    requires k < |v| && v[k] as int != k
    requires forall j :: 0 <= j < k ==> v[j] as int == j
    ensures GapError(sources, v[k])
    ensures !IsRange(sources)
  {
    AtLeastPosition(v, k);
    var g := k as SourceId;
    assert g !in sources by {
      forall j | 0 <= j < |v| ensures v[j] != g {
        if j >= k {
          assert v[j] >= v[k];
        }
      }
    }
    assert forall x: SourceId :: x < g ==> x in sources by {
      forall x: SourceId | x < g ensures x in sources {
        assert v[x] == x;
      }
    }
    assert forall x :: x in sources && g < x ==> v[k] <= x by {
      forall x | x in sources && g < x ensures v[k] <= x {
        var j :| 0 <= j < |v| && v[j] == x;
      }
    }
    assert |v| > k;
  }

  lemma SourceCheckPasses(sources: set<SourceId>, v: seq<SourceId>)
    requires forall x :: x in sources <==> x in v
    requires |v| == |sources|
    requires forall j :: 0 <= j < |v| ==> v[j] as int == j
    ensures IsRange(sources)
    ensures |v| > 0 ==> v[|v| - 1] as int == |sources| - 1
  {
    forall x: SourceId | x as int < |sources| ensures x in sources {
      assert v[x] == x;
    }
  }

  // ----- what a built trace offers its users -----

  /** Message ids are indices into the entries, so `MessageSent` finds each message's send time. */
  lemma MessageSentOfBuilt(t: Trace, id: MessageId)
    requires Built(t)
    ensures id <= t.maxMsgId ==> MessageSent(t, id) == Some(t.entries[id].sourceTimestamp)
                                  && t.entries[id].mId == id
    ensures id > t.maxMsgId ==> MessageSent(t, id) == None
  {
  }

  /** The mappings answer with the message's own endpoints, and `None` beyond the last message. */
  lemma MappingsOfBuilt(t: Trace, id: MessageId)
    requires Built(t)
    ensures t.sourceMapping.Get(id).Some? <==> id <= t.maxMsgId
    ensures t.destinationMapping.Get(id).Some? <==> id <= t.maxMsgId
    ensures id <= t.maxMsgId ==>
      t.sourceMapping.Get(id) == Some(t.entries[id].sourceId)
      && t.destinationMapping.Get(id) == Some(t.entries[id].destinationId)
    ensures t.sourceMapping.Len() == t.destinationMapping.Len() == t.maxMsgId as int + 1
  {
  }

  /** Every source id of a built trace is at most the maximum source id, which is used. */
  lemma MaxSourceOfBuilt(t: Trace)
    requires Built(t)
    ensures t.maxSourceId in Sources(t.entries)
    ensures forall i :: 0 <= i < |t.entries| ==> t.entries[i].sourceId <= t.maxSourceId
  {
    var k := |Sources(t.entries)|;
    assert t.entries[0].sourceId in Sources(t.entries);
    assert t.entries[0].sourceId as int < k;
    forall i | 0 <= i < |t.entries| ensures t.entries[i].sourceId <= t.maxSourceId {
      assert t.entries[i].sourceId in Sources(t.entries);
    }
  }

  /**
   * The swapped error names: an id above its position means an id was
   * skipped, and one below it means an id was repeated.
   */
  lemma IdErrorMeaning(s: seq<TraceEntry>)
    requires SortedBy(s, IdKey)
    requires FirstIdMismatch(s, 0) < |s|
    ensures var k := FirstIdMismatch(s, 0);
      IdError(s, k).MessageIdsNotUnique? ==> forall i :: 0 <= i < |s| ==> s[i].mId as int != k
    ensures var k := FirstIdMismatch(s, 0);
      IdError(s, k).MessageIdsHaveGaps? ==> k > 0 && s[k].mId == s[s[k].mId].mId
  {
    var k := FirstIdMismatch(s, 0);
    if IdError(s, k).MessageIdsNotUnique? {
      forall i | 0 <= i < |s| ensures s[i].mId as int != k {
        if i > k {
          assert !KeyLt(IdKey(s[i]), IdKey(s[k]));
        }
      }
    } else {
      assert s[k].mId as int < k;
      if k > 0 {
        assert !KeyLt(IdKey(s[k]), IdKey(s[k - 1]));
      }
    }
  }

  /** Two entries with ids 0 and 2: the code reports the gap as `MessageIdsNotUnique(2)`. */
  lemma GapReportedAsNotUnique()
    ensures var s := [TraceEntry(0, 0, 0, 0, 0), TraceEntry(2, 0, 0, 0, 0)];
      FirstIdMismatch(s, 0) == 1 && IdError(s, 1) == MessageIdsNotUnique(2)
  {
    var s := [TraceEntry(0, 0, 0, 0, 0), TraceEntry(2, 0, 0, 0, 0)];
    assert FirstIdMismatch(s, 1) == 1;
  }

  /** Two entries both with id 0: the code reports the duplicate as `MessageIdsHaveGaps(0)`. */
  lemma DuplicateReportedAsGap()
    ensures var s := [TraceEntry(0, 0, 0, 0, 0), TraceEntry(0, 0, 0, 0, 0)];
      FirstIdMismatch(s, 0) == 1 && IdError(s, 1) == MessageIdsHaveGaps(0)
  {
    var s := [TraceEntry(0, 0, 0, 0, 0), TraceEntry(0, 0, 0, 0, 0)];
    assert FirstIdMismatch(s, 1) == 1;
  }

  /**
   * After `Fix`, `Build` fails only when the trace is empty or the sources
   * have gaps: never with an id or arrival error.
   */
  method FixThenBuild(b: TraceBuilder) returns (r: Result<Trace, TraceBuildError>)
    modifies b
    ensures r.Failure? ==> r.error == EmptyTrace || r.error.SourceIdsHaveGaps?
    ensures r.Success? <==> |old(b.entries)| > 0 && SourcesDense(old(b.entries))
  {
    ghost var original := b.entries;
    b.Fix();
    ghost var sorted :| ArrivalOrder(original, sorted) && b.entries == Renumbered(sorted);
    FixedSources(original, sorted, b.entries);
    r := b.Build();
  }

  lemma FixedSources(original: seq<TraceEntry>, sorted: seq<TraceEntry>, fixed: seq<TraceEntry>)
    requires ArrivalOrder(original, sorted) && fixed == Renumbered(sorted)
    ensures Sources(fixed) == Sources(original)
  {
    SameSources(original, sorted);
    assert Sources(fixed) == Sources(sorted) by {
      assert forall i :: 0 <= i < |fixed| ==> fixed[i].sourceId == sorted[i].sourceId;
    }
  }
}

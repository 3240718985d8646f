/**
 * The prototype analysis under `src/analytics.rs`: the same progressive
 * pruning idea as the metric library, computed over message-id lists and
 * string names. The open-window set is a list that an arrival copies, and
 * pruning picks one fresh message per kept name.
 */
module Analytics {
  import opened Wrappers
  import opened Sorting
  import opened ProtoTrace

  /** Declared in this order, which is the order at equal timestamps. */
  datatype EventType = AddSourceMessage | AddDestinationMessage | RemoveSourceMessage

  datatype ProcessingEvent = ProcessingEvent(eventType: EventType, ts: int, mId: nat, name: string)

  function Rank(t: EventType): int {
    match t
    case AddSourceMessage => 0
    case AddDestinationMessage => 1
    case RemoveSourceMessage => 2
  }

  /** The comparison the sort uses: timestamp first, then the event type. */
  function EventKey(e: ProcessingEvent): Key {
    Key(e.ts, Rank(e.eventType), 0)
  }

  predicate IsAdd(e: ProcessingEvent) { e.eventType == AddSourceMessage }
  predicate IsRemove(e: ProcessingEvent) { e.eventType == RemoveSourceMessage }
  predicate IsArrival(e: ProcessingEvent) { e.eventType == AddDestinationMessage }

  /** Nanoseconds in a millisecond: the delays are given in milliseconds. */
  const NanosPerMilli: int := 1_000_000

  /** The three events one entry contributes, in the order they are pushed. */
  function EntryEvents(e: TraceEntry, minNs: int, windowEndNs: int): seq<ProcessingEvent> {
    [ ProcessingEvent(AddSourceMessage, e.sourceTimestamp + minNs, e.mId, e.sourceName),
      ProcessingEvent(RemoveSourceMessage, e.sourceTimestamp + windowEndNs, e.mId, e.sourceName),
      ProcessingEvent(AddDestinationMessage, e.destinationTimestamp, e.mId, e.destinationName) ]
  }

  /** The events of all entries, before sorting. */
  function RawEvents(s: seq<TraceEntry>, minNs: int, windowEndNs: int): (r: seq<ProcessingEvent>)
    ensures |r| == 3 * |s|
  {
    if s == [] then [] else RawEvents(s[..|s| - 1], minNs, windowEndNs) + EntryEvents(s[|s| - 1], minNs, windowEndNs)
  }

  /** The sorted queue for delays given in milliseconds; the window closes one nanosecond after the maximum delay. */
  function Queue(s: seq<TraceEntry>, minDelay: int, maxDelay: int): seq<ProcessingEvent> {
    Sort(RawEvents(s, minDelay * NanosPerMilli, maxDelay * NanosPerMilli + 1), EventKey)
  }

  /** Builds the event queue; it never fails. */
  method ComputeEventQueue(t: Trace, minDelay: int, maxDelay: int) returns (r: Result<seq<ProcessingEvent>, string>)
    ensures r == Success(Queue(t.entries, minDelay, maxDelay))
    ensures |r.value| == 3 * |t.entries|
    ensures multiset(r.value) == multiset(RawEvents(t.entries, minDelay * NanosPerMilli, maxDelay * NanosPerMilli + 1))
    ensures SortedBy(r.value, EventKey)
  {
    var minNs := minDelay * NanosPerMilli;
    var windowEndNs := maxDelay * NanosPerMilli + 1;
    var eventQueue: seq<ProcessingEvent> := [];
    for i := 0 to |t.entries|
      invariant eventQueue == RawEvents(t.entries[..i], minNs, windowEndNs)
    {
      var entry := t.entries[i];
      eventQueue := eventQueue + [ProcessingEvent(AddSourceMessage, entry.sourceTimestamp + minNs, entry.mId, entry.sourceName)];
      eventQueue := eventQueue + [ProcessingEvent(RemoveSourceMessage, entry.sourceTimestamp + windowEndNs, entry.mId, entry.sourceName)];
      eventQueue := eventQueue + [ProcessingEvent(AddDestinationMessage, entry.destinationTimestamp, entry.mId, entry.destinationName)];
      assert t.entries[..i + 1][..i] == t.entries[..i];
    }
    assert t.entries[..|t.entries|] == t.entries;
    r := Success(Sort(eventQueue, EventKey));
  }

  /** In the queue, timestamps never decrease, and at one timestamp adds come before arrivals and arrivals before removes. */
  lemma QueueOrder(s: seq<TraceEntry>, minDelay: int, maxDelay: int, i: int, j: int)
    requires var q := Queue(s, minDelay, maxDelay); 0 <= i < j < |q|
    ensures var q := Queue(s, minDelay, maxDelay);
      q[i].ts <= q[j].ts && (q[i].ts == q[j].ts ==> Rank(q[i].eventType) <= Rank(q[j].eventType))
  {
    var q := Queue(s, minDelay, maxDelay);
    assert !KeyLt(EventKey(q[j]), EventKey(q[i]));
  }

  /** Every entry's three events are in the queue, at the shifted times. */
  lemma EntryInQueue(s: seq<TraceEntry>, minDelay: int, maxDelay: int, k: int)
    requires 0 <= k < |s|
    ensures forall e :: e in EntryEvents(s[k], minDelay * NanosPerMilli, maxDelay * NanosPerMilli + 1) ==> e in Queue(s, minDelay, maxDelay)
  {
    var minNs, windowEndNs := minDelay * NanosPerMilli, maxDelay * NanosPerMilli + 1;
    RawContains(s, minNs, windowEndNs, k);
    assert multiset(Queue(s, minDelay, maxDelay)) == multiset(RawEvents(s, minNs, windowEndNs));
    forall e | e in EntryEvents(s[k], minNs, windowEndNs)
      ensures e in Queue(s, minDelay, maxDelay)
    {
      assert e in multiset(RawEvents(s, minNs, windowEndNs));
    }
  }

  lemma {:induction false} RawContains(s: seq<TraceEntry>, minNs: int, windowEndNs: int, k: int)
    requires 0 <= k < |s|
    ensures forall e :: e in EntryEvents(s[k], minNs, windowEndNs) ==> e in RawEvents(s, minNs, windowEndNs)
    decreases |s|
  {
    if k < |s| - 1 {
      RawContains(s[..|s| - 1], minNs, windowEndNs, k);
    }
  }

  // ---------------------------------------------------------------------
  // The sweep over the queue
  // ---------------------------------------------------------------------

  /** `s` with every occurrence of `x` dropped, the rest in order (`Vec::retain`). */
  function Without(s: seq<nat>, x: nat): (r: seq<nat>)
    ensures forall y :: y in r <==> y in s && y != x
    ensures forall y :: y != x ==> Count(r, y) == Count(s, y)
  {
    if s == [] then []
    else
      var w, last := Without(s[..|s| - 1], x), s[|s| - 1];
      assert (w + [last])[..|w|] == w;
      if last == x then w else w + [last]
  }

  /** How often `x` occurs in `s`. */
  function Count(s: seq<nat>, x: nat): (n: nat)
    ensures n > 0 <==> x in s
  {
    if s == [] then 0 else Count(s[..|s| - 1], x) + (if s[|s| - 1] == x then 1 else 0)
  }

  function Repeat(x: nat, n: nat): (r: seq<nat>)
    ensures |r| == n
    ensures forall i :: 0 <= i < n ==> r[i] == x
    ensures forall y :: y in r <==> n > 0 && y == x
  {
    var r := seq(n, _ => x);
    assert n > 0 ==> r[0] == x;
    r
  }

  /** The list of open source messages after the first `i` events. */
  function Open(q: seq<ProcessingEvent>, i: nat): seq<nat>
    requires i <= |q|
  {
    if i == 0 then []
    else
      var o := Open(q, i - 1);
      var e := q[i - 1];
      match e.eventType
      case AddSourceMessage => o + [e.mId]
      case RemoveSourceMessage => Without(o, e.mId)
      case AddDestinationMessage => o
  }

  /**
   * The arrivals recorded for source message `m` after the first `i` events:
   * each arrival once for every time `m` is in the open list then.
   */
  function SourceSetOf(q: seq<ProcessingEvent>, i: nat, m: nat): seq<nat>
    requires i <= |q|
  {
    if i == 0 then []
    else SourceSetOf(q, i - 1, m) + (if IsArrival(q[i - 1]) then Repeat(q[i - 1].mId, Count(Open(q, i - 1), m)) else [])
  }

  /** The open list copied at the last arrival with id `d` among the first `i` events. */
  function DestSnapshot(q: seq<ProcessingEvent>, i: nat, d: nat): Option<seq<nat>>
    requires i <= |q|
  {
    if i == 0 then None
    else if IsArrival(q[i - 1]) && q[i - 1].mId == d then Some(Open(q, i - 1))
    else DestSnapshot(q, i - 1, d)
  }

  ghost predicate SourceSetsAre(q: seq<ProcessingEvent>, i: nat, sets: map<nat, seq<nat>>)
    requires i <= |q|
  {
    forall m :: (m in sets <==> SourceSetOf(q, i, m) != []) && (m in sets ==> sets[m] == SourceSetOf(q, i, m))
  }

  ghost predicate DestSetsAre(q: seq<ProcessingEvent>, i: nat, sets: map<nat, seq<nat>>)
    requires i <= |q|
  {
    forall d :: (d in sets <==> DestSnapshot(q, i, d).Some?) && (d in sets ==> sets[d] == DestSnapshot(q, i, d).value)
  }

  function Get(sets: map<nat, seq<nat>>, m: nat): seq<nat> {
    if m in sets then sets[m] else []
  }

  /** Appends arrival `d` to the list of every open message, creating lists that are missing. */
  method AppendToAll(sets: map<nat, seq<nat>>, open: seq<nat>, d: nat) returns (r: map<nat, seq<nat>>)
    ensures forall m :: m in r <==> m in sets || m in open
    ensures forall m :: m in r ==> r[m] == Get(sets, m) + Repeat(d, Count(open, m))
  {
    r := sets;
    for k := 0 to |open|
      invariant forall m :: m in r <==> m in sets || m in open[..k]
      invariant forall m :: m in r ==> r[m] == Get(sets, m) + Repeat(d, Count(open[..k], m))
    {
      var m := open[k];
      var r' := if m in r then r[m := r[m] + [d]] else r[m := [d]];
      AppendOneStep(sets, open, d, k, r, r');
      r := r';
    }
    assert open[..|open|] == open;
  }

  lemma AppendOneStep(sets: map<nat, seq<nat>>, open: seq<nat>, d: nat, k: nat, r: map<nat, seq<nat>>, r': map<nat, seq<nat>>)
    requires k < |open|
    requires forall m :: m in r <==> m in sets || m in open[..k]
    requires forall m :: m in r ==> r[m] == Get(sets, m) + Repeat(d, Count(open[..k], m))
    requires r' == if open[k] in r then r[open[k] := r[open[k]] + [d]] else r[open[k] := [d]]
    ensures forall m :: m in r' <==> m in sets || m in open[..k + 1]
    ensures forall m :: m in r' ==> r'[m] == Get(sets, m) + Repeat(d, Count(open[..k + 1], m))
  {
    assert open[..k + 1] == open[..k] + [open[k]];
    forall m ensures (m in r' <==> m in sets || m in open[..k + 1])
                 && (m in r' ==> r'[m] == Get(sets, m) + Repeat(d, Count(open[..k + 1], m)))
    {
      AppendOneAt(sets, open[..k], open[k], d, r, r', m);
    }
  }

  /** `AppendOneStep` for one key. */
  lemma AppendOneAt(sets: map<nat, seq<nat>>, before: seq<nat>, x: nat, d: nat, r: map<nat, seq<nat>>, r': map<nat, seq<nat>>, m: nat)
    requires m in r <==> m in sets || m in before
    requires m in r ==> r[m] == Get(sets, m) + Repeat(d, Count(before, m))
    requires r' == if x in r then r[x := r[x] + [d]] else r[x := [d]]
    ensures m in r' <==> m in sets || m in before + [x]
    ensures m in r' ==> r'[m] == Get(sets, m) + Repeat(d, Count(before + [x], m))
  {
    CountSnoc(before, x, m);
    if m == x {
      var c := Count(before, m);
      RepeatSnoc(d, c);
      if m !in r {
        assert Get(sets, m) == [] && c == 0;
      }
    }
  }

  lemma CountSnoc(s: seq<nat>, x: nat, m: nat)
    ensures Count(s + [x], m) == Count(s, m) + (if x == m then 1 else 0)
  {
    assert (s + [x])[..|s|] == s;
  }

  lemma RepeatSnoc(x: nat, n: nat)
    ensures Repeat(x, n + 1) == Repeat(x, n) + [x]
  {
  }

  lemma ArrivalStep(q: seq<ProcessingEvent>, i: nat, sets: map<nat, seq<nat>>, next: map<nat, seq<nat>>)
    requires i < |q| && IsArrival(q[i])
    requires SourceSetsAre(q, i, sets)
    requires forall m :: m in next <==> m in sets || m in Open(q, i)
    requires forall m :: m in next ==> next[m] == Get(sets, m) + Repeat(q[i].mId, Count(Open(q, i), m))
    ensures SourceSetsAre(q, i + 1, next)
  {
    forall m ensures (m in next <==> SourceSetOf(q, i + 1, m) != []) && (m in next ==> next[m] == SourceSetOf(q, i + 1, m)) {
      var before := SourceSetOf(q, i, m);
      var added := Repeat(q[i].mId, Count(Open(q, i), m));
      assert SourceSetOf(q, i + 1, m) == before + added;
      assert Get(sets, m) == before;
      assert added != [] <==> m in Open(q, i);
    }
  }

  lemma OtherStep(q: seq<ProcessingEvent>, i: nat, sets: map<nat, seq<nat>>, dests: map<nat, seq<nat>>)
    requires i < |q| && !IsArrival(q[i])
    requires SourceSetsAre(q, i, sets) && DestSetsAre(q, i, dests)
    ensures SourceSetsAre(q, i + 1, sets) && DestSetsAre(q, i + 1, dests)
  {
    forall m ensures SourceSetOf(q, i + 1, m) == SourceSetOf(q, i, m) {
    }
  }

  /**
   * The message anonymity sets of the prototype: for every source message the
   * arrivals seen while it was open, and for every arrival the open list it saw.
   */
  method ComputeMessageAnonymitySets(t: Trace, minDelay: int, maxDelay: int)
    returns (r: Result<(map<nat, seq<nat>>, map<nat, seq<nat>>), string>)
    ensures r == Success((SourceSetsMap(Queue(t.entries, minDelay, maxDelay)), DestSetsMap(Queue(t.entries, minDelay, maxDelay))))
  {
    // building the queue cannot fail, so the `?` after it never returns
    var queueResult := ComputeEventQueue(t, minDelay, maxDelay);
    var sourceSets, destinationSets := SweepQueue(queueResult.value);
    r := Success((sourceSets, destinationSets));
  }

  /** The sweep loop of `compute_message_anonymity_sets` over a given queue. */
  method SweepQueue(eventQueue: seq<ProcessingEvent>) returns (sourceSets: map<nat, seq<nat>>, destinationSets: map<nat, seq<nat>>)
    ensures sourceSets == SourceSetsMap(eventQueue) && destinationSets == DestSetsMap(eventQueue)
  {
    var current: seq<nat> := [];
    sourceSets := map[];
    destinationSets := map[];
    for i := 0 to |eventQueue|
      invariant current == Open(eventQueue, i)
      invariant SourceSetsAre(eventQueue, i, sourceSets)
      invariant DestSetsAre(eventQueue, i, destinationSets)
    {
      var event := eventQueue[i];
      match event.eventType {
        case AddSourceMessage =>
          OtherStep(eventQueue, i, sourceSets, destinationSets);
          current := current + [event.mId];
        case RemoveSourceMessage =>
          OtherStep(eventQueue, i, sourceSets, destinationSets);
          current := Without(current, event.mId);
        case AddDestinationMessage =>
          var next := AppendToAll(sourceSets, current, event.mId);
          ArrivalStep(eventQueue, i, sourceSets, next);
          sourceSets := next;
          destinationSets := destinationSets[event.mId := current];
      }
    }
    SourceSetsAreMap(eventQueue, sourceSets);
    DestSetsAreMap(eventQueue, destinationSets);
  }

  /** The ids of the source messages the queue opens. */
  function AddIds(q: seq<ProcessingEvent>): set<nat> {
    set i | 0 <= i < |q| && IsAdd(q[i]) :: q[i].mId
  }

  /** The ids the queue sees arrive. */
  function ArrivalIds(q: seq<ProcessingEvent>): set<nat> {
    set i | 0 <= i < |q| && IsArrival(q[i]) :: q[i].mId
  }

  /** The source side of the sweep's result: a list for every message whose window saw an arrival. */
  function SourceSetsMap(q: seq<ProcessingEvent>): map<nat, seq<nat>> {
    map m | m in AddIds(q) && SourceSetOf(q, |q|, m) != [] :: SourceSetOf(q, |q|, m)
  }

  /** The destination side of the sweep's result: a list for every arrival. */
  function DestSetsMap(q: seq<ProcessingEvent>): map<nat, seq<nat>> {
    map d | d in ArrivalIds(q) && DestSnapshot(q, |q|, d).Some? :: DestSnapshot(q, |q|, d).value
  }

  lemma SourceSetsAreMap(q: seq<ProcessingEvent>, sets: map<nat, seq<nat>>)
    requires SourceSetsAre(q, |q|, sets)
    ensures sets == SourceSetsMap(q)
  {
    forall m | m in sets ensures m in AddIds(q) {
      assert SourceSetOf(q, |q|, m) != [];
      var d := SourceSetOf(q, |q|, m)[0];
      SourceSetMember(q, |q|, m, d);
      var j :| 0 <= j < |q| && IsArrival(q[j]) && q[j].mId == d && m in Open(q, j);
      OpenMember(q, j, m);
      var a :| 0 <= a < j && IsAdd(q[a]) && q[a].mId == m && NotRemovedBetween(q, a, j, m);
    }
  }

  lemma DestSetsAreMap(q: seq<ProcessingEvent>, sets: map<nat, seq<nat>>)
    requires DestSetsAre(q, |q|, sets)
    ensures sets == DestSetsMap(q)
  {
    forall d | d in sets ensures d in ArrivalIds(q) {
      if d !in ArrivalIds(q) {
        DestSnapshotNone(q, |q|, d);
      }
    }
  }

  // ---------------------------------------------------------------------
  // What the sweep's lists mean
  // ---------------------------------------------------------------------

  /** No remove of `m` among the events strictly after `a` and before `i`. */
  predicate NotRemovedBetween(q: seq<ProcessingEvent>, a: int, i: int, m: nat)
    requires 0 <= a && i <= |q|
  {
    forall r :: a < r < i ==> !(IsRemove(q[r]) && q[r].mId == m)
  }

  /** Some add of `m` among the first `i` events has not been undone by a remove since. */
  predicate OpenedAndKept(q: seq<ProcessingEvent>, i: nat, m: nat)
    requires i <= |q|
  {
    exists a :: 0 <= a < i && IsAdd(q[a]) && q[a].mId == m && NotRemovedBetween(q, a, i, m)
  }

  /** `m` is open after `i` events exactly when an add of `m` came before and no remove of `m` since. */
  lemma {:induction false} OpenMember(q: seq<ProcessingEvent>, i: nat, m: nat)
    requires i <= |q|
    ensures m in Open(q, i) <==> OpenedAndKept(q, i, m)
  {
    if i > 0 {
      OpenMember(q, i - 1, m);
      var e := q[i - 1];
      if IsAdd(e) && e.mId == m {
        assert m in Open(q, i);
        assert NotRemovedBetween(q, i - 1, i, m);
      } else if IsRemove(e) && e.mId == m {
        OpenMemberRemoved(q, i, m);
      } else {
        OpenMemberOther(q, i, m);
      }
    }
  }

  lemma OpenMemberRemoved(q: seq<ProcessingEvent>, i: nat, m: nat)
    requires 0 < i <= |q| && IsRemove(q[i - 1]) && q[i - 1].mId == m
    ensures m !in Open(q, i) && !OpenedAndKept(q, i, m)
  {
    forall a | 0 <= a < i && IsAdd(q[a]) && q[a].mId == m
      ensures !NotRemovedBetween(q, a, i, m)
    {
      assert a != i - 1;
    }
  }

  lemma OpenMemberOther(q: seq<ProcessingEvent>, i: nat, m: nat)
    requires 0 < i <= |q| && !(IsRemove(q[i - 1]) && q[i - 1].mId == m) && !(IsAdd(q[i - 1]) && q[i - 1].mId == m)
    requires m in Open(q, i - 1) <==> OpenedAndKept(q, i - 1, m)
    ensures m in Open(q, i) <==> OpenedAndKept(q, i, m)
  {
    OpenOther(q, i, m);
    KeptOther(q, i, m);
  }

  /** An event about another message leaves `m`'s membership in the open list alone. */
  lemma OpenOther(q: seq<ProcessingEvent>, i: nat, m: nat)
    requires 0 < i <= |q| && !(IsRemove(q[i - 1]) && q[i - 1].mId == m) && !(IsAdd(q[i - 1]) && q[i - 1].mId == m)
    ensures m in Open(q, i) <==> m in Open(q, i - 1)
  {
    var o, e := Open(q, i - 1), q[i - 1];
    if IsAdd(e) {
      assert Open(q, i) == o + [e.mId];
    } else if IsRemove(e) {
      assert Open(q, i) == Without(o, e.mId);
    } else {
      assert Open(q, i) == o;
    }
  }

  /** An event about another message leaves `m`'s add-without-remove witness alone. */
  lemma KeptOther(q: seq<ProcessingEvent>, i: nat, m: nat)
    requires 0 < i <= |q| && !(IsRemove(q[i - 1]) && q[i - 1].mId == m) && !(IsAdd(q[i - 1]) && q[i - 1].mId == m)
    ensures OpenedAndKept(q, i, m) <==> OpenedAndKept(q, i - 1, m)
  {
    if OpenedAndKept(q, i - 1, m) {
      var a :| 0 <= a < i - 1 && IsAdd(q[a]) && q[a].mId == m && NotRemovedBetween(q, a, i - 1, m);
      assert NotRemovedBetween(q, a, i, m);
    }
    if OpenedAndKept(q, i, m) {
      var a :| 0 <= a < i && IsAdd(q[a]) && q[a].mId == m && NotRemovedBetween(q, a, i, m);
      assert a != i - 1;
      assert NotRemovedBetween(q, a, i - 1, m);
    }
  }

  /** Arrival `d` is in `m`'s list exactly when some arrival with id `d` found `m` open. */
  lemma {:induction false} SourceSetMember(q: seq<ProcessingEvent>, i: nat, m: nat, d: nat)
    requires i <= |q|
    ensures d in SourceSetOf(q, i, m) <==> exists j :: 0 <= j < i && IsArrival(q[j]) && q[j].mId == d && m in Open(q, j)
  {
    if i > 0 {
      SourceSetMember(q, i - 1, m, d);
      var e := q[i - 1];
      var added := if IsArrival(e) then Repeat(e.mId, Count(Open(q, i - 1), m)) else [];
      assert SourceSetOf(q, i, m) == SourceSetOf(q, i - 1, m) + added;
      assert d in added <==> IsArrival(e) && e.mId == d && m in Open(q, i - 1);
    }
  }

  /** Arrival ids are distinct. */
  predicate UniqueArrivals(q: seq<ProcessingEvent>) {
    forall i, j :: 0 <= i < j < |q| && IsArrival(q[i]) && IsArrival(q[j]) ==> q[i].mId != q[j].mId
  }

  /** With distinct arrival ids, the list kept for an arrival is the open list when it arrived. */
  lemma {:induction false} DestSnapshotAt(q: seq<ProcessingEvent>, i: nat, j: nat)
    requires UniqueArrivals(q)
    requires j < i <= |q| && IsArrival(q[j])
    ensures DestSnapshot(q, i, q[j].mId) == Some(Open(q, j))
  {
    if j < i - 1 {
      var e := q[i - 1];
      assert !(IsArrival(e) && e.mId == q[j].mId);
      DestSnapshotAt(q, i - 1, j);
    }
  }

  /** An id that arrives nowhere has no list. */
  lemma {:induction false} DestSnapshotNone(q: seq<ProcessingEvent>, i: nat, d: nat)
    requires i <= |q|
    requires forall j :: 0 <= j < i && IsArrival(q[j]) ==> q[j].mId != d
    ensures DestSnapshot(q, i, d) == None
  {
    if i > 0 {
      DestSnapshotNone(q, i - 1, d);
    }
  }

  /**
   * The two sides agree: with distinct arrival ids, arrival `d` is in source
   * message `m`'s set exactly when `m` is in `d`'s set.
   */
  lemma Symmetry(q: seq<ProcessingEvent>, m: nat, d: nat)
    requires UniqueArrivals(q)
    ensures d in SourceSetOf(q, |q|, m) <==> DestSnapshot(q, |q|, d).Some? && m in DestSnapshot(q, |q|, d).value
  {
    SourceSetMember(q, |q|, m, d);
    if j :| 0 <= j < |q| && IsArrival(q[j]) && q[j].mId == d {
      DestSnapshotAt(q, |q|, j);
    } else {
      DestSnapshotNone(q, |q|, d);
    }
  }

  // ---------------------------------------------------------------------
  // Relationship anonymity: greedy pruning by name
  // ---------------------------------------------------------------------

  const FirstNameError: string := "Name not found"
  const LaterNameError: string := "name not found"

  predicate Distinct<T(==)>(s: seq<T>) {
    forall i, j :: 0 <= i < j < |s| ==> s[i] != s[j]
  }

  /**
   * One round over a message anonymity set `mas`, front to back: a message
   * without a name fails with `err`; a name outside the previous round's set
   * (when there is one) or already picked is skipped; otherwise the name is
   * picked when its message has not been used in any round yet.
   */
  function Select(mas: seq<nat>, names: map<nat, string>, previous: Option<seq<string>>,
                  current: seq<string>, selected: seq<nat>, err: string): (r: Result<(seq<string>, seq<nat>), string>)
    ensures r.Failure? <==> exists i :: 0 <= i < |mas| && mas[i] !in names
    ensures r.Failure? ==> r.error == err
    decreases |mas|
  {
    if mas == [] then Success((current, selected))
    else
      var b := mas[0];
      assert forall i :: 1 <= i < |mas| ==> mas[i] == mas[1..][i - 1];
      if b !in names then Failure(err)
      else
        var n := names[b];
        if previous.Some? && n !in previous.value then Select(mas[1..], names, previous, current, selected, err)
        else if n in current then Select(mas[1..], names, previous, current, selected, err)
        else if b !in selected then Select(mas[1..], names, previous, current + [n], selected + [b], err)
        else Select(mas[1..], names, previous, current, selected, err)
  }

  /**
   * Each new name `added[j]` is the name of the new message `used[j]`, taken
   * from `mas`, and lies in the previous round's set when there is one.
   */
  predicate PickedPairs(mas: seq<nat>, names: map<nat, string>, previous: Option<seq<string>>, added: seq<string>, used: seq<nat>) {
    && |added| == |used|
    && forall j :: 0 <= j < |added| ==>
         used[j] in mas && used[j] in names && names[used[j]] == added[j] && (previous.Some? ==> added[j] in previous.value)
  }

  /**
   * What a round's result is made of: it extends the names and the used
   * messages by matching pairs, and repeats no name and no message.
   */
  predicate Picks(mas: seq<nat>, names: map<nat, string>, previous: Option<seq<string>>,
                  current: seq<string>, selected: seq<nat>, current': seq<string>, selected': seq<nat>)
  {
    && |current| <= |current'| && current'[..|current|] == current
    && |selected| <= |selected'| && selected'[..|selected|] == selected
    && PickedPairs(mas, names, previous, current'[|current|..], selected'[|selected|..])
    && (Distinct(current) ==> Distinct(current'))
    && (Distinct(selected) ==> Distinct(selected'))
  }

  lemma {:induction false} SelectPicks(mas: seq<nat>, names: map<nat, string>, previous: Option<seq<string>>,
                                       current: seq<string>, selected: seq<nat>, err: string)
    requires Select(mas, names, previous, current, selected, err).Success?
    ensures var r := Select(mas, names, previous, current, selected, err).value;
      Picks(mas, names, previous, current, selected, r.0, r.1)
    decreases |mas|
  {
    var r := Select(mas, names, previous, current, selected, err).value;
    if mas == [] {
      assert r.0[|current|..] == [] && r.1[|selected|..] == [];
    } else {
      var b := mas[0];
      var n := names[b];
      if (previous.Some? && n !in previous.value) || n in current || b in selected {
        SelectPicks(mas[1..], names, previous, current, selected, err);
        assert mas == [b] + mas[1..];
      } else {
        var c, s := current + [n], selected + [b];
        SelectPicks(mas[1..], names, previous, c, s, err);
        PicksCons(mas[1..], names, previous, current, selected, n, b, r.0, r.1);
        assert mas == [b] + mas[1..];
      }
    }
  }

  /** Prepending one fresh pick `(n, b)` to a valid extension keeps it valid. */
  lemma PicksCons(mas: seq<nat>, names: map<nat, string>, previous: Option<seq<string>>,
                  current: seq<string>, selected: seq<nat>, n: string, b: nat, current': seq<string>, selected': seq<nat>)
    requires b in names && names[b] == n && (previous.Some? ==> n in previous.value)
    requires n !in current && b !in selected
    requires Picks(mas, names, previous, current + [n], selected + [b], current', selected')
    ensures Picks([b] + mas, names, previous, current, selected, current', selected')
  {
    assert current'[..|current|] == (current + [n])[..|current|] == current;
    assert selected'[..|selected|] == (selected + [b])[..|selected|] == selected;
    assert current'[|current|..] == [n] + current'[|current| + 1..];
    assert selected'[|selected|..] == [b] + selected'[|selected| + 1..];
    if Distinct(current) {
      assert Distinct(current + [n]);
    }
    if Distinct(selected) {
      assert Distinct(selected + [b]);
    }
  }

  /** The round loop: walks `mas` once, keeping what `Select` keeps. */
  method PickNames(mas: seq<nat>, names: map<nat, string>, previous: Option<seq<string>>, selected: seq<nat>, err: string)
    returns (r: Result<(seq<string>, seq<nat>), string>)
    ensures r == Select(mas, names, previous, [], selected, err)
  {
    var current: seq<string> := [];
    var used := selected;
    for k := 0 to |mas|
      invariant Select(mas[k..], names, previous, current, used, err) == Select(mas, names, previous, [], selected, err)
    {
      assert mas[k..][1..] == mas[k + 1..];
      var messageB := mas[k];
      if messageB !in names {
        return Failure(err);
      }
      var nameB := names[messageB];
      if previous.Some? && nameB !in previous.value {
        continue;
      }
      if nameB in current {
        continue;
      }
      if messageB !in used {
        used := used + [messageB];
        current := current + [nameB];
      }
    }
    return Success((current, used));
  }

  /**
   * The first `k` rounds for one name's messages: the anonymity sets so far
   * and the messages used so far. The first round has no previous set and
   * reports a missing name as `FirstNameError`; the later ones are confined
   * to the previous round's set and report `LaterNameError`.
   */
  function Rounds(messages: seq<nat>, k: nat, names: map<nat, string>, anonSets: map<nat, seq<nat>>)
    : (r: Result<(seq<(nat, seq<string>)>, seq<nat>), string>)
    requires k <= |messages|
    requires forall m :: m in messages ==> m in anonSets
    ensures r.Success? ==> |r.value.0| == k && forall i :: 0 <= i < k ==> r.value.0[i].0 == messages[i]
    ensures r.Failure? ==> r.error == FirstNameError || r.error == LaterNameError
  {
    if k == 0 then Success(([], []))
    else
      match Rounds(messages, k - 1, names, anonSets)
      case Failure(e) => Failure(e)
      case Success((sets, selected)) =>
        var previous := if k == 1 then None else Some(sets[k - 2].1);
        var err := if k == 1 then FirstNameError else LaterNameError;
        match Select(anonSets[messages[k - 1]], names, previous, [], selected, err)
        case Failure(e) => Failure(e)
        case Success((current, selected')) => Success((sets + [(messages[k - 1], current)], selected'))
  }

  /** The outcome for one name: its anonymity sets, one per message, or the error. */
  function Outcome(messages: seq<nat>, names: map<nat, string>, anonSets: map<nat, seq<nat>>): Result<seq<(nat, seq<string>)>, string>
    requires forall m :: m in messages ==> m in anonSets
  {
    match Rounds(messages, |messages|, names, anonSets)
    case Success((sets, _)) => Success(sets)
    case Failure(e) => Failure(e)
  }

  lemma {:induction false} FailureStays(messages: seq<nat>, k: nat, n: nat, names: map<nat, string>, anonSets: map<nat, seq<nat>>)
    requires k <= n <= |messages|
    requires forall m :: m in messages ==> m in anonSets
    requires Rounds(messages, k, names, anonSets).Failure?
    ensures Rounds(messages, n, names, anonSets) == Rounds(messages, k, names, anonSets)
    decreases n - k
  {
    if k < n {
      FailureStays(messages, k, n - 1, names, anonSets);
    }
  }

  lemma FirstRound(messages: seq<nat>, names: map<nat, string>, anonSets: map<nat, seq<nat>>)
    requires messages != []
    requires forall m :: m in messages ==> m in anonSets
    ensures var p := Select(anonSets[messages[0]], names, None, [], [], FirstNameError);
      Rounds(messages, 1, names, anonSets) == if p.Success? then Success(([(messages[0], p.value.0)], p.value.1)) else Failure(p.error)
  {
    assert Rounds(messages, 0, names, anonSets) == Success(([], []));
    var p := Select(anonSets[messages[0]], names, None, [], [], FirstNameError);
    if p.Success? {
      assert [] + [(messages[0], p.value.0)] == [(messages[0], p.value.0)];
    }
  }

  /** The anonymity sets of one name (the body of the loop over names). */
  method NameAnonymitySets(messages: seq<nat>, names: map<nat, string>, anonSets: map<nat, seq<nat>>)
    returns (r: Result<seq<(nat, seq<string>)>, string>)
    requires messages != []
    requires forall m :: m in messages ==> m in anonSets
    ensures r == Outcome(messages, names, anonSets)
  {
    var first := messages[0];
    var picked := PickNames(anonSets[first], names, None, [], FirstNameError);
    if picked.Failure? {
      FailureStays(messages, 1, |messages|, names, anonSets);
      return Failure(picked.error);
    }
    var anonymitySets := [(first, picked.value.0)];
    var selected := picked.value.1;
    FirstRound(messages, names, anonSets);
    for k := 1 to |messages|
      invariant Rounds(messages, k, names, anonSets) == Success((anonymitySets, selected))
    {
      var messageA := messages[k];
      // the last set always exists here, so its `ok_or` never fails
      var previous := anonymitySets[|anonymitySets| - 1].1;
      var p := PickNames(anonSets[messageA], names, Some(previous), selected, LaterNameError);
      if p.Failure? {
        FailureStays(messages, k + 1, |messages|, names, anonSets);
        return Failure(p.error);
      }
      anonymitySets := anonymitySets + [(messageA, p.value.0)];
      selected := p.value.1;
    }
    return Success(anonymitySets);
  }

  /** The previous round's set that round `k` (counting from one) is confined to. */
  function PreviousOf(sets: seq<(nat, seq<string>)>, k: nat): Option<seq<string>>
    requires 1 <= k && k - 2 < |sets|
  {
    if k == 1 then None else Some(sets[k - 2].1)
  }

  /** A successful round `k` extends the successful rounds before it by one valid pick. */
  lemma RoundLast(messages: seq<nat>, k: nat, names: map<nat, string>, anonSets: map<nat, seq<nat>>)
    requires 1 <= k <= |messages|
    requires forall m :: m in messages ==> m in anonSets
    requires Rounds(messages, k, names, anonSets).Success?
    ensures Rounds(messages, k - 1, names, anonSets).Success?
    ensures var (sets, selected) := Rounds(messages, k, names, anonSets).value;
      var (sets0, selected0) := Rounds(messages, k - 1, names, anonSets).value;
      && sets == sets0 + [(messages[k - 1], sets[k - 1].1)]
      && Picks(anonSets[messages[k - 1]], names, PreviousOf(sets0, k), [], selected0, sets[k - 1].1, selected)
  {
    var (sets0, selected0) := Rounds(messages, k - 1, names, anonSets).value;
    var err := if k == 1 then FirstNameError else LaterNameError;
    SelectPicks(anonSets[messages[k - 1]], names, PreviousOf(sets0, k), [], selected0, err);
  }

  /** Pruning only shrinks: every name of a later round was in the round before. */
  lemma {:induction false} RoundsNested(messages: seq<nat>, k: nat, names: map<nat, string>, anonSets: map<nat, seq<nat>>)
    requires k <= |messages|
    requires forall m :: m in messages ==> m in anonSets
    requires Rounds(messages, k, names, anonSets).Success?
    ensures var sets := Rounds(messages, k, names, anonSets).value.0;
      forall i :: 1 <= i < k ==> Within(sets[i].1, sets[i - 1].1)
  {
    if k > 0 {
      RoundLast(messages, k, names, anonSets);
      RoundsNested(messages, k - 1, names, anonSets);
      var sets := Rounds(messages, k, names, anonSets).value.0;
      var sets0 := Rounds(messages, k - 1, names, anonSets).value.0;
      var last := sets[k - 1].1;
      assert last[0..] == last;
      forall i | 1 <= i < k
        ensures Within(sets[i].1, sets[i - 1].1)
      {
        if i < k - 1 {
          assert sets[i] == sets0[i] && sets[i - 1] == sets0[i - 1];
        } else {
          forall n | n in last ensures n in sets0[k - 2].1 {
            var j :| 0 <= j < |last| && last[j] == n;
          }
        }
      }
    }
  }

  /** Every element of `a` is in `b`. */
  predicate Within(a: seq<string>, b: seq<string>) {
    forall n :: n in a ==> n in b
  }

  /** The number of names over all rounds. */
  function SizesSum(sets: seq<(nat, seq<string>)>): nat {
    if sets == [] then 0 else SizesSum(sets[..|sets| - 1]) + |sets[|sets| - 1].1|
  }

  /**
   * No round repeats a name, no message is used twice over all rounds, and
   * every name kept used up exactly one message.
   */
  lemma {:induction false} RoundsFresh(messages: seq<nat>, k: nat, names: map<nat, string>, anonSets: map<nat, seq<nat>>)
    requires k <= |messages|
    requires forall m :: m in messages ==> m in anonSets
    requires Rounds(messages, k, names, anonSets).Success?
    ensures var (sets, selected) := Rounds(messages, k, names, anonSets).value;
      && (forall i :: 0 <= i < k ==> Distinct(sets[i].1))
      && Distinct(selected)
      && |selected| == SizesSum(sets)
  {
    if k > 0 {
      RoundLast(messages, k, names, anonSets);
      RoundsFresh(messages, k - 1, names, anonSets);
      var (sets, selected) := Rounds(messages, k, names, anonSets).value;
      var sets0 := Rounds(messages, k - 1, names, anonSets).value.0;
      assert sets[..k - 1] == sets0;
      assert sets[k - 1].1[0..] == sets[k - 1].1;
      assert forall i :: 0 <= i < k - 1 ==> sets[i] == sets0[i];
      assert Distinct<string>([]);
    }
  }

  /** Every name kept in round `i` is the name of a message in that round's message anonymity set. */
  lemma {:induction false} RoundsFromSets(messages: seq<nat>, k: nat, names: map<nat, string>, anonSets: map<nat, seq<nat>>)
    requires k <= |messages|
    requires forall m :: m in messages ==> m in anonSets
    requires Rounds(messages, k, names, anonSets).Success?
    ensures var sets := Rounds(messages, k, names, anonSets).value.0;
      forall i, n :: 0 <= i < k && n in sets[i].1 ==>
        exists b :: b in anonSets[messages[i]] && b in names && names[b] == n
  {
    if k > 0 {
      RoundLast(messages, k, names, anonSets);
      RoundsFromSets(messages, k - 1, names, anonSets);
      var (sets, selected) := Rounds(messages, k, names, anonSets).value;
      var (sets0, selected0) := Rounds(messages, k - 1, names, anonSets).value;
      var last := sets[k - 1].1;
      assert last[0..] == last;
      forall i, n | 0 <= i < k && n in sets[i].1
        ensures exists b :: b in anonSets[messages[i]] && b in names && names[b] == n
      {
        if i < k - 1 {
          assert sets[i] == sets0[i];
        } else {
          var j :| 0 <= j < |last| && last[j] == n;
          var b := selected[|selected0| + j];
          assert selected[|selected0|..][j] == b;
          assert b in anonSets[messages[i]] && b in names && names[b] == n;
        }
      }
    }
  }

  /**
   * The rounds fail exactly when some message of some round's message
   * anonymity set has no name; the error is the first round's exactly when
   * such a message is in the first round's set.
   */
  lemma {:induction false} RoundsFail(messages: seq<nat>, k: nat, names: map<nat, string>, anonSets: map<nat, seq<nat>>)
    requires k <= |messages|
    requires forall m :: m in messages ==> m in anonSets
    ensures Rounds(messages, k, names, anonSets).Failure? <==>
      exists i, b :: 0 <= i < k && b in anonSets[messages[i]] && b !in names
    ensures Rounds(messages, k, names, anonSets).Failure? ==>
      (Rounds(messages, k, names, anonSets).error == FirstNameError <==> exists b :: b in anonSets[messages[0]] && b !in names)
  {
    if k > 0 {
      RoundsFail(messages, k - 1, names, anonSets);
      var mas := anonSets[messages[k - 1]];
      if Rounds(messages, k - 1, names, anonSets).Success? {
        var (sets0, selected0) := Rounds(messages, k - 1, names, anonSets).value;
        var err := if k == 1 then FirstNameError else LaterNameError;
        var p := Select(mas, names, PreviousOf(sets0, k), [], selected0, err);
        assert p.Failure? <==> exists b :: b in mas && b !in names by {
          if p.Failure? {
            var x :| 0 <= x < |mas| && mas[x] !in names;
          }
        }
        assert Rounds(messages, k, names, anonSets).Failure? <==> p.Failure?;
      }
    }
  }

  /** Every message of every name has a message anonymity set (the `unwrap` on the lookup). */
  predicate AllHaveSets(collection: map<string, seq<nat>>, anonSets: map<nat, seq<nat>>) {
    forall a, m :: a in collection && m in collection[a] ==> m in anonSets
  }

  /** The anonymity sets of every name with at least one message, for the names whose rounds succeed. */
  function SetsOf(collection: map<string, seq<nat>>, names: map<nat, string>, anonSets: map<nat, seq<nat>>)
    : map<string, seq<(nat, seq<string>)>>
    requires AllHaveSets(collection, anonSets)
  {
    SetsAmong(collection, names, anonSets, collection.Keys)
  }

  /** `SetsOf` restricted to the names in `done`. */
  function SetsAmong(collection: map<string, seq<nat>>, names: map<nat, string>, anonSets: map<nat, seq<nat>>, done: set<string>)
    : map<string, seq<(nat, seq<string>)>>
    requires AllHaveSets(collection, anonSets)
  {
    map a | a in done && a in collection && collection[a] != [] && Outcome(collection[a], names, anonSets).Success?
      :: Outcome(collection[a], names, anonSets).value
  }

  lemma SetsAmongStep(collection: map<string, seq<nat>>, names: map<nat, string>, anonSets: map<nat, seq<nat>>, done: set<string>, a: string)
    requires AllHaveSets(collection, anonSets)
    requires a in collection && Outcome(collection[a], names, anonSets).Success?
    ensures SetsAmong(collection, names, anonSets, done + {a}) ==
      if collection[a] != [] then SetsAmong(collection, names, anonSets, done)[a := Outcome(collection[a], names, anonSets).value]
      else SetsAmong(collection, names, anonSets, done)
  {
  }

  /**
   * Relationship anonymity sets for every name of collection `a`: succeeds
   * exactly when every name's rounds do, and then holds each nonempty name's
   * sets; otherwise the error of one failing name.
   */
  method ComputeRelationShipAnonymitySets(collection: map<string, seq<nat>>, names: map<nat, string>, anonSets: map<nat, seq<nat>>)
    returns (r: Result<map<string, seq<(nat, seq<string>)>>, string>)
    requires AllHaveSets(collection, anonSets)
    ensures r.Success? <==> forall a :: a in collection ==> Outcome(collection[a], names, anonSets).Success?
    ensures r.Success? ==> r.value == SetsOf(collection, names, anonSets)
    ensures r.Failure? ==> r.error == FirstNameError || r.error == LaterNameError
  {
    var result: map<string, seq<(nat, seq<string>)>> := map[];
    var rest := collection.Keys;
    while rest != {}
      invariant rest <= collection.Keys
      invariant forall a :: a in collection && a !in rest ==> Outcome(collection[a], names, anonSets).Success?
      invariant result == SetsAmong(collection, names, anonSets, collection.Keys - rest)
      decreases rest
    {
      var nameA :| nameA in rest;
      var messagesA := collection[nameA];
      assert collection.Keys - (rest - {nameA}) == collection.Keys - rest + {nameA};
      if messagesA != [] {
        var sets := NameAnonymitySets(messagesA, names, anonSets);
        if sets.Failure? {
          return Failure(sets.error);
        }
        SetsAmongStep(collection, names, anonSets, collection.Keys - rest, nameA);
        result := result[nameA := sets.value];
      } else {
        assert Rounds(messagesA, 0, names, anonSets).Success?;
        SetsAmongStep(collection, names, anonSets, collection.Keys - rest, nameA);
      }
      rest := rest - {nameA};
    }
    assert collection.Keys - rest == collection.Keys;
    return Success(result);
  }

  // ---------------------------------------------------------------------
  // Mappings from the trace
  // ---------------------------------------------------------------------

  /** The source name (`source`) or the destination name of an entry. */
  function NameOf(e: TraceEntry, source: bool): string {
    if source then e.sourceName else e.destinationName
  }

  /** Message id to name, each entry overwriting the ones before it. */
  function NameMapping(s: seq<TraceEntry>, source: bool): (r: map<nat, string>)
    ensures r.Keys == set i | 0 <= i < |s| :: s[i].mId
  {
    if s == [] then map[]
    else
      var r := NameMapping(s[..|s| - 1], source)[s[|s| - 1].mId := NameOf(s[|s| - 1], source)];
      assert forall i :: 0 <= i < |s| - 1 ==> s[..|s| - 1][i] == s[i];
      r
  }

  /** The name an id maps to is the name on the last entry with that id. */
  lemma {:induction false} NameMappingLast(s: seq<TraceEntry>, source: bool, k: nat)
    requires k < |s|
    requires forall j :: k < j < |s| ==> s[j].mId != s[k].mId
    ensures NameMapping(s, source)[s[k].mId] == NameOf(s[k], source)
  {
    if k < |s| - 1 {
      NameMappingLast(s[..|s| - 1], source, k);
    }
  }

  /** The ids of the entries with name `n`, in trace order. */
  function MessagesOf(s: seq<TraceEntry>, source: bool, n: string): (r: seq<nat>)
    ensures forall m :: m in r <==> exists i :: 0 <= i < |s| && NameOf(s[i], source) == n && s[i].mId == m
  {
    if s == [] then []
    else
      var p := s[..|s| - 1];
      assert forall i :: 0 <= i < |p| ==> p[i] == s[i];
      MessagesOf(p, source, n) + (if NameOf(s[|s| - 1], source) == n then [s[|s| - 1].mId] else [])
  }

  /** The names on the entries. */
  function NamesOf(s: seq<TraceEntry>, source: bool): set<string> {
    set i | 0 <= i < |s| :: NameOf(s[i], source)
  }

  /** Name to the ids of its entries. */
  function MessageMapping(s: seq<TraceEntry>, source: bool): map<string, seq<nat>> {
    map n | n in NamesOf(s, source) :: MessagesOf(s, source, n)
  }

  /** Builds both id-to-name mappings; a later entry with the same id overwrites. */
  method ComputeSourceAndDestinationMapping(t: Trace) returns (sourceMapping: map<nat, string>, destinationMapping: map<nat, string>)
    ensures sourceMapping == NameMapping(t.entries, true)
    ensures destinationMapping == NameMapping(t.entries, false)
  {
    sourceMapping, destinationMapping := map[], map[];
    for i := 0 to |t.entries|
      invariant sourceMapping == NameMapping(t.entries[..i], true)
      invariant destinationMapping == NameMapping(t.entries[..i], false)
    {
      var entry := t.entries[i];
      assert t.entries[..i + 1][..i] == t.entries[..i];
      sourceMapping := sourceMapping[entry.mId := entry.sourceName];
      destinationMapping := destinationMapping[entry.mId := entry.destinationName];
    }
    assert t.entries[..|t.entries|] == t.entries;
  }

  lemma NamesOfSnoc(s: seq<TraceEntry>, source: bool, e: TraceEntry)
    ensures NamesOf(s + [e], source) == NamesOf(s, source) + {NameOf(e, source)}
  {
    var s' := s + [e];
    forall x | x in NamesOf(s', source) ensures x in NamesOf(s, source) + {NameOf(e, source)} {
      var i :| 0 <= i < |s'| && NameOf(s'[i], source) == x;
      if i < |s| {
        assert s'[i] == s[i];
      }
    }
    forall x | x in NamesOf(s, source) ensures x in NamesOf(s', source) {
      var i :| 0 <= i < |s| && NameOf(s[i], source) == x;
      assert s'[i] == s[i];
    }
    assert NameOf(s'[|s|], source) == NameOf(e, source);
  }

  lemma {:induction false} MessagesOfAbsent(s: seq<TraceEntry>, source: bool, n: string)
    requires n !in NamesOf(s, source)
    ensures MessagesOf(s, source, n) == []
  {
    if s != [] {
      var p := s[..|s| - 1];
      assert NamesOf(p + [s[|s| - 1]], source) == NamesOf(s, source) by {
        assert p + [s[|s| - 1]] == s;
      }
      NamesOfSnoc(p, source, s[|s| - 1]);
      MessagesOfAbsent(p, source, n);
    }
  }

  lemma MessageMappingStep(s: seq<TraceEntry>, source: bool, e: TraceEntry)
    ensures var mm := MessageMapping(s, source);
      var n := NameOf(e, source);
      MessageMapping(s + [e], source) == mm[n := (if n in mm then mm[n] else []) + [e.mId]]
  {
    var mm := MessageMapping(s, source);
    var n := NameOf(e, source);
    var s' := s + [e];
    assert s'[..|s'| - 1] == s;
    NamesOfSnoc(s, source, e);
    if n !in mm {
      MessagesOfAbsent(s, source, n);
    }
    var expected := mm[n := (if n in mm then mm[n] else []) + [e.mId]];
    assert MessageMapping(s', source).Keys == expected.Keys;
    forall x | x in expected ensures MessageMapping(s', source)[x] == expected[x] {
      assert MessagesOf(s', source, x) == MessagesOf(s, source, x) + (if n == x then [e.mId] else []);
    }
  }

  /** Builds both name-to-ids mappings, ids in trace order. */
  method ComputeSourceAndDestinationMessageMapping(t: Trace)
    returns (sourceMessageMapping: map<string, seq<nat>>, destinationMessageMapping: map<string, seq<nat>>)
    ensures sourceMessageMapping == MessageMapping(t.entries, true)
    ensures destinationMessageMapping == MessageMapping(t.entries, false)
  {
    sourceMessageMapping, destinationMessageMapping := map[], map[];
    assert MessageMapping([], true) == map[] && MessageMapping([], false) == map[];
    for i := 0 to |t.entries|
      invariant sourceMessageMapping == MessageMapping(t.entries[..i], true)
      invariant destinationMessageMapping == MessageMapping(t.entries[..i], false)
    {
      var traceEntry := t.entries[i];
      assert t.entries[..i + 1] == t.entries[..i] + [traceEntry];
      MessageMappingStep(t.entries[..i], true, traceEntry);
      MessageMappingStep(t.entries[..i], false, traceEntry);
      assert NameOf(traceEntry, true) == traceEntry.sourceName && NameOf(traceEntry, false) == traceEntry.destinationName;
      if traceEntry.sourceName !in sourceMessageMapping {
        assert [] + [traceEntry.mId] == [traceEntry.mId];
        sourceMessageMapping := sourceMessageMapping[traceEntry.sourceName := [traceEntry.mId]];
      } else {
        sourceMessageMapping := sourceMessageMapping[traceEntry.sourceName := sourceMessageMapping[traceEntry.sourceName] + [traceEntry.mId]];
      }
      if traceEntry.destinationName !in destinationMessageMapping {
        assert [] + [traceEntry.mId] == [traceEntry.mId];
        destinationMessageMapping := destinationMessageMapping[traceEntry.destinationName := [traceEntry.mId]];
      } else {
        destinationMessageMapping := destinationMessageMapping[traceEntry.destinationName := destinationMessageMapping[traceEntry.destinationName] + [traceEntry.mId]];
      }
    }
    assert t.entries[..|t.entries|] == t.entries;
  }

  // ---------------------------------------------------------------------
  // The whole prototype analysis
  // ---------------------------------------------------------------------

  /** An arrival at position `j` leaves a list for its id from then on. */
  lemma {:induction false} DestSnapshotSome(q: seq<ProcessingEvent>, i: nat, j: nat)
    requires j < i <= |q| && IsArrival(q[j])
    ensures DestSnapshot(q, i, q[j].mId).Some?
  {
    if j < i - 1 {
      DestSnapshotSome(q, i - 1, j);
    }
  }

  /**
   * Every source message's window saw at least one arrival. The prototype
   * looks up each sent message's set with `unwrap` and panics otherwise.
   */
  predicate EveryWindowSeesArrival(t: Trace, minDelay: int, maxDelay: int) {
    var sets := SourceSetsMap(Queue(t.entries, minDelay, maxDelay));
    forall k :: 0 <= k < |t.entries| ==> t.entries[k].mId in sets
  }

  /** Every message of the trace has a destination-side list: its own arrival is in the queue. */
  lemma EveryArrivalHasSet(t: Trace, minDelay: int, maxDelay: int)
    ensures AllHaveSets(MessageMapping(t.entries, false), DestSetsMap(Queue(t.entries, minDelay, maxDelay)))
  {
    var q := Queue(t.entries, minDelay, maxDelay);
    var dmm := MessageMapping(t.entries, false);
    forall a, m | a in dmm && m in dmm[a]
      ensures m in DestSetsMap(q)
    {
      var k :| 0 <= k < |t.entries| && NameOf(t.entries[k], false) == a && t.entries[k].mId == m;
      var e := t.entries[k];
      EntryInQueue(t.entries, minDelay, maxDelay, k);
      var arrival := ProcessingEvent(AddDestinationMessage, e.destinationTimestamp, e.mId, e.destinationName);
      assert arrival in EntryEvents(e, minDelay * NanosPerMilli, maxDelay * NanosPerMilli + 1);
      assert arrival in q;
      var j :| 0 <= j < |q| && q[j] == arrival;
      DestSnapshotSome(q, |q|, j);
      assert m in ArrivalIds(q);
    }
  }

  lemma SourceSideHasSets(t: Trace, minDelay: int, maxDelay: int)
    requires EveryWindowSeesArrival(t, minDelay, maxDelay)
    ensures AllHaveSets(MessageMapping(t.entries, true), SourceSetsMap(Queue(t.entries, minDelay, maxDelay)))
  {
    var smm := MessageMapping(t.entries, true);
    forall a, m | a in smm && m in smm[a]
      ensures m in SourceSetsMap(Queue(t.entries, minDelay, maxDelay))
    {
      var k :| 0 <= k < |t.entries| && NameOf(t.entries[k], true) == a && t.entries[k].mId == m;
    }
  }

  /**
   * Relationship anonymity from both sides: each name's messages pruned over
   * the names on the other side of its message anonymity sets. Fails exactly
   * when some round meets a message without a name.
   */
  method ComputeRelationshipAnonymity(t: Trace, minDelay: int, maxDelay: int)
    returns (r: Result<(map<string, seq<(nat, seq<string>)>>, map<string, seq<(nat, seq<string>)>>), string>)
    requires EveryWindowSeesArrival(t, minDelay, maxDelay)
    ensures var q := Queue(t.entries, minDelay, maxDelay);
      var sourceSets, destinationSets := SourceSetsMap(q), DestSetsMap(q);
      var sourceMessages, destinationMessages := MessageMapping(t.entries, true), MessageMapping(t.entries, false);
      var sourceNames, destinationNames := NameMapping(t.entries, true), NameMapping(t.entries, false);
      && AllHaveSets(sourceMessages, sourceSets)
      && AllHaveSets(destinationMessages, destinationSets)
      && (r.Success? <==>
            && (forall a :: a in sourceMessages ==> Outcome(sourceMessages[a], destinationNames, sourceSets).Success?)
            && (forall a :: a in destinationMessages ==> Outcome(destinationMessages[a], sourceNames, destinationSets).Success?))
      && (r.Success? ==> r.value == (SetsOf(sourceMessages, destinationNames, sourceSets), SetsOf(destinationMessages, sourceNames, destinationSets)))
      && (r.Failure? ==> r.error == FirstNameError || r.error == LaterNameError)
  {
    var sourceMessageMapping, destinationMessageMapping := ComputeSourceAndDestinationMessageMapping(t);
    var sourceMapping, destinationMapping := ComputeSourceAndDestinationMapping(t);
    var sets := ComputeMessageAnonymitySets(t, minDelay, maxDelay);
    var (sourceMessageSets, destinationMessageSets) := sets.value;
    SourceSideHasSets(t, minDelay, maxDelay);
    EveryArrivalHasSet(t, minDelay, maxDelay);
    var sourceSide := ComputeRelationShipAnonymitySets(sourceMessageMapping, destinationMapping, sourceMessageSets);
    if sourceSide.Failure? {
      return Failure(sourceSide.error);
    }
    var destinationSide := ComputeRelationShipAnonymitySets(destinationMessageMapping, sourceMapping, destinationMessageSets);
    if destinationSide.Failure? {
      return Failure(destinationSide.error);
    }
    return Success((sourceSide.value, destinationSide.value));
  }
}

/**
 * The metric engine: the sweep over the event queue that computes, for
 * every source message, its anonymity set (the messages that arrive while
 * its window is open) as per-destination deltas against the same source's
 * previous message, and the progressive pruning of candidate destinations
 * that turns those deltas into relationship anonymity sets.
 *
 * Hash maps and hash sets are Dafny maps and sets; where the Rust code
 * iterates over a hash container the loops pick an arbitrary remaining key,
 * so nothing proved depends on the iteration order.
 */
module Metric {
  import opened Wrappers
  import opened Sorting
  import opened Seqs
  import opened Trace
  import opened Events

  /** An anonymity set split by the destination of its messages. */
  type SplitSet = map<DestinationId, set<MessageId>>

  /** Per destination: messages new since the previous set, and messages shared with it. */
  type SetDelta = map<DestinationId, (nat, nat)>

  type MessageDelta = (MessageId, SetDelta)

  /** Remaining candidate messages per destination. */
  type Candidates = map<DestinationId, nat>

  type Relationship = (MessageId, set<DestinationId>)

  // ----- relative_set_distance and split_by_destination -----

  /**
   * `relative_set_distance`: the messages of `set2` not in `set1`, and those
   * in both. Together they are all of `set2`.
   */
  function RelativeSetDistance(set1: set<MessageId>, set2: set<MessageId>): (r: (nat, nat))
    ensures r.0 + r.1 == |set2|
    ensures r.1 <= |set1|
    ensures r.0 == 0 <==> set2 <= set1
    ensures r.1 == 0 <==> set2 !! set1
  {
    var added, shared := set2 - set1, set2 * set1;
    assert set2 == added + shared;
    assert shared <= set1;
    SubsetCard(shared, set1);
    assert added == {} <==> set2 <= set1;
    (|added|, |shared|)
  }

  lemma SubsetCard<T>(a: set<T>, b: set<T>)
    requires a <= b
    ensures |a| <= |b|
  {
    assert b == a + (b - a);
  }

  /** The destinations the messages of `anon` go to. */
  function Destinations(anon: set<MessageId>, dm: map<MessageId, DestinationId>): set<DestinationId>
    requires anon <= dm.Keys
  {
    set m | m in anon :: dm[m]
  }

  /**
   * The split of `anon` by destination: a partition of `anon` into nonempty
   * parts, one per destination, each holding exactly that destination's
   * messages.
   */
  function SplitSpec(anon: set<MessageId>, dm: map<MessageId, DestinationId>): (r: SplitSet)
    requires anon <= dm.Keys
    ensures r.Keys == Destinations(anon, dm)
    ensures forall d :: d in r ==> r[d] != {} && r[d] <= anon
    ensures forall d, m :: d in r && m in r[d] ==> dm[m] == d
    ensures forall m :: m in anon ==> dm[m] in r && m in r[dm[m]]
  {
    var r := map d | d in Destinations(anon, dm) :: Part(anon, dm, d);
    assert forall d :: d in r ==> exists m :: m in anon && dm[m] == d && m in r[d];
    r
  }

  /** The messages of `anon` that go to `d`. */
  function Part(anon: set<MessageId>, dm: map<MessageId, DestinationId>, d: DestinationId): set<MessageId>
    requires anon <= dm.Keys
  {
    set m | m in anon && dm[m] == d
  }

  lemma PartAdd(done: set<MessageId>, m: MessageId, dm: map<MessageId, DestinationId>, d: DestinationId)
    requires done <= dm.Keys && m in dm
    ensures Part(done + {m}, dm, d) == if d == dm[m] then Part(done, dm, d) + {m} else Part(done, dm, d)
  {
  }

  /** The parts of a split are pairwise disjoint. */
  lemma SplitDisjoint(anon: set<MessageId>, dm: map<MessageId, DestinationId>, d1: DestinationId, d2: DestinationId)
    requires anon <= dm.Keys
    requires d1 in SplitSpec(anon, dm) && d2 in SplitSpec(anon, dm) && d1 != d2
    ensures SplitSpec(anon, dm)[d1] !! SplitSpec(anon, dm)[d2]
  {
    var r := SplitSpec(anon, dm);
    forall m | m in r[d1] ensures m !in r[d2] {
      assert dm[m] == d1;
    }
  }

  /** Adding one message to a split set adds it under its own destination. */
  lemma SplitAdd(done: set<MessageId>, m: MessageId, dm: map<MessageId, DestinationId>)
    requires done <= dm.Keys && m in dm
    ensures var r := SplitSpec(done, dm);
      SplitSpec(done + {m}, dm) == r[dm[m] := (if dm[m] in r then r[dm[m]] else {}) + {m}]
  {
    var r := SplitSpec(done, dm);
    var d := dm[m];
    var l := SplitSpec(done + {m}, dm);
    var u := r[d := (if d in r then r[d] else {}) + {m}];
    assert l.Keys == u.Keys by {
      assert Destinations(done + {m}, dm) == Destinations(done, dm) + {d};
    }
    forall k | k in l ensures l[k] == u[k] {
      PartAdd(done, m, dm, k);
    }
  }

  /** `split_by_destination`. */
  method SplitByDestination(anon: set<MessageId>, dm: map<MessageId, DestinationId>) returns (res: SplitSet)
    requires anon <= dm.Keys
    ensures res == SplitSpec(anon, dm)
  {
    res := map[];
    var rest := anon;
    assert anon - rest == {};
    while rest != {}
      invariant rest <= anon
      invariant res == SplitSpec(anon - rest, dm)
      decreases rest
    {
      var m :| m in rest;
      var destination := dm[m];
      SplitAdd(anon - rest, m, dm);
      res := res[destination := (if destination in res then res[destination] else {}) + {m}];
      assert anon - (rest - {m}) == (anon - rest) + {m};
      rest := rest - {m};
    }
    assert anon - rest == anon;
  }

  // ----- the per-destination delta -----

  /** The previous messages at destination `d`, empty when there were none. */
  function PreviousAt(previous: Option<SplitSet>, d: DestinationId): set<MessageId> {
    if previous.Some? && d in previous.value then previous.value[d] else {}
  }

  /**
   * The delta of a closed set against the previous set of the same source:
   * every destination of the closed set, none other, with a missing
   * previous set or destination counting as empty.
   */
  function Delta(current: SplitSet, previous: Option<SplitSet>): (r: SetDelta)
    ensures r.Keys == current.Keys
    ensures forall d :: d in current ==> r[d].0 + r[d].1 == |current[d]|
  {
    match previous
    case None => map d | d in current :: (|current[d]|, 0)
    case Some(prev) =>
      map d | d in current :: if d in prev then RelativeSetDistance(prev[d], current[d]) else (|current[d]|, 0)
  }

  /**
   * Each destination's delta counts the messages new since, and shared
   * with, the previous set at that destination, and a missing previous set
   * or destination counts as empty.
   */
  lemma DeltaCounts(current: SplitSet, previous: Option<SplitSet>, d: DestinationId)
    requires d in current
    ensures Delta(current, previous)[d] ==
      (|current[d] - PreviousAt(previous, d)|, |current[d] * PreviousAt(previous, d)|)
  {
    if PreviousAt(previous, d) == {} {
      assert current[d] - {} == current[d] && current[d] * {} == {};
    }
  }

  // ----- the sweep, specified on queue positions -----

  /** The messages whose arrival lies strictly between queue positions `lo` and `hi`. */
  function ArrivalsBetween(q: seq<ProcessingEvent>, lo: int, hi: int): set<MessageId>
    requires hi <= |q|
  {
    set j | lo < j < hi && 0 <= j && IsArrival(q[j]) :: q[j].mId
  }

  lemma ArrivalsStep(q: seq<ProcessingEvent>, lo: int, hi: int)
    requires lo < hi < |q| && 0 <= hi
    ensures ArrivalsBetween(q, lo, hi + 1) ==
      ArrivalsBetween(q, lo, hi) + (if IsArrival(q[hi]) then {q[hi].mId} else {})
  {
    if IsArrival(q[hi]) {
      assert q[hi].mId in ArrivalsBetween(q, lo, hi + 1);
    }
  }

  /** Whether a window of `m` closed before queue position `i`. */
  function RemovedBefore(q: seq<ProcessingEvent>, i: nat, m: MessageId): bool
    requires i <= |q|
  {
    i > 0 && ((IsRemove(q[i - 1]) && q[i - 1].mId == m) || RemovedBefore(q, i - 1, m))
  }

  /** Every id of the queue is in both mappings. */
  ghost predicate Covered(q: seq<ProcessingEvent>, sm: map<MessageId, SourceId>, dm: map<MessageId, DestinationId>) {
    forall j :: 0 <= j < |q| ==> q[j].mId in sm && q[j].mId in dm
  }

  /** The position where the window closed at `r` opened. */
  ghost function AddIndex(q: seq<ProcessingEvent>, r: int): (a: nat)
    requires WellFormed(q) && 0 <= r < |q| && IsRemove(q[r])
    ensures a < r && IsAdd(q[a]) && q[a].mId == q[r].mId
  {
    var a :| 0 <= a < r && IsAdd(q[a]) && q[a].mId == q[r].mId;
    a
  }

  /** A message in the window closing at `r` arrived between its opening and `r`. */
  lemma ArrivalInWindow(q: seq<ProcessingEvent>, r: int, d: MessageId) returns (j: int)
    requires WellFormed(q) && 0 <= r < |q| && IsRemove(q[r])
    requires d in WindowAt(q, r)
    ensures AddIndex(q, r) < j < r && IsArrival(q[j]) && q[j].mId == d
  {
    j :| AddIndex(q, r) < j < r && 0 <= j && IsArrival(q[j]) && q[j].mId == d;
  }

  /** The anonymity set of the message whose window closes at `r`. */
  ghost function WindowAt(q: seq<ProcessingEvent>, r: int): set<MessageId>
    requires WellFormed(q) && 0 <= r < |q| && IsRemove(q[r])
  {
    ArrivalsBetween(q, AddIndex(q, r), r)
  }

  lemma ArrivalsCovered(q: seq<ProcessingEvent>, lo: int, hi: int, sm: map<MessageId, SourceId>, dm: map<MessageId, DestinationId>)
    requires Covered(q, sm, dm) && hi <= |q|
    ensures ArrivalsBetween(q, lo, hi) <= dm.Keys
  {
  }

  /** That set split by destination. */
  ghost function ClosedSplit(q: seq<ProcessingEvent>, r: int, sm: map<MessageId, SourceId>, dm: map<MessageId, DestinationId>): SplitSet
    requires WellFormed(q) && Covered(q, sm, dm) && 0 <= r < |q| && IsRemove(q[r])
  {
    ArrivalsCovered(q, AddIndex(q, r), r, sm, dm);
    SplitSpec(WindowAt(q, r), dm)
  }

  /** The split set of the last window of source `s` closed before position `i`. */
  ghost function LastSplit(q: seq<ProcessingEvent>, i: nat, s: SourceId,
                           sm: map<MessageId, SourceId>, dm: map<MessageId, DestinationId>): Option<SplitSet>
    requires WellFormed(q) && Covered(q, sm, dm) && i <= |q|
  {
    if i == 0 then None
    else if IsRemove(q[i - 1]) && sm[q[i - 1].mId] == s then Some(ClosedSplit(q, i - 1, sm, dm))
    else LastSplit(q, i - 1, s, sm, dm)
  }

  /** What the sweep records when the window at `r` closes. */
  ghost function Closing(q: seq<ProcessingEvent>, r: int, sm: map<MessageId, SourceId>, dm: map<MessageId, DestinationId>): MessageDelta
    requires WellFormed(q) && Covered(q, sm, dm) && 0 <= r < |q| && IsRemove(q[r])
  {
    (q[r].mId, Delta(ClosedSplit(q, r, sm, dm), LastSplit(q, r, sm[q[r].mId], sm, dm)))
  }

  /** The records of all windows closed before position `i`, in closing order. */
  ghost function Closings(q: seq<ProcessingEvent>, i: nat, sm: map<MessageId, SourceId>, dm: map<MessageId, DestinationId>): (r: seq<MessageDelta>)
    requires WellFormed(q) && Covered(q, sm, dm) && i <= |q|
    ensures forall x :: x in r ==> x.0 in sm
  {
    if i == 0 then []
    else Closings(q, i - 1, sm, dm) + (if IsRemove(q[i - 1]) then [Closing(q, i - 1, sm, dm)] else [])
  }

  /**
   * The state of the sweep before position `i`: every opened, not yet closed
   * window holds the arrivals since it opened; `last` holds each source's
   * last closed split set; `out` holds the records so far.
   */
  ghost predicate SweepInv(q: seq<ProcessingEvent>, i: nat, current: map<MessageId, set<MessageId>>,
                           last: map<SourceId, SplitSet>, out: seq<MessageDelta>,
                           sm: map<MessageId, SourceId>, dm: map<MessageId, DestinationId>)
    requires WellFormed(q) && Covered(q, sm, dm) && i <= |q|
  {
    && (forall a :: 0 <= a < i && IsAdd(q[a]) && !RemovedBefore(q, i, q[a].mId) ==>
          q[a].mId in current && current[q[a].mId] == ArrivalsBetween(q, a, i))
    && (forall s :: s in last <==> LastSplit(q, i, s, sm, dm).Some?)
    && (forall s :: s in last ==> last[s] == LastSplit(q, i, s, sm, dm).value)
    && out == Closings(q, i, sm, dm)
  }

  /** A window is closed once: no earlier close of the same message. */
  lemma {:induction false} NotRemovedBefore(q: seq<ProcessingEvent>, i: nat, r: int)
    requires WellFormed(q) && 0 <= r < |q| && IsRemove(q[r]) && i <= r
    ensures !RemovedBefore(q, i, q[r].mId)
  {
    if i > 0 {
      NotRemovedBefore(q, i - 1, r);
      assert q[i - 1].mId == q[r].mId ==> Rank(q[i - 1].eventType) != Rank(q[r].eventType);
    }
  }

  lemma StepAdd(q: seq<ProcessingEvent>, i: nat, current: map<MessageId, set<MessageId>>,
                last: map<SourceId, SplitSet>, out: seq<MessageDelta>,
                sm: map<MessageId, SourceId>, dm: map<MessageId, DestinationId>)
    requires WellFormed(q) && Covered(q, sm, dm) && i < |q| && IsAdd(q[i])
    requires SweepInv(q, i, current, last, out, sm, dm)
    ensures SweepInv(q, i + 1, current[q[i].mId := {}], last, out, sm, dm)
  {
    var next := current[q[i].mId := {}];
    forall a | 0 <= a < i + 1 && IsAdd(q[a]) && !RemovedBefore(q, i + 1, q[a].mId)
      ensures q[a].mId in next && next[q[a].mId] == ArrivalsBetween(q, a, i + 1)
    {
      if a < i {
        assert q[a].mId != q[i].mId by {
          assert Rank(q[a].eventType) == Rank(q[i].eventType);
        }
        ArrivalsStep(q, a, i);
      }
    }
  }

  lemma StepArrival(q: seq<ProcessingEvent>, i: nat, current: map<MessageId, set<MessageId>>,
                    next: map<MessageId, set<MessageId>>, last: map<SourceId, SplitSet>, out: seq<MessageDelta>,
                    sm: map<MessageId, SourceId>, dm: map<MessageId, DestinationId>)
    requires WellFormed(q) && Covered(q, sm, dm) && i < |q| && IsArrival(q[i])
    requires SweepInv(q, i, current, last, out, sm, dm)
    requires next.Keys == current.Keys
    requires forall m :: m in current ==> next[m] == current[m] + {q[i].mId}
    ensures SweepInv(q, i + 1, next, last, out, sm, dm)
  {
    forall a | 0 <= a < i + 1 && IsAdd(q[a]) && !RemovedBefore(q, i + 1, q[a].mId)
      ensures q[a].mId in next && next[q[a].mId] == ArrivalsBetween(q, a, i + 1)
    {
      ArrivalsStep(q, a, i);
    }
  }

  /** At a close, the open set of the message is its window. */
  lemma RemoveFinds(q: seq<ProcessingEvent>, i: nat, current: map<MessageId, set<MessageId>>,
                    last: map<SourceId, SplitSet>, out: seq<MessageDelta>,
                    sm: map<MessageId, SourceId>, dm: map<MessageId, DestinationId>)
    requires WellFormed(q) && Covered(q, sm, dm) && i < |q| && IsRemove(q[i])
    requires SweepInv(q, i, current, last, out, sm, dm)
    ensures q[i].mId in current && current[q[i].mId] == WindowAt(q, i)
    ensures current[q[i].mId] <= dm.Keys
  {
    var a := AddIndex(q, i);
    NotRemovedBefore(q, i, i);
    ArrivalsCovered(q, a, i, sm, dm);
  }

  lemma StepRemove(q: seq<ProcessingEvent>, i: nat, current: map<MessageId, set<MessageId>>,
                   last: map<SourceId, SplitSet>, out: seq<MessageDelta>,
                   sm: map<MessageId, SourceId>, dm: map<MessageId, DestinationId>,
                   split: SplitSet, previous: Option<SplitSet>)
    requires WellFormed(q) && Covered(q, sm, dm) && i < |q| && IsRemove(q[i])
    requires SweepInv(q, i, current, last, out, sm, dm)
    requires split == ClosedSplit(q, i, sm, dm)
    requires previous == if sm[q[i].mId] in last then Some(last[sm[q[i].mId]]) else None
    ensures SweepInv(q, i + 1, current - {q[i].mId}, last[sm[q[i].mId] := split],
                     out + [(q[i].mId, Delta(split, previous))], sm, dm)
  {
    RemoveKeepsOpen(q, i, current, last, out, sm, dm);
    RemoveRecordsLast(q, i, last, sm, dm, split);
    assert previous == LastSplit(q, i, sm[q[i].mId], sm, dm);
  }

  lemma RemoveKeepsOpen(q: seq<ProcessingEvent>, i: nat, current: map<MessageId, set<MessageId>>,
                        last: map<SourceId, SplitSet>, out: seq<MessageDelta>,
                        sm: map<MessageId, SourceId>, dm: map<MessageId, DestinationId>)
    requires WellFormed(q) && Covered(q, sm, dm) && i < |q| && IsRemove(q[i])
    requires SweepInv(q, i, current, last, out, sm, dm)
    ensures var next := current - {q[i].mId};
      forall a :: 0 <= a < i + 1 && IsAdd(q[a]) && !RemovedBefore(q, i + 1, q[a].mId) ==>
        q[a].mId in next && next[q[a].mId] == ArrivalsBetween(q, a, i + 1)
  {
    var next := current - {q[i].mId};
    forall a | 0 <= a < i + 1 && IsAdd(q[a]) && !RemovedBefore(q, i + 1, q[a].mId)
      ensures q[a].mId in next && next[q[a].mId] == ArrivalsBetween(q, a, i + 1)
    {
      assert q[a].mId != q[i].mId;
      ArrivalsStep(q, a, i);
    }
  }

  lemma RemoveRecordsLast(q: seq<ProcessingEvent>, i: nat, last: map<SourceId, SplitSet>,
                          sm: map<MessageId, SourceId>, dm: map<MessageId, DestinationId>, split: SplitSet)
    requires WellFormed(q) && Covered(q, sm, dm) && i < |q| && IsRemove(q[i])
    requires forall s :: s in last <==> LastSplit(q, i, s, sm, dm).Some?
    requires forall s :: s in last ==> last[s] == LastSplit(q, i, s, sm, dm).value
    requires split == ClosedSplit(q, i, sm, dm)
    ensures var next := last[sm[q[i].mId] := split];
      && (forall s :: s in next <==> LastSplit(q, i + 1, s, sm, dm).Some?)
      && (forall s :: s in next ==> next[s] == LastSplit(q, i + 1, s, sm, dm).value)
  {
  }

  /** The sweep loop of `compute_message_anonymity_sets`. */
  method SweepEvents(q: seq<ProcessingEvent>, sm: map<MessageId, SourceId>, dm: map<MessageId, DestinationId>)
    returns (out: seq<MessageDelta>)
    requires WellFormed(q) && Covered(q, sm, dm)
    ensures out == Closings(q, |q|, sm, dm)
  {
    out := [];
    var current: map<MessageId, set<MessageId>> := map[];
    var last: map<SourceId, SplitSet> := map[];
    for i := 0 to |q|
      invariant SweepInv(q, i, current, last, out, sm, dm)
    {
      var event := q[i];
      match event.eventType {
        case AddSourceMessage(_) =>
          StepAdd(q, i, current, last, out, sm, dm);
          current := current[event.mId := {}];
        case RemoveSourceMessage(_) =>
          current, last, out := CloseWindow(q, i, current, last, out, sm, dm);
        case AddDestinationMessage(_) =>
          var next := AddToAll(current, event.mId);
          StepArrival(q, i, current, next, last, out, sm, dm);
          current := next;
      }
    }
  }

  /**
   * A closing event of the sweep: the message's open set is split by
   * destination, compared with the source's previous split set, recorded,
   * and becomes the source's last split set.
   */
  method CloseWindow(q: seq<ProcessingEvent>, i: nat, current: map<MessageId, set<MessageId>>,
                     last: map<SourceId, SplitSet>, out: seq<MessageDelta>,
                     sm: map<MessageId, SourceId>, dm: map<MessageId, DestinationId>)
    returns (current': map<MessageId, set<MessageId>>, last': map<SourceId, SplitSet>, out': seq<MessageDelta>)
    requires WellFormed(q) && Covered(q, sm, dm) && i < |q| && IsRemove(q[i])
    requires SweepInv(q, i, current, last, out, sm, dm)
    ensures SweepInv(q, i + 1, current', last', out', sm, dm)
  {
    var event := q[i];
    RemoveFinds(q, i, current, last, out, sm, dm);
    var anon := current[event.mId];
    var split := SplitByDestination(anon, dm);
    var source := sm[event.mId];
    var previous := if source in last then Some(last[source]) else None;
    StepRemove(q, i, current, last, out, sm, dm, split, previous);
    var relativeDifference := Delta(split, previous);
    current' := current - {event.mId};
    out' := out + [(event.mId, relativeDifference)];
    last' := last[source := split];
  }

  /** The inner loop over `values_mut`: `m` joins every open set. */
  method AddToAll(current: map<MessageId, set<MessageId>>, m: MessageId) returns (next: map<MessageId, set<MessageId>>)
    ensures next.Keys == current.Keys
    ensures forall k :: k in current ==> next[k] == current[k] + {m}
  {
    next := current;
    var rest := current.Keys;
    while rest != {}
      invariant rest <= current.Keys && next.Keys == current.Keys
      invariant forall k :: k in rest ==> next[k] == current[k]
      invariant forall k :: k in current && k !in rest ==> next[k] == current[k] + {m}
      decreases rest
    {
      var k :| k in rest;
      next := next[k := next[k] + {m}];
      rest := rest - {k};
    }
  }

  // ----- the queue of a trace -----

  /** Every entry's id has a source and a destination in the mappings. */
  predicate EntriesMapped(s: seq<TraceEntry>, sm: map<MessageId, SourceId>, dm: map<MessageId, DestinationId>) {
    forall e :: e in s ==> e.mId in sm && e.mId in dm
  }

  /** The event of queue position `j` is one of the three events of entry `f`. */
  lemma QueueEntry(s: seq<TraceEntry>, minDelay: Duration, windowEnd: Duration, j: int) returns (f: nat)
    requires 0 <= j < |Sort(RawEvents(s, minDelay, windowEnd), EventKey)|
    ensures f < |s|
    ensures var e := Sort(RawEvents(s, minDelay, windowEnd), EventKey)[j];
      && e in EntryEvents(s[f], minDelay, windowEnd)
      && e.mId == s[f].mId
      && (IsAdd(e) ==> e == AddOf(s[f], minDelay))
      && (IsRemove(e) ==> e == RemoveOf(s[f], windowEnd))
      && (IsArrival(e) ==> e == ArrivalOf(s[f]))
  {
    var raw := RawEvents(s, minDelay, windowEnd);
    var v := Sort(raw, EventKey)[j];
    assert v in multiset(raw) by {
      assert v in multiset(Sort(raw, EventKey));
    }
    RawMember(s, minDelay, windowEnd, v);
    f :| 0 <= f < |s| && v in EntryEvents(s[f], minDelay, windowEnd);
    EventOfEntry(v, s[f], minDelay, windowEnd);
  }

  lemma QueueCovered(s: seq<TraceEntry>, minDelay: Duration, windowEnd: Duration,
                     sm: map<MessageId, SourceId>, dm: map<MessageId, DestinationId>)
    requires EntriesMapped(s, sm, dm)
    ensures Covered(Sort(RawEvents(s, minDelay, windowEnd), EventKey), sm, dm)
  {
    var q := Sort(RawEvents(s, minDelay, windowEnd), EventKey);
    forall j | 0 <= j < |q| ensures q[j].mId in sm && q[j].mId in dm {
      var f := QueueEntry(s, minDelay, windowEnd, j);
      assert s[f] in s;
    }
  }

  /** The queue of a trace whose ids are unique is well formed. */
  lemma TraceQueueWellFormed(s: seq<TraceEntry>, minDelay: Duration, windowEnd: Duration)
    requires UniqueIds(s) && (|s| > 0 ==> minDelay <= windowEnd)
    ensures WellFormed(Sort(RawEvents(s, minDelay, windowEnd), EventKey))
  {
    if |s| > 0 {
      QueueWellFormed(s, minDelay, windowEnd);
    } else {
      RawEventsLength(s, minDelay, windowEnd);
    }
  }

  /** The window that closes at `r` opened at the add event of the same entry. */
  lemma WindowOpensAtOwnAdd(s: seq<TraceEntry>, minDelay: Duration, windowEnd: Duration, r: int, k: int)
    requires UniqueIds(s) && minDelay <= windowEnd
    requires 0 <= k < |s|
    requires WellFormed(Sort(RawEvents(s, minDelay, windowEnd), EventKey))
    requires var q := Sort(RawEvents(s, minDelay, windowEnd), EventKey);
      0 <= r < |q| && q[r] == RemoveOf(s[k], windowEnd)
    ensures var q := Sort(RawEvents(s, minDelay, windowEnd), EventKey);
      q[AddIndex(q, r)] == AddOf(s[k], minDelay)
  {
    var q := Sort(RawEvents(s, minDelay, windowEnd), EventKey);
    var a := AddIndex(q, r);
    var f := QueueEntry(s, minDelay, windowEnd, a);
    var idF, idK := s[f].mId, s[k].mId;
    assert f == k by {
      assert f < k ==> idF != idK;
      assert k < f ==> idK != idF;
    }
  }

  /**
   * The anonymity set of a message, in time: with the window opening
   * `minDelay` after the send and closing `windowEnd` after it, a message
   * is in the set exactly when it arrives within the closed interval
   * `[send + minDelay, send + windowEnd]`. Both ends are included because
   * at equal timestamps openings sort before arrivals and arrivals before
   * closings.
   */
  lemma WindowByTime(s: seq<TraceEntry>, minDelay: Duration, windowEnd: Duration, r: int, k: int, d: MessageId)
    requires UniqueIds(s) && minDelay <= windowEnd
    requires 0 <= k < |s|
    requires var q := Sort(RawEvents(s, minDelay, windowEnd), EventKey);
      0 <= r < |q| && q[r] == RemoveOf(s[k], windowEnd)
    ensures WellFormed(Sort(RawEvents(s, minDelay, windowEnd), EventKey))
    ensures d in WindowAt(Sort(RawEvents(s, minDelay, windowEnd), EventKey), r) <==>
      exists f :: 0 <= f < |s| && s[f].mId == d &&
        s[k].sourceTimestamp + minDelay <= s[f].destinationTimestamp <= s[k].sourceTimestamp + windowEnd
  {
    QueueWellFormed(s, minDelay, windowEnd);
    if d in WindowAt(Sort(RawEvents(s, minDelay, windowEnd), EventKey), r) {
      InWindowArrivesInTime(s, minDelay, windowEnd, r, k, d);
    }
    if exists f :: 0 <= f < |s| && s[f].mId == d &&
         s[k].sourceTimestamp + minDelay <= s[f].destinationTimestamp <= s[k].sourceTimestamp + windowEnd {
      var f :| 0 <= f < |s| && s[f].mId == d &&
        s[k].sourceTimestamp + minDelay <= s[f].destinationTimestamp <= s[k].sourceTimestamp + windowEnd;
      ArrivesInTimeInWindow(s, minDelay, windowEnd, r, k, f);
    }
  }

  lemma InWindowArrivesInTime(s: seq<TraceEntry>, minDelay: Duration, windowEnd: Duration, r: int, k: int, d: MessageId)
    requires UniqueIds(s) && minDelay <= windowEnd
    requires 0 <= k < |s|
    requires WellFormed(Sort(RawEvents(s, minDelay, windowEnd), EventKey))
    requires var q := Sort(RawEvents(s, minDelay, windowEnd), EventKey);
      0 <= r < |q| && q[r] == RemoveOf(s[k], windowEnd)
    requires d in WindowAt(Sort(RawEvents(s, minDelay, windowEnd), EventKey), r)
    ensures exists f ::
      && 0 <= f < |s| && s[f].mId == d
      && s[k].sourceTimestamp + minDelay <= s[f].destinationTimestamp <= s[k].sourceTimestamp + windowEnd
  {
    var q := Sort(RawEvents(s, minDelay, windowEnd), EventKey);
    var a := AddIndex(q, r);
    WindowOpensAtOwnAdd(s, minDelay, windowEnd, r, k);
    var j := ArrivalInWindow(q, r, d);
    var f := QueueEntry(s, minDelay, windowEnd, j);
    var ea, ej, er := q[a], q[j], q[r];
    assert ea.ts <= ej.ts <= er.ts by {
      SortedTimes(q, a, j);
      SortedTimes(q, j, r);
    }
    assert ea == AddOf(s[k], minDelay) && ej == ArrivalOf(s[f]) && er == RemoveOf(s[k], windowEnd);
  }

  lemma ArrivesInTimeInWindow(s: seq<TraceEntry>, minDelay: Duration, windowEnd: Duration, r: int, k: int, f: int)
    requires UniqueIds(s) && minDelay <= windowEnd
    requires 0 <= k < |s| && 0 <= f < |s|
    requires WellFormed(Sort(RawEvents(s, minDelay, windowEnd), EventKey))
    requires var q := Sort(RawEvents(s, minDelay, windowEnd), EventKey);
      0 <= r < |q| && q[r] == RemoveOf(s[k], windowEnd)
    requires s[k].sourceTimestamp + minDelay <= s[f].destinationTimestamp <= s[k].sourceTimestamp + windowEnd
    ensures s[f].mId in WindowAt(Sort(RawEvents(s, minDelay, windowEnd), EventKey), r)
  {
    var q := Sort(RawEvents(s, minDelay, windowEnd), EventKey);
    var a := AddIndex(q, r);
    WindowOpensAtOwnAdd(s, minDelay, windowEnd, r, k);
    EventsInQueue(s, minDelay, windowEnd, f);
    var j :| 0 <= j < |q| && q[j] == ArrivalOf(s[f]);
    assert a < j by {
      DifferentKindsOrdered(q, a, j);
      assert KeyLt(EventKey(q[a]), EventKey(q[j]));
    }
    assert j < r by {
      DifferentKindsOrdered(q, j, r);
      assert KeyLt(EventKey(q[j]), EventKey(q[r]));
    }
    assert IsArrival(q[j]) && q[j].mId == s[f].mId;
  }

  /** Every entry's window closes somewhere in its queue. */
  lemma CloseInQueue(s: seq<TraceEntry>, minDelay: Duration, windowEnd: Duration, k: int) returns (r: int)
    requires 0 <= k < |s|
    ensures var q := Sort(RawEvents(s, minDelay, windowEnd), EventKey);
      0 <= r < |q| && q[r] == RemoveOf(s[k], windowEnd) && IsRemove(q[r])
  {
    var q := Sort(RawEvents(s, minDelay, windowEnd), EventKey);
    EventsInQueue(s, minDelay, windowEnd, k);
    r :| 0 <= r < |q| && q[r] == RemoveOf(s[k], windowEnd);
  }

  // ----- the records of the sweep -----

  /** Every record belongs to a close in the queue. */
  lemma {:induction false} ClosingsMember(q: seq<ProcessingEvent>, i: nat,
                                          sm: map<MessageId, SourceId>, dm: map<MessageId, DestinationId>, x: MessageDelta)
    returns (r: int)
    requires WellFormed(q) && Covered(q, sm, dm) && i <= |q|
    requires x in Closings(q, i, sm, dm)
    ensures 0 <= r < i && IsRemove(q[r]) && x == Closing(q, r, sm, dm)
  {
    assert i > 0;
    var p := Closings(q, i - 1, sm, dm);
    if x in p {
      r := ClosingsMember(q, i - 1, sm, dm, x);
    } else {
      assert IsRemove(q[i - 1]) && x == Closing(q, i - 1, sm, dm) by {
        var tail := if IsRemove(q[i - 1]) then [Closing(q, i - 1, sm, dm)] else [];
        assert Closings(q, i, sm, dm) == p + tail;
        assert x in tail;
      }
      r := i - 1;
    }
  }

  /** Every close before position `i` has its record. */
  lemma {:induction false} ClosingsContain(q: seq<ProcessingEvent>, i: nat,
                                           sm: map<MessageId, SourceId>, dm: map<MessageId, DestinationId>, r: int)
    requires WellFormed(q) && Covered(q, sm, dm) && i <= |q|
    requires 0 <= r < i && IsRemove(q[r])
    ensures Closing(q, r, sm, dm) in Closings(q, i, sm, dm)
  {
    if r < i - 1 {
      ClosingsContain(q, i - 1, sm, dm, r);
    }
  }

  /** No message has two records. */
  lemma {:induction false} ClosingsDistinct(q: seq<ProcessingEvent>, i: nat,
                                            sm: map<MessageId, SourceId>, dm: map<MessageId, DestinationId>)
    requires WellFormed(q) && Covered(q, sm, dm) && i <= |q|
    ensures var c := Closings(q, i, sm, dm);
      forall x, y :: 0 <= x < y < |c| ==> c[x].0 != c[y].0
  {
    if i > 0 {
      var p := Closings(q, i - 1, sm, dm);
      ClosingsDistinct(q, i - 1, sm, dm);
      if IsRemove(q[i - 1]) {
        var c := Closings(q, i, sm, dm);
        forall x | 0 <= x < |p| ensures p[x].0 != q[i - 1].mId {
          var r := ClosingsMember(q, i - 1, sm, dm, p[x]);
          RemovesDistinct(q, r, i - 1);
        }
        assert c == p + [Closing(q, i - 1, sm, dm)];
        forall x, y | 0 <= x < y < |c| ensures c[x].0 != c[y].0 {
          assert c[x] == p[x];
          if y < |p| {
            assert c[y] == p[y];
          } else {
            assert c[y].0 == q[i - 1].mId;
          }
        }
      } else {
        var c := Closings(q, i, sm, dm);
        assert c == p;
        forall x, y | 0 <= x < y < |c| ensures c[x].0 != c[y].0 {
          assert c[x] == p[x] && c[y] == p[y];
        }
      }
    }
  }

  /**
   * The records of the sweep over a trace: one per entry, and for each the
   * delta of its split window against the same source's previous window.
   */
  ghost function Sweep(s: seq<TraceEntry>, minDelay: Duration, windowEnd: Duration,
                       sm: map<MessageId, SourceId>, dm: map<MessageId, DestinationId>): (r: seq<MessageDelta>)
    requires UniqueIds(s) && (|s| > 0 ==> minDelay <= windowEnd) && EntriesMapped(s, sm, dm)
    ensures forall x :: x in r ==> x.0 in sm
  {
    var q := Sort(RawEvents(s, minDelay, windowEnd), EventKey);
    TraceQueueWellFormed(s, minDelay, windowEnd);
    QueueCovered(s, minDelay, windowEnd, sm, dm);
    Closings(q, |q|, sm, dm)
  }

  /** Each entry's message has exactly one record, and no other message has one. */
  lemma SweepRecordsEveryMessage(s: seq<TraceEntry>, minDelay: Duration, windowEnd: Duration,
                                 sm: map<MessageId, SourceId>, dm: map<MessageId, DestinationId>, m: MessageId)
    requires UniqueIds(s) && (|s| > 0 ==> minDelay <= windowEnd) && EntriesMapped(s, sm, dm)
    ensures var c := Sweep(s, minDelay, windowEnd, sm, dm);
      && ((exists x :: 0 <= x < |c| && c[x].0 == m) <==> (exists k :: 0 <= k < |s| && s[k].mId == m))
      && (forall x, y :: 0 <= x < y < |c| ==> c[x].0 != c[y].0)
  {
    var q := Sort(RawEvents(s, minDelay, windowEnd), EventKey);
    SweepOfQueue(s, minDelay, windowEnd, sm, dm, q);
    var c := Closings(q, |q|, sm, dm);
    ClosingsDistinct(q, |q|, sm, dm);
    RecordsMatchEntries(s, minDelay, windowEnd, sm, dm, m);
    assert (exists x :: 0 <= x < |c| && c[x].0 == m) <==> (exists k :: 0 <= k < |s| && s[k].mId == m);
  }

  /** The records of the sweep are for the entries' messages, and for all of them. */
  lemma RecordsMatchEntries(s: seq<TraceEntry>, minDelay: Duration, windowEnd: Duration,
                            sm: map<MessageId, SourceId>, dm: map<MessageId, DestinationId>, m: MessageId)
    requires WellFormed(Sort(RawEvents(s, minDelay, windowEnd), EventKey))
    requires Covered(Sort(RawEvents(s, minDelay, windowEnd), EventKey), sm, dm)
    ensures var q := Sort(RawEvents(s, minDelay, windowEnd), EventKey); var c := Closings(q, |q|, sm, dm);
      (exists x :: 0 <= x < |c| && c[x].0 == m) <==> (exists k :: 0 <= k < |s| && s[k].mId == m)
  {
    var q := Sort(RawEvents(s, minDelay, windowEnd), EventKey);
    var c := Closings(q, |q|, sm, dm);
    if exists x :: 0 <= x < |c| && c[x].0 == m {
      var x :| 0 <= x < |c| && c[x].0 == m;
      RecordHasEntry(s, minDelay, windowEnd, sm, dm, c[x]);
    }
    if exists k :: 0 <= k < |s| && s[k].mId == m {
      var k :| 0 <= k < |s| && s[k].mId == m;
      EntryHasRecord(s, minDelay, windowEnd, sm, dm, k);
    }
  }

  lemma RecordHasEntry(s: seq<TraceEntry>, minDelay: Duration, windowEnd: Duration,
                       sm: map<MessageId, SourceId>, dm: map<MessageId, DestinationId>, x: MessageDelta)
    requires WellFormed(Sort(RawEvents(s, minDelay, windowEnd), EventKey))
    requires Covered(Sort(RawEvents(s, minDelay, windowEnd), EventKey), sm, dm)
    requires var q := Sort(RawEvents(s, minDelay, windowEnd), EventKey);
      x in Closings(q, |q|, sm, dm)
    ensures exists k :: 0 <= k < |s| && s[k].mId == x.0
  {
    var q := Sort(RawEvents(s, minDelay, windowEnd), EventKey);
    var r := ClosingsMember(q, |q|, sm, dm, x);
    var f := QueueEntry(s, minDelay, windowEnd, r);
    assert s[f].mId == x.0;
  }

  lemma EntryHasRecord(s: seq<TraceEntry>, minDelay: Duration, windowEnd: Duration,
                       sm: map<MessageId, SourceId>, dm: map<MessageId, DestinationId>, k: int)
    requires WellFormed(Sort(RawEvents(s, minDelay, windowEnd), EventKey))
    requires Covered(Sort(RawEvents(s, minDelay, windowEnd), EventKey), sm, dm)
    requires 0 <= k < |s|
    ensures var q := Sort(RawEvents(s, minDelay, windowEnd), EventKey); var c := Closings(q, |q|, sm, dm);
      exists x :: 0 <= x < |c| && c[x].0 == s[k].mId
  {
    var q := Sort(RawEvents(s, minDelay, windowEnd), EventKey);
    var c := Closings(q, |q|, sm, dm);
    var r := CloseInQueue(s, minDelay, windowEnd, k);
    ClosingsContain(q, |q|, sm, dm, r);
    var x :| 0 <= x < |c| && c[x] == Closing(q, r, sm, dm);
    assert c[x].0 == s[k].mId;
  }

  // ----- grouping the records by source (lines 206-214) -----

  /** The records of source `src`, in their order. */
  function OfSource(out: seq<MessageDelta>, sm: map<MessageId, SourceId>, src: SourceId): (r: seq<MessageDelta>)
    requires forall x :: x in out ==> x.0 in sm
    ensures |r| <= |out|
    ensures (forall x :: x in out ==> sm[x.0] != src) ==> r == []
  {
    if out == [] then []
    else OfSource(out[..|out| - 1], sm, src) + (if sm[out[|out| - 1].0] == src then [out[|out| - 1]] else [])
  }

  /** Each record is in the group of its own source and in no other group. */
  lemma {:induction false} OfSourceMember(out: seq<MessageDelta>, sm: map<MessageId, SourceId>, src: SourceId, x: MessageDelta)
    requires forall y :: y in out ==> y.0 in sm
    ensures x in OfSource(out, sm, src) <==> x in out && sm[x.0] == src
  {
    if out != [] {
      var p := out[..|out| - 1];
      assert forall y :: y in p ==> y in out;
      OfSourceMember(p, sm, src, x);
      assert out == p + [out[|out| - 1]];
    }
  }

  /** The records grouped under the sources of their messages. */
  function BySource(out: seq<MessageDelta>, sm: map<MessageId, SourceId>): (r: map<SourceId, seq<MessageDelta>>)
    requires forall x :: x in out ==> x.0 in sm
    ensures r.Keys == set x | x in out :: sm[x.0]
  {
    map src | src in (set x | x in out :: sm[x.0]) :: OfSource(out, sm, src)
  }

  lemma OfSourceSnoc(out: seq<MessageDelta>, x: MessageDelta, sm: map<MessageId, SourceId>, src: SourceId)
    requires forall y :: y in out + [x] ==> y.0 in sm
    ensures OfSource(out + [x], sm, src) == OfSource(out, sm, src) + (if sm[x.0] == src then [x] else [])
  {
    assert (out + [x])[..|out|] == out;
  }

  lemma BySourceSnoc(out: seq<MessageDelta>, x: MessageDelta, sm: map<MessageId, SourceId>)
    requires forall y :: y in out + [x] ==> y.0 in sm
    ensures var g := BySource(out, sm); var src := sm[x.0];
      BySource(out + [x], sm) == g[src := (if src in g then g[src] else []) + [x]]
  {
    BySourceKeysSnoc(out, x, sm);
    forall k | k in BySource(out + [x], sm)
      ensures var g := BySource(out, sm); var src := sm[x.0];
        BySource(out + [x], sm)[k] == g[src := (if src in g then g[src] else []) + [x]][k]
    {
      BySourceValueSnoc(out, x, sm, k);
    }
  }

  lemma BySourceValueSnoc(out: seq<MessageDelta>, x: MessageDelta, sm: map<MessageId, SourceId>, k: SourceId)
    requires forall y :: y in out + [x] ==> y.0 in sm
    requires k in BySource(out + [x], sm)
    ensures var g := BySource(out, sm); var src := sm[x.0];
      BySource(out + [x], sm)[k] == if k == src then (if src in g then g[src] else []) + [x] else g[k]
  {
    BySourceKeysSnoc(out, x, sm);
    OfSourceSnoc(out, x, sm, k);
    if k == sm[x.0] && k !in BySource(out, sm) {
      assert forall y :: y in out ==> sm[y.0] in BySource(out, sm);
      assert OfSource(out, sm, k) == [];
    }
  }

  lemma BySourceKeysSnoc(out: seq<MessageDelta>, x: MessageDelta, sm: map<MessageId, SourceId>)
    requires forall y :: y in out + [x] ==> y.0 in sm
    ensures BySource(out + [x], sm).Keys == BySource(out, sm).Keys + {sm[x.0]}
  {
    assert (set y | y in out + [x] :: sm[y.0]) == (set y | y in out :: sm[y.0]) + {sm[x.0]};
  }

  /** The `result.entry(source).or_default().push(..)` loop. */
  method GroupBySource(out: seq<MessageDelta>, sm: map<MessageId, SourceId>) returns (result: map<SourceId, seq<MessageDelta>>)
    requires forall x :: x in out ==> x.0 in sm
    ensures result == BySource(out, sm)
  {
    result := map[];
    for i := 0 to |out|
      invariant result == BySource(out[..i], sm)
    {
      var source := sm[out[i].0];
      assert out[..i + 1] == out[..i] + [out[i]];
      BySourceSnoc(out[..i], out[i], sm);
      result := result[source := (if source in result then result[source] else []) + [out[i]]];
    }
    assert out[..|out|] == out;
  }

  lemma SweepOfQueue(s: seq<TraceEntry>, minDelay: Duration, windowEnd: Duration,
                     sm: map<MessageId, SourceId>, dm: map<MessageId, DestinationId>, q: seq<ProcessingEvent>)
    requires UniqueIds(s) && (|s| > 0 ==> minDelay <= windowEnd) && EntriesMapped(s, sm, dm)
    requires q == Sort(RawEvents(s, minDelay, windowEnd), EventKey)
    ensures WellFormed(q) && Covered(q, sm, dm)
    ensures Closings(q, |q|, sm, dm) == Sweep(s, minDelay, windowEnd, sm, dm)
  {
    TraceQueueWellFormed(s, minDelay, windowEnd);
    QueueCovered(s, minDelay, windowEnd, sm, dm);
  }

  /** `compute_message_anonymity_sets`. */
  method ComputeMessageAnonymitySets(t: Trace, minDelay: Duration, maxDelay: Duration,
                                     sm: map<MessageId, SourceId>, dm: map<MessageId, DestinationId>)
    returns (result: map<SourceId, seq<MessageDelta>>)
    requires UniqueIds(t.entries) && (|t.entries| > 0 ==> minDelay <= maxDelay + 1)
    requires EntriesMapped(t.entries, sm, dm)
    ensures result == BySource(Sweep(t.entries, minDelay, maxDelay + 1, sm, dm), sm)
  {
    var events := ComputeEventQueues(t, minDelay, maxDelay);
    SweepOfQueue(t.entries, minDelay, maxDelay + 1, sm, dm, events);
    var messageAnonSets := SweepEvents(events, sm, dm);
    result := GroupBySource(messageAnonSets, sm);
  }

  // ----- progressive pruning (compute_relation_ship_anonymity_sets) -----

  function Min(a: nat, b: nat): nat {
    if a <= b then a else b
  }

  /**
   * One pruning step. A destination stays a candidate only when it was one
   * before and the message's set has something left to assign to it: its
   * new messages plus the shared ones, capped by the candidates left over.
   * One of those is used up by this message.
   */
  function PruneStep(prev: Candidates, deltas: SetDelta): (r: Candidates)
    ensures r.Keys <= prev.Keys * deltas.Keys
    ensures forall d :: d in r ==> r[d] + 1 <= deltas[d].0 + prev[d]
    ensures forall d :: d in r ==> r[d] + 1 <= deltas[d].0 + deltas[d].1
  {
    map d | d in deltas && d in prev && deltas[d].0 + Min(prev[d], deltas[d].1) > 0
      :: deltas[d].0 + Min(prev[d], deltas[d].1) - 1
  }

  /** The loop over one message's deltas. */
  method PruneMessage(prev: Candidates, deltas: SetDelta) returns (candidates: Candidates)
    ensures candidates == PruneStep(prev, deltas)
  {
    ghost var goal := PruneStep(prev, deltas);
    candidates := map[];
    var rest := deltas.Keys;
    while rest != {}
      invariant rest <= deltas.Keys
      invariant forall d :: d in candidates <==> d in goal && d !in rest
      invariant forall d :: d in candidates ==> candidates[d] == goal[d]
      decreases rest
    {
      var destination :| destination in rest;
      var (added, overlap) := deltas[destination];
      rest := rest - {destination};
      if destination in prev {
        var fromPrevious := prev[destination];
        var count := added + Min(fromPrevious, overlap);
        if count != 0 {
          candidates := candidates[destination := count - 1];
        }
      }
    }
  }

  /** Before the first message every destination of its set counts, with nothing left over. */
  function Initial(messages: seq<MessageDelta>): (r: Candidates)
    ensures |messages| > 0 ==> r.Keys == messages[0].1.Keys
    ensures forall d :: d in r ==> r[d] == 0
  {
    if |messages| == 0 then map[] else map d | d in messages[0].1 :: 0
  }

  /** The candidates after the first `k` messages. */
  function After(messages: seq<MessageDelta>, k: nat): Candidates
    requires k <= |messages|
  {
    if k == 0 then Initial(messages) else PruneStep(After(messages, k - 1), messages[k - 1].1)
  }

  /** The relationship anonymity sets of one source: after each message, the destinations still candidates. */
  function PruneTrail(messages: seq<MessageDelta>): (r: seq<Relationship>)
    ensures |r| == |messages|
    ensures forall k :: 0 <= k < |r| ==> r[k].0 == messages[k].0
  {
    seq(|messages|, k requires 0 <= k < |messages| => (messages[k].0, After(messages, k + 1).Keys))
  }

  /** The per-source loop. */
  method PruneSource(messages: seq<MessageDelta>) returns (anonSetSizes: seq<Relationship>)
    ensures anonSetSizes == PruneTrail(messages)
  {
    anonSetSizes := [];
    var prevDestinationCandidates: Candidates;
    if |messages| > 0 {
      var firstDestinations := messages[0].1;
      prevDestinationCandidates := map d | d in firstDestinations :: 0;
    } else {
      prevDestinationCandidates := map[];
    }
    for i := 0 to |messages|
      invariant prevDestinationCandidates == After(messages, i)
      invariant anonSetSizes == PruneTrail(messages)[..i]
    {
      var (sourceMessage, anonymitySetSizes) := messages[i];
      var destinationCandidates := PruneMessage(prevDestinationCandidates, anonymitySetSizes);
      TrailStep(messages, i, anonSetSizes, prevDestinationCandidates, destinationCandidates);
      anonSetSizes := anonSetSizes + [(sourceMessage, destinationCandidates.Keys)];
      prevDestinationCandidates := destinationCandidates;
    }
  }

  /** One message of the per-source loop extends the trail by one relationship set. */
  lemma TrailStep(messages: seq<MessageDelta>, i: int, acc: seq<Relationship>, prev: Candidates, next: Candidates)
    requires 0 <= i < |messages|
    requires acc == PruneTrail(messages)[..i] && prev == After(messages, i)
    requires next == PruneStep(prev, messages[i].1)
    ensures next == After(messages, i + 1)
    ensures acc + [(messages[i].0, next.Keys)] == PruneTrail(messages)[..i + 1]
  {
  }

  /** All sources, each pruned on its own (the parallel map, taken one source at a time). */
  function PruneAll(sets: map<SourceId, seq<MessageDelta>>): (r: map<SourceId, seq<Relationship>>)
    ensures r.Keys == sets.Keys
  {
    map src | src in sets :: PruneTrail(sets[src])
  }

  /** `compute_relation_ship_anonymity_sets`. */
  method ComputeRelationShipAnonymitySets(sets: map<SourceId, seq<MessageDelta>>)
    returns (result: map<SourceId, seq<Relationship>>)
    ensures result == PruneAll(sets)
  {
    result := map[];
    var rest := sets.Keys;
    while rest != {}
      invariant rest <= sets.Keys
      invariant result.Keys == sets.Keys - rest
      invariant forall src :: src in result ==> result[src] == PruneTrail(sets[src])
      decreases rest
    {
      var source :| source in rest;
      var sizes := PruneSource(sets[source]);
      result := result[source := sizes];
      rest := rest - {source};
    }
  }

  /** Candidates only ever drop out: each relationship set is within the previous one. */
  lemma {:induction false} TrailNested(messages: seq<MessageDelta>, k: nat, l: nat)
    requires k <= l < |messages|
    ensures PruneTrail(messages)[l].1 <= PruneTrail(messages)[k].1
    decreases l - k
  {
    if k < l {
      TrailNested(messages, k, l - 1);
      assert After(messages, l + 1) == PruneStep(After(messages, l), messages[l].1);
    }
  }

  /** The first relationship set is the destinations where the first window added a message. */
  lemma FirstCandidates(messages: seq<MessageDelta>)
    requires |messages| > 0
    ensures PruneTrail(messages)[0].1 == set d | d in messages[0].1 && messages[0].1[d].0 > 0
  {
    var first := messages[0].1;
    assert After(messages, 1) == PruneStep(Initial(messages), first);
    forall d | d in first ensures Min(Initial(messages)[d], first[d].1) == 0 {
    }
  }

  /** The messages that the first `k` windows added at `d`. */
  function AddedTotal(messages: seq<MessageDelta>, k: nat, d: DestinationId): nat
    requires k <= |messages|
  {
    if k == 0 then 0
    else AddedTotal(messages, k - 1, d) + (if d in messages[k - 1].1 then messages[k - 1].1[d].0 else 0)
  }

  /**
   * A destination still a candidate after `k` messages was assigned one
   * message per source message: the windows added at least `k` messages
   * there, and the leftover count is what remains of them.
   */
  lemma {:induction false} EnoughMessages(messages: seq<MessageDelta>, k: nat, d: DestinationId)
    requires k <= |messages| && d in After(messages, k)
    ensures After(messages, k)[d] + k <= AddedTotal(messages, k, d)
  {
    if k > 0 {
      var prev := After(messages, k - 1);
      assert d in prev;
      EnoughMessages(messages, k - 1, d);
    }
  }

  /** A destination that has dropped out never comes back. */
  lemma DroppedStaysOut(messages: seq<MessageDelta>, k: nat, l: nat, d: DestinationId)
    requires k <= l < |messages| && d !in PruneTrail(messages)[k].1
    ensures d !in PruneTrail(messages)[l].1
  {
    TrailNested(messages, k, l);
  }

  // ----- the mappings (lines 217-255) -----

  /** The ids of the entries. */
  function IdsOf(s: seq<TraceEntry>): set<MessageId> {
    set e | e in s :: e.mId
  }

  /** No later entry has the id of entry `k`. */
  predicate LastOfId(s: seq<TraceEntry>, k: int)
    requires 0 <= k < |s|
  {
    forall j :: k < j < |s| ==> s[j].mId != s[k].mId
  }

  /**
   * Message id to source and to destination, the later of two entries with
   * the same id winning.
   */
  method SourceAndDestinationMapping(t: Trace) returns (sm: map<MessageId, SourceId>, dm: map<MessageId, DestinationId>)
    ensures sm.Keys == dm.Keys == IdsOf(t.entries)
    ensures forall k :: 0 <= k < |t.entries| && LastOfId(t.entries, k) ==>
      sm[t.entries[k].mId] == t.entries[k].sourceId && dm[t.entries[k].mId] == t.entries[k].destinationId
  {
    sm, dm := map[], map[];
    for i := 0 to |t.entries|
      invariant MapsLast(t.entries[..i], sm, dm)
    {
      var entry := t.entries[i];
      MappingStep(t.entries, i, sm, dm);
      sm := sm[entry.mId := entry.sourceId];
      dm := dm[entry.mId := entry.destinationId];
    }
    assert t.entries[..|t.entries|] == t.entries;
  }

  /** The maps hold the ids of `s`, each with the endpoints of its last entry. */
  ghost predicate MapsLast(s: seq<TraceEntry>, sm: map<MessageId, SourceId>, dm: map<MessageId, DestinationId>) {
    && sm.Keys == dm.Keys == IdsOf(s)
    && forall k :: 0 <= k < |s| && LastOfId(s, k) ==>
         sm[s[k].mId] == s[k].sourceId && dm[s[k].mId] == s[k].destinationId
  }

  lemma MappingStep(s: seq<TraceEntry>, i: int, sm: map<MessageId, SourceId>, dm: map<MessageId, DestinationId>)
    requires 0 <= i < |s| && MapsLast(s[..i], sm, dm)
    ensures MapsLast(s[..i + 1], sm[s[i].mId := s[i].sourceId], dm[s[i].mId := s[i].destinationId])
  {
    var p, q := s[..i], s[..i + 1];
    assert q == p + [s[i]];
    assert IdsOf(q) == IdsOf(p) + {s[i].mId};
    var sm', dm' := sm[s[i].mId := s[i].sourceId], dm[s[i].mId := s[i].destinationId];
    forall k | 0 <= k < |q| && LastOfId(q, k) ensures sm'[q[k].mId] == q[k].sourceId && dm'[q[k].mId] == q[k].destinationId {
      if k < i {
        assert q[k] == p[k];
        assert q[i].mId != q[k].mId;
        assert LastOfId(p, k) by {
          forall j | k < j < |p| ensures p[j].mId != p[k].mId {
            assert p[j] == q[j];
          }
        }
      }
    }
  }

  /** On a built trace these maps agree with the trace's own mappings. */
  lemma MappingAgreesWithTrace(t: Trace, sm: map<MessageId, SourceId>, dm: map<MessageId, DestinationId>, id: MessageId)
    requires Built(t)
    requires sm.Keys == dm.Keys == IdsOf(t.entries)
    requires forall k :: 0 <= k < |t.entries| && LastOfId(t.entries, k) ==>
      sm[t.entries[k].mId] == t.entries[k].sourceId && dm[t.entries[k].mId] == t.entries[k].destinationId
    ensures id in sm <==> t.sourceMapping.Get(id).Some?
    ensures id in sm ==> t.sourceMapping.Get(id) == Some(sm[id]) && t.destinationMapping.Get(id) == Some(dm[id])
  {
    if id in sm {
      var e :| e in t.entries && e.mId == id;
      var k :| 0 <= k < |t.entries| && t.entries[k] == e;
      assert k == id as int;
    }
    if id as int < |t.entries| {
      assert t.entries[id].mId == id;
      assert t.entries[id] in t.entries;
    }
  }

  /** The ids of the entries sent by `src`, in entry order. */
  function IdsOfSource(s: seq<TraceEntry>, src: SourceId): seq<MessageId> {
    if s == [] then []
    else IdsOfSource(s[..|s| - 1], src) + (if s[|s| - 1].sourceId == src then [s[|s| - 1].mId] else [])
  }

  /** The ids of the entries received by `dst`, in entry order. */
  function IdsOfDestination(s: seq<TraceEntry>, dst: DestinationId): seq<MessageId> {
    if s == [] then []
    else IdsOfDestination(s[..|s| - 1], dst) + (if s[|s| - 1].destinationId == dst then [s[|s| - 1].mId] else [])
  }

  function DestinationsOfEntries(s: seq<TraceEntry>): set<DestinationId> {
    set i | 0 <= i < |s| :: s[i].destinationId
  }

  /** Source to its messages and destination to its messages, each list in entry order. */
  method SourceAndDestinationMessageMapping(t: Trace)
    returns (smm: map<SourceId, seq<MessageId>>, dmm: map<DestinationId, seq<MessageId>>)
    ensures smm.Keys == Sources(t.entries) && dmm.Keys == DestinationsOfEntries(t.entries)
    ensures forall src :: src in smm ==> smm[src] == IdsOfSource(t.entries, src)
    ensures forall dst :: dst in dmm ==> dmm[dst] == IdsOfDestination(t.entries, dst)
  {
    smm, dmm := map[], map[];
    for i := 0 to |t.entries|
      invariant ListsOf(t.entries[..i], smm, dmm)
    {
      var entry := t.entries[i];
      MessageMappingStep(t.entries, i, smm, dmm);
      if entry.sourceId !in smm {
        smm := smm[entry.sourceId := [entry.mId]];
      } else {
        smm := smm[entry.sourceId := smm[entry.sourceId] + [entry.mId]];
      }
      if entry.destinationId !in dmm {
        dmm := dmm[entry.destinationId := [entry.mId]];
      } else {
        dmm := dmm[entry.destinationId := dmm[entry.destinationId] + [entry.mId]];
      }
    }
    assert t.entries[..|t.entries|] == t.entries;
  }

  /** Each source and each destination of `s` maps to the ids of its entries. */
  ghost predicate ListsOf(s: seq<TraceEntry>, smm: map<SourceId, seq<MessageId>>, dmm: map<DestinationId, seq<MessageId>>) {
    && smm.Keys == Sources(s) && dmm.Keys == DestinationsOfEntries(s)
    && (forall src :: src in smm ==> smm[src] == IdsOfSource(s, src))
    && (forall dst :: dst in dmm ==> dmm[dst] == IdsOfDestination(s, dst))
  }

  lemma MessageMappingStep(s: seq<TraceEntry>, i: int, smm: map<SourceId, seq<MessageId>>, dmm: map<DestinationId, seq<MessageId>>)
    requires 0 <= i < |s| && ListsOf(s[..i], smm, dmm)
    ensures var e := s[i];
      ListsOf(s[..i + 1],
        smm[e.sourceId := (if e.sourceId in smm then smm[e.sourceId] else []) + [e.mId]],
        dmm[e.destinationId := (if e.destinationId in dmm then dmm[e.destinationId] else []) + [e.mId]])
  {
    SourceListsStep(s, i, smm);
    DestinationListsStep(s, i, dmm);
  }

  lemma SourceListsStep(s: seq<TraceEntry>, i: int, smm: map<SourceId, seq<MessageId>>)
    requires 0 <= i < |s| && smm.Keys == Sources(s[..i])
    requires forall src :: src in smm ==> smm[src] == IdsOfSource(s[..i], src)
    ensures var e := s[i]; var next := smm[e.sourceId := (if e.sourceId in smm then smm[e.sourceId] else []) + [e.mId]];
      && next.Keys == Sources(s[..i + 1])
      && (forall src :: src in next ==> next[src] == IdsOfSource(s[..i + 1], src))
  {
    var p, q := s[..i], s[..i + 1];
    assert q[..i] == p && q[i] == s[i];
    assert Sources(q) == Sources(p) + {s[i].sourceId} by {
      assert forall j :: 0 <= j < i ==> q[j] == p[j];
    }
    IdsOfAbsent(p, s[i].sourceId, s[i].destinationId);
  }

  lemma DestinationListsStep(s: seq<TraceEntry>, i: int, dmm: map<DestinationId, seq<MessageId>>)
    requires 0 <= i < |s| && dmm.Keys == DestinationsOfEntries(s[..i])
    requires forall dst :: dst in dmm ==> dmm[dst] == IdsOfDestination(s[..i], dst)
    ensures var e := s[i]; var next := dmm[e.destinationId := (if e.destinationId in dmm then dmm[e.destinationId] else []) + [e.mId]];
      && next.Keys == DestinationsOfEntries(s[..i + 1])
      && (forall dst :: dst in next ==> next[dst] == IdsOfDestination(s[..i + 1], dst))
  {
    var p, q := s[..i], s[..i + 1];
    assert q[..i] == p && q[i] == s[i];
    assert DestinationsOfEntries(q) == DestinationsOfEntries(p) + {s[i].destinationId} by {
      assert forall j :: 0 <= j < i ==> q[j] == p[j];
    }
    IdsOfAbsent(p, s[i].sourceId, s[i].destinationId);
  }

  lemma {:induction false} IdsOfAbsent(s: seq<TraceEntry>, src: SourceId, dst: DestinationId)
    ensures src !in Sources(s) ==> IdsOfSource(s, src) == []
    ensures dst !in DestinationsOfEntries(s) ==> IdsOfDestination(s, dst) == []
  {
    if s != [] {
      var p := s[..|s| - 1];
      assert Sources(p) <= Sources(s) by {
        assert forall j :: 0 <= j < |p| ==> p[j] == s[j];
      }
      assert DestinationsOfEntries(p) <= DestinationsOfEntries(s) by {
        assert forall j :: 0 <= j < |p| ==> p[j] == s[j];
      }
      assert s[|s| - 1].sourceId in Sources(s) && s[|s| - 1].destinationId in DestinationsOfEntries(s);
      IdsOfAbsent(p, src, dst);
    }
  }

  /** A source's list holds exactly the ids of the entries it sent. */
  lemma {:induction false} IdsOfSourceMember(s: seq<TraceEntry>, src: SourceId, m: MessageId)
    ensures m in IdsOfSource(s, src) <==> exists k :: 0 <= k < |s| && s[k].sourceId == src && s[k].mId == m
  {
    if s != [] {
      var p := s[..|s| - 1];
      IdsOfSourceMember(p, src, m);
      if exists k :: 0 <= k < |s| && s[k].sourceId == src && s[k].mId == m {
        var k :| 0 <= k < |s| && s[k].sourceId == src && s[k].mId == m;
        if k < |p| {
          assert p[k] == s[k];
        }
      }
      if exists k :: 0 <= k < |p| && p[k].sourceId == src && p[k].mId == m {
        var k :| 0 <= k < |p| && p[k].sourceId == src && p[k].mId == m;
        assert s[k] == p[k];
      }
    }
  }

  // ----- compute_relationship_anonymity -----

  /** Message id to source, the later of two entries with one id winning. */
  function MessageSources(s: seq<TraceEntry>): (r: map<MessageId, SourceId>)
    ensures r.Keys == IdsOf(s)
  {
    if s == [] then map[]
    else
      var p := s[..|s| - 1];
      assert IdsOf(s) == IdsOf(p) + {s[|s| - 1].mId} by {
        assert s == p + [s[|s| - 1]];
      }
      MessageSources(p)[s[|s| - 1].mId := s[|s| - 1].sourceId]
  }

  /** Message id to destination, the later of two entries with one id winning. */
  function MessageDestinations(s: seq<TraceEntry>): (r: map<MessageId, DestinationId>)
    ensures r.Keys == IdsOf(s)
  {
    if s == [] then map[]
    else
      var p := s[..|s| - 1];
      assert IdsOf(s) == IdsOf(p) + {s[|s| - 1].mId} by {
        assert s == p + [s[|s| - 1]];
      }
      MessageDestinations(p)[s[|s| - 1].mId := s[|s| - 1].destinationId]
  }

  /** The maps of `SourceAndDestinationMapping` are these. */
  lemma {:induction false} MappingIsFold(s: seq<TraceEntry>, sm: map<MessageId, SourceId>, dm: map<MessageId, DestinationId>)
    requires sm.Keys == dm.Keys == IdsOf(s)
    requires forall k :: 0 <= k < |s| && LastOfId(s, k) ==> sm[s[k].mId] == s[k].sourceId && dm[s[k].mId] == s[k].destinationId
    ensures sm == MessageSources(s) && dm == MessageDestinations(s)
  {
    forall m | m in sm ensures sm[m] == MessageSources(s)[m] && dm[m] == MessageDestinations(s)[m] {
      var k := LastIndexOf(s, m);
      FoldAtLast(s, k);
    }
  }

  /** The position of the last entry with id `m`. */
  lemma {:induction false} LastIndexOf(s: seq<TraceEntry>, m: MessageId) returns (k: int)
    requires m in IdsOf(s)
    ensures 0 <= k < |s| && s[k].mId == m && LastOfId(s, k)
  {
    var p, x := s[..|s| - 1], s[|s| - 1];
    if x.mId == m {
      k := |s| - 1;
    } else {
      assert m in IdsOf(p) by {
        var e :| e in s && e.mId == m;
        assert e in p + [x] by { assert s == p + [x]; }
      }
      k := LastIndexOf(p, m);
      assert s[k] == p[k];
    }
  }

  lemma {:induction false} FoldAtLast(s: seq<TraceEntry>, k: int)
    requires 0 <= k < |s| && LastOfId(s, k)
    ensures MessageSources(s)[s[k].mId] == s[k].sourceId
    ensures MessageDestinations(s)[s[k].mId] == s[k].destinationId
  {
    if k < |s| - 1 {
      var p := s[..|s| - 1];
      assert p[k] == s[k];
      assert LastOfId(p, k) by {
        assert forall j :: k < j < |p| ==> p[j] == s[j];
      }
      FoldAtLast(p, k);
      assert s[k].mId in IdsOf(p) by { assert p[k] in p; }
    }
  }

  /**
   * `compute_relationship_anonymity`: the relationship anonymity sets of
   * every source, computed from the source perspective only; the
   * destination-side result is always empty.
   */
  method ComputeRelationshipAnonymity(t: Trace, minDelay: Duration, maxDelay: Duration)
    returns (r: Result<(map<SourceId, seq<Relationship>>, map<SourceId, seq<Relationship>>), string>)
    requires UniqueIds(t.entries) && (|t.entries| > 0 ==> minDelay <= maxDelay + 1)
    ensures var sm, dm := MessageSources(t.entries), MessageDestinations(t.entries);
      && EntriesMapped(t.entries, sm, dm)
      && r == Success((PruneAll(BySource(Sweep(t.entries, minDelay, maxDelay + 1, sm, dm), sm)), map[]))
  {
    var sourceMessageMapping, destinationMessageMapping := SourceAndDestinationMessageMapping(t);
    var sourceMapping, destinationMapping := SourceAndDestinationMapping(t);
    MappingIsFold(t.entries, sourceMapping, destinationMapping);
    var sourceMessageAnonymitySets := ComputeMessageAnonymitySets(t, minDelay, maxDelay, sourceMapping, destinationMapping);
    var sourceRelationshipAnonymitySets := ComputeRelationShipAnonymitySets(sourceMessageAnonymitySets);
    var destinationRelationshipAnonymitySets := map[];
    r := Success((sourceRelationshipAnonymitySets, destinationRelationshipAnonymitySets));
  }
}

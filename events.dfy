/**
 * The event queue of the metric engine: every trace entry becomes three
 * timestamped events (its window opens, its window closes, it arrives), and
 * the queue is sorted by timestamp, then event kind, then payload id.
 */
module Events {
  import opened Sorting
  import opened Seqs
  import opened Trace

  /** Declared in this order; the declaration order is the tie-break at equal timestamps. */
  datatype EventTypeAndId =
    | AddSourceMessage(source: SourceId)
    | AddDestinationMessage(destination: DestinationId)
    | RemoveSourceMessage(source: SourceId)

  datatype ProcessingEvent = ProcessingEvent(eventType: EventTypeAndId, ts: Timestamp, mId: MessageId)

  /** The position of the variant in the declaration. */
  function Rank(t: EventTypeAndId): int {
    match t
    case AddSourceMessage(_) => 0
    case AddDestinationMessage(_) => 1
    case RemoveSourceMessage(_) => 2
  }

  /** The id the variant carries. */
  function Payload(t: EventTypeAndId): int {
    match t
    case AddSourceMessage(s) => s as int
    case AddDestinationMessage(d) => d as int
    case RemoveSourceMessage(s) => s as int
  }

  /**
   * What the hand-written `partial_cmp` compares: the timestamp, and at
   * equal timestamps the derived order of the event type (variant, then
   * payload). The message id takes no part.
   */
  function EventKey(e: ProcessingEvent): Key {
    Key(e.ts, Rank(e.eventType), Payload(e.eventType))
  }

  predicate IsAdd(e: ProcessingEvent) {
    e.eventType.AddSourceMessage?
  }

  predicate IsRemove(e: ProcessingEvent) {
    e.eventType.RemoveSourceMessage?
  }

  predicate IsArrival(e: ProcessingEvent) {
    e.eventType.AddDestinationMessage?
  }

  function AddOf(e: TraceEntry, minDelay: Duration): ProcessingEvent {
    ProcessingEvent(AddSourceMessage(e.sourceId), e.sourceTimestamp + minDelay, e.mId)
  }

  function RemoveOf(e: TraceEntry, windowEnd: Duration): ProcessingEvent {
    ProcessingEvent(RemoveSourceMessage(e.sourceId), e.sourceTimestamp + windowEnd, e.mId)
  }

  function ArrivalOf(e: TraceEntry): ProcessingEvent {
    ProcessingEvent(AddDestinationMessage(e.destinationId), e.destinationTimestamp, e.mId)
  }

  /** The three events of one entry, in the order they are pushed. */
  function EntryEvents(e: TraceEntry, minDelay: Duration, windowEnd: Duration): seq<ProcessingEvent> {
    [AddOf(e, minDelay), RemoveOf(e, windowEnd), ArrivalOf(e)]
  }

  /** Which of an entry's three events an event is follows from its kind. */
  lemma EventOfEntry(v: ProcessingEvent, e: TraceEntry, minDelay: Duration, windowEnd: Duration)
    requires v in EntryEvents(e, minDelay, windowEnd)
    ensures v.mId == e.mId
    ensures IsAdd(v) ==> v == AddOf(e, minDelay)
    ensures IsRemove(v) ==> v == RemoveOf(e, windowEnd)
    ensures IsArrival(v) ==> v == ArrivalOf(e)
  {
  }

  /** The events of all entries, before sorting. */
  function RawEvents(s: seq<TraceEntry>, minDelay: Duration, windowEnd: Duration): seq<ProcessingEvent> {
    if s == [] then []
    else RawEvents(s[..|s| - 1], minDelay, windowEnd) + EntryEvents(s[|s| - 1], minDelay, windowEnd)
  }

  /**
   * `compute_event_queues`: the window of a message closes one nanosecond
   * after its maximum delay.
   */
  method ComputeEventQueues(t: Trace, minDelay: Duration, maxDelay: Duration) returns (queue: seq<ProcessingEvent>)
    ensures queue == Sort(RawEvents(t.entries, minDelay, maxDelay + 1), EventKey)
    ensures |queue| == 3 * |t.entries|
    ensures SortedBy(queue, EventKey)
  {
    queue := [];
    var windowEnd := maxDelay + 1;
    for i := 0 to |t.entries|
      invariant queue == RawEvents(t.entries[..i], minDelay, windowEnd)
    {
      var entry := t.entries[i];
      assert t.entries[..i + 1][..i] == t.entries[..i];
      queue := queue + [ProcessingEvent(AddSourceMessage(entry.sourceId), entry.sourceTimestamp + minDelay, entry.mId)];
      queue := queue + [ProcessingEvent(RemoveSourceMessage(entry.sourceId), entry.sourceTimestamp + windowEnd, entry.mId)];
      queue := queue + [ProcessingEvent(AddDestinationMessage(entry.destinationId), entry.destinationTimestamp, entry.mId)];
    }
    assert t.entries[..|t.entries|] == t.entries;
    RawEventsLength(t.entries, minDelay, windowEnd);
    queue := Sort(queue, EventKey);
  }

  lemma {:induction false} RawEventsLength(s: seq<TraceEntry>, minDelay: Duration, windowEnd: Duration)
    ensures |RawEvents(s, minDelay, windowEnd)| == 3 * |s|
  {
    if s != [] {
      RawEventsLength(s[..|s| - 1], minDelay, windowEnd);
    }
  }

  /** The events of entry `k` sit at positions `3k`, `3k + 1` and `3k + 2`. */
  lemma {:induction false} RawEventsAt(s: seq<TraceEntry>, minDelay: Duration, windowEnd: Duration, k: nat)
    requires k < |s|
    ensures |RawEvents(s, minDelay, windowEnd)| == 3 * |s|
    ensures RawEvents(s, minDelay, windowEnd)[3 * k] == AddOf(s[k], minDelay)
    ensures RawEvents(s, minDelay, windowEnd)[3 * k + 1] == RemoveOf(s[k], windowEnd)
    ensures RawEvents(s, minDelay, windowEnd)[3 * k + 2] == ArrivalOf(s[k])
  {
    RawEventsLength(s, minDelay, windowEnd);
    var p := s[..|s| - 1];
    RawEventsLength(p, minDelay, windowEnd);
    if k < |s| - 1 {
      RawEventsAt(p, minDelay, windowEnd, k);
      assert s[k] == p[k];
    }
  }

  /** Every message id is used once. */
  predicate UniqueIds(s: seq<TraceEntry>) {
    forall i, j :: 0 <= i < j < |s| ==> s[i].mId != s[j].mId
  }

  /**
   * The queue condition the sweep relies on: no message has two events of
   * the same kind, and a message's window closes only after it opened.
   */
  ghost predicate WellFormed(q: seq<ProcessingEvent>) {
    && (forall a, b :: 0 <= a < b < |q| && q[a].mId == q[b].mId ==> Rank(q[a].eventType) != Rank(q[b].eventType))
    && (forall r :: 0 <= r < |q| && IsRemove(q[r]) ==>
          exists a :: 0 <= a < r && IsAdd(q[a]) && q[a].mId == q[r].mId)
  }

  /** Along a sorted queue time never goes back. */
  lemma SortedTimes(q: seq<ProcessingEvent>, i: int, j: int)
    requires SortedBy(q, EventKey) && 0 <= i < j < |q|
    ensures q[i].ts <= q[j].ts
  {
    assert !KeyLt(EventKey(q[j]), EventKey(q[i]));
  }

  /** In a well-formed queue no message closes twice. */
  lemma RemovesDistinct(q: seq<ProcessingEvent>, a: int, b: int)
    requires WellFormed(q) && 0 <= a < b < |q| && IsRemove(q[a]) && IsRemove(q[b])
    ensures q[a].mId != q[b].mId
  {
    assert Rank(q[a].eventType) == Rank(q[b].eventType);
  }

  /** Every raw event is one of the three events of some entry. */
  lemma {:induction false} RawMember(s: seq<TraceEntry>, minDelay: Duration, windowEnd: Duration, v: ProcessingEvent)
    requires v in RawEvents(s, minDelay, windowEnd)
    ensures exists k :: 0 <= k < |s| && v in EntryEvents(s[k], minDelay, windowEnd)
  {
    var p := s[..|s| - 1];
    if v in RawEvents(p, minDelay, windowEnd) {
      RawMember(p, minDelay, windowEnd, v);
      var k :| 0 <= k < |p| && v in EntryEvents(p[k], minDelay, windowEnd);
      assert s[k] == p[k];
    } else {
      assert v in EntryEvents(s[|s| - 1], minDelay, windowEnd);
    }
  }

  /** The three events of every entry are raw events. */
  lemma {:induction false} RawContains(s: seq<TraceEntry>, minDelay: Duration, windowEnd: Duration, k: nat)
    requires k < |s|
    ensures forall v :: v in EntryEvents(s[k], minDelay, windowEnd) ==> v in RawEvents(s, minDelay, windowEnd)
  {
    var p := s[..|s| - 1];
    if k < |s| - 1 {
      RawContains(p, minDelay, windowEnd, k);
      assert s[k] == p[k];
    }
  }

  /** With unique ids no raw event occurs twice. */
  lemma {:induction false} RawCountAtMostOne(s: seq<TraceEntry>, minDelay: Duration, windowEnd: Duration, v: ProcessingEvent)
    requires UniqueIds(s)
    ensures multiset(RawEvents(s, minDelay, windowEnd))[v] <= 1
  {
    if s != [] {
      var p, e := s[..|s| - 1], s[|s| - 1];
      var three := EntryEvents(e, minDelay, windowEnd);
      var before := RawEvents(p, minDelay, windowEnd);
      assert RawEvents(s, minDelay, windowEnd) == before + three;
      assert multiset(before + three) == multiset(before) + multiset(three);
      if v in three {
        EntryEventsOnce(e, minDelay, windowEnd, v);
        FreshIdNotRaw(p, e, minDelay, windowEnd, v);
      } else {
        UniquePrefix(s);
        RawCountAtMostOne(p, minDelay, windowEnd, v);
      }
    }
  }

  lemma UniquePrefix(s: seq<TraceEntry>)
    requires UniqueIds(s) && s != []
    ensures UniqueIds(s[..|s| - 1])
  {
    var p := s[..|s| - 1];
    forall i, j | 0 <= i < j < |p| ensures p[i].mId != p[j].mId {
      assert p[i] == s[i] && p[j] == s[j];
    }
  }

  lemma EntryEventsOnce(e: TraceEntry, minDelay: Duration, windowEnd: Duration, v: ProcessingEvent)
    requires v in EntryEvents(e, minDelay, windowEnd)
    ensures multiset(EntryEvents(e, minDelay, windowEnd))[v] == 1
    ensures v.mId == e.mId
  {
  }

  /** An id that no earlier entry uses has no earlier raw event. */
  lemma FreshIdNotRaw(p: seq<TraceEntry>, e: TraceEntry, minDelay: Duration, windowEnd: Duration, v: ProcessingEvent)
    requires UniqueIds(p + [e]) && v.mId == e.mId
    ensures multiset(RawEvents(p, minDelay, windowEnd))[v] == 0
  {
    forall k | 0 <= k < |p| ensures p[k].mId != v.mId {
      assert (p + [e])[k] == p[k] && (p + [e])[|p|] == e;
    }
    RawNotMember(p, minDelay, windowEnd, v);
  }

  /** Only the entries' own ids occur in the raw events. */
  lemma {:induction false} RawNotMember(p: seq<TraceEntry>, minDelay: Duration, windowEnd: Duration, v: ProcessingEvent)
    requires forall k :: 0 <= k < |p| ==> p[k].mId != v.mId
    ensures v !in RawEvents(p, minDelay, windowEnd)
  {
    if p != [] {
      RawNotMember(p[..|p| - 1], minDelay, windowEnd, v);
      assert p[|p| - 1].mId != v.mId;
    }
  }

  /** The sorted queue of a trace with unique ids and `minDelay <= windowEnd` is well formed. */
  lemma QueueWellFormed(s: seq<TraceEntry>, minDelay: Duration, windowEnd: Duration)
    requires UniqueIds(s) && minDelay <= windowEnd
    ensures WellFormed(Sort(RawEvents(s, minDelay, windowEnd), EventKey))
  {
    var raw := RawEvents(s, minDelay, windowEnd);
    var q := Sort(raw, EventKey);
    forall a, b | 0 <= a < b < |q| && q[a].mId == q[b].mId
      ensures Rank(q[a].eventType) != Rank(q[b].eventType)
    {
      if Rank(q[a].eventType) == Rank(q[b].eventType) {
        QueueKindUnique(s, minDelay, windowEnd, raw, q, a, b);
      }
    }
    forall r | 0 <= r < |q| && IsRemove(q[r])
      ensures exists a :: 0 <= a < r && IsAdd(q[a]) && q[a].mId == q[r].mId
    {
      QueueAddBeforeRemove(s, minDelay, windowEnd, raw, q, r);
    }
  }

  /** An id and a kind determine one position of the sorted queue. */
  lemma QueueKindUnique(s: seq<TraceEntry>, minDelay: Duration, windowEnd: Duration,
                        raw: seq<ProcessingEvent>, q: seq<ProcessingEvent>, a: int, b: int)
    requires UniqueIds(s)
    requires raw == RawEvents(s, minDelay, windowEnd) && multiset(q) == multiset(raw)
    requires 0 <= a <= b < |q| && q[a].mId == q[b].mId
    requires Rank(q[a].eventType) == Rank(q[b].eventType)
    ensures a == b
  {
    var va, vb := q[a], q[b];
    assert va in multiset(raw) && vb in multiset(raw);
    RawMember(s, minDelay, windowEnd, va);
    RawMember(s, minDelay, windowEnd, vb);
    var ka :| 0 <= ka < |s| && va in EntryEvents(s[ka], minDelay, windowEnd);
    var kb :| 0 <= kb < |s| && vb in EntryEvents(s[kb], minDelay, windowEnd);
    EventOfEntry(va, s[ka], minDelay, windowEnd);
    EventOfEntry(vb, s[kb], minDelay, windowEnd);
    assert ka == kb by {
      assert s[ka].mId == s[kb].mId;
    }
    assert va == vb;
    RawCountAtMostOne(s, minDelay, windowEnd, q[a]);
    if a < b {
      TwoOccurrences(q, a, b);
    }
  }

  /** The window of a message opens before it closes. */
  lemma QueueAddBeforeRemove(s: seq<TraceEntry>, minDelay: Duration, windowEnd: Duration,
                             raw: seq<ProcessingEvent>, q: seq<ProcessingEvent>, r: int)
    requires minDelay <= windowEnd
    requires raw == RawEvents(s, minDelay, windowEnd) && multiset(q) == multiset(raw)
    requires SortedBy(q, EventKey)
    requires 0 <= r < |q| && IsRemove(q[r])
    ensures exists a :: 0 <= a < r && IsAdd(q[a]) && q[a].mId == q[r].mId
  {
    assert q[r] in multiset(raw);
    RawMember(s, minDelay, windowEnd, q[r]);
    var k :| 0 <= k < |s| && q[r] in EntryEvents(s[k], minDelay, windowEnd);
    assert q[r] == RemoveOf(s[k], windowEnd);
    var add := AddOf(s[k], minDelay);
    RawContains(s, minDelay, windowEnd, k);
    assert add in EntryEvents(s[k], minDelay, windowEnd);
    assert add in multiset(raw);
    var a :| 0 <= a < |q| && q[a] == add;
    assert KeyLt(EventKey(q[a]), EventKey(q[r]));
    SortedPrecedes(q, EventKey, a, r);
    assert 0 <= a < r && IsAdd(q[a]) && q[a].mId == q[r].mId;
  }

  /** Positions of a message's three events in a sorted queue. */
  lemma EventsInQueue(s: seq<TraceEntry>, minDelay: Duration, windowEnd: Duration, k: nat)
    requires k < |s|
    ensures var q := Sort(RawEvents(s, minDelay, windowEnd), EventKey);
      && AddOf(s[k], minDelay) in q && RemoveOf(s[k], windowEnd) in q && ArrivalOf(s[k]) in q
  {
    var raw := RawEvents(s, minDelay, windowEnd);
    RawEventsAt(s, minDelay, windowEnd, k);
    assert raw[3 * k] in multiset(raw) && raw[3 * k + 1] in multiset(raw) && raw[3 * k + 2] in multiset(raw);
  }

  /**
   * The queue is in timestamp order, and at equal timestamps window openings
   * come before arrivals, which come before window closings.
   */
  lemma QueueOrder(q: seq<ProcessingEvent>, i: int, j: int)
    requires SortedBy(q, EventKey)
    requires 0 <= i < j < |q|
    ensures q[i].ts <= q[j].ts
    ensures q[i].ts == q[j].ts ==> Rank(q[i].eventType) <= Rank(q[j].eventType)
  {
    assert !KeyLt(EventKey(q[j]), EventKey(q[i]));
  }

  /** Equal keys keep the order in which the entries pushed them. */
  lemma QueueStable(t: Trace, minDelay: Duration, maxDelay: Duration, k: Key)
    ensures var raw := RawEvents(t.entries, minDelay, maxDelay + 1);
      WithKey(Sort(raw, EventKey), EventKey, k) == WithKey(raw, EventKey, k)
  {
    SortStable(RawEvents(t.entries, minDelay, maxDelay + 1), EventKey, k);
  }

  /** Events of different kinds never compare equal, so the queue order between them is strict. */
  lemma DifferentKindsOrdered(q: seq<ProcessingEvent>, i: int, j: int)
    requires SortedBy(q, EventKey)
    requires 0 <= i < |q| && 0 <= j < |q|
    requires Rank(q[i].eventType) != Rank(q[j].eventType)
    ensures i < j <==> KeyLt(EventKey(q[i]), EventKey(q[j]))
  {
    if i < j {
      assert !KeyLt(EventKey(q[j]), EventKey(q[i]));
    } else if KeyLt(EventKey(q[i]), EventKey(q[j])) {
      SortedPrecedes(q, EventKey, i, j);
    }
  }
}

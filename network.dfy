/**
 * The deterministic part of the trace generator of the command-line tool
 * (`ppcalc/src/network.rs`): merging the per-source send times into one
 * list ordered by send time, and turning that list into trace entries with
 * sequential message ids and one network delay for every message.
 *
 * The delay is drawn at random in the code; here it is a parameter that
 * must lie in the range the code draws from. Delays are milliseconds and
 * timestamps nanoseconds.
 */
module Network {
  import opened Sorting
  import opened Seqs
  import opened Trace

  /** The send times of one source. */
  datatype SourceTrace = SourceTrace(sourceId: SourceId, timestamps: seq<Timestamp>)

  /** One message before the network has been applied. */
  datatype PreNetworkTraceEntry = PreNetworkTraceEntry(sourceId: SourceId, sourceTimestamp: Timestamp, destinationId: DestinationId)

  const NanosPerMilli: int := 1_000_000

  /** Every source has a destination (the code unwraps the lookup). */
  predicate AllMapped(traces: seq<SourceTrace>, destinations: map<SourceId, DestinationId>) {
    forall i :: 0 <= i < |traces| ==> traces[i].sourceId in destinations
  }

  /** The messages of one source, in the order of its timestamps. */
  function EntriesOf(t: SourceTrace, d: DestinationId): (r: seq<PreNetworkTraceEntry>)
    ensures |r| == |t.timestamps|
    ensures forall j :: 0 <= j < |r| ==> r[j] == PreNetworkTraceEntry(t.sourceId, t.timestamps[j], d)
  {
    seq(|t.timestamps|, j requires 0 <= j < |t.timestamps| => PreNetworkTraceEntry(t.sourceId, t.timestamps[j], d))
  }

  /** The messages of all sources, source after source, before sorting. */
  function Expanded(traces: seq<SourceTrace>, destinations: map<SourceId, DestinationId>): seq<PreNetworkTraceEntry>
    requires AllMapped(traces, destinations)
  {
    if traces == [] then []
    else
      var last := traces[|traces| - 1];
      Expanded(traces[..|traces| - 1], destinations) + EntriesOf(last, destinations[last.sourceId])
  }

  /** The number of timestamps over all sources. */
  function TotalTimestamps(traces: seq<SourceTrace>): nat {
    if traces == [] then 0 else TotalTimestamps(traces[..|traces| - 1]) + |traces[|traces| - 1].timestamps|
  }

  /** The order `sort_by` compares with: the send time alone. */
  function SendKey(e: PreNetworkTraceEntry): Key {
    Key(e.sourceTimestamp, 0, 0)
  }

  /**
   * `merge_traces`: every timestamp of every source becomes one message to
   * that source's destination, and the messages are stably sorted by send
   * time.
   */
  method MergeTraces(sourceTraces: seq<SourceTrace>, sourceDestinationMap: map<SourceId, DestinationId>)
    returns (preNetworkTrace: seq<PreNetworkTraceEntry>)
    requires AllMapped(sourceTraces, sourceDestinationMap)
    ensures preNetworkTrace == Sort(Expanded(sourceTraces, sourceDestinationMap), SendKey)
    ensures multiset(preNetworkTrace) == multiset(Expanded(sourceTraces, sourceDestinationMap))
    ensures |preNetworkTrace| == TotalTimestamps(sourceTraces)
    ensures forall i, j :: 0 <= i < j < |preNetworkTrace| ==>
      preNetworkTrace[i].sourceTimestamp <= preNetworkTrace[j].sourceTimestamp
    ensures forall e :: e in preNetworkTrace ==>
      e.sourceId in sourceDestinationMap && e.destinationId == sourceDestinationMap[e.sourceId]
  {
    var pre: seq<PreNetworkTraceEntry> := [];
    for i := 0 to |sourceTraces|
      invariant AllMapped(sourceTraces[..i], sourceDestinationMap)
      invariant pre == Expanded(sourceTraces[..i], sourceDestinationMap)
    {
      var trace := sourceTraces[i];
      var destinationId := sourceDestinationMap[trace.sourceId];
      assert sourceTraces[..i + 1][..i] == sourceTraces[..i];
      ghost var before := pre;
      for j := 0 to |trace.timestamps|
        invariant pre == before + EntriesOf(trace, destinationId)[..j]
      {
        assert EntriesOf(trace, destinationId)[..j + 1] == EntriesOf(trace, destinationId)[..j] + [EntriesOf(trace, destinationId)[j]];
        pre := pre + [PreNetworkTraceEntry(trace.sourceId, trace.timestamps[j], destinationId)];
      }
      assert EntriesOf(trace, destinationId)[..|trace.timestamps|] == EntriesOf(trace, destinationId);
    }
    assert sourceTraces[..|sourceTraces|] == sourceTraces;
    ExpandedLength(sourceTraces, sourceDestinationMap);
    ExpandedDestinations(sourceTraces, sourceDestinationMap);
    preNetworkTrace := Sort(pre, SendKey);
    forall i, j | 0 <= i < j < |preNetworkTrace|
      ensures preNetworkTrace[i].sourceTimestamp <= preNetworkTrace[j].sourceTimestamp
    {
      assert !KeyLt(SendKey(preNetworkTrace[j]), SendKey(preNetworkTrace[i]));
    }
    forall e | e in preNetworkTrace
      ensures e.sourceId in sourceDestinationMap && e.destinationId == sourceDestinationMap[e.sourceId]
    {
      assert e in multiset(pre);
    }
  }

  /** The merged list has one message per timestamp. */
  lemma {:induction false} ExpandedLength(traces: seq<SourceTrace>, destinations: map<SourceId, DestinationId>)
    requires AllMapped(traces, destinations)
    ensures |Expanded(traces, destinations)| == TotalTimestamps(traces)
  {
    if traces != [] {
      ExpandedLength(traces[..|traces| - 1], destinations);
    }
  }

  /** Every message goes to the destination of its source. */
  lemma {:induction false} ExpandedDestinations(traces: seq<SourceTrace>, destinations: map<SourceId, DestinationId>)
    requires AllMapped(traces, destinations)
    ensures forall e :: e in Expanded(traces, destinations) ==>
      e.sourceId in destinations && e.destinationId == destinations[e.sourceId]
  {
    if traces != [] {
      ExpandedDestinations(traces[..|traces| - 1], destinations);
    }
  }

  /** `e` is the message of one of `t`'s timestamps, sent to `d`. */
  predicate FromSource(t: SourceTrace, d: DestinationId, e: PreNetworkTraceEntry) {
    e.sourceId == t.sourceId && e.destinationId == d && e.sourceTimestamp in t.timestamps
  }

  /**
   * The messages are exactly the (source, timestamp) pairs of the input, each
   * with its source's destination.
   */
  lemma {:induction false} ExpandedMember(traces: seq<SourceTrace>, destinations: map<SourceId, DestinationId>, e: PreNetworkTraceEntry)
    requires AllMapped(traces, destinations)
    ensures e in Expanded(traces, destinations) <==>
      exists i :: 0 <= i < |traces| && FromSource(traces[i], destinations[traces[i].sourceId], e)
  {
    if traces != [] {
      var p := traces[..|traces| - 1];
      var last := traces[|traces| - 1];
      var d := destinations[last.sourceId];
      ExpandedMember(p, destinations, e);
      assert forall i :: 0 <= i < |p| ==> traces[i] == p[i];
      assert e in EntriesOf(last, d) <==> FromSource(last, d, e) by {
        if FromSource(last, d, e) {
          var j :| 0 <= j < |last.timestamps| && last.timestamps[j] == e.sourceTimestamp;
          assert EntriesOf(last, d)[j] == e;
        }
      }
    }
  }

  /**
   * The sort is stable: messages with the same send time keep the order of
   * the sources in the input, and of the timestamps within one source.
   */
  lemma MergeStable(sourceTraces: seq<SourceTrace>, sourceDestinationMap: map<SourceId, DestinationId>, ts: Timestamp)
    requires AllMapped(sourceTraces, sourceDestinationMap)
    ensures var raw := Expanded(sourceTraces, sourceDestinationMap);
      WithKey(Sort(raw, SendKey), SendKey, Key(ts, 0, 0)) == WithKey(raw, SendKey, Key(ts, 0, 0))
  {
    SortStable(Expanded(sourceTraces, sourceDestinationMap), SendKey, Key(ts, 0, 0));
  }

  /** The trace entry the generator makes of message `i`. */
  function Delayed(e: PreNetworkTraceEntry, i: nat, delay: int): TraceEntry {
    TraceEntry(i as MessageId, e.sourceId, e.sourceTimestamp, e.destinationId, e.sourceTimestamp + delay * NanosPerMilli)
  }

  /**
   * `generate_network_delay` with the sampled delay as a parameter: message
   * `i` gets id `i` and arrives `delay` milliseconds after it was sent; the
   * delay is one value in `[minDelay, maxDelay)` for all messages. The code
   * adds the entries to a trace object the library does not offer; here
   * they are returned in the order they are added.
   */
  method GenerateNetworkDelay(minDelay: int, maxDelay: int, preNetworkTrace: seq<PreNetworkTraceEntry>, delay: int)
    returns (entries: seq<TraceEntry>)
    requires minDelay <= delay < maxDelay
    ensures |entries| == |preNetworkTrace|
    ensures forall i :: 0 <= i < |entries| ==> entries[i] == Delayed(preNetworkTrace[i], i, delay)
    ensures forall i :: 0 <= i < |entries| ==>
      minDelay * NanosPerMilli <= entries[i].destinationTimestamp - entries[i].sourceTimestamp < maxDelay * NanosPerMilli
  {
    entries := [];
    var mId := 0;
    for k := 0 to |preNetworkTrace|
      invariant mId == k == |entries|
      invariant forall i :: 0 <= i < k ==> entries[i] == Delayed(preNetworkTrace[i], i, delay)
    {
      var entry := preNetworkTrace[k];
      entries := entries + [TraceEntry(mId as MessageId, entry.sourceId, entry.sourceTimestamp,
                                       entry.destinationId, entry.sourceTimestamp + delay * NanosPerMilli)];
      mId := mId + 1;
    }
  }

  /**
   * A list sorted by send time, as `MergeTraces` returns it, yields entries
   * numbered 0..n-1 whose arrivals do not decrease with the id: the id and
   * arrival checks of `TraceBuilder.Build` pass.
   */
  lemma GeneratedPassesChecks(preNetworkTrace: seq<PreNetworkTraceEntry>, delay: int, entries: seq<TraceEntry>)
    requires forall i, j :: 0 <= i < j < |preNetworkTrace| ==>
      preNetworkTrace[i].sourceTimestamp <= preNetworkTrace[j].sourceTimestamp
    requires |entries| == |preNetworkTrace|
    requires forall i :: 0 <= i < |entries| ==> entries[i] == Delayed(preNetworkTrace[i], i, delay)
    ensures IdsAreIndices(entries)
    ensures ArrivalsFollowIds(entries)
  {
    assert MapSeq(entries, IdOf) == Range(|entries|);
    forall i, j | 0 <= i < |entries| && 0 <= j < |entries| && entries[i].mId < entries[j].mId
      ensures entries[i].destinationTimestamp <= entries[j].destinationTimestamp
    {
      assert i < j;
    }
  }

  /** Merging and then generating gives entries that pass the id and arrival checks. */
  method Generate(sourceTraces: seq<SourceTrace>, sourceDestinationMap: map<SourceId, DestinationId>,
                  minDelay: int, maxDelay: int, delay: int) returns (entries: seq<TraceEntry>)
    requires AllMapped(sourceTraces, sourceDestinationMap)
    requires minDelay <= delay < maxDelay
    ensures |entries| == TotalTimestamps(sourceTraces)
    ensures IdsAreIndices(entries) && ArrivalsFollowIds(entries)
    ensures forall i :: 0 <= i < |entries| ==>
      entries[i].sourceId in sourceDestinationMap && entries[i].destinationId == sourceDestinationMap[entries[i].sourceId]
  {
    var pre := MergeTraces(sourceTraces, sourceDestinationMap);
    entries := GenerateNetworkDelay(minDelay, maxDelay, pre, delay);
    GeneratedPassesChecks(pre, delay, entries);
    forall i | 0 <= i < |entries|
      ensures entries[i].sourceId in sourceDestinationMap && entries[i].destinationId == sourceDestinationMap[entries[i].sourceId]
    {
      assert pre[i] in pre;
    }
  }
}

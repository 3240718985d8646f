/**
 * The trace generator of the prototype under `src/` (`src/network.rs`), a
 * near copy of the library tool's generator over the prototype's records,
 * which name sources and destinations by strings: merging the per-source
 * send times into one list ordered by send time, and numbering the messages
 * with one network delay for all of them.
 *
 * The delay is drawn at random in the code; here it is a parameter in the
 * range the code draws from. Delays are milliseconds and timestamps
 * nanoseconds.
 */
module ProtoNetwork {
  import opened Sorting
  import opened ProtoTrace

  const NanosPerMilli: int := 1_000_000

  /** Every source has a destination (the code unwraps the lookup). */
  predicate AllMapped(traces: seq<SourceTrace>, destinations: map<string, string>) {
    forall i :: 0 <= i < |traces| ==> traces[i].sourceName in destinations
  }

  /** The messages of one source, in the order of its timestamps. */
  function EntriesOf(t: SourceTrace, d: string): (r: seq<PreNetworkTraceEntry>)
    ensures |r| == |t.timestamps|
    ensures forall j :: 0 <= j < |r| ==> r[j] == PreNetworkTraceEntry(t.sourceName, t.timestamps[j], d)
  {
    seq(|t.timestamps|, j requires 0 <= j < |t.timestamps| => PreNetworkTraceEntry(t.sourceName, t.timestamps[j], d))
  }

  /** The messages of all sources, source after source, before sorting. */
  function Expanded(traces: seq<SourceTrace>, destinations: map<string, string>): seq<PreNetworkTraceEntry>
    requires AllMapped(traces, destinations)
  {
    if traces == [] then []
    else
      var last := traces[|traces| - 1];
      Expanded(traces[..|traces| - 1], destinations) + EntriesOf(last, destinations[last.sourceName])
  }

  /** The number of timestamps over all sources. */
  function TotalTimestamps(traces: seq<SourceTrace>): nat {
    if traces == [] then 0 else TotalTimestamps(traces[..|traces| - 1]) + |traces[|traces| - 1].timestamps|
  }

  /** The order `sort_by` compares with: the send time alone. */
  function SendKey(e: PreNetworkTraceEntry): Key {
    Key(e.sourceTimestamp, 0, 0)
  }

  /**
   * `merge_traces`: every timestamp of every source becomes one message to
   * that source's destination, and the messages are stably sorted by send
   * time.
   */
  method MergeTraces(sourceTraces: seq<SourceTrace>, sourceDestinationMap: map<string, string>)
    returns (preNetworkTrace: seq<PreNetworkTraceEntry>)
    requires AllMapped(sourceTraces, sourceDestinationMap)
    ensures preNetworkTrace == Sort(Expanded(sourceTraces, sourceDestinationMap), SendKey)
    ensures multiset(preNetworkTrace) == multiset(Expanded(sourceTraces, sourceDestinationMap))
    ensures |preNetworkTrace| == TotalTimestamps(sourceTraces)
    ensures forall i, j :: 0 <= i < j < |preNetworkTrace| ==>
      preNetworkTrace[i].sourceTimestamp <= preNetworkTrace[j].sourceTimestamp
    ensures forall e :: e in preNetworkTrace ==>
      e.sourceName in sourceDestinationMap && e.destinationName == sourceDestinationMap[e.sourceName]
  {
    var pre: seq<PreNetworkTraceEntry> := [];
    for i := 0 to |sourceTraces|
      invariant AllMapped(sourceTraces[..i], sourceDestinationMap)
      invariant pre == Expanded(sourceTraces[..i], sourceDestinationMap)
    {
      var trace := sourceTraces[i];
      var destinationName := sourceDestinationMap[trace.sourceName];
      assert sourceTraces[..i + 1][..i] == sourceTraces[..i];
      ghost var before := pre;
      for j := 0 to |trace.timestamps|
        invariant pre == before + EntriesOf(trace, destinationName)[..j]
      {
        assert EntriesOf(trace, destinationName)[..j + 1] == EntriesOf(trace, destinationName)[..j] + [EntriesOf(trace, destinationName)[j]];
        pre := pre + [PreNetworkTraceEntry(trace.sourceName, trace.timestamps[j], destinationName)];
      }
      assert EntriesOf(trace, destinationName)[..|trace.timestamps|] == EntriesOf(trace, destinationName);
    }
    assert sourceTraces[..|sourceTraces|] == sourceTraces;
    ExpandedLength(sourceTraces, sourceDestinationMap);
    ExpandedDestinations(sourceTraces, sourceDestinationMap);
    preNetworkTrace := Sort(pre, SendKey);
    forall i, j | 0 <= i < j < |preNetworkTrace|
      ensures preNetworkTrace[i].sourceTimestamp <= preNetworkTrace[j].sourceTimestamp
    {
      assert !KeyLt(SendKey(preNetworkTrace[j]), SendKey(preNetworkTrace[i]));
    }
    forall e | e in preNetworkTrace
      ensures e.sourceName in sourceDestinationMap && e.destinationName == sourceDestinationMap[e.sourceName]
    {
      assert e in multiset(pre);
    }
  }

  /** The merged list has one message per timestamp. */
  lemma {:induction false} ExpandedLength(traces: seq<SourceTrace>, destinations: map<string, string>)
    requires AllMapped(traces, destinations)
    ensures |Expanded(traces, destinations)| == TotalTimestamps(traces)
  {
    if traces != [] {
      ExpandedLength(traces[..|traces| - 1], destinations);
    }
  }

  /** Every message goes to the destination of its source. */
  lemma {:induction false} ExpandedDestinations(traces: seq<SourceTrace>, destinations: map<string, string>)
    requires AllMapped(traces, destinations)
    ensures forall e :: e in Expanded(traces, destinations) ==>
      e.sourceName in destinations && e.destinationName == destinations[e.sourceName]
  {
    if traces != [] {
      ExpandedDestinations(traces[..|traces| - 1], destinations);
    }
  }

  /** Messages with the same send time keep the order of the sources and of their timestamps. */
  lemma MergeStable(sourceTraces: seq<SourceTrace>, sourceDestinationMap: map<string, string>, ts: int)
    requires AllMapped(sourceTraces, sourceDestinationMap)
    ensures var raw := Expanded(sourceTraces, sourceDestinationMap);
      WithKey(Sort(raw, SendKey), SendKey, Key(ts, 0, 0)) == WithKey(raw, SendKey, Key(ts, 0, 0))
  {
    SortStable(Expanded(sourceTraces, sourceDestinationMap), SendKey, Key(ts, 0, 0));
  }

  /** The trace entry the generator makes of message `i`. */
  function Delayed(e: PreNetworkTraceEntry, i: nat, delay: int): TraceEntry {
    TraceEntry(i, e.sourceName, e.sourceTimestamp, e.destinationName, e.sourceTimestamp + delay * NanosPerMilli)
  }

  /**
   * `generate_network_delay` with the sampled delay as a parameter: message
   * `i` gets id `i` and arrives `delay` milliseconds after it was sent, one
   * delay in `[minDelay, maxDelay)` for all messages.
   */
  method GenerateNetworkDelay(minDelay: int, maxDelay: int, preNetworkTrace: seq<PreNetworkTraceEntry>, delay: int)
    returns (trace: Trace)
    requires minDelay <= delay < maxDelay
    ensures |trace.entries| == |preNetworkTrace|
    ensures forall i :: 0 <= i < |trace.entries| ==> trace.entries[i] == Delayed(preNetworkTrace[i], i, delay)
    ensures forall i :: 0 <= i < |trace.entries| ==>
      minDelay * NanosPerMilli <= trace.entries[i].destinationTimestamp - trace.entries[i].sourceTimestamp < maxDelay * NanosPerMilli
  {
    var entries: seq<TraceEntry> := [];
    var mId := 0;
    for k := 0 to |preNetworkTrace|
      invariant mId == k == |entries|
      invariant forall i :: 0 <= i < k ==> entries[i] == Delayed(preNetworkTrace[i], i, delay)
    {
      var entry := preNetworkTrace[k];
      entries := entries + [TraceEntry(mId, entry.sourceName, entry.sourceTimestamp,
                                       entry.destinationName, entry.sourceTimestamp + delay * NanosPerMilli)];
      mId := mId + 1;
    }
    trace := Trace(entries);
  }

  /**
   * On a list sorted by send time, as `MergeTraces` returns it, ids are the
   * positions and arrivals do not decrease with the id.
   */
  lemma GeneratedInIdOrder(preNetworkTrace: seq<PreNetworkTraceEntry>, delay: int, trace: Trace)
    requires forall i, j :: 0 <= i < j < |preNetworkTrace| ==>
      preNetworkTrace[i].sourceTimestamp <= preNetworkTrace[j].sourceTimestamp
    requires |trace.entries| == |preNetworkTrace|
    requires forall i :: 0 <= i < |trace.entries| ==> trace.entries[i] == Delayed(preNetworkTrace[i], i, delay)
    ensures forall i :: 0 <= i < |trace.entries| ==> trace.entries[i].mId == i
    ensures forall i, j :: 0 <= i < |trace.entries| && 0 <= j < |trace.entries| && trace.entries[i].mId < trace.entries[j].mId ==>
      trace.entries[i].destinationTimestamp <= trace.entries[j].destinationTimestamp
  {
  }
}

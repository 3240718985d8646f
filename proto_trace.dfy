/**
 * The record types of the prototype under `src/`, which names sources and
 * destinations by strings. Timestamps are integers counting nanoseconds; the
 * CSV and JSON readers and writers around these records are not modelled.
 */
module ProtoTrace {

  /** The send times of one named source. */
  datatype SourceTrace = SourceTrace(sourceName: string, timestamps: seq<int>)

  /** One message before the network has been applied: who sent it, when, and to whom. */
  datatype PreNetworkTraceEntry = PreNetworkTraceEntry(sourceName: string, sourceTimestamp: int, destinationName: string)

  /** One message of a network trace, with the time it arrived. */
  datatype TraceEntry = TraceEntry(
    mId: nat,
    sourceName: string,
    sourceTimestamp: int,
    destinationName: string,
    destinationTimestamp: int)

  datatype Trace = Trace(entries: seq<TraceEntry>)
}

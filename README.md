# ppcalc — a Dafny model of the Progressive Pruning anonymity metric

ppcalc computes "Progressive Pruning" anonymity metrics for anonymous
communication networks. It starts from a network trace: for every message, who
sent it and when, and which destination received it and when. From that trace
it works out, after each message a source sends, which destinations that source
could still be talking to.

This project models the computational core of the repository in Dafny and
proves properties of the model. One module covers each part of the core:

| module | file | what it models |
|---|---|---|
| `Trace` | `trace.dfy` | the id types, trace entries, `TraceBuilder` (`new`, `add_entry`, `fix`, `build`, the mapping builder), `TraceBuildError`, the validated `Trace` and its mappings (`ppcalc_metric/src/trace.rs`) |
| `Events` | `events.dfy` | `EventTypeAndId`, the hand-written event order and `compute_event_queues` (`ppcalc_metric/src/metric.rs`) |
| `Metric` | `metric.dfy` | `relative_set_distance`, `split_by_destination`, the event sweep of `compute_message_anonymity_sets`, the candidate pruning of `compute_relation_ship_anonymity_sets`, the two mapping builders and `compute_relationship_anonymity` |
| `Containers` | `containers.dfy` | `MessageSet` as a class with fields `messages` and `sorted`, and its methods (`ppcalc_metric/src/containers.rs`) |
| `ProtoTrace` | `proto_trace.dfy` | the record types of the prototype under `src/`, which names sources and destinations by strings |
| `Analytics` | `analytics.dfy` | the prototype's list-based sweep and its greedy pruning with a list of selected messages (`src/analytics.rs`) |
| `ProtoPlot` | `proto_plot.dfy` | `PlotFormat::new`, `deanonymized_users_over_time` and `anonymity_set_size_over_time` of the prototype (`src/plot.rs`) |
| `Plot` | `plot.dfy` | the deanonymisation summary of the command-line tool (`ppcalc/src/plot.rs`) |
| `Network`, `ProtoNetwork` | `network.dfy`, `proto_network.dfy` | `merge_traces` and `generate_network_delay` of the trace generator (`ppcalc/src/network.rs`, `src/network.rs`) |
| `Destination` | `destination.dfy` | round-robin and uniform destination selection and their dispatch (`ppcalc/src/destination.rs`) |
| `Cli` | `cli.dfy` | the destination-selection keyword parser and the `constant:V` / `uniform:A:B` / `normal:M:D` distribution parser (`ppcalc/src/cli.rs`) |
| `Sorting`, `Seqs`, `Wrappers` | `sorting.dfy`, `seqs.dfy`, `wrappers.dfy` | a stable insertion sort over an integer key, which stands for the library sorts; sums over sets; `Option` and `Result` |

Modelling conventions:

- **Identifiers.** The id newtypes are unbounded naturals.
- **Time.** Timestamps and durations are integer nanoseconds. The prototype's
  millisecond delays are multiplied by 1 000 000.
- **Hash containers.** Hash maps and sets become Dafny maps and sets. Wherever
  the code iterates over a hash container, the loop picks an arbitrary
  remaining key, so no contract depends on the iteration order.
- **Sorting.** Every sort is the stable sort `Sorting.Sort` on a key that
  encodes the comparison the code uses. The one exception is the unstable
  `sort_unstable_by_key` of `fix`. There, ties between equal arrival times
  are observable, so `Trace.TraceBuilder.Fix` takes any arrival-sorted
  permutation. For `Vec::sort` on events that is `<`,
  which goes through the hand-written `partial_cmp`: timestamp first, then the
  event kind in declaration order, then the kind's payload id. The derived
  `Ord` takes no part.
- **Imperative code.** Code that works step by step is written as methods with
  loops. Each method is proved equal to a specification function, and the
  properties are proved about that function.
- **Panics.** A panic in the code (an `unwrap` on a missing key, an
  `unimplemented!`) becomes a precondition.
- **Recoverable errors.** Errors the code returns become `Result` values.

The code's own oddities are kept as written:

- **Swapped id-error names in `build`.** After sorting by id, an id above its
  position is a skipped id, yet the code reports it as `MessageIdsNotUnique`.
  An id below its position is a repeated id, yet the code reports it as
  `MessageIdsHaveGaps`. `Trace.IdErrorMeaning`, `Trace.GapReportedAsNotUnique`
  and `Trace.DuplicateReportedAsGap` pin this down.
- **`MessageSet::distance`.** Its `Greater` case consumes the left value.
  Only the counting properties hold for it; see Findings.
- **Backward scan in `ppcalc/src/plot.rs`.** It stops at the first set of size
  one. `Plot.EntryOf`, `Plot.SourceEntry` and `Plot.DeanonymizedUsersOverTime`
  keep that scan, so a deanonymised source is always reported at its message
  count. `Plot.CorrectedEntryOf` and `Plot.CorrectedSourceEntry` use the
  corrected scan `Plot.DeanomizedAt`; see Findings.

## Model

| member | source | states |
|---|---|---|
| Trace.NewMessageId | ppcalc_metric/src/trace.rs:274-286 | `to_num` of `MessageId::new(x)` gives back `x` |
| Trace.NewSourceId | ppcalc_metric/src/trace.rs:274-286 | `to_num` of `SourceId::new(x)` gives back `x` |
| Trace.NewDestinationId | ppcalc_metric/src/trace.rs:274-286 | `to_num` of `DestinationId::new(x)` gives back `x` |
| Trace.TraceBuilder.constructor | ppcalc_metric/src/trace.rs:28-32 | a new builder holds no entries |
| Trace.TraceBuilder.AddEntry | ppcalc_metric/src/trace.rs:35-37 | the entry is appended after the existing ones |
| Trace.TraceBuilder.Fix | ppcalc_metric/src/trace.rs:58-64 | the entries become some permutation of themselves in non-decreasing arrival order, renumbered 0..n-1. Ties may fall in any order, as with an unstable sort. Up to their ids they are the same entries. Afterwards ids are exactly the positions and arrivals never decrease with the id |
| Trace.TraceBuilder.Renumber | ppcalc_metric/src/trace.rs:61-63 | entry `j` gets id `j`; all else is unchanged |
| Trace.TraceBuilder.SourceAndDestinationMappings | ppcalc_metric/src/trace.rs:132-152 | both mappings have one element per entry, holding that entry's source or destination, in entry order |
| Trace.TraceBuilder.Build | ppcalc_metric/src/trace.rs:67-128 | no entries gives `EmptyTrace`. Otherwise the checks run in order: ids not exactly 0..n-1 gives the id error at the first mismatching sorted position; an arrival inversion gives `NotSortedByArrival` of the first inverted id; sources not exactly 0..k-1 gives `SourceIdsHaveGaps` of the first source above a missing id. Success iff all three checks pass, and then the trace is well built and holds the same entries |
| Trace.Check | ppcalc_metric/src/trace.rs:71-117 | the three checks on the id-sorted entries report the same errors as `Build`. On success ids are positions, arrivals are in order, sources are dense and the maximum source is their count minus one |
| Trace.CheckIds | ppcalc_metric/src/trace.rs:75-90 | passes iff every entry's id equals its position; then the counter ends at n. Otherwise it returns the error for the first mismatch |
| Trace.CheckArrivals | ppcalc_metric/src/trace.rs:92-104 | passes iff every entry arrives no earlier than its predecessor. Otherwise it returns the id of the first entry that arrives earlier |
| Trace.CheckSources | ppcalc_metric/src/trace.rs:106-117 | passes iff the source ids are exactly 0..k-1. Otherwise it returns the first sorted source that differs from its position. On success the last sorted source is k-1 |
| Trace.SortedSourceIds | ppcalc_metric/src/trace.rs:107-112 | the distinct source ids in strictly increasing order, each exactly once |
| Trace.FirstIdMismatch | ppcalc_metric/src/trace.rs:75-90 | every position before the result holds its own id, and the result position (if any) does not |
| Trace.FirstArrivalInversion | ppcalc_metric/src/trace.rs:92-104 | arrivals are in order up to the result, and the result (if any) arrives before its predecessor |
| Trace.FixedProperties | ppcalc_metric/src/trace.rs:58-64 | renumbering any arrival-sorted permutation yields ids 0..n-1 with arrivals in id order, and keeps the entries up to their ids |
| Trace.IdCheckFails | ppcalc_metric/src/trace.rs:75-90 | a mismatch in the sorted ids means the ids are not 0..n-1, and it is the first mismatch |
| Trace.IdCheckPasses | ppcalc_metric/src/trace.rs:75-90 | sorted ids equal to their positions mean the original ids are exactly 0..n-1 |
| Trace.ArrivalCheckFails | ppcalc_metric/src/trace.rs:92-104 | a local inversion means a larger id arrives earlier, and the reported id is the inversion's position |
| Trace.ArrivalCheckPasses | ppcalc_metric/src/trace.rs:92-104 | neighbour-wise order of arrivals gives order between any two ids |
| Trace.SourceCheckFails | ppcalc_metric/src/trace.rs:113-117 | the first sorted source unequal to its position is a gap error, and the sources are not 0..k-1 |
| Trace.SourceCheckPasses | ppcalc_metric/src/trace.rs:113-117 | sorted sources equal to their positions are exactly 0..k-1, and the last is k-1 |
| Trace.MessageSentOfBuilt | ppcalc_metric/src/trace.rs:209-214 | on a built trace, `message_sent(id)` is entry `id`'s send time up to the maximum id, and `None` beyond it |
| Trace.MappingsOfBuilt | ppcalc_metric/src/trace.rs:236-262 | on a built trace, both mapping `get`s answer with the message's own source and destination exactly for ids up to the maximum, and both have maximum id + 1 elements |
| Trace.MaxSourceOfBuilt | ppcalc_metric/src/trace.rs:121-127 | the maximum source id is used by some entry and bounds every entry's source |
| Trace.IdErrorMeaning | ppcalc_metric/src/trace.rs:82-88 | `MessageIdsNotUnique(k)` means no entry has the id `k` (a gap). `MessageIdsHaveGaps` means the id equals its predecessor's (a duplicate) |
| Trace.GapReportedAsNotUnique | ppcalc_metric/src/trace.rs:82-85 | ids 0 and 2 are reported as `MessageIdsNotUnique(2)` |
| Trace.DuplicateReportedAsGap | ppcalc_metric/src/trace.rs:86-88 | ids 0 and 0 are reported as `MessageIdsHaveGaps(0)` |
| Trace.FixThenBuild | ppcalc_metric/src/trace.rs:56-64 | after `fix`, `build` fails only with `EmptyTrace` or a source gap, and succeeds iff the trace is nonempty with dense sources |
| Trace.FixedSources | ppcalc_metric/src/trace.rs:58-64 | renumbering any arrival-sorted permutation, as `fix` does, keeps the set of source ids |
| Events.EventOfEntry | ppcalc_metric/src/metric.rs:440-458 | an entry's three events all carry its id. The add is at send + min delay, the remove at send + window end, the arrival at the arrival time |
| Events.ComputeEventQueues | ppcalc_metric/src/metric.rs:428-462 | the queue is the stable sort of the three events per entry, with the window closing 1 ns after the maximum delay. It has 3·n events and is sorted |
| Events.RawEventsLength | ppcalc_metric/src/metric.rs:440-458 | three events are pushed per entry |
| Events.RawEventsAt | ppcalc_metric/src/metric.rs:440-458 | entry `k`'s add, remove and arrival are pushed at positions 3k, 3k+1 and 3k+2 |
| Events.QueueWellFormed | ppcalc_metric/src/metric.rs:428-462 | with unique ids and min delay ≤ window end, no message has two events of one kind, and every window closes after it opened |
| Events.QueueAddBeforeRemove | ppcalc_metric/src/metric.rs:438-451 | in the sorted queue, every remove is preceded by the add of the same message |
| Events.EventsInQueue | ppcalc_metric/src/metric.rs:440-460 | each entry's three events are in the sorted queue |
| Events.QueueOrder | ppcalc_metric/src/metric.rs:61-68 | timestamps never decrease along the queue. At equal timestamps window openings come before arrivals, which come before closings |
| Events.QueueStable | ppcalc_metric/src/metric.rs:460 | events with equal keys keep the order in which they were pushed |
| Events.DifferentKindsOrdered | ppcalc_metric/src/metric.rs:15-20 | events of different kinds are strictly ordered by the queue's comparison, in queue order |
| Metric.RelativeSetDistance | ppcalc_metric/src/metric.rs:75-80 | (new, shared) sum to the size of `set2`, and shared ≤ size of `set1`. New is 0 iff `set2` ⊆ `set1`; shared is 0 iff the sets are disjoint |
| Metric.SplitSpec | ppcalc_metric/src/metric.rs:83-95 | a partition of the set: the keys are the messages' destinations, every part is nonempty and within the set, and each message sits under its own destination only |
| Metric.SplitDisjoint | ppcalc_metric/src/metric.rs:83-95 | parts of different destinations are disjoint |
| Metric.SplitAdd | ppcalc_metric/src/metric.rs:89-92 | adding a message to the set adds it to its destination's part and changes nothing else |
| Metric.SplitByDestination | ppcalc_metric/src/metric.rs:83-95 | the loop builds exactly that partition |
| Metric.Delta | ppcalc_metric/src/metric.rs:160-187 | a delta entry for every destination of the closed set and no other, whose two counts add up to that destination's part size |
| Metric.DeltaCounts | ppcalc_metric/src/metric.rs:160-187 | each entry is (messages not in the previous part, messages in both). A missing previous set or destination counts as empty, giving (size, 0) |
| Metric.SweepEvents | ppcalc_metric/src/metric.rs:131-204 | the sweep records, in closing order, one delta per closed window. Each is against the same source's previous closed window |
| Metric.CloseWindow | ppcalc_metric/src/metric.rs:137-194 | a closing event keeps the sweep invariant: the closed window is dropped from the open sets, its split set's delta against the source's previous split set is recorded, and it becomes that source's last split set |
| Metric.AddToAll | ppcalc_metric/src/metric.rs:199-201 | an arrival joins every open set and opens no new one |
| Metric.RemoveFinds | ppcalc_metric/src/metric.rs:137-141 | at a close, the open set of the message is present and is exactly the arrivals since its window opened |
| Metric.WindowOpensAtOwnAdd | ppcalc_metric/src/metric.rs:440-451 | a window that closes opened at its own entry's add event |
| Metric.WindowByTime | ppcalc_metric/src/metric.rs:131-204 | message `d` is in the anonymity set of entry `k` iff `d` arrives in [send + min delay, send + window end], both ends included |
| Metric.SweepRecordsEveryMessage | ppcalc_metric/src/metric.rs:137-194 | every entry's message gets exactly one record, and no other message gets one |
| Metric.RecordsMatchEntries | ppcalc_metric/src/metric.rs:137-194 | the recorded messages are exactly the messages of the entries |
| Metric.ClosingsDistinct | ppcalc_metric/src/metric.rs:137-194 | no message is recorded twice |
| Metric.OfSourceMember | ppcalc_metric/src/metric.rs:206-212 | a record is in a source's group iff it is a record of a message of that source |
| Metric.BySource | ppcalc_metric/src/metric.rs:206-212 | the grouped result has a key for exactly the sources of the recorded messages |
| Metric.GroupBySource | ppcalc_metric/src/metric.rs:206-212 | the loop groups the records by source, each group in record order |
| Metric.ComputeMessageAnonymitySets | ppcalc_metric/src/metric.rs:97-215 | the result is the sweep's records over the trace, grouped by source |
| Metric.PruneStep | ppcalc_metric/src/metric.rs:344-369 | a surviving destination was a candidate before and is in the message's set. Its stored count plus one is at most added + previous count, and at most added + overlap |
| Metric.PruneMessage | ppcalc_metric/src/metric.rs:342-369 | the loop over one message's deltas computes that step |
| Metric.Initial | ppcalc_metric/src/metric.rs:323-337 | before the first message, every destination of its set is a candidate with count 0 |
| Metric.PruneTrail | ppcalc_metric/src/metric.rs:340-380 | one relationship entry per message, in order, each carrying its own message id |
| Metric.PruneSource | ppcalc_metric/src/metric.rs:318-383 | the per-source loop computes that trail |
| Metric.PruneAll | ppcalc_metric/src/metric.rs:316-384 | the result has exactly the input's sources as keys |
| Metric.ComputeRelationShipAnonymitySets | ppcalc_metric/src/metric.rs:308-387 | the loop over sources gives every source the trail `PruneTrail` defines, and no other key |
| Metric.TrailNested | ppcalc_metric/src/metric.rs:340-379 | each relationship set is a subset of every earlier one |
| Metric.FirstCandidates | ppcalc_metric/src/metric.rs:323-337 | the first relationship set is the destinations where the first window added at least one message |
| Metric.EnoughMessages | ppcalc_metric/src/metric.rs:355-368 | for a destination still a candidate after `k` messages, its leftover count plus `k` is at most the number of messages the first `k` windows added for it |
| Metric.DroppedStaysOut | ppcalc_metric/src/metric.rs:340-379 | a destination that dropped out never comes back |
| Metric.SourceAndDestinationMapping | ppcalc_metric/src/metric.rs:217-230 | both maps have exactly the entries' ids as keys. Each id maps to the source and destination of its last entry |
| Metric.MappingAgreesWithTrace | ppcalc_metric/src/metric.rs:217-230 | on a built trace these maps answer as the trace's own mappings do |
| Metric.MappingIsFold | ppcalc_metric/src/metric.rs:225-228 | the maps are the left-to-right fold of inserts over the entries |
| Metric.SourceAndDestinationMessageMapping | ppcalc_metric/src/metric.rs:232-255 | keys are exactly the sources and destinations in the trace. Each maps to the ids of its entries, in entry order |
| Metric.IdsOfSourceMember | ppcalc_metric/src/metric.rs:240-246 | an id is in a source's list iff an entry of that source has that id |
| Metric.ComputeRelationshipAnonymity | ppcalc_metric/src/metric.rs:262-306 | the source-side result is the pruned trails of the grouped sweep over the trace's own mappings. The destination-side result is empty |
| Containers.MessageSet.constructor | ppcalc_metric/src/containers.rs:16-21 | a new set is empty and flagged sorted |
| Containers.MessageSet.Insert | ppcalc_metric/src/containers.rs:24-31 | the message is appended. The flag drops exactly when it is smaller than the last message. The flag still never claims an unsorted vector is sorted |
| Containers.MessageSet.Sort | ppcalc_metric/src/containers.rs:34-39 | afterwards the messages are a sorted permutation of the old ones, flagged sorted, and untouched if they were already flagged |
| Containers.MessageSet.SplitBy | ppcalc_metric/src/containers.rs:47-64 | one fresh, distinct, sorted set per key that occurs. Each holds a permutation of exactly that key's messages |
| Containers.MessageSet.Distance | ppcalc_metric/src/containers.rs:72-115 | on two sets flagged sorted, the nested loops return the counts of the merge walk (`Walk`) |
| Containers.GroupMessages | ppcalc_metric/src/containers.rs:53-57 | the insertion loop makes one fresh set per key, holding that key's messages in input order |
| Containers.SortGroups | ppcalc_metric/src/containers.rs:59-61 | every group ends up sorted, as a permutation of its messages |
| Containers.GroupCount | ppcalc_metric/src/containers.rs:47-64 | every message is in exactly its own key's group, with its multiplicity |
| Containers.GroupSizesSum | ppcalc_metric/src/containers.rs:47-64 | the group sizes add up to the number of messages |
| Containers.WalkSum | ppcalc_metric/src/containers.rs:72-115 | added + overlap is the length of `other` |
| Containers.WalkOverlapBound | ppcalc_metric/src/containers.rs:72-115 | the overlap is at most the length of this set |
| Containers.WalkDisjoint | ppcalc_metric/src/containers.rs:82-112 | with no common message, every message of `other` counts as added |
| Containers.WalkContained | ppcalc_metric/src/containers.rs:82-112 | when `other` is contained in this set (both strictly sorted), every message counts as overlap |
| Containers.DistanceTest1 | ppcalc_metric/src/containers.rs:160-162 | `[1..5]` against `[2,5,6]` gives (1, 2) |
| Containers.DistanceTest2 | ppcalc_metric/src/containers.rs:165-167 | `[1..5]` against `[6,7]` gives (2, 0) |
| Containers.DistanceTest3 | ppcalc_metric/src/containers.rs:170-172 | a set against itself gives (0, 5) |
| Containers.DistanceTest4 | ppcalc_metric/src/containers.rs:175-177 | `[]` against `[2,5,6]` gives (3, 0) |
| Containers.DistanceTest5 | ppcalc_metric/src/containers.rs:180-182 | `[]` against `[]` gives (0, 0) |
| Containers.DistanceTest6 | ppcalc_metric/src/containers.rs:185-187 | `[2,4,5]` against `[]` gives (0, 0) |
| Containers.WalkMissesOverlap | ppcalc_metric/src/containers.rs:105-108 | `[3]` against `[1,3]` gives (2, 0), although one message is new and one is shared |
| Containers.CorrectedWalkCounts | ppcalc_metric/src/containers.rs:71-115 | with the left value kept in the `Greater` case, on strictly sorted sets the walk gives (messages of `other` not in this set, messages in both) |
| Containers.CorrectedWalkFindsOverlap | ppcalc_metric/src/containers.rs:105-108 | the corrected walk gives (1, 1) on the counterexample |
| Analytics.RawEvents | src/analytics.rs:238-257 | three events per entry |
| Analytics.ComputeEventQueue | src/analytics.rs:230-263 | always succeeds with 3·n events sorted by (timestamp, kind). They are a permutation of the pushed events: add at send + min ms, remove at send + max ms + 1 ns, arrival at the arrival time |
| Analytics.QueueOrder | src/analytics.rs:46-53 | timestamps never decrease along the queue. At one timestamp, adds come before arrivals and arrivals before removes |
| Analytics.EntryInQueue | src/analytics.rs:235-257 | each entry's three events are in the queue |
| Analytics.Without | src/analytics.rs:68-70 | `retain` drops every occurrence of the id and keeps the count of every other element |
| Analytics.AppendToAll | src/analytics.rs:72-79 | the arrival is appended once per occurrence of each open message to that message's list; missing lists are created and no other list changes |
| Analytics.SweepQueue | src/analytics.rs:65-84 | the loop builds the source-side and destination-side lists the queue defines |
| Analytics.ComputeMessageAnonymitySets | src/analytics.rs:55-89 | succeeds with the source-side and destination-side lists of the trace's queue |
| Analytics.OpenMember | src/analytics.rs:67-70 | a message is in the open list iff it was added and not removed since |
| Analytics.SourceSetMember | src/analytics.rs:71-79 | arrival `d` is in `m`'s list iff some arrival with id `d` found `m` open |
| Analytics.DestSnapshotAt | src/analytics.rs:80-81 | with distinct arrival ids, an arrival's list is the open list at its arrival |
| Analytics.Symmetry | src/analytics.rs:71-82 | with distinct arrival ids, `d` is in source message `m`'s list iff `m` is in `d`'s list |
| Analytics.Select | src/analytics.rs:175-195 | a round fails iff some message of the set has no name, with the round's error message |
| Analytics.SelectPicks | src/analytics.rs:189-194 | a successful round adds names paired with fresh messages of the set, allowed by the previous round, repeating no name and no message |
| Analytics.PickNames | src/analytics.rs:201-222 | the loop over one message anonymity set computes that round |
| Analytics.Rounds | src/analytics.rs:172-224 | on success there is one relationship set per message, in order, each carrying its message id. The only errors are the two name errors |
| Analytics.FirstRound | src/analytics.rs:172-196 | the first round has no previous set and reports a missing name as "Name not found" |
| Analytics.RoundLast | src/analytics.rs:198-224 | each later round extends the earlier ones by one valid pick confined to the previous round's set |
| Analytics.NameAnonymitySets | src/analytics.rs:169-225 | the loops for one name compute its rounds' outcome |
| Analytics.RoundsNested | src/analytics.rs:207-212 | every name in a later relationship set was in the previous one |
| Analytics.RoundsFresh | src/analytics.rs:213-221 | no set repeats a name, no message is selected twice over all rounds, and each kept name used exactly one message |
| Analytics.RoundsFromSets | src/analytics.rs:201-221 | every kept name is the name of a message in that round's message anonymity set |
| Analytics.RoundsFail | src/analytics.rs:177-205 | the rounds fail iff some set holds a message without a name. The error is the first round's iff such a message is in the first set |
| Analytics.ComputeRelationShipAnonymitySets | src/analytics.rs:162-229 | succeeds iff every name's rounds succeed, and then holds the sets of every name with messages. Otherwise it returns one of the two name errors |
| Analytics.NameMapping | src/analytics.rs:91-101 | the keys are exactly the entries' ids |
| Analytics.NameMappingLast | src/analytics.rs:96-99 | an id maps to the name on its last entry |
| Analytics.MessagesOf | src/analytics.rs:108-121 | a name's list holds exactly the ids of the entries with that name |
| Analytics.ComputeSourceAndDestinationMapping | src/analytics.rs:91-101 | the loop builds both id-to-name maps |
| Analytics.ComputeSourceAndDestinationMessageMapping | src/analytics.rs:103-123 | the loop builds both name-to-ids maps, ids in trace order |
| Analytics.MessageMappingStep | src/analytics.rs:108-121 | one entry appends its id to its name's list, creating the list when the name is new |
| Analytics.EveryArrivalHasSet | src/analytics.rs:151-155 | every message of every destination has a destination-side list, so those lookups never panic |
| Analytics.SourceSideHasSets | src/analytics.rs:146-150 | when every window sees an arrival, every sent message has a source-side list |
| Analytics.ComputeRelationshipAnonymity | src/analytics.rs:130-160 | both sides are pruned over the other side's names. Succeeds iff every name's rounds succeed on both sides, with the two name errors as the only failures |
| ProtoPlot.IdsOf | src/plot.rs:25-28 | a source's ids are its sets' message ids in order |
| ProtoPlot.RecordSource | src/plot.rs:24-31 | one source's ids are collected in order, and each of its messages gets a recorded set |
| ProtoPlot.New | src/plot.rs:18-36 | every source keeps its message ids in order. Every id that occurs gets one of the sets recorded for it, and no other id gets a set |
| ProtoPlot.TrailingSingletons | src/plot.rs:61-69 | the trailing run is no longer than the list |
| ProtoPlot.TrailingSingletonsRun | src/plot.rs:61-69 | the trailing run is maximal: all its sets are single names and the one before it is not |
| ProtoPlot.TrailingSplit | src/plot.rs:61-69 | a suffix of single-name sets adds its length to the run of the rest |
| ProtoPlot.DeanomizedAt | src/plot.rs:61-75 | the backward scan gives the number of messages before the trailing run of single-name sets |
| ProtoPlot.SourceEntry | src/plot.rs:40-76 | a source gets an entry iff it has messages, and the entry is for that source |
| ProtoPlot.DeanonymizedUsersOverTime | src/plot.rs:38-81 | one entry per source with messages, each source once, each entry as specified for its source |
| ProtoPlot.TotalFirstSizes | src/plot.rs:85-95 | the sum of every source's first set size |
| ProtoPlot.DifferenceMap | src/plot.rs:98-107 | every message with a successor maps to its set size minus its successor's, and no other message has an entry |
| ProtoPlot.Telescope | src/plot.rs:98-107 | within one source the differences sum to the first size minus a later size |
| ProtoPlot.TelescopeAll | src/plot.rs:98-107 | over all sources the differences sum to the first sizes minus the last sizes |
| ProtoPlot.DiffsNonnegative | src/plot.rs:104 | with set sizes non-increasing, no difference is negative, so the `usize` subtraction cannot underflow |
| ProtoPlot.RunningSizes | src/plot.rs:110-114 | in ascending id order, each id maps to the total minus the differences up to and including it |
| ProtoPlot.RunningEndsAt | src/plot.rs:110-114 | at the largest id every difference has been subtracted |
| ProtoPlot.DiffsTotal | src/plot.rs:98-114 | the differences total the first sizes minus the last sizes, which never exceeds the starting total |
| ProtoPlot.AnonymitySetSizeOverTime | src/plot.rs:83-117 | keys are the messages with a successor. Each maps to the first-size total minus all differences up to it. The value at the largest id is the sum of the last sizes |
| Plot.TrailingSingletons | ppcalc/src/plot.rs:43-57 | the trailing run is no longer than the list |
| Plot.TrailingSingletonsRun | ppcalc/src/plot.rs:43-57 | the trailing run is maximal: all its sets are single destinations and the one before it is not |
| Plot.TrailingSplit | ppcalc/src/plot.rs:43-57 | a suffix of single-destination sets adds its length to the run of the rest |
| Plot.DeanomizedAt | ppcalc/src/plot.rs:43-50 | the corrected backward scan gives the number of messages before the final run of single-destination sets |
| Plot.TrailingNonSingletons | ppcalc/src/plot.rs:45-50 | the trailing run of larger sets is no longer than the list |
| Plot.DeanomizedAtAsWritten | ppcalc/src/plot.rs:44-50 | the scan as written stops at the first single-destination set from the end. When the last set is a single destination it yields the number of messages |
| Plot.AsWrittenMissesTrailingRun | ppcalc/src/plot.rs:44-57 | for sets of sizes 2 then 1, the scan as written reports 2 and the corrected scan reports 1, in the scans and in the source's entry |
| Plot.EntryOf | ppcalc/src/plot.rs:24-59 | an entry exists iff the source has messages and the trace knows the last message's destination. It carries that destination, the last set's size and the message count. `deanomized_at` is `None` iff that size is not 1. Otherwise the scan as written makes it the message count |
| Plot.SourceEntry | ppcalc/src/plot.rs:25-58 | the loop body, with the scan as written, computes that entry |
| Plot.CorrectedEntryOf | ppcalc/src/plot.rs:24-59 | the same entry, except that a single remaining destination is reported below the message count. All messages from that position on have single destinations, and the one before it does not |
| Plot.CorrectionMovesOnlyDeanomization | ppcalc/src/plot.rs:43-57 | the corrected entry exists iff the as-written one does. It differs only in `deanomized_at`, which it reports in the same cases and strictly earlier |
| Plot.CorrectedSourceEntry | ppcalc/src/plot.rs:25-58 | the loop body with the corrected scan computes the corrected entry |
| Plot.DistinctSourcesCount | ppcalc/src/plot.rs:24-59 | entries with distinct sources are as many as their sources |
| Plot.DeanonymizedUsersOverTime | ppcalc/src/plot.rs:15-64 | one entry per source that gets one, each source once, each entry as `Plot.EntryOf` specifies (the scan as written). There are no more entries than sources |
| Network.EntriesOf | ppcalc/src/network.rs:44-50 | one message per timestamp of the source, in order, all to that source's destination |
| Network.MergeTraces | ppcalc/src/network.rs:37-54 | the stable sort by send time of all sources' messages. It has one message per timestamp, is a permutation of them, is nondecreasing in send time, and sends each message to its source's destination |
| Network.ExpandedLength | ppcalc/src/network.rs:41-51 | the merged list has one message per timestamp |
| Network.ExpandedDestinations | ppcalc/src/network.rs:43-49 | every merged message goes to its source's destination |
| Network.ExpandedMember | ppcalc/src/network.rs:42-51 | the merged messages are exactly the (source, timestamp) pairs of the input |
| Network.MergeStable | ppcalc/src/network.rs:52 | messages with equal send times keep the order of sources and timestamps |
| Network.GenerateNetworkDelay | ppcalc/src/network.rs:9-34 | message `i` gets id `i`, keeps its source, destination and send time, and arrives after one delay in [min, max) ms |
| Network.GeneratedPassesChecks | ppcalc/src/network.rs:20-31 | on a list sorted by send time the ids are 0..n-1 and arrivals follow the ids |
| Network.Generate | ppcalc/src/generate.rs:68-69 | merging then generating gives one entry per timestamp, with ids 0..n-1, arrivals in id order and each entry sent to its source's destination |
| ProtoNetwork.EntriesOf | src/network.rs:41-47 | one message per timestamp of the source, in order, all to that source's destination |
| ProtoNetwork.MergeTraces | src/network.rs:34-51 | the stable sort by send time of all named sources' messages. It has one message per timestamp, is a permutation of them, is nondecreasing in send time, and sends each message to its source's destination |
| ProtoNetwork.ExpandedLength | src/network.rs:38-48 | the merged list has one message per timestamp |
| ProtoNetwork.ExpandedDestinations | src/network.rs:40-46 | every merged message goes to its source's destination |
| ProtoNetwork.MergeStable | src/network.rs:49 | messages with equal send times keep the order of sources and timestamps |
| ProtoNetwork.GenerateNetworkDelay | src/network.rs:7-31 | message `i` gets id `i`, keeps its names and send time, and arrives after one delay in [min, max) ms |
| ProtoNetwork.GeneratedInIdOrder | src/network.rs:17-28 | on a list sorted by send time the ids are the positions and arrivals never decrease with the id |
| Destination.RoundRobinKeys | ppcalc/src/destination.rs:51-57 | the round-robin map's keys are exactly the listed sources |
| Destination.RoundRobinAt | ppcalc/src/destination.rs:51-56 | a source gets destination (its last position mod n) |
| Destination.RoundRobinInRange | ppcalc/src/destination.rs:54 | every assigned destination is below n |
| Destination.RoundRobinOfDistinct | ppcalc/src/destination.rs:51-56 | with no repeats, the i-th source gets destination i mod n |
| Destination.RoundRobinLaterWins | ppcalc/src/destination.rs:51-57 | a repeated source keeps the destination of its later position |
| Destination.RoundRobinDestinationSelection | ppcalc/src/destination.rs:46-58 | the loop builds the round-robin map. Its keys are the listed sources and its destinations are below n |
| Destination.UniformDestinationSelection | ppcalc/src/destination.rs:33-44 | every listed source, and no other, gets some destination below n |
| Destination.DestinationSelection | ppcalc/src/destination.rs:15-31 | uniform and round robin dispatch to their selections; round robin gives exactly the round-robin map |
| Cli.ParseDestinationSelectionType | ppcalc/src/cli.rs:104-111 | succeeds iff the input is "normal", "uniform" or "roundrobin", with the type of that keyword. Otherwise it returns the error message naming the input |
| Cli.ParseSelectionKeyword | ppcalc/src/cli.rs:104-111 | every selection type is parsed back from its keyword |
| Cli.Split | ppcalc/src/cli.rs:219 | at least one piece, no piece holds the separator, and joining the pieces gives back the input |
| Cli.SplitJoin | ppcalc/src/cli.rs:219 | splitting undoes joining pieces free of the separator |
| Cli.ParseDistribution | ppcalc/src/cli.rs:209-238 | every failure has the one fixed message. A constant, uniform or normal result comes from an input of that tag with one or two fields, which parse to its values (as `T`, or as floats for normal) |
| Cli.ParseConstant | ppcalc/src/cli.rs:222-225 | `constant:V` is `Constant(V)` iff `V` parses, else the error |
| Cli.ParseUniform | ppcalc/src/cli.rs:226-230 | `uniform:A:B` is `Uniform(A, B)` iff both parse, else the error |
| Cli.ParseNormal | ppcalc/src/cli.rs:231-235 | `normal:M:D` is `Normal(M, D)` iff both parse as floats, else the error |
| Cli.ParseUnknownTag | ppcalc/src/cli.rs:236 | any other tag is rejected with the error |
| Cli.ConstantSpecSamples | ppcalc/src/cli.rs:150-154 | a `constant:V` specification always samples to the value `V` parses to |

## Left out

- **File and serialisation I/O.** CSV and JSON reading and writing are not
  modelled: `from_csv`, `write_to_file`, `write_source_anon_set`, the JSON
  readers and writers in `metric.rs`, and `write_plot`.
- **Record files of the generator.** `ppcalc/src/trace.rs` and `src/trace.rs`
  are not modelled beyond the record types their entries have.
- **Randomness.**
  - The network delay is a parameter constrained to the range the code draws
    from.
  - The uniform destination is a nondescript choice below `n`.
  - The source generators (`src/source.rs`, `ppcalc/src/source.rs`) are not
    part of this model.
- **`make_distr` Uniform and Normal branches.** These build random and
  floating-point distributions, which the model does not cover. Only the
  `Constant` branch is modelled.
- **Floating point.** Parsing a float is an abstract partial function
  parameter `parseF`, and `str::parse::<T>` is likewise `parseT`.
  `NormalAllowingIntegers` and `from_f64` are left out.
- **Integer widths.** Identifiers, counts and timestamps are unbounded. The
  model does not capture `u64`/`usize` overflow, the `checked_add(..).unwrap()`
  on timestamps, or the `as u64` casts.
- **Parallelism.** The `rayon` per-source map is taken one source at a time.
  The sources are independent, so the result does not depend on the order.
- **Side effects.** `println!` debug output, `bench.measure` timing and the
  `Display` impls are left out.
- **Program glue.** `main.rs`, `generate.rs`, `analyze.rs`, the clap derives
  and the re-exports in `lib.rs` are left out.
  - `ppcalc/src/network.rs` calls a `Trace::new`/`add_entry` the library does
    not offer, so `Network.GenerateNetworkDelay` returns the entries as a
    sequence.
  - `ppcalc/src/generate.rs` passes one argument where `generate_network_delay`
    takes two delays; `Network.Generate` takes the two delays.
- **Stubs.** `compare_source_anonymity_sets` and the commented-out
  `compute_relationship_anonymity_intersection` have no behaviour to model.
- **Normal destination selection.** `normal_destination_selection` panics
  unconditionally, so `Destination.DestinationSelection` requires a
  selection type other than `Normal`.
- **Prototype source ids.** `src/network.rs` looks sources up through a
  `source_id` field and `u64` keys, while the prototype's records (used by its
  analysis) name sources by strings. `ProtoNetwork` follows the string-named
  records.
- **Prototype unit-test fixtures.** The tests in `src/analytics.rs` read
  `test/simple_network_trace.csv`, which is not part of this model. Their
  expected sets are therefore not restated.
- **`MessageSet::into_vec` and `len`.** `Containers.MessageSet.IntoVec` and
  `Containers.MessageSet.Len` return a field or its length and carry no
  contract of their own.
- Containers.MessageSet.Distance: is proved equal to the merge walk `Walk`,
  and only counting properties (`WalkSum`, `WalkOverlapBound`, `WalkDisjoint`,
  `WalkContained`) are proved for it. Because of the `Greater` case it does not
  compute set difference and intersection in general; see Findings.
- Metric.PruneStep: its contract states the bounds a surviving destination
  satisfies and where survivors come from. The exact survival rule
  (`added + min(previous, overlap) > 0`, count minus one) is its definition and
  is not restated as an `ensures`.
- Analytics.ComputeRelationShipAnonymitySets: when several names fail, the
  code returns the error of whichever failing name the hash map yields first.
  The model only promises one of the two name errors.
- ProtoPlot.DeanonymizedUsersOverTime: the `unwrap`s on set lookups become
  preconditions. Sources whose scan would look up a missing set are outside
  the model.
- ProtoPlot.AnonymitySetSizeOverTime: the code's `reduce(..).unwrap()` and
  `usize` subtraction panic on an empty map or a growing set size. These are
  excluded by the `SizesComputable` precondition and are not modelled as
  panics. The `DistinctIds` precondition also excludes maps in which a message
  id occurs twice. There the code's `BTreeMap::insert` silently overwrites the
  earlier difference, and the model does not cover that case.
- Trace.TraceBuilder.Build: promises the stable id order for entries that
  share an id, where `sort_unstable_by_key` leaves that order open. `build`
  consumes the builder, errors carry only the shared id, and success needs
  distinct ids, so the order cannot be observed.

## Findings

| source | as written | input that shows it | evidently intended | confidence | as-written member | corrected member |
|---|---|---|---|---|---|---|
| ppcalc/src/plot.rs:43-57 | the backward scan breaks when a set has size 1, and it is only reached when the last set has size 1, so it always reports the number of messages | one source with two messages whose destination sets have sizes 2 and 1: reports `deanomized_at = 2` | stop at the first set whose size is not 1, as the prototype's `src/plot.rs:65` does, reporting 1 (deanonymised after the first message) | medium; not executed | Plot.AsWrittenMissesTrailingRun | Plot.CorrectedEntryOf |
| ppcalc_metric/src/containers.rs:105-108 | the `Greater` case counts the right value as added and also consumes the left value, which a later right value may equal | `[3]` against `[1, 3]`: returns (2, 0) | (1, 1): one new message, one shared, as the method's documentation promises (`added`, `overlap`) | high; not executed | Containers.WalkMissesOverlap | Containers.CorrectedWalkCounts |

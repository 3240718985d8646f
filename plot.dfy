/**
 * The deanonymisation summary of the library's command-line tool
 * (`ppcalc/src/plot.rs`): for every source whose relationship anonymity
 * sets are known, how large the last set is and, when it is a single
 * destination, at which message the source became deanonymised.
 */
module Plot {
  import opened Wrappers
  import opened Trace
  import Metric

  type Relationship = Metric.Relationship

  datatype DeanomizationEntry = DeanomizationEntry(
    source: SourceId,
    destination: DestinationId,
    remainingAnonymitySet: nat,
    messages: nat,
    deanomizedAt: Option<nat>)

  /** The message's candidate set is a single destination. */
  predicate Singleton(m: Relationship) {
    |m.1| == 1
  }

  /** The number of trailing messages whose set is a single destination. */
  function TrailingSingletons(messages: seq<Relationship>): (k: nat)
    ensures k <= |messages|
  {
    if messages == [] || !Singleton(messages[|messages| - 1]) then 0
    else 1 + TrailingSingletons(messages[..|messages| - 1])
  }

  /** The trailing run is maximal: all of its messages are singletons, and the one before it is not. */
  lemma {:induction false} TrailingSingletonsRun(messages: seq<Relationship>)
    ensures var k := TrailingSingletons(messages);
      && (forall i :: |messages| - k <= i < |messages| ==> Singleton(messages[i]))
      && (k < |messages| ==> !Singleton(messages[|messages| - k - 1]))
  {
    if messages != [] && Singleton(messages[|messages| - 1]) {
      var p := messages[..|messages| - 1];
      TrailingSingletonsRun(p);
      assert forall i :: 0 <= i < |p| ==> p[i] == messages[i];
    }
  }

  /** With the messages from `j` on all singletons, the run is that suffix plus the run before `j`. */
  lemma {:induction false} TrailingSplit(messages: seq<Relationship>, j: nat)
    requires j <= |messages|
    requires forall i :: j <= i < |messages| ==> Singleton(messages[i])
    ensures TrailingSingletons(messages) == |messages| - j + TrailingSingletons(messages[..j])
    decreases |messages|
  {
    if j < |messages| {
      var p := messages[..|messages| - 1];
      assert p[..j] == messages[..j];
      TrailingSplit(p, j);
    } else {
      assert messages[..j] == messages;
    }
  }

  /**
   * The backward scan with the stopping test the loop evidently means: count
   * down from the number of messages while the sets are single
   * destinations. The result is the number of messages before the final run
   * of single-destination sets.
   */
  method DeanomizedAt(messages: seq<Relationship>) returns (messageNumber: nat)
    ensures messageNumber == |messages| - TrailingSingletons(messages)
    ensures messageNumber <= |messages|
    ensures forall i :: messageNumber <= i < |messages| ==> Singleton(messages[i])
    ensures messageNumber > 0 ==> !Singleton(messages[messageNumber - 1])
  {
    messageNumber := |messages|;
    while messageNumber > 0
      invariant messageNumber <= |messages|
      invariant forall i :: messageNumber <= i < |messages| ==> Singleton(messages[i])
      decreases messageNumber
    {
      if !Singleton(messages[messageNumber - 1]) {
        break;
      }
      messageNumber := messageNumber - 1;
    }
    TrailingSplit(messages, messageNumber);
    assert messages[..messageNumber] == [] || messages[..messageNumber][messageNumber - 1] == messages[messageNumber - 1];
  }

  /** The number of trailing messages whose set is not a single destination. */
  function TrailingNonSingletons(messages: seq<Relationship>): (k: nat)
    ensures k <= |messages|
  {
    if messages == [] || Singleton(messages[|messages| - 1]) then 0
    else 1 + TrailingNonSingletons(messages[..|messages| - 1])
  }

  /**
   * The backward scan as the source writes it: it stops at the first
   * single-destination set from the end. It is only reached when the last
   * set is a single destination, so it stops at once and yields the number
   * of messages.
   */
  method DeanomizedAtAsWritten(messages: seq<Relationship>) returns (messageNumber: nat)
    ensures messageNumber == |messages| - TrailingNonSingletons(messages)
    ensures messages != [] && Singleton(messages[|messages| - 1]) ==> messageNumber == |messages|
  {
    messageNumber := |messages|;
    var j := |messages|;
    assert messages[..j] == messages;
    while j > 0
      invariant j <= |messages| && messageNumber == j
      invariant TrailingNonSingletons(messages) == |messages| - j + TrailingNonSingletons(messages[..j])
      decreases j
    {
      var prefix := messages[..j];
      assert prefix[..j - 1] == messages[..j - 1];
      if Singleton(messages[j - 1]) {
        break;
      }
      messageNumber := messageNumber - 1;
      j := j - 1;
    }
    assert messages[..|messages|] == messages;
  }

  /**
   * Two messages, the second one narrowed down to one destination: the scan
   * as written reports the second message count, 2, in the source's entry,
   * while the source was deanonymised after the first message.
   */
  lemma AsWrittenMissesTrailingRun()
    ensures var messages: seq<Relationship> := [(0, {1, 2}), (1, {1})];
      && |messages| - TrailingNonSingletons(messages) == 2
      && |messages| - TrailingSingletons(messages) == 1
      && EntryOf(0, messages, DestinationMapping([1, 1])).value.deanomizedAt == Some(2)
      && CorrectedEntryOf(0, messages, DestinationMapping([1, 1])).value.deanomizedAt == Some(1)
  {
    var messages: seq<Relationship> := [(0, {1, 2}), (1, {1})];
    assert messages[..1] == [(0, {1, 2})];
    var two: set<DestinationId> := {1, 2};
    assert |two| == 2 by {
      assert two == {1} + {2};
    }
  }

  /**
   * The entry for one source: none without messages or when the last
   * message's destination is unknown; otherwise the last set's size, the
   * message count, the destination, and for a single remaining destination
   * the position the scan as written finds, which is the message count.
   */
  function EntryOf(source: SourceId, messages: seq<Relationship>, mapping: DestinationMapping): (r: Option<DeanomizationEntry>)
    ensures r.Some? <==> messages != [] && mapping.Get(messages[|messages| - 1].0).Some?
    ensures r.Some? ==> var last := messages[|messages| - 1];
      && r.value.source == source
      && r.value.destination == mapping.Get(last.0).value
      && r.value.remainingAnonymitySet == |last.1|
      && r.value.messages == |messages|
      && (r.value.deanomizedAt.None? <==> |last.1| != 1)
      && (r.value.deanomizedAt.Some? ==> r.value.deanomizedAt.value == |messages|)
  {
    if messages == [] then None
    else
      var last := messages[|messages| - 1];
      match mapping.Get(last.0)
      case None => None
      case Some(destination) =>
        if |last.1| != 1 then Some(DeanomizationEntry(source, destination, |last.1|, |messages|, None))
        else Some(DeanomizationEntry(source, destination, 1, |messages|, Some(|messages| - TrailingNonSingletons(messages))))
  }

  /**
   * The entry with the corrected scan: a single remaining destination is
   * reported at the number of messages before the final run of
   * single-destination sets, which is below the message count.
   */
  function CorrectedEntryOf(source: SourceId, messages: seq<Relationship>, mapping: DestinationMapping): (r: Option<DeanomizationEntry>)
    ensures r.Some? <==> messages != [] && mapping.Get(messages[|messages| - 1].0).Some?
    ensures r.Some? ==> var last := messages[|messages| - 1];
      && r.value.source == source
      && r.value.destination == mapping.Get(last.0).value
      && r.value.remainingAnonymitySet == |last.1|
      && r.value.messages == |messages|
      && (r.value.deanomizedAt.None? <==> |last.1| != 1)
    ensures r.Some? && r.value.deanomizedAt.Some? ==> var k := r.value.deanomizedAt.value;
      && k < |messages|
      && (forall i :: k <= i < |messages| ==> Singleton(messages[i]))
      && (k > 0 ==> !Singleton(messages[k - 1]))
  {
    TrailingSingletonsRun(messages);
    match EntryOf(source, messages, mapping)
    case None => None
    case Some(e) =>
      if e.deanomizedAt.None? then Some(e)
      else Some(e.(deanomizedAt := Some(|messages| - TrailingSingletons(messages))))
  }

  /**
   * The correction changes only `deanomized_at`, never to a later message:
   * both entries exist together, agree on every other field, and report a
   * position together.
   */
  lemma CorrectionMovesOnlyDeanomization(source: SourceId, messages: seq<Relationship>, mapping: DestinationMapping)
    ensures var asWritten := EntryOf(source, messages, mapping);
      var corrected := CorrectedEntryOf(source, messages, mapping);
      && (asWritten.Some? <==> corrected.Some?)
      && (asWritten.Some? ==>
        && corrected.value == asWritten.value.(deanomizedAt := corrected.value.deanomizedAt)
        && (asWritten.value.deanomizedAt.Some? <==> corrected.value.deanomizedAt.Some?)
        && (corrected.value.deanomizedAt.Some? ==>
             corrected.value.deanomizedAt.value < asWritten.value.deanomizedAt.value))
  {
  }

  /** The sources in `done` that get an entry. */
  function EmittedIn(sets: map<SourceId, seq<Relationship>>, mapping: DestinationMapping, done: set<SourceId>): set<SourceId> {
    set s | s in done && s in sets && EntryOf(s, sets[s], mapping).Some?
  }

  /** The sources the entries are for. */
  function SourcesOf(out: seq<DeanomizationEntry>): set<SourceId> {
    set i | 0 <= i < |out| :: out[i].source
  }

  /** The loop invariant of `DeanonymizedUsersOverTime` after the sources in `done`. */
  ghost predicate Collected(sets: map<SourceId, seq<Relationship>>, mapping: DestinationMapping, done: set<SourceId>, out: seq<DeanomizationEntry>) {
    && SourcesOf(out) == EmittedIn(sets, mapping, done)
    && (forall i, j :: 0 <= i < j < |out| ==> out[i].source != out[j].source)
    && (forall e :: e in out ==> e.source in done && e.source in sets && EntryOf(e.source, sets[e.source], mapping) == Some(e))
  }

  lemma CollectStep(sets: map<SourceId, seq<Relationship>>, mapping: DestinationMapping, done: set<SourceId>,
                    out: seq<DeanomizationEntry>, source: SourceId, entry: Option<DeanomizationEntry>, out': seq<DeanomizationEntry>)
    requires Collected(sets, mapping, done, out)
    requires source in sets && source !in done
    requires entry == EntryOf(source, sets[source], mapping)
    requires out' == if entry.Some? then out + [entry.value] else out
    ensures Collected(sets, mapping, done + {source}, out')
  {
    assert EmittedIn(sets, mapping, done + {source}) == EmittedIn(sets, mapping, done) + (if entry.Some? then {source} else {});
    if entry.Some? {
      assert SourcesOf(out + [entry.value]) == SourcesOf(out) + {source} by {
        SourcesSnoc(out, entry.value);
      }
      forall i, j | 0 <= i < j < |out'| ensures out'[i].source != out'[j].source {
        if j == |out| {
          assert out[i] in out;
        }
      }
    }
  }

  /** Appending an entry adds its source to the sources of the list. */
  lemma SourcesSnoc(p: seq<DeanomizationEntry>, x: DeanomizationEntry)
    ensures SourcesOf(p + [x]) == SourcesOf(p) + {x.source}
  {
    var q := p + [x];
    forall s | s in SourcesOf(q) ensures s in SourcesOf(p) + {x.source} {
      var i :| 0 <= i < |q| && q[i].source == s;
      if i < |p| {
        assert p[i] == q[i];
      }
    }
    forall s | s in SourcesOf(p) ensures s in SourcesOf(q) {
      var i :| 0 <= i < |p| && p[i].source == s;
      assert q[i] == p[i];
    }
    assert q[|p|] == x;
  }

  /** Entries with pairwise distinct sources are as many as their sources. */
  lemma {:induction false} DistinctSourcesCount(out: seq<DeanomizationEntry>)
    requires forall i, j :: 0 <= i < j < |out| ==> out[i].source != out[j].source
    ensures |SourcesOf(out)| == |out|
  {
    if out != [] {
      var p, x := out[..|out| - 1], out[|out| - 1];
      DistinctSourcesCount(p);
      assert out == p + [x];
      SourcesSnoc(p, x);
      assert x.source !in SourcesOf(p) by {
        forall i | 0 <= i < |p| ensures p[i].source != x.source {
          assert out[i] == p[i];
        }
      }
    }
  }

  /** The body of the loop over sources. */
  method SourceEntry(source: SourceId, messages: seq<Relationship>, netTrace: Trace) returns (entry: Option<DeanomizationEntry>)
    ensures entry == EntryOf(source, messages, netTrace.destinationMapping)
  {
    if messages == [] {
      return None;
    }
    var lastMessage := messages[|messages| - 1];
    var remainingAnonymitySet := |lastMessage.1|;
    match netTrace.destinationMapping.Get(lastMessage.0)
    case None =>
      entry := None;
    case Some(destinationId) =>
      if remainingAnonymitySet != 1 {
        entry := Some(DeanomizationEntry(source, destinationId, remainingAnonymitySet, |messages|, None));
      } else {
        var messageNumber := DeanomizedAtAsWritten(messages);
        entry := Some(DeanomizationEntry(source, destinationId, 1, |messages|, Some(messageNumber)));
      }
  }

  /** The loop body with the corrected scan in place of the one as written. */
  method CorrectedSourceEntry(source: SourceId, messages: seq<Relationship>, netTrace: Trace) returns (entry: Option<DeanomizationEntry>)
    ensures entry == CorrectedEntryOf(source, messages, netTrace.destinationMapping)
  {
    entry := SourceEntry(source, messages, netTrace);
    if entry.Some? && entry.value.deanomizedAt.Some? {
      var messageNumber := DeanomizedAt(messages);
      entry := Some(entry.value.(deanomizedAt := Some(messageNumber)));
    }
  }

  /**
   * One entry per source that has messages and whose last message's
   * destination the trace knows, each source once, so no more entries than
   * sources.
   */
  method DeanonymizedUsersOverTime(sets: map<SourceId, seq<Relationship>>, netTrace: Trace) returns (out: seq<DeanomizationEntry>)
    ensures SourcesOf(out) == EmittedIn(sets, netTrace.destinationMapping, sets.Keys)
    ensures forall i, j :: 0 <= i < j < |out| ==> out[i].source != out[j].source
    ensures forall e :: e in out ==> e.source in sets && EntryOf(e.source, sets[e.source], netTrace.destinationMapping) == Some(e)
    ensures |out| <= |sets.Keys|
  {
    out := [];
    var rest := sets.Keys;
    ghost var done: set<SourceId> := {};
    while rest != {}
      invariant done !! rest && done + rest == sets.Keys
      invariant Collected(sets, netTrace.destinationMapping, done, out)
      decreases rest
    {
      var source :| source in rest;
      var entry := SourceEntry(source, sets[source], netTrace);
      var out' := if entry.Some? then out + [entry.value] else out;
      CollectStep(sets, netTrace.destinationMapping, done, out, source, entry, out');
      out := out';
      rest := rest - {source};
      done := done + {source};
    }
    DistinctSourcesCount(out);
    Metric.SubsetCard(SourcesOf(out), sets.Keys);
  }
}

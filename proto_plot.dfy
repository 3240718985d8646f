/**
 * The prototype's plot summaries under `src/plot.rs`: relationship anonymity
 * sets regrouped by message, when each source was deanonymised, and the total
 * anonymity set size over time.
 */
module ProtoPlot {
  import opened Wrappers
  import opened Seqs

  /** The relationship sets regrouped: each message's names, and each source's messages. */
  datatype PlotFormat = PlotFormat(sourceMessageAnonymitySets: map<nat, seq<string>>, sourceMessageMap: map<string, seq<nat>>)

  datatype DeanomizationEntry = DeanomizationEntry(source: string, remainingAnonymitySet: nat, messages: nat, deanomizedAt: Option<nat>)

  /** The message ids of one source's relationship sets, in order. */
  function IdsOf(mas: seq<(nat, seq<string>)>): (r: seq<nat>)
    ensures |r| == |mas| && forall i :: 0 <= i < |mas| ==> r[i] == mas[i].0
  {
    if mas == [] then [] else IdsOf(mas[..|mas| - 1]) + [mas[|mas| - 1].0]
  }

  /** Message `id` has a relationship set under one of the sources in `done`. */
  ghost predicate OccursIn(sets: map<string, seq<(nat, seq<string>)>>, done: set<string>, id: nat) {
    exists s, k :: s in done && s in sets && 0 <= k < |sets[s]| && sets[s][k].0 == id
  }

  /** `names` is the relationship set recorded for `id` at some position. */
  ghost predicate RecordedAs(sets: map<string, seq<(nat, seq<string>)>>, id: nat, names: seq<string>) {
    exists s, k :: s in sets && 0 <= k < |sets[s]| && sets[s][k] == (id, names)
  }

  lemma OccursInAdd(sets: map<string, seq<(nat, seq<string>)>>, done: set<string>, s: string, id: nat)
    requires s in sets
    ensures OccursIn(sets, done + {s}, id) <==> OccursIn(sets, done, id) || exists k :: 0 <= k < |sets[s]| && sets[s][k].0 == id
  {
    if OccursIn(sets, done + {s}, id) {
      var s', k :| s' in done + {s} && s' in sets && 0 <= k < |sets[s']| && sets[s'][k].0 == id;
      if s' != s {
        assert OccursIn(sets, done, id);
      }
    }
  }

  /** The inner loop of `New`: records the sets of one source's messages and collects their ids. */
  method RecordSource(sets: map<string, seq<(nat, seq<string>)>>, ghost done: set<string>, source: string, anonymitySets: map<nat, seq<string>>)
    returns (messageList: seq<nat>, next: map<nat, seq<string>>)
    requires source in sets
    requires forall id :: id in anonymitySets <==> OccursIn(sets, done, id)
    requires forall id :: id in anonymitySets ==> RecordedAs(sets, id, anonymitySets[id])
    ensures messageList == IdsOf(sets[source])
    ensures forall id :: id in next <==> OccursIn(sets, done + {source}, id)
    ensures forall id :: id in next ==> RecordedAs(sets, id, next[id])
  {
    var mas := sets[source];
    messageList := [];
    next := anonymitySets;
    for k := 0 to |mas|
      invariant messageList == IdsOf(mas[..k])
      invariant forall id :: id in next <==> OccursIn(sets, done, id) || exists j :: 0 <= j < k && mas[j].0 == id
      invariant forall id :: id in next ==> RecordedAs(sets, id, next[id])
    {
      assert mas[..k + 1][..k] == mas[..k];
      var (id, destinations) := mas[k];
      messageList := messageList + [id];
      assert RecordedAs(sets, id, destinations) by {
        assert sets[source][k] == (id, destinations);
      }
      next := next[id := destinations];
    }
    assert mas[..|mas|] == mas;
    forall id ensures OccursIn(sets, done + {source}, id) <==> OccursIn(sets, done, id) || exists j :: 0 <= j < |mas| && mas[j].0 == id {
      OccursInAdd(sets, done, source, id);
    }
  }

  lemma IdsMapStep(sets: map<string, seq<(nat, seq<string>)>>, done: set<string>, source: string)
    requires done <= sets.Keys && source in sets
    ensures (map s | s in done :: IdsOf(sets[s]))[source := IdsOf(sets[source])] == map s | s in done + {source} :: IdsOf(sets[s])
  {
  }

  /**
   * Regroups relationship sets: every source keeps its message ids in order,
   * and every message id gets one of the relationship sets recorded for it.
   */
  method New(sets: map<string, seq<(nat, seq<string>)>>) returns (p: PlotFormat)
    ensures p.sourceMessageMap == map s | s in sets :: IdsOf(sets[s])
    ensures forall id :: id in p.sourceMessageAnonymitySets <==> OccursIn(sets, sets.Keys, id)
    ensures forall id :: id in p.sourceMessageAnonymitySets ==> RecordedAs(sets, id, p.sourceMessageAnonymitySets[id])
  {
    var sourceMessageMap: map<string, seq<nat>> := map[];
    var anonymitySets: map<nat, seq<string>> := map[];
    var rest := sets.Keys;
    ghost var done: set<string> := {};
    while rest != {}
      invariant rest <= sets.Keys && done == sets.Keys - rest
      invariant sourceMessageMap == map s | s in done :: IdsOf(sets[s])
      invariant forall id :: id in anonymitySets <==> OccursIn(sets, done, id)
      invariant forall id :: id in anonymitySets ==> RecordedAs(sets, id, anonymitySets[id])
      decreases rest
    {
      var source :| source in rest;
      var messageList;
      messageList, anonymitySets := RecordSource(sets, done, source, anonymitySets);
      IdsMapStep(sets, done, source);
      sourceMessageMap := sourceMessageMap[source := messageList];
      rest := rest - {source};
      done := done + {source};
    }
    p := PlotFormat(anonymitySets, sourceMessageMap);
  }

  // ---------------------------------------------------------------------
  // Deanonymisation
  // ---------------------------------------------------------------------

  /**
   * The lookups the backward scan over `msgs` makes are all defined: the
   * last message has a set, and when that set is a single name, so on for
   * the messages before it.
   */
  predicate TrailDefined(msgs: seq<nat>, sets: map<nat, seq<string>>) {
    msgs == [] || (msgs[|msgs| - 1] in sets && (|sets[msgs[|msgs| - 1]]| == 1 ==> TrailDefined(msgs[..|msgs| - 1], sets)))
  }

  /** The number of trailing messages whose set is a single name. */
  function TrailingSingletons(msgs: seq<nat>, sets: map<nat, seq<string>>): (k: nat)
    requires TrailDefined(msgs, sets)
    ensures k <= |msgs|
  {
    if msgs == [] || |sets[msgs[|msgs| - 1]]| != 1 then 0
    else 1 + TrailingSingletons(msgs[..|msgs| - 1], sets)
  }

  /** The trailing run is maximal: all of its messages are singletons, and the one before it is not. */
  lemma {:induction false} TrailingSingletonsRun(msgs: seq<nat>, sets: map<nat, seq<string>>)
    requires TrailDefined(msgs, sets)
    ensures var k := TrailingSingletons(msgs, sets);
      && (forall i :: |msgs| - k <= i < |msgs| ==> msgs[i] in sets && |sets[msgs[i]]| == 1)
      && (k < |msgs| ==> msgs[|msgs| - k - 1] in sets && |sets[msgs[|msgs| - k - 1]]| != 1)
  {
    if msgs != [] && |sets[msgs[|msgs| - 1]]| == 1 {
      var p := msgs[..|msgs| - 1];
      TrailingSingletonsRun(p, sets);
      assert forall i :: 0 <= i < |p| ==> p[i] == msgs[i];
    }
  }

  /** With the last `|msgs| - j` messages all singletons, the run over `msgs` is that suffix plus the run over the rest. */
  lemma {:induction false} TrailingSplit(msgs: seq<nat>, sets: map<nat, seq<string>>, j: nat)
    requires j <= |msgs| && TrailDefined(msgs, sets)
    requires forall i :: j <= i < |msgs| ==> msgs[i] in sets && |sets[msgs[i]]| == 1
    ensures TrailDefined(msgs[..j], sets)
    ensures TrailingSingletons(msgs, sets) == |msgs| - j + TrailingSingletons(msgs[..j], sets)
    decreases |msgs|
  {
    if j < |msgs| {
      var p := msgs[..|msgs| - 1];
      assert p[..j] == msgs[..j];
      TrailingSplit(p, sets, j);
    } else {
      assert msgs[..j] == msgs;
    }
  }

  /** The backward scan: counts down from the number of messages while the sets are single names. */
  method DeanomizedAt(msgs: seq<nat>, sets: map<nat, seq<string>>) returns (messageNumber: nat)
    requires TrailDefined(msgs, sets)
    ensures messageNumber == |msgs| - TrailingSingletons(msgs, sets)
  {
    messageNumber := |msgs|;
    var j := |msgs|;
    assert msgs[..j] == msgs;
    while j > 0
      invariant 0 <= j <= |msgs| && messageNumber == j
      invariant forall i :: j <= i < |msgs| ==> msgs[i] in sets && |sets[msgs[i]]| == 1
      invariant TrailDefined(msgs[..j], sets)
      decreases j
    {
      var messageId := msgs[j - 1];
      assert msgs[..j][j - 1] == messageId && msgs[..j][..j - 1] == msgs[..j - 1];
      if |sets[messageId]| != 1 {
        break;
      }
      messageNumber := messageNumber - 1;
      j := j - 1;
    }
    TrailingSplit(msgs, sets, j);
    if j > 0 {
      assert msgs[..j][j - 1] == msgs[j - 1];
    }
  }

  /** The entry for one source, or `None` for a source without messages. */
  function EntryOf(p: PlotFormat, source: string): Option<DeanomizationEntry>
    requires source in p.sourceMessageMap && TrailDefined(p.sourceMessageMap[source], p.sourceMessageAnonymitySets)
  {
    var msgs := p.sourceMessageMap[source];
    if msgs == [] then None
    else
      var size := |p.sourceMessageAnonymitySets[msgs[|msgs| - 1]]|;
      if size != 1 then Some(DeanomizationEntry(source, size, |msgs|, None))
      else Some(DeanomizationEntry(source, 1, |msgs|, Some(|msgs| - TrailingSingletons(msgs, p.sourceMessageAnonymitySets))))
  }

  /** The `unwrap`s of the deanonymisation scan succeed for every source. */
  predicate Scannable(p: PlotFormat) {
    forall s :: s in p.sourceMessageMap ==> TrailDefined(p.sourceMessageMap[s], p.sourceMessageAnonymitySets)
  }

  /**
   * One entry per source with at least one message, each source once: the
   * size of its last set, and when that is a single name, the number of
   * messages before the trailing run of single-name sets.
   */
  method DeanonymizedUsersOverTime(p: PlotFormat) returns (out: seq<DeanomizationEntry>)
    requires Scannable(p)
    ensures (set e | e in out :: e.source) == NonEmptyIn(p, p.sourceMessageMap.Keys)
    ensures forall i, j :: 0 <= i < j < |out| ==> out[i].source != out[j].source
    ensures forall e :: e in out ==> e.source in p.sourceMessageMap && EntryOf(p, e.source) == Some(e)
  {
    out := [];
    var rest := p.sourceMessageMap.Keys;
    ghost var done: set<string> := {};
    while rest != {}
      invariant rest <= p.sourceMessageMap.Keys && done == p.sourceMessageMap.Keys - rest
      invariant Collected(p, done, out)
      decreases rest
    {
      var source :| source in rest;
      var entry := SourceEntry(p, source);
      var out' := if entry.Some? then out + [entry.value] else out;
      CollectStep(p, done, out, source, entry, out');
      out := out';
      rest := rest - {source};
      done := done + {source};
    }
  }

  /** The loop invariant of `DeanonymizedUsersOverTime` after the sources in `done`. */
  ghost predicate Collected(p: PlotFormat, done: set<string>, out: seq<DeanomizationEntry>)
    requires Scannable(p)
  {
    && (set e | e in out :: e.source) == NonEmptyIn(p, done)
    && (forall i, j :: 0 <= i < j < |out| ==> out[i].source != out[j].source)
    && (forall e :: e in out ==> e.source in done && e.source in p.sourceMessageMap && EntryOf(p, e.source) == Some(e))
  }

  lemma CollectStep(p: PlotFormat, done: set<string>, out: seq<DeanomizationEntry>, source: string,
                    entry: Option<DeanomizationEntry>, out': seq<DeanomizationEntry>)
    requires Scannable(p) && Collected(p, done, out)
    requires source in p.sourceMessageMap && source !in done
    requires entry == EntryOf(p, source)
    requires entry.Some? <==> p.sourceMessageMap[source] != []
    requires entry.Some? ==> entry.value.source == source
    requires out' == if entry.Some? then out + [entry.value] else out
    ensures Collected(p, done + {source}, out')
  {
    NonEmptyInAdd(p, done, source);
    if entry.Some? {
      assert (set e | e in out + [entry.value] :: e.source) == (set e | e in out :: e.source) + {source};
      forall i, j | 0 <= i < j < |out'| ensures out'[i].source != out'[j].source {
        if j == |out| {
          assert out[i] in out;
        }
      }
    }
  }

  /** The sources in `done` with at least one message. */
  function NonEmptyIn(p: PlotFormat, done: set<string>): set<string> {
    set s | s in done && s in p.sourceMessageMap && p.sourceMessageMap[s] != []
  }

  lemma NonEmptyInAdd(p: PlotFormat, done: set<string>, source: string)
    requires source in p.sourceMessageMap
    ensures NonEmptyIn(p, done + {source}) == NonEmptyIn(p, done) + (if p.sourceMessageMap[source] != [] then {source} else {})
  {
  }

  /** The body of the loop over sources in `DeanonymizedUsersOverTime`. */
  method SourceEntry(p: PlotFormat, source: string) returns (entry: Option<DeanomizationEntry>)
    requires source in p.sourceMessageMap && TrailDefined(p.sourceMessageMap[source], p.sourceMessageAnonymitySets)
    ensures entry == EntryOf(p, source)
    ensures entry.Some? <==> p.sourceMessageMap[source] != []
    ensures entry.Some? ==> entry.value.source == source
  {
    var messages := p.sourceMessageMap[source];
    if messages == [] {
      return None;
    }
    var lastMessage := messages[|messages| - 1];
    var anonymitySet := p.sourceMessageAnonymitySets[lastMessage];
    if |anonymitySet| != 1 {
      entry := Some(DeanomizationEntry(source, |anonymitySet|, |messages|, None));
    } else {
      var messageNumber := DeanomizedAt(messages, p.sourceMessageAnonymitySets);
      entry := Some(DeanomizationEntry(source, 1, |messages|, Some(messageNumber)));
    }
  }

  // ---------------------------------------------------------------------
  // Anonymity set size over time
  // ---------------------------------------------------------------------

  /** The size of message `m`'s set. */
  function Size(p: PlotFormat, m: nat): nat {
    if m in p.sourceMessageAnonymitySets then |p.sourceMessageAnonymitySets[m]| else 0
  }

  /** The size of a source's first set. */
  function FirstSize(p: PlotFormat, s: string): nat {
    if s in p.sourceMessageMap && p.sourceMessageMap[s] != [] then Size(p, p.sourceMessageMap[s][0]) else 0
  }

  /** The size of a source's last set. */
  function LastSize(p: PlotFormat, s: string): nat {
    if s in p.sourceMessageMap && p.sourceMessageMap[s] != [] then Size(p, p.sourceMessageMap[s][|p.sourceMessageMap[s]| - 1]) else 0
  }

  /** No message id is listed twice, under one source or two. */
  predicate DistinctIds(p: PlotFormat) {
    forall s, i, s', j ::
      (&& s in p.sourceMessageMap && s' in p.sourceMessageMap
       && 0 <= i < |p.sourceMessageMap[s]| && 0 <= j < |p.sourceMessageMap[s']|
       && p.sourceMessageMap[s][i] == p.sourceMessageMap[s'][j])
      ==> s == s' && i == j
  }

  /** What the size computation unwraps and subtracts needs: messages everywhere, sets for them, sizes that never grow. */
  predicate SizesComputable(p: PlotFormat) {
    && p.sourceMessageMap != map[]
    && (forall s :: s in p.sourceMessageMap ==> p.sourceMessageMap[s] != [])
    && (forall s, m :: s in p.sourceMessageMap && m in p.sourceMessageMap[s] ==> m in p.sourceMessageAnonymitySets)
    && (forall s, i :: s in p.sourceMessageMap && 0 <= i < |p.sourceMessageMap[s]| - 1 ==>
          Size(p, p.sourceMessageMap[s][i + 1]) <= Size(p, p.sourceMessageMap[s][i]))
  }

  /** The messages of the sources in `done` that have a successor, i.e. that get a difference. */
  function NonLastIn(p: PlotFormat, done: set<string>): set<nat> {
    set s, i | s in done && s in p.sourceMessageMap && 0 <= i < |p.sourceMessageMap[s]| - 1 :: p.sourceMessageMap[s][i]
  }

  /** The drop in set size from a message to the next message of its source. */
  ghost function DiffAt(p: PlotFormat, id: nat): int {
    if exists s, i :: s in p.sourceMessageMap && 0 <= i < |p.sourceMessageMap[s]| - 1 && p.sourceMessageMap[s][i] == id then
      var s, i :| s in p.sourceMessageMap && 0 <= i < |p.sourceMessageMap[s]| - 1 && p.sourceMessageMap[s][i] == id;
      Size(p, p.sourceMessageMap[s][i]) - Size(p, p.sourceMessageMap[s][i + 1])
    else 0
  }

  ghost function Diffs(p: PlotFormat): nat -> int {
    (id: nat) => DiffAt(p, id)
  }

  function Firsts(p: PlotFormat): string -> int {
    s => FirstSize(p, s)
  }

  function Lasts(p: PlotFormat): string -> int {
    s => LastSize(p, s)
  }

  lemma DiffAtIs(p: PlotFormat, s: string, i: nat)
    requires DistinctIds(p) && s in p.sourceMessageMap && i < |p.sourceMessageMap[s]| - 1
    ensures DiffAt(p, p.sourceMessageMap[s][i]) == Size(p, p.sourceMessageMap[s][i]) - Size(p, p.sourceMessageMap[s][i + 1])
  {
  }

  /** The sum over a union of disjoint key sets is the sum of the sums. */
  lemma {:induction false} SumOverUnion<G>(a: set<G>, b: set<G>, h: G -> int)
    requires a !! b
    ensures SumOver(a + b, h) == SumOver(a, h) + SumOver(b, h)
    decreases a
  {
    if a != {} {
      var g :| g in a;
      SumOverRemove(a + b, h, g);
      SumOverRemove(a, h, g);
      assert (a + b) - {g} == (a - {g}) + b;
      SumOverUnion(a - {g}, b, h);
    } else {
      assert a + b == b;
    }
  }

  lemma {:induction false} SumOverNonnegative<G>(a: set<G>, h: G -> int)
    requires forall g :: g in a ==> h(g) >= 0
    ensures SumOver(a, h) >= 0
    decreases a
  {
    if a != {} {
      var g :| g in a;
      SumOverRemove(a, h, g);
      SumOverNonnegative(a - {g}, h);
    }
  }

  lemma SumOverSubset<G>(a: set<G>, b: set<G>, h: G -> int)
    requires a <= b
    requires forall g :: g in b ==> h(g) >= 0
    ensures SumOver(a, h) <= SumOver(b, h)
  {
    assert b == a + (b - a);
    SumOverUnion(a, b - a, h);
    SumOverNonnegative(b - a, h);
  }

  /** The messages of one source, but its last, that precede position `n`. */
  function NonLastPrefix(msgs: seq<nat>, n: nat): set<nat>
    requires n <= |msgs|
  {
    set i | 0 <= i < n - 1 :: msgs[i]
  }

  /** Within one source the differences telescope: they sum to the first size minus the size at position `n - 1`. */
  lemma {:induction false} Telescope(p: PlotFormat, s: string, n: nat)
    requires DistinctIds(p) && s in p.sourceMessageMap
    requires 1 <= n <= |p.sourceMessageMap[s]|
    ensures var msgs := p.sourceMessageMap[s];
      SumOver(NonLastPrefix(msgs, n), Diffs(p)) == Size(p, msgs[0]) - Size(p, msgs[n - 1])
  {
    var msgs := p.sourceMessageMap[s];
    var h := Diffs(p);
    if n == 1 {
      assert NonLastPrefix(msgs, n) == {};
    } else {
      Telescope(p, s, n - 1);
      var m := msgs[n - 2];
      assert NonLastPrefix(msgs, n) == NonLastPrefix(msgs, n - 1) + {m};
      assert m !in NonLastPrefix(msgs, n - 1);
      SumOverUnion(NonLastPrefix(msgs, n - 1), {m}, h);
      SumOverRemove({m}, h, m);
      assert {m} - {m} == {};
      DiffAtIs(p, s, n - 2);
    }
  }

  lemma NonLastInSplit(p: PlotFormat, done: set<string>, s: string)
    requires DistinctIds(p) && s in done && done <= p.sourceMessageMap.Keys
    ensures var msgs := p.sourceMessageMap[s];
      && NonLastIn(p, done) == NonLastIn(p, done - {s}) + NonLastPrefix(msgs, |msgs|)
      && NonLastIn(p, done - {s}) !! NonLastPrefix(msgs, |msgs|)
  {
    var msgs := p.sourceMessageMap[s];
    forall id | id in NonLastIn(p, done) ensures id in NonLastIn(p, done - {s}) + NonLastPrefix(msgs, |msgs|) {
      var s', i :| s' in done && s' in p.sourceMessageMap && 0 <= i < |p.sourceMessageMap[s']| - 1 && p.sourceMessageMap[s'][i] == id;
      if s' == s {
        assert id in NonLastPrefix(msgs, |msgs|);
      } else {
        assert id in NonLastIn(p, done - {s});
      }
    }
    forall id | id in NonLastPrefix(msgs, |msgs|) ensures id !in NonLastIn(p, done - {s}) && id in NonLastIn(p, done) {
      var i :| 0 <= i < |msgs| - 1 && msgs[i] == id;
      forall s', j | s' in done - {s} && s' in p.sourceMessageMap && 0 <= j < |p.sourceMessageMap[s']| - 1
        ensures p.sourceMessageMap[s'][j] != id
      {
        assert p.sourceMessageMap[s'][j] == msgs[i] ==> s' == s;
      }
    }
  }

  /** Over all the sources in `done`, the differences sum to the first sizes minus the last sizes. */
  lemma {:induction false} TelescopeAll(p: PlotFormat, done: set<string>)
    requires DistinctIds(p) && SizesComputable(p) && done <= p.sourceMessageMap.Keys
    ensures SumOver(NonLastIn(p, done), Diffs(p)) ==
      SumOver(done, Firsts(p)) - SumOver(done, Lasts(p))
    decreases done
  {
    var h := Diffs(p);
    if done == {} {
      assert NonLastIn(p, done) == {};
    } else {
      var s :| s in done;
      var msgs := p.sourceMessageMap[s];
      TelescopeAll(p, done - {s});
      NonLastInSplit(p, done, s);
      SumOverUnion(NonLastIn(p, done - {s}), NonLastPrefix(msgs, |msgs|), h);
      Telescope(p, s, |msgs|);
      SumOverRemove(done, Firsts(p), s);
      SumOverRemove(done, Lasts(p), s);
    }
  }

  lemma DiffsNonnegative(p: PlotFormat, done: set<string>)
    requires DistinctIds(p) && SizesComputable(p)
    ensures forall id :: id in NonLastIn(p, done) ==> Diffs(p)(id) >= 0
  {
    forall id | id in NonLastIn(p, done) ensures Diffs(p)(id) >= 0 {
      var s, i :| s in done && s in p.sourceMessageMap && 0 <= i < |p.sourceMessageMap[s]| - 1 && p.sourceMessageMap[s][i] == id;
      DiffAtIs(p, s, i);
    }
  }

  lemma SumOverAdd<G>(done: set<G>, h: G -> int, g: G)
    requires g !in done
    ensures SumOver(done + {g}, h) == SumOver(done, h) + h(g)
  {
    SumOverRemove(done + {g}, h, g);
    assert done + {g} - {g} == done;
  }

  /** The sum of the first sizes (the `map`/`reduce` chain). */
  method TotalFirstSizes(p: PlotFormat) returns (total: nat)
    ensures total == SumOver(p.sourceMessageMap.Keys, Firsts(p))
  {
    total := 0;
    var rest := p.sourceMessageMap.Keys;
    while rest != {}
      invariant rest <= p.sourceMessageMap.Keys
      invariant total + SumOver(rest, Firsts(p)) == SumOver(p.sourceMessageMap.Keys, Firsts(p))
      decreases rest
    {
      var source :| source in rest;
      var messages := p.sourceMessageMap[source];
      var first := if messages != [] then Size(p, messages[0]) else 0;
      SumOverRemove(rest, Firsts(p), source);
      total := total + first;
      rest := rest - {source};
    }
  }

  /** The size differences of consecutive messages of every source (the `windows(2)` chain). */
  method DifferenceMap(p: PlotFormat) returns (diffs: map<nat, nat>)
    requires DistinctIds(p) && SizesComputable(p)
    ensures diffs.Keys == NonLastIn(p, p.sourceMessageMap.Keys)
    ensures forall id :: id in diffs ==> diffs[id] == DiffAt(p, id)
  {
    diffs := map[];
    var rest := p.sourceMessageMap.Keys;
    ghost var done: set<string> := {};
    while rest != {}
      invariant rest <= p.sourceMessageMap.Keys && done == p.sourceMessageMap.Keys - rest
      invariant diffs.Keys == NonLastIn(p, done)
      invariant forall id :: id in diffs ==> diffs[id] == DiffAt(p, id)
      decreases rest
    {
      var source :| source in rest;
      var messages := p.sourceMessageMap[source];
      for i := 0 to |messages| - 1
        invariant diffs.Keys == NonLastIn(p, done) + NonLastPrefix(messages, i + 1)
        invariant forall id :: id in diffs ==> diffs[id] == DiffAt(p, id)
      {
        DiffAtIs(p, source, i);
        assert NonLastPrefix(messages, i + 2) == NonLastPrefix(messages, i + 1) + {messages[i]};
        diffs := diffs[messages[i] := Size(p, messages[i]) - Size(p, messages[i + 1])];
      }
      NonLastInSplit(p, done + {source}, source);
      assert done + {source} - {source} == done;
      rest := rest - {source};
      done := done + {source};
    }
  }

  /** The ids in `keys` up to and including `id`. */
  function UpTo(keys: set<nat>, id: nat): set<nat> {
    set k | k in keys && k <= id
  }

  /** A nonempty finite set of ids has a least element. */
  /** `m` is at most every element of `s`. */
  predicate AtMostAll(m: nat, s: set<nat>) {
    forall k :: k in s ==> m <= k
  }

  lemma {:induction false} LeastOf(s: set<nat>) returns (m: nat)
    requires s != {}
    ensures m in s && AtMostAll(m, s)
    decreases s
  {
    var x :| x in s;
    if s == {x} {
      m := x;
    } else {
      var m' := LeastOf(s - {x});
      m := if x < m' then x else m';
      forall k | k in s ensures m <= k {
        if k != x {
          assert k in s - {x};
        }
      }
    }
  }

  /** The loop invariant of the final loop of `AnonymitySetSizeOverTime`, for differences `h`. */
  ghost predicate RunningTotals(h: nat -> int, keys: set<nat>, total: int, done: set<nat>, rest: set<nat>, running: int, result: map<nat, nat>) {
    && (forall x, y :: x in done && y in rest ==> x < y)
    && running == total - SumOver(done, h)
    && result.Keys == done
    && (forall id :: id in result ==> result[id] == total - SumOver(UpTo(keys, id), h))
  }

  /** Taking the least remaining id: the ids up to it are exactly those done and itself. */
  lemma UpToLeast(keys: set<nat>, done: set<nat>, rest: set<nat>, id: nat)
    requires done !! rest && done + rest == keys
    requires forall x, y :: x in done && y in rest ==> x < y
    requires id in rest && AtMostAll(id, rest)
    ensures id !in done && UpTo(keys, id) == done + {id}
  {
  }

  /** Adding one key to the part summed so far keeps the sum within the whole. */
  lemma SumStep(h: nat -> int, keys: set<nat>, done: set<nat>, id: nat)
    requires id !in done && done + {id} <= keys
    requires forall k :: k in keys ==> h(k) >= 0
    ensures SumOver(done + {id}, h) == SumOver(done, h) + h(id)
    ensures SumOver(done + {id}, h) <= SumOver(keys, h)
  {
    SumOverAdd(done, h, id);
    SumOverSubset(done + {id}, keys, h);
  }

  lemma RunningStep(h: nat -> int, keys: set<nat>, total: int, done: set<nat>, rest: set<nat>, running: int, result: map<nat, nat>, id: nat)
    requires done !! rest && done + rest == keys
    requires RunningTotals(h, keys, total, done, rest, running, result)
    requires id in rest && AtMostAll(id, rest)
    requires forall k :: k in keys ==> h(k) >= 0
    requires SumOver(keys, h) <= total
    ensures (done + {id}) !! (rest - {id}) && (done + {id}) + (rest - {id}) == keys
    ensures running - h(id) >= 0
    ensures RunningTotals(h, keys, total, done + {id}, rest - {id}, running - h(id), result[id := running - h(id)])
  {
    UpToLeast(keys, done, rest, id);
    SumStep(h, keys, done, id);
    var result' := result[id := running - h(id)];
    forall k | k in result' ensures result'[k] == total - SumOver(UpTo(keys, k), h) {
      if k != id {
        assert result'[k] == result[k];
      }
    }
  }

  /**
   * Subtracts the differences from `total` in ascending id order (the walk
   * over the `BTreeMap`), recording the running total after each id.
   */
  method RunningSizes(diffs: map<nat, nat>, total: nat, ghost h: nat -> int) returns (result: map<nat, nat>)
    requires forall k :: k in diffs ==> diffs[k] == h(k)
    requires SumOver(diffs.Keys, h) <= total
    ensures result.Keys == diffs.Keys
    ensures forall id :: id in result ==> result[id] == total - SumOver(UpTo(diffs.Keys, id), h)
  {
    ghost var keys := diffs.Keys;
    result := map[];
    var running := total;
    var rest := diffs.Keys;
    ghost var done: set<nat> := {};
    while rest != {}
      invariant done !! rest && done + rest == keys
      invariant RunningTotals(h, keys, total, done, rest, running, result)
      decreases rest
    {
      ghost var least := LeastOf(rest);
      var id :| id in rest && AtMostAll(id, rest);
      RunningStep(h, keys, total, done, rest, running, result, id);
      running := running - diffs[id];
      result := result[id := running];
      rest := rest - {id};
      done := done + {id};
    }
  }

  /** After the largest id every difference has been subtracted. */
  lemma RunningEndsAt(result: map<nat, nat>, total: int, rest: int, h: nat -> int)
    requires forall id :: id in result ==> result[id] == total - SumOver(UpTo(result.Keys, id), h)
    requires SumOver(result.Keys, h) == total - rest
    ensures forall id :: id in result && (forall k :: k in result ==> k <= id) ==> result[id] == rest
  {
    forall id | id in result && (forall k :: k in result ==> k <= id) ensures result[id] == rest {
      assert UpTo(result.Keys, id) == result.Keys;
    }
  }

  /** The differences are nonnegative and total the first sizes minus the last sizes. */
  lemma DiffsTotal(p: PlotFormat, diffs: map<nat, nat>, total: nat)
    requires SizesComputable(p) && DistinctIds(p)
    requires diffs.Keys == NonLastIn(p, p.sourceMessageMap.Keys)
    requires forall id :: id in diffs ==> diffs[id] == DiffAt(p, id)
    requires total == SumOver(p.sourceMessageMap.Keys, Firsts(p))
    ensures forall k :: k in diffs ==> diffs[k] == Diffs(p)(k)
    ensures SumOver(diffs.Keys, Diffs(p)) == total - SumOver(p.sourceMessageMap.Keys, Lasts(p)) <= total
  {
    TelescopeAll(p, p.sourceMessageMap.Keys);
    SumOverNonnegative(p.sourceMessageMap.Keys, Lasts(p));
  }

  /**
   * The total anonymity set size after each message that has a successor, in
   * id order: the sum of the first sizes minus every difference up to and
   * including that id. After the largest id it is the sum of the last sizes.
   */
  method AnonymitySetSizeOverTime(p: PlotFormat) returns (result: map<nat, nat>)
    requires SizesComputable(p) && DistinctIds(p)
    ensures result.Keys == NonLastIn(p, p.sourceMessageMap.Keys)
    ensures forall id :: id in result ==>
      result[id] == SumOver(p.sourceMessageMap.Keys, Firsts(p)) - SumOver(UpTo(result.Keys, id), Diffs(p))
    ensures forall id :: id in result && (forall k :: k in result ==> k <= id) ==>
      result[id] == SumOver(p.sourceMessageMap.Keys, Lasts(p))
  {
    var total := TotalFirstSizes(p);
    var diffs := DifferenceMap(p);
    DiffsTotal(p, diffs, total);
    result := RunningSizes(diffs, total, Diffs(p));
    RunningEndsAt(result, total, SumOver(p.sourceMessageMap.Keys, Lasts(p)), Diffs(p));
  }
}

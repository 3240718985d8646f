/**
 * `MessageSet`: a vector of message ids together with a flag recording
 * whether it is known to be sorted, with a grouping operation and a
 * merge-style comparison of two sorted sets.
 */
module Containers {
  import opened Sorting
  import opened Seqs
  import opened Trace

  predicate Nondecreasing(s: seq<MessageId>) {
    forall i, j :: 0 <= i < j < |s| ==> s[i] <= s[j]
  }

  predicate StrictlyIncreasing(s: seq<MessageId>) {
    forall i, j :: 0 <= i < j < |s| ==> s[i] < s[j]
  }

  function MessageKey(m: MessageId): Key {
    Key(m as int, 0, 0)
  }

  /** The messages of `s` whose key under `indicator` is `g`, in order. */
  function Group<G(==)>(s: seq<MessageId>, indicator: MessageId -> G, g: G): seq<MessageId> {
    if s == [] then []
    else Group(s[..|s| - 1], indicator, g) + (if indicator(s[|s| - 1]) == g then [s[|s| - 1]] else [])
  }

  /** The keys `indicator` gives the messages of `s`. */
  function Keys<G(==)>(s: seq<MessageId>, indicator: MessageId -> G): set<G> {
    set i | 0 <= i < |s| :: indicator(s[i])
  }

  class MessageSet {
    var messages: seq<MessageId>
    var sorted: bool

    /** The flag never claims more than is true. */
    ghost predicate Valid()
      reads this
    {
      sorted ==> Nondecreasing(messages)
    }

    constructor ()
      ensures Valid() && messages == [] && sorted
    {
      messages := [];
      sorted := true;
    }

    /** Appends a message; the flag drops when it is smaller than the last one. */
    method Insert(message: MessageId)
      requires Valid()
      modifies this
      ensures Valid()
      ensures messages == old(messages) + [message]
      ensures sorted == (old(sorted) && !(|old(messages)| > 0 && old(messages)[|old(messages)| - 1] > message))
    {
      if |messages| > 0 && messages[|messages| - 1] > message {
        sorted := false;
      }
      messages := messages + [message];
    }

    /** Sorts the messages unless the flag says they already are. */
    method Sort()
      requires Valid()
      modifies this
      ensures Valid() && sorted
      ensures Nondecreasing(messages) && multiset(messages) == multiset(old(messages))
      ensures old(sorted) ==> messages == old(messages)
    {
      if !sorted {
        messages := Sorting.Sort(messages, MessageKey);
        forall i, j | 0 <= i < j < |messages| ensures messages[i] <= messages[j] {
          assert !KeyLt(MessageKey(messages[j]), MessageKey(messages[i]));
        }
      }
      sorted := true;
    }

    function IntoVec(): seq<MessageId>
      reads this
    {
      messages
    }

    function Len(): nat
      reads this
    {
      |messages|
    }

    /**
     * Groups the messages by `indicator` into fresh sets, one per key that
     * occurs, each holding that key's messages and sorted.
     */
    method SplitBy<G(==)>(indicator: MessageId -> G) returns (result: map<G, MessageSet>)
      ensures result.Keys == Keys(messages, indicator)
      ensures forall g :: g in result ==> fresh(result[g]) && result[g].Valid() && result[g].sorted
      ensures forall g :: g in result ==>
        Nondecreasing(result[g].messages)
        && multiset(result[g].messages) == multiset(Group(messages, indicator, g))
      ensures forall g, h :: g in result && h in result && g != h ==> result[g] != result[h]
    {
      result := GroupMessages(messages, indicator);
      SortGroups(result);
    }

    /**
     * `(added, overlap)` from this set to `other`, by walking both sorted
     * vectors once. The two `assert!`s of the code are the preconditions.
     */
    method Distance(other: MessageSet) returns (added: nat, overlap: nat)
      requires Valid() && other.Valid()
      requires sorted && other.sorted
      ensures (added, overlap) == Walk(messages, other.messages, 0, 0)
    {
      var left, right := messages, other.messages;
      added, overlap := 0, 0;
      var li := 0;
      var leftExhausted := false;
      for ri := 0 to |right|
        invariant li <= |left|
        invariant leftExhausted ==> li == |left|
        invariant Walk(left, right, 0, 0) ==
          (added + Walk(left, right, li, ri).0, overlap + Walk(left, right, li, ri).1)
      {
        if leftExhausted {
          added := added + 1;
        } else {
          var done := false;
          while !done
            invariant li <= |left|
            invariant leftExhausted ==> li == |left|
            invariant !done ==>
              Walk(left, right, 0, 0) ==
              (added + Walk(left, right, li, ri).0, overlap + Walk(left, right, li, ri).1)
            invariant done ==>
              Walk(left, right, 0, 0) ==
              (added + Walk(left, right, li, ri + 1).0, overlap + Walk(left, right, li, ri + 1).1)
            decreases !done, |left| - li
          {
            if li == |left| {
              added := added + 1;
              leftExhausted := true;
              done := true;
            } else {
              var leftVal := left[li];
              li := li + 1;
              if leftVal < right[ri] {
              } else if leftVal == right[ri] {
                overlap := overlap + 1;
                done := true;
              } else {
                added := added + 1;
                done := true;
              }
            }
          }
        }
      }
    }
  }

  /** The insertion loop of `split_by`: one fresh set per key, filled in order. */
  method GroupMessages<G(==)>(s: seq<MessageId>, indicator: MessageId -> G) returns (result: map<G, MessageSet>)
    ensures result.Keys == Keys(s, indicator)
    ensures forall g :: g in result ==> fresh(result[g]) && result[g].Valid()
    ensures forall g :: g in result ==> result[g].messages == Group(s, indicator, g)
    ensures forall g, h :: g in result && h in result && g != h ==> result[g] != result[h]
  {
    result := map[];
    for i := 0 to |s|
      invariant result.Keys == Keys(s[..i], indicator)
      invariant forall g :: g in result ==> fresh(result[g]) && result[g].Valid()
      invariant forall g :: g in result ==> result[g].messages == Group(s[..i], indicator, g)
      invariant forall g, h :: g in result && h in result && g != h ==> result[g] != result[h]
    {
      var val := s[i];
      var key := indicator(val);
      assert s[..i + 1] == s[..i] + [val];
      GroupSnoc(s[..i], val, indicator);
      KeysSnoc(s[..i], val, indicator);
      var target: MessageSet;
      if key in result {
        target := result[key];
      } else {
        target := new MessageSet();
        GroupAbsent(s[..i], indicator, key);
        result := result[key := target];
      }
      target.Insert(val);
      assert forall g :: g in result && g != key ==> result[g] != target;
    }
    assert s[..|s|] == s;
  }

  /** The second loop of `split_by`: every group is sorted. */
  method SortGroups<G>(result: map<G, MessageSet>)
    requires forall g :: g in result ==> result[g].Valid()
    requires forall g, h :: g in result && h in result && g != h ==> result[g] != result[h]
    modifies result.Values
    ensures forall g :: g in result ==> result[g].Valid() && result[g].sorted
    ensures forall g :: g in result ==>
      Nondecreasing(result[g].messages) && multiset(result[g].messages) == multiset(old(result[g].messages))
  {
    var pending := result.Keys;
    while pending != {}
      invariant pending <= result.Keys
      invariant forall g :: g in result ==> result[g].Valid()
      invariant forall g :: g in result ==> multiset(result[g].messages) == multiset(old(result[g].messages))
      invariant forall g :: g in result && g !in pending ==> result[g].sorted
      decreases pending
    {
      var g :| g in pending;
      result[g].Sort();
      pending := pending - {g};
    }
  }

  /**
   * The comparison `Distance` performs, from left position `li` and right
   * position `ri` on: smaller left values are skipped, an equal one counts
   * as overlap, and a greater one counts the right value as added. Both the
   * equal and the greater case consume the left value.
   */
  function Walk(left: seq<MessageId>, right: seq<MessageId>, li: nat, ri: nat): (nat, nat)
    requires li <= |left| && ri <= |right|
    decreases |right| - ri, |left| - li
  {
    if ri == |right| then (0, 0)
    else if li == |left| then (|right| - ri, 0)
    else if left[li] < right[ri] then Walk(left, right, li + 1, ri)
    else if left[li] == right[ri] then
      var rest := Walk(left, right, li + 1, ri + 1);
      (rest.0, rest.1 + 1)
    else
      var rest := Walk(left, right, li + 1, ri + 1);
      (rest.0 + 1, rest.1)
  }

  /** Every message of `other` is counted once, as added or as overlap. */
  lemma {:induction false} WalkSum(left: seq<MessageId>, right: seq<MessageId>, li: nat, ri: nat)
    requires li <= |left| && ri <= |right|
    ensures Walk(left, right, li, ri).0 + Walk(left, right, li, ri).1 == |right| - ri
    decreases |right| - ri, |left| - li
  {
    if ri < |right| && li < |left| {
      if left[li] < right[ri] {
        WalkSum(left, right, li + 1, ri);
      } else {
        WalkSum(left, right, li + 1, ri + 1);
      }
    }
  }

  /** Each overlap consumes a distinct left message. */
  lemma {:induction false} WalkOverlapBound(left: seq<MessageId>, right: seq<MessageId>, li: nat, ri: nat)
    requires li <= |left| && ri <= |right|
    ensures Walk(left, right, li, ri).1 <= |left| - li
    decreases |right| - ri, |left| - li
  {
    if ri < |right| && li < |left| {
      if left[li] < right[ri] {
        WalkOverlapBound(left, right, li + 1, ri);
      } else {
        WalkOverlapBound(left, right, li + 1, ri + 1);
      }
    }
  }

  /** With no message in common, everything in `other` is added. */
  lemma {:induction false} WalkDisjoint(left: seq<MessageId>, right: seq<MessageId>, li: nat, ri: nat)
    requires li <= |left| && ri <= |right|
    requires forall m :: m in right ==> m !in left
    ensures Walk(left, right, li, ri) == (|right| - ri, 0)
    decreases |right| - ri, |left| - li
  {
    if ri < |right| && li < |left| {
      assert right[ri] in right;
      if left[li] < right[ri] {
        WalkDisjoint(left, right, li + 1, ri);
      } else {
        WalkDisjoint(left, right, li + 1, ri + 1);
      }
    }
  }

  /** `m` occurs in `left` at position `li` or later. */
  predicate InFrom(left: seq<MessageId>, li: nat, m: MessageId) {
    exists k :: li <= k < |left| && left[k] == m
  }

  /** A message found from `li` on, but not at `li`, is found from `li + 1` on. */
  lemma InFromNext(left: seq<MessageId>, li: nat, m: MessageId)
    requires InFrom(left, li, m) && li < |left| && left[li] != m
    ensures InFrom(left, li + 1, m)
  {
    var k :| li <= k < |left| && left[k] == m;
    assert k != li;
  }

  /** When `other` is contained in this set (both strictly sorted), all of it overlaps. */
  lemma {:induction false} WalkContained(left: seq<MessageId>, right: seq<MessageId>, li: nat, ri: nat)
    requires li <= |left| && ri <= |right|
    requires StrictlyIncreasing(left) && StrictlyIncreasing(right)
    requires forall j :: ri <= j < |right| ==> InFrom(left, li, right[j])
    ensures Walk(left, right, li, ri) == (0, |right| - ri)
    decreases |right| - ri, |left| - li
  {
    if ri < |right| {
      assert InFrom(left, li, right[ri]);
      var k :| li <= k < |left| && left[k] == right[ri];
      if left[li] < right[ri] {
        forall j | ri <= j < |right| ensures InFrom(left, li + 1, right[j]) {
          assert right[ri] <= right[j];
          InFromNext(left, li, right[j]);
        }
        WalkContained(left, right, li + 1, ri);
      } else {
        assert left[li] <= left[k];
        assert left[li] == right[ri];
        forall j | ri + 1 <= j < |right| ensures InFrom(left, li + 1, right[j]) {
          assert right[ri] < right[j];
          InFromNext(left, li, right[j]);
        }
        WalkContained(left, right, li + 1, ri + 1);
      }
    }
  }

  // The unit tests of the Rust module, on the walk `Distance` performs.

  lemma DistanceTest1()
    ensures Walk([1, 2, 3, 4, 5], [2, 5, 6], 0, 0) == (1, 2)
  {
    var a: seq<MessageId> := [1, 2, 3, 4, 5];
    assert Walk(a, [2, 5, 6], 5, 2) == (1, 0);
    assert Walk(a, [2, 5, 6], 2, 1) == (1, 1);
  }

  lemma DistanceTest2()
    ensures Walk([1, 2, 3, 4, 5], [6, 7], 0, 0) == (2, 0)
  {
    assert Walk([1, 2, 3, 4, 5], [6, 7], 5, 0) == (2, 0);
  }

  lemma DistanceTest3()
    ensures Walk([1, 2, 3, 4, 5], [1, 2, 3, 4, 5], 0, 0) == (0, 5)
  {
    var a: seq<MessageId> := [1, 2, 3, 4, 5];
    assert Walk(a, a, 3, 3) == (0, 2);
  }

  lemma DistanceTest4()
    ensures Walk([], [2, 5, 6], 0, 0) == (3, 0)
  {
  }

  lemma DistanceTest5()
    ensures Walk([], [], 0, 0) == (0, 0)
  {
  }

  lemma DistanceTest6()
    ensures Walk([2, 4, 5], [], 0, 0) == (0, 0)
  {
  }

  /**
   * The greater case consumes a left value that a later right value may
   * still equal: for `[3]` against `[1, 3]` the walk reports two added
   * messages and no overlap, although 3 is shared.
   */
  lemma WalkMissesOverlap()
    ensures Walk([3], [1, 3], 0, 0) == (2, 0)
    ensures CountNotIn([1, 3], [3]) == 1 && CountIn([1, 3], [3]) == 1
  {
    assert Walk([3], [1, 3], 1, 1) == (1, 0);
    assert CountNotIn([1], [3]) == 1 && CountIn([1], [3]) == 0;
  }

  /** How many messages of `right` occur in `left`. */
  function CountIn(right: seq<MessageId>, left: seq<MessageId>): nat {
    if right == [] then 0
    else CountIn(right[..|right| - 1], left) + (if right[|right| - 1] in left then 1 else 0)
  }

  /** How many messages of `right` do not occur in `left`. */
  function CountNotIn(right: seq<MessageId>, left: seq<MessageId>): nat {
    if right == [] then 0
    else CountNotIn(right[..|right| - 1], left) + (if right[|right| - 1] in left then 0 else 1)
  }

  /** The same walk with the greater case leaving the left value in place. */
  function CorrectedWalk(left: seq<MessageId>, right: seq<MessageId>, li: nat, ri: nat): (nat, nat)
    requires li <= |left| && ri <= |right|
    decreases |right| - ri, |left| - li
  {
    if ri == |right| then (0, 0)
    else if li == |left| then (|right| - ri, 0)
    else if left[li] < right[ri] then CorrectedWalk(left, right, li + 1, ri)
    else if left[li] == right[ri] then
      var rest := CorrectedWalk(left, right, li + 1, ri + 1);
      (rest.0, rest.1 + 1)
    else
      var rest := CorrectedWalk(left, right, li, ri + 1);
      (rest.0 + 1, rest.1)
  }

  lemma CountFront(right: seq<MessageId>, left: seq<MessageId>)
    requires right != []
    ensures CountIn(right, left) == (if right[0] in left then 1 else 0) + CountIn(right[1..], left)
    ensures CountNotIn(right, left) == (if right[0] in left then 0 else 1) + CountNotIn(right[1..], left)
    decreases |right|
  {
    if |right| > 1 {
      CountFront(right[..|right| - 1], left);
      assert right[..|right| - 1][1..] == right[1..][..|right[1..]| - 1];
    }
  }

  lemma CountAgree(right: seq<MessageId>, a: seq<MessageId>, b: seq<MessageId>)
    requires forall m :: m in right ==> (m in a <==> m in b)
    ensures CountIn(right, a) == CountIn(right, b) && CountNotIn(right, a) == CountNotIn(right, b)
  {
    if right != [] {
      CountAgree(right[..|right| - 1], a, b);
    }
  }

  /**
   * On strictly sorted sets the corrected walk yields what the method's
   * documentation promises: the number of messages of `other` not in this
   * set, and the number in both.
   */
  lemma {:induction false} CorrectedWalkCounts(left: seq<MessageId>, right: seq<MessageId>, li: nat, ri: nat)
    requires li <= |left| && ri <= |right|
    requires StrictlyIncreasing(left) && StrictlyIncreasing(right)
    requires forall j, k :: 0 <= k < li && ri <= j < |right| ==> left[k] < right[j]
    ensures CorrectedWalk(left, right, li, ri) == (CountNotIn(right[ri..], left), CountIn(right[ri..], left))
    decreases |right| - ri, |left| - li
  {
    var rest := right[ri..];
    if ri == |right| {
    } else {
      CountFront(rest, left);
      assert rest[1..] == right[ri + 1..];
      if li == |left| {
        assert right[ri] !in left;
        forall j | ri < j < |right| ensures right[j] !in left {
        }
        CountAgree(right[ri + 1..], left, []);
        NothingIn(right[ri + 1..]);
      } else if left[li] < right[ri] {
        CorrectedWalkCounts(left, right, li + 1, ri);
      } else if left[li] == right[ri] {
        CorrectedWalkCounts(left, right, li + 1, ri + 1);
      } else {
        assert right[ri] !in left by {
          forall k | 0 <= k < |left| ensures left[k] != right[ri] {
            if k > li {
              assert left[k] > left[li];
            }
          }
        }
        CorrectedWalkCounts(left, right, li, ri + 1);
      }
    }
  }

  lemma NothingIn(right: seq<MessageId>)
    ensures CountIn(right, []) == 0 && CountNotIn(right, []) == |right|
  {
    if right != [] {
      NothingIn(right[..|right| - 1]);
    }
  }

  /** On the counterexample the corrected walk finds the shared message. */
  lemma CorrectedWalkFindsOverlap()
    ensures CorrectedWalk([3], [1, 3], 0, 0) == (1, 1)
  {
    var left: seq<MessageId> := [3];
    var right: seq<MessageId> := [1, 3];
    assert |left| == 1 && |right| == 2 && left[0] == 3 && right[0] == 1 && right[1] == 3;
    var last := CorrectedWalk(left, right, 1, 2);
    assert last == (0, 0);
    var mid := CorrectedWalk(left, right, 0, 1);
    assert mid == (last.0, last.1 + 1);
    assert CorrectedWalk(left, right, 0, 0) == (mid.0 + 1, mid.1);
  }

  lemma GroupSnoc<G>(s: seq<MessageId>, x: MessageId, indicator: MessageId -> G)
    ensures forall g :: Group(s + [x], indicator, g) == Group(s, indicator, g) + (if indicator(x) == g then [x] else [])
  {
    assert (s + [x])[..|s|] == s;
  }

  lemma KeysSnoc<G>(s: seq<MessageId>, x: MessageId, indicator: MessageId -> G)
    ensures Keys(s + [x], indicator) == Keys(s, indicator) + {indicator(x)}
  {
    var t := s + [x];
    assert indicator(t[|s|]) in Keys(t, indicator);
    forall g | g in Keys(s, indicator) ensures g in Keys(t, indicator) {
      var i :| 0 <= i < |s| && indicator(s[i]) == g;
      assert indicator(t[i]) == g;
    }
  }

  lemma GroupAbsent<G>(s: seq<MessageId>, indicator: MessageId -> G, g: G)
    requires g !in Keys(s, indicator)
    ensures Group(s, indicator, g) == []
  {
    if s != [] {
      var p := s[..|s| - 1];
      assert indicator(s[|s| - 1]) in Keys(s, indicator);
      assert g !in Keys(p, indicator) by {
        forall i | 0 <= i < |p| ensures indicator(p[i]) != g {
          assert indicator(s[i]) in Keys(s, indicator);
        }
      }
      GroupAbsent(p, indicator, g);
    }
  }

  /** Grouping keeps every message, with its multiplicity, in exactly its own group. */
  lemma {:induction false} GroupCount<G>(s: seq<MessageId>, indicator: MessageId -> G, g: G, m: MessageId)
    ensures multiset(Group(s, indicator, g))[m] == if indicator(m) == g then multiset(s)[m] else 0
  {
    if s != [] {
      var p := s[..|s| - 1];
      GroupCount(p, indicator, g, m);
      assert s == p + [s[|s| - 1]];
    }
  }

  /** The group sizes add up to the number of messages split. */
  lemma {:induction false} GroupSizesSum<G>(s: seq<MessageId>, indicator: MessageId -> G, keys: set<G>)
    requires Keys(s, indicator) <= keys
    ensures SumOver(keys, g => |Group(s, indicator, g)|) == |s|
  {
    if s == [] {
      SumOverZero(keys, g => |Group(s, indicator, g)|);
    } else {
      var p, x := s[..|s| - 1], s[|s| - 1];
      assert Keys(p, indicator) <= keys by {
        forall g | g in Keys(p, indicator) ensures g in keys {
          var i :| 0 <= i < |p| && indicator(p[i]) == g;
          assert indicator(s[i]) == g;
        }
      }
      GroupSizesSum(p, indicator, keys);
      assert indicator(x) in Keys(s, indicator) by {
        assert indicator(s[|s| - 1]) in Keys(s, indicator);
      }
      SumOverBump(keys, g => |Group(p, indicator, g)|, g => |Group(s, indicator, g)|, indicator(x));
    }
  }
}

/**
 * The library sorts the code calls (`Vec::sort`, `sort_by`, `sort_unstable`,
 * `sort_unstable_by_key`), modelled by one stable insertion sort over a
 * lexicographically compared integer key. The key plays the part of the
 * `PartialOrd`/`Ord` the Rust call compares with.
 */
module Sorting {

  /** A three-part key, compared lexicographically. */
  datatype Key = Key(major: int, middle: int, minor: int)

  /** Strict lexicographic order on keys: the `<` a Rust sort calls. */
  predicate KeyLt(a: Key, b: Key) {
    || a.major < b.major
    || (a.major == b.major && a.middle < b.middle)
    || (a.major == b.major && a.middle == b.middle && a.minor < b.minor)
  }

  /** No element is strictly smaller than one before it. */
  predicate SortedBy<T>(s: seq<T>, key: T -> Key) {
    forall i, j :: 0 <= i < j < |s| ==> !KeyLt(key(s[j]), key(s[i]))
  }

  /** The elements of `s` whose key is `k`, in their order in `s`. */
  function WithKey<T>(s: seq<T>, key: T -> Key, k: Key): seq<T> {
    if s == [] then []
    else WithKey(s[..|s| - 1], key, k) + (if key(s[|s| - 1]) == k then [s[|s| - 1]] else [])
  }

  /** Every element of `s` is at most `b`. */
  predicate Below<T>(s: seq<T>, key: T -> Key, b: Key) {
    forall i :: 0 <= i < |s| ==> !KeyLt(b, key(s[i]))
  }

  /** Inserts `x` into `s` after the trailing elements that are not greater than `x`. */
  function Insert<T>(s: seq<T>, x: T, key: T -> Key): (r: seq<T>)
    ensures |r| == |s| + 1
    ensures multiset(r) == multiset(s) + multiset{x}
  {
    if s == [] then [x]
    else if KeyLt(key(x), key(s[|s| - 1])) then
      assert s == s[..|s| - 1] + [s[|s| - 1]];
      Insert(s[..|s| - 1], x, key) + [s[|s| - 1]]
    else
      s + [x]
  }

  lemma {:induction false} InsertBelow<T>(s: seq<T>, x: T, key: T -> Key, b: Key)
    requires Below(s, key, b) && !KeyLt(b, key(x))
    ensures Below(Insert(s, x, key), key, b)
    decreases |s|
  {
    if s != [] && KeyLt(key(x), key(s[|s| - 1])) {
      InsertBelow(s[..|s| - 1], x, key, b);
    }
  }

  lemma {:induction false} InsertSorted<T>(s: seq<T>, x: T, key: T -> Key)
    requires SortedBy(s, key)
    ensures SortedBy(Insert(s, x, key), key)
    decreases |s|
  {
    if s == [] {
    } else if KeyLt(key(x), key(s[|s| - 1])) {
      var p, last := s[..|s| - 1], s[|s| - 1];
      InsertSorted(p, x, key);
      assert Below(p, key, key(last));
      InsertBelow(p, x, key, key(last));
      var q := Insert(p, x, key);
      assert Insert(s, x, key) == q + [last];
    } else {
      var last := s[|s| - 1];
      assert Below(s, key, key(x)) by {
        forall i | 0 <= i < |s| ensures !KeyLt(key(x), key(s[i])) {
          if i < |s| - 1 {
            assert !KeyLt(key(last), key(s[i]));
          }
        }
      }
    }
  }

  /** Stable insertion sort. */
  function Sort<T>(s: seq<T>, key: T -> Key): (r: seq<T>)
    ensures |r| == |s|
    ensures multiset(r) == multiset(s)
    ensures SortedBy(r, key)
  {
    if s == [] then []
    else
      assert s == s[..|s| - 1] + [s[|s| - 1]];
      var r := Sort(s[..|s| - 1], key);
      InsertSorted(r, s[|s| - 1], key);
      Insert(r, s[|s| - 1], key)
  }

  lemma {:induction false} WithKeyAppend<T>(a: seq<T>, b: seq<T>, key: T -> Key, k: Key)
    ensures WithKey(a + b, key, k) == WithKey(a, key, k) + WithKey(b, key, k)
    decreases |b|
  {
    if b != [] {
      var b' := b[..|b| - 1];
      assert (a + b)[..|a + b| - 1] == a + b';
      WithKeyAppend(a, b', key, k);
    } else {
      assert a + b == a;
    }
  }

  /** Inserting keeps the order of the elements that share `x`'s key, with `x` last. */
  lemma {:induction false} InsertStable<T>(s: seq<T>, x: T, key: T -> Key, k: Key)
    ensures WithKey(Insert(s, x, key), key, k) == WithKey(s, key, k) + (if key(x) == k then [x] else [])
    decreases |s|
  {
    if s == [] {
      assert [x][..0] == [];
    } else if KeyLt(key(x), key(s[|s| - 1])) {
      var p, last := s[..|s| - 1], s[|s| - 1];
      var q := Insert(p, x, key);
      assert Insert(s, x, key) == q + [last];
      InsertStable(p, x, key, k);
      var tail := if key(last) == k then [last] else [];
      assert WithKey(s, key, k) == WithKey(p, key, k) + tail;
      assert (q + [last])[..|q + [last]| - 1] == q;
      assert WithKey(q + [last], key, k) == WithKey(q, key, k) + tail;
      if key(x) == k {
        assert key(last) != k;
      }
    } else {
      assert Insert(s, x, key) == s + [x];
      assert (s + [x])[..|s + [x]| - 1] == s;
    }
  }

  /** The sort is stable: elements with equal keys keep their relative order. */
  lemma {:induction false} SortStable<T>(s: seq<T>, key: T -> Key, k: Key)
    ensures WithKey(Sort(s, key), key, k) == WithKey(s, key, k)
    decreases |s|
  {
    if s != [] {
      SortStable(s[..|s| - 1], key, k);
      InsertStable(Sort(s[..|s| - 1], key), s[|s| - 1], key, k);
    }
  }

  /** In a sorted sequence an element with a strictly smaller key comes first. */
  lemma SortedPrecedes<T>(s: seq<T>, key: T -> Key, i: int, j: int)
    requires SortedBy(s, key)
    requires 0 <= i < |s| && 0 <= j < |s|
    requires KeyLt(key(s[i]), key(s[j]))
    ensures i < j
  {
  }

  /** `f` applied to every element, in order. */
  function MapSeq<T, U>(s: seq<T>, f: T -> U): (r: seq<U>)
    ensures |r| == |s|
    ensures forall i :: 0 <= i < |s| ==> r[i] == f(s[i])
  {
    if s == [] then [] else MapSeq(s[..|s| - 1], f) + [f(s[|s| - 1])]
  }

  lemma {:induction false} InsertMapMultiset<T, U>(s: seq<T>, x: T, key: T -> Key, f: T -> U)
    ensures multiset(MapSeq(Insert(s, x, key), f)) == multiset(MapSeq(s, f)) + multiset{f(x)}
    decreases |s|
  {
    if s == [] {
    } else if KeyLt(key(x), key(s[|s| - 1])) {
      var p, last := s[..|s| - 1], s[|s| - 1];
      var q := Insert(p, x, key);
      InsertMapMultiset(p, x, key, f);
      assert (q + [last])[..|q|] == q;
      assert MapSeq(q + [last], f) == MapSeq(q, f) + [f(last)];
      assert MapSeq(s, f) == MapSeq(p, f) + [f(last)];
    } else {
      assert (s + [x])[..|s|] == s;
      assert MapSeq(s + [x], f) == MapSeq(s, f) + [f(x)];
    }
  }

  /** Taking one element out of a sequence takes one occurrence out of its multiset. */
  lemma RemoveOne<T>(t: seq<T>, i: nat)
    requires i < |t|
    ensures multiset(t[..i] + t[i + 1..]) + multiset{t[i]} == multiset(t)
  {
    assert t == t[..i] + [t[i]] + t[i + 1..];
  }

  /** Adding the same element to two multisets keeps them apart. */
  lemma AddOneCancels<T>(a: multiset<T>, b: multiset<T>, x: T)
    requires a + multiset{x} == b + multiset{x}
    ensures a == b
  {
    forall y ensures a[y] == b[y] {
      assert (a + multiset{x})[y] == (b + multiset{x})[y];
    }
  }

  /** A permutation of the elements permutes any projection of them too. */
  lemma {:induction false} PermutationMapMultiset<T, U>(s: seq<T>, t: seq<T>, f: T -> U)
    requires multiset(s) == multiset(t)
    ensures multiset(MapSeq(s, f)) == multiset(MapSeq(t, f))
    decreases |s|
  {
    if s != [] {
      var p, x := s[..|s| - 1], s[|s| - 1];
      assert s == p + [x] && p == s[..|s| - 1] + s[|s|..];
      assert x in multiset(t);
      var i :| 0 <= i < |t| && t[i] == x;
      var rest := t[..i] + t[i + 1..];
      RemoveOne(t, i);
      AddOneCancels(multiset(p), multiset(rest), x);
      PermutationMapMultiset(p, rest, f);
      MapRemoveOne(t, i, f);
      MapRemoveOne(s, |s| - 1, f);
    }
  }

  /** Mapping commutes with taking one element out. */
  lemma MapRemoveOne<T, U>(t: seq<T>, i: nat, f: T -> U)
    requires i < |t|
    ensures multiset(MapSeq(t[..i] + t[i + 1..], f)) + multiset{f(t[i])} == multiset(MapSeq(t, f))
  {
    var m := MapSeq(t, f);
    RemoveOne(m, i);
    var r := t[..i] + t[i + 1..];
    var mr := MapSeq(r, f);
    var expected := m[..i] + m[i + 1..];
    forall k | 0 <= k < |mr| ensures mr[k] == expected[k] {
      if k < i {
        assert r[k] == t[k];
      } else {
        assert r[k] == t[k + 1];
      }
    }
    assert mr == expected;
  }

  /** Sorting permutes any projection of the elements too. */
  lemma {:induction false} SortMapMultiset<T, U>(s: seq<T>, key: T -> Key, f: T -> U)
    ensures multiset(MapSeq(Sort(s, key), f)) == multiset(MapSeq(s, f))
    decreases |s|
  {
    if s != [] {
      var p := s[..|s| - 1];
      SortMapMultiset(p, key, f);
      InsertMapMultiset(Sort(p, key), s[|s| - 1], key, f);
    }
  }
}

/** Facts about sequences, multisets and counting used across the model. */
module Seqs {

  /** The sequence 0, 1, ..., n - 1. */
  function Range(n: nat): (r: seq<int>)
    ensures |r| == n
    ensures forall i :: 0 <= i < n ==> r[i] == i
  {
    seq(n, i => i)
  }

  /** A value found at two different positions is counted at least twice. */
  lemma TwoOccurrences<T>(s: seq<T>, i: int, j: int)
    requires 0 <= i < j < |s| && s[i] == s[j]
    ensures multiset(s)[s[i]] >= 2
  {
    assert s == s[..j] + s[j..];
    assert s[i] in multiset(s[..j]);
    assert s[j] == s[j..][0];
    assert s[j] in multiset(s[j..]);
  }

  /** A nondecreasing arrangement of 0..n-1 is 0..n-1 itself. */
  lemma {:induction false} SortedPermutationOfRange(t: seq<int>, n: nat)
    requires |t| == n
    requires forall i, j :: 0 <= i < j < n ==> t[i] <= t[j]
    requires multiset(t) == multiset(Range(n))
    ensures t == Range(n)
  {
    if n > 0 {
      var r := Range(n);
      var t', r' := t[..n - 1], Range(n - 1);
      assert t[n - 1] == n - 1 by {
        assert n - 1 in multiset(t) by {
          assert r[n - 1] == n - 1;
        }
        var j :| 0 <= j < n && t[j] == n - 1;
        assert t[n - 1] in multiset(r);
        assert t[n - 1] < n by {
          var k :| 0 <= k < n && r[k] == t[n - 1];
        }
      }
      assert multiset(t') == multiset(r') by {
        assert t == t' + [n - 1];
        assert r == r' + [n - 1];
        assert multiset(t) == multiset(t') + multiset{n - 1};
        assert multiset(r) == multiset(r') + multiset{n - 1};
        assert multiset(t') == multiset(t) - multiset{n - 1};
        assert multiset(r') == multiset(r) - multiset{n - 1};
      }
      SortedPermutationOfRange(t', n - 1);
    }
  }

  /** The sum of `h` over a finite set of keys. */
  ghost function SumOver<G>(keys: set<G>, h: G -> int): int
    decreases keys
  {
    if keys == {} then 0
    else
      var g :| g in keys;
      h(g) + SumOver(keys - {g}, h)
  }

  /** The sum does not depend on which key is taken out first. */
  lemma {:induction false} SumOverRemove<G>(keys: set<G>, h: G -> int, g: G)
    requires g in keys
    ensures SumOver(keys, h) == h(g) + SumOver(keys - {g}, h)
    decreases keys
  {
    var c :| c in keys && SumOver(keys, h) == h(c) + SumOver(keys - {c}, h);
    if c != g {
      SumOverRemove(keys - {c}, h, g);
      SumOverRemove(keys - {g}, h, c);
      assert keys - {c} - {g} == keys - {g} - {c};
    }
  }

  /** Functions that agree on the keys have the same sum. */
  lemma {:induction false} SumOverAgree<G>(keys: set<G>, h1: G -> int, h2: G -> int)
    requires forall g :: g in keys ==> h1(g) == h2(g)
    ensures SumOver(keys, h1) == SumOver(keys, h2)
    decreases keys
  {
    if keys != {} {
      var g :| g in keys;
      SumOverRemove(keys, h1, g);
      SumOverRemove(keys, h2, g);
      SumOverAgree(keys - {g}, h1, h2);
    }
  }

  /** Raising `h` by one at a single key raises the sum by one. */
  lemma SumOverBump<G>(keys: set<G>, h1: G -> int, h2: G -> int, k: G)
    requires k in keys && h2(k) == h1(k) + 1
    requires forall g :: g in keys && g != k ==> h1(g) == h2(g)
    ensures SumOver(keys, h2) == SumOver(keys, h1) + 1
  {
    SumOverRemove(keys, h1, k);
    SumOverRemove(keys, h2, k);
    SumOverAgree(keys - {k}, h1, h2);
  }

  /** A function that is zero on the keys sums to zero. */
  lemma {:induction false} SumOverZero<G>(keys: set<G>, h: G -> int)
    requires forall g :: g in keys ==> h(g) == 0
    ensures SumOver(keys, h) == 0
    decreases keys
  {
    if keys != {} {
      var g :| g in keys;
      SumOverRemove(keys, h, g);
      SumOverZero(keys - {g}, h);
    }
  }
}

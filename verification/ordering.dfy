/** Tile orderings: `ordering[newIndex] == oldIndex`, one entry per destination tile slot.
    This module holds what the rest of the model needs to know about such sequences:
    distinctness, the occurrence count that the validator's duplicate scan uses, the
    identity ordering, and the inverse of a permutation. */
module Ordering {

  /** No value occurs twice. */
  predicate NoDuplicates(s: seq<int>)
  {
    forall i, j :: 0 <= i < j < |s| ==> s[i] != s[j]
  }

  /** Every entry names a tile slot `0..n-1`. */
  predicate InRange(s: seq<int>, n: int)
  {
    forall k :: 0 <= k < |s| ==> 0 <= s[k] < n
  }

  /** A permutation of `0..|s|-1`. */
  predicate IsPermutation(s: seq<int>)
  {
    NoDuplicates(s) && InRange(s, |s|)
  }

  /** The number of occurrences of `v` in `s` (Python's `list.count`). */
  function Count(s: seq<int>, v: int): (c: nat)
    ensures c <= |s|
    ensures c == |s| ==> forall k :: 0 <= k < |s| ==> s[k] == v
  {
    if s == [] then 0 else (if s[0] == v then 1 else 0) + Count(s[1..], v)
  }

  /** The ordering that leaves every tile where it is: `[0, 1, ..., n-1]`. */
  function Identity(n: nat): (r: seq<int>)
    ensures |r| == n
    ensures forall k :: 0 <= k < n ==> r[k] == k
  {
    seq(n, k => k)
  }

  lemma {:induction false} CountAbsent(s: seq<int>, v: int)
    requires v !in s
    ensures Count(s, v) == 0
  {
    if s != [] {
      assert s[0] != v;
      assert v !in s[1..];
      CountAbsent(s[1..], v);
    }
  }

  lemma {:induction false} CountPresent(s: seq<int>, i: int)
    requires 0 <= i < |s|
    ensures Count(s, s[i]) >= 1
  {
    if i > 0 {
      assert s[1..][i - 1] == s[i];
      CountPresent(s[1..], i - 1);
    }
  }

  /** A value that sits at two different positions is counted at least twice. */
  lemma {:induction false} CountRepeated(s: seq<int>, i: int, j: int)
    requires 0 <= i < j < |s| && s[i] == s[j]
    ensures Count(s, s[i]) >= 2
  {
    if i == 0 {
      assert s[1..][j - 1] == s[j];
      CountPresent(s[1..], j - 1);
    } else {
      assert s[1..][i - 1] == s[i] && s[1..][j - 1] == s[j];
      CountRepeated(s[1..], i - 1, j - 1);
    }
  }

  /** In a sequence without duplicates every entry is counted exactly once. */
  lemma {:induction false} CountDistinct(s: seq<int>, i: int)
    requires NoDuplicates(s) && 0 <= i < |s|
    ensures Count(s, s[i]) == 1
  {
    if i == 0 {
      assert s[0] !in s[1..] by {
        forall k | 0 <= k < |s| - 1 ensures s[1..][k] != s[0] {
          assert s[1..][k] == s[k + 1];
        }
      }
      CountAbsent(s[1..], s[0]);
    } else {
      assert s[1..][i - 1] == s[i];
      assert s[0] != s[i];
      CountDistinct(s[1..], i - 1);
    }
  }

  /** The duplicate scan `ordering.count(order) > 1` over every entry agrees with
      pairwise distinctness, in both directions. */
  lemma CountScanDetectsDuplicates(s: seq<int>)
    ensures NoDuplicates(s) <==> forall k :: 0 <= k < |s| ==> Count(s, s[k]) <= 1
  {
    if NoDuplicates(s) {
      forall k | 0 <= k < |s| ensures Count(s, s[k]) <= 1 {
        CountDistinct(s, k);
      }
    } else {
      var i, j :| 0 <= i < j < |s| && s[i] == s[j];
      CountRepeated(s, i, j);
    }
  }

  /** The position of the first occurrence of `v` in `s`. */
  function IndexOf(s: seq<int>, v: int): (r: nat)
    requires v in s
    ensures r < |s| && s[r] == v
    ensures v !in s[..r]
  {
    if s[0] == v then 0 else 1 + IndexOf(s[1..], v)
  }

  lemma {:induction false} DistinctValuesCardinality(s: seq<int>)
    requires NoDuplicates(s)
    ensures |set v | v in s| == |s|
  {
    if s != [] {
      var init := s[..|s| - 1];
      assert (set v | v in s) == (set v | v in init) + {s[|s| - 1]};
      assert s[|s| - 1] !in init;
      DistinctValuesCardinality(init);
    }
  }

  /** Pigeonhole: a duplicate-free ordering of length `n` whose entries all lie in
      `0..n-1` uses every slot, so it is a permutation in the full sense. */
  lemma PermutationCovers(s: seq<int>)
    requires IsPermutation(s)
    ensures forall v :: 0 <= v < |s| ==> v in s
  {
    var values := set v | v in s;
    var slots := set v | v in Identity(|s|);
    DistinctValuesCardinality(s);
    DistinctValuesCardinality(Identity(|s|));
    forall v | 0 <= v < |s| ensures v in s {
      assert Identity(|s|)[v] == v;
      if v !in s {
        forall x | x in values ensures x in slots - {v} {
          assert Identity(|s|)[x] == x;
        }
        SubsetCardinality(values, slots - {v});
        assert false;
      }
    }
  }

  lemma SubsetCardinality(a: set<int>, b: set<int>)
    requires a <= b
    ensures |a| <= |b|
  {
    assert b == a + (b - a);
  }

  /** The inverse permutation: `Inverse(s)[oldIndex] == newIndex`. */
  function Inverse(s: seq<int>): (r: seq<int>)
    requires IsPermutation(s)
    ensures |r| == |s| && IsPermutation(r)
    ensures forall k :: 0 <= k < |s| ==> r[s[k]] == k
    ensures forall d :: 0 <= d < |s| ==> s[r[d]] == d
  {
    PermutationCovers(s);
    var r := seq(|s|, d requires 0 <= d < |s| => IndexOf(s, d));
    assert forall k :: 0 <= k < |s| ==> r[s[k]] == k by {
      forall k | 0 <= k < |s| ensures r[s[k]] == k {
        var j := r[s[k]];
        assert s[j] == s[k];
      }
    }
    r
  }
}

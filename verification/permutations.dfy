/** Index sequences: range, distinctness, permutations of 0..n-1, and the
    counting facts (pigeonhole, multisets) the tour proofs rest on. */
module Permutations {

  /** Every entry of `s` is an index below `n`. */
  ghost predicate InRange(s: seq<nat>, n: nat) {
    forall p :: 0 <= p < |s| ==> s[p] < n
  }

  /** No index occurs twice in `s`. */
  ghost predicate Distinct(s: seq<nat>) {
    forall p, q :: 0 <= p < q < |s| ==> s[p] != s[q]
  }

  /** `s` visits each of 0..n-1 exactly once. */
  ghost predicate IsPermutation(s: seq<nat>, n: nat) {
    |s| == n && InRange(s, n) && Distinct(s)
  }

  /** The identity tour 0, 1, ..., n-1. */
  function Iota(n: nat): seq<nat> {
    seq(n, p => p)
  }

  ghost function Elements(s: seq<nat>): set<nat> {
    set x | x in s
  }

  ghost function Below(n: nat): set<nat> {
    Elements(Iota(n))
  }

  lemma {:induction false} DistinctElements(s: seq<nat>)
    requires Distinct(s)
    ensures |Elements(s)| == |s|
  {
    if |s| > 0 {
      var init := s[..|s| - 1];
      assert Distinct(init);
      DistinctElements(init);
      assert Elements(s) == Elements(init) + {s[|s| - 1]};
      assert s[|s| - 1] !in Elements(init);
    }
  }

  lemma BelowCard(n: nat)
    ensures |Below(n)| == n
    ensures forall j :: 0 <= j < n <==> j in Below(n)
  {
    assert Distinct(Iota(n));
    DistinctElements(Iota(n));
    forall j | 0 <= j < n
      ensures j in Below(n)
    {
      assert Iota(n)[j] == j;
    }
  }

  lemma SubsetCard(a: set<nat>, b: set<nat>)
    requires a <= b
    ensures |a| <= |b|
    ensures |a| == |b| ==> a == b
  {
    var rest := b - a;
    assert b == a + rest;
    assert a * rest == {};
    if |a| == |b| {
      assert |rest| == 0;
    }
  }

  /** Pigeonhole: a repetition-free tour over 0..n-1 that is shorter than n
      misses some index, and one of length n covers every index. */
  lemma Pigeonhole(s: seq<nat>, n: nat)
    requires InRange(s, n) && Distinct(s)
    ensures |s| <= n
    ensures |s| == n ==> forall j :: 0 <= j < n ==> j in s
    ensures |s| < n ==> exists j :: 0 <= j < n && j !in s
  {
    DistinctElements(s);
    BelowCard(n);
    assert Elements(s) <= Below(n);
    SubsetCard(Elements(s), Below(n));
    if |s| == n {
      forall j | 0 <= j < n
        ensures j in s
      {
        assert j in Below(n);
      }
    }
    if |s| < n {
      var missing := Below(n) - Elements(s);
      assert Elements(s) != Below(n);
      if missing == {} {
        forall x | x in Below(n)
          ensures x in Elements(s)
        {
          assert x !in missing;
        }
      }
      var j :| j in missing;
      assert 0 <= j < n && j !in s;
    }
  }

  /** A permutation of 0..n-1 holds exactly the indices of the identity tour. */
  lemma {:induction false} PermutationMultiset(s: seq<nat>, n: nat)
    requires IsPermutation(s, n)
    ensures multiset(s) == multiset(Iota(n))
  {
    if n == 0 {
      assert s == [];
    } else {
      var p := FindLargest(s, n);
      var rest := s[..p] + s[p + 1..];
      RemoveLargest(s, n, p);
      PermutationMultiset(rest, n - 1);
      PutBackLargest(s, p, n - 1);
    }
  }

  /** Putting m back into a tour that holds exactly 0..m-1 gives one that holds 0..m. */
  lemma PutBackLargest(s: seq<nat>, p: nat, m: nat)
    requires p < |s| && s[p] == m
    requires multiset(s[..p] + s[p + 1..]) == multiset(Iota(m))
    ensures multiset(s) == multiset(Iota(m + 1))
  {
    RemoveAtMultiset(s, p);
    IotaSnoc(m);
  }

  /** The identity tour on n + 1 points adds n to the one on n points. */
  lemma IotaSnoc(n: nat)
    ensures multiset(Iota(n + 1)) == multiset(Iota(n)) + multiset{n}
  {
    assert Iota(n + 1) == Iota(n) + [n];
  }

  /** The position of n-1 in a permutation of 0..n-1. */
  lemma FindLargest(s: seq<nat>, n: nat) returns (p: nat)
    requires IsPermutation(s, n) && n > 0
    ensures p < |s| && s[p] == n - 1
  {
    Pigeonhole(s, n);
    assert n - 1 in s;
    p :| 0 <= p < |s| && s[p] == n - 1;
  }

  /** Removing the largest index from a permutation of 0..n-1 leaves one of 0..n-2. */
  lemma RemoveLargest(s: seq<nat>, n: nat, p: nat)
    requires IsPermutation(s, n) && n > 0
    requires p < |s| && s[p] == n - 1
    ensures IsPermutation(s[..p] + s[p + 1..], n - 1)
  {
    var rest := s[..p] + s[p + 1..];
    assert forall q :: 0 <= q < |rest| ==> rest[q] == (if q < p then s[q] else s[q + 1]);
    forall q | 0 <= q < |rest|
      ensures rest[q] < n - 1
    {
      if q < p {
        assert s[q] != s[p];
      } else {
        assert s[q + 1] != s[p];
      }
    }
    forall q, r | 0 <= q < r < |rest|
      ensures rest[q] != rest[r]
    {
      var q' := if q < p then q else q + 1;
      var r' := if r < p then r else r + 1;
      assert q' < r';
    }
  }

  /** In a repetition-free sequence every value occurs at most once. */
  lemma {:induction false} DistinctCount(s: seq<nat>, v: nat)
    requires Distinct(s)
    ensures multiset(s)[v] <= 1
  {
    if |s| > 0 {
      var init := s[..|s| - 1];
      assert Distinct(init);
      DistinctCount(init, v);
      assert s == init + [s[|s| - 1]];
      if s[|s| - 1] == v {
        assert v !in init;
      }
    }
  }

  /** Two positions holding the same value make it occur at least twice. */
  lemma RepeatCount(s: seq<nat>, p: nat, q: nat)
    requires p < q < |s| && s[p] == s[q]
    ensures multiset(s)[s[p]] >= 2
  {
    assert s == s[..p] + [s[p]] + s[p + 1..q] + [s[q]] + s[q + 1..];
  }

  /** Reordering a permutation (same multiset of indices) gives a permutation. */
  lemma MultisetKeepsPermutation(a: seq<nat>, b: seq<nat>, n: nat)
    requires IsPermutation(a, n)
    requires multiset(a) == multiset(b)
    ensures IsPermutation(b, n)
  {
    PermutationMultiset(a, n);
    assert |b| == |multiset(b)| == |multiset(a)| == n;
    forall p | 0 <= p < |b|
      ensures b[p] < n
    {
      assert b[p] in multiset(b);
      assert b[p] in multiset(Iota(n));
    }
    assert Distinct(Iota(n));
    forall p, q | 0 <= p < q < |b|
      ensures b[p] != b[q]
    {
      if b[p] == b[q] {
        RepeatCount(b, p, q);
        DistinctCount(Iota(n), b[p]);
      }
    }
  }

  /** Dropping position j removes exactly one copy of its value. */
  lemma RemoveAtMultiset<T>(s: seq<T>, j: nat)
    requires j < |s|
    ensures multiset(s[..j] + s[j + 1..]) == multiset(s) - multiset{s[j]}
    ensures multiset(s) == multiset(s[..j] + s[j + 1..]) + multiset{s[j]}
  {
    assert s == s[..j] + [s[j]] + s[j + 1..];
  }

  /** Where two sequences hold the same multiset, the head of the first occurs
      in the second, and dropping both occurrences keeps the multisets equal. */
  lemma MatchHead<T>(a: seq<T>, b: seq<T>) returns (j: nat)
    requires |a| > 0 && multiset(a) == multiset(b)
    ensures j < |b| && b[j] == a[0]
    ensures multiset(a[1..]) == multiset(b[..j] + b[j + 1..])
  {
    assert a == [a[0]] + a[1..];
    assert multiset(a) == multiset{a[0]} + multiset(a[1..]);
    assert a[0] in multiset(b);
    j :| 0 <= j < |b| && b[j] == a[0];
    RemoveAtMultiset(b, j);
  }
}

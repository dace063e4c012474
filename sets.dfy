/** Facts about finite sets and permutations shared by the counting proofs. */
module Sets {

  /** A subset is no larger than its superset. */
  lemma SubsetCard<T>(a: set<T>, b: set<T>)
    requires a <= b
    ensures |a| <= |b|
  {
    assert b == a + (b - a);
  }

  /** p is a rearrangement of range(n). */
  predicate IsPermutation(p: seq<int>, n: int)
  {
    && |p| == n
    && (forall k :: 0 <= k < |p| ==> 0 <= p[k] < n)
    && (forall k1, k2 :: 0 <= k1 < k2 < |p| ==> p[k1] != p[k2])
  }

  /** A sequence without repetitions has as many distinct elements as entries. */
  lemma {:induction false} DistinctCard<T>(s: seq<T>)
    requires forall k1, k2 :: 0 <= k1 < k2 < |s| ==> s[k1] != s[k2]
    ensures |set k | k in s| == |s|
  {
    if s != [] {
      var t := s[..|s| - 1];
      DistinctCard(t);
      assert (set k | k in s) == (set k | k in t) + {s[|s| - 1]};
      assert s[|s| - 1] !in t;
    }
  }
}

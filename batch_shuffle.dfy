/**
 * `batch_shuffle_single_gpu` and `batch_unshuffle_single_gpu`: the batch is
 * reordered by a random permutation idx_shuffle (a parameter here), and
 * `idx_unshuffle = argsort(idx_shuffle)` restores the original order.
 */
module BatchShuffle {
  import opened Sets

  /** x[idx]: the rows of x picked out in the order idx lists them. */
  function Gather<T>(x: seq<T>, idx: seq<int>): (r: seq<T>)
    requires forall i :: 0 <= i < |idx| ==> 0 <= idx[i] < |x|
    ensures |r| == |idx|
  {
    seq(|idx|, i requires 0 <= i < |idx| => x[idx[i]])
  }

  /** The position of the first occurrence of v in p. */
  function IndexOf(p: seq<int>, v: int): (i: nat)
    requires v in p
    ensures i < |p| && p[i] == v
    ensures forall j :: 0 <= j < i ==> p[j] != v
  {
    if p[0] == v then 0 else 1 + IndexOf(p[1..], v)
  }

  /** Every value below |p| occurs in a permutation p. */
  lemma {:induction false} PermutationCovers(p: seq<int>, v: int)
    requires IsPermutation(p, |p|) && 0 <= v < |p|
    ensures v in p
  {
    // the values of p are |p| distinct members of range(|p|), so they are all of it
    var vals := set k | k in p;
    assert |vals| == |p| by { DistinctCard(p); }
    var others := Range(|p|) - {v};
    if v !in p {
      assert vals <= others;
      SubsetCard(vals, others);
      assert false;
    }
  }

  /** The set {0, ..., n-1}. */
  function Range(n: nat): (r: set<int>)
    ensures forall w :: w in r <==> 0 <= w < n
    ensures |r| == n
  {
    if n == 0 then {} else Range(n - 1) + {n - 1}
  }

  /** torch.argsort of a permutation: slot v holds the index at which p holds v. */
  function Argsort(p: seq<int>): (r: seq<int>)
    requires IsPermutation(p, |p|)
    ensures |r| == |p|
  {
    seq(|p|, v requires 0 <= v < |p| => (PermutationCovers(p, v); IndexOf(p, v)))
  }

  /** argsort(p) is itself a permutation, and it orders p ascending: p[argsort(p)] is 0, 1, ..., n-1. */
  lemma ArgsortSorts(p: seq<int>)
    requires IsPermutation(p, |p|)
    ensures IsPermutation(Argsort(p), |p|)
    ensures Gather(p, Argsort(p)) == seq(|p|, v => v)
  {
    var a := Argsort(p);
    forall v, w | 0 <= v < w < |a|
      ensures a[v] != a[w]
    {
      assert p[a[v]] == v && p[a[w]] == w;
    }
  }

  /**
   * Argsort is the only permutation that sorts p: any permutation s that
   * lists p's values in increasing order is argsort(p).
   */
  lemma ArgsortUnique(p: seq<int>, s: seq<int>)
    requires IsPermutation(p, |p|) && IsPermutation(s, |s|) && |s| == |p|
    requires forall i, j :: 0 <= i < j < |s| ==> p[s[i]] < p[s[j]]
    ensures s == Argsort(p)
  {
    var g := Gather(p, s);
    forall v | 0 <= v < |s|
      ensures s[v] == Argsort(p)[v]
    {
      AtLeastIndex(g, v);
      IncreasingFromAbove(g, v);
      assert p[s[v]] == v;
      assert p[Argsort(p)[v]] == v;
    }
  }

  /** A strictly increasing sequence of naturals has g[j] >= j. */
  lemma {:induction false} AtLeastIndex(g: seq<int>, j: nat)
    requires forall a, b :: 0 <= a < b < |g| ==> g[a] < g[b]
    requires forall a :: 0 <= a < |g| ==> 0 <= g[a]
    requires j < |g|
    ensures g[j] >= j
  {
    if j > 0 {
      AtLeastIndex(g, j - 1);
    }
  }

  /** A strictly increasing sequence with values below its length has g[j] <= j. */
  lemma {:induction false} IncreasingFromAbove(g: seq<int>, j: nat)
    requires forall a, b :: 0 <= a < b < |g| ==> g[a] < g[b]
    requires forall a :: 0 <= a < |g| ==> g[a] < |g|
    requires j < |g|
    ensures g[j] <= j
    decreases |g| - j
  {
    if j < |g| - 1 {
      IncreasingFromAbove(g, j + 1);
      // now g[j] < g[j + 1] <= j + 1, and the bound for the last index is |g| - 1
    }
  }

  /** x[idx_shuffle] together with the index that restores it. */
  function BatchShuffleSingleGpu<T>(x: seq<T>, idxShuffle: seq<int>): (r: (seq<T>, seq<int>))
    requires IsPermutation(idxShuffle, |idxShuffle|) && |idxShuffle| == |x|
    ensures |r.0| == |x| && IsPermutation(r.1, |x|)
  {
    ArgsortSorts(idxShuffle);
    (Gather(x, idxShuffle), Argsort(idxShuffle))
  }

  /** x[idx_unshuffle] */
  function BatchUnshuffleSingleGpu<T>(x: seq<T>, idxUnshuffle: seq<int>): (r: seq<T>)
    requires forall i :: 0 <= i < |idxUnshuffle| ==> 0 <= idxUnshuffle[i] < |x|
    ensures |r| == |idxUnshuffle|
    ensures forall i :: 0 <= i < |r| ==> r[i] in x
  {
    Gather(x, idxUnshuffle)
  }

  /** Unshuffling with the index that shuffling returned gives back the batch. */
  lemma UnshuffleRoundTrip<T>(x: seq<T>, idxShuffle: seq<int>)
    requires IsPermutation(idxShuffle, |idxShuffle|) && |idxShuffle| == |x|
    ensures var (shuffled, idxUnshuffle) := BatchShuffleSingleGpu(x, idxShuffle);
            BatchUnshuffleSingleGpu(shuffled, idxUnshuffle) == x
  {
    var a := Argsort(idxShuffle);
    var shuffled := Gather(x, idxShuffle);
    forall v | 0 <= v < |x|
      ensures Gather(shuffled, a)[v] == x[v]
    {
      assert idxShuffle[a[v]] == v;
    }
  }

  /** The other order also restores the batch: the two indexes are mutually inverse. */
  lemma ShuffleAfterUnshuffle<T>(x: seq<T>, idxShuffle: seq<int>)
    requires IsPermutation(idxShuffle, |idxShuffle|) && |idxShuffle| == |x|
    ensures Gather(Gather(x, Argsort(idxShuffle)), idxShuffle) == x
  {
    var a := Argsort(idxShuffle);
    ArgsortSorts(idxShuffle);
    forall i | 0 <= i < |x|
      ensures Gather(Gather(x, a), idxShuffle)[i] == x[i]
    {
      var v := idxShuffle[i];
      assert idxShuffle[a[v]] == v;
    }
  }
}

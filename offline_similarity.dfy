/**
 * OfflineItemSimilarity's use of a loaded similarity dictionary: the
 * minimum and maximum score scan, and most_similar without scores.
 *
 * A Python dict is an association list in insertion order; dict.items()
 * walks it front to back. A Python dict has distinct keys; the model does not
 * require that, and Lookup returns the first entry with the key, which is the
 * only one when the keys are distinct. Keys of the loaded dictionary
 * may be strings or ints, so both are kept apart as in Python: the str key
 * "7" and the int key 7 are different keys.
 */
module OfflineSimilarity {
  import opened Results
  import opened PyText

  datatype Key = Str(s: string) | Int(i: int)

  /** One item's neighbour dictionary: neighbour key and similarity score. */
  type Neighbours = seq<(Key, real)>

  /** The outer dictionary: item key to its neighbour dictionary. */
  type SimilarityModel = seq<(Key, Neighbours)>

  datatype SimilarityError =
    | NotAnInteger(key: Key)               // int(x) raised ValueError
    | SampleOutOfRange(k: int, size: nat)  // random.sample with k < 0 or k > size

  /** d[k] if k in d */
  function Lookup<V>(d: seq<(Key, V)>, k: Key): (r: Option<V>)
    ensures r.None? <==> forall j :: 0 <= j < |d| ==> d[j].0 != k
    ensures r.Some? ==> exists j :: 0 <= j < |d| && d[j] == (k, r.value)
  {
    if d == [] then None
    else if d[0].0 == k then Some(d[0].1)
    else
      var r := Lookup(d[1..], k);
      assert r.Some? ==> exists j :: 0 <= j < |d[1..]| && d[1..][j] == (k, r.value);
      r
  }

  /** int(x) for a dictionary key. */
  function KeyToInt(k: Key): Option<int>
  {
    match k
    case Int(i) => Some(i)
    case Str(s) => ParseInt(s)
  }

  /** list(map(int, keys)): the first key int() rejects raises. */
  function ToInts(keys: seq<Key>): (r: Result<seq<int>, SimilarityError>)
    ensures r.Ok? <==> forall j :: 0 <= j < |keys| ==> KeyToInt(keys[j]).Some?
    ensures r.Ok? ==> |r.value| == |keys| && forall j :: 0 <= j < |keys| ==> KeyToInt(keys[j]) == Some(r.value[j])
    ensures r.Err? ==> exists j :: 0 <= j < |keys| && KeyToInt(keys[j]).None? && r.error == NotAnInteger(keys[j])
  {
    if keys == [] then Ok([])
    else match KeyToInt(keys[0])
      case None => Err(NotAnInteger(keys[0]))
      case Some(v) =>
        match ToInts(keys[1..])
        case Err(e) =>
          assert exists j :: 0 <= j < |keys[1..]| && KeyToInt(keys[1..][j]).None? && e == NotAnInteger(keys[1..][j]);
          Err(e)
        case Ok(vs) =>
          assert forall j :: 0 < j < |keys| ==> keys[j] == keys[1..][j - 1];
          Ok([v] + vs)
  }

  function KeysOf(nb: Neighbours): seq<Key>
  {
    seq(|nb|, j requires 0 <= j < |nb| => nb[j].0)
  }

  // ---------------------------------------------------------------------------
  // sorted(items, key=lambda x: x[1], reverse=True)

  predicate SortedDesc(s: Neighbours)
  {
    forall a, b :: 0 <= a < b < |s| ==> s[a].1 >= s[b].1
  }

  /**
   * Puts x in front of the first entry whose score is not above its own, so
   * that x, which came first in the input, stays before entries that tie with it.
   */
  function Insert(x: (Key, real), s: Neighbours): Neighbours
  {
    if s == [] || s[0].1 <= x.1 then [x] + s else [s[0]] + Insert(x, s[1..])
  }

  /** A stable sort by descending score, as sorted(..., reverse=True) is. */
  function SortByScore(s: Neighbours): Neighbours
  {
    if s == [] then [] else Insert(s[0], SortByScore(s[1..]))
  }

  /** The entries of s scoring exactly v, in their order in s. */
  function WithScore(s: Neighbours, v: real): Neighbours
  {
    if s == [] then [] else (if s[0].1 == v then [s[0]] else []) + WithScore(s[1..], v)
  }

  lemma {:induction false} InsertPermutes(x: (Key, real), s: Neighbours)
    ensures multiset(Insert(x, s)) == multiset{x} + multiset(s)
  {
    if s != [] && s[0].1 > x.1 {
      InsertPermutes(x, s[1..]);
      assert s == [s[0]] + s[1..];
    }
  }

  lemma {:induction false} InsertSorted(x: (Key, real), s: Neighbours)
    requires SortedDesc(s)
    ensures SortedDesc(Insert(x, s))
  {
    if s == [] || s[0].1 <= x.1 {
      forall b | 0 <= b < |s|
        ensures x.1 >= s[b].1
      {
        assert s[0].1 >= s[b].1;
      }
      ConsSorted(x, s);
    } else {
      var t := Insert(x, s[1..]);
      InsertSorted(x, s[1..]);
      InsertPermutes(x, s[1..]);
      forall b | 0 <= b < |t|
        ensures s[0].1 >= t[b].1
      {
        assert t[b] in multiset(t);
        if t[b] != x {
          assert t[b] in multiset(s[1..]);
          var c :| 0 <= c < |s[1..]| && s[1..][c] == t[b];
          assert s[c + 1] == t[b];
        }
      }
      ConsSorted(s[0], t);
    }
  }

  /** An entry scoring at least everything of a sorted sequence can go in front of it. */
  lemma ConsSorted(h: (Key, real), t: Neighbours)
    requires SortedDesc(t) && forall b :: 0 <= b < |t| ==> h.1 >= t[b].1
    ensures SortedDesc([h] + t)
  {
    var r := [h] + t;
    forall a, b | 0 <= a < b < |r|
      ensures r[a].1 >= r[b].1
    {
      assert r[b] == t[b - 1];
      if a > 0 {
        assert r[a] == t[a - 1];
      }
    }
  }

  lemma {:induction false} InsertStable(x: (Key, real), s: Neighbours, v: real)
    ensures WithScore(Insert(x, s), v) == WithScore([x], v) + WithScore(s, v)
  {
    if s == [] || s[0].1 <= x.1 {
      assert ([x] + s)[1..] == s;
    } else {
      InsertStable(x, s[1..], v);
      assert ([s[0]] + Insert(x, s[1..]))[1..] == Insert(x, s[1..]);
    }
  }

  /** The result is ordered by score and holds exactly the input entries. */
  lemma {:induction false} SortByScoreSpec(s: Neighbours)
    ensures SortedDesc(SortByScore(s))
    ensures multiset(SortByScore(s)) == multiset(s)
  {
    if s != [] {
      SortByScoreSpec(s[1..]);
      InsertSorted(s[0], SortByScore(s[1..]));
      InsertPermutes(s[0], SortByScore(s[1..]));
      assert s == [s[0]] + s[1..];
    }
  }

  /** Stability: entries that tie keep their dictionary order. */
  lemma {:induction false} SortByScoreStable(s: Neighbours, v: real)
    ensures WithScore(SortByScore(s), v) == WithScore(s, v)
  {
    if s != [] {
      SortByScoreStable(s[1..], v);
      InsertStable(s[0], SortByScore(s[1..]), v);
    }
  }

  // ---------------------------------------------------------------------------
  // most_similar

  /** Python's s[0:k], for any int k. */
  function Prefix<T>(s: seq<T>, k: int): (r: seq<T>)
    ensures |r| == if k >= 0 then (if k < |s| then k else |s|) else (if |s| + k > 0 then |s| + k else 0)
    ensures r == s[..|r|]
  {
    if k >= 0 then s[..if k < |s| then k else |s|]
    else s[..if |s| + k > 0 then |s| + k else 0]
  }

  function TopNeighbours(nb: Neighbours, topK: int): Neighbours
  {
    Prefix(SortByScore(nb), topK)
  }

  /**
   * The top_k result: the right number of entries, in descending score
   * order, each entry taken from the neighbours, and no neighbour left out
   * scores above a neighbour taken.
   */
  lemma TopNeighboursSpec(nb: Neighbours, topK: int)
    ensures var top := TopNeighbours(nb, topK);
      && |top| == (if topK >= 0 then (if topK < |nb| then topK else |nb|) else (if |nb| + topK > 0 then |nb| + topK else 0))
      && SortedDesc(top)
      && multiset(top) <= multiset(nb)
      && forall e, a :: e in nb && multiset(top)[e] < multiset(nb)[e] && a in top ==> a.1 >= e.1
  {
    var sorted := SortByScore(nb);
    SortByScoreSpec(nb);
    var top := TopNeighbours(nb, topK);
    var rest := sorted[|top|..];
    assert sorted == top + rest;
    assert multiset(sorted) == multiset(top) + multiset(rest);
    SortedPrefix(sorted, |top|);
    forall e, a | e in nb && multiset(top)[e] < multiset(nb)[e] && a in top
      ensures a.1 >= e.1
    {
      assert e in multiset(rest);
      SortedSplit(sorted, |top|, a, e);
    }
  }

  lemma SortedPrefix(s: Neighbours, n: nat)
    requires n <= |s| && SortedDesc(s)
    ensures SortedDesc(s[..n])
  {
    forall a, b | 0 <= a < b < n
      ensures s[..n][a].1 >= s[..n][b].1
    {
      assert s[..n][a] == s[a] && s[..n][b] == s[b];
    }
  }

  /** In a sorted sequence, what comes before position n scores at least what comes after. */
  lemma SortedSplit(s: Neighbours, n: nat, a: (Key, real), e: (Key, real))
    requires n <= |s| && SortedDesc(s)
    requires a in s[..n] && e in s[n..]
    ensures a.1 >= e.1
  {
    var i :| 0 <= i < n && s[..n][i] == a;
    var j :| 0 <= j < |s| - n && s[n..][j] == e;
    assert s[i] == a && s[n + j] == e;
  }

  /** The neighbour dictionary most_similar consults: str(item) first, then int(item). */
  function NeighboursOf(model: SimilarityModel, item: int): Option<Neighbours>
  {
    match Lookup(model, Str(Decimal(item)))
    case Some(nb) => Some(nb)
    case None => Lookup(model, Int(item))
  }

  /** A draw of random.sample(range(n), k): k distinct positions below n. */
  predicate IsSample(sample: seq<nat>, k: int, n: nat)
  {
    && |sample| == k
    && (forall j :: 0 <= j < |sample| ==> sample[j] < n)
    && (forall a, b :: 0 <= a < b < |sample| ==> sample[a] != sample[b])
  }

  /**
   * most_similar(item, top_k) with with_score False, for the ItemCF,
   * ItemCF_IUF, Item2Vec and LightGCN variants. The random draw of the
   * fallback is the argument sample, positions into the dict's key list.
   */
  function MostSimilar(model: SimilarityModel, item: int, topK: int, sample: seq<nat>): (r: Result<seq<int>, SimilarityError>)
    requires 0 <= topK <= |model| ==> IsSample(sample, topK, |model|)
    ensures r.Ok? && topK >= 0 ==> |r.value| <= topK
    ensures r.Ok? && NeighboursOf(model, item).None? ==> |r.value| == topK
  {
    match NeighboursOf(model, item)
    case Some(nb) => ToInts(KeysOf(TopNeighbours(nb, topK)))
    case None =>
      if topK < 0 || topK > |model| then Err(SampleOutOfRange(topK, |model|))
      else ToInts(seq(topK, j requires 0 <= j < topK => model[sample[j]].0))
  }

  /** Both ways of finding the item, with the str key taking precedence. */
  lemma NeighboursOfSpec(model: SimilarityModel, item: int)
    ensures NeighboursOf(model, item).None? <==>
      forall j :: 0 <= j < |model| ==> model[j].0 != Str(Decimal(item)) && model[j].0 != Int(item)
    ensures (exists j :: 0 <= j < |model| && model[j].0 == Str(Decimal(item))) ==>
      NeighboursOf(model, item) == Lookup(model, Str(Decimal(item)))
    ensures (forall j :: 0 <= j < |model| ==> model[j].0 != Str(Decimal(item))) ==>
      NeighboursOf(model, item) == Lookup(model, Int(item))
  {
  }

  /**
   * An item with a neighbour dictionary gets the ints of its top entries, in
   * descending score order; it fails only when one of those keys is not an
   * integer.
   */
  lemma MostSimilarKnown(model: SimilarityModel, item: int, topK: int, sample: seq<nat>, nb: Neighbours)
    requires 0 <= topK <= |model| ==> IsSample(sample, topK, |model|)
    requires NeighboursOf(model, item) == Some(nb)
    ensures var top := TopNeighbours(nb, topK); var r := MostSimilar(model, item, topK, sample);
      && (r.Ok? <==> forall j :: 0 <= j < |top| ==> KeyToInt(top[j].0).Some?)
      && (r.Ok? ==> |r.value| == |top| && forall j :: 0 <= j < |top| ==> KeyToInt(top[j].0) == Some(r.value[j]))
      && (topK >= 0 ==> |top| == if topK < |nb| then topK else |nb|)
  {
    TopNeighboursSpec(nb, topK);
    var top := TopNeighbours(nb, topK);
    var keys := KeysOf(top);
    assert MostSimilar(model, item, topK, sample) == ToInts(keys);
    assert forall j :: 0 <= j < |top| ==> keys[j] == top[j].0;
  }

  /**
   * An unknown item gets top_k random keys of the dictionary: ValueError when
   * top_k is negative or above the number of keys, else one key per drawn position.
   */
  lemma MostSimilarUnknown(model: SimilarityModel, item: int, topK: int, sample: seq<nat>)
    requires 0 <= topK <= |model| ==> IsSample(sample, topK, |model|)
    requires NeighboursOf(model, item).None?
    ensures var r := MostSimilar(model, item, topK, sample);
      && ((topK < 0 || topK > |model|) <==> r == Err(SampleOutOfRange(topK, |model|)))
      && (r.Ok? ==> |r.value| == topK && forall j :: 0 <= j < topK ==> KeyToInt(model[sample[j]].0) == Some(r.value[j]))
      && (0 <= topK <= |model| ==> (r.Ok? <==> forall j :: 0 <= j < topK ==> KeyToInt(model[sample[j]].0).Some?))
  {
    if 0 <= topK <= |model| {
      var keys := seq(topK, j requires 0 <= j < topK => model[sample[j]].0);
      var r := ToInts(keys);
      if r.Err? {
        var j :| 0 <= j < |keys| && r.error == NotAnInteger(keys[j]);
      }
    }
  }

  /**
   * The fallback can return the very item asked about: a dictionary whose
   * only key is "07" knows neither str(7) nor 7, and its random pick is 7.
   */
  lemma UnknownItemCanBeItsOwnNeighbour()
    ensures MostSimilar([(Str("07"), [])], 7, 1, [0]) == Ok([7])
  {
    var model: SimilarityModel := [(Str("07"), [])];
    assert Decimal(7) == "7";
    assert NeighboursOf(model, 7).None?;
    assert ParseInt("07") == Some(7) by {
      assert Strip("07") == "07";
      assert "07"[1..] == "7";
      assert "07"[..1] == "0";
      assert DigitsValue("0") == 0 by {
        assert "0"[..0] == "";
      }
      assert DigitsValue("07") == DigitsValue("0") * 10 + 7;
      assert AllDigits("07") && "07"[0] != '-' && "07"[0] != '+';
    }
    var keys := seq(1, j requires 0 <= j < 1 => model[[0][j]].0);
    assert keys == [Str("07")];
    assert ToInts(keys) == Ok([7]) by {
      assert KeyToInt(keys[0]) == Some(7);
      assert keys[1..] == [];
      assert ToInts(keys[1..]) == Ok([]);
      assert [7] + [] == [7];
    }
  }

  // ---------------------------------------------------------------------------
  // get_maximum_minimum_sim_scores

  /** True when some neighbour of some item has score v. */
  ghost predicate Attained(model: SimilarityModel, v: real)
  {
    exists e, k :: 0 <= e < |model| && 0 <= k < |model[e].1| && model[e].1[k].1 == v
  }

  /**
   * The largest and smallest score in the dictionary, starting from -1 and
   * 100: each bound holds every score, and is either a score or its start value.
   */
  method MaxMinScores(model: SimilarityModel) returns (maxScore: real, minScore: real)
    ensures maxScore >= -1.0 && minScore <= 100.0
    ensures forall e, k :: 0 <= e < |model| && 0 <= k < |model[e].1| ==>
      minScore <= model[e].1[k].1 <= maxScore
    ensures maxScore == -1.0 || Attained(model, maxScore)
    ensures minScore == 100.0 || Attained(model, minScore)
  {
    maxScore, minScore := -1.0, 100.0;
    var e := 0;
    while e < |model|
      invariant 0 <= e <= |model|
      invariant maxScore >= -1.0 && minScore <= 100.0
      invariant forall e', k :: 0 <= e' < e && 0 <= k < |model[e'].1| ==>
        minScore <= model[e'].1[k].1 <= maxScore
      invariant maxScore == -1.0 || Attained(model, maxScore)
      invariant minScore == 100.0 || Attained(model, minScore)
    {
      var nb := model[e].1;
      var k := 0;
      while k < |nb|
        invariant 0 <= k <= |nb|
        invariant maxScore >= -1.0 && minScore <= 100.0
        invariant forall e', k' :: 0 <= e' < e && 0 <= k' < |model[e'].1| ==>
          minScore <= model[e'].1[k'].1 <= maxScore
        invariant forall k' :: 0 <= k' < k ==> minScore <= nb[k'].1 <= maxScore
        invariant maxScore == -1.0 || Attained(model, maxScore)
        invariant minScore == 100.0 || Attained(model, minScore)
      {
        var score := nb[k].1;
        if score > maxScore {
          maxScore := score;
        }
        if score < minScore {
          minScore := score;
        }
        k := k + 1;
      }
      e := e + 1;
    }
  }
}

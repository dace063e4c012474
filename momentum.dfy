/**
 * The momentum (key) encoder of MoCo. It starts as an exact copy of the live
 * (query) encoder's parameters, and `_momentum_update_key_encoder` replaces
 * every key parameter by key * m + query * (1 - m), elementwise, for every
 * parameter pair in lockstep. Each parameter tensor is flattened to a vector.
 */
module Momentum {

  /** param_k * m + param_q * (1 - m), elementwise over one parameter tensor. */
  function Blend(key: seq<real>, query: seq<real>, m: real): (r: seq<real>)
    requires |key| == |query|
    ensures |r| == |key|
  {
    seq(|key|, i requires 0 <= i < |key| => key[i] * m + query[i] * (1.0 - m))
  }

  /** The whole update: every parameter pair blended, shapes preserved. */
  function MomentumStep(keys: seq<seq<real>>, queries: seq<seq<real>>, m: real): (r: seq<seq<real>>)
    requires |keys| == |queries| && forall p :: 0 <= p < |keys| ==> |keys[p]| == |queries[p]|
    ensures |r| == |keys| && forall p :: 0 <= p < |r| ==> |r[p]| == |keys[p]|
  {
    seq(|keys|, p requires 0 <= p < |keys| => Blend(keys[p], queries[p], m))
  }

  /** With m = 1 the key parameters do not move. */
  lemma StepAtOneKeepsKeys(keys: seq<seq<real>>, queries: seq<seq<real>>)
    requires |keys| == |queries| && forall p :: 0 <= p < |keys| ==> |keys[p]| == |queries[p]|
    ensures MomentumStep(keys, queries, 1.0) == keys
  {
    forall p | 0 <= p < |keys|
      ensures MomentumStep(keys, queries, 1.0)[p] == keys[p]
    {
      assert Blend(keys[p], queries[p], 1.0) == keys[p];
    }
  }

  /** With m = 0 the key parameters become exact copies of the query parameters. */
  lemma StepAtZeroCopiesQueries(keys: seq<seq<real>>, queries: seq<seq<real>>)
    requires |keys| == |queries| && forall p :: 0 <= p < |keys| ==> |keys[p]| == |queries[p]|
    ensures MomentumStep(keys, queries, 0.0) == queries
  {
    forall p | 0 <= p < |keys|
      ensures MomentumStep(keys, queries, 0.0)[p] == queries[p]
    {
      assert Blend(keys[p], queries[p], 0.0) == queries[p];
    }
  }

  /** When the two encoders agree (as right after initialisation) the update changes nothing, whatever m is. */
  lemma StepKeepsEqualEncoders(params: seq<seq<real>>, m: real)
    ensures MomentumStep(params, params, m) == params
  {
    forall p | 0 <= p < |params|
      ensures MomentumStep(params, params, m)[p] == params[p]
    {
      forall i | 0 <= i < |params[p]|
        ensures Blend(params[p], params[p], m)[i] == params[p][i]
      {
        assert params[p][i] * m + params[p][i] * (1.0 - m) == params[p][i];
      }
    }
  }

  /** For 0 <= m <= 1 each new key entry is a convex combination: it lies between the old key and the query entry. */
  lemma StepIsConvex(keys: seq<seq<real>>, queries: seq<seq<real>>, m: real, p: nat, i: nat)
    requires |keys| == |queries| && forall j :: 0 <= j < |keys| ==> |keys[j]| == |queries[j]|
    requires 0.0 <= m <= 1.0 && p < |keys| && i < |keys[p]|
    ensures var lo := if keys[p][i] <= queries[p][i] then keys[p][i] else queries[p][i];
            var hi := if keys[p][i] <= queries[p][i] then queries[p][i] else keys[p][i];
            lo <= MomentumStep(keys, queries, m)[p][i] <= hi
  {
    var k, q := keys[p][i], queries[p][i];
    var v := k * m + q * (1.0 - m);
    assert v - k == (q - k) * (1.0 - m);
    assert v - q == (k - q) * m;
    if k <= q {
      MulNonNeg(q - k, 1.0 - m);
      MulNonNeg(q - k, m);
    } else {
      MulNonNeg(k - q, 1.0 - m);
      MulNonNeg(k - q, m);
    }
  }

  lemma MulNonNeg(a: real, b: real)
    requires a >= 0.0 && b >= 0.0
    ensures a * b >= 0.0
  {
  }

  /** The live encoder's parameters and the momentum encoder's copy. */
  class MomentumPair {
    const query: array<seq<real>>
    const key: array<seq<real>>
    const m: real

    ghost predicate Valid()
      reads this, query, key
    {
      && query != key
      && query.Length == key.Length
      && forall p :: 0 <= p < key.Length ==> |key[p]| == |query[p]|
    }

    /** Both encoders start from the same parameters: the key copy is exact. */
    constructor (params: seq<seq<real>>, m: real)
      ensures Valid() && fresh(query) && fresh(key)
      ensures query[..] == params && key[..] == params && this.m == m
    {
      query := new seq<real>[|params|](p requires 0 <= p < |params| => params[p]);
      key := new seq<real>[|params|](p requires 0 <= p < |params| => params[p]);
      this.m := m;
    }

    /** One update of every key parameter from its query partner; the query parameters are untouched. */
    method MomentumUpdate()
      requires Valid()
      modifies key
      ensures Valid()
      ensures key[..] == MomentumStep(old(key[..]), query[..], m)
    {
      ghost var before := key[..];
      var p := 0;
      while p < key.Length
        invariant 0 <= p <= key.Length
        invariant forall j :: 0 <= j < p ==> key[j] == Blend(before[j], query[j], m)
        invariant forall j :: p <= j < key.Length ==> key[j] == before[j]
      {
        key[p] := Blend(key[p], query[p], m);
        p := p + 1;
      }
    }
  }
}

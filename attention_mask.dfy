/**
 * The additive attention bias built at the top of `transformer_encoder` (and
 * again, identically, in `moco_trans_encoder`): a padding mask (item id > 0)
 * times a causal mask (no attending to later positions), turned into a bias of
 * 0 for allowed and -10000 for disallowed query/key pairs.
 */
module AttentionMask {

  /** The bias added to the attention logits of a disallowed pair. */
  const MaskedBias: real := -10000.0

  /** (input_ids > 0).long(): 1 at item positions, 0 at padding. */
  function PaddingMask(ids: seq<int>): seq<int>
  {
    seq(|ids|, j requires 0 <= j < |ids| => if ids[j] > 0 then 1 else 0)
  }

  /** torch.triu(ones(n, n), diagonal=1): 1 strictly above the diagonal. */
  function UpperTriangle(n: nat): seq<seq<int>>
  {
    seq(n, i => seq(n, j => if j - i >= 1 then 1 else 0))
  }

  /** (triu == 0).long(): 1 where the key position is not after the query position. */
  function SubsequentMask(n: nat): seq<seq<int>>
  {
    var t := UpperTriangle(n);
    seq(n, i requires 0 <= i < n => seq(n, j requires 0 <= j < n => if t[i][j] == 0 then 1 else 0))
  }

  /** The broadcast product of the padding mask (over keys) and the causal mask. */
  function ExtendedMask(ids: seq<int>): seq<seq<int>>
  {
    var n := |ids|;
    var pad := PaddingMask(ids);
    var sub := SubsequentMask(n);
    seq(n, i requires 0 <= i < n => seq(n, j requires 0 <= j < n => pad[j] * sub[i][j]))
  }

  /** (1.0 - mask) * -10000.0 for one sequence: row i is query position i, column j key position j. */
  function SequenceBias(ids: seq<int>): seq<seq<real>>
  {
    var m := ExtendedMask(ids);
    seq(|ids|, i requires 0 <= i < |ids| =>
      seq(|ids|, j requires 0 <= j < |ids| => (1.0 - m[i][j] as real) * MaskedBias))
  }

  /** The bias for a batch of padded id sequences (the singleton head axis is dropped). */
  function AttentionBias(batch: seq<seq<int>>): (r: seq<seq<seq<real>>>)
    ensures |r| == |batch|
    ensures forall b :: 0 <= b < |batch| ==> |r[b]| == |batch[b]|
  {
    seq(|batch|, b requires 0 <= b < |batch| => SequenceBias(batch[b]))
  }

  /**
   * Shape, and the bias of every pair: 0 exactly when the key position holds
   * an item and does not lie after the query position, -10000 otherwise.
   */
  lemma AttentionBiasSpec(batch: seq<seq<int>>, b: nat, i: nat, j: nat)
    requires b < |batch| && i < |batch[b]| && j < |batch[b]|
    ensures |AttentionBias(batch)| == |batch|
    ensures |AttentionBias(batch)[b]| == |batch[b]| && |AttentionBias(batch)[b][i]| == |batch[b]|
    ensures AttentionBias(batch)[b][i][j] == (if batch[b][j] > 0 && j <= i then 0.0 else MaskedBias)
  {
    var ids := batch[b];
    var n := |ids|;
    assert SubsequentMask(n)[i][j] == (if j <= i then 1 else 0) by {
      assert UpperTriangle(n)[i][j] == (if j - i >= 1 then 1 else 0);
    }
    assert ExtendedMask(ids)[i][j] == (if ids[j] > 0 && j <= i then 1 else 0) by {
      assert PaddingMask(ids)[j] == (if ids[j] > 0 then 1 else 0);
    }
  }

  /** Every entry of the bias is one of the two values 0 and -10000. */
  lemma BiasIsBinary(ids: seq<int>, i: nat, j: nat)
    requires i < |ids| && j < |ids|
    ensures SequenceBias(ids)[i][j] == 0.0 || SequenceBias(ids)[i][j] == MaskedBias
  {
    AttentionBiasSpec([ids], 0, i, j);
  }

  /** A padding position is masked for every query position. */
  lemma PaddingNeverAttended(ids: seq<int>, i: nat, j: nat)
    requires i < |ids| && j < |ids| && ids[j] <= 0
    ensures SequenceBias(ids)[i][j] == MaskedBias
  {
    AttentionBiasSpec([ids], 0, i, j);
  }

  /**
   * Causality: row i of the bias depends only on the ids at positions 0..i,
   * so changing later positions cannot change what position i attends to.
   */
  lemma BiasRowIsCausal(ids1: seq<int>, ids2: seq<int>, i: nat)
    requires |ids1| == |ids2| && i < |ids1|
    requires ids1[..i + 1] == ids2[..i + 1]
    ensures SequenceBias(ids1)[i] == SequenceBias(ids2)[i]
  {
    forall j | 0 <= j < |ids1|
      ensures SequenceBias(ids1)[i][j] == SequenceBias(ids2)[i][j]
    {
      AttentionBiasSpec([ids1], 0, i, j);
      AttentionBiasSpec([ids2], 0, i, j);
      if j <= i {
        assert ids1[j] == ids1[..i + 1][j] == ids2[..i + 1][j] == ids2[j];
      }
    }
  }
}

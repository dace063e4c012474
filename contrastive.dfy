/**
 * The logits block of `moco_trans_encoder`: positive logits q.k, negative
 * logits q.queue, negatives above the threshold phi zeroed, the positive
 * column put first, everything divided by the temperature T, and labels that
 * are all 0 (the positive is always column 0).
 */
module Contrastive {

  /** The dot product of two vectors of equal length. */
  function Dot(u: seq<real>, v: seq<real>): real
    requires |u| == |v|
  {
    if u == [] then 0.0 else Dot(u[..|u| - 1], v[..|v| - 1]) + u[|u| - 1] * v[|v| - 1]
  }

  /** einsum('nc,nc->n', q, k): one positive logit per example. */
  function PositiveLogits(q: seq<seq<real>>, k: seq<seq<real>>): seq<real>
    requires |q| == |k| && forall n :: 0 <= n < |q| ==> |q[n]| == |k[n]|
  {
    seq(|q|, n requires 0 <= n < |q| => Dot(q[n], k[n]))
  }

  /** einsum('nc,ck->nk', q, queue), the queue given as its K columns. */
  function NegativeLogits(q: seq<seq<real>>, queue: seq<seq<real>>): seq<seq<real>>
    requires forall n, c :: 0 <= n < |q| && 0 <= c < |queue| ==> |q[n]| == |queue[c]|
  {
    seq(|q|, n requires 0 <= n < |q| => seq(|queue|, c requires 0 <= c < |queue| => Dot(q[n], queue[c])))
  }

  /** torch.where(l_neg > phi, 0, 1) */
  function FilterWeights(lNeg: seq<seq<real>>, phi: real): seq<seq<int>>
  {
    seq(|lNeg|, n requires 0 <= n < |lNeg| =>
      seq(|lNeg[n]|, c requires 0 <= c < |lNeg[n]| => if lNeg[n][c] > phi then 0 else 1))
  }

  /** l_neg * weights, elementwise. */
  function Weighted(lNeg: seq<seq<real>>, w: seq<seq<int>>): seq<seq<real>>
    requires |w| == |lNeg| && forall n :: 0 <= n < |lNeg| ==> |w[n]| == |lNeg[n]|
  {
    seq(|lNeg|, n requires 0 <= n < |lNeg| =>
      seq(|lNeg[n]|, c requires 0 <= c < |lNeg[n]| => lNeg[n][c] * w[n][c] as real))
  }

  /** torch.cat([l_pos, l_neg], dim=1) */
  function Concat(lPos: seq<real>, lNeg: seq<seq<real>>): seq<seq<real>>
    requires |lPos| == |lNeg|
  {
    seq(|lPos|, n requires 0 <= n < |lPos| => [lPos[n]] + lNeg[n])
  }

  /** logits /= T */
  function Scale(logits: seq<seq<real>>, t: real): seq<seq<real>>
    requires t != 0.0
  {
    seq(|logits|, n requires 0 <= n < |logits| =>
      seq(|logits[n]|, c requires 0 <= c < |logits[n]| => logits[n][c] / t))
  }

  /** The logits of width 1 + K and the all-zero labels. */
  function Logits(lPos: seq<real>, lNeg: seq<seq<real>>, phi: real, t: real): (r: (seq<seq<real>>, seq<int>))
    requires |lPos| == |lNeg| && t != 0.0
    ensures |r.0| == |lPos| && |r.1| == |lPos|
    ensures forall n :: 0 <= n < |r.0| ==> |r.0[n]| == 1 + |lNeg[n]|
    ensures forall n :: 0 <= n < |r.1| ==> r.1[n] == 0
  {
    var filtered := Weighted(lNeg, FilterWeights(lNeg, phi));
    (Scale(Concat(lPos, filtered), t), seq(|lPos|, n => 0))
  }

  /**
   * Each row has width 1 + K, column 0 is the positive logit over T, column
   * 1 + k is negative k over T, or 0 when that negative exceeds phi; there is
   * one label per row and it is 0.
   */
  lemma LogitsSpec(lPos: seq<real>, lNeg: seq<seq<real>>, phi: real, t: real, kq: nat, n: nat, k: nat)
    requires |lPos| == |lNeg| && t != 0.0
    requires forall m :: 0 <= m < |lNeg| ==> |lNeg[m]| == kq
    requires n < |lPos| && k < kq
    ensures var (logits, labels) := Logits(lPos, lNeg, phi, t);
            && |logits| == |labels| == |lPos|
            && |logits[n]| == 1 + kq
            && logits[n][0] == lPos[n] / t
            && logits[n][1 + k] == (if lNeg[n][k] > phi then 0.0 else lNeg[n][k]) / t
            && labels[n] == 0
  {
    var filtered := Weighted(lNeg, FilterWeights(lNeg, phi));
    assert filtered[n][k] == (if lNeg[n][k] > phi then 0.0 else lNeg[n][k]);
    assert Concat(lPos, filtered)[n][1 + k] == filtered[n][k];
  }

  /**
   * With a positive temperature no negative column exceeds max(phi, 0) / T:
   * suppressed negatives become 0 and the others are at most phi.
   */
  lemma NegativesBounded(lPos: seq<real>, lNeg: seq<seq<real>>, phi: real, t: real, kq: nat, n: nat, k: nat)
    requires |lPos| == |lNeg| && t > 0.0
    requires forall m :: 0 <= m < |lNeg| ==> |lNeg[m]| == kq
    requires n < |lPos| && k < kq
    ensures Logits(lPos, lNeg, phi, t).0[n][1 + k] <= (if phi > 0.0 then phi else 0.0) / t
  {
    LogitsSpec(lPos, lNeg, phi, t, kq, n, k);
    var v := if lNeg[n][k] > phi then 0.0 else lNeg[n][k];
    DivMonotone(v, if phi > 0.0 then phi else 0.0, t);
  }

  lemma DivMonotone(a: real, b: real, t: real)
    requires a <= b && t > 0.0
    ensures a / t <= b / t
  {
    assert b / t - a / t == (b - a) / t;
  }

  /** A negative exactly at the threshold is not suppressed: the filter is a strict comparison. */
  lemma ThresholdPassesThrough(lPos: seq<real>, lNeg: seq<seq<real>>, phi: real, t: real, kq: nat, n: nat, k: nat)
    requires |lPos| == |lNeg| && t != 0.0
    requires forall m :: 0 <= m < |lNeg| ==> |lNeg[m]| == kq
    requires n < |lPos| && k < kq && lNeg[n][k] == phi
    ensures Logits(lPos, lNeg, phi, t).0[n][1 + k] == phi / t
  {
    LogitsSpec(lPos, lNeg, phi, t, kq, n, k);
  }

  /**
   * From the vectors themselves: column 0 is q[n].k[n] / T and column 1 + c
   * is q[n] against queue column c over T, unless that similarity exceeds phi.
   */
  lemma MocoLogitsSpec(q: seq<seq<real>>, k: seq<seq<real>>, queue: seq<seq<real>>, dim: nat,
                       phi: real, t: real, n: nat, c: nat)
    requires |q| == |k| && t != 0.0
    requires forall m :: 0 <= m < |q| ==> |q[m]| == dim && |k[m]| == dim
    requires forall j :: 0 <= j < |queue| ==> |queue[j]| == dim
    requires n < |q| && c < |queue|
    ensures var logits := Logits(PositiveLogits(q, k), NegativeLogits(q, queue), phi, t).0;
            && |logits[n]| == 1 + |queue|
            && logits[n][0] == Dot(q[n], k[n]) / t
            && logits[n][1 + c] == (if Dot(q[n], queue[c]) > phi then 0.0 else Dot(q[n], queue[c])) / t
  {
    LogitsSpec(PositiveLogits(q, k), NegativeLogits(q, queue), phi, t, |queue|, n, c);
  }
}

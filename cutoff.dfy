/**
 * `cutoff_embeddings`: for each sample of a batch of embeddings
 * (batch x seq_len x emb_size) choose floor(num_dimensions * rate) indexes
 * from a shuffled range(num_dimensions) and zero those rows (direction "row"),
 * columns ("column") or positions of the flattened sample ("random").
 * The shuffle is a parameter: one permutation per sample.
 */
module Cutoff {
  import opened Results
  import opened Sets

  /** The three directions, in the order the source tests them. */
  datatype Axis = Row | Column | Flat

  datatype CutoffError =
    | InvalidDirection(direction: string)
    | CountOutOfRange(numDimensions: int, count: int)
    | EmptyBatch   // torch.cat of an empty list

  function AxisOf(direction: string): Option<Axis>
  {
    if direction == "row" then Some(Row)
    else if direction == "column" then Some(Column)
    else if direction == "random" then Some(Flat)
    else None
  }

  /** sample_mask.sum() */
  function MaskSum(mask: seq<int>): int
  {
    if mask == [] then 0 else MaskSum(mask[..|mask| - 1]) + mask[|mask| - 1]
  }

  predicate IsBinary(mask: seq<int>)
  {
    forall t :: 0 <= t < |mask| ==> mask[t] == 0 || mask[t] == 1
  }

  /** A 0/1 mask sums to the number of its ones, which is between 0 and its length. */
  lemma {:induction false} MaskSumBounds(mask: seq<int>)
    requires IsBinary(mask)
    ensures 0 <= MaskSum(mask) <= |mask|
  {
    if mask != [] {
      MaskSumBounds(mask[..|mask| - 1]);
    }
  }

  /** The number of indexes the shuffle ranges over, per direction. */
  function NumDimensions(axis: Axis, mask: seq<int>, embSize: nat): int
  {
    match axis
    case Row => MaskSum(mask)
    case Column => embSize
    case Flat => MaskSum(mask) * embSize
  }

  /** Python's int() of a float: truncation toward zero. */
  function Trunc(x: real): int
  {
    if x >= 0.0 then x.Floor else -((-x).Floor)
  }

  /** The number of indexes to cut: int(num_dimensions * rate). */
  function CutCount(n: int, rate: real): int
  {
    Trunc(n as real * rate)
  }

  /** Trunc drops the fractional part, rounding toward zero on both sides. */
  lemma TruncTowardZero(x: real)
    ensures 0.0 <= x ==> Trunc(x) as real <= x < Trunc(x) as real + 1.0
    ensures x < 0.0 ==> Trunc(x) as real - 1.0 < x <= Trunc(x) as real
  {
  }

  /** Whether entry (r, c) of a sample is zeroed when the chosen indexes are `cut`. */
  predicate Hit(axis: Axis, embSize: nat, r: int, c: int, cut: seq<int>)
  {
    match axis
    case Row => r in cut
    case Column => c in cut
    case Flat => r * embSize + c in cut
  }

  /** torch.index_fill(sample, dim, cut, 0.0), through the flattened view for Flat. */
  function ZeroOut(sample: seq<seq<real>>, axis: Axis, embSize: nat, cut: seq<int>): seq<seq<real>>
  {
    seq(|sample|, r requires 0 <= r < |sample| =>
      seq(|sample[r]|, c requires 0 <= c < |sample[r]| =>
        if Hit(axis, embSize, r, c, cut) then 0.0 else sample[r][c]))
  }

  /** The shuffles a caller must supply: one permutation of range(num_dimensions) per sample. */
  predicate ValidShuffles(masks: seq<seq<int>>, direction: string, embSize: nat, orders: seq<seq<int>>)
  {
    && |orders| == |masks|
    && (AxisOf(direction).Some? ==>
          forall b :: 0 <= b < |masks| ==>
            IsPermutation(orders[b], NumDimensions(AxisOf(direction).value, masks[b], embSize)))
  }

  /** A batch of equally shaped samples with their 0/1 masks. */
  predicate WellShaped(emb: seq<seq<seq<real>>>, masks: seq<seq<int>>, seqLen: nat, embSize: nat)
  {
    && |masks| == |emb|
    && (forall b :: 0 <= b < |emb| ==> |emb[b]| == seqLen && |masks[b]| == seqLen && IsBinary(masks[b]))
    && (forall b, r :: 0 <= b < |emb| && 0 <= r < seqLen ==> |emb[b][r]| == embSize)
  }

  /** One iteration of the loop: the cut sample, or the error it raises. */
  function CutoffSample(sample: seq<seq<real>>, mask: seq<int>, direction: string, rate: real,
                        order: seq<int>, embSize: nat): Result<seq<seq<real>>, CutoffError>
    requires AxisOf(direction).Some? ==> IsPermutation(order, NumDimensions(AxisOf(direction).value, mask, embSize))
  {
    match AxisOf(direction)
    case None => Err(InvalidDirection(direction))
    case Some(axis) =>
      var n := NumDimensions(axis, mask, embSize);
      var count := CutCount(n, rate);
      if count < 0 || count > n then Err(CountOutOfRange(n, count))
      else Ok(ZeroOut(sample, axis, embSize, order[..count]))
  }

  /** The first `n` iterations: the first error raised, or the samples cut so far. */
  function CutoffPrefix(emb: seq<seq<seq<real>>>, masks: seq<seq<int>>, direction: string, rate: real,
                        orders: seq<seq<int>>, embSize: nat, n: nat): (r: Result<seq<seq<seq<real>>>, CutoffError>)
    requires n <= |emb| && |masks| == |emb| && ValidShuffles(masks, direction, embSize, orders)
    ensures r.Ok? ==> |r.value| == n
  {
    if n == 0 then Ok([])
    else
      match CutoffPrefix(emb, masks, direction, rate, orders, embSize, n - 1)
      case Err(e) => Err(e)
      case Ok(done) =>
        match CutoffSample(emb[n - 1], masks[n - 1], direction, rate, orders[n - 1], embSize)
        case Err(e) => Err(e)
        case Ok(s) => Ok(done + [s])
  }

  /** The whole call: an empty batch fails in the final concatenation. */
  function CutoffBatch(emb: seq<seq<seq<real>>>, masks: seq<seq<int>>, direction: string, rate: real,
                       orders: seq<seq<int>>, embSize: nat): (r: Result<seq<seq<seq<real>>>, CutoffError>)
    requires |masks| == |emb| && ValidShuffles(masks, direction, embSize, orders)
    ensures |emb| == 0 ==> r == Err(EmptyBatch)
    ensures r.Ok? ==> |r.value| == |emb|
  {
    if |emb| == 0 then Err(EmptyBatch)
    else CutoffPrefix(emb, masks, direction, rate, orders, embSize, |emb|)
  }

  /** Whether a sample with this mask passes the direction and count checks. */
  predicate Accepted(mask: seq<int>, direction: string, rate: real, embSize: nat)
  {
    match AxisOf(direction)
    case None => false
    case Some(axis) =>
      var n := NumDimensions(axis, mask, embSize);
      0 <= CutCount(n, rate) <= n
  }

  /** Unfolds one iteration: the loop and the prefix lemmas use it to step from CutoffSample to Accepted. */
  lemma SampleSpec(sample: seq<seq<real>>, mask: seq<int>, direction: string, rate: real,
                   order: seq<int>, embSize: nat)
    requires AxisOf(direction).Some? ==> IsPermutation(order, NumDimensions(AxisOf(direction).value, mask, embSize))
    ensures CutoffSample(sample, mask, direction, rate, order, embSize).Err? <==> !Accepted(mask, direction, rate, embSize)
    ensures Accepted(mask, direction, rate, embSize) ==>
              CutoffSample(sample, mask, direction, rate, order, embSize).value ==
                ZeroOut(sample, AxisOf(direction).value, embSize,
                        order[..CutCount(NumDimensions(AxisOf(direction).value, mask, embSize), rate)])
  {
  }

  /** Once an iteration has raised, running more iterations leaves the same error. */
  lemma {:induction false} PrefixErrorPersists(emb: seq<seq<seq<real>>>, masks: seq<seq<int>>, direction: string,
                                               rate: real, orders: seq<seq<int>>, embSize: nat, m: nat, n: nat)
    requires m <= n <= |emb| && |masks| == |emb| && ValidShuffles(masks, direction, embSize, orders)
    requires CutoffPrefix(emb, masks, direction, rate, orders, embSize, m).Err?
    ensures CutoffPrefix(emb, masks, direction, rate, orders, embSize, n) ==
              CutoffPrefix(emb, masks, direction, rate, orders, embSize, m)
    decreases n - m
  {
    if m < n {
      PrefixErrorPersists(emb, masks, direction, rate, orders, embSize, m, n - 1);
    }
  }

  /** The chosen indexes of one sample: the first floor(n * rate) entries of its shuffle. */
  function CutIndexes(masks: seq<seq<int>>, direction: string, rate: real, orders: seq<seq<int>>,
                      embSize: nat, b: nat): seq<int>
    requires b < |masks| && ValidShuffles(masks, direction, embSize, orders)
    requires Accepted(masks[b], direction, rate, embSize)
  {
    var n := NumDimensions(AxisOf(direction).value, masks[b], embSize);
    orders[b][..CutCount(n, rate)]
  }

  /** Sample b with its chosen indexes zeroed. */
  function CutSample(emb: seq<seq<seq<real>>>, masks: seq<seq<int>>, direction: string, rate: real,
                     orders: seq<seq<int>>, embSize: nat, b: nat): seq<seq<real>>
    requires b < |emb| && |masks| == |emb| && ValidShuffles(masks, direction, embSize, orders)
    requires Accepted(masks[b], direction, rate, embSize)
  {
    ZeroOut(emb[b], AxisOf(direction).value, embSize, CutIndexes(masks, direction, rate, orders, embSize, b))
  }

  /** The prefix fails exactly when one of its samples is rejected. */
  lemma {:induction false} CutoffPrefixErrors(emb: seq<seq<seq<real>>>, masks: seq<seq<int>>, direction: string,
                                              rate: real, orders: seq<seq<int>>, embSize: nat, n: nat)
    requires n <= |emb| && |masks| == |emb| && ValidShuffles(masks, direction, embSize, orders)
    ensures (CutoffPrefix(emb, masks, direction, rate, orders, embSize, n).Err? <==>
             exists b :: 0 <= b < n && !Accepted(masks[b], direction, rate, embSize))
  {
    if n > 0 {
      CutoffPrefixErrors(emb, masks, direction, rate, orders, embSize, n - 1);
      SampleSpec(emb[n - 1], masks[n - 1], direction, rate, orders[n - 1], embSize);
      if CutoffPrefix(emb, masks, direction, rate, orders, embSize, n - 1).Err? {
        var b :| 0 <= b < n - 1 && !Accepted(masks[b], direction, rate, embSize);
        assert 0 <= b < n;
      }
    }
  }

  /** A prefix that did not fail holds each of its samples with the chosen indexes zeroed. */
  lemma {:induction false} CutoffPrefixValue(emb: seq<seq<seq<real>>>, masks: seq<seq<int>>, direction: string,
                                             rate: real, orders: seq<seq<int>>, embSize: nat, n: nat)
    requires n <= |emb| && |masks| == |emb| && ValidShuffles(masks, direction, embSize, orders)
    requires CutoffPrefix(emb, masks, direction, rate, orders, embSize, n).Ok?
    ensures forall b :: 0 <= b < n ==> Accepted(masks[b], direction, rate, embSize)
    ensures var out := CutoffPrefix(emb, masks, direction, rate, orders, embSize, n).value;
            && |out| == n
            && forall b :: 0 <= b < n ==> out[b] == CutSample(emb, masks, direction, rate, orders, embSize, b)
  {
    CutoffPrefixErrors(emb, masks, direction, rate, orders, embSize, n);
    if n > 0 {
      CutoffPrefixValue(emb, masks, direction, rate, orders, embSize, n - 1);
      SampleSpec(emb[n - 1], masks[n - 1], direction, rate, orders[n - 1], embSize);
    }
  }

  /**
   * The call raises exactly when the batch is empty, the direction is not
   * row/column/random, or some sample's count floor(n * rate) lies outside
   * [0, n].
   */
  lemma CutoffErrors(emb: seq<seq<seq<real>>>, masks: seq<seq<int>>, direction: string, rate: real,
                     orders: seq<seq<int>>, embSize: nat)
    requires |masks| == |emb| && ValidShuffles(masks, direction, embSize, orders)
    ensures CutoffBatch(emb, masks, direction, rate, orders, embSize).Err? <==>
              || |emb| == 0
              || direction !in {"row", "column", "random"}
              || exists b :: 0 <= b < |emb| && !Accepted(masks[b], direction, rate, embSize)
  {
    CutoffPrefixErrors(emb, masks, direction, rate, orders, embSize, |emb|);
    assert AxisOf(direction).None? <==> direction !in {"row", "column", "random"};
    if |emb| > 0 && direction !in {"row", "column", "random"} {
      assert !Accepted(masks[0], direction, rate, embSize);
    }
  }

  /**
   * On success the output has the input's shape, every entry in a chosen
   * row, column or flattened position is 0, and every other entry is the
   * input's.
   */
  lemma CutoffOutput(emb: seq<seq<seq<real>>>, masks: seq<seq<int>>, direction: string, rate: real,
                     orders: seq<seq<int>>, seqLen: nat, embSize: nat, b: nat, r: nat, c: nat)
    requires WellShaped(emb, masks, seqLen, embSize) && ValidShuffles(masks, direction, embSize, orders)
    requires CutoffBatch(emb, masks, direction, rate, orders, embSize).Ok?
    requires b < |emb| && r < seqLen && c < embSize
    ensures Accepted(masks[b], direction, rate, embSize)
    ensures var out := CutoffBatch(emb, masks, direction, rate, orders, embSize).value;
            && |out| == |emb| && |out[b]| == seqLen && |out[b][r]| == embSize
            && out[b][r][c] ==
                 if Hit(AxisOf(direction).value, embSize, r, c, CutIndexes(masks, direction, rate, orders, embSize, b))
                 then 0.0 else emb[b][r][c]
  {
    CutoffPrefixValue(emb, masks, direction, rate, orders, embSize, |emb|);
  }

  /**
   * Exactly floor(n * rate) distinct indexes in range(n) are chosen, so that
   * many rows, columns or flattened positions are zeroed.
   */
  lemma CutIndexesCount(masks: seq<seq<int>>, direction: string, rate: real, orders: seq<seq<int>>,
                        embSize: nat, b: nat)
    requires b < |masks| && ValidShuffles(masks, direction, embSize, orders)
    requires Accepted(masks[b], direction, rate, embSize)
    ensures var n := NumDimensions(AxisOf(direction).value, masks[b], embSize);
            var cut := CutIndexes(masks, direction, rate, orders, embSize, b);
            && |set k | k in cut| == CutCount(n, rate)
            && forall k :: k in cut ==> 0 <= k < n
  {
    DistinctCard(CutIndexes(masks, direction, rate, orders, embSize, b));
  }

  /**
   * With a known direction, a 0/1 mask and 0 <= rate <= 1, the count
   * int(n * rate) always lies in [0, n], so the sample is accepted.
   */
  lemma AcceptedWhenValid(mask: seq<int>, direction: string, rate: real, embSize: nat)
    requires direction in {"row", "column", "random"}
    requires IsBinary(mask) && 0.0 <= rate <= 1.0
    ensures Accepted(mask, direction, rate, embSize)
  {
    MaskSumBounds(mask);
    var axis := AxisOf(direction).value;
    if axis == Flat {
      MulMonotone(0, MaskSum(mask), embSize);
    }
    CutCountInRange(NumDimensions(axis, mask, embSize), rate);
  }

  /** For 0 <= rate <= 1, int(n * rate) lies in [0, n]. */
  lemma CutCountInRange(n: int, rate: real)
    requires 0 <= n && 0.0 <= rate <= 1.0
    ensures 0 <= CutCount(n, rate) <= n
  {
    var x := n as real * rate;
    RealMulBounds(n as real, rate);
    assert CutCount(n, rate) == x.Floor;
    assert x.Floor as real <= x <= n as real;
    assert 0 <= x.Floor <= n;
  }

  lemma RealMulBounds(a: real, t: real)
    requires 0.0 <= a && 0.0 <= t <= 1.0
    ensures 0.0 <= a * t <= a
  {
    assert a * t <= a * 1.0;
  }

  /**
   * A nonempty, well-shaped batch with a known direction and 0 <= rate <= 1
   * never raises; by CutoffOutput its result then has the input's shape.
   */
  lemma CutoffSucceeds(emb: seq<seq<seq<real>>>, masks: seq<seq<int>>, direction: string, rate: real,
                       orders: seq<seq<int>>, seqLen: nat, embSize: nat)
    requires WellShaped(emb, masks, seqLen, embSize) && ValidShuffles(masks, direction, embSize, orders)
    requires |emb| > 0 && direction in {"row", "column", "random"} && 0.0 <= rate <= 1.0
    ensures CutoffBatch(emb, masks, direction, rate, orders, embSize).Ok?
  {
    CutoffErrors(emb, masks, direction, rate, orders, embSize);
    forall b | 0 <= b < |emb|
      ensures Accepted(masks[b], direction, rate, embSize)
    {
      AcceptedWhenValid(masks[b], direction, rate, embSize);
    }
  }

  /** The size of the axis that index_fill works along: rows, columns, or the flattened sample. */
  function AxisLength(axis: Axis, seqLen: nat, embSize: nat): nat
  {
    match axis
    case Row => seqLen
    case Column => embSize
    case Flat => seqLen * embSize
  }

  /**
   * For a well-shaped batch every chosen index lies inside the axis it is
   * used on, so index_fill never goes out of range.
   */
  lemma CutIndexesInBounds(emb: seq<seq<seq<real>>>, masks: seq<seq<int>>, direction: string, rate: real,
                           orders: seq<seq<int>>, seqLen: nat, embSize: nat, b: nat)
    requires WellShaped(emb, masks, seqLen, embSize) && ValidShuffles(masks, direction, embSize, orders)
    requires b < |masks| && Accepted(masks[b], direction, rate, embSize)
    ensures forall k :: k in CutIndexes(masks, direction, rate, orders, embSize, b) ==>
              0 <= k < AxisLength(AxisOf(direction).value, seqLen, embSize)
  {
    MaskSumBounds(masks[b]);
    var axis := AxisOf(direction).value;
    if axis == Flat {
      assert MaskSum(masks[b]) * embSize <= seqLen * embSize by {
        MulMonotone(MaskSum(masks[b]), seqLen, embSize);
      }
    }
  }

  lemma MulMonotone(a: nat, b: nat, c: nat)
    requires a <= b
    ensures a * c <= b * c
  {
  }

  /**
   * Direction "row" zeroes rows among the first n positions, n the number of
   * item (non-padding) tokens, wherever those tokens actually are.
   */
  lemma RowCutoffUsesLeadingRows(masks: seq<seq<int>>, rate: real, orders: seq<seq<int>>,
                                 embSize: nat, b: nat, r: int, c: int)
    requires b < |masks| && ValidShuffles(masks, "row", embSize, orders)
    requires Accepted(masks[b], "row", rate, embSize)
    requires Hit(Row, embSize, r, c, CutIndexes(masks, "row", rate, orders, embSize, b))
    ensures 0 <= r < MaskSum(masks[b])
  {
  }

  /**
   * With a left-padded sample [pad, item] and rate 1, "row" zeroes row 0,
   * the padding, and leaves the item's row 1 as it was.
   */
  lemma RowCutoffHitsPadding(pad: seq<real>, item: seq<real>)
    requires |pad| == |item| == 1
    ensures && ValidShuffles([[0, 1]], "row", 1, [[0]])
            && CutoffBatch([[pad, item]], [[0, 1]], "row", 1.0, [[0]], 1) == Ok([[[0.0], item]])
  {
    assert MaskSum([0, 1]) == 1 by {
      assert [0, 1][..1] == [0];
      assert [0][..0] == [];
    }
    assert CutCount(1, 1.0) == 1;
    assert [0][..1] == [0];
    var z := ZeroOut([pad, item], Row, 1, [0]);
    assert z[0] == [0.0];
    assert z[1] == item;
    assert z == [[0.0], item];
    assert CutoffSample([pad, item], [0, 1], "row", 1.0, [0], 1) == Ok(z);
    assert CutoffPrefix([[pad, item]], [[0, 1]], "row", 1.0, [[0]], 1, 0) == Ok([]);
    assert CutoffPrefix([[pad, item]], [[0, 1]], "row", 1.0, [[0]], 1, 1) == Ok([] + [z]);
    assert [] + [z] == [[[0.0], item]];
  }

  /**
   * The loop of `cutoff_embeddings`: each sample's direction and count are
   * checked, its chosen indexes zeroed, and the result appended.
   */
  method CutoffEmbeddings(emb: seq<seq<seq<real>>>, masks: seq<seq<int>>, direction: string, rate: real,
                          orders: seq<seq<int>>, embSize: nat) returns (r: Result<seq<seq<seq<real>>>, CutoffError>)
    requires |masks| == |emb| && ValidShuffles(masks, direction, embSize, orders)
    ensures r == CutoffBatch(emb, masks, direction, rate, orders, embSize)
  {
    var cutoffs: seq<seq<seq<real>>> := [];
    var b := 0;
    while b < |emb|
      invariant 0 <= b <= |emb|
      invariant CutoffPrefix(emb, masks, direction, rate, orders, embSize, b) == Ok(cutoffs)
    {
      SampleSpec(emb[b], masks[b], direction, rate, orders[b], embSize);
      var axis: Axis;
      var numDimensions: int;
      if direction == "row" {
        numDimensions, axis := MaskSum(masks[b]), Row;
      } else if direction == "column" {
        numDimensions, axis := embSize, Column;
      } else if direction == "random" {
        numDimensions, axis := MaskSum(masks[b]) * embSize, Flat;
      } else {
        PrefixErrorPersists(emb, masks, direction, rate, orders, embSize, b + 1, |emb|);
        return Err(InvalidDirection(direction));
      }
      var count := CutCount(numDimensions, rate);
      if count < 0 || count > numDimensions {
        PrefixErrorPersists(emb, masks, direction, rate, orders, embSize, b + 1, |emb|);
        return Err(CountOutOfRange(numDimensions, count));
      }
      var cut := orders[b][..count];
      cutoffs := cutoffs + [ZeroOut(emb[b], axis, embSize, cut)];
      b := b + 1;
    }
    if b == 0 {
      return Err(EmptyBatch);
    }
    return Ok(cutoffs);
  }
}

/**
 * The MoCo negative queue: a fixed-capacity store of K key columns with a
 * write pointer. `_dequeue_and_enqueue` writes a batch of B keys starting at
 * the pointer, wrapping to the head when it runs past the end, and moves the
 * pointer to (ptr + B) % K.
 */
module NegativeQueue {

  /** The slot i steps ahead of the pointer in a ring of k slots. */
  function Slot(ptr: nat, i: nat, k: nat): (c: nat)
    requires ptr < k && i <= k
    ensures c < k
  {
    if ptr + i < k then ptr + i else ptr + i - k
  }

  /** Slot is the source's (ptr + i) % K. */
  lemma SlotIsMod(ptr: nat, i: nat, k: nat)
    requires ptr < k && i <= k
    ensures Slot(ptr, i, k) == (ptr + i) % k
  {
    var x := ptr + i;
    if x >= k {
      assert x == k * 1 + (x - k);
    }
  }

  /** How far slot c lies ahead of the pointer: the inverse of Slot. */
  function Offset(c: nat, ptr: nat, k: nat): (o: nat)
    requires c < k && ptr < k
    ensures o < k
    ensures Slot(ptr, o, k) == c
    ensures forall i :: 0 <= i < k && Slot(ptr, i, k) == c ==> i == o
  {
    if c >= ptr then c - ptr else c + k - ptr
  }

  /**
   * The queue after writing `keys` from `ptr`: slot c receives key Offset(c)
   * when that offset is below the batch size, and keeps its column otherwise.
   */
  function Enqueued(q: seq<seq<real>>, ptr: nat, keys: seq<seq<real>>): (r: seq<seq<real>>)
    requires ptr < |q| && |keys| <= |q|
    ensures |r| == |q|
  {
    seq(|q|, c requires 0 <= c < |q| =>
      var o := Offset(c, ptr, |q|);
      if o < |keys| then keys[o] else q[c])
  }

  /** Key i of the batch lands in slot (ptr + i) % K. */
  lemma EnqueuedWritesKeys(q: seq<seq<real>>, ptr: nat, keys: seq<seq<real>>, i: nat)
    requires ptr < |q| && |keys| <= |q| && i < |keys|
    ensures Enqueued(q, ptr, keys)[Slot(ptr, i, |q|)] == keys[i]
  {
    assert Offset(Slot(ptr, i, |q|), ptr, |q|) == i;
  }

  /** Slot c in terms of positions: a key when c is in [ptr, ptr + B) or in the part that wrapped to the head. */
  lemma EnqueuedEntry(q: seq<seq<real>>, ptr: nat, keys: seq<seq<real>>, c: nat)
    requires ptr < |q| && |keys| <= |q| && c < |q|
    ensures Enqueued(q, ptr, keys)[c] ==
      if ptr <= c < ptr + |keys| then keys[c - ptr]
      else if c < ptr + |keys| - |q| then keys[c + |q| - ptr]
      else q[c]
  {
  }

  /** A slot that no key of the batch reaches keeps its column. */
  lemma EnqueuedFrame(q: seq<seq<real>>, ptr: nat, keys: seq<seq<real>>, c: nat)
    requires ptr < |q| && |keys| <= |q| && c < |q|
    requires forall i :: 0 <= i < |keys| ==> Slot(ptr, i, |q|) != c
    ensures Enqueued(q, ptr, keys)[c] == q[c]
  {
    var o := Offset(c, ptr, |q|);
    assert Slot(ptr, o, |q|) == c;
  }

  /**
   * Writing batch a and then batch b from the pointer that a leaves behind is
   * the same as writing a + b in one call.
   */
  lemma EnqueuedCompose(q: seq<seq<real>>, ptr: nat, a: seq<seq<real>>, b: seq<seq<real>>)
    requires ptr < |q| && |a| + |b| <= |q|
    ensures Enqueued(Enqueued(q, ptr, a), Slot(ptr, |a|, |q|), b) == Enqueued(q, ptr, a + b)
  {
    var k := |q|;
    var p2 := Slot(ptr, |a|, k);
    var mid := Enqueued(q, ptr, a);
    var lhs := Enqueued(mid, p2, b);
    var rhs := Enqueued(q, ptr, a + b);
    forall c | 0 <= c < k
      ensures lhs[c] == rhs[c]
    {
      var o := Offset(c, ptr, k);
      var o2 := Offset(c, p2, k);
      if o < |a| {
        assert o2 == o + k - |a|;
        assert lhs[c] == mid[c] == a[o] == (a + b)[o];
      } else {
        assert o2 == o - |a|;
      }
    }
  }

  /** Enqueuing the keys one call at a time, each call a batch of one: the final queue and pointer. */
  function EnqueuedOneByOne(q: seq<seq<real>>, ptr: nat, keys: seq<seq<real>>): (r: (seq<seq<real>>, nat))
    requires ptr < |q| && |keys| <= |q|
    ensures |r.0| == |q| && r.1 < |q|
    decreases |keys|
  {
    if keys == [] then (q, ptr)
    else EnqueuedOneByOne(Enqueued(q, ptr, [keys[0]]), Slot(ptr, 1, |q|), keys[1..])
  }

  /** One step and then n - 1 more steps around the ring reach the slot n steps ahead. */
  lemma SlotStep(ptr: nat, n: nat, k: nat)
    requires ptr < k && 1 <= n <= k
    ensures Slot(Slot(ptr, 1, k), n - 1, k) == Slot(ptr, n, k)
  {
  }

  /**
   * Batch-of-one calls and a single batched call leave the same queue, and
   * the same pointer (ptr + B) % K.
   */
  lemma {:induction false} OneByOneIsBatched(q: seq<seq<real>>, ptr: nat, keys: seq<seq<real>>)
    requires ptr < |q| && |keys| <= |q|
    ensures EnqueuedOneByOne(q, ptr, keys) == (Enqueued(q, ptr, keys), Slot(ptr, |keys|, |q|))
    decreases |keys|
  {
    var k := |q|;
    if keys == [] {
      assert Enqueued(q, ptr, keys) == q;
    } else {
      var q1 := Enqueued(q, ptr, [keys[0]]);
      var p1 := Slot(ptr, 1, k);
      OneByOneIsBatched(q1, p1, keys[1..]);
      EnqueuedCompose(q, ptr, [keys[0]], keys[1..]);
      SlotStep(ptr, |keys|, k);
      assert [keys[0]] + keys[1..] == keys;
    }
  }

  /**
   * After K enqueues of one key each, the pointer is back where it started
   * and the queue holds exactly those K keys in ring order from it.
   */
  lemma FullCycle(q: seq<seq<real>>, ptr: nat, keys: seq<seq<real>>)
    requires ptr < |q| && |keys| == |q|
    ensures EnqueuedOneByOne(q, ptr, keys).1 == ptr
    ensures forall i :: 0 <= i < |keys| ==> EnqueuedOneByOne(q, ptr, keys).0[Slot(ptr, i, |q|)] == keys[i]
  {
    OneByOneIsBatched(q, ptr, keys);
    forall i | 0 <= i < |keys|
      ensures EnqueuedOneByOne(q, ptr, keys).0[Slot(ptr, i, |q|)] == keys[i]
    {
      EnqueuedWritesKeys(q, ptr, keys, i);
    }
  }

  /** The queue buffer of K columns of width `dim`, and its write pointer. */
  class Queue {
    const columns: array<seq<real>>
    const dim: nat
    var ptr: nat

    ghost predicate Valid()
      reads this, columns
    {
      && columns.Length > 0
      && ptr < columns.Length
      && forall c :: 0 <= c < columns.Length ==> |columns[c]| == dim
    }

    /** A queue whose initial columns are given (the source draws them at random) and whose pointer is 0. */
    constructor (initial: seq<seq<real>>, dim: nat)
      requires |initial| > 0
      requires forall c :: 0 <= c < |initial| ==> |initial[c]| == dim
      ensures Valid() && fresh(columns)
      ensures columns[..] == initial && ptr == 0 && this.dim == dim
    {
      columns := new seq<real>[|initial|](c requires 0 <= c < |initial| => initial[c]);
      this.dim := dim;
      ptr := 0;
    }

    /**
     * Writes the batch into the columns from the pointer on, wrapping to the
     * head, and advances the pointer by the batch size modulo K.
     */
    method DequeueAndEnqueue(keys: seq<seq<real>>)
      requires Valid()
      requires |keys| <= columns.Length
      requires forall i :: 0 <= i < |keys| ==> |keys[i]| == dim
      modifies this`ptr, columns
      ensures Valid()
      ensures columns[..] == Enqueued(old(columns[..]), old(ptr), keys)
      ensures ptr == Slot(old(ptr), |keys|, columns.Length)
      ensures forall i :: 0 <= i < |keys| ==> columns[Slot(old(ptr), i, columns.Length)] == keys[i]
      ensures forall c :: 0 <= c < columns.Length && Offset(c, old(ptr), columns.Length) >= |keys|
                ==> columns[c] == old(columns[c])
    {
      ghost var before := columns[..];
      var b, k := |keys|, columns.Length;
      if ptr + b >= k {
        forall c | ptr <= c < k {
          columns[c] := keys[c - ptr];
        }
        forall c | 0 <= c < ptr + b - k {
          columns[c] := keys[c + k - ptr];
        }
      } else {
        forall c | ptr <= c < ptr + b {
          columns[c] := keys[c - ptr];
        }
      }
      forall c | 0 <= c < k
        ensures columns[c] == Enqueued(before, ptr, keys)[c]
      {
        EnqueuedEntry(before, ptr, keys, c);
      }
      assert columns[..] == Enqueued(before, ptr, keys);
      forall i | 0 <= i < b
        ensures columns[Slot(ptr, i, k)] == keys[i]
      {
        EnqueuedWritesKeys(before, ptr, keys, i);
      }
      SlotIsMod(ptr, b, k);
      ptr := (ptr + b) % k;
    }
  }
}

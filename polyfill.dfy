/**
 * `src/lang/polyfill.rs`: `VecExt`, which pads a vector with values from a
 * generator until it reaches a length, and hands out a slot after padding.
 *
 * The generator `f` is a `FnMut`: `resize_with` calls it once per appended
 * element, in order, so `f(k)` below is the value of its `k`-th call.
 */
module Polyfill {
  import Lifetimes

  /** The vector after `ensure_length_with(min_len, f)`. */
  function Extended<T>(v: seq<T>, minLen: nat, f: nat -> T): (w: seq<T>)
    ensures |w| == if |v| < minLen then minLen else |v|
    ensures w[..|v|] == v
    ensures forall i :: |v| <= i < |w| ==> w[i] == f(i - |v|)
  {
    if |v| < minLen then v + seq(minLen - |v|, k requires 0 <= k => f(k)) else v
  }

  /**
   * `ensure_length_with`: when the vector is shorter than `minLen`, append
   * `f`'s values one by one until it is that long; otherwise do nothing.
   */
  method EnsureLengthWith<T>(v: seq<T>, minLen: nat, f: nat -> T) returns (w: seq<T>)
    ensures w == Extended(v, minLen, f)
  {
    w := v;
    if |w| < minLen {
      var k := 0;
      while |w| < minLen
        invariant |v| <= |w| <= minLen && k == |w| - |v|
        invariant w == v + seq(k, j requires 0 <= j => f(j))
        decreases minLen - |w|
      {
        w := w + [f(k)];
        k := k + 1;
      }
    }
  }

  /** A second `ensure_length_with` to the same length changes nothing, whatever its generator. */
  lemma ExtendedIdempotent<T>(v: seq<T>, minLen: nat, f: nat -> T, g: nat -> T)
    ensures Extended(Extended(v, minLen, f), minLen, g) == Extended(v, minLen, f)
  {
  }

  /** Padding to a length the vector already has is a no-op. */
  lemma ExtendedNoOp<T>(v: seq<T>, minLen: nat, f: nat -> T)
    requires minLen <= |v|
    ensures Extended(v, minLen, f) == v
  {
  }

  /**
   * `ensure_slot_with(index, f)`: pads to `index + 1` and returns the
   * element at `index` (the source returns a mutable reference to it).
   * `index + 1` is computed in `usize`, so `usize::MAX` itself panics.
   */
  method EnsureSlotWith<T>(v: seq<T>, index: nat, f: nat -> T) returns (w: seq<T>, elem: T)
    requires index < Lifetimes.USIZE_MAX
    ensures |w| > index && elem == w[index]
    ensures w == Extended(v, index + 1, f)
    ensures index < |v| ==> w == v && elem == v[index]
    ensures index >= |v| ==> elem == f(index - |v|)
  {
    w := EnsureLengthWith(v, index + 1, f);
    elem := w[index];
  }
}

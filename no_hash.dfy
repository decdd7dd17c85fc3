/**
 * `src/mem/no_hash.rs`: the identity hasher used for archetype-keyed maps, and
 * the random archetype-id generator.
 */
module NoHash {

  /** `u32::MAX`. */
  const U32_MAX: nat := 0xFFFF_FFFF

  const TWO_32: nat := 0x1_0000_0000

  const TWO_64: nat := 0x1_0000_0000_0000_0000

  /** `(i as u64) << 32`: a `u64` shift drops the bits pushed past bit 63. */
  function Shl32(i: nat): nat
  {
    (i * TWO_32) % TWO_64
  }

  /**
   * The hash `write_u32(i)` stores, `(i << 32) + i`: the addition cannot
   * overflow, and both 32-bit halves of the result are `i`.
   */
  function U32Hash(i: nat): (h: nat)
    requires i <= U32_MAX
    ensures h < TWO_64
    ensures h / TWO_32 == i && h % TWO_32 == i
  {
    ShiftFits(i);
    Shl32(i) + i
  }

  lemma ShiftFits(i: nat)
    requires i <= U32_MAX
    ensures Shl32(i) == i * TWO_32
    ensures i * TWO_32 + i < TWO_64
    ensures (i * TWO_32 + i) / TWO_32 == i && (i * TWO_32 + i) % TWO_32 == i
  {
    assert i * TWO_32 <= U32_MAX * TWO_32 by {
      assert i <= U32_MAX;
    }
    assert U32_MAX * TWO_32 + U32_MAX < TWO_64;
  }

  /** `NoOpHasher`: a `u64` that a single write sets and `finish` returns. */
  class NoOpHasher {
    var state: nat

    ghost predicate Valid()
      reads this
    {
      state < TWO_64
    }

    /** `NoOpHasher::default()`. */
    constructor ()
      ensures Valid() && state == 0
    {
      state := 0;
    }

    /** `write_u32`: expects a fresh hasher (`debug_assert_eq!(self.0, 0)`). */
    method WriteU32(i: nat)
      requires Valid() && state == 0 && i <= U32_MAX
      modifies this
      ensures Valid()
      ensures state == U32Hash(i)
    {
      state := U32Hash(i);
    }

    /** `write_u64`: expects a fresh hasher and stores `i` unchanged. */
    method WriteU64(i: nat)
      requires Valid() && state == 0 && i < TWO_64
      modifies this
      ensures Valid()
      ensures state == i
    {
      state := i;
    }

    /** `finish`: the stored value. */
    function Finish(): nat
      reads this
    {
      state
    }
  }

  /**
   * A fresh hasher fed `write_u32(i)` finishes with `i` in both halves;
   * fed `write_u64(i)` it finishes with `i`.
   */
  method HashOfU32AndU64(i: nat, j: nat) returns (h32: nat, h64: nat)
    requires i <= U32_MAX && j < TWO_64
    ensures h32 / TWO_32 == i && h32 % TWO_32 == i
    ensures h64 == j
  {
    var a := new NoOpHasher();
    a.WriteU32(i);
    h32 := a.Finish();
    var b := new NoOpHasher();
    b.WriteU64(j);
    h64 := b.Finish();
  }

  // --- Counting lemmas for the id generator ---

  /** The integers in `[lo, hi)`. */
  function Range(lo: nat, hi: nat): (r: set<nat>)
    ensures forall i :: i in r <==> lo <= i < hi
    ensures lo <= hi ==> |r| == hi - lo
    decreases hi - lo
  {
    if lo < hi then Range(lo, hi - 1) + {hi - 1} else {}
  }

  lemma {:induction false} SubsetSize<T>(a: set<T>, b: set<T>)
    requires a <= b
    ensures |a| <= |b|
    decreases |a|
  {
    if a != {} {
      var x :| x in a;
      SubsetSize(a - {x}, b - {x});
    }
  }

  /** A set of fewer than `u32::MAX` nonzero `u32` values misses some nonzero `u32`. */
  lemma FreshIdExists(ids: set<nat>)
    requires forall x :: x in ids ==> 1 <= x <= U32_MAX
    requires |ids| < U32_MAX
    ensures exists id :: 1 <= id <= U32_MAX && id !in ids
  {
    if forall id :: 1 <= id <= U32_MAX ==> id in ids {
      assert Range(1, U32_MAX + 1) <= ids;
      SubsetSize(Range(1, U32_MAX + 1), ids);
      assert false;
    }
  }

  /** `RandIdGen`: the set of archetype ids currently handed out. */
  class RandIdGen {
    var ids: set<nat>

    ghost predicate Valid()
      reads this
    {
      forall x :: x in ids ==> 1 <= x <= U32_MAX
    }

    /** `RandIdGen::default()`. */
    constructor ()
      ensures Valid() && ids == {}
    {
      ids := {};
    }

    /**
     * `alloc`: refuses (panics) once half the id space is in use; otherwise
     * returns a nonzero `u32` not yet handed out and records it. The source
     * draws random values until one is nonzero and new; a rejected draw changes
     * nothing, so the model takes the successful draw directly.
     */
    method Alloc() returns (id: nat)
      requires Valid() && |ids| < U32_MAX / 2
      modifies this
      ensures Valid()
      ensures 1 <= id <= U32_MAX && id !in old(ids)
      ensures ids == old(ids) + {id}
    {
      FreshIdExists(ids);
      id :| 1 <= id <= U32_MAX && id !in ids;
      ids := ids + {id};
    }

    /** `dealloc`: the id must be handed out (`debug_assert!(removed)`); it is released. */
    method Dealloc(id: nat)
      requires Valid() && id in ids
      modifies this
      ensures Valid()
      ensures ids == old(ids) - {id}
    {
      ids := ids - {id};
    }
  }

  /** Allocating an id and releasing it again restores the generator. */
  method AllocThenDealloc(g: RandIdGen) returns (id: nat)
    requires g.Valid() && |g.ids| < U32_MAX / 2
    modifies g
    ensures g.Valid() && g.ids == old(g.ids)
    ensures 1 <= id <= U32_MAX && id !in g.ids
  {
    id := g.Alloc();
    g.Dealloc(id);
  }
}

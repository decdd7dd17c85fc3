/**
 * `src/storage_new.rs`: a storage run that either owns its slot vector
 * (`cap` is the vector's real capacity) or borrows a slice from a parent
 * (`cap == usize::MAX`). Mutation goes through `update_slot_vec`, which
 * rebuilds the vector from its raw parts and writes the resulting capacity
 * and slice back into the run.
 */
module StorageNew {
  import opened Wrappers
  import opened Lifetimes
  import opened Entities
  import opened SlotRuns
  import StorageCore

  /** `StorageRun<'p, T>`: the capacity (or the borrowed marker) and the slot slice. */
  class StorageRun<T> {
    var cap: nat
    var slice: Run<T>

    /** An owned run's slice fits its capacity. */
    ghost predicate Valid()
      reads this
    {
      cap <= USIZE_MAX && (cap != USIZE_MAX ==> |slice| <= cap)
    }

    /** `StorageRun::new`: an owned, empty run. */
    constructor ()
      ensures Valid() && IsOwned()
      ensures cap == 0 && slice == []
    {
      cap := 0;
      slice := [];
    }

    /** `StorageRun::is_owned`. */
    predicate IsOwned()
      reads this
    {
      cap != USIZE_MAX
    }

    /** `try_as_mut_slice`: the slice only for an owned run. */
    function TryAsMutSlice(): (r: Option<Run<T>>)
      reads this
      ensures r.Some? <==> IsOwned()
      ensures r.Some? ==> r.value == slice
    {
      if IsOwned() then Some(slice) else None
    }

    /**
     * `update_slot_vec`, given the vector the closure left behind: only an
     * owned run may be updated (`expect` panics otherwise); the vector's
     * capacity and contents become the run's.
     */
    method UpdateSlotVec(vec: Run<T>, capacity: nat)
      requires Valid() && IsOwned()
      requires |vec| <= capacity < USIZE_MAX
      modifies this
      ensures Valid() && IsOwned()
      ensures slice == vec && cap == capacity
    {
      cap := capacity;
      slice := vec;
    }

    /**
     * `StorageRun::insert`: past the end, `update_slot_vec` resizes with
     * `None` to `slot + 1`; then the slot is replaced through `as_mut_slice`,
     * which panics on a borrowed run.
     */
    method Insert(e: Entity, v: T) returns (replaced: Option<T>)
      requires Valid() && IsOwned()
      requires e.slot < 0x1_0000_0000
      modifies this
      ensures Valid() && IsOwned()
      ensures slice == Placed(old(slice), e.slot, Full(e.lifetime, v))
      ensures replaced == Value(Lookup(old(slice), e.slot))
      ensures e.slot < old(|slice|) ==> cap == old(cap)
    {
      if e.slot >= |slice| {
        var grown := slice + seq(e.slot + 1 - |slice|, _ => Empty);
        var capacity: nat :| |grown| <= capacity < USIZE_MAX;
        UpdateSlotVec(grown, capacity);
      }
      replaced := Value(slice[e.slot]);
      slice := slice[e.slot := Full(e.lifetime, v)];
    }

    /**
     * `StorageRun::remove`: always through `update_slot_vec` (so a borrowed
     * run panics even for an out-of-range slot); out of range the closure
     * returns `None` at once, otherwise it takes the slot and pops trailing
     * `None` slots. Popping keeps the capacity.
     */
    method Remove(slot: nat) returns (removed: Option<T>)
      requires Valid() && IsOwned()
      modifies this
      ensures Valid() && IsOwned()
      ensures slice == Taken(old(slice), slot).0
      ensures removed == Value(Taken(old(slice), slot).1)
      ensures cap == old(cap)
    {
      var w, s := Take(slice, slot);
      UpdateSlotVec(w, cap);
      removed := Value(s);
    }

    /** `StorageRun::get`: the pair in a full slot; `None` past the end or for `None`. */
    function Get(idx: nat): (r: Option<(Lifetime, T)>)
      reads this
      ensures r.Some? <==> idx < |slice| && slice[idx].Full?
      ensures r.Some? ==> r.value == (slice[idx].lifetime, slice[idx].value)
    {
      StorageCore.GetSlotByIdx(slice, idx)
    }

    /** `StorageRun::is_empty`. */
    function IsEmpty(): (b: bool)
      reads this
      ensures b <==> |slice| == 0
      ensures b ==> forall i: nat :: Get(i) == None
    {
      |slice| == 0
    }

    /** `StorageRun::max_slot`: the length cast to `u32`. */
    function MaxSlot(): (m: nat)
      reads this
      ensures m < 0x1_0000_0000
      ensures |slice| < 0x1_0000_0000 ==> m == |slice|
    {
      StorageCore.MaxSlot(slice)
    }
  }

  /** A run that borrows its slice refuses mutable access. */
  method BorrowedRefusesMutation<T>(s: Run<T>) returns (access: Option<Run<T>>)
    ensures access == None
  {
    var run := new StorageRun<T>();
    run.cap, run.slice := USIZE_MAX, s;
    access := run.TryAsMutSlice();
  }

  /**
   * A new run, one insert at slot 3 and its removal: the growth is visible
   * through the slice (length 4, only slot 3 full), and the removal pops the
   * run back to empty.
   */
  method InsertRemoveRoundTrip<T>(e: Entity, v: T) returns (grownLen: nat, fetched: Option<(Lifetime, T)>, removed: Option<T>, emptyAfter: bool)
    requires e.slot == 3
    ensures grownLen == 4
    ensures fetched == Some((e.lifetime, v))
    ensures removed == Some(v)
    ensures emptyAfter
  {
    var run := new StorageRun<T>();
    var _ := run.Insert(e, v);
    grownLen := |run.slice|;
    fetched := run.Get(3);
    removed := run.Remove(3);
    PlaceThenTake([], 3, e.lifetime, v);
    emptyAfter := run.IsEmpty();
  }
}

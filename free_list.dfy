/**
 * `src/util/free_list.rs`: a slot vector with a bitset of reusable slots.
 * `alloc` takes the least free slot (the bitset iterates in ascending order)
 * or appends; `dealloc` frees a slot and takes its value.
 *
 * As written, the appending branch of `alloc` also marks the new slot free,
 * so the next `alloc` hands the same slot out again and overwrites the value
 * stored there. `AllocAsWritten` models that branch literally and
 * `AllocTwiceAsWritten` exhibits the overwrite; `Alloc` leaves the new slot
 * out of the free set, and the rest of the model uses it.
 */
module FreeLists {
  import opened Wrappers
  import NoHash
  import Entities

  /** `FreeList<T>`: the slots and the set of free slot indices. */
  class FreeList<T> {
    var slots: seq<Option<T>>
    var free: set<nat>

    /**
     * What both `alloc` variants keep: every free index is a slot, and the
     * slot count fits the `u32` indices handed out.
     */
    ghost predicate InRange()
      reads this
    {
      |slots| <= NoHash.U32_MAX + 1 && forall i :: i in free ==> i < |slots|
    }

    /** What the corrected `alloc` also keeps: a slot is free exactly when it is empty. */
    ghost predicate Valid()
      reads this
    {
      InRange() && forall i :: 0 <= i < |slots| ==> (i in free <==> slots[i].None?)
    }

    /** `FreeList::default()`. */
    constructor ()
      ensures Valid() && slots == [] && free == {}
    {
      slots := [];
      free := {};
    }

    /** `get`: the value of an occupied slot; `None` past the end or for an empty slot. */
    function Get(slot: nat): (r: Option<T>)
      reads this
      ensures r.Some? <==> slot < |slots| && slots[slot].Some?
      ensures r.Some? ==> r.value == slots[slot].value
    {
      if slot < |slots| then slots[slot] else None
    }

    /** `Index`: panics (here: is not callable) exactly when `get` is `None`. */
    function Index(slot: nat): (v: T)
      reads this
      requires Get(slot).Some?
      ensures slot < |slots| && slots[slot] == Some(v)
    {
      Get(slot).value
    }

    /**
     * `get_mut`, with the write made through the reference it returns:
     * an occupied slot takes `v`; otherwise nothing is written.
     */
    method GetMut(slot: nat, v: T) returns (found: bool)
      modifies this
      ensures found <==> old(Get(slot)).Some?
      ensures found ==> slots == old(slots)[slot := Some(v)]
      ensures !found ==> slots == old(slots)
      ensures free == old(free)
    {
      found := slot < |slots| && slots[slot].Some?;
      if found {
        slots := slots[slot := Some(v)];
      }
    }

    /**
     * `alloc` as written: the least free slot is reused; with none free,
     * the value is pushed at index `len` and that index is added to the
     * free set as well.
     */
    method AllocAsWritten(value: T) returns (slot: nat)
      requires InRange()
      requires free == {} ==> |slots| <= NoHash.U32_MAX
      modifies this
      ensures InRange()
      ensures old(free) != {} ==> slot in old(free) && (forall i :: i in old(free) ==> slot <= i)
      ensures old(free) != {} ==> slots == old(slots)[slot := Some(value)] && free == old(free) - {slot}
      ensures old(free) == {} ==> slot == old(|slots|) && slots == old(slots) + [Some(value)] && free == {slot}
    {
      if free != {} {
        var x :| x in free;
        Entities.LeastExists(free, x);
        slot :| slot in free && forall i :: i in free ==> slot <= i;
        free := free - {slot};
        slots := slots[slot := Some(value)];
      } else {
        slot := |slots|;
        slots := slots + [Some(value)];
        free := free + {slot};
      }
    }

    /**
     * `alloc` with the evidently intended appending branch: the slot it
     * returns was empty or new, so no live value is overwritten, and the
     * free set keeps matching the empty slots.
     */
    method Alloc(value: T) returns (slot: nat)
      requires Valid()
      requires free == {} ==> |slots| <= NoHash.U32_MAX
      modifies this
      ensures Valid()
      ensures old(Get(slot)) == None && Get(slot) == Some(value)
      ensures forall i :: i != slot ==> Get(i) == old(Get(i))
      ensures old(free) != {} ==> slot in old(free) && (forall i :: i in old(free) ==> slot <= i)
      ensures old(free) != {} ==> slots == old(slots)[slot := Some(value)] && free == old(free) - {slot}
      ensures old(free) == {} ==> slot == old(|slots|) && slots == old(slots) + [Some(value)] && free == {}
    {
      if free != {} {
        var x :| x in free;
        Entities.LeastExists(free, x);
        slot :| slot in free && forall i :: i in free ==> slot <= i;
        free := free - {slot};
        slots := slots[slot := Some(value)];
      } else {
        slot := |slots|;
        slots := slots + [Some(value)];
      }
    }

    /**
     * `dealloc`: the slot joins the free set and its value is taken; an
     * index past the end panics on the vector access.
     */
    method Dealloc(slot: nat) returns (taken: Option<T>)
      requires InRange() && slot < |slots|
      modifies this
      ensures InRange()
      ensures old(Valid()) ==> Valid()
      ensures taken == old(slots[slot])
      ensures slots == old(slots)[slot := None] && free == old(free) + {slot}
      ensures Get(slot) == None && forall i :: i != slot ==> Get(i) == old(Get(i))
    {
      free := free + {slot};
      taken := slots[slot];
      slots := slots[slot := None];
    }
  }

  /**
   * Two `alloc`s as written on a new list hand out slot 0 twice: the second
   * value overwrites the first, which can no longer be reached.
   */
  method AllocTwiceAsWritten<T>(a: T, b: T) returns (first: nat, second: nat, atFirst: Option<T>)
    ensures first == 0 && second == 0
    ensures atFirst == Some(b)
  {
    var l := new FreeList<T>();
    first := l.AllocAsWritten(a);
    second := l.AllocAsWritten(b);
    atFirst := l.Get(first);
  }

  /**
   * The corrected `alloc` on a new list: two values get slots 0 and 1 and
   * both stay reachable; after freeing slot 0, the next value reuses it.
   */
  method AllocTwice<T>(a: T, b: T, c: T) returns (first: nat, second: nat, atFirst: Option<T>, atSecond: Option<T>, third: nat, freed: Option<T>)
    ensures first == 0 && second == 1
    ensures atFirst == Some(a) && atSecond == Some(b)
    ensures freed == Some(a) && third == 0
  {
    var l := new FreeList<T>();
    first := l.Alloc(a);
    second := l.Alloc(b);
    atFirst := l.Get(first);
    atSecond := l.Get(second);
    freed := l.Dealloc(first);
    third := l.Alloc(c);
  }

  /** Under the corrected `alloc`, the slot vector never shrinks and a live value stays put until its slot is freed. */
  method AllocKeepsLive<T>(l: FreeList<T>, slot: nat, value: T) returns (newSlot: nat)
    requires l.Valid() && (l.free == {} ==> |l.slots| <= NoHash.U32_MAX)
    requires l.Get(slot).Some?
    modifies l
    ensures newSlot != slot && l.Get(slot) == old(l.Get(slot))
    ensures |l.slots| >= old(|l.slots|)
  {
    newSlot := l.Alloc(value);
  }
}

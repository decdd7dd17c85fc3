/**
 * `src/storage/core.rs`: `Storage<T>` maps an archetype to its run of slots.
 * `src/storage.rs` has the same `Storage` / `StorageRun` / `StorageSlot`
 * logic and `src/ecs/storage.rs` keys the same map by the raw archetype id;
 * all three are this class.
 *
 * The map is keyed by the archetype's id: `ArchetypeId` equality ignores the
 * debug lifetime (`KeyMatchesEq`).
 */
module StorageCore {
  import opened Wrappers
  import opened Lifetimes
  import opened Entities
  import opened SlotRuns

  /** The run map: archetype id to slot vector. */
  type Runs<T> = map<nat, Run<T>>

  /** The key an archetype's run is stored under. */
  function Key(a: ArchetypeId): nat
  {
    a.id
  }

  /** Two archetype ids select the same run exactly when they compare equal. */
  lemma KeyMatchesEq(a: ArchetypeId, b: ArchetypeId)
    ensures Key(a) == Key(b) <==> ArchetypeIdEq(a, b)
  {
  }

  /** Every run is canonical: empty, or ending in a full slot. */
  ghost predicate AllTrimmed<T>(runs: Runs<T>)
  {
    forall k :: k in runs ==> Trimmed(runs[k])
  }

  /** The run of a key, or the empty run a missing key would be created with. */
  function RunOf<T>(runs: Runs<T>, k: nat): (r: Run<T>)
    ensures k !in runs ==> r == []
    ensures k in runs ==> r == runs[k]
  {
    if k in runs then runs[k] else []
  }

  /** `Storage::get`: the component stored for the entity, if any. */
  function GetIn<T>(runs: Runs<T>, e: Entity): (r: Option<T>)
    ensures r.Some? <==> Key(e.arch) in runs && e.slot < |runs[Key(e.arch)]| && runs[Key(e.arch)][e.slot].Full?
    ensures r.Some? ==> r.value == runs[Key(e.arch)][e.slot].value
  {
    if Key(e.arch) in runs then Value(Lookup(runs[Key(e.arch)], e.slot)) else None
  }

  /** The run map after `Storage::insert(e, v)`. */
  function InsertedIn<T>(runs: Runs<T>, e: Entity, v: T): Runs<T>
  {
    runs[Key(e.arch) := Placed(RunOf(runs, Key(e.arch)), e.slot, Full(e.lifetime, v))]
  }

  /**
   * The run map and the removed component after `Storage::try_remove(e)`:
   * no run, no change; otherwise the run's `remove`, and the run is dropped
   * from the map when a successful removal left it empty.
   */
  function RemovedIn<T>(runs: Runs<T>, e: Entity): (Runs<T>, Option<T>)
  {
    var k := Key(e.arch);
    if k !in runs then (runs, None)
    else
      var (w, s) := Taken(runs[k], e.slot);
      (if s.Full? && |w| == 0 then runs - {k} else runs[k := w], Value(s))
  }

  // --- Properties of the map transitions ---

  /** After `insert(e, v)`, `get(e)` is `v`; every other entity reads as before. */
  lemma InsertThenGet<T>(runs: Runs<T>, e: Entity, v: T, other: Entity)
    ensures GetIn(InsertedIn(runs, e, v), e) == Some(v)
    ensures Key(other.arch) != Key(e.arch) || other.slot != e.slot ==>
      GetIn(InsertedIn(runs, e, v), other) == GetIn(runs, other)
  {
    if Key(other.arch) == Key(e.arch) {
      PlacedLookup(RunOf(runs, Key(e.arch)), e.slot, Full(e.lifetime, v), other.slot);
    }
  }

  /**
   * `try_remove(e)` returns what `get(e)` returned and leaves `get(e)` empty;
   * every other entity reads as before.
   */
  lemma RemoveThenGet<T>(runs: Runs<T>, e: Entity, other: Entity)
    ensures RemovedIn(runs, e).1 == GetIn(runs, e)
    ensures GetIn(RemovedIn(runs, e).0, e) == None
    ensures Key(other.arch) != Key(e.arch) || other.slot != e.slot ==>
      GetIn(RemovedIn(runs, e).0, other) == GetIn(runs, other)
  {
    var k := Key(e.arch);
    if k in runs {
      TakenLookup(runs[k], e.slot, e.slot);
      if Key(other.arch) == k {
        TakenLookup(runs[k], e.slot, other.slot);
      }
    }
  }

  /** Insertion keeps every run canonical. */
  lemma InsertKeepsTrimmed<T>(runs: Runs<T>, e: Entity, v: T)
    requires AllTrimmed(runs)
    ensures AllTrimmed(InsertedIn(runs, e, v))
  {
    PlacedTrimmed(RunOf(runs, Key(e.arch)), e.slot, e.lifetime, v);
  }

  /** Removal keeps every run canonical. */
  lemma RemoveKeepsTrimmed<T>(runs: Runs<T>, e: Entity)
    requires AllTrimmed(runs)
    ensures AllTrimmed(RemovedIn(runs, e).0)
  {
    if Key(e.arch) in runs {
      TakenTrimmed(runs[Key(e.arch)], e.slot);
    }
  }

  /** A successful removal never leaves an empty run behind in the map. */
  lemma RemovalDropsEmptiedRun<T>(runs: Runs<T>, e: Entity)
    requires RemovedIn(runs, e).1.Some?
    ensures Key(e.arch) in RemovedIn(runs, e).0 ==> RemovedIn(runs, e).0[Key(e.arch)] != []
  {
  }

  /**
   * Inserting into an entity without the component and removing it again
   * restores the map exactly, provided no empty run was sitting under the key.
   */
  lemma {:induction false} InsertThenRemove<T>(runs: Runs<T>, e: Entity, v: T)
    requires AllTrimmed(runs) && GetIn(runs, e) == None
    requires Key(e.arch) in runs ==> runs[Key(e.arch)] != []
    ensures RemovedIn(InsertedIn(runs, e, v), e) == (runs, Some(v))
  {
    var k := Key(e.arch);
    var r := RunOf(runs, k);
    PlaceThenTake(r, e.slot, e.lifetime, v);
    if k !in runs {
      assert InsertedIn(runs, e, v) - {k} == runs;
    } else {
      assert InsertedIn(runs, e, v)[k := r] == runs;
    }
  }

  /** `StorageRunView::get_slot_by_idx`: the pair in a full slot, `None` past the end or for `Empty`. */
  function GetSlotByIdx<T>(run: Run<T>, idx: nat): (r: Option<(Lifetime, T)>)
    ensures r.Some? <==> idx < |run| && run[idx].Full?
    ensures r.Some? ==> r.value == (run[idx].lifetime, run[idx].value)
  {
    if idx < |run| then Pair(run[idx]) else None
  }

  /** `StorageRunView::max_slot`: the run's length cast to `u32`. */
  function MaxSlot<T>(run: Run<T>): (m: nat)
    ensures m < 0x1_0000_0000
    ensures |run| < 0x1_0000_0000 ==> m == |run|
  {
    |run| % 0x1_0000_0000
  }

  /** Every slot at or past `max_slot` reads as absent. */
  lemma PastMaxSlotIsAbsent<T>(run: Run<T>, idx: nat)
    requires |run| < 0x1_0000_0000 && idx >= MaxSlot(run)
    ensures GetSlotByIdx(run, idx) == None
  {
  }

  /** `Storage<T>`: one run per archetype. */
  class Storage<T> {
    var runs: Runs<T>

    ghost predicate Valid()
      reads this
    {
      AllTrimmed(runs)
    }

    /** `Storage::new`: no runs. */
    constructor ()
      ensures Valid() && runs == map[]
    {
      runs := map[];
    }

    /** `Storage::get_run`: the archetype's run, if it has one (a dead archetype is only logged). */
    function GetRun(a: ArchetypeId): (r: Option<Run<T>>)
      reads this
      ensures r.Some? <==> Key(a) in runs
      ensures r.Some? ==> r.value == runs[Key(a)]
    {
      if Key(a) in runs then Some(runs[Key(a)]) else None
    }

    /** `Storage::get_or_create_run`: the archetype's run, created empty if missing. */
    method GetOrCreateRun(a: ArchetypeId) returns (run: Run<T>)
      requires Valid()
      modifies this
      ensures Valid()
      ensures Key(a) in old(runs) ==> runs == old(runs)
      ensures Key(a) !in old(runs) ==> runs == old(runs)[Key(a) := []]
      ensures run == runs[Key(a)]
    {
      if Key(a) !in runs {
        runs := runs[Key(a) := []];
      }
      run := runs[Key(a)];
    }

    /**
     * `Storage::get`: the archetype's run, then `get_slot_by_idx` on the
     * entity's slot, keeping the component (a dead entity is only logged).
     */
    function Get(e: Entity): (r: Option<T>)
      reads this
      ensures r.Some? <==> GetRun(e.arch).Some? && GetSlotByIdx(GetRun(e.arch).value, e.slot).Some?
      ensures r.Some? ==> r.value == GetSlotByIdx(GetRun(e.arch).value, e.slot).value.1
    {
      GetIn(runs, e)
    }

    /** `Storage::has`. */
    predicate Has(e: Entity)
      reads this
    {
      Get(e).Some?
    }

    /**
     * `Storage::insert`: get or create the run, grow it and replace the
     * slot; returns the replaced component.
     */
    method Insert(e: Entity, v: T) returns (replaced: Option<T>)
      requires Valid()
      modifies this
      ensures Valid()
      ensures runs == InsertedIn(old(runs), e, v)
      ensures replaced == GetIn(old(runs), e)
      ensures Get(e) == Some(v) && Has(e)
    {
      var run := GetOrCreateRun(e.arch);
      var w, previous := SlotRuns.Insert(run, e.slot, Full(e.lifetime, v));
      runs := runs[Key(e.arch) := w];
      replaced := Value(previous);
      InsertKeepsTrimmed(old(runs), e, v);
      InsertThenGet(old(runs), e, v, e);
    }

    /**
     * `Storage::add`: `insert` that warns (only) when the entity already had
     * the component; the state effect is the same.
     */
    method Add(e: Entity, v: T)
      requires Valid()
      modifies this
      ensures Valid()
      ensures runs == InsertedIn(old(runs), e, v)
      ensures Get(e) == Some(v) && Has(e)
    {
      var run := GetOrCreateRun(e.arch);
      var w, _ := SlotRuns.Insert(run, e.slot, Full(e.lifetime, v));
      runs := runs[Key(e.arch) := w];
      InsertKeepsTrimmed(old(runs), e, v);
      InsertThenGet(old(runs), e, v, e);
    }

    /**
     * `Storage::try_remove`: no run, `None`; otherwise remove from the run
     * and drop the run if a successful removal emptied it.
     */
    method TryRemove(e: Entity) returns (removed: Option<T>)
      requires Valid()
      modifies this
      ensures Valid()
      ensures (runs, removed) == RemovedIn(old(runs), e)
      ensures removed == old(Get(e)) && Get(e) == None
    {
      var k := Key(e.arch);
      if k !in runs {
        return None;
      }
      var w, s := Take(runs[k], e.slot);
      removed := Value(s);
      if removed.Some? && |w| == 0 {
        runs := runs - {k};
      } else {
        runs := runs[k := w];
      }
      RemoveKeepsTrimmed(old(runs), e);
      RemoveThenGet(old(runs), e, e);
    }

    /** `Storage::remove`: `try_remove` that warns (only) when nothing was removed. */
    method Remove(e: Entity)
      requires Valid()
      modifies this
      ensures Valid()
      ensures runs == RemovedIn(old(runs), e).0
      ensures Get(e) == None
    {
      var _ := TryRemove(e);
    }

    /** `Index for Storage`: panics exactly when `get` is `None`. */
    function Index(e: Entity): (v: T)
      reads this
      requires Has(e)
      ensures Key(e.arch) in runs && e.slot < |runs[Key(e.arch)]|
      ensures runs[Key(e.arch)][e.slot] == Full(runs[Key(e.arch)][e.slot].lifetime, v)
    {
      Get(e).value
    }

    /**
     * `IndexMut for Storage` / `get_mut` followed by a write through the
     * reference: the entity must have the component; its value is replaced
     * and its lifetime kept.
     */
    method IndexMut(e: Entity, v: T)
      requires Valid() && Has(e)
      modifies this
      ensures Valid()
      ensures runs == old(runs)[Key(e.arch) := old(runs[Key(e.arch)])[e.slot := Full(old(runs[Key(e.arch)][e.slot].lifetime), v)]]
      ensures Get(e) == Some(v)
    {
      var k := Key(e.arch);
      runs := runs[k := runs[k][e.slot := Full(runs[k][e.slot].lifetime, v)]];
    }

    /** `Storage::clear`: drop every run. */
    method Clear()
      modifies this
      ensures Valid() && runs == map[]
    {
      runs := map[];
    }
  }
}

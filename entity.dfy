/**
 * `src/entity.rs`: archetype and entity handles, and the `Archetype` that
 * hands out entity slots (reusing the least free one first) and owns the
 * lifetimes of the entities living in them.
 */
module Entities {
  import opened Wrappers
  import opened Lifetimes
  import NoHash

  /** `ArchetypeId`: the archetype's debug lifetime and its nonzero `u32` id. */
  datatype ArchetypeId = ArchetypeId(lifetime: Lifetime, id: nat)

  /** `Entity`: the entity's debug lifetime, its archetype and its slot there. */
  datatype Entity = Entity(lifetime: Lifetime, arch: ArchetypeId, slot: nat)

  /**
   * The derived `PartialEq` of `ArchetypeId`: the `DebugLifetime` fields always
   * compare equal, so two archetype ids are equal exactly when their numbers are.
   */
  function ArchetypeIdEq(a: ArchetypeId, b: ArchetypeId): (r: bool)
    ensures r <==> a.id == b.id
  {
    DebugLifetimeEq(a.lifetime, b.lifetime) && a.id == b.id
  }

  /**
   * The derived `Hash` of `ArchetypeId` finished by a `NoOpHasher`: hashing a
   * `DebugLifetime` writes nothing, and the id goes through `write_u32`.
   */
  function ArchetypeHash(a: ArchetypeId): (h: nat)
    requires 1 <= a.id <= NoHash.U32_MAX
    ensures h < NoHash.TWO_64
    ensures h % NoHash.TWO_32 == a.id
  {
    NoHash.U32Hash(a.id)
  }

  /** The hash agrees with equality: equal ids hash alike, and distinct ids never collide. */
  lemma HashMatchesEq(a: ArchetypeId, b: ArchetypeId)
    requires 1 <= a.id <= NoHash.U32_MAX && 1 <= b.id <= NoHash.U32_MAX
    ensures ArchetypeIdEq(a, b) <==> ArchetypeHash(a) == ArchetypeHash(b)
  {
    if ArchetypeHash(a) == ArchetypeHash(b) {
      assert a.id == ArchetypeHash(a) % NoHash.TWO_32;
    }
  }

  /** A set of slot indices holding `x` has a least element. */
  lemma {:induction false} LeastExists(s: set<nat>, x: nat)
    requires x in s
    ensures exists m :: m in s && forall y :: y in s ==> m <= y
    decreases x
  {
    if !(forall y :: y in s ==> x <= y) {
      var y :| y in s && y < x;
      LeastExists(s, y);
    }
  }

  /**
   * `Archetype`: its id, its owned lifetime, one owned entity lifetime per
   * occupied slot, and the set of free slot indices.
   */
  class Archetype {
    var id: nat
    var lifetime: OwnedLifetime
    var slots: seq<Option<OwnedLifetime>>
    var freeSlots: set<nat>

    /** A slot is free exactly when it holds no entity; there are at most `u32::MAX` slots. */
    ghost predicate Valid()
      reads this
    {
      && 1 <= id <= NoHash.U32_MAX
      && |slots| <= NoHash.U32_MAX
      && (forall i :: i in freeSlots ==> i < |slots| && slots[i].None?)
      && (forall i :: 0 <= i < |slots| && slots[i].None? ==> i in freeSlots)
    }

    /** Every lifetime the archetype owns was issued by the registry. */
    ghost predicate ValidIn(reg: Registry)
      reads this, reg
    {
      && lifetime.lifetime in reg.issued
      && (forall i :: 0 <= i < |slots| && slots[i].Some? ==> slots[i].value.lifetime in reg.issued)
    }

    /** No slot below `n` stores an owned lifetime equal to `h`. */
    ghost predicate UnownedBelow(h: Lifetime, n: nat)
      reads this
    {
      forall i :: 0 <= i < n && i < |slots| && slots[i].Some? ==> slots[i].value.lifetime != h
    }

    /** No slot of the archetype stores `h`. */
    ghost predicate Unowned(h: Lifetime)
      reads this
    {
      UnownedBelow(h, |slots|)
    }

    /** No slot below `n` stores a lifetime on registry slot `j`. */
    ghost predicate SlotUnusedBelow(j: nat, n: nat)
      reads this
    {
      forall i :: 0 <= i < n && i < |slots| && slots[i].Some? ==> slots[i].value.lifetime.slot != j
    }

    /** No stored lifetime of the archetype lives on registry slot `j`. */
    ghost predicate SlotUnused(j: nat)
      reads this
    {
      SlotUnusedBelow(j, |slots|)
    }

    /**
     * `Archetype::new`: allocate a fresh id from the global generator and a
     * new lifetime for the archetype; no slots yet.
     */
    constructor (name: Option<string>, ids: NoHash.RandIdGen, reg: Registry)
      requires ids.Valid() && |ids.ids| < NoHash.U32_MAX / 2
      requires reg.Valid()
      modifies ids, reg
      ensures Valid() && ValidIn(reg) && reg.Valid() && ids.Valid()
      ensures id !in old(ids.ids) && ids.ids == old(ids.ids) + {id}
      ensures lifetime.lifetime !in old(reg.issued) && reg.issued == old(reg.issued) + {lifetime.lifetime}
      ensures lifetime.lifetime.slot < |reg.table| && reg.IsAlive(lifetime.lifetime)
      ensures |reg.table| >= old(|reg.table|)
      ensures forall j :: 0 <= j < old(|reg.table|) && j != lifetime.lifetime.slot ==> reg.table[j] == old(reg.table[j])
      ensures reg.pool == old(reg.pool) - {lifetime.lifetime.slot}
      ensures slots == [] && freeSlots == {}
    {
      var i := ids.Alloc();
      var l := reg.New(name);
      id := i;
      lifetime := OwnedLifetime(l);
      slots := [];
      freeSlots := {};
    }

    /** `Archetype::id`. */
    function Id(): (a: ArchetypeId)
      reads this
      ensures a.id == id && a.lifetime == lifetime.lifetime
    {
      ArchetypeId(lifetime.lifetime, id)
    }

    /**
     * `Archetype::spawn`: create a lifetime for the entity, take the least free
     * slot (or append one, refusing to reach `u32::MAX` slots) and store the
     * entity's owned lifetime there.
     */
    method Spawn(name: Option<string>, reg: Registry) returns (e: Entity)
      requires Valid() && reg.Valid() && ValidIn(reg)
      requires freeSlots == {} ==> |slots| != NoHash.U32_MAX
      modifies this, reg
      ensures Valid() && reg.Valid() && ValidIn(reg)
      ensures id == old(id) && lifetime == old(lifetime)
      ensures e.arch == Id()
      ensures e.lifetime !in old(reg.issued) && reg.issued == old(reg.issued) + {e.lifetime}
      ensures e.lifetime.slot < |reg.table| && reg.IsAlive(e.lifetime)
      ensures old(freeSlots) != {} ==> e.slot in old(freeSlots) && (forall x :: x in old(freeSlots) ==> e.slot <= x)
      ensures old(freeSlots) != {} ==> slots == old(slots)[e.slot := Some(OwnedLifetime(e.lifetime))]
      ensures old(freeSlots) == {} ==> e.slot == old(|slots|) && slots == old(slots) + [Some(OwnedLifetime(e.lifetime))]
      ensures freeSlots == old(freeSlots) - {e.slot}
      ensures forall h :: h in old(reg.issued) ==> (reg.IsAlive(h) <==> old(reg.IsAlive(h)))
      ensures |reg.table| >= old(|reg.table|)
      ensures forall j :: 0 <= j < old(|reg.table|) && j != e.lifetime.slot ==> reg.table[j] == old(reg.table[j])
      ensures reg.pool == old(reg.pool) - {e.lifetime.slot}
    {
      var l := reg.New(name);
      var slot: nat;
      if freeSlots != {} {
        var some :| some in freeSlots;
        LeastExists(freeSlots, some);
        slot :| slot in freeSlots && forall x :: x in freeSlots ==> slot <= x;
        freeSlots := freeSlots - {slot};
      } else {
        slot := |slots|;
        slots := slots + [None];
      }
      slots := slots[slot := Some(OwnedLifetime(l))];
      e := Entity(l, Id(), slot);
    }

    /**
     * `Archetype::despawn`: an entity of another archetype, or one already
     * dead, is logged and ignored; otherwise its slot is freed and the owned
     * lifetime stored there is dropped, which destroys it.
     */
    method Despawn(e: Entity, reg: Registry)
      requires Valid() && reg.Valid() && ValidIn(reg)
      requires e.lifetime in reg.issued
      requires e.arch.id == id && reg.IsAlive(e.lifetime) ==> e.slot < |slots|
      modifies this, reg
      ensures Valid() && reg.Valid() && ValidIn(reg)
      ensures id == old(id) && lifetime == old(lifetime)
      ensures reg.issued == old(reg.issued)
      ensures e.arch.id != id || !old(reg.IsAlive(e.lifetime)) ==>
        slots == old(slots) && freeSlots == old(freeSlots) && reg.table == old(reg.table) && reg.pool == old(reg.pool)
      ensures e.arch.id == id && old(reg.IsAlive(e.lifetime)) ==>
        slots == old(slots)[e.slot := None] && freeSlots == old(freeSlots) + {e.slot}
      ensures |reg.table| == old(|reg.table|)
      ensures e.arch.id == id && old(reg.IsAlive(e.lifetime)) && old(slots[e.slot]).Some? ==>
        !reg.IsAlive(old(slots[e.slot]).value.lifetime)
      ensures e.arch.id == id && old(reg.IsAlive(e.lifetime)) && old(slots[e.slot]).None? ==>
        reg.table == old(reg.table) && reg.pool == old(reg.pool)
      ensures e.arch.id == id && old(reg.IsAlive(e.lifetime)) && old(slots[e.slot]).Some? ==>
        var o := old(slots[e.slot]).value.lifetime;
        !old(reg.IsAlive(o)) ==> reg.table == old(reg.table) && reg.pool == old(reg.pool)
      ensures e.arch.id == id && old(reg.IsAlive(e.lifetime)) && old(slots[e.slot]).Some? ==>
        var o := old(slots[e.slot]).value.lifetime;
        old(reg.IsAlive(o)) ==>
          && reg.table == old(reg.table)[o.slot := SlotData(o.gen + 1, 0, None, old(reg.table[o.slot].currName))]
          && reg.pool - {o.slot} == old(reg.pool)
          && (o.slot in reg.pool <==> reg.table[o.slot].gen < U64_MAX)
      ensures forall h :: h in reg.issued && !old(reg.IsAlive(h)) ==> !reg.IsAlive(h)
      ensures forall h :: h in reg.issued && old(reg.IsAlive(h)) && !reg.IsAlive(h) ==>
        e.arch.id == id && old(reg.IsAlive(e.lifetime)) && old(slots[e.slot]) == Some(OwnedLifetime(h))
      ensures forall j :: 0 <= j < |reg.table| ==> reg.table[j].gen >= old(reg.table[j].gen)
    {
      if e.arch.id != id {
        return;
      }
      if !reg.IsAlive(e.lifetime) {
        return;
      }
      var old_slot := slots[e.slot];
      freeSlots := freeSlots + {e.slot};
      slots := slots[e.slot := None];
      if old_slot.Some? {
        reg.DropOwned(old_slot.value);
      }
    }

    /**
     * `Drop for Archetype`: give the id back to the global generator, then
     * drop the fields in order, destroying the archetype's lifetime and every
     * entity lifetime still stored in a slot.
     */
    method Drop(ids: NoHash.RandIdGen, reg: Registry)
      requires Valid() && reg.Valid() && ValidIn(reg)
      requires ids.Valid() && id in ids.ids
      modifies ids, reg
      ensures ids.Valid() && ids.ids == old(ids.ids) - {id}
      ensures reg.Valid() && reg.issued == old(reg.issued)
      ensures !reg.IsAlive(lifetime.lifetime)
      ensures forall i :: 0 <= i < |slots| && slots[i].Some? ==> !reg.IsAlive(slots[i].value.lifetime)
      ensures |reg.table| == old(|reg.table|) && old(reg.pool) <= reg.pool
      ensures forall h :: h in reg.issued && h != lifetime.lifetime && Unowned(h) ==>
        (reg.IsAlive(h) <==> old(reg.IsAlive(h)))
      ensures forall j :: 0 <= j < |reg.table| && j != lifetime.lifetime.slot && SlotUnused(j) ==>
        reg.table[j] == old(reg.table[j])
    {
      ids.Dealloc(id);
      reg.DropOwned(lifetime);
      DropSlots(reg);
    }

    /** The slot field's drop: every stored entity lifetime is destroyed, in slot order. */
    method DropSlots(reg: Registry)
      requires reg.Valid()
      requires forall i :: 0 <= i < |slots| && slots[i].Some? ==> slots[i].value.lifetime in reg.issued
      modifies reg
      ensures reg.Valid() && reg.issued == old(reg.issued)
      ensures forall i :: 0 <= i < |slots| && slots[i].Some? ==> !reg.IsAlive(slots[i].value.lifetime)
      ensures forall h :: h in reg.issued && !old(reg.IsAlive(h)) ==> !reg.IsAlive(h)
      ensures |reg.table| == old(|reg.table|) && old(reg.pool) <= reg.pool
      ensures forall h :: h in reg.issued && Unowned(h) ==> (reg.IsAlive(h) <==> old(reg.IsAlive(h)))
      ensures forall j :: 0 <= j < |reg.table| && SlotUnused(j) ==> reg.table[j] == old(reg.table[j])
    {
      var i := 0;
      while i < |slots|
        invariant 0 <= i <= |slots|
        invariant reg.Valid() && reg.issued == old(reg.issued)
        invariant forall k :: 0 <= k < i && slots[k].Some? ==> !reg.IsAlive(slots[k].value.lifetime)
        invariant forall h :: h in reg.issued && !old(reg.IsAlive(h)) ==> !reg.IsAlive(h)
        invariant |reg.table| == old(|reg.table|) && old(reg.pool) <= reg.pool
        invariant forall h :: h in reg.issued && UnownedBelow(h, i) ==> (reg.IsAlive(h) <==> old(reg.IsAlive(h)))
        invariant forall j :: 0 <= j < |reg.table| && SlotUnusedBelow(j, i) ==> reg.table[j] == old(reg.table[j])
      {
        if slots[i].Some? {
          reg.DropOwned(slots[i].value);
        }
        i := i + 1;
      }
    }
  }

  /** Two spawns into an archetype with no slots yet take slots 0 and 1. */
  method SpawnPair(arch: Archetype, reg: Registry) returns (a: Entity, b: Entity)
    requires arch.Valid() && reg.Valid() && arch.ValidIn(reg) && arch.slots == []
    modifies arch, reg
    ensures arch.Valid() && reg.Valid() && arch.ValidIn(reg)
    ensures arch.id == old(arch.id) && arch.lifetime == old(arch.lifetime)
    ensures a.slot == 0 && b.slot == 1 && a.arch == b.arch == arch.Id()
    ensures |arch.slots| == 2 && arch.freeSlots == {} && arch.slots[0] == Some(OwnedLifetime(a.lifetime))
    ensures reg.issued == old(reg.issued) + {a.lifetime, b.lifetime}
    ensures a.lifetime !in old(reg.issued) && b.lifetime !in old(reg.issued) && a.lifetime != b.lifetime
    ensures reg.IsAlive(a.lifetime) && reg.IsAlive(b.lifetime)
    ensures forall h :: h in old(reg.issued) ==> (reg.IsAlive(h) <==> old(reg.IsAlive(h)))
  {
    a := arch.Spawn(None, reg);
    b := arch.Spawn(None, reg);
  }

  /**
   * Despawning the entity in slot 0 of a full two-slot archetype, then
   * spawning twice: the first spawn reuses slot 0, the second appends slot 2.
   */
  method ReuseThenAppend(arch: Archetype, e: Entity, reg: Registry) returns (x: Entity, y: Entity)
    requires arch.Valid() && reg.Valid() && arch.ValidIn(reg)
    requires |arch.slots| == 2 && arch.freeSlots == {} && e.slot == 0 && e.arch.id == arch.id
    requires arch.slots[0] == Some(OwnedLifetime(e.lifetime)) && e.lifetime in reg.issued && reg.IsAlive(e.lifetime)
    modifies arch, reg
    ensures arch.Valid() && reg.Valid() && arch.ValidIn(reg)
    ensures x.slot == 0 && y.slot == 2
    ensures reg.issued == old(reg.issued) + {x.lifetime, y.lifetime}
    ensures !reg.IsAlive(e.lifetime) && reg.IsAlive(x.lifetime) && reg.IsAlive(y.lifetime)
    ensures forall h :: h in old(reg.issued) && h != e.lifetime ==> (reg.IsAlive(h) <==> old(reg.IsAlive(h)))
  {
    arch.Despawn(e, reg);
    x := arch.Spawn(None, reg);
    y := arch.Spawn(None, reg);
  }

  /**
   * Despawning the entity in slot 0 of a full two-slot archetype kills it;
   * the next spawn reuses slot 0.
   */
  method DespawnThenReuse(arch: Archetype, e: Entity, reg: Registry) returns (aliveAfterDespawn: bool, x: Entity)
    requires arch.Valid() && reg.Valid() && arch.ValidIn(reg)
    requires |arch.slots| == 2 && arch.freeSlots == {} && e.slot == 0 && e.arch.id == arch.id
    requires arch.slots[0] == Some(OwnedLifetime(e.lifetime)) && e.lifetime in reg.issued && reg.IsAlive(e.lifetime)
    modifies arch, reg
    ensures arch.Valid() && reg.Valid() && arch.ValidIn(reg)
    ensures !aliveAfterDespawn && x.slot == 0
  {
    arch.Despawn(e, reg);
    aliveAfterDespawn := reg.IsAlive(e.lifetime);
    x := arch.Spawn(None, reg);
  }

  /**
   * The `ids_are_unique` scenario: two archetypes get distinct ids, spawns
   * fill slots 0 and 1 in each, a despawned slot is reused first and the next
   * spawn appends. Returns the slots handed out (entities 1 to 7, in order)
   * and whether entities 1 to 6 are alive after the sixth spawn.
   */
  method IdsAreUnique() returns (distinct: bool, spawned: seq<nat>, alive: seq<bool>, thirdAliveAfterDespawn: bool)
    ensures distinct
    ensures spawned == [0, 1, 0, 1, 0, 2, 0]
    ensures alive == [false, true, true, true, true, true]
    ensures !thirdAliveAfterDespawn
  {
    var ids := new NoHash.RandIdGen();
    var reg := new Registry();
    var arch1 := new Archetype(Some("Archetype 1"), ids, reg);
    var arch2 := new Archetype(Some("Archetype 2"), ids, reg);
    distinct := !ArchetypeIdEq(arch1.Id(), arch2.Id());

    var e1, e2 := SpawnPair(arch1, reg);
    var e3, e4 := SpawnPair(arch2, reg);
    assert reg.IsAlive(e1.lifetime) && reg.IsAlive(e2.lifetime);
    var e5, e6 := ReuseThenAppend(arch1, e1, reg);
    alive := [reg.IsAlive(e1.lifetime), reg.IsAlive(e2.lifetime), reg.IsAlive(e3.lifetime),
              reg.IsAlive(e4.lifetime), reg.IsAlive(e5.lifetime), reg.IsAlive(e6.lifetime)];
    var e7;
    thirdAliveAfterDespawn, e7 := DespawnThenReuse(arch2, e3, reg);
    spawned := [e1.slot, e2.slot, e3.slot, e4.slot, e5.slot, e6.slot, e7.slot];
  }
}

/**
 * The lifetime registry of `src/debug/lifetime.rs`, in the debug configuration
 * (`debug_assertions` on, real lifetimes).
 *
 * Every `Lifetime` handle names a slot of a global table and the generation it
 * captured; it is alive while the slot still has that generation. The global and
 * thread-local slot pools are abstracted as one free set of slot indices, and
 * the table itself is a `Registry` object that callers pass around.
 */
module Lifetimes {
  import opened Wrappers

  /** `u64::MAX`, the largest generation a slot can reach. */
  const U64_MAX: nat := 0xFFFF_FFFF_FFFF_FFFF

  /** `usize::MAX` on a 64-bit target, the largest dependency count. */
  const USIZE_MAX: nat := 0xFFFF_FFFF_FFFF_FFFF

  /** A lifetime handle: the slot it refers to and the generation it captured. */
  datatype Lifetime = Lifetime(slot: nat, gen: nat)

  /** The mutex-guarded data of one slot (`SlotDataInner`). */
  datatype SlotData = SlotData(gen: nat, deps: nat, currName: Option<string>, deadName: Option<string>)

  /** A slot as a newly allocated pool block holds it. */
  const FRESH_SLOT: SlotData := SlotData(1, 0, None, None)

  /** `Dependent<L>`: a handle whose existence is counted in its slot's `deps`. */
  datatype Dependent = Dependent(lifetime: Lifetime)

  /** `OwnedLifetime<L>`: a handle that destroys its lifetime when dropped. */
  datatype OwnedLifetime = OwnedLifetime(lifetime: Lifetime)

  /** `Lifetime::eq`: two handles are equal when they share the slot and the generation. */
  function LifetimeEq(a: Lifetime, b: Lifetime): (r: bool)
    ensures r <==> a == b
  {
    a.slot == b.slot && a.gen == b.gen
  }

  /** `DebugLifetime`'s `PartialEq`: any two debug lifetimes compare equal. */
  function DebugLifetimeEq(a: Lifetime, b: Lifetime): (r: bool)
    ensures r
  {
    true
  }

  datatype Ordering = Less | Equal | Greater

  /** `DebugLifetime`'s `Ord`: every comparison is `Equal`. */
  function DebugLifetimeCmp(a: Lifetime, b: Lifetime): (r: Ordering)
    ensures r == Equal
  {
    Equal
  }

  /** `NonZeroU64::saturating_add(1)`. */
  function SaturatingInc(g: nat): (r: nat)
    requires g <= U64_MAX
    ensures g <= r <= U64_MAX
    ensures r == g <==> g == U64_MAX
    ensures g < U64_MAX ==> r == g + 1
  {
    if g < U64_MAX then g + 1 else U64_MAX
  }

  /** What `fmt_lifetime_name` shows for a stored label. */
  function ShownName(n: Option<string>): string
  {
    match n
    case Some(s) => s
    case None => "<name unspecified>"
  }

  // --- The table transitions, as functions of the table ---

  /** The table after `try_inc_dep(l)`: one more dependency if `l` is alive. */
  function IncDepped(t: seq<SlotData>, l: Lifetime): seq<SlotData>
    requires l.slot < |t|
  {
    if l.gen == t[l.slot].gen then t[l.slot := t[l.slot].(deps := t[l.slot].deps + 1)] else t
  }

  /** The table after `dec_dep(l)`: one dependency fewer if `l` is alive. */
  function DecDepped(t: seq<SlotData>, l: Lifetime): seq<SlotData>
    requires l.slot < |t|
    requires l.gen == t[l.slot].gen ==> t[l.slot].deps > 0
  {
    if l.gen == t[l.slot].gen then t[l.slot := t[l.slot].(deps := t[l.slot].deps - 1)] else t
  }

  /** The table after `n` calls of `try_inc_dep(l)`. */
  function IncDeppedN(t: seq<SlotData>, l: Lifetime, n: nat): (r: seq<SlotData>)
    requires l.slot < |t|
    ensures |r| == |t|
    ensures forall i :: 0 <= i < |t| ==> r[i] == t[i].(deps := r[i].deps)
    ensures l.gen == t[l.slot].gen ==> r[l.slot].deps == t[l.slot].deps + n
  {
    if n == 0 then t else IncDepped(IncDeppedN(t, l, n - 1), l)
  }

  /** The table after `n` calls of `dec_dep(l)`. */
  function DecDeppedN(t: seq<SlotData>, l: Lifetime, n: nat): (r: seq<SlotData>)
    requires l.slot < |t|
    requires l.gen == t[l.slot].gen ==> t[l.slot].deps >= n
    ensures |r| == |t|
    ensures forall i :: 0 <= i < |t| ==> r[i] == t[i].(deps := r[i].deps)
    ensures l.gen == t[l.slot].gen ==> r[l.slot].deps == t[l.slot].deps - n
  {
    if n == 0 then t else DecDepped(DecDeppedN(t, l, n - 1), l)
  }

  /**
   * Dependency accounting: `n` increments followed by `n` decrements of the same
   * lifetime give back the table they started from.
   */
  lemma {:induction false} DependentsBalance(t: seq<SlotData>, l: Lifetime, n: nat)
    requires l.slot < |t|
    ensures DecDeppedN(IncDeppedN(t, l, n), l, n) == t
  {
    if l.gen == t[l.slot].gen {
      var up := IncDeppedN(t, l, n);
      var down := DecDeppedN(up, l, n);
      assert |down| == |t|;
      forall i | 0 <= i < |t| ensures down[i] == t[i] {
        if i != l.slot {
          UntouchedSlot(t, l, n, i);
        }
      }
    } else {
      DeadIsUntouched(t, l, n);
    }
  }

  /** A slot other than `l`'s is the same after any number of increments and decrements of `l`. */
  lemma {:induction false} UntouchedSlot(t: seq<SlotData>, l: Lifetime, n: nat, i: nat)
    requires l.slot < |t| && i < |t| && i != l.slot
    ensures IncDeppedN(t, l, n)[i] == t[i]
    ensures l.gen == t[l.slot].gen ==> DecDeppedN(IncDeppedN(t, l, n), l, n)[i] == t[i]
  {
    if n > 0 {
      UntouchedSlot(t, l, n - 1, i);
      if l.gen == t[l.slot].gen {
        DecUntouched(IncDeppedN(t, l, n), l, n, i);
      }
    }
  }

  /** `n` decrements of `l` leave every other slot alone. */
  lemma {:induction false} DecUntouched(t: seq<SlotData>, l: Lifetime, n: nat, i: nat)
    requires l.slot < |t| && i < |t| && i != l.slot
    requires l.gen == t[l.slot].gen ==> t[l.slot].deps >= n
    ensures DecDeppedN(t, l, n)[i] == t[i]
  {
    if n > 0 {
      DecUntouched(t, l, n - 1, i);
    }
  }

  /** Increments and decrements of a dead lifetime change nothing. */
  lemma {:induction false} DeadIsUntouched(t: seq<SlotData>, l: Lifetime, n: nat)
    requires l.slot < |t| && l.gen != t[l.slot].gen
    ensures IncDeppedN(t, l, n) == t
    ensures DecDeppedN(t, l, n) == t
  {
    if n > 0 {
      DeadIsUntouched(t, l, n - 1);
    }
  }

  /**
   * The slot table with its free pool. `issued` records every handle
   * `Lifetime::new` has returned, so that the model can state generational
   * uniqueness.
   */
  class Registry {
    var table: seq<SlotData>
    var pool: set<nat>
    ghost var issued: set<Lifetime>

    ghost predicate Valid()
      reads this
    {
      && (forall i :: 0 <= i < |table| ==> 1 <= table[i].gen <= U64_MAX && table[i].deps <= USIZE_MAX)
      && (forall s :: s in pool ==> s < |table| && table[s].gen < U64_MAX && table[s].deps == 0)
      && (forall l :: l in issued ==> l.slot < |table| && 1 <= l.gen <= table[l.slot].gen && l.gen < U64_MAX)
      && (forall l :: l in issued && l.slot in pool ==> l.gen < table[l.slot].gen)
    }

    constructor ()
      ensures Valid()
      ensures table == [] && pool == {} && issued == {}
    {
      table := [];
      pool := {};
      issued := {};
    }

    /** `Lifetime::is_alive`: the captured generation is still the slot's. */
    predicate IsAlive(l: Lifetime)
      reads this
      requires l.slot < |table|
    {
      l.gen == table[l.slot].gen
    }

    /**
     * `Lifetime::fmt_lifetime_name`: the current name for a live handle, the
     * dead name for a handle exactly one generation behind, and a placeholder
     * for any other.
     */
    function FmtLifetimeName(l: Lifetime): (r: string)
      reads this
      requires l.slot < |table|
      requires table[l.slot].gen >= 1
      ensures IsAlive(l) ==> r == ShownName(table[l.slot].currName)
      ensures l.gen + 1 == table[l.slot].gen ==> r == ShownName(table[l.slot].deadName)
      ensures l.gen != table[l.slot].gen && l.gen + 1 != table[l.slot].gen ==> r == "<name unavailable>"
    {
      var d := table[l.slot];
      if l.gen == d.gen then ShownName(d.currName)
      else if l.gen == d.gen - 1 then ShownName(d.deadName)
      else "<name unavailable>"
    }

    /**
     * `Lifetime::new`: reuse a pooled slot, or take a fresh one (generation 1,
     * no dependencies), store the name and capture the slot's generation.
     */
    method New(name: Option<string>) returns (l: Lifetime)
      requires Valid()
      modifies this
      ensures Valid()
      ensures l !in old(issued) && issued == old(issued) + {l}
      ensures l.slot < |table| && IsAlive(l)
      ensures l.slot < old(|table|) ==> l.slot in old(pool) && |table| == old(|table|)
      ensures l.slot >= old(|table|) ==> old(pool) == {} && |table| == old(|table|) + 1
      ensures table[l.slot] == (if l.slot < old(|table|) then old(table[l.slot]) else FRESH_SLOT).(currName := name)
      ensures forall j :: 0 <= j < old(|table|) && j != l.slot ==> table[j] == old(table[j])
      ensures pool == old(pool) - {l.slot}
      ensures forall h :: h in old(issued) ==> (IsAlive(h) <==> old(IsAlive(h)))
    {
      var s: nat;
      if pool != {} {
        s :| s in pool;
        pool := pool - {s};
      } else {
        s := |table|;
        table := table + [FRESH_SLOT];
      }
      table := table[s := table[s].(currName := name)];
      l := Lifetime(s, table[s].gen);
      issued := issued + {l};
    }

    /** `Lifetime::try_inc_dep`: count one more dependency, only on a live lifetime. */
    method TryIncDep(l: Lifetime) returns (ok: bool)
      requires Valid() && l in issued
      requires IsAlive(l) ==> table[l.slot].deps < USIZE_MAX
      modifies this
      ensures Valid()
      ensures ok == old(IsAlive(l))
      ensures table == IncDepped(old(table), l)
      ensures pool == old(pool) && issued == old(issued)
    {
      if table[l.slot].gen != l.gen {
        return false;
      }
      table := table[l.slot := table[l.slot].(deps := table[l.slot].deps + 1)];
      ok := true;
    }

    /** `Lifetime::inc_dep`: `try_inc_dep`, logging (only) when the lifetime is dead. */
    method IncDep(l: Lifetime)
      requires Valid() && l in issued
      requires IsAlive(l) ==> table[l.slot].deps < USIZE_MAX
      modifies this
      ensures Valid()
      ensures table == IncDepped(old(table), l)
      ensures pool == old(pool) && issued == old(issued)
    {
      var _ := TryIncDep(l);
    }

    /**
     * `Lifetime::dec_dep`: a no-op on a dead lifetime; on a live one, one
     * dependency fewer (the source panics on underflow, hence the precondition).
     */
    method DecDep(l: Lifetime)
      requires Valid() && l in issued
      requires IsAlive(l) ==> table[l.slot].deps > 0
      modifies this
      ensures Valid()
      ensures table == DecDepped(old(table), l)
      ensures pool == old(pool) && issued == old(issued)
    {
      if table[l.slot].gen != l.gen {
        return;
      }
      table := table[l.slot := table[l.slot].(deps := table[l.slot].deps - 1)];
    }

    /**
     * `Lifetime::try_destroy`: on a live lifetime, bump the generation
     * (saturating), reset the dependencies, move the current name to the dead
     * name and give the slot back to the pool unless it reached `u64::MAX`.
     * On a dead lifetime, nothing changes.
     */
    method TryDestroy(l: Lifetime) returns (ok: bool)
      requires Valid() && l in issued
      modifies this
      ensures Valid()
      ensures issued == old(issued) && |table| == old(|table|)
      ensures ok == old(IsAlive(l))
      ensures !IsAlive(l)
      ensures !ok ==> table == old(table) && pool == old(pool)
      ensures ok ==> table == old(table)[l.slot := SlotData(l.gen + 1, 0, None, old(table[l.slot].currName))]
      ensures ok ==> l.slot !in old(pool)
      ensures ok ==> (l.slot in pool <==> table[l.slot].gen < U64_MAX)
      ensures ok ==> pool - {l.slot} == old(pool)
      ensures old(IsAlive(l)) ==> FmtLifetimeName(l) == old(FmtLifetimeName(l))
      ensures forall h :: h in issued && h != l ==> (IsAlive(h) <==> old(IsAlive(h)))
      ensures forall j :: 0 <= j < |table| ==> table[j].gen >= old(table[j].gen)
    {
      if table[l.slot].gen != l.gen {
        return false;
      }
      var d := table[l.slot];
      table := table[l.slot := SlotData(SaturatingInc(d.gen), 0, None, d.currName)];
      if table[l.slot].gen != U64_MAX {
        pool := pool + {l.slot};
      }
      ok := true;
    }

    /** `Lifetime::destroy`: `try_destroy`, logging (only) a double destruction. */
    method Destroy(l: Lifetime)
      requires Valid() && l in issued
      modifies this
      ensures Valid()
      ensures issued == old(issued) && |table| == old(|table|)
      ensures !IsAlive(l)
      ensures forall j :: 0 <= j < |table| && j != l.slot ==> table[j] == old(table[j])
      ensures !old(IsAlive(l)) ==> table == old(table) && pool == old(pool)
      ensures old(IsAlive(l)) ==> table == old(table)[l.slot := SlotData(l.gen + 1, 0, None, old(table[l.slot].currName))]
      ensures old(IsAlive(l)) ==> pool - {l.slot} == old(pool) && (l.slot in pool <==> table[l.slot].gen < U64_MAX)
      ensures forall h :: h in issued && h != l ==> (IsAlive(h) <==> old(IsAlive(h)))
      ensures forall j :: 0 <= j < |table| ==> table[j].gen >= old(table[j].gen)
    {
      var _ := TryDestroy(l);
    }

    /** `Dependent::new`: increment the counter (logged no-op when dead). */
    method NewDependent(l: Lifetime) returns (d: Dependent)
      requires Valid() && l in issued
      requires IsAlive(l) ==> table[l.slot].deps < USIZE_MAX
      modifies this
      ensures Valid()
      ensures d.lifetime == l
      ensures table == IncDepped(old(table), l)
      ensures pool == old(pool) && issued == old(issued)
    {
      IncDep(l);
      d := Dependent(l);
    }

    /** `Dependent::clone`: a new dependent on the same lifetime. */
    method CloneDependent(d: Dependent) returns (c: Dependent)
      requires Valid() && d.lifetime in issued
      requires IsAlive(d.lifetime) ==> table[d.lifetime.slot].deps < USIZE_MAX
      modifies this
      ensures Valid()
      ensures c == d
      ensures table == IncDepped(old(table), d.lifetime)
      ensures pool == old(pool) && issued == old(issued)
    {
      c := NewDependent(d.lifetime);
    }

    /** `Drop for Dependent`: decrement the counter. */
    method DropDependent(d: Dependent)
      requires Valid() && d.lifetime in issued
      requires IsAlive(d.lifetime) ==> table[d.lifetime.slot].deps > 0
      modifies this
      ensures Valid()
      ensures table == DecDepped(old(table), d.lifetime)
      ensures pool == old(pool) && issued == old(issued)
    {
      DecDep(d.lifetime);
    }

    /** `Drop for OwnedLifetime`: destroy the lifetime. */
    method DropOwned(o: OwnedLifetime)
      requires Valid() && o.lifetime in issued
      modifies this
      ensures Valid()
      ensures issued == old(issued) && |table| == old(|table|)
      ensures !IsAlive(o.lifetime)
      ensures forall j :: 0 <= j < |table| && j != o.lifetime.slot ==> table[j] == old(table[j])
      ensures !old(IsAlive(o.lifetime)) ==> table == old(table) && pool == old(pool)
      ensures old(IsAlive(o.lifetime)) ==>
        table == old(table)[o.lifetime.slot := SlotData(o.lifetime.gen + 1, 0, None, old(table[o.lifetime.slot].currName))]
      ensures old(IsAlive(o.lifetime)) ==>
        pool - {o.lifetime.slot} == old(pool) && (o.lifetime.slot in pool <==> table[o.lifetime.slot].gen < U64_MAX)
      ensures forall h :: h in issued && h != o.lifetime ==> (IsAlive(h) <==> old(IsAlive(h)))
      ensures forall j :: 0 <= j < |table| ==> table[j].gen >= old(table[j].gen)
    {
      Destroy(o.lifetime);
    }
  }

  /**
   * Constructing `n` dependents on a live lifetime and dropping them all
   * leaves the slot table as it was.
   */
  method DependentsRoundTrip(reg: Registry, l: Lifetime, n: nat)
    requires reg.Valid() && l in reg.issued && reg.IsAlive(l)
    requires reg.table[l.slot].deps + n <= USIZE_MAX
    modifies reg
    ensures reg.Valid()
    ensures reg.table == old(reg.table) && reg.pool == old(reg.pool)
  {
    ghost var t0 := reg.table;
    var ds: seq<Dependent> := [];
    while |ds| < n
      invariant reg.Valid() && l in reg.issued
      invariant |ds| <= n
      invariant reg.table == IncDeppedN(t0, l, |ds|)
      invariant reg.pool == old(reg.pool) && reg.issued == old(reg.issued)
      invariant forall k :: 0 <= k < |ds| ==> ds[k] == Dependent(l)
    {
      var d := reg.NewDependent(l);
      ds := ds + [d];
    }
    ghost var t1 := reg.table;
    var dropped := 0;
    while dropped < n
      invariant reg.Valid() && l in reg.issued
      invariant dropped <= n
      invariant reg.table == DecDeppedN(t1, l, dropped)
      invariant reg.pool == old(reg.pool) && reg.issued == old(reg.issued)
    {
      reg.DropDependent(ds[dropped]);
      dropped := dropped + 1;
    }
    DependentsBalance(t0, l, n);
  }
}

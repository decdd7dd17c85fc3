/**
 * `src/storage.rs`: what that snapshot adds around the shared `Storage`
 * class: the mapped views `MappedStorageRef` / `MappedStorageMut`, which
 * apply a mapper to what the underlying storage returns, and
 * `try_remove_many`.
 */
module StorageViews {
  import opened Wrappers
  import opened Entities
  import opened StorageCore

  /** `MappedStorageRef::get` / `MappedStorageMut::get`: the mapper applied to the storage's `get`. */
  function MappedGet<T, U>(s: Storage<T>, m: T -> U, e: Entity): (r: Option<U>)
    reads s
    ensures r.Some? <==> s.Has(e)
    ensures r.Some? ==> r.value == m(s.Get(e).value)
  {
    match s.Get(e)
    case Some(v) => Some(m(v))
    case None => None
  }

  /** `MappedStorageRef::has`: delegated unchanged to the storage. */
  function MappedHas<T>(s: Storage<T>, e: Entity): (b: bool)
    reads s
    ensures b <==> s.Get(e).Some?
  {
    s.Has(e)
  }

  /** `Index for MappedStorageRef`: the mapper applied to `storage[e]`, which panics without the component. */
  function MappedIndex<T, U>(s: Storage<T>, m: T -> U, e: Entity): (r: U)
    reads s
    requires s.Has(e)
    ensures MappedGet(s, m, e) == Some(r)
  {
    m(s.Index(e))
  }

  /** The run map after `try_remove` on each entity in turn. */
  function RemovedAll<T>(runs: Runs<T>, es: seq<Entity>): Runs<T>
    decreases |es|
  {
    if |es| == 0 then runs else RemovedAll(RemovedIn(runs, es[0]).0, es[1..])
  }

  /** `RemovedAll` of a sequence extended by one entity is one more removal. */
  lemma {:induction false} RemovedAllSnoc<T>(runs: Runs<T>, es: seq<Entity>, e: Entity)
    ensures RemovedAll(runs, es + [e]) == RemovedIn(RemovedAll(runs, es), e).0
    decreases |es|
  {
    if |es| > 0 {
      assert (es + [e])[1..] == es[1..] + [e];
      RemovedAllSnoc(RemovedIn(runs, es[0]).0, es[1..], e);
    }
  }

  /** After removing from every entity in `es`, none of them has the component. */
  lemma {:induction false} RemovedAllClears<T>(runs: Runs<T>, es: seq<Entity>, i: nat)
    requires i < |es|
    ensures GetIn(RemovedAll(runs, es), es[i]) == None
    decreases |es|
  {
    var after := RemovedIn(runs, es[0]).0;
    if i == 0 {
      RemoveThenGet(runs, es[0], es[0]);
      RemovedAllKeepsAbsent(after, es[1..], es[0]);
    } else {
      RemovedAllClears(after, es[1..], i - 1);
    }
  }

  /** Removals never add a component: an entity without one stays without. */
  lemma {:induction false} RemovedAllKeepsAbsent<T>(runs: Runs<T>, es: seq<Entity>, e: Entity)
    requires GetIn(runs, e) == None
    ensures GetIn(RemovedAll(runs, es), e) == None
    decreases |es|
  {
    if |es| > 0 {
      RemoveThenGet(runs, es[0], e);
      RemovedAllKeepsAbsent(RemovedIn(runs, es[0]).0, es[1..], e);
    }
  }

  /** `Storage::try_remove_many`: `try_remove` on each entity, in order. */
  method TryRemoveMany<T>(s: Storage<T>, es: seq<Entity>)
    requires s.Valid()
    modifies s
    ensures s.Valid()
    ensures s.runs == RemovedAll(old(s.runs), es)
    ensures forall i :: 0 <= i < |es| ==> !s.Has(es[i])
  {
    var i := 0;
    while i < |es|
      invariant 0 <= i <= |es| && s.Valid()
      invariant s.runs == RemovedAll(old(s.runs), es[..i])
    {
      var _ := s.TryRemove(es[i]);
      RemovedAllSnoc(old(s.runs), es[..i], es[i]);
      assert es[..i + 1] == es[..i] + [es[i]];
      i := i + 1;
    }
    assert es[..i] == es;
    forall j | 0 <= j < |es| ensures !s.Has(es[j]) {
      RemovedAllClears(old(s.runs), es, j);
    }
  }
}

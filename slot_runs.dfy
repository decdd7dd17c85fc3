/**
 * The slot vector behind every storage run: `StorageSlot` (`Full` with the
 * entity's lifetime and the component, or `Empty`), the grow-and-replace of
 * `StorageRun::insert` and the take-and-trim of `StorageRun::remove`.
 *
 * `src/storage/core.rs`, `src/storage.rs`, `src/ecs/storage.rs` and
 * `src/storage_new.rs` all run this algorithm; the latter two spell a slot
 * `Option<StorageRunSlot<T>>`, which is the same two-case value.
 */
module SlotRuns {
  import opened Wrappers
  import opened Lifetimes

  /** `StorageSlot<T>`. */
  datatype StorageSlot<T> = Full(lifetime: Lifetime, value: T) | Empty

  /** The slot vector of one run, indexed by entity slot. */
  type Run<T> = seq<StorageSlot<T>>

  /** `StorageSlot::value` / `into_value`: the component of a full slot. */
  function Value<T>(s: StorageSlot<T>): (r: Option<T>)
    ensures r.Some? <==> s.Full?
    ensures s.Full? ==> r.value == s.value
  {
    match s
    case Full(_, v) => Some(v)
    case Empty => None
  }

  /** `StorageSlot::pair` / `into_pair`: the lifetime and component of a full slot. */
  function Pair<T>(s: StorageSlot<T>): (r: Option<(Lifetime, T)>)
    ensures r.Some? <==> s.Full?
    ensures s.Full? ==> r.value == (s.lifetime, s.value)
  {
    match s
    case Full(l, v) => Some((l, v))
    case Empty => None
  }

  /** `StorageSlot::is_full`: defined through `value()`. */
  predicate IsFull<T>(s: StorageSlot<T>)
  {
    Value(s).Some?
  }

  /** `is_full` holds exactly for `Full`, and then `value`, `pair` agree with the slot. */
  lemma AccessorsAgree<T>(s: StorageSlot<T>)
    ensures IsFull(s) <==> s.Full?
    ensures IsFull(s) <==> Pair(s).Some?
    ensures IsFull(s) ==> Pair(s).value.1 == Value(s).value
  {
  }

  /** `slice.get(i)` followed by the slot: `Empty` past the end. */
  function Lookup<T>(r: Run<T>, i: nat): (s: StorageSlot<T>)
    ensures i < |r| ==> s == r[i]
    ensures i >= |r| ==> s == Empty
  {
    if i < |r| then r[i] else Empty
  }

  /** A run in canonical form: empty, or its last slot is full. */
  predicate Trimmed<T>(r: Run<T>)
  {
    |r| == 0 || r[|r| - 1].Full?
  }

  /**
   * The run after `insert` of `s` at `i`: grown with `Empty` to exactly
   * `i + 1` slots when too short, then slot `i` replaced.
   */
  function Placed<T>(r: Run<T>, i: nat, s: StorageSlot<T>): (w: Run<T>)
    ensures |w| == if i < |r| then |r| else i + 1
    ensures w[i] == s
    ensures forall j :: 0 <= j < |r| && j != i ==> w[j] == r[j]
    ensures forall j :: |r| <= j < |w| && j != i ==> w[j] == Empty
  {
    (if i < |r| then r else r + seq(i + 1 - |r|, _ => Empty))[i := s]
  }

  /** The run with its trailing `Empty` slots popped. */
  function Trim<T>(r: Run<T>): (w: Run<T>)
    ensures |w| <= |r| && w == r[..|w|]
    ensures Trimmed(w)
    ensures forall j :: |w| <= j < |r| ==> r[j] == Empty
    decreases |r|
  {
    if |r| > 0 && r[|r| - 1] == Empty then Trim(r[..|r| - 1]) else r
  }

  /**
   * The run and the taken slot after `remove(i)`: out of range, nothing
   * happens (no trimming either); otherwise the slot is emptied and the
   * trailing `Empty` slots are popped.
   */
  function Taken<T>(r: Run<T>, i: nat): (Run<T>, StorageSlot<T>)
  {
    if i < |r| then (Trim(r[i := Empty]), r[i]) else (r, Empty)
  }

  /**
   * `StorageRun::insert` on the slot vector: resize with `Empty` when the
   * slot is past the end, then `mem::replace` the slot, returning the old one.
   */
  method Insert<T>(r: Run<T>, i: nat, s: StorageSlot<T>) returns (w: Run<T>, replaced: StorageSlot<T>)
    ensures w == Placed(r, i, s)
    ensures replaced == Lookup(r, i)
  {
    w := r;
    if i >= |w| {
      w := w + seq(i + 1 - |w|, _ => Empty);
    }
    replaced := w[i];
    w := w[i := s];
  }

  /**
   * `StorageRun::remove` on the slot vector: out of range returns `Empty`
   * at once; otherwise take the slot and pop while the last slot is `Empty`.
   */
  method Take<T>(r: Run<T>, i: nat) returns (w: Run<T>, removed: StorageSlot<T>)
    ensures (w, removed) == Taken(r, i)
  {
    if i >= |r| {
      return r, Empty;
    }
    removed := r[i];
    var cleared := r[i := Empty];
    w := cleared;
    while |w| > 0 && w[|w| - 1] == Empty
      invariant |w| <= |cleared| && w == cleared[..|w|]
      invariant Trim(w) == Trim(cleared)
      decreases |w|
    {
      assert Trim(w) == Trim(w[..|w| - 1]);
      w := w[..|w| - 1];
    }
    assert Trim(w) == w;
  }

  // --- Properties of the run operations ---

  /** Inserting keeps a run canonical. */
  lemma PlacedTrimmed<T>(r: Run<T>, i: nat, l: Lifetime, v: T)
    requires Trimmed(r)
    ensures Trimmed(Placed(r, i, Full(l, v)))
  {
  }

  /** After an insert, slot `i` holds the new pair and every other slot reads as before. */
  lemma PlacedLookup<T>(r: Run<T>, i: nat, s: StorageSlot<T>, j: nat)
    ensures Lookup(Placed(r, i, s), j) == if j == i then s else Lookup(r, j)
  {
  }

  /** Trimming pops only `Empty` slots, so every slot reads as before. */
  lemma TrimLookup<T>(r: Run<T>, j: nat)
    ensures Lookup(Trim(r), j) == Lookup(r, j)
  {
  }

  /** Removing returns the slot's old content; it then reads `Empty`, every other slot as before. */
  lemma TakenLookup<T>(r: Run<T>, i: nat, j: nat)
    ensures Taken(r, i).1 == Lookup(r, i)
    ensures Lookup(Taken(r, i).0, j) == if j == i then Empty else Lookup(r, j)
  {
    if i < |r| {
      TrimLookup(r[i := Empty], j);
    }
  }

  /** Removing from a canonical run leaves it canonical. */
  lemma TakenTrimmed<T>(r: Run<T>, i: nat)
    requires Trimmed(r)
    ensures Trimmed(Taken(r, i).0)
  {
  }

  /** Two canonical runs that read alike at every slot are equal. */
  lemma {:induction false} TrimmedUnique<T>(a: Run<T>, b: Run<T>)
    requires Trimmed(a) && Trimmed(b)
    requires forall j: nat :: Lookup(a, j) == Lookup(b, j)
    ensures a == b
  {
    if |a| > 0 {
      assert Lookup(a, |a| - 1) == Lookup(b, |a| - 1);
    }
    if |b| > 0 {
      assert Lookup(a, |b| - 1) == Lookup(b, |b| - 1);
    }
    forall j | 0 <= j < |a| ensures a[j] == b[j] {
      assert Lookup(a, j) == Lookup(b, j);
    }
  }

  /**
   * Inserting into an empty slot of a canonical run and removing it again
   * gives back the run and the inserted pair.
   */
  lemma PlaceThenTake<T>(r: Run<T>, i: nat, l: Lifetime, v: T)
    requires Trimmed(r) && Lookup(r, i) == Empty
    ensures Taken(Placed(r, i, Full(l, v)), i) == (r, Full(l, v))
  {
    var p := Placed(r, i, Full(l, v));
    var w := Taken(p, i).0;
    forall j: nat ensures Lookup(w, j) == Lookup(r, j) {
      TakenLookup(p, i, j);
      PlacedLookup(r, i, Full(l, v), j);
    }
    TrimmedUnique(w, r);
  }

  /** Removing from an empty slot of a canonical run changes nothing. */
  lemma TakeEmptyIsNoOp<T>(r: Run<T>, i: nat)
    requires Trimmed(r) && Lookup(r, i) == Empty
    ensures Taken(r, i) == (r, Empty)
  {
    if i < |r| {
      assert r[i := Empty] == r;
    }
  }
}

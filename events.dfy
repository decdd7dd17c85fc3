/**
 * `src/event.rs`: the `EventQueue`, which groups pushed events by the
 * archetype of their target and hands them back per archetype, and the
 * `TaskQueue`, whose two buffers make freshly pushed tasks run first and in
 * push order.
 */
module Events {
  import opened Wrappers
  import opened Lifetimes
  import opened Entities

  /** `Event<E>`: the target's slot and lifetime, and the payload. */
  datatype Event<E> = Event(slot: nat, lifetime: Lifetime, event: E)

  /** One entry of `runs`: the archetype's lifetime and its events in push order. */
  datatype EventRun<E> = EventRun(archLifetime: Lifetime, events: seq<Event<E>>)

  /** `EventQueueIter<E>`: an archetype and the events still to be yielded for it. */
  datatype EventQueueIter<E> = EventQueueIter(arch: ArchetypeId, events: seq<Event<E>>)

  /** The event `push(target, e)` records. */
  function EventOf<E>(target: Entity, e: E): Event<E>
  {
    Event(target.slot, target.lifetime, e)
  }

  /** `Event::into_tuple`: the entity rebuilt from the slot, the lifetime and the archetype. */
  function IntoTuple<E>(ev: Event<E>, arch: ArchetypeId): (r: (Entity, E))
    ensures r.0.slot == ev.slot && r.0.lifetime == ev.lifetime && r.0.arch == arch
    ensures r.1 == ev.event
  {
    (Entity(ev.lifetime, arch, ev.slot), ev.event)
  }

  /** An event pushed for `target` comes back as `target` from its archetype's iterator. */
  lemma IntoTupleRebuildsTarget<E>(target: Entity, e: E)
    ensures IntoTuple(EventOf(target, e), target.arch) == (target, e)
  {
  }

  /** What an `EventQueueIter` yields, front to back. */
  function Items<E>(it: EventQueueIter<E>): (r: seq<(Entity, E)>)
    ensures |r| == |it.events|
    ensures forall i :: 0 <= i < |r| ==> r[i] == IntoTuple(it.events[i], it.arch)
  {
    seq(|it.events|, i requires 0 <= i < |it.events| => IntoTuple(it.events[i], it.arch))
  }

  /** The iterator `flush_all` builds from the entry of archetype `id`. */
  function IterOf<E>(id: nat, run: EventRun<E>): EventQueueIter<E>
  {
    EventQueueIter(ArchetypeId(run.archLifetime, id), run.events)
  }

  /** The archetype ids of a sequence of iterators, in order. */
  function ArchIds<E>(iters: seq<EventQueueIter<E>>): (r: seq<nat>)
    ensures |r| == |iters|
    ensures forall i :: 0 <= i < |iters| ==> r[i] == iters[i].arch.id
  {
    seq(|iters|, i requires 0 <= i < |iters| => iters[i].arch.id)
  }

  lemma ArchIdsSnoc<E>(iters: seq<EventQueueIter<E>>, it: EventQueueIter<E>)
    ensures ArchIds(iters + [it]) == ArchIds(iters) + [it.arch.id]
  {
  }

  /** `EventQueue<E>`: the runs keyed by archetype id, and the dispatch flag. */
  class EventQueue<E> {
    var runs: map<nat, EventRun<E>>
    var maybeRecursivelyDispatched: bool

    /** `EventQueue::new`. */
    constructor ()
      ensures runs == map[] && !maybeRecursivelyDispatched
    {
      runs := map[];
      maybeRecursivelyDispatched := false;
    }

    /** The events queued for archetype `id`, in push order. */
    function Pending(id: nat): (r: seq<Event<E>>)
      reads this
      ensures id !in runs ==> r == []
      ensures id in runs ==> r == runs[id].events
    {
      if id in runs then runs[id].events else []
    }

    /**
     * `push`: appends the event to its archetype's run, creating the run
     * (and raising the flag) when the archetype had none.
     */
    method Push(target: Entity, e: E)
      modifies this
      ensures target.arch.id in runs
      ensures runs[target.arch.id].events == old(Pending(target.arch.id)) + [EventOf(target, e)]
      ensures target.arch.id in old(runs) ==> runs[target.arch.id].archLifetime == old(runs[target.arch.id].archLifetime)
      ensures target.arch.id !in old(runs) ==> runs[target.arch.id].archLifetime == target.arch.lifetime
      ensures forall id :: id != target.arch.id ==> (id in runs <==> id in old(runs))
      ensures forall id :: id in runs && id != target.arch.id ==> runs[id] == old(runs[id])
      ensures maybeRecursivelyDispatched == (old(maybeRecursivelyDispatched) || target.arch.id !in old(runs))
    {
      var id := target.arch.id;
      var run;
      if id in runs {
        run := runs[id];
      } else {
        maybeRecursivelyDispatched := true;
        run := EventRun(target.arch.lifetime, []);
      }
      runs := runs[id := run.(events := run.events + [EventOf(target, e)])];
    }

    /**
     * `flush_all`: takes every run out of the queue, one iterator per
     * archetype (in the map's own order, which the source leaves open).
     */
    method FlushAll() returns (iters: seq<EventQueueIter<E>>)
      modifies this
      ensures runs == map[]
      ensures maybeRecursivelyDispatched == old(maybeRecursivelyDispatched)
      ensures forall i :: 0 <= i < |iters| ==>
        iters[i].arch.id in old(runs) && iters[i] == IterOf(iters[i].arch.id, old(runs)[iters[i].arch.id])
      ensures forall id :: id in old(runs) ==> id in ArchIds(iters)
      ensures forall i, j :: 0 <= i < j < |iters| ==> iters[i].arch.id != iters[j].arch.id
    {
      var taken := runs;
      runs := map[];
      var rest := taken;
      iters := [];
      while rest.Keys != {}
        invariant runs == map[] && maybeRecursivelyDispatched == old(maybeRecursivelyDispatched)
        invariant forall id :: id in rest ==> id in taken && rest[id] == taken[id]
        invariant forall i :: 0 <= i < |iters| ==>
          iters[i].arch.id in taken && iters[i].arch.id !in rest && iters[i] == IterOf(iters[i].arch.id, taken[iters[i].arch.id])
        invariant forall id :: id in taken && id !in rest ==> id in ArchIds(iters)
        invariant forall i, j :: 0 <= i < j < |iters| ==> iters[i].arch.id != iters[j].arch.id
        decreases |rest|
      {
        var id :| id in rest.Keys;
        ArchIdsSnoc(iters, IterOf(id, rest[id]));
        iters := iters + [IterOf(id, rest[id])];
        rest := rest - {id};
      }
    }

    /** `flush_in`: takes the archetype's run out; an archetype without one yields nothing. */
    method FlushIn(a: ArchetypeId) returns (it: EventQueueIter<E>)
      modifies this
      ensures it.arch == a
      ensures it.events == old(Pending(a.id))
      ensures runs == old(runs) - {a.id}
      ensures maybeRecursivelyDispatched == old(maybeRecursivelyDispatched)
    {
      var events := if a.id in runs then runs[a.id].events else [];
      runs := runs - {a.id};
      it := EventQueueIter(a, events);
    }

    /** `maybe_recursively_dispatched`: returns the flag and lowers it. */
    method MaybeRecursivelyDispatched() returns (b: bool)
      modifies this
      ensures b == old(maybeRecursivelyDispatched)
      ensures !maybeRecursivelyDispatched && runs == old(runs)
    {
      b := maybeRecursivelyDispatched;
      maybeRecursivelyDispatched := false;
    }

    /** `is_empty`: no archetype has queued events. */
    function IsEmpty(): (b: bool)
      reads this
      ensures b <==> forall id :: Pending(id) == [] && id !in runs
    {
      assert runs != map[] ==> exists id :: id in runs;
      runs == map[]
    }
  }

  /**
   * Two events for one archetype and one for another: `flush_in` gives the
   * first archetype's two back, in push order and as their targets; the flag
   * was raised by the first push to each archetype and is then lowered.
   */
  method PushTwiceThenFlushIn<E>(t1: Entity, t2: Entity, t3: Entity, e1: E, e2: E, e3: E)
    returns (flushed: seq<(Entity, E)>, others: seq<Event<E>>, raised: bool, raisedAgain: bool)
    requires t1.arch == t2.arch && t3.arch.id != t1.arch.id
    ensures flushed == [(t1, e1), (t2, e2)]
    ensures others == [EventOf(t3, e3)]
    ensures raised && !raisedAgain
  {
    var q := new EventQueue<E>();
    q.Push(t1, e1);
    q.Push(t3, e3);
    q.Push(t2, e2);
    raised := q.MaybeRecursivelyDispatched();
    var it := q.FlushIn(t1.arch);
    flushed := Items(it);
    IntoTupleRebuildsTarget(t1, e1);
    IntoTupleRebuildsTarget(t2, e2);
    others := q.Pending(t3.arch.id);
    raisedAgain := q.MaybeRecursivelyDispatched();
  }

  // === TaskQueue ===

  /** `s` back to front. */
  function Reversed<T>(s: seq<T>): (r: seq<T>)
    ensures |r| == |s|
    ensures forall i :: 0 <= i < |s| ==> r[i] == s[|s| - 1 - i]
  {
    if |s| == 0 then [] else [s[|s| - 1]] + Reversed(s[..|s| - 1])
  }

  /** Reversing a sequence with one more element at the back puts it at the front. */
  lemma ReversedSnoc<T>(s: seq<T>, x: T)
    ensures Reversed(s + [x]) == [x] + Reversed(s)
  {
    assert (s + [x])[..|s|] == s;
  }

  /**
   * The order in which a task queue hands out its tasks if nothing more is
   * pushed: the buffered tasks in push order, then the stack from the top.
   */
  function PendingOf<T>(taskStack: seq<T>, tasksToAdd: seq<T>): (r: seq<T>)
    ensures |r| == |taskStack| + |tasksToAdd|
    ensures r[..|tasksToAdd|] == tasksToAdd
  {
    tasksToAdd + Reversed(taskStack)
  }

  /** `TaskQueue<T>`: the stack tasks are popped from, and the buffer `push` appends to. */
  class TaskQueue<T> {
    var taskStack: seq<T>
    var tasksToAdd: seq<T>

    /** `TaskQueue::new`. */
    constructor ()
      ensures taskStack == [] && tasksToAdd == []
    {
      taskStack := [];
      tasksToAdd := [];
    }

    /** The tasks still to come, in the order `next_task` yields them. */
    function Pending(): seq<T>
      reads this
    {
      PendingOf(taskStack, tasksToAdd)
    }

    /** `push`: buffers the task. */
    method Push(task: T)
      modifies this
      ensures tasksToAdd == old(tasksToAdd) + [task] && taskStack == old(taskStack)
    {
      tasksToAdd := tasksToAdd + [task];
    }

    /**
     * `next_task`: moves the buffer onto the stack one pop at a time (which
     * flips it), then pops the stack: `None` exactly when nothing is pending,
     * otherwise the first pending task, which leaves the queue.
     */
    method NextTask() returns (r: Option<T>)
      modifies this
      ensures tasksToAdd == []
      ensures r.None? <==> old(Pending()) == []
      ensures r.Some? ==> r.value == old(Pending())[0] && Pending() == old(Pending())[1..]
      ensures r.None? ==> Pending() == []
    {
      while |tasksToAdd| > 0
        invariant Pending() == old(Pending())
        decreases |tasksToAdd|
      {
        var toAdd := tasksToAdd[|tasksToAdd| - 1];
        ReversedSnoc(taskStack, toAdd);
        assert tasksToAdd == tasksToAdd[..|tasksToAdd| - 1] + [toAdd];
        tasksToAdd := tasksToAdd[..|tasksToAdd| - 1];
        taskStack := taskStack + [toAdd];
      }
      if |taskStack| == 0 {
        r := None;
      } else {
        var top := taskStack[|taskStack| - 1];
        ReversedSnoc(taskStack[..|taskStack| - 1], top);
        assert taskStack == taskStack[..|taskStack| - 1] + [top];
        r := Some(top);
        taskStack := taskStack[..|taskStack| - 1];
      }
    }

    /** `clear_capacities`: both buffers are replaced by empty ones. */
    method ClearCapacities()
      modifies this
      ensures taskStack == [] && tasksToAdd == []
    {
      taskStack := [];
      tasksToAdd := [];
    }
  }

  /** Pushing `ts` onto a queue whose buffer was drained puts them, in order, ahead of every pending task. */
  method PushAll<T>(q: TaskQueue<T>, ts: seq<T>)
    requires q.tasksToAdd == []
    modifies q
    ensures q.Pending() == ts + old(q.Pending())
  {
    var i := 0;
    while i < |ts|
      invariant 0 <= i <= |ts|
      invariant q.taskStack == old(q.taskStack) && q.tasksToAdd == ts[..i]
    {
      q.Push(ts[i]);
      assert ts[..i + 1] == ts[..i] + [ts[i]];
      i := i + 1;
    }
    assert ts[..|ts|] == ts;
  }

  /** Pushes `ts` onto a drained queue and takes one task: the first of `ts`. */
  method PushThenNext<T>(q: TaskQueue<T>, ts: seq<T>) returns (r: Option<T>)
    requires q.tasksToAdd == [] && ts != []
    modifies q
    ensures r == Some(ts[0])
    ensures q.Pending() == ts[1..] + old(q.Pending()) && q.tasksToAdd == []
  {
    ghost var p := q.Pending();
    PushAll(q, ts);
    r := q.NextTask();
    assert (ts + p)[1..] == ts[1..] + p;
  }

  /** Takes one task from a queue with a drained buffer and known pending tasks. */
  method NextOf<T>(q: TaskQueue<T>, ghost p: seq<T>) returns (r: Option<T>)
    requires q.tasksToAdd == [] && q.Pending() == p
    modifies q
    ensures p == [] ==> r == None && q.Pending() == []
    ensures p != [] ==> r == Some(p[0]) && q.Pending() == p[1..]
    ensures q.tasksToAdd == []
  {
    r := q.NextTask();
  }

  /**
   * Push 1 and 2, take one, push 3 and 4, then drain: the tasks pushed
   * between two `next_task` calls come out first and in push order.
   */
  method TaskOrder() returns (out: seq<Option<int>>)
    ensures out == [Some(1), Some(3), Some(4), Some(2), None]
  {
    var q := new TaskQueue<int>();
    assert q.Pending() == [];
    var a := PushThenNext(q, [1, 2]);
    assert q.Pending() == [2];
    var b := PushThenNext(q, [3, 4]);
    assert q.Pending() == [4, 2];
    var c := NextOf(q, [4, 2]);
    var d := NextOf(q, [2]);
    var e := NextOf(q, []);
    out := [a, b, c, d, e];
  }
}

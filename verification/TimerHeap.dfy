/** RCF's `TimerHeap`. Each method is one step under the mutex; the clock is a
    parameter. */
module TimerHeap {
  import opened Prelude
  import opened Heaps
  import opened TimerOrder

  class TimerHeap<T(==, !new)> {
    const less: (T, T) -> bool
    var baseTimeMs: uint32
    const heap: Heap<TimerEntry<T>>

    ghost function State(): TimerState<T>
      reads this, heap
    {
      TimerState(baseTimeMs, heap.store)
    }

    /** The heap compares from the base. */
    ghost predicate Consistent()
      reads this, heap
    {
      StrictWeak(less) && heap.comp == TimerCompare(less, baseTimeMs)
    }

    ghost predicate Valid()
      reads this, heap
    {
      Consistent() && Sorted(less, State())
    }

    constructor (less: (T, T) -> bool, now: uint32)
      requires StrictWeak(less)
      ensures Valid() && fresh(heap) && this.less == less
      ensures State() == Rebased(TimerState(0, []), now)
    {
      this.less, baseTimeMs := less, 0;
      heap := new Heap(TimerCompare(less, 0));
      new;
      Rebase(now);
    }

    /** Moves the base without moving an element: the order survives exactly when
        the spread bound holds. */
    method Rebase(now: uint32)
      requires Valid()
      modifies this, heap
      ensures Consistent() && State() == Rebased(old(State()), now)
      ensures TimerStep(less, old(State()), RebaseOp(now), State())
      ensures Valid() <==> (Rebases(old(State()), now) ==> Spread(old(State())))
    {
      if Offset(baseTimeMs, now) > REBASE_INTERVAL_MS {
        RebaseKeepsOrder(less, State(), now);
        if heap.store == [] {
          baseTimeMs := Offset(REBASE_MARGIN_MS, now);
        } else {
          var top := Top();
          baseTimeMs := Offset(REBASE_MARGIN_MS, top.time);
        }
        TimerCompareStrictWeak(less, baseTimeMs);
        heap.SetCompare(TimerCompare(less, baseTimeMs), false);
      }
    }

    method Top() returns (e: TimerEntry<T>)
      requires heap.store != []
      ensures e == heap.store[0] && (Valid() ==> forall f | f in heap.store :: NotAfter(baseTimeMs, e, f))
    {
      e := heap.Top();
      if Valid() {
        forall f | f in heap.store
          ensures NotAfter(baseTimeMs, e, f)
        {
          TopIsNearest(less, State(), f);
        }
      }
    }

    method Add(e: TimerEntry<T>)
      requires Valid()
      modifies heap
      ensures Valid()
      ensures forall d | d % TWO_32 == e.time :: TimerStep(less, old(State()), AddOp(d, e.tag), State())
    {
      TimerCompareStrictWeak(less, baseTimeMs);
      heap.Add(e);
    }

    /** Takes out every entry equal to `e`. */
    method Remove(e: TimerEntry<T>)
      requires Consistent()
      modifies heap
      ensures Valid()
      ensures forall d | d % TWO_32 == e.time :: TimerStep(less, old(State()), RemoveOp(d, e.tag), State())
    {
      TimerCompareStrictWeak(less, baseTimeMs);
      heap.Remove(e);
    }

    method CompareTop(e: TimerEntry<T>) returns (r: bool)
      ensures r <==> heap.store != [] && heap.store[0] == e
    {
      if heap.store == [] {
        return false;
      }
      var top := Top();
      return top == e;
    }

    method Clear()
      requires Consistent()
      modifies heap
      ensures Valid() && TimerStep(less, old(State()), ClearOp, State())
    {
      heap.Clear();
    }

    /** Hands out the top if it has expired, and takes it off the heap. */
    method PopExpiredEntry(now: uint32) returns (entry: Option<TimerEntry<T>>)
      requires Valid()
      modifies heap
      ensures Valid()
      ensures entry.Some? <==> old(heap.store) != [] && Expired(old(heap.store)[0], now)
      ensures entry.Some? ==>
        && entry.value == old(heap.store)[0] && TimerStep(less, old(State()), PopOp, State())
        && (forall f | f in old(heap.store) :: NotAfter(baseTimeMs, entry.value, f))
      ensures entry.None? ==> State() == old(State())
    {
      entry := None;
      if heap.store != [] {
        var top := Top();
        if GenerateTimeoutMs(top.time, now) == 0 {
          TimerCompareStrictWeak(less, baseTimeMs);
          heap.Pop();
          entry := Some(top);
        }
      }
    }

    /** Shows the top if it has expired. */
    method GetExpiredEntry(now: uint32) returns (entry: Option<TimerEntry<T>>)
      ensures entry.Some? <==> heap.store != [] && Expired(heap.store[0], now)
      ensures entry.Some? ==> entry.value == heap.store[0]
      ensures entry.Some? && Valid() ==> forall f | f in heap.store :: NotAfter(baseTimeMs, entry.value, f)
    {
      entry := None;
      if heap.store != [] {
        var top := Top();
        if GenerateTimeoutMs(top.time, now) == 0 {
          entry := Some(top);
        }
      }
    }

    method GetNextEntryTimeoutMs(now: uint32) returns (timeout: uint32)
      ensures timeout == if heap.store == [] then 0xFFFF_FFFF else GenerateTimeoutMs(heap.store[0].time, now)
    {
      if heap.store == [] {
        return 0xFFFF_FFFF;
      }
      var top := Top();
      return GenerateTimeoutMs(top.time, now);
    }

    /** Pops until nothing more has expired, at a fixed clock: the entries come out
        in deadline order and what is left is the rest. They are all the expired
        ones exactly when expiry is monotone in the deadline. */
    method DrainExpired(now: uint32) returns (taken: seq<TimerEntry<T>>)
      requires Valid()
      modifies heap
      ensures Valid() && baseTimeMs == old(baseTimeMs)
      ensures old(multiset(heap.store)) == multiset(taken) + multiset(heap.store)
      ensures forall i, j | 0 <= i < j < |taken| :: NotAfter(baseTimeMs, taken[i], taken[j])
      ensures forall e | e in taken :: Expired(e, now)
      ensures (forall e | e in heap.store :: !Expired(e, now)) <==> Monotone(old(State()), now)
    {
      taken := [];
      while true
        invariant Valid()
        invariant Drained(baseTimeMs, old(heap.store), taken, heap.store)
        invariant forall e | e in taken :: Expired(e, now)
        decreases |heap.store|
      {
        ghost var store := heap.store;
        var entry := PopExpiredEntry(now);
        if entry.None? {
          break;
        }
        DrainMore(baseTimeMs, old(heap.store), taken, store, entry.value, heap.store);
        taken := taken + [entry.value];
      }
      DrainIsExact(less, old(State()), now, taken, State());
    }
  }

  /** `before` has been split into `taken`, in deadline order, and `store`, none of
      which is before one that was taken. */
  ghost predicate Drained<T>(base: uint32, before: seq<TimerEntry<T>>, taken: seq<TimerEntry<T>>, store: seq<TimerEntry<T>>)
  {
    && multiset(before) == multiset(taken) + multiset(store)
    && (forall i, j | 0 <= i < j < |taken| :: NotAfter(base, taken[i], taken[j]))
    && (forall e, f | e in taken && f in store :: NotAfter(base, e, f))
  }

  lemma DrainMore<T>(base: uint32, before: seq<TimerEntry<T>>, taken: seq<TimerEntry<T>>, store: seq<TimerEntry<T>>,
                     top: TimerEntry<T>, rest: seq<TimerEntry<T>>)
    requires Drained(base, before, taken, store) && top in store
    requires multiset(rest) == multiset(store) - multiset{top}
    requires forall f | f in store :: NotAfter(base, top, f)
    ensures Drained(base, before, taken + [top], rest) && |rest| < |store|
  {
    assert |multiset(rest)| == |rest| && |multiset(store)| == |store|;
    forall f | f in rest
      ensures f in store
    {
      assert f in multiset(rest) && f in multiset(store);
    }
  }
}

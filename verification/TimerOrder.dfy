/** Why RCF's `TimerHeap` works: deadlines on a 32-bit millisecond clock that wraps
    around, ordered by their distance from a base time that moves along. */
module TimerOrder {
  import opened Prelude
  import opened Heaps

  datatype TimerEntry<T> = TimerEntry(time: uint32, tag: T)

  /** `time - base` on 32-bit unsigned integers. */
  function Offset(base: uint32, time: uint32): uint32
  {
    (time - base) % TWO_32
  }

  /** `std::make_pair(t, a) > std::make_pair(u, b)`. */
  predicate PairGreater<T>(less: (T, T) -> bool, t: uint32, a: T, u: uint32, b: T)
  {
    u < t || (!(t < u) && less(b, a))
  }

  /** `TimerCompare`: the earliest entries are the greatest. */
  function TimerCompare<T>(less: (T, T) -> bool, base: uint32): (TimerEntry<T>, TimerEntry<T>) -> bool
  {
    (lhs: TimerEntry<T>, rhs: TimerEntry<T>) =>
      PairGreater(less, Offset(base, lhs.time), lhs.tag, Offset(base, rhs.time), rhs.tag)
  }

  lemma TimerCompareStrictWeak<T(!new)>(less: (T, T) -> bool, base: uint32)
    requires StrictWeak(less)
    ensures StrictWeak(TimerCompare(less, base))
  {
    var comp := TimerCompare(less, base);
    forall a, b, c
      ensures comp(a, b) ==> !comp(b, a)
      ensures !comp(a, b) && !comp(b, c) ==> !comp(a, c)
    {
      PairGreaterWeak(less, Offset(base, a.time), a.tag, Offset(base, b.time), b.tag, Offset(base, c.time), c.tag);
    }
  }

  lemma PairGreaterWeak<T(!new)>(less: (T, T) -> bool, t: uint32, a: T, u: uint32, b: T, v: uint32, c: T)
    requires StrictWeak(less)
    ensures PairGreater(less, t, a, u, b) ==> !PairGreater(less, u, b, t, a)
    ensures !PairGreater(less, t, a, u, b) && !PairGreater(less, u, b, v, c) ==> !PairGreater(less, t, a, v, c)
  {
    assert less(b, a) ==> !less(a, b);
    assert !less(c, b) && !less(b, a) ==> !less(c, a);
  }

  // ------------------------------------------------------ the unbounded clock

  /** The one deadline in the window that starts at `epoch` whose low 32 bits are
      `time`. */
  function Deadline(epoch: int, time: uint32): int
  {
    epoch + (time - epoch) % TWO_32
  }

  predicate InWindow(epoch: int, deadline: int)
  {
    epoch <= deadline < epoch + TWO_32
  }

  lemma DeadlineUnique(epoch: int, deadline: int)
    ensures InWindow(epoch, deadline) <==> Deadline(epoch, deadline % TWO_32) == deadline
  {
  }

  lemma DeadlineOffset(epoch: int, time: uint32)
    ensures InWindow(epoch, Deadline(epoch, time))
    ensures Deadline(epoch, time) == epoch + Offset(epoch % TWO_32, time)
    ensures Deadline(epoch, time) % TWO_32 == time
  {
  }

  // ------------------------------------------------------------ states, steps

  /** `mBaseTimeMs` and the vector inside `mTimerHeap`. */
  datatype TimerState<T> = TimerState(base: uint32, store: seq<TimerEntry<T>>)

  ghost predicate Sorted<T>(less: (T, T) -> bool, s: TimerState<T>)
  {
    IsHeap(TimerCompare(less, s.base), s.store)
  }

  const REBASE_INTERVAL_MS: uint32 := 1000 * 60 * 60
  const REBASE_MARGIN_MS: uint32 := 1000 * 10

  /** The base moves only if it is more than an hour behind the clock. */
  predicate Rebases<T>(s: TimerState<T>, now: uint32)
  {
    Offset(s.base, now) > REBASE_INTERVAL_MS
  }

  function Rebased<T>(s: TimerState<T>, now: uint32): TimerState<T>
  {
    if !Rebases(s, now) then s
    else s.(base := Offset(REBASE_MARGIN_MS, if s.store == [] then now else s.store[0].time))
  }

  /** Once the clock is more than an hour after the base, modulo 2^32, a rebase moves
      the base to ten seconds before the top, or before the clock if there is none;
      otherwise it leaves everything as it is. */
  lemma RebaseMoves<T>(s: TimerState<T>, now: uint32)
    ensures var s' := Rebased(s, now);
      && s'.store == s.store
      && (if (now - s.base) % 0x1_0000_0000 <= 3600000 then s' == s
          else if s.store == [] then (now - s'.base) % 0x1_0000_0000 == 10000
          else (s.store[0].time - s'.base) % 0x1_0000_0000 == 10000)
  {
    BackAgain(now);
    if s.store != [] {
      BackAgain(s.store[0].time);
    }
  }

  lemma BackAgain(time: uint32)
    ensures (time - Offset(REBASE_MARGIN_MS, time)) % TWO_32 == REBASE_MARGIN_MS
  {
    assert Offset(REBASE_MARGIN_MS, time)
        == if time >= REBASE_MARGIN_MS then time - REBASE_MARGIN_MS else time - REBASE_MARGIN_MS + TWO_32;
  }

  /** Every entry is less than 2^32 - 10000 ms after the top, modulo 2^32. */
  ghost predicate Spread<T>(s: TimerState<T>)
  {
    s.store != [] ==> forall e | e in s.store :: Offset(s.store[0].time, e.time) < TWO_32 - REBASE_MARGIN_MS
  }

  lemma OffsetDifference(base: uint32, top: uint32, time: uint32)
    requires Offset(base, top) <= Offset(base, time)
    ensures Offset(top, time) == Offset(base, time) - Offset(base, top)
  {
  }

  /** How the distance from the base changes when the base moves to 10 s before the
      top: by the same amount for every entry within the spread bound, and to less
      than the top's for every other one. */
  lemma OffsetMoves(base: uint32, top: uint32, time: uint32)
    requires Offset(base, top) <= Offset(base, time)
    ensures var moved := Offset(REBASE_MARGIN_MS, top);
      && Offset(moved, top) == REBASE_MARGIN_MS
      && (if Offset(top, time) < TWO_32 - REBASE_MARGIN_MS
          then Offset(moved, time) == Offset(base, time) - Offset(base, top) + REBASE_MARGIN_MS
          else Offset(moved, time) < REBASE_MARGIN_MS)
  {
    OffsetDifference(base, top, time);
    OffsetFromMargin(top, time);
    OffsetFromMargin(top, top);
  }

  lemma OffsetFromMargin(top: uint32, time: uint32)
    ensures Offset(Offset(REBASE_MARGIN_MS, top), time)
         == if Offset(top, time) < TWO_32 - REBASE_MARGIN_MS then Offset(top, time) + REBASE_MARGIN_MS
            else Offset(top, time) + REBASE_MARGIN_MS - TWO_32
  {
    assert Offset(REBASE_MARGIN_MS, top)
        == if top >= REBASE_MARGIN_MS then top - REBASE_MARGIN_MS else top - REBASE_MARGIN_MS + TWO_32;
    assert Offset(top, time) == if time >= top then time - top else time - top + TWO_32;
  }

  /** The top of an ordered heap is the nearest entry. */
  lemma TopIsNearest<T(!new)>(less: (T, T) -> bool, s: TimerState<T>, e: TimerEntry<T>)
    requires StrictWeak(less) && Sorted(less, s) && e in s.store
    ensures Offset(s.base, s.store[0].time) <= Offset(s.base, e.time)
    ensures Offset(s.base, s.store[0].time) == Offset(s.base, e.time) ==> !less(e.tag, s.store[0].tag)
  {
    var i :| 0 <= i < |s.store| && s.store[i] == e;
    TimerCompareStrictWeak(less, s.base);
    TopIsGreatest(TimerCompare(less, s.base), s.store, i);
  }

  /** Moving the base without moving an element keeps the order exactly when the
      spread bound holds. */
  lemma RebaseKeepsOrder<T(!new)>(less: (T, T) -> bool, s: TimerState<T>, now: uint32)
    requires StrictWeak(less) && Sorted(less, s) && Rebases(s, now)
    ensures Sorted(less, Rebased(s, now)) <==> Spread(s)
  {
    var s' := Rebased(s, now);
    if s.store != [] {
      if Spread(s) {
        forall i | 0 < i < |s.store|
          ensures InOrder(TimerCompare(less, s'.base), s'.store, i)
        {
          var p, e := s.store[Parent(i)], s.store[i];
          assert InOrder(TimerCompare(less, s.base), s.store, i);
          TopIsNearest(less, s, p);
          TopIsNearest(less, s, e);
          OffsetMoves(s.base, s.store[0].time, p.time);
          OffsetMoves(s.base, s.store[0].time, e.time);
        }
      } else {
        var e :| e in s.store && Offset(s.store[0].time, e.time) >= TWO_32 - REBASE_MARGIN_MS;
        TopIsNearest(less, s, e);
        OffsetMoves(s.base, s.store[0].time, e.time);
        if Sorted(less, s') {
          TopIsNearest(less, s', e);
        }
      }
    }
  }

  /** Two entries further apart than the bound, and an hour later the earlier one
      is still at the top but no longer the nearest. */
  lemma RebaseBreaksOrder()
    ensures var less := (a: int, b: int) => a < b;
            var s := TimerState(0, [TimerEntry(0, 1), TimerEntry(0xFFFF_FFFF, 2)]);
            Sorted(less, s) && Rebases(s, 3600001) && !Spread(s) && !Sorted(less, Rebased(s, 3600001))
  {
    var less := (a: int, b: int) => a < b;
    var s := TimerState(0, [TimerEntry(0, 1), TimerEntry(0xFFFF_FFFF, 2)]);
    assert s.store[1] in s.store && Offset(s.store[0].time, s.store[1].time) == 0xFFFF_FFFF;
    RebaseKeepsOrder(less, s, 3600001);
  }

  /** The bound holds by itself once the top is 10 s past the old base. */
  lemma SpreadOnceDue<T(!new)>(less: (T, T) -> bool, s: TimerState<T>)
    requires StrictWeak(less) && Sorted(less, s)
    requires s.store != [] ==> Offset(s.base, s.store[0].time) >= REBASE_MARGIN_MS
    ensures Spread(s)
  {
    if s.store != [] {
      forall e | e in s.store
        ensures Offset(s.store[0].time, e.time) < TWO_32 - REBASE_MARGIN_MS
      {
        TopIsNearest(less, s, e);
      }
    }
  }

  /** The changes a timer heap goes through, on the unbounded clock. */
  datatype TimerOp<T> =
    | AddOp(deadline: int, tag: T)
    | RemoveOp(deadline: int, tag: T)
    | PopOp
    | ClearOp
    | RebaseOp(now: int)

  /** What each method does to the state. */
  ghost predicate TimerStep<T(!new)>(less: (T, T) -> bool, s: TimerState<T>, op: TimerOp<T>, s': TimerState<T>)
  {
    match op
    case AddOp(d, tag) =>
      && s'.base == s.base && Sorted(less, s')
      && multiset(s'.store) == multiset(s.store) + multiset{TimerEntry(d % TWO_32, tag)}
    case RemoveOp(d, tag) =>
      && s'.base == s.base && Sorted(less, s')
      && multiset(s'.store) == multiset(s.store)[TimerEntry(d % TWO_32, tag) := 0]
    case PopOp =>
      && s.store != [] && s'.base == s.base && Sorted(less, s')
      && multiset(s'.store) == multiset(s.store) - multiset{s.store[0]}
    case ClearOp => s' == TimerState(s.base, [])
    case RebaseOp(now) => s' == Rebased(s, now % TWO_32)
  }

  /** The start of the window after a step. */
  ghost function EpochAfter<T>(epoch: int, s: TimerState<T>, op: TimerOp<T>): int
  {
    if op.RebaseOp? && Rebases(s, op.now % TWO_32) then
      (if s.store == [] then op.now else Deadline(epoch, s.store[0].time)) - REBASE_MARGIN_MS
    else epoch
  }

  /** Every deadline that is live stays in the window: the ones given are in it,
      and a rebase does not move it past one. */
  ghost predicate StaysLive<T>(epoch: int, s: TimerState<T>, op: TimerOp<T>)
  {
    match op
    case AddOp(d, _) => InWindow(epoch, d)
    case RemoveOp(d, _) => InWindow(epoch, d)
    case RebaseOp(now) => Rebases(s, now % TWO_32) ==> Spread(s)
    case _ => true
  }

  // ---------------------------------------------- the queue it stands for

  datatype Alarm<T> = Alarm(deadline: int, tag: T)

  predicate Earlier<T>(less: (T, T) -> bool, a: Alarm<T>, b: Alarm<T>)
  {
    a.deadline < b.deadline || (a.deadline == b.deadline && less(a.tag, b.tag))
  }

  /** A priority queue on unbounded deadlines. */
  ghost predicate QueueStep<T(!new)>(less: (T, T) -> bool, q: multiset<Alarm<T>>, op: TimerOp<T>, q': multiset<Alarm<T>>)
  {
    match op
    case AddOp(d, tag) => q' == q + multiset{Alarm(d, tag)}
    case RemoveOp(d, tag) => q' == q[Alarm(d, tag) := 0]
    case PopOp => exists a :: a in q && Least(less, q, a) && q' == q - multiset{a}
    case ClearOp => q' == multiset{}
    case RebaseOp(_) => q' == q
  }

  ghost predicate Least<T(!new)>(less: (T, T) -> bool, q: multiset<Alarm<T>>, a: Alarm<T>)
  {
    forall b | b in q :: !Earlier(less, b, a)
  }

  /** The entries are the alarms of `q` with their deadlines cut to 32 bits, and
      the deadlines lie in the window that starts at `epoch`. */
  ghost predicate Represents<T(!new)>(epoch: int, s: TimerState<T>, q: multiset<Alarm<T>>)
  {
    && s.base == epoch % TWO_32
    && forall a: Alarm<T> :: q[a] == Copies(epoch, s, a)
  }

  ghost function Copies<T>(epoch: int, s: TimerState<T>, a: Alarm<T>): nat
  {
    if InWindow(epoch, a.deadline) then multiset(s.store)[TimerEntry(a.deadline % TWO_32, a.tag)] else 0
  }

  function AlarmOf<T>(epoch: int, e: TimerEntry<T>): (a: Alarm<T>)
    ensures InWindow(epoch, a.deadline) && a.deadline % TWO_32 == e.time
  {
    DeadlineOffset(epoch, e.time);
    Alarm(Deadline(epoch, e.time), e.tag)
  }

  /** The top is a least alarm of the queue. */
  lemma TopIsLeast<T(!new)>(less: (T, T) -> bool, epoch: int, s: TimerState<T>, q: multiset<Alarm<T>>)
    requires StrictWeak(less) && Sorted(less, s) && Represents(epoch, s, q) && s.store != []
    ensures AlarmOf(epoch, s.store[0]) in q && Least(less, q, AlarmOf(epoch, s.store[0]))
  {
    var top := s.store[0];
    assert q[AlarmOf(epoch, top)] == Copies(epoch, s, AlarmOf(epoch, top));
    assert top in s.store;
    forall b | b in q
      ensures !Earlier(less, b, AlarmOf(epoch, top))
    {
      assert q[b] == Copies(epoch, s, b);
      var e := TimerEntry(b.deadline % TWO_32, b.tag);
      assert e in multiset(s.store);
      TopIsNearest(less, s, e);
      DeadlineUnique(epoch, b.deadline);
      DeadlineOffset(epoch, e.time);
      DeadlineOffset(epoch, top.time);
    }
  }

  /** The queue after a step that keeps every deadline live. */
  ghost function QueueAfter<T>(epoch: int, s: TimerState<T>, q: multiset<Alarm<T>>, op: TimerOp<T>): multiset<Alarm<T>>
    requires op.PopOp? ==> s.store != []
  {
    match op
    case AddOp(d, tag) => q + multiset{Alarm(d, tag)}
    case RemoveOp(d, tag) => q[Alarm(d, tag) := 0]
    case PopOp => q - multiset{AlarmOf(epoch, s.store[0])}
    case ClearOp => multiset{}
    case RebaseOp(_) => q
  }

  /** Two alarms in one window are the same if they are cut to the same entry. */
  lemma SameEntrySameAlarm<T>(epoch: int, a: Alarm<T>, b: Alarm<T>)
    requires InWindow(epoch, a.deadline) && InWindow(epoch, b.deadline)
    requires a.deadline % TWO_32 == b.deadline % TWO_32 && a.tag == b.tag
    ensures a == b
  {
    DeadlineUnique(epoch, a.deadline);
    DeadlineUnique(epoch, b.deadline);
  }

  lemma StepCopies<T(!new)>(less: (T, T) -> bool, epoch: int, s: TimerState<T>, q: multiset<Alarm<T>>,
                            op: TimerOp<T>, s': TimerState<T>, a: Alarm<T>)
    requires TimerStep(less, s, op, s') && StaysLive(epoch, s, op) && !op.RebaseOp?
    requires q[a] == Copies(epoch, s, a)
    ensures QueueAfter(epoch, s, q, op)[a] == Copies(epoch, s', a)
  {
    if InWindow(epoch, a.deadline) {
      var e := TimerEntry(a.deadline % TWO_32, a.tag);
      match op
      case AddOp(d, tag) =>
        if e == TimerEntry(d % TWO_32, tag) {
          SameEntrySameAlarm(epoch, a, Alarm(d, tag));
        }
      case RemoveOp(d, tag) =>
        if e == TimerEntry(d % TWO_32, tag) {
          SameEntrySameAlarm(epoch, a, Alarm(d, tag));
        }
      case PopOp =>
        if e == s.store[0] {
          SameEntrySameAlarm(epoch, a, AlarmOf(epoch, s.store[0]));
        }
      case ClearOp =>
    }
  }

  /** Every step but a rebase changes the entries as it changes the alarms. */
  lemma StepRepresents<T(!new)>(less: (T, T) -> bool, epoch: int, s: TimerState<T>, q: multiset<Alarm<T>>,
                                op: TimerOp<T>, s': TimerState<T>)
    requires Represents(epoch, s, q) && TimerStep(less, s, op, s') && StaysLive(epoch, s, op) && !op.RebaseOp?
    ensures Represents(epoch, s', QueueAfter(epoch, s, q, op))
  {
    forall a: Alarm<T>
      ensures QueueAfter(epoch, s, q, op)[a] == Copies(epoch, s', a)
    {
      StepCopies(less, epoch, s, q, op, s', a);
    }
  }

  lemma RebaseCopies<T(!new)>(less: (T, T) -> bool, epoch: int, s: TimerState<T>, now: int, a: Alarm<T>)
    requires StrictWeak(less) && Sorted(less, s) && s.base == epoch % TWO_32
    requires Rebases(s, now % TWO_32) && Spread(s)
    ensures Copies(EpochAfter(epoch, s, RebaseOp(now)), Rebased(s, now % TWO_32), a) == Copies(epoch, s, a)
  {
    var e := TimerEntry(a.deadline % TWO_32, a.tag);
    if e in s.store {
      TopIsNearest(less, s, e);
      WindowMoves(epoch, s.store[0].time, e.time, a.deadline);
    } else {
      assert multiset(s.store)[e] == 0;
    }
  }

  /** A rebase within the spread bound leaves every alarm its deadline. */
  lemma RebaseRepresents<T(!new)>(less: (T, T) -> bool, epoch: int, s: TimerState<T>, q: multiset<Alarm<T>>, now: int)
    requires StrictWeak(less) && Sorted(less, s) && Represents(epoch, s, q)
    requires Rebases(s, now % TWO_32) && Spread(s)
    ensures Represents(EpochAfter(epoch, s, RebaseOp(now)), Rebased(s, now % TWO_32), q)
  {
    forall a: Alarm<T>
      ensures q[a] == Copies(EpochAfter(epoch, s, RebaseOp(now)), Rebased(s, now % TWO_32), a)
    {
      RebaseCopies(less, epoch, s, now, a);
    }
    RebasedBase(epoch, s, now);
  }

  lemma RebasedBase<T>(epoch: int, s: TimerState<T>, now: int)
    requires s.base == epoch % TWO_32
    ensures Rebased(s, now % TWO_32).base == EpochAfter(epoch, s, RebaseOp(now)) % TWO_32
  {
    if s.store != [] {
      DeadlineOffset(epoch, s.store[0].time);
      SubtractModulo(Deadline(epoch, s.store[0].time));
    }
    SubtractModulo(now);
  }

  lemma SubtractModulo(n: int)
    ensures Offset(REBASE_MARGIN_MS, n % TWO_32) == (n - REBASE_MARGIN_MS) % TWO_32
  {
    var k := n / TWO_32;
    assert n - REBASE_MARGIN_MS == k * TWO_32 + (n % TWO_32 - REBASE_MARGIN_MS);
  }

  /** The deadline of an entry within the spread bound is the same in both windows. */
  lemma WindowMoves(epoch: int, top: uint32, time: uint32, deadline: int)
    requires Offset(epoch % TWO_32, top) <= Offset(epoch % TWO_32, time) && deadline % TWO_32 == time
    requires Offset(top, time) < TWO_32 - REBASE_MARGIN_MS
    ensures InWindow(epoch, deadline) <==> InWindow(Deadline(epoch, top) - REBASE_MARGIN_MS, deadline)
  {
    var epoch' := Deadline(epoch, top) - REBASE_MARGIN_MS;
    DeadlineOffset(epoch, top);
    DeadlineOffset(epoch, time);
    OffsetDifference(epoch % TWO_32, top, time);
    assert InWindow(epoch', Deadline(epoch, time));
    DeadlineUnique(epoch', Deadline(epoch, time));
    DeadlineUnique(epoch, deadline);
    DeadlineUnique(epoch', deadline);
  }

  /** An alarm of the queue for an entry of the heap. */
  lemma EntryIsAlarm<T(!new)>(epoch: int, s: TimerState<T>, q: multiset<Alarm<T>>, e: TimerEntry<T>)
    requires Represents(epoch, s, q) && e in s.store
    ensures AlarmOf(epoch, e) in q && AlarmOf(epoch, e).deadline == epoch + Offset(s.base, e.time)
  {
    assert q[AlarmOf(epoch, e)] == Copies(epoch, s, AlarmOf(epoch, e));
    DeadlineOffset(epoch, e.time);
  }

  /** What `StaysLive` means for a rebase: every deadline of the queue lies in the
      window that the rebase moves to. */
  lemma RebaseStaysLive<T(!new)>(less: (T, T) -> bool, epoch: int, s: TimerState<T>, q: multiset<Alarm<T>>, now: int)
    requires StrictWeak(less) && Sorted(less, s) && Represents(epoch, s, q)
    ensures StaysLive(epoch, s, RebaseOp(now))
       <==> forall a | a in q :: InWindow(EpochAfter(epoch, s, RebaseOp(now)), a.deadline)
  {
    var epoch' := EpochAfter(epoch, s, RebaseOp(now));
    if StaysLive(epoch, s, RebaseOp(now)) {
      if Rebases(s, now % TWO_32) {
        RebaseRepresents(less, epoch, s, q, now);
      }
      var s' := Rebased(s, now % TWO_32);
      assert forall a | a in q :: q[a] == Copies(epoch', s', a);
    } else {
      var top := s.store[0];
      var e :| e in s.store && Offset(top.time, e.time) >= TWO_32 - REBASE_MARGIN_MS;
      TopIsNearest(less, s, e);
      OffsetDifference(s.base, top.time, e.time);
      DeadlineOffset(epoch, top.time);
      EntryIsAlarm(epoch, s, q, e);
      assert !InWindow(epoch', AlarmOf(epoch, e).deadline);
    }
  }

  /** A step of the 32-bit heap is a step of the unbounded queue. */
  lemma StepRefines<T(!new)>(less: (T, T) -> bool, epoch: int, s: TimerState<T>, q: multiset<Alarm<T>>,
                             op: TimerOp<T>, s': TimerState<T>)
    requires StrictWeak(less) && Sorted(less, s) && Represents(epoch, s, q)
    requires TimerStep(less, s, op, s') && StaysLive(epoch, s, op)
    ensures Sorted(less, s') && Represents(EpochAfter(epoch, s, op), s', QueueAfter(epoch, s, q, op))
    ensures QueueStep(less, q, op, QueueAfter(epoch, s, q, op))
  {
    if op.RebaseOp? {
      if Rebases(s, op.now % TWO_32) {
        RebaseKeepsOrder(less, s, op.now % TWO_32);
        RebaseRepresents(less, epoch, s, q, op.now);
      }
    } else {
      StepRepresents(less, epoch, s, q, op, s');
      if op.PopOp? {
        TopIsLeast(less, epoch, s, q);
      }
    }
  }

  /** A run: each state follows from the one before by its step, the windows move
      with the rebases, and every deadline stays live. */
  ghost predicate LiveRun<T(!new)>(less: (T, T) -> bool, epochs: seq<int>, states: seq<TimerState<T>>, ops: seq<TimerOp<T>>)
  {
    |states| == |epochs| == |ops| + 1 && forall i | 0 <= i < |ops| :: LiveStep(less, epochs, states, ops, i)
  }

  ghost predicate LiveStep<T(!new)>(less: (T, T) -> bool, epochs: seq<int>, states: seq<TimerState<T>>,
                                    ops: seq<TimerOp<T>>, i: nat)
    requires |states| == |epochs| == |ops| + 1 && i < |ops|
  {
    && TimerStep(less, states[i], ops[i], states[i + 1])
    && epochs[i + 1] == EpochAfter(epochs[i], states[i], ops[i])
    && StaysLive(epochs[i], states[i], ops[i])
  }

  /** Over every live run the 32-bit heap is a priority queue on the unbounded
      deadlines, and its top is always a least alarm. */
  lemma RunRefines<T(!new)>(less: (T, T) -> bool, epochs: seq<int>, states: seq<TimerState<T>>,
                            ops: seq<TimerOp<T>>, q: multiset<Alarm<T>>)
    returns (queues: seq<multiset<Alarm<T>>>)
    requires StrictWeak(less) && LiveRun(less, epochs, states, ops)
    requires Sorted(less, states[0]) && Represents(epochs[0], states[0], q)
    ensures |queues| == |ops| + 1 && queues[0] == q && QueueRun(less, queues, ops)
    ensures forall i | 0 <= i <= |ops| :: Refines(less, epochs[i], states[i], queues[i])
  {
    if states[0].store != [] {
      TopIsLeast(less, epochs[0], states[0], q);
    }
    queues := RunRefinesTo(less, epochs, states, ops, q, |ops|);
    assert ops[..|ops|] == ops;
    forall i | 0 <= i <= |ops|
      ensures Refines(less, epochs[i], states[i], queues[i])
    {
      assert RefinesAt(less, epochs, states, queues, i);
    }
  }

  ghost predicate QueueRun<T(!new)>(less: (T, T) -> bool, queues: seq<multiset<Alarm<T>>>, ops: seq<TimerOp<T>>)
    requires |queues| == |ops| + 1
  {
    forall i | 0 <= i < |ops| :: QueueStepAt(less, queues, ops, i)
  }

  ghost predicate QueueStepAt<T(!new)>(less: (T, T) -> bool, queues: seq<multiset<Alarm<T>>>, ops: seq<TimerOp<T>>, i: nat)
    requires i < |ops| < |queues|
  {
    QueueStep(less, queues[i], ops[i], queues[i + 1])
  }

  lemma QueueRunNext<T(!new)>(less: (T, T) -> bool, queues: seq<multiset<Alarm<T>>>, ops: seq<TimerOp<T>>,
                              op: TimerOp<T>, q: multiset<Alarm<T>>)
    requires |queues| == |ops| + 1 && QueueRun(less, queues, ops) && QueueStep(less, queues[|ops|], op, q)
    ensures QueueRun(less, queues + [q], ops + [op])
  {
    forall i | 0 <= i < |ops| + 1
      ensures QueueStepAt(less, queues + [q], ops + [op], i)
    {
      if i < |ops| {
        assert QueueStepAt(less, queues, ops, i);
      }
    }
  }

  ghost predicate Refines<T(!new)>(less: (T, T) -> bool, epoch: int, s: TimerState<T>, q: multiset<Alarm<T>>)
  {
    && Sorted(less, s) && Represents(epoch, s, q)
    && (s.store != [] ==> AlarmOf(epoch, s.store[0]) in q && Least(less, q, AlarmOf(epoch, s.store[0])))
  }

  lemma RefinesNext<T(!new)>(less: (T, T) -> bool, epoch: int, s: TimerState<T>, q: multiset<Alarm<T>>,
                             op: TimerOp<T>, s': TimerState<T>)
    requires StrictWeak(less) && Refines(less, epoch, s, q)
    requires TimerStep(less, s, op, s') && StaysLive(epoch, s, op)
    ensures QueueStep(less, q, op, QueueAfter(epoch, s, q, op))
    ensures Refines(less, EpochAfter(epoch, s, op), s', QueueAfter(epoch, s, q, op))
  {
    StepRefines(less, epoch, s, q, op, s');
    if s'.store != [] {
      TopIsLeast(less, EpochAfter(epoch, s, op), s', QueueAfter(epoch, s, q, op));
    }
  }

  ghost predicate RefinesAt<T(!new)>(less: (T, T) -> bool, epochs: seq<int>, states: seq<TimerState<T>>,
                                     queues: seq<multiset<Alarm<T>>>, i: nat)
    requires i < |epochs| && i < |states| && i < |queues|
  {
    Refines(less, epochs[i], states[i], queues[i])
  }

  /** Queues that the first states of a run refine, one after the other. */
  ghost predicate Follows<T(!new)>(less: (T, T) -> bool, epochs: seq<int>, states: seq<TimerState<T>>,
                                   ops: seq<TimerOp<T>>, queues: seq<multiset<Alarm<T>>>)
    requires |ops| < |epochs| && |ops| < |states|
  {
    && |queues| == |ops| + 1 && QueueRun(less, queues, ops)
    && forall i | 0 <= i <= |ops| :: RefinesAt(less, epochs, states, queues, i)
  }

  lemma FollowsNext<T(!new)>(less: (T, T) -> bool, epochs: seq<int>, states: seq<TimerState<T>>,
                             ops: seq<TimerOp<T>>, queues: seq<multiset<Alarm<T>>>, op: TimerOp<T>, q: multiset<Alarm<T>>)
    requires |ops| + 1 < |epochs| && |ops| + 1 < |states| && Follows(less, epochs, states, ops, queues)
    requires QueueStep(less, queues[|ops|], op, q) && Refines(less, epochs[|ops| + 1], states[|ops| + 1], q)
    ensures Follows(less, epochs, states, ops + [op], queues + [q])
  {
    QueueRunNext(less, queues, ops, op, q);
    forall i | 0 <= i <= |ops| + 1
      ensures RefinesAt(less, epochs, states, queues + [q], i)
    {
      assert i <= |ops| ==> RefinesAt(less, epochs, states, queues, i);
    }
  }

  lemma StepFollows<T(!new)>(less: (T, T) -> bool, epochs: seq<int>, states: seq<TimerState<T>>, ops: seq<TimerOp<T>>,
                             q: multiset<Alarm<T>>, k: nat) returns (q': multiset<Alarm<T>>)
    requires StrictWeak(less) && LiveRun(less, epochs, states, ops) && k < |ops|
    requires Refines(less, epochs[k], states[k], q)
    ensures QueueStep(less, q, ops[k], q') && Refines(less, epochs[k + 1], states[k + 1], q')
  {
    assert LiveStep(less, epochs, states, ops, k);
    q' := QueueAfter(epochs[k], states[k], q, ops[k]);
    RefinesNext(less, epochs[k], states[k], q, ops[k], states[k + 1]);
  }

  lemma {:induction false} RunRefinesTo<T(!new)>(less: (T, T) -> bool, epochs: seq<int>, states: seq<TimerState<T>>,
                                                 ops: seq<TimerOp<T>>, q: multiset<Alarm<T>>, n: nat)
    returns (queues: seq<multiset<Alarm<T>>>)
    requires StrictWeak(less) && LiveRun(less, epochs, states, ops) && n <= |ops|
    requires Refines(less, epochs[0], states[0], q)
    ensures Follows(less, epochs, states, ops[..n], queues) && queues[0] == q
    decreases n
  {
    if n == 0 {
      queues := [q];
    } else {
      var front := RunRefinesTo(less, epochs, states, ops, q, n - 1);
      assert RefinesAt(less, epochs, states, front, n - 1);
      var last := StepFollows(less, epochs, states, ops, front[n - 1], n - 1);
      FollowsNext(less, epochs, states, ops[..n - 1], front, ops[n - 1], last);
      assert ops[..n] == ops[..n - 1] + [ops[n - 1]];
      queues := front + [last];
    }
  }

  // ------------------------------------------------------------------ expiry

  const MAX_TIMEOUT_MS: uint32 := 0xFFFF_FFFF / 10 * 9

  /** The time left, and zero for a deadline that lies so far ahead that it must
      have passed. */
  function GenerateTimeoutMs(endTime: uint32, now: uint32): uint32
  {
    var timeout := Offset(now, endTime);
    if timeout <= MAX_TIMEOUT_MS then timeout else 0
  }

  predicate Expired<T>(e: TimerEntry<T>, now: uint32)
  {
    GenerateTimeoutMs(e.time, now) == 0
  }

  /** How long a deadline is still known to have passed: nearly five days. */
  const OVERDUE_MS: uint32 := TWO_32 - 1 - MAX_TIMEOUT_MS

  lemma DifferenceModulo(m: int, n: int)
    ensures Offset(n % TWO_32, m % TWO_32) == (m - n) % TWO_32
  {
    var k := n / TWO_32 - m / TWO_32;
    assert m % TWO_32 - n % TWO_32 == (m - n) + k * TWO_32;
  }

  /** Expiry is right for the deadlines of one window around the clock. */
  lemma ExpiredMeansPassed<T>(deadline: int, tag: T, now: int)
    requires InWindow(now - OVERDUE_MS, deadline)
    ensures Expired(TimerEntry(deadline % TWO_32, tag), now % TWO_32) <==> deadline <= now
  {
    DeadlineUnique(now - OVERDUE_MS, deadline);
    var d := deadline - now;
    DifferenceModulo(deadline, now);
    assert d % TWO_32 == if d >= 0 then d else d + TWO_32;
  }

  /** Expiry and the time left, on the unbounded clock: for a deadline up to 44 days
      ahead the time left is what is left, and for one passed by less than five days
      it is zero. */
  lemma ExpiryWindow<T>(deadline: int, tag: T, now: int)
    requires now - 429496734 <= deadline <= now + 3865470561
    ensures Expired(TimerEntry(deadline % TWO_32, tag), now % TWO_32) <==> deadline <= now
    ensures GenerateTimeoutMs(deadline % TWO_32, now % TWO_32) == if deadline <= now then 0 else deadline - now
  {
    var d := deadline - now;
    DifferenceModulo(deadline, now);
    assert d % TWO_32 == if d >= 0 then d else d + TWO_32;
  }

  /** An expired entry is never after one that is not. */
  ghost predicate Monotone<T>(s: TimerState<T>, now: uint32)
  {
    forall x, y | x in s.store && y in s.store && Expired(y, now) ::
      Offset(s.base, x.time) <= Offset(s.base, y.time) ==> Expired(x, now)
  }

  /** So it is when every deadline lies in that window. */
  lemma MonotoneInWindow<T(!new)>(epoch: int, s: TimerState<T>, q: multiset<Alarm<T>>, now: int)
    requires Represents(epoch, s, q)
    requires forall a | a in q :: InWindow(now - OVERDUE_MS, a.deadline)
    ensures Monotone(s, now % TWO_32)
  {
    forall x, y | x in s.store && y in s.store && Expired(y, now % TWO_32) && Offset(s.base, x.time) <= Offset(s.base, y.time)
      ensures Expired(x, now % TWO_32)
    {
      EntryIsAlarm(epoch, s, q, x);
      EntryIsAlarm(epoch, s, q, y);
      DeadlineOffset(epoch, x.time);
      DeadlineOffset(epoch, y.time);
      ExpiredMeansPassed(Deadline(epoch, x.time), x.tag, now);
      ExpiredMeansPassed(Deadline(epoch, y.time), y.tag, now);
    }
  }

  ghost predicate NotAfter<T>(base: uint32, x: TimerEntry<T>, y: TimerEntry<T>)
  {
    Offset(base, x.time) <= Offset(base, y.time)
  }

  /** A drain that took expired entries, none of them after one it left, up to one
      that is not expired, took all of them exactly when expiry is monotone. */
  lemma DrainIsExact<T(!new)>(less: (T, T) -> bool, before: TimerState<T>, now: uint32,
                              taken: seq<TimerEntry<T>>, after: TimerState<T>)
    requires StrictWeak(less) && Sorted(less, after) && after.base == before.base
    requires multiset(before.store) == multiset(taken) + multiset(after.store)
    requires forall e | e in taken :: Expired(e, now)
    requires forall e, f | e in taken && f in after.store :: NotAfter(before.base, e, f)
    requires after.store != [] ==> !Expired(after.store[0], now)
    ensures (forall e | e in after.store :: !Expired(e, now)) <==> Monotone(before, now)
  {
    forall e: TimerEntry<T>
      ensures e in before.store <==> e in taken || e in after.store
    {
      assert e in multiset(before.store) <==> e in multiset(taken) || e in multiset(after.store);
    }
    if Monotone(before, now) {
      forall e | e in after.store
        ensures !Expired(e, now)
      {
        TopIsNearest(less, after, e);
      }
    } else {
      var x, y :| x in before.store && y in before.store && Expired(y, now)
                  && Offset(before.base, x.time) <= Offset(before.base, y.time) && !Expired(x, now);
      if y in taken {
        assert NotAfter(before.base, y, x);
        SameOffsetSameTime(before.base, x.time, y.time);
      }
    }
  }

  lemma SameOffsetSameTime(base: uint32, t: uint32, u: uint32)
    ensures Offset(base, t) == Offset(base, u) <==> t == u
  {
    assert Offset(base, t) == if t >= base then t - base else t - base + TWO_32;
    assert Offset(base, u) == if u >= base then u - base else u - base + TWO_32;
  }
}

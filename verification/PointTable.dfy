/** The six point members of `OperationData`: `start_point_`, `end_point_`,
    `center_`, `top_left_corner_`, `bottom_right_corner_` and `position_`, by
    field number, with their has bits. A missing key is a null pointer. */
module PointTable {
  import opened Prelude
  import opened WireFormat
  import opened MessageEngine
  import opened TotalLimit
  import opened CodedStream
  import opened CodedTarget
  import opened PointCodec
  import opened PointMessage
  import opened OperationDataCodec

  const POINT_NUMBERS: seq<nat> := [4, 5, 6, 10, 11, 12]

  class Points {
    var slots: map<nat, Point>
    var has: set<nat>
    ghost var shown: map<nat, PointMsg>  // what the points with a has bit show
    ghost var Repr: set<object>

    /** A has bit needs a point; a point without its has bit is cleared; no two
        members share a point. */
    ghost predicate Valid()
      reads this, Repr
    {
      && Owns() && shown.Keys == has
      && (forall n | n in slots :: Shows(slots[n], At(n)))
    }

    ghost predicate Owns()
      reads this
    {
      && this in Repr && has <= slots.Keys && Distinct()
      && (forall n | n in slots :: slots[n] in Repr)
    }

    ghost predicate Distinct()
      reads this
    {
      forall j, k | j in slots && k in slots && j != k :: slots[j] != slots[k]
    }

    static ghost predicate Shows(p: Point, m: PointMsg)
      reads p
    {
      p.Valid() && p.View() == m
    }

    /** The accessor of point `n`. */
    ghost function At(n: nat): PointMsg
      reads this
    {
      if n in shown then shown[n] else EMPTY_POINT
    }

    constructor ()
      ensures Valid() && shown == map[] && fresh(Repr)
    {
      slots, has, shown, Repr := map[], {}, map[], {this};
    }

    /** Brings the table up to date after point `n` has been changed in place. */
    ghost method Changed(n: nat)
      requires Owns() && shown.Keys == has && n in has && slots[n].Valid()
      requires forall k | k in slots && k != n :: Shows(slots[k], At(k))
      modifies this`shown
      ensures Valid() && shown == old(shown)[n := slots[n].View()]
    {
      shown := shown[n := slots[n].View()];
    }

    /** A cleared point in a slot that has none. */
    method Allocate(n: nat)
      requires Valid() && n !in slots
      modifies this
      ensures Valid() && n in slots && Repr == old(Repr) + {slots[n]} && fresh(slots[n])
      ensures shown == old(shown) && has == old(has)
    {
      var p := new Point();
      slots, Repr := slots[n := p], Repr + {p};
      forall k | k in slots
        ensures Shows(slots[k], At(k))
      {
        assert k != n ==> old(Shows(slots[k], At(k)));
      }
    }

    /** `set_has_...()`, which leaves the point as it is. */
    method SetHas(n: nat)
      requires Valid() && n in slots
      modifies this`has, this`shown
      ensures Valid() && n in has && shown == old(shown)[n := old(At(n))]
    {
      has, shown := has + {n}, shown[n := At(n)];
      forall k | k in slots
        ensures Shows(slots[k], At(k))
      {
        assert old(Shows(slots[k], At(k)));
      }
    }

    /** `mutable_...()`: sets the has bit and allocates the point if there is none. */
    method Mutable(n: nat) returns (p: Point)
      requires Valid()
      modifies this
      ensures Valid() && n in has && p == slots[n] && Repr == old(Repr) + {p} && fresh(Repr - old(Repr))
      ensures shown == old(shown)[n := old(At(n))]
    {
      if n !in slots {
        Allocate(n);
      }
      SetHas(n);
      p := slots[n];
    }

    /** `release_...()`. */
    method Release(n: nat) returns (p: Point?)
      requires Valid()
      modifies this
      ensures Valid() && shown == old(shown) - {n} && Repr <= old(Repr)
      ensures p == null <==> n !in old(slots)
      ensures p != null ==> p !in Repr && p.Valid() && p.View() == old(At(n))
    {
      p := null;
      has, shown := has - {n}, shown - {n};
      if n in slots {
        p := slots[n];
        slots, Repr := slots - {n}, Repr - {p};
      }
      forall k | k in slots
        ensures Shows(slots[k], At(k))
      {
        assert old(Shows(slots[k], At(k)));
      }
    }

    /** `clear_...()`. */
    method Clear(n: nat)
      requires Valid()
      modifies Repr
      ensures Valid() && shown == old(shown) - {n} && Repr == old(Repr)
    {
      if n in slots {
        slots[n].Clear();
      }
      has, shown := has - {n}, shown - {n};
    }

    /** `if (has_...()) ...->Clear()`: the has bit stays. */
    method ClearIfSet(n: nat)
      requires Valid()
      modifies Repr
      ensures Valid() && Repr == old(Repr)
      ensures shown.Keys == old(shown.Keys)
      ensures forall k | k in shown :: shown[k] == if k == n then EMPTY_POINT else old(shown[k])
    {
      if n in has {
        slots[n].Clear();
        Changed(n);
      }
    }

    /** The three points of one block of has bits. */
    method ClearBlock(i: nat, j: nat, k: nat)
      requires Valid()
      modifies Repr
      ensures Valid() && Repr == old(Repr) && shown.Keys == old(shown.Keys)
      ensures forall n | n in shown :: shown[n] == if n == i || n == j || n == k then EMPTY_POINT else old(shown[n])
    {
      ClearIfSet(i);
      ClearIfSet(j);
      ClearIfSet(k);
    }

    /** `memset(_has_bits_, 0)`: sound only once every point is cleared. */
    method DropBits()
      requires Valid() && forall n | n in shown :: shown[n] == EMPTY_POINT
      modifies this
      ensures Valid() && shown == map[] && Repr == old(Repr)
    {
      has, shown := {}, map[];
    }

    /** The points' share of `OperationData::Clear`: a block is cleared only when
        `low` or `high` tells that one of its has bits is set, and then all has
        bits are dropped. */
    method ClearAll(low: bool, high: bool)
      requires Valid() && forall n | n in has :: if n <= 6 then low && n >= 4 else high && 10 <= n <= 12
      modifies Repr
      ensures Valid() && shown == map[] && Repr == old(Repr)
    {
      if low {
        ClearBlock(4, 5, 6);
      }
      if high {
        ClearBlock(10, 11, 12);
      }
      DropBits();
    }

    /** `mutable_...()->MergeFrom(from...)`. */
    method Merge(n: nat, from: Points)
      requires Valid() && from.Valid() && Repr !! from.Repr && n in from.shown
      modifies Repr
      ensures Valid() && fresh(Repr - old(Repr))
      ensures shown == old(shown[n := MergePoint(At(n), from.shown[n])])
    {
      ghost var before, was, merged := shown, At(n), MergePoint(At(n), from.shown[n]);
      var q := from.slots[n];
      assert q in from.Repr && Shows(q, from.shown[n]);
      var p := Mutable(n);
      assert q != p && Shows(q, old(from.shown[n]));
      p.MergeFrom(q);
      assert Shows(p, merged);
      Changed(n);
      UpdateTwice(before, n, was, merged);
    }

    /** `if (from.has_...()) mutable_...()->MergeFrom(from...)`. */
    method MergeIfSet(n: nat, from: Points)
      requires Valid() && from.Valid() && Repr !! from.Repr
      modifies Repr
      ensures Valid() && fresh(Repr - old(Repr))
      ensures forall k ::
        PointShown(shown, k) == if k == n then MergePoints(old(PointShown(shown, k)), old(PointShown(from.shown, k)))
                                else old(PointShown(shown, k))
    {
      if n in from.has {
        Merge(n, from);
      }
    }

    method MergeBlock(i: nat, j: nat, k: nat, from: Points)
      requires Valid() && from.Valid() && Repr !! from.Repr && i < j < k
      modifies Repr
      ensures Valid() && fresh(Repr - old(Repr))
      ensures forall n ::
        PointShown(shown, n) == if n == i || n == j || n == k
                                then MergePoints(old(PointShown(shown, n)), old(PointShown(from.shown, n)))
                                else old(PointShown(shown, n))
    {
      MergeIfSet(i, from);
      MergeIfSet(j, from);
      MergeIfSet(k, from);
    }

    /** Every point of `from`, block by block: a block none of whose has bits is
        set is skipped. */
    method MergeFrom(from: Points, low: bool, high: bool)
      requires Valid() && from.Valid() && Repr !! from.Repr
      requires forall n | n in from.has :: if n <= 6 then low && n >= 4 else high && 10 <= n <= 12
      modifies Repr
      ensures Valid() && fresh(Repr - old(Repr))
      ensures shown == MergeTables(old(shown), old(from.shown))
    {
      ghost var s, t := shown, from.shown;
      if low {
        MergeBlock(4, 5, 6, from);
      }
      if high {
        MergeBlock(10, 11, 12, from);
      }
      MergeTablesUnique(s, t, shown);
    }

    /** `ReadMessageNoVirtual` into point `n`. */
    method ReadInto(n: nat, input: CodedInputStream, ghost sub: Option<Submessage>, ghost goal: Outcome<(PointMsg, Bytes)>)
      returns (ok: bool)
      requires Valid() && n in has && input.Ready() && input !in Repr
      requires sub == Enter(input.depth, input.Rest(), input.End()) && goal == ReadPointTo(input.depth, shown[n], sub)
      modifies Repr, input
      ensures Valid() && Repr == old(Repr) && input.Valid()
      ensures input.broken <==> Breaks(old(input.depth), old(input.Rest()), old(input.End()))
      ensures ok ==> input.ReadyAt(old(input.Level())) && input.End() == SettledEnd(old(input.End()))
      ensures n in shown && shown == old(shown)[n := shown[n]]
      ensures !input.broken ==> goal == Ended(ok, false, (shown[n], input.Rest()))
    {
      assert Shows(slots[n], shown[n]);
      ok := slots[n].ReadMessage(input, sub, goal);
      Changed(n);
    }

    /** `ReadMessageNoVirtual(input, mutable_...())`: the has bit is set even if
        the nested parse then fails. */
    method Read(n: nat, input: CodedInputStream, ghost sub: Option<Submessage>, ghost goal: Outcome<(PointMsg, Bytes)>)
      returns (ok: bool)
      requires Valid() && input.Ready() && input !in Repr && sub == Enter(input.depth, input.Rest(), input.End())
      requires goal == ReadPointTo(input.depth, At(n), sub)
      modifies Repr, input
      ensures Valid() && fresh(Repr - old(Repr)) && input.Valid()
      ensures input.broken <==> Breaks(old(input.depth), old(input.Rest()), old(input.End()))
      ensures ok ==> input.ReadyAt(old(input.Level())) && input.End() == SettledEnd(old(input.End()))
      ensures n in shown && shown == old(shown)[n := shown[n]]
      ensures !input.broken ==> goal == Ended(ok, false, (shown[n], input.Rest()))
    {
      ghost var before, was := shown, At(n);
      var p := Mutable(n);
      ok := ReadInto(n, input, sub, goal);
      UpdateTwice(before, n, was, shown[n]);
    }

    /** `if (has_...()) if (!....IsInitialized()) return false` for every point. */
    method AllInitialized() returns (r: bool)
      requires Valid() && has <= DATA_SUBS
      ensures r <==> forall n | n in shown :: PointInitialized(shown[n])
    {
      for i := 0 to |POINT_NUMBERS|
        invariant forall j | 0 <= j < i && POINT_NUMBERS[j] in shown :: PointInitialized(shown[POINT_NUMBERS[j]])
      {
        var n := POINT_NUMBERS[i];
        if n in has {
          assert Shows(slots[n], shown[n]);
          var ok := slots[n].IsInitialized();
          if !ok {
            return false;
          }
        }
      }
      forall n | n in shown
        ensures PointInitialized(shown[n])
      {
        assert n in POINT_NUMBERS;
      }
      return true;
    }

    /** The size that the serializer writes before point `n`. */
    ghost function CachedAt(n: nat): nat
      reads this, slots.Values
    {
      if n in slots then slots[n].cachedSize else 0
    }

    /** `if (has_...()) total_size += 1 + MessageSizeNoVirtual(...)`: also caches
        the size of the point. */
    method ByteSize(n: nat, ghost done: set<nat>) returns (size: nat)
      requires Valid() && n <= 15 && (n in has ==> |SerializePoint(shown[n])| < TWO_31) && Cached(done)
      modifies slots.Values
      ensures Valid() && Cached(done + {n})
      ensures size == PointFieldSize(n, PointShown(shown, n))
    {
      if n !in has {
        return 0;
      }
      LengthDelimitedSize(n, SerializePoint(shown[n]));
      var body := slots[n].ByteSize();
      var prefix := VarintSize32(body);
      size := 1 + prefix + body;
    }

    /** The three points of one block of has bits, if `block` tells that one of its
        bits is set; those of `done` stay cached. */
    method BlockSize(block: bool, i: nat, j: nat, k: nat, ghost done: set<nat>, ghost all: set<nat>) returns (size: nat)
      requires Valid() && i < j < k <= 15 && Cached(done) && all == done + {i, j, k}
      requires forall n | n in has :: |SerializePoint(shown[n])| < TWO_31
      requires block || !(i in has || j in has || k in has)
      modifies slots.Values
      ensures Valid() && Cached(all)
      ensures size == PointFieldSize(i, PointShown(shown, i)) + PointFieldSize(j, PointShown(shown, j))
                      + PointFieldSize(k, PointShown(shown, k))
    {
      if !block {
        return 0;
      }
      var first := ByteSize(i, done);
      var second := ByteSize(j, done + {i});
      var third := ByteSize(k, done + {i} + {j});
      size := first + second + third;
      assert all == done + {i} + {j} + {k};
    }

    /** The points among `ns` that are set have their sizes cached. */
    ghost predicate Cached(ns: set<nat>)
      requires shown.Keys == has
      reads this, slots.Values
    {
      forall n | n in ns && n in has :: CachedAt(n) == |SerializePoint(shown[n])|
    }

    /** `WriteMessageNoVirtualToArray(...)`: the length written is the cached one. */
    static method SerializePointField(n: nat, p: Point, ghost m: PointMsg, target: array<byte>, at: nat,
                                      ghost before: Bytes, ghost start: nat, ghost fs: seq<UnknownField>)
      returns (end: nat)
      requires n <= 15 && p.View() == m && p.cachedSize == |SerializePoint(m)|
      requires Written(target[..], at, before, start, fs)
      requires at + PointFieldSize(n, Some(m)) <= target.Length < TWO_64
      modifies target
      ensures Written(target[..], end, before, start, fs + PointFieldAt(n, Some(m)))
    {
      WrittenMessage(target[..], at, before, start, fs, n, SerializePoint(m));
      end := WriteLengthToArray(n, p.cachedSize, target, at);
      end := p.SerializeWithCachedSizesToArray(target, end);
    }

    /** `if (has_...())` the same. */
    method Serialize(n: nat, target: array<byte>, at: nat,
                     ghost before: Bytes, ghost start: nat, ghost fs: seq<UnknownField>) returns (end: nat)
      requires Valid() && n <= 15 && (n in has ==> CachedAt(n) == |SerializePoint(shown[n])|)
      requires Written(target[..], at, before, start, fs)
      requires at + PointFieldSize(n, PointShown(shown, n)) <= target.Length < TWO_64
      modifies target
      ensures Written(target[..], end, before, start, fs + PointFieldAt(n, PointShown(shown, n)))
    {
      if n !in has {
        assert fs + [] == fs;
        return at;
      }
      assert Shows(slots[n], shown[n]);
      end := SerializePointField(n, slots[n], shown[n], target, at, before, start, fs);
    }

    /** One side of `Swap`: the points of the other table. */
    method Take(points: map<nat, Point>, bits: set<nat>, ghost shows: map<nat, PointMsg>, ghost owned: set<object>)
      requires shows.Keys == bits <= points.Keys
      requires forall j, k | j in points && k in points && j != k :: points[j] != points[k]
      requires forall n | n in points :: points[n] in owned && Shows(points[n], PointShown(shows, n).GetOr(EMPTY_POINT))
      modifies this
      ensures Valid() && shown == shows && has == bits && Repr == {this} + owned
    {
      slots, has, shown, Repr := points, bits, shows, {this} + owned;
      forall n | n in slots
        ensures Shows(slots[n], At(n))
      {
        assert old(Shows(points[n], PointShown(shows, n).GetOr(EMPTY_POINT)));
      }
    }

    method Swap(other: Points)
      requires Valid() && other.Valid() && Repr !! other.Repr
      modifies this, other
      ensures Valid() && other.Valid() && shown == old(other.shown) && other.shown == old(shown)
      ensures Repr == {this} + old(other.Repr - {other}) && other.Repr == {other} + old(Repr - {this})
    {
      var points, bits := slots, has;
      ghost var shows, owned := shown, Repr - {this};
      Take(other.slots, other.has, other.shown, other.Repr - {other});
      other.Take(points, bits, shows, owned);
    }
  }

  lemma UpdateTwice<T>(m: map<nat, T>, n: nat, v: T, w: T)
    ensures m[n := v][n := w] == m[n := w]
  {
  }
}

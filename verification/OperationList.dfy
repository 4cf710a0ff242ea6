/** `operations_`: the `RepeatedPtrField<Operation>` of `Operations`. Cleared
    elements stay allocated beyond `size` and are handed out again by `Add`. */
module OperationList {
  import opened Prelude
  import opened WireFormat
  import opened MessageEngine
  import opened TotalLimit
  import opened CodedStream
  import opened CodedTarget
  import opened OperationDataCodec
  import opened OperationCodec
  import opened OperationMessage
  import opened OperationsCodec

  class Elements {
    var elements: seq<Operation>
    var size: nat                      // current_size_
    ghost var shown: seq<OperationMsg>
    ghost var Repr: set<object>

    ghost predicate Valid()
      reads this, Repr
    {
      && Owns() && Apart() && size == |shown| <= |elements|
      && (forall i | 0 <= i < |elements| :: Shows(elements[i], At(i)))
    }

    /** The list owns its elements. */
    ghost predicate Owns()
      reads this, Repr
    {
      && this in Repr
      && (forall i | 0 <= i < |elements| ::
            elements[i] in Repr && elements[i].Repr <= Repr && this !in elements[i].Repr)
    }

    /** No two elements share an object. */
    ghost predicate Apart()
      requires Owns()
      reads this, Repr
    {
      forall i, j | 0 <= i < j < |elements| :: elements[i].Repr !! elements[j].Repr
    }

    static ghost predicate Shows(op: Operation, m: OperationMsg)
      reads op, op.Repr
    {
      op.Valid() && op.View() == m
    }

    /** An element beyond the size is a cleared one. */
    ghost function At(i: nat): OperationMsg
      reads this
    {
      if i < |shown| then shown[i] else EMPTY_OPERATION
    }

    constructor ()
      ensures Valid() && shown == [] && fresh(Repr)
    {
      elements, size, shown, Repr := [], 0, [], {this};
    }

    /** Brings the ghost fields up to date after element `i` was changed in place. */
    ghost method Changed(i: nat)
      requires this in Repr && i < size == |shown| <= |elements|
      requires elements[i].Valid() && this !in elements[i].Repr
      requires forall j | 0 <= j < |elements| && j != i ::
                 && elements[j] in Repr && elements[j].Repr <= Repr && this !in elements[j].Repr
                 && elements[j].Repr !! elements[i].Repr && Shows(elements[j], At(j))
      requires forall j, k | 0 <= j < k < |elements| && j != i && k != i :: elements[j].Repr !! elements[k].Repr
      modifies this`shown, this`Repr
      ensures Valid() && shown == old(shown)[i := elements[i].View()] && Repr == old(Repr) + elements[i].Repr
    {
      shown, Repr := shown[i := elements[i].View()], Repr + elements[i].Repr;
    }

    /** One more cleared element beyond the size. */
    method Allocate()
      requires Valid()
      modifies this`elements, this`Repr
      ensures Valid() && fresh(Repr - old(Repr)) && |elements| == |old(elements)| + 1
      ensures forall i | 0 <= i < |old(elements)| :: elements[i] == old(elements)[i]
    {
      var op := new Operation();
      elements, Repr := elements + [op], Repr + op.Repr;
    }

    /** A cleared element or a new one. */
    method Add() returns (op: Operation)
      requires Valid()
      modifies this
      ensures Valid() && fresh(Repr - old(Repr))
      ensures size == old(size) + 1 && op == elements[old(size)]
      ensures shown == old(shown) + [EMPTY_OPERATION]
    {
      if size == |elements| {
        Allocate();
      }
      Grow();
      op := elements[size - 1];
    }

    /** The next cleared element comes into use. */
    method Grow()
      requires Valid() && size < |elements|
      modifies this`size, this`shown
      ensures Valid() && size == old(size) + 1 && shown == old(shown) + [EMPTY_OPERATION]
    {
      size, shown := size + 1, shown + [EMPTY_OPERATION];
      forall i | 0 <= i < |elements|
        ensures Shows(elements[i], At(i))
      {
        assert old(Shows(elements[i], At(i)));
      }
    }

    /** `Add()->MergeFrom(from)`. */
    method AddMerged(from: Operation)
      requires Valid() && from.Valid() && Repr !! from.Repr
      modifies Repr
      ensures Valid() && fresh(Repr - old(Repr)) && size == old(size) + 1
      ensures shown == old(shown) + [old(from.View())]
    {
      ghost var before := shown;
      OperationMergeUnit(from.View());
      var op := Add();
      op.MergeFrom(from);
      assert op.View() == old(from.View());
      Changed(size - 1);
      LastChanged(before, EMPTY_OPERATION, op.View());
    }

    /** `RepeatedPtrField::MergeFrom`: appends copies of the other's elements. */
    method MergeFrom(from: Elements)
      requires Valid() && from.Valid() && Repr !! from.Repr
      modifies Repr
      ensures Valid() && fresh(Repr - old(Repr))
      ensures shown == old(shown) + old(from.shown)
    {
      ghost var before, other := shown, from.shown;
      assert before + other[..0] == before;
      for i := 0 to from.size
        invariant Valid() && fresh(Repr - old(Repr)) && from.Valid() && Repr !! from.Repr
        invariant from.shown == other && from.size == |other|
        invariant shown == before + other[..i]
      {
        var op := from.elements[i];
        assert Shows(op, other[i]);
        AddMerged(op);
        assert other[..i + 1] == other[..i] + [other[i]];
      }
      assert other[..|other|] == other;
    }

    /** `Mutable(i)->mutable_data()->mutable_start_point()->set_x(value)` and its
        like. */
    method SetPointXAt(i: nat, n: nat, value: int32)
      requires Valid() && i < size && n in DATA_SUBS
      modifies Repr
      ensures Valid() && fresh(Repr - old(Repr)) && size == old(size)
      ensures shown == old(shown)[i := WithDataPointX(old(shown[i]), n, value)]
    {
      var op := elements[i];
      assert Shows(op, shown[i]);
      op.SetPointX(n, value);
      Changed(i);
    }

    /** `Add()->set_serial_number(value)`. */
    method AddNumbered(value: uint32)
      requires Valid()
      modifies Repr
      ensures Valid() && fresh(Repr - old(Repr)) && size == old(size) + 1
      ensures shown == old(shown) + [EMPTY_OPERATION.(serialNumber := Some(value))]
    {
      ghost var before := shown;
      var op := Add();
      assert Shows(op, EMPTY_OPERATION);
      op.SetSerialNumber(value);
      Changed(size - 1);
      LastChanged(before, EMPTY_OPERATION, op.View());
    }

    method ClearAt(i: nat)
      requires Valid() && i < size
      modifies Repr
      ensures Valid() && fresh(Repr - old(Repr)) && size == old(size)
      ensures shown == old(shown)[i := EMPTY_OPERATION]
    {
      elements[i].Clear();
      Changed(i);
    }

    /** Every element is cleared before the size is dropped. */
    method Clear()
      requires Valid()
      modifies Repr
      ensures Valid() && fresh(Repr - old(Repr)) && shown == []
    {
      for i := 0 to size
        invariant Valid() && fresh(Repr - old(Repr)) && size == old(size)
        invariant forall j | 0 <= j < i :: shown[j] == EMPTY_OPERATION
      {
        ClearAt(i);
      }
      size, shown := 0, [];
    }

    /** `ReadMessageNoVirtual` into element `i`, which is cleared. */
    method ReadAt(i: nat, input: CodedInputStream, ghost sub: Option<Submessage>, ghost goal: Outcome<(OperationMsg, Bytes)>)
      returns (ok: bool)
      requires Valid() && i < size && shown[i] == EMPTY_OPERATION
      requires input.Ready() && input !in Repr && sub == Enter(input.depth, input.Rest(), input.End())
      requires goal == ReadOperationTo(input.depth, EMPTY_OPERATION, sub)
      modifies Repr, input
      ensures Valid() && fresh(Repr - old(Repr)) && input.Valid()
      ensures input.broken <==> Breaks(old(input.depth), old(input.Rest()), old(input.End()))
      ensures ok ==> input.ReadyAt(old(input.Level())) && input.End() == SettledEnd(old(input.End()))
      ensures size == old(size) && shown == old(shown)[i := shown[i]]
      ensures !input.broken ==> goal == Ended(ok, false, (shown[i], input.Rest()))
    {
      var op := elements[i];
      assert Shows(op, EMPTY_OPERATION);
      ok := op.ReadMessage(input, sub, goal);
      Changed(i);
    }

    /** `ReadMessageNoVirtual(input, add_operations())`: the element is there even
        if the nested parse then fails. */
    method Read(input: CodedInputStream, ghost sub: Option<Submessage>, ghost goal: Outcome<(OperationMsg, Bytes)>)
      returns (ok: bool, ghost op: OperationMsg)
      requires Valid() && input.Ready() && input !in Repr && sub == Enter(input.depth, input.Rest(), input.End())
      requires goal == ReadOperationTo(input.depth, EMPTY_OPERATION, sub)
      modifies Repr, input
      ensures Valid() && fresh(Repr - old(Repr)) && input.Valid()
      ensures input.broken <==> Breaks(old(input.depth), old(input.Rest()), old(input.End()))
      ensures ok ==> input.ReadyAt(old(input.Level())) && input.End() == SettledEnd(old(input.End()))
      ensures shown == old(shown) + [op]
      ensures !input.broken ==> goal == Ended(ok, false, (op, input.Rest()))
    {
      var added := Add();
      ok := ReadAt(size - 1, input, sub, goal);
      op := shown[size - 1];
    }

    method AllInitialized() returns (r: bool)
      requires Valid()
      ensures r <==> forall op | op in shown :: OperationInitialized(op)
    {
      for i := 0 to size
        invariant forall j | 0 <= j < i :: OperationInitialized(shown[j])
      {
        assert Shows(elements[i], shown[i]);
        var ok := elements[i].IsInitialized();
        if !ok {
          return false;
        }
      }
      return true;
    }

    // ----------------------------------------------------------- serializing

    /** The element's size is cached, and those of its parts. */
    static ghost predicate Ready(op: Operation, m: OperationMsg)
      reads op, op.Repr
    {
      op.Cached() && op.View() == m && op.cachedSize == |SerializeOperation(m)|
    }

    ghost predicate ReadyTo(n: nat)
      requires Owns() && n <= size == |shown| <= |elements|
      reads this, Repr
    {
      forall j | 0 <= j < n :: Ready(elements[j], shown[j])
    }

    /** Every element's size is cached: what the serializers ask. */
    ghost predicate Cached()
      reads this, Repr
    {
      Owns() && size == |shown| <= |elements| && ReadyTo(size)
    }

    /** `operations(i).ByteSize()`. */
    method CacheAt(i: nat) returns (body: nat)
      requires Valid() && i < size && ReadyTo(i) && |SerializeOperation(shown[i])| < TWO_31
      modifies Repr
      ensures Valid() && Repr == old(Repr) && shown == old(shown) && size == old(size) && ReadyTo(i + 1)
      ensures body == |SerializeOperation(shown[i])|
    {
      body := elements[i].ByteSize();
      assert Ready(elements[i], shown[i]) && Shows(elements[i], shown[i]);
      forall j | 0 <= j < |elements| && j != i
        ensures Shows(elements[j], At(j)) && (j < i ==> Ready(elements[j], shown[j]))
      {
        assert old(Shows(elements[j], At(j))) && elements[j].Repr !! elements[i].Repr;
      }
    }

    /** `MessageSizeNoVirtual(operations(i))`. */
    method SizeAt(i: nat) returns (n: nat)
      requires Valid() && i < size && ReadyTo(i) && |SerializeOperation(shown[i])| < TWO_31
      modifies Repr
      ensures Valid() && Repr == old(Repr) && shown == old(shown) && size == old(size) && ReadyTo(i + 1)
      ensures 1 + n == |EncodeFields([ElementField(shown[i])])|
    {
      LengthDelimitedSize(2, SerializeOperation(shown[i]));
      n := CacheAt(i);
      var prefix := VarintSize32(n);
      n := prefix + n;
    }

    /** The elements' share of `ByteSize`: `1 * operations_size()` for the tags,
        then a length and a body each. */
    method ByteSize() returns (total: nat)
      requires Valid() && |EncodeFields(OperationFields(shown))| < TWO_31
      modifies Repr
      ensures Valid() && Cached() && Repr == old(Repr) && shown == old(shown)
      ensures total == |EncodeFields(OperationFields(shown))|
    {
      ghost var ops := shown;
      total := 1 * size;
      for i := 0 to size
        invariant Valid() && Repr == old(Repr) && shown == ops && size == old(size) && ReadyTo(i)
        invariant total == |EncodeFields(OperationFields(ops[..i]))| + size - i
      {
        ElementsFit(ops, i);
        OperationFieldsNext(ops, i);
        var n := SizeAt(i);
        total := total + n;
      }
      assert ops[..|ops|] == ops;
    }

    /** `WriteMessageNoVirtualToArray(2, operations(i), target)`. */
    static method SerializeElement(op: Operation, ghost m: OperationMsg, target: array<byte>, at: nat,
                                   ghost before: Bytes, ghost start: nat, ghost fs: seq<UnknownField>) returns (end: nat)
      requires Ready(op, m) && target !in op.Repr && Written(target[..], at, before, start, fs)
      requires at + |EncodeFields([ElementField(m)])| <= target.Length < TWO_64
      modifies target
      ensures Written(target[..], end, before, start, fs + [ElementField(m)])
    {
      ghost var d := SerializeOperation(m);
      WrittenMessage(target[..], at, before, start, fs, 2, d);
      end := WriteLengthToArray(2, op.cachedSize, target, at);
      end := op.SerializeWithCachedSizesToArray(target, end);
    }

    method SerializeNext(i: nat, target: array<byte>, at: nat,
                         ghost before: Bytes, ghost start: nat, ghost fs: seq<UnknownField>,
                         ghost ops: seq<OperationMsg>) returns (end: nat)
      requires Cached() && i < size && target !in Repr && ops == shown
      requires WrittenTo(target[..], at, before, start, fs, ops, i)
      requires start + |EncodeFields(fs)| + |EncodeFields(OperationFields(ops))| <= target.Length < TWO_64
      modifies target
      ensures Cached() && WrittenTo(target[..], end, before, start, fs, ops, i + 1)
    {
      RoomForNext(fs, ops, i);
      end := SerializeElement(elements[i], ops[i], target, at, before, start, fs + OperationFields(ops[..i]));
    }

    method Serialize(target: array<byte>, at: nat,
                     ghost before: Bytes, ghost start: nat, ghost fs: seq<UnknownField>) returns (end: nat)
      requires Cached() && target !in Repr && Written(target[..], at, before, start, fs)
      requires at + |EncodeFields(OperationFields(shown))| <= target.Length < TWO_64
      modifies target
      ensures Written(target[..], end, before, start, fs + OperationFields(shown))
    {
      ghost var ops := shown;
      FieldsAtEnds(fs, ops);
      end := at;
      for i := 0 to size
        invariant Cached() && shown == ops && WrittenTo(target[..], end, before, start, fs, ops, i)
      {
        end := SerializeNext(i, target, end, before, start, fs, ops);
      }
    }

    /** One side of `Swap`: the elements of the other list. */
    method Take(ops: seq<Operation>, count: nat, ghost shows: seq<OperationMsg>, ghost owned: set<object>)
      requires count == |shows| <= |ops| && this !in owned
      requires forall i | 0 <= i < |ops| ::
                 ops[i] in owned && ops[i].Repr <= owned && Shows(ops[i], if i < count then shows[i] else EMPTY_OPERATION)
      requires forall i, j | 0 <= i < j < |ops| :: ops[i].Repr !! ops[j].Repr
      modifies this
      ensures Valid() && shown == shows && Repr == {this} + owned
    {
      elements, size, shown, Repr := ops, count, shows, {this} + owned;
    }

    /** `RepeatedPtrField::Swap`. */
    method Swap(other: Elements)
      requires Valid() && other.Valid() && Repr !! other.Repr
      modifies this, other
      ensures Valid() && other.Valid() && Repr !! other.Repr
      ensures shown == old(other.shown) && other.shown == old(shown)
      ensures Repr == {this} + old(other.Repr - {other}) && other.Repr == {other} + old(Repr - {this})
    {
      var ops, count := elements, size;
      ghost var shows, owned := shown, Repr - {this};
      Take(other.elements, other.size, other.shown, other.Repr - {other});
      other.Take(ops, count, shows, owned);
    }
  }

  /** `fs` and the first `i` elements have been written. */
  ghost predicate WrittenTo(now: Bytes, at: nat, before: Bytes, start: nat, fs: seq<UnknownField>,
                            ops: seq<OperationMsg>, i: nat)
    requires i <= |ops|
  {
    Written(now, at, before, start, fs + OperationFields(ops[..i]))
  }

  /** After `fs` and `i` elements, element `i` still fits where they all do. */
  lemma RoomForNext(fs: seq<UnknownField>, ops: seq<OperationMsg>, i: nat)
    requires i < |ops|
    ensures fs + OperationFields(ops[..i + 1]) == fs + OperationFields(ops[..i]) + [ElementField(ops[i])]
    ensures |EncodeFields(fs + OperationFields(ops[..i]))| + |EncodeFields([ElementField(ops[i])])|
         <= |EncodeFields(fs)| + |EncodeFields(OperationFields(ops))|
  {
    var done := OperationFields(ops[..i]);
    OperationFieldsNext(ops, i);
    OperationFieldsPrefix(ops, i + 1);
    assert fs + (done + [ElementField(ops[i])]) == fs + done + [ElementField(ops[i])];
    EncodeFieldsConcat(fs, done);
  }

  lemma FieldsAtEnds(fs: seq<UnknownField>, ops: seq<OperationMsg>)
    ensures fs + OperationFields(ops[..0]) == fs
    ensures fs + OperationFields(ops[..|ops|]) == fs + OperationFields(ops)
  {
    assert ops[..|ops|] == ops;
  }

  lemma LastChanged<T>(s: seq<T>, x: T, y: T)
    ensures (s + [x])[|s| := y] == s + [y]
  {
  }
}
